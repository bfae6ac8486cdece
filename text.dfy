/**
 * Character classes and the few string operations of Python's `str` that the
 * upgrader relies on: `in` (substring test), `startswith`/`endswith`,
 * `split(',')`, `','.join(...)` and `strip()`.
 */
module Text {

  /** `[a-zA-Z]`, the first character of an identifier. */
  predicate IsAsciiLetter(c: char) {
    'a' <= c <= 'z' || 'A' <= c <= 'Z'
  }

  /** `[a-zA-Z0-9_]`, the rest of an identifier; also the word characters of `\b`. */
  predicate IsWordChar(c: char) {
    IsAsciiLetter(c) || '0' <= c <= '9' || c == '_'
  }

  /** The characters `str.isspace()` accepts, which is also what `\s` matches. */
  predicate IsSpace(c: char) {
    || '\t' <= c <= '\r'
    || '\U{1c}' <= c <= '\U{20}'
    || c == '\U{85}' || c == '\U{a0}' || c == '\U{1680}'
    || '\U{2000}' <= c <= '\U{200a}'
    || c == '\U{2028}' || c == '\U{2029}' || c == '\U{202f}' || c == '\U{205f}'
    || c == '\U{3000}'
  }

  /** The single-character classes that the upgrader's patterns repeat with `*` or `+`. */
  datatype CharClass =
    | Blank          // ' '
    | Space          // \s
    | NotNewline     // .
    | IdentTail      // [a-zA-Z0-9_]
    | NotCloseBracket // [^]]

  predicate InClass(c: char, cls: CharClass) {
    match cls
    case Blank => c == ' '
    case Space => IsSpace(c)
    case NotNewline => c != '\n'
    case IdentTail => IsWordChar(c)
    case NotCloseBracket => c != ']'
  }

  predicate AllIn(s: string, cls: CharClass) {
    forall k {:trigger InClass(s[k], cls)} :: 0 <= k < |s| ==> InClass(s[k], cls)
  }

  /** End of the longest run of `cls` characters that starts at `i`: what a greedy `cls*` consumes. */
  function RunEnd(s: string, i: nat, cls: CharClass): (j: nat)
    requires i <= |s|
    ensures i <= j <= |s|
    ensures forall k {:trigger InClass(s[k], cls)} :: i <= k < j ==> InClass(s[k], cls)
    ensures j == |s| || !InClass(s[j], cls)
    decreases |s| - i
  {
    if i < |s| && InClass(s[i], cls) then RunEnd(s, i + 1, cls) else i
  }

  /** Start of the longest run of `cls` characters that ends at `j`. */
  function RunStart(s: string, j: nat, cls: CharClass): (i: nat)
    requires j <= |s|
    ensures i <= j
    ensures forall k {:trigger InClass(s[k], cls)} :: i <= k < j ==> InClass(s[k], cls)
    ensures i == 0 || !InClass(s[i - 1], cls)
  {
    if j > 0 && InClass(s[j - 1], cls) then RunStart(s, j - 1, cls) else j
  }

  /** The characters a greedy run covers are all of its class. */
  lemma RunIsAllIn(s: string, i: nat, cls: CharClass)
    requires i <= |s|
    ensures AllIn(s[i..RunEnd(s, i, cls)], cls)
  {
    var run := s[i..RunEnd(s, i, cls)];
    forall k | 0 <= k < |run| ensures InClass(run[k], cls) {
      assert run[k] == s[i + k];
    }
  }

  /** Dropping the last character keeps a run a run. */
  lemma AllInShorter(s: string, i: nat, j: nat, cls: CharClass)
    requires i < j <= |s|
    requires AllIn(s[i..j], cls)
    ensures AllIn(s[i..j - 1], cls)
  {
    var long := s[i..j];
    var short := s[i..j - 1];
    forall k | 0 <= k < |short| ensures InClass(short[k], cls) {
      assert short[k] == long[k];
    }
  }

  /** A run ends exactly where its class stops. */
  lemma RunEndIs(s: string, i: nat, j: nat, cls: CharClass)
    requires i <= j <= |s|
    requires forall k :: i <= k < j ==> InClass(s[k], cls)
    requires j == |s| || !InClass(s[j], cls)
    ensures RunEnd(s, i, cls) == j
  {
  }

  /** Every character of a run, read in the whole text. */
  lemma AllInRange(s: string, i: nat, j: nat, cls: CharClass)
    requires i <= j <= |s| && AllIn(s[i..j], cls)
    ensures forall k :: i <= k < j ==> InClass(s[k], cls)
  {
    forall k | i <= k < j ensures InClass(s[k], cls) {
      assert s[k] == s[i..j][k - i];
    }
  }

  /** A run reaches at least as far as the class holds. */
  lemma {:induction false} RunEndCovers(s: string, i: nat, j: nat, cls: CharClass)
    requires i <= j <= |s|
    requires forall k :: i <= k < j ==> InClass(s[k], cls)
    ensures j <= RunEnd(s, i, cls)
    decreases j - i
  {
    if i < j {
      RunEndCovers(s, i + 1, j, cls);
    }
  }

  /** A run of `cls` that meets a character outside it is exactly what `cls*` consumes. */
  lemma RunEndOf(s: string, i: nat, j: nat, cls: CharClass)
    requires i <= j < |s| && AllIn(s[i..j], cls) && !InClass(s[j], cls)
    ensures RunEnd(s, i, cls) == j
  {
    AllInRange(s, i, j, cls);
    RunEndIs(s, i, j, cls);
  }

  /** A run stops at or before the first character outside its class. */
  lemma RunEndBefore(s: string, i: nat, j: nat, cls: CharClass)
    requires i <= j < |s| && !InClass(s[j], cls)
    ensures RunEnd(s, i, cls) <= j
  {
  }

  /** A run in a suffix is the same run in the whole text, shifted. */
  lemma {:induction false} RunEndSlice(s: string, p: nat, i: nat, cls: CharClass)
    requires p + i <= |s|
    ensures RunEnd(s[p..], i, cls) + p == RunEnd(s, p + i, cls)
    decreases |s| - p - i
  {
    if p + i < |s| {
      assert s[p..][i] == s[p + i];
      RunEndSlice(s, p, i + 1, cls);
    }
  }

  /** With no newline ahead, `.*` runs to the end of the text. */
  lemma NoNewlineRunsToEnd(s: string, i: nat)
    requires i <= |s|
    requires forall k :: i <= k < |s| ==> s[k] != '\n'
    ensures RunEnd(s, i, NotNewline) == |s|
  {
    RunEndIs(s, i, |s|, NotNewline);
  }

  /** A slice of a slice is a slice of the whole text. */
  lemma SliceOfSlice(s: string, i: nat, j: nat, k: nat, l: nat)
    requires i <= j <= |s| && k <= l <= j - i
    ensures s[i..j][k..l] == s[i + k..i + l]
  {
    var x := s[i..j][k..l];
    var y := s[i + k..i + l];
    forall m | 0 <= m < l - k ensures x[m] == y[m] {
      assert x[m] == s[i..j][k + m] == s[i + k + m];
    }
  }

  predicate StartsWith(s: string, prefix: string) {
    |prefix| <= |s| && s[..|prefix|] == prefix
  }

  predicate EndsWith(s: string, suffix: string) {
    |suffix| <= |s| && s[|s| - |suffix|..] == suffix
  }

  predicate SubstringAt(s: string, sub: string, i: nat) {
    i + |sub| <= |s| && s[i..i + |sub|] == sub
  }

  /** Python's `sub in s`. */
  predicate Contains(s: string, sub: string) {
    exists i: nat :: i <= |s| && SubstringAt(s, sub, i)
  }

  /** Python's `str.strip()` with no argument. */
  function Strip(s: string): string {
    var i := RunEnd(s, 0, Space);
    if i == |s| then [] else s[i..RunStart(s, |s|, Space)]
  }

  /** Strip removes the leading and trailing whitespace and nothing else. */
  lemma StripTrims(s: string)
    ensures var r := Strip(s);
      && (r == [] || (!IsSpace(r[0]) && !IsSpace(r[|r| - 1])))
      && exists i: nat :: i <= |s| && SubstringAt(s, r, i) && AllIn(s[..i], Space) && AllIn(s[i + |r|..], Space)
  {
    var i := RunEnd(s, 0, Space);
    if i == |s| {
      assert SubstringAt(s, [], i);
    } else {
      var j := RunStart(s, |s|, Space);
      assert SubstringAt(s, s[i..j], i);
    }
  }

  /** Index of the first occurrence of `c`. */
  function FirstIndex(s: string, c: char): (i: nat)
    requires c in s
    ensures i < |s| && s[i] == c && c !in s[..i]
  {
    if s[0] == c then 0 else FirstIndex(s[1..], c) + 1
  }

  /** Python's `s.split(sep)` for a one-character separator: empty pieces are kept. */
  function Split(s: string, sep: char): (parts: seq<string>)
    ensures |parts| >= 1
    ensures forall k :: 0 <= k < |parts| ==> sep !in parts[k]
    decreases |s|
  {
    if sep !in s then [s]
    else
      var i := FirstIndex(s, sep);
      [s[..i]] + Split(s[i + 1..], sep)
  }

  /** Python's `sep.join(parts)`. */
  function Join(parts: seq<string>, sep: char): string
    requires |parts| >= 1
  {
    if |parts| == 1 then parts[0] else parts[0] + [sep] + Join(parts[1..], sep)
  }

  /** Joining the pieces of a split gives the original text back. */
  lemma {:induction false} JoinSplit(s: string, sep: char)
    ensures Join(Split(s, sep), sep) == s
    decreases |s|
  {
    if sep in s {
      var i := FirstIndex(s, sep);
      var tail := s[i + 1..];
      JoinSplit(tail, sep);
      JoinCons(s[..i], Split(tail, sep), sep);
      assert s == s[..i] + [sep] + tail;
    }
  }

  /** Joining a list with a head puts the separator between the head and the join of the rest. */
  lemma JoinCons(head: string, rest: seq<string>, sep: char)
    requires |rest| >= 1
    ensures Join([head] + rest, sep) == head + [sep] + Join(rest, sep)
  {
    assert ([head] + rest)[1..] == rest;
  }

  /** Splitting a join of separator-free pieces gives the pieces back. */
  lemma {:induction false} SplitJoin(parts: seq<string>, sep: char)
    requires |parts| >= 1
    requires forall k :: 0 <= k < |parts| ==> sep !in parts[k]
    ensures Split(Join(parts, sep), sep) == parts
  {
    if |parts| > 1 {
      var rest := Join(parts[1..], sep);
      assert Join(parts, sep) == parts[0] + [sep] + rest;
      SplitAtFirst(parts[0], sep, rest);
      SplitJoin(parts[1..], sep);
      assert parts == [parts[0]] + parts[1..];
    } else {
      assert sep !in parts[0];
    }
  }

  /** Splitting at the first separator: the separator-free head is the first piece. */
  lemma SplitAtFirst(head: string, sep: char, rest: string)
    requires sep !in head
    ensures Split(head + [sep] + rest, sep) == [head] + Split(rest, sep)
  {
    var s := head + [sep] + rest;
    assert s[|head|] == sep;
    var i := FirstIndex(s, sep);
    assert s[..i] == head;
    assert s[i + 1..] == rest;
  }
}
