/**
 * What the rewrite rules of module Patterns promise: a rule with no match
 * leaves the text alone, a rename fires exactly on a whole word followed by
 * spaces and `(`, and the member and call rules only ever rewrite text of the
 * documented shape, stated against an independent grammar of expressions.
 */
module PatternLaws {
  import opened Wrappers
  import opened Text
  import opened Patterns

  // ---------------------------------------------------------------------
  // re.sub

  /** Where a rule matches nowhere, the substitution gives the text back unchanged. */
  lemma {:induction false} SubFromNoMatch(rule: Rule, s: string, i: nat)
    requires i <= |s|
    requires forall j :: i <= j < |s| ==> MatchAt(rule, s, j).None?
    ensures SubFrom(rule, s, i) == s[i..]
    decreases |s| - i
  {
    if i < |s| {
      SubFromNoMatch(rule, s, i + 1);
      assert s[i..] == [s[i]] + s[i + 1..];
    }
  }

  /** A substitution that changes the text matched somewhere. */
  lemma SubChangedMeansMatch(rule: Rule, s: string)
    requires Sub(rule, s) != s
    ensures exists j :: 0 <= j < |s| && MatchAt(rule, s, j).Some?
  {
    if forall j :: 0 <= j < |s| ==> MatchAt(rule, s, j).None? {
      SubFromNoMatch(rule, s, 0);
    }
  }

  // ---------------------------------------------------------------------
  // Renames

  /** `\bOLD\b( *\()` matches at `p` of `s` with `k` spaces between the name and the parenthesis. */
  ghost predicate RenameMatches(s: string, p: nat, oldName: string, k: nat) {
    var e := p + |oldName|;
    && Boundary(s, p) && SubstringAt(s, oldName, p) && Boundary(s, e)
    && e + k < |s| && AllIn(s[e..e + k], Blank) && s[e + k] == '('
  }

  /**
   * A rename matches exactly at a whole-word occurrence of the old name that
   * spaces and `(` follow, and then the name alone is replaced: the spaces and
   * the parenthesis are kept.
   */
  lemma RenameMatchAt(oldName: string, newName: string, s: string, p: nat)
    requires p <= |s|
    ensures MatchAt(Rename(oldName, newName), s, p).Some? <==> exists k: nat :: RenameMatches(s, p, oldName, k)
    ensures forall k: nat :: RenameMatches(s, p, oldName, k) ==>
      MatchAt(Rename(oldName, newName), s, p)
        == Some(Hit(|oldName| + k + 1, newName + s[p + |oldName|..p + |oldName| + k + 1]))
  {
    var e := p + |oldName|;
    if Boundary(s, p) && SubstringAt(s, oldName, p) && Boundary(s, e) {
      var c := RunEnd(s, e, Blank);
      forall k: nat | RenameMatches(s, p, oldName, k)
        ensures c == e + k
      {
        RenameSpacesUnique(s, e, k);
      }
      if c < |s| && s[c] == '(' {
        RunIsAllIn(s, e, Blank);
        RenameMatchesOf(s, p, oldName, c - e);
      }
    }
  }

  /** The spaces of a rename match are the whole run of spaces after the name. */
  lemma RenameSpacesUnique(s: string, e: nat, k: nat)
    requires e + k < |s| && AllIn(s[e..e + k], Blank) && s[e + k] == '('
    ensures RunEnd(s, e, Blank) == e + k
  {
    var run := s[e..e + k];
    forall j | e <= j < e + k ensures InClass(s[j], Blank) {
      assert InClass(run[j - e], Blank);
    }
    RunEndIs(s, e, e + k, Blank);
  }

  /** The parts of a rename match, put together. */
  lemma RenameMatchesOf(s: string, p: nat, oldName: string, k: nat)
    requires Boundary(s, p) && SubstringAt(s, oldName, p) && Boundary(s, p + |oldName|)
    requires p + |oldName| + k < |s| && AllIn(s[p + |oldName|..p + |oldName| + k], Blank)
    requires s[p + |oldName| + k] == '('
    ensures RenameMatches(s, p, oldName, k)
  {
  }

  /** A rename never fires inside a longer identifier, nor at a name that no parenthesis follows. */
  lemma RenameIsWholeWord(oldName: string, newName: string, s: string, p: nat)
    requires p <= |s|
    requires |oldName| > 0 && IsWordChar(oldName[0]) && IsWordChar(oldName[|oldName| - 1])
    requires MatchAt(Rename(oldName, newName), s, p).Some?
    ensures p == 0 || !IsWordChar(s[p - 1])
    ensures p + |oldName| < |s| && !IsWordChar(s[p + |oldName|])
  {
    RenameMatchAt(oldName, newName, s, p);
    var k: nat :| RenameMatches(s, p, oldName, k);
    assert s[p..p + |oldName|] == oldName;
    assert s[p] == oldName[0] && s[p + |oldName| - 1] == oldName[|oldName| - 1];
  }

  /** A rename can only match where the old name occurs. */
  lemma RenameNeedsName(oldName: string, newName: string, s: string, p: nat)
    requires p <= |s| && !SubstringAt(s, oldName, p)
    ensures MatchAt(Rename(oldName, newName), s, p).None?
  {
  }

  /** A rename whose old name occurs nowhere leaves the text unchanged. */
  lemma RenameWithoutName(oldName: string, newName: string, s: string)
    requires forall p: nat :: p < |s| ==> !SubstringAt(s, oldName, p)
    ensures Sub(Rename(oldName, newName), s) == s
  {
    forall j | 0 <= j < |s| ensures MatchAt(Rename(oldName, newName), s, j).None? {
      RenameNeedsName(oldName, newName, s, j);
    }
    SubFromNoMatch(Rename(oldName, newName), s, 0);
  }

  // ---------------------------------------------------------------------
  // The expression grammar of EXPR_REGEX, written independently of the matcher

  /** `[a-zA-Z][a-zA-Z0-9_]*` */
  ghost predicate IsIdent(s: string) {
    |s| >= 1 && IsAsciiLetter(s[0]) && AllIn(s[1..], IdentTail)
  }

  /** `\[[^]]+\]` */
  ghost predicate IsIndex(s: string) {
    |s| >= 3 && s[0] == '[' && s[|s| - 1] == ']' && forall k :: 1 <= k < |s| - 1 ==> s[k] != ']'
  }

  /** Zero or more indices. */
  ghost predicate IsIndices(s: string)
    decreases |s|
  {
    s == [] || exists k :: 3 <= k <= |s| && IsIndex(s[..k]) && IsIndices(s[k..])
  }

  /** An identifier followed by its indices. */
  ghost predicate IsSubExpr(s: string) {
    exists k :: 1 <= k <= |s| && IsIdent(s[..k]) && IsIndices(s[k..])
  }

  ghost predicate IsSep(s: string) {
    s == "->" || s == "."
  }

  /** Sub-expressions chained by `->` or `.`. */
  ghost predicate IsExpr(s: string)
    decreases |s|
  {
    || IsSubExpr(s)
    || exists i, j :: 0 < i < j < |s| && IsSubExpr(s[..i]) && IsSep(s[i..j]) && IsExpr(s[j..])
  }

  lemma BracketEndSound(t: string, i: nat)
    requires i <= |t|
    requires BracketEnd(t, i).Some?
    ensures IsIndex(t[i..BracketEnd(t, i).value])
  {
    var r := RunEnd(t, i + 1, NotCloseBracket);
    var x := t[i..r + 1];
    forall k | 1 <= k < |x| - 1 ensures x[k] != ']' {
      assert x[k] == t[i + k];
    }
  }

  lemma {:induction false} BracketsEndSound(t: string, i: nat)
    requires i <= |t|
    ensures IsIndices(t[i..BracketsEnd(t, i)])
    decreases |t| - i
  {
    match BracketEnd(t, i)
    case None =>
      assert t[i..i] == [];
    case Some(k) =>
      var j := BracketsEnd(t, k);
      assert j == BracketsEnd(t, i);
      var x := t[i..j];
      assert x[..k - i] == t[i..k];
      assert x[k - i..] == t[k..j];
      BracketEndSound(t, i);
      BracketsEndSound(t, k);
      assert 3 <= k - i <= |x| && IsIndex(x[..k - i]) && IsIndices(x[k - i..]);
  }

  lemma SubExprEndSound(t: string, i: nat)
    requires i <= |t|
    requires SubExprEnd(t, i).Some?
    ensures IsSubExpr(t[i..SubExprEnd(t, i).value])
  {
    var r := RunEnd(t, i + 1, IdentTail);
    var q := SubExprEnd(t, i).value;
    BracketsEndSound(t, r);
    var x := t[i..q];
    assert x[..r - i] == t[i..r];
    assert x[r - i..] == t[r..q];
    var tail := x[..r - i][1..];
    assert IsIdent(x[..r - i]) by {
      forall k | 0 <= k < |tail| ensures InClass(tail[k], IdentTail) {
        assert tail[k] == t[i + 1 + k];
      }
    }
  }

  /** Every end the matcher offers for the expression closes a text of the grammar. */
  lemma {:induction false} ExprEndsSound(t: string, i: nat)
    requires i <= |t|
    ensures forall k :: 0 <= k < |ExprEnds(t, i)| ==> IsExpr(t[i..ExprEnds(t, i)[k]])
    decreases |t| - i
  {
    if SubExprEnd(t, i).Some? {
      var q := SubExprEnd(t, i).value;
      SubExprEndSound(t, i);
      if SepEnd(t, q).Some? {
        var n := SepEnd(t, q).value;
        ExprEndsSound(t, n);
        assert ExprEnds(t, i) == [q] + ExprEnds(t, n);
        ExprChainAll(t, i, q, n, ExprEnds(t, n));
      } else {
        assert ExprEnds(t, i) == [q];
        assert IsExpr(t[i..q]);
      }
    }
  }

  /** A sub-expression and a separator before each expression of a list give an expression at each end. */
  lemma ExprChainAll(t: string, i: nat, q: nat, n: nat, rest: seq<nat>)
    requires i < q < n <= |t|
    requires SepEnd(t, q) == Some(n)
    requires IsSubExpr(t[i..q])
    requires forall k :: 0 <= k < |rest| ==> n < rest[k] <= |t| && IsExpr(t[n..rest[k]])
    ensures forall k :: 0 <= k < |[q] + rest| ==> IsExpr(t[i..([q] + rest)[k]])
  {
    assert IsSep(t[q..n]) by {
      if SubstringAt(t, "->", q) {
        assert t[q..n] == "->";
      } else {
        assert t[q..n] == [t[q]];
      }
    }
    forall k | 0 <= k < |[q] + rest| ensures IsExpr(t[i..([q] + rest)[k]]) {
      if k == 0 {
        assert IsExpr(t[i..q]);
      } else {
        assert ([q] + rest)[k] == rest[k - 1];
        ExprChainAt(t, i, q, n, rest[k - 1]);
      }
    }
  }

  lemma ExprChainAt(t: string, i: nat, q: nat, n: nat, z: nat)
    requires i < q < n < z <= |t|
    requires IsSubExpr(t[i..q]) && IsSep(t[q..n]) && IsExpr(t[n..z])
    ensures IsExpr(t[i..z])
  {
    var x := t[i..z];
    assert x[..q - i] == t[i..q];
    var sep := x[q - i..n - i];
    assert |sep| == n - q;
    forall k | 0 <= k < |sep| ensures sep[k] == t[q..n][k] {
      assert sep[k] == x[q - i + k] == t[q + k];
    }
    assert sep == t[q..n];
    assert x[n - i..] == t[n..z];
    ExprChain(x, q - i, n - i);
  }

  /** A sub-expression, a separator and an expression make an expression. */
  lemma ExprChain(x: string, i: nat, j: nat)
    requires 0 < i < j < |x|
    requires IsSubExpr(x[..i]) && IsSep(x[i..j]) && IsExpr(x[j..])
    ensures IsExpr(x)
  {
  }

  // ---------------------------------------------------------------------
  // The tails after the expression

  /** ` *-> *MEMBER` */
  ghost predicate ArrowTo(x: string, member: string) {
    exists a: nat, b: nat :: ArrowItems(x, a, b, member)
  }

  /** No `=` follows position `e`, even after whitespace: the lookahead `(?!\s*=\s*)`. */
  ghost predicate NoAssignAt(t: string, e: nat) {
    forall w :: e <= w < |t| && AllIn(t[e..w], Space) ==> t[w] != '='
  }

  /**
   * `t[u..n]` is `C*([^=].*)C*;` with the group at `t[vs..ve]`: padding of class
   * `cls`, a first character that is not `=`, no newline after it, padding and `;`.
   */
  ghost predicate AssignedValue(t: string, u: nat, vs: nat, ve: nat, n: nat, cls: CharClass) {
    && u <= vs < ve < n <= |t|
    && AllIn(t[u..vs], cls) && t[vs] != '='
    && (forall k :: vs < k < ve ==> t[k] != '\n')
    && AllIn(t[ve..n - 1], cls) && t[n - 1] == ';'
  }

  lemma ArrowMemberEndSound(t: string, q: nat, member: string)
    requires q <= |t|
    requires ArrowMemberEnd(t, q, member).Some?
    ensures var e := ArrowMemberEnd(t, q, member).value;
      ArrowTo(t[q..e], member) && Boundary(t, e)
  {
    var e := ArrowMemberEnd(t, q, member).value;
    var a := RunEnd(t, q, Blank);
    var b := RunEnd(t, a + 2, Blank);
    assert e == b + |member| && t[b..e] == member && t[a..a + 2] == "->";
    RunIsAllIn(t, q, Blank);
    RunIsAllIn(t, a + 2, Blank);
    ArrowItemsOf(t, q, a, b, e, member);
  }

  lemma ArrowItemsOf(t: string, q: nat, a: nat, b: nat, e: nat, member: string)
    requires q <= a && a + 2 <= b && b + |member| == e <= |t|
    requires AllIn(t[q..a], Blank) && t[a..a + 2] == "->" && AllIn(t[a + 2..b], Blank) && t[b..e] == member
    ensures ArrowItems(t[q..e], a - q, b - q, member)
  {
    var x := t[q..e];
    SliceOfSlice(t, q, e, 0, a - q);
    SliceOfSlice(t, q, e, a - q, a - q + 2);
    SliceOfSlice(t, q, e, a - q + 2, b - q);
    SliceOfSlice(t, q, e, b - q, e - q);
    assert x[..a - q] == x[0..a - q] && x[b - q..] == x[b - q..e - q];
  }

  /** The parts of ` *-> *MEMBER` at given positions. */
  ghost predicate ArrowItems(x: string, a: nat, b: nat, member: string) {
    a + 2 <= b <= |x| && AllIn(x[..a], Blank) && x[a..a + 2] == "->"
      && AllIn(x[a + 2..b], Blank) && x[b..] == member
  }

  lemma ReadTailEndSound(t: string, q: nat, member: string)
    requires q <= |t|
    requires ReadTailEnd(t, q, member).Some?
    ensures var e := ReadTailEnd(t, q, member).value;
      ArrowTo(t[q..e], member) && Boundary(t, e) && NoAssignAt(t, e)
  {
    var e := ReadTailEnd(t, q, member).value;
    ArrowMemberEndSound(t, q, member);
    var w0 := RunEnd(t, e, Space);
    forall w | e <= w < |t| && AllIn(t[e..w], Space) ensures t[w] != '=' {
      if w < w0 {
        assert InClass(t[w], Space);
      }
    }
  }

  lemma {:induction false} SemicolonSearchSound(t: string, lo: nat, x: nat, cls: CharClass)
    requires lo <= x <= |t|
    requires SemicolonSearch(t, lo, x, cls).Some?
    ensures var r := SemicolonSearch(t, lo, x, cls).value;
      r.0 <= x && AllIn(t[r.0..r.1 - 1], cls) && t[r.1 - 1] == ';'
    decreases x
  {
    var y := RunEnd(t, x, cls);
    if y < |t| && t[y] == ';' {
      var run := t[x..y];
      forall k | 0 <= k < |run| ensures InClass(run[k], cls) {
        assert run[k] == t[x + k];
      }
    } else {
      SemicolonSearchSound(t, lo, x - 1, cls);
    }
  }

  lemma {:induction false} ValueSearchSound(t: string, u: nat, v: nat, cls: CharClass)
    requires u <= v <= |t|
    requires AllIn(t[u..v], cls)
    requires ValueSearch(t, u, v, cls).Some?
    ensures var w := ValueSearch(t, u, v, cls).value;
      AssignedValue(t, u, w.valueStart, w.valueEnd, w.end, cls)
    decreases v
  {
    var here :=
      if v < |t| && t[v] != '=' then SemicolonSearch(t, v + 1, RunEnd(t, v + 1, NotNewline), cls)
      else None;
    if here.Some? {
      var x := RunEnd(t, v + 1, NotNewline);
      SemicolonSearchSound(t, v + 1, x, cls);
      forall k | v < k < here.value.0 ensures t[k] != '\n' {
        assert InClass(t[k], NotNewline);
      }
    } else {
      AllInShorter(t, u, v, cls);
      ValueSearchSound(t, u, v - 1, cls);
    }
  }

  lemma ValueAtSound(t: string, u: nat, cls: CharClass)
    requires u <= |t|
    requires ValueAt(t, u, cls).Some?
    ensures var w := ValueAt(t, u, cls).value;
      AssignedValue(t, u, w.valueStart, w.valueEnd, w.end, cls)
  {
    ValueSearchSound(t, u, RunEnd(t, u, cls), cls);
  }

  lemma {:induction false} ExprSearchFrom(rule: Rule, t: string, ends: seq<nat>)
    requires forall k :: 0 <= k < |ends| ==> 0 < ends[k] <= |t|
    requires ExprSearch(rule, t, ends).Some?
    ensures exists k :: 0 <= k < |ends| && MemberTail(rule, t, ends[k]) == ExprSearch(rule, t, ends)
  {
    var h := MemberTail(rule, t, ends[|ends| - 1]);
    if h.None? {
      ExprSearchFrom(rule, t, ends[..|ends| - 1]);
      var k :| 0 <= k < |ends| - 1 && MemberTail(rule, t, ends[..|ends| - 1][k]) == ExprSearch(rule, t, ends);
      assert ends[..|ends| - 1][k] == ends[k];
    }
  }

  // ---------------------------------------------------------------------
  // The member rules

  /**
   * A member read `E->MEMBER` is rewritten to `FUNC(E)` only when `E` is an
   * expression of the grammar that starts at a word boundary and does not follow
   * `Py_CLEAR(`, the member is a whole word, and no `=` follows it, even after
   * whitespace.
   */
  lemma GetMemberSound(member: string, func: string, s: string, p: nat)
    requires p <= |s|
    requires MatchAt(GetMember(member, func), s, p).Some?
    ensures var h := MatchAt(GetMember(member, func), s, p).value;
      var t := s[p..];
      && !EndsWith(s[..p], "Py_CLEAR(") && Boundary(s, p)
      && exists q :: (
        && 0 < q < h.len && IsExpr(t[..q]) && ArrowTo(t[q..h.len], member)
        && Boundary(t, h.len) && NoAssignAt(t, h.len) && h.repl == func + "(" + t[..q] + ")")
  {
    var rule := GetMember(member, func);
    var t := s[p..];
    var ends := ExprEnds(t, 0);
    ExprEndsSound(t, 0);
    ExprSearchFrom(rule, t, ends);
    var k :| 0 <= k < |ends| && MemberTail(rule, t, ends[k]) == ExprSearch(rule, t, ends);
    ReadTailEndSound(t, ends[k], member);
    assert t[0..ends[k]] == t[..ends[k]];
  }

  /** ` *-> *MEMBER\b\s*=\s*([^=].*)\s*;` from `q`, with the value group and the match end given by `v`. */
  ghost predicate WriteAt(t: string, q: nat, member: string, v: Assign) {
    exists e: nat, w: nat :: WriteItems(t, q, member, v, e, w)
  }

  /** The parts of a member write's tail, with the member ending at `e` and the `=` at `w`. */
  ghost predicate WriteItems(t: string, q: nat, member: string, v: Assign, e: nat, w: nat) {
    && q < e <= w < |t| && ArrowTo(t[q..e], member) && Boundary(t, e)
    && AllIn(t[e..w], Space) && t[w] == '='
    && AssignedValue(t, w + 1, v.valueStart, v.valueEnd, v.end, Space)
  }

  lemma WriteTailSound(t: string, q: nat, member: string, v: Assign)
    requires q <= |t|
    requires WriteTail(t, q, member) == Some(v)
    ensures WriteAt(t, q, member, v)
  {
    var e, w := WriteTailParts(t, q, member, v);
    ArrowToAt(t, q, member, e);
    RunIsAllIn(t, e, Space);
    ValueIsAssigned(t, w + 1, v, Space);
    WriteItemsOf(t, q, member, v, e, w);
  }

  lemma ArrowToAt(t: string, q: nat, member: string, e: nat)
    requires q <= |t| && ArrowMemberEnd(t, q, member) == Some(e)
    ensures e <= |t| && ArrowTo(t[q..e], member) && Boundary(t, e)
  {
    ArrowMemberEndSound(t, q, member);
  }

  lemma ValueIsAssigned(t: string, u: nat, v: Assign, cls: CharClass)
    requires u <= |t| && ValueAt(t, u, cls) == Some(v)
    ensures AssignedValue(t, u, v.valueStart, v.valueEnd, v.end, cls)
  {
    ValueAtSound(t, u, cls);
  }

  /** The member's end `e` and the `=` at `w` that a write tail found. */
  lemma WriteTailParts(t: string, q: nat, member: string, v: Assign) returns (e: nat, w: nat)
    requires q <= |t|
    requires WriteTail(t, q, member) == Some(v)
    ensures q < e <= w < |t| && ArrowMemberEnd(t, q, member) == Some(e) && w == RunEnd(t, e, Space)
    ensures t[w] == '=' && ValueAt(t, w + 1, Space) == Some(v)
  {
    e := ArrowMemberEnd(t, q, member).value;
    w := RunEnd(t, e, Space);
  }

  lemma WriteItemsOf(t: string, q: nat, member: string, v: Assign, e: nat, w: nat)
    requires q < e <= w < |t| && t[w] == '='
    requires ArrowTo(t[q..e], member) && Boundary(t, e) && AllIn(t[e..w], Space)
    requires AssignedValue(t, w + 1, v.valueStart, v.valueEnd, v.end, Space)
    ensures WriteAt(t, q, member, v)
  {
    assert WriteItems(t, q, member, v, e, w);
  }

  /**
   * A member write `E->MEMBER = V;` is rewritten to `SETTER(E, V);` only when
   * `E` is an expression of the grammar that starts at a word boundary, the
   * member is a whole word, and `=` is followed by a value that does not start
   * with `=`, holds no newline after its first character, and ends, up to
   * whitespace, at the `;` the match ends with.
   */
  lemma SetMemberSound(member: string, setter: string, s: string, p: nat)
    requires p <= |s|
    requires MatchAt(SetMember(member, setter), s, p).Some?
    ensures var h := MatchAt(SetMember(member, setter), s, p).value;
      var t := s[p..];
      && Boundary(s, p)
      && exists q: nat, v: Assign :: (
        && 0 < q <= v.valueStart < v.valueEnd < v.end == h.len <= |t|
        && IsExpr(t[..q]) && WriteAt(t, q, member, v)
        && h.repl == setter + "(" + t[..q] + ", " + t[v.valueStart..v.valueEnd] + ");")
  {
    var rule := SetMember(member, setter);
    var t := s[p..];
    var ends := ExprEnds(t, 0);
    ExprEndsSound(t, 0);
    ExprSearchFrom(rule, t, ends);
    var k :| 0 <= k < |ends| && MemberTail(rule, t, ends[k]) == ExprSearch(rule, t, ends);
    var q := ends[k];
    assert IsExpr(t[..q]) by {
      assert t[0..q] == t[..q];
    }
    var v := WriteTail(t, q, member).value;
    WriteTailSound(t, q, member, v);
  }

  /** The member rules only match where an identifier starts after a word boundary. */
  lemma MemberNeedsWordStart(rule: Rule, s: string, p: nat)
    requires rule.GetMember? || rule.SetMember?
    requires p <= |s|
    requires !Boundary(s, p) || p == |s| || !IsAsciiLetter(s[p])
    ensures MatchAt(rule, s, p).None?
  {
  }

  // ---------------------------------------------------------------------
  // The call-assignment rule

  /**
   * `NAME *\( *(.+) *\) *= *` at the start of `t`, with the argument at `t[b..x]`
   * and the `=` at `d`.
   */
  ghost predicate CallTarget(t: string, name: string, a: nat, b: nat, x: nat, c: nat, d: nat) {
    && StartsWith(t, name) && |name| <= a < b < x <= c < d < |t|
    && AllIn(t[|name|..a], Blank) && t[a] == '(' && AllIn(t[a + 1..b], Blank)
    && (forall k :: b <= k < x ==> t[k] != '\n')
    && AllIn(t[x..c], Blank) && t[c] == ')' && AllIn(t[c + 1..d], Blank) && t[d] == '='
  }

  /** ` *\) *= *([^=].*) *;` from `x`, with the value group and the match end given by `w`. */
  ghost predicate CloseThenValue(t: string, x: nat, w: Assign) {
    exists c: nat, d: nat :: CloseItems(t, x, w, c, d)
  }

  /** The parts of ` *\) *= *([^=].*) *;` with the `)` at `c` and the `=` at `d`. */
  ghost predicate CloseItems(t: string, x: nat, w: Assign, c: nat, d: nat) {
    && x <= c < d < |t|
    && AllIn(t[x..c], Blank) && t[c] == ')' && AllIn(t[c + 1..d], Blank) && t[d] == '='
    && AssignedValue(t, d + 1, w.valueStart, w.valueEnd, w.end, Blank)
  }

  lemma CloseValueAtSound(t: string, x: nat, w: Assign)
    requires x <= |t|
    requires CloseValueAt(t, x) == Some(w)
    ensures CloseThenValue(t, x, w)
  {
    var c, d := CloseValueParts(t, x, w);
    ValueIsAssigned(t, d + 1, w, Blank);
    CloseItemsOf(t, x, w, c, d);
  }

  /** The `)` at `c` and the `=` at `d` that a close-and-value match found, with blanks around them. */
  lemma CloseValueParts(t: string, x: nat, w: Assign) returns (c: nat, d: nat)
    requires x <= |t|
    requires CloseValueAt(t, x) == Some(w)
    ensures x <= c < d < |t| && t[c] == ')' && t[d] == '=' && ValueAt(t, d + 1, Blank) == Some(w)
    ensures AllIn(t[x..c], Blank) && AllIn(t[c + 1..d], Blank)
  {
    c := RunEnd(t, x, Blank);
    d := RunEnd(t, c + 1, Blank);
    BlankRuns(t, x, c, d);
  }

  lemma BlankRuns(t: string, x: nat, c: nat, d: nat)
    requires x <= c < d <= |t| && c == RunEnd(t, x, Blank) && d == RunEnd(t, c + 1, Blank)
    ensures AllIn(t[x..c], Blank) && AllIn(t[c + 1..d], Blank)
  {
    RunIsAllIn(t, x, Blank);
    RunIsAllIn(t, c + 1, Blank);
  }

  lemma CloseItemsOf(t: string, x: nat, w: Assign, c: nat, d: nat)
    requires x <= c < d < |t| && t[c] == ')' && t[d] == '='
    requires AllIn(t[x..c], Blank) && AllIn(t[c + 1..d], Blank)
    requires AssignedValue(t, d + 1, w.valueStart, w.valueEnd, w.end, Blank)
    ensures CloseThenValue(t, x, w)
  {
    assert CloseItems(t, x, w, c, d);
  }

  lemma {:induction false} CallGroupSearchSound(t: string, b: nat, x: nat, x': nat, w: Assign)
    requires b < x <= |t|
    requires CallGroupSearch(t, b, x) == Some((x', w))
    ensures x' <= x && CloseThenValue(t, x', w)
    decreases x
  {
    if CloseValueAt(t, x).Some? {
      assert x' == x && CloseValueAt(t, x) == Some(w);
      CloseValueAtSound(t, x, w);
    } else {
      CallGroupSearchSound(t, b, x - 1, x', w);
    }
  }

  lemma {:induction false} CallArgSearchSound(t: string, lo: nat, b: nat, b': nat, x': nat, w: Assign)
    requires lo <= b <= |t|
    requires AllIn(t[lo..b], Blank)
    requires CallArgSearch(t, lo, b) == Some((b', x', w))
    ensures lo <= b' < x' && AllIn(t[lo..b'], Blank)
    ensures forall k :: b' <= k < x' ==> t[k] != '\n'
    ensures CloseThenValue(t, x', w)
    decreases b
  {
    if b < |t| && t[b] != '\n' && CallGroupSearch(t, b, RunEnd(t, b, NotNewline)).Some? {
      var x := RunEnd(t, b, NotNewline);
      CallGroupSearchSound(t, b, x, x', w);
      forall k | b' <= k < x' ensures t[k] != '\n' {
        assert InClass(t[k], NotNewline);
      }
    } else {
      AllInShorter(t, lo, b, Blank);
      CallArgSearchSound(t, lo, b - 1, b', x', w);
    }
  }

  /** The call-assignment rule can only match where its name occurs. */
  lemma CallAssignNeedsName(name: string, setter: string, s: string, p: nat)
    requires p <= |s| && !SubstringAt(s, name, p)
    ensures MatchAt(CallAssign(name, setter), s, p).None?
  {
  }

  /**
   * `NAME(A) = V;` is rewritten to `SETTER(A, V);` only when the text from `p`
   * has exactly that shape, spaces allowed around each token: the argument is
   * not empty and holds no newline, and the value does not start with `=`, so
   * that a comparison `NAME(A) == V` is never taken for an assignment.
   */
  lemma CallAssignSound(name: string, setter: string, s: string, p: nat)
    requires p <= |s|
    requires MatchAt(CallAssign(name, setter), s, p).Some?
    ensures var h := MatchAt(CallAssign(name, setter), s, p).value;
      var t := s[p..];
      exists a: nat, b: nat, x: nat, c: nat, d: nat, vs: nat, ve: nat :: (
        && CallTarget(t, name, a, b, x, c, d)
        && AssignedValue(t, d + 1, vs, ve, h.len, Blank)
        && h.repl == setter + "(" + t[b..x] + ", " + t[vs..ve] + ");")
  {
    assert MatchAt(CallAssign(name, setter), s, p) == CallAssignHit(s[p..], name, setter);
    CallAssignHitSound(s[p..], name, setter);
  }

  /** The shape of a call-assignment hit at the start of `t`. */
  lemma CallAssignHitSound(t: string, name: string, setter: string)
    requires CallAssignHit(t, name, setter).Some?
    ensures var h := CallAssignHit(t, name, setter).value;
      exists a: nat, b: nat, x: nat, c: nat, d: nat, vs: nat, ve: nat :: (
        && CallTarget(t, name, a, b, x, c, d)
        && AssignedValue(t, d + 1, vs, ve, h.len, Blank)
        && h.repl == setter + "(" + t[b..x] + ", " + t[vs..ve] + ");")
  {
    var h := CallAssignHit(t, name, setter).value;
    var a := RunEnd(t, |name|, Blank);
    var lo := a + 1;
    var r := CallArgSearch(t, lo, RunEnd(t, lo, Blank)).value;
    var (b, x, w) := r;
    assert StartsWith(t, name) && a < |t| && t[a] == '(';
    assert h == Hit(w.end, setter + "(" + t[b..x] + ", " + t[w.valueStart..w.valueEnd] + ");");
    RunIsAllIn(t, |name|, Blank);
    RunIsAllIn(t, lo, Blank);
    CallArgSearchSound(t, lo, RunEnd(t, lo, Blank), b, x, w);
    var c: nat, d: nat :| CloseItems(t, x, w, c, d);
    assert CallTarget(t, name, a, b, x, c, d);
  }
}
