/**
 * The upgrader's rewrite rules (upgrade_pythoncapi.py:18-59 and the REPLACE
 * tables) with the matching behaviour of Python's `re` for exactly these
 * patterns, and `re.sub` as a left-to-right scanner.
 *
 * Each matcher looks at the text `t` that starts at the candidate position
 * and explores the pattern's choice points in the order a backtracking
 * engine does: the latest choice point first, each greedy quantifier from
 * its longest extent down.  Identifiers, `[...]` indices and the `*` spaces
 * in front of `(`, `->`, `)`, `=` or `;` never give anything back, because
 * the character after them could not start what follows.
 */
module Patterns {
  import opened Wrappers
  import opened Text

  /** One rule of a REPLACE table: a compiled pattern together with its replacement template. */
  datatype Rule =
      /** `\bOLD\b( *\()` replaced by `NEW\1`. */
    | Rename(oldName: string, newName: string)
      /** get_member_regex(member) replaced by `FUNC(\1)`. */
    | GetMember(member: string, func: string)
      /** set_member_regex(member) replaced by `SETTER(\1, \2);`. */
    | SetMember(member: string, setter: string)
      /** call_assign_regex(name) replaced by `SETTER(\1, \2);`. */
    | CallAssign(name: string, setter: string)

  /** A match found at some position: how many characters it covers and what replaces them. */
  datatype Hit = Hit(len: nat, repl: string)

  /** `\b` at position `i` of `s`. */
  predicate Boundary(s: string, i: nat) {
    (0 < i <= |s| && IsWordChar(s[i - 1])) != (i < |s| && IsWordChar(s[i]))
  }

  // ---------------------------------------------------------------------
  // EXPR_REGEX (upgrade_pythoncapi.py:18-24)

  /** `\[[^]]+\]` at `i`: its end, if it matches there. */
  function BracketEnd(t: string, i: nat): (r: Option<nat>)
    requires i <= |t|
    ensures r.Some? ==> i + 3 <= r.value <= |t|
  {
    if i < |t| && t[i] == '[' then
      var k := RunEnd(t, i + 1, NotCloseBracket);
      if i + 1 < k < |t| then Some(k + 1) else None
    else None
  }

  /** `(?:\[[^]]+\])*` at `i`, greedy. */
  function BracketsEnd(t: string, i: nat): (j: nat)
    requires i <= |t|
    ensures i <= j <= |t|
    decreases |t| - i
  {
    match BracketEnd(t, i)
    case Some(k) => BracketsEnd(t, k)
    case None => i
  }

  /** SUBEXPR_REGEX at `i`: an identifier followed by its indices. */
  function SubExprEnd(t: string, i: nat): (r: Option<nat>)
    requires i <= |t|
    ensures r.Some? ==> i < r.value <= |t|
  {
    if i < |t| && IsAsciiLetter(t[i]) then Some(BracketsEnd(t, RunEnd(t, i + 1, IdentTail))) else None
  }

  /** `(?:->|\.)` at `q`. */
  function SepEnd(t: string, q: nat): (r: Option<nat>)
    requires q <= |t|
    ensures r.Some? ==> q < r.value <= |t|
  {
    if SubstringAt(t, "->", q) then Some(q + 2)
    else if q < |t| && t[q] == '.' then Some(q + 1)
    else None
  }

  /**
   * The end of every prefix of `t[i..]` that EXPR_REGEX can match, ascending.
   * The greedy repetition tries them from the last to the first.
   */
  function ExprEnds(t: string, i: nat): (r: seq<nat>)
    requires i <= |t|
    ensures forall k :: 0 <= k < |r| ==> i < r[k] <= |t|
    decreases |t| - i
  {
    match SubExprEnd(t, i)
    case None => []
    case Some(q) =>
      [q] + match SepEnd(t, q) {
        case None => []
        case Some(n) => ExprEnds(t, n)
      }
  }

  // ---------------------------------------------------------------------
  // The tails that follow the expression

  /** ` *-> *MEMBER\b` at `q`: the end of the member name. */
  function ArrowMemberEnd(t: string, q: nat, member: string): (r: Option<nat>)
    requires q <= |t|
    ensures r.Some? ==> q + 2 + |member| <= r.value <= |t|
  {
    var a := RunEnd(t, q, Blank);
    if !SubstringAt(t, "->", a) then None
    else
      var b := RunEnd(t, a + 2, Blank);
      if SubstringAt(t, member, b) && Boundary(t, b + |member|) then Some(b + |member|) else None
  }

  /** The two groups and the end of a setter match. */
  datatype Assign = Assign(valueStart: nat, valueEnd: nat, end: nat)

  /**
   * `.*` running from `lo` to some end in `[lo, x]`, longest first, followed by `C*;`
   * where `C` is `cls`: the end of `.*` and of the match.
   */
  function SemicolonSearch(t: string, lo: nat, x: nat, cls: CharClass): (r: Option<(nat, nat)>)
    requires lo <= x <= |t|
    ensures r.Some? ==> lo <= r.value.0 < r.value.1 <= |t|
    decreases x
  {
    var y := RunEnd(t, x, cls);
    if y < |t| && t[y] == ';' then Some((x, y + 1))
    else if x > lo then SemicolonSearch(t, lo, x - 1, cls)
    else None
  }

  /** `([^=].*)C*;` with `[^=]` at `v` or, backing off the preceding `C*`, at a smaller `v >= u`. */
  function ValueSearch(t: string, u: nat, v: nat, cls: CharClass): (r: Option<Assign>)
    requires u <= v <= |t|
    ensures r.Some? ==> u <= r.value.valueStart < r.value.valueEnd < r.value.end <= |t|
    decreases v
  {
    var here :=
      if v < |t| && t[v] != '=' then SemicolonSearch(t, v + 1, RunEnd(t, v + 1, NotNewline), cls)
      else None;
    if here.Some? then Some(Assign(v, here.value.0, here.value.1))
    else if v > u then ValueSearch(t, u, v - 1, cls)
    else None
  }

  /** `C*([^=].*)C*;` at `u`. */
  function ValueAt(t: string, u: nat, cls: CharClass): (r: Option<Assign>)
    requires u <= |t|
    ensures r.Some? ==> u <= r.value.valueStart < r.value.valueEnd < r.value.end <= |t|
  {
    ValueSearch(t, u, RunEnd(t, u, cls), cls)
  }

  /** The tail of get_member_regex: ` *-> *MEMBER\b(?!\s*=\s*)`. */
  function ReadTailEnd(t: string, q: nat, member: string): (r: Option<nat>)
    requires q <= |t|
    ensures r.Some? ==> q < r.value <= |t|
  {
    match ArrowMemberEnd(t, q, member)
    case None => None
    case Some(e) =>
      var w := RunEnd(t, e, Space);
      if w < |t| && t[w] == '=' then None else Some(e)
  }

  /** The tail of set_member_regex: ` *-> *MEMBER\b\s*=\s*([^=].*)\s*;`. */
  function WriteTail(t: string, q: nat, member: string): (r: Option<Assign>)
    requires q <= |t|
    ensures r.Some? ==> q < r.value.valueStart < r.value.valueEnd < r.value.end <= |t|
  {
    match ArrowMemberEnd(t, q, member)
    case None => None
    case Some(e) =>
      var w := RunEnd(t, e, Space);
      if w < |t| && t[w] == '=' then ValueAt(t, w + 1, Space) else None
  }

  /** What a member rule makes of the expression `t[..q]`, if its tail matches after it. */
  function MemberTail(rule: Rule, t: string, q: nat): (r: Option<Hit>)
    requires 0 < q <= |t|
    ensures r.Some? ==> 0 < r.value.len <= |t|
  {
    match rule
    case GetMember(member, func) =>
      (match ReadTailEnd(t, q, member)
       case None => None
       case Some(e) => Some(Hit(e, func + "(" + t[..q] + ")")))
    case SetMember(member, setter) =>
      (match WriteTail(t, q, member)
       case None => None
       case Some(w) => Some(Hit(w.end, setter + "(" + t[..q] + ", " + t[w.valueStart..w.valueEnd] + ");")))
    case _ => None
  }

  /** The candidate expression ends, tried from the last one down. */
  function ExprSearch(rule: Rule, t: string, ends: seq<nat>): (r: Option<Hit>)
    requires forall k :: 0 <= k < |ends| ==> 0 < ends[k] <= |t|
    ensures r.Some? ==> 0 < r.value.len <= |t|
  {
    if ends == [] then None
    else
      var h := MemberTail(rule, t, ends[|ends| - 1]);
      if h.Some? then h else ExprSearch(rule, t, ends[..|ends| - 1])
  }

  // ---------------------------------------------------------------------
  // call_assign_regex (upgrade_pythoncapi.py:54-59)

  /** ` *\) *= *([^=].*) *;` at `x`: the value group and the end of the match. */
  function CloseValueAt(t: string, x: nat): (r: Option<Assign>)
    requires x <= |t|
    ensures r.Some? ==> x < r.value.valueStart < r.value.valueEnd < r.value.end <= |t|
  {
    var c := RunEnd(t, x, Blank);
    if c < |t| && t[c] == ')' then
      var d := RunEnd(t, c + 1, Blank);
      if d < |t| && t[d] == '=' then ValueAt(t, d + 1, Blank) else None
    else None
  }

  /** `.+` from `b` ending at some `x' <= x`, longest first, then ` *\) *=` and the value. */
  function CallGroupSearch(t: string, b: nat, x: nat): (r: Option<(nat, Assign)>)
    requires b < x <= |t|
    ensures r.Some? ==> b < r.value.0 < r.value.1.valueStart < r.value.1.valueEnd < r.value.1.end <= |t|
    decreases x
  {
    match CloseValueAt(t, x)
    case Some(w) => Some((x, w))
    case None => if x > b + 1 then CallGroupSearch(t, b, x - 1) else None
  }

  /** ` *(.+)` after the `(`, with the spaces tried from `b` down to `lo`. */
  function CallArgSearch(t: string, lo: nat, b: nat): (r: Option<(nat, nat, Assign)>)
    requires lo <= b <= |t|
    ensures r.Some? ==> lo <= r.value.0 < r.value.1 < r.value.2.valueStart < r.value.2.valueEnd < r.value.2.end <= |t|
    decreases b
  {
    var here := if b < |t| && t[b] != '\n' then CallGroupSearch(t, b, RunEnd(t, b, NotNewline)) else None;
    if here.Some? then Some((b, here.value.0, here.value.1))
    else if b > lo then CallArgSearch(t, lo, b - 1)
    else None
  }

  /** `NAME *\( *(.+) *\) *= *([^=].*) *;` at the start of `t`. */
  function CallAssignHit(t: string, name: string, setter: string): (r: Option<Hit>)
    ensures r.Some? ==> 0 < r.value.len <= |t|
  {
    if !StartsWith(t, name) then None
    else
      var a := RunEnd(t, |name|, Blank);
      if !(a < |t| && t[a] == '(') then None
      else
        match CallArgSearch(t, a + 1, RunEnd(t, a + 1, Blank))
        case None => None
        case Some((b, x, w)) =>
          Some(Hit(w.end, setter + "(" + t[b..x] + ", " + t[w.valueStart..w.valueEnd] + ");"))
  }

  // ---------------------------------------------------------------------
  // Renames: `\bOLD\b( *\()`

  /** `OLD( *\()` at position `p` of `s`; the word boundaries around OLD are checked by the caller. */
  function RenameHit(s: string, p: nat, oldName: string, newName: string): (r: Option<Hit>)
    requires p <= |s|
    ensures r.Some? ==> 0 < r.value.len <= |s| - p
  {
    if !SubstringAt(s, oldName, p) then None
    else
      var c := RunEnd(s, p + |oldName|, Blank);
      if c < |s| && s[c] == '(' then Some(Hit(c + 1 - p, newName + s[p + |oldName|..c + 1])) else None
  }

  // ---------------------------------------------------------------------
  // Matching at a position and re.sub

  /** The match the rule's pattern makes at position `p` of `s`, if any. */
  function MatchAt(rule: Rule, s: string, p: nat): (r: Option<Hit>)
    requires p <= |s|
    ensures r.Some? ==> 0 < r.value.len <= |s| - p
  {
    var t := s[p..];
    match rule
    case Rename(oldName, newName) =>
      if Boundary(s, p) && p + |oldName| <= |s| && Boundary(s, p + |oldName|) then RenameHit(s, p, oldName, newName) else None
    case GetMember(_, _) =>
      if !EndsWith(s[..p], "Py_CLEAR(") && Boundary(s, p) then ExprSearch(rule, t, ExprEnds(t, 0)) else None
    case SetMember(_, _) =>
      if Boundary(s, p) then ExprSearch(rule, t, ExprEnds(t, 0)) else None
    case CallAssign(name, setter) =>
      CallAssignHit(t, name, setter)
  }

  /** `regex.sub(replace, s[i..])` continued from position `i` of `s`. */
  function SubFrom(rule: Rule, s: string, i: nat): string
    requires i <= |s|
    decreases |s| - i
  {
    if i == |s| then []
    else
      match MatchAt(rule, s, i)
      case Some(h) => h.repl + SubFrom(rule, s, i + h.len)
      case None => [s[i]] + SubFrom(rule, s, i + 1)
  }

  /** `regex.sub(replace, s)`: every non-overlapping match, leftmost first, replaced. */
  function Sub(rule: Rule, s: string): string {
    SubFrom(rule, s, 0)
  }
}
