/**
 * The converse of the soundness lemmas of PatternLaws: every text of the shape
 * a member or call-assignment pattern describes is matched.  Together the two
 * directions say that the hand-written matchers accept exactly the texts the
 * regular expressions of upgrade_pythoncapi.py:18-59 accept at a position
 * (which of several possible matches is taken is fixed by the search order
 * of Patterns and described by the soundness lemmas).
 */
module PatternCompleteness {
  import opened Wrappers
  import opened Text
  import opened Patterns
  import opened PatternLaws

  // ---------------------------------------------------------------------
  // The expression

  /** Where an expression may stop: the end of the text, or a character that can extend neither an identifier nor its indices. */
  predicate ExprStop(t: string, z: nat)
    requires z <= |t|
  {
    z == |t| || (!IsWordChar(t[z]) && t[z] != '[')
  }

  lemma IndicesStart(y: string)
    requires IsIndices(y) && y != []
    ensures y[0] == '['
  {
    var k :| 3 <= k <= |y| && IsIndex(y[..k]) && IsIndices(y[k..]);
    assert y[..k][0] == y[0];
  }

  /** The one `[...]` that a text of the grammar has at `j` is the one the matcher finds. */
  lemma BracketEndComplete(t: string, j: nat, k: nat)
    requires 3 <= k && j + k <= |t|
    requires IsIndex(t[j..j + k])
    ensures BracketEnd(t, j) == Some(j + k)
  {
    var x := t[j..j + k];
    assert t[j] == x[0];
    assert t[j + k - 1] == x[k - 1];
    forall m | j + 1 <= m < j + k - 1 ensures InClass(t[m], NotCloseBracket) {
      assert t[m] == x[m - j];
    }
    RunEndIs(t, j + 1, j + k - 1, NotCloseBracket);
  }

  /** The first index of a non-empty run of indices is the one the matcher reads. */
  lemma IndicesHead(t: string, j: nat, z: nat) returns (k: nat)
    requires j < z <= |t| && IsIndices(t[j..z])
    ensures 3 <= k <= z - j && BracketEnd(t, j) == Some(j + k) && IsIndices(t[j + k..z])
  {
    var y := t[j..z];
    k :| 3 <= k <= |y| && IsIndex(y[..k]) && IsIndices(y[k..]);
    assert y[..k] == t[j..j + k];
    assert y[k..] == t[j + k..z];
    BracketEndComplete(t, j, k);
  }

  lemma {:induction false} BracketsEndComplete(t: string, j: nat, z: nat)
    requires j <= z <= |t|
    requires IsIndices(t[j..z]) && ExprStop(t, z)
    ensures BracketsEnd(t, j) == z
    decreases z - j
  {
    if j < z {
      var k := IndicesHead(t, j, z);
      BracketsEndComplete(t, j + k, z);
      BracketsStep(t, j, j + k);
    } else {
      NoBracketAtStop(t, z);
    }
  }

  lemma BracketsStep(t: string, j: nat, k: nat)
    requires j <= k <= |t| && BracketEnd(t, j) == Some(k)
    ensures BracketsEnd(t, j) == BracketsEnd(t, k)
  {
  }

  lemma NoBracketAtStop(t: string, z: nat)
    requires z <= |t| && ExprStop(t, z)
    ensures BracketsEnd(t, z) == z
  {
  }

  /** A sub-expression of the grammar that stops at `z` is the one the matcher reads from `i`. */
  lemma SubExprEndComplete(t: string, i: nat, z: nat)
    requires i <= z <= |t|
    requires IsSubExpr(t[i..z]) && ExprStop(t, z)
    ensures SubExprEnd(t, i) == Some(z)
  {
    var k := SubExprPieces(t, i, z);
    IdentEnd(t, i, k, z);
    BracketsEndComplete(t, i + k, z);
  }

  /** The identifier and the indices of a sub-expression, read in the whole text. */
  lemma SubExprPieces(t: string, i: nat, z: nat) returns (k: nat)
    requires i <= z <= |t| && IsSubExpr(t[i..z])
    ensures 1 <= k <= z - i && IsIdent(t[i..i + k]) && IsIndices(t[i + k..z])
  {
    var x := t[i..z];
    k :| 1 <= k <= |x| && IsIdent(x[..k]) && IsIndices(x[k..]);
    assert x[..k] == t[i..i + k];
    assert x[k..] == t[i + k..z];
  }

  /** The identifier of a sub-expression ends where its indices or the stop begin. */
  lemma IdentEnd(t: string, i: nat, k: nat, z: nat)
    requires 1 <= k <= z - i && z <= |t|
    requires IsIdent(t[i..i + k]) && IsIndices(t[i + k..z]) && ExprStop(t, z)
    ensures i < |t| && IsAsciiLetter(t[i]) && RunEnd(t, i + 1, IdentTail) == i + k
  {
    var x := t[i..i + k];
    assert t[i] == x[0];
    forall m | i + 1 <= m < i + k ensures InClass(t[m], IdentTail) {
      assert t[m] == x[1..][m - i - 1];
    }
    if i + k < z {
      IndicesStart(t[i + k..z]);
      assert t[i + k] == t[i + k..z][0];
    }
    RunEndIs(t, i + 1, i + k, IdentTail);
  }

  /** A separator of the grammar is the one the matcher reads, and it ends the sub-expression before it. */
  lemma SepEndComplete(t: string, q: nat, n: nat)
    requires q <= n <= |t| && IsSep(t[q..n])
    ensures SepEnd(t, q) == Some(n) && q < |t| && ExprStop(t, q)
  {
    var sep := t[q..n];
    assert t[q] == sep[0];
    if sep == "->" {
      assert SubstringAt(t, "->", q);
    } else {
      assert !SubstringAt(t, "->", q) by {
        if q + 2 <= |t| {
          assert t[q..q + 2][0] == t[q];
        }
      }
    }
  }

  /** An expression of the grammar is a sub-expression, or a sub-expression, a separator and an expression. */
  lemma ExprCases(x: string) returns (chained: bool, a: nat, b: nat)
    requires IsExpr(x)
    ensures !chained ==> IsSubExpr(x)
    ensures chained ==> 0 < a < b < |x| && IsSubExpr(x[..a]) && IsSep(x[a..b]) && IsExpr(x[b..])
  {
    chained := !IsSubExpr(x);
    a, b := 0, 0;
    if chained {
      a, b :| 0 < a < b < |x| && IsSubExpr(x[..a]) && IsSep(x[a..b]) && IsExpr(x[b..]);
    }
  }

  lemma ChainRest(t: string, i: nat, z: nat, b: nat)
    requires i <= z <= |t| && b < z - i && IsExpr(t[i..z][b..])
    ensures IsExpr(t[i + b..z])
  {
    assert t[i..z][b..] == t[i + b..z];
  }

  /** The first sub-expression and separator of a chain are the ones the matcher reads. */
  lemma ChainHead(t: string, i: nat, z: nat, a: nat, b: nat)
    requires i <= z <= |t| && 0 < a < b < z - i
    requires IsSubExpr(t[i..z][..a]) && IsSep(t[i..z][a..b])
    ensures SubExprEnd(t, i) == Some(i + a) && SepEnd(t, i + a) == Some(i + b)
  {
    SliceOfSlice(t, i, z, 0, a);
    SliceOfSlice(t, i, z, a, b);
    assert t[i..z][..a] == t[i..z][0..a];
    SepEndComplete(t, i + a, i + b);
    SubExprEndComplete(t, i, i + a);
  }

  /** The first step the matcher takes through an expression of the grammar. */
  lemma ExprStep(t: string, i: nat, z: nat) returns (chained: bool, q: nat, n: nat)
    requires i <= z <= |t| && IsExpr(t[i..z]) && ExprStop(t, z)
    ensures !chained ==> SubExprEnd(t, i) == Some(z)
    ensures chained ==> i < q < n < z && SubExprEnd(t, i) == Some(q) && SepEnd(t, q) == Some(n) && IsExpr(t[n..z])
  {
    var a, b;
    chained, a, b := ExprCases(t[i..z]);
    q, n := i + a, i + b;
    if !chained {
      SubExprEndComplete(t, i, z);
    } else {
      ChainRest(t, i, z, b);
      ChainHead(t, i, z, a, b);
    }
  }

  lemma FirstExprEnd(t: string, i: nat, z: nat)
    requires i <= z <= |t| && SubExprEnd(t, i) == Some(z)
    ensures z in ExprEnds(t, i)
  {
    assert ExprEnds(t, i)[0] == z;
  }

  lemma LaterExprEnd(t: string, i: nat, q: nat, n: nat, z: nat)
    requires i < q < n <= z <= |t|
    requires SubExprEnd(t, i) == Some(q) && SepEnd(t, q) == Some(n)
    requires z in ExprEnds(t, n)
    ensures z in ExprEnds(t, i)
  {
  }

  /**
   * Every end of an expression of the grammar that starts at `i` is among the
   * ends EXPR_REGEX can reach from `i`, provided the text does not go on with
   * an identifier character or `[` there.
   */
  lemma {:induction false} ExprEndsComplete(t: string, i: nat, z: nat)
    requires i <= z <= |t|
    requires IsExpr(t[i..z]) && ExprStop(t, z)
    ensures z in ExprEnds(t, i)
    decreases z - i
  {
    var chained, q, n := ExprStep(t, i, z);
    if !chained {
      FirstExprEnd(t, i, z);
    } else {
      ExprEndsComplete(t, n, z);
      LaterExprEnd(t, i, q, n, z);
    }
  }

  /** The search over expression ends succeeds as soon as one end has its tail. */
  lemma {:induction false} ExprSearchComplete(rule: Rule, t: string, ends: seq<nat>, k: nat)
    requires forall j :: 0 <= j < |ends| ==> 0 < ends[j] <= |t|
    requires k < |ends| && MemberTail(rule, t, ends[k]).Some?
    ensures ExprSearch(rule, t, ends).Some?
    decreases |ends|
  {
    if MemberTail(rule, t, ends[|ends| - 1]).None? {
      var rest := ends[..|ends| - 1];
      assert rest[k] == ends[k];
      ExprSearchComplete(rule, t, rest, k);
    }
  }

  // ---------------------------------------------------------------------
  // The member tails

  /**
   * ` *-> *MEMBER\b` found by the matcher wherever the text has that shape; the
   * member is a name, so it neither is empty nor starts with a blank.
   */
  lemma ArrowMemberEndComplete(t: string, q: nat, e: nat, member: string)
    requires q <= e <= |t|
    requires |member| > 0 && member[0] != ' '
    requires ArrowTo(t[q..e], member) && Boundary(t, e)
    ensures ArrowMemberEnd(t, q, member) == Some(e)
  {
    var a: nat, b: nat :| ArrowItems(t[q..e], a, b, member);
    ArrowPieces(t, q, e, a, b, member);
    ArrowMemberEndFrom(t, q, q + a, q + b, e, member);
  }

  /** The pieces of ` *-> *MEMBER`, read in the whole text. */
  lemma ArrowPieces(t: string, q: nat, e: nat, a: nat, b: nat, member: string)
    requires q <= e <= |t|
    requires ArrowItems(t[q..e], a, b, member)
    ensures q + b + |member| == e
    ensures AllIn(t[q..q + a], Blank) && t[q + a..q + a + 2] == "->"
    ensures AllIn(t[q + a + 2..q + b], Blank) && t[q + b..e] == member
  {
    var x := t[q..e];
    SliceOfSlice(t, q, e, 0, a);
    SliceOfSlice(t, q, e, a, a + 2);
    SliceOfSlice(t, q, e, a + 2, b);
    SliceOfSlice(t, q, e, b, e - q);
    assert x[..a] == x[0..a] && x[b..] == x[b..e - q];
  }

  lemma ArrowMemberEndFrom(t: string, q: nat, a: nat, b: nat, e: nat, member: string)
    requires q <= a && a + 2 <= b && b + |member| == e <= |t|
    requires |member| > 0 && member[0] != ' '
    requires AllIn(t[q..a], Blank) && t[a..a + 2] == "->" && AllIn(t[a + 2..b], Blank) && t[b..e] == member
    requires Boundary(t, e)
    ensures ArrowMemberEnd(t, q, member) == Some(e)
  {
    AllInRange(t, q, a, Blank);
    AllInRange(t, a + 2, b, Blank);
    assert t[a] == t[a..a + 2][0];
    assert t[b] == t[b..e][0];
    RunEndIs(t, q, a, Blank);
    RunEndIs(t, a + 2, b, Blank);
  }

  /** What follows an arrow's start cannot extend the expression before it. */
  lemma ArrowStops(t: string, q: nat, e: nat, member: string)
    requires q <= e <= |t|
    requires ArrowTo(t[q..e], member)
    ensures q < |t| && ExprStop(t, q)
  {
    var x := t[q..e];
    var a: nat, b: nat :| ArrowItems(x, a, b, member);
    if a > 0 {
      assert InClass(x[..a][0], Blank);
      assert t[q] == x[..a][0];
    } else {
      assert t[q] == x[a..a + 2][0];
    }
  }

  lemma ReadTailEndComplete(t: string, q: nat, e: nat, member: string)
    requires q <= e <= |t|
    requires |member| > 0 && member[0] != ' '
    requires ArrowTo(t[q..e], member) && Boundary(t, e) && NoAssignAt(t, e)
    ensures ReadTailEnd(t, q, member) == Some(e)
  {
    ArrowMemberEndComplete(t, q, e, member);
    RunIsAllIn(t, e, Space);
  }

  /**
   * Every member read `E->MEMBER` the grammar describes is rewritten: at a word
   * boundary that does not follow `Py_CLEAR(`, an expression `E` followed by
   * ` *-> *MEMBER\b` and no `=`, even after whitespace, is matched.
   */
  lemma GetMemberComplete(member: string, func: string, s: string, p: nat, q: nat, e: nat)
    requires |member| > 0 && member[0] != ' '
    requires p <= |s| && 0 < q <= e <= |s| - p
    requires !EndsWith(s[..p], "Py_CLEAR(") && Boundary(s, p)
    requires var t := s[p..];
      IsExpr(t[..q]) && ArrowTo(t[q..e], member) && Boundary(t, e) && NoAssignAt(t, e)
    ensures MatchAt(GetMember(member, func), s, p).Some?
  {
    var t := s[p..];
    ArrowStops(t, q, e, member);
    ReadTailEndComplete(t, q, e, member);
    MemberTailFound(GetMember(member, func), t, q);
  }

  // ---------------------------------------------------------------------
  // The value of an assignment

  /** `.*` backing off to `y` finds `C*;` there. */
  lemma {:induction false} SemicolonSearchComplete(t: string, lo: nat, x: nat, y: nat, cls: CharClass)
    requires lo <= y <= x <= |t|
    requires RunEnd(t, y, cls) < |t| && t[RunEnd(t, y, cls)] == ';'
    ensures SemicolonSearch(t, lo, x, cls).Some?
    decreases x
  {
    var z := RunEnd(t, x, cls);
    if !(z < |t| && t[z] == ';') {
      assert x != y;
      SemicolonSearchComplete(t, lo, x - 1, y, cls);
    }
  }

  /** The group `[^=].*` taken from `vs` leads to a match. */
  ghost predicate ValueFrom(t: string, vs: nat, cls: CharClass)
    requires vs <= |t|
  {
    vs < |t| && t[vs] != '=' && SemicolonSearch(t, vs + 1, RunEnd(t, vs + 1, NotNewline), cls).Some?
  }

  lemma {:induction false} ValueSearchComplete(t: string, u: nat, v: nat, vs: nat, cls: CharClass)
    requires u <= vs <= v <= |t|
    requires ValueFrom(t, vs, cls)
    ensures ValueSearch(t, u, v, cls).Some?
    decreases v
  {
    if !ValueFrom(t, v, cls) {
      assert v != vs;
      ValueSearchComplete(t, u, v - 1, vs, cls);
    }
  }

  /** The group `[^=].*` taken from `vs` to `ve`, then padding and `;`, leads to a match. */
  lemma ValueFromComplete(t: string, u: nat, vs: nat, ve: nat, n: nat, cls: CharClass)
    requires cls == Space || cls == Blank
    requires AssignedValue(t, u, vs, ve, n, cls)
    ensures ValueFrom(t, vs, cls)
  {
    RunEndCovers(t, vs + 1, ve, NotNewline);
    AllInRange(t, ve, n - 1, cls);
    RunEndIs(t, ve, n - 1, cls);
    SemicolonSearchComplete(t, vs + 1, RunEnd(t, vs + 1, NotNewline), ve, cls);
  }

  /** Every `C*([^=].*)C*;` at `u` is matched, for the padding classes the rules use. */
  lemma ValueAtComplete(t: string, u: nat, vs: nat, ve: nat, n: nat, cls: CharClass)
    requires cls == Space || cls == Blank
    requires AssignedValue(t, u, vs, ve, n, cls)
    ensures ValueAt(t, u, cls).Some?
  {
    AllInRange(t, u, vs, cls);
    RunEndCovers(t, u, vs, cls);
    ValueFromComplete(t, u, vs, ve, n, cls);
    ValueSearchComplete(t, u, RunEnd(t, u, cls), vs, cls);
  }

  lemma WriteTailComplete(t: string, q: nat, member: string, v: Assign, e: nat, w: nat)
    requires |member| > 0 && member[0] != ' '
    requires WriteItems(t, q, member, v, e, w)
    ensures WriteTail(t, q, member).Some?
  {
    ArrowMemberEndComplete(t, q, e, member);
    RunEndOf(t, e, w, Space);
    ValueAtComplete(t, w + 1, v.valueStart, v.valueEnd, v.end, Space);
    WriteTailFrom(t, q, member, e, w);
  }

  lemma WriteTailFrom(t: string, q: nat, member: string, e: nat, w: nat)
    requires q <= e <= w < |t| && t[w] == '='
    requires ArrowMemberEnd(t, q, member) == Some(e) && RunEnd(t, e, Space) == w
    requires ValueAt(t, w + 1, Space).Some?
    ensures WriteTail(t, q, member).Some?
  {
  }

  /**
   * Every member write `E->MEMBER = V;` the grammar describes is rewritten: at a
   * word boundary, an expression `E` followed by ` *-> *MEMBER\b\s*=\s*`, a value
   * that does not start with `=` and holds no newline after its first
   * character, whitespace and `;` is matched.
   */
  lemma SetMemberComplete(member: string, setter: string, s: string, p: nat, q: nat, v: Assign)
    requires |member| > 0 && member[0] != ' '
    requires p <= |s| && 0 < q <= |s| - p && Boundary(s, p)
    requires var t := s[p..]; IsExpr(t[..q]) && WriteAt(t, q, member, v)
    ensures MatchAt(SetMember(member, setter), s, p).Some?
  {
    WriteFound(member, setter, s[p..], q, v);
  }

  lemma WriteFound(member: string, setter: string, t: string, q: nat, v: Assign)
    requires |member| > 0 && member[0] != ' '
    requires 0 < q <= |t| && IsExpr(t[..q]) && WriteAt(t, q, member, v)
    ensures ExprSearch(SetMember(member, setter), t, ExprEnds(t, 0)).Some?
  {
    var e: nat, w: nat :| WriteItems(t, q, member, v, e, w);
    ArrowStops(t, q, e, member);
    WriteTailComplete(t, q, member, v, e, w);
    MemberTailFound(SetMember(member, setter), t, q);
  }

  /** An expression of the grammar that its rule's tail follows is found by the search over expression ends. */
  lemma MemberTailFound(rule: Rule, t: string, q: nat)
    requires 0 < q < |t| && ExprStop(t, q) && IsExpr(t[..q])
    requires MemberTail(rule, t, q).Some?
    ensures ExprSearch(rule, t, ExprEnds(t, 0)).Some?
  {
    assert t[0..q] == t[..q];
    ExprEndsComplete(t, 0, q);
    var ends := ExprEnds(t, 0);
    var k :| 0 <= k < |ends| && ends[k] == q;
    ExprSearchComplete(rule, t, ends, k);
  }

  // ---------------------------------------------------------------------
  // The call-assignment rule

  lemma CloseValueAtComplete(t: string, x: nat, c: nat, d: nat, vs: nat, ve: nat, n: nat)
    requires x <= c < d < |t|
    requires AllIn(t[x..c], Blank) && t[c] == ')' && AllIn(t[c + 1..d], Blank) && t[d] == '='
    requires AssignedValue(t, d + 1, vs, ve, n, Blank)
    ensures CloseValueAt(t, x).Some?
  {
    CloseRuns(t, x, c, d);
    ValueAtComplete(t, d + 1, vs, ve, n, Blank);
    CloseValueFrom(t, x, c, d);
  }

  lemma CloseValueFrom(t: string, x: nat, c: nat, d: nat)
    requires x <= c < d < |t| && t[c] == ')' && t[d] == '='
    requires RunEnd(t, x, Blank) == c && RunEnd(t, c + 1, Blank) == d
    requires ValueAt(t, d + 1, Blank).Some?
    ensures CloseValueAt(t, x).Some?
  {
  }

  lemma CloseRuns(t: string, x: nat, c: nat, d: nat)
    requires x <= c < d < |t|
    requires AllIn(t[x..c], Blank) && t[c] == ')' && AllIn(t[c + 1..d], Blank) && t[d] == '='
    ensures RunEnd(t, x, Blank) == c && RunEnd(t, c + 1, Blank) == d
  {
    AllInRange(t, x, c, Blank);
    RunEndIs(t, x, c, Blank);
    AllInRange(t, c + 1, d, Blank);
    RunEndIs(t, c + 1, d, Blank);
  }

  lemma {:induction false} CallGroupSearchComplete(t: string, b: nat, x: nat, x': nat)
    requires b < x' <= x <= |t|
    requires CloseValueAt(t, x').Some?
    ensures CallGroupSearch(t, b, x).Some?
    decreases x
  {
    if CloseValueAt(t, x).None? {
      assert x != x';
      CallGroupSearchComplete(t, b, x - 1, x');
    }
  }

  /** The `(.+)` group taken from `b` leads to a match. */
  ghost predicate ArgFrom(t: string, b: nat)
    requires b <= |t|
  {
    b < |t| && t[b] != '\n' && CallGroupSearch(t, b, RunEnd(t, b, NotNewline)).Some?
  }

  lemma {:induction false} CallArgSearchComplete(t: string, lo: nat, b: nat, b': nat)
    requires lo <= b' <= b <= |t|
    requires ArgFrom(t, b')
    ensures CallArgSearch(t, lo, b).Some?
    decreases b
  {
    if !ArgFrom(t, b) {
      assert b != b';
      CallArgSearchComplete(t, lo, b - 1, b');
    }
  }

  /** The argument search succeeds on a call target followed by an assigned value. */
  lemma CallArgComplete(t: string, name: string, a: nat, b: nat, x: nat, c: nat, d: nat, vs: nat, ve: nat, n: nat)
    requires CallTarget(t, name, a, b, x, c, d) && AssignedValue(t, d + 1, vs, ve, n, Blank)
    ensures CallArgSearch(t, a + 1, RunEnd(t, a + 1, Blank)).Some?
  {
    AllInRange(t, a + 1, b, Blank);
    RunEndCovers(t, a + 1, b, Blank);
    CallGroupComplete(t, name, a, b, x, c, d, vs, ve, n);
    CallArgSearchComplete(t, a + 1, RunEnd(t, a + 1, Blank), b);
  }

  /** The argument group taken from `b` leads to a match. */
  lemma CallGroupComplete(t: string, name: string, a: nat, b: nat, x: nat, c: nat, d: nat, vs: nat, ve: nat, n: nat)
    requires CallTarget(t, name, a, b, x, c, d) && AssignedValue(t, d + 1, vs, ve, n, Blank)
    ensures ArgFrom(t, b)
  {
    RunEndCovers(t, b, x, NotNewline);
    CloseValueAtComplete(t, x, c, d, vs, ve, n);
    CallGroupSearchComplete(t, b, RunEnd(t, b, NotNewline), x);
  }

  lemma CallAssignHitFrom(t: string, name: string, setter: string, a: nat)
    requires StartsWith(t, name) && |name| <= a < |t| && AllIn(t[|name|..a], Blank) && t[a] == '('
    requires CallArgSearch(t, a + 1, RunEnd(t, a + 1, Blank)).Some?
    ensures CallAssignHit(t, name, setter).Some?
  {
    RunEndOf(t, |name|, a, Blank);
    CallAssignHitAt(t, name, setter);
  }

  lemma CallAssignHitAt(t: string, name: string, setter: string)
    requires StartsWith(t, name)
    requires RunEnd(t, |name|, Blank) < |t| && t[RunEnd(t, |name|, Blank)] == '('
    requires CallArgSearch(t, RunEnd(t, |name|, Blank) + 1, RunEnd(t, RunEnd(t, |name|, Blank) + 1, Blank)).Some?
    ensures CallAssignHit(t, name, setter).Some?
  {
  }

  /**
   * Every call assignment `NAME(A) = V;` is rewritten: from `p`, the name,
   * spaces, `(`, spaces, a non-empty argument without newline, spaces, `)`,
   * spaces, `=`, spaces, a value that does not start with `=` and holds no
   * newline after its first character, spaces and `;` are matched.
   */
  lemma CallAssignComplete(name: string, setter: string, s: string, p: nat,
                           a: nat, b: nat, x: nat, c: nat, d: nat, vs: nat, ve: nat, n: nat)
    requires p <= |s|
    requires var t := s[p..];
      CallTarget(t, name, a, b, x, c, d) && AssignedValue(t, d + 1, vs, ve, n, Blank)
    ensures MatchAt(CallAssign(name, setter), s, p).Some?
  {
    CallArgComplete(s[p..], name, a, b, x, c, d, vs, ve, n);
    CallAssignHitFrom(s[p..], name, setter, a);
  }
}
