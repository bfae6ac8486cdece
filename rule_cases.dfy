/**
 * Worked cases of the substitution rules on inputs taken from the upgrader's
 * own tests (tests/test_upgrade_pythoncapi.py). Each case names its text as
 * a parameter `s` that spells a given string, and evaluates the scan of
 * Patterns on it position by position.
 */
module RuleCases {
  import opened Wrappers
  import opened Text
  import opened Patterns
  import opened PatternLaws

  /** `s` holds the characters of `t`, one by one. */
  predicate Spells(s: string, t: string) {
    |s| == |t| && forall k :: 0 <= k < |s| ==> s[k] == t[k]
  }

  // ---------------------------------------------------------------------
  // Evaluation steps shared by the cases

  /**
   * Over a stretch `t[lo + 1..e]` with no `)`, ended by neither a space nor `)`,
   * the group search of call_assign_regex backs off from any `x <= e` to `lo`
   * without a match.
   */
  lemma {:induction false} CallGroupNoClose(t: string, b: nat, lo: nat, x: nat, e: nat)
    requires b < lo < e <= |t| && lo <= x <= e
    requires forall k :: lo < k < e ==> t[k] != ')'
    requires e == |t| || (t[e] != ' ' && t[e] != ')')
    ensures CallGroupSearch(t, b, x) == CallGroupSearch(t, b, lo)
    decreases x
  {
    if x > lo {
      NoCloseAfter(t, lo, x, e);
      CallGroupSkip(t, b, x);
      CallGroupNoClose(t, b, lo, x - 1, e);
    }
  }

  /** No `)` follows the spaces at `x`, so nothing closes the call there. */
  lemma NoCloseAfter(t: string, lo: nat, x: nat, e: nat)
    requires lo < x <= e <= |t|
    requires forall k :: lo < k < e ==> t[k] != ')'
    requires e == |t| || (t[e] != ' ' && t[e] != ')')
    ensures CloseValueAt(t, x).None?
  {
    if e < |t| {
      RunEndBefore(t, x, e, Blank);
    }
  }

  /** Where nothing closes the call at `x`, the group search moves on to `x - 1`. */
  lemma CallGroupSkip(t: string, b: nat, x: nat)
    requires b + 1 < x <= |t|
    requires CloseValueAt(t, x).None?
    ensures CallGroupSearch(t, b, x) == CallGroupSearch(t, b, x - 1)
  {
  }

  /**
   * A lone identifier `s[p..e]` that neither `[`, `.` nor (after spaces) `->`
   * follows starts no member read.
   */
  lemma ShortExprNotRead(member: string, func: string, s: string, p: nat, e: nat)
    requires p < e <= |s|
    requires IsAsciiLetter(s[p]) && forall k :: p < k < e ==> IsWordChar(s[k])
    requires e < |s| ==> !IsWordChar(s[e]) && s[e] != '[' && s[e] != '.' && s[e] != '-'
    requires RunEnd(s, e, Blank) == |s| || s[RunEnd(s, e, Blank)] != '-'
    ensures MatchAt(GetMember(member, func), s, p).None?
  {
    LoneIdentSuffix(s, p, e);
    NoArrowSuffix(s, p, e, member);
    LoneExprNotRead(member, func, s[p..], e - p);
  }

  lemma LoneIdentSuffix(s: string, p: nat, e: nat)
    requires p < e <= |s|
    requires IsAsciiLetter(s[p]) && forall k :: p < k < e ==> IsWordChar(s[k])
    requires e < |s| ==> !IsWordChar(s[e]) && s[e] != '[' && s[e] != '.' && s[e] != '-'
    ensures ExprEnds(s[p..], 0) == [e - p]
  {
    var t := s[p..];
    var n := e - p;
    assert t[0] == s[p];
    forall k | 0 < k < n ensures IsWordChar(t[k]) {
      assert t[k] == s[p + k];
    }
    if n < |t| {
      assert t[n] == s[e];
    }
    LoneIdentEnds(t, n);
  }

  lemma NoArrowSuffix(s: string, p: nat, e: nat, member: string)
    requires p < e <= |s|
    requires RunEnd(s, e, Blank) == |s| || s[RunEnd(s, e, Blank)] != '-'
    ensures ArrowMemberEnd(s[p..], e - p, member) == None
  {
    var t := s[p..];
    var n := e - p;
    var a := RunEnd(t, n, Blank);
    var c := RunEnd(s, e, Blank);
    assert a + p == c by {
      RunEndSlice(s, p, n, Blank);
    }
    assert a == |t| || t[a] != '-' by {
      if a < |t| {
        assert t[a] == s[c];
      }
    }
    NoArrowAfter(t, n, member);
  }

  /** Without `->` after the spaces at `n`, no member follows. */
  lemma NoArrowAfter(t: string, n: nat, member: string)
    requires n <= |t|
    requires RunEnd(t, n, Blank) == |t| || t[RunEnd(t, n, Blank)] != '-'
    ensures ArrowMemberEnd(t, n, member) == None
  {
    var a := RunEnd(t, n, Blank);
    if a + 2 <= |t| {
      assert t[a..a + 2][0] == t[a];
    }
  }

  /** An expression with a single end and no member after it is not read. */
  lemma LoneExprNotRead(member: string, func: string, t: string, n: nat)
    requires 0 < n <= |t|
    requires ExprEnds(t, 0) == [n]
    requires ArrowMemberEnd(t, n, member) == None
    ensures ExprSearch(GetMember(member, func), t, ExprEnds(t, 0)) == None
  {
    assert ReadTailEnd(t, n, member) == None;
    assert MemberTail(GetMember(member, func), t, n) == None;
    assert [n][..0] == [];
  }

  /** The only expression end of a lone identifier is its own end. */
  lemma LoneIdentEnds(t: string, n: nat)
    requires 0 < n <= |t|
    requires IsAsciiLetter(t[0]) && forall k :: 0 < k < n ==> IsWordChar(t[k])
    requires n < |t| ==> !IsWordChar(t[n]) && t[n] != '[' && t[n] != '.' && t[n] != '-'
    ensures ExprEnds(t, 0) == [n]
  {
    RunEndIs(t, 1, n, IdentTail);
    assert BracketsEnd(t, n) == n;
    assert SepEnd(t, n) == None;
  }


  // ---------------------------------------------------------------------
  // Renames

  /** A call of the old name is renamed; the parenthesis and the argument are kept. */
  lemma RenameCallCase(s: string)
    requires Spells(s, "PyObject_NEW(x)")
    ensures Sub(Rename("PyObject_NEW", "PyObject_New"), s) == "PyObject_New(x)"
  {
    var r := Rename("PyObject_NEW", "PyObject_New");
    assert Boundary(s, 0) && Boundary(s, 12);
    assert RenameMatches(s, 0, "PyObject_NEW", 0) by {
      assert s[0..12] == "PyObject_NEW";
      assert s[12..12] == [];
    }
    RenameMatchAt("PyObject_NEW", "PyObject_New", s, 0);
    assert "PyObject_New" + s[12..13] == "PyObject_New(";
    assert MatchAt(r, s, 0) == Some(Hit(13, "PyObject_New("));
    assert MatchAt(r, s, 13) == None;
    assert MatchAt(r, s, 14) == None;
    assert SubFrom(r, s, 15) == [];
    assert SubFrom(r, s, 14) == ")";
    assert SubFrom(r, s, 13) == "x)";
  }

  /** A longer name that starts with the old name is not renamed: `PyObject_NEW_VAR(` is no call of `PyObject_NEW`. */
  lemma RenameNeedsWholeWordCase(s: string)
    requires Spells(s, "PyObject_NEW_VAR(t)")
    ensures Sub(Rename("PyObject_NEW", "PyObject_New"), s) == s
  {
    var r := Rename("PyObject_NEW", "PyObject_New");
    forall p | 0 <= p < |s| ensures MatchAt(r, s, p).None? {
      if p == 0 {
        assert !Boundary(s, 12);
      } else {
        assert !SubstringAt(s, "PyObject_NEW", p) by {
          if p + 12 <= |s| {
            assert s[p..p + 12][0] == s[p] && s[p..p + 12][1] == s[p + 1];
          }
        }
        RenameNeedsName("PyObject_NEW", "PyObject_New", s, p);
      }
    }
    SubFromNoMatch(r, s, 0);
  }

  /** A bare name that no parenthesis follows is not renamed: `PyObject_NEW;` is no call. */
  lemma RenameNeedsCallCase(s: string)
    requires Spells(s, "PyObject_NEW;")
    ensures Sub(Rename("PyObject_NEW", "PyObject_New"), s) == s
  {
    var r := Rename("PyObject_NEW", "PyObject_New");
    forall p | 0 <= p < |s| ensures MatchAt(r, s, p).None? {
      if p == 0 {
        assert RunEnd(s, 12, Blank) == 12;
      } else {
        assert !SubstringAt(s, "PyObject_NEW", p) by {
          if p + 12 <= |s| {
            assert s[p..p + 12][0] == s[p];
          }
        }
        RenameNeedsName("PyObject_NEW", "PyObject_New", s, p);
      }
    }
    SubFromNoMatch(r, s, 0);
  }

  // ---------------------------------------------------------------------
  // Member reads

  /** The candidate ends of an expression over a chain of `->`. */
  lemma MemberChainEnds(s: string)
    requires Spells(s, "a->b->ob_type")
    ensures ExprEnds(s, 0) == [1, 4, 13]
  {
    assert RunEnd(s, 1, IdentTail) == 1;
    assert SubExprEnd(s, 0) == Some(1);
    assert SepEnd(s, 1) == Some(3) by { assert s[1..3] == "->"; }
    assert RunEnd(s, 4, IdentTail) == 4;
    assert SubExprEnd(s, 3) == Some(4);
    assert SepEnd(s, 4) == Some(6) by { assert s[4..6] == "->"; }
    RunEndIs(s, 7, 13, IdentTail);
    assert SubExprEnd(s, 6) == Some(13);
    assert SepEnd(s, 13) == None;
    assert ExprEnds(s, 6) == [13];
    assert ExprEnds(s, 3) == [4, 13];
  }

  /** Only the end before the last `->` is followed by the member. */
  lemma MemberChainTails(s: string)
    requires Spells(s, "a->b->ob_type")
    ensures MemberTail(GetMember("ob_type", "Py_TYPE"), s, 13) == None
    ensures MemberTail(GetMember("ob_type", "Py_TYPE"), s, 4) == Some(Hit(13, "Py_TYPE(a->b)"))
  {
    assert s[..4] == "a->b";
    assert "Py_TYPE" + "(" + "a->b" + ")" == "Py_TYPE(a->b)";
    assert s[4..6] == "->";
    assert s[6..13] == "ob_type";
    assert ArrowMemberEnd(s, 4, "ob_type") == Some(13);
    assert ReadTailEnd(s, 4, "ob_type") == Some(13);
  }

  /** A member read at the end of a chain becomes a call on the longest expression before it. */
  lemma MemberReadCase(s: string)
    requires Spells(s, "a->b->ob_type")
    ensures Sub(GetMember("ob_type", "Py_TYPE"), s) == "Py_TYPE(a->b)"
  {
    var r := GetMember("ob_type", "Py_TYPE");
    assert s[0..] == s;
    MemberChainEnds(s);
    MemberChainTails(s);
    assert [1, 4, 13][..2] == [1, 4];
    assert ExprSearch(r, s, [1, 4, 13]) == Some(Hit(13, "Py_TYPE(a->b)"));
    assert MatchAt(r, s, 0) == Some(Hit(13, "Py_TYPE(a->b)"));
    assert SubFrom(r, s, 13) == [];
  }

  /** The member of a call's result is left alone: an expression holds no parentheses. */
  lemma CallResultMemberCase(s: string)
    requires Spells(s, "func()->ob_type")
    ensures Sub(GetMember("ob_type", "Py_TYPE"), s) == s
  {
    var r := GetMember("ob_type", "Py_TYPE");
    CallResultFuncNotRead(s);
    CallResultMemberNotRead(s);
    CallResultWordStarts(s);
    forall p | 0 <= p < |s| ensures MatchAt(r, s, p).None? {
      if p != 0 && p != 8 {
        MemberNeedsWordStart(r, s, p);
      }
    }
    SubFromNoMatch(r, s, 0);
  }

  /** `func` is a lone identifier followed by `(`. */
  lemma CallResultFuncNotRead(s: string)
    requires Spells(s, "func()->ob_type")
    ensures MatchAt(GetMember("ob_type", "Py_TYPE"), s, 0).None?
  {
    assert RunEnd(s, 4, Blank) == 4;
    ShortExprNotRead("ob_type", "Py_TYPE", s, 0, 4);
  }

  /** `ob_type` is a lone identifier at the end of the text. */
  lemma CallResultMemberNotRead(s: string)
    requires Spells(s, "func()->ob_type")
    ensures MatchAt(GetMember("ob_type", "Py_TYPE"), s, 8).None?
  {
    RunEndIs(s, 8, 15, IdentTail);
    ShortExprNotRead("ob_type", "Py_TYPE", s, 8, 15);
  }

  lemma CallResultWordStarts(s: string)
    requires Spells(s, "func()->ob_type")
    ensures forall p :: 0 < p < |s| && p != 8 ==> !Boundary(s, p) || !IsAsciiLetter(s[p])
  {
  }

  /** `Py_CLEAR` itself is a lone identifier followed by `(`. */
  lemma ClearCallNotRead(s: string)
    requires Spells(s, "Py_CLEAR(frame->f_code);")
    ensures MatchAt(GetMember("f_code", "_PyFrame_GetCodeBorrow"), s, 0).None?
  {
    assert RunEnd(s, 8, Blank) == 8;
    ShortExprNotRead("f_code", "_PyFrame_GetCodeBorrow", s, 0, 8);
  }

  /** The lookbehind rejects the expression right after `Py_CLEAR(`. */
  lemma ClearedExprNotRead(s: string)
    requires Spells(s, "Py_CLEAR(frame->f_code);")
    ensures MatchAt(GetMember("f_code", "_PyFrame_GetCodeBorrow"), s, 9).None?
  {
    assert s[..9][0..] == "Py_CLEAR(";
  }

  /** `f_code` is a lone identifier followed by `)`. */
  lemma ClearedMemberNotRead(s: string)
    requires Spells(s, "Py_CLEAR(frame->f_code);")
    ensures MatchAt(GetMember("f_code", "_PyFrame_GetCodeBorrow"), s, 16).None?
  {
    assert RunEnd(s, 22, Blank) == 22;
    ShortExprNotRead("f_code", "_PyFrame_GetCodeBorrow", s, 16, 22);
  }

  /** The argument of `Py_CLEAR(` is left alone. */
  lemma ClearArgumentCase(s: string)
    requires Spells(s, "Py_CLEAR(frame->f_code);")
    ensures Sub(GetMember("f_code", "_PyFrame_GetCodeBorrow"), s) == s
  {
    var r := GetMember("f_code", "_PyFrame_GetCodeBorrow");
    ClearCallNotRead(s);
    ClearedExprNotRead(s);
    ClearedMemberNotRead(s);
    ClearWordStarts(s);
    forall p | 0 <= p < |s| ensures MatchAt(r, s, p).None? {
      if p != 0 && p != 9 && p != 16 {
        MemberNeedsWordStart(r, s, p);
      }
    }
    SubFromNoMatch(r, s, 0);
  }

  lemma ClearWordStarts(s: string)
    requires Spells(s, "Py_CLEAR(frame->f_code);")
    ensures forall p :: 0 < p < |s| && p != 9 && p != 16 ==> !Boundary(s, p) || !IsAsciiLetter(s[p])
  {
  }

  lemma AssignedWordStarts(s: string)
    requires Spells(s, "frame->f_code = code;")
    ensures forall p :: 0 < p < |s| && p != 7 && p != 16 ==> !Boundary(s, p) || !IsAsciiLetter(s[p])
  {
  }

  lemma AssignedMemberAtStart(s: string)
    requires Spells(s, "frame->f_code = code;")
    ensures MatchAt(GetMember("f_code", "_PyFrame_GetCodeBorrow"), s, 0).None?
  {
    var r := GetMember("f_code", "_PyFrame_GetCodeBorrow");
    assert s[0..] == s;
    AssignedEnds(s);
    AssignedTails(s);
    assert [5, 13][..1] == [5] && [5][..0] == [];
    assert ExprSearch(r, s, [5]) == None;
    assert ExprSearch(r, s, [5, 13]) == None;
    assert !EndsWith(s[..0], "Py_CLEAR(");
  }

  lemma AssignedEnds(s: string)
    requires Spells(s, "frame->f_code = code;")
    ensures ExprEnds(s, 0) == [5, 13]
  {
    RunEndIs(s, 1, 5, IdentTail);
    assert SubExprEnd(s, 0) == Some(5);
    assert SepEnd(s, 5) == Some(7) by { assert s[5..7] == "->"; }
    AssignedMemberEnds(s);
  }

  /** The expression after `->` is the member name alone. */
  lemma AssignedMemberEnds(s: string)
    requires Spells(s, "frame->f_code = code;")
    ensures ExprEnds(s, 7) == [13]
  {
    RunEndIs(s, 8, 13, IdentTail);
    assert SubExprEnd(s, 7) == Some(13);
    assert SepEnd(s, 13) == None;
  }

  /** Neither end is followed by a member that is read: `f_code` is followed by ` =`. */
  lemma AssignedTails(s: string)
    requires Spells(s, "frame->f_code = code;")
    ensures MemberTail(GetMember("f_code", "_PyFrame_GetCodeBorrow"), s, 13) == None
    ensures MemberTail(GetMember("f_code", "_PyFrame_GetCodeBorrow"), s, 5) == None
  {
    AssignedTailAfterMember(s);
    AssignedTailAfterObject(s);
  }

  /** After `f_code` come spaces and `=`, not `->`. */
  lemma AssignedTailAfterMember(s: string)
    requires Spells(s, "frame->f_code = code;")
    ensures MemberTail(GetMember("f_code", "_PyFrame_GetCodeBorrow"), s, 13) == None
  {
    assert RunEnd(s, 13, Blank) == 14;
    assert ArrowMemberEnd(s, 13, "f_code") == None;
  }

  /** After `frame->f_code` comes ` =`, which the lookahead rejects. */
  lemma AssignedTailAfterObject(s: string)
    requires Spells(s, "frame->f_code = code;")
    ensures MemberTail(GetMember("f_code", "_PyFrame_GetCodeBorrow"), s, 5) == None
  {
    assert s[7..13] == "f_code" && s[5..7] == "->";
    assert ArrowMemberEnd(s, 5, "f_code") == Some(13);
    assert RunEnd(s, 13, Space) == 14;
  }

  /** `f_code` alone is followed by ` =`, not by `->`. */
  lemma AssignedNameNotRead(s: string)
    requires Spells(s, "frame->f_code = code;")
    ensures MatchAt(GetMember("f_code", "_PyFrame_GetCodeBorrow"), s, 7).None?
  {
    assert RunEnd(s, 13, Blank) == 14;
    ShortExprNotRead("f_code", "_PyFrame_GetCodeBorrow", s, 7, 13);
  }

  /** The value `code` is followed by `;`. */
  lemma AssignedValueNotRead(s: string)
    requires Spells(s, "frame->f_code = code;")
    ensures MatchAt(GetMember("f_code", "_PyFrame_GetCodeBorrow"), s, 16).None?
  {
    assert RunEnd(s, 20, Blank) == 20;
    ShortExprNotRead("f_code", "_PyFrame_GetCodeBorrow", s, 16, 20);
  }

  /** A member that is assigned to is not read: the read rule leaves the assignment alone. */
  lemma AssignedMemberNotReadCase(s: string)
    requires Spells(s, "frame->f_code = code;")
    ensures Sub(GetMember("f_code", "_PyFrame_GetCodeBorrow"), s) == s
  {
    var r := GetMember("f_code", "_PyFrame_GetCodeBorrow");
    AssignedMemberAtStart(s);
    AssignedNameNotRead(s);
    AssignedValueNotRead(s);
    AssignedWordStarts(s);
    forall p | 0 <= p < |s| ensures MatchAt(r, s, p).None? {
      if p != 0 && p != 7 && p != 16 {
        MemberNeedsWordStart(r, s, p);
      }
    }
    SubFromNoMatch(r, s, 0);
  }

  // ---------------------------------------------------------------------
  // Member writes

  lemma MemberWriteTail(s: string)
    requires Spells(s, "o->ob_type = t;")
    ensures WriteTail(s, 1, "ob_type") == Some(Assign(13, 14, 15))
  {
    assert s[1..3] == "->";
    assert s[3..10] == "ob_type";
    assert ArrowMemberEnd(s, 1, "ob_type") == Some(10);
    assert RunEnd(s, 10, Space) == 11;
    assert RunEnd(s, 12, Space) == 13;
    assert RunEnd(s, 14, NotNewline) == 15;
    assert SemicolonSearch(s, 14, 15, Space) == Some((14, 15));
    assert ValueAt(s, 12, Space) == Some(Assign(13, 14, 15));
  }

  lemma MemberWriteEnds(s: string)
    requires Spells(s, "o->ob_type = t;")
    ensures ExprEnds(s, 0) == [1, 10]
  {
    assert RunEnd(s, 1, IdentTail) == 1;
    assert SubExprEnd(s, 0) == Some(1);
    assert SepEnd(s, 1) == Some(3) by { assert s[1..3] == "->"; }
    RunEndIs(s, 4, 10, IdentTail);
    assert SubExprEnd(s, 3) == Some(10);
    assert SepEnd(s, 10) == None;
    assert ExprEnds(s, 3) == [10];
  }

  lemma MemberWriteTails(s: string)
    requires Spells(s, "o->ob_type = t;")
    ensures MemberTail(SetMember("ob_type", "Py_SET_TYPE"), s, 10) == None
    ensures MemberTail(SetMember("ob_type", "Py_SET_TYPE"), s, 1) == Some(Hit(15, "Py_SET_TYPE(o, t);"))
  {
    assert s[..1] == "o" && s[13..14] == "t";
    assert "Py_SET_TYPE" + "(" + "o" + ", " + "t" + ");" == "Py_SET_TYPE(o, t);";
    assert RunEnd(s, 10, Blank) == 11;
    assert !SubstringAt(s, "->", 11);
    MemberWriteTail(s);
  }

  /** An assignment to a member becomes a call of the setter on the expression and the value. */
  lemma MemberWriteCase(s: string)
    requires Spells(s, "o->ob_type = t;")
    ensures Sub(SetMember("ob_type", "Py_SET_TYPE"), s) == "Py_SET_TYPE(o, t);"
  {
    var r := SetMember("ob_type", "Py_SET_TYPE");
    assert s[0..] == s;
    MemberWriteEnds(s);
    MemberWriteTails(s);
    assert [1, 10][..1] == [1];
    assert ExprSearch(r, s, [1, 10]) == Some(Hit(15, "Py_SET_TYPE(o, t);"));
    assert MatchAt(r, s, 0) == Some(Hit(15, "Py_SET_TYPE(o, t);"));
    assert SubFrom(r, s, 15) == [];
  }


  // ---------------------------------------------------------------------
  // Assignments to a getter call

  /** A one-line text that opens with `Py_TYPE(` and an argument character. */
  predicate OpensTypeCall(s: string) {
    && |s| >= 9 && s[..8] == "Py_TYPE(" && s[8] != ' ' && s[8] != '\n'
    && forall k :: 8 <= k < |s| ==> s[k] != '\n'
  }

  /** `s` opens a `Py_TYPE(` call when the text it spells does. */
  lemma SpelledTypeCall(s: string, t: string)
    requires Spells(s, t)
    requires |t| >= 9 && t[..8] == "Py_TYPE(" && t[8] != ' ' && t[8] != '\n'
    requires forall k :: 8 <= k < |t| ==> t[k] != '\n'
    ensures OpensTypeCall(s)
  {
    assert s[..8] == t[..8];
  }

  /** The start of a call-assignment match: `NAME(` followed by the group search from `8`. */
  lemma CallAssignStart(s: string)
    requires OpensTypeCall(s)
    ensures CallArgSearch(s, 8, RunEnd(s, 8, Blank)) == match CallGroupSearch(s, 8, |s|)
      case None => None
      case Some((x, w)) => Some((8, x, w))
    ensures MatchAt(CallAssign("Py_TYPE", "Py_SET_TYPE"), s, 0) == CallAssignHit(s, "Py_TYPE", "Py_SET_TYPE")
    ensures StartsWith(s, "Py_TYPE") && RunEnd(s, 7, Blank) == 7 && s[7] == '('
  {
    assert s[0..] == s;
    assert s[7] == s[..8][7];
    assert s[..7] == s[..8][..7];
    assert RunEnd(s, 8, Blank) == 8;
    NoNewlineRunsToEnd(s, 8);
  }

  /** With the group search settled, the call-assignment match at `0` is the setter call it builds. */
  lemma CallAssignResult(s: string, x: nat, w: Assign)
    requires OpensTypeCall(s)
    requires CallGroupSearch(s, 8, |s|) == Some((x, w))
    ensures 8 < x < w.valueStart < w.valueEnd < w.end <= |s|
    ensures MatchAt(CallAssign("Py_TYPE", "Py_SET_TYPE"), s, 0)
      == Some(Hit(w.end, "Py_SET_TYPE" + "(" + s[8..x] + ", " + s[w.valueStart..w.valueEnd] + ");"))
  {
    CallAssignStart(s);
  }

  lemma CallAssignGroup(s: string)
    requires Spells(s, "Py_TYPE(o) = t;")
    ensures CallGroupSearch(s, 8, 9) == Some((9, Assign(13, 14, 15)))
  {
    assert RunEnd(s, 10, Blank) == 11;
    assert RunEnd(s, 12, Blank) == 13;
    assert RunEnd(s, 14, NotNewline) == 15;
    assert SemicolonSearch(s, 14, 15, Blank) == Some((14, 15));
    assert ValueAt(s, 12, Blank) == Some(Assign(13, 14, 15));
  }

  lemma CallAssignSearch(s: string)
    requires Spells(s, "Py_TYPE(o) = t;")
    ensures OpensTypeCall(s)
    ensures CallGroupSearch(s, 8, |s|) == Some((9, Assign(13, 14, 15)))
  {
    SpelledTypeCall(s, "Py_TYPE(o) = t;");
    CallAssignNoClose(s);
    CallAssignGroup(s);
  }

  lemma CallAssignArgHasNoClose(s: string)
    requires Spells(s, "Py_TYPE(o) = t;")
    ensures |s| == 15 && forall k :: 9 < k < 15 ==> s[k] != ')'
  {
  }

  lemma CallAssignNoClose(s: string)
    requires Spells(s, "Py_TYPE(o) = t;")
    ensures CallGroupSearch(s, 8, |s|) == CallGroupSearch(s, 8, 9)
  {
    CallAssignArgHasNoClose(s);
    CallGroupNoClose(s, 8, 9, 15, 15);
  }

  lemma CallAssignAtStart(s: string)
    requires Spells(s, "Py_TYPE(o) = t;")
    ensures MatchAt(CallAssign("Py_TYPE", "Py_SET_TYPE"), s, 0) == Some(Hit(15, "Py_SET_TYPE(o, t);"))
  {
    assert s[8..9] == "o" && s[13..14] == "t";
    assert "Py_SET_TYPE" + "(" + "o" + ", " + "t" + ");" == "Py_SET_TYPE(o, t);";
    CallAssignSearch(s);
    CallAssignResult(s, 9, Assign(13, 14, 15));
  }

  /** An assignment to a getter call becomes a call of the setter on the argument and the value. */
  lemma CallAssignCase(s: string)
    requires Spells(s, "Py_TYPE(o) = t;")
    ensures Sub(CallAssign("Py_TYPE", "Py_SET_TYPE"), s) == "Py_SET_TYPE(o, t);"
  {
    CallAssignAtStart(s);
    assert SubFrom(CallAssign("Py_TYPE", "Py_SET_TYPE"), s, 15) == [];
  }

  /** After `) =` comes a second `=`, which cannot start a value. */
  lemma ComparisonAtStart(s: string)
    requires Spells(s, "Py_TYPE(a) == t;")
    ensures MatchAt(CallAssign("Py_TYPE", "Py_SET_TYPE"), s, 0).None?
  {
    SpelledTypeCall(s, "Py_TYPE(a) == t;");
    CallAssignStart(s);
    ComparisonNoClose(s);
    ComparisonGroup(s);
  }

  lemma ComparisonArgHasNoClose(s: string)
    requires Spells(s, "Py_TYPE(a) == t;")
    ensures |s| == 16 && forall k :: 9 < k < 16 ==> s[k] != ')'
  {
  }

  lemma ComparisonNoClose(s: string)
    requires Spells(s, "Py_TYPE(a) == t;")
    ensures CallGroupSearch(s, 8, |s|) == CallGroupSearch(s, 8, 9)
  {
    ComparisonArgHasNoClose(s);
    CallGroupNoClose(s, 8, 9, 16, 16);
  }

  lemma ComparisonGroup(s: string)
    requires Spells(s, "Py_TYPE(a) == t;")
    ensures CallGroupSearch(s, 8, 9) == None
  {
    assert RunEnd(s, 10, Blank) == 11;
    assert RunEnd(s, 12, Blank) == 12;
    assert ValueAt(s, 12, Blank) == None;
  }

  /** A comparison with a getter call is no assignment. */
  lemma ComparisonCase(s: string)
    requires Spells(s, "Py_TYPE(a) == t;")
    ensures Sub(CallAssign("Py_TYPE", "Py_SET_TYPE"), s) == s
  {
    var r := CallAssign("Py_TYPE", "Py_SET_TYPE");
    ComparisonAtStart(s);
    forall p | 0 <= p < |s| ensures MatchAt(r, s, p).None? {
      if p != 0 {
        assert !SubstringAt(s, "Py_TYPE", p) by {
          if p + 7 <= |s| {
            assert s[p..p + 7][0] == s[p] && s[p..p + 7][1] == s[p + 1];
          }
        }
        CallAssignNeedsName("Py_TYPE", "Py_SET_TYPE", s, p);
      }
    }
    SubFromNoMatch(r, s, 0);
  }

  lemma LastSemicolonGroup(s: string)
    requires Spells(s, "Py_TYPE(o) = t; x;")
    ensures CallGroupSearch(s, 8, 9) == Some((9, Assign(13, 17, 18)))
  {
    assert RunEnd(s, 10, Blank) == 11;
    assert RunEnd(s, 12, Blank) == 13;
    NoNewlineRunsToEnd(s, 14);
    assert RunEnd(s, 17, Blank) == 17;
    assert SemicolonSearch(s, 14, 17, Blank) == Some((17, 18));
    assert SemicolonSearch(s, 14, 18, Blank) == Some((17, 18));
    assert ValueAt(s, 12, Blank) == Some(Assign(13, 17, 18));
  }

  lemma LastSemicolonSearch(s: string)
    requires Spells(s, "Py_TYPE(o) = t; x;")
    ensures OpensTypeCall(s)
    ensures CallGroupSearch(s, 8, |s|) == Some((9, Assign(13, 17, 18)))
  {
    SpelledTypeCall(s, "Py_TYPE(o) = t; x;");
    LastSemicolonNoClose(s);
    LastSemicolonGroup(s);
  }

  lemma LastSemicolonArgHasNoClose(s: string)
    requires Spells(s, "Py_TYPE(o) = t; x;")
    ensures |s| == 18 && forall k :: 9 < k < 18 ==> s[k] != ')'
  {
  }

  lemma LastSemicolonNoClose(s: string)
    requires Spells(s, "Py_TYPE(o) = t; x;")
    ensures CallGroupSearch(s, 8, |s|) == CallGroupSearch(s, 8, 9)
  {
    LastSemicolonArgHasNoClose(s);
    CallGroupNoClose(s, 8, 9, 18, 18);
  }

  lemma LastSemicolonAtStart(s: string)
    requires Spells(s, "Py_TYPE(o) = t; x;")
    ensures MatchAt(CallAssign("Py_TYPE", "Py_SET_TYPE"), s, 0) == Some(Hit(18, "Py_SET_TYPE(o, t; x);"))
  {
    assert s[8..9] == "o" && s[13..17] == "t; x";
    assert "Py_SET_TYPE" + "(" + "o" + ", " + "t; x" + ");" == "Py_SET_TYPE(o, t; x);";
    LastSemicolonSearch(s);
    CallAssignResult(s, 9, Assign(13, 17, 18));
  }

  /**
   * The value of an assignment runs to the last `;` of its line: a statement
   * that follows on the same line becomes part of the setter's second argument.
   */
  lemma LastSemicolonCase(s: string)
    requires Spells(s, "Py_TYPE(o) = t; x;")
    ensures Sub(CallAssign("Py_TYPE", "Py_SET_TYPE"), s) == "Py_SET_TYPE(o, t; x);"
  {
    LastSemicolonAtStart(s);
    assert SubFrom(CallAssign("Py_TYPE", "Py_SET_TYPE"), s, 18) == [];
  }
}
