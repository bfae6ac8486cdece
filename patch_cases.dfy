/**
 * Worked runs of whole operations on inputs of the upgrader's tests
 * (tests/test_upgrade_pythoncapi.py): the release macros of the PyMem_MALLOC
 * and PyObject_MALLOC operations, in both spellings, become the `_Free`
 * function; and an assignment to `ob_type` in a text without the include
 * becomes a setter call, the include is prepended followed by a blank line,
 * and the operation is recorded.
 */
module PatchCases {
  import opened Wrappers
  import opened Text
  import opened Patterns
  import opened PatternLaws
  import opened Operations
  import opened Upgrader
  import opened RuleCases

  /** `o->ob_type = t;` holds no `Py_TYPE`, so the call-assignment rule leaves it alone. */
  lemma NoCallAssign(s: string)
    requires Spells(s, "o->ob_type = t;")
    ensures Sub(CallAssign("Py_TYPE", "Py_SET_TYPE"), s) == s
  {
    var call := CallAssign("Py_TYPE", "Py_SET_TYPE");
    forall p | 0 <= p < |s| ensures MatchAt(call, s, p).None? {
      assert !SubstringAt(s, "Py_TYPE", p) by {
        if p + 7 <= |s| {
          assert s[p..p + 7][0] == s[p];
        }
      }
      CallAssignNeedsName("Py_TYPE", "Py_SET_TYPE", s, p);
    }
    SubFromNoMatch(call, s, 0);
    assert s[0..] == s;
  }

  /** Of the rules of the Py_SET_TYPE operation only the member write matches `o->ob_type = t;`. */
  lemma SetTypeRewrite(s: string)
    requires Spells(s, "o->ob_type = t;")
    ensures Rewrite(PySetType.replace, s) == "Py_SET_TYPE(o, t);"
  {
    var call := CallAssign("Py_TYPE", "Py_SET_TYPE");
    var write := SetMember("ob_type", "Py_SET_TYPE");
    assert PySetType.replace == [call, write];
    assert [call, write][..1] == [call] && [call][..0] == [];
    assert Rewrite([call], s) == Sub(call, s);
    NoCallAssign(s);
    MemberWriteCase(s);
    assert Rewrite([call, write], s) == Sub(write, Rewrite([call], s));
  }

  /** A text shorter than the include line cannot hold it. */
  lemma TooShortForInclude(content: string, line: string)
    requires |content| < |line|
    ensures !Contains(content, line)
  {
  }

  /**
   * `_patch` with the Py_SET_TYPE operation alone: the setter call replaces the
   * assignment, the include and a blank line are prepended, the count of
   * insertions goes from 0 to 1, and the operation's name is recorded.
   */
  lemma SetTypePatchCase(s: string)
    requires Spells(s, "o->ob_type = t;")
    ensures var end := PatchRun([PySetType], false, s, 0);
      && end.content == IncludePythoncapiCompat + "\n" + "\n" + "Py_SET_TYPE(o, t);"
      && end.added == 1
      && end.applied == ["Py_SET_TYPE"]
  {
    TooShortForInclude(s, IncludePythoncapiCompat);
    TooShortForInclude(s, IncludePythoncapiCompat2);
    assert !InitiallyHas(false, s);
    SetTypeRewrite(s);
    var rewritten := "Py_SET_TYPE(o, t);";
    TooShortForInclude(rewritten, IncludePythoncapiCompat + "\n");
    var start := Run(s, false, 0, []);
    assert [PySetType][..0] == [];
    assert RunOps([PySetType], start) == OpStep(PySetType, start);
    assert rewritten != s;
  }

  /** With `--no-compat` the same run rewrites the text and inserts nothing. */
  lemma SetTypeNoCompatCase(s: string)
    requires Spells(s, "o->ob_type = t;")
    ensures var end := PatchRun([PySetType], true, s, 0);
      && end.content == "Py_SET_TYPE(o, t);"
      && end.added == 0
      && end.applied == ["Py_SET_TYPE"]
  {
    SetTypeRewrite(s);
    var start := Run(s, true, 0, []);
    assert [PySetType][..0] == [];
    assert RunOps([PySetType], start) == OpStep(PySetType, start);
    assert "Py_SET_TYPE(o, t);" != s;
  }

  // ---------------------------------------------------------------------
  // The release macros

  /** The rename's old name occurs nowhere in `s`. */
  ghost predicate RenameAbsent(rule: Rule, s: string) {
    rule.Rename? && forall p: nat :: p < |s| ==> !SubstringAt(s, rule.oldName, p)
  }

  /**
   * A name that differs from the start of `s` at index `d` and whose first
   * character occurs nowhere else in `s` is absent from `s`.
   */
  lemma AbsentByFirstChar(rule: Rule, s: string, d: nat)
    requires rule.Rename? && d < |rule.oldName|
    requires d >= |s| || s[d] != rule.oldName[d]
    requires rule.oldName[0] == 'P' && OnlyLeadingP(s)
    ensures RenameAbsent(rule, s)
  {
    var name := rule.oldName;
    forall p: nat | p < |s| ensures !SubstringAt(s, name, p) {
      if p + |name| <= |s| {
        if p == 0 {
          assert s[0..|name|][d] == s[d];
        } else {
          assert s[p..p + |name|][0] == s[p];
        }
      }
    }
  }

  /** `P`, the first letter of every release macro, occurs in `s` at most at its start. */
  predicate OnlyLeadingP(s: string) {
    forall j :: 0 < j < |s| ==> s[j] != 'P'
  }

  lemma LeadingPOnly()
    ensures OnlyLeadingP("PyMem_Del(ptr);") && OnlyLeadingP("PyMem_DEL(ptr);")
    ensures OnlyLeadingP("PyMem_Free(ptr);")
    ensures OnlyLeadingP("PyObject_Del(ptr);") && OnlyLeadingP("PyObject_DEL(ptr);")
    ensures OnlyLeadingP("PyObject_Free(ptr);")
  {
  }

  /** Rules whose names are all absent match nowhere, so they leave the text as it is. */
  lemma RewriteKeeps(rules: seq<Rule>, s: string)
    requires forall k :: 0 <= k < |rules| ==> RenameAbsent(rules[k], s)
    ensures Rewrite(rules, s) == s
  {
    forall k, j | 0 <= k < |rules| && 0 <= j < |s| ensures MatchAt(rules[k], s, j).None? {
      RenameNeedsName(rules[k].oldName, rules[k].newName, s, j);
    }
    RewriteWithoutMatch(rules, s);
  }

  /**
   * When only rule `i` of a table finds its name in the text, and what it makes
   * of the text holds none of the later names, the table rewrites the text as
   * that one rule does.
   */
  lemma {:induction false} RewriteOne(rules: seq<Rule>, i: nat, s: string, r: string)
    requires i < |rules|
    requires forall k :: 0 <= k < i ==> RenameAbsent(rules[k], s)
    requires Sub(rules[i], s) == r
    requires forall k :: i < k < |rules| ==> RenameAbsent(rules[k], r)
    ensures Rewrite(rules, s) == r
  {
    var init := rules[..|rules| - 1];
    if |rules| == i + 1 {
      forall k | 0 <= k < |init| ensures RenameAbsent(init[k], s) {
        assert init[k] == rules[k];
      }
      RewriteKeeps(init, s);
    } else {
      forall k | 0 <= k < i ensures RenameAbsent(init[k], s) {
        assert init[k] == rules[k];
      }
      forall k | i < k < |init| ensures RenameAbsent(init[k], r) {
        assert init[k] == rules[k];
      }
      assert init[i] == rules[i];
      RewriteOne(init, i, s, r);
      var last := rules[|rules| - 1];
      RenameWithoutName(last.oldName, last.newName, r);
    }
  }

  /** A call of the old name at the start of the text, its only occurrence, is renamed and the rest kept. */
  lemma RenameAtStart(oldName: string, newName: string, rest: string)
    requires |oldName| > 0 && IsWordChar(oldName[|oldName| - 1])
    requires |rest| > 0 && rest[0] == '('
    requires oldName[0] == 'P' && OnlyLeadingP(oldName + rest)
    ensures Sub(Rename(oldName, newName), oldName + rest) == newName + rest
  {
    var s := oldName + rest;
    var rule := Rename(oldName, newName);
    var e := |oldName|;
    assert s[..e] == oldName && s[e..] == rest;
    assert s[0..e] == s[..e];
    RenameMatchesOf(s, 0, oldName, 0);
    RenameMatchAt(oldName, newName, s, 0);
    assert MatchAt(rule, s, 0) == Some(Hit(e + 1, newName + s[e..e + 1]));
    forall j | e + 1 <= j < |s| ensures MatchAt(rule, s, j).None? {
      assert !SubstringAt(s, oldName, j) by {
        if j + e <= |s| {
          assert s[j..j + e][0] == s[j];
        }
      }
      RenameNeedsName(oldName, newName, s, j);
    }
    SubFromNoMatch(rule, s, e + 1);
    assert s[e..] == s[e..e + 1] + s[e + 1..];
  }

  /**
   * A release macro called at the start of the text, where the names of the
   * table's earlier rules do not occur and the names of its later rules do not
   * occur in the result, becomes the function it names.
   */
  lemma ReleaseRewrite(rules: seq<Rule>, i: nat, oldName: string, newName: string, rest: string)
    requires i < |rules| && rules[i] == Rename(oldName, newName)
    requires |oldName| > 0 && IsWordChar(oldName[|oldName| - 1])
    requires |rest| > 0 && rest[0] == '('
    requires oldName[0] == 'P' && OnlyLeadingP(oldName + rest)
    requires forall k :: 0 <= k < i ==> RenameAbsent(rules[k], oldName + rest)
    requires forall k :: i < k < |rules| ==> RenameAbsent(rules[k], newName + rest)
    ensures Rewrite(rules, oldName + rest) == newName + rest
  {
    RenameAtStart(oldName, newName, rest);
    RewriteOne(rules, i, oldName + rest, newName + rest);
  }

  /** `PyMem_Del(ptr);` becomes `PyMem_Free(ptr);` under the PyMem_MALLOC operation. */
  lemma PyMemDelCase(s: string, r: string)
    requires s == "PyMem_Del(ptr);" && r == "PyMem_Free(ptr);"
    ensures Rewrite(PyMemMalloc.replace, s) == r
  {
    var rules := PyMemMalloc.replace;
    LeadingPOnly();
    assert s == "PyMem_Del" + "(ptr);" && r == "PyMem_Free" + "(ptr);";
    AbsentByFirstChar(rules[0], s, 6);
    AbsentByFirstChar(rules[1], s, 6);
    AbsentByFirstChar(rules[2], s, 6);
    AbsentByFirstChar(rules[4], r, 6);
    ReleaseRewrite(rules, 3, "PyMem_Del", "PyMem_Free", "(ptr);");
  }

  /** `PyMem_DEL(ptr);` becomes `PyMem_Free(ptr);` under the PyMem_MALLOC operation. */
  lemma PyMemDELCase(s: string, r: string)
    requires s == "PyMem_DEL(ptr);" && r == "PyMem_Free(ptr);"
    ensures Rewrite(PyMemMalloc.replace, s) == r
  {
    var rules := PyMemMalloc.replace;
    LeadingPOnly();
    assert s == "PyMem_DEL" + "(ptr);" && r == "PyMem_Free" + "(ptr);";
    AbsentByFirstChar(rules[0], s, 6);
    AbsentByFirstChar(rules[1], s, 6);
    AbsentByFirstChar(rules[2], s, 6);
    AbsentByFirstChar(rules[3], s, 7);
    ReleaseRewrite(rules, 4, "PyMem_DEL", "PyMem_Free", "(ptr);");
  }

  /** `PyObject_Del(ptr);` becomes `PyObject_Free(ptr);` under the PyObject_MALLOC operation. */
  lemma PyObjectDelCase(s: string, r: string)
    requires s == "PyObject_Del(ptr);" && r == "PyObject_Free(ptr);"
    ensures Rewrite(PyObjectMalloc.replace, s) == r
  {
    var rules := PyObjectMalloc.replace;
    LeadingPOnly();
    assert s == "PyObject_Del" + "(ptr);" && r == "PyObject_Free" + "(ptr);";
    AbsentByFirstChar(rules[0], s, 9);
    AbsentByFirstChar(rules[1], s, 9);
    AbsentByFirstChar(rules[2], s, 9);
    AbsentByFirstChar(rules[4], r, 9);
    ReleaseRewrite(rules, 3, "PyObject_Del", "PyObject_Free", "(ptr);");
  }

  /** `PyObject_DEL(ptr);` becomes `PyObject_Free(ptr);` under the PyObject_MALLOC operation. */
  lemma PyObjectDELCase(s: string, r: string)
    requires s == "PyObject_DEL(ptr);" && r == "PyObject_Free(ptr);"
    ensures Rewrite(PyObjectMalloc.replace, s) == r
  {
    var rules := PyObjectMalloc.replace;
    LeadingPOnly();
    assert s == "PyObject_DEL" + "(ptr);" && r == "PyObject_Free" + "(ptr);";
    AbsentByFirstChar(rules[0], s, 9);
    AbsentByFirstChar(rules[1], s, 9);
    AbsentByFirstChar(rules[2], s, 9);
    AbsentByFirstChar(rules[3], s, 10);
    ReleaseRewrite(rules, 4, "PyObject_DEL", "PyObject_Free", "(ptr);");
  }
}
