/**
 * The patch driver of the upgrader: inserting the compatibility include
 * (upgrade_pythoncapi.py:347-364), one operation's patch (75-81) and the run
 * of every selected operation over a text (366-385), first as functions on a
 * record of the patcher's state, then as the class Patcher whose methods
 * update that state in place and are proved against those functions.
 */
module Upgrader {
  import opened Wrappers
  import opened Text
  import opened Patterns
  import opened PatternLaws
  import opened Operations
  import opened Selection

  const IncludePythoncapiCompat: string := "#include \"pythoncapi_compat.h\""
  const IncludePythoncapiCompat2: string := "#include <pythoncapi_compat.h>"

  /** is_c_filename: the name ends in `.c` or `.h`. */
  predicate IsCFilename(filename: string) {
    EndsWith(filename, ".c") || EndsWith(filename, ".h")
  }

  lemma IsCFilenameIff(filename: string)
    ensures IsCFilename(filename) <==> exists stem :: filename == stem + ".c" || filename == stem + ".h"
  {
    if IsCFilename(filename) {
      var stem := filename[..|filename| - 2];
      assert filename == stem + filename[|filename| - 2..];
    }
  }

  /**
   * add_line: `line` and a newline are prepended, followed by a blank line,
   * unless that line already occurs somewhere in the text.
   */
  function AddLine(content: string, line: string): (r: string)
    ensures Contains(r, line + "\n")
    ensures r == content <==> Contains(content, line + "\n")
    ensures r == content || r == line + "\n" + "\n" + content
  {
    var l := line + "\n";
    if Contains(content, l) then content
    else
      var r := l + "\n" + content;
      assert SubstringAt(r, l, 0);
      r
  }

  /** Adding a line twice is adding it once. */
  lemma AddLineIdempotent(content: string, line: string)
    ensures AddLine(AddLine(content, line), line) == AddLine(content, line)
  {
  }

  // ---------------------------------------------------------------------
  // A patch run as functions

  /**
   * The state of one call of `_patch`: the running text, whether the include
   * counts as present (`_has_pythoncapi_compat`), the patcher's running count
   * of insertions, and the names recorded in `_applied_operations`.
   */
  datatype Run = Run(content: string, has: bool, added: nat, applied: seq<string>)

  /** `_has_pythoncapi_compat` at the start: `--no-compat`, or either spelling of the include is in the text. */
  predicate InitiallyHas(noCompat: bool, content: string) {
    noCompat || Contains(content, IncludePythoncapiCompat) || Contains(content, IncludePythoncapiCompat2)
  }

  /** add_pythoncapi_compat on the state. */
  function AddCompat(run: Run): Run {
    if run.has then run
    else run.(content := AddLine(run.content, IncludePythoncapiCompat), has := true, added := run.added + 1)
  }

  /** Operation.patch: the REPLACE table, then the include if the text changed and the operation needs it. */
  function OpPatch(op: Operation, run: Run): Run {
    var content := Rewrite(op.replace, run.content);
    if content != run.content && op.needCompat then AddCompat(run.(content := content)) else run.(content := content)
  }

  /** One iteration of the loop of `_patch`: patch, and record the name if the text changed. */
  function OpStep(op: Operation, run: Run): Run {
    var next := OpPatch(op, run);
    next.(applied := run.applied + if next.content != run.content then [op.name] else [])
  }

  /** The loop of `_patch` over `ops`, from the state `start`. */
  function RunOps(ops: seq<Operation>, start: Run): Run {
    if ops == [] then start else OpStep(ops[|ops| - 1], RunOps(ops[..|ops| - 1], start))
  }

  /** What `_patch` computes for a patcher with `added` insertions so far. */
  function PatchRun(ops: seq<Operation>, noCompat: bool, content: string, added: nat): Run {
    RunOps(ops, Run(content, InitiallyHas(noCompat, content), added, []))
  }

  // ---------------------------------------------------------------------
  // What a patch run promises

  /** An operation whose substitutions leave the text alone changes nothing, and asks for no include. */
  lemma UnchangedGainsNoInclude(op: Operation, run: Run)
    requires Rewrite(op.replace, run.content) == run.content
    ensures OpPatch(op, run) == run
    ensures OpStep(op, run) == run
  {
    assert run.applied + [] == run.applied;
  }

  /** An operation inserts the include only if it needs it, changed the text, and the include was not yet counted. */
  lemma OpPatchInsertsOnlyWhenNeeded(op: Operation, run: Run)
    ensures var next := OpPatch(op, run);
      && (next.added != run.added ==>
            op.needCompat && !run.has && Rewrite(op.replace, run.content) != run.content
            && next.added == run.added + 1 && next.has
            && next.content == AddLine(Rewrite(op.replace, run.content), IncludePythoncapiCompat))
      && (next.added == run.added ==> next.has == run.has && next.content == Rewrite(op.replace, run.content))
  {
  }

  /**
   * Within one run the include is inserted at most once: the count grows by
   * one exactly when the include went from absent to present, and otherwise
   * stays where it was.
   */
  lemma {:induction false} IncludeAddedAtMostOnce(ops: seq<Operation>, start: Run)
    ensures var end := RunOps(ops, start);
      && start.added <= end.added <= start.added + 1
      && (end.added == start.added + 1 <==> !start.has && end.has)
      && (start.has ==> end.has)
  {
    if ops != [] {
      IncludeAddedAtMostOnce(ops[..|ops| - 1], start);
    }
  }

  /** When the include counts as present from the start, the run only rewrites, and inserts nothing. */
  lemma {:induction false} PresentIncludeMeansPureRewrite(ops: seq<Operation>, start: Run)
    requires start.has
    ensures RunOps(ops, start).content == RewriteAll(ops, start.content)
    ensures RunOps(ops, start).added == start.added && RunOps(ops, start).has
  {
    if ops != [] {
      PresentIncludeMeansPureRewrite(ops[..|ops| - 1], start);
    }
  }

  /**
   * With `--no-compat`, or with either spelling of the include already in the
   * text, `_patch` inserts nothing: its text is the plain fold of the rewrites.
   */
  lemma NoInsertionWhenPresentOrDisabled(ops: seq<Operation>, noCompat: bool, content: string, added: nat)
    requires noCompat || Contains(content, IncludePythoncapiCompat) || Contains(content, IncludePythoncapiCompat2)
    ensures PatchRun(ops, noCompat, content, added).content == RewriteAll(ops, content)
    ensures PatchRun(ops, noCompat, content, added).added == added
  {
    PresentIncludeMeansPureRewrite(ops, Run(content, true, added, []));
  }

  /** The recorded names extend those of the start, in the order of `ops`. */
  lemma {:induction false} AppliedInOrder(ops: seq<Operation>, start: Run)
    ensures var end := RunOps(ops, start);
      |start.applied| <= |end.applied| && end.applied[..|start.applied|] == start.applied
      && IsSubsequence(end.applied[|start.applied|..], Names(ops))
  {
    if ops != [] {
      var init := ops[..|ops| - 1];
      var mid := RunOps(init, start);
      var end := RunOps(ops, start);
      AppliedInOrder(init, start);
      var n := |start.applied|;
      assert Names(ops) == Names(init) + [ops[|ops| - 1].name];
      assert Names(ops)[..|Names(ops)| - 1] == Names(init);
      if end.content != mid.content {
        assert end.applied == mid.applied + [ops[|ops| - 1].name];
        assert end.applied[n..] == mid.applied[n..] + [ops[|ops| - 1].name];
        assert end.applied[n..][..|end.applied[n..]| - 1] == mid.applied[n..];
      } else {
        assert end.applied == mid.applied;
        SubsequenceOfPrefix(end.applied[n..], Names(init), Names(ops));
      }
    }
  }

  /** Operation `k` of `ops` changed the text it was given. */
  ghost predicate StepChanged(ops: seq<Operation>, start: Run, k: nat)
    requires k < |ops|
  {
    OpPatch(ops[k], RunOps(ops[..k], start)).content != RunOps(ops[..k], start).content
  }

  /**
   * `_patch` records exactly the operations whose patch changed the running
   * text: with distinct names, a name is recorded if and only if its step
   * changed the text.
   */
  lemma {:induction false} AppliedAreTheChangingOps(ops: seq<Operation>, start: Run)
    requires start.applied == []
    requires DistinctNames(ops)
    ensures forall k :: 0 <= k < |ops| ==> (ops[k].name in RunOps(ops, start).applied <==> StepChanged(ops, start, k))
  {
    if ops != [] {
      var last := |ops| - 1;
      var init := ops[..last];
      DistinctPrefix(ops);
      AppliedAreTheChangingOps(init, start);
      LastNotYetApplied(ops, start);
      forall k | 0 <= k < |ops|
        ensures ops[k].name in RunOps(ops, start).applied <==> StepChanged(ops, start, k)
      {
        if k < last {
          StepChangedPrefix(ops, start, k);
        } else {
          assert ops[..k] == init;
        }
      }
    }
  }

  /** Dropping the last operation keeps the names distinct. */
  lemma DistinctPrefix(ops: seq<Operation>)
    requires ops != [] && DistinctNames(ops)
    ensures DistinctNames(ops[..|ops| - 1])
  {
    var init := ops[..|ops| - 1];
    forall i, j | 0 <= i < j < |init| ensures init[i].name != init[j].name {
      assert init[i] == ops[i] && init[j] == ops[j];
    }
  }

  /** Before the last operation runs, its name has not been recorded: only earlier names have. */
  lemma LastNotYetApplied(ops: seq<Operation>, start: Run)
    requires start.applied == []
    requires ops != [] && DistinctNames(ops)
    ensures ops[|ops| - 1].name !in RunOps(ops[..|ops| - 1], start).applied
  {
    var init := ops[..|ops| - 1];
    var mid := RunOps(init, start);
    AppliedInOrder(init, start);
    assert mid.applied[0..] == mid.applied;
    SubsequenceMembers(mid.applied, Names(init));
  }

  /** An earlier operation changed the text in the whole run exactly when it did in the run without the last one. */
  lemma StepChangedPrefix(ops: seq<Operation>, start: Run, k: nat)
    requires k < |ops| - 1
    ensures StepChanged(ops, start, k) == StepChanged(ops[..|ops| - 1], start, k)
  {
    assert ops[..k] == ops[..|ops| - 1][..k];
  }

  /** A run that records no operation gives the text back unchanged. */
  lemma {:induction false} NothingAppliedMeansUnchanged(ops: seq<Operation>, start: Run)
    requires RunOps(ops, start).applied == start.applied
    ensures RunOps(ops, start).content == start.content
  {
    if ops != [] {
      var init := ops[..|ops| - 1];
      AppliedInOrder(init, start);
      var mid := RunOps(init, start);
      NothingAppliedMeansUnchanged(init, start);
    }
  }

  /** A REPLACE table none of whose rules matches anywhere in the text leaves it unchanged. */
  lemma {:induction false} RewriteWithoutMatch(rules: seq<Rule>, content: string)
    requires forall k, j :: 0 <= k < |rules| && 0 <= j < |content| ==> MatchAt(rules[k], content, j).None?
    ensures Rewrite(rules, content) == content
  {
    if rules != [] {
      var init := rules[..|rules| - 1];
      forall k, j | 0 <= k < |init| && 0 <= j < |content| ensures MatchAt(init[k], content, j).None? {
        assert init[k] == rules[k];
      }
      RewriteWithoutMatch(init, content);
      SubFromNoMatch(rules[|rules| - 1], content, 0);
    }
  }

  // ---------------------------------------------------------------------
  // The patcher

  /** Python's truth value of `_has_pythoncapi_compat`, which may be None. */
  predicate Truthy(b: Option<bool>) {
    b == Some(true)
  }

  class Patcher {
    /** `--no-compat` */
    const noCompat: bool
    /** The selected operations, in OPERATIONS order. */
    const operations: seq<Operation>
    var pythoncapiCompatAdded: nat
    /** Set only while `_patch` runs. */
    var hasPythoncapiCompat: Option<bool>
    /** Set only while `_patch` runs. */
    var appliedOperations: Option<seq<string>>

    constructor (noCompat: bool, operations: seq<Operation>)
      ensures this.noCompat == noCompat && this.operations == operations
      ensures pythoncapiCompatAdded == 0 && hasPythoncapiCompat == None && appliedOperations == None
    {
      this.noCompat := noCompat;
      this.operations := operations;
      pythoncapiCompatAdded := 0;
      hasPythoncapiCompat := None;
      appliedOperations := None;
    }

    /** `Patcher(args)`: the options, and the operations that `--operations` selects, or the names it got wrong. */
    static method Create(noCompat: bool, spec: string) returns (r: Result<Patcher, set<string>>)
      ensures SelectOperations(spec).Err? ==> r == Err(SelectOperations(spec).error)
      ensures SelectOperations(spec).Ok? ==> (
        && r.Ok? && fresh(r.value)
        && r.value.noCompat == noCompat && r.value.operations == SelectOperations(spec).value
        && r.value.pythoncapiCompatAdded == 0 && r.value.hasPythoncapiCompat == None
        && r.value.appliedOperations == None)
    {
      var ops := GetOperations(spec);
      match ops
      case Err(unknown) => r := Err(unknown);
      case Ok(selected) =>
        var p := new Patcher(noCompat, selected);
        r := Ok(p);
    }

    /** `_get_operations`, over the fixed table OPERATIONS. */
    static method GetOperations(spec: string) returns (r: Result<seq<Operation>, set<string>>)
      ensures r == SelectOperations(spec)
    {
      AllOperationsDistinct();
      r := GetOperationsFrom(spec, AllOperations);
    }

    /**
     * The two loops of `_get_operations` over a table of operations: build the
     * wanted set entry by entry, then walk the table taking each wanted
     * operation and discarding its name; what is left is what no operation has.
     */
    static method GetOperationsFrom(spec: string, table: seq<Operation>) returns (r: Result<seq<Operation>, set<string>>)
      requires DistinctNames(table)
      ensures r == SelectFrom(spec, table)
    {
      var entries := Split(spec, ',');
      var known := NameSet(table);
      var wanted: set<string> := {};
      for i := 0 to |entries|
        invariant wanted == Wanted(entries[..i], known)
      {
        WantedSnoc(entries, i, known);
        var name := Strip(entries[i]);
        if name == "" {
          continue;
        }
        if name == "all" {
          wanted := wanted + known;
        } else if StartsWith(name, "-") {
          wanted := wanted - {name[1..]};
        } else {
          wanted := wanted + {name};
        }
      }
      assert entries[..|entries|] == entries;
      ghost var requested := wanted;
      var selected: seq<Operation> := [];
      for j := 0 to |table|
        invariant selected == Filter(table[..j], requested)
        invariant wanted == requested - NameSet(table[..j])
      {
        FilterSnoc(table, j, requested);
        NameSetSnoc(table, j);
        NameNotEarlier(table, j);
        var name := table[j].name;
        if name !in wanted {
          continue;
        }
        wanted := wanted - {name};
        selected := selected + [table[j]];
      }
      assert table[..|table|] == table;
      if wanted != {} {
        r := Err(wanted);
      } else {
        r := Ok(selected);
      }
    }

    /** add_pythoncapi_compat */
    method AddPythoncapiCompat(content: string) returns (r: string)
      modifies this
      ensures var after := AddCompat(Run(content, Truthy(old(hasPythoncapiCompat)), old(pythoncapiCompatAdded), []));
        && r == after.content && pythoncapiCompatAdded == after.added
        && hasPythoncapiCompat == (if Truthy(old(hasPythoncapiCompat)) then old(hasPythoncapiCompat) else Some(true))
      ensures appliedOperations == old(appliedOperations)
    {
      if Truthy(hasPythoncapiCompat) {
        return content;
      }
      r := AddLine(content, IncludePythoncapiCompat);
      hasPythoncapiCompat := Some(true);
      pythoncapiCompatAdded := pythoncapiCompatAdded + 1;
    }

    /** Operation.patch for `op`, whose patcher is this one. */
    method OperationPatch(op: Operation, content: string) returns (r: string)
      modifies this
      ensures var after := OpPatch(op, Run(content, Truthy(old(hasPythoncapiCompat)), old(pythoncapiCompatAdded), []));
        && r == after.content && pythoncapiCompatAdded == after.added
        && hasPythoncapiCompat == (if after.has == Truthy(old(hasPythoncapiCompat)) then old(hasPythoncapiCompat) else Some(true))
      ensures appliedOperations == old(appliedOperations)
    {
      var c := content;
      for i := 0 to |op.replace|
        invariant c == Rewrite(op.replace[..i], content)
      {
        assert op.replace[..i + 1][..i] == op.replace[..i];
        c := Sub(op.replace[i], c);
      }
      assert op.replace[..|op.replace|] == op.replace;
      if c != content && op.needCompat {
        c := AddPythoncapiCompat(c);
      }
      r := c;
    }

    /** `_patch`: every selected operation in turn, recording those that changed the text; the temporaries are reset at the end. */
    method PatchContent(content: string) returns (r: string, applied: seq<string>)
      modifies this
      ensures var end := PatchRun(operations, noCompat, content, old(pythoncapiCompatAdded));
        && r == end.content && applied == end.applied && pythoncapiCompatAdded == end.added
      ensures hasPythoncapiCompat == None && appliedOperations == None
    {
      var has := noCompat || Contains(content, IncludePythoncapiCompat) || Contains(content, IncludePythoncapiCompat2);
      ghost var start := Run(content, has, pythoncapiCompatAdded, []);
      hasPythoncapiCompat := Some(has);
      appliedOperations := Some([]);
      var c := content;
      for i := 0 to |operations|
        invariant hasPythoncapiCompat.Some? && appliedOperations.Some?
        invariant Run(c, hasPythoncapiCompat.value, pythoncapiCompatAdded, appliedOperations.value)
          == RunOps(operations[..i], start)
      {
        RunOpsSnoc(operations, i, start);
        OpPatchKeepsApplied(operations[i], RunOps(operations[..i], start));
        var op := operations[i];
        var newContent := OperationPatch(op, c);
        if newContent != c {
          appliedOperations := Some(appliedOperations.value + [op.name]);
        }
        c := newContent;
      }
      assert operations[..|operations|] == operations;
      applied := appliedOperations.value;
      r := c;
      hasPythoncapiCompat := None;
      appliedOperations := None;
    }

    /** patch: the text that `_patch` computes. */
    method Patch(content: string) returns (r: string)
      modifies this
      ensures var end := PatchRun(operations, noCompat, content, old(pythoncapiCompatAdded));
        r == end.content && pythoncapiCompatAdded == end.added
      ensures hasPythoncapiCompat == None && appliedOperations == None
    {
      var applied;
      r, applied := PatchContent(content);
    }

    /** The decision of patch_file: the file is written only when its text changed. */
    method PatchFile(oldContents: string) returns (newContents: string, changed: bool)
      modifies this
      ensures var end := PatchRun(operations, noCompat, oldContents, old(pythoncapiCompatAdded));
        newContents == end.content && pythoncapiCompatAdded == end.added
      ensures changed <==> newContents != oldContents
      ensures hasPythoncapiCompat == None && appliedOperations == None
    {
      var applied;
      newContents, applied := PatchContent(oldContents);
      changed := newContents != oldContents;
    }
  }

  /** The run over one more operation is one more step of the run. */
  lemma RunOpsSnoc(ops: seq<Operation>, i: nat, start: Run)
    requires i < |ops|
    ensures RunOps(ops[..i + 1], start) == OpStep(ops[i], RunOps(ops[..i], start))
  {
    assert ops[..i + 1][..i] == ops[..i];
  }

  /** Operation.patch neither reads nor writes the recorded names. */
  lemma OpPatchKeepsApplied(op: Operation, run: Run)
    ensures OpPatch(op, run) == OpPatch(op, run.(applied := [])).(applied := run.applied)
  {
  }

  /** The wanted set after one more entry is that entry's update of the set before it. */
  lemma WantedSnoc(entries: seq<string>, i: nat, known: set<string>)
    requires i < |entries|
    ensures Wanted(entries[..i + 1], known) == Update(Wanted(entries[..i], known), Strip(entries[i]), known)
  {
    assert entries[..i + 1][..i] == entries[..i];
  }

  /** The restriction of a table with one more entry keeps that entry exactly when its name is wanted. */
  lemma FilterSnoc(table: seq<Operation>, j: nat, wanted: set<string>)
    requires j < |table|
    ensures Filter(table[..j + 1], wanted) == Filter(table[..j], wanted) + (if table[j].name in wanted then [table[j]] else [])
  {
    assert table[..j + 1][..j] == table[..j];
  }

  /** The names of a table with one more entry. */
  lemma NameSetSnoc(table: seq<Operation>, j: nat)
    requires j < |table|
    ensures NameSet(table[..j + 1]) == NameSet(table[..j]) + {table[j].name}
  {
    assert table[..j + 1] == table[..j] + [table[j]];
  }

  /** With distinct names, no earlier entry of the table carries the name of entry `j`. */
  lemma NameNotEarlier(table: seq<Operation>, j: nat)
    requires DistinctNames(table)
    requires j < |table|
    ensures table[j].name !in NameSet(table[..j])
  {
  }
}
