/**
 * Which operations a `--operations` value such as `all,-Py_TYPE,PyMem_MALLOC`
 * selects (Patcher._get_operations, upgrade_pythoncapi.py:312-345), stated
 * as functions; the imperative loop that computes it is Patcher.GetOperations.
 */
module Selection {
  import opened Wrappers
  import opened Text
  import opened Operations

  /** The names of the operations of `table`. */
  function NameSet(table: seq<Operation>): set<string> {
    set op | op in table :: op.name
  }

  /** The names of all known operations. */
  function AllNames(): set<string> {
    NameSet(AllOperations)
  }

  /** What one stripped entry of the list does to the set of wanted names. */
  function Update(wanted: set<string>, entry: string, known: set<string>): set<string> {
    if entry == "" then wanted
    else if entry == "all" then wanted + known
    else if StartsWith(entry, "-") then wanted - {entry[1..]}
    else wanted + {entry}
  }

  /** The set `wanted` after the first loop has seen every entry, left to right; `known` is what `all` adds. */
  function Wanted(entries: seq<string>, known: set<string>): set<string> {
    if entries == [] then {} else Update(Wanted(entries[..|entries| - 1], known), Strip(entries[|entries| - 1]), known)
  }

  /** The operations of `ops` whose name is wanted, in the order of `ops`. */
  function Filter(ops: seq<Operation>, wanted: set<string>): seq<Operation> {
    if ops == [] then []
    else Filter(ops[..|ops| - 1], wanted) + (if ops[|ops| - 1].name in wanted then [ops[|ops| - 1]] else [])
  }

  /** The operations of `table` selected by `spec`, or the wanted names that are no operation. */
  function SelectFrom(spec: string, table: seq<Operation>): Result<seq<Operation>, set<string>> {
    var wanted := Wanted(Split(spec, ','), NameSet(table));
    var unknown := wanted - NameSet(table);
    if unknown == {} then Ok(Filter(table, wanted)) else Err(unknown)
  }

  /** The operations selected by `spec`, or the wanted names that are no operation. */
  function SelectOperations(spec: string): Result<seq<Operation>, set<string>> {
    SelectFrom(spec, AllOperations)
  }

  // ---------------------------------------------------------------------
  // An independent reading of the entry list: the last entry that mentions a name decides.

  /** The stripped entry `e` asks for `x`: it is `x` itself, or `all` and `x` is a known name. */
  predicate Adds(e: string, x: string, known: set<string>) {
    (e == "all" && x in known) || (e != "" && e != "all" && !StartsWith(e, "-") && e == x)
  }

  /** The stripped entry `e` is `-x`. */
  predicate Removes(e: string, x: string) {
    StartsWith(e, "-") && e[1..] == x
  }

  /** Entry `k` asks for `x` and no later entry takes it back or asks for it again. */
  ghost predicate DecidedBy(entries: seq<string>, x: string, known: set<string>, k: nat) {
    k < |entries| && Adds(Strip(entries[k]), x, known)
    && forall l :: k < l < |entries| ==> !Removes(Strip(entries[l]), x)
  }

  /** How one entry changes whether `x` is wanted. */
  lemma UpdateMembership(wanted: set<string>, e: string, x: string, known: set<string>)
    ensures x in Update(wanted, e, known) <==> Adds(e, x, known) || (x in wanted && !Removes(e, x))
  {
    assert !StartsWith("all", "-") by { assert "all"[..1] == "a"; }
  }

  /** An entry that decides for a list of entries decides for the list without its last entry. */
  lemma DecidedByPrefix(entries: seq<string>, x: string, known: set<string>, k: nat)
    requires k < |entries| - 1
    requires DecidedBy(entries, x, known, k)
    ensures DecidedBy(entries[..|entries| - 1], x, known, k)
  {
    var init := entries[..|entries| - 1];
    assert init[k] == entries[k];
    forall l | k < l < |init| ensures !Removes(Strip(init[l]), x) {
      assert init[l] == entries[l];
    }
  }

  /** An entry that decides stays decisive after one more entry that does not remove the name. */
  lemma DecidedBySnoc(entries: seq<string>, x: string, known: set<string>, k: nat)
    requires k < |entries| - 1
    requires DecidedBy(entries[..|entries| - 1], x, known, k)
    requires !Removes(Strip(entries[|entries| - 1]), x)
    ensures DecidedBy(entries, x, known, k)
  {
    var init := entries[..|entries| - 1];
    assert init[k] == entries[k];
    forall l | k < l < |init| ensures !Removes(Strip(entries[l]), x) {
      assert init[l] == entries[l];
    }
  }

  /** A name is wanted exactly when some entry asks for it and no later entry removes it. */
  lemma {:induction false} WantedIffLastEntryAdds(entries: seq<string>, x: string, known: set<string>)
    ensures x in Wanted(entries, known) <==> exists k :: DecidedBy(entries, x, known, k)
  {
    if entries != [] {
      var n := |entries| - 1;
      var init := entries[..n];
      var e := Strip(entries[n]);
      WantedIffLastEntryAdds(init, x, known);
      UpdateMembership(Wanted(init, known), e, x, known);
      if x in Wanted(entries, known) {
        if Adds(e, x, known) {
          assert DecidedBy(entries, x, known, n);
        } else {
          var k :| DecidedBy(init, x, known, k);
          DecidedBySnoc(entries, x, known, k);
        }
      } else {
        forall k: nat | k < n && DecidedBy(entries, x, known, k) ensures false {
          DecidedByPrefix(entries, x, known, k);
        }
      }
    }
  }

  // ---------------------------------------------------------------------
  // The selected list is AllOperations restricted to the wanted names, in that order.

  /** `a` is `b` with some elements left out, the rest in the same order. */
  ghost predicate IsSubsequence<T>(a: seq<T>, b: seq<T>) {
    if a == [] then true
    else if b == [] then false
    else (a[|a| - 1] == b[|b| - 1] && IsSubsequence(a[..|a| - 1], b[..|b| - 1])) || IsSubsequence(a, b[..|b| - 1])
  }

  lemma {:induction false} FilterIsSubsequence(ops: seq<Operation>, wanted: set<string>)
    ensures IsSubsequence(Filter(ops, wanted), ops)
    ensures forall op :: op in Filter(ops, wanted) <==> op in ops && op.name in wanted
  {
    if ops != [] {
      var init := ops[..|ops| - 1];
      FilterIsSubsequence(init, wanted);
      assert ops == init + [ops[|ops| - 1]];
      var f := Filter(ops, wanted);
      if ops[|ops| - 1].name in wanted {
        assert f[..|f| - 1] == Filter(init, wanted);
      } else {
        assert f == Filter(init, wanted);
        SubsequenceOfPrefix(f, init, ops);
      }
    }
  }

  lemma {:induction false} SubsequenceOfPrefix<T>(a: seq<T>, init: seq<T>, b: seq<T>)
    requires |b| >= 1 && init == b[..|b| - 1]
    requires IsSubsequence(a, init)
    ensures IsSubsequence(a, b)
  {
    if a != [] {
      assert IsSubsequence(a, b[..|b| - 1]);
    }
  }

  /** A subsequence holds only elements of the list it was taken from. */
  lemma {:induction false} SubsequenceMembers<T>(a: seq<T>, b: seq<T>)
    requires IsSubsequence(a, b)
    ensures forall x :: x in a ==> x in b
  {
    if a != [] {
      var b' := b[..|b| - 1];
      assert forall x :: x in b' ==> x in b;
      if a[|a| - 1] == b[|b| - 1] && IsSubsequence(a[..|a| - 1], b') {
        SubsequenceMembers(a[..|a| - 1], b');
        assert a == a[..|a| - 1] + [a[|a| - 1]];
      } else {
        SubsequenceMembers(a, b');
      }
    }
  }

  /** A subsequence of a list with distinct names has distinct names, and only elements of that list. */
  lemma {:induction false} SubsequenceKeepsDistinct(a: seq<Operation>, b: seq<Operation>)
    requires IsSubsequence(a, b)
    requires DistinctNames(b)
    ensures forall x :: x in a ==> x in b
    ensures DistinctNames(a)
  {
    if a != [] {
      var b' := b[..|b| - 1];
      assert DistinctNames(b') by {
        forall i, j | 0 <= i < j < |b'| ensures b'[i].name != b'[j].name {
          assert b'[i] == b[i] && b'[j] == b[j];
        }
      }
      if a[|a| - 1] == b[|b| - 1] && IsSubsequence(a[..|a| - 1], b') {
        var a' := a[..|a| - 1];
        SubsequenceKeepsDistinct(a', b');
        assert a == a' + [b[|b| - 1]];
        forall i | 0 <= i < |a'| ensures a'[i].name != b[|b| - 1].name {
          assert a'[i] in b';
          var j :| 0 <= j < |b'| && b'[j] == a'[i];
          assert b[j] == a'[i];
        }
      } else {
        SubsequenceKeepsDistinct(a, b');
      }
    }
  }

  /**
   * A successful selection lists operations of the table, in the table's order,
   * each at most once, and exactly those whose name was wanted; otherwise the
   * error holds exactly the wanted names that no operation has.
   */
  lemma SelectionIsOrderedAndChecked(spec: string, table: seq<Operation>, wanted: set<string>)
    requires DistinctNames(table)
    requires wanted == Wanted(Split(spec, ','), NameSet(table))
    ensures SelectFrom(spec, table).Ok? <==> wanted <= NameSet(table)
    ensures SelectFrom(spec, table).Err? ==> SelectFrom(spec, table).error == wanted - NameSet(table)
    ensures SelectFrom(spec, table).Ok? ==>
      && IsSubsequence(SelectFrom(spec, table).value, table)
      && DistinctNames(SelectFrom(spec, table).value)
      && forall op :: op in SelectFrom(spec, table).value <==> op in table && op.name in wanted
  {
    var names := NameSet(table);
    if wanted <= names {
      assert wanted - names == {};
      FilterIsSubsequence(table, wanted);
      SubsequenceKeepsDistinct(Filter(table, wanted), table);
    } else {
      var x :| x in wanted && x !in names;
      assert x in wanted - names;
    }
  }

  /** A name that no operation has, asked for by an entry that nothing later removes, is reported. */
  lemma UnknownNameIsReported(spec: string, table: seq<Operation>, k: nat, x: string)
    requires DecidedBy(Split(spec, ','), x, NameSet(table), k)
    requires x !in NameSet(table)
    ensures SelectFrom(spec, table).Err? && x in SelectFrom(spec, table).error
  {
    var entries := Split(spec, ',');
    WantedIffLastEntryAdds(entries, x, NameSet(table));
    assert x in Wanted(entries, NameSet(table)) - NameSet(table);
  }

  /** Restricting a list to a set that holds all of its names keeps every element. */
  lemma {:induction false} FilterAll(ops: seq<Operation>, wanted: set<string>)
    requires forall k :: 0 <= k < |ops| ==> ops[k].name in wanted
    ensures Filter(ops, wanted) == ops
  {
    if ops != [] {
      var init := ops[..|ops| - 1];
      FilterAll(init, wanted);
      assert Filter(ops, wanted) == init + [ops[|ops| - 1]];
      assert ops == init + [ops[|ops| - 1]];
    }
  }

  /** The default value `all` selects every operation, in order. */
  lemma SelectAll()
    ensures SelectOperations("all") == Ok(AllOperations)
  {
    assert ',' !in "all";
    assert Split("all", ',') == ["all"];
    assert RunEnd("all", 0, Space) == 0;
    assert RunStart("all", 3, Space) == 3;
    assert Strip("all") == "all";
    assert Wanted(["all"], AllNames()) == AllNames() by {
      assert ["all"][..0] == [];
    }
    FilterAll(AllOperations, AllNames());
  }
}
