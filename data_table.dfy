/**
 * `DataTable`, the users table: its row selection, kept as a map from user
 * id to a flag (the `RowSelectionState` object), synchronised from the
 * `value` prop and reported to `onChange` as a list of ids.
 *
 * The order of an object's keys is not modelled: `Object.keys` may list
 * the ids in any order.
 */
module DataTable {

  /** A table row, identified by its `_id` (`getRowId`); the other columns are not modelled. */
  datatype User = User(id: string, name: string)

  type RowSelection = map<string, bool>

  /** The ids a selection maps to `true`. */
  function TrueKeys(m: RowSelection): set<string>
  {
    set id | id in m && m[id]
  }

  /** No id occurs twice. */
  predicate Distinct(ids: seq<string>)
  {
    forall i, j :: 0 <= i < j < |ids| ==> ids[i] != ids[j]
  }

  /** The argument of TanStack's `onRowSelectionChange`: a new state, or a function of the old one. */
  datatype Updater = Replace(next: RowSelection) | Apply(f: RowSelection -> RowSelection)

  /** `typeof updater === "function" ? updater(rowSelection) : updater`. */
  function Resolve(updater: Updater, current: RowSelection): RowSelection
  {
    match updater
    case Replace(next) => next
    case Apply(f) => f(current)
  }

  /** `Object.keys(next).filter(id => next[id])`: each `true` key once, in some order. */
  method SelectedIds(next: RowSelection) returns (ids: seq<string>)
    ensures Distinct(ids)
    ensures forall id :: id in ids <==> id in TrueKeys(next)
  {
    ids := [];
    var keys := next.Keys;
    while keys != {}
      invariant keys <= next.Keys && Distinct(ids)
      invariant forall id :: id in ids <==> id in TrueKeys(next) && id !in keys
      decreases |keys|
    {
      var id :| id in keys;
      if next[id] {
        ids := ids + [id];
      }
      keys := keys - {id};
    }
  }

  /** In a list without repetitions every element occurs once. */
  lemma {:induction false} DistinctCount(ids: seq<string>)
    requires Distinct(ids)
    ensures forall x :: multiset(ids)[x] == if x in ids then 1 else 0
    decreases |ids|
  {
    if ids != [] {
      var rest := ids[..|ids| - 1];
      DistinctCount(rest);
      assert ids == rest + [ids[|ids| - 1]];
      assert ids[|ids| - 1] !in rest;
    }
  }

  /**
   * The round trip of the table: marking the distinct ids of `value` and
   * extracting the `true` keys again yields the same ids, each once, up to order.
   */
  lemma RoundTrip(value: seq<string>, selection: RowSelection, ids: seq<string>)
    requires Distinct(value)
    requires forall id :: id in selection <==> id in value
    requires forall id :: id in selection ==> selection[id]
    requires Distinct(ids) && forall id :: id in ids <==> id in TrueKeys(selection)
    ensures multiset(ids) == multiset(value) && |ids| == |value|
  {
    DistinctCount(value);
    DistinctCount(ids);
    assert multiset(ids) == multiset(value);
    assert |multiset(ids)| == |multiset(value)|;
  }

  class Table {
    var rowSelection: RowSelection
    /** Arguments of the `onChange` calls, oldest first. */
    ghost var changes: seq<seq<string>>

    /** A row shows as selected when its `_id` maps to `true`. */
    predicate IsSelected(row: User)
      reads this
    {
      row.id in rowSelection && rowSelection[row.id]
    }

    /** Mounting: the selection starts empty and the sync effect runs with the first `value`. */
    constructor (value: seq<string>)
      ensures forall id :: id in rowSelection <==> id in value
      ensures forall id :: id in rowSelection ==> rowSelection[id]
      ensures changes == []
    {
      rowSelection := map[];
      changes := [];
      new;
      SyncValue(value);
    }

    /**
     * The `value` effect: a fresh map with every id of `value` set to `true`
     * replaces the selection. Ids that match no loaded row are kept, and
     * `onChange` is not called.
     */
    method SyncValue(value: seq<string>)
      modifies this
      ensures forall id :: id in rowSelection <==> id in value
      ensures forall id :: id in rowSelection ==> rowSelection[id]
      ensures forall row: User :: IsSelected(row) <==> row.id in value
      ensures changes == old(changes)
    {
      var selection: RowSelection := map[];
      for i := 0 to |value|
        invariant forall id :: id in selection <==> id in value[..i]
        invariant forall id :: id in selection ==> selection[id]
      {
        assert value[..i + 1] == value[..i] + [value[i]];
        selection := selection[value[i] := true];
      }
      assert value[..|value|] == value;
      rowSelection := selection;
    }

    /**
     * `onRowSelectionChange`: resolves the updater against the current
     * selection, stores the result and calls `onChange` once with exactly
     * its `true` keys.
     */
    method OnRowSelectionChange(updater: Updater)
      modifies this
      ensures rowSelection == Resolve(updater, old(rowSelection))
      ensures |changes| == |old(changes)| + 1 && changes[..|old(changes)|] == old(changes)
      ensures var ids := changes[|changes| - 1];
              Distinct(ids) && forall id :: id in ids <==> id in rowSelection && rowSelection[id]
    {
      var next := Resolve(updater, rowSelection);
      rowSelection := next;
      var ids := SelectedIds(next);
      changes := changes + [ids];
    }
  }
}
