/**
 * `UserTableSelector`: the users table with a priority flag per user. The
 * selection (`value`, `onChange`) goes straight to the table; the priorities
 * are local state, merged one change at a time and reported whole.
 */
module UserTableSelector {
  import opened Wrappers
  import DataTable

  /** The `{ [userId]: boolean }` priority object. */
  type Priorities = map<string, bool>

  /** `{ ...prev, [userId]: value }`: only `userId` changes, to `value`. */
  function Merge(prev: Priorities, userId: string, value: bool): (next: Priorities)
    ensures next.Keys == prev.Keys + {userId} && next[userId] == value
    ensures forall id :: id in prev && id != userId ==> next[id] == prev[id]
  {
    prev[userId := value]
  }

  /** Merging the same change twice is merging it once; the last of two changes to one id wins. */
  lemma MergeAgain(prev: Priorities, userId: string, a: bool, b: bool)
    ensures Merge(Merge(prev, userId, a), userId, b) == Merge(prev, userId, b)
  {
  }

  /** Changes to different ids commute. */
  lemma MergeCommutes(prev: Priorities, x: string, a: bool, y: string, b: bool)
    requires x != y
    ensures Merge(Merge(prev, x, a), y, b) == Merge(Merge(prev, y, b), x, a)
  {
  }

  class Selector {
    var priorities: Priorities
    /** The table, which owns the row selection. */
    const table: DataTable.Table
    const hasOnPrioritiesChange: bool
    /** Arguments of the `onPrioritiesChange` calls, oldest first. */
    ghost var emitted: seq<Priorities>

    /** Mounting: empty priorities, then the sync effect with the first prop; the table mounts with `value`. */
    constructor (value: seq<string>, prioritiesProp: Maybe<Priorities>, hasOnPrioritiesChange: bool)
      ensures priorities == if prioritiesProp.Some? then prioritiesProp.value else map[]
      ensures fresh(table) && table.changes == []
      ensures forall id :: id in table.rowSelection <==> id in value
      ensures this.hasOnPrioritiesChange == hasOnPrioritiesChange && emitted == []
    {
      priorities := map[];
      table := new DataTable.Table(value);
      this.hasOnPrioritiesChange := hasOnPrioritiesChange;
      emitted := [];
      new;
      SyncPriorities(prioritiesProp);
    }

    /**
     * `handlePriorityChange`: the merged map replaces the priorities and is
     * passed whole to `onPrioritiesChange`; the table's selection is untouched.
     */
    method HandlePriorityChange(userId: string, value: bool)
      modifies this
      ensures priorities == Merge(old(priorities), userId, value)
      ensures emitted == old(emitted) + (if hasOnPrioritiesChange then [priorities] else [])
      ensures table.rowSelection == old(table.rowSelection) && table.changes == old(table.changes)
    {
      var next := Merge(priorities, userId, value);
      if hasOnPrioritiesChange {
        emitted := emitted + [next];
      }
      priorities := next;
    }

    /** The controlled sync: a provided prop replaces the priorities wholesale; an absent one leaves them. */
    method SyncPriorities(prioritiesProp: Maybe<Priorities>)
      modifies this
      ensures priorities == if prioritiesProp.Some? then prioritiesProp.value else old(priorities)
      ensures emitted == old(emitted)
      ensures table.rowSelection == old(table.rowSelection) && table.changes == old(table.changes)
    {
      if prioritiesProp.Some? {
        priorities := prioritiesProp.value;
      }
    }

    /** A selection change in the table: forwarded to `onChange` by the table itself; the priorities are untouched. */
    method OnRowSelectionChange(updater: DataTable.Updater)
      modifies table
      ensures table.rowSelection == DataTable.Resolve(updater, old(table.rowSelection))
      ensures |table.changes| == |old(table.changes)| + 1 && table.changes[..|old(table.changes)|] == old(table.changes)
      ensures var ids := table.changes[|table.changes| - 1];
              DataTable.Distinct(ids) && forall id :: id in ids <==> id in table.rowSelection && table.rowSelection[id]
      ensures priorities == old(priorities) && emitted == old(emitted)
    {
      table.OnRowSelectionChange(updater);
    }
  }
}
