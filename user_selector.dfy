/**
 * `UserSelector`: the multi-select of users. Users become options
 * (`value` the user id, `label` the name), the `value` prop of ids picks the
 * selected options, and a change is reported as the chosen ids.
 */
module UserSelector {
  import opened Wrappers
  import opened MultipleSelector

  /** A user as the API returns it; only `_id` and `name` are used. */
  datatype User = User(id: string, name: string)

  /** `users.map(u => ({ value: u._id, label: u.name }))`. */
  function UsersToOptions(users: seq<User>): (opts: seq<Option>)
    ensures |opts| == |users|
    ensures forall i :: 0 <= i < |users| ==>
      opts[i].value == users[i].id && opts[i].labelText == users[i].name
      && !opts[i].disable && !opts[i].fixed && opts[i].attrs == map[]
  {
    seq(|users|, i requires 0 <= i < |users| => Option(users[i].id, users[i].name, false, false, map[]))
  }

  /** `opts.map(o => o.value)`. */
  function Values(opts: seq<Option>): (ids: seq<string>)
    ensures |ids| == |opts| && forall i :: 0 <= i < |opts| ==> ids[i] == opts[i].value
  {
    seq(|opts|, i requires 0 <= i < |opts| => opts[i].value)
  }

  /** The ids of the options made from the users are the users' ids, in order. */
  lemma OptionIdsAreUserIds(users: seq<User>)
    ensures Values(UsersToOptions(users)) == seq(|users|, i requires 0 <= i < |users| => users[i].id)
  {
  }

  /**
   * `options.filter(o => value.includes(o.value))`: the selected options are
   * the options whose id is listed, in options order; a listed id with no
   * option selects nothing.
   */
  lemma SelectionFromIds(options: seq<Option>, value: seq<string>)
    ensures forall o :: o in Filter(options, ValueAmong(value)) <==> o in options && o.value in value
    ensures forall id :: id in Values(Filter(options, ValueAmong(value))) <==>
      id in value && exists o :: o in options && o.value == id
  {
    var picked := Filter(options, ValueAmong(value));
    FilterMembers(options, ValueAmong(value));
    forall id | id in Values(picked)
      ensures id in value && exists o :: o in options && o.value == id
    {
      var i :| 0 <= i < |picked| && Values(picked)[i] == id;
      assert picked[i] in picked;
    }
    forall id | id in value && exists o :: o in options && o.value == id
      ensures id in Values(picked)
    {
      var o :| o in options && o.value == id;
      assert o in picked;
      var i :| 0 <= i < |picked| && picked[i] == o;
      assert Values(picked)[i] == id;
    }
  }

  class Selector {
    var options: seq<Option>
    var selected: seq<Option>
    /** The `value` prop: the ids to select, when given. */
    var value: Maybe<seq<string>>
    const hasOnChange: bool
    /** Arguments of the `onChange` calls, oldest first. */
    ghost var changes: seq<seq<string>>

    /** Mounting: no options and nothing selected until the users arrive. */
    constructor (value: Maybe<seq<string>>, hasOnChange: bool)
      ensures options == [] && selected == [] && this.value == value
      ensures this.hasOnChange == hasOnChange && changes == []
    {
      options := [];
      selected := [];
      this.value := value;
      this.hasOnChange := hasOnChange;
      changes := [];
    }

    /**
     * The `[value, options]` effect: with ids given and options loaded, the
     * selection becomes the options with a listed id; otherwise it stays.
     */
    method SyncSelected()
      modifies this
      ensures value.Some? && |options| > 0 ==> selected == Filter(options, ValueAmong(value.value))
      ensures !(value.Some? && |options| > 0) ==> selected == old(selected)
      ensures options == old(options) && value == old(value) && changes == old(changes)
    {
      if value.Some? && |options| > 0 {
        selected := Filter(options, ValueAmong(value.value));
      }
    }

    /** The users arrive: they become the options and the effect runs. */
    method UsersLoaded(users: seq<User>)
      modifies this
      ensures options == UsersToOptions(users)
      ensures value.Some? && |users| > 0 ==> selected == Filter(options, ValueAmong(value.value))
      ensures !(value.Some? && |users| > 0) ==> selected == old(selected)
      ensures value == old(value) && changes == old(changes)
    {
      options := UsersToOptions(users);
      SyncSelected();
    }

    /** A new `value` prop; the effect runs. */
    method SetValue(ids: Maybe<seq<string>>)
      modifies this
      ensures value == ids && options == old(options)
      ensures ids.Some? && |options| > 0 ==> selected == Filter(options, ValueAmong(ids.value))
      ensures !(ids.Some? && |options| > 0) ==> selected == old(selected)
      ensures changes == old(changes)
    {
      value := ids;
      SyncSelected();
    }

    /** The selector's `onChange`: the chosen options are kept and their ids, in the same order, are emitted. */
    method OnChange(opts: seq<Option>)
      modifies this
      ensures selected == opts && options == old(options) && value == old(value)
      ensures changes == old(changes) + (if hasOnChange then [Values(opts)] else [])
    {
      selected := opts;
      if hasOnChange {
        changes := changes + [Values(opts)];
      }
    }
  }
}
