/**
 * `MultipleSelector`, the multi-select combobox: its options, the grouping
 * of options by an attribute, the exclusion of selected options from the
 * dropdown, and the component state with its handlers and effects.
 *
 * JavaScript objects used as dictionaries (the groups) become maps; the
 * order of their keys is not modelled.
 */
module MultipleSelector {
  import opened Wrappers

  /** The value of an extra option attribute. */
  datatype Scalar = Str(s: string) | Bool(b: bool)

  /**
   * An `Option`. A missing `disable` or `fixed` is `false`: the component
   * only ever tests them for truthiness. `attrs` holds the other keys.
   */
  datatype Option = Option(value: string, labelText: string, disable: bool, fixed: bool, attrs: map<string, Scalar>)

  /** `option[key]`. */
  function Attr(o: Option, key: string): Maybe<Scalar>
  {
    if key == "value" then Some(Str(o.value))
    else if key == "label" then Some(Str(o.labelText))
    else if key == "disable" then Some(Bool(o.disable))
    else if key == "fixed" then Some(Bool(o.fixed))
    else if key in o.attrs then Some(o.attrs[key])
    else None
  }

  /**
   * `(option[groupBy] as string) || ''` used as an object key: a falsy
   * attribute goes to the group `''`, `true` to the group `"true"`.
   */
  function GroupKey(o: Option, attr: string): (k: string)
    ensures Attr(o, attr).Some? && Attr(o, attr).value.Str? ==> k == Attr(o, attr).value.s
    ensures Attr(o, attr).None? || Attr(o, attr) == Some(Bool(false)) ==> k == ""
  {
    match Attr(o, attr)
    case None => ""
    case Some(Str(s)) => s
    case Some(Bool(b)) => if b then "true" else ""
  }

  /** The per-element tests the component filters with. */
  datatype Criterion =
    | IsFixed                          // s => s.fixed
    | ValueIsNot(v: string)            // s => s.value !== v
    | NotAmong(chosen: seq<Option>)    // val => !chosen.find(p => p.value === val.value)
    | InGroup(attr: string, key: string) // the option's group is key
    | ValueAmong(ids: seq<string>)     // o => ids.includes(o.value)

  /** No option of `chosen` has o's value. */
  predicate Unselected(chosen: seq<Option>, o: Option)
  {
    forall p :: p in chosen ==> p.value != o.value
  }

  predicate Keeps(c: Criterion, o: Option)
  {
    match c
    case IsFixed => o.fixed
    case ValueIsNot(v) => o.value != v
    case NotAmong(chosen) => Unselected(chosen, o)
    case InGroup(attr, key) => GroupKey(o, attr) == key
    case ValueAmong(ids) => o.value in ids
  }

  /** `s.filter(c)`: the elements of s that pass c, in their order in s. */
  function Filter(s: seq<Option>, c: Criterion): seq<Option>
    decreases |s|
  {
    if s == [] then []
    else Filter(s[..|s| - 1], c) + (if Keeps(c, s[|s| - 1]) then [s[|s| - 1]] else [])
  }

  /** A non-empty list is its front followed by its last element. */
  lemma LastSplit(s: seq<Option>)
    requires s != []
    ensures s[..|s| - 1] + [s[|s| - 1]] == s
  {
  }

  /** Dropping the last element of `a + b`, for a non-empty b, drops the last element of b. */
  lemma ConcatFront(a: seq<Option>, b: seq<Option>)
    requires b != []
    ensures (a + b)[..|a + b| - 1] == a + b[..|b| - 1] && (a + b)[|a + b| - 1] == b[|b| - 1]
  {
  }

  /** Filtering a concatenation filters each part: the kept elements stay in their relative order. */
  lemma {:induction false} FilterConcat(a: seq<Option>, b: seq<Option>, c: Criterion)
    ensures Filter(a + b, c) == Filter(a, c) + Filter(b, c)
    decreases |b|
  {
    if b == [] {
      assert a + b == a;
    } else {
      var b' := b[..|b| - 1];
      ConcatFront(a, b);
      FilterConcat(a, b', c);
    }
  }

  /** An element is kept exactly when it is in the list and passes the test. */
  lemma {:induction false} FilterMembers(s: seq<Option>, c: Criterion)
    ensures forall o :: o in Filter(s, c) <==> o in s && Keeps(c, o)
    decreases |s|
  {
    if s != [] {
      var s' := s[..|s| - 1];
      FilterMembers(s', c);
      assert s == s' + [s[|s| - 1]];
    }
  }

  /** An element is kept as often as it occurs when it passes the test, and never otherwise. */
  lemma {:induction false} FilterCount(s: seq<Option>, c: Criterion)
    ensures forall o :: multiset(Filter(s, c))[o] == if Keeps(c, o) then multiset(s)[o] else 0
    decreases |s|
  {
    if s != [] {
      var s' := s[..|s| - 1];
      FilterCount(s', c);
      assert s == s' + [s[|s| - 1]];
    }
  }

  /** Filtering what already passes changes nothing; in particular filtering twice is filtering once. */
  lemma {:induction false} FilterKeepsAll(s: seq<Option>, c: Criterion)
    requires forall t :: 0 <= t < |s| ==> Keeps(c, s[t])
    ensures Filter(s, c) == s
    decreases |s|
  {
    if s != [] {
      FilterKeepsAll(s[..|s| - 1], c);
      assert s == s[..|s| - 1] + [s[|s| - 1]];
    }
  }

  /** Nothing passes, nothing is kept. */
  lemma {:induction false} FilterNone(s: seq<Option>, c: Criterion)
    requires forall t :: 0 <= t < |s| ==> !Keeps(c, s[t])
    ensures Filter(s, c) == []
    decreases |s|
  {
    if s != [] {
      FilterNone(s[..|s| - 1], c);
    }
  }

  lemma FilterIdempotent(s: seq<Option>, c: Criterion)
    ensures Filter(Filter(s, c), c) == Filter(s, c)
  {
    FilterMembers(s, c);
    FilterKeepsAll(Filter(s, c), c);
  }

  /** Clearing keeps every fixed entry as often as it occurs and nothing else; clearing again changes nothing. */
  lemma ClearAllKeepsFixed(s: seq<Option>)
    ensures forall o :: multiset(Filter(s, IsFixed))[o] == if o.fixed then multiset(s)[o] else 0
    ensures Filter(Filter(s, IsFixed), IsFixed) == Filter(s, IsFixed)
  {
    FilterCount(s, IsFixed);
    FilterIdempotent(s, IsFixed);
  }

  /** Removing by value: exactly the entries with that value go, every other entry stays as often as it was there. */
  lemma UnselectRemovesExactly(s: seq<Option>, v: string)
    ensures forall o :: o in Filter(s, ValueIsNot(v)) ==> o.value != v
    ensures forall o: Option :: o.value != v ==> multiset(Filter(s, ValueIsNot(v)))[o] == multiset(s)[o]
  {
    FilterMembers(s, ValueIsNot(v));
    FilterCount(s, ValueIsNot(v));
  }

  // ----- groupOption -----

  /** `groupBy` is set and not empty, so the options are grouped. */
  predicate Grouping(groupBy: Maybe<string>)
  {
    groupBy.Some? && groupBy.value != ""
  }

  /** The group names of `opts` under the attribute `attr`. */
  function GroupKeys(opts: seq<Option>, attr: string): set<string>
  {
    set o | o in opts :: GroupKey(o, attr)
  }

  /** `groups` holds, under each group name of `opts`, the options of that group in list order. */
  ghost predicate IsGrouping(opts: seq<Option>, attr: string, groups: map<string, seq<Option>>)
  {
    && groups.Keys == GroupKeys(opts, attr)
    && forall k :: k in groups ==> groups[k] == Filter(opts, InGroup(attr, k))
  }

  /** Appending an option adds its group name to the names seen so far. */
  lemma GroupKeysAppend(opts: seq<Option>, option: Option, attr: string)
    ensures GroupKeys(opts + [option], attr) == GroupKeys(opts, attr) + {GroupKey(option, attr)}
  {
    var opts' := opts + [option];
    forall k | k in GroupKeys(opts', attr)
      ensures k in GroupKeys(opts, attr) + {GroupKey(option, attr)}
    {
      var o :| o in opts' && GroupKey(o, attr) == k;
      if o != option {
        assert o in opts;
      }
    }
    forall k | k in GroupKeys(opts, attr)
      ensures k in GroupKeys(opts', attr)
    {
      var o :| o in opts && GroupKey(o, attr) == k;
      assert o in opts';
    }
    assert option in opts';
  }

  /** Filtering `opts + [option]` by a group: the option joins its own group only. */
  lemma FilterGroupAppend(opts: seq<Option>, option: Option, attr: string, k: string)
    ensures Filter(opts + [option], InGroup(attr, k)) ==
      Filter(opts, InGroup(attr, k)) + (if GroupKey(option, attr) == k then [option] else [])
  {
    var opts' := opts + [option];
    assert opts'[..|opts'| - 1] == opts;
  }

  /** One step of the reduce: create the key's list when it is missing, then push the option onto it. */
  lemma GroupAppend(opts: seq<Option>, option: Option, attr: string, groups: map<string, seq<Option>>)
    requires IsGrouping(opts, attr, groups)
    ensures var key := GroupKey(option, attr);
            var list := if key in groups then groups[key] else [];
            IsGrouping(opts + [option], attr, groups[key := list + [option]])
  {
    var key := GroupKey(option, attr);
    var list := if key in groups then groups[key] else [];
    var groups' := groups[key := list + [option]];
    GroupKeysAppend(opts, option, attr);
    if key !in groups {
      forall t | 0 <= t < |opts|
        ensures !Keeps(InGroup(attr, key), opts[t])
      {
        assert opts[t] in opts;
      }
      FilterNone(opts, InGroup(attr, key));
    }
    forall k | k in groups'
      ensures groups'[k] == Filter(opts + [option], InGroup(attr, k))
    {
      FilterGroupAppend(opts, option, attr, k);
    }
  }

  /**
   * `groupOption`: all options under `''` when there is no `groupBy`;
   * otherwise the reduce that pushes each option onto the list of its group,
   * creating the list when the group is first seen.
   */
  method GroupOptions(arrayOptions: seq<Option>, groupBy: Maybe<string>) returns (groups: map<string, seq<Option>>)
    ensures !Grouping(groupBy) ==> groups == map["" := arrayOptions]
    ensures Grouping(groupBy) ==> IsGrouping(arrayOptions, groupBy.value, groups)
  {
    if !Grouping(groupBy) {
      return map["" := arrayOptions];
    }
    groups := GroupReduce(arrayOptions, groupBy.value);
  }

  /** The reduce of `groupOption` on the attribute `attr`, accumulating into `{}`. */
  method GroupReduce(arrayOptions: seq<Option>, attr: string) returns (groups: map<string, seq<Option>>)
    ensures IsGrouping(arrayOptions, attr, groups)
  {
    groups := map[];
    for i := 0 to |arrayOptions|
      invariant IsGrouping(arrayOptions[..i], attr, groups)
    {
      var option := arrayOptions[i];
      var key := GroupKey(option, attr);
      var list := if key in groups then groups[key] else [];
      GroupStep(arrayOptions, i, attr, groups);
      groups := groups[key := list + [option]];
    }
    assert arrayOptions[..|arrayOptions|] == arrayOptions;
  }

  /** GroupAppend at position i of the option list. */
  lemma GroupStep(arrayOptions: seq<Option>, i: nat, attr: string, groups: map<string, seq<Option>>)
    requires i < |arrayOptions| && IsGrouping(arrayOptions[..i], attr, groups)
    ensures var key := GroupKey(arrayOptions[i], attr);
            var list := if key in groups then groups[key] else [];
            IsGrouping(arrayOptions[..i + 1], attr, groups[key := list + [arrayOptions[i]]])
  {
    GroupAppend(arrayOptions[..i], arrayOptions[i], attr, groups);
    assert arrayOptions[..i + 1] == arrayOptions[..i] + [arrayOptions[i]];
  }

  /**
   * The names a fresh object literal `{}` inherits from `Object.prototype`.
   * Looking one of them up on the accumulator yields the inherited member,
   * which is truthy.
   */
  const PrototypeNames: set<string> := {
    "constructor", "__proto__", "hasOwnProperty", "isPrototypeOf", "propertyIsEnumerable",
    "toLocaleString", "toString", "valueOf",
    "__defineGetter__", "__defineSetter__", "__lookupGetter__", "__lookupSetter__"
  }

  /**
   * The reduce of `groupOption` as written, on an accumulator that inherits
   * the names `inherited` (PrototypeNames for a plain `{}`): for a group
   * named like an inherited member, `!acc[key]` is false, no list is
   * created and `acc[key].push` throws a `TypeError` (`None`).
   */
  function GroupAsWritten(opts: seq<Option>, attr: string, inherited: set<string>): Maybe<map<string, seq<Option>>>
    decreases |opts|
  {
    if opts == [] then Some(map[])
    else
      var option := opts[|opts| - 1];
      var key := GroupKey(option, attr);
      match GroupAsWritten(opts[..|opts| - 1], attr, inherited)
      case None => None
      case Some(acc) =>
        if key in acc then Some(acc[key := acc[key] + [option]])
        else if key in inherited then None
        else Some(acc[key := [option]])
  }

  /** On a plain `{}`, an option grouped under `"constructor"` makes the reduce as written throw. */
  lemma GroupAsWrittenThrows()
    ensures var o := Option("u1", "Ana", false, false, map["team" := Str("constructor")]);
            GroupAsWritten([o], "team", PrototypeNames) == None
  {
    var o := Option("u1", "Ana", false, false, map["team" := Str("constructor")]);
    assert [o][..0] == [];
    assert GroupKey(o, "team") == "constructor";
    assert "constructor" in PrototypeNames;
  }

  /** Away from the inherited names the reduce as written computes the grouping `GroupOptions` computes. */
  lemma {:induction false} GroupAsWrittenElsewhere(opts: seq<Option>, attr: string, inherited: set<string>)
    requires forall t :: 0 <= t < |opts| ==> GroupKey(opts[t], attr) !in inherited
    ensures GroupAsWritten(opts, attr, inherited).Some?
    ensures IsGrouping(opts, attr, GroupAsWritten(opts, attr, inherited).value)
    decreases |opts|
  {
    if opts == [] {
      assert GroupKeys(opts, attr) == {};
    } else {
      var prefix := opts[..|opts| - 1];
      var option := opts[|opts| - 1];
      LastSplit(opts);
      GroupAsWrittenElsewhere(prefix, attr, inherited);
      GroupAsWrittenStep(opts, attr, inherited);
      GroupAppend(prefix, option, attr, GroupAsWritten(prefix, attr, inherited).value);
    }
  }

  /** One step of the reduce as written, for a group name that is not inherited: it creates or extends that list. */
  lemma GroupAsWrittenStep(opts: seq<Option>, attr: string, inherited: set<string>)
    requires opts != [] && GroupAsWritten(opts[..|opts| - 1], attr, inherited).Some?
    requires GroupKey(opts[|opts| - 1], attr) !in inherited
    ensures var acc := GroupAsWritten(opts[..|opts| - 1], attr, inherited).value;
            var key := GroupKey(opts[|opts| - 1], attr);
            var list := if key in acc then acc[key] else [];
            GroupAsWritten(opts, attr, inherited) == Some(acc[key := list + [opts[|opts| - 1]]])
  {
    var acc := GroupAsWritten(opts[..|opts| - 1], attr, inherited).value;
    var key := GroupKey(opts[|opts| - 1], attr);
    assert GroupAsWritten(opts[..|opts| - 1], attr, inherited) == Some(acc);
    if key !in acc {
      assert [] + [opts[|opts| - 1]] == [opts[|opts| - 1]];
    }
  }

  /**
   * The groups partition the options: each option is in the group its
   * attribute names, as often as it is in the list, and in no other group.
   */
  lemma GroupsPartition(arrayOptions: seq<Option>, attr: string, groups: map<string, seq<Option>>)
    requires IsGrouping(arrayOptions, attr, groups)
    ensures forall o :: o in arrayOptions ==>
      GroupKey(o, attr) in groups && multiset(groups[GroupKey(o, attr)])[o] == multiset(arrayOptions)[o]
    ensures forall k, o :: k in groups && o in groups[k] ==> o in arrayOptions && GroupKey(o, attr) == k
  {
    forall k | k in groups
      ensures forall o :: multiset(groups[k])[o] == if GroupKey(o, attr) == k then multiset(arrayOptions)[o] else 0
      ensures forall o :: o in groups[k] <==> o in arrayOptions && GroupKey(o, attr) == k
    {
      FilterCount(arrayOptions, InGroup(attr, k));
      FilterMembers(arrayOptions, InGroup(attr, k));
    }
  }

  // ----- selectables -----

  /**
   * `selectables`: a copy of the groups where every group loses the options
   * whose value is already selected; the loop over `Object.entries(clone)`
   * visits each key once, in an order not modelled.
   */
  method Selectables(groups: map<string, seq<Option>>, selected: seq<Option>) returns (clone: map<string, seq<Option>>)
    ensures clone.Keys == groups.Keys
    ensures forall k :: k in clone ==> clone[k] == Filter(groups[k], NotAmong(selected))
  {
    clone := groups;
    var todo := groups.Keys;
    while todo != {}
      invariant todo <= groups.Keys && clone.Keys == groups.Keys
      invariant forall k :: k in todo ==> clone[k] == groups[k]
      invariant forall k :: k in groups && k !in todo ==> clone[k] == Filter(groups[k], NotAmong(selected))
      decreases |todo|
    {
      var key :| key in todo;
      clone := clone[key := Filter(clone[key], NotAmong(selected))];
      todo := todo - {key};
    }
  }

  /** No selected value is offered, and every option of a group whose value is not selected is. */
  lemma SelectablesExcludeSelected(groups: map<string, seq<Option>>, selected: seq<Option>, clone: map<string, seq<Option>>)
    requires clone.Keys == groups.Keys
    requires forall k :: k in clone ==> clone[k] == Filter(groups[k], NotAmong(selected))
    ensures forall k, o, p :: k in clone && o in clone[k] && p in selected ==> o.value != p.value
    ensures forall k, o :: k in clone && o in clone[k] ==> o in groups[k]
    ensures forall k, o :: k in groups && o in groups[k] ==>
      (o in clone[k] <==> Unselected(selected, o))
  {
    forall k | k in groups
      ensures forall o :: o in clone[k] <==> o in groups[k] && Keeps(NotAmong(selected), o)
    {
      FilterMembers(groups[k], NotAmong(selected));
    }
  }

  /**
   * The dropdown `groups` offers exactly the options of `opts` whose value is
   * not selected: each offered option is one of them, and each of them is offered.
   */
  ghost predicate Offers(opts: seq<Option>, selected: seq<Option>, groups: map<string, seq<Option>>)
  {
    && (forall k, o :: k in groups && o in groups[k] ==> o in opts && Unselected(selected, o))
    && (forall o :: o in opts && Unselected(selected, o) ==> exists k :: k in groups && o in groups[k])
  }

  /** With grouping on, the selectables of the groups offer exactly the unselected options. */
  lemma GroupedOffers(opts: seq<Option>, attr: string, selected: seq<Option>,
                      grouped: map<string, seq<Option>>, groups: map<string, seq<Option>>)
    requires IsGrouping(opts, attr, grouped)
    requires groups.Keys == grouped.Keys
    requires forall k :: k in groups ==> groups[k] == Filter(grouped[k], NotAmong(selected))
    ensures Offers(opts, selected, groups)
  {
    SelectablesExcludeSelected(grouped, selected, groups);
    forall k, o | k in groups && o in groups[k]
      ensures o in opts
    {
      FilterMembers(opts, InGroup(attr, k));
    }
    forall o | o in opts && Unselected(selected, o)
      ensures exists k :: k in groups && o in groups[k]
    {
      var k := GroupKey(o, attr);
      assert k in GroupKeys(opts, attr);
      FilterMembers(opts, InGroup(attr, k));
      FilterMembers(grouped[k], NotAmong(selected));
      assert o in groups[k];
    }
  }

  /** The largest safe JavaScript integer, the default `maxSelected`. */
  const MaxSafeInteger: nat := 9007199254740991

  /**
   * The component state. The props that stay fixed for a mounted instance
   * are constants; the React state variables are fields. Calls of the
   * callback props are logged in ghost fields.
   */
  class Selector {
    var selected: seq<Option>
    var inputValue: string
    var open: bool
    var isLoading: bool
    var arrayOptions: seq<Option>

    const maxSelected: nat
    const groupBy: Maybe<string>
    const triggerSearchOnFocus: bool
    const hasOnSearch: bool
    const hasOnChange: bool
    const hasOnMaxSelected: bool

    /** Arguments of the `onChange` calls, oldest first. */
    ghost var changes: seq<seq<Option>>
    /** Arguments of the `onMaxSelected` calls. */
    ghost var maxSelectedCalls: seq<nat>
    /** Queries passed to `onSearch`. */
    ghost var searches: seq<string>

    /** The search effect's condition. */
    predicate ShouldSearch()
      reads this
    {
      hasOnSearch && (open || triggerSearchOnFocus) && (inputValue != "" || triggerSearchOnFocus)
    }

    /**
     * Mounting: `selected` starts as `value`, `arrayOptions` as `options`
     * when it is non-empty and `defaultOptions` otherwise; then the search
     * effect runs once.
     */
    constructor (value: seq<Option>, options: seq<Option>, defaultOptions: seq<Option>,
                 maxSelected: nat := MaxSafeInteger, groupBy: Maybe<string>, triggerSearchOnFocus: bool,
                 hasOnSearch: bool, hasOnChange: bool, hasOnMaxSelected: bool)
      ensures this.selected == value && inputValue == "" && !open
      ensures arrayOptions == if |options| > 0 then options else defaultOptions
      ensures this.maxSelected == maxSelected && this.groupBy == groupBy
      ensures this.triggerSearchOnFocus == triggerSearchOnFocus && this.hasOnSearch == hasOnSearch
      ensures this.hasOnChange == hasOnChange && this.hasOnMaxSelected == hasOnMaxSelected
      ensures changes == [] && maxSelectedCalls == []
      ensures isLoading == (hasOnSearch && triggerSearchOnFocus)
      ensures searches == if hasOnSearch && triggerSearchOnFocus then [""] else []
    {
      this.selected := value;
      inputValue := "";
      open := false;
      arrayOptions := if |options| > 0 then options else defaultOptions;
      this.maxSelected := maxSelected;
      this.groupBy := groupBy;
      this.triggerSearchOnFocus := triggerSearchOnFocus;
      this.hasOnSearch := hasOnSearch;
      this.hasOnChange := hasOnChange;
      this.hasOnMaxSelected := hasOnMaxSelected;
      changes := [];
      maxSelectedCalls := [];
      if hasOnSearch && triggerSearchOnFocus {
        isLoading := true;
        searches := [""];
      } else {
        isLoading := false;
        searches := [];
      }
    }

    /** The search effect: when its condition holds, start loading and call `onSearch(inputValue)`. */
    method SearchEffect()
      modifies this
      ensures ShouldSearch() == old(ShouldSearch())
      ensures old(ShouldSearch()) ==> isLoading && searches == old(searches) + [inputValue]
      ensures !old(ShouldSearch()) ==> isLoading == old(isLoading) && searches == old(searches)
      ensures selected == old(selected) && inputValue == old(inputValue) && open == old(open)
      ensures arrayOptions == old(arrayOptions) && changes == old(changes) && maxSelectedCalls == old(maxSelectedCalls)
    {
      if ShouldSearch() {
        isLoading := true;
        searches := searches + [inputValue];
      }
    }

    /**
     * A search promise resolves: its options are shown and loading stops,
     * whichever search it belongs to; no later or earlier query is preferred.
     */
    method SearchResolved(opts: seq<Option>)
      modifies this
      ensures arrayOptions == opts && !isLoading
      ensures selected == old(selected) && inputValue == old(inputValue) && open == old(open)
      ensures changes == old(changes) && maxSelectedCalls == old(maxSelectedCalls) && searches == old(searches)
    {
      arrayOptions := opts;
      isLoading := false;
    }

    /** `onValueChange`: the typed text; the search effect runs if it changed. */
    method Type(text: string)
      modifies this
      ensures inputValue == text && selected == old(selected) && open == old(open) && arrayOptions == old(arrayOptions)
      ensures changes == old(changes) && maxSelectedCalls == old(maxSelectedCalls)
      ensures searches == old(searches) + (if text != old(inputValue) && ShouldSearch() then [text] else [])
      ensures isLoading == (old(isLoading) || (text != old(inputValue) && ShouldSearch()))
    {
      if text != inputValue {
        inputValue := text;
        SearchEffect();
      }
    }

    /** `onFocus` / `onBlur`: opens or closes the list; the search effect runs if that changed it. */
    method SetOpen(to: bool)
      modifies this
      ensures open == to && selected == old(selected) && inputValue == old(inputValue) && arrayOptions == old(arrayOptions)
      ensures changes == old(changes) && maxSelectedCalls == old(maxSelectedCalls)
      ensures searches == old(searches) + (if to != old(open) && ShouldSearch() then [inputValue] else [])
      ensures isLoading == (old(isLoading) || (to != old(open) && ShouldSearch()))
    {
      if to != open {
        open := to;
        SearchEffect();
      }
    }

    /**
     * `handleSelect`: at the cap only `onMaxSelected(maxSelected)` is called;
     * below it the option is appended, `onChange` gets the new list once and
     * the input text is cleared (which runs the search effect if it was not empty).
     */
    method Select(option: Option)
      modifies this
      ensures old(|selected|) >= maxSelected ==>
        && selected == old(selected) && inputValue == old(inputValue) && changes == old(changes)
        && maxSelectedCalls == old(maxSelectedCalls) + (if hasOnMaxSelected then [maxSelected] else [])
        && searches == old(searches) && isLoading == old(isLoading)
      ensures old(|selected|) < maxSelected ==>
        && selected == old(selected) + [option] && inputValue == ""
        && changes == old(changes) + (if hasOnChange then [selected] else [])
        && maxSelectedCalls == old(maxSelectedCalls)
        && searches == old(searches) + (if old(inputValue) != "" && ShouldSearch() then [""] else [])
        && isLoading == (old(isLoading) || (old(inputValue) != "" && ShouldSearch()))
      ensures old(|selected|) <= maxSelected ==> |selected| <= maxSelected
      ensures open == old(open) && arrayOptions == old(arrayOptions)
    {
      if |selected| >= maxSelected {
        if hasOnMaxSelected {
          maxSelectedCalls := maxSelectedCalls + [maxSelected];
        }
        return;
      }
      selected := selected + [option];
      if hasOnChange {
        changes := changes + [selected];
      }
      Type("");
    }

    /**
     * `handleUnselect`: drops every selected entry with the option's value
     * and emits the rest; a `fixed` option is only protected by its hidden button.
     */
    method Unselect(option: Option)
      modifies this
      ensures selected == Filter(old(selected), ValueIsNot(option.value))
      ensures changes == old(changes) + (if hasOnChange then [selected] else [])
      ensures inputValue == old(inputValue) && open == old(open) && isLoading == old(isLoading)
      ensures arrayOptions == old(arrayOptions) && maxSelectedCalls == old(maxSelectedCalls) && searches == old(searches)
    {
      selected := Filter(selected, ValueIsNot(option.value));
      if hasOnChange {
        changes := changes + [selected];
      }
    }

    /** The clear-all button: keeps exactly the `fixed` entries, in order, and emits them. */
    method ClearAll()
      modifies this
      ensures selected == Filter(old(selected), IsFixed)
      ensures changes == old(changes) + (if hasOnChange then [selected] else [])
      ensures inputValue == old(inputValue) && open == old(open) && isLoading == old(isLoading)
      ensures arrayOptions == old(arrayOptions) && maxSelectedCalls == old(maxSelectedCalls) && searches == old(searches)
    {
      selected := Filter(selected, IsFixed);
      if hasOnChange {
        changes := changes + [selected];
      }
    }

    /** The `value` effect: a new `value` prop replaces `selected` without calling `onChange`. */
    method SyncValue(value: seq<Option>)
      modifies this
      ensures selected == value
      ensures inputValue == old(inputValue) && open == old(open) && isLoading == old(isLoading) && arrayOptions == old(arrayOptions)
      ensures changes == old(changes) && maxSelectedCalls == old(maxSelectedCalls) && searches == old(searches)
    {
      selected := value;
    }

    /** The `options` effect: a new non-empty `options` prop replaces `arrayOptions`; an empty one is ignored. */
    method SyncOptions(options: seq<Option>)
      modifies this
      ensures arrayOptions == if |options| > 0 then options else old(arrayOptions)
      ensures selected == old(selected) && inputValue == old(inputValue) && open == old(open) && isLoading == old(isLoading)
      ensures changes == old(changes) && maxSelectedCalls == old(maxSelectedCalls) && searches == old(searches)
    {
      if |options| > 0 {
        arrayOptions := options;
      }
    }

    /**
     * What the open list shows (when not loading): `selectables` of
     * `groupOption`. Every offered option is one of `arrayOptions` with no
     * selected value; every option with no selected value is offered, in its group.
     */
    method Dropdown() returns (groups: map<string, seq<Option>>)
      ensures Offers(arrayOptions, selected, groups)
      ensures Grouping(groupBy) ==> forall k, o :: k in groups && o in groups[k] ==> GroupKey(o, groupBy.value) == k
    {
      var grouped := GroupOptions(arrayOptions, groupBy);
      groups := Selectables(grouped, selected);
      SelectablesExcludeSelected(grouped, selected, groups);
      if Grouping(groupBy) {
        GroupsPartition(arrayOptions, groupBy.value, grouped);
        GroupedOffers(arrayOptions, groupBy.value, selected, grouped, groups);
      } else {
        assert grouped[""] == arrayOptions;
      }
    }
  }
}
