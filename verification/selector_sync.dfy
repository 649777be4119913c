/** The project selectors (`.p-select` elements) that `loadDashboard`
    rebuilds from the snapshot while keeping the user's selection. */
module SelectorSync {
  import opened Wrappers
  import opened Objects
  import opened Snapshot

  /** One (value, label) option per id, labelled with the project's name. */
  function OptionsFor(e: Entries<Project>, ids: seq<string>): (opts: seq<(string, string)>)
    requires forall id :: id in ids ==> Lookup(e, id).Some?
    ensures |opts| == |ids|
  {
    seq(|ids|, k requires 0 <= k < |ids| => (ids[k], Lookup(e, ids[k]).value.name))
  }

  lemma AllKeysFound(e: Entries<Project>)
    ensures forall id :: id in OwnKeys(e) ==> Lookup(e, id).Some?
  {
    forall id | id in OwnKeys(e) ensures Lookup(e, id).Some? {
      OwnKeysLookup(e, id);
    }
  }

  /** The option list for a snapshot: one option per project, in
      `Object.keys` order. */
  function Options(e: Entries<Project>): (opts: seq<(string, string)>)
    ensures |opts| == |OwnKeys(e)|
  {
    AllKeysFound(e);
    OptionsFor(e, OwnKeys(e))
  }

  /** What a select element shows right after its options are rebuilt: its
      first option, or "" when it has none. */
  function DefaultSelection(e: Entries<Project>): string {
    if OwnKeys(e) == [] then "" else OwnKeys(e)[0]
  }

  /** The properties every object built from a literal inherits from
      `Object.prototype` (section 20.1.3 of ECMAScript 2024, with the legacy
      accessors of its Annex B.2.2); reading one gives a truthy value. */
  const PrototypeNames: set<string> := {
    "constructor", "hasOwnProperty", "isPrototypeOf", "propertyIsEnumerable",
    "toLocaleString", "toString", "valueOf", "__proto__",
    "__defineGetter__", "__defineSetter__", "__lookupGetter__", "__lookupSetter__"
  }

  /** `data.projects[name]` is truthy: a project, or an inherited member. */
  predicate Truthy(e: Entries<Project>, name: string) {
    Lookup(e, name).Some? || name in PrototypeNames
  }

  /** An inherited name that is not a project: the lookup succeeds, but no
      option carries that value. */
  predicate InheritedOnly(previous: string, e: Entries<Project>) {
    previous != "" && previous !in KeysOf(e) && previous in PrototypeNames
  }

  /** The values of a list of options, in order. */
  function OptionValues(opts: seq<(string, string)>): (values: seq<string>)
    ensures |values| == |opts|
  {
    seq(|opts|, k requires 0 <= k < |opts| => opts[k].0)
  }

  /** The selection after a rebuild: when the previous value is non-empty
      and the lookup finds something, it is assigned back, which selects it
      when it names a project and selects nothing (value "") otherwise; in
      every other case the first option stays selected. */
  function KeptSelection(previous: string, e: Entries<Project>): string {
    if previous != "" && Truthy(e, previous) then
      (if Lookup(e, previous).Some? then previous else "")
    else DefaultSelection(e)
  }

  class Selector {
    var options: seq<(string, string)>
    var value: string

    constructor (options: seq<(string, string)>, value: string)
      ensures this.options == options && this.value == value
    {
      this.options := options;
      this.value := value;
    }

    /** Remembers the value, empties the element, appends one option per
      project and puts the remembered value back when it still names one. */
    method Rebuild(e: Entries<Project>)
      modifies this
      ensures options == Options(e)
      ensures value == KeptSelection(old(value), e)
    {
      var current := value;
      AllKeysFound(e);
      FillOptions(e, OwnKeys(e));
      if current != "" && (Lookup(e, current).Some? || current in PrototypeNames) {
        // assigning a value no option carries leaves nothing selected
        OptionFound(e, current);
        value := if current in OptionValues(options) then current else "";
      }
    }

    /** Empties the select element and appends one option per id; the first
        option appended becomes the selection. */
    method FillOptions(e: Entries<Project>, ids: seq<string>)
      requires forall id :: id in ids ==> Lookup(e, id).Some?
      modifies this
      ensures options == OptionsFor(e, ids)
      ensures value == if ids == [] then "" else ids[0]
    {
      options := [];
      value := "";
      var i := 0;
      while i < |ids|
        invariant 0 <= i <= |ids|
        invariant options == OptionsFor(e, ids[..i])
        invariant value == if i == 0 then "" else ids[0]
      {
        options := options + [(ids[i], Lookup(e, ids[i]).value.name)];
        assert options == OptionsFor(e, ids[..i + 1]);
        if i == 0 {
          value := ids[0];
        }
        i := i + 1;
      }
      assert ids[..i] == ids;
    }
  }

  /** The selection rule: a non-empty previous value that still names a
      project is kept; an inherited name that is no project leaves nothing
      selected; anything else falls back to the first project, or to "" when
      there is none. Whatever is selected is one of the options. */
  lemma SelectionRule(previous: string, e: Entries<Project>)
    ensures previous != "" && previous in KeysOf(e) ==> KeptSelection(previous, e) == previous
    ensures InheritedOnly(previous, e) ==> KeptSelection(previous, e) == ""
    ensures !(previous != "" && previous in KeysOf(e)) && !InheritedOnly(previous, e) ==>
      KeptSelection(previous, e) == DefaultSelection(e)
    ensures e != [] && !InheritedOnly(previous, e) ==>
      KeptSelection(previous, e) in KeysOf(e) && KeptSelection(previous, e) in OwnKeys(e)
    ensures KeptSelection(previous, e) != "" ==> KeptSelection(previous, e) in OwnKeys(e)
    ensures e == [] ==> KeptSelection(previous, e) == ""
  {
    OwnKeysPermutation(e);
    var k := KeptSelection(previous, e);
    if e != [] {
      assert e[0].0 == KeysOf(e)[0];
      assert KeysOf(e)[0] in multiset(OwnKeys(e));
      assert OwnKeys(e)[0] in multiset(KeysOf(e));
    }
    if k != "" {
      assert k in multiset(KeysOf(e));
    }
  }

  /** Rebuilding twice from the same snapshot selects what rebuilding once
      selects, except after an inherited name: that first selects nothing,
      and the second rebuild then selects the first project. */
  lemma KeptIdempotent(previous: string, e: Entries<Project>)
    ensures !InheritedOnly(previous, e) ==>
      KeptSelection(KeptSelection(previous, e), e) == KeptSelection(previous, e)
    ensures InheritedOnly(previous, e) ==>
      KeptSelection(previous, e) == "" && KeptSelection(KeptSelection(previous, e), e) == DefaultSelection(e)
  {
    SelectionRule(previous, e);
    SelectionRule(KeptSelection(previous, e), e);
  }

  /** Some option carries a value iff it names a project. */
  lemma OptionFound(e: Entries<Project>, v: string)
    ensures v in OptionValues(Options(e)) <==> Lookup(e, v).Some?
  {
    OptionsRule(e);
    assert v in OwnKeys(e) <==> v in multiset(OwnKeys(e));
    assert v in KeysOf(e) <==> v in multiset(KeysOf(e));
  }

  /** The option values are the project ids in `Object.keys` order (so each
      id once), and every option is labelled with the name of the project it
      selects. */
  lemma OptionsRule(e: Entries<Project>)
    ensures OptionValues(Options(e)) == OwnKeys(e)
    ensures multiset(OptionValues(Options(e))) == multiset(KeysOf(e))
    ensures forall k :: 0 <= k < |Options(e)| ==>
      Lookup(e, Options(e)[k].0).Some? && Options(e)[k].1 == Lookup(e, Options(e)[k].0).value.name
  {
    OwnKeysPermutation(e);
    AllKeysFound(e);
    OptionsForRule(e, OwnKeys(e));
  }

  lemma OptionsForRule(e: Entries<Project>, ids: seq<string>)
    requires forall id :: id in ids ==> Lookup(e, id).Some?
    ensures OptionValues(OptionsFor(e, ids)) == ids
    ensures forall k :: 0 <= k < |ids| ==> OptionsFor(e, ids)[k] == (ids[k], Lookup(e, ids[k]).value.name)
  {
    var opts := OptionsFor(e, ids);
    forall k | 0 <= k < |ids| ensures OptionValues(opts)[k] == ids[k] {
      assert opts[k] == (ids[k], Lookup(e, ids[k]).value.name);
    }
  }

  /** `loadDashboard`'s pass over all selectors (the distinct elements a
      `querySelectorAll` lists): every selector gets the options of the
      snapshot and keeps its own selection when it still names a project. */
  method SyncSelectors(selectors: seq<Selector>, e: Entries<Project>)
    requires forall i, j :: 0 <= i < j < |selectors| ==> selectors[i] != selectors[j]
    modifies set s | s in selectors
    ensures forall k :: 0 <= k < |selectors| ==>
      selectors[k].options == Options(e) && selectors[k].value == KeptSelection(old(selectors[k].value), e)
  {
    var i := 0;
    while i < |selectors|
      invariant 0 <= i <= |selectors|
      invariant forall k :: 0 <= k < i ==>
        selectors[k].options == Options(e) && selectors[k].value == KeptSelection(old(selectors[k].value), e)
      invariant forall k :: i <= k < |selectors| ==> selectors[k].value == old(selectors[k].value)
    {
      label Before:
      selectors[i].Rebuild(e);
      forall k | 0 <= k < |selectors| && k != i
        ensures selectors[k].options == old@Before(selectors[k].options)
        ensures selectors[k].value == old@Before(selectors[k].value)
      {
      }
      i := i + 1;
    }
  }
}
