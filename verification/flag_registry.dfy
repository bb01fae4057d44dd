/** The in-memory flag registry of `src/lib/flags/flags.ts`: a `Flag`
    with a custom decision callback and an optional override, and the
    `Flags` registry, a JavaScript `Map` from key to flag. A `Map`
    remembers first-insertion order, so the registry keeps the key
    order next to the entries. */
module FlagRegistry {
  import opened Wrappers

  datatype Flag = Flag(
    key: string,
    description: Option<string>,
    decideFn: string -> bool,
    overrideValue: Option<bool>)

  /** `new Flag(definition)`: no override to begin with. */
  function NewFlag(key: string, description: Option<string>, decideFn: string -> bool): (f: Flag)
    ensures f.overrideValue == None
    ensures f.key == key && f.description == description && f.decideFn == decideFn
  {
    Flag(key, description, decideFn, None)
  }

  /** `flag.override(value)`. */
  function Override(f: Flag, value: bool): (r: Flag)
    ensures r.overrideValue == Some(value)
    ensures r.key == f.key && r.description == f.description && r.decideFn == f.decideFn
  {
    f.(overrideValue := Some(value))
  }

  /** `flag.clearOverride()`. */
  function ClearOverride(f: Flag): (r: Flag)
    ensures r.overrideValue == None
    ensures r.key == f.key && r.description == f.description && r.decideFn == f.decideFn
  {
    f.(overrideValue := None)
  }

  /** `flag.decide(id)`: the override whenever one is set, `false` included,
      and the callback's answer otherwise. */
  function Decide(f: Flag, id: string): (r: bool)
    ensures f.overrideValue.Some? ==> r == f.overrideValue.value
    ensures f.overrideValue.None? ==> r == f.decideFn(id)
  {
    if f.overrideValue.Some? then f.overrideValue.value else f.decideFn(id)
  }

  /** Overriding fixes the decision for every visitor; clearing it hands
      the decision back to the callback. */
  lemma OverrideThenClear(f: Flag, value: bool, id: string)
    ensures Decide(Override(f, value), id) == value
    ensures Decide(ClearOverride(Override(f, value)), id) == f.decideFn(id)
  {
  }

  // -------------------------------------------------------------- registry

  datatype Registry = Registry(order: seq<string>, entries: map<string, Flag>)

  predicate Distinct(keys: seq<string>) {
    forall i, j :: 0 <= i < j < |keys| ==> keys[i] != keys[j]
  }

  /** Each key is listed once, exactly the keys present, and every entry
      is filed under its own key. */
  predicate Valid(reg: Registry) {
    && Distinct(reg.order)
    && (forall k :: k in reg.order ==> k in reg.entries)
    && (forall k :: k in reg.entries ==> k in reg.order)
    && (forall k :: k in reg.entries ==> reg.entries[k].key == k)
  }

  /** `new Flags()`. */
  function EmptyRegistry(): (reg: Registry)
    ensures Valid(reg) && |reg.order| == 0
  {
    Registry([], map[])
  }

  /** `flags.addFlag(flag)`: `Map.set` replaces an existing entry in place
      and appends a new key; duplicates are not rejected. */
  function AddFlag(reg: Registry, flag: Flag): (r: Registry)
    requires Valid(reg)
    ensures Valid(r)
    ensures flag.key in r.entries && r.entries[flag.key] == flag
    ensures forall k :: k != flag.key ==> (k in r.entries <==> k in reg.entries)
    ensures forall k :: k != flag.key && k in reg.entries ==> r.entries[k] == reg.entries[k]
    ensures flag.key in reg.order ==> r.order == reg.order
    ensures flag.key !in reg.order ==> r.order == reg.order + [flag.key]
  {
    if flag.key in reg.entries then Registry(reg.order, reg.entries[flag.key := flag])
    else Registry(reg.order + [flag.key], reg.entries[flag.key := flag])
  }

  /** `flags.getFlag(key)`; `None` is `undefined`. */
  function GetFlag(reg: Registry, key: string): (r: Option<Flag>)
    ensures r.Some? <==> key in reg.entries
    ensures r.Some? ==> r.value == reg.entries[key]
  {
    if key in reg.entries then Some(reg.entries[key]) else None
  }

  /** `flags.getAllFlags()`: the flags in key insertion order. */
  function GetAllFlags(reg: Registry): (r: seq<Flag>)
    requires Valid(reg)
    ensures |r| == |reg.order|
    ensures forall i :: 0 <= i < |r| ==> r[i] == reg.entries[reg.order[i]] && r[i].key == reg.order[i]
    ensures forall i, j :: 0 <= i < j < |r| ==> r[i].key != r[j].key
  {
    seq(|reg.order|, i requires 0 <= i < |reg.order| => reg.entries[reg.order[i]])
  }

  // --------------------------------------------------- registration history

  /** The registry after adding `flags` one by one. */
  function Register(flags: seq<Flag>): (reg: Registry)
    ensures Valid(reg)
  {
    if |flags| == 0 then EmptyRegistry()
    else AddFlag(Register(flags[..|flags| - 1]), flags[|flags| - 1])
  }

  /** Reference: the last flag in `flags` with `key`. */
  function LastAdded(flags: seq<Flag>, key: string): Option<Flag>
  {
    if |flags| == 0 then None
    else if flags[|flags| - 1].key == key then Some(flags[|flags| - 1])
    else LastAdded(flags[..|flags| - 1], key)
  }

  /** Reference: the keys of `flags` in order of first appearance. */
  function FirstAppearance(flags: seq<Flag>): seq<string>
  {
    if |flags| == 0 then []
    else
      var keys := FirstAppearance(flags[..|flags| - 1]);
      if flags[|flags| - 1].key in keys then keys else keys + [flags[|flags| - 1].key]
  }

  /** `getFlag(k)` answers with the last flag added under `k`, or nothing
      when no flag was added under `k`. */
  lemma {:induction false} GetFlagIsLastAdded(flags: seq<Flag>, key: string)
    ensures GetFlag(Register(flags), key) == LastAdded(flags, key)
  {
    if |flags| > 0 {
      GetFlagIsLastAdded(flags[..|flags| - 1], key);
    }
  }

  /** `getAllFlags()` lists every added key once, in order of first
      addition: a replaced flag keeps the position of the first one. */
  lemma {:induction false} GetAllFlagsOrder(flags: seq<Flag>)
    ensures Register(flags).order == FirstAppearance(flags)
  {
    if |flags| > 0 {
      GetAllFlagsOrder(flags[..|flags| - 1]);
    }
  }
}
