/** The client-side decision store of `src/lib/globals.svelte.ts`: a
    record from flag key to `{value, override}`, as the server computed
    it, with the effective value read override-first. */
module ClientFlags {
  import opened Wrappers
  import opened ServerFlag
  import Hooks

  type Store = FlagDecisions

  /** `getFlag(key)`: `null` for an unknown key, otherwise the override
      when it is not `null` (a `false` override counts) and the computed
      value when it is. */
  function GetFlag(store: Store, key: string): (r: Option<bool>)
    ensures key !in store <==> r.None?
    ensures key in store && store[key].override.Some? ==> r == store[key].override
    ensures key in store && store[key].override.None? ==> r == Some(store[key].value)
  {
    if key !in store then None
    else if store[key].override.Some? then store[key].override
    else Some(store[key].value)
  }

  /** `getFlagOverride(key)`: `null` for an unknown key or a key without override. */
  function GetFlagOverride(store: Store, key: string): (r: Option<bool>)
    ensures key !in store ==> r.None?
    ensures key in store ==> r == store[key].override
  {
    if key in store then store[key].override else None
  }

  /** `setFlags(newFlags)`: the whole store is replaced. */
  function SetFlags(store: Store, newFlags: Store): (r: Store)
    ensures forall k :: GetFlag(r, k) == GetFlag(newFlags, k)
    ensures forall k :: GetFlagOverride(r, k) == GetFlagOverride(newFlags, k)
    ensures r.Keys == newFlags.Keys
    ensures forall k :: k in r ==> r[k] == newFlags[k]
  {
    newFlags
  }

  /** `setOverride(key, override)`: only an existing entry changes, and
      only its override. */
  function SetOverride(store: Store, key: string, override: Option<bool>): (r: Store)
    ensures r.Keys == store.Keys
    ensures key in store ==> r[key] == Decision(store[key].value, override)
    ensures forall k :: k in store && k != key ==> r[k] == store[k]
  {
    if key in store then store[key := store[key].(override := override)] else store
  }

  /** `getAllFlags()`: the store itself. */
  function GetAllFlags(store: Store): (r: FlagDecisions)
    ensures forall k :: k in r <==> GetFlag(store, k).Some?
    ensures forall k :: k in r ==> GetFlagOverride(store, k) == r[k].override
    ensures forall k :: k in r ==> k in store && r[k] == store[k]
  {
    store
  }

  /** `addFlag(key, value)`: a new key gets `{value, override: null}`; an
      existing entry is left as it is. */
  function AddFlag(store: Store, key: string, value: bool): (r: Store)
    ensures r.Keys == store.Keys + {key}
    ensures key !in store ==> r[key] == Decision(value, None)
    ensures forall k :: k in store ==> r[k] == store[k]
  {
    if key !in store then store[key := Decision(value, None)] else store
  }

  /** An override set through `setOverride` decides the flag, `false`
      included, and leaves every other flag's answer alone. */
  lemma SetOverrideDecides(store: Store, key: string, value: bool, other: string)
    requires key in store
    requires other != key
    ensures GetFlag(SetOverride(store, key, Some(value)), key) == Some(value)
    ensures GetFlagOverride(SetOverride(store, key, Some(value)), key) == Some(value)
    ensures GetFlag(SetOverride(store, key, Some(value)), other) == GetFlag(store, other)
  {
  }

  /** Clearing the override hands the flag back to its computed value. */
  lemma ClearOverrideRestoresValue(store: Store, key: string)
    requires key in store
    ensures GetFlag(SetOverride(store, key, None), key) == Some(store[key].value)
  {
  }

  /** `setOverride` on an unknown key has no effect; in particular it does
      not create the key. */
  lemma SetOverrideUnknownKey(store: Store, key: string, override: Option<bool>)
    requires key !in store
    ensures GetFlag(SetOverride(store, key, override), key).None?
  {
  }

  /** The decisions the request pipeline computed, installed with
      `setFlags`, read back as the server decided them: a flag's stored
      override when it has one, else whether the visitor's bucket falls
      below its chance. */
  lemma ServerDecisionsReadBack(store: Store, flags: seq<Flag>, entity: string, i: nat)
    requires i < |flags|
    requires forall j :: i < j < |flags| ==> flags[j].key != flags[i].key
    ensures GetFlag(SetFlags(store, Hooks.Decisions(flags, entity)), flags[i].key)
            == (if flags[i].overrideValue.Some? then flags[i].overrideValue else Some(Bucket(entity) < flags[i].chance))
  {
    Hooks.DecisionsLastWins(flags, entity, i);
  }

  /** What `setFlags` installs is what every reader sees: `getAllFlags`
      returns it, and `getFlag`/`getFlagOverride` answer from it alone,
      whatever the store held before. */
  lemma SetFlagsReadBack(store: Store, newFlags: Store, key: string)
    ensures GetAllFlags(SetFlags(store, newFlags)) == newFlags
    ensures GetFlag(SetFlags(store, newFlags), key) == GetFlag(newFlags, key)
    ensures GetFlagOverride(SetFlags(store, newFlags), key) == GetFlagOverride(newFlags, key)
  {
  }

  /** `addFlag` on a new key makes `getFlag` answer the given value with
      no override; on a known key every answer stays as it was. */
  lemma AddFlagReadBack(store: Store, key: string, value: bool, other: string)
    ensures key !in store ==> GetFlag(AddFlag(store, key, value), key) == Some(value)
    ensures key !in store ==> GetFlagOverride(AddFlag(store, key, value), key).None?
    ensures key in store ==> AddFlag(store, key, value) == store
    ensures other != key ==> GetFlag(AddFlag(store, key, value), other) == GetFlag(store, other)
  {
  }

  /** Adding a key twice keeps the first value: the second call finds
      the entry present. */
  lemma AddFlagFirstWins(store: Store, key: string, v1: bool, v2: bool)
    ensures AddFlag(AddFlag(store, key, v1), key, v2) == AddFlag(store, key, v1)
  {
  }

  /** The listing is the store itself: reading each key through
      `getFlag` from the listing gives the store's own answers. */
  lemma GetAllFlagsReadBack(store: Store, key: string)
    ensures GetFlag(GetAllFlags(store), key) == GetFlag(store, key)
    ensures GetFlagOverride(GetAllFlags(store), key) == GetFlagOverride(store, key)
  {
  }
}
