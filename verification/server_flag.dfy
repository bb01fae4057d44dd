/** The database-backed flag model of `src/lib/server/db/flag.ts`: the
    chance-bucketing decision of `Flag`, and `FlagDAO` as operations on
    an abstract `flag` table. The SQL statements become plain sequence
    operations on the rows; `created_at` is an integer timestamp. */
module ServerFlag {
  import opened Wrappers
  import opened Int32
  import opened JsString

  /** A flag as `convertToFlag` builds it. */
  datatype Flag = Flag(key: string, description: string, chance: int, overrideValue: Option<bool>)

  /** What `flagHandler` computes per flag and the client store keeps:
      the computed decision and the admin override, kept apart. */
  datatype Decision = Decision(value: bool, override: Option<bool>)

  type FlagDecisions = map<string, Decision>

  /** One row of the `flag` table. Nullable columns are options. */
  datatype FlagRow = FlagRow(
    flagKey: string,
    overrideValue: Option<bool>,
    description: Option<string>,
    chance: Option<int>,
    createdAt: int)

  type Table = seq<FlagRow>

  // ---------------------------------------------------------------- decide

  /** One step of the loop: `hash = (hash << 5) - hash + c; hash |= 0`. */
  function HashStep(h: int, c: CodeUnit): (r: int)
    ensures IsInt32(r)
  {
    ToInt32(ShiftLeft5(h) - h + c)
  }

  /** The loop over the code units, from the left, starting at `h`. */
  function HashFrom(h: int, units: seq<CodeUnit>): (r: int)
    requires IsInt32(h)
    ensures IsInt32(r)
    decreases |units|
  {
    if |units| == 0 then h else HashFrom(HashStep(h, units[0]), units[1..])
  }

  /** The hash of a visitor id. */
  function Hash(visitorId: string): (r: int)
    ensures IsInt32(r)
  {
    HashFrom(0, CodeUnits(visitorId))
  }

  /** Reference definition: Java's `String.hashCode`, the recurrence
      `h := wrap32(31 * h + c)` from 0. */
  function JavaHashCode(units: seq<CodeUnit>): int
  {
    if |units| == 0 then 0
    else ToInt32(31 * JavaHashCode(units[..|units| - 1]) + units[|units| - 1])
  }

  /** The shift-and-subtract step is the `31 * h + c` step. */
  lemma HashStepIsTimes31(h: int, c: CodeUnit)
    ensures HashStep(h, c) == ToInt32(31 * h + c)
  {
    var s := ShiftLeft5(h);
    assert (32 * h - s) % TWO_32 == 0;
    assert (s - h + c) - (31 * h + c) == -(32 * h - s);
    NegModZero(32 * h - s);
    ToInt32Congruent(s - h + c, 31 * h + c);
  }

  lemma NegModZero(x: int)
    requires x % TWO_32 == 0
    ensures (-x) % TWO_32 == 0
  {
    var q := x / TWO_32;
    assert x == q * TWO_32;
    assert -x == (-q) * TWO_32;
  }

  lemma {:induction false} HashFromAppend(h: int, units: seq<CodeUnit>, c: CodeUnit)
    requires IsInt32(h)
    ensures HashFrom(h, units + [c]) == HashStep(HashFrom(h, units), c)
    decreases |units|
  {
    if |units| == 0 {
      assert units + [c] == [c];
      assert ([c])[1..] == [];
    } else {
      assert (units + [c])[1..] == units[1..] + [c];
      HashFromAppend(HashStep(h, units[0]), units[1..], c);
    }
  }

  /** The source's hash is Java's `String.hashCode` of the UTF-16 code units. */
  lemma {:induction false} HashIsJavaHashCode(units: seq<CodeUnit>)
    ensures HashFrom(0, units) == JavaHashCode(units)
    decreases |units|
  {
    if |units| > 0 {
      var init, last := units[..|units| - 1], units[|units| - 1];
      assert units == init + [last];
      HashIsJavaHashCode(init);
      HashFromAppend(0, init, last);
      HashStepIsTimes31(HashFrom(0, init), last);
    }
  }

  /** `Math.abs(hash) % 100`. */
  function Bucket(visitorId: string): (r: int)
    ensures 0 <= r < 100
  {
    Abs(Hash(visitorId)) % 100
  }

  /** `Flag.decide(visitorId, chance)`: the visitor falls in the first
      `chance` of 100 buckets. The flag's own override is not consulted. */
  function Decide(visitorId: string, chance: int): (r: bool)
    ensures chance <= 0 ==> !r
    ensures chance >= 100 ==> r
    ensures r <==> Bucket(visitorId) < chance
  {
    Abs(Hash(visitorId)) % 100 < chance
  }

  /** The one hash whose absolute value leaves 32 bits lands in bucket 48. */
  lemma MinInt32Bucket()
    ensures Abs(MIN_INT32) % 100 == 48
  {
  }

  /** Raising the chance never turns a visitor's decision off. */
  lemma DecideMonotone(visitorId: string, c1: int, c2: int)
    requires c1 <= c2
    requires Decide(visitorId, c1)
    ensures Decide(visitorId, c2)
  {
  }

  // ------------------------------------------------------------------- DAO

  /** `FlagDAO.convertToFlag` on a present row: missing description
      becomes '', missing override `null`, missing or zero chance 0. */
  function ConvertToFlag(row: FlagRow): (f: Flag)
    ensures f.key == row.flagKey
    ensures row.description.None? ==> f.description == ""
    ensures row.description.Some? ==> f.description == row.description.value
    ensures f.overrideValue == row.overrideValue
    ensures row.chance.None? ==> f.chance == 0
    ensures row.chance.Some? ==> f.chance == row.chance.value
  {
    Flag(row.flagKey,
         if row.description.Some? then row.description.value else "",
         if row.chance.Some? && row.chance.value != 0 then row.chance.value else 0,
         row.overrideValue)
  }

  predicate HasKey(t: Table, key: string) {
    exists i :: 0 <= i < |t| && t[i].flagKey == key
  }

  /** Position of the first row with `key`. */
  function FindRow(t: Table, key: string): (r: Option<nat>)
    ensures r.Some? ==> r.value < |t| && t[r.value].flagKey == key
    ensures r.Some? ==> forall j :: 0 <= j < r.value ==> t[j].flagKey != key
    ensures r.None? <==> !HasKey(t, key)
  {
    if |t| == 0 then None
    else if t[0].flagKey == key then Some(0)
    else match FindRow(t[1..], key)
      case None => assert forall i :: 1 <= i < |t| ==> t[i] == t[1..][i - 1]; None
      case Some(i) => Some(i + 1)
  }

  const MISSING_ROW_ERROR := "Cannot read properties of undefined (reading 'flag_key')"

  /** `FlagDAO.getFlag`: `res.rows[0]` is `undefined` when no row matches,
      and `convertToFlag(undefined)` throws on reading `flag_key` before
      the `|| null` fallback is reached. The flag, when present, is never
      falsy, so the result is never `null`. */
  function GetFlag(t: Table, key: string): (r: Result<Option<Flag>>)
    ensures r.Throw? <==> !HasKey(t, key)
    ensures r.Ok? ==> r.value.Some? && r.value.value.key == key
    ensures r.Ok? ==> exists i :: 0 <= i < |t| && r.value.value == ConvertToFlag(t[i])
  {
    match FindRow(t, key)
    case None => Throw(MISSING_ROW_ERROR)
    case Some(i) => Ok(Some(ConvertToFlag(t[i])))
  }

  /** `FlagDAO.overrideFlag`: `UPDATE flag SET override_value = $2 WHERE flag_key = $1`. */
  function OverrideFlag(t: Table, key: string, value: Option<bool>): (r: Table)
    ensures |r| == |t|
    ensures forall i :: 0 <= i < |t| && t[i].flagKey != key ==> r[i] == t[i]
    ensures forall i :: 0 <= i < |t| && t[i].flagKey == key ==> r[i] == t[i].(overrideValue := value)
  {
    seq(|t|, i requires 0 <= i < |t| => if t[i].flagKey == key then t[i].(overrideValue := value) else t[i])
  }

  /** An override changes no key. */
  lemma OverrideKeepsKeys(t: Table, key: string, value: Option<bool>)
    ensures forall k :: HasKey(OverrideFlag(t, key, value), k) <==> HasKey(t, k)
  {
    var r := OverrideFlag(t, key, value);
    assert forall i :: 0 <= i < |t| ==> r[i].flagKey == t[i].flagKey;
  }

  /** Setting the same override twice is setting it once. */
  lemma OverrideFlagIdempotent(t: Table, key: string, value: Option<bool>)
    ensures OverrideFlag(OverrideFlag(t, key, value), key, value) == OverrideFlag(t, key, value)
  {
    var r := OverrideFlag(t, key, value);
    assert forall i :: 0 <= i < |r| ==> OverrideFlag(r, key, value)[i] == r[i];
  }

  /** `FlagDAO.deleteFlag`: `DELETE FROM flag WHERE flag_key = $1`. */
  function DeleteFlag(t: Table, key: string): (r: Table)
    ensures !HasKey(r, key)
    ensures forall row :: row in r <==> row in t && row.flagKey != key
    ensures forall row: FlagRow :: multiset(r)[row] == if row.flagKey == key then 0 else multiset(t)[row]
    ensures |r| <= |t|
  {
    if |t| == 0 then []
    else
      assert t == [t[0]] + t[1..];
      if t[0].flagKey == key then DeleteFlag(t[1..], key)
      else [t[0]] + DeleteFlag(t[1..], key)
  }

  /** Deleting from a table with unique keys leaves them unique. */
  lemma {:induction false} DeleteKeepsUnique(t: Table, key: string)
    requires UniqueKeys(t)
    ensures UniqueKeys(DeleteFlag(t, key))
  {
    if |t| > 0 {
      TailUnique(t);
      DeleteKeepsUnique(t[1..], key);
      if t[0].flagKey != key {
        HeadKeyFresh(t, DeleteFlag(t[1..], key));
        ConsUnique(t[0], DeleteFlag(t[1..], key));
      }
    }
  }

  lemma TailUnique(t: Table)
    requires |t| > 0 && UniqueKeys(t)
    ensures UniqueKeys(t[1..])
  {
    forall i, j | 0 <= i < j < |t| - 1 ensures t[1..][i].flagKey != t[1..][j].flagKey {
      assert t[1..][i] == t[i + 1] && t[1..][j] == t[j + 1];
    }
  }

  /** No row of `rest`, drawn from the tail, shares the head's key. */
  lemma HeadKeyFresh(t: Table, rest: Table)
    requires |t| > 0 && UniqueKeys(t)
    requires forall row :: row in rest ==> row in t[1..]
    ensures forall j :: 0 <= j < |rest| ==> rest[j].flagKey != t[0].flagKey
  {
    forall j | 0 <= j < |rest| ensures rest[j].flagKey != t[0].flagKey {
      assert rest[j] in t[1..];
      var k :| 0 <= k < |t| - 1 && t[1..][k] == rest[j];
      assert t[k + 1] == rest[j];
    }
  }

  lemma ConsUnique(row: FlagRow, rest: Table)
    requires UniqueKeys(rest)
    requires forall j :: 0 <= j < |rest| ==> rest[j].flagKey != row.flagKey
    ensures UniqueKeys([row] + rest)
  {
    var r := [row] + rest;
    forall i, j | 0 <= i < j < |r| ensures r[i].flagKey != r[j].flagKey {
      assert r[j] == rest[j - 1];
      if i > 0 { assert r[i] == rest[i - 1]; }
    }
  }

  const DUPLICATE_KEY_ERROR := "duplicate key value violates unique constraint"

  /** `FlagDAO.createFlag`: inserts a row with no override; the `flag_key`
      unique constraint rejects an existing key. `now` is the
      `created_at` the database assigns. */
  function CreateFlag(t: Table, key: string, description: string, chance: int, now: int): (r: Result<Table>)
    ensures r.Throw? <==> HasKey(t, key)
    ensures r.Ok? ==> r.value == t + [FlagRow(key, None, Some(description), Some(chance), now)]
  {
    if HasKey(t, key) then Throw(DUPLICATE_KEY_ERROR)
    else Ok(t + [FlagRow(key, None, Some(description), Some(chance), now)])
  }

  /** `FlagDAO.editFlag`: `UPDATE flag SET flag_key = $2, description = $3,
      chance = $4 WHERE flag_key = $1`. The override and creation time
      of the edited row are kept; renaming onto another existing key
      violates the unique constraint. */
  function EditFlag(t: Table, originalKey: string, newKey: string, description: string, chance: int): (r: Result<Table>)
    ensures r.Throw? <==> HasKey(t, originalKey) && originalKey != newKey && HasKey(t, newKey)
    ensures r.Ok? ==> |r.value| == |t|
    ensures r.Ok? ==> forall i :: 0 <= i < |t| && t[i].flagKey != originalKey ==> r.value[i] == t[i]
    ensures r.Ok? ==> forall i :: 0 <= i < |t| && t[i].flagKey == originalKey ==>
              r.value[i] == FlagRow(newKey, t[i].overrideValue, Some(description), Some(chance), t[i].createdAt)
  {
    if HasKey(t, originalKey) && originalKey != newKey && HasKey(t, newKey) then Throw(DUPLICATE_KEY_ERROR)
    else Ok(seq(|t|, i requires 0 <= i < |t| =>
      if t[i].flagKey == originalKey then t[i].(flagKey := newKey, description := Some(description), chance := Some(chance))
      else t[i]))
  }

  // ------------------------------------------------------- table invariants

  /** The `flag_key` unique constraint. */
  predicate UniqueKeys(t: Table) {
    forall i, j :: 0 <= i < j < |t| ==> t[i].flagKey != t[j].flagKey
  }

  /** Every stored chance is a percentage, as the admin form enforces. */
  predicate ChancesInRange(t: Table) {
    forall i :: 0 <= i < |t| && t[i].chance.Some? ==> 0 <= t[i].chance.value <= 100
  }

  /** Every write keeps the table's keys unique. */
  lemma WritesKeepKeysUnique(t: Table, key: string, newKey: string, description: string, chance: int, now: int,
                             value: Option<bool>)
    requires UniqueKeys(t)
    ensures CreateFlag(t, key, description, chance, now).Ok? ==> UniqueKeys(CreateFlag(t, key, description, chance, now).value)
    ensures EditFlag(t, key, newKey, description, chance).Ok? ==> UniqueKeys(EditFlag(t, key, newKey, description, chance).value)
    ensures UniqueKeys(OverrideFlag(t, key, value))
    ensures UniqueKeys(DeleteFlag(t, key))
  {
    EditKeepsUnique(t, key, newKey, description, chance);
    OverrideKeepsUnique(t, key, value);
    DeleteKeepsUnique(t, key);
  }

  lemma EditKeepsUnique(t: Table, key: string, newKey: string, description: string, chance: int)
    requires UniqueKeys(t)
    ensures EditFlag(t, key, newKey, description, chance).Ok? ==> UniqueKeys(EditFlag(t, key, newKey, description, chance).value)
  {
    var e := EditFlag(t, key, newKey, description, chance);
    if e.Ok? {
      forall i, j | 0 <= i < j < |t| ensures e.value[i].flagKey != e.value[j].flagKey {
        if t[i].flagKey == key && t[j].flagKey != key {
          assert HasKey(t, key);
          assert t[j].flagKey != newKey;
        } else if t[i].flagKey != key && t[j].flagKey == key {
          assert HasKey(t, key);
          assert t[i].flagKey != newKey;
        }
      }
    }
  }

  lemma OverrideKeepsUnique(t: Table, key: string, value: Option<bool>)
    requires UniqueKeys(t)
    ensures UniqueKeys(OverrideFlag(t, key, value))
  {
    var o := OverrideFlag(t, key, value);
    assert forall i :: 0 <= i < |t| ==> o[i].flagKey == t[i].flagKey;
  }

  /** With chances validated to [0, 100] on the way in, every stored chance stays a percentage. */
  lemma WritesKeepChancesInRange(t: Table, key: string, newKey: string, description: string, chance: int, now: int,
                                 value: Option<bool>)
    requires ChancesInRange(t)
    requires 0 <= chance <= 100
    ensures CreateFlag(t, key, description, chance, now).Ok? ==> ChancesInRange(CreateFlag(t, key, description, chance, now).value)
    ensures EditFlag(t, key, newKey, description, chance).Ok? ==> ChancesInRange(EditFlag(t, key, newKey, description, chance).value)
    ensures ChancesInRange(OverrideFlag(t, key, value))
    ensures ChancesInRange(DeleteFlag(t, key))
  {
    var c := CreateFlag(t, key, description, chance, now);
    if c.Ok? {
      forall i | 0 <= i < |c.value| && c.value[i].chance.Some? ensures 0 <= c.value[i].chance.value <= 100 {
        if i < |t| { assert c.value[i] == t[i]; }
      }
    }
    var e := EditFlag(t, key, newKey, description, chance);
    if e.Ok? {
      forall i | 0 <= i < |e.value| && e.value[i].chance.Some? ensures 0 <= e.value[i].chance.value <= 100 {
        assert e.value[i] == t[i] || e.value[i].chance == Some(chance);
      }
    }
    var o := OverrideFlag(t, key, value);
    forall i | 0 <= i < |o| && o[i].chance.Some? ensures 0 <= o[i].chance.value <= 100 {
      assert o[i].chance == t[i].chance;
    }
    var d := DeleteFlag(t, key);
    forall i | 0 <= i < |d| && d[i].chance.Some? ensures 0 <= d[i].chance.value <= 100 {
      assert d[i] in t;
    }
  }

  /** A created flag reads back with the description and chance it was
      created with, and no override. */
  lemma CreateThenGet(t: Table, key: string, description: string, chance: int, now: int)
    requires !HasKey(t, key)
    ensures CreateFlag(t, key, description, chance, now).Ok?
    ensures GetFlag(CreateFlag(t, key, description, chance, now).value, key) == Ok(Some(Flag(key, description, chance, None)))
  {
    var r := CreateFlag(t, key, description, chance, now).value;
    assert r[|t|].flagKey == key;
    var i := FindRow(r, key).value;
    assert i == |t|;
  }

  /** An edited flag reads back under its new key with the new
      description and chance and the override it had. */
  lemma EditThenGet(t: Table, key: string, newKey: string, description: string, chance: int, i: nat)
    requires UniqueKeys(t) && i < |t| && t[i].flagKey == key
    requires EditFlag(t, key, newKey, description, chance).Ok?
    ensures GetFlag(EditFlag(t, key, newKey, description, chance).value, newKey)
            == Ok(Some(Flag(newKey, description, chance, t[i].overrideValue)))
  {
    var r := EditFlag(t, key, newKey, description, chance).value;
    assert r[i].flagKey == newKey;
    forall k | 0 <= k < |t| && k != i ensures r[k].flagKey != newKey {
      assert t[k].flagKey != key;
      assert r[k] == t[k];
      assert HasKey(t, key);
    }
    assert FindRow(r, newKey) == Some(i);
  }

  /** After an override, reading the flag back yields the new override. */
  lemma GetAfterOverride(t: Table, key: string, value: Option<bool>)
    requires HasKey(t, key)
    ensures GetFlag(OverrideFlag(t, key, value), key).Ok?
    ensures GetFlag(OverrideFlag(t, key, value), key).value.value.overrideValue == value
  {
    var i :| 0 <= i < |t| && t[i].flagKey == key;
    var r := OverrideFlag(t, key, value);
    assert r[i].flagKey == key;
    assert HasKey(r, key);
    var j := FindRow(r, key).value;
    assert r[j] == t[j].(overrideValue := value);
  }

  /** After a delete, reading the flag throws. */
  lemma GetAfterDelete(t: Table, key: string)
    ensures GetFlag(DeleteFlag(t, key), key).Throw?
  {
  }

  // ------------------------------------------------------------ getAllFlags

  predicate SortedByCreatedDesc(t: Table) {
    forall i, j :: 0 <= i < j < |t| ==> t[i].createdAt >= t[j].createdAt
  }

  /** Insert `row` before the first row created no later than it. */
  function InsertDesc(row: FlagRow, t: Table): (r: Table)
    requires SortedByCreatedDesc(t)
    ensures SortedByCreatedDesc(r)
    ensures multiset(r) == multiset(t) + multiset{row}
  {
    if |t| == 0 then [row]
    else if row.createdAt >= t[0].createdAt then [row] + t
    else
      var rest := InsertDesc(row, t[1..]);
      assert t == [t[0]] + t[1..];
      InsertDescBelow(t[0], row, t[1..], rest);
      [t[0]] + rest
  }

  /** The head of a sorted table stays in front when a later row is
      inserted into its tail. */
  lemma InsertDescBelow(head: FlagRow, row: FlagRow, tail: Table, rest: Table)
    requires SortedByCreatedDesc([head] + tail) && row.createdAt < head.createdAt
    requires SortedByCreatedDesc(rest) && multiset(rest) == multiset(tail) + multiset{row}
    ensures SortedByCreatedDesc([head] + rest)
  {
    forall j | 0 <= j < |rest| ensures rest[j].createdAt <= head.createdAt {
      assert rest[j] in multiset(rest);
      if rest[j] != row {
        assert rest[j] in multiset(tail);
        assert rest[j] in tail;
        var k :| 0 <= k < |tail| && tail[k] == rest[j];
        assert ([head] + tail)[0] == head && ([head] + tail)[k + 1] == tail[k];
      }
    }
    forall i, j | 0 <= i < j < |[head] + rest| ensures ([head] + rest)[i].createdAt >= ([head] + rest)[j].createdAt {
      assert ([head] + rest)[j] == rest[j - 1];
      if i > 0 {
        assert ([head] + rest)[i] == rest[i - 1];
        assert rest[i - 1].createdAt >= rest[j - 1].createdAt;
      } else {
        assert rest[j - 1].createdAt <= head.createdAt;
      }
    }
  }

  /** `ORDER BY created_at DESC`: a permutation of the rows, newest first.
      Rows created at the same time keep their reverse table order; SQL
      leaves that order unspecified. */
  function SortByCreatedDesc(t: Table): (r: Table)
    ensures SortedByCreatedDesc(r)
    ensures multiset(r) == multiset(t)
  {
    if |t| == 0 then []
    else
      assert t == [t[0]] + t[1..];
      InsertDesc(t[0], SortByCreatedDesc(t[1..]))
  }

  /** `FlagDAO.getAllFlags`: one converted flag per row, newest first. */
  function GetAllFlags(t: Table): (r: seq<Flag>)
    ensures |r| == |t|
    ensures exists sorted :: SortedByCreatedDesc(sorted) && multiset(sorted) == multiset(t)
              && forall i :: 0 <= i < |r| ==> r[i] == ConvertToFlag(sorted[i])
  {
    var sorted := SortByCreatedDesc(t);
    assert |sorted| == |multiset(sorted)| == |multiset(t)| == |t|;
    seq(|sorted|, i requires 0 <= i < |sorted| => ConvertToFlag(sorted[i]))
  }
}
