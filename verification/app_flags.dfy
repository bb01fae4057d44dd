/** The registry instance of `src/lib/flags/index.ts`: one flag,
    `appActionButtons`, decided by the parity of a rolling hash that,
    unlike the database flag's hash, is never truncated between steps
    (only the operand of `<<` is converted to 32 bits). */
module AppFlags {
  import opened Wrappers
  import opened Int32
  import opened JsString
  import ServerFlag
  import opened FlagRegistry

  const APP_ACTION_BUTTONS := "appActionButtons"
  const APP_ACTION_BUTTONS_DESCRIPTION := "Wether to show the secondary nav buttons"

  /** `hash = (hash << 5) - hash + c`, with no `|0` afterwards. */
  function ParityStep(h: int, c: CodeUnit): (r: int)
    ensures Abs(r) <= Abs(h) + TWO_32
  {
    ShiftLeft5(h) - h + c
  }

  function ParityHashFrom(h: int, units: seq<CodeUnit>): (r: int)
    ensures Abs(r) <= Abs(h) + |units| * TWO_32
    decreases |units|
  {
    if |units| == 0 then h else ParityHashFrom(ParityStep(h, units[0]), units[1..])
  }

  function ParityHash(visitorId: string): int
  {
    ParityHashFrom(0, CodeUnits(visitorId))
  }

  /** The registered callback: `Math.abs(hash) % 2 === 0`. */
  function AppActionButtonsDecide(visitorId: string): (r: bool)
    ensures r <==> ParityHash(visitorId) % 2 == 0
  {
    Abs(ParityHash(visitorId)) % 2 == 0
  }

  /** The exported `flags` registry. */
  function AppRegistry(): (reg: Registry)
    ensures Valid(reg)
  {
    Register([NewFlag(APP_ACTION_BUTTONS, Some(APP_ACTION_BUTTONS_DESCRIPTION), AppActionButtonsDecide)])
  }

  /** The registry holds exactly one flag, `appActionButtons`, with no
      override, so its decision is initially the parity rule. */
  lemma AppRegistryContents(visitorId: string)
    ensures |GetAllFlags(AppRegistry())| == 1
    ensures GetAllFlags(AppRegistry())[0].key == APP_ACTION_BUTTONS
    ensures GetAllFlags(AppRegistry())[0].overrideValue == None
    ensures Decide(GetAllFlags(AppRegistry())[0], visitorId) <==> ParityHash(visitorId) % 2 == 0
    ensures forall k :: GetFlag(AppRegistry(), k).Some? <==> k == APP_ACTION_BUTTONS
  {
    var f := NewFlag(APP_ACTION_BUTTONS, Some(APP_ACTION_BUTTONS_DESCRIPTION), AppActionButtonsDecide);
    assert [f][..0] == [];
    assert Register([f][..0]).order == [];
    assert AppRegistry().order == [APP_ACTION_BUTTONS];
  }

  /** A number is exact in a double up to 2^53, so the integer model of
      the untruncated hash is exact for ids of up to 2^21 code units. */
  lemma ParityHashIsExact(visitorId: string)
    requires |CodeUnits(visitorId)| <= 0x20_0000
    ensures Abs(ParityHash(visitorId)) <= 0x20_0000_0000_0000
  {
  }

  /** Each untruncated step stays congruent to the truncated step of the
      database flag's hash. */
  lemma ParityStepCongruent(big: int, h: int, c: CodeUnit)
    requires ToInt32(big) == h
    ensures ToInt32(ParityStep(big, c)) == ServerFlag.HashStep(h, c)
  {
    var s := ShiftLeft5(h);
    assert ShiftLeft5(big) == s by { ToInt32OfInt32(h); }
    assert (big - h) % TWO_32 == 0;
    CongruentShift(h, big, s + c);
    assert ParityStep(big, c) == (s + c) - big;
  }

  /** Subtracting congruent numbers from the same value keeps the results congruent. */
  lemma CongruentShift(h: int, big: int, x: int)
    requires (big - h) % TWO_32 == 0
    ensures ToInt32(x - big) == ToInt32(x - h)
  {
    ServerFlag.NegModZero(big - h);
    assert (x - big) - (x - h) == -(big - h);
    ToInt32Congruent(x - big, x - h);
  }

  /** Numbers congruent modulo 2^32 have the same parity. */
  lemma CongruentParity(p: int, h: int)
    requires (p - h) % TWO_32 == 0
    ensures p % 2 == h % 2
  {
    var q := (p - h) / TWO_32;
    assert p - h == q * TWO_32;
    assert p == h + 2 * (q * 0x8000_0000);
  }

  lemma {:induction false} ParityHashFromCongruent(big: int, h: int, units: seq<CodeUnit>)
    requires IsInt32(h) && ToInt32(big) == h
    ensures ToInt32(ParityHashFrom(big, units)) == ServerFlag.HashFrom(h, units)
    decreases |units|
  {
    if |units| > 0 {
      ParityStepCongruent(big, h, units[0]);
      ParityHashFromCongruent(ParityStep(big, units[0]), ServerFlag.HashStep(h, units[0]), units[1..]);
    }
  }

  /** Truncating the untruncated hash to 32 bits gives the database
      flag's hash (Java's `String.hashCode`), so `appActionButtons` is on
      exactly for visitors whose `String.hashCode` is even. */
  lemma AppActionButtonsIsHashCodeParity(visitorId: string)
    ensures ToInt32(ParityHash(visitorId)) == ServerFlag.Hash(visitorId)
    ensures AppActionButtonsDecide(visitorId) <==> ServerFlag.Hash(visitorId) % 2 == 0
  {
    ParityHashFromCongruent(0, 0, CodeUnits(visitorId));
    var p := ParityHash(visitorId);
    CongruentParity(p, ToInt32(p));
  }
}
