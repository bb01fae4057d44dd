/** `POST /api/admin/flags/override` of
    `src/routes/api/admin/flags/override/+server.ts` as a transition on
    the flag table and on an append-only outbox of published messages.
    The JSON body's `value` is forwarded without validation; it is
    modelled as a boolean or `null`. */
module OverrideEndpoint {
  import opened Wrappers
  import opened ServerFlag

  const FLAGS_UPDATE_CHANNEL := "flags:update"
  const FLAG_NOT_FOUND := "Flag not found"

  /** The published payload, `JSON.stringify({ flagKey, value })`. */
  datatype FlagUpdate = FlagUpdate(flagKey: string, value: Option<bool>)

  datatype Message = Message(channel: string, payload: FlagUpdate)

  datatype State = State(table: Table, outbox: seq<Message>)

  /** The JSON response: `{ success: true }` or `{ success: false, error }`. */
  datatype Body = Succeeded | Failed(error: string)

  datatype Reply = Reply(status: int, body: Body)

  /** A `Throw` reply is an exception escaping the handler. */
  datatype Transition = Transition(reply: Result<Reply>, next: State)

  /** The handler as written, on top of `FlagDAO.getFlag`. */
  function Post(s: State, flagKey: string, value: Option<bool>): (t: Transition)
    ensures !HasKey(s.table, flagKey) ==> t.reply.Throw? && t.next == s
    ensures HasKey(s.table, flagKey) ==> t.reply == Ok(Reply(200, Succeeded))
    ensures HasKey(s.table, flagKey) ==> t.next.outbox == s.outbox + [Message(FLAGS_UPDATE_CHANNEL, FlagUpdate(flagKey, value))]
    ensures HasKey(s.table, flagKey) ==> |t.next.table| == |s.table|
    ensures HasKey(s.table, flagKey) ==> forall i :: 0 <= i < |s.table| ==>
              t.next.table[i] == if s.table[i].flagKey == flagKey then s.table[i].(overrideValue := value) else s.table[i]
  {
    match GetFlag(s.table, flagKey)
    case Throw(m) => Transition(Throw(m), s)
    case Ok(flag) =>
      if flag.None? then Transition(Ok(Reply(404, Failed(FLAG_NOT_FOUND))), s)
      else
        var table := OverrideFlag(s.table, flagKey, value);
        var outbox := s.outbox + [Message(FLAGS_UPDATE_CHANNEL, FlagUpdate(flagKey, value))];
        Transition(Ok(Reply(200, Succeeded)), State(table, outbox))
  }

  /** As written, the 404 branch is dead: an unknown key makes
      `FlagDAO.getFlag` throw before the check, so the caller gets an
      error instead of `{ success: false, error: 'Flag not found' }`. */
  lemma PostNeverAnswers404(s: State, flagKey: string, value: Option<bool>)
    ensures Post(s, flagKey, value).reply != Ok(Reply(404, Failed(FLAG_NOT_FOUND)))
    ensures !HasKey(s.table, flagKey) ==> Post(s, flagKey, value).reply.Throw?
  {
  }

  /** A concrete request that shows it: an empty table and any key. */
  lemma UnknownFlagThrows()
    ensures Post(State([], []), "missing", Some(true)).reply == Throw(MISSING_ROW_ERROR)
  {
  }

  /** `FlagDAO.getFlag` as its `|| null` evidently intends: `null` when no row matches. */
  function GetFlagOrNull(t: Table, key: string): (r: Option<Flag>)
    ensures r.None? <==> !HasKey(t, key)
    ensures r.Some? ==> r.value.key == key
    ensures HasKey(t, key) ==> Ok(r) == GetFlag(t, key)
  {
    match FindRow(t, key)
    case None => None
    case Some(i) => Some(ConvertToFlag(t[i]))
  }

  /** The handler over the corrected lookup. */
  function PostCorrected(s: State, flagKey: string, value: Option<bool>): (t: Transition)
    ensures HasKey(s.table, flagKey) ==> t == Post(s, flagKey, value)
  {
    match GetFlagOrNull(s.table, flagKey)
    case None => Transition(Ok(Reply(404, Failed(FLAG_NOT_FOUND))), s)
    case Some(_) =>
      var table := OverrideFlag(s.table, flagKey, value);
      var outbox := s.outbox + [Message(FLAGS_UPDATE_CHANNEL, FlagUpdate(flagKey, value))];
      Transition(Ok(Reply(200, Succeeded)), State(table, outbox))
  }

  /** With the corrected lookup an unknown flag is answered with 404
      `Flag not found`, and nothing is written or published. */
  lemma UnknownFlagIs404(s: State, flagKey: string, value: Option<bool>)
    requires !HasKey(s.table, flagKey)
    ensures PostCorrected(s, flagKey, value).reply == Ok(Reply(404, Failed(FLAG_NOT_FOUND)))
    ensures PostCorrected(s, flagKey, value).next == s
  {
  }

  /** A successful override is what the next read of the flag sees, and
      exactly one message announces it. A `null` value clears the override. */
  lemma OverrideIsReadBack(s: State, flagKey: string, value: Option<bool>)
    requires HasKey(s.table, flagKey)
    ensures GetFlag(PostCorrected(s, flagKey, value).next.table, flagKey).Ok?
    ensures GetFlag(PostCorrected(s, flagKey, value).next.table, flagKey).value.value.overrideValue == value
    ensures |PostCorrected(s, flagKey, value).next.outbox| == |s.outbox| + 1
  {
    GetAfterOverride(s.table, flagKey, value);
  }

  /** Repeating the same override leaves the same table: the write is idempotent. */
  lemma OverrideIdempotent(s: State, flagKey: string, value: Option<bool>)
    requires HasKey(s.table, flagKey)
    ensures PostCorrected(PostCorrected(s, flagKey, value).next, flagKey, value).next.table
            == PostCorrected(s, flagKey, value).next.table
  {
    var first := PostCorrected(s, flagKey, value);
    assert first.next.table == OverrideFlag(s.table, flagKey, value);
    OverrideKeepsKeys(s.table, flagKey, value);
    OverrideFlagIdempotent(s.table, flagKey, value);
  }
}
