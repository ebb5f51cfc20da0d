/**
 Opening a FIFO for reading (src/winuxcmd_fifo.rs): a helper thread creates the pipe and
 waits for a writer, and reports over a channel to the caller, which polls for an interrupt
 between short waits. Modelled as the steps either thread may take, in any interleaving;
 the helper does not panic. What the system calls and the interrupt flag answer is left
 open, and so is how often a wait times out.
 */
module FifoRendezvous {
  import opened Wrappers

  /** ERROR_PIPE_CONNECTED: a writer connected between create and connect. */
  const PIPE_CONNECTED := 535

  /** What the connect call answers. */
  datatype Answer = Succeeded | Failed(code: int)

  /** What the helper makes of it. */
  datatype Outcome = Established | Broken(code: int)

  function OutcomeOf(answer: Answer): Outcome {
    match answer
    case Succeeded => Established
    case Failed(code) => if code == PIPE_CONNECTED then Established else Broken(code)
  }

  datatype Message = Created | CreateFailed(code: int) | Connected(result: Outcome)

  datatype Helper =
    | Creating | SendingCreated | SendingCreateFailed(code: int) | Connecting | SendingResult(result: Outcome)
    | Finished

  datatype Failure =
    | NotCreated(code: int) | CreateThreadExited | ConnectFailed(code: int) | ProtocolError | ConnectThreadExited
    | Interrupted

  datatype Caller = AwaitingCreate | AwaitingConnect | Grace | ReturnedFile | ReturnedError(why: Failure)

  /** `sent` is everything the helper sent; the first `received` of it reached the caller.
      `created` says the pipe handle came to exist, `closed` how often it was closed, `answer` what the
      connect call answered. */
  datatype State = State(helper: Helper, caller: Caller, sent: seq<Message>, received: nat, created: bool, closed: nat,
                         answer: Option<Answer>)

  const START := State(Creating, AwaitingCreate, [], 0, false, 0, None)

  /** The caller's end of the channel lives until it returns. */
  predicate ReceiverAlive(s: State) { !s.caller.ReturnedFile? && !s.caller.ReturnedError? }

  predicate MessageReady(s: State) { s.received < |s.sent| }

  /** The channel is empty and its sender gone. */
  predicate Disconnected(s: State) { s.helper == Finished && s.received >= |s.sent| }

  function Send(s: State, m: Message): State {
    if ReceiverAlive(s) then s.(sent := s.sent + [m]) else s
  }

  // -------------------------------------------------------------------- the helper

  predicate HelperStep(s: State, r: State) {
    match s.helper
    case Creating =>
      || r == s.(helper := SendingCreated, created := true)
      || (r.helper.SendingCreateFailed? && r == s.(helper := r.helper))
    case SendingCreateFailed(code) => r == Send(s, CreateFailed(code)).(helper := Finished)
    case SendingCreated =>
      if ReceiverAlive(s) then r == Send(s, Created).(helper := Connecting)
      else r == s.(closed := s.closed + 1, helper := Finished)
    case Connecting =>
      // the wait for a writer ends, with whatever answer
      r.answer.Some? && r == s.(helper := SendingResult(OutcomeOf(r.answer.value)), answer := r.answer)
    case SendingResult(result) => r == Send(s, Connected(result)).(helper := Finished)
    case Finished => false
  }

  // -------------------------------------------------------------------- the caller

  predicate CallerStep(s: State, r: State) {
    match s.caller
    case AwaitingCreate =>
      if MessageReady(s) then
        var next := s.(received := s.received + 1);
        match s.sent[s.received]
        case Created => r == next.(caller := AwaitingConnect)
        case CreateFailed(code) => r == next.(caller := ReturnedError(NotCreated(code)))
        case Connected(_) => r == next.(caller := ReturnedError(CreateThreadExited))
      else Disconnected(s) && r == s.(caller := ReturnedError(CreateThreadExited))
    case AwaitingConnect =>
      || (MessageReady(s) && r == TakeResult(s))
      || TimedOut(s, r)
      || (Disconnected(s) && r == s.(closed := s.closed + 1, caller := ReturnedError(ConnectThreadExited)))
    case Grace =>
      // whatever the grace period brings, the error is decided
      || r == s.(caller := ReturnedError(Interrupted))
      || (MessageReady(s) && r == s.(received := s.received + 1, caller := ReturnedError(Interrupted)))
    case ReturnedFile => false
    case ReturnedError(_) => false
  }

  function TakeResult(s: State): State
    requires MessageReady(s)
  {
    var next := s.(received := s.received + 1);
    match s.sent[s.received]
    case Connected(Established) => next.(caller := ReturnedFile)
    case Connected(Broken(code)) => next.(closed := s.closed + 1, caller := ReturnedError(ConnectFailed(code)))
    case Created => next.(caller := ReturnedError(ProtocolError))
    case CreateFailed(_) => next.(caller := ReturnedError(ProtocolError))
  }

  /** A wait ran out: go on waiting, or close the handle when interrupted. */
  predicate TimedOut(s: State, r: State) {
    r == s || r == s.(closed := s.closed + 1, caller := Grace)
  }

  predicate Step(s: State, r: State) { HelperStep(s, r) || CallerStep(s, r) }

  predicate IsRun(states: seq<State>) {
    && states != [] && states[0] == START
    && forall i :: 0 <= i < |states| - 1 ==> Step(states[i], states[i + 1])
  }

  // ------------------------------------------------------------------- invariants

  /** What the helper has sent by now; a result is dropped only when nobody waits for it. */
  predicate SentSoFar(s: State) {
    match s.helper
    case Creating => s.sent == []
    case SendingCreated => s.sent == []
    case SendingCreateFailed(_) => s.sent == []
    case Connecting => s.sent == [Created]
    case SendingResult(result) => s.sent == [Created] && s.answer.Some? && result == OutcomeOf(s.answer.value)
    case Finished =>
      || (|s.sent| == 1 && s.sent[0].CreateFailed?)
      || (s.sent == [Created] && !ReceiverAlive(s))
      || (s.answer.Some? && s.sent == [Created, Connected(OutcomeOf(s.answer.value))])
  }

  /** The caller has the helper's last word. */
  predicate Reported(s: State, result: Outcome) {
    && s.helper == Finished && s.sent == [Created, Connected(result)]
    && s.answer.Some? && result == OutcomeOf(s.answer.value)
  }

  predicate HandleExists(s: State) { s.helper == SendingCreated || (s.sent != [] && s.sent[0] == Created) }

  /** Who answers for the handle, by where the caller is. */
  predicate CallerState(s: State) {
    match s.caller
    case AwaitingCreate => s.received == 0 && s.closed == 0
    case AwaitingConnect => s.received == 1 && s.closed == 0 && s.created
    case Grace => s.received == 1 && s.closed == 1 && s.created
    case ReturnedFile => s.closed == 0 && s.created && Reported(s, Established)
    case ReturnedError(NotCreated(code)) => s.closed == 0 && !s.created && s.sent == [CreateFailed(code)]
    case ReturnedError(ConnectFailed(code)) => s.closed == 1 && s.created && Reported(s, Broken(code))
    case ReturnedError(Interrupted) => s.closed == 1 && s.created
    case ReturnedError(_) => false
  }

  predicate Inv(s: State) {
    && SentSoFar(s) && CallerState(s) && s.received <= |s.sent|
    && (s.created <==> HandleExists(s))
    && (s.received == 0 ==> s.caller == AwaitingCreate)
  }

  lemma HelperStepKeepsInv(s: State, r: State)
    requires Inv(s) && HelperStep(s, r)
    ensures Inv(r)
  {
    if s.helper.SendingResult? && ReceiverAlive(s) {
      assert r.sent == [Created, Connected(s.helper.result)];
    }
  }

  lemma CallerStepKeepsInv(s: State, r: State)
    requires Inv(s) && CallerStep(s, r)
    ensures Inv(r)
  {
    if s.received == 1 && MessageReady(s) {
      assert s.sent[1] == Connected(OutcomeOf(s.answer.value));
    }
  }

  lemma {:induction false} RunKeepsInv(states: seq<State>, k: nat)
    requires IsRun(states) && k < |states|
    ensures Inv(states[k])
  {
    if k > 0 {
      RunKeepsInv(states, k - 1);
      assert Step(states[k - 1], states[k - 1 + 1]);
      if HelperStep(states[k - 1], states[k]) {
        HelperStepKeepsInv(states[k - 1], states[k]);
      } else {
        CallerStepKeepsInv(states[k - 1], states[k]);
      }
    }
  }

  /** In every interleaving: a created handle ends inside the returned file or closed exactly
      once, and is never closed twice or closed under the file. */
  lemma HandleEndsExactlyOnce(states: seq<State>, k: nat)
    requires IsRun(states) && k < |states|
    ensures var s := states[k];
            && s.closed <= 1
            && (s.caller.ReturnedFile? ==> s.created && s.closed == 0)
            && (s.caller.ReturnedError? ==> (s.closed == 1 <==> s.created))
  {
    RunKeepsInv(states, k);
  }

  /** The file is returned only when the connect call succeeded or answered that a writer was connected
      already; every other answer is returned as the error it is, and an interrupt is the only way to
      return before the answer on a created pipe. */
  lemma SuccessOnlyWhenConnected(states: seq<State>, k: nat)
    requires IsRun(states) && k < |states|
    ensures var s := states[k];
            && (s.caller.ReturnedFile? ==> s.answer in {Some(Succeeded), Some(Failed(PIPE_CONNECTED))})
            && (s.caller.ReturnedError? && s.created && s.caller.why != Interrupted ==>
                 s.caller.why.ConnectFailed? && s.caller.why.code != PIPE_CONNECTED
                 && s.answer == Some(Failed(s.caller.why.code)))
            && (s.caller.ReturnedError? && !s.created ==> s.caller.why.NotCreated?)
  {
    RunKeepsInv(states, k);
  }

  /** The arms for messages out of order and for a vanished helper are never taken, and the
      helper never finds the channel closed when it announces the handle. */
  lemma DefensiveArmsAreDead(states: seq<State>, k: nat)
    requires IsRun(states) && k < |states|
    ensures var s := states[k];
            && s.caller !in {ReturnedError(CreateThreadExited), ReturnedError(ProtocolError),
                             ReturnedError(ConnectThreadExited)}
            && (s.helper == SendingCreated ==> ReceiverAlive(s))
  {
    RunKeepsInv(states, k);
  }

  /** Nobody waits for ever on a helper that is done: its last message is there to take. */
  lemma CallerIsNeverStuck(states: seq<State>, k: nat)
    requires IsRun(states) && k < |states|
    requires states[k].helper == Finished && ReceiverAlive(states[k])
    ensures MessageReady(states[k]) || states[k].caller == Grace
    ensures exists r :: CallerStep(states[k], r) && (!ReceiverAlive(r) || r.received > states[k].received)
  {
    RunKeepsInv(states, k);
    var s := states[k];
    if s.caller == AwaitingConnect {
      assert CallerStep(s, TakeResult(s));
    } else if s.caller == Grace {
      assert CallerStep(s, s.(caller := ReturnedError(Interrupted)));
    } else if s.sent[0] == Created {
      assert CallerStep(s, s.(received := 1, caller := AwaitingConnect));
    } else {
      assert CallerStep(s, s.(received := 1, caller := ReturnedError(NotCreated(s.sent[0].code))));
    }
  }

  /** An interrupt may close the handle before the helper has begun to wait on it. */
  lemma InterruptCanOvertakeTheConnect()
    ensures exists states: seq<State> ::
              IsRun(states) && states[|states| - 1].helper == Connecting && states[|states| - 1].closed == 1
  {
    var s1 := State(SendingCreated, AwaitingCreate, [], 0, true, 0, None);
    var s2 := State(Connecting, AwaitingCreate, [Created], 0, true, 0, None);
    var s3 := State(Connecting, AwaitingConnect, [Created], 1, true, 0, None);
    var s4 := State(Connecting, Grace, [Created], 1, true, 1, None);
    assert Step(START, s1) && Step(s1, s2) && Step(s2, s3) && Step(s3, s4);
    var states := [START, s1, s2, s3, s4];
    assert IsRun(states);
  }
}
