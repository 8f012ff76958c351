/** One controller and one worker as two processes over two byte channels, every
  * interleaving and every chunking. Handshakes do not fail here: channels lose nothing and
  * no read times out. */
module TicketProtocol {
  import opened Wrappers
  import opened Frames
  import opened Tickets
  import opened TicketCodec
  import opened TicketNodes

  datatype Env = Env(serializer: JsonText, handlers: map<string, Handler>, longHandlers: set<string>) {
    function Answer(t: TicketInfo): TicketInfo {
      Respond(handlers, longHandlers, t)
    }

    /** Both frames of the exchange have 32-bit sizes. */
    predicate Fits(t: TicketInfo) {
      && |serializer.Bytes(t)| < UINT32_COUNT
      && |serializer.Bytes(Answer(Transported(t)))| < UINT32_COUNT
    }
  }

  datatype State = State(
    waiting: Option<TicketInfo>, // the request whose handshake is under way
    cOut: seq<byte>,             // bytes of its frame not written yet
    toWorker: seq<byte>,         // in the channel to the worker
    wBuf: seq<byte>,             // in the worker's read buffer
    wOut: seq<byte>,             // bytes of a response not written yet
    toController: seq<byte>,
    cBuf: seq<byte>,
    issued: seq<TicketInfo>,     // requests begun
    handled: seq<TicketInfo>,    // tickets the worker took from its stream
    answered: seq<TicketInfo>,   // responses the worker built
    outcomes: seq<Expected<TicketInfo>>) // what each handshake returned

  const START := State(None, [], [], [], [], [], [], [], [], [], [])

  datatype Step =
    | Begin(request: TicketInfo)
    | ControllerWrites(n: nat)
    | WorkerReceives(n: nat)
    | WorkerHandles
    | WorkerWrites(n: nat)
    | ControllerReceives(n: nat)
    | ControllerReturns

  predicate Enabled(env: Env, s: State, step: Step) {
    match step
    case Begin(t) => s.waiting.None? && env.Fits(t)
    case ControllerWrites(n) => 0 < n <= |s.cOut|
    case WorkerReceives(n) => s.wOut == [] && 0 < n <= |s.toWorker|
    case WorkerHandles => s.wOut == [] && ParseFrame(s.wBuf).Some?
    case WorkerWrites(n) => 0 < n <= |s.wOut|
    case ControllerReceives(n) => s.waiting.Some? && s.cOut == [] && 0 < n <= |s.toController|
    case ControllerReturns => s.waiting.Some? && s.cOut == [] && ParseFrame(s.cBuf).Some?
  }

  function After(env: Env, s: State, step: Step): State
    requires Enabled(env, s, step)
  {
    match step
    case Begin(t) => s.(waiting := Some(t), cOut := env.serializer.Framed(t), issued := s.issued + [t])
    case ControllerWrites(n) => s.(toWorker := s.toWorker + s.cOut[..n], cOut := s.cOut[n..])
    case WorkerReceives(n) => s.(wBuf := s.wBuf + s.toWorker[..n], toWorker := s.toWorker[n..])
    case WorkerHandles =>
      var (frame, rest) := ParseFrame(s.wBuf).value;
      // A frame that does not decode is dropped without an answer.
      if env.serializer.Ticket(frame).Failure? then s.(wBuf := rest)
      else
        var t := env.serializer.Ticket(frame).value;
        s.(wBuf := rest, wOut := env.serializer.Framed(env.Answer(t)),
           handled := s.handled + [t], answered := s.answered + [env.Answer(t)])
    case WorkerWrites(n) => s.(toController := s.toController + s.wOut[..n], wOut := s.wOut[n..])
    case ControllerReceives(n) => s.(cBuf := s.cBuf + s.toController[..n], toController := s.toController[n..])
    case ControllerReturns =>
      var (frame, rest) := ParseFrame(s.cBuf).value;
      s.(waiting := None, cBuf := rest, outcomes := s.outcomes + [env.serializer.Ticket(frame)])
  }

  ghost predicate Next(env: Env, s: State, s': State) {
    exists step :: Enabled(env, s, step) && s' == After(env, s, step)
  }

  ghost predicate Behavior(env: Env, run: seq<State>) {
    && run != [] && run[0] == START
    && forall i :: 0 <= i < |run| - 1 ==> Next(env, run[i], run[i + 1])
  }

  // ---- The inductive invariant ----

  ghost predicate Quiet(s: State) {
    && s.cOut == [] && s.toWorker == [] && s.wBuf == [] && s.wOut == [] && s.toController == [] && s.cBuf == []
    && |s.handled| == |s.issued|
  }

  /** The request is on its way: its frame is spread over the outward path. */
  ghost predicate Outward(env: Env, s: State) {
    && s.waiting.Some? && env.Fits(s.waiting.value)
    && s.wBuf + s.toWorker + s.cOut == env.serializer.Framed(s.waiting.value)
    && s.wOut == [] && s.toController == [] && s.cBuf == []
    && s.issued != [] && s.issued[|s.issued| - 1] == s.waiting.value
    && |s.handled| == |s.issued| - 1
  }

  /** The response is on its way back. */
  ghost predicate Homeward(env: Env, s: State) {
    && s.waiting.Some? && env.Fits(s.waiting.value)
    && s.cOut == [] && s.toWorker == [] && s.wBuf == []
    && s.cBuf + s.toController + s.wOut == env.serializer.Framed(env.Answer(Transported(s.waiting.value)))
    && s.issued != [] && s.issued[|s.issued| - 1] == s.waiting.value
    && |s.handled| == |s.issued|
  }

  /** Requests, tickets handled, answers and outcomes correspond one to one, in order. */
  ghost predicate Paired(env: Env, s: State) {
    && |s.outcomes| <= |s.answered| == |s.handled| <= |s.issued|
    && |s.issued| == |s.outcomes| + (if s.waiting.Some? then 1 else 0)
    && (forall i :: 0 <= i < |s.handled| ==> s.handled[i] == Transported(s.issued[i]))
    && (forall i :: 0 <= i < |s.answered| ==> s.answered[i] == env.Answer(s.handled[i]))
    && forall i :: 0 <= i < |s.outcomes| ==> s.outcomes[i] == Success(Transported(s.answered[i]))
  }

  ghost predicate Inv(env: Env, s: State) {
    && Paired(env, s)
    && ((s.waiting.None? && Quiet(s)) || Outward(env, s) || Homeward(env, s))
  }

  /** A frame spread over a path can be parsed only once it is all in the reader's buffer. */
  lemma ParsedOnlyWhole(env: Env, t: TicketInfo, buffer: seq<byte>, channel: seq<byte>, unwritten: seq<byte>)
    requires env.serializer.Faithful() && |env.serializer.Bytes(t)| < UINT32_COUNT
    requires buffer + channel + unwritten == env.serializer.Framed(t)
    ensures ParseFrame(buffer).Some? <==> channel == [] && unwritten == []
    ensures ParseFrame(buffer).Some? ==> ParseFrame(buffer) == Some((env.serializer.Bytes(t), []))
  {
    if channel + unwritten == [] {
      assert channel == [] && unwritten == [];
      assert buffer == env.serializer.Framed(t);
      FrameAlone(env.serializer, t);
    } else {
      assert buffer + (channel + unwritten) == env.serializer.Framed(t);
      NoFrameInProperPrefix(env.serializer.Bytes(t), buffer, channel + unwritten);
    }
  }

  lemma OutwardMove(env: Env, s: State, step: Step)
    requires Paired(env, s) && Outward(env, s) && Enabled(env, s, step)
    requires step.ControllerWrites? || step.WorkerReceives?
    ensures Paired(env, After(env, s, step)) && Outward(env, After(env, s, step))
  {
  }

  lemma HomewardMove(env: Env, s: State, step: Step)
    requires Paired(env, s) && Homeward(env, s) && Enabled(env, s, step)
    requires step.WorkerWrites? || step.ControllerReceives?
    ensures Paired(env, After(env, s, step)) && Homeward(env, After(env, s, step))
  {
    hide Respond, ParseFrame, EncodeFrame, JsonText.Bytes, JsonText.Framed;
  }

  lemma WorkerTurn(env: Env, s: State)
    requires env.serializer.Faithful() && Paired(env, s) && Outward(env, s) && Enabled(env, s, WorkerHandles)
    ensures Paired(env, After(env, s, WorkerHandles)) && Homeward(env, After(env, s, WorkerHandles))
  {
    hide Respond, ParseFrame, EncodeFrame, DecodeTicket, EncodeTicket, JsonText.Ticket;
    ParsedOnlyWhole(env, s.waiting.value, s.wBuf, s.toWorker, s.cOut);
    FrameAlone(env.serializer, s.waiting.value);
  }

  lemma ControllerTurn(env: Env, s: State)
    requires env.serializer.Faithful() && Paired(env, s) && Homeward(env, s) && Enabled(env, s, ControllerReturns)
    ensures Paired(env, After(env, s, ControllerReturns)) && Quiet(After(env, s, ControllerReturns))
  {
    hide Respond, ParseFrame, EncodeFrame, DecodeTicket, EncodeTicket, JsonText.Ticket;
    var answer := env.Answer(Transported(s.waiting.value));
    ParsedOnlyWhole(env, answer, s.cBuf, s.toController, s.wOut);
    FrameAlone(env.serializer, answer);
    assert s.answered[|s.outcomes|] == answer;
  }

  lemma StepKeepsInv(env: Env, s: State, step: Step)
    requires env.serializer.Faithful() && Inv(env, s) && Enabled(env, s, step)
    ensures Inv(env, After(env, s, step))
  {
    assert ParseFrame([]).None?;
    match step
    case Begin(_) => assert Outward(env, After(env, s, step));
    case ControllerWrites(_) => OutwardMove(env, s, step);
    case WorkerReceives(_) => OutwardMove(env, s, step);
    case WorkerHandles => WorkerTurn(env, s);
    case WorkerWrites(_) => HomewardMove(env, s, step);
    case ControllerReceives(_) => HomewardMove(env, s, step);
    case ControllerReturns => ControllerTurn(env, s);
  }

  lemma {:induction false} ReachableInv(env: Env, run: seq<State>, i: nat)
    requires env.serializer.Faithful() && Behavior(env, run) && i < |run|
    ensures Inv(env, run[i])
  {
    if i > 0 {
      ReachableInv(env, run, i - 1);
      assert Next(env, run[i - 1], run[i - 1 + 1]);
      var step :| Enabled(env, run[i - 1], step) && run[i] == After(env, run[i - 1], step);
      StepKeepsInv(env, run[i - 1], step);
    }
  }

  // ---- What it means ----

  /** Request and response stay paired in every reachable state, although the controller
    * never compares ids: at most one request is outstanding, responses are one per handled
    * request in order, and each carries its request's id, type and command. */
  lemma RequestsAndResponsesPair(env: Env, run: seq<State>, n: nat)
    requires env.serializer.Faithful() && Behavior(env, run) && n < |run|
    ensures var s := run[n];
            && |s.outcomes| <= |s.answered| == |s.handled| <= |s.issued| <= |s.outcomes| + 1
            && (forall i :: 0 <= i < |s.handled| ==> s.handled[i] == Transported(s.issued[i]))
            && forall i :: 0 <= i < |s.outcomes| ==>
                 && s.outcomes[i].Success?
                 && s.outcomes[i].value.ticketId == s.issued[i].ticketId
                 && s.outcomes[i].value.kind == s.issued[i].kind
                 && s.outcomes[i].value.command == s.issued[i].command
  {
    ReachableInv(env, run, n);
  }

  /** Every call of every run returns what the handler returns when called in place. */
  lemma RemoteCallsAreLocalCalls(env: Env, run: seq<State>, n: nat, i: nat,
                                 id: string, command: string, payload: string, metadata: string, timeout: int)
    requires env.serializer.Faithful() && Behavior(env, run) && n < |run| && i < |run[n].outcomes|
    requires i < |run[n].issued| && run[n].issued[i] == RequestTicket(id, command, payload, metadata, timeout)
    ensures SendOutcome(run[n].outcomes[i])
         == LocalCall(env.handlers, env.longHandlers, RequestContext(id, command, payload, metadata, Wrap32(timeout)))
  {
    ReachableInv(env, run, n);
    assert run[n].answered[i] == env.Answer(run[n].handled[i]);
    ExchangeIsLocalCall(env.handlers, env.longHandlers, id, command, payload, metadata, timeout);
  }

  /** A call yields r exactly when the command has no long handler and a handler that, on the
    * same id, payload and metadata, yields r. */
  lemma CallSucceedsExactly(env: Env, run: seq<State>, n: nat, i: nat,
                            id: string, command: string, payload: string, metadata: string, timeout: int, r: string)
    requires env.serializer.Faithful() && Behavior(env, run) && n < |run| && i < |run[n].outcomes|
    requires i < |run[n].issued| && run[n].issued[i] == RequestTicket(id, command, payload, metadata, timeout)
    requires InInt32(timeout)
    ensures SendOutcome(run[n].outcomes[i]) == Success(r) <==>
              && command !in env.longHandlers && command in env.handlers
              && var data := if metadata == "" then map[] else map["metadata" := metadata];
                 env.handlers[command](TicketContext(id, SHORT, command, payload, data, timeout)) == Success(r)
  {
    RemoteCallsAreLocalCalls(env, run, n, i, id, command, payload, metadata, timeout);
  }

  // ---- Termination of calls ----

  /** Hops and turns left before the call under way returns. */
  ghost function Remaining(env: Env, s: State): nat {
    if s.waiting.None? then 0
    else if |s.handled| < |s.issued| then
      2 * |s.cOut| + |s.toWorker| + 1 + 2 * |env.serializer.Framed(env.Answer(Transported(s.waiting.value)))| + 1
    else 2 * |s.wOut| + |s.toController| + 1
  }

  /** While a call is under way something can always happen, and whatever happens brings it
    * nearer to its end. */
  lemma CallsProgress(env: Env, s: State)
    requires env.serializer.Faithful() && Inv(env, s) && s.waiting.Some?
    ensures exists step :: Enabled(env, s, step)
    ensures forall step :: Enabled(env, s, step) ==> Remaining(env, After(env, s, step)) < Remaining(env, s)
  {
    forall step | Enabled(env, s, step)
      ensures Remaining(env, After(env, s, step)) < Remaining(env, s)
    {
      StepShortens(env, s, step);
    }
    if Outward(env, s) {
      ParsedOnlyWhole(env, s.waiting.value, s.wBuf, s.toWorker, s.cOut);
      assert Enabled(env, s, if s.cOut != [] then ControllerWrites(1)
                             else if s.toWorker != [] then WorkerReceives(1) else WorkerHandles);
    } else {
      ParsedOnlyWhole(env, env.Answer(Transported(s.waiting.value)), s.cBuf, s.toController, s.wOut);
      assert Enabled(env, s, if s.wOut != [] then WorkerWrites(1)
                             else if s.toController != [] then ControllerReceives(1) else ControllerReturns);
    }
  }

  lemma StepShortens(env: Env, s: State, step: Step)
    requires env.serializer.Faithful() && Inv(env, s) && s.waiting.Some? && Enabled(env, s, step)
    ensures Remaining(env, After(env, s, step)) < Remaining(env, s)
  {
    assert ParseFrame([]).None?;
    if step.WorkerHandles? {
      assert Outward(env, s);
      ParsedOnlyWhole(env, s.waiting.value, s.wBuf, s.toWorker, s.cOut);
      FrameAlone(env.serializer, s.waiting.value);
    }
  }

  /** So in any run, under any scheduling, a call is over after that many further steps. */
  lemma {:induction false} CallsReturn(env: Env, run: seq<State>, i: nat, j: nat)
    requires env.serializer.Faithful() && Behavior(env, run) && i <= j < |run|
    requires forall k :: i <= k <= j ==> run[k].waiting.Some?
    ensures Remaining(env, run[j]) + (j - i) <= Remaining(env, run[i])
    decreases j - i
  {
    if i < j {
      CallsReturn(env, run, i, j - 1);
      ReachableInv(env, run, j - 1);
      assert Next(env, run[j - 1], run[j - 1 + 1]);
      var step :| Enabled(env, run[j - 1], step) && run[j] == After(env, run[j - 1], step);
      StepShortens(env, run[j - 1], step);
    }
  }
}
