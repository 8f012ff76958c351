/** The control connection: the server's turn on a command line, and the client's exchange of
  * a command for a reply. */
module FtpLinks {
  import opened Wrappers
  import opened Sequences
  import opened Sockets
  import opened Decimals
  import opened FtpReplies
  import opened FtpCommands
  import opened FtpPaths
  import opened Pasv
  import opened FtpServers

  /** Lines the server may answer a command with: any text, but the right code, the address
    * after PASV and the type fact after MLST. */
  ghost predicate Answers(lines: seq<string>, s: ServerState, c: Command, code: nat, octets: seq<nat>)
    requires |octets| == 6
  {
    && WellFormed(lines) && ReplyCode(lines) == code
    && (c.verb == PASV && code == 227 ==> PasvEndpoint(Wire(lines)) == Some(EndpointOf(octets)))
    && (c.verb == MLST && code == 250 ==> TypeFact(Wire(lines)) == Some(IsDir(s.tree, StepInto(s.cwd, c.arg))))
  }

  predicate Octets(octets: seq<nat>) {
    |octets| == 6 && forall o <- octets :: o <= 255
  }

  predicate Sendable(c: Command) {
    c.verb != Unknown && CleanText(c.arg) && (TakesName(c.verb) || c.arg == "")
  }

  /** The second reply of a transfer the server runs by itself. */
  predicate SendsAtOnce(c: Command, code: nat) {
    (c.verb == LIST || c.verb == RETR) && code == 150
  }

  /** The codes of the replies a command brings about. */
  function CodesOf(s: ServerState, c: Command, allows: Policy): (codes: seq<nat>)
    ensures codes != []
  {
    var code := EffectOf(s, c, allows).code;
    if SendsAtOnce(c, code) then [code, 226] else [code]
  }

  ghost function Codes(queue: seq<seq<string>>): (codes: seq<nat>)
    requires forall lines <- queue :: WellFormed(lines)
    ensures |codes| == |queue|
  {
    seq(|queue|, i requires 0 <= i < |queue| => ReplyCode(queue[i]))
  }

  /** What one command adds to the replies waiting. */
  lemma CodesGrow(waiting: seq<seq<string>>, added: seq<seq<string>>, s: ServerState, c: Command, allows: Policy)
    requires forall lines <- waiting + added :: WellFormed(lines)
    requires var code := EffectOf(s, c, allows).code;
             && |added| == (if SendsAtOnce(c, code) then 2 else 1) && ReplyCode(added[0]) == code
             && (SendsAtOnce(c, code) ==> ReplyCode(added[1]) == 226)
    ensures forall lines <- waiting :: WellFormed(lines)
    ensures Codes(waiting + added) == Codes(waiting) + CodesOf(s, c, allows)
  {
    hide WellFormed, ReplyCode, EffectOf;
    assert forall i :: 0 <= i < |waiting| ==> (waiting + added)[i] == waiting[i];
    assert forall i :: 0 <= i < |added| ==> (waiting + added)[|waiting| + i] == added[i];
  }

  lemma FirstCode(queue: seq<seq<string>>)
    requires queue != [] && forall lines <- queue :: WellFormed(lines)
    ensures Codes(queue) == [ReplyCode(queue[0])] + Codes(queue[1..])
  {
    hide WellFormed, ReplyCode;
  }

  /** With no other reply waiting, what is left unread is the second reply of a transfer. */
  lemma CodesAlone(first: nat, queue: seq<seq<string>>, s: ServerState, c: Command, allows: Policy)
    requires forall lines <- queue :: WellFormed(lines)
    requires [first] + Codes(queue) == CodesOf(s, c, allows)
    ensures first == EffectOf(s, c, allows).code
    ensures if SendsAtOnce(c, first) then |queue| == 1 && ReplyCode(queue[0]) == 226 else queue == []
  {
    hide WellFormed, ReplyCode, EffectOf;
    assert first == CodesOf(s, c, allows)[0] && Codes(queue) == CodesOf(s, c, allows)[1..];
    assert queue != [] ==> Codes(queue)[0] == ReplyCode(queue[0]);
  }

  class FtpServer {
    const allows: Policy
    const listing: (Tree, seq<string>) -> string
    const octets: seq<nat>
    const toClient: Channel<char>
    const fromClient: Channel<char>
    const dataOut: Channel<char>   // the data connection, server to client
    const dataIn: Channel<char>
    var state: ServerState
    ghost var queue: seq<seq<string>>  // replies the client has not read

    constructor (allows: Policy, listing: (Tree, seq<string>) -> string, octets: seq<nat>, state: ServerState)
      ensures this.allows == allows && this.listing == listing && this.octets == octets && this.state == state
      ensures queue == [] && fresh(toClient) && fresh(fromClient) && fresh(dataOut) && fresh(dataIn)
      ensures toClient.inFlight == [] && fromClient.inFlight == [] && toClient.reliable && fromClient.reliable
      ensures dataOut.reliable && dataIn.reliable && Distinct()
    {
      this.allows, this.listing, this.octets, this.state := allows, listing, octets, state;
      queue := [];
      toClient := new Channel<char>(true, "", false);
      fromClient := new Channel<char>(true, "", false);
      dataOut := new Channel<char>(true, "", false);
      dataIn := new Channel<char>(true, "", false);
    }

    predicate Distinct() {
      && toClient != fromClient && toClient != dataOut && toClient != dataIn
      && fromClient != dataOut && fromClient != dataIn && dataOut != dataIn
    }

    function Content(c: Command): string
      reads this
    {
      var p := state.cwd + [c.arg];
      if c.verb == LIST then listing(state.tree, state.cwd)
      else if IsFile(state.tree, p) then state.tree[p].content
      else ""
    }

    /** The server's choice of words. */
    method Compose(c: Command, code: nat) returns (lines: seq<string>)
      requires 100 <= code < 1000 && Octets(octets)
      ensures Answers(lines, state, c, code, octets)
    {
      if c.verb == PASV && code == 227 {
        lines := ComposePasv();
      } else if c.verb == MLST && code == 250 {
        lines := ComposeMlst(IsDir(state.tree, StepInto(state.cwd, c.arg)));
      } else {
        lines := *;
        if !WellFormed(lines) || ReplyCode(lines) != code {
          OneLineReply(code, "");
          lines := [CodeText(code) + " " + ""];
        }
      }
    }

    method ComposePasv() returns (lines: seq<string>)
      requires Octets(octets)
      ensures WellFormed(lines) && ReplyCode(lines) == 227 && PasvEndpoint(Wire(lines)) == Some(EndpointOf(octets))
    {
      var before: string := *;
      var after: string := *;
      var text := PasvText(before, octets, after);
      if !CleanText(text) || |text| > 1000 || '(' in before {
        before, after := "", "";
        text := PasvText(before, octets, after);
        ShortPasvText(octets);
      }
      OneLineReply(227, text);
      lines := [CodeText(227) + " " + text];
      PasvLineIsRead(before, octets, after);
    }

    method ComposeMlst(isDirectory: bool) returns (lines: seq<string>)
      ensures WellFormed(lines) && ReplyCode(lines) == 250 && TypeFact(Wire(lines)) == Some(isDirectory)
    {
      var first, before, after, last: string := *, *, *, *;
      if !MlstTexts(first, before, after, last) {
        first, before, after, last := "", "", "", "";
        PlainMlstTexts();
      }
      lines := MlstLines(first, before, isDirectory, after, last);
      MlstReply(first, before, isDirectory, after, last);
    }

    method Emit(lines: seq<string>)
      requires WellFormed(lines)
      modifies this`queue, toClient`inFlight
      ensures queue == old(queue) + [lines]
      ensures toClient.inFlight == old(toClient.inFlight) + Wire(lines)
    {
      queue := queue + [lines];
      toClient.inFlight := toClient.inFlight + Wire(lines);
    }

    /** The server's turn: one command line is read, obeyed and answered, behind the replies
      * not read yet. */
    method Serve(ghost c: Command)
      requires Octets(octets) && Distinct() && Sendable(c)
      requires fromClient.inFlight == CommandText(c) + CRLF
      modifies this`state, this`queue, toClient`inFlight, fromClient`inFlight, dataOut`inFlight, dataOut`closed
      ensures fromClient.inFlight == ""
      ensures state == EffectOf(old(state), c, allows).state
      ensures var code, n := EffectOf(old(state), c, allows).code, |old(queue)|;
              && |queue| == n + (if SendsAtOnce(c, code) then 2 else 1) && queue[..n] == old(queue)
              && Answers(queue[n], old(state), c, code, octets)
              && toClient.inFlight == old(toClient.inFlight) + ConcatMap(queue[n..], Wire)
              && if SendsAtOnce(c, code)
                 then WellFormed(queue[n + 1]) && ReplyCode(queue[n + 1]) == 226
                      && dataOut.inFlight == old(dataOut.inFlight) + old(Content(c)) && dataOut.closed
                 else dataOut.inFlight == old(dataOut.inFlight) && dataOut.closed == old(dataOut.closed)
    {
      hide WellFormed, Wire, Answers, EffectOf, Content, ReplyCode, ConcatMap, CommandText, Sendable;
      var command := TakeLine(c);
      var effect := EffectOf(state, command, allows);
      EffectCodes(state, command, allows);
      var content := Content(command);
      var lines := Compose(command, effect.code);
      AnswersTell(lines, state, command, effect.code, octets);
      Emit(lines);
      if SendsAtOnce(command, effect.code) {
        dataOut.inFlight := dataOut.inFlight + content;
        dataOut.closed := true;
        var final := ComposeDone();
        Emit(final);
      }
      state := effect.state;
      ConcatOneOrTwo(queue[|old(queue)|..]);
    }

    method TakeLine(ghost c: Command) returns (command: Command)
      requires Sendable(c) && fromClient.inFlight == CommandText(c) + CRLF
      modifies fromClient`inFlight
      ensures command == c && fromClient.inFlight == ""
    {
      hide Find, ParseCommand, CommandText;
      CommandLineEnds(c);
      var end := Find(fromClient.inFlight, CRLF).value;
      assert fromClient.inFlight[..end] == CommandText(c);
      command := ParseCommand(fromClient.inFlight[..end]);
      fromClient.inFlight := fromClient.inFlight[end + 2..];
    }

    method ComposeDone() returns (lines: seq<string>)
      requires Octets(octets)
      ensures WellFormed(lines) && ReplyCode(lines) == 226
    {
      lines := Compose(Command(Unknown, ""), 226);
    }

    /** The server's turn when the client has closed the data connection of an upload. */
    method FinishUpload()
      requires Octets(octets) && Distinct() && state.uploading.Some?
      modifies this`state, this`queue, toClient`inFlight
      ensures state == old(state).(tree := old(state.tree)[old(state.uploading.value) := File(dataIn.inFlight)],
                                   uploading := None)
      ensures |queue| == |old(queue)| + 1 && queue[..|old(queue)|] == old(queue)
      ensures var final := queue[|old(queue)|];
              WellFormed(final) && ReplyCode(final) == 226 && toClient.inFlight == old(toClient.inFlight) + Wire(final)
    {
      state := state.(tree := state.tree[state.uploading.value := File(dataIn.inFlight)], uploading := None);
      var final := ComposeDone();
      Emit(final);
    }

    /** A data connection to the announced address; the previous one is over. */
    method Accept(endpoint: Endpoint) returns (ok: bool)
      requires Octets(octets) && Distinct()
      modifies dataOut`inFlight, dataOut`closed, dataIn`inFlight, dataIn`closed
      ensures ok == (endpoint == EndpointOf(octets))
      ensures ok ==> dataOut.inFlight == "" && !dataOut.closed && dataIn.inFlight == "" && !dataIn.closed
    {
      ok := endpoint == EndpointOf(octets);
      if ok {
        dataOut.inFlight, dataOut.closed := "", false;
        dataIn.inFlight, dataIn.closed := "", false;
      }
    }
  }

  lemma EffectCodes(s: ServerState, c: Command, allows: Policy)
    ensures 100 <= EffectOf(s, c, allows).code < 1000
    ensures match c.verb
            case CWD | RMD | DELE | MLST => EffectOf(s, c, allows).code in {250, 550}
            case MKD => EffectOf(s, c, allows).code in {257, 550}
            case SIZE => EffectOf(s, c, allows).code in {213, 550}
            case PASV => EffectOf(s, c, allows).code in {227, 550}
            case LIST | RETR | STOR => EffectOf(s, c, allows).code in {150, 550}
            case Unknown => EffectOf(s, c, allows).code == 500
  {
  }

  lemma AnswersTell(lines: seq<string>, s: ServerState, c: Command, code: nat, octets: seq<nat>)
    requires |octets| == 6 && Answers(lines, s, c, code, octets)
    ensures WellFormed(lines) && ReplyCode(lines) == code
    ensures c.verb == PASV && code == 227 ==> PasvEndpoint(Wire(lines)) == Some(EndpointOf(octets))
    ensures c.verb == MLST && code == 250 ==> TypeFact(Wire(lines)) == Some(IsDir(s.tree, StepInto(s.cwd, c.arg)))
  {
  }

  lemma ConcatOneOrTwo(queue: seq<seq<string>>)
    requires 1 <= |queue| <= 2
    ensures ConcatMap(queue, Wire) == if |queue| == 1 then Wire(queue[0]) else Wire(queue[0]) + Wire(queue[1])
  {
  }

  /** The name of an entry never has a line break, so its command line ends where it should. */
  lemma CommandLineEnds(c: Command)
    requires Sendable(c)
    ensures Find(CommandText(c) + CRLF, CRLF) == Some(|CommandText(c)|)
    ensures ParseCommand(CommandText(c)) == c
  {
    VerbTextsDiffer(c.verb);
    CommandIsRead(c);
    FindLineEnd(CommandText(c), "");
    assert CommandText(c) + CRLF + "" == CommandText(c) + CRLF;
  }

  lemma {:induction false} JoinedIsShort(octets: seq<nat>)
    requires octets != [] && forall o <- octets :: o <= 255
    ensures |Joined(octets)| <= 4 * |octets| && CleanText(Joined(octets))
    decreases |octets|
  {
    var head := Decimal(octets[0]);
    JoinedStep(octets);
    hide Joined;
    assert octets[0] in octets;
    OctetIsShort(octets[0]);
    if |octets| > 1 {
      assert forall o <- octets[1..] :: o in octets;
      JoinedIsShort(octets[1..]);
    }
  }

  lemma OctetIsShort(o: nat)
    requires o <= 255
    ensures |Decimal(o)| <= 3 && CleanText(Decimal(o))
  {
    DigitsHoldNoMark(o, '\r');
    DigitsHoldNoMark(o, '\n');
    assert o >= 10 ==> Decimal(o) == Decimal(o / 10) + [Digit(o % 10)];
    assert o >= 100 ==> Decimal(o / 10) == Decimal(o / 100) + [Digit(o / 10 % 10)];
  }

  lemma ShortPasvText(octets: seq<nat>)
    requires Octets(octets)
    ensures CleanText(PasvText("", octets, "")) && |PasvText("", octets, "")| <= 1000
  {
    JoinedIsShort(octets);
  }

  lemma PasvLineIsRead(before: string, octets: seq<nat>, after: string)
    requires Octets(octets) && '(' !in before
    requires var text := PasvText(before, octets, after); CleanText(text) && |text| <= 1000
    ensures PasvEndpoint(Wire([CodeText(227) + " " + PasvText(before, octets, after)])) == Some(EndpointOf(octets))
  {
    hide PasvEndpoint, Joined, Wire;
    OneLineReply(227, PasvText(before, octets, after));
    var lead := CodeText(227) + " " + before;
    assert CodeText(227) + " " + PasvText(before, octets, after) + CRLF == PasvText(lead, octets, after + CRLF);
    assert '(' !in lead;
    PasvRoundTrip(lead, octets, after + CRLF);
  }

  lemma PlainMlstTexts()
    ensures MlstTexts("", "", "", "")
  {
    var s := "250-" + "" + CRLF + " " + "";
    assert s == "250-\r\n ";
    forall q: nat | q < |s|
      ensures !OccursAt(s, TYPE_FACT, q)
    {
      if q + 5 <= |s| {
        assert s[q..q + 5][0] == s[q] != 't';
      }
    }
  }

  /** The client's end of the control connection. */
  class ControlLink {
    const socket: Socket<char>
    const server: FtpServer
    ghost var log: seq<Command>  // commands sent

    constructor (server: FtpServer)
      requires Octets(server.octets) && server.Distinct() && ValidState(server.state) && server.queue == []
      requires server.toClient.inFlight == [] && server.fromClient.inFlight == []
      requires server.toClient.reliable && server.fromClient.reliable
      requires server.dataOut.reliable && server.dataIn.reliable
      ensures Linked() && this.server == server && log == [] && fresh(socket)
    {
      this.server := server;
      socket := new Socket<char>(server.toClient, server.fromClient, '\0');
      log := [];
    }

    /** The wiring, and the control channel in terms of replies: what is pending is exactly
      * the replies not read yet. */
    ghost predicate Linked()
      reads this, socket, server, server.toClient, server.fromClient
    {
      && socket.inbound == server.toClient && socket.outbound == server.fromClient
      && server.Distinct() && Octets(server.octets)
      && server.toClient.reliable && server.fromClient.reliable && server.dataOut.reliable && server.dataIn.reliable
      && socket.connected && socket.Conserved()
      && server.fromClient.inFlight == ""
      && socket.Pending() == ConcatMap(server.queue, Wire)
      && (forall lines <- server.queue :: WellFormed(lines))
      && ValidState(server.state)
    }

    /** The codes of the replies not read yet. */
    ghost function Unread(): seq<nat>
      reads this, socket, server, server.toClient, server.fromClient
      requires Linked()
    {
      Codes(server.queue)
    }

    /** No reply is waiting to be read. */
    ghost predicate InStep()
      reads this, socket, server, server.toClient, server.fromClient
    {
      Linked() && server.queue == []
    }

    lemma WiringAndState()
      requires Linked()
      ensures server.Distinct() && ValidState(server.state)
    {
    }

    method ReceiveReply() returns (r: Expected<Answer>)
      requires Linked() && server.queue != []
      modifies socket, server.toClient`inFlight, server`queue
      ensures Linked() && server.queue == old(server.queue)[1..]
      ensures forall lines <- server.queue :: WellFormed(lines)
      ensures r == Success(Answer(Wire(old(server.queue)[0]), ReplyCode(old(server.queue)[0])))
      ensures server.state == old(server.state)
    {
      hide WellFormed, Wire, ReadReply, AnswerOf, ReplyCode, ValidState;
      ghost var replies := server.queue;
      FirstReplyIsRead(replies, "");
      assert ConcatMap(replies, Wire) + "" == ConcatMap(replies, Wire);
      assert ConcatMap(replies[1..], Wire) + "" == ConcatMap(replies[1..], Wire);
      r := ReceiveResponse(socket);
      server.queue := replies[1..];
    }

    method SendCommand(c: Command) returns (r: Expected<()>)
      modifies socket.outbound`inFlight
      ensures socket.connected && socket.outbound.reliable ==> r.Success?
      ensures r.Success? ==> socket.outbound.inFlight == old(socket.outbound.inFlight) + (CommandText(c) + CRLF)
    {
      var sent := socket.WriteAll(CommandText(c) + CRLF);
      if sent.Failure? {
        return Failure(sent.error);
      }
      r := Success(());
    }

    /** The command goes out and the server takes its turn; nothing is read yet. */
    method SendAndServe(c: Command)
      requires Linked() && Sendable(c)
      modifies this`log, server, server.toClient, server.fromClient
      modifies server.dataOut`inFlight, server.dataOut`closed
      ensures Linked() && log == old(log) + [c]
      ensures server.state == EffectOf(old(server.state), c, server.allows).state
      ensures var code, n := EffectOf(old(server.state), c, server.allows).code, |old(server.queue)|;
              && |server.queue| == n + (if SendsAtOnce(c, code) then 2 else 1)
              && server.queue[..n] == old(server.queue)
              && server.Distinct() && Octets(server.octets) && (forall lines <- server.queue :: WellFormed(lines))
              && Answers(server.queue[n], old(server.state), c, code, server.octets)
              && Codes(server.queue) == Codes(old(server.queue)) + CodesOf(old(server.state), c, server.allows)
              && if SendsAtOnce(c, code)
                 then && server.dataOut.inFlight == old(server.dataOut.inFlight) + old(server.Content(c))
                      && server.dataOut.closed
                 else && server.dataOut.inFlight == old(server.dataOut.inFlight)
                      && server.dataOut.closed == old(server.dataOut.closed)
    {
      hide WellFormed, Wire, EffectOf, ReplyCode, ValidState, CommandText, TypeFact, PasvEndpoint, Answers, Codes;
      hide CodesOf, Sendable, SendsAtOnce, ConcatMap;
      log := log + [c];
      var sent := SendCommand(c);
      assert sent.Success?;  // nothing is lost on this connection
      ghost var waiting := server.queue;
      server.Serve(c);
      ghost var before, added := old(server.state), server.queue[|waiting|..];
      EffectKeepsState(before, c, server.allows);
      AnswersTell(added[0], before, c, EffectOf(before, c, server.allows).code, server.octets);
      assert server.queue == waiting + added;
      ConcatMapSplit(waiting, added, Wire);
      CodesGrow(waiting, added, before, c, server.allows);
    }

    /** sendAndReceiveResponse, with the server's turn in between: what is read is the oldest
      * reply not read yet, which is that of the command sent just when no other was waiting. */
    method Exchange(c: Command) returns (r: Expected<Answer>)
      requires Linked() && Sendable(c)
      modifies this`log, socket, server, server.toClient, server.fromClient
      modifies server.dataOut`inFlight, server.dataOut`closed
      ensures Linked() && log == old(log) + [c]
      ensures server.state == EffectOf(old(server.state), c, server.allows).state
      ensures r.Success?
      ensures [r.value.code] + Unread() == old(Unread()) + CodesOf(old(server.state), c, server.allows)
      ensures var code := EffectOf(old(server.state), c, server.allows).code;
              && (old(server.queue) == [] ==>
                    && r.value.code == code
                    && (c.verb == PASV && code == 227 ==>
                          PasvEndpoint(r.value.fullMsg) == Some(EndpointOf(server.octets)))
                    && (c.verb == MLST && code == 250 ==>
                          TypeFact(r.value.fullMsg)
                          == Some(IsDir(old(server.state.tree), StepInto(old(server.state.cwd), c.arg))))
                    && if SendsAtOnce(c, code)
                       then |server.queue| == 1 && ReplyCode(server.queue[0]) == 226
                       else server.queue == [])
              && if SendsAtOnce(c, code)
                 then && server.dataOut.inFlight == old(server.dataOut.inFlight) + old(server.Content(c))
                      && server.dataOut.closed
                 else && server.dataOut.inFlight == old(server.dataOut.inFlight)
                      && server.dataOut.closed == old(server.dataOut.closed)
    {
      hide WellFormed, Wire, EffectOf, ReplyCode, ValidState, CommandText, TypeFact, PasvEndpoint, Answers, Codes;
      hide ControlLink.Linked, CodesOf, SendsAtOnce, Sendable;
      SendAndServe(c);
      ghost var queue, before := server.queue, old(server.state);
      AnswersTell(queue[|old(server.queue)|], before, c, EffectOf(before, c, server.allows).code, server.octets);
      FirstCode(queue);
      r := ReceiveReply();
      if old(server.queue) == [] {
        CodesAlone(r.value.code, server.queue, before, c, server.allows);
      }
    }
  }

  // ---- What unread replies do to later answers ----

  /** The server after commands, one by one. */
  function StateAfter(s: ServerState, commands: seq<Command>, allows: Policy): ServerState {
    if commands == [] then s
    else
      var before := StateAfter(s, commands[..|commands| - 1], allows);
      EffectOf(before, commands[|commands| - 1], allows).state
  }

  /** The codes of all replies they bring about. */
  function RepliesTo(s: ServerState, commands: seq<Command>, allows: Policy): seq<nat> {
    if commands == [] then []
    else
      var sofar, last := commands[..|commands| - 1], commands[|commands| - 1];
      RepliesTo(s, sofar, allows) + CodesOf(StateAfter(s, sofar, allows), last, allows)
  }

  lemma OneMoreCommand(s: ServerState, commands: seq<Command>, c: Command, allows: Policy)
    ensures var before := StateAfter(s, commands, allows);
            && StateAfter(s, commands + [c], allows) == EffectOf(before, c, allows).state
            && RepliesTo(s, commands + [c], allows) == RepliesTo(s, commands, allows) + CodesOf(before, c, allows)
  {
    hide EffectOf, CodesOf;
    assert (commands + [c])[..|commands|] == commands;
  }

  predicate AnsweredOnce(c: Command) {
    c.verb != LIST && c.verb != RETR
  }

  /** Commands with one reply each are answered in order. */
  lemma {:induction false} RepliesInOrder(s: ServerState, commands: seq<Command>, allows: Policy)
    requires forall c <- commands :: AnsweredOnce(c)
    ensures |RepliesTo(s, commands, allows)| == |commands|
    ensures forall j :: 0 <= j < |commands| ==>
              RepliesTo(s, commands, allows)[j]
              == EffectOf(StateAfter(s, commands[..j], allows), commands[j], allows).code
  {
    hide EffectOf, StateAfter;
    if commands != [] {
      var sofar, last := commands[..|commands| - 1], commands[|commands| - 1];
      assert last in commands && forall c <- sofar :: c in commands;
      RepliesInOrder(s, sofar, allows);
      assert forall j :: 0 <= j < |sofar| ==> commands[..j] == sofar[..j] && commands[j] == sofar[j];
    }
  }

  /** Commands sent while replies are unread: codes read and codes still unread are together
    * those waiting before and those of the commands, in order. */
  method ExchangeAll(link: ControlLink, commands: seq<Command>) returns (codes: seq<int>)
    requires link.Linked() && forall c <- commands :: Sendable(c)
    modifies link`log, link.socket, link.server, link.server.toClient, link.server.fromClient
    modifies link.server.dataOut`inFlight, link.server.dataOut`closed
    ensures link.Linked() && |codes| == |commands|
    ensures link.server.state == StateAfter(old(link.server.state), commands, link.server.allows)
    ensures codes + link.Unread()
         == old(link.Unread()) + RepliesTo(old(link.server.state), commands, link.server.allows)
  {
    hide ControlLink.Unread, CodesOf, StateAfter, RepliesTo, EffectOf, Sendable, ControlLink.Linked;
    ghost var s, waiting, allows := link.server.state, link.Unread(), link.server.allows;
    NoCommand(s, allows);
    codes := [];
    for i := 0 to |commands|
      invariant link.Linked() && |codes| == i
      invariant link.server.state == StateAfter(s, commands[..i], allows)
      invariant codes + link.Unread() == waiting + RepliesTo(s, commands[..i], allows)
    {
      OneMoreCommand(s, commands[..i], commands[i], allows);
      assert commands[..i] + [commands[i]] == commands[..i + 1];
      ghost var unread := link.Unread();
      var answer := link.Exchange(commands[i]);
      Regroup(codes, answer.value.code, link.Unread(), unread, waiting,
              RepliesTo(s, commands[..i], allows), CodesOf(StateAfter(s, commands[..i], allows), commands[i], allows));
      codes := codes + [answer.value.code];
    }
    assert commands[..|commands|] == commands;
  }

  lemma NoCommand(s: ServerState, allows: Policy)
    ensures StateAfter(s, [], allows) == s && RepliesTo(s, [], allows) == []
  {
  }

  lemma Regroup(codes: seq<int>, code: int, unread': seq<int>, unread: seq<int>, waiting: seq<int>,
                replies: seq<int>, more: seq<int>)
    requires codes + unread == waiting + replies && [code] + unread' == unread + more
    ensures (codes + [code]) + unread' == waiting + (replies + more)
  {
    assert (codes + [code]) + unread' == codes + (unread + more) == (codes + unread) + more;
  }

  /** If each command has one reply and n were waiting, every answer but the first n is n
    * commands late, and n replies stay unread. */
  lemma AnswersAreLate(codes: seq<int>, unread: seq<nat>, waiting: seq<nat>,
                       s: ServerState, commands: seq<Command>, allows: Policy)
    requires |codes| == |commands| && forall c <- commands :: AnsweredOnce(c)
    requires codes + unread == waiting + RepliesTo(s, commands, allows)
    ensures |unread| == |waiting|
    ensures forall i :: 0 <= i < |commands| ==>
              var n := |waiting|;
              codes[i] == if i < n then waiting[i]
                          else EffectOf(StateAfter(s, commands[..i - n], allows), commands[i - n], allows).code
  {
    hide RepliesTo, StateAfter, EffectOf;
    RepliesInOrder(s, commands, allows);
    var replies := RepliesTo(s, commands, allows);
    assert |codes + unread| == |waiting + replies|;
    assert forall i :: 0 <= i < |codes| ==> codes[i] == (codes + unread)[i];
  }
}
