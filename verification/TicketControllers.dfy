/** The controller: requests, the polling loop of long tickets, and whole remote calls. */
module TicketControllers {
  import opened Wrappers
  import opened Sequences
  import opened Frames
  import opened Tickets
  import opened TicketCodec
  import opened TicketIds
  import opened TicketNodes
  import opened Decimals

  /** How `sendLong` ends on the first response that is not RUNNING. */
  function LongOutcome(response: Expected<TicketInfo>): Expected<TicketInfo> {
    if response.Failure? then response
    else
      match response.value.status
      case COMPLETED => response
      case CANCELLED => response
      case FAILED => Failure(IoError)
      case _ => Failure(ProtocolError)
  }

  predicate IsRunning(response: Expected<TicketInfo>) {
    response.Success? && response.value.status == RUNNING
  }

  function PollTicket(id: string, timeout: int): TicketInfo {
    BlankTicket(id, SHORT, PENDING, "poll", timeout)
  }

  /** A run of `sendLong` up to some point: what it sent and what each exchange returned.
    * All responses but the last are RUNNING, and each poll carries the id of the response
    * before it. */
  ghost predicate PollingRun(requests: seq<TicketInfo>, responses: seq<Expected<TicketInfo>>, timeout: int) {
    && 1 <= |responses| == |requests|
    && requests[0].kind == LONG && requests[0].status == PENDING
    && (forall i :: 0 <= i < |responses| - 1 ==> IsRunning(responses[i]))
    && forall i :: 1 <= i < |requests| ==>
         IsRunning(responses[i - 1]) && requests[i] == PollTicket(responses[i - 1].value.ticketId, timeout)
  }

  /** A first response that is not RUNNING is the only one. */
  lemma RunEndsAtOnce(requests: seq<TicketInfo>, responses: seq<Expected<TicketInfo>>, timeout: int)
    requires PollingRun(requests, responses, timeout)
    requires !IsRunning(responses[0])
    ensures |requests| == |responses| == 1
  {
  }

  /** Against a worker the loop body never runs: whatever ticket it answered, its response is
    * not RUNNING. */
  lemma WorkerNeverPolled(requests: seq<TicketInfo>, responses: seq<Expected<TicketInfo>>, timeout: int,
                          handlers: map<string, Handler>, longHandlers: set<string>, handled: TicketInfo)
    requires PollingRun(requests, responses, timeout)
    requires responses[0] == Success(Transported(Respond(handlers, longHandlers, handled)))
    ensures |requests| == |responses| == 1
  {
    RunEndsAtOnce(requests, responses, timeout);
  }

  /** onProgress was called with the responses before the last one, in order. */
  predicate ProgressOf(progress: seq<TicketInfo>, responses: seq<Expected<TicketInfo>>) {
    |progress| == |responses| - 1 && forall i :: 0 <= i < |progress| ==> responses[i] == Success(progress[i])
  }

  lemma ExtendRun(requests: seq<TicketInfo>, responses: seq<Expected<TicketInfo>>, timeout: int,
                  next: Expected<TicketInfo>)
    requires PollingRun(requests, responses, timeout) && IsRunning(responses[|responses| - 1])
    ensures var last := responses[|responses| - 1].value;
            PollingRun(requests + [PollTicket(last.ticketId, timeout)], responses + [next], timeout)
  {
  }

  /** The frames a stream held, each complete, and what follows them. */
  ghost predicate ReadAs(stream: seq<byte>, responses: seq<Expected<TicketInfo>>, rest: seq<byte>, serializer: JsonText)
  {
    if responses == [] then stream == rest
    else
      && ParseFrame(stream).Some?
      && serializer.Ticket(ParseFrame(stream).value.0) == responses[0]
      && ReadAs(ParseFrame(stream).value.1, responses[1..], rest, serializer)
  }

  lemma {:induction false} ReadAsAppend(stream: seq<byte>, responses: seq<Expected<TicketInfo>>, middle: seq<byte>,
                                        response: Expected<TicketInfo>, serializer: JsonText)
    requires ReadAs(stream, responses, middle, serializer)
    requires ParseFrame(middle).Some? && serializer.Ticket(ParseFrame(middle).value.0) == response
    ensures ReadAs(stream, responses + [response], ParseFrame(middle).value.1, serializer)
    decreases |responses|
  {
    if responses == [] {
      assert [response][1..] == [];
      assert ReadAs(ParseFrame(stream).value.1, [], ParseFrame(middle).value.1, serializer);
    } else {
      ReadAsAppend(ParseFrame(stream).value.1, responses[1..], middle, response, serializer);
      assert (responses + [response])[1..] == responses[1..] + [response];
    }
  }

  /** If the last response failed, the stream held no ticket behind those of the others. */
  ghost predicate StopsAtNoTicket(stream: seq<byte>, responses: seq<Expected<TicketInfo>>, serializer: JsonText)
    requires responses != []
  {
    responses[|responses| - 1].Failure? ==>
      exists rest :: ReadAs(stream, responses[..|responses| - 1], rest, serializer) && HoldsNoTicket(rest, serializer)
  }

  ghost predicate HoldsNoTicket(stream: seq<byte>, serializer: JsonText) {
    ParseFrame(stream).Some? ==> serializer.Ticket(ParseFrame(stream).value.0).Failure?
  }

  lemma StopsThere(stream: seq<byte>, before: seq<Expected<TicketInfo>>, rest: seq<byte>,
                   next: Expected<TicketInfo>, serializer: JsonText)
    requires ReadAs(stream, before, rest, serializer)
    requires next.Failure? ==> HoldsNoTicket(rest, serializer)
    ensures StopsAtNoTicket(stream, before + [next], serializer)
  {
    assert (before + [next])[..|before|] == before;
  }

  lemma StopsAtOnce(stream: seq<byte>, response: Expected<TicketInfo>, serializer: JsonText)
    requires response.Failure? ==> HoldsNoTicket(stream, serializer)
    ensures StopsAtNoTicket(stream, [response], serializer)
  {
    StopsThere(stream, [], stream, response, serializer);
    assert [] + [response] == [response];
  }

  /** Requests written and responses read on a connection that had `stream` to read and
    * `sent` written before. */
  ghost predicate Exchanged(stream: seq<byte>, sent: seq<byte>,
                            requests: seq<TicketInfo>, responses: seq<Expected<TicketInfo>>,
                            rest: seq<byte>, written: seq<byte>, serializer: JsonText) {
    ReadAs(stream, responses, rest, serializer) && written == sent + ConcatMap(requests, serializer.Framed)
  }

  lemma ExchangedAppend(stream: seq<byte>, sent: seq<byte>,
                        requests: seq<TicketInfo>, responses: seq<Expected<TicketInfo>>,
                        rest: seq<byte>, written: seq<byte>, serializer: JsonText,
                        request: TicketInfo, response: Expected<TicketInfo>)
    requires Exchanged(stream, sent, requests, responses, rest, written, serializer)
    requires ParseFrame(rest).Some? && serializer.Ticket(ParseFrame(rest).value.0) == response
    ensures Exchanged(stream, sent, requests + [request], responses + [response],
                      ParseFrame(rest).value.1, written + serializer.Framed(request), serializer)
  {
    ReadAsAppend(stream, responses, rest, response, serializer);
    ConcatMapAppend(requests, request, serializer.Framed);
  }

  lemma ExchangedOnce(stream: seq<byte>, sent: seq<byte>, request: TicketInfo, response: Expected<TicketInfo>,
                      serializer: JsonText)
    requires ParseFrame(stream).Some? && serializer.Ticket(ParseFrame(stream).value.0) == response
    ensures Exchanged(stream, sent, [request], [response],
                      ParseFrame(stream).value.1, sent + serializer.Framed(request), serializer)
  {
  }

  lemma {:induction false} ReadAsPrefix(stream: seq<byte>, responses: seq<Expected<TicketInfo>>, rest: seq<byte>,
                                        n: nat, serializer: JsonText)
    requires ReadAs(stream, responses, rest, serializer) && n <= |responses|
    ensures exists middle :: ReadAs(stream, responses[..n], middle, serializer)
    decreases n
  {
    if n == 0 {
      assert ReadAs(stream, responses[..0], stream, serializer);
    } else {
      var tail := ParseFrame(stream).value.1;
      ReadAsPrefix(tail, responses[1..], rest, n - 1, serializer);
      var middle :| ReadAs(tail, responses[1..][..n - 1], middle, serializer);
      assert responses[..n][1..] == responses[1..][..n - 1];
      assert ReadAs(stream, responses[..n], middle, serializer);
    }
  }

  /** What is read from the frames of tickets is those tickets, in order. */
  lemma {:induction false} TicketsAreRead(tickets: seq<TicketInfo>, tail: seq<byte>,
                                          responses: seq<Expected<TicketInfo>>, rest: seq<byte>, serializer: JsonText)
    requires serializer.Faithful() && forall t <- tickets :: |serializer.Bytes(t)| < UINT32_COUNT
    requires |responses| <= |tickets|
    requires ReadAs(ConcatMap(tickets, serializer.Framed) + tail, responses, rest, serializer)
    ensures forall i :: 0 <= i < |responses| ==> responses[i] == Success(Transported(tickets[i]))
    ensures rest == ConcatMap(tickets[|responses|..], serializer.Framed) + tail
    decreases |responses|
  {
    hide ParseFrame, JsonText.Faithful, JsonText.Ticket, JsonText.Bytes, ConcatMap;
    if responses == [] {
      assert tickets[0..] == tickets;
    } else {
      FirstTicketIsRead(tickets, tail, serializer);
      assert forall t <- tickets[1..] :: t in tickets;
      TicketsAreRead(tickets[1..], tail, responses[1..], rest, serializer);
      assert tickets[1..][|responses| - 1..] == tickets[|responses|..];
      assert forall i :: 0 < i < |responses| ==> responses[i] == responses[1..][i - 1];
    }
  }

  lemma FirstTicketIsRead(tickets: seq<TicketInfo>, tail: seq<byte>, serializer: JsonText)
    requires serializer.Faithful() && tickets != [] && |serializer.Bytes(tickets[0])| < UINT32_COUNT
    ensures var stream := ConcatMap(tickets, serializer.Framed) + tail;
            var rest := ConcatMap(tickets[1..], serializer.Framed) + tail;
            && ParseFrame(stream) == Some((serializer.Bytes(tickets[0]), rest))
            && serializer.Ticket(serializer.Bytes(tickets[0])) == Success(Transported(tickets[0]))
  {
    hide ParseFrame, EncodeFrame;
    var rest := ConcatMap(tickets[1..], serializer.Framed) + tail;
    FrameRoundTripExactly(serializer.Bytes(tickets[0]), rest);
    assert ConcatMap(tickets, serializer.Framed) + tail == serializer.Framed(tickets[0]) + rest;
    FrameAlone(serializer, tickets[0]);
  }

  /** A long call against a stream that holds the frames of tickets, all RUNNING but the last:
    * the responses are those tickets, so the call polls once for each but the last and ends
    * with the last. */
  lemma LongCallReadsTickets(tickets: seq<TicketInfo>, tail: seq<byte>, requests: seq<TicketInfo>,
                             responses: seq<Expected<TicketInfo>>, rest: seq<byte>, timeout: int, serializer: JsonText)
    requires serializer.Faithful() && tickets != [] && forall t <- tickets :: |serializer.Bytes(t)| < UINT32_COUNT
    requires forall i :: 0 <= i < |tickets| ==> (tickets[i].status == RUNNING <==> i < |tickets| - 1)
    requires PollingRun(requests, responses, timeout) && !IsRunning(responses[|responses| - 1])
    requires var stream := ConcatMap(tickets, serializer.Framed) + tail;
             && StopsAtNoTicket(stream, responses, serializer)
             && (responses[|responses| - 1].Success? ==> ReadAs(stream, responses, rest, serializer))
    ensures |responses| == |tickets|
    ensures forall i :: 0 <= i < |tickets| ==> responses[i] == Success(Transported(tickets[i]))
  {
    hide ReadAs, ConcatMap, ParseFrame, JsonText.Faithful, JsonText.Ticket;
    var stream := ConcatMap(tickets, serializer.Framed) + tail;
    var m := |responses|;
    var before := responses[..m - 1];
    var middle: seq<byte>;
    if responses[m - 1].Success? {
      ReadAsPrefix(stream, responses, rest, m - 1, serializer);
      middle :| ReadAs(stream, before, middle, serializer);
    } else {
      middle :| ReadAs(stream, before, middle, serializer) && HoldsNoTicket(middle, serializer);
    }
    RunningTicketsOnly(tickets, tail, before, middle, serializer);
    TicketsAreRead(tickets, tail, before, middle, serializer);
    FirstTicketIsRead(tickets[m - 1..], tail, serializer);
    assert responses[m - 1].Success?;
    TicketsAreRead(tickets, tail, responses, rest, serializer);
  }

  lemma RunningTicketsOnly(tickets: seq<TicketInfo>, tail: seq<byte>, before: seq<Expected<TicketInfo>>,
                           middle: seq<byte>, serializer: JsonText)
    requires serializer.Faithful() && tickets != [] && forall t <- tickets :: |serializer.Bytes(t)| < UINT32_COUNT
    requires tickets[|tickets| - 1].status != RUNNING
    requires forall i :: 0 <= i < |before| ==> IsRunning(before[i])
    requires ReadAs(ConcatMap(tickets, serializer.Framed) + tail, before, middle, serializer)
    ensures |before| < |tickets|
  {
    hide ReadAs, ConcatMap, ParseFrame, JsonText.Faithful, JsonText.Ticket;
    var stream, n := ConcatMap(tickets, serializer.Framed) + tail, |tickets|;
    if |before| >= n {
      assert IsRunning(before[..n][n - 1]);
      ReadAsPrefix(stream, before, middle, n, serializer);
      var there :| ReadAs(stream, before[..n], there, serializer);
      TicketsAreRead(tickets, tail, before[..n], there, serializer);
    }
  }

  class TicketController {
    const peer: TicketPeer
    const socketNumber: nat
    var ticketCounter: nat
    ghost var uuids: seq<string>
    ghost var issued: seq<string>

    ghost predicate Valid()
      reads this
    {
      IssuedIds(issued, uuids, socketNumber) && ticketCounter == |issued| % UINT64_COUNT
    }

    constructor (peer: TicketPeer, socketNumber: nat)
      ensures Valid() && this.peer == peer && this.socketNumber == socketNumber && issued == []
    {
      this.peer, this.socketNumber := peer, socketNumber;
      ticketCounter := 0;
      uuids, issued := [], [];
    }

    /** The counter is a 64-bit one; the ids of the first 2^64 tickets all differ. */
    method GenerateTicketId() returns (id: string)
      requires Valid()
      modifies this`ticketCounter, this`uuids, this`issued
      ensures Valid() && issued == old(issued) + [id]
      ensures exists uuid ::
                IsUuid(uuid) && id == uuid + "/" + Decimal(socketNumber) + "#" + Decimal(old(ticketCounter))
      ensures ticketCounter == (old(ticketCounter) + 1) % UINT64_COUNT
      ensures |old(issued)| < UINT64_COUNT ==> id !in old(issued)
    {
      var uuid := GenerateUuid();
      id := TicketId(uuid, Decimal(socketNumber), ticketCounter);
      IssueNext(issued, uuids, socketNumber, uuid);
      NextCounter(|issued|);
      uuids, issued := uuids + [uuid], issued + [id];
      ticketCounter := (ticketCounter + 1) % UINT64_COUNT;
    }

    method NewTicket(kind: TicketType, command: string, payload: string, metadata: string, timeout: int)
      returns (ticket: TicketInfo)
      requires Valid()
      modifies this`ticketCounter, this`uuids, this`issued
      ensures Valid() && issued == old(issued) + [ticket.ticketId]
      ensures ticket == RequestTicket(ticket.ticketId, command, payload, metadata, timeout).(kind := kind)
    {
      var id := GenerateTicketId();
      ticket := BlankTicket(id, kind, PENDING, command, timeout);
      ticket := ticket.(payload := Some(payload));
      if metadata != "" {
        ticket := ticket.(metadata := map["metadata" := metadata]);
      }
    }

    method Send(command: string, payload: string, metadata: string, timeout: int)
      returns (r: Expected<string>, ghost request: TicketInfo, ghost response: Expected<TicketInfo>)
      requires Valid() && peer.socket.Conserved() && peer.socket.inbound != peer.socket.outbound
      modifies this`ticketCounter, this`uuids, this`issued
      modifies peer.socket`readBuffer, peer.socket`received, peer.socket`delivered, peer.socket`intact
      modifies peer.socket.inbound`inFlight, peer.socket.outbound`inFlight
      ensures Valid() && peer.socket.Conserved()
      ensures issued == old(issued) + [request.ticketId]
      ensures request == TicketInfo(request.ticketId, SHORT, PENDING, command,
                                    if metadata == "" then map[] else map["metadata" := metadata], timeout,
                                    None, None, Some(payload), None, None)
      ensures r.Success? <==> response.Success? && response.value.status != FAILED && response.value.result.Some?
      ensures r.Success? ==> response.value.result == Some(r.value)
      ensures r.Failure? ==>
                r.error == if response.Failure? then response.error
                           else if response.value.status == FAILED then IoError else ProtocolError
      ensures r == SendOutcome(response)
      ensures old(peer.Live()) ==>
                if ParseFrame(old(peer.socket.Pending())).None? then response.Failure?
                else response == peer.serializer.Ticket(ParseFrame(old(peer.socket.Pending())).value.0)
      ensures response.Success? ==>
                && peer.socket.outbound.inFlight
                   == old(peer.socket.outbound.inFlight) + peer.serializer.Framed(request)
                && ReadAs(old(peer.socket.Pending()), [response], peer.socket.Pending(), peer.serializer)
    {
      var ticket := NewTicket(SHORT, command, payload, metadata, timeout);
      request := ticket;
      var answer := peer.Handshake(ticket);
      response := answer;
      if answer.Success? {
        assert [answer][1..] == [];
      }
      if answer.Failure? {
        return Failure(answer.error), request, response;
      }
      if answer.value.status == FAILED {
        return Failure(IoError), request, response;
      }
      if answer.value.result.None? {
        return Failure(ProtocolError), request, response;
      }
      r := Success(answer.value.result.value);
    }

    /** `exchange` is what the handshake itself returned: poll turns FAILED into an error. */
    method Poll(ticketId: string, timeout: int) returns (r: Expected<TicketInfo>, ghost exchange: Expected<TicketInfo>)
      requires peer.socket.Conserved() && peer.socket.inbound != peer.socket.outbound
      modifies peer.socket`readBuffer, peer.socket`received, peer.socket`delivered, peer.socket`intact
      modifies peer.socket.inbound`inFlight, peer.socket.outbound`inFlight
      ensures peer.socket.Conserved()
      ensures r == (if exchange.Success? && exchange.value.status == FAILED then Failure(IoError) else exchange)
      ensures exchange.Success? ==>
                && peer.socket.outbound.inFlight
                   == old(peer.socket.outbound.inFlight) + peer.serializer.Framed(
                        TicketInfo(ticketId, SHORT, PENDING, "poll", map[], timeout, None, None, None, None, None))
                && ParseFrame(old(peer.socket.Pending())).Some?
                && peer.serializer.Ticket(ParseFrame(old(peer.socket.Pending())).value.0) == exchange
                && peer.socket.Pending() == ParseFrame(old(peer.socket.Pending())).value.1
      ensures old(peer.Live()) ==>
                if ParseFrame(old(peer.socket.Pending())).None? then exchange.Failure?
                else exchange == peer.serializer.Ticket(ParseFrame(old(peer.socket.Pending())).value.0)
    {
      var response := peer.Handshake(PollTicket(ticketId, timeout));
      exchange := response;
      if response.Failure? {
        return Failure(response.error), exchange;
      }
      if response.value.status == FAILED {
        return Failure(IoError), exchange;
      }
      r := response;
    }

    /** The polling loop of `sendLong`, entered with one response at hand. */
    method PollWhileRunning(first: TicketInfo, timeout: int, ghost request: TicketInfo,
                            ghost stream: seq<byte>, ghost sent: seq<byte>)
      returns (last: Expected<TicketInfo>, progress: seq<TicketInfo>,
               ghost requests: seq<TicketInfo>, ghost responses: seq<Expected<TicketInfo>>)
      requires peer.socket.Conserved() && peer.socket.inbound != peer.socket.outbound
      requires PollingRun([request], [Success(first)], timeout)
      requires Exchanged(stream, sent, [request], [Success(first)],
                         peer.socket.Pending(), peer.socket.outbound.inFlight, peer.serializer)
      modifies peer.socket`readBuffer, peer.socket`received, peer.socket`delivered, peer.socket`intact
      modifies peer.socket.inbound`inFlight, peer.socket.outbound`inFlight
      ensures peer.socket.Conserved()
      ensures PollingRun(requests, responses, timeout) && requests[0] == request && responses[0] == Success(first)
      ensures !IsRunning(responses[|responses| - 1]) && ProgressOf(progress, responses)
      ensures old(peer.Live()) ==> StopsAtNoTicket(stream, responses, peer.serializer)
      ensures LongOutcome(last) == LongOutcome(responses[|responses| - 1])
      ensures responses[|responses| - 1].Success? ==>
                Exchanged(stream, sent, requests, responses,
                          peer.socket.Pending(), peer.socket.outbound.inFlight, peer.serializer)
    {
      progress := [];
      var response := first;
      requests, responses := [request], [Success(first)];
      while response.status == RUNNING
        invariant peer.socket.Conserved()
        invariant PollingRun(requests, responses, timeout)
        invariant requests[0] == request && responses[0] == Success(first)
        invariant responses[|responses| - 1] == Success(response)
        invariant ProgressOf(progress, responses)
        invariant peer.Live() == old(peer.Live())
        invariant Exchanged(stream, sent, requests, responses,
                            peer.socket.Pending(), peer.socket.outbound.inFlight, peer.serializer)
        decreases |peer.socket.Pending()|
      {
        progress := progress + [response];
        ghost var before, written := peer.socket.Pending(), peer.socket.outbound.inFlight;
        ghost var soFar := responses;
        ghost var exchange;
        ghost var pollTicket := PollTicket(response.ticketId, timeout);
        var pollResult;
        pollResult, exchange := Poll(response.ticketId, timeout);
        ExtendRun(requests, soFar, timeout, exchange);
        if old(peer.Live()) {
          StopsThere(stream, soFar, before, exchange, peer.serializer);
        }
        if exchange.Success? {
          ExchangedAppend(stream, sent, requests, soFar, before, written, peer.serializer, pollTicket, exchange);
        }
        requests, responses := requests + [pollTicket], soFar + [exchange];
        if pollResult.Failure? {
          return Failure(pollResult.error), progress, requests, responses;
        }
        response := pollResult.value;
      }
      last := Success(response);
    }

    /** Whatever the peer answers, the loop polls after each RUNNING response with that
      * response's id, reports exactly those to onProgress, and stops at the first other
      * one; only COMPLETED and CANCELLED count as success. */
    method SendLong(command: string, payload: string, metadata: string, timeout: int)
      returns (r: Expected<TicketInfo>, progress: seq<TicketInfo>,
               ghost requests: seq<TicketInfo>, ghost responses: seq<Expected<TicketInfo>>)
      requires Valid() && peer.socket.Conserved() && peer.socket.inbound != peer.socket.outbound
      modifies this`ticketCounter, this`uuids, this`issued
      modifies peer.socket`readBuffer, peer.socket`received, peer.socket`delivered, peer.socket`intact
      modifies peer.socket.inbound`inFlight, peer.socket.outbound`inFlight
      ensures Valid() && peer.socket.Conserved()
      ensures PollingRun(requests, responses, timeout)
      ensures requests[0] == TicketInfo(requests[0].ticketId, LONG, PENDING, command,
                                        if metadata == "" then map[] else map["metadata" := metadata], timeout,
                                        None, None, Some(payload), None, None)
      ensures forall i :: 1 <= i < |requests| ==>
                requests[i] == TicketInfo(responses[i - 1].value.ticketId, SHORT, PENDING, "poll", map[], timeout,
                                          None, None, None, None, None)
      ensures issued == old(issued) + [requests[0].ticketId]
      ensures |progress| == |responses| - 1
      ensures forall i :: 0 <= i < |progress| ==> responses[i] == Success(progress[i]) && progress[i].status == RUNNING
      ensures var last := responses[|responses| - 1];
              && !IsRunning(last)
              && (r.Success? <==> last.Success? && (last.value.status == COMPLETED || last.value.status == CANCELLED))
              && (r.Success? ==> r == last)
              && (r.Failure? ==>
                    r.error == if last.Failure? then last.error
                               else if last.value.status == FAILED then IoError else ProtocolError)
      ensures old(peer.Live()) ==> StopsAtNoTicket(old(peer.socket.Pending()), responses, peer.serializer)
      ensures responses[|responses| - 1].Success? ==>
                Exchanged(old(peer.socket.Pending()), old(peer.socket.outbound.inFlight), requests, responses,
                          peer.socket.Pending(), peer.socket.outbound.inFlight, peer.serializer)
    {
      hide ParseFrame, EncodeFrame, StopsAtNoTicket, Exchanged, ReadAs, IssuedIds;
      var ticket := NewTicket(LONG, command, payload, metadata, timeout);
      progress := [];
      var response := peer.Handshake(ticket);
      requests, responses := [ticket], [response];
      if old(peer.Live()) {
        StopsAtOnce(old(peer.socket.Pending()), response, peer.serializer);
      }
      if response.Success? {
        ExchangedOnce(old(peer.socket.Pending()), old(peer.socket.outbound.inFlight), ticket, response,
                      peer.serializer);
      }
      if response.Failure? {
        return Failure(response.error), progress, requests, responses;
      }
      if response.value.status == FAILED {
        return Failure(IoError), progress, requests, responses;
      }
      if response.value.status == COMPLETED || response.value.status == CANCELLED {
        return response, progress, requests, responses;
      }
      response, progress, requests, responses :=
        PollWhileRunning(response.value, timeout, ticket, old(peer.socket.Pending()),
                         old(peer.socket.outbound.inFlight));
      r := LongOutcome(response);
    }

    method Cancel(ticketId: string, timeout: int) returns (r: Expected<()>, ghost response: Expected<TicketInfo>)
      requires peer.socket.Conserved() && peer.socket.inbound != peer.socket.outbound
      modifies peer.socket`readBuffer, peer.socket`received, peer.socket`delivered, peer.socket`intact
      modifies peer.socket.inbound`inFlight, peer.socket.outbound`inFlight
      ensures peer.socket.Conserved()
      ensures r.Success? <==> response.Success? && response.value.status == CANCELLED
      ensures r.Failure? ==> r.error == if response.Failure? then response.error else IoError
      ensures old(peer.Live()) ==>
                if ParseFrame(old(peer.socket.Pending())).None? then response.Failure?
                else response == peer.serializer.Ticket(ParseFrame(old(peer.socket.Pending())).value.0)
      ensures response.Success? ==>
                && ReadAs(old(peer.socket.Pending()), [response], peer.socket.Pending(), peer.serializer)
                && peer.socket.outbound.inFlight == old(peer.socket.outbound.inFlight)
                   + peer.serializer.Framed(
                       TicketInfo(ticketId, SHORT, CANCELLED, "cancel", map[], timeout, None, None, None, None, None))
    {
      var answer := peer.Handshake(BlankTicket(ticketId, SHORT, CANCELLED, "cancel", timeout));
      response := answer;
      if answer.Success? {
        assert [answer][1..] == [];
      }
      if answer.Failure? {
        return Failure(answer.error), response;
      }
      if answer.value.status != CANCELLED {
        return Failure(IoError), response;
      }
      r := Success(());
    }
  }

  /** Both ends of one reliable connection, nothing in flight either way. */
  ghost predicate Linked(c: TicketController, w: TicketWorker)
    reads c, c.peer.socket, c.peer.socket.inbound, w.peer.socket, w.peer.socket.inbound
  {
    var near, far := c.peer.socket, w.peer.socket;
    && near != far && near.inbound != near.outbound
    && near.outbound == far.inbound && far.outbound == near.inbound
    && near.inbound.reliable && near.outbound.reliable
    && near.connected && far.connected && near.Conserved() && far.Conserved()
    && near.Pending() == [] && far.Pending() == []
    && c.Valid() && c.peer.serializer == w.peer.serializer && c.peer.serializer.Faithful()
  }

  /** `send` with the worker's turn between its two halves. As long as both frames fit a
    * 32-bit size, the result is that of calling the handler directly, and the connection is
    * ready for the next call. */
  method RemoteCall(c: TicketController, w: TicketWorker,
                    command: string, payload: string, metadata: string, timeout: int)
    returns (r: Expected<string>, ghost request: TicketInfo)
    requires Linked(c, w)
    modifies c`ticketCounter, c`uuids, c`issued
    modifies c.peer.socket, c.peer.socket.inbound, w.peer.socket, w.peer.socket.inbound
    ensures c.issued == old(c.issued) + [request.ticketId]
    ensures request == RequestTicket(request.ticketId, command, payload, metadata, timeout)
    ensures && |c.peer.serializer.Bytes(request)| < UINT32_COUNT
            && |c.peer.serializer.Bytes(w.Answer(Transported(request)))| < UINT32_COUNT ==>
              && Linked(c, w)
              && r == LocalCall(w.handlers, w.longHandlers.Keys,
                                RequestContext(request.ticketId, command, payload, metadata, Wrap32(timeout)))
  {
    hide Respond, DecodeTicket, EncodeTicket, ParseFrame, EncodeFrame, LocalCall, IssuedIds;
    ghost var serializer := c.peer.serializer;
    var ticket := c.NewTicket(SHORT, command, payload, metadata, timeout);
    request := ticket;
    var sent := c.peer.SendFrame(ticket);
    assert w.peer.socket.Pending() == serializer.Framed(ticket);
    if |serializer.Bytes(ticket)| < UINT32_COUNT {
      FrameAlone(serializer, ticket);
    }
    var handled := w.HandleNext();
    ghost var answer := w.Answer(Transported(ticket));
    if |serializer.Bytes(ticket)| < UINT32_COUNT && |serializer.Bytes(answer)| < UINT32_COUNT {
      FrameAlone(serializer, answer);
      assert c.peer.socket.Pending() == serializer.Framed(answer);
      ExchangeIsLocalCall(w.handlers, w.longHandlers.Keys, ticket.ticketId, command, payload, metadata, timeout);
    }
    var response := c.peer.ReceiveFrame();
    r := SendOutcome(response);
  }
}
