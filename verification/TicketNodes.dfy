/** The two ends of a ticket connection: the worker with its handlers and the controller
  * that sends requests, each owning a peer on one socket. */
module TicketNodes {
  import opened Wrappers
  import opened Sockets
  import opened Frames
  import opened Tickets
  import opened TicketCodec

  // ---- What the worker answers, as functions of the ticket ----

  datatype TicketContext = TicketContext(
    ticketId: string,
    kind: TicketType,
    command: string,
    payload: string,
    metadata: map<string, string>,
    timeout: int)

  /** A handler's failure is the message of its error code. */
  type Handler = TicketContext -> Result<string, string>
  type LongHandler = TicketContext -> Result<TicketInfo, string>

  function ContextOf(t: TicketInfo): TicketContext {
    TicketContext(t.ticketId, t.kind, t.command, if t.payload.Some? then t.payload.value else "", t.metadata, t.timeout)
  }

  function ErrorResponse(t: TicketInfo, message: string): TicketInfo {
    BlankTicket(t.ticketId, t.kind, FAILED, t.command, t.timeout).(error := Some(message))
  }

  function Respond(handlers: map<string, Handler>, longHandlers: set<string>, t: TicketInfo): (r: TicketInfo)
    ensures r.ticketId == t.ticketId && r.kind == t.kind && r.command == t.command && r.timeout == t.timeout
    ensures r.status == COMPLETED || r.status == FAILED
  {
    if t.command in longHandlers then ErrorResponse(t, "long handlers not implemented")
    else if t.command !in handlers then ErrorResponse(t, "unknown command")
    else
      match handlers[t.command](ContextOf(t))
      case Failure(message) => ErrorResponse(t, message)
      case Success(value) =>
        BlankTicket(t.ticketId, t.kind, COMPLETED, t.command, t.timeout).(result := Some(value))
  }

  predicate Refuses(r: TicketInfo, message: string) {
    r.status == FAILED && r.result.None? && r.error == Some(message)
  }

  /** The response, field by field: the ticket's own id, type, command and timeout, and either
    * what the handler returns for the ticket's data or the reason there is no such thing. */
  lemma ResponseExactly(handlers: map<string, Handler>, longHandlers: set<string>, t: TicketInfo)
    ensures var r := Respond(handlers, longHandlers, t);
            var payload := if t.payload.Some? then t.payload.value else "";
            var ctx := TicketContext(t.ticketId, t.kind, t.command, payload, t.metadata, t.timeout);
            && r.ticketId == t.ticketId && r.kind == t.kind && r.command == t.command && r.timeout == t.timeout
            && r.metadata == map[] && r.payload.None? && r.progressPercent.None? && r.progressMsg.None?
            && (t.command in longHandlers ==> Refuses(r, "long handlers not implemented"))
            && (t.command !in longHandlers && t.command !in handlers ==> Refuses(r, "unknown command"))
            && (t.command !in longHandlers && t.command in handlers ==>
                  match handlers[t.command](ctx)
                  case Failure(message) => Refuses(r, message)
                  case Success(value) => r.status == COMPLETED && r.result == Some(value) && r.error.None?)
  {
  }

  /** What `send` makes of a response. */
  function SendOutcome(response: Expected<TicketInfo>): Expected<string> {
    if response.Failure? then Failure(response.error)
    else if response.value.status == FAILED then Failure(IoError)
    else if response.value.result.None? then Failure(ProtocolError)
    else Success(response.value.result.value)
  }

  /** Calling the handler directly; every refusal is the one error code `send` reports. */
  function LocalCall(handlers: map<string, Handler>, longHandlers: set<string>, ctx: TicketContext): Expected<string> {
    if ctx.command !in longHandlers && ctx.command in handlers && handlers[ctx.command](ctx).Success?
    then Success(handlers[ctx.command](ctx).value)
    else Failure(IoError)
  }

  function MetadataOf(metadata: string): map<string, string> {
    if metadata == "" then map[] else map["metadata" := metadata]
  }

  function RequestTicket(id: string, command: string, payload: string, metadata: string, timeout: int): TicketInfo {
    BlankTicket(id, SHORT, PENDING, command, timeout).(
      payload := Some(payload),
      metadata := MetadataOf(metadata))
  }

  function RequestContext(id: string, command: string, payload: string, metadata: string, timeout: int): TicketContext {
    TicketContext(id, SHORT, command, payload, MetadataOf(metadata), timeout)
  }

  /** The whole exchange in one equation, for every handler table and every request. */
  lemma ExchangeIsLocalCall(handlers: map<string, Handler>, longHandlers: set<string>,
                            id: string, command: string, payload: string, metadata: string, timeout: int)
    ensures var request := Transported(RequestTicket(id, command, payload, metadata, timeout));
            var response := Transported(Respond(handlers, longHandlers, request));
            SendOutcome(Success(response))
            == LocalCall(handlers, longHandlers, RequestContext(id, command, payload, metadata, Wrap32(timeout)))
  {
  }

  /** Remote and local calls agree under every handler table exactly when the timeout fits in
    * an int: a handler that looks at its timeout tells a narrowed one apart. */
  lemma TimeoutNarrowingExactly(id: string, command: string, payload: string, metadata: string, timeout: int)
    ensures (forall handlers: map<string, Handler>, longHandlers: set<string> ::
               LocalCall(handlers, longHandlers, RequestContext(id, command, payload, metadata, Wrap32(timeout)))
               == LocalCall(handlers, longHandlers, RequestContext(id, command, payload, metadata, timeout)))
            <==> InInt32(timeout)
  {
    var sent := RequestContext(id, command, payload, metadata, timeout);
    var seen := RequestContext(id, command, payload, metadata, Wrap32(timeout));
    if !InInt32(timeout) {
      var handler: Handler := (ctx: TicketContext) => if ctx.timeout == timeout then Success("") else Failure("");
      var handlers := map[command := handler];
      assert handlers[command] == handler && handler(sent) == Success("") && handler(seen) == Failure("");
      assert LocalCall(handlers, {}, sent) != LocalCall(handlers, {}, seen);
    } else {
      assert sent == seen;
    }
  }

  // ---- Peers ----

  class TicketPeer {
    const socket: Socket<byte>
    const serializer: JsonText
    var closed: bool

    constructor (socket: Socket<byte>, serializer: JsonText)
      ensures this.socket == socket && this.serializer == serializer && !closed
    {
      this.socket, this.serializer := socket, serializer;
      closed := false;
    }

    method SendFrame(ticket: TicketInfo) returns (r: Expected<nat>)
      modifies socket.outbound`inFlight
      ensures r.Success? ==>
                && r.value == PREFIX_SIZE + |serializer.Bytes(ticket)|
                && socket.outbound.inFlight == old(socket.outbound.inFlight) + serializer.Framed(ticket)
      ensures socket.connected && socket.outbound.reliable && serializer.Bytes(ticket) != [] ==> r.Success?
      ensures serializer.Bytes(ticket) == [] ==>
                r == Failure(InvalidArgument) && socket.outbound.inFlight == old(socket.outbound.inFlight)
      ensures !socket.connected && serializer.Bytes(ticket) != [] ==>
                r == Failure(NotConnected) && socket.outbound.inFlight == old(socket.outbound.inFlight)
    {
      var serialized := serializer.Serialize(ticket);
      if serialized == [] {
        return Failure(InvalidArgument);
      }
      r := WriteFrame(socket, serialized);
    }

    /** On a reliable connection the outcome is decided by the pending bytes. */
    method ReceiveFrame() returns (r: Expected<TicketInfo>)
      requires socket.Conserved()
      modifies socket`readBuffer, socket`received, socket`delivered, socket`intact, socket.inbound`inFlight
      ensures socket.Conserved()
      ensures r.Success? ==>
                && ParseFrame(old(socket.Pending())).Some?
                && serializer.Ticket(ParseFrame(old(socket.Pending())).value.0) == r
                && socket.Pending() == ParseFrame(old(socket.Pending())).value.1
      ensures socket.connected && socket.inbound.reliable && ParseFrame(old(socket.Pending())).Some? ==>
                && r == serializer.Ticket(ParseFrame(old(socket.Pending())).value.0)
                && socket.Pending() == ParseFrame(old(socket.Pending())).value.1
      ensures socket.connected && socket.inbound.reliable && ParseFrame(old(socket.Pending())).None? ==>
                r == Failure(if socket.inbound.closed then Eof else Timeout)
      ensures !socket.connected ==> r == Failure(NotConnected)
    {
      var frame := ReadFrame(socket);
      if frame.Failure? {
        return Failure(frame.error);
      }
      r := serializer.Deserialize(frame.value);
    }

    /** Nothing can go wrong on the way, in either direction. */
    ghost predicate Live()
      reads socket
    {
      socket.connected && socket.inbound.reliable && socket.outbound.reliable && serializer.Faithful()
    }

    /** One request out, one response in; while nothing goes wrong on the way, the response is
      * whatever the pending bytes hold. */
    method Handshake(request: TicketInfo) returns (r: Expected<TicketInfo>)
      requires socket.Conserved() && socket.inbound != socket.outbound
      modifies socket`readBuffer, socket`received, socket`delivered, socket`intact
      modifies socket.inbound`inFlight, socket.outbound`inFlight
      ensures socket.Conserved()
      ensures r.Success? ==>
                && socket.outbound.inFlight == old(socket.outbound.inFlight) + serializer.Framed(request)
                && ParseFrame(old(socket.Pending())).Some?
                && serializer.Ticket(ParseFrame(old(socket.Pending())).value.0) == r
                && socket.Pending() == ParseFrame(old(socket.Pending())).value.1
      ensures socket.connected && socket.inbound.reliable && socket.outbound.reliable
              && serializer.Bytes(request) != [] ==>
                && socket.outbound.inFlight == old(socket.outbound.inFlight) + serializer.Framed(request)
                && (ParseFrame(old(socket.Pending())).None? ==>
                      r == Failure(if socket.inbound.closed then Eof else Timeout))
                && (ParseFrame(old(socket.Pending())).Some? ==>
                      && r == serializer.Ticket(ParseFrame(old(socket.Pending())).value.0)
                      && socket.Pending() == ParseFrame(old(socket.Pending())).value.1)
    {
      var result := SendFrame(request);
      if result.Failure? {
        return Failure(result.error);
      }
      r := ReceiveFrame();
    }

    method Goodbye()
      modifies this`closed, socket`connected, socket.outbound`closed
      ensures closed && !socket.connected
      ensures socket.outbound.closed == (old(socket.connected) || old(socket.outbound.closed))
    {
      closed := true;
      if socket.connected {
        socket.connected := false;
        socket.outbound.closed := true;
      }
    }
  }

  class TicketWorker {
    const peer: TicketPeer
    var handlers: map<string, Handler>
    var longHandlers: map<string, LongHandler>

    constructor (peer: TicketPeer)
      ensures this.peer == peer && handlers == map[] && longHandlers == map[]
    {
      this.peer := peer;
      handlers, longHandlers := map[], map[];
    }

    method RegisterHandler(command: string, handler: Handler)
      modifies this`handlers
      ensures handlers == old(handlers)[command := handler]
    {
      handlers := handlers[command := handler];
    }

    method RegisterLongHandler(command: string, handler: LongHandler)
      modifies this`longHandlers
      ensures longHandlers == old(longHandlers)[command := handler]
    {
      longHandlers := longHandlers[command := handler];
    }

    function Answer(ticket: TicketInfo): TicketInfo
      reads this
    {
      Respond(handlers, longHandlers.Keys, ticket)
    }

    method SendErrorResponse(ticket: TicketInfo, error: string)
      modifies peer.socket.outbound`inFlight
      ensures var response := ErrorResponse(ticket, error);
              var out := peer.socket.outbound;
              peer.socket.connected && out.reliable && peer.serializer.Bytes(response) != [] ==>
                out.inFlight == old(out.inFlight) + peer.serializer.Framed(response)
    {
      var response := BlankTicket(ticket.ticketId, ticket.kind, FAILED, ticket.command, ticket.timeout);
      response := response.(error := Some(error));
      var _ := peer.SendFrame(response);
    }

    /** Exactly one response per ticket; a failure to send it is ignored. */
    method ProcessTicket(ticket: TicketInfo)
      modifies peer.socket.outbound`inFlight
      ensures var out := peer.socket.outbound;
              peer.socket.connected && out.reliable && peer.serializer.Bytes(Answer(ticket)) != [] ==>
                out.inFlight == old(out.inFlight) + peer.serializer.Framed(Answer(ticket))
    {
      if ticket.command in longHandlers {
        SendErrorResponse(ticket, "long handlers not implemented");
        return;
      }
      if ticket.command !in handlers {
        SendErrorResponse(ticket, "unknown command");
        return;
      }
      var payload := if ticket.payload.Some? then ticket.payload.value else "";
      var ctx := TicketContext(ticket.ticketId, ticket.kind, ticket.command, payload, ticket.metadata, ticket.timeout);
      var result := handlers[ticket.command](ctx);
      if result.Failure? {
        SendErrorResponse(ticket, result.error);
        return;
      }
      var response := BlankTicket(ctx.ticketId, ticket.kind, COMPLETED, ticket.command, ticket.timeout);
      response := response.(result := Some(result.value));
      var _ := peer.SendFrame(response);
    }

    method HandleNext() returns (r: Expected<()>)
      requires peer.socket.Conserved() && peer.socket.inbound != peer.socket.outbound
      modifies peer.socket`readBuffer, peer.socket`received, peer.socket`delivered, peer.socket`intact
      modifies peer.socket.inbound`inFlight, peer.socket.outbound`inFlight
      ensures peer.socket.Conserved()
      ensures var before := old(peer.socket.Pending());
              var out := peer.socket.outbound;
              peer.socket.connected && peer.socket.inbound.reliable && out.reliable && peer.serializer.Faithful()
              && ParseFrame(before).Some? && peer.serializer.Ticket(ParseFrame(before).value.0).Success? ==>
                && r == Success(())
                && peer.socket.Pending() == ParseFrame(before).value.1
                && out.inFlight == old(out.inFlight)
                   + peer.serializer.Framed(Answer(peer.serializer.Ticket(ParseFrame(before).value.0).value))
      ensures var before := old(peer.socket.Pending());
              peer.socket.connected && peer.socket.inbound.reliable
              && (ParseFrame(before).None? || peer.serializer.Ticket(ParseFrame(before).value.0).Failure?) ==>
                r.Failure? && peer.socket.outbound.inFlight == old(peer.socket.outbound.inFlight)
    {
      var ticket := peer.ReceiveFrame();
      if ticket.Failure? {
        return Failure(ticket.error);
      }
      ProcessTicket(ticket.value);
      r := Success(());
    }
  }
}
