/** The buffered byte-stream layer both protocol stacks stand on.
  * The element type is a parameter: std::byte for frames, its char view for FTP. */
module Sockets {
  import opened Wrappers
  import opened Sequences

  /** One direction of a connection: a FIFO of the elements written and not yet received.
    * A reliable channel never fails while it holds data; how much one receive yields is
    * arbitrary in either case. */
  class Channel<T(==)> {
    const reliable: bool
    var inFlight: seq<T>
    var closed: bool

    constructor (reliable: bool, content: seq<T>, closed: bool)
      ensures this.reliable == reliable && inFlight == content && this.closed == closed
    {
      this.reliable := reliable;
      inFlight := content;
      this.closed := closed;
    }

    /** One asynchronous read into a buffer of `room` elements, with its timeout. */
    method Receive(room: nat) returns (r: Expected<seq<T>>)
      modifies this`inFlight
      ensures r.Success? ==> |r.value| <= room && r.value + inFlight == old(inFlight)
      ensures r.Failure? ==> inFlight == old(inFlight) && r.error != UncaughtException
      ensures room == 0 ==> r == Success([])
      ensures reliable && room > 0 && old(inFlight) != [] ==> r.Success? && r.value != []
      ensures reliable && room > 0 && old(inFlight) == [] ==>
                r == Failure(if closed then Eof else Timeout)
    {
      if room == 0 {
        return Success([]);
      }
      var failing: bool := *;
      if !reliable && failing {
        return Failure(TransportError);
      }
      if inFlight == [] {
        return Failure(if closed then Eof else Timeout);
      }
      var n: int := *;
      if n < 1 || n > room || n > |inFlight| {
        n := 1;
      }
      r := Success(inFlight[..n]);
      inFlight := inFlight[n..];
    }

    /** One asynchronous write of everything: all of it, or a prefix and an error. */
    method Send(data: seq<T>) returns (r: Expected<nat>)
      modifies this`inFlight
      ensures r.Success? ==> r.value == |data| && inFlight == old(inFlight) + data
      ensures reliable ==> r.Success?
      ensures old(inFlight) <= inFlight <= old(inFlight) + data
    {
      var sent: int := *;
      if !reliable && 0 <= sent < |data| {
        inFlight := inFlight + data[..sent];
        return Failure(TransportError);
      }
      inFlight := inFlight + data;
      r := Success(|data|);
    }
  }

  function Zeros<T>(zero: T, n: nat): (s: seq<T>)
    ensures |s| == n && forall i :: 0 <= i < n ==> s[i] == zero
  {
    seq(n, _ => zero)
  }

  /** Elements readUntil hands out when the delimiter starts at p in a buffer of
    * `buffered` elements: two past its first element, whatever the delimiter's length. */
  function UntilCount(p: nat, buffered: nat, room: nat): nat {
    Min(Min(p + 2, buffered), room)
  }

  class Socket<T(==, 0)> {
    const inbound: Channel<T>
    const outbound: Channel<T>
    const zero: T
    var connected: bool
    var readBuffer: seq<T>

    // History of the connection: what was received into the buffer, what was handed
    // to callers, and whether every refill so far succeeded.
    ghost var received: seq<T>
    ghost var delivered: seq<T>
    ghost var intact: bool

    constructor (inbound: Channel<T>, outbound: Channel<T>, zero: T)
      ensures this.inbound == inbound && this.outbound == outbound && this.zero == zero
      ensures connected && readBuffer == [] && intact && received == [] && delivered == []
      ensures Conserved()
    {
      this.inbound, this.outbound, this.zero := inbound, outbound, zero;
      connected := true;
      readBuffer := [];
      received, delivered, intact := [], [], true;
    }

    /** Everything the peer sent that no caller was given yet. */
    function Pending(): seq<T>
      reads this, inbound
    {
      readBuffer + inbound.inFlight
    }

    /** Stream conservation: elements handed out, then the buffer, are what arrived. */
    ghost predicate Conserved()
      reads this
    {
      intact ==> delivered + readBuffer == received
    }

    ghost function Arrivals(): seq<T>
      reads this, inbound
    {
      received + inbound.inFlight
    }

    /** A read of `room` elements gave up: what arrived so far is still in front of the
      * buffer, in order, but `room` elements nobody sent now follow it. */
    ghost predicate Stalled(before: seq<T>, room: nat)
      reads this, inbound
    {
      var kept := |before| - |inbound.inFlight|;
      && 0 <= kept
      && readBuffer == before[..kept] + Zeros(zero, room)
      && inbound.inFlight == before[kept..]
    }

    method MoveData(out: array<T>, maxLen: Option<nat>) returns (n: nat)
      requires Conserved()
      modifies this`readBuffer, this`delivered, out
      ensures Conserved()
      ensures n == Min(Min(if maxLen.None? then out.Length else maxLen.value, |old(readBuffer)|), out.Length)
      ensures out[..n] == old(readBuffer)[..n] && out[n..] == old(out[n..])
      ensures readBuffer == old(readBuffer)[n..]
      ensures delivered == old(delivered) + out[..n]
    {
      n := Min(Min(if maxLen.None? then out.Length else maxLen.value, |readBuffer|), out.Length);
      forall i | 0 <= i < n {
        out[i] := readBuffer[i];
      }
      delivered := delivered + readBuffer[..n];
      readBuffer := readBuffer[n..];
    }

    /** prepare(room), one read with its timeout, then commit. prepare has already grown
      * the vector, so an error leaves `room` zero elements behind the buffered ones. */
    method Refill(room: nat) returns (r: Expected<nat>)
      requires Conserved()
      modifies this`readBuffer, this`received, this`intact, inbound`inFlight
      ensures Conserved()
      ensures Arrivals() == old(Arrivals())
      ensures r.Success? ==>
                && 0 < r.value <= room
                && r.value + |inbound.inFlight| == |old(inbound.inFlight)|
                && Pending() == old(Pending())
                && old(readBuffer) <= readBuffer
                && intact == old(intact)
      ensures r.Failure? ==>
                && readBuffer == old(readBuffer) + Zeros(zero, room)
                && inbound.inFlight == old(inbound.inFlight)
                && !intact && r.error != UncaughtException
      ensures room == 0 ==> r == Failure(Eof)
      ensures inbound.reliable && room > 0 && old(inbound.inFlight) != [] ==> r.Success?
      ensures inbound.reliable && room > 0 && old(inbound.inFlight) == [] ==>
                r == Failure(if inbound.closed then Eof else Timeout)
    {
      var got := inbound.Receive(room);
      if got.Failure? {
        readBuffer := readBuffer + Zeros(zero, room);
        intact := false;
        return Failure(got.error);
      }
      if |got.value| == 0 {
        readBuffer := readBuffer + Zeros(zero, room);
        intact := false;
        return Failure(Eof);
      }
      readBuffer := readBuffer + got.value;
      received := received + got.value;
      r := Success(|got.value|);
    }

    method WriteAll(data: seq<T>) returns (r: Expected<nat>)
      modifies outbound`inFlight
      ensures !connected ==> r == Failure(NotConnected) && outbound.inFlight == old(outbound.inFlight)
      ensures r.Success? ==> r.value == |data| && outbound.inFlight == old(outbound.inFlight) + data
      ensures connected && outbound.reliable ==> r.Success?
    {
      if !connected {
        return Failure(NotConnected);
      }
      r := outbound.Send(data);
    }

    method ReadSome(out: array<T>) returns (r: Expected<nat>)
      requires Conserved()
      modifies this`readBuffer, this`received, this`delivered, this`intact, inbound`inFlight, out
      ensures Conserved() && Arrivals() == old(Arrivals())
      ensures !connected ==> r == Failure(NotConnected) && Pending() == old(Pending())
      ensures connected && out.Length == 0 ==> r == Success(0)
      ensures r.Success? ==>
                && r.value <= out.Length && r.value <= |old(Pending())|
                && (out.Length > 0 ==> r.value > 0)
                && out[..r.value] == old(Pending())[..r.value]
                && out[r.value..] == Zeros(zero, out.Length - r.value)
                && Pending() == old(Pending())[r.value..]
                && intact == old(intact)
                && delivered == old(delivered) + out[..r.value]
      ensures r.Failure? ==> delivered == old(delivered)
      ensures connected && r.Failure? ==>
                && old(readBuffer) == [] && readBuffer == Zeros(zero, out.Length)
                && inbound.inFlight == old(inbound.inFlight)
      ensures connected && inbound.reliable && out.Length > 0 ==>
                if old(Pending()) != [] then r.Success?
                else r == Failure(if inbound.closed then Eof else Timeout)
    {
      if !connected {
        return Failure(NotConnected);
      }
      forall i | 0 <= i < out.Length {
        out[i] := zero;
      }
      if out.Length == 0 {
        return Success(0);
      }
      if readBuffer == [] {
        var got := Refill(out.Length);
        if got.Failure? {
          return Failure(got.error);
        }
      }
      var n := MoveData(out, None);
      assert old(Pending())[..n] == out[..n];
      r := Success(n);
    }

    method ReadExact(out: array<T>) returns (r: Expected<nat>)
      requires Conserved()
      modifies this`readBuffer, this`received, this`delivered, this`intact, inbound`inFlight, out
      ensures Conserved() && Arrivals() == old(Arrivals())
      ensures !connected ==> r == Failure(NotConnected) && Pending() == old(Pending())
      ensures r.Success? ==>
                && r.value == out.Length <= |old(Pending())|
                && out[..] == old(Pending())[..out.Length]
                && Pending() == old(Pending())[out.Length..]
                && intact == old(intact)
                && delivered == old(delivered) + out[..]
      ensures r.Failure? ==> delivered == old(delivered)
      ensures connected && r.Failure? ==>
                && Stalled(old(Pending()), out.Length) && !intact
                && |old(readBuffer)| + |old(inbound.inFlight)| - |inbound.inFlight| < out.Length
      ensures connected && out.Length <= |old(readBuffer)| ==> r.Success?
      ensures connected && inbound.reliable ==>
                if out.Length <= |old(Pending())| then r.Success?
                else r == Failure(if inbound.closed then Eof else Timeout) && inbound.inFlight == []
    {
      if !connected {
        return Failure(NotConnected);
      }
      forall i | 0 <= i < out.Length {
        out[i] := zero;
      }
      while |readBuffer| < out.Length
        invariant Conserved() && Arrivals() == old(Arrivals())
        invariant Pending() == old(Pending())
        invariant old(readBuffer) <= readBuffer
        invariant intact == old(intact) && delivered == old(delivered)
        decreases |inbound.inFlight|
      {
        var got := Refill(out.Length);
        if got.Failure? {
          return Failure(got.error);
        }
      }
      var n := MoveData(out, None);
      assert out[..] == out[..n];
      assert old(Pending())[..n] == out[..n];
      r := Success(n);
    }

    method ReadUntil(out: array<T>, delimiter: seq<T>) returns (r: Expected<nat>)
      requires Conserved()
      modifies this`readBuffer, this`received, this`delivered, this`intact, inbound`inFlight, out
      ensures Conserved() && Arrivals() == old(Arrivals())
      ensures !connected ==> r == Failure(NotConnected) && Pending() == old(Pending())
      ensures r.Success? ==>
                && Find(old(Pending()), delimiter).Some?
                && Find(old(Pending()), delimiter).value < out.Length
                && r.value <= |old(Pending())|
                && r.value == UntilCount(Find(old(Pending()), delimiter).value, r.value + |readBuffer|, out.Length)
                && Find(old(Pending()), delimiter).value + |delimiter| <= r.value + |readBuffer|
                && out[..r.value] == old(Pending())[..r.value]
                && out[r.value..] == old(out[r.value..])
                && Pending() == old(Pending())[r.value..]
                && intact == old(intact)
                && delivered == old(delivered) + out[..r.value]
      ensures r.Failure? ==> delivered == old(delivered) && out[..] == old(out[..])
      ensures connected && r.Failure? ==>
                || (Stalled(old(Pending()), out.Length) && !intact
                    && Find(readBuffer[..|readBuffer| - out.Length], delimiter).None?)
                || (r.error == ProtocolError && Pending() == old(Pending()) && intact == old(intact)
                    && Find(readBuffer, delimiter).Some? && Find(readBuffer, delimiter).value >= out.Length)
      ensures r.Failure? ==> old(readBuffer) <= readBuffer && r.error != UncaughtException
      ensures connected && out.Length == 0 ==>
                r == Failure(if Find(old(readBuffer), delimiter).Some? then ProtocolError else Eof)
      ensures connected && inbound.reliable && out.Length > 0 ==>
                match Find(old(Pending()), delimiter)
                case None => r == Failure(if inbound.closed then Eof else Timeout) && inbound.inFlight == []
                case Some(p) =>
                  if p < out.Length then r.Success?
                  else r == Failure(ProtocolError) && Pending() == old(Pending())
    {
      hide Find, FirstAt, OccursAt, Zeros;
      if !connected {
        return Failure(NotConnected);
      }
      while true
        invariant Conserved() && Arrivals() == old(Arrivals())
        invariant Pending() == old(Pending())
        invariant intact == old(intact) && delivered == old(delivered)
        invariant out[..] == old(out[..])
        invariant old(readBuffer) <= readBuffer
        invariant out.Length == 0 ==> readBuffer == old(readBuffer)
        decreases |inbound.inFlight|
      {
        var found := Find(readBuffer, delimiter);
        if found.Some? {
          FindInPrefix(readBuffer, inbound.inFlight, delimiter);
          if found.value + 1 > out.Length {
            return Failure(ProtocolError);
          }
          var n := MoveData(out, Some(found.value + 2));
          assert old(Pending())[..n] == out[..n];
          return Success(n);
        }
        assert inbound.inFlight == [] ==> readBuffer == old(Pending());
        ghost var kept := readBuffer;
        var got := Refill(out.Length);
        if got.Failure? {
          assert readBuffer[..|readBuffer| - out.Length] == kept;
          return Failure(got.error);
        }
      }
    }
  }

  datatype ReadOp<T> = ReadSome(room: nat) | ReadExact(room: nat) | ReadUntil(room: nat, delimiter: seq<T>)

  /** One read; a call that fails hands out nothing. */
  method Perform<T(==, 0)>(socket: Socket<T>, op: ReadOp<T>) returns (chunk: seq<T>)
    requires socket.Conserved()
    modifies socket, socket.inbound
    ensures socket.Conserved() && |chunk| <= op.room
    ensures socket.Arrivals() == old(socket.Arrivals())
    ensures socket.delivered == old(socket.delivered) + chunk
  {
    var out := new T[op.room];
    var got: Expected<nat>;
    match op {
      case ReadSome(_) => got := socket.ReadSome(out);
      case ReadExact(_) => got := socket.ReadExact(out);
      case ReadUntil(_, delimiter) => got := socket.ReadUntil(out, delimiter);
    }
    if got.Failure? {
      return [];
    }
    chunk := out[..got.value];
    assert op.ReadExact? ==> chunk == out[..];
  }

  /** Any interleaving of the three reads. While no refill fails, what the calls handed out,
    * in order, followed by what is pending, is exactly what was pending before. */
  method Interleave<T(==, 0)>(socket: Socket<T>, ops: seq<ReadOp<T>>) returns (chunks: seq<seq<T>>)
    requires socket.Conserved() && socket.intact
    modifies socket, socket.inbound
    ensures socket.Conserved() && |chunks| == |ops|
    ensures forall i :: 0 <= i < |chunks| ==> |chunks[i]| <= ops[i].room
    ensures socket.intact ==> Flatten(chunks) + socket.Pending() == old(socket.Pending())
  {
    chunks := [];
    for i := 0 to |ops|
      invariant socket.Conserved() && |chunks| == i
      invariant socket.Arrivals() == old(socket.Arrivals())
      invariant socket.delivered == old(socket.delivered) + Flatten(chunks)
      invariant forall k :: 0 <= k < i ==> |chunks[k]| <= ops[k].room
    {
      var chunk := Perform(socket, ops[i]);
      ghost var before := chunks;
      chunks := chunks + [chunk];
      assert chunks[..|chunks| - 1] == before;
    }
    if socket.intact {
      assert old(socket.delivered + socket.Pending() == socket.Arrivals());
      assert socket.delivered + socket.Pending() == socket.Arrivals();
      CancelPrefix(old(socket.delivered), Flatten(chunks) + socket.Pending(), old(socket.Pending()));
    }
  }

  /** n elements of s are its shortest prefix that ends in the delimiter. */
  ghost predicate ShortestEndingIn<T>(s: seq<T>, delimiter: seq<T>, n: nat) {
    && |delimiter| <= n <= |s|
    && s[n - |delimiter|..n] == delimiter
    && forall k: nat :: k + |delimiter| < n ==> !OccursAt(s, delimiter, k)
  }

  /** readUntil hands out the shortest prefix ending in a non-empty delimiter exactly when the
    * delimiter has two elements and both fit, or has one and the copy happens to be cut short
    * after it, by the end of the buffer or of the caller's room. */
  lemma ReadUntilExactness<T>(s: seq<T>, delimiter: seq<T>, buffered: nat, room: nat)
    requires delimiter != [] && Find(s, delimiter).Some?
    requires Find(s, delimiter).value < room
    requires Find(s, delimiter).value + |delimiter| <= buffered <= |s|
    ensures var p := Find(s, delimiter).value;
            ShortestEndingIn(s, delimiter, UntilCount(p, buffered, room)) <==>
              || (|delimiter| == 2 && p + 2 <= room)
              || (|delimiter| == 1 && (buffered == p + 1 || room == p + 1))
  {
    var p := Find(s, delimiter).value;
    var n := UntilCount(p, buffered, room);
    assert OccursAt(s, delimiter, p);
    if n == p + |delimiter| {
      assert ShortestEndingIn(s, delimiter, n);
    } else if ShortestEndingIn(s, delimiter, n) {
      assert OccursAt(s, delimiter, n - |delimiter|);
      assert false;
    }
  }

  /** A failed readExact is not harmless, whatever made it fail: calling it again on the same
    * socket succeeds, and hands the caller the `kept` elements that did arrive, too few,
    * completed with zeros nobody sent. */
  method RetryAfterFailure<T(==, 0)>(socket: Socket<T>, out: array<T>)
    returns (first: Expected<nat>, second: Expected<nat>, ghost kept: nat)
    requires socket.Conserved() && socket.connected
    modifies socket, socket.inbound, out
    ensures first.Failure? ==>
              && second == Success(out.Length)
              && kept < out.Length && kept <= |old(socket.Pending())|
              && out[..] == old(socket.Pending())[..kept] + Zeros(socket.zero, out.Length - kept)
    ensures first.Success? ==>
              && second == first && out.Length <= |old(socket.Pending())|
              && out[..] == old(socket.Pending())[..out.Length]
  {
    first := socket.ReadExact(out);
    kept := 0;
    if first.Success? {
      return first, first, kept;
    }
    kept := |old(socket.Pending())| - |socket.inbound.inFlight|;
    second := socket.ReadExact(out);
  }
}
