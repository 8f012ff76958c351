/** Length-prefixed frames over a socket: a 32-bit big-endian size, then the bytes. */
module Frames {
  import opened Wrappers
  import opened Sequences
  import opened Sockets

  type byte = x: int | 0 <= x < 256
  type uint32 = x: int | 0 <= x < UINT32_COUNT

  const UINT32_COUNT := 0x1_0000_0000
  const PREFIX_SIZE: nat := 4

  /** (length >> shift) & 0xFF for a shift of 24, 16, 8 or 0. */
  function ShiftedByte(length: uint32, index: nat): byte
    requires index < PREFIX_SIZE
  {
    if index == 0 then length / 0x100_0000 % 0x100
    else if index == 1 then length / 0x1_0000 % 0x100
    else if index == 2 then length / 0x100 % 0x100
    else length % 0x100
  }

  /** (length << 8) | b on 32 bits: the bits shifted out at the top are lost. */
  function ShiftIn(length: uint32, b: byte): uint32 {
    (length as int) * 0x100 % UINT32_COUNT + b
  }

  function LengthPrefix(length: uint32): (s: seq<byte>)
    ensures |s| == PREFIX_SIZE
  {
    [ShiftedByte(length, 0), ShiftedByte(length, 1), ShiftedByte(length, 2), ShiftedByte(length, 3)]
  }

  function FoldPrefix(s: seq<byte>): uint32 {
    if s == [] then 0 else ShiftIn(FoldPrefix(s[..|s| - 1]), s[|s| - 1])
  }

  function Positional(s: seq<byte>): int
    requires |s| == PREFIX_SIZE
  {
    s[0] as int * 0x100_0000 + s[1] as int * 0x1_0000 + s[2] as int * 0x100 + s[3]
  }

  lemma FoldFour(s: seq<byte>)
    requires |s| == PREFIX_SIZE
    ensures FoldPrefix(s) == Positional(s)
  {
    assert s[..3][..2] == s[..2] && s[..2][..1] == s[..1] && s[..1][..0] == [];
    assert FoldPrefix(s[..1]) == s[0];
    assert FoldPrefix(s[..2]) == s[0] as int * 0x100 + s[1];
    assert FoldPrefix(s[..3]) == s[0] as int * 0x1_0000 + s[1] as int * 0x100 + s[2];
  }

  /** The most significant byte comes first. */
  lemma PrefixIsBigEndian(length: uint32)
    ensures LengthPrefix(length)
         == [length / 0x100_0000, length / 0x1_0000 % 0x100, length / 0x100 % 0x100, length % 0x100]
  {
  }

  /** Reading the prefix back gives the length, for every 32-bit length. */
  lemma PrefixDecodesToLength(length: uint32)
    ensures FoldPrefix(LengthPrefix(length)) == length
  {
    var q1 := length / 0x100;
    var q2 := q1 / 0x100;
    var q3 := q2 / 0x100;
    assert length / 0x1_0000 == q2 && length / 0x100_0000 == q3 < 0x100;
    PrefixIsBigEndian(length);
    hide FoldPrefix, LengthPrefix;
    FoldFour(LengthPrefix(length));
  }

  /** Every four bytes are the prefix of the length they are read as. */
  lemma LengthEncodesToPrefix(s: seq<byte>)
    requires |s| == PREFIX_SIZE
    ensures LengthPrefix(FoldPrefix(s)) == s
  {
    hide FoldPrefix;
    FoldFour(s);
    var n := Positional(s);
    var n3 := s[0] as int;
    var n2 := n3 * 0x100 + s[1];
    var n1 := n2 * 0x100 + s[2];
    assert n == n1 * 0x100 + s[3];
    assert n / 0x100 == n1 && n / 0x1_0000 == n2 && n / 0x100_0000 == n3;
  }

  /** The bytes writeFrame puts on the wire; the size is cast to 32 bits. */
  function EncodeFrame(frame: seq<byte>): (s: seq<byte>)
    ensures |s| == PREFIX_SIZE + |frame|
  {
    LengthPrefix(|frame| % UINT32_COUNT) + frame
  }

  /** On the wire: the number of bytes that follow, cast to 32 bits and most significant byte
    * first, and then those bytes. */
  lemma FrameLayout(frame: seq<byte>)
    ensures var n := |frame| % 0x1_0000_0000;
            EncodeFrame(frame)
            == [n / 0x100_0000, n / 0x1_0000 % 0x100, n / 0x100 % 0x100, n % 0x100] + frame
  {
    PrefixIsBigEndian(|frame| % UINT32_COUNT);
  }

  /** The frame at the front of a stream and what follows it, if it is there completely. */
  function ParseFrame(s: seq<byte>): (r: Option<(seq<byte>, seq<byte>)>)
    ensures r.Some? ==> |r.value.1| + PREFIX_SIZE + |r.value.0| == |s|
  {
    if |s| < PREFIX_SIZE then None
    else
      var length := FoldPrefix(s[..PREFIX_SIZE]);
      if |s| < PREFIX_SIZE + length then None
      else Some((s[PREFIX_SIZE..PREFIX_SIZE + length], s[PREFIX_SIZE + length..]))
  }

  lemma CutBehindPrefix(prefix: seq<byte>, frame: seq<byte>, rest: seq<byte>, size: nat)
    requires |prefix| == PREFIX_SIZE && size <= |frame|
    ensures var s := prefix + frame + rest;
            && s[..PREFIX_SIZE] == prefix
            && s[PREFIX_SIZE..PREFIX_SIZE + size] == frame[..size]
            && s[PREFIX_SIZE + size..] == frame[size..] + rest
  {
  }

  lemma ParseEncoded(frame: seq<byte>, rest: seq<byte>)
    ensures var size := |frame| % UINT32_COUNT;
            ParseFrame(EncodeFrame(frame) + rest) == Some((frame[..size], frame[size..] + rest))
  {
    var size := |frame| % UINT32_COUNT;
    PrefixDecodesToLength(size);
    hide LengthPrefix, FoldPrefix;
    CutBehindPrefix(LengthPrefix(size), frame, rest, size);
  }

  /** A frame written and read back is itself exactly when its size fits in 32 bits; a
    * longer one is cut short and its tail is left to be taken for the next prefix. */
  lemma FrameRoundTripExactly(frame: seq<byte>, rest: seq<byte>)
    ensures ParseFrame(EncodeFrame(frame) + rest) == Some((frame, rest)) <==> |frame| < UINT32_COUNT
  {
    hide ParseFrame, LengthPrefix;
    ParseEncoded(frame, rest);
    var size := |frame| % UINT32_COUNT;
    if |frame| < UINT32_COUNT {
      assert frame[..size] == frame && frame[size..] + rest == rest;
    } else {
      assert |frame[..size]| != |frame|;
    }
  }

  /** No frame is complete before its last byte. */
  lemma NoFrameInProperPrefix(frame: seq<byte>, s: seq<byte>, missing: seq<byte>)
    requires |frame| < UINT32_COUNT
    requires s + missing == EncodeFrame(frame) && missing != []
    ensures ParseFrame(s).None?
  {
    hide LengthPrefix, FoldPrefix;
    if |s| >= PREFIX_SIZE {
      assert s[..PREFIX_SIZE] == (s + missing)[..PREFIX_SIZE] == LengthPrefix(|frame|);
      PrefixDecodesToLength(|frame|);
    }
  }

  method MakeLengthPrefix(length: uint32) returns (prefix: array<byte>)
    ensures fresh(prefix) && prefix[..] == LengthPrefix(length)
  {
    prefix := new byte[PREFIX_SIZE];
    for i := 0 to PREFIX_SIZE
      invariant forall k :: 0 <= k < i ==> prefix[k] == ShiftedByte(length, k)
    {
      prefix[i] := ShiftedByte(length, i);
    }
  }

  method WriteFrame(socket: Socket<byte>, frame: seq<byte>) returns (r: Expected<nat>)
    modifies socket.outbound`inFlight
    ensures socket.connected && socket.outbound.reliable ==> r.Success?
    ensures !socket.connected ==>
              r == Failure(NotConnected) && socket.outbound.inFlight == old(socket.outbound.inFlight)
    ensures r.Success? ==>
              && r.value == PREFIX_SIZE + |frame|
              && socket.outbound.inFlight == old(socket.outbound.inFlight) + EncodeFrame(frame)
  {
    var prefix := MakeLengthPrefix(|frame| % UINT32_COUNT);
    var prefixResult := socket.WriteAll(prefix[..]);
    if prefixResult.Failure? {
      return Failure(prefixResult.error);
    }
    var result := socket.WriteAll(frame);
    if result.Failure? {
      return Failure(result.error);
    }
    assert old(socket.outbound.inFlight) + prefix[..] + frame
        == old(socket.outbound.inFlight) + (prefix[..] + frame);
    r := Success(prefixResult.value + result.value);
  }

  /** Reads the prefix and allocates the buffer it announces. */
  method ReadLengthPrefix(socket: Socket<byte>) returns (r: Expected<array<byte>>)
    requires socket.Conserved()
    modifies socket`readBuffer, socket`received, socket`delivered, socket`intact, socket.inbound`inFlight
    ensures socket.Conserved()
    ensures r.Success? ==>
              && fresh(r.value)
              && PREFIX_SIZE <= |old(socket.Pending())|
              && r.value.Length == FoldPrefix(old(socket.Pending())[..PREFIX_SIZE])
              && socket.Pending() == old(socket.Pending())[PREFIX_SIZE..]
    ensures socket.connected && socket.inbound.reliable ==>
              if PREFIX_SIZE <= |old(socket.Pending())| then r.Success?
              else r == Failure(if socket.inbound.closed then Eof else Timeout)
    ensures !socket.connected ==> r == Failure(NotConnected)
  {
    var buf := new byte[PREFIX_SIZE];
    var result := socket.ReadExact(buf);
    if result.Failure? {
      return Failure(result.error);
    }
    var length: uint32 := 0;
    for i := 0 to PREFIX_SIZE
      invariant length == FoldPrefix(buf[..i])
    {
      assert buf[..i + 1][..i] == buf[..i];
      length := ShiftIn(length, buf[i]);
    }
    assert buf[..PREFIX_SIZE] == buf[..];
    var announced := new byte[length];
    r := Success(announced);
  }

  /** On a reliable connection the result depends on the byte stream alone, however it was
    * cut into chunks. */
  method ReadFrame(socket: Socket<byte>) returns (r: Expected<seq<byte>>)
    requires socket.Conserved()
    modifies socket`readBuffer, socket`received, socket`delivered, socket`intact, socket.inbound`inFlight
    ensures socket.Conserved()
    ensures r.Success? ==> ParseFrame(old(socket.Pending())) == Some((r.value, socket.Pending()))
    ensures socket.connected && socket.inbound.reliable ==>
              if ParseFrame(old(socket.Pending())).Some? then r.Success?
              else r == Failure(if socket.inbound.closed then Eof else Timeout)
    ensures !socket.connected ==> r == Failure(NotConnected)
  {
    var lenBuf := ReadLengthPrefix(socket);
    if lenBuf.Failure? {
      return Failure(lenBuf.error);
    }
    var result := socket.ReadExact(lenBuf.value);
    if result.Failure? {
      return Failure(result.error);
    }
    ghost var before := old(socket.Pending());
    ghost var length := lenBuf.value.Length;
    assert before[PREFIX_SIZE..][..length] == before[PREFIX_SIZE..PREFIX_SIZE + length];
    assert before[PREFIX_SIZE..][length..] == before[PREFIX_SIZE + length..];
    r := Success(lenBuf.value[..]);
  }

  method WriteFrames(socket: Socket<byte>, frames: seq<seq<byte>>) returns (sizes: seq<nat>)
    requires socket.connected && socket.outbound.reliable
    modifies socket.outbound`inFlight
    ensures |sizes| == |frames| && forall i :: 0 <= i < |frames| ==> sizes[i] == PREFIX_SIZE + |frames[i]|
    ensures socket.outbound.inFlight == old(socket.outbound.inFlight) + ConcatMap(frames, EncodeFrame)
  {
    sizes := [];
    for i := 0 to |frames|
      invariant |sizes| == i && forall k :: 0 <= k < i ==> sizes[k] == PREFIX_SIZE + |frames[k]|
      invariant socket.outbound.inFlight == old(socket.outbound.inFlight) + ConcatMap(frames[..i], EncodeFrame)
    {
      var size := WriteFrame(socket, frames[i]);
      ConcatMapAppend(frames[..i], frames[i], EncodeFrame);
      assert frames[..i] + [frames[i]] == frames[..i + 1];
      sizes := sizes + [size.value];
    }
    assert frames[..|frames|] == frames;
  }

  /** Whatever sequence of frames a stream was written from, reading it yields that
    * sequence, in any chunking, and leaves the rest of the stream. */
  method ReadFrames(socket: Socket<byte>, ghost frames: seq<seq<byte>>, ghost rest: seq<byte>, count: nat)
    returns (arrived: seq<seq<byte>>)
    requires socket.connected && socket.inbound.reliable && socket.Conserved()
    requires socket.Pending() == ConcatMap(frames, EncodeFrame) + rest && count == |frames|
    requires forall f :: f in frames ==> |f| < UINT32_COUNT
    modifies socket`readBuffer, socket`received, socket`delivered, socket`intact, socket.inbound`inFlight
    ensures arrived == frames && socket.Pending() == rest && socket.Conserved()
  {
    arrived := [];
    for i := 0 to count
      invariant arrived == frames[..i] && socket.Conserved()
      invariant socket.Pending() == ConcatMap(frames[i..], EncodeFrame) + rest
    {
      ghost var tail := ConcatMap(frames[i..][1..], EncodeFrame) + rest;
      assert socket.Pending() == EncodeFrame(frames[i]) + tail;
      FrameRoundTripExactly(frames[i], tail);
      assert frames[i..][1..] == frames[i + 1..];
      var frame := ReadFrame(socket);
      arrived := arrived + [frame.value];
    }
    assert frames[|frames|..] == [];
  }

  /** The two ends together: what one side writes is what the other side reads. */
  method TransferFrames(writer: Socket<byte>, reader: Socket<byte>, frames: seq<seq<byte>>)
    returns (sizes: seq<nat>, arrived: seq<seq<byte>>)
    requires writer.outbound == reader.inbound && writer.outbound.reliable
    requires writer.connected && reader.connected && reader.Conserved() && reader.Pending() == []
    requires forall f :: f in frames ==> |f| < UINT32_COUNT
    modifies reader, writer.outbound
    ensures arrived == frames && reader.Pending() == []
    ensures |sizes| == |frames| && forall i :: 0 <= i < |frames| ==> sizes[i] == PREFIX_SIZE + |frames[i]|
  {
    sizes := WriteFrames(writer, frames);
    assert reader.Pending() == ConcatMap(frames, EncodeFrame) + [];
    arrived := ReadFrames(reader, frames, [], |frames|);
  }
}
