/** Packets in a stream of bytes: the loop that reads replies off the connection (`spawn_reader` in
    `clift-transport/src/session.rs`). */
module Framing {
  import opened Prelude
  import opened Wire
  import opened Codec

  datatype End = Closed | ClosedInsideAPacket | EmptyPacket | OversizedPacket

  /** What the first four bytes of a packet say about its length. */
  function PacketLength(header: Bytes): Result<nat, End>
    requires |header| == 4
  {
    var length := FromBe(header);
    if length == 0 then Err(EmptyPacket) else if length > MAX_PACKET then Err(OversizedPacket) else Ok(length)
  }

  /** The packets in a stream that has ended, and why reading stopped. */
  function Split(stream: Bytes): (seq<Bytes>, End) {
    if |stream| < 4 then ([], Closed) else
      match PacketLength(stream[..4])
      case Err(end) => ([], end)
      case Ok(length) =>
        if |stream| < 4 + length then ([], ClosedInsideAPacket) else
          var (packets, end) := Split(stream[4 + length..]);
          ([stream[4..4 + length]] + packets, end)
  }

  method ReadPackets(stream: Bytes) returns (packets: seq<Bytes>, end: End)
    ensures (packets, end) == Split(stream)
  {
    hide PacketLength;
    packets := [];
    var position := 0;
    assert stream[0..] == stream && [] + Split(stream).0 == Split(stream).0;
    while true
      invariant position <= |stream|
      invariant Split(stream).0 == packets + Split(stream[position..]).0
      invariant Split(stream).1 == Split(stream[position..]).1
      decreases |stream| - position
    {
      assert packets + [] == packets;
      if |stream| - position < 4 {
        return packets, Closed;
      }
      var length := PacketLength(stream[position..position + 4]);
      assert stream[position..][..4] == stream[position..position + 4];
      if length.Err? {
        return packets, length.error;
      }
      if |stream| - position - 4 < length.value {
        return packets, ClosedInsideAPacket;
      }
      var next := position + 4 + length.value;
      var body := stream[position + 4..next];
      assert stream[position..][4..4 + length.value] == body;
      assert stream[position..][4 + length.value..] == stream[next..];
      assert packets + [body] + Split(stream[next..]).0 == packets + ([body] + Split(stream[next..]).0);
      packets := packets + [body];
      position := next;
    }
  }

  predicate FitsAPacket(body: Bytes) {
    1 <= |body| <= MAX_PACKET
  }

  lemma HeaderBack(body: Bytes)
    requires FitsAPacket(body)
    ensures |Be(|body|, 4)| == 4 && FromBe(Be(|body|, 4)) == |body| && Packet(body) == Be(|body|, 4) + body
  {
    hide Be, FromBe, Pow256, Concat;
    FourBytes(|body|);
    assert |body| % U32_SIZE == |body|;
  }

  lemma FourBytes(v: U32)
    ensures |Be(v, 4)| == 4 && FromBe(Be(v, 4)) == v
  {
    assert Pow256(4) == U32_SIZE;
    hide Be, FromBe;
    FromBeOfBe(v, 4);
  }

  lemma FirstPacket(body: Bytes, rest: Bytes)
    requires FitsAPacket(body)
    ensures Split(Packet(body) + rest) == ([body] + Split(rest).0, Split(rest).1)
  {
    hide Be, FromBe, Packet;
    var stream := Packet(body) + rest;
    HeaderBack(body);
    assert stream[..4] == Be(|body|, 4);
    assert stream[4..4 + |body|] == body && stream[4 + |body|..] == rest;
  }

  /** Any packets of legal size, one after another, are split into exactly those packets. */
  lemma {:induction false} PacketsComeBack(packets: seq<Bytes>, rest: Bytes, stream: Bytes)
    requires forall i :: 0 <= i < |packets| ==> FitsAPacket(packets[i])
    requires stream == Concat(Packet, packets) + rest
    ensures Split(stream) == (packets + Split(rest).0, Split(rest).1)
  {
    if packets == [] {
      assert stream == rest;
      assert packets + Split(rest).0 == Split(rest).0;
    } else {
      var first, tail := packets[0], packets[1..];
      var later := Concat(Packet, tail) + rest;
      assert stream == Packet(first) + later;
      PacketsComeBack(tail, rest, later);
      FirstPacket(first, later);
      Reassemble(packets, Split(rest).0);
    }
  }

  lemma Reassemble(packets: seq<Bytes>, more: seq<Bytes>)
    requires packets != []
    ensures [packets[0]] + (packets[1..] + more) == packets + more
  {
  }

  lemma LastByte(s: Bytes)
    requires s != []
    ensures FromBe(s) / 256 == FromBe(s[..|s| - 1]) && FromBe(s) % 256 == s[|s| - 1]
  {
    var front, last := FromBe(s[..|s| - 1]), s[|s| - 1];
    assert FromBe(s) == 256 * front + last;
  }

  lemma {:induction false} FromBeInjective(s: Bytes, t: Bytes)
    requires |s| == |t| && FromBe(s) == FromBe(t)
    ensures s == t
  {
    hide FromBe;
    if s != [] {
      LastByte(s);
      LastByte(t);
      FromBeInjective(s[..|s| - 1], t[..|t| - 1]);
      assert s == s[..|s| - 1] + [s[|s| - 1]];
      assert t == t[..|t| - 1] + [t[|t| - 1]];
    }
  }

  lemma HeaderIs(header: Bytes)
    requires |header| == 4
    ensures FromBe(header) < U32_SIZE && header == Be(FromBe(header), 4)
  {
    assert Pow256(4) == U32_SIZE;
    hide FromBe, Be;
    FourBytes(FromBe(header));
    FromBeInjective(header, Be(FromBe(header), 4));
  }

  /** A packet split off the front of a stream is there, byte for byte. */
  lemma SplitFirst(stream: Bytes) returns (later: Bytes)
    requires Split(stream).0 != []
    ensures FitsAPacket(Split(stream).0[0])
    ensures stream == Packet(Split(stream).0[0]) + later
    ensures Split(stream).0[1..] == Split(later).0 && |later| < |stream|
  {
    var length := FromBe(stream[..4]);
    var body := stream[4..4 + length];
    later := stream[4 + length..];
    hide FromBe, Be, Concat;
    assert Split(stream).0 == [body] + Split(later).0;
    HeaderIs(stream[..4]);
    assert length % U32_SIZE == length;
  }

  /** And nothing else is ever handed on: the packets split off a stream are its beginning, byte for byte, and what
      is left does not begin with another. */
  lemma {:induction false} PacketsAreTheStream(stream: Bytes) returns (rest: Bytes)
    ensures stream == Concat(Packet, Split(stream).0) + rest
    ensures forall i :: 0 <= i < |Split(stream).0| ==> FitsAPacket(Split(stream).0[i])
    ensures Split(rest).0 == []
    decreases |stream|
  {
    hide Split, Packet, FitsAPacket;
    var packets := Split(stream).0;
    if packets == [] {
      rest := stream;
      assert Concat(Packet, packets) + stream == stream;
    } else {
      var later := SplitFirst(stream);
      rest := PacketsAreTheStream(later);
      assert packets[1..] == Split(later).0;
      assert Concat(Packet, packets) + rest == Packet(packets[0]) + (Concat(Packet, packets[1..]) + rest);
    }
  }
}
