/**
 * checksum and encode_msg of include/mbot/messages.hpp: the packets of the
 * rosserial protocol (section "Packet Format" of rosserial/Overview/Protocol).
 */
module SerialPacket {
  import opened Bytes
  import opened Messages
  import opened Serialization
  import opened TimeMath

  type U16 = x: int | 0 <= x < 0x1_0000

  const SYNC_FLAG: Byte := 0xff
  const VERSION_FLAG: Byte := 0xfe
  const OVERHEAD: nat := 8
  const MBOT_TIMESYNC: U16 := 201
  const MBOT_VEL_CMD: U16 := 214

  /** The longest payload whose length the header can hold. */
  const MAX_PAYLOAD: nat := 65535

  /** Up to so many bytes the checksum's int cannot overflow. */
  const MAX_ADDENDS: nat := 8_421_504

  /** What goes into a packet. */
  datatype Msg = Msg(topic: U16, payload: seq<Byte>)

  // ----- checksums -----

  function Sum(s: seq<Byte>): nat {
    if s == [] then 0 else Sum(s[..|s| - 1]) + s[|s| - 1]
  }

  function Checksum(s: seq<Byte>): Byte {
    255 - Sum(s) % 256
  }

  /** A span with its checksum in it adds up to 255. */
  predicate Balanced(s: seq<Byte>) {
    Sum(s) % 256 == 255
  }

  lemma {:induction false} SumConcat(a: seq<Byte>, b: seq<Byte>)
    ensures Sum(a + b) == Sum(a) + Sum(b)
    decreases |b|
  {
    if b == [] {
      assert a + b == a;
    } else {
      assert (a + b)[..|a + b| - 1] == a + b[..|b| - 1];
      SumConcat(a, b[..|b| - 1]);
    }
  }

  /** With SumConcat this is all there is to know about Sum. */
  lemma SumOne(b: Byte)
    ensures Sum([]) == 0 && Sum([b]) == b
  {
    assert [b][..0] == [];
  }

  lemma ChecksumBalances(s: seq<Byte>)
    ensures Balanced(s + [Checksum(s)])
  {
    assert (s + [Checksum(s)])[..|s|] == s;
  }

  lemma {:induction false} SumBound(s: seq<Byte>)
    ensures Sum(s) <= 255 * |s|
  {
    if s != [] { SumBound(s[..|s| - 1]); }
  }

  lemma DifferentResidues(total: nat, old_: Byte, new_: Byte)
    requires total >= old_ && old_ != new_ && total % 256 == 255
    ensures (total - old_ + new_) % 256 != 255
  {
  }

  /** Changing one byte always unbalances a span. */
  lemma OneChangeUnbalances(s: seq<Byte>, i: nat, b: Byte)
    requires i < |s| && b != s[i]
    requires Balanced(s)
    ensures !Balanced(s[i := b])
  {
    var before, after := s[..i], s[i + 1..];
    assert s == before + [s[i]] + after && s[i := b] == before + [b] + after;
    SumConcat(before + [s[i]], after);
    SumConcat(before, [s[i]]);
    SumConcat(before + [b], after);
    SumConcat(before, [b]);
    assert Sum([s[i]]) == Sum([]) + s[i] && Sum([b]) == Sum([]) + b;
    DifferentResidues(Sum(s), s[i], b);
  }

  method ChecksumOf(addends: array<Byte>, len: nat) returns (c: Byte)
    requires len <= addends.Length && len <= MAX_ADDENDS
    ensures c == Checksum(addends[..len])
  {
    var sum := 0;
    for i := 0 to len
      invariant sum == Sum(addends[..i])
    {
      assert addends[..i + 1][..i] == addends[..i];
      SumBound(addends[..i + 1]);
      sum := sum + addends[i];
      assert sum <= INT_MAX;
    }
    c := 255 - sum % 256;
  }

  // ----- packets -----

  function LengthBytes(n: nat): seq<Byte> {
    [n % 256, n / 256 % 256]
  }

  function TopicBytes(topic: U16): seq<Byte> {
    [topic % 256, topic / 256]
  }

  /** The bytes that encode_msg produces. */
  function Wire(m: Msg): (p: seq<Byte>)
    ensures |p| == |m.payload| + OVERHEAD
  {
    var length, body := LengthBytes(|m.payload|), TopicBytes(m.topic) + m.payload;
    [SYNC_FLAG, VERSION_FLAG] + (length + [Checksum(length)]) + (body + [Checksum(body)])
  }

  /** The seven bytes in front of the payload. */
  function HeaderBytes(n: nat, topic: U16): (h: seq<Byte>)
    ensures |h| == 7
  {
    [SYNC_FLAG, VERSION_FLAG] + LengthBytes(n) + [Checksum(LengthBytes(n))] + TopicBytes(topic)
  }

  lemma WireLayout(m: Msg)
    ensures Wire(m) == HeaderBytes(|m.payload|, m.topic) + m.payload + [Checksum(TopicBytes(m.topic) + m.payload)]
  {
  }

  /** The second checksum, over a scratch copy of the topic and the payload. */
  method BodyChecksum(msg: array<Byte>, low: Byte, high: Byte) returns (c: Byte)
    requires msg.Length + 2 <= MAX_ADDENDS
    ensures c == Checksum([low, high] + msg[..])
  {
    var n := msg.Length;
    var cs2 := new Byte[n + 2];
    cs2[0], cs2[1] := low, high;
    for i := 0 to n
      invariant cs2[..i + 2] == [low, high] + msg[..i]
    {
      cs2[i + 2] := msg[i];
      assert msg[..i + 1] == msg[..i] + [msg[i]];
    }
    assert msg[..n] == msg[..];
    c := ChecksumOf(cs2, n + 2);
  }

  /** Flags, length, its checksum and the topic. */
  method WriteHeader(rospkt: array<Byte>, n: nat, topic: U16)
    requires rospkt.Length >= OVERHEAD
    modifies rospkt
    ensures rospkt[..7] == HeaderBytes(n, topic)
  {
    rospkt[0] := SYNC_FLAG;
    rospkt[1] := VERSION_FLAG;
    rospkt[2] := n % 256;
    rospkt[3] := n / 256 % 256;

    var cs1 := new Byte[2];
    cs1[0], cs1[1] := rospkt[2], rospkt[3];
    assert cs1[..2] == LengthBytes(n);
    rospkt[4] := ChecksumOf(cs1, 2);
    rospkt[5] := topic % 256;
    rospkt[6] := topic / 256;
  }

  /** memcpy of the payload behind the header. */
  method CopyPayload(rospkt: array<Byte>, msg: array<Byte>)
    requires msg != rospkt && msg.Length + OVERHEAD == rospkt.Length
    modifies rospkt
    ensures rospkt[..7] == old(rospkt[..7]) && rospkt[7..msg.Length + 7] == msg[..]
  {
    CopyInto(rospkt, 7, msg[..]);
  }

  method EncodeMsg(msg: array<Byte>, topic: U16, rospkt: array<Byte>) returns (status: int)
    requires msg != rospkt && msg.Length + 2 <= MAX_ADDENDS
    modifies rospkt
    ensures status == if rospkt.Length == msg.Length + OVERHEAD then 0 else -1
    ensures status == 0 ==> rospkt[..] == Wire(Msg(topic, msg[..]))
    ensures status != 0 ==> rospkt[..] == old(rospkt[..])
  {
    hide Wire, Checksum, Splice;
    var n := msg.Length;
    if n + OVERHEAD != rospkt.Length {
      return -1;
    }
    WriteHeader(rospkt, n, topic);
    CopyPayload(rospkt, msg);
    assert [rospkt[5], rospkt[6]] == rospkt[..7][5..] == TopicBytes(topic);
    rospkt[n + 7] := BodyChecksum(msg, rospkt[5], rospkt[6]);
    WireLayout(Msg(topic, msg[..]));
    assert rospkt[..] == rospkt[..7] + rospkt[7..n + 7] + [rospkt[n + 7]];
    return 0;
  }

  // ----- what a receiver can tell -----

  /** The checks that the protocol asks for, over a candidate packet. */
  predicate WellFormed(p: seq<Byte>) {
    |p| >= OVERHEAD && p[0] == SYNC_FLAG && p[1] == VERSION_FLAG && Balanced(p[2..5]) && Balanced(p[5..])
  }

  lemma WireParts(m: Msg)
    ensures var length, body := LengthBytes(|m.payload|), TopicBytes(m.topic) + m.payload;
            && Wire(m)[..2] == [SYNC_FLAG, VERSION_FLAG]
            && Wire(m)[2..5] == length + [Checksum(length)]
            && Wire(m)[5..] == body + [Checksum(body)]
  {
  }

  /** Both checksums of every packet are right, for any payload and topic. */
  lemma WireIsWellFormed(m: Msg)
    ensures WellFormed(Wire(m))
  {
    WireParts(m);
    assert Wire(m)[0] == Wire(m)[..2][0] && Wire(m)[1] == Wire(m)[..2][1];
    ChecksumBalances(LengthBytes(|m.payload|));
    ChecksumBalances(TopicBytes(m.topic) + m.payload);
  }

  /** Any single changed byte is caught by a flag or by one of the two checksums. */
  lemma SingleByteErrorCaught(m: Msg, i: nat, b: Byte)
    requires i < |Wire(m)| && b != Wire(m)[i]
    ensures !WellFormed(Wire(m)[i := b])
  {
    var p := Wire(m);
    WireIsWellFormed(m);
    if 2 <= i < 5 {
      OneChangeUnbalances(p[2..5], i - 2, b);
      assert p[i := b][2..5] == p[2..5][i - 2 := b];
    } else if i >= 5 {
      OneChangeUnbalances(p[5..], i - 5, b);
      assert p[i := b][5..] == p[5..][i - 5 := b];
    }
  }

  /** Every byte of a packet, as the protocol numbers them. */
  lemma PacketLayout(m: Msg)
    ensures var p, n := Wire(m), |m.payload|;
            && |p| == n + 8
            && p[0] == 0xff && p[1] == 0xfe
            && p[2] == n % 256 && p[3] == n / 256 % 256 && p[4] == 255 - (p[2] as int + p[3] as int) % 256
            && p[5] == m.topic % 256 && p[6] == m.topic / 256
            && p[7..n + 7] == m.payload && p[n + 7] == 255 - Sum(p[5..n + 7]) % 256
  {
    WireLayout(m);
    var p, n := Wire(m), |m.payload|;
    var length := LengthBytes(n);
    assert length[..1][..0] == [] && length[..1] == [n % 256];
    assert Sum(length) == Sum(length[..1]) + length[1] && Sum(length[..1]) == Sum([]) + length[0];
    assert p[5..n + 7] == TopicBytes(m.topic) + m.payload;
  }

  // ----- parsing a stream of packets -----

  function PayloadLength(s: seq<Byte>): nat
    requires |s| >= OVERHEAD
  {
    s[2] as int + 256 * (s[3] as int)
  }

  predicate HasPacket(s: seq<Byte>) {
    |s| >= OVERHEAD && |s| >= PayloadLength(s) + OVERHEAD && WellFormed(s[..PayloadLength(s) + OVERHEAD])
  }

  function FirstPacket(s: seq<Byte>): Msg
    requires HasPacket(s)
  {
    Msg(s[5] as int + 256 * (s[6] as int), s[7..7 + PayloadLength(s)])
  }

  function Packets(s: seq<Byte>): seq<Msg>
    decreases |s|
  {
    if !HasPacket(s) then [] else [FirstPacket(s)] + Packets(s[PayloadLength(s) + OVERHEAD..])
  }

  predicate Sendable(m: Msg) { |m.payload| <= MAX_PAYLOAD }

  lemma WireParses(m: Msg, rest: seq<Byte>)
    requires Sendable(m)
    ensures HasPacket(Wire(m) + rest)
    ensures FirstPacket(Wire(m) + rest) == m && PayloadLength(Wire(m) + rest) == |m.payload|
    ensures Packets(Wire(m) + rest) == [m] + Packets(rest)
  {
    var p, s := Wire(m), Wire(m) + rest;
    WireIsWellFormed(m);
    WireParts(m);
    assert s[2] == p[2..5][0] && s[3] == p[2..5][1];
    assert PayloadLength(s) == |m.payload|;
    assert s[..|p|] == p && s[|p|..] == rest;
    assert s[5] == p[5..][0] && s[6] == p[5..][1];
    assert s[7..7 + |m.payload|] == p[5..][2..2 + |m.payload|] == m.payload;
  }

  lemma CutPacketHidden(m: Msg, k: nat)
    requires Sendable(m) && k < |Wire(m)|
    ensures Packets(Wire(m)[..k]) == []
  {
    var p := Wire(m);
    if k >= OVERHEAD {
      WireParts(m);
      assert p[..k][2] == p[2..5][0] && p[..k][3] == p[2..5][1];
      assert PayloadLength(p[..k]) == |m.payload|;
    }
  }

  /** A packet gives its topic and payload back exactly when the payload length fits the header. */
  lemma RecoverableIff(m: Msg)
    ensures Packets(Wire(m)) == [m] <==> Sendable(m)
  {
    assert Wire(m) + [] == Wire(m);
    if Sendable(m) {
      WireParses(m, []);
      assert Packets([]) == [];
    } else {
      var s := Wire(m);
      if HasPacket(s) {
        assert |FirstPacket(s).payload| <= MAX_PAYLOAD;
        assert Packets(s)[0] == FirstPacket(s);
      }
    }
  }

  // ----- the two messages that MBot sends -----

  function BitsOfI64(i: int): nat {
    i % U64_LIMIT
  }

  function I64OfBits(b: nat): int {
    if b < OBJECT_LIMIT then b else b - U64_LIMIT
  }

  /** serial_twist2D_t: the stamp in microseconds, then the three speeds. */
  function DriveMsg(c: Command): Msg {
    Msg(MBOT_VEL_CMD, LE(BitsOfI64(DriveUtime(c.header.stamp)), 8) + EncodeTwist(c.twist))
  }

  /** serial_timestamp_t: clock_gettime in microseconds. */
  function TimesyncMsg(sec: int, nsec: nat): Msg {
    Msg(MBOT_TIMESYNC, LE(BitsOfI64(sec * 1_000_000 + nsec / 1000), 8))
  }

  lemma UtimeFits(t: Stamp)
    ensures -OBJECT_LIMIT < DriveUtime(t) < OBJECT_LIMIT
  {
    TruncDivBounds(FromMsg(t), MICROSECOND);
  }

  lemma BitsOfI64Exact(i: int)
    requires -OBJECT_LIMIT <= i < OBJECT_LIMIT
    ensures BitsOfI64(i) == if i < 0 then i + U64_LIMIT else i
  {
  }

  /** The 8 bytes of a time packet read back to the whole microseconds of the clock reading. */
  lemma TickValue(sec: int, nsec: nat)
    requires nsec < SECOND && -OBJECT_LIMIT <= sec * 1_000_000 + nsec / 1000 < OBJECT_LIMIT
    ensures var m := TimesyncMsg(sec, nsec);
            && m.topic == 201 && |m.payload| == 8
            && var u := I64OfBits(FromLE(m.payload));
               u * 1000 <= sec * 1_000_000_000 + nsec < u * 1000 + 1000
  {
    hide LE, FromLE, BitsOfI64;
    var us := sec * 1_000_000 + nsec / 1000;
    Pow256Of8();
    BitsOfI64Exact(us);
    FromToLE(BitsOfI64(us), 8);
  }

  /** What a drive packet holds: whole microseconds, then the three speeds. */
  lemma DriveValue(c: Command)
    ensures var m, u := DriveMsg(c), DriveUtime(c.header.stamp);
            && m.topic == 214 && |m.payload| == 20
            && I64OfBits(FromLE(m.payload[..8])) == u
            && FromLE(m.payload[8..12]) == c.twist.vx
            && FromLE(m.payload[12..16]) == c.twist.vy
            && FromLE(m.payload[16..]) == c.twist.wz
  {
    hide LE, FromLE, BitsOfI64, DriveUtime;
    var u, p := DriveUtime(c.header.stamp), DriveMsg(c).payload;
    UtimeFits(c.header.stamp);
    Pow256Of8();
    Pow256Of4();
    BitsOfI64Exact(u);
    assert p[..8] == LE(BitsOfI64(u), 8) && p[8..12] == LE(c.twist.vx, 4);
    assert p[12..16] == LE(c.twist.vy, 4) && p[16..] == LE(c.twist.wz, 4);
    FromToLE(BitsOfI64(u), 8);
    FromToLE(c.twist.vx, 4);
    FromToLE(c.twist.vy, 4);
    FromToLE(c.twist.wz, 4);
  }

  lemma TwistRecoverable(t: Twist, u: Twist)
    requires EncodeTwist(t) == EncodeTwist(u)
    ensures t == u
  {
    var v, w := EncodeTwist(t), EncodeTwist(u);
    assert LE(t.vx, 4) == v[..4] == w[..4] == LE(u.vx, 4);
    assert LE(t.vy, 4) == v[4..8] == w[4..8] == LE(u.vy, 4);
    assert LE(t.wz, 4) == v[8..] == w[8..] == LE(u.wz, 4);
    Pow256Of4();
    FromToLE(t.vx, 4); FromToLE(u.vx, 4);
    FromToLE(t.vy, 4); FromToLE(u.vy, 4);
    FromToLE(t.wz, 4); FromToLE(u.wz, 4);
  }

  lemma I64Recoverable(i: int, j: int)
    requires -OBJECT_LIMIT <= i < OBJECT_LIMIT && -OBJECT_LIMIT <= j < OBJECT_LIMIT
    requires LE(BitsOfI64(i), 8) == LE(BitsOfI64(j), 8)
    ensures i == j
  {
    hide LE, FromLE, BitsOfI64;
    Pow256Of8();
    BitsOfI64Exact(i);
    BitsOfI64Exact(j);
    FromToLE(BitsOfI64(i), 8);
    FromToLE(BitsOfI64(j), 8);
  }

  /** The motor board can read the command's time and speeds out of the packet. */
  lemma DriveMsgRecoverable(c: Command, d: Command)
    requires DriveMsg(c) == DriveMsg(d)
    ensures DriveUtime(c.header.stamp) == DriveUtime(d.header.stamp) && c.twist == d.twist
  {
    hide EncodeTwist, LE, DriveUtime, BitsOfI64;
    var t, u := DriveUtime(c.header.stamp), DriveUtime(d.header.stamp);
    var x, y := DriveMsg(c).payload, DriveMsg(d).payload;
    assert LE(BitsOfI64(t), 8) == x[..8] == y[..8] == LE(BitsOfI64(u), 8);
    assert EncodeTwist(c.twist) == x[8..] == y[8..] == EncodeTwist(d.twist);
    UtimeFits(c.header.stamp);
    UtimeFits(d.header.stamp);
    I64Recoverable(t, u);
    TwistRecoverable(c.twist, d.twist);
  }

  /** The packet that MBot::drive hands to write. */
  method BuildDrive(cmd: Command) returns (pkt: array<Byte>)
    ensures fresh(pkt) && pkt[..] == Wire(DriveMsg(cmd))
  {
    var body := DriveMsg(cmd).payload;
    var mbotCmd := new Byte[20](i requires 0 <= i < 20 => body[i]);
    assert mbotCmd[..] == body;
    pkt := new Byte[20 + OVERHEAD];
    var status := EncodeMsg(mbotCmd, MBOT_VEL_CMD, pkt);
  }
}
