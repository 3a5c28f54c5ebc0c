/**
 * The four message classes of the command path: standard::Time,
 * standard::Header, geometry::Twist2D and geometry::Twist2DStamped.
 *
 * The datatypes are what the messages mean; the classes are the mutable
 * objects. ReadX gives the exact state that deserialize leaves in an object,
 * fields already overwritten before a failure included. Floats are 32-bit
 * patterns.
 */
module Messages {
  import opened Bytes
  import opened Codec
  import opened Serialization

  datatype Stamp = Stamp(sec: I32, nsec: I32)
  datatype Header = Header(seqNo: U32, stamp: Stamp, frameId: seq<Byte>)
  datatype Twist = Twist(vx: U32, vy: U32, wz: U32)
  datatype Command = Command(header: Header, twist: Twist)

  const ZERO_TIME := Stamp(0, 0)
  const ZERO_HEADER := Header(0, ZERO_TIME, [])
  const ZERO_TWIST := Twist(0, 0, 0)
  const ZERO_COMMAND := Command(ZERO_HEADER, ZERO_TWIST)

  const TIME := Message([Number(4), Number(4)])
  const HEADER := Message([Number(4), TIME, Text])
  const TWIST := Message([Number(4), Number(4), Number(4)])
  const STAMPED := Message([HEADER, TWIST])

  function TimeValue(t: Stamp): Value { Many([Num(BitsOfI32(t.sec)), Num(BitsOfI32(t.nsec))]) }
  function HeaderValue(h: Header): Value { Many([Num(h.seqNo), TimeValue(h.stamp), Str(h.frameId)]) }
  function TwistValue(t: Twist): Value { Many([Num(t.vx), Num(t.vy), Num(t.wz)]) }
  function CommandValue(c: Command): Value { Many([HeaderValue(c.header), TwistValue(c.twist)]) }

  // ----- the bytes of a message -----

  function EncodeTime(t: Stamp): seq<Byte> { LE(BitsOfI32(t.sec), 4) + LE(BitsOfI32(t.nsec), 4) }
  function EncodeHeader(h: Header): seq<Byte> { LE(h.seqNo, 4) + EncodeTime(h.stamp) + Encode(Text, Str(h.frameId)) }
  function EncodeTwist(t: Twist): seq<Byte> { LE(t.vx, 4) + LE(t.vy, 4) + LE(t.wz, 4) }
  function EncodeCommand(c: Command): seq<Byte> { EncodeHeader(c.header) + EncodeTwist(c.twist) }

  lemma EncodeCommandSize(c: Command)
    requires |c.header.frameId| < U32_LIMIT
    ensures |EncodeCommand(c)| == 28 + |c.header.frameId|
  {
  }

  lemma CommandPieces(c: Command)
    requires |c.header.frameId| < U32_LIMIT
    ensures EncodeCommand(c) == LE(c.header.seqNo, 4)
      + LE(BitsOfI32(c.header.stamp.sec), 4) + LE(BitsOfI32(c.header.stamp.nsec), 4)
      + LE(|c.header.frameId|, 4) + c.header.frameId
      + LE(c.twist.vx, 4) + LE(c.twist.vy, 4) + LE(c.twist.wz, 4)
  {
    hide LE, BitsOfI32;
    var name := c.header.frameId;
    assert Encode(Text, Str(name)) == LE(|name|, 4) + name;
  }

  /** Where each field is: number, seconds, nanoseconds, name length, name, and the three speeds. */
  lemma CommandLayout(c: Command)
    requires |c.header.frameId| < U32_LIMIT
    ensures var b, n := EncodeCommand(c), |c.header.frameId|;
            && |b| == 28 + n
            && b[..4] == LE(c.header.seqNo, 4)
            && b[4..8] == LE(BitsOfI32(c.header.stamp.sec), 4) && b[8..12] == LE(BitsOfI32(c.header.stamp.nsec), 4)
            && b[12..16] == LE(n, 4) && b[16..16 + n] == c.header.frameId
            && b[16 + n..20 + n] == LE(c.twist.vx, 4) && b[20 + n..24 + n] == LE(c.twist.vy, 4)
            && b[24 + n..] == LE(c.twist.wz, 4)
  {
    hide LE, BitsOfI32, EncodeCommand;
    CommandPieces(c);
  }

  lemma EncodeTwo(a: Schema, b: Schema, v: Value, w: Value)
    ensures Encode(Message([a, b]), Many([v, w])) == Encode(a, v) + Encode(b, w)
  {
    assert [a, b][1..] == [b] && [v, w][1..] == [w];
    assert [b][1..] == [] && [w][1..] == [];
    assert EncodeFields([b], [w]) == Encode(b, w) + [];
  }

  lemma Reassociate(p: seq<Byte>, q: seq<Byte>, r: seq<Byte>)
    ensures p + (q + r) == p + q + r
  {
  }

  lemma EncodeThree(a: Schema, b: Schema, c: Schema, v: Value, w: Value, x: Value)
    ensures Encode(Message([a, b, c]), Many([v, w, x])) == Encode(a, v) + Encode(b, w) + Encode(c, x)
  {
    assert [a, b, c][1..] == [b, c] && [v, w, x][1..] == [w, x];
    assert EncodeFields([a, b, c], [v, w, x]) == Encode(a, v) + Encode(Message([b, c]), Many([w, x]));
    EncodeTwo(b, c, w, x);
    Reassociate(Encode(a, v), Encode(b, w), Encode(c, x));
  }

  /** The hand-written field order of the classes is the one of the schema. */
  lemma EncodeCommandIsEncode(c: Command)
    ensures EncodeTime(c.header.stamp) == Encode(TIME, TimeValue(c.header.stamp))
    ensures EncodeCommand(c) == Encode(STAMPED, CommandValue(c))
  {
    EncodeTwo(HEADER, TWIST, HeaderValue(c.header), TwistValue(c.twist));
    EncodeThree(Number(4), TIME, Text, Num(c.header.seqNo), TimeValue(c.header.stamp), Str(c.header.frameId));
    EncodeTwo(Number(4), Number(4), Num(BitsOfI32(c.header.stamp.sec)), Num(BitsOfI32(c.header.stamp.nsec)));
    EncodeThree(Number(4), Number(4), Number(4), Num(c.twist.vx), Num(c.twist.vy), Num(c.twist.wz));
  }

  lemma ConformTwo(a: Schema, b: Schema, v: Value, w: Value)
    requires Fits(a, v) && Fits(b, w)
    ensures Fits(Message([a, b]), Many([v, w]))
  {
    assert [a, b][1..] == [b] && [v, w][1..] == [w];
    assert [b][1..] == [] && [w][1..] == [];
    assert FieldsConform([b], [w], true);
  }

  lemma ConformThree(a: Schema, b: Schema, c: Schema, v: Value, w: Value, x: Value)
    requires Fits(a, v) && Fits(b, w) && Fits(c, x)
    ensures Fits(Message([a, b, c]), Many([v, w, x]))
  {
    assert [a, b, c][1..] == [b, c] && [v, w, x][1..] == [w, x];
    ConformTwo(b, c, w, x);
    assert FieldsConform([b, c], [w, x], true);
  }

  lemma CommandFits(c: Command)
    requires |c.header.frameId| < U32_LIMIT
    ensures Fits(STAMPED, CommandValue(c))
  {
    Pow256Of4();
    var h := c.header;
    ConformTwo(Number(4), Number(4), Num(BitsOfI32(h.stamp.sec)), Num(BitsOfI32(h.stamp.nsec)));
    ConformThree(Number(4), TIME, Text, Num(h.seqNo), TimeValue(h.stamp), Str(h.frameId));
    ConformThree(Number(4), Number(4), Number(4), Num(c.twist.vx), Num(c.twist.vy), Num(c.twist.wz));
    ConformTwo(HEADER, TWIST, HeaderValue(h), TwistValue(c.twist));
  }

  // ----- reading a message -----

  /** What deserialize returns, together with what it left in the object. */
  datatype Filled<+T> = Filled(value: T, ok: bool, next: nat)

  function ReadU32(old_: U32, src: seq<Byte>, off: nat): (r: Filled<U32>)
    requires off <= |src|
    ensures off <= r.next <= |src|
  {
    var n := DecodeNumber(4, src, off);
    if n.Bad? then Filled(old_, false, n.next) else
      CountIsU32(src, off);
      Filled(n.value, true, n.next)
  }

  function ReadI32(old_: I32, src: seq<Byte>, off: nat): (r: Filled<I32>)
    requires off <= |src|
    ensures off <= r.next <= |src|
  {
    var n := ReadU32(0, src, off);
    Filled(if n.ok then I32OfBits(n.value) else old_, n.ok, n.next)
  }

  function ReadText(old_: seq<Byte>, src: seq<Byte>, off: nat): (r: Filled<seq<Byte>>)
    requires off <= |src|
    ensures off <= r.next <= |src|
  {
    var s := Decode(Text, src, off);
    if s.Bad? then Filled(old_, false, s.next) else Filled(s.value.chars, true, s.next)
  }

  function ReadTime(t: Stamp, src: seq<Byte>, off: nat): (r: Filled<Stamp>)
    requires off <= |src|
    ensures off <= r.next <= |src|
  {
    var sec := ReadI32(t.sec, src, off);
    if !sec.ok then Filled(t, false, sec.next) else
      var nsec := ReadI32(t.nsec, src, sec.next);
      Filled(Stamp(sec.value, nsec.value), nsec.ok, nsec.next)
  }

  function ReadHeader(h: Header, src: seq<Byte>, off: nat): (r: Filled<Header>)
    requires off <= |src|
    ensures off <= r.next <= |src|
  {
    var n := ReadU32(h.seqNo, src, off);
    if !n.ok then Filled(h, false, n.next) else
      var t := ReadTime(h.stamp, src, n.next);
      if !t.ok then Filled(Header(n.value, t.value, h.frameId), false, t.next) else
        var s := ReadText(h.frameId, src, t.next);
        Filled(Header(n.value, t.value, s.value), s.ok, s.next)
  }

  function ReadTwist(t: Twist, src: seq<Byte>, off: nat): (r: Filled<Twist>)
    requires off <= |src|
    ensures off <= r.next <= |src|
  {
    var x := ReadU32(t.vx, src, off);
    if !x.ok then Filled(t, false, x.next) else
      var y := ReadU32(t.vy, src, x.next);
      if !y.ok then Filled(Twist(x.value, t.vy, t.wz), false, y.next) else
        var z := ReadU32(t.wz, src, y.next);
        Filled(Twist(x.value, y.value, z.value), z.ok, z.next)
  }

  function ReadCommand(c: Command, src: seq<Byte>, off: nat): (r: Filled<Command>)
    requires off <= |src|
    ensures off <= r.next <= |src|
  {
    var h := ReadHeader(c.header, src, off);
    if !h.ok then Filled(Command(h.value, c.twist), false, h.next) else
      var t := ReadTwist(c.twist, src, h.next);
      Filled(Command(h.value, t.value), t.ok, t.next)
  }

  // ----- reading agrees with the codec -----

  /** r reports what Decode reports, and a successful r holds the decoded value. */
  predicate Agrees<T>(r: Filled<T>, meaning: T -> Value, d: Decoded<Value>) {
    r.ok == d.Good? && r.next == d.next && (d.Good? ==> meaning(r.value) == d.value)
  }

  function Sequel(d: Decoded<Value>, e: Decoded<Value>): Decoded<Value>
  {
    if d.Bad? then Bad(d.next) else if e.Bad? then Bad(e.next) else Good(Many([d.value, e.value]), e.next)
  }

  function ItemsOf(v: Value): seq<Value> { if v.Many? then v.items else [] }

  lemma DecodeTwo(a: Schema, b: Schema, src: seq<Byte>, off: nat)
    requires off <= |src|
    ensures var d := Decode(a, src, off);
            Decode(Message([a, b]), src, off) == Sequel(d, if d.Bad? then Bad(0) else Decode(b, src, d.next))
  {
    assert [a, b][1..] == [b] && [b][1..] == [];
    var d := Decode(a, src, off);
    if d.Good? {
      var e := Decode(b, src, d.next);
      if e.Good? {
        assert DecodeFields([], src, e.next) == Good([], e.next);
        assert DecodeFields([b], src, d.next) == Good([e.value] + [], e.next);
        assert [d.value] + ([e.value] + []) == [d.value, e.value];
      } else {
        assert DecodeFields([b], src, d.next) == Bad(e.next);
      }
    }
  }

  lemma DecodeThree(a: Schema, b: Schema, c: Schema, src: seq<Byte>, off: nat)
    requires off <= |src|
    ensures var d := Decode(a, src, off);
            var tail := if d.Bad? then Bad(0) else Decode(Message([b, c]), src, d.next);
            Decode(Message([a, b, c]), src, off)
              == if d.Bad? then Bad(d.next) else if tail.Bad? then Bad(tail.next)
                 else Good(Many([d.value] + ItemsOf(tail.value)), tail.next)
  {
    assert [a, b, c][1..] == [b, c];
  }

  lemma ReadU32Agrees(o: U32, src: seq<Byte>, off: nat)
    requires off <= |src|
    ensures Agrees(ReadU32(o, src, off), n => Num(n), Decode(Number(4), src, off))
  {
  }

  lemma ReadI32Agrees(o: I32, src: seq<Byte>, off: nat)
    requires off <= |src|
    ensures Agrees(ReadI32(o, src, off), n => Num(BitsOfI32(n)), Decode(Number(4), src, off))
  {
    ReadU32Agrees(0, src, off);
  }

  lemma ReadTimeAgrees(t: Stamp, src: seq<Byte>, off: nat)
    requires off <= |src|
    ensures Agrees(ReadTime(t, src, off), s => TimeValue(s), Decode(TIME, src, off))
  {
    DecodeTwo(Number(4), Number(4), src, off);
    ReadI32Agrees(t.sec, src, off);
    ReadI32Agrees(t.nsec, src, ReadI32(t.sec, src, off).next);
  }

  lemma ReadHeaderAgrees(h: Header, src: seq<Byte>, off: nat)
    requires off <= |src|
    ensures Agrees(ReadHeader(h, src, off), x => HeaderValue(x), Decode(HEADER, src, off))
  {
    DecodeThree(Number(4), TIME, Text, src, off);
    ReadU32Agrees(h.seqNo, src, off);
    var n := ReadU32(h.seqNo, src, off);
    if n.ok {
      DecodeTwo(TIME, Text, src, n.next);
      ReadTimeAgrees(h.stamp, src, n.next);
    }
  }

  lemma ReadTwistAgrees(t: Twist, src: seq<Byte>, off: nat)
    requires off <= |src|
    ensures Agrees(ReadTwist(t, src, off), x => TwistValue(x), Decode(TWIST, src, off))
  {
    DecodeThree(Number(4), Number(4), Number(4), src, off);
    ReadU32Agrees(t.vx, src, off);
    var x := ReadU32(t.vx, src, off);
    if x.ok {
      DecodeTwo(Number(4), Number(4), src, x.next);
      ReadU32Agrees(t.vy, src, x.next);
      ReadU32Agrees(t.wz, src, ReadU32(t.vy, src, x.next).next);
    }
  }

  /** Twist2DStamped::deserialize is the schema decoder; what the object held before is irrelevant on success. */
  lemma ReadCommandAgrees(c: Command, src: seq<Byte>, off: nat)
    requires off <= |src|
    ensures Agrees(ReadCommand(c, src, off), x => CommandValue(x), Decode(STAMPED, src, off))
  {
    DecodeTwo(HEADER, TWIST, src, off);
    ReadHeaderAgrees(c.header, src, off);
    ReadTwistAgrees(c.twist, src, ReadHeader(c.header, src, off).next);
  }

  lemma CommandValueInjective(c: Command, d: Command)
    requires CommandValue(c) == CommandValue(d)
    ensures c == d
  {
    var hc, hd := HeaderValue(c.header), HeaderValue(d.header);
    assert hc == CommandValue(c).items[0] == CommandValue(d).items[0] == hd;
    assert TwistValue(c.twist) == CommandValue(c).items[1] == CommandValue(d).items[1] == TwistValue(d.twist);
    assert c.header.seqNo == hc.items[0].bits && d.header.seqNo == hd.items[0].bits;
    assert c.header.frameId == hc.items[2].chars && d.header.frameId == hd.items[2].chars;
    var tc, td := hc.items[1], hd.items[1];
    assert BitsOfI32(c.header.stamp.sec) == tc.items[0].bits == td.items[0].bits == BitsOfI32(d.header.stamp.sec);
    assert BitsOfI32(c.header.stamp.nsec) == tc.items[1].bits == td.items[1].bits == BitsOfI32(d.header.stamp.nsec);
    var wc, wd := TwistValue(c.twist), TwistValue(d.twist);
    assert c.twist.vx == wc.items[0].bits && c.twist.vy == wc.items[1].bits && c.twist.wz == wc.items[2].bits;
    assert d.twist.vx == wd.items[0].bits && d.twist.vy == wd.items[1].bits && d.twist.wz == wd.items[2].bits;
  }

  /** A serialised command, anywhere in a buffer, is read back whole into any object. */
  lemma CommandRoundTrip(c: Command, into: Command, src: seq<Byte>, off: nat)
    requires |c.header.frameId| < U32_LIMIT
    requires At(src, off, EncodeCommand(c))
    ensures ReadCommand(into, src, off) == Filled(c, true, off + |EncodeCommand(c)|)
  {
    EncodeCommandIsEncode(c);
    CommandFits(c);
    RoundTrip(STAMPED, CommandValue(c), src, off);
    ReadCommandAgrees(into, src, off);
    CommandValueInjective(c, ReadCommand(into, src, off).value);
  }

  lemma FrameIdFits(into: Command, src: seq<Byte>, off: nat)
    requires off <= |src| && ReadCommand(into, src, off).ok
    ensures |ReadCommand(into, src, off).value.header.frameId| < U32_LIMIT
  {
    var n := ReadU32(into.header.seqNo, src, off);
    CountIsU32(src, ReadTime(into.header.stamp, src, n.next).next);
  }

  /** Bytes that read as a command are exactly that command's serialisation. */
  lemma CommandCanonical(into: Command, src: seq<Byte>, off: nat)
    requires off <= |src| && ReadCommand(into, src, off).ok
    ensures var r := ReadCommand(into, src, off);
            |r.value.header.frameId| < U32_LIMIT && EncodeCommand(r.value) == src[off..r.next]
  {
    var r := ReadCommand(into, src, off);
    ReadCommandAgrees(into, src, off);
    Canonical(STAMPED, src, off);
    EncodeCommandIsEncode(r.value);
    FrameIdFits(into, src, off);
  }

  // ----- the classes -----

  class TimeMsg {
    var sec: I32
    var nsec: I32

    function Model(): Stamp reads this { Stamp(sec, nsec) }

    constructor ()
      ensures Model() == ZERO_TIME
    {
      sec, nsec := 0, 0;
    }

    method Size() returns (size: nat)
      ensures size == |EncodeTime(Model())|
    {
      size := 0;
      size := size + SizeOf(Number(4), Num(BitsOfI32(sec)));
      size := size + SizeOf(Number(4), Num(BitsOfI32(nsec)));
    }

    method Serialize(dst: array<Byte>, offset: nat) returns (next: nat)
      requires offset + |EncodeTime(Model())| <= dst.Length
      modifies dst
      ensures next == offset + |EncodeTime(Model())|
      ensures dst[..] == Splice(old(dst[..]), offset, EncodeTime(Model()))
    {
      next := SerializeNumber(dst, offset, 4, BitsOfI32(sec));
      next := SerializeNumber(dst, next, 4, BitsOfI32(nsec));
      SpliceTwice(old(dst[..]), offset, LE(BitsOfI32(sec), 4), LE(BitsOfI32(nsec), 4));
    }

    method Deserialize(src: array<Byte>, size: nat, offset: nat) returns (ok: bool, next: nat)
      requires offset <= size <= src.Length && size <= OBJECT_LIMIT
      modifies this
      ensures Filled(Model(), ok, next) == ReadTime(old(Model()), src[..size], offset)
    {
      var n := DeserializeNumber(4, src, size, offset);
      if n.Bad? { return false, n.next; }
      CountIsU32(src[..size], offset);
      sec := I32OfBits(n.value);
      var m := DeserializeNumber(4, src, size, n.next);
      if m.Bad? { return false, m.next; }
      CountIsU32(src[..size], n.next);
      nsec := I32OfBits(m.value);
      return true, m.next;
    }
  }

  class HeaderMsg {
    var seqNo: U32
    const stamp: TimeMsg
    var frameId: seq<Byte>

    function Model(): Header reads this, stamp { Header(seqNo, stamp.Model(), frameId) }

    constructor ()
      ensures Model() == ZERO_HEADER
      ensures fresh(stamp)
    {
      seqNo, frameId := 0, [];
      stamp := new TimeMsg();
    }

    method Size() returns (size: nat)
      ensures size == 12 + Count(4 + |frameId|)
      ensures 4 + |frameId| < U32_LIMIT ==> size == |EncodeHeader(Model())|
    {
      size := 0;
      size := size + SizeOf(Number(4), Num(seqNo));
      var inner := stamp.Size();
      size := size + Count(inner);
      size := size + SizeOf(Text, Str(frameId));
    }

    method Serialize(dst: array<Byte>, offset: nat) returns (next: nat)
      requires offset + |EncodeHeader(Model())| <= dst.Length
      modifies dst
      ensures next == offset + |EncodeHeader(Model())|
      ensures dst[..] == Splice(old(dst[..]), offset, EncodeHeader(Model()))
    {
      ghost var was := dst[..];
      ghost var a, b, c := LE(seqNo, 4), EncodeTime(stamp.Model()), Encode(Text, Str(frameId));
      SpliceTwice(was, offset, a, b);
      SpliceTwice(was, offset, a + b, c);
      next := SerializeNumber(dst, offset, 4, seqNo);
      next := stamp.Serialize(dst, next);
      next := SerializeString(dst, next, frameId);
    }

    method Deserialize(src: array<Byte>, size: nat, offset: nat) returns (ok: bool, next: nat)
      requires offset <= size <= src.Length && size <= OBJECT_LIMIT
      modifies this, stamp
      ensures Filled(Model(), ok, next) == ReadHeader(old(Model()), src[..size], offset)
    {
      var n := DeserializeNumber(4, src, size, offset);
      if n.Bad? { return false, n.next; }
      CountIsU32(src[..size], offset);
      seqNo := n.value;
      ok, next := stamp.Deserialize(src, size, n.next);
      if !ok { return; }
      var s := DeserializeString(src, size, next);
      if s.Bad? { return false, s.next; }
      frameId := s.value;
      return true, s.next;
    }
  }

  class Twist2DMsg {
    var vx: U32
    var vy: U32
    var wz: U32

    function Model(): Twist reads this { Twist(vx, vy, wz) }

    constructor ()
      ensures Model() == ZERO_TWIST
    {
      vx, vy, wz := 0, 0, 0;
    }

    method Size() returns (size: nat)
      ensures size == |EncodeTwist(Model())|
    {
      size := 0;
      size := size + SizeOf(Number(4), Num(vx));
      size := size + SizeOf(Number(4), Num(vy));
      size := size + SizeOf(Number(4), Num(wz));
    }

    method Serialize(dst: array<Byte>, offset: nat) returns (next: nat)
      requires offset + |EncodeTwist(Model())| <= dst.Length
      modifies dst
      ensures next == offset + |EncodeTwist(Model())|
      ensures dst[..] == Splice(old(dst[..]), offset, EncodeTwist(Model()))
    {
      ghost var was := dst[..];
      SpliceTwice(was, offset, LE(vx, 4), LE(vy, 4));
      SpliceTwice(was, offset, LE(vx, 4) + LE(vy, 4), LE(wz, 4));
      next := SerializeNumber(dst, offset, 4, vx);
      next := SerializeNumber(dst, next, 4, vy);
      next := SerializeNumber(dst, next, 4, wz);
    }

    method Deserialize(src: array<Byte>, size: nat, offset: nat) returns (ok: bool, next: nat)
      requires offset <= size <= src.Length && size <= OBJECT_LIMIT
      modifies this
      ensures Filled(Model(), ok, next) == ReadTwist(old(Model()), src[..size], offset)
    {
      var x := DeserializeNumber(4, src, size, offset);
      if x.Bad? { return false, x.next; }
      CountIsU32(src[..size], offset);
      vx := x.value;
      var y := DeserializeNumber(4, src, size, x.next);
      if y.Bad? { return false, y.next; }
      CountIsU32(src[..size], x.next);
      vy := y.value;
      var z := DeserializeNumber(4, src, size, y.next);
      if z.Bad? { return false, z.next; }
      CountIsU32(src[..size], y.next);
      wz := z.value;
      return true, z.next;
    }
  }

  class Twist2DStampedMsg {
    const header: HeaderMsg
    const twist: Twist2DMsg

    function Model(): Command reads this, header, header.stamp, twist { Command(header.Model(), twist.Model()) }

    constructor ()
      ensures Model() == ZERO_COMMAND
      ensures fresh(header) && fresh(header.stamp) && fresh(twist)
    {
      header := new HeaderMsg();
      twist := new Twist2DMsg();
    }

    method Size() returns (size: nat)
      ensures size == Count(12 + Count(4 + |header.frameId|)) + 12
      ensures |header.frameId| + 32 < U32_LIMIT ==> size == |EncodeCommand(Model())|
    {
      size := 0;
      var h := header.Size();
      size := size + Count(h);
      var t := twist.Size();
      size := size + Count(t);
    }

    method Serialize(dst: array<Byte>, offset: nat) returns (next: nat)
      requires offset + |EncodeCommand(Model())| <= dst.Length
      modifies dst
      ensures next == offset + |EncodeCommand(Model())|
      ensures dst[..] == Splice(old(dst[..]), offset, EncodeCommand(Model()))
    {
      SpliceTwice(dst[..], offset, EncodeHeader(header.Model()), EncodeTwist(twist.Model()));
      next := header.Serialize(dst, offset);
      next := twist.Serialize(dst, next);
    }

    method Deserialize(src: array<Byte>, size: nat, offset: nat) returns (ok: bool, next: nat)
      requires offset <= size <= src.Length && size <= OBJECT_LIMIT
      modifies header, header.stamp, twist
      ensures Filled(Model(), ok, next) == ReadCommand(old(Model()), src[..size], offset)
    {
      ok, next := header.Deserialize(src, size, offset);
      if !ok { return; }
      ok, next := twist.Deserialize(src, size, next);
    }
  }
}
