/**
 * The functions of include/rix/msg/serialization.hpp as in-place methods: the
 * serialisers write into a shared buffer from an offset, the deserialisers
 * read from one, and both hand back the advanced offset. Each is proved
 * against module Codec, including the bytes it must not touch and the offset
 * it leaves behind when it fails.
 *
 * The overload set of the header is one method per schema constructor;
 * SerializeValue and DeserializeValue do the dispatch that C++ overload
 * resolution and Message's virtual calls do.
 */
module Serialization {
  import opened Bytes
  import opened Codec

  // ----- writing -----

  /** buf with the bytes from off on replaced, and nothing else. */
  function Splice(buf: seq<Byte>, off: nat, bytes: seq<Byte>): (r: seq<Byte>)
    requires off + |bytes| <= |buf|
    ensures |r| == |buf|
  {
    buf[..off] + bytes + buf[off + |bytes|..]
  }

  lemma SpliceTwice(buf: seq<Byte>, off: nat, a: seq<Byte>, b: seq<Byte>)
    requires off + |a| + |b| <= |buf|
    ensures Splice(Splice(buf, off, a), off + |a|, b) == Splice(buf, off, a + b)
  {
  }

  lemma SpliceNone(buf: seq<Byte>, off: nat)
    requires off <= |buf|
    ensures Splice(buf, off, []) == buf
  {
  }

  lemma {:induction false} EncodeItemsConcat(ty: Schema, a: seq<Value>, b: seq<Value>)
    ensures EncodeItems(ty, a + b) == EncodeItems(ty, a) + EncodeItems(ty, b)
    decreases a
  {
    hide Encode;
    if a == [] {
      assert a + b == b;
    } else {
      assert (a + b)[0] == a[0] && (a + b)[1..] == a[1..] + b;
      EncodeItemsConcat(ty, a[1..], b);
    }
  }

  lemma EncodeNoItems(ty: Schema)
    ensures EncodeItems(ty, []) == []
  {
  }

  lemma EncodeItemsNext(ty: Schema, vs: seq<Value>, i: nat)
    requires i < |vs|
    ensures EncodeItems(ty, vs[..i + 1]) == EncodeItems(ty, vs[..i]) + Encode(ty, vs[i])
    ensures |EncodeItems(ty, vs[..i + 1])| <= |EncodeItems(ty, vs)|
  {
    hide Encode;
    assert vs[..i + 1] == vs[..i] + [vs[i]];
    EncodeItemsConcat(ty, vs[..i], [vs[i]]);
    assert EncodeItems(ty, [vs[i]]) == Encode(ty, vs[i]);
    assert vs == vs[..i + 1] + vs[i + 1..];
    EncodeItemsConcat(ty, vs[..i + 1], vs[i + 1..]);
  }

  /** memcpy into dst + offset. */
  method CopyInto(dst: array<Byte>, offset: nat, bytes: seq<Byte>)
    requires offset + |bytes| <= dst.Length
    modifies dst
    ensures dst[..] == Splice(old(dst[..]), offset, bytes)
  {
    for i := 0 to |bytes|
      invariant forall k :: 0 <= k < i ==> dst[offset + k] == bytes[k]
      invariant forall k :: 0 <= k < offset || offset + i <= k < dst.Length ==> dst[k] == old(dst[k])
    {
      dst[offset + i] := bytes[i];
    }
    assert dst[offset..offset + |bytes|] == bytes;
  }

  method SerializeNumber(dst: array<Byte>, offset: nat, w: Width, bits: nat) returns (next: nat)
    requires offset + w <= dst.Length
    modifies dst
    ensures next == offset + w
    ensures dst[..] == Splice(old(dst[..]), offset, LE(bits, w))
    // least significant byte first
    ensures forall i :: 0 <= i < w ==> dst[offset + i] == bits / Pow256(i) % 256
  {
    CopyInto(dst, offset, LE(bits, w));
    next := offset + w;
    forall i | 0 <= i < w ensures dst[offset + i] == bits / Pow256(i) % 256 {
      LEDigit(bits, w, i);
      assert dst[offset + i] == dst[..][offset + i];
    }
  }

  method SerializeString(dst: array<Byte>, offset: nat, s: seq<Byte>) returns (next: nat)
    requires offset + |Encode(Text, Str(s))| <= dst.Length
    modifies dst
    ensures next == offset + |Encode(Text, Str(s))|
    ensures dst[..] == Splice(old(dst[..]), offset, Encode(Text, Str(s)))
  {
    var len := Count(|s|);
    next := SerializeNumber(dst, offset, 4, len);
    if len > 0 {
      CopyInto(dst, next, s[..len]);
      next := next + len;
    }
    SpliceTwice(old(dst[..]), offset, LE(len, 4), s[..len]);
  }

  method SerializeNumberArray(dst: array<Byte>, offset: nat, w: Width, ns: seq<nat>) returns (next: nat)
    requires offset + Span(|ns|, w) <= dst.Length
    modifies dst
    ensures next == offset + Span(|ns|, w)
    ensures dst[..] == Splice(old(dst[..]), offset, PackNumbers(ns, w))
  {
    next := offset;
    if |ns| > 0 {
      CopyInto(dst, offset, PackNumbers(ns, w));
      next := offset + Span(|ns|, w);
    }
  }

  method SerializeNumberVector(dst: array<Byte>, offset: nat, w: Width, ns: seq<nat>) returns (next: nat)
    requires offset + |Encode(NumberVector(w), Nums(ns))| <= dst.Length
    modifies dst
    ensures next == offset + |Encode(NumberVector(w), Nums(ns))|
    ensures dst[..] == Splice(old(dst[..]), offset, Encode(NumberVector(w), Nums(ns)))
  {
    EncodeNumbersUnfold(w, ns);
    next := SerializeNumber(dst, offset, 4, Count(|ns|));
    ghost var packed := PackNumbers(Counted(ns), w);
    next := SerializeNumberArray(dst, next, w, Counted(ns));
    SpliceTwice(old(dst[..]), offset, LE(Count(|ns|), 4), packed);
  }

  /** The range-for of the string and message containers, shared by arrays and vectors. */
  method SerializeItems(dst: array<Byte>, offset: nat, ty: Schema, vs: seq<Value>) returns (next: nat)
    requires offset + |EncodeItems(ty, vs)| <= dst.Length
    modifies dst
    ensures next == offset + |EncodeItems(ty, vs)|
    ensures dst[..] == Splice(old(dst[..]), offset, EncodeItems(ty, vs))
    decreases vs, 0
  {
    hide EncodeItems, Encode, Splice;
    ghost var was := dst[..];
    ghost var done: seq<Byte> := [];
    EncodeNoItems(ty);
    next := offset;
    SpliceNone(was, offset);
    for i := 0 to |vs|
      invariant done == EncodeItems(ty, vs[..i]) && offset + |done| <= dst.Length
      invariant next == offset + |done|
      invariant dst[..] == Splice(was, offset, done)
    {
      EncodeItemsNext(ty, vs, i);
      ghost var item := Encode(ty, vs[i]);
      SpliceTwice(was, offset, done, item);
      next := SerializeValue(dst, next, ty, vs[i]);
      done := done + item;
    }
    assert vs[..|vs|] == vs;
  }

  method SerializeVector(dst: array<Byte>, offset: nat, ty: Schema, vs: seq<Value>) returns (next: nat)
    requires offset + 4 + |EncodeItems(ty, vs)| <= dst.Length
    modifies dst
    ensures next == offset + 4 + |EncodeItems(ty, vs)|
    ensures dst[..] == Splice(old(dst[..]), offset, LE(Count(|vs|), 4) + EncodeItems(ty, vs))
    decreases vs, 1
  {
    hide EncodeItems, Splice, Count;
    SpliceTwice(dst[..], offset, LE(Count(|vs|), 4), EncodeItems(ty, vs));
    next := SerializeNumber(dst, offset, 4, Count(|vs|));
    next := SerializeItems(dst, next, ty, vs);
  }

  /** Message::serialize: the fields one after another. */
  method SerializeFields(dst: array<Byte>, offset: nat, fs: seq<Schema>, vs: seq<Value>) returns (next: nat)
    requires offset + |EncodeFields(fs, vs)| <= dst.Length
    modifies dst
    ensures next == offset + |EncodeFields(fs, vs)|
    ensures dst[..] == Splice(old(dst[..]), offset, EncodeFields(fs, vs))
    decreases vs, 0
  {
    next := offset;
    if fs != [] && vs != [] {
      ghost var a, b := Encode(fs[0], vs[0]), EncodeFields(fs[1..], vs[1..]);
      assert EncodeFields(fs, vs) == a + b;
      SpliceTwice(dst[..], offset, a, b);
      next := SerializeValue(dst, offset, fs[0], vs[0]);
      next := SerializeFields(dst, next, fs[1..], vs[1..]);
    } else {
      SpliceNone(dst[..], offset);
    }
  }

  method SerializeValue(dst: array<Byte>, offset: nat, ty: Schema, v: Value) returns (next: nat)
    requires offset + |Encode(ty, v)| <= dst.Length
    modifies dst
    ensures next == offset + |Encode(ty, v)|
    ensures dst[..] == Splice(old(dst[..]), offset, Encode(ty, v))
    decreases v, 2
  {
    hide Splice, LE, Count, PackNumbers, EncodeItems, EncodeFields;
    match (ty, v)
    case (Number(w), Num(b)) => next := SerializeNumber(dst, offset, w, b);
    case (Text, Str(s)) => next := SerializeString(dst, offset, s);
    case (NumberArray(_, w), Nums(ns)) => next := SerializeNumberArray(dst, offset, w, ns);
    case (NumberVector(w), Nums(ns)) => next := SerializeNumberVector(dst, offset, w, ns);
    case (Array(_, e), Many(vs)) => next := SerializeItems(dst, offset, e, vs);
    case (Vector(e), Many(vs)) => next := SerializeVector(dst, offset, e, vs);
    case (Message(fs), Many(vs)) => next := SerializeFields(dst, offset, fs, vs);
    case _ =>
      SpliceNone(dst[..], offset);
      next := offset;
  }

  // ----- measuring -----

  /** The accumulating loops of size_string_array, size_message_vector and their like. */
  method SizeOfContainer(ty: Schema, vs: seq<Value>, start: U32) returns (size: U32)
    ensures size == SizeOfItems(ty, vs, start)
  {
    size := start;
    for i := 0 to |vs|
      invariant SizeOfItems(ty, vs, start) == SizeOfItems(ty, vs[i..], size)
    {
      assert vs[i..][0] == vs[i] && vs[i..][1..] == vs[i + 1..];
      size := Count(size + SizeOf(ty, vs[i]));
    }
  }

  // ----- reading -----

  method DeserializeNumber(w: Width, src: array<Byte>, size: nat, offset: nat) returns (r: Decoded<nat>)
    requires offset <= size <= src.Length && size <= OBJECT_LIMIT
    ensures r == DecodeNumber(w, src[..size], offset)
  {
    BoundCheckExact(offset, w, size);
    if Add64(offset, w) > size {
      return Bad(offset);
    }
    assert src[..size][offset..offset + w] == src[offset..offset + w];
    r := Good(FromLE(src[offset..offset + w]), Add64(offset, w));
  }

  lemma CountIsU32(src: seq<Byte>, off: nat)
    requires off <= |src|
    ensures DecodeNumber(4, src, off).Good? ==> DecodeNumber(4, src, off).value < U32_LIMIT
  {
    Pow256Of4();
    if off + 4 <= |src| { FromLEBound(src[off..off + 4]); }
  }

  method DeserializeString(src: array<Byte>, size: nat, offset: nat) returns (r: Decoded<seq<Byte>>)
    requires offset <= size <= src.Length && size <= OBJECT_LIMIT
    ensures r.next == Decode(Text, src[..size], offset).next
    ensures r.Good? <==> Decode(Text, src[..size], offset).Good?
    ensures r.Good? ==> Decode(Text, src[..size], offset).value == Str(r.value)
  {
    var len := DeserializeNumber(4, src, size, offset);
    if len.Bad? {
      return Bad(len.next);
    }
    CountIsU32(src[..size], offset);
    BoundCheckExact(len.next, len.value, size);
    if Add64(len.next, len.value) > size {
      return Bad(len.next);
    }
    var end := Add64(len.next, len.value);
    assert src[..size][len.next..end] == src[len.next..end];
    r := Good(src[len.next..end], end);
  }

  /** `bytes` of memcpy from src, after the bound check that number arrays and vectors share. */
  method DeserializeNumbers(count: nat, w: Width, src: array<Byte>, size: nat, offset: nat)
    returns (r: Decoded<seq<nat>>)
    requires offset <= size <= src.Length && size <= OBJECT_LIMIT
    requires Span(count, w) < OBJECT_LIMIT
    ensures offset + Span(count, w) > size ==> r == Bad(offset)
    ensures offset + Span(count, w) <= size
      ==> r == Good(UnpackNumbers(src[..size][offset..offset + Span(count, w)], count, w), offset + Span(count, w))
  {
    var bytes := Span(count, w);
    BoundCheckExact(offset, bytes, size);
    if Add64(offset, bytes) > size {
      return Bad(offset);
    }
    var end := Add64(offset, bytes);
    assert src[..size][offset..end] == src[offset..end];
    r := Good(UnpackNumbers(src[offset..end], count, w), end);
  }

  /** One more element extends what the loop has decoded so far. */
  lemma {:induction false} DecodeItemsNext(ty: Schema, i: nat, src: seq<Byte>, off: nat)
    requires off <= |src| && DecodeItems(ty, i, src, off).Good?
    requires Decode(ty, src, DecodeItems(ty, i, src, off).next).Good?
    ensures var first := DecodeItems(ty, i, src, off);
            var item := Decode(ty, src, first.next);
            DecodeItems(ty, i + 1, src, off) == Good(first.value + [item.value], item.next)
    decreases i
  {
    hide Decode;
    var done := DecodeItems(ty, i, src, off);
    var vs := done.value + [Decode(ty, src, done.next).value];
    var mid := Decode(ty, src, off).next;
    if i > 0 {
      DecodeItemsNext(ty, i - 1, src, mid);
      assert vs[1..] == done.value[1..] + [Decode(ty, src, done.next).value];
    }
    ItemsStep(ty, vs, src, off, mid);
  }

  /** An element that fails ends the whole container, and leaves its own offset behind. */
  lemma {:induction false} DecodeItemsStop(ty: Schema, i: nat, n: nat, src: seq<Byte>, off: nat)
    requires i < n && off <= |src| && DecodeItems(ty, i, src, off).Good?
    requires Decode(ty, src, DecodeItems(ty, i, src, off).next).Bad?
    ensures DecodeItems(ty, n, src, off) == Bad(Decode(ty, src, DecodeItems(ty, i, src, off).next).next)
    decreases i
  {
    if i > 0 { DecodeItemsStop(ty, i - 1, n - 1, src, Decode(ty, src, off).next); }
  }

  /** Every std::array of numbers named by ty is an object that can exist. */
  predicate SmallEnough(ty: Schema)
    decreases ty
  {
    match ty
    case NumberArray(n, w) => Span(n, w) < OBJECT_LIMIT
    case Array(_, e) => SmallEnough(e)
    case Vector(e) => SmallEnough(e)
    case Message(fs) => AllSmallEnough(fs)
    case _ => true
  }

  predicate AllSmallEnough(fs: seq<Schema>)
    decreases fs
  {
    fs != [] ==> SmallEnough(fs[0]) && AllSmallEnough(fs[1..])
  }

  /** The element loop of the string and message containers. */
  method DeserializeItems(ty: Schema, count: nat, src: array<Byte>, size: nat, offset: nat)
    returns (r: Decoded<seq<Value>>)
    requires offset <= size <= src.Length && size <= OBJECT_LIMIT
    requires SmallEnough(ty)
    ensures r == DecodeItems(ty, count, src[..size], offset)
    decreases ty, 1
  {
    r := Good([], offset);
    for i := 0 to count
      invariant r.Good? && r == DecodeItems(ty, i, src[..size], offset)
    {
      var item := DeserializeValue(ty, src, size, r.next);
      if item.Bad? {
        DecodeItemsStop(ty, i, count, src[..size], offset);
        return Bad(item.next);
      }
      DecodeItemsNext(ty, i, src[..size], offset);
      r := Good(r.value + [item.value], item.next);
    }
  }

  method DeserializeFields(fs: seq<Schema>, src: array<Byte>, size: nat, offset: nat)
    returns (r: Decoded<seq<Value>>)
    requires offset <= size <= src.Length && size <= OBJECT_LIMIT
    requires AllSmallEnough(fs)
    ensures r == DecodeFields(fs, src[..size], offset)
    decreases fs, 0
  {
    if fs == [] {
      return Good([], offset);
    }
    var first := DeserializeValue(fs[0], src, size, offset);
    if first.Bad? {
      return Bad(first.next);
    }
    var rest := DeserializeFields(fs[1..], src, size, first.next);
    if rest.Bad? {
      return Bad(rest.next);
    }
    r := Good([first.value] + rest.value, rest.next);
  }

  method DeserializeValue(ty: Schema, src: array<Byte>, size: nat, offset: nat) returns (r: Decoded<Value>)
    requires offset <= size <= src.Length && size <= OBJECT_LIMIT
    requires SmallEnough(ty)
    ensures r == Decode(ty, src[..size], offset)
    decreases ty, 0
  {
    match ty
    case Number(w) =>
      var n := DeserializeNumber(w, src, size, offset);
      r := if n.Bad? then Bad(n.next) else Good(Num(n.value), n.next);
    case Text =>
      var s := DeserializeString(src, size, offset);
      r := if s.Bad? then Bad(s.next) else Good(Str(s.value), s.next);
    case NumberArray(n, w) =>
      var ns := DeserializeNumbers(n, w, src, size, offset);
      r := if ns.Bad? then Bad(ns.next) else Good(Nums(ns.value), ns.next);
    case NumberVector(w) =>
      var n := DeserializeNumber(4, src, size, offset);
      if n.Bad? {
        return Bad(n.next);
      }
      CountIsU32(src[..size], offset);
      var ns := DeserializeNumbers(n.value, w, src, size, n.next);
      r := if ns.Bad? then Bad(ns.next) else Good(Nums(ns.value), ns.next);
    case Array(n, e) =>
      var vs := DeserializeItems(e, n, src, size, offset);
      r := if vs.Bad? then Bad(vs.next) else Good(Many(vs.value), vs.next);
    case Vector(e) =>
      var n := DeserializeNumber(4, src, size, offset);
      if n.Bad? {
        return Bad(n.next);
      }
      var vs := DeserializeItems(e, n.value, src, size, n.next);
      r := if vs.Bad? then Bad(vs.next) else Good(Many(vs.value), vs.next);
    case Message(fs) =>
      var vs := DeserializeFields(fs, src, size, offset);
      r := if vs.Bad? then Bad(vs.next) else Good(Many(vs.value), vs.next);
  }
}
