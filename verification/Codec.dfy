/**
 * The wire format of include/rix/msg/serialization.hpp as a pure codec.
 *
 * A Schema says which serialize_x/deserialize_x function handles a field; a
 * message is the list of its fields. Encode and Decode are the reference
 * definitions that the in-place methods of module Serialization are proved
 * against, and the codec laws are proved here once, for every schema.
 */
module Codec {
  import opened Bytes

  datatype Schema =
    | Number(width: Width)
    | Text
    | NumberArray(count: nat, width: Width)
    | NumberVector(width: Width)
    | Array(count: nat, elem: Schema)
    | Vector(elem: Schema)
    | Message(fields: seq<Schema>)

  /** A number is its bit pattern: floats and signed integers included. */
  datatype Value =
    | Num(bits: nat)
    | Str(chars: seq<Byte>)
    | Nums(numbers: seq<nat>)
    | Many(items: seq<Value>)

  /** `next` is the value left in the in/out offset, also after a failure. */
  datatype Decoded<+T> = Good(value: T, next: nat) | Bad(next: nat)

  // ----- which values a schema admits -----

  predicate AllBelow(ns: seq<nat>, limit: nat) {
    forall i :: 0 <= i < |ns| ==> ns[i] < limit
  }

  /** v has the C++ type that ty stands for; `counted` adds that every length fits its uint32 prefix. */
  predicate Conforms(ty: Schema, v: Value, counted: bool)
    decreases v
  {
    match (ty, v)
    case (Number(w), Num(b)) => b < Pow256(w)
    case (Text, Str(s)) => counted ==> |s| < U32_LIMIT
    case (NumberArray(n, w), Nums(ns)) => |ns| == n && AllBelow(ns, Pow256(w))
    case (NumberVector(w), Nums(ns)) => AllBelow(ns, Pow256(w)) && (counted ==> |ns| < U32_LIMIT)
    case (Array(n, e), Many(vs)) => |vs| == n && AllConform(e, vs, counted)
    case (Vector(e), Many(vs)) => AllConform(e, vs, counted) && (counted ==> |vs| < U32_LIMIT)
    case (Message(fs), Many(vs)) => FieldsConform(fs, vs, counted)
    case _ => false
  }

  predicate AllConform(ty: Schema, vs: seq<Value>, counted: bool)
    decreases vs
  {
    vs != [] ==> Conforms(ty, vs[0], counted) && AllConform(ty, vs[1..], counted)
  }

  predicate FieldsConform(fs: seq<Schema>, vs: seq<Value>, counted: bool)
    decreases vs
  {
    |fs| == |vs| && (vs != [] ==> Conforms(fs[0], vs[0], counted) && FieldsConform(fs[1..], vs[1..], counted))
  }

  predicate Typed(ty: Schema, v: Value) { Conforms(ty, v, false) }
  predicate Fits(ty: Schema, v: Value) { Conforms(ty, v, true) }

  // ----- encoding -----

  function PackNumbers(ns: seq<nat>, w: Width): (s: seq<Byte>)
    ensures |s| == Span(|ns|, w)
  {
    if ns == [] then [] else LE(ns[0], w) + PackNumbers(ns[1..], w)
  }

  /** static_cast<uint32_t>(size()): a longer container is silently truncated. */
  function Count(n: nat): U32 { if n < U32_LIMIT then n else n % U32_LIMIT }

  /** The part of a container that its truncated count covers. */
  function Counted<T>(s: seq<T>): (r: seq<T>)
    ensures |s| < U32_LIMIT ==> r == s
  {
    s[..Count(|s|)]
  }

  function Encode(ty: Schema, v: Value): seq<Byte>
    decreases v
  {
    match (ty, v)
    case (Number(w), Num(b)) => LE(b, w)
    case (Text, Str(s)) => LE(Count(|s|), 4) + Counted(s)
    case (NumberArray(_, w), Nums(ns)) => PackNumbers(ns, w)
    case (NumberVector(w), Nums(ns)) => LE(Count(|ns|), 4) + PackNumbers(Counted(ns), w)
    case (Array(_, e), Many(vs)) => EncodeItems(e, vs)
    case (Vector(e), Many(vs)) => LE(Count(|vs|), 4) + EncodeItems(e, vs)
    case (Message(fs), Many(vs)) => EncodeFields(fs, vs)
    case _ => []
  }

  function EncodeItems(ty: Schema, vs: seq<Value>): seq<Byte>
    decreases vs
  {
    if vs == [] then [] else Encode(ty, vs[0]) + EncodeItems(ty, vs[1..])
  }

  function EncodeFields(fs: seq<Schema>, vs: seq<Value>): seq<Byte>
    decreases vs
  {
    if fs == [] || vs == [] then [] else Encode(fs[0], vs[0]) + EncodeFields(fs[1..], vs[1..])
  }

  // ----- decoding -----

  function UnpackNumbers(s: seq<Byte>, n: nat, w: Width): (ns: seq<nat>)
    requires |s| == Span(n, w)
    ensures |ns| == n
    decreases n
  {
    if n == 0 then [] else
      assert |s[w..]| == Span(n - 1, w);
      [FromLE(s[..w])] + UnpackNumbers(s[w..], n - 1, w)
  }

  function DecodeNumber(w: Width, src: seq<Byte>, off: nat): (r: Decoded<nat>)
    requires off <= |src|
    ensures off <= r.next <= |src|
  {
    if off + w > |src| then Bad(off) else Good(FromLE(src[off..off + w]), off + w)
  }

  function Decode(ty: Schema, src: seq<Byte>, off: nat): (r: Decoded<Value>)
    requires off <= |src|
    ensures off <= r.next <= |src|
    decreases ty, 0
  {
    match ty
    case Number(w) =>
      (match DecodeNumber(w, src, off)
       case Bad(o) => Bad(o)
       case Good(b, o) => Good(Num(b), o))
    case Text =>
      (match DecodeNumber(4, src, off)
       case Bad(o) => Bad(o)
       case Good(n, o) => if o + n > |src| then Bad(o) else Good(Str(src[o..o + n]), o + n))
    case NumberArray(n, w) =>
      if off + Span(n, w) > |src| then Bad(off)
      else Good(Nums(UnpackNumbers(src[off..off + Span(n, w)], n, w)), off + Span(n, w))
    case NumberVector(w) =>
      (match DecodeNumber(4, src, off)
       case Bad(o) => Bad(o)
       case Good(n, o) =>
         if o + Span(n, w) > |src| then Bad(o)
         else Good(Nums(UnpackNumbers(src[o..o + Span(n, w)], n, w)), o + Span(n, w)))
    case Array(n, e) =>
      (match DecodeItems(e, n, src, off)
       case Bad(o) => Bad(o)
       case Good(vs, o) => Good(Many(vs), o))
    case Vector(e) =>
      (match DecodeNumber(4, src, off)
       case Bad(o) => Bad(o)
       case Good(n, o) =>
         (match DecodeItems(e, n, src, o)
          case Bad(p) => Bad(p)
          case Good(vs, p) => Good(Many(vs), p)))
    case Message(fs) =>
      (match DecodeFields(fs, src, off)
       case Bad(o) => Bad(o)
       case Good(vs, o) => Good(Many(vs), o))
  }

  function DecodeItems(ty: Schema, n: nat, src: seq<Byte>, off: nat): (r: Decoded<seq<Value>>)
    requires off <= |src|
    ensures off <= r.next <= |src|
    ensures r.Good? ==> |r.value| == n
    decreases ty, n + 1
  {
    if n == 0 then Good([], off) else
      match Decode(ty, src, off)
      case Bad(o) => Bad(o)
      case Good(v, o) =>
        match DecodeItems(ty, n - 1, src, o)
        case Bad(p) => Bad(p)
        case Good(vs, p) => Good([v] + vs, p)
  }

  function DecodeFields(fs: seq<Schema>, src: seq<Byte>, off: nat): (r: Decoded<seq<Value>>)
    requires off <= |src|
    ensures off <= r.next <= |src|
    ensures r.Good? ==> |r.value| == |fs|
    decreases fs, 0
  {
    if fs == [] then Good([], off) else
      match Decode(fs[0], src, off)
      case Bad(o) => Bad(o)
      case Good(v, o) =>
        match DecodeFields(fs[1..], src, o)
        case Bad(p) => Bad(p)
        case Good(vs, p) => Good([v] + vs, p)
  }

  // ----- round trip -----

  /** bytes sit in src at off, whatever stands before and after them. */
  predicate At(src: seq<Byte>, off: nat, bytes: seq<Byte>) {
    off + |bytes| <= |src| && src[off..off + |bytes|] == bytes
  }

  lemma AtSplit(src: seq<Byte>, off: nat, a: seq<Byte>, b: seq<Byte>)
    requires At(src, off, a + b)
    ensures At(src, off, a) && At(src, off + |a|, b)
  {
    assert a == (a + b)[..|a|] == src[off..off + |a + b|][..|a|];
    assert b == (a + b)[|a|..] == src[off..off + |a + b|][|a|..];
  }

  lemma {:induction false} UnpackPack(ns: seq<nat>, w: Width)
    requires AllBelow(ns, Pow256(w))
    ensures UnpackNumbers(PackNumbers(ns, w), |ns|, w) == ns
  {
    if ns != [] {
      FromToLE(ns[0], w);
      UnpackPack(ns[1..], w);
      assert PackNumbers(ns, w)[..w] == LE(ns[0], w);
      assert PackNumbers(ns, w)[w..] == PackNumbers(ns[1..], w);
    }
  }

  lemma CountAt(n: nat, src: seq<Byte>, off: nat)
    requires n < U32_LIMIT && At(src, off, LE(n, 4))
    ensures DecodeNumber(4, src, off) == Good(n, off + 4)
  {
    Pow256Of4();
    FromToLE(n, 4);
  }

  lemma RoundTripNumber(w: Width, b: nat, src: seq<Byte>, off: nat)
    requires b < Pow256(w) && At(src, off, LE(b, w))
    ensures Decode(Number(w), src, off) == Good(Num(b), off + w)
  {
    FromToLE(b, w);
  }

  lemma DecodeNumberArray(n: nat, w: Width, src: seq<Byte>, off: nat, packed: seq<Byte>)
    requires |packed| == Span(n, w) && At(src, off, packed)
    ensures Decode(NumberArray(n, w), src, off) == Good(Nums(UnpackNumbers(packed, n, w)), off + |packed|)
  {
  }

  lemma RoundTripNumberArray(n: nat, w: Width, ns: seq<nat>, src: seq<Byte>, off: nat)
    requires |ns| == n && AllBelow(ns, Pow256(w)) && At(src, off, PackNumbers(ns, w))
    ensures Decode(NumberArray(n, w), src, off) == Good(Nums(ns), off + Span(n, w))
  {
    UnpackPack(ns, w);
    DecodeNumberArray(n, w, src, off, PackNumbers(ns, w));
  }

  lemma RoundTripText(s: seq<Byte>, src: seq<Byte>, off: nat)
    requires |s| < U32_LIMIT && At(src, off, Encode(Text, Str(s)))
    ensures Decode(Text, src, off) == Good(Str(s), off + |Encode(Text, Str(s))|)
  {
    AtSplit(src, off, LE(|s|, 4), s);
    CountAt(|s|, src, off);
  }

  lemma EncodeNumbersUnfold(w: Width, ns: seq<nat>)
    ensures Encode(NumberVector(w), Nums(ns)) == LE(Count(|ns|), 4) + PackNumbers(Counted(ns), w)
  {
  }

  lemma EncodeNumbers(w: Width, ns: seq<nat>)
    requires |ns| < U32_LIMIT
    ensures Encode(NumberVector(w), Nums(ns)) == LE(|ns|, 4) + PackNumbers(ns, w)
  {
    EncodeNumbersUnfold(w, ns);
    assert Counted(ns) == ns && Count(|ns|) == |ns|;
  }

  lemma DecodeNumbers(w: Width, src: seq<Byte>, off: nat, n: nat, packed: seq<Byte>)
    requires off <= |src| && DecodeNumber(4, src, off) == Good(n, off + 4)
    requires |packed| == Span(n, w) && At(src, off + 4, packed)
    ensures Decode(NumberVector(w), src, off) == Good(Nums(UnpackNumbers(packed, n, w)), off + 4 + |packed|)
  {
    hide DecodeNumber, UnpackNumbers;
    assert packed == src[off + 4..off + 4 + Span(n, w)];
  }

  lemma RoundTripNumbers(w: Width, ns: seq<nat>, src: seq<Byte>, off: nat)
    requires |ns| < U32_LIMIT && AllBelow(ns, Pow256(w))
    requires At(src, off, Encode(NumberVector(w), Nums(ns)))
    ensures Decode(NumberVector(w), src, off) == Good(Nums(ns), off + |Encode(NumberVector(w), Nums(ns))|)
  {
    var packed := PackNumbers(ns, w);
    EncodeNumbers(w, ns);
    AtSplit(src, off, LE(|ns|, 4), packed);
    CountAt(|ns|, src, off);
    DecodeNumbers(w, src, off, |ns|, packed);
    UnpackPack(ns, w);
  }

  lemma VectorParts(ty: Schema, vs: seq<Value>, src: seq<Byte>, off: nat)
    requires |vs| < U32_LIMIT && At(src, off, Encode(Vector(ty), Many(vs)))
    ensures DecodeNumber(4, src, off) == Good(|vs|, off + 4)
    ensures At(src, off + 4, EncodeItems(ty, vs))
  {
    AtSplit(src, off, LE(|vs|, 4), EncodeItems(ty, vs));
    CountAt(|vs|, src, off);
  }

  lemma ItemsStep(ty: Schema, vs: seq<Value>, src: seq<Byte>, off: nat, mid: nat)
    requires vs != [] && off <= |src| && mid <= |src|
    requires Decode(ty, src, off) == Good(vs[0], mid)
    requires DecodeItems(ty, |vs| - 1, src, mid).Good? && DecodeItems(ty, |vs| - 1, src, mid).value == vs[1..]
    ensures DecodeItems(ty, |vs|, src, off) == Good(vs, DecodeItems(ty, |vs| - 1, src, mid).next)
  {
    assert [vs[0]] + vs[1..] == vs;
  }

  lemma FieldsStep(fs: seq<Schema>, vs: seq<Value>, src: seq<Byte>, off: nat, mid: nat)
    requires fs != [] && vs != [] && off <= |src| && mid <= |src|
    requires Decode(fs[0], src, off) == Good(vs[0], mid)
    requires DecodeFields(fs[1..], src, mid).Good? && DecodeFields(fs[1..], src, mid).value == vs[1..]
    ensures DecodeFields(fs, src, off) == Good(vs, DecodeFields(fs[1..], src, mid).next)
  {
    assert [vs[0]] + vs[1..] == vs;
  }

  /** Decoding what was encoded, at any offset and between any other bytes, gives the value back. */
  lemma {:induction false} RoundTrip(ty: Schema, v: Value, src: seq<Byte>, off: nat)
    requires Fits(ty, v)
    requires At(src, off, Encode(ty, v))
    ensures Decode(ty, src, off) == Good(v, off + |Encode(ty, v)|)
    decreases v
  {
    match (ty, v)
    case (Number(w), Num(b)) => RoundTripNumber(w, b, src, off);
    case (Text, Str(s)) => RoundTripText(s, src, off);
    case (NumberArray(n, w), Nums(ns)) => RoundTripNumberArray(n, w, ns, src, off);
    case (NumberVector(w), Nums(ns)) => RoundTripNumbers(w, ns, src, off);
    case (Array(_, e), Many(vs)) => RoundTripItems(e, vs, src, off);
    case (Vector(e), Many(vs)) =>
      VectorParts(e, vs, src, off);
      RoundTripItems(e, vs, src, off + 4);
    case (Message(fs), Many(vs)) => RoundTripFields(fs, vs, src, off);
  }

  lemma {:induction false} RoundTripItems(ty: Schema, vs: seq<Value>, src: seq<Byte>, off: nat)
    requires AllConform(ty, vs, true)
    requires At(src, off, EncodeItems(ty, vs))
    ensures DecodeItems(ty, |vs|, src, off) == Good(vs, off + |EncodeItems(ty, vs)|)
    decreases vs
  {
    hide Encode, Decode, Conforms, At;
    if vs != [] {
      var first := Encode(ty, vs[0]);
      AtSplit(src, off, first, EncodeItems(ty, vs[1..]));
      RoundTrip(ty, vs[0], src, off);
      RoundTripItems(ty, vs[1..], src, off + |first|);
      ItemsStep(ty, vs, src, off, off + |first|);
    }
  }

  lemma {:induction false} RoundTripFields(fs: seq<Schema>, vs: seq<Value>, src: seq<Byte>, off: nat)
    requires FieldsConform(fs, vs, true)
    requires At(src, off, EncodeFields(fs, vs))
    ensures DecodeFields(fs, src, off) == Good(vs, off + |EncodeFields(fs, vs)|)
    decreases vs
  {
    if vs != [] {
      var first := Encode(fs[0], vs[0]);
      AtSplit(src, off, first, EncodeFields(fs[1..], vs[1..]));
      RoundTrip(fs[0], vs[0], src, off);
      RoundTripFields(fs[1..], vs[1..], src, off + |first|);
      FieldsStep(fs, vs, src, off, off + |first|);
    }
  }

  // ----- canonicity -----

  lemma {:induction false} PackUnpack(s: seq<Byte>, n: nat, w: Width)
    requires |s| == Span(n, w)
    ensures AllBelow(UnpackNumbers(s, n, w), Pow256(w))
    ensures PackNumbers(UnpackNumbers(s, n, w), w) == s
    decreases n
  {
    hide FromLE, LE, Pow256;
    if n > 0 {
      assert |s[w..]| == Span(n - 1, w);
      PackUnpack(s[w..], n - 1, w);
      FromLEBound(s[..w]);
      ToFromLE(s[..w]);
      var rest := UnpackNumbers(s[w..], n - 1, w);
      assert UnpackNumbers(s, n, w)[1..] == rest;
      assert s == s[..w] + s[w..];
    }
  }

  lemma NumberCanonical(w: Width, src: seq<Byte>, off: nat)
    requires off + w <= |src|
    ensures FromLE(src[off..off + w]) < Pow256(w)
    ensures LE(FromLE(src[off..off + w]), w) == src[off..off + w]
  {
    FromLEBound(src[off..off + w]);
    ToFromLE(src[off..off + w]);
  }

  lemma Join(src: seq<Byte>, a: nat, b: nat, c: nat)
    requires a <= b <= c <= |src|
    ensures src[a..c] == src[a..b] + src[b..c]
  {
  }

  lemma CountCanonical(src: seq<Byte>, off: nat)
    requires off + 4 <= |src|
    ensures FromLE(src[off..off + 4]) < U32_LIMIT
    ensures LE(Count(FromLE(src[off..off + 4])), 4) == src[off..off + 4]
  {
    Pow256Of4();
    NumberCanonical(4, src, off);
  }

  lemma CanonicalText(src: seq<Byte>, off: nat)
    requires off <= |src| && Decode(Text, src, off).Good?
    ensures Fits(Text, Decode(Text, src, off).value)
    ensures Encode(Text, Decode(Text, src, off).value) == src[off..Decode(Text, src, off).next]
  {
    CountCanonical(src, off);
    Join(src, off, off + 4, Decode(Text, src, off).next);
  }

  lemma CanonicalNumberArray(n: nat, w: Width, src: seq<Byte>, off: nat)
    requires off + Span(n, w) <= |src|
    ensures Decode(NumberArray(n, w), src, off).Good?
    ensures Fits(NumberArray(n, w), Decode(NumberArray(n, w), src, off).value)
    ensures Encode(NumberArray(n, w), Decode(NumberArray(n, w), src, off).value) == src[off..off + Span(n, w)]
  {
    PackUnpack(src[off..off + Span(n, w)], n, w);
  }

  lemma CanonicalNumbers(w: Width, src: seq<Byte>, off: nat)
    requires off <= |src| && Decode(NumberVector(w), src, off).Good?
    ensures Fits(NumberVector(w), Decode(NumberVector(w), src, off).value)
    ensures Encode(NumberVector(w), Decode(NumberVector(w), src, off).value)
         == src[off..Decode(NumberVector(w), src, off).next]
  {
    hide LE, FromLE;
    CountCanonical(src, off);
    var n := DecodeNumber(4, src, off).value;
    var end := off + 4 + Span(n, w);
    PackUnpack(src[off + 4..end], n, w);
    var ns := UnpackNumbers(src[off + 4..end], n, w);
    DecodeNumbers(w, src, off, n, src[off + 4..end]);
    EncodeNumbers(w, ns);
    Join(src, off, off + 4, end);
  }

  /** Whatever bytes decode, the result fits its prefixes and encodes to exactly the bytes consumed. */
  lemma {:induction false} Canonical(ty: Schema, src: seq<Byte>, off: nat)
    requires off <= |src| && Decode(ty, src, off).Good?
    ensures Fits(ty, Decode(ty, src, off).value)
    ensures Encode(ty, Decode(ty, src, off).value) == src[off..Decode(ty, src, off).next]
    decreases ty, 0
  {
    hide LE, FromLE, PackNumbers, UnpackNumbers, EncodeItems, EncodeFields, DecodeItems, DecodeFields;
    match ty
    case Number(w) => NumberCanonical(w, src, off);
    case Text => CanonicalText(src, off);
    case NumberArray(n, w) => CanonicalNumberArray(n, w, src, off);
    case NumberVector(w) => CanonicalNumbers(w, src, off);
    case Array(n, e) => CanonicalItems(e, n, src, off);
    case Vector(e) =>
      CountCanonical(src, off);
      CanonicalItems(e, DecodeNumber(4, src, off).value, src, off + 4);
      Join(src, off, off + 4, Decode(ty, src, off).next);
    case Message(fs) => CanonicalFields(fs, src, off);
  }

  lemma {:induction false} CanonicalItems(ty: Schema, n: nat, src: seq<Byte>, off: nat)
    requires off <= |src| && DecodeItems(ty, n, src, off).Good?
    ensures AllConform(ty, DecodeItems(ty, n, src, off).value, true)
    ensures EncodeItems(ty, DecodeItems(ty, n, src, off).value) == src[off..DecodeItems(ty, n, src, off).next]
    decreases ty, n + 1
  {
    if n > 0 {
      Canonical(ty, src, off);
      var mid := Decode(ty, src, off).next;
      CanonicalItems(ty, n - 1, src, mid);
      var r := DecodeItems(ty, n, src, off);
      assert r.value[1..] == DecodeItems(ty, n - 1, src, mid).value;
      Join(src, off, mid, r.next);
    }
  }

  lemma {:induction false} CanonicalFields(fs: seq<Schema>, src: seq<Byte>, off: nat)
    requires off <= |src| && DecodeFields(fs, src, off).Good?
    ensures FieldsConform(fs, DecodeFields(fs, src, off).value, true)
    ensures EncodeFields(fs, DecodeFields(fs, src, off).value) == src[off..DecodeFields(fs, src, off).next]
    decreases fs, 0
  {
    if fs != [] {
      Canonical(fs[0], src, off);
      var mid := Decode(fs[0], src, off).next;
      CanonicalFields(fs[1..], src, mid);
      var r := DecodeFields(fs, src, off);
      assert r.value[1..] == DecodeFields(fs[1..], src, mid).value;
      Join(src, off, mid, r.next);
    }
  }

  // ----- consequences for whole buffers -----

  /** A value of the right type survives the wire exactly when all its lengths fit in a uint32. */
  lemma SurvivesIffFits(ty: Schema, v: Value, before: seq<Byte>, after: seq<Byte>)
    requires Typed(ty, v)
    ensures Decode(ty, before + Encode(ty, v) + after, |before|) == Good(v, |before| + |Encode(ty, v)|) <==> Fits(ty, v)
  {
    var src := before + Encode(ty, v) + after;
    if Fits(ty, v) {
      RoundTrip(ty, v, src, |before|);
    } else if Decode(ty, src, |before|).Good? {
      Canonical(ty, src, |before|);
    }
  }

  /** Every strict prefix of an encoding is rejected. */
  lemma StrictPrefixRejected(ty: Schema, v: Value, k: nat)
    requires Fits(ty, v) && k < |Encode(ty, v)|
    ensures Decode(ty, Encode(ty, v)[..k], 0).Bad?
  {
    var whole := Encode(ty, v);
    var r := Decode(ty, whole[..k], 0);
    if r.Good? {
      Canonical(ty, whole[..k], 0);
      RoundTrip(ty, r.value, whole, 0);
      RoundTrip(ty, v, whole, 0);
    }
  }

  /** So no encoding is a proper prefix of another one, and equal encodings come from equal values. */
  lemma PrefixFree(ty: Schema, v: Value, w: Value)
    requires Fits(ty, v) && Fits(ty, w)
    requires Encode(ty, v) <= Encode(ty, w)
    ensures v == w
  {
    var whole := Encode(ty, w);
    RoundTrip(ty, v, whole, 0);
    RoundTrip(ty, w, whole, 0);
  }

  // ----- size -----

  /** size_x: each function returns uint32_t, so every sum is taken modulo 2^32. */
  function SizeOf(ty: Schema, v: Value): U32
    decreases v
  {
    match (ty, v)
    case (Number(w), _) => w
    case (Text, Str(s)) => Count(4 + |s|)
    case (NumberArray(_, w), Nums(ns)) => Count(Span(|ns|, w))
    case (NumberVector(w), Nums(ns)) => Count(4 + Span(|ns|, w))
    case (Array(_, e), Many(vs)) => SizeOfItems(e, vs, 0)
    case (Vector(e), Many(vs)) => SizeOfItems(e, vs, 4)
    case (Message(fs), Many(vs)) => Count(SizeOfFields(fs, vs))
    case _ => 0
  }

  function SizeOfItems(ty: Schema, vs: seq<Value>, start: U32): U32
    decreases vs
  {
    if vs == [] then start else SizeOfItems(ty, vs[1..], Count(start + SizeOf(ty, vs[0])))
  }

  /** Message::size() adds the uint32 sizes of its fields in a size_t. */
  function SizeOfFields(fs: seq<Schema>, vs: seq<Value>): nat
    decreases vs
  {
    if fs == [] || vs == [] then 0 else SizeOf(fs[0], vs[0]) + SizeOfFields(fs[1..], vs[1..])
  }

  lemma CountSmall(n: nat)
    ensures n < U32_LIMIT ==> Count(n) == n
  {
  }

  lemma CountDrops(n: nat, q: nat)
    ensures Count(n + U32_LIMIT * q) == Count(n)
  {
  }

  lemma CountAdds(a: nat, b: nat)
    ensures Count(Count(a) + b) == Count(a + b)
  {
    var p := a / U32_LIMIT;
    assert Count(a) == a - U32_LIMIT * p;
    CountDrops(Count(a) + b, p);
  }

  /** Truncating a partial sum of uint32 sizes never changes the truncated total. */
  lemma CountSum(start: nat, first: nat, rest: nat)
    ensures Count(Count(start + Count(first)) + rest) == Count(start + (first + rest))
  {
    CountAdds(first, start);
    CountAdds(start + Count(first), rest);
    CountAdds(first, start + rest);
  }

  lemma CountParts(first: nat, sum: nat, rest: nat)
    requires Count(sum) == Count(rest)
    ensures Count(Count(first) + sum) == Count(first + rest)
  {
    hide Count;
    CountAdds(first, sum);
    CountAdds(sum, first);
    CountAdds(rest, first);
  }

  /** Truncating the count of a number vector does not change its size modulo 2^32. */
  lemma SpanDrops(n: nat, w: Width)
    ensures Count(4 + Span(Count(n), w)) == Count(4 + Span(n, w))
  {
    var q := n / U32_LIMIT;
    assert n == Count(n) + U32_LIMIT * q;
    assert Span(n, w) == Span(Count(n), w) + U32_LIMIT * Span(q, w);
    CountDrops(4 + Span(Count(n), w), Span(q, w));
  }

  /** The size functions return the number of bytes the serialiser writes, modulo 2^32. */
  lemma {:induction false} SizeAgrees(ty: Schema, v: Value)
    requires Typed(ty, v)
    ensures SizeOf(ty, v) == Count(|Encode(ty, v)|)
    ensures |Encode(ty, v)| < U32_LIMIT ==> SizeOf(ty, v) == |Encode(ty, v)|
    decreases v
  {
    hide LE, PackNumbers, EncodeItems, EncodeFields, SizeOfItems, SizeOfFields, AllConform, FieldsConform;
    match (ty, v)
    case (Number(_), _) =>
    case (Text, Str(s)) => CountAdds(|s|, 4);
    case (NumberArray(_, _), _) =>
    case (NumberVector(w), Nums(ns)) =>
      EncodeNumbersUnfold(w, ns);
      SpanDrops(|ns|, w);
    case (Array(_, e), Many(vs)) => SizeAgreesItems(e, vs, 0);
    case (Vector(e), Many(vs)) => SizeAgreesItems(e, vs, 4);
    case (Message(fs), Many(vs)) => SizeAgreesFields(fs, vs);
  }

  lemma {:induction false} SizeAgreesItems(ty: Schema, vs: seq<Value>, start: U32)
    requires AllConform(ty, vs, false)
    ensures SizeOfItems(ty, vs, start) == Count(start + |EncodeItems(ty, vs)|)
    decreases vs
  {
    hide Encode, SizeOf, Conforms, Count;
    CountSmall(start);
    if vs != [] {
      SizeAgrees(ty, vs[0]);
      var first := |Encode(ty, vs[0])|;
      SizeAgreesItems(ty, vs[1..], Count(start + SizeOf(ty, vs[0])));
      CountSum(start, first, |EncodeItems(ty, vs[1..])|);
    }
  }

  lemma {:induction false} SizeAgreesFields(fs: seq<Schema>, vs: seq<Value>)
    requires FieldsConform(fs, vs, false)
    ensures Count(SizeOfFields(fs, vs)) == Count(|EncodeFields(fs, vs)|)
    decreases vs
  {
    hide Encode, SizeOf, Conforms, Count;
    if vs != [] {
      SizeAgrees(fs[0], vs[0]);
      SizeAgreesFields(fs[1..], vs[1..]);
      var first, rest := |Encode(fs[0], vs[0])|, |EncodeFields(fs[1..], vs[1..])|;
      CountParts(first, SizeOfFields(fs[1..], vs[1..]), rest);
    }
  }

  // ----- what a failure leaves in the offset -----

  /** How many bytes a decoder asks for before it first moves the offset. */
  function Head(ty: Schema): nat
    decreases ty
  {
    match ty
    case Number(w) => w
    case NumberArray(n, w) => Span(n, w)
    case Array(n, e) => if n == 0 then 0 else Head(e)
    case Message(fs) => HeadOfFields(fs)
    case _ => 4
  }

  function HeadOfFields(fs: seq<Schema>): nat
    decreases fs
  {
    if fs == [] then 0 else if Head(fs[0]) == 0 then HeadOfFields(fs[1..]) else Head(fs[0])
  }

  /** The three things that can happen to a decoder at off, given how many bytes it asks for first. */
  predicate Moves<T>(r: Decoded<T>, head: nat, src: seq<Byte>, off: nat) {
    && (off + head > |src| ==> r == Bad(off))
    && (r.Bad? && off + head <= |src| ==> r.next > off)
    && (r.Good? ==> r.next >= off + head)
    && (head == 0 ==> r.Good? && r.next == off)
  }

  lemma {:induction false} DecodeMoves(ty: Schema, src: seq<Byte>, off: nat)
    requires off <= |src|
    ensures Moves(Decode(ty, src, off), Head(ty), src, off)
    decreases ty, 0
  {
    hide UnpackNumbers, FromLE;
    match ty
    case Array(n, e) => ItemsMove(e, n, src, off);
    case Message(fs) => FieldsMove(fs, src, off);
    case _ =>
  }

  lemma {:induction false} ItemsMove(ty: Schema, n: nat, src: seq<Byte>, off: nat)
    requires off <= |src|
    ensures Moves(DecodeItems(ty, n, src, off), if n == 0 then 0 else Head(ty), src, off)
    decreases ty, n + 1
  {
    hide Decode, Head;
    if n > 0 {
      DecodeMoves(ty, src, off);
      if Decode(ty, src, off).Good? {
        ItemsMove(ty, n - 1, src, Decode(ty, src, off).next);
      }
    }
  }

  lemma {:induction false} FieldsMove(fs: seq<Schema>, src: seq<Byte>, off: nat)
    requires off <= |src|
    ensures Moves(DecodeFields(fs, src, off), HeadOfFields(fs), src, off)
    decreases fs, 0
  {
    hide Decode, Head;
    if fs != [] {
      DecodeMoves(fs[0], src, off);
      if Decode(fs[0], src, off).Good? {
        FieldsMove(fs[1..], src, Decode(fs[0], src, off).next);
      }
    }
  }

  /** A decoder fails and leaves the offset where it was exactly when not even its first bytes are there. */
  lemma OffsetKeptIff(ty: Schema, src: seq<Byte>, off: nat)
    requires off <= |src|
    ensures Decode(ty, src, off) == Bad(off) <==> off + Head(ty) > |src|
  {
    hide Decode, Head;
    DecodeMoves(ty, src, off);
  }

  /** A string that fails has kept the offset exactly when its prefix is missing, and moved it by four otherwise. */
  lemma FailedTextOffset(src: seq<Byte>, off: nat)
    requires off <= |src| && Decode(Text, src, off).Bad?
    ensures Decode(Text, src, off).next == if off + 4 > |src| then off else off + 4
  {
    OffsetKeptIff(Text, src, off);
  }
}
