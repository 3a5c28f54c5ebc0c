/**
 * The stream between the two programs: a uint32 length, then that many bytes
 * of a serialised command, over and over. Commands is the reference parser
 * that the driver loop is proved against, Frames what the keyboard loop is.
 */
module Framing {
  import opened Bytes
  import opened Codec
  import opened Messages

  // ----- frames -----

  function Frame(c: Command): seq<Byte> {
    LE(Count(|EncodeCommand(c)|), 4) + EncodeCommand(c)
  }

  function Frames(cs: seq<Command>): seq<Byte> {
    if cs == [] then [] else Frame(cs[0]) + Frames(cs[1..])
  }

  lemma {:induction false} FramesConcat(a: seq<Command>, b: seq<Command>)
    ensures Frames(a + b) == Frames(a) + Frames(b)
  {
    if a == [] {
      assert a + b == b;
    } else {
      assert (a + b)[0] == a[0] && (a + b)[1..] == a[1..] + b;
      FramesConcat(a[1..], b);
    }
  }

  // ----- parsing -----

  /** Length of the frame at the head of the stream, if its prefix has arrived. */
  function FrameLength(s: seq<Byte>): nat
    requires |s| >= 4
  {
    4 + FromLE(s[..4])
  }

  predicate HasFrame(s: seq<Byte>) {
    |s| >= 4 && |s| >= FrameLength(s)
  }

  /** The command of the first frame, or nothing when the payload does not deserialise. */
  function FirstCommand(s: seq<Byte>): seq<Command>
    requires HasFrame(s)
  {
    var r := ReadCommand(ZERO_COMMAND, s[4..FrameLength(s)], 0);
    if r.ok then [r.value] else []
  }

  /** Undecodable frames are skipped and an incomplete last frame is dropped. */
  function Commands(s: seq<Byte>): seq<Command>
    decreases |s|
  {
    if !HasFrame(s) then [] else FirstCommand(s) + Commands(s[FrameLength(s)..])
  }

  /** s ends at a frame boundary. */
  predicate Whole(s: seq<Byte>)
    decreases |s|
  {
    s == [] || (HasFrame(s) && Whole(s[FrameLength(s)..]))
  }

  lemma HeadOfConcat(a: seq<Byte>, b: seq<Byte>)
    requires HasFrame(a)
    ensures HasFrame(a + b) && FrameLength(a + b) == FrameLength(a)
    ensures FirstCommand(a + b) == FirstCommand(a)
    ensures (a + b)[FrameLength(a)..] == a[FrameLength(a)..] + b
  {
    assert (a + b)[..4] == a[..4];
    assert (a + b)[4..FrameLength(a)] == a[4..FrameLength(a)];
  }

  lemma Reassociated(p: seq<Command>, q: seq<Command>, r: seq<Command>)
    ensures p + (q + r) == (p + q) + r
  {
  }

  lemma NoCommands()
    ensures Commands([]) == []
  {
  }

  lemma CommandsStep(s: seq<Byte>)
    requires HasFrame(s)
    ensures Commands(s) == FirstCommand(s) + Commands(s[FrameLength(s)..])
  {
    hide FirstCommand;
  }

  /** Parsing is a homomorphism at frame boundaries. */
  lemma {:induction false} CommandsConcat(a: seq<Byte>, b: seq<Byte>)
    requires Whole(a)
    ensures Commands(a + b) == Commands(a) + Commands(b)
    ensures Whole(b) ==> Whole(a + b)
    decreases |a|
  {
    hide Commands, FirstCommand;
    if a == [] {
      assert a + b == b;
      NoCommands();
    } else {
      var tail := a[FrameLength(a)..];
      HeadOfConcat(a, b);
      CommandsStep(a);
      CommandsStep(a + b);
      CommandsConcat(tail, b);
      Reassociated(FirstCommand(a), Commands(tail), Commands(b));
    }
  }

  /** More input never retracts or changes a command that was already there. */
  lemma {:induction false} CommandsMonotone(a: seq<Byte>, b: seq<Byte>)
    ensures Commands(a) <= Commands(a + b)
    decreases |a|
  {
    if HasFrame(a) {
      HeadOfConcat(a, b);
      CommandsMonotone(a[FrameLength(a)..], b);
    }
  }

  lemma OneFrame(s: seq<Byte>)
    requires HasFrame(s) && |s| == FrameLength(s)
    ensures Whole(s) && Commands(s) == FirstCommand(s)
  {
    assert s[FrameLength(s)..] == [];
    assert Commands([]) == [];
  }

  /** The number of whole frames at the head of a stream, decodable or not. */
  function FrameCount(s: seq<Byte>): nat
    decreases |s|
  {
    if !HasFrame(s) then 0 else 1 + FrameCount(s[FrameLength(s)..])
  }

  lemma {:induction false} FrameCountConcat(a: seq<Byte>, b: seq<Byte>)
    requires Whole(a)
    ensures FrameCount(a + b) == FrameCount(a) + FrameCount(b)
    decreases |a|
  {
    hide FirstCommand;
    if a == [] {
      assert a + b == b;
    } else {
      HeadOfConcat(a, b);
      FrameCountConcat(a[FrameLength(a)..], b);
    }
  }

  // ----- parsing what was framed -----

  /** The keyboard loop's uint32 length is the true one. */
  predicate Framable(c: Command) { |c.header.frameId| + 32 < U32_LIMIT }

  predicate AllFramable(cs: seq<Command>) { forall i :: 0 <= i < |cs| ==> Framable(cs[i]) }

  lemma FrameParses(c: Command)
    requires Framable(c)
    ensures HasFrame(Frame(c)) && FrameLength(Frame(c)) == |Frame(c)| && FirstCommand(Frame(c)) == [c]
  {
    var body := EncodeCommand(c);
    Pow256Of4();
    FromToLE(|body|, 4);
    var f := Frame(c);
    assert f[..4] == LE(|body|, 4);
    assert f[4..|f|] == body;
    assert body[0..0 + |body|] == body;
    CommandRoundTrip(c, ZERO_COMMAND, body, 0);
  }

  /** A frame is the length of the message, least significant byte first, and then the message. */
  lemma FrameLayout(c: Command)
    requires Framable(c)
    ensures var f, n := Frame(c), 28 + |c.header.frameId|;
            && |f| == 4 + n && f[4..] == EncodeCommand(c)
            && forall i :: 0 <= i < 4 ==> f[i] == n / Pow256(i) % 256
  {
    hide EncodeCommand;
    EncodeCommandSize(c);
    var n := 28 + |c.header.frameId|;
    forall i | 0 <= i < 4 ensures Frame(c)[i] == n / Pow256(i) % 256 {
      LEDigit(n, 4, i);
    }
  }

  /** How many whole frames the first p bytes hold. */
  function CompleteFrames(cs: seq<Command>, p: nat): (n: nat)
    ensures n <= |cs|
  {
    if cs == [] || p < |Frame(cs[0])| then 0 else 1 + CompleteFrames(cs[1..], p - |Frame(cs[0])|)
  }

  lemma CutFrameIsNoFrame(f: seq<Byte>, p: nat)
    requires HasFrame(f) && p < FrameLength(f) == |f|
    ensures !HasFrame(f[..p])
  {
    if p >= 4 { assert f[..p][..4] == f[..4]; }
  }

  lemma CutAfterFirst(first: seq<Byte>, rest: seq<Byte>, p: nat)
    requires HasFrame(first) && FrameLength(first) == |first| && p <= |first + rest|
    ensures Commands((first + rest)[..p])
         == if p < |first| then [] else FirstCommand(first) + Commands(rest[..p - |first|])
  {
    if p < |first| {
      assert (first + rest)[..p] == first[..p];
      CutFrameIsNoFrame(first, p);
    } else {
      var more := rest[..p - |first|];
      assert (first + rest)[..p] == first + more;
      HeadOfConcat(first, more);
      assert (first + more)[|first|..] == more;
    }
  }

  lemma TakeOneMore(cs: seq<Command>, n: nat)
    requires n < |cs|
    ensures cs[..n + 1] == [cs[0]] + cs[1..][..n]
  {
  }

  /** A cut anywhere in the stream loses only the frame it falls in. */
  lemma {:induction false} CutStreamParses(cs: seq<Command>, p: nat)
    requires AllFramable(cs) && p <= |Frames(cs)|
    ensures Commands(Frames(cs)[..p]) == cs[..CompleteFrames(cs, p)]
  {
    hide Commands, Frame, FirstCommand, HasFrame, FrameLength;
    if cs == [] {
      NoCommands();
      assert Frames(cs)[..p] == [];
    } else {
      var first, rest := Frame(cs[0]), Frames(cs[1..]);
      assert Frames(cs) == first + rest;
      FrameParses(cs[0]);
      CutAfterFirst(first, rest, p);
      if p >= |first| {
        CutStreamParses(cs[1..], p - |first|);
        TakeOneMore(cs, CompleteFrames(cs[1..], p - |first|));
      }
    }
  }

  lemma {:induction false} AllComplete(cs: seq<Command>)
    ensures CompleteFrames(cs, |Frames(cs)|) == |cs|
  {
    if cs != [] { AllComplete(cs[1..]); }
  }

  /** The whole stream gives back every command, in order. */
  lemma FramesParse(cs: seq<Command>)
    requires AllFramable(cs)
    ensures Commands(Frames(cs)) == cs
  {
    AllComplete(cs);
    CutStreamParses(cs, |Frames(cs)|);
    assert Frames(cs)[..|Frames(cs)|] == Frames(cs) && cs[..|cs|] == cs;
  }

  /** The size of every frame that the keyboard program sends: 4 + 20 + 12. */
  const KEY_FRAME: nat := 36

  lemma {:induction false} CompleteByDivision(cs: seq<Command>, p: nat)
    requires p <= |Frames(cs)|
    requires forall i :: 0 <= i < |cs| ==> |Frame(cs[i])| == KEY_FRAME
    ensures CompleteFrames(cs, p) == p / KEY_FRAME
    ensures |Frames(cs)| == KEY_FRAME * |cs|
  {
    if cs != [] {
      assert |Frame(cs[0])| == KEY_FRAME;
      if p >= KEY_FRAME {
        CompleteByDivision(cs[1..], p - KEY_FRAME);
      } else {
        CompleteByDivision(cs[1..], 0);
      }
    }
  }
}
