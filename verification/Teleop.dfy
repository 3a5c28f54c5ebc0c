/** TeleopKeyboard::spin: keys in, framed drive commands out. */
module Teleop {
  import opened Bytes
  import opened Codec
  import opened Serialization
  import opened Messages
  import opened Framing
  import opened Environment
  import opened TimeMath

  // ----- what a key means -----

  /** Speeds as 32-bit float patterns; negation flips the sign bit. */
  datatype Speeds = Speeds(linear: U32, angular: U32)

  function Negate(bits: U32): U32 {
    if bits < I32_LIMIT then bits + I32_LIMIT else bits - I32_LIMIT
  }

  /** toupper on letters, in the C locale. */
  function Upper(b: Byte): Byte {
    if 'a' as int <= b <= 'z' as int then b - 32 else b
  }

  predicate IsKey(b: Byte) {
    var c := Upper(b);
    c == 'W' as int || c == 'A' as int || c == 'S' as int || c == 'D' as int ||
    c == 'Q' as int || c == 'E' as int || c == ' ' as int
  }

  function KeyTwist(b: Byte, sp: Speeds): Twist
    requires IsKey(b)
  {
    var c := Upper(b);
    if c == 'W' as int then Twist(sp.linear, 0, 0)
    else if c == 'A' as int then Twist(0, sp.linear, 0)
    else if c == 'S' as int then Twist(Negate(sp.linear), 0, 0)
    else if c == 'D' as int then Twist(0, Negate(sp.linear), 0)
    else if c == 'Q' as int then Twist(0, 0, sp.angular)
    else if c == 'E' as int then Twist(0, 0, Negate(sp.angular))
    else ZERO_TWIST
  }

  /** The keys as ASCII codes: W A S D Q E in both cases, and the space bar. */
  lemma KeysAre(b: Byte)
    ensures IsKey(b) <==> b in {87, 119, 65, 97, 83, 115, 68, 100, 81, 113, 69, 101, 32}
  {
  }

  /** The same magnitude and the other sign: the low 31 bits agree and the top bit does not. */
  predicate Opposite(a: nat, b: nat) {
    a % 0x8000_0000 == b % 0x8000_0000 && (a >= 0x8000_0000 <==> b < 0x8000_0000)
  }

  /** What a key asks for, over ASCII codes and bit patterns. */
  predicate Means(b: Byte, sp: Speeds, vx: nat, vy: nat, wz: nat) {
    && (b in {87, 119} ==> vx == sp.linear && vy == 0 && wz == 0)
    && (b in {83, 115} ==> Opposite(vx, sp.linear) && vy == 0 && wz == 0)
    && (b in {65, 97} ==> vx == 0 && vy == sp.linear && wz == 0)
    && (b in {68, 100} ==> vx == 0 && Opposite(vy, sp.linear) && wz == 0)
    && (b in {81, 113} ==> vx == 0 && vy == 0 && wz == sp.angular)
    && (b in {69, 101} ==> vx == 0 && vy == 0 && Opposite(wz, sp.angular))
    && (b == 32 ==> vx == 0 && vy == 0 && wz == 0)
  }

  lemma KeyMeaning(b: Byte, sp: Speeds)
    requires IsKey(b)
    ensures var t := KeyTwist(b, sp); Means(b, sp, t.vx, t.vy, t.wz)
  {
  }

  function ValidKeys(keys: seq<Byte>): (r: seq<Byte>)
    ensures forall i :: 0 <= i < |r| ==> IsKey(r[i])
  {
    if keys == [] then [] else ValidKeys(Init(keys)) + (if IsKey(Last(keys)) then [Last(keys)] else [])
  }

  // "mbot"
  const FRAME_ID: seq<Byte> := [109, 98, 111, 116]

  /** The i-th command: consecutive sequence numbers modulo 2^32. */
  function KeyCommand(i: nat, key: Byte, ns: int, sp: Speeds): Command
    requires IsKey(key)
  {
    Command(Header(i % U32_LIMIT, ToMsg(ns), FRAME_ID), KeyTwist(key, sp))
  }

  /** The commands for the first |times| of the valid keys, stamped with those times. */
  function Plan(keys: seq<Byte>, times: seq<int>, sp: Speeds): (r: seq<Command>)
    requires |times| <= |keys| && forall i :: 0 <= i < |keys| ==> IsKey(keys[i])
    ensures |r| == |times|
  {
    seq(|times|, i requires 0 <= i < |times| => KeyCommand(i, keys[i], times[i], sp))
  }

  // ----- what the journal must look like -----

  predicate Timed(log: seq<Action>) {
    |Stamps(log)| <= |ValidKeys(Input(log))|
  }

  /** The commands that the keys and clock readings in a journal call for. */
  function Planned(log: seq<Action>, sp: Speeds): seq<Command>
    requires Timed(log)
  {
    Plan(ValidKeys(Input(log)), Stamps(log), sp)
  }

  /** The bytes that should have been written once everything planned is out. */
  function Target(log: seq<Action>, sp: Speeds): seq<Byte>
  {
    if Timed(log) then Frames(Planned(log, sp)) else []
  }

  /** At every moment the output is a prefix of the frames for the valid keys read so far. */
  ghost predicate Steady(log: seq<Action>, sp: Speeds) {
    && Timed(log)
    && Output(log) <= Target(log, sp)
    && (log != [] ==> Steady(Init(log), sp))
  }

  /** Every valid key that was read has been sent, and nothing else. */
  ghost predicate UpToDate(log: seq<Action>, sp: Speeds) {
    && |Stamps(log)| == |ValidKeys(Input(log))|
    && Output(log) == Target(log, sp)
  }

  /** Exactly the last planned frame is cut short; all earlier ones are out. */
  ghost predicate LastCut(log: seq<Action>, sp: Speeds) {
    && Timed(log) && |Stamps(log)| > 0
    && Frames(Init(Planned(log, sp))) <= Output(log)
    && Output(log) != Target(log, sp)
  }

  /** What calls for a poll: a wait that ended without input, or a byte that was read. */
  predicate Due(a: Action) {
    a.TimedOut? || a.Got?
  }

  /** A poll comes right behind what calls for it, and a frame is begun right behind a poll that found nothing. */
  predicate Fitting(log: seq<Action>, a: Action) {
    && (a.Polled? <==> log != [] && Due(Last(log)))
    && (a.ReadClock? ==> log != [] && Last(log) == Polled(false))
    && (a.Got? ==> |a.input| == 1)
  }

  predicate Punctual(log: seq<Action>) {
    log != [] ==> Punctual(Init(log)) && Fitting(Init(log), Last(log))
  }

  /** No poll is owed. */
  predicate Settled(log: seq<Action>) {
    log != [] ==> !Due(Last(log))
  }

  /** What Punctual says about each single entry. */
  lemma {:induction false} PunctualAt(log: seq<Action>, i: nat)
    requires Punctual(log) && i < |log|
    ensures log[i].Polled? <==> i > 0 && Due(log[i - 1])
    ensures log[i].ReadClock? ==> i > 0 && log[i - 1] == Polled(false)
  {
    if i < |log| - 1 { PunctualAt(Init(log), i); }
  }

  lemma PunctualNext(log: seq<Action>, a: Action)
    ensures Punctual(log) && Fitting(log, a) ==> Punctual(log + [a])
    ensures Settled(log + [a]) <==> !Due(a)
  {
    hide Due, Fitting;
    assert Init(log + [a]) == log;
  }

  /** One poll for each failed wait and one for each byte, and none for a read that would block. */
  lemma {:induction false} PollCount(log: seq<Action>)
    requires Punctual(log)
    ensures Polls(log) + (if Settled(log) then 0 else 1) == Timeouts(log) + |Input(log)|
  {
    if log != [] {
      var before, a := Init(log), Last(log);
      assert log == before + [a];
      PollCount(before);
      Extend(before, a);
      ExtendCounts(before, a);
    }
  }

  /** From one moment to a later one, nothing but successful writes. */
  predicate OnlySent(log: seq<Action>, log': seq<Action>) {
    log <= log' && forall i :: |log| <= i < |log'| ==> log'[i].Sent?
  }

  lemma NothingSent(log: seq<Action>)
    ensures OnlySent(log, log)
  {
  }

  /** One more successful write. */
  lemma SentOnly(start: seq<Action>, log: seq<Action>, more: seq<Byte>)
    ensures var log' := log + [Sent(more)];
            && Input(log') == Input(log) && Stamps(log') == Stamps(log) && Output(log') == Output(log) + more
            && (Unnotified(log) ==> Unnotified(log'))
            && (OnlySent(start, log) ==> OnlySent(start, log'))
  {
    hide Input, Output, Stamps;
    Extend(log, Sent(more));
  }

  lemma {:induction false} OnlySentCounts(log: seq<Action>, log': seq<Action>)
    requires OnlySent(log, log')
    ensures Timeouts(log') == Timeouts(log)
    decreases |log'|
  {
    if |log'| > |log| {
      assert OnlySent(log, Init(log'));
      OnlySentCounts(log, Init(log'));
    } else {
      assert log' == log;
    }
  }

  lemma {:induction false} OnlySentPunctual(log: seq<Action>, log': seq<Action>)
    requires OnlySent(log, log') && Punctual(log) && log != [] && Settled(log)
    ensures Punctual(log') && Settled(log')
    decreases |log'|
  {
    if |log'| > |log| {
      assert OnlySent(log, Init(log'));
      OnlySentPunctual(log, Init(log'));
    } else {
      assert log' == log;
    }
  }

  lemma OnlySentAfter(log: seq<Action>, a: Action, log': seq<Action>)
    requires OnlySent(log + [a], log') && !Due(a)
    ensures log <= log' && Timeouts(log') == Timeouts(log + [a])
    ensures Punctual(log + [a]) ==> Punctual(log') && Settled(log')
  {
    hide Punctual, Timeouts;
    OnlySentCounts(log + [a], log');
    if Punctual(log + [a]) {
      OnlySentPunctual(log + [a], log');
    }
  }

  lemma OnlySentBoth(a: seq<Action>, b: seq<Action>, c: seq<Action>)
    requires OnlySent(a, b) && OnlySent(b, c)
    ensures OnlySent(a, c)
  {
  }

  datatype Exit = Notified | EndOfInput | InputError | WriteFailed

  /** The journal of a whole run of spin. */
  ghost predicate TeleopRun(log: seq<Action>, sp: Speeds, exit: Exit) {
    && Steady(log, sp)
    && match exit
       case Notified =>
         // nothing happens after the poll that reports it; at most the key just read is dropped
         && log != [] && Last(log) == Polled(true) && Unnotified(Init(log))
         && Output(log) == Target(log, sp)
         && |ValidKeys(Input(log))| <= |Stamps(log)| + 1
       case EndOfInput => Unnotified(log) && UpToDate(log, sp)
       case InputError => Unnotified(log) && UpToDate(log, sp)
       case WriteFailed =>
         && Unnotified(log)
         && |Stamps(log)| == |ValidKeys(Input(log))|
         && LastCut(log, sp)
  }

  /** What Steady says about each single moment of a run. */
  lemma {:induction false} SteadyAt(log: seq<Action>, sp: Speeds, k: nat)
    requires Steady(log, sp) && k <= |log|
    ensures Timed(log[..k])
    ensures Output(log[..k]) <= Frames(Planned(log[..k], sp))
    decreases |log|
  {
    if k == |log| {
      assert log[..k] == log;
    } else {
      assert log[..k] == Init(log)[..k];
      SteadyAt(Init(log), sp, k);
    }
  }

  // ----- the kinds of step -----

  lemma StepQuiet(log: seq<Action>, sp: Speeds, a: Action)
    requires Steady(log, sp) && (a.Polled? || a.Blocked? || a.TimedOut?)
    ensures Steady(log + [a], sp) && Target(log + [a], sp) == Target(log, sp)
    ensures UpToDate(log, sp) ==> UpToDate(log + [a], sp)
    ensures Unnotified(log) && a != Polled(true) ==> Unnotified(log + [a])
  {
    hide Input, Output, Stamps, Plan, ValidKeys, Frames;
    Extend(log, a);
  }

  /** The poll behind a failed wait reported the notification. */
  lemma StopWhileIdle(log: seq<Action>, sp: Speeds)
    requires Steady(log, sp) && UpToDate(log, sp) && Unnotified(log)
    ensures TeleopRun(log + [Polled(true)], sp, Notified)
  {
    hide Input, Output, Stamps, Steady, ValidKeys, Frames;
    Extend(log, Polled(true));
    StepQuiet(log, sp, Polled(true));
  }

  lemma StepSent(log: seq<Action>, sp: Speeds, bytes: seq<Byte>)
    requires Steady(log, sp) && Output(log) + bytes <= Target(log, sp)
    ensures Steady(log + [Sent(bytes)], sp)
    ensures Target(log + [Sent(bytes)], sp) == Target(log, sp)
  {
    hide Input, Output, Stamps, Plan, ValidKeys, Frames;
    Extend(log, Sent(bytes));
  }

  lemma OneMoreKey(keys: seq<Byte>, key: Byte)
    ensures ValidKeys(keys + [key]) == if IsKey(key) then ValidKeys(keys) + [key] else ValidKeys(keys)
    ensures ValidKeys([]) == []
  {
    assert Init(keys + [key]) == keys;
  }

  lemma StepGot(log: seq<Action>, sp: Speeds, key: Byte)
    requires Steady(log, sp)
    ensures Steady(log + [Got([key])], sp)
    ensures Target(log + [Got([key])], sp) == Target(log, sp)
  {
    hide Input, Output, Stamps, ValidKeys, Frames;
    Extend(log, Got([key]));
    OneMoreKey(Input(log), key);
    assert Planned(log + [Got([key])], sp) == Planned(log, sp);
  }

  /** A byte arrived between two keys. */
  lemma GotKey(log: seq<Action>, sp: Speeds, key: Byte)
    requires Steady(log, sp) && UpToDate(log, sp) && Unnotified(log)
    ensures var log' := log + [Got([key])];
            && Steady(log', sp) && Unnotified(log') && Output(log') == Target(log', sp)
            && Input(log') == Input(log) + [key] && Stamps(log') == Stamps(log)
            && |Stamps(log')| + (if IsKey(key) then 1 else 0) == |ValidKeys(Input(log'))|
            && (IsKey(key) ==> Last(ValidKeys(Input(log'))) == key)
            && (Punctual(log) && Settled(log) ==> Punctual(log'))
            && Timeouts(log') == Timeouts(log)
  {
    hide Input, Output, Stamps, Steady, Target, ValidKeys, Punctual, IsKey, Timeouts;
    StepGot(log, sp, key);
    Extend(log, Got([key]));
    PunctualNext(log, Got([key]));
    ExtendCounts(log, Got([key]));
    OneMoreKey(Input(log), key);
  }

  lemma LoneFrame(c: Command)
    ensures Frames([c]) == Frame(c)
  {
    hide Frame;
    assert Frames([]) == [];
  }

  lemma PlanNext(keys: seq<Byte>, times: seq<int>, ns: int, sp: Speeds)
    requires |times| < |keys| && forall i :: 0 <= i < |keys| ==> IsKey(keys[i])
    ensures Plan(keys, times + [ns], sp) == Plan(keys, times, sp) + [KeyCommand(|times|, keys[|times|], ns, sp)]
  {
    hide IsKey, KeyCommand;
  }

  /** Reading the clock commits the next frame. */
  lemma StepClock(log: seq<Action>, sp: Speeds, ns: int)
    requires Steady(log, sp) && |Stamps(log)| < |ValidKeys(Input(log))|
    ensures Steady(log + [ReadClock(ns)], sp)
    ensures var i := |Stamps(log)|;
            Target(log + [ReadClock(ns)], sp)
              == Target(log, sp) + Frame(KeyCommand(i, ValidKeys(Input(log))[i], ns, sp))
    ensures Init(Planned(log + [ReadClock(ns)], sp)) == Planned(log, sp)
  {
    hide Input, Output, Stamps, ValidKeys, Frame, Frames, Plan, IsKey, KeyCommand;
    var i := |Stamps(log)|;
    var keys := ValidKeys(Input(log));
    var next := KeyCommand(i, keys[i], ns, sp);
    Extend(log, ReadClock(ns));
    PlanNext(keys, Stamps(log), ns, sp);
    assert Planned(log + [ReadClock(ns)], sp) == Planned(log, sp) + [next];
    FramesConcat(Planned(log, sp), [next]);
    LoneFrame(next);
  }

  /** A write that fails after the clock was read cuts the frame that was begun there. */
  lemma CutIn(log: seq<Action>, begun: seq<Action>, end: seq<Action>, sp: Speeds)
    requires Timed(log) && Output(log) == Target(log, sp)
    requires Timed(begun) && Stamps(begun) != [] && Init(Planned(begun, sp)) == Planned(log, sp)
    requires Input(end) == Input(begun) && Stamps(end) == Stamps(begun)
    requires Output(log) <= Output(end) && Output(end) != Target(end, sp)
    ensures LastCut(end, sp)
  {
    hide Input, Output, Stamps, ValidKeys, Frames;
  }

  lemma NothingYet(sp: Speeds)
    ensures Steady([], sp) && UpToDate([], sp) && Unnotified([]) && Punctual([]) && Settled([])
    ensures Input([]) == [] && Stamps([]) == [] && Timeouts([]) == 0
  {
  }

  /** A read that would block leaves everything as it was. */
  lemma QuietBlock(log: seq<Action>, sp: Speeds)
    requires Steady(log, sp) && UpToDate(log, sp) && Unnotified(log)
    ensures var log' := log + [Blocked];
            && Steady(log', sp) && UpToDate(log', sp) && Unnotified(log')
            && Input(log') == Input(log) && Stamps(log') == Stamps(log) && Timeouts(log') == Timeouts(log)
            && (Punctual(log) && Settled(log) ==> Punctual(log') && Settled(log'))
  {
    hide Input, Output, Stamps, Steady, UpToDate, Punctual, Timeouts;
    StepQuiet(log, sp, Blocked);
    Extend(log, Blocked);
    ExtendCounts(log, Blocked);
    PunctualNext(log, Blocked);
  }

  lemma NextSeq(n: nat)
    ensures (n % U32_LIMIT + 1) % U32_LIMIT == (n + 1) % U32_LIMIT
  {
  }

  lemma Regroup(a: seq<Byte>, b: seq<Byte>, c: seq<Byte>)
    ensures a + (b + c) == (a + b) + c
  {
  }

  lemma SentPrefix(start: seq<Byte>, sent: seq<Byte>, more: seq<Byte>, whole: seq<Byte>, target: seq<Byte>)
    requires start + whole <= target && sent + more <= whole
    ensures (start + sent) + more <= target
    ensures (start + sent) + more == start + (sent + more)
  {
    assert (start + sent) + more == start + (sent + more);
    assert start + (sent + more) <= start + whole;
  }

  lemma Short(start: seq<Byte>, sent: seq<Byte>, prefix: seq<Byte>, payload: seq<Byte>)
    requires |sent| < |prefix|
    ensures start + sent != start + prefix + payload
  {
  }

  /** No write is refused for good. */
  predicate Accepting(accepts: seq<Acceptance>) {
    forall i :: 0 <= i < |accepts| ==> accepts[i] == Refuse(EINTR) || (accepts[i].Accept? && accepts[i].most > 0)
  }

  lemma AcceptingNext(accepts: seq<Acceptance>)
    ensures Accepting([])
    ensures accepts != [] && Accepting(accepts) ==> Accepting(accepts[1..])
    ensures accepts != [] && Accepting(accepts) ==>
      accepts[0] == Refuse(EINTR) || (accepts[0].Accept? && accepts[0].most > 0)
  {
  }

  datatype Turn = Go | Stop(exit: Exit)

  class TeleopKeyboard {
    const world: World
    const speeds: Speeds

    constructor (world: World, speeds: Speeds)
      ensures this.world == world && this.speeds == speeds
    {
      this.world, this.speeds := world, speeds;
    }

    /** The lambda write_exact. */
    method WriteExact(src: array<Byte>, n: nat) returns (ok: bool, ghost sent: seq<Byte>)
      requires n <= src.Length
      requires Steady(world.log, speeds) && Output(world.log) + src[..n] <= Target(world.log, speeds)
      modifies world`accepts, world`log
      ensures Output(world.log) == Output(old(world.log)) + sent
      ensures if ok then sent == src[..n] else |sent| < n && sent <= src[..n]
      ensures Input(world.log) == Input(old(world.log)) && Stamps(world.log) == Stamps(old(world.log))
      ensures Steady(world.log, speeds) && Target(world.log, speeds) == Target(old(world.log), speeds)
      ensures Unnotified(old(world.log)) ==> Unnotified(world.log)
      ensures OnlySent(old(world.log), world.log)
      ensures Accepting(old(world.accepts)) ==> ok && Accepting(world.accepts)
    {
      hide Input, Output, Stamps, Steady, Target, OnlySent, Accepting, Unnotified;
      NothingSent(world.log);
      var done := 0;
      sent := [];
      while done < n
        invariant done <= n && sent == src[..done]
        invariant Output(world.log) == Output(old(world.log)) + sent
        invariant Input(world.log) == Input(old(world.log)) && Stamps(world.log) == Stamps(old(world.log))
        invariant Steady(world.log, speeds) && Target(world.log, speeds) == Target(old(world.log), speeds)
        invariant Unnotified(old(world.log)) ==> Unnotified(world.log)
        invariant OnlySent(old(world.log), world.log)
        invariant Accepting(old(world.accepts)) ==> Accepting(world.accepts)
        decreases n - done, |world.accepts|
      {
        ghost var log := world.log;
        AcceptingNext(world.accepts);
        var w, errno := world.Write(src, done, n - done);
        if w < 0 {
          if errno == EINTR {
            continue;
          }
          return false, sent;
        }
        if w == 0 {
          return false, sent;
        }
        ghost var more := src[done..done + w];
        assert src[..done + w] == sent + more;
        SentPrefix(Output(old(world.log)), sent, more, src[..n], Target(log, speeds));
        StepSent(log, speeds, more);
        SentOnly(old(world.log), log, more);
        sent := sent + more;
        done := done + w;
      }
      return true, sent;
    }

    /** The message, serialised into a vector of its own size. */
    method Payload(msg: Twist2DStampedMsg) returns (payload: array<Byte>)
      requires |msg.header.frameId| + 32 < U32_LIMIT
      ensures fresh(payload) && payload[..] == EncodeCommand(msg.Model()) && payload.Length < U32_LIMIT
    {
      hide EncodeCommand;
      EncodeCommandSize(msg.Model());
      var size := msg.Size();
      var n := Count(size);
      payload := new Byte[n];
      var off := msg.Serialize(payload, 0);
      assert payload[..] == EncodeCommand(msg.Model());
    }

    /** The message, serialised and written with its length in front. */
    method SendMessage(msg: Twist2DStampedMsg) returns (ok: bool)
      requires |msg.header.frameId| + 32 < U32_LIMIT
      requires Steady(world.log, speeds) && Unnotified(world.log)
      requires Target(world.log, speeds) == Output(world.log) + Frame(msg.Model())
      modifies world`accepts, world`log
      ensures Steady(world.log, speeds) && Unnotified(world.log)
      ensures Input(world.log) == Input(old(world.log)) && Stamps(world.log) == Stamps(old(world.log))
      ensures ok <==> Output(world.log) == Target(world.log, speeds)
      ensures Output(old(world.log)) <= Output(world.log) && Target(world.log, speeds) == Target(old(world.log), speeds)
      ensures OnlySent(old(world.log), world.log)
      ensures Accepting(old(world.accepts)) ==> ok && Accepting(world.accepts)
    {
      hide Input, Output, Stamps, Steady, Target, EncodeCommand, OnlySent, Accepting, Unnotified, LE;
      var payload := Payload(msg);
      var n := payload.Length;
      assert payload[..n] == payload[..];

      var sizeBuf := new Byte[4];
      var off2 := SerializeNumber(sizeBuf, 0, 4, n);
      assert sizeBuf[..4] == LE(n, 4);

      ghost var start, prefix, body := Output(world.log), sizeBuf[..4], payload[..n];
      assert Target(world.log, speeds) == start + prefix + body by {
        assert start + (prefix + body) == start + prefix + body;
      }
      ghost var sent;
      ok, sent := WriteExact(sizeBuf, 4);
      if !ok {
        Short(start, sent, prefix, body);
        return;
      }
      if n > 0 {
        ghost var mid := world.log;
        ok, sent := WriteExact(payload, n);
        OnlySentBoth(old(world.log), mid, world.log);
      }
    }

    /** The command for one valid key that was just read. */
    method EmitCommand(key: Byte, seqNo: U32) returns (ok: bool)
      requires IsKey(key)
      requires Steady(world.log, speeds) && Unnotified(world.log)
      requires Output(world.log) == Target(world.log, speeds)
      requires ValidKeys(Input(world.log)) != [] && Last(ValidKeys(Input(world.log))) == key
      requires |Stamps(world.log)| + 1 == |ValidKeys(Input(world.log))|
      requires seqNo == |Stamps(world.log)| % U32_LIMIT
      requires world.notified ==> Punctual(world.log) && world.log != [] && Last(world.log) == Polled(false)
      modifies world`accepts, world`log, world`clock
      ensures Steady(world.log, speeds) && Unnotified(world.log)
      ensures Input(world.log) == Input(old(world.log))
      ensures |Stamps(world.log)| == |ValidKeys(Input(world.log))|
      ensures ok <==> Output(world.log) == Target(world.log, speeds)
      ensures !ok ==> LastCut(world.log, speeds)
      ensures old(world.log) <= world.log && Timeouts(world.log) == Timeouts(old(world.log))
      ensures world.notified ==> Punctual(world.log) && Settled(world.log)
      ensures Accepting(old(world.accepts)) ==> ok && Accepting(world.accepts)
    {
      hide Input, Output, Stamps, Steady, Target, ValidKeys, KeyTwist, ToMsg, Frame, Punctual, OnlySent, LastCut,
           Planned, Accepting, Timeouts;
      var msg := new Twist2DStampedMsg();
      ghost var log := world.log;
      var ns := world.Now();
      var stamp, twist := ToMsg(ns), KeyTwist(key, speeds);
      msg.header.seqNo, msg.header.frameId := seqNo, FRAME_ID;
      msg.header.stamp.sec, msg.header.stamp.nsec := stamp.sec, stamp.nsec;
      msg.twist.vx, msg.twist.vy, msg.twist.wz := twist.vx, twist.vy, twist.wz;
      assert msg.Model() == KeyCommand(|Stamps(log)|, key, ns, speeds);
      StepClock(log, speeds, ns);
      Extend(log, ReadClock(ns));
      PunctualNext(log, ReadClock(ns));
      ExtendCounts(log, ReadClock(ns));
      ghost var begun := world.log;
      ok := SendMessage(msg);
      OnlySentAfter(log, ReadClock(ns), world.log);
      if !ok {
        CutIn(log, begun, world.log, speeds);
      }
    }

    /** Between two keys: everything read so far has been handled. */
    ghost predicate Ready(seqNo: U32)
      reads world
    {
      && Steady(world.log, speeds) && UpToDate(world.log, speeds) && Unnotified(world.log)
      && seqNo == |Stamps(world.log)| % U32_LIMIT
      && (world.notified ==> Punctual(world.log) && Settled(world.log))
    }

    /** Nothing in the scripts can end the run before the input does. */
    ghost predicate Undisturbed()
      reads world
    {
      world.Silent() && Faultless(world.events) && Accepting(world.accepts)
    }

    method Spin() returns (exit: Exit)
      requires world.log == []
      modifies world
      ensures TeleopRun(world.log, speeds, exit)
      ensures Stream(old(world.events)) == Input(world.log) + Stream(world.events)
      ensures exit == EndOfInput ==> world.events == []
      ensures exit == InputError ==> !Faultless(old(world.events))
      // a poll right behind each failed wait and each byte, and nowhere else
      ensures world.notified ==> Punctual(world.log) && Settled(world.log)
      ensures Timeouts(world.log) <= |old(world.readable)|
      // with no notification, no read error and no refused write the whole input is consumed
      ensures old(Undisturbed()) ==> exit == EndOfInput
    {
      hide Input, Output, Stamps, Steady, Target, ValidKeys, Stream, UpToDate, Punctual, Settled, TeleopRun,
           Faultless, Accepting, Timeouts;
      var seqNo: U32 := 0;
      var ch := new Byte[1];
      NothingYet(speeds);
      while true
        invariant Ready(seqNo)
        invariant Input(world.log) + Stream(world.events) == Stream(old(world.events))
        invariant Timeouts(world.log) + |world.readable| <= |old(world.readable)|
        invariant Faultless(old(world.events)) ==> Faultless(world.events)
        invariant old(Undisturbed()) ==> Undisturbed()
        decreases |Stream(world.events)|, |world.events|, |world.readable|
      {
        ghost var log := world.log;
        var ready := world.WaitForReadable();
        if !ready {
          var fired := PollAfterTimeout(log, seqNo);
          if fired {
            return Notified;
          }
          continue;
        }

        var turn;
        turn, seqNo := ReadKey(ch, seqNo);
        if turn.Stop? {
          return turn.exit;
        }
      }
    }

    /** notif_ready after a wait that failed. */
    method PollAfterTimeout(ghost before: seq<Action>, seqNo: U32) returns (fired: bool)
      requires world.log == before + [TimedOut]
      requires Steady(before, speeds) && UpToDate(before, speeds) && Unnotified(before)
      requires seqNo == |Stamps(before)| % U32_LIMIT
      requires world.notified ==> Punctual(before) && Settled(before)
      modifies world`polls, world`log
      ensures if fired then TeleopRun(world.log, speeds, Notified) else Ready(seqNo)
      ensures Input(world.log) == Input(before) && Timeouts(world.log) == Timeouts(before) + 1
      ensures world.notified ==> Punctual(world.log) && Settled(world.log)
      ensures old(world.Silent()) ==> !fired && world.Silent()
    {
      hide Input, Output, Stamps, Steady, Target, ValidKeys, UpToDate, Punctual, TeleopRun, Timeouts;
      ghost var log := world.log;
      StepQuiet(before, speeds, TimedOut);
      Extend(before, TimedOut);
      ExtendCounts(before, TimedOut);
      PunctualNext(before, TimedOut);
      fired := PollWhileIdle();
      StepQuiet(log, speeds, Polled(fired));
      Extend(log, Polled(fired));
      ExtendCounts(log, Polled(fired));
      PunctualNext(log, Polled(fired));
      if fired {
        StopWhileIdle(log, speeds);
      }
    }

    /** Reads one byte and handles it. */
    method ReadKey(ch: array<Byte>, seqNo: U32) returns (turn: Turn, seqNo': U32)
      requires ch.Length == 1 && Ready(seqNo)
      modifies world`events, world`polls, world`accepts, world`log, world`clock, ch
      ensures turn.Stop? ==> TeleopRun(world.log, speeds, turn.exit)
      ensures turn.Go? ==> Ready(seqNo')
      ensures world.notified ==> Punctual(world.log) && Settled(world.log)
      ensures Timeouts(world.log) == Timeouts(old(world.log))
      ensures Input(world.log) + Stream(world.events) == Input(old(world.log)) + Stream(old(world.events))
      ensures turn == Stop(EndOfInput) ==> world.events == []
      ensures turn == Stop(InputError) ==> !Faultless(old(world.events))
      ensures Faultless(old(world.events)) ==> Faultless(world.events)
      ensures |Stream(world.events)| <= |Stream(old(world.events))|
      ensures turn.Go? && |Stream(world.events)| == |Stream(old(world.events))| ==> |world.events| < |old(world.events)|
      ensures old(Undisturbed()) ==> if turn.Go? then Undisturbed() else turn.exit == EndOfInput
    {
      hide Input, Output, Stamps, Steady, Target, ValidKeys, Stream, Punctual, Accepting, LastCut, IsKey, Timeouts;
      ghost var log := world.log;
      var r, errno := world.Read(ch, 0, 1);
      if r == 0 {
        return Stop(EndOfInput), seqNo;
      }
      if r < 0 {
        if errno == EINTR { return Go, seqNo; }
        if errno == EAGAIN {
          // nothing is polled here
          QuietBlock(log, speeds);
          return Go, seqNo;
        }
        return Stop(InputError), seqNo;
      }
      var c := ch[0];
      assert ch[0..1] == [c];
      GotKey(log, speeds, c);
      Regroup(Input(log), [c], Stream(world.events));
      turn, seqNo' := HandleKey(c, seqNo);
    }

    /** What spin does with a byte it has read. */
    method HandleKey(c: Byte, seqNo: U32) returns (turn: Turn, seqNo': U32)
      requires Steady(world.log, speeds) && Unnotified(world.log)
      requires Output(world.log) == Target(world.log, speeds)
      requires |Stamps(world.log)| + (if IsKey(c) then 1 else 0) == |ValidKeys(Input(world.log))|
      requires IsKey(c) ==> Last(ValidKeys(Input(world.log))) == c
      requires seqNo == |Stamps(world.log)| % U32_LIMIT
      requires world.log != [] && Last(world.log).Got? && (world.notified ==> Punctual(world.log))
      modifies world`polls, world`accepts, world`log, world`clock
      ensures turn.Stop? ==> turn.exit == Notified || turn.exit == WriteFailed
      ensures turn.Stop? ==> TeleopRun(world.log, speeds, turn.exit)
      ensures turn.Go? ==> Ready(seqNo')
      ensures Input(world.log) == Input(old(world.log)) && Timeouts(world.log) == Timeouts(old(world.log))
      // the first thing is a poll, before any output, and for a key without a meaning the only thing
      ensures old(world.log) <= world.log
      ensures world.notified ==> |world.log| > |old(world.log)| && world.log[|old(world.log)|].Polled?
      ensures world.notified ==> Punctual(world.log) && Settled(world.log)
      ensures !IsKey(c) ==> |world.log| == |old(world.log)| + (if world.notified then 1 else 0)
      ensures old(Undisturbed()) ==> turn.Go? && Undisturbed()
    {
      hide Input, Output, Stamps, Steady, Target, ValidKeys, Punctual, LastCut, Accepting, Faultless, Timeouts;
      seqNo' := seqNo;
      ghost var log := world.log;
      var fired;
      if !IsKey(c) {
        fired := PollWhileIdle();
        PunctualNext(log, Polled(fired));
        ExtendCounts(log, Polled(fired));
        return if fired then Stop(Notified) else Go, seqNo;
      }
      fired := PollWhileIdle();
      PunctualNext(log, Polled(fired));
      ExtendCounts(log, Polled(fired));
      if fired {
        return Stop(Notified), seqNo;
      }
      ghost var n := |Stamps(world.log)|;
      var ok := EmitCommand(c, seqNo);
      if !ok {
        return Stop(WriteFailed), seqNo;
      }
      NextSeq(n);
      return Go, (seqNo + 1) % U32_LIMIT;
    }

    /** notif_ready, between two keys or between a key and its output. */
    method PollWhileIdle() returns (fired: bool)
      requires Steady(world.log, speeds) && Unnotified(world.log)
      modifies world`polls, world`log
      ensures world.log == if world.notified then old(world.log) + [Polled(fired)] else old(world.log)
      ensures Input(world.log) == Input(old(world.log)) && Output(world.log) == Output(old(world.log))
      ensures Stamps(world.log) == Stamps(old(world.log))
      ensures Steady(world.log, speeds) && Target(world.log, speeds) == Target(old(world.log), speeds)
      ensures if fired then world.log != [] && Last(world.log) == Polled(true) && Unnotified(Init(world.log))
              else Unnotified(world.log)
      ensures old(world.Silent()) ==> !fired && world.Silent()
    {
      hide Input, Output, Stamps, Steady, Target;
      ghost var log := world.log;
      fired := world.NotifReady();
      StepQuiet(log, speeds, Polled(fired));
      Extend(log, Polled(fired));
    }
  }

  /** Nothing but reads that would block. */
  predicate OnlyBlocks(events: seq<Arrival>) {
    forall i :: 0 <= i < |events| ==> events[i] == Trouble(EAGAIN)
  }

  lemma {:induction false} NoBytes(events: seq<Arrival>)
    requires OnlyBlocks(events)
    ensures Stream(events) == [] && Faultless(events)
  {
    if events != [] { NoBytes(events[1..]); }
  }

  lemma {:induction false} NoPolls(log: seq<Action>)
    ensures Polls(log) == 0 ==> forall i :: 0 <= i < |log| ==> !log[i].Polled?
  {
    if log != [] {
      NoPolls(Init(log));
    }
  }

  /**
   * A keyboard program whose waits succeed but whose reads would block, as
   * often as one likes, never looks at a notification, though it may have been
   * there from the start: it ends with its input.
   */
  method BlockedReadsNeverPoll(events: seq<Arrival>, polls: seq<bool>, sp: Speeds)
    returns (exit: Exit, ghost log: seq<Action>)
    requires OnlyBlocks(events)
    ensures exit == EndOfInput && Polls(log) == 0 && TeleopRun(log, sp, exit)
  {
    hide Output, Steady, Target;
    var world := new World(events, [], polls, [], [], true);
    var teleop := new TeleopKeyboard(world, sp);
    NoBytes(events);
    exit := teleop.Spin();
    log := world.log;
    assert Input(log) == [] by {
      assert |Input(log) + Stream(world.events)| == 0;
    }
    PollCount(log);
    assert ValidKeys([]) == [];
    NoPolls(log);
  }
}
