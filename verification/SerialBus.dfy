/**
 * The two writers of the serial port: MBot::drive on the caller's thread and
 * MBot::timesync on its own, under one mutex, with the destructor's stop flag.
 *
 * A step is one shared action of one thread: the stop-flag test, the mutex,
 * one byte of a write, the return of write, the flag being set. The kernel
 * decides how many bytes a write accepts; the code never retries.
 */
module SerialBus {
  import opened Bytes
  import opened Messages
  import opened SerialPacket

  datatype Who = Driver | Syncer

  /**
   * Where a thread is. Idle: drive is not being called, or timesync is at the
   * head of its loop. Checked: timesync has passed the flag test.
   */
  datatype Thread =
    | Idle
    | Checked
    | Encoded(m: Msg)
    | Writing(m: Msg, written: nat, accepts: nat)
    | Written(failed: bool)
    | Sleeping
    | Finished

  /** One completed write. */
  datatype Entry = Entry(who: Who, m: Msg, accepted: nat)

  datatype Bus = Bus(
    stream: seq<Byte>,
    owner: set<Who>,
    drv: Thread,
    syn: Thread,
    stop: bool,
    writes: seq<Entry>,
    // what each thread has encoded so far, and where timesync was when the flag was set
    calls: seq<Command>,
    ticks: seq<Msg>,
    ticksAtStop: nat,
    sentAtStop: nat,
    checkedAtStop: bool)

  predicate Start(s: Bus) {
    s == Bus([], {}, Idle, Idle, false, [], [], [], 0, 0, false)
  }

  // ----- the steps -----

  /** drive is called and encodes its packet. The destructor runs after the last call. */
  ghost predicate DriveCalled(s: Bus, t: Bus) {
    exists c :: !s.stop && s.drv.Idle? && t == s.(drv := Encoded(DriveMsg(c)), calls := s.calls + [c])
  }

  /** timesync tests the flag and either goes on or leaves the loop. */
  predicate FlagTested(s: Bus, t: Bus) {
    s.syn.Idle? && t == s.(syn := if s.stop then Finished else Checked)
  }

  /** timesync reads the clock and encodes another packet. The flag may have been set since the test. */
  ghost predicate TickEncoded(s: Bus, t: Bus) {
    && s.syn.Checked?
    && exists sec: int, nsec: nat ::
         t == s.(syn := Encoded(TimesyncMsg(sec, nsec)), ticks := s.ticks + [TimesyncMsg(sec, nsec)])
  }

  function At(s: Bus, who: Who): Thread { if who == Driver then s.drv else s.syn }

  function Put(s: Bus, who: Who, p: Thread): Bus {
    if who == Driver then s.(drv := p) else s.(syn := p)
  }

  /** mtx.lock(); write is entered and the kernel settles how much it will take. */
  ghost predicate Locked(s: Bus, t: Bus, who: Who) {
    && s.owner == {}
    && At(s, who).Encoded?
    && exists n: nat :: n <= |Wire(At(s, who).m)| && t == Put(s.(owner := {who}), who, Writing(At(s, who).m, 0, n))
  }

  predicate ByteWritten(s: Bus, t: Bus, who: Who) {
    var p := At(s, who);
    && p.Writing? && p.written < p.accepts <= |Wire(p.m)|
    && t == Put(s.(stream := s.stream + [Wire(p.m)[p.written]]), who, p.(written := p.written + 1))
  }

  function Return(s: Bus, who: Who, failed: bool): Bus
    requires At(s, who).Writing?
  {
    var p := At(s, who);
    Put(s.(writes := s.writes + [Entry(who, p.m, p.accepts)]), who, Written(failed))
  }

  ghost predicate WriteReturned(s: Bus, t: Bus, who: Who) {
    var p := At(s, who);
    && p.Writing? && p.written == p.accepts
    && (exists failed: bool :: (failed ==> p.accepts == 0) && t == Return(s, who, failed))
  }

  /** mtx.unlock(). drive ignores the result; timesync leaves its loop when write failed. */
  predicate Unlocked(s: Bus, t: Bus, who: Who) {
    && At(s, who).Written?
    && t == Put(s.(owner := {}), who,
         if who == Driver then Idle else if s.syn.failed then Finished else Sleeping)
  }

  predicate WokenUp(s: Bus, t: Bus) {
    s.syn.Sleeping? && t == s.(syn := Idle)
  }

  /** The destructor sets the flag; it then only joins. */
  predicate StopSet(s: Bus, t: Bus) {
    && s.drv.Idle? && !s.stop
    && t == s.(stop := true, ticksAtStop := |s.ticks|, sentAtStop := |SentBy(s.writes, Syncer)|,
               checkedAtStop := s.syn.Checked?)
  }

  ghost predicate Step(s: Bus, t: Bus) {
    || DriveCalled(s, t) || FlagTested(s, t) || TickEncoded(s, t) || WokenUp(s, t) || StopSet(s, t)
    || exists who :: Locked(s, t, who) || ByteWritten(s, t, who) || WriteReturned(s, t, who) || Unlocked(s, t, who)
  }

  // ----- what the stream should hold -----

  function SentBy(ws: seq<Entry>, who: Who): seq<Msg> {
    if ws == [] then [] else
      var e := ws[|ws| - 1];
      SentBy(ws[..|ws| - 1], who) + (if e.who == who then [e.m] else [])
  }

  /** The messages of the writes that were taken whole, in stream order. */
  function Delivered(ws: seq<Entry>): seq<Msg> {
    if ws == [] then [] else
      var e := ws[|ws| - 1];
      var front := Delivered(ws[..|ws| - 1]);
      if e.accepted == |Wire(e.m)| then front + [e.m] else front
  }

  function Head(p: seq<Byte>, n: nat): seq<Byte> { if n <= |p| then p[..n] else p }

  /** The bytes that reached the port in completed writes. */
  function Accepted(ws: seq<Entry>): seq<Byte> {
    if ws == [] then [] else
      var e := ws[|ws| - 1];
      Accepted(ws[..|ws| - 1]) + Head(Wire(e.m), e.accepted)
  }

  function Wires(ms: seq<Msg>): seq<Byte> {
    if ms == [] then [] else Wires(ms[..|ms| - 1]) + Wire(ms[|ms| - 1])
  }

  function InFlight(p: Thread): seq<Byte> {
    if p.Writing? then Head(Wire(p.m), p.written) else []
  }

  function Pending(p: Thread): seq<Msg> {
    if p.Encoded? || p.Writing? then [p.m] else []
  }

  function DriveMsgs(cs: seq<Command>): seq<Msg> {
    if cs == [] then [] else DriveMsgs(cs[..|cs| - 1]) + [DriveMsg(cs[|cs| - 1])]
  }

  predicate Busy(p: Thread) { p.Writing? || p.Written? }

  /** A thread sends only its own topic, in packets whose length fits. */
  predicate Proper(who: Who, m: Msg) {
    Sendable(m) && m.topic == if who == Driver then MBOT_VEL_CMD else MBOT_TIMESYNC
  }

  // ----- the invariant -----

  predicate Exclusive(s: Bus) {
    && (Driver in s.owner <==> Busy(s.drv))
    && (Syncer in s.owner <==> Busy(s.syn))
    && !(Busy(s.drv) && Busy(s.syn))
  }

  predicate InBounds(p: Thread) {
    p.Writing? ==> p.written <= p.accepts <= |Wire(p.m)|
  }

  predicate AllProper(s: Bus) {
    && (forall i :: 0 <= i < |s.writes| ==>
          Proper(s.writes[i].who, s.writes[i].m) && s.writes[i].accepted <= |Wire(s.writes[i].m)|)
    && (Pending(s.drv) != [] ==> Proper(Driver, s.drv.m))
    && (Pending(s.syn) != [] ==> Proper(Syncer, s.syn.m))
  }

  predicate InOrder(s: Bus) {
    && DriveMsgs(s.calls) == SentBy(s.writes, Driver) + Pending(s.drv)
    && s.ticks == SentBy(s.writes, Syncer) + Pending(s.syn)
  }

  function Owed(b: bool): nat { if b then 1 else 0 }

  /** Since the flag was set, timesync has at most finished the round it was in. */
  predicate Stopping(s: Bus) {
    && |s.ticks| + Owed(s.syn.Checked?) == s.ticksAtStop + Owed(s.checkedAtStop)
    && s.ticksAtStop + Owed(s.checkedAtStop) <= s.sentAtStop + 1
    && (s.syn.Checked? ==> s.checkedAtStop)
  }

  predicate Inv(s: Bus) {
    && Exclusive(s)
    && s.stream == Accepted(s.writes) + InFlight(s.drv) + InFlight(s.syn)
    && InBounds(s.drv) && InBounds(s.syn)
    && InOrder(s)
    && AllProper(s)
    && (s.stop ==> Stopping(s))
  }

  lemma StartInv(s: Bus)
    requires Start(s)
    ensures Inv(s)
  {
  }

  lemma DriveMsgProper(c: Command)
    ensures Proper(Driver, DriveMsg(c))
  {
  }

  lemma TickProper(sec: int, nsec: nat)
    ensures Proper(Syncer, TimesyncMsg(sec, nsec))
  {
  }

  lemma EncodedInv(s: Bus, t: Bus)
    requires Inv(s) && (DriveCalled(s, t) || TickEncoded(s, t))
    ensures Inv(t)
  {
    hide Wire, Accepted, SentBy, DriveMsg, TimesyncMsg, Head;
    if DriveCalled(s, t) {
      var c :| !s.stop && s.drv.Idle? && t == s.(drv := Encoded(DriveMsg(c)), calls := s.calls + [c]);
      assert t.calls[..|t.calls| - 1] == s.calls;
      DriveMsgProper(c);
    } else {
      var sec: int, nsec: nat :|
        t == s.(syn := Encoded(TimesyncMsg(sec, nsec)), ticks := s.ticks + [TimesyncMsg(sec, nsec)]);
      TickProper(sec, nsec);
    }
  }

  lemma WokenOrStoppedInv(s: Bus, t: Bus)
    requires Inv(s) && (WokenUp(s, t) || StopSet(s, t) || FlagTested(s, t))
    ensures Inv(t)
  {
    hide Wire, Accepted, SentBy, DriveMsg, Head;
  }

  lemma LockedInv(s: Bus, t: Bus, who: Who)
    requires Inv(s) && Locked(s, t, who)
    ensures Inv(t)
  {
    hide Accepted, SentBy, DriveMsg;
  }

  lemma UnlockedInv(s: Bus, t: Bus, who: Who)
    requires Inv(s) && Unlocked(s, t, who)
    ensures Inv(t)
  {
    hide Wire, Accepted, SentBy, DriveMsg, Head;
  }

  lemma Behind(a: seq<Byte>, b: seq<Byte>, c: seq<Byte>)
    ensures a + b + [] + c == a + (b + c) + []
  {
  }

  lemma ByteWrittenStream(s: Bus, t: Bus, who: Who)
    requires Inv(s) && ByteWritten(s, t, who)
    ensures t.stream == Accepted(s.writes) + InFlight(t.drv) + InFlight(t.syn)
  {
    hide Accepted, SentBy, DriveMsg, DriveMsgs, Wire, AllProper, InOrder;
    var p := At(s, who);
    var w := Wire(p.m);
    var next := [w[p.written]];
    assert w[..p.written + 1] == w[..p.written] + next;
    assert InFlight(At(t, who)) == InFlight(p) + next;
    if who == Driver {
      Behind(Accepted(s.writes), InFlight(s.drv), next);
    } else {
      Behind(Accepted(s.writes), [], InFlight(s.syn));
    }
  }

  lemma ByteWrittenInv(s: Bus, t: Bus, who: Who)
    requires Inv(s) && ByteWritten(s, t, who)
    ensures Inv(t)
  {
    hide Accepted, SentBy, DriveMsg, DriveMsgs, Wire, InFlight;
    ByteWrittenStream(s, t, who);
    assert Pending(t.drv) == Pending(s.drv) && Pending(t.syn) == Pending(s.syn);
  }

  lemma OneMoreWrite(ws: seq<Entry>, e: Entry)
    ensures Accepted(ws + [e]) == Accepted(ws) + Head(Wire(e.m), e.accepted)
    ensures SentBy(ws + [e], e.who) == SentBy(ws, e.who) + [e.m]
    ensures forall who :: who != e.who ==> SentBy(ws + [e], who) == SentBy(ws, who)
  {
    assert (ws + [e])[..|ws|] == ws;
  }

  lemma WriteReturnedInv(s: Bus, t: Bus, who: Who)
    requires Inv(s) && WriteReturned(s, t, who)
    ensures Inv(t)
  {
    hide Accepted, SentBy, DriveMsg, Wire, Head;
    var p := At(s, who);
    OneMoreWrite(s.writes, Entry(who, p.m, p.accepts));
  }

  /** Every step keeps the invariant. */
  lemma StepInv(s: Bus, t: Bus)
    requires Inv(s) && Step(s, t)
    ensures Inv(t)
  {
    hide Inv, DriveCalled, FlagTested, TickEncoded, WokenUp, StopSet, Locked, ByteWritten, WriteReturned, Unlocked;
    if DriveCalled(s, t) || TickEncoded(s, t) {
      EncodedInv(s, t);
    } else if WokenUp(s, t) || StopSet(s, t) || FlagTested(s, t) {
      WokenOrStoppedInv(s, t);
    } else {
      var who :| Locked(s, t, who) || ByteWritten(s, t, who) || WriteReturned(s, t, who) || Unlocked(s, t, who);
      if Locked(s, t, who) {
        LockedInv(s, t, who);
      } else if ByteWritten(s, t, who) {
        ByteWrittenInv(s, t, who);
      } else if WriteReturned(s, t, who) {
        WriteReturnedInv(s, t, who);
      } else {
        UnlockedInv(s, t, who);
      }
    }
  }

  ghost predicate Run(run: seq<Bus>) {
    && run != [] && Start(run[0])
    && forall i :: 0 < i < |run| ==> Step(run[i - 1], run[i])
  }

  lemma {:induction false} RunInv(run: seq<Bus>, i: nat)
    requires Run(run) && i < |run|
    ensures Inv(run[i])
  {
    if i == 0 {
      StartInv(run[0]);
    } else {
      RunInv(run, i - 1);
      StepInv(run[i - 1], run[i]);
    }
  }

  // ----- stream integrity -----

  /** Every completed write was taken whole or not at all. */
  predicate Unbroken(ws: seq<Entry>) {
    forall i :: 0 <= i < |ws| ==> ws[i].accepted == 0 || ws[i].accepted == |Wire(ws[i].m)|
  }

  predicate AllAccepted(ws: seq<Entry>) {
    forall i :: 0 <= i < |ws| ==> ws[i].accepted == |Wire(ws[i].m)|
  }

  lemma WiresNext(ms: seq<Msg>, m: Msg)
    ensures Wires(ms + [m]) == Wires(ms) + Wire(m)
  {
    assert (ms + [m])[..|ms|] == ms;
  }

  lemma UnbrokenNext(front: seq<Entry>, e: Entry)
    ensures Unbroken(front + [e]) <==> Unbroken(front) && (e.accepted == 0 || e.accepted == |Wire(e.m)|)
  {
    hide Wire;
    var ws := front + [e];
    if Unbroken(ws) {
      assert ws[|front|] == e;
      assert forall i :: 0 <= i < |front| ==> ws[i] == front[i];
    }
  }

  lemma AcceptedNext(front: seq<Entry>, e: Entry)
    requires e.accepted <= |Wire(e.m)|
    ensures Accepted(front + [e]) == Accepted(front) + Wire(e.m)[..e.accepted]
    ensures Wires(Delivered(front + [e]))
         == Wires(Delivered(front)) + (if e.accepted == |Wire(e.m)| then Wire(e.m) else [])
  {
    hide Wire;
    assert (front + [e])[..|front|] == front;
    WiresNext(Delivered(front), e.m);
  }

  lemma AcceptedStep(front: seq<Entry>, e: Entry)
    requires e.accepted <= |Wire(e.m)|
    requires |Accepted(front)| >= |Wires(Delivered(front))|
    requires |Accepted(front)| == |Wires(Delivered(front))| <==> Unbroken(front)
    requires Unbroken(front) ==> Accepted(front) == Wires(Delivered(front))
    ensures |Accepted(front + [e])| >= |Wires(Delivered(front + [e]))|
    ensures |Accepted(front + [e])| == |Wires(Delivered(front + [e]))| <==> Unbroken(front + [e])
    ensures Unbroken(front + [e]) ==> Accepted(front + [e]) == Wires(Delivered(front + [e]))
  {
    hide Wire, Accepted, Delivered, Wires, Unbroken;
    AcceptedNext(front, e);
    UnbrokenNext(front, e);
    var w := Wire(e.m);
    assert w[..|w|] == w && w[..0] == [];
  }

  lemma AcceptedNone()
    ensures Accepted([]) == [] && Wires(Delivered([])) == [] && Unbroken([])
  {
  }

  /** The port holds at least the delivered packets, and nothing else exactly when no write was cut short. */
  lemma {:induction false} AcceptedWhole(ws: seq<Entry>)
    requires forall i :: 0 <= i < |ws| ==> ws[i].accepted <= |Wire(ws[i].m)|
    ensures |Accepted(ws)| >= |Wires(Delivered(ws))|
    ensures |Accepted(ws)| == |Wires(Delivered(ws))| <==> Unbroken(ws)
    ensures Unbroken(ws) ==> Accepted(ws) == Wires(Delivered(ws))
    decreases |ws|
  {
    hide Wire, Accepted, Delivered, Wires, Unbroken;
    if ws == [] {
      AcceptedNone();
    } else {
      var front, e := ws[..|ws| - 1], ws[|ws| - 1];
      assert ws == front + [e];
      AcceptedWhole(front);
      AcceptedStep(front, e);
    }
  }

  /** The bytes of the write that is in progress, if any. */
  function Partial(s: Bus): seq<Byte> {
    InFlight(s.drv) + InFlight(s.syn)
  }

  lemma InvStream(s: Bus)
    requires Inv(s)
    ensures s.stream == Accepted(s.writes) + Partial(s)
    ensures forall i :: 0 <= i < |s.writes| ==> s.writes[i].accepted <= |Wire(s.writes[i].m)|
  {
    hide Wire, Accepted, InFlight, SentBy, DriveMsgs;
  }

  /**
   * In every reachable state the port has seen whole packets and at most one
   * prefix of a packet exactly when no write so far was cut short.
   */
  lemma StreamIntactIff(run: seq<Bus>, i: nat)
    requires Run(run) && i < |run|
    ensures run[i].stream == Wires(Delivered(run[i].writes)) + Partial(run[i]) <==> Unbroken(run[i].writes)
  {
    hide Wire, Accepted, Delivered, Wires, Unbroken, Partial, Inv, Step, Run, AllProper;
    var s := run[i];
    RunInv(run, i);
    InvStream(s);
    AcceptedWhole(s.writes);
    if s.stream == Wires(Delivered(s.writes)) + Partial(s) {
      assert |Accepted(s.writes)| == |Wires(Delivered(s.writes))|;
    }
  }

  // ----- what the receiver parses -----

  lemma {:induction false} PacketsOfWires(ms: seq<Msg>, rest: seq<Byte>)
    requires forall i :: 0 <= i < |ms| ==> Sendable(ms[i])
    ensures Packets(Wires(ms) + rest) == ms + Packets(rest)
    decreases |ms|
  {
    hide Wire, Packets;
    if ms == [] {
      assert [] + rest == rest;
    } else {
      var front, m := ms[..|ms| - 1], ms[|ms| - 1];
      assert Wires(front) + Wire(m) + rest == Wires(front) + (Wire(m) + rest);
      PacketsOfWires(front, Wire(m) + rest);
      WireParses(m, rest);
      assert front + ([m] + Packets(rest)) == ms + Packets(rest);
    }
  }

  /** A write in progress already counts once its last byte is out. */
  function Complete(p: Thread): seq<Msg> {
    if p.Writing? && p.written == |Wire(p.m)| then [p.m] else []
  }

  lemma PacketsOfPartial(p: Thread)
    requires InBounds(p) && (Pending(p) != [] ==> Sendable(p.m))
    ensures Packets(InFlight(p)) == Complete(p)
  {
    hide Wire;
    assert Packets([]) == [];
    if p.Writing? {
      if p.written == |Wire(p.m)| {
        assert InFlight(p) == Wire(p.m) + [];
        WireParses(p.m, []);
        assert [p.m] + [] == [p.m];
      } else {
        CutPacketHidden(p.m, p.written);
      }
    }
  }

  lemma {:induction false} DeliveredSendable(ws: seq<Entry>)
    requires forall i :: 0 <= i < |ws| ==> Sendable(ws[i].m)
    ensures forall i :: 0 <= i < |Delivered(ws)| ==> Sendable(Delivered(ws)[i])
  {
    hide Wire;
    if ws != [] { DeliveredSendable(ws[..|ws| - 1]); }
  }

  /** As long as no write is cut short, the receiver reads exactly the delivered messages, in order. */
  lemma StreamParses(run: seq<Bus>, i: nat)
    requires Run(run) && i < |run| && Unbroken(run[i].writes)
    ensures Packets(run[i].stream)
         == Delivered(run[i].writes) + Complete(run[i].drv) + Complete(run[i].syn)
  {
    hide Wire, Wires, Packets, Accepted, Delivered, SentBy;
    var s := run[i];
    RunInv(run, i);
    StreamIntactIff(run, i);
    DeliveredSendable(s.writes);
    PacketsOfWires(Delivered(s.writes), Partial(s));
    PacketsOfPartial(s.drv);
    PacketsOfPartial(s.syn);
    assert InFlight(s.drv) == [] || InFlight(s.syn) == [];
    assert Partial(s) == if InFlight(s.drv) == [] then InFlight(s.syn) else InFlight(s.drv);
    assert Packets([]) == [];
  }

  /** A single short write hides the next packet from a receiver that gives up there, although that one is whole. */
  lemma ShortWriteHidesNext(a: Msg, b: Msg)
    ensures Packets(Wire(a)[..1] + Wire(b)) == []
  {
    WireParts(b);
    var s := Wire(a)[..1] + Wire(b);
    assert s[1] == Wire(b)[..2][0];
  }

  /** A receiver that drops bytes until a packet begins. */
  function Resync(s: seq<Byte>): seq<Msg>
    decreases |s|
  {
    if s == [] then []
    else if HasPacket(s) then [FirstPacket(s)] + Resync(s[PayloadLength(s) + OVERHEAD..])
    else Resync(s[1..])
  }

  lemma ResyncPacket(m: Msg, rest: seq<Byte>)
    requires Sendable(m)
    ensures Resync(Wire(m) + rest) == [m] + Resync(rest)
  {
    hide Wire, HasPacket, FirstPacket, PayloadLength;
    WireParses(m, rest);
    var s := Wire(m) + rest;
    assert s[|Wire(m)|..] == rest && s != [];
  }

  lemma NoPacketHere(s: seq<Byte>)
    requires |s| >= 2 && s[1] != VERSION_FLAG
    ensures !HasPacket(s)
  {
  }

  /** Such a receiver loses only the packet that was cut. */
  lemma ShortWriteResync(a: Msg, b: Msg)
    requires Sendable(b)
    ensures Resync(Wire(a)[..1] + Wire(b)) == [b]
  {
    hide Wire, HasPacket, FirstPacket, PayloadLength;
    WireParts(b);
    var s := Wire(a)[..1] + Wire(b);
    assert s[1] == Wire(b)[0] == Wire(b)[..2][0];
    NoPacketHere(s);
    assert s[1..] == Wire(b) + [];
    ResyncPacket(b, []);
    assert [b] + [] == [b];
  }

  // ----- a run in which a write is cut short -----

  lemma RunNext(run: seq<Bus>, t: Bus)
    requires Run(run) && Step(run[|run| - 1], t)
    ensures Run(run + [t])
  {
    hide Step, Start;
    var next := run + [t];
    forall i | 0 < i < |next| ensures Step(next[i - 1], next[i]) {
      if i < |run| { assert Step(run[i - 1], run[i]); }
    }
  }

  /** The bytes of a packet go out one by one, up to what the kernel accepts. */
  lemma {:induction false} WriteBytes(run: seq<Bus>, who: Who, m: Msg, k: nat, n: nat) returns (run': seq<Bus>)
    requires Run(run) && run != [] && k <= n <= |Wire(m)| && At(run[|run| - 1], who) == Writing(m, k, n)
    ensures Run(run') && run' != []
    ensures run'[|run'| - 1] ==
      Put(run[|run| - 1].(stream := run[|run| - 1].stream + Wire(m)[k..n]), who, Writing(m, n, n))
    decreases n - k
  {
    hide Wire, Run;
    var s := run[|run| - 1];
    run' := run;
    if k < n {
      var t := Put(s.(stream := s.stream + [Wire(m)[k]]), who, Writing(m, k + 1, n));
      assert ByteWritten(s, t, who);
      RunNext(run, t);
      run' := WriteBytes(run + [t], who, m, k + 1, n);
      assert Wire(m)[k..n] == [Wire(m)[k]] + Wire(m)[k + 1..n];
      assert s.stream + [Wire(m)[k]] + Wire(m)[k + 1..n] == s.stream + Wire(m)[k..n];
    } else {
      assert s.stream + Wire(m)[k..n] == s.stream;
    }
  }

  /** One whole call of drive, of which the kernel accepts n bytes. */
  lemma DriveOnce(run: seq<Bus>, c: Command, n: nat) returns (run': seq<Bus>)
    requires Run(run) && run != [] && n <= |Wire(DriveMsg(c))|
    requires run[|run| - 1].drv.Idle? && run[|run| - 1].owner == {} && !run[|run| - 1].stop
    ensures Run(run') && run' != []
    ensures var s := run[|run| - 1];
            run'[|run'| - 1] == s.(stream := s.stream + Wire(DriveMsg(c))[..n], calls := s.calls + [c],
                                                writes := s.writes + [Entry(Driver, DriveMsg(c), n)])
  {
    hide Wire, DriveMsg, Run;
    var s, m := run[|run| - 1], DriveMsg(c);
    var encoded := s.(drv := Encoded(m), calls := s.calls + [c]);
    assert DriveCalled(s, encoded);
    RunNext(run, encoded);
    var locked := Put(encoded.(owner := {Driver}), Driver, Writing(m, 0, n));
    assert Locked(encoded, locked, Driver);
    RunNext(run + [encoded], locked);
    run' := WriteBytes(run + [encoded] + [locked], Driver, m, 0, n);
    var written := run'[|run'| - 1];
    var returned := Return(written, Driver, false);
    assert WriteReturned(written, returned, Driver);
    RunNext(run', returned);
    var unlocked := Put(returned.(owner := {}), Driver, Idle);
    assert Unlocked(returned, unlocked, Driver);
    RunNext(run' + [returned], unlocked);
    run' := run' + [returned] + [unlocked];
    assert Wire(m)[0..n] == Wire(m)[..n];
  }

  lemma Started() returns (run: seq<Bus>)
    ensures Run(run) && |run| == 1 && Start(run[0])
  {
    run := [Bus([], {}, Idle, Idle, false, [], [], [], 0, 0, false)];
  }

  lemma DeliveredNext(front: seq<Entry>, e: Entry)
    ensures Delivered(front + [e]) == Delivered(front) + (if e.accepted == |Wire(e.m)| then [e.m] else [])
  {
    hide Wire;
    assert (front + [e])[..|front|] == front;
  }

  lemma RoundEnds(run: seq<Bus>, m: Msg) returns (run': seq<Bus>)
    requires Run(run) && run != []
    requires run[|run| - 1].syn == Writing(m, |Wire(m)|, |Wire(m)|)
    ensures Run(run') && run' != []
    ensures var s := run[|run| - 1];
            run'[|run'| - 1] == s.(syn := Idle, owner := {}, writes := s.writes + [Entry(Syncer, m, |Wire(m)|)])
  {
    hide Wire, Run;
    var written := run[|run| - 1];
    var returned := Return(written, Syncer, false);
    assert WriteReturned(written, returned, Syncer);
    RunNext(run, returned);
    var unlocked := Put(returned.(owner := {}), Syncer, Sleeping);
    assert Unlocked(returned, unlocked, Syncer);
    RunNext(run + [returned], unlocked);
    var woken := unlocked.(syn := Idle);
    assert WokenUp(unlocked, woken);
    RunNext(run + [returned] + [unlocked], woken);
    run' := run + [returned] + [unlocked] + [woken];
  }

  /** One whole round of timesync, with a write that is taken whole. */
  lemma TickOnce(run: seq<Bus>, sec: int, nsec: nat) returns (run': seq<Bus>)
    requires Run(run) && run != []
    requires run[|run| - 1].syn.Idle? && run[|run| - 1].owner == {} && !run[|run| - 1].stop
    ensures Run(run') && run' != []
    ensures var s, m := run[|run| - 1], TimesyncMsg(sec, nsec);
            run'[|run'| - 1] == s.(stream := s.stream + Wire(m), ticks := s.ticks + [m],
                                   writes := s.writes + [Entry(Syncer, m, |Wire(m)|)])
  {
    hide Wire, TimesyncMsg, Run;
    var s, m := run[|run| - 1], TimesyncMsg(sec, nsec);
    var n := |Wire(m)|;
    var checked := s.(syn := Checked);
    assert FlagTested(s, checked);
    RunNext(run, checked);
    var encoded := checked.(syn := Encoded(m), ticks := s.ticks + [m]);
    assert TickEncoded(checked, encoded);
    RunNext(run + [checked], encoded);
    var locked := Put(encoded.(owner := {Syncer}), Syncer, Writing(m, 0, n));
    assert Locked(encoded, locked, Syncer);
    RunNext(run + [checked] + [encoded], locked);
    run' := WriteBytes(run + [checked] + [encoded] + [locked], Syncer, m, 0, n);
    run' := RoundEnds(run', m);
    assert Wire(m)[0..n] == Wire(m);
  }

  /** A reading of the clock: seconds and nanoseconds. */
  datatype Reading = Reading(sec: int, nsec: nat)

  function TickMsgs(clock: seq<Reading>): seq<Msg> {
    if clock == [] then [] else
      var last := clock[|clock| - 1];
      TickMsgs(clock[..|clock| - 1]) + [TimesyncMsg(last.sec, last.nsec)]
  }

  /** From one state to a later one, with timesync at rest in both: exactly these packets were sent, whole. */
  predicate Ticked(s: Bus, t: Bus, ms: seq<Msg>) {
    && t.syn.Idle? && t.owner == {} && !t.stop && t.calls == s.calls && t.drv == s.drv
    && t.ticks == s.ticks + ms
    && t.stream == s.stream + Wires(ms)
    && Delivered(t.writes) == Delivered(s.writes) + ms
  }

  lemma TickedNext(s: Bus, t: Bus, u: Bus, ms: seq<Msg>, m: Msg)
    requires Ticked(s, t, ms)
    requires u == t.(stream := t.stream + Wire(m), ticks := t.ticks + [m],
                     writes := t.writes + [Entry(Syncer, m, |Wire(m)|)])
    ensures Ticked(s, u, ms + [m])
  {
    hide Wire, Wires, Delivered;
    DeliveredNext(t.writes, Entry(Syncer, m, |Wire(m)|));
    WiresNext(ms, m);
  }

  /** After good writes timesync goes on: it can send a packet for each of any readings of the clock, in order. */
  lemma {:induction false} TicksGoOn(run: seq<Bus>, clock: seq<Reading>) returns (run': seq<Bus>)
    requires Run(run) && run != []
    requires run[|run| - 1].syn.Idle? && run[|run| - 1].owner == {} && !run[|run| - 1].stop
    ensures Run(run') && run' != []
    ensures Ticked(run[|run| - 1], run'[|run'| - 1], TickMsgs(clock))
    decreases |clock|
  {
    hide Wire, TimesyncMsg, Run, Delivered;
    if clock == [] {
      run' := run;
    } else {
      var front, last := clock[..|clock| - 1], clock[|clock| - 1];
      run' := TicksGoOn(run, front);
      var s := run'[|run'| - 1];
      run' := TickOnce(run', last.sec, last.nsec);
      TickedNext(run[|run| - 1], s, run'[|run'| - 1], TickMsgs(front), TimesyncMsg(last.sec, last.nsec));
    }
  }

  lemma FailureStep(s: Bus, t: Bus)
    requires Step(s, t)
    ensures s.syn == Written(true) || s.syn.Finished? ==>
      t.ticks == s.ticks && (t.syn == Written(true) || t.syn.Finished?)
    ensures t.syn.Finished? ==> s.syn.Finished? || s.syn == Written(true) || s.stop
    ensures s.stop ==> t.stop
  {
    hide Wire, DriveMsg, TimesyncMsg, SentBy;
  }

  /** Once a write of timesync has failed, no further packet is ever encoded. */
  lemma {:induction false} FailureEndsTicks(run: seq<Bus>, i: nat, j: nat)
    requires Run(run) && i <= j < |run| && run[i].syn == Written(true)
    ensures run[j].ticks == run[i].ticks && (run[j].syn == Written(true) || run[j].syn.Finished?)
    decreases j
  {
    hide Step;
    if i < j {
      FailureEndsTicks(run, i, j - 1);
      FailureStep(run[j - 1], run[j]);
    }
  }

  /** Nothing but the stop flag or a failed write ends timesync. */
  lemma {:induction false} OnlyStopOrFailureEnds(run: seq<Bus>, i: nat)
    requires Run(run) && i < |run| && run[i].syn.Finished?
    ensures run[i].stop || exists k :: 0 <= k < i && run[k].syn == Written(true)
  {
    hide Step;
    if i > 0 {
      FailureStep(run[i - 1], run[i]);
      if run[i - 1].syn.Finished? {
        OnlyStopOrFailureEnds(run, i - 1);
      }
    }
  }

  /** drive ignores what write returns: after every return of a call the caller can go on to the next one. */
  lemma DriveGoesOn(s: Bus, t: Bus)
    requires Unlocked(s, t, Driver)
    ensures t.drv.Idle? && t.owner == {} && t.calls == s.calls && t.syn == s.syn
  {
  }

  /**
   * A reachable state for any two drive calls: the first write is cut to one
   * byte, the second is taken whole, the stream is not made of packets, and a
   * receiver gets neither of the two commands.
   */
  lemma ShortWriteLosesBoth(a: Command, b: Command) returns (run: seq<Bus>)
    ensures Run(run) && run != []
    ensures var s := run[|run| - 1];
            && s.calls == [a, b] && s.drv.Idle? && !Unbroken(s.writes)
            && Delivered(s.writes) == [DriveMsg(b)] && Packets(s.stream) == []
            && s.stream != Wires(Delivered(s.writes)) + Partial(s)
  {
    hide Wire, DriveMsg, Run, Packets;
    run := Started();
    run := DriveOnce(run, a, 1);
    run := DriveOnce(run, b, |Wire(DriveMsg(b))|);
    var s := run[|run| - 1];
    var x, y := DriveMsg(a), DriveMsg(b);
    ShortWriteHidesNext(x, y);
    assert Wire(y)[..|Wire(y)|] == Wire(y);
    assert s.stream == Wire(x)[..1] + Wire(y);
    assert s.writes == [Entry(Driver, x, 1)] + [Entry(Driver, y, |Wire(y)|)];
    AcceptedNext([], Entry(Driver, x, 1));
    DeliveredNext([], Entry(Driver, x, 1));
    DeliveredNext([Entry(Driver, x, 1)], Entry(Driver, y, |Wire(y)|));
    assert s.writes[0].accepted == 1;
    WiresNext([], y);
    assert [] + Wire(y) == Wire(y);
  }

  function ByTopic(ms: seq<Msg>, topic: U16): seq<Msg> {
    if ms == [] then [] else
      ByTopic(ms[..|ms| - 1], topic) + (if ms[|ms| - 1].topic == topic then [ms[|ms| - 1]] else [])
  }

  lemma ByTopicNext(ms: seq<Msg>, m: Msg, topic: U16)
    ensures ByTopic(ms + [m], topic) == ByTopic(ms, topic) + (if m.topic == topic then [m] else [])
  {
    assert (ms + [m])[..|ms|] == ms;
  }

  lemma {:induction false} TopicsSeparate(ws: seq<Entry>)
    requires forall i :: 0 <= i < |ws| ==> Proper(ws[i].who, ws[i].m)
    requires AllAccepted(ws)
    ensures ByTopic(Delivered(ws), MBOT_VEL_CMD) == SentBy(ws, Driver)
    ensures ByTopic(Delivered(ws), MBOT_TIMESYNC) == SentBy(ws, Syncer)
    ensures |Delivered(ws)| == |SentBy(ws, Driver)| + |SentBy(ws, Syncer)|
  {
    hide Wire;
    if ws != [] {
      var front, e := ws[..|ws| - 1], ws[|ws| - 1];
      TopicsSeparate(front);
      ByTopicNext(Delivered(front), e.m, MBOT_VEL_CMD);
      ByTopicNext(Delivered(front), e.m, MBOT_TIMESYNC);
    }
  }

  lemma {:induction false} DriveMsgCount(cs: seq<Command>)
    ensures |DriveMsgs(cs)| == |cs|
  {
    if cs != [] { DriveMsgCount(cs[..|cs| - 1]); }
  }

  /**
   * With writes that accept everything, the received stream is a merge of the
   * drive calls and the timesync packets, each in its own order, and only the
   * packet that a thread is still busy with can be missing.
   */
  lemma ReceivedIsMerge(run: seq<Bus>, i: nat)
    requires Run(run) && i < |run| && AllAccepted(run[i].writes)
    ensures var s := run[i];
            var got := Packets(s.stream);
            && ByTopic(got, MBOT_VEL_CMD) <= DriveMsgs(s.calls) && |DriveMsgs(s.calls)| == |s.calls|
            && ByTopic(got, MBOT_TIMESYNC) <= s.ticks
            && |got| == |ByTopic(got, MBOT_VEL_CMD)| + |ByTopic(got, MBOT_TIMESYNC)|
            && |s.calls| + |s.ticks| <= |got| + |Pending(s.drv)| + |Pending(s.syn)|
  {
    hide Wire, Packets, Accepted, Delivered, SentBy, ByTopic, DriveMsgs;
    var s := run[i];
    RunInv(run, i);
    StreamParses(run, i);
    TopicsSeparate(s.writes);
    DriveMsgCount(s.calls);
    var d := Delivered(s.writes);
    if Complete(s.drv) != [] {
      ByTopicNext(d, s.drv.m, MBOT_VEL_CMD);
      ByTopicNext(d, s.drv.m, MBOT_TIMESYNC);
      assert d + Complete(s.drv) + Complete(s.syn) == d + [s.drv.m];
    } else if Complete(s.syn) != [] {
      ByTopicNext(d, s.syn.m, MBOT_VEL_CMD);
      ByTopicNext(d, s.syn.m, MBOT_TIMESYNC);
      assert d + Complete(s.drv) + Complete(s.syn) == d + [s.syn.m];
    } else {
      assert d + Complete(s.drv) + Complete(s.syn) == d;
    }
  }

  lemma {:induction false} DriveMsgAt(cs: seq<Command>, k: nat)
    requires k < |cs|
    ensures |DriveMsgs(cs)| == |cs| && DriveMsgs(cs)[k] == DriveMsg(cs[k])
    decreases |cs|
  {
    DriveMsgCount(cs[..|cs| - 1]);
    if k < |cs| - 1 { DriveMsgAt(cs[..|cs| - 1], k); }
  }

  // ----- shutting down -----

  /**
   * Once the destructor has set the flag, timesync sends at most one more
   * packet. It encodes at most one more, and once it is past its encoding, it
   * has done so exactly when it had passed the flag test before the flag was set.
   */
  lemma AtMostOneTickAfterStop(run: seq<Bus>, i: nat)
    requires Run(run) && i < |run| && run[i].stop
    ensures |SentBy(run[i].writes, Syncer)| <= run[i].sentAtStop + 1
    ensures run[i].ticksAtStop <= |run[i].ticks| <= run[i].ticksAtStop + 1
    ensures !run[i].syn.Checked? ==> (|run[i].ticks| == run[i].ticksAtStop + 1 <==> run[i].checkedAtStop)
    ensures run[i].syn.Checked? ==> run[i].checkedAtStop
  {
    hide Wire, Accepted, SentBy;
    RunInv(run, i);
  }

  /** The destructor can set the flag between the test and the encoding: a packet is encoded after the stop. */
  lemma TickAfterStop(sec: int, nsec: nat) returns (run: seq<Bus>)
    ensures Run(run) && run != []
    ensures var s := run[|run| - 1];
            && s.stop && s.ticksAtStop == 0 && s.ticks == [TimesyncMsg(sec, nsec)]
            && s.syn == Encoded(TimesyncMsg(sec, nsec))
  {
    hide TimesyncMsg, Run;
    run := Started();
    var s := run[0];
    var checked := s.(syn := Checked);
    assert FlagTested(s, checked);
    RunNext(run, checked);
    var stopped := checked.(stop := true, checkedAtStop := true);
    assert SentBy(checked.writes, Syncer) == [];
    assert StopSet(checked, stopped);
    RunNext(run + [checked], stopped);
    var m := TimesyncMsg(sec, nsec);
    var encoded := stopped.(syn := Encoded(m), ticks := stopped.ticks + [m]);
    assert TickEncoded(stopped, encoded);
    RunNext(run + [checked] + [stopped], encoded);
    run := run + [checked] + [stopped] + [encoded];
  }

  /** When both threads are at rest after the flag, every drive call has been written and the port is free. */
  lemma QuietAfterJoin(run: seq<Bus>, i: nat)
    requires Run(run) && i < |run| && run[i].drv.Idle? && run[i].syn.Finished?
    requires AllAccepted(run[i].writes)
    ensures run[i].owner == {}
    ensures ByTopic(Packets(run[i].stream), MBOT_VEL_CMD) == DriveMsgs(run[i].calls)
    ensures ByTopic(Packets(run[i].stream), MBOT_TIMESYNC) == run[i].ticks
  {
    hide Wire, Packets, Accepted, Delivered, SentBy, ByTopic, DriveMsgs;
    var s := run[i];
    RunInv(run, i);
    StreamParses(run, i);
    TopicsSeparate(s.writes);
    assert Delivered(s.writes) + [] + [] == Delivered(s.writes);
    forall who ensures who !in s.owner { if who == Driver {} else {} }
  }
}
