/**
 * The two programs together: what the keyboard loop wrote is what the driver
 * loop reads, in whatever pieces. The statements are about complete runs, as
 * TeleopKeyboard.Spin and MBotDriver.Spin establish them.
 */
module EndToEnd {
  import opened Bytes
  import opened Messages
  import opened Framing
  import opened Environment
  import opened Teleop
  import opened Driver
  import opened TimeMath
  import opened SerialPacket
  import opened SerialBus

  /** The driver's input script delivers exactly these bytes, cut up in any way and with any EINTR or EAGAIN. */
  predicate Delivers(events: seq<Arrival>, bytes: seq<Byte>) {
    Stream(events) == bytes && Faultless(events)
  }

  lemma PlanFrames(keys: seq<Byte>, times: seq<int>, sp: Speeds)
    requires |times| <= |keys| && forall i :: 0 <= i < |keys| ==> IsKey(keys[i])
    ensures AllFramable(Plan(keys, times, sp))
    ensures forall i :: 0 <= i < |times| ==> |Frame(Plan(keys, times, sp)[i])| == KEY_FRAME
  {
    forall i | 0 <= i < |times|
      ensures |Frame(Plan(keys, times, sp)[i])| == KEY_FRAME
    {
      EncodeCommandSize(Plan(keys, times, sp)[i]);
    }
  }

  lemma CutInLastFrame(cs: seq<Command>, bytes: seq<Byte>)
    requires cs != [] && forall i :: 0 <= i < |cs| ==> |Frame(cs[i])| == KEY_FRAME
    requires Frames(Init(cs)) <= bytes <= Frames(cs) && bytes != Frames(cs)
    ensures |bytes| / KEY_FRAME == |cs| - 1
  {
    hide Frames, Frame;
    CompleteByDivision(cs, 0);
    CompleteByDivision(Init(cs), 0);
    assert |bytes| < |Frames(cs)|;
  }

  /** The keyboard's output, cut after any number of bytes, parses to the commands of the whole frames in it. */
  lemma OutputParses(log: seq<Action>, sp: Speeds)
    requires Steady(log, sp)
    ensures |Output(log)| / KEY_FRAME <= |Planned(log, sp)|
    ensures Commands(Output(log)) == Planned(log, sp)[..|Output(log)| / KEY_FRAME]
    ensures Output(log) == Target(log, sp) ==> Commands(Output(log)) == Planned(log, sp)
    ensures LastCut(log, sp) ==> Planned(log, sp) != [] && Commands(Output(log)) == Init(Planned(log, sp))
  {
    hide Commands, Frame, Plan, Input, Stamps;
    var cs := Planned(log, sp);
    PlanFrames(ValidKeys(Input(log)), Stamps(log), sp);
    var p := |Output(log)|;
    assert Output(log) == Frames(cs)[..p];
    CutStreamParses(cs, p);
    CompleteByDivision(cs, p);
    if Output(log) == Frames(cs) { FramesParse(cs); }
    if LastCut(log, sp) { CutInLastFrame(cs, Output(log)); }
  }

  /**
   * A keyboard run that ended in any way, followed by a driver run that reads
   * its output undisturbed: the robot is driven with exactly the commands
   * whose frames were completed, in order, and then stopped.
   */
  lemma EndToEndDrive(teleopLog: seq<Action>, sp: Speeds, exit: Exit,
                 events: seq<Arrival>, left: seq<Arrival>, driverLog: seq<Action>)
    requires TeleopRun(teleopLog, sp, exit)
    requires DriverRun(events, left, driverLog)
    requires Delivers(events, Output(teleopLog)) && Unnotified(driverLog)
    ensures |Output(teleopLog)| / KEY_FRAME <= |Planned(teleopLog, sp)|
    ensures Drives(driverLog) == Planned(teleopLog, sp)[..|Output(teleopLog)| / KEY_FRAME] + [STOP]
    ensures exit != WriteFailed ==> Drives(driverLog) == Planned(teleopLog, sp) + [STOP]
    ensures exit == WriteFailed ==>
      Planned(teleopLog, sp) != [] && Drives(driverLog) == Init(Planned(teleopLog, sp)) + [STOP]
  {
    hide Commands, Planned, Input, Drives, Output, Steady, Causal;
    OutputParses(teleopLog, sp);
    assert left == [] && Stream(left) == [];
    assert Input(driverLog) + [] == Input(driverLog);
  }

  /**
   * A driver run that is notified, or loses its input, at any moment: it has
   * driven the first of the commands, if any, and then the one stop.
   */
  lemma AnyDriverRun(teleopLog: seq<Action>, sp: Speeds, exit: Exit,
                     events: seq<Arrival>, left: seq<Arrival>, driverLog: seq<Action>)
    requires TeleopRun(teleopLog, sp, exit)
    requires DriverRun(events, left, driverLog)
    requires Stream(events) == Output(teleopLog)
    ensures Drives(driverLog) != [] && Last(Drives(driverLog)) == STOP
    ensures Init(Drives(driverLog)) <= Planned(teleopLog, sp)
  {
    hide Commands, Planned, Input, Drives, Output, Target, Causal, DriverRun, Stream;
    OutputParses(teleopLog, sp);
    PrefixIsDriven(events, left, driverLog);
    var driven, sent := Commands(Input(driverLog)), Commands(Stream(events));
    assert Init(driven + [STOP]) == driven;
    assert driven <= sent <= Planned(teleopLog, sp);
  }

  /** What one driven command says about the key it came from. */
  lemma DrivenCommand(log: seq<Action>, sp: Speeds, i: nat)
    requires Timed(log) && i < |Stamps(log)|
    ensures var c := Planned(log, sp)[i];
            && c.header.seqNo == i % U32_LIMIT
            && c.header.frameId == [109, 98, 111, 116]
            && c.twist == KeyTwist(ValidKeys(Input(log))[i], sp)
            && Means(ValidKeys(Input(log))[i], sp, c.twist.vx, c.twist.vy, c.twist.wz)
    // the stamp: whole seconds and the rest, with the sign of the time
    ensures var ns, t := Stamps(log)[i], Planned(log, sp)[i].header.stamp;
            && 0 - SECOND < t.nsec < SECOND && (ns >= 0 ==> t.nsec >= 0) && (ns <= 0 ==> t.nsec <= 0)
            && (t.sec * SECOND + t.nsec == ns <==> -I32_LIMIT <= TruncDiv(ns, SECOND) < I32_LIMIT)
    ensures var ns := Stamps(log)[i];
            (DriveUtime(Planned(log, sp)[i].header.stamp) == TruncDiv(ns, MICROSECOND)) <==>
              (-I32_LIMIT <= TruncDiv(ns, SECOND) < I32_LIMIT)
  {
    StampToUtime(Stamps(log)[i]);
    SplitRecombine(Stamps(log)[i]);
    KeyMeaning(ValidKeys(Input(log))[i], sp);
  }

  /**
   * The law the two programs are for: every valid key typed before the end of
   * the input is driven, once, in order, whatever short writes, short reads
   * and interruptions happen on the way, and then the robot stops.
   */
  lemma EveryKeyIsDriven(teleopLog: seq<Action>, sp: Speeds,
                         events: seq<Arrival>, left: seq<Arrival>, driverLog: seq<Action>)
    requires TeleopRun(teleopLog, sp, EndOfInput)
    requires DriverRun(events, left, driverLog)
    requires Delivers(events, Output(teleopLog)) && Unnotified(driverLog)
    ensures |Drives(driverLog)| == |ValidKeys(Input(teleopLog))| + 1
    ensures forall i :: 0 <= i < |ValidKeys(Input(teleopLog))| ==>
      var key, t := ValidKeys(Input(teleopLog))[i], Drives(driverLog)[i].twist;
      t == KeyTwist(key, sp) && Means(key, sp, t.vx, t.vy, t.wz)
    ensures Last(Drives(driverLog)) == STOP && STOP.twist == Twist(0, 0, 0)
  {
    EndToEndDrive(teleopLog, sp, EndOfInput, events, left, driverLog);
    var cs := Planned(teleopLog, sp);
    assert |cs| == |ValidKeys(Input(teleopLog))|;
    forall i | 0 <= i < |cs|
      ensures (cs + [STOP])[i].twist == KeyTwist(ValidKeys(Input(teleopLog))[i], sp)
      ensures var t := (cs + [STOP])[i].twist; Means(ValidKeys(Input(teleopLog))[i], sp, t.vx, t.vy, t.wz)
    {
      DrivenCommand(teleopLog, sp, i);
    }
  }

  /** What the motor board should receive for one valid key. */
  function KeyPacket(key: Byte, ns: int, sp: Speeds): Msg
    requires IsKey(key)
  {
    Msg(MBOT_VEL_CMD, LE(BitsOfI64(TruncDiv(ns, MICROSECOND)), 8) + EncodeTwist(KeyTwist(key, sp)))
  }

  /** What the motor board reads out of such a packet: the time in microseconds, and speeds that fit the key. */
  predicate Reads(m: Msg, key: Byte, ns: int, sp: Speeds) {
    && m.topic == 214 && |m.payload| == 20
    && I64OfBits(FromLE(m.payload[..8])) == TruncDiv(ns, MICROSECOND)
    && Means(key, sp, FromLE(m.payload[8..12]), FromLE(m.payload[12..16]), FromLE(m.payload[16..]))
  }

  lemma DrivenPacket(log: seq<Action>, sp: Speeds, i: nat)
    requires Timed(log) && i < |Stamps(log)|
    requires -I32_LIMIT <= TruncDiv(Stamps(log)[i], SECOND) < I32_LIMIT
    ensures DriveMsg(Planned(log, sp)[i]) == KeyPacket(ValidKeys(Input(log))[i], Stamps(log)[i], sp)
    ensures Reads(DriveMsg(Planned(log, sp)[i]), ValidKeys(Input(log))[i], Stamps(log)[i], sp)
  {
    hide LE, FromLE, EncodeTwist, KeyTwist, DriveUtime, Means, I64OfBits;
    DrivenCommand(log, sp, i);
    DriveValue(Planned(log, sp)[i]);
  }

  lemma StopPacket()
    ensures DriveMsg(STOP).topic == 214 && |DriveMsg(STOP).payload| == 20
    ensures forall i :: 0 <= i < 20 ==> DriveMsg(STOP).payload[i] == 0
  {
    assert LE(0, 4) == [0, 0, 0, 0];
    assert LE(BitsOfI64(DriveUtime(STOP.header.stamp)), 8) == [0, 0, 0, 0] + LE(0, 4);
  }

  /**
   * From the keyboard to the serial port: once the motor object has been shut
   * down, the drive packets that a receiver parses out of the port's bytes,
   * mixed as they are with time packets, are one for each valid key, in order,
   * with the time the key was handled, and then a stop.
   */
  lemma KeysReachThePort(teleopLog: seq<Action>, sp: Speeds, events: seq<Arrival>, left: seq<Arrival>,
                         driverLog: seq<Action>, run: seq<Bus>, last: nat)
    requires TeleopRun(teleopLog, sp, EndOfInput)
    requires DriverRun(events, left, driverLog)
    requires Delivers(events, Output(teleopLog)) && Unnotified(driverLog)
    requires Run(run) && last < |run| && run[last].calls == Drives(driverLog)
    requires run[last].drv.Idle? && run[last].syn.Finished? && AllAccepted(run[last].writes)
    requires forall i :: 0 <= i < |Stamps(teleopLog)| ==>
      -I32_LIMIT <= TruncDiv(Stamps(teleopLog)[i], SECOND) < I32_LIMIT
    ensures var keys, got := ValidKeys(Input(teleopLog)), ByTopic(Packets(run[last].stream), MBOT_VEL_CMD);
            && |keys| == |Stamps(teleopLog)| && |got| == |keys| + 1
            && (forall i :: 0 <= i < |keys| ==> got[i] == KeyPacket(keys[i], Stamps(teleopLog)[i], sp))
            && (forall i :: 0 <= i < |keys| ==> Reads(got[i], keys[i], Stamps(teleopLog)[i], sp))
            && Last(got) == DriveMsg(STOP) && |Last(got).payload| == 20
            && (forall i :: 0 <= i < 20 ==> Last(got).payload[i] == 0)
  {
    hide Drives, Input, Output, Stamps, ByTopic, Packets, Run, DriveMsgs, DriveMsg, KeyPacket, ValidKeys, Delivers,
         Causal, AllAccepted, Steady, Frames, Reads;
    EndToEndDrive(teleopLog, sp, EndOfInput, events, left, driverLog);
    QuietAfterJoin(run, last);
    var cs, keys := Planned(teleopLog, sp), ValidKeys(Input(teleopLog));
    var calls := cs + [STOP];
    DriveMsgAt(calls, |keys|);
    StopPacket();
    forall i | 0 <= i < |keys|
      ensures DriveMsgs(calls)[i] == KeyPacket(keys[i], Stamps(teleopLog)[i], sp)
      ensures Reads(DriveMsgs(calls)[i], keys[i], Stamps(teleopLog)[i], sp)
    {
      DriveMsgAt(calls, i);
      DrivenPacket(teleopLog, sp, i);
    }
  }

  lemma NothingLeft(events: seq<Arrival>, left: seq<Arrival>, log: seq<Action>)
    requires Stream(events) == Input(log) + Stream(left) && left == []
    ensures Input(log) == Stream(events)
  {
  }

  lemma NumberedKeys(log: seq<Action>, sp: Speeds)
    requires Timed(log)
    ensures forall i :: 0 <= i < |Planned(log, sp)| ==> Planned(log, sp)[i].header.seqNo == i % U32_LIMIT
  {
  }

  /**
   * Both programs run, one after the other, neither with a notification. If
   * what arrives at the driver is what the keyboard program wrote, however it
   * was cut up, and no write or read fails for good, then the robot is driven
   * with the command of every valid key in the input, and then stopped.
   */
  method RunBoth(keys: seq<Arrival>, readable: seq<bool>, accepts: seq<Acceptance>, clock: seq<int>, sp: Speeds,
                 arrivals: seq<Arrival>, ready: seq<bool>)
    returns (exit: Exit, ghost typed: seq<Action>, ghost driven: seq<Action>)
    ensures TeleopRun(typed, sp, exit)
    ensures Delivers(arrivals, Output(typed)) ==>
      |Output(typed)| / KEY_FRAME <= |Planned(typed, sp)| &&
      Drives(driven) == Planned(typed, sp)[..|Output(typed)| / KEY_FRAME] + [STOP]
    ensures Delivers(arrivals, Output(typed)) && exit == WriteFailed ==>
      Planned(typed, sp) != [] && Drives(driven) == Init(Planned(typed, sp)) + [STOP]
    ensures Delivers(arrivals, Output(typed)) && exit != WriteFailed ==> Drives(driven) == Planned(typed, sp) + [STOP]
    ensures Delivers(arrivals, Output(typed)) && Faultless(keys) && Accepting(accepts) ==>
      var valid := ValidKeys(Stream(keys));
      && exit == EndOfInput && |Drives(driven)| == |valid| + 1
      && Last(Drives(driven)) == STOP && STOP.twist == Twist(0, 0, 0)
      && (forall i :: 0 <= i < |valid| ==>
            var t := Drives(driven)[i].twist; t == KeyTwist(valid[i], sp) && Means(valid[i], sp, t.vx, t.vy, t.wz))
      && (forall i :: 0 <= i < |valid| ==> Drives(driven)[i].header.seqNo == i % U32_LIMIT)
  {
    hide Output, Drives, Stream, Steady, Planned, Input, ValidKeys, KeyTwist, Commands, Causal, Means;
    var keyboard := new World(keys, readable, [], accepts, clock, false);
    var teleop := new TeleopKeyboard(keyboard, sp);
    exit := teleop.Spin();
    typed := keyboard.log;

    var link := new World(arrivals, ready, [], [], [], false);
    var driver := new MBotDriver(link);
    driver.Spin();
    driven := link.log;

    if Delivers(arrivals, Output(typed)) {
      EndToEndDrive(typed, sp, exit, arrivals, link.events, driven);
      if Faultless(keys) && Accepting(accepts) {
        NothingLeft(keys, keyboard.events, typed);
        NumberedKeys(typed, sp);
        EveryKeyIsDriven(typed, sp, arrivals, link.events, driven);
      }
    }
  }
}
