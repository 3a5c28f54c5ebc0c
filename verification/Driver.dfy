/** MBotDriver::spin: frames in, drive commands out, a stop at the end. */
module Driver {
  import opened Bytes
  import opened Serialization
  import opened Messages
  import opened Framing
  import opened Environment

  const STOP := ZERO_COMMAND

  /** At every moment the commands driven so far are a prefix of those read so far. */
  ghost predicate Causal(log: seq<Action>) {
    log != [] ==> Causal(Init(log)) && Drives(log) <= Commands(Input(log))
  }

  /** There has been a poll since the last drive call. */
  predicate PolledSince(log: seq<Action>) {
    log != [] && (Last(log).Polled? || (!Last(log).Drove? && PolledSince(Init(log))))
  }

  /** Every drive call has a poll of its own before it. */
  predicate Attentive(log: seq<Action>) {
    log != [] ==> Attentive(Init(log)) && (Last(log).Drove? ==> PolledSince(Init(log)))
  }

  lemma {:induction false} PolledAt(log: seq<Action>)
    requires PolledSince(log)
    ensures exists k :: 0 <= k < |log| && log[k].Polled? && forall i :: k < i < |log| ==> !log[i].Drove?
  {
    if Last(log).Polled? {
      assert log[|log| - 1].Polled?;
    } else {
      PolledAt(Init(log));
      var k :| 0 <= k < |Init(log)| && Init(log)[k].Polled? && forall i :: k < i < |Init(log)| ==> !Init(log)[i].Drove?;
      assert log[k].Polled? && forall i :: k < i < |log| - 1 ==> log[i] == Init(log)[i];
    }
  }

  /** What Attentive says about each drive call. */
  lemma {:induction false} AttentiveAt(log: seq<Action>, j: nat)
    requires Attentive(log) && j < |log| && log[j].Drove?
    ensures exists k :: 0 <= k < j && log[k].Polled? && forall i :: k < i < j ==> !log[i].Drove?
  {
    if j < |log| - 1 {
      AttentiveAt(Init(log), j);
      var k :| 0 <= k < j && Init(log)[k].Polled? && forall i :: k < i < j ==> !Init(log)[i].Drove?;
      assert log[k].Polled? && forall i :: k < i < j ==> log[i] == Init(log)[i];
    } else {
      PolledAt(Init(log));
      var k :| 0 <= k < j && Init(log)[k].Polled? && forall i :: k < i < j ==> !Init(log)[i].Drove?;
      assert log[k].Polled? && forall i :: k < i < j ==> log[i] == Init(log)[i];
    }
  }

  /** One more journal entry. */
  lemma AttentiveNext(log: seq<Action>, a: Action)
    requires a.Drove? ==> PolledSince(log)
    ensures Attentive(log) ==> Attentive(log + [a])
    ensures a.Polled? || (PolledSince(log) && !a.Drove?) ==> PolledSince(log + [a])
  {
    assert Init(log + [a]) == log;
  }

  /** Every read that would block is followed by a poll of its own. */
  predicate Answers(log: seq<Action>) {
    forall i :: 0 <= i < |log| && log[i].Blocked? ==> i + 1 < |log| && log[i + 1].Polled?
  }

  /** From one moment to a later one: a poll for each read that would block, right behind it, and no other. */
  ghost predicate Answered(log: seq<Action>, log': seq<Action>) {
    && (Answers(log) ==> Answers(log'))
    && Polls(log') + Blocks(log) == Polls(log) + Blocks(log')
  }

  lemma AnsweredBoth(a: seq<Action>, b: seq<Action>, c: seq<Action>)
    requires Answered(a, b) && Answered(b, c)
    ensures Answered(a, c)
  {
    hide Answers, Polls, Blocks;
  }

  lemma AnsweredNext(log: seq<Action>, a: Action)
    requires !a.Polled? && !a.Blocked?
    ensures Answered(log, log) && Answered(log, log + [a])
  {
    hide Polls, Blocks;
    ExtendCounts(log, a);
    if Answers(log) {
      forall i | 0 <= i < |log + [a]| && (log + [a])[i].Blocked?
        ensures i + 1 < |log + [a]| && (log + [a])[i + 1].Polled?
      {
        assert log[i].Blocked? && log[i + 1].Polled?;
      }
    }
  }

  lemma AnsweredPoll(log: seq<Action>, fired: bool)
    ensures Answered(log, log + [Blocked] + [Polled(fired)])
    ensures Answers(log) ==> Answers(log + [Polled(fired)])
    ensures Polls(log + [Polled(fired)]) == Polls(log) + 1 && Blocks(log + [Polled(fired)]) == Blocks(log)
  {
    hide Polls, Blocks;
    ExtendCounts(log, Blocked);
    ExtendCounts(log + [Blocked], Polled(fired));
    ExtendCounts(log, Polled(fired));
  }

  /**
   * All the polls of a run with a notification object: one for each frame that
   * was begun, the last of them incomplete or never reached, and one right
   * behind each read that would block.
   */
  ghost predicate Watchful(log: seq<Action>) {
    && Attentive(log) && Answers(log)
    && Polls(log) == FrameCount(Input(log)) + 1 + Blocks(log)
  }

  /** Between two frames: a poll for each frame so far, and for each read that would block. */
  ghost predicate Watched(read: seq<Byte>, log: seq<Action>) {
    Attentive(log) && Answers(log) && Polls(log) == FrameCount(read) + Blocks(log)
  }

  /** The journal of a whole run of spin over an input script. */
  ghost predicate DriverRun(events: seq<Arrival>, left: seq<Arrival>, log: seq<Action>) {
    && log != [] && Last(log) == Drove(STOP)
    // the commands are the parse of what was consumed, then the one stop
    && Drives(log) == Commands(Input(log)) + [STOP]
    && Stream(events) == Input(log) + Stream(left)
    // no command before its bytes are there
    && Causal(Init(log))
    // a notification is the last thing before the stop
    && (forall i :: 0 <= i < |log| && log[i] == Polled(true) ==> i == |log| - 2)
    // nothing but a notification or a read error ends the run early
    && (Faultless(events) && Unnotified(log) ==> left == [])
  }

  /** Every step keeps the drive trace behind the parsed input. */
  lemma CausalGrows(log: seq<Action>, a: Action)
    requires Causal(log)
    requires a.Drove? ==> Drives(log) + [a.cmd] == Commands(Input(log))
    ensures Causal(log + [a])
  {
    assert Drives(log) <= Commands(Input(log));
    Extend(log, a);
    if a.Got? { CommandsMonotone(Input(log), a.input); }
  }

  /** What Causal says about each single moment of a run. */
  lemma {:induction false} CausalAt(log: seq<Action>, k: nat)
    requires Causal(log) && k <= |log|
    ensures Drives(log[..k]) <= Commands(Input(log[..k]))
    decreases |log|
  {
    if k == |log| {
      assert log[..k] == log;
    } else {
      assert log[..k] == Init(log)[..k];
      CausalAt(Init(log), k);
    }
  }

  /** From one moment to a later one: `taken` was consumed and nothing was driven. */
  ghost predicate Consumed(events: seq<Arrival>, log: seq<Action>, taken: seq<Byte>,
                           events': seq<Arrival>, log': seq<Action>) {
    && Stream(events) == taken + Stream(events')
    && Input(log') == Input(log) + taken
    && Drives(log') == Drives(log)
    && Causal(log')
    && (Faultless(events) ==> Faultless(events'))
    && (PolledSince(log) ==> PolledSince(log')) && (Attentive(log) ==> Attentive(log'))
  }

  lemma ConsumedNothing(events: seq<Arrival>, log: seq<Action>)
    requires Causal(log)
    ensures Consumed(events, log, [], events, log)
  {
  }

  /** A read that failed or came too early. */
  lemma ConsumedTrouble(events: seq<Arrival>, log: seq<Action>, events': seq<Arrival>)
    requires Causal(log)
    requires Stream(events) == Stream(events') && (Faultless(events) ==> Faultless(events'))
    ensures Consumed(events, log, [], events', log)
    ensures Consumed(events, log, [], events', log + [Blocked])
  {
    Extend(log, Blocked);
    CausalGrows(log, Blocked);
    AttentiveNext(log, Blocked);
  }

  lemma ConsumedBytes(events: seq<Arrival>, log: seq<Action>, more: seq<Byte>, events': seq<Arrival>)
    requires Causal(log)
    requires Stream(events) == more + Stream(events') && (Faultless(events) ==> Faultless(events'))
    ensures Consumed(events, log, more, events', log + [Got(more)])
  {
    Extend(log, Got(more));
    CausalGrows(log, Got(more));
    AttentiveNext(log, Got(more));
  }

  lemma ConsumedBoth(e0: seq<Arrival>, l0: seq<Action>, a: seq<Byte>, e1: seq<Arrival>, l1: seq<Action>,
                     b: seq<Byte>, e2: seq<Arrival>, l2: seq<Action>)
    requires Consumed(e0, l0, a, e1, l1) && Consumed(e1, l1, b, e2, l2)
    ensures Consumed(e0, l0, a + b, e2, l2)
  {
    hide Stream, Input, Output, Stamps, Drives, Causal, Attentive, PolledSince;
    assert a + (b + Stream(e2)) == (a + b) + Stream(e2);
    assert Input(l0) + a + b == Input(l0) + (a + b);
  }

  lemma ConsumedCausal(events: seq<Arrival>, log: seq<Action>, taken: seq<Byte>,
                       events': seq<Arrival>, log': seq<Action>)
    requires Consumed(events, log, taken, events', log')
    ensures Causal(log')
  {
  }

  lemma ConsumedQuiet(events: seq<Arrival>, log: seq<Action>, a: Action)
    requires Causal(log) && !a.Got? && !a.Drove?
    ensures Consumed(events, log, [], events, log + [a])
  {
    Extend(log, a);
    CausalGrows(log, a);
    AttentiveNext(log, a);
  }

  /** A notification that was consumed is the last thing that happened. */
  predicate NoticeIsLast(log: seq<Action>) {
    Unnotified(log) || (Last(log) == Polled(true) && Unnotified(Init(log)))
  }

  lemma BlockedUnpolled(events: seq<Arrival>, log: seq<Action>)
    requires Causal(log) && Unnotified(log)
    ensures Consumed(events, log, [], events, log) && NoticeIsLast(log)
  {
    hide Causal;
  }

  lemma BlockedPolled(events: seq<Arrival>, before: seq<Action>, fired: bool)
    requires Causal(before + [Blocked]) && Unnotified(before + [Blocked])
    ensures var log, log' := before + [Blocked], before + [Blocked] + [Polled(fired)];
            && Consumed(events, log, [], events, log') && Answered(before, log')
            && NoticeIsLast(log') && (Unnotified(log') <==> !fired)
  {
    hide Causal, Answered, Consumed;
    var log := before + [Blocked];
    ConsumedQuiet(events, log, Polled(fired));
    AnsweredPoll(before, fired);
    Extend(log, Polled(fired));
    assert (log + [Polled(fired)])[|log|] == Polled(fired);
  }

  lemma BlockedWaited(events: seq<Arrival>, before: seq<Action>, log: seq<Action>, polled: seq<Action>)
    requires Consumed(events, log, [], events, polled)
    ensures Consumed(events, log, [], events, polled + [TimedOut])
    ensures Unnotified(polled) ==> Unnotified(polled + [TimedOut]) && NoticeIsLast(polled + [TimedOut])
    ensures Answered(before, polled) ==> Answered(before, polled + [TimedOut])
  {
    hide Causal, Answered, Consumed;
    var nothing: seq<Byte> := [];
    ConsumedCausal(events, log, nothing, events, polled);
    ConsumedQuiet(events, polled, TimedOut);
    ConsumedBoth(events, log, nothing, events, polled, nothing, events, polled + [TimedOut]);
    assert nothing + nothing == nothing;
    Extend(polled, TimedOut);
    AnsweredNext(polled, TimedOut);
    if Answered(before, polled) { AnsweredBoth(before, polled, polled + [TimedOut]); }
  }

  /** Between two frames: everything read so far, `read`, has been parsed and driven. */
  ghost predicate DrivenBy(start: seq<Arrival>, read: seq<Byte>, events: seq<Arrival>, log: seq<Action>) {
    && Stream(start) == read + Stream(events)
    && Input(log) == read
    && Drives(log) == Commands(read)
    && Causal(log)
    && (Faultless(start) ==> Faultless(events))
  }

  lemma NothingYet(events: seq<Arrival>)
    ensures DrivenBy(events, [], events, []) && Whole([]) && Unnotified([]) && Watched([], [])
  {
    assert Commands([]) == [];
  }

  lemma DrivenRead(start: seq<Arrival>, read: seq<Byte>, e1: seq<Arrival>, l1: seq<Action>,
                   more: seq<Byte>, e2: seq<Arrival>, l2: seq<Action>)
    requires DrivenBy(start, read, e1, l1) && Consumed(e1, l1, more, e2, l2)
    ensures Stream(start) == (read + more) + Stream(e2)
    ensures Input(l2) == read + more && Drives(l2) == Commands(read) && Causal(l2)
    ensures Faultless(start) ==> Faultless(e2)
    ensures (PolledSince(l1) ==> PolledSince(l2)) && (Attentive(l1) ==> Attentive(l2))
  {
    hide Stream, Input, Drives, Causal, Commands, Attentive, PolledSince;
    assert read + (more + Stream(e2)) == (read + more) + Stream(e2);
  }

  lemma DrivenPoll(start: seq<Arrival>, read: seq<Byte>, events: seq<Arrival>, log: seq<Action>, fired: bool)
    requires DrivenBy(start, read, events, log)
    ensures DrivenBy(start, read, events, log + [Polled(fired)])
    ensures PolledSince(log + [Polled(fired)]) && (Attentive(log) ==> Attentive(log + [Polled(fired)]))
  {
    Extend(log, Polled(fired));
    CausalGrows(log, Polled(fired));
    AttentiveNext(log, Polled(fired));
  }

  lemma NoFrame(read: seq<Byte>, part: seq<Byte>)
    requires Whole(read) && !HasFrame(part)
    ensures Commands(read + part) == Commands(read)
  {
    CommandsConcat(read, part);
  }

  lemma NextFrame(read: seq<Byte>, f: seq<Byte>, payload: seq<Byte>)
    requires Whole(read) && HasFrame(f) && FrameLength(f) == |f| && f[4..] == payload
    ensures Whole(read + f)
    ensures var r := ReadCommand(ZERO_COMMAND, payload, 0);
            Commands(read + f) == if r.ok then Commands(read) + [r.value] else Commands(read)
  {
    OneFrame(f);
    CommandsConcat(read, f);
    assert f[4..|f|] == payload;
  }

  /** The run ends: nothing after `read` is a whole frame. */
  lemma WatchedStop(read: seq<Byte>, rest: seq<Byte>, log: seq<Action>, fired: bool, last: seq<Action>)
    requires Whole(read) && !HasFrame(rest) && Watched(read, log) && Input(last) == read + rest
    requires Answered(log + [Polled(fired)], last)
    requires PolledSince(log + [Polled(fired)]) ==> PolledSince(last)
    requires Attentive(log + [Polled(fired)]) ==> Attentive(last)
    ensures Watchful(last + [Drove(STOP)])
  {
    hide Input, Output, Stamps, Drives, Attentive, PolledSince, Answers, Polls, Blocks;
    AttentiveNext(log, Polled(fired));
    AnsweredPoll(log, fired);
    AttentiveNext(last, Drove(STOP));
    AnsweredNext(last, Drove(STOP));
    Extend(last, Drove(STOP));
    FrameCountConcat(read, rest);
  }

  /** One more frame has been read and dealt with. */
  lemma WatchedFrame(read: seq<Byte>, f: seq<Byte>, log: seq<Action>, fired: bool,
                     parsed: seq<Action>, last: seq<Action>)
    requires Whole(read) && HasFrame(f) && FrameLength(f) == |f| && Watched(read, log)
    requires Answered(log + [Polled(fired)], parsed) && Answered(parsed, last)
    requires PolledSince(log + [Polled(fired)]) ==> PolledSince(parsed)
    requires Attentive(log + [Polled(fired)]) ==> Attentive(parsed)
    requires PolledSince(parsed) && Attentive(parsed) ==> Attentive(last)
    ensures Watched(read + f, last)
  {
    hide Attentive, PolledSince, Answers, Polls, Blocks;
    AttentiveNext(log, Polled(fired));
    AnsweredPoll(log, fired);
    FrameCountConcat(read, f);
    assert f[FrameLength(f)..] == [];
    assert FrameCount([]) == 0;
  }

  /** A stop sent once nothing more is to be parsed completes a run. */
  lemma StopEndsRun(start: seq<Arrival>, left: seq<Arrival>, log: seq<Action>)
    requires Stream(start) == Input(log) + Stream(left)
    requires Drives(log) == Commands(Input(log)) && Causal(log)
    requires NoticeIsLast(log)
    requires Faultless(start) && Unnotified(log) ==> left == []
    ensures DriverRun(start, left, log + [Drove(STOP)])
    ensures Unnotified(log) ==> Unnotified(log + [Drove(STOP)])
    ensures PolledSince(log) && Attentive(log) ==> Attentive(log + [Drove(STOP)])
  {
    hide Input, Output, Stamps, Drives, Causal, Stream, Commands, Attentive, PolledSince;
    Extend(log, Drove(STOP));
    if PolledSince(log) { AttentiveNext(log, Drove(STOP)); }
  }

  /** However the same bytes arrive, the robot is driven the same way. */
  lemma ChunkingIndependence(events: seq<Arrival>, left: seq<Arrival>, log: seq<Action>,
                             events': seq<Arrival>, left': seq<Arrival>, log': seq<Action>)
    requires DriverRun(events, left, log) && DriverRun(events', left', log')
    requires Faultless(events) && Faultless(events') && Unnotified(log) && Unnotified(log')
    requires Stream(events) == Stream(events')
    ensures Drives(log) == Drives(log') == Commands(Stream(events)) + [STOP]
  {
    hide Input, Output, Drives, Causal, Commands;
    assert Stream([]) == [];
    assert Input(log) + [] == Input(log) && Input(log') + [] == Input(log');
  }

  /** A run that is cut short still drives the parse of some prefix of the stream, never more or something else. */
  lemma PrefixIsDriven(events: seq<Arrival>, left: seq<Arrival>, log: seq<Action>)
    requires DriverRun(events, left, log)
    ensures Drives(log) == Commands(Input(log)) + [STOP] && Input(log) <= Stream(events)
    ensures Commands(Input(log)) <= Commands(Stream(events))
  {
    hide Input, Output, Drives, Causal, Commands;
    CommandsMonotone(Input(log), Stream(left));
  }

  class MBotDriver {
    const world: World

    constructor (world: World)
      ensures this.world == world
    {
      this.world := world;
    }

    /** Only when a read would block: look for the notification, else wait a little. */
    method PollWhileBlocked(ghost before: seq<Action>) returns (stop: bool)
      requires Causal(world.log) && Unnotified(world.log) && world.log == before + [Blocked]
      modifies world
      ensures world.events == old(world.events)
      ensures Consumed(old(world.events), old(world.log), [], world.events, world.log)
      ensures NoticeIsLast(world.log) && (stop <==> !Unnotified(world.log))
      ensures old(world.Silent()) ==> world.Silent() && !stop
      ensures world.notified ==> Answered(before, world.log)
    {
      hide Stream, Input, Output, Stamps, Drives, Causal, Attentive, PolledSince, Answered, Consumed, Unnotified,
           NoticeIsLast;
      ghost var events, log := world.events, world.log;
      BlockedUnpolled(events, log);
      stop := world.NotifReady();
      BlockedPolled(events, before, stop);
      if !stop {
        ghost var polled := world.log;
        var ready := world.WaitForReadable();
        BlockedWaited(events, before, log, polled);
      }
    }

    /** One turn of read_exact's loop: r new bytes, or a reason to stop, or neither. */
    method ReadTurn(dst: array<Byte>, got: nat, n: nat) returns (r: nat, stop: bool)
      requires got < n <= dst.Length
      requires Causal(world.log) && Unnotified(world.log)
      modifies world, dst
      ensures got + r <= n && dst[..got] == old(dst[..got])
      ensures Consumed(old(world.events), old(world.log), dst[got..got + r], world.events, world.log)
      ensures !stop ==> Unnotified(world.log) && (r > 0 || |world.events| < |old(world.events)|)
      ensures stop ==> r == 0 && NoticeIsLast(world.log)
      ensures stop && Unnotified(world.log) && Faultless(old(world.events)) ==> world.events == []
      ensures old(world.Silent()) ==> world.Silent() && Unnotified(world.log)
      ensures world.notified ==> Answered(old(world.log), world.log)
    {
      hide Stream, Input, Output, Stamps, Drives, Causal, Consumed, Attentive, PolledSince, Answered;
      ghost var events, log := world.events, world.log;
      var m, errno := world.Read(dst, got, n - got);
      ghost var later := world.events;
      if m <= 0 {
        assert dst[got..got] == [];
        ConsumedTrouble(events, log, later);
        AnsweredNext(log, TimedOut);
        Extend(log, Blocked);
      }
      if m == 0 {
        return 0, true;
      }
      if m < 0 {
        if errno == EINTR {
          return 0, false;
        }
        if errno == EAGAIN {
          ConsumedCausal(events, log, [], later, world.log);
          stop := PollWhileBlocked(log);
          ConsumedBoth(events, log, [], later, log + [Blocked], [], world.events, world.log);
          assert dst[got..got] == dst[got..got] + [];
          return 0, stop;
        }
        return 0, true;
      }
      ConsumedBytes(events, log, dst[got..got + m], later);
      Extend(log, Got(dst[got..got + m]));
      AnsweredNext(log, Got(dst[got..got + m]));
      return m, false;
    }

    /** The lambda read_exact. */
    method ReadExact(dst: array<Byte>, n: nat) returns (ok: bool, ghost taken: seq<Byte>)
      requires n <= dst.Length
      requires Causal(world.log) && Unnotified(world.log)
      modifies world, dst
      ensures Consumed(old(world.events), old(world.log), taken, world.events, world.log)
      ensures ok ==> taken == dst[..n] && Unnotified(world.log)
      ensures !ok ==> |taken| < n && NoticeIsLast(world.log)
      ensures !ok && Unnotified(world.log) && Faultless(old(world.events)) ==> world.events == []
      ensures old(world.Silent()) ==> world.Silent() && Unnotified(world.log)
      // every read that would block polls the notification, and nothing else does
      ensures world.notified ==> Answered(old(world.log), world.log)
    {
      hide Stream, Input, Output, Stamps, Drives, Causal, Attentive, PolledSince, Answered;
      var got := 0;
      taken := [];
      ConsumedNothing(world.events, world.log);
      AnsweredNext(world.log, TimedOut);
      while got < n
        invariant got <= n && |taken| == got && taken == dst[..got]
        invariant Consumed(old(world.events), old(world.log), taken, world.events, world.log)
        invariant Unnotified(world.log)
        invariant old(world.Silent()) ==> world.Silent()
        invariant world.notified ==> Answered(old(world.log), world.log)
        decreases n - got, |world.events|
      {
        ghost var events, log := world.events, world.log;
        var r, stop := ReadTurn(dst, got, n);
        ghost var more := dst[got..got + r];
        ConsumedBoth(old(world.events), old(world.log), taken, events, log, more, world.events, world.log);
        if world.notified { AnsweredBoth(old(world.log), log, world.log); }
        assert dst[..got + r] == dst[..got] + more;
        taken := taken + more;
        if stop {
          return false, taken;
        }
        got := got + r;
      }
      return true, taken;
    }

    /** The size prefix and the payload behind it. */
    method ReadFrame() returns (ok: bool, payload: array<Byte>, ghost frame: seq<Byte>)
      requires Causal(world.log) && Unnotified(world.log)
      modifies world
      ensures fresh(payload) && payload.Length < U32_LIMIT
      ensures Consumed(old(world.events), old(world.log), frame, world.events, world.log)
      ensures ok ==> HasFrame(frame) && FrameLength(frame) == |frame| && frame[4..] == payload[..]
      ensures ok ==> Unnotified(world.log)
      ensures !ok ==> !HasFrame(frame) && NoticeIsLast(world.log)
      ensures !ok && Unnotified(world.log) && Faultless(old(world.events)) ==> world.events == []
      ensures old(world.Silent()) ==> world.Silent() && Unnotified(world.log)
      ensures world.notified ==> Answered(old(world.log), world.log)
    {
      hide Stream, Input, Output, Stamps, Drives, Causal, Attentive, PolledSince, Answered;
      payload := new Byte[0];
      var sizeBuf := new Byte[4];
      ok, frame := ReadExact(sizeBuf, 4);
      if !ok {
        return;
      }
      ghost var events, log := world.events, world.log;

      // four bytes always deserialise, so the source's failure branch is dead
      var size := DeserializeNumber(4, sizeBuf, 4, 0);
      assert sizeBuf[..4][0..4] == sizeBuf[..4] == frame;
      CountIsU32(sizeBuf[..4], 0);

      payload := new Byte[size.value];
      ConsumedNothing(world.events, world.log);
      ghost var body: seq<Byte> := [];
      if size.value > 0 {
        ok, body := ReadExact(payload, size.value);
        if world.notified { AnsweredBoth(old(world.log), log, world.log); }
      }
      ConsumedBoth(old(world.events), old(world.log), frame, events, log, body, world.events, world.log);
      assert (frame + body)[..4] == frame && (frame + body)[4..] == body;
      assert payload[..payload.Length] == payload[..];
      frame := frame + body;
    }

    /** The lambda send_stop. */
    method SendStop()
      modifies world`log
      ensures world.log == old(world.log) + [Drove(STOP)]
      ensures STOP == Command(Header(0, Stamp(0, 0), []), Twist(0, 0, 0))
    {
      var stop := new Twist2DStampedMsg();
      world.Drive(stop.Model());
    }

    /** Deserialise and drive; a payload that does not deserialise is ignored. */
    method DrivePayload(payload: array<Byte>, ghost expected: seq<Command>)
      requires payload.Length < U32_LIMIT
      requires Causal(world.log) && Commands(Input(world.log)) == expected
      requires var r := ReadCommand(ZERO_COMMAND, payload[..], 0);
               expected == if r.ok then Drives(world.log) + [r.value] else Drives(world.log)
      modifies world`log
      ensures Drives(world.log) == expected && Input(world.log) == Input(old(world.log))
      ensures Causal(world.log)
      ensures Unnotified(old(world.log)) ==> Unnotified(world.log)
      ensures PolledSince(old(world.log)) && Attentive(old(world.log)) ==> Attentive(world.log)
      ensures Answered(old(world.log), world.log)
    {
      hide Input, Drives, Causal, Commands, ReadCommand, Attentive, PolledSince, Answered;
      AnsweredNext(world.log, TimedOut);
      var cmd := new Twist2DStampedMsg();
      assert payload[..payload.Length] == payload[..];
      var decoded, off := cmd.Deserialize(payload, payload.Length, 0);
      if decoded {
        CausalGrows(world.log, Drove(cmd.Model()));
        Extend(world.log, Drove(cmd.Model()));
        if PolledSince(world.log) { AttentiveNext(world.log, Drove(cmd.Model())); }
        AnsweredNext(world.log, Drove(cmd.Model()));
        world.Drive(cmd.Model());
      }
    }

    method Spin()
      requires world.log == []
      modifies world
      ensures DriverRun(old(world.events), world.events, world.log)
      // the stop is a command with all fields zero
      ensures world.log != [] && Last(world.log) == Drove(Command(Header(0, Stamp(0, 0), []), Twist(0, 0, 0)))
      ensures old(world.Silent()) ==> Unnotified(world.log)
      // when the notification, if there is one, is looked at
      ensures world.notified ==> Watchful(world.log)
    {
      hide Stream, Input, Output, Stamps, Drives, Causal, Commands, Whole, ReadCommand, DriverRun,
           Attentive, PolledSince, Answers, Answered, Watched, Watchful;
      ghost var read: seq<Byte> := [];
      NothingYet(world.events);
      while true
        invariant DrivenBy(old(world.events), read, world.events, world.log)
        invariant Whole(read) && Unnotified(world.log)
        invariant old(world.Silent()) ==> world.Silent()
        invariant world.notified ==> Watched(read, world.log)
        decreases |Stream(world.events)|
      {
        ghost var log := world.log;
        var fired := world.NotifReady();
        DrivenPoll(old(world.events), read, world.events, log, fired);
        Extend(log, Polled(fired));
        if fired {
          AnsweredNext(world.log, TimedOut);
          assert read + [] == read;
          if world.notified { WatchedStop(read, [], log, fired, world.log); }
          StopEndsRun(old(world.events), world.events, world.log);
          SendStop();
          return;
        }

        ghost var before, log' := world.events, world.log;
        var ok, payload, frame := ReadFrame();
        DrivenRead(old(world.events), read, before, log', frame, world.events, world.log);
        if !ok {
          NoFrame(read, frame);
          if world.notified { WatchedStop(read, frame, log, fired, world.log); }
          StopEndsRun(old(world.events), world.events, world.log);
          SendStop();
          return;
        }
        NextFrame(read, frame, payload[..]);

        ghost var parsed := world.log;
        DrivePayload(payload, Commands(read + frame));
        if world.notified { WatchedFrame(read, frame, log, fired, parsed, world.log); }
        read := read + frame;
      }
    }
  }
}
