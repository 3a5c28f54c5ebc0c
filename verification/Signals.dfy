/**
 * Signal of src/rix/ipc/signal.cpp: the self-pipe technique over one static
 * table of 32 notifiers.
 *
 * Between any two statements of the source, any number of signals may be
 * delivered: every method calls Interrupt there, which runs the handler for
 * whatever the schedule holds, and the schedule is arbitrary. What Interrupt
 * requires is therefore an invariant of every small step.
 */
module Signals {

  const SIGNALS: nat := 32

  /** One end of a notifier's pipe: Stale is a descriptor already closed but not yet forgotten. */
  datatype End = Absent | Open | Stale

  /** SignalNotifier, with the number of bytes in its pipe and the O_NONBLOCK flag of its read end. */
  datatype Slot = Slot(ready: bool, readEnd: End, writeEnd: End, bytes: nat, nonblocking: bool)

  /** Since the slot's pipe was created: handler writes, bytes drained, waits that returned true. */
  datatype Tally = Tally(delivered: nat, drained: nat, trues: nat)

  function Total(schedule: seq<seq<int>>): nat {
    if schedule == [] then 0 else |schedule[0]| + Total(schedule[1..])
  }

  /** The handler can run at any moment: it never sees a closed descriptor, and nothing is lost or invented. */
  predicate Sound(s: Slot, t: Tally) {
    && (s.ready ==> (s.readEnd.Open? && s.writeEnd.Open?) || (s.readEnd.Absent? && s.writeEnd.Absent?))
    && (s.ready && s.writeEnd.Absent? ==> s.bytes == 0)
    && t.delivered == t.drained + s.bytes
    && t.trues <= t.drained
  }

  /** The signals that arrive at the next interruption point. */
  function Now(schedule: seq<seq<int>>): seq<int> {
    if schedule == [] then [] else schedule[0]
  }

  /** What is left of a schedule after n interruption points. */
  function After(schedule: seq<seq<int>>, n: nat): seq<seq<int>> {
    if n <= |schedule| then schedule[n..] else []
  }

  lemma AfterBoth(schedule: seq<seq<int>>, m: nat, n: nat)
    ensures After(After(schedule, m), n) == After(schedule, m + n)
  {
  }

  function Hits(batch: seq<int>, signum: int): nat {
    if batch == [] then 0 else
      Hits(batch[..|batch| - 1], signum) + (if batch[|batch| - 1] == signum then 1 else 0)
  }

  lemma {:induction false} HitsAtMost(batch: seq<int>)
    ensures forall signum :: Hits(batch, signum) <= |batch|
  {
    if batch != [] { HitsAtMost(batch[..|batch| - 1]); }
  }

  /** What a new pipe holds when the signals in `late` arrive right behind signal(2). */
  function FirstBytes(s: Slot, refused: bool, late: seq<int>, signum: int): nat {
    if s.writeEnd.Open? && !refused then Hits(late, signum) else 0
  }

  /** A slot after n of its signals. */
  function Reached(s: Slot, handled: bool, n: nat): Slot {
    if handled && s.ready && s.writeEnd.Open? then s.(bytes := s.bytes + n) else s
  }

  /** From one moment to a later one, nothing but handler runs. */
  predicate OnlyDelivered(s: Slot, t: Tally, s': Slot, t': Tally) {
    && s' == s.(bytes := s'.bytes) && t' == t.(delivered := t'.delivered)
    && s'.bytes - s.bytes == t'.delivered - t.delivered >= 0
    && (!s.ready || !s.writeEnd.Open? ==> s' == s)
  }

  /** Nothing is delivered to a slot that is not in use. */
  lemma NotInUse(r: End, w: End, s: Slot, t: Tally)
    requires OnlyDelivered(Slot(false, r, w, 0, false), Tally(0, 0, 0), s, t)
    ensures s == Slot(false, r, w, 0, false) && t == Tally(0, 0, 0)
  {
  }

  lemma EmptySound(r: End, w: End)
    ensures Sound(Slot(false, r, w, 0, false), Tally(0, 0, 0))
  {
  }

  predicate AllOnlyDelivered(s: seq<Slot>, t: seq<Tally>, s': seq<Slot>, t': seq<Tally>) {
    && |s| == |t| == |s'| == |t'|
    && forall i :: 0 <= i < |s| ==> OnlyDelivered(s[i], t[i], s'[i], t'[i])
  }

  lemma DeliveredBoth(s: seq<Slot>, t: seq<Tally>, s1: seq<Slot>, t1: seq<Tally>, s2: seq<Slot>, t2: seq<Tally>)
    requires AllOnlyDelivered(s, t, s1, t1) && AllOnlyDelivered(s1, t1, s2, t2)
    ensures AllOnlyDelivered(s, t, s2, t2)
  {
    forall i | 0 <= i < |s|
      ensures OnlyDelivered(s[i], t[i], s2[i], t2[i])
    {
      assert OnlyDelivered(s[i], t[i], s1[i], t1[i]) && OnlyDelivered(s1[i], t1[i], s2[i], t2[i]);
    }
  }

  /** A slot between operations: in use, with its handler installed unless the system refused that, or empty. */
  predicate AtRest(s: Slot, handled: bool, refused: bool) {
    && (handled <==> s.ready && !refused)
    && !s.readEnd.Stale? && !s.writeEnd.Stale?
    && (!s.ready ==> s.readEnd.Absent? && s.writeEnd.Absent?)
  }

  /** As AllOnlyDelivered, for every slot but k. */
  predicate OthersOnlyDelivered(s: seq<Slot>, t: seq<Tally>, s': seq<Slot>, t': seq<Tally>, k: int) {
    && |s| == |t| == |s'| == |t'|
    && forall i :: 0 <= i < |s| && i != k ==> OnlyDelivered(s[i], t[i], s'[i], t'[i])
  }

  lemma NothingDelivered(s: seq<Slot>, t: seq<Tally>)
    requires |s| == |t|
    ensures AllOnlyDelivered(s, t, s, t)
    ensures forall k: int :: OthersOnlyDelivered(s, t, s, t, k)
  {
  }

  lemma DeliveredElsewhere(s: seq<Slot>, t: seq<Tally>, s1: seq<Slot>, t1: seq<Tally>,
                           s2: seq<Slot>, t2: seq<Tally>, k: int)
    requires OthersOnlyDelivered(s, t, s1, t1, k) && OthersOnlyDelivered(s1, t1, s2, t2, k)
    ensures OthersOnlyDelivered(s, t, s2, t2, k)
  {
    forall i | 0 <= i < |s| && i != k
      ensures OnlyDelivered(s[i], t[i], s2[i], t2[i])
    {
      assert OnlyDelivered(s[i], t[i], s1[i], t1[i]) && OnlyDelivered(s1[i], t1[i], s2[i], t2[i]);
    }
  }

  /** A statement that changes slot i, and then deliveries. */
  lemma Touched(s: seq<Slot>, t: seq<Tally>, i: nat, x: Slot, y: Tally, s': seq<Slot>, t': seq<Tally>)
    requires i < |s| == |t| && AllOnlyDelivered(s[i := x], t[i := y], s', t')
    ensures OthersOnlyDelivered(s, t, s', t', i) && OnlyDelivered(x, y, s'[i], t'[i])
  {
    hide OnlyDelivered;
    forall j | 0 <= j < |s| && j != i ensures OnlyDelivered(s[j], t[j], s'[j], t'[j]) {
      assert OnlyDelivered(s[i := x][j], t[i := y][j], s'[j], t'[j]);
    }
    assert OnlyDelivered(s[i := x][i], t[i := y][i], s'[i], t'[i]);
  }

  /** Deliveries do not disturb a slot that is at rest. */
  lemma RestElsewhere(s: seq<Slot>, t: seq<Tally>, s': seq<Slot>, t': seq<Tally>,
                      handled: seq<bool>, refused: set<int>, k: int)
    requires OthersOnlyDelivered(s, t, s', t', k) && |s| == |handled|
    requires forall i :: 0 <= i < |s| ==> AtRest(s[i], handled[i], i + 1 in refused)
    ensures forall i :: 0 <= i < |s| && i != k ==>
      AtRest(s'[i], handled[i], i + 1 in refused) && s'[i].ready == s[i].ready
  {
    forall i | 0 <= i < |s| && i != k
      ensures AtRest(s'[i], handled[i], i + 1 in refused) && s'[i].ready == s[i].ready
    {
      assert OnlyDelivered(s[i], t[i], s'[i], t'[i]);
    }
  }

  /** A wait returned true: see Signal.Wait. */
  predicate Drained(s: Slot, t: Tally, atEagain: nat, s': Slot, t': Tally) {
    // all that was delivered up to the final read is gone, at least one byte, and the rest is still there
    && t.delivered <= atEagain <= t'.delivered
    && t'.drained == atEagain > t.drained
    && s'.bytes == t'.delivered - atEagain
    && t'.trues == t.trues + 1
    // the slot, with its blocking mode, is as before
    && s' == s.(bytes := s'.bytes)
  }

  class Process {
    var slots: seq<Slot>
    /** Whether the disposition of signal i + 1 is Signal::handler rather than the default. */
    var handled: seq<bool>
    /** The signals that signal(2) refuses to install a handler for: SIGKILL and SIGSTOP at least. */
    const refused: set<int>
    /** What the rest of the world will do: signals at each interruption point, EINTR for poll, results of pipe(). */
    var schedule: seq<seq<int>>
    var interruptedPolls: seq<bool>
    var pipeFailures: seq<bool>
    ghost var tally: seq<Tally>
    /** The Signal objects whose lifetime has begun and not ended. */
    ghost var live: set<Signal>
    /** The live object that manages each slot. */
    ghost var owners: seq<Signal?>

    /** Holds at every small step. */
    ghost predicate Interruptible()
      reads this`slots, this`tally, this`handled
    {
      && |slots| == |handled| == |tally| == SIGNALS
      && forall i :: 0 <= i < SIGNALS ==> Sound(slots[i], tally[i])
    }

    /** Holds between operations. */
    ghost predicate Resting()
      reads this`slots, this`tally, this`handled
    {
      Interruptible() && forall i :: 0 <= i < SIGNALS ==> AtRest(slots[i], handled[i], i + 1 in refused)
    }

    predicate Ready(i: int)
      reads this`slots
    {
      0 <= i < |slots| && slots[i].ready
    }

    /** Slots are initialised exactly when they have a live owner, and then only one. */
    ghost predicate Valid()
      reads this, live
    {
      && Resting() && |slots| == |tally| == |owners| == SIGNALS
      && (forall s :: s in live ==> s.process == this && -1 <= s.index < SIGNALS)
      && (forall s :: s in live && s.index >= 0 ==> owners[s.index] == s)
      && (forall i :: 0 <= i < SIGNALS ==> (Ready(i) <==> owners[i] != null))
      && (forall i :: 0 <= i < SIGNALS && owners[i] != null ==> owners[i] in live && owners[i].index == i)
    }

    /** What that says about any two objects and any slot. */
    lemma OneOwnerEach()
      requires Valid()
      ensures forall s, t :: s in live && t in live && s.index == t.index >= 0 ==> s == t
      ensures forall i :: 0 <= i < SIGNALS ==> (Ready(i) <==> exists s :: s in live && s.index == i)
      ensures forall i :: 0 <= i < SIGNALS ==>
        (handled[i] <==> (exists s :: s in live && s.index == i) && i + 1 !in refused)
    {
      forall i | 0 <= i < SIGNALS
        ensures Ready(i) <==> exists s :: s in live && s.index == i
        ensures handled[i] <==> Ready(i) && i + 1 !in refused
      {
        assert AtRest(slots[i], handled[i], i + 1 in refused);
        if owners[i] != null { assert owners[i] in live; }
      }
    }

    /** At every small step no slot has reported more waits than signals that were delivered to it. */
    lemma WaitsNeverOutnumberDeliveries(i: nat)
      requires Interruptible() && i < SIGNALS
      ensures tally[i].trues <= tally[i].drained <= tally[i].delivered
    {
      assert Sound(slots[i], tally[i]);
    }

    constructor (refused: set<int>, schedule: seq<seq<int>>, interruptedPolls: seq<bool>, pipeFailures: seq<bool>)
      ensures Valid() && live == {} && this.schedule == schedule && this.refused == refused
    {
      this.refused := refused;
      slots := seq(SIGNALS, i => Slot(false, Absent, Absent, 0, false));
      handled := seq(SIGNALS, i => false);
      tally := seq(SIGNALS, i => Tally(0, 0, 0));
      this.schedule, this.interruptedPolls, this.pipeFailures := schedule, interruptedPolls, pipeFailures;
      live, owners := {}, seq(SIGNALS, i => null);
    }

    /** Signal::handler. The write is to an open descriptor, or not attempted. */
    method Handler(signum: int)
      requires Interruptible()
      modifies this`slots, this`tally
      ensures Interruptible()
      ensures AllOnlyDelivered(old(slots), old(tally), slots, tally)
      ensures forall i :: 0 <= i < SIGNALS ==>
        slots[i] == Reached(old(slots[i]), true, if i == signum - 1 then 1 else 0)
    {
      if signum < 1 || signum > SIGNALS {
        return;
      }
      var i := signum - 1;
      if !slots[i].ready {
        return;
      }
      if slots[i].writeEnd.Absent? {
        return;
      }
      assert slots[i].writeEnd.Open?;
      slots := slots[i := slots[i].(bytes := slots[i].bytes + 1)];
      tally := tally[i := tally[i].(delivered := tally[i].delivered + 1)];
    }

    /** The signals that arrive at this point. Under the default disposition the handler does not run. */
    method Interrupt()
      requires Interruptible()
      modifies this`slots, this`tally, this`schedule
      ensures Interruptible()
      ensures AllOnlyDelivered(old(slots), old(tally), slots, tally)
      // none is lost or invented: a byte for each signal whose handler is installed
      ensures forall i :: 0 <= i < SIGNALS ==>
        slots[i] == Reached(old(slots[i]), handled[i], Hits(Now(old(schedule)), i + 1))
      ensures schedule == After(old(schedule), 1)
      ensures old(schedule) == [] ==> slots == old(slots)
      ensures forall i :: 0 <= i < SIGNALS ==>
        slots[i].bytes + Total(schedule) <= old(slots[i].bytes) + Total(old(schedule))
    {
      hide AllOnlyDelivered, Sound;
      NothingDelivered(slots, tally);
      if schedule == [] {
        return;
      }
      var batch := schedule[0];
      schedule := schedule[1..];
      for k := 0 to |batch|
        invariant Interruptible() && schedule == old(schedule)[1..]
        invariant AllOnlyDelivered(old(slots), old(tally), slots, tally)
        invariant forall i :: 0 <= i < SIGNALS ==>
          slots[i] == Reached(old(slots[i]), handled[i], Hits(batch[..k], i + 1))
      {
        var signum := batch[k];
        assert batch[..k + 1][..k] == batch[..k];
        if 1 <= signum <= SIGNALS && handled[signum - 1] {
          ghost var s, t := slots, tally;
          Handler(signum);
          DeliveredBoth(old(slots), old(tally), s, t, slots, tally);
        }
      }
      assert batch[..|batch|] == batch;
      HitsAtMost(batch);
    }

    /** ::pipe(). */
    method PipeFails() returns (failed: bool)
      modifies this`pipeFailures
      ensures old(pipeFailures) == [] ==> !failed
    {
      failed := false;
      if pipeFailures != [] {
        failed := pipeFailures[0];
        pipeFailures := pipeFailures[1..];
      }
    }

    /** One statement about slot i, which becomes x, and the interruption point behind it. */
    method Step(i: nat, x: Slot, ghost y: Tally)
      requires i < SIGNALS && Interruptible() && Sound(x, y)
      modifies this`slots, this`tally, this`schedule
      ensures Interruptible()
      ensures OthersOnlyDelivered(old(slots), old(tally), slots, tally, i)
      ensures OnlyDelivered(x, y, slots[i], tally[i])
      ensures slots[i] == Reached(x, handled[i], Hits(Now(old(schedule)), i + 1))
      ensures schedule == After(old(schedule), 1)
    {
      hide Sound, Reached, Hits, OnlyDelivered, After, Now;
      slots := slots[i := x];
      tally := tally[i := y];
      ghost var s, t := slots, tally;
      Interrupt();
      Touched(old(slots), old(tally), i, x, y, slots, tally);
    }

    /** Assigning an empty Pipe to one end: it is closed first and forgotten afterwards. */
    method CloseReadEnd(i: nat)
      requires i < SIGNALS && Interruptible() && !slots[i].ready
      modifies this`slots, this`tally, this`schedule
      ensures Interruptible()
      ensures OthersOnlyDelivered(old(slots), old(tally), slots, tally, i)
      ensures slots[i] == old(slots[i]).(readEnd := Absent)
    {
      hide OthersOnlyDelivered;
      ghost var s, t := slots, tally;
      if slots[i].readEnd.Open? {
        Step(i, slots[i].(readEnd := Stale), tally[i]);
      } else {
        NothingDelivered(s, t);
      }
      ghost var s', t' := slots, tally;
      Step(i, slots[i].(readEnd := Absent), tally[i]);
      DeliveredElsewhere(s, t, s', t', slots, tally, i);
    }

    method CloseWriteEnd(i: nat)
      requires i < SIGNALS && Interruptible() && !slots[i].ready
      modifies this`slots, this`tally, this`schedule
      ensures Interruptible()
      ensures OthersOnlyDelivered(old(slots), old(tally), slots, tally, i)
      ensures slots[i] == old(slots[i]).(writeEnd := Absent)
    {
      hide OthersOnlyDelivered;
      ghost var s, t := slots, tally;
      if slots[i].writeEnd.Open? {
        Step(i, slots[i].(writeEnd := Stale), tally[i]);
      } else {
        NothingDelivered(s, t);
      }
      ghost var s', t' := slots, tally;
      Step(i, slots[i].(writeEnd := Absent), tally[i]);
      DeliveredElsewhere(s, t, s', t', slots, tally, i);
    }

    /** Giving a slot up, in the destructor and in move assignment: flag, pipe, disposition, in this order. */
    method Release(i: nat)
      requires i < SIGNALS && Interruptible()
      modifies this`slots, this`tally, this`schedule, this`handled
      ensures Interruptible()
      ensures OthersOnlyDelivered(old(slots), old(tally), slots, tally, i)
      ensures !slots[i].ready && slots[i].readEnd.Absent? && slots[i].writeEnd.Absent?
      ensures handled == old(handled)[i := false]
    {
      hide OthersOnlyDelivered;
      ghost var s0, t0 := slots, tally;
      Step(i, slots[i].(ready := false), tally[i]);
      ghost var s1, t1 := slots, tally;
      CloseReadEnd(i);
      ghost var s2, t2 := slots, tally;
      CloseWriteEnd(i);
      handled := handled[i := false];
      DeliveredElsewhere(s0, t0, s1, t1, s2, t2, i);
      DeliveredElsewhere(s0, t0, s2, t2, slots, tally, i);
    }

    /** notifier[i].pipe = Pipe::create(): the read end is assigned before the write end. */
    method InstallPipe(i: nat)
      requires i < SIGNALS && Interruptible()
      requires !slots[i].ready && slots[i].readEnd.Absent? && slots[i].writeEnd.Absent?
      modifies this`slots, this`tally, this`schedule, this`pipeFailures
      ensures Interruptible()
      ensures OthersOnlyDelivered(old(slots), old(tally), slots, tally, i)
      ensures slots[i] == Slot(false, Open, Open, 0, false) || slots[i] == Slot(false, Absent, Absent, 0, false)
      ensures tally[i] == Tally(0, 0, 0)
      ensures old(pipeFailures) == [] ==> slots[i].writeEnd.Open?
      ensures schedule == After(old(schedule), 2)
    {
      var failed := PipeFails();
      if failed {
        InstallEnds(i, Absent);
      } else {
        InstallEnds(i, Open);
      }
    }

    method InstallEnds(i: nat, end: End)
      requires i < SIGNALS && Interruptible() && !slots[i].ready
      modifies this`slots, this`tally, this`schedule
      ensures Interruptible()
      ensures OthersOnlyDelivered(old(slots), old(tally), slots, tally, i)
      ensures slots[i] == Slot(false, end, end, 0, false) && tally[i] == Tally(0, 0, 0)
      ensures schedule == After(old(schedule), 2)
    {
      hide OthersOnlyDelivered, OnlyDelivered, Sound, Reached, Hits, Now, After;
      ghost var s0, t0 := slots, tally;
      EmptySound(end, Absent);
      Step(i, Slot(false, end, Absent, 0, false), Tally(0, 0, 0));
      NotInUse(end, Absent, slots[i], tally[i]);
      ghost var s1, t1 := slots, tally;
      EmptySound(end, end);
      Step(i, Slot(false, end, end, 0, false), Tally(0, 0, 0));
      NotInUse(end, end, slots[i], tally[i]);
      AfterBoth(old(schedule), 1, 1);
      DeliveredElsewhere(s0, t0, s1, t1, slots, tally, i);
    }

    /** Taking a slot: pipe, flag, disposition, in this order. */
    method Acquire(i: nat)
      requires i < SIGNALS && Interruptible()
      requires !handled[i] && !slots[i].ready && slots[i].readEnd.Absent? && slots[i].writeEnd.Absent?
      modifies this`slots, this`tally, this`schedule, this`handled, this`pipeFailures
      ensures Interruptible()
      ensures OthersOnlyDelivered(old(slots), old(tally), slots, tally, i)
      ensures slots[i].ready && handled == old(handled)[i := i + 1 !in refused]
      // the new pipe starts empty: all it holds was delivered since
      ensures tally[i].drained == tally[i].trues == 0 && slots[i].bytes == tally[i].delivered
      // a signal that arrives before signal(2) has been called meets the default disposition and leaves nothing
      ensures slots[i].bytes == FirstBytes(slots[i], i + 1 in refused, Now(After(old(schedule), 3)), i + 1)
      ensures schedule == After(old(schedule), 4)
      ensures old(pipeFailures) == [] ==> slots[i].writeEnd.Open?
      ensures !slots[i].readEnd.Stale? && !slots[i].writeEnd.Stale?
    {
      hide OthersOnlyDelivered, Hits, Now, After;
      ghost var s0, t0 := slots, tally;
      InstallPipe(i);
      AfterBoth(old(schedule), 2, 1);
      AfterBoth(old(schedule), 3, 1);
      ghost var s1, t1 := slots, tally;
      Step(i, slots[i].(ready := true), tally[i]);
      ghost var s2, t2 := slots, tally;
      // the result of signal(2) is ignored
      handled := handled[i := i + 1 !in refused];
      Step(i, slots[i], tally[i]);
      DeliveredElsewhere(s0, t0, s1, t1, s2, t2, i);
      DeliveredElsewhere(s0, t0, s2, t2, slots, tally, i);
    }

    /** An interruption point between operations. */
    method Pause()
      requires Resting()
      modifies this`slots, this`tally, this`schedule
      ensures Resting() && forall i :: Ready(i) <==> old(Ready(i))
      ensures AllOnlyDelivered(old(slots), old(tally), slots, tally)
      ensures old(schedule) == [] ==> slots == old(slots)
      ensures schedule == After(old(schedule), 1)
    {
      Interrupt();
      RestElsewhere(old(slots), old(tally), slots, tally, handled, refused, -1);
    }

    /** The constructor's work on the table; nothing happens to a slot that is taken. */
    method Take(i: nat) returns (taken: bool)
      requires i < SIGNALS && Resting()
      modifies this`slots, this`tally, this`schedule, this`handled, this`pipeFailures
      ensures Resting()
      ensures taken <==> !old(Ready(i))
      ensures forall j :: Ready(j) <==> old(Ready(j)) || j == i
      ensures OthersOnlyDelivered(old(slots), old(tally), slots, tally, i)
      ensures !taken ==> AllOnlyDelivered(old(slots), old(tally), slots, tally)
      ensures taken ==> tally[i].drained == tally[i].trues == 0 && slots[i].bytes == tally[i].delivered
      ensures taken ==> slots[i].bytes == FirstBytes(slots[i], i + 1 in refused, Now(After(old(schedule), 4)), i + 1)
      ensures taken && old(pipeFailures) == [] ==> slots[i].writeEnd.Open?
    {
      Pause();
      if slots[i].ready {
        return false;
      }
      ghost var s, t, h := slots, tally, handled;
      AfterBoth(old(schedule), 1, 3);
      Acquire(i);
      RestElsewhere(s, t, slots, tally, h, refused, i);
      DeliveredElsewhere(old(slots), old(tally), s, t, slots, tally, i);
      return true;
    }

    /** The destructor's work on the table. */
    method Drop(i: nat)
      requires i < SIGNALS && Resting()
      modifies this`slots, this`tally, this`schedule, this`handled
      ensures Resting()
      ensures forall j :: Ready(j) <==> old(Ready(j)) && j != i
      ensures OthersOnlyDelivered(old(slots), old(tally), slots, tally, i)
    {
      Pause();
      if slots[i].ready {
        ghost var s, t, h := slots, tally, handled;
        Release(i);
        RestElsewhere(s, t, slots, tally, h, refused, i);
        DeliveredElsewhere(old(slots), old(tally), s, t, slots, tally, i);
      }
    }

    predicate NextPollInterrupted()
      reads this
    {
      interruptedPolls != [] && interruptedPolls[0]
    }

    /** File::wait_for_readable on the read end: EINTR makes it false whatever is in the pipe. */
    method PollReadable(i: nat) returns (readable: bool)
      requires i < SIGNALS && Resting()
      modifies this`slots, this`tally, this`schedule, this`interruptedPolls
      ensures Resting() && forall j :: Ready(j) <==> old(Ready(j))
      ensures AllOnlyDelivered(old(slots), old(tally), slots, tally)
      ensures readable <==> !old(NextPollInterrupted()) && slots[i].readEnd.Open? && slots[i].bytes > 0
      ensures old(schedule) == [] ==> schedule == [] && slots == old(slots)
    {
      Pause();
      var interrupted := interruptedPolls != [] && interruptedPolls[0];
      if interruptedPolls != [] {
        interruptedPolls := interruptedPolls[1..];
      }
      readable := !interrupted && slots[i].readEnd.Open? && slots[i].bytes > 0;
    }

    method WaitOn(i: nat) returns (r: bool, ghost atEagain: nat)
      requires i < SIGNALS && Resting()
      modifies this`slots, this`tally, this`schedule, this`interruptedPolls
      ensures Resting() && forall j :: Ready(j) <==> old(Ready(j))
      ensures OthersOnlyDelivered(old(slots), old(tally), slots, tally, i)
      ensures !r ==> OnlyDelivered(old(slots[i]), old(tally[i]), slots[i], tally[i])
      ensures r ==> Drained(old(slots[i]), old(tally[i]), atEagain, slots[i], tally[i])
      ensures old(NextPollInterrupted()) ==> !r
      ensures !old(NextPollInterrupted()) && old(Ready(i)) && old(slots[i].bytes) > 0 ==> r
      ensures old(schedule) == [] ==> (r ==> old(slots[i].bytes) > 0)
    {
      atEagain := 0;
      r := PollReadable(i);
      if r {
        ghost var s, t := slots, tally;
        atEagain := DrainReadEnd(i);
        DeliveredElsewhere(old(slots), old(tally), s, t, slots, tally, i);
        RestElsewhere(old(slots), old(tally), slots, tally, handled, refused, i);
      }
    }

    /** The draining part of wait, with the read end switched to non-blocking for it. */
    method DrainReadEnd(i: nat) returns (ghost atEagain: nat)
      requires i < SIGNALS && Interruptible()
      requires slots[i].readEnd.Open? && slots[i].bytes > 0
      modifies this`slots, this`tally, this`schedule
      ensures Interruptible()
      ensures OthersOnlyDelivered(old(slots), old(tally), slots, tally, i)
      ensures Drained(old(slots[i]), old(tally[i]), atEagain, slots[i], tally[i])
    {
      var wasNonblocking := slots[i].nonblocking;
      SetNonblocking(i, true);
      atEagain := ReadUntilEmpty(i);
      SetNonblocking(i, wasNonblocking);
      tally := tally[i := tally[i].(trues := tally[i].trues + 1)];
    }

    /** File::set_nonblocking on the read end. */
    method SetNonblocking(i: nat, status: bool)
      requires i < SIGNALS && Interruptible()
      modifies this`slots, this`tally, this`schedule
      ensures Interruptible()
      ensures OthersOnlyDelivered(old(slots), old(tally), slots, tally, i)
      ensures OnlyDelivered(old(slots[i]).(nonblocking := status), old(tally[i]), slots[i], tally[i])
    {
      Interrupt();
      assert OnlyDelivered(old(slots[i]), old(tally[i]), slots[i], tally[i]);
      slots := slots[i := slots[i].(nonblocking := status)];
    }

    /** The read loop, 64 bytes at a time, until EAGAIN. */
    method ReadUntilEmpty(i: nat) returns (ghost atEagain: nat)
      requires i < SIGNALS && Interruptible() && slots[i].bytes > 0
      // a blocking read end would hang on the last read
      requires slots[i].nonblocking
      modifies this`slots, this`tally, this`schedule
      ensures Interruptible()
      ensures OthersOnlyDelivered(old(slots), old(tally), slots, tally, i)
      ensures slots[i] == old(slots[i]).(bytes := 0)
      ensures old(tally[i]).delivered <= tally[i].delivered == tally[i].drained == atEagain
      ensures tally[i].drained > old(tally[i]).drained && tally[i].trues == old(tally[i]).trues
    {
      while true
        invariant Interruptible()
        invariant OthersOnlyDelivered(old(slots), old(tally), slots, tally, i)
        invariant slots[i] == old(slots[i]).(bytes := slots[i].bytes)
        invariant old(tally[i]).delivered <= tally[i].delivered && tally[i].trues == old(tally[i]).trues
        invariant tally[i].drained > old(tally[i]).drained ||
          (tally[i].drained == old(tally[i]).drained && slots[i].bytes > 0)
        decreases slots[i].bytes + Total(schedule)
      {
        ghost var s, t := slots, tally;
        Interrupt();
        DeliveredElsewhere(old(slots), old(tally), s, t, slots, tally, i);
        assert OnlyDelivered(s[i], t[i], slots[i], tally[i]);
        var n := if slots[i].bytes < 64 then slots[i].bytes else 64;
        if n == 0 {
          return tally[i].delivered;
        }
        slots := slots[i := slots[i].(bytes := slots[i].bytes - n)];
        tally := tally[i := tally[i].(drained := tally[i].drained + n)];
      }
    }
  }

  class Signal {
    const process: Process
    /** signum_: 0..31, or -1 when the object manages nothing. */
    var index: int

    /** The object before its constructor has run: New and MoveNew are the source's constructors. */
    constructor Blank(process: Process)
      ensures this.process == process && index == -1
    {
      this.process := process;
      index := -1;
    }

    /** Signal(int): throws, here null, for a bad number or one that is taken. */
    static method New(p: Process, signum: int) returns (r: Signal?)
      requires p.Valid()
      modifies p
      ensures p.Valid()
      ensures r == null <==> signum < 1 || signum > SIGNALS || old(p.Ready(signum - 1))
      ensures forall j :: p.Ready(j) <==> old(p.Ready(j)) || (r != null && j == signum - 1)
      ensures r == null ==> p.live == old(p.live)
      ensures r == null ==> AllOnlyDelivered(old(p.slots), old(p.tally), p.slots, p.tally)
      ensures r != null ==> fresh(r) && r.process == p && p.live == old(p.live) + {r} && r.index == signum - 1
      ensures r != null ==> OthersOnlyDelivered(old(p.slots), old(p.tally), p.slots, p.tally, signum - 1)
      // nothing is pending but what arrived after signal(2) was called, at the last of five interruption points
      ensures r != null ==>
        var s := p.slots[signum - 1];
        s.bytes == FirstBytes(s, signum in p.refused, Now(After(old(p.schedule), 4)), signum)
      ensures r != null && old(p.pipeFailures) == [] ==> p.slots[signum - 1].writeEnd.Open?
      ensures r != null ==> var t := p.tally[signum - 1];
        t.drained == t.trues == 0 && p.slots[signum - 1].bytes == t.delivered
    {
      hide OnlyDelivered, AtRest, Sound, Process.Interruptible, FirstBytes, Hits, Now, After;
      r := null;
      NothingDelivered(p.slots, p.tally);
      if signum < 1 || signum > SIGNALS {
        return;
      }
      var i := signum - 1;
      var taken := p.Take(i);
      if !taken {
        return;
      }
      r := new Signal.Blank(p);
      r.index := i;
      p.live := p.live + {r};
      p.owners := p.owners[i := r];
    }

    /** What the destructor and move assignment both begin with. */
    method Relinquish()
      requires process.Valid() && this in process.live
      modifies process, this
      ensures process.Valid() && process.live == old(process.live) && index == -1
      ensures forall j :: process.Ready(j) <==> old(process.Ready(j)) && j != old(index)
      ensures OthersOnlyDelivered(old(process.slots), old(process.tally), process.slots, process.tally, old(index))
    {
      hide OnlyDelivered, AtRest, Sound, Process.Interruptible;
      NothingDelivered(process.slots, process.tally);
      if 0 <= index < SIGNALS {
        process.Drop(index);
        process.owners := process.owners[index := null];
      }
      index := -1;
    }

    /** ~Signal(). */
    method Destroy()
      requires process.Valid() && this in process.live
      modifies process, this
      ensures process.Valid()
      ensures process.live == old(process.live) - {this} && index == -1
      ensures forall j :: process.Ready(j) <==> old(process.Ready(j)) && j != old(index)
      ensures OthersOnlyDelivered(old(process.slots), old(process.tally), process.slots, process.tally, old(index))
    {
      Relinquish();
      process.live := process.live - {this};
    }

    /** Signal(Signal &&). */
    static method MoveNew(other: Signal) returns (r: Signal)
      requires other.process.Valid() && other in other.process.live
      modifies other.process, other
      ensures other.process.Valid() && r.process == other.process
      ensures fresh(r) && r.process.live == old(other.process.live) + {r}
      ensures r.index == old(other.index) && other.index == -1
      ensures forall j :: r.process.Ready(j) <==> old(other.process.Ready(j))
      ensures AllOnlyDelivered(old(other.process.slots), old(other.process.tally), r.process.slots, r.process.tally)
    {
      hide OnlyDelivered, AtRest, Sound, Process.Interruptible;
      other.process.Pause();
      r := new Signal.Blank(other.process);
      r.index, other.index := other.index, r.index;
      if r.index >= 0 {
        r.process.owners := r.process.owners[r.index := r];
      }
      other.process.live := other.process.live + {r};
    }

    /** operator=(Signal &&), also when both sides are the same object. */
    method MoveAssign(other: Signal)
      requires process == other.process && process.Valid() && this in process.live && other in process.live
      modifies process, this, other
      ensures process.Valid() && process.live == old(process.live)
      ensures this != other ==> index == old(other.index) && other.index == -1
      ensures this == other ==> index == -1
      ensures forall j :: process.Ready(j) <==> old(process.Ready(j)) && j != old(index)
      ensures OthersOnlyDelivered(old(process.slots), old(process.tally), process.slots, process.tally, old(index))
    {
      hide OnlyDelivered, AtRest, Sound, OthersOnlyDelivered, Process.Interruptible;
      Relinquish();
      if this != other {
        index, other.index := other.index, index;
        if index >= 0 {
          process.owners := process.owners[index := this];
        }
      }
    }

    /** Signal::wait. The kernel may interrupt poll; reads fail only with EAGAIN. */
    method Wait() returns (r: bool, ghost atEagain: nat)
      requires process.Valid() && this in process.live
      modifies process
      ensures process.Valid() && process.live == old(process.live)
      ensures forall j :: process.Ready(j) <==> old(process.Ready(j))
      ensures OthersOnlyDelivered(old(process.slots), old(process.tally), process.slots, process.tally, index)
      ensures index < 0 ==> !r
      // a false wait takes nothing
      ensures !r && index >= 0 ==>
        OnlyDelivered(old(process.slots[index]), old(process.tally[index]), process.slots[index], process.tally[index])
      // a true wait takes everything delivered before its last read, and leaves what came later
      ensures r ==> index >= 0 && Drained(old(process.slots[index]), old(process.tally[index]), atEagain,
                                          process.slots[index], process.tally[index])
      // a pending byte is reported unless poll is interrupted, and nothing else is
      ensures index >= 0 && old(process.slots[index].bytes) > 0 ==> (r <==> !old(process.NextPollInterrupted()))
      ensures old(process.NextPollInterrupted()) ==> !r
      ensures index >= 0 && old(process.schedule) == [] ==> (r ==> old(process.slots[index].bytes) > 0)
    {
      hide AtRest;
      atEagain := 0;
      NothingDelivered(process.slots, process.tally);
      if index < 0 || index >= SIGNALS {
        return false, 0;
      }
      if !process.slots[index].ready {
        return false, 0;
      }
      r, atEagain := process.WaitOn(index);
    }
  }

  const SIGKILL: int := 9

  /** Managing a signal that cannot be caught succeeds all the same, and leaves the object without a handler. */
  method ManageKill(refused: set<int>) returns (p: Process, s: Signal?)
    requires SIGKILL in refused
    ensures fresh(p) && p.Valid() && s != null && s in p.live && s.index == SIGKILL - 1
    ensures p.Ready(SIGKILL - 1) && !p.handled[SIGKILL - 1]
  {
    p := new Process(refused, [], [], []);
    s := Signal.New(p, SIGKILL);
    assert AtRest(p.slots[SIGKILL - 1], p.handled[SIGKILL - 1], SIGKILL in p.refused);
  }

  /** Anything a program can do with Signal objects; objects are named by position. */
  datatype Op =
    | Construct(signum: int)
    | Destruct(k: nat)
    | MoveConstruct(k: nat)
    | MoveTo(k: nat, from: nat)
    | WaitFor(k: nat)

  /** Every program, under every schedule of signals, keeps the ownership invariant after each operation. */
  method RunProgram(ops: seq<Op>, refused: set<int>, schedule: seq<seq<int>>, interruptedPolls: seq<bool>,
                    pipeFailures: seq<bool>)
    returns (p: Process, objects: seq<Signal>)
    ensures fresh(p) && p.Valid()
    ensures forall s :: s in p.live <==> s in objects
  {
    p := new Process(refused, schedule, interruptedPolls, pipeFailures);
    objects := [];
    for n := 0 to |ops|
      invariant fresh(p) && p.Valid() && forall s :: s in p.live ==> fresh(s)
      invariant forall s :: s in p.live <==> s in objects
      invariant forall a, b :: 0 <= a < b < |objects| ==> objects[a] != objects[b]
    {
      match ops[n]
      case Construct(signum) =>
        var s := Signal.New(p, signum);
        if s != null { objects := objects + [s]; }
      case Destruct(k) =>
        if k < |objects| {
          assert objects[k] in p.live;
          objects[k].Destroy();
          objects := objects[..k] + objects[k + 1..];
        }
      case MoveConstruct(k) =>
        if k < |objects| {
          assert objects[k] in p.live;
          var s := Signal.MoveNew(objects[k]);
          objects := objects + [s];
        }
      case MoveTo(k, from) =>
        if k < |objects| && from < |objects| {
          assert objects[k] in p.live && objects[from] in p.live;
          objects[k].MoveAssign(objects[from]);
        }
      case WaitFor(k) =>
        if k < |objects| {
          assert objects[k] in p.live;
          var r, at := objects[k].Wait();
        }
    }
  }
}
