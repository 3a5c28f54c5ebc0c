/**
 * Everything outside the two loops: the IO objects, the notification, the
 * motor board and the clock. What the environment will do is a finite script
 * that can be any script at all; what has happened is a journal, in the order
 * in which it happened.
 */
module Environment {
  import opened Bytes
  import opened Messages

  type Chunk = s: seq<Byte> | |s| > 0 witness [0]

  datatype Errno = EINTR | EAGAIN | EIO

  /** One outcome of read(): bytes that are there, or -1 and errno. After the last one read() returns 0. */
  datatype Arrival = Data(bytes: Chunk) | Trouble(errno: Errno)

  /** One outcome of write(): at most so many bytes accepted, or -1 and errno. After the last one all is accepted. */
  datatype Acceptance = Accept(most: nat) | Refuse(errno: Errno)

  datatype Action =
    | Polled(fired: bool)
    | Got(input: seq<Byte>)
    // a read that would block, and a wait that ended without input
    | Blocked
    | TimedOut
    | Sent(output: seq<Byte>)
    | ReadClock(ns: int)
    | Drove(cmd: Command)

  // ----- the journal -----

  function Init<T>(s: seq<T>): seq<T>
    requires s != []
  {
    s[..|s| - 1]
  }

  function Last<T>(s: seq<T>): T
    requires s != []
  {
    s[|s| - 1]
  }

  function Input(log: seq<Action>): seq<Byte> {
    if log == [] then [] else Input(Init(log)) + match Last(log) { case Got(b) => b case _ => [] }
  }

  function Output(log: seq<Action>): seq<Byte> {
    if log == [] then [] else Output(Init(log)) + match Last(log) { case Sent(b) => b case _ => [] }
  }

  function Stamps(log: seq<Action>): seq<int> {
    if log == [] then [] else Stamps(Init(log)) + match Last(log) { case ReadClock(t) => [t] case _ => [] }
  }

  function Drives(log: seq<Action>): seq<Command> {
    if log == [] then [] else Drives(Init(log)) + match Last(log) { case Drove(c) => [c] case _ => [] }
  }

  function Polls(log: seq<Action>): nat {
    if log == [] then 0 else Polls(Init(log)) + (if Last(log).Polled? then 1 else 0)
  }

  function Blocks(log: seq<Action>): nat {
    if log == [] then 0 else Blocks(Init(log)) + (if Last(log).Blocked? then 1 else 0)
  }

  function Timeouts(log: seq<Action>): nat {
    if log == [] then 0 else Timeouts(Init(log)) + (if Last(log).TimedOut? then 1 else 0)
  }

  predicate Unnotified(log: seq<Action>) {
    Polled(true) !in log
  }

  /** One more journal entry. */
  lemma Extend(log: seq<Action>, a: Action)
    ensures Init(log + [a]) == log && Last(log + [a]) == a
    ensures Input(log + [a]) == if a.Got? then Input(log) + a.input else Input(log)
    ensures Output(log + [a]) == if a.Sent? then Output(log) + a.output else Output(log)
    ensures Stamps(log + [a]) == if a.ReadClock? then Stamps(log) + [a.ns] else Stamps(log)
    ensures Drives(log + [a]) == if a.Drove? then Drives(log) + [a.cmd] else Drives(log)
    ensures Unnotified(log) && a != Polled(true) ==> Unnotified(log + [a])
  {
    assert Init(log + [a]) == log;
  }

  lemma ExtendCounts(log: seq<Action>, a: Action)
    ensures Polls(log + [a]) == Polls(log) + (if a.Polled? then 1 else 0)
    ensures Blocks(log + [a]) == Blocks(log) + (if a.Blocked? then 1 else 0)
    ensures Timeouts(log + [a]) == Timeouts(log) + (if a.TimedOut? then 1 else 0)
  {
    assert Init(log + [a]) == log;
  }

  // ----- the script -----

  /** All the bytes that read() has still to deliver. */
  function Stream(events: seq<Arrival>): seq<Byte> {
    if events == [] then [] else
      match events[0]
      case Data(b) => b + Stream(events[1..])
      case Trouble(_) => Stream(events[1..])
  }

  predicate Faultless(events: seq<Arrival>) {
    Trouble(EIO) !in events
  }

  class World {
    var events: seq<Arrival>
    var readable: seq<bool>
    var polls: seq<bool>
    var accepts: seq<Acceptance>
    var clock: seq<int>
    /** Whether spin was given a notification object at all. */
    const notified: bool
    ghost var log: seq<Action>

    constructor (events: seq<Arrival>, readable: seq<bool>, polls: seq<bool>, accepts: seq<Acceptance>,
                 clock: seq<int>, notified: bool)
      ensures this.events == events && this.readable == readable && this.polls == polls
      ensures this.accepts == accepts && this.clock == clock && this.notified == notified
      ensures log == []
    {
      this.events, this.readable, this.polls := events, readable, polls;
      this.accepts, this.clock, this.notified := accepts, clock, notified;
      log := [];
    }

    /** No poll can ever report the notification. */
    ghost predicate Silent()
      reads this
    {
      !notified || true !in polls
    }

    /** IO::read into buf[at..at + n]. */
    method Read(buf: array<Byte>, at: nat, n: nat) returns (r: int, errno: Errno)
      requires 0 < n && at + n <= buf.Length
      modifies this`events, this`log, buf
      ensures -1 <= r <= n
      ensures r > 0 ==> log == old(log) + [Got(buf[at..at + r])]
      ensures r > 0 ==> Stream(old(events)) == buf[at..at + r] + Stream(events)
      ensures buf[..at] == old(buf[..at])
      ensures r <= 0 ==> Stream(old(events)) == Stream(events)
      ensures r <= 0 ==> log == if r < 0 && errno == EAGAIN then old(log) + [Blocked] else old(log)
      ensures r == 0 ==> events == []
      ensures r < 0 ==> old(events) != [] && old(events)[0] == Trouble(errno) && events == old(events)[1..]
      ensures |events| <= |old(events)|
      ensures Faultless(old(events)) ==> Faultless(events)
    {
      errno := EIO;
      if events == [] {
        return 0, errno;
      }
      match events[0]
      case Trouble(e) =>
        events := events[1..];
        if e == EAGAIN {
          log := log + [Blocked];
        }
        return -1, e;
      case Data(bytes) =>
        var m := if |bytes| <= n then |bytes| else n;
        for i := 0 to m
          modifies buf
          invariant forall k :: 0 <= k < i ==> buf[at + k] == bytes[k]
          invariant forall k :: 0 <= k < buf.Length && !(at <= k < at + i) ==> buf[k] == old(buf[k])
        {
          buf[at + i] := bytes[i];
        }
        assert buf[at..at + m] == bytes[..m];
        log := log + [Got(bytes[..m])];
        if m < |bytes| {
          ghost var was := events;
          events := [Data(bytes[m..])] + events[1..];
          assert events[1..] == was[1..];
          assert bytes == bytes[..m] + bytes[m..];
          assert bytes + Stream(was[1..]) == bytes[..m] + (bytes[m..] + Stream(was[1..]));
        } else {
          assert bytes[..m] == bytes;
          events := events[1..];
        }
        return m, errno;
    }

    /** IO::wait_for_readable. */
    method WaitForReadable() returns (ready: bool)
      modifies this`readable, this`log
      ensures log == if ready then old(log) else old(log) + [TimedOut]
      ensures old(readable) == [] ==> ready && readable == []
      ensures old(readable) != [] ==> ready == old(readable)[0] && readable == old(readable)[1..]
    {
      if readable == [] {
        return true;
      }
      ready := readable[0];
      readable := readable[1..];
      if !ready {
        log := log + [TimedOut];
      }
    }

    /** notif != nullptr && notif->wait(0): consumes the notification when it returns true. */
    method NotifReady() returns (fired: bool)
      modifies this`polls, this`log
      ensures log == if notified then old(log) + [Polled(fired)] else old(log)
      ensures old(Silent()) ==> !fired && Silent()
      ensures |polls| <= |old(polls)|
    {
      fired := false;
      if notified {
        if polls != [] {
          fired := polls[0];
          polls := polls[1..];
        }
        log := log + [Polled(fired)];
      }
    }

    /** IO::write of src[at..at + n]. */
    method Write(src: array<Byte>, at: nat, n: nat) returns (w: int, errno: Errno)
      requires 0 < n && at + n <= src.Length
      modifies this`accepts, this`log
      ensures -1 <= w <= n
      ensures w > 0 ==> log == old(log) + [Sent(src[at..at + w])]
      ensures w <= 0 ==> log == old(log) && old(accepts) != []
      ensures accepts == if old(accepts) == [] then [] else old(accepts)[1..]
      ensures w == 0 ==> old(accepts)[0] == Accept(0)
      ensures w < 0 ==> old(accepts)[0] == Refuse(errno)
    {
      errno := EIO;
      if accepts == [] {
        w := n;
      } else {
        match accepts[0] {
          case Refuse(e) => w, errno := -1, e;
          case Accept(most) => w := if most <= n then most else n;
        }
        accepts := accepts[1..];
      }
      if w > 0 {
        log := log + [Sent(src[at..at + w])];
      }
    }

    /** Time::now(). */
    method Now() returns (ns: int)
      modifies this`clock, this`log
      ensures log == old(log) + [ReadClock(ns)]
    {
      ns := 0;
      if clock != [] {
        ns := clock[0];
        clock := clock[1..];
      }
      log := log + [ReadClock(ns)];
    }

    /** MBotBase::drive. */
    method Drive(cmd: Command)
      modifies this`log
      ensures log == old(log) + [Drove(cmd)]
    {
      log := log + [Drove(cmd)];
    }
  }
}
