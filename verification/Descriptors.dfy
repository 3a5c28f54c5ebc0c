/**
 * Descriptor ownership of File, Pipe and Fifo (src/rix/ipc) over a kernel
 * descriptor table: every descriptor above 0 that a wrapper obtained has
 * exactly one live owner until it is closed, which happens exactly once.
 */
module Descriptors {

  /** The descriptor that the next open(2) or dup(2) returns, or -1: any number not in use will do. */
  function Granted(grants: seq<int>, open: set<int>): (fd: int)
    ensures fd == -1 || (fd >= 0 && fd !in open)
  {
    if grants != [] && grants[0] >= 0 && grants[0] !in open then grants[0] else -1
  }

  function Rest(grants: seq<int>): seq<int> {
    if grants == [] then [] else grants[1..]
  }

  function GrantedPair(grants: seq<int>, open: set<int>): (int, int) {
    var r, w := Granted(grants, open), Granted(Rest(grants), open);
    if r == -1 || w == -1 || r == w then (-1, -1) else (r, w)
  }

  /** The descriptor table after a descriptor was handed out, or, with -1, was not. */
  function With(open: set<int>, fd: int): set<int> {
    if fd == -1 then open else open + {fd}
  }

  /** The descriptor table after close, which the code does only for positive descriptors. */
  function Without(open: set<int>, fd: int): set<int> {
    if fd > 0 then open - {fd} else open
  }

  /** Every open descriptor is either foreign or owned by a wrapper. */
  ghost predicate Accounts(open: set<int>, foreign: set<int>, owner: map<int, File>) {
    && 0 in foreign
    && (forall d :: d in open <==> d in foreign || d in owner)
    && (forall d :: d in owner ==> d !in foreign)
  }

  lemma AccountsGranted(open: set<int>, foreign: set<int>, owner: map<int, File>, fd: int)
    requires Accounts(open, foreign, owner) && fd !in open
    ensures Accounts(open + {fd}, foreign + {fd}, owner) && fd !in foreign && foreign + {fd} - {fd} == foreign
  {
  }

  lemma AccountsOwned(open: set<int>, foreign: set<int>, owner: map<int, File>, fd: int, f: File)
    requires Accounts(open, foreign, owner) && fd in foreign && fd != 0
    ensures Accounts(open, foreign - {fd}, owner[fd := f]) && fd !in owner
  {
  }

  lemma AccountsClosed(open: set<int>, foreign: set<int>, owner: map<int, File>, fd: int)
    requires Accounts(open, foreign, owner) && fd in owner
    ensures fd in open && Accounts(open - {fd}, foreign, owner - {fd})
  {
  }

  lemma AccountsMeaning(open: set<int>, foreign: set<int>, owner: map<int, File>)
    requires Accounts(open, foreign, owner)
    ensures 0 in open && foreign <= open
    ensures forall d :: d in open <==> d in foreign || d in owner
    ensures forall d :: d in owner ==> d !in foreign
    ensures owner == map[] ==> open == foreign
  {
    assert forall d :: d in foreign ==> d in open;
  }

  lemma AccountsRenamed(open: set<int>, foreign: set<int>, owner: map<int, File>, owner': map<int, File>)
    requires Accounts(open, foreign, owner) && owner'.Keys == owner.Keys
    ensures Accounts(open, foreign, owner')
  {
    assert forall d :: d in owner' <==> d in owner'.Keys;
  }

  class Kernel {
    var open: set<int>
    /** Descriptors that open, dup and pipe will hand out; one that is taken or negative means failure. */
    var grants: seq<int>
    /** The live File objects and Pipe and Fifo bases, and which of them owns each wrapped descriptor. */
    ghost var live: set<File>
    ghost var owner: map<int, File>
    /** The open descriptors that no wrapper owns; 0 stays among them, so the kernel never hands it to a wrapper. */
    ghost var foreign: set<int>
    /** Descriptors handed out and closed so far, and how many were open at first. */
    ghost var granted: nat
    ghost var closed: nat
    ghost const base: nat

    /** Live objects and their descriptors correspond. */
    ghost predicate Linked()
      reads this`live, this`owner, live
    {
      && (forall f :: f in live ==> f.kernel == this && (f.fd > 0 ==> f.fd in owner && owner[f.fd] == f))
      && (forall d :: d in owner ==> d > 0 && owner[d] in live && owner[d].fd == d)
    }

    ghost predicate Accounted()
      reads this`open, this`foreign, this`owner
    {
      Accounts(open, foreign, owner)
    }

    /** The calls so far add up. */
    ghost predicate Counted()
      reads this`open, this`granted, this`closed
    {
      base + granted == |open| + closed
    }

    ghost predicate Valid()
      reads this, live
    {
      Linked() && Accounted() && Counted()
    }

    /** What that says: owners are unique, and the open descriptors are theirs and the foreign ones. */
    lemma Linear()
      requires Valid()
      ensures forall f, g :: f in live && g in live && f.fd == g.fd > 0 ==> f == g
      ensures forall f :: f in live && f.fd > 0 ==> f.fd in open
      ensures forall d :: d in owner <==> exists f :: f in live && f.fd == d > 0
      ensures forall d :: d in open && d !in foreign ==> exists f :: f in live && f.fd == d
    {
      hide Accounts, Kernel.Counted;
      AccountsMeaning(open, foreign, owner);
      forall d | d in owner
        ensures exists f :: f in live && f.fd == d > 0
      {
        assert owner[d] in live;
      }
    }

    /** With no object left, all that is open is foreign. */
    lemma OwnedMeansLive()
      requires Valid()
      ensures owner != map[] ==> live != {}
      ensures live == {} ==> open == foreign
    {
      hide Accounts, Kernel.Counted;
      AccountsMeaning(open, foreign, owner);
      if live == {} {
        assert forall d :: d !in owner;
        assert owner == map[];
      }
    }

    constructor (open: set<int>, grants: seq<int>)
      requires 0 in open
      ensures Valid() && live == {} && owner == map[] && this.open == open && this.grants == grants
      ensures foreign == open && granted == closed == 0 && base == |open|
    {
      this.open, this.grants, foreign, base := open, grants, open, |open|;
      live, owner, granted, closed := {}, map[], 0, 0;
    }

    /** A descriptor handed out by the kernel is at first foreign. */
    method HandOut(fd: int)
      requires Valid() && fd !in open
      modifies this`open, this`foreign, this`granted
      ensures Valid() && open == old(open) + {fd}
      ensures foreign == old(foreign) + {fd} && foreign - {fd} == old(foreign)
    {
      hide Linked, Accounts;
      AccountsGranted(open, foreign, owner, fd);
      open, foreign, granted := open + {fd}, foreign + {fd}, granted + 1;
    }

    /** open(2) and, when its argument is open, dup(2). */
    method Grant() returns (fd: int)
      requires Valid()
      modifies this`open, this`grants, this`foreign, this`granted
      ensures Valid()
      ensures fd == Granted(old(grants), old(open)) && (fd == -1 || fd > 0)
      ensures open == With(old(open), fd) && grants == Rest(old(grants))
      ensures fd == -1 ==> foreign == old(foreign)
      ensures fd > 0 ==> fd in foreign && foreign - {fd} == old(foreign)
    {
      hide Linked, Accounts, Counted;
      fd := Granted(grants, open);
      grants := Rest(grants);
      AccountsMeaning(open, foreign, owner);
      if fd != -1 {
        HandOut(fd);
      }
    }

    /** pipe(2): two new descriptors or none. */
    method GrantPair() returns (r: int, w: int)
      requires Valid()
      modifies this`open, this`grants, this`foreign, this`granted
      ensures Valid()
      ensures (r, w) == GrantedPair(old(grants), old(open))
      ensures open == With(With(old(open), r), w)
      ensures r == -1 ==> w == -1 && foreign == old(foreign)
      ensures r != -1 ==> r > 0 && w > 0 && r != w && foreign == old(foreign) + {r} + {w}
      ensures r != -1 ==> r !in old(foreign) && w !in old(foreign)
    {
      hide Linked, Accounts, Counted;
      var ends := GrantedPair(grants, open);
      r, w := ends.0, ends.1;
      grants := Rest(Rest(grants));
      AccountsMeaning(open, foreign, owner);
      if r != -1 {
        HandOut(r);
        HandOut(w);
      }
    }

    /** close(2). */
    method Close(fd: int)
      requires Counted() && fd in open
      modifies this`open, this`closed
      ensures open == old(open) - {fd} && Counted()
    {
      open, closed := open - {fd}, closed + 1;
    }
  }

  /** The owners after two objects have exchanged their descriptors. */
  ghost function Exchanged(owner: map<int, File>, a: File, b: File): (r: map<int, File>)
    ensures r.Keys == owner.Keys
  {
    map d <- owner :: if owner[d] == a then b else if owner[d] == b then a else owner[d]
  }

  /** Whether a copy of a File with descriptor fd keeps ownership linear, given what the new object's memory held. */
  predicate CopySafe(fd: int, garbage: int) {
    fd >= 0 || garbage <= 0
  }

  /** What a caller can rely on: a copy is safe whatever was in the memory if and only if the source is valid. */
  lemma CopySafeIff(fd: int)
    ensures (forall garbage :: CopySafe(fd, garbage)) <==> fd >= 0
  {
    assert CopySafe(fd, 1) <==> fd >= 0;
  }

  class File {
    const kernel: Kernel
    /** fd_ */
    var fd: int

    // ----- construction -----

    /** File(). */
    constructor Empty(kernel: Kernel)
      requires kernel.Valid()
      modifies kernel
      ensures kernel.Valid() && this.kernel == kernel && fd == -1
      ensures kernel.live == old(kernel.live) + {this} && kernel.open == old(kernel.open)
      ensures kernel.grants == old(kernel.grants)
      ensures kernel.foreign == old(kernel.foreign)
    {
      hide Accounts, Kernel.Counted;
      this.kernel, fd := kernel, -1;
      new;
      kernel.live := kernel.live + {this};
    }

    /**
     * File(int): adopts a descriptor, whatever it is. Ownership survives exactly
     * when it is an open one that is nobody else's, or not positive; one that
     * another object owns then has two owners, and is closed twice.
     */
    constructor Adopt(kernel: Kernel, fd: int)
      requires kernel.Valid()
      modifies kernel
      ensures this.kernel == kernel && this.fd == fd
      ensures kernel.Valid() <==> fd <= 0 || fd in old(kernel.foreign)
      ensures fd > 0 && fd in old(kernel.owner) ==>
        var owner := old(kernel.owner)[fd]; owner in kernel.live && owner != this && owner.fd == fd
      ensures kernel.live == old(kernel.live) + {this} && kernel.open == old(kernel.open)
      ensures kernel.owner ==
        if fd > 0 && fd in old(kernel.foreign) then old(kernel.owner)[fd := this] else old(kernel.owner)
      ensures kernel.foreign == if fd > 0 then old(kernel.foreign) - {fd} else old(kernel.foreign)
    {
      hide Accounts, Kernel.Counted;
      this.kernel, this.fd := kernel, fd;
      new;
      kernel.live := kernel.live + {this};
      AccountsMeaning(kernel.open, kernel.foreign, kernel.owner);
      if fd > 0 && fd in kernel.foreign {
        AccountsOwned(kernel.open, kernel.foreign, kernel.owner, fd, this);
        kernel.owner, kernel.foreign := kernel.owner[fd := this], kernel.foreign - {fd};
      }
    }

    /** File(pathname, flags, mode). */
    constructor Open(kernel: Kernel)
      requires kernel.Valid()
      modifies kernel
      ensures kernel.Valid() && this.kernel == kernel
      ensures fd == Granted(old(kernel.grants), old(kernel.open)) && fd != 0
      ensures kernel.live == old(kernel.live) + {this} && kernel.open == With(old(kernel.open), fd)
      ensures kernel.foreign == old(kernel.foreign)
    {
      hide Accounts, Kernel.Counted;
      this.kernel, fd := kernel, -1;
      new;
      kernel.live := kernel.live + {this};
      AccountsMeaning(kernel.open, kernel.foreign, kernel.owner);
      Obtain(0);
    }

    /**
     * File(const File &). When the source is invalid the code leaves fd_
     * unset; `garbage` is what the memory held, which may well be a descriptor
     * that another object owns: it then has two owners, and is closed twice.
     */
    constructor Copy(src: File, garbage: int)
      requires src.kernel.Valid() && src in src.kernel.live
      modifies src.kernel
      ensures kernel == src.kernel && kernel.live == old(src.kernel.live) + {this}
      ensures kernel.Valid() <==> CopySafe(src.fd, garbage)
      ensures src.fd < 0 && garbage in src.kernel.owner ==>
        var owner := src.kernel.owner[garbage]; owner in kernel.live && owner != this && owner.fd == fd
      ensures src.fd >= 0 ==> fd == Granted(old(src.kernel.grants), old(src.kernel.open)) && fd != 0
      ensures src.fd >= 0 ==> src.kernel.open == With(old(src.kernel.open), fd)
      ensures src.fd < 0 ==> fd == garbage && src.kernel.open == old(src.kernel.open)
      ensures src.kernel.foreign == old(src.kernel.foreign)
    {
      hide Accounts, Kernel.Counted;
      kernel, fd := src.kernel, if src.fd >= 0 then -1 else garbage;
      new;
      kernel.live := kernel.live + {this};
      if src.fd >= 0 {
        AccountsMeaning(kernel.open, kernel.foreign, kernel.owner);
        Obtain(src.fd);
      }
    }

    /** File(File &&). */
    constructor Move(src: File)
      requires src.kernel.Valid() && src in src.kernel.live
      modifies src.kernel, src
      ensures kernel == src.kernel && kernel.Valid() && kernel.live == old(src.kernel.live) + {this}
      ensures fd == old(src.fd) && src.fd == -1 && src.kernel.open == old(src.kernel.open)
      ensures src.kernel.foreign == old(src.kernel.foreign)
    {
      hide Accounts, Kernel.Counted;
      kernel, fd := src.kernel, -1;
      new;
      kernel.live := kernel.live + {this};
      SwapWith(src);
    }

    // ----- assignment and destruction -----

    /** operator=(const File &). */
    method Assign(src: File)
      requires kernel == src.kernel && kernel.Valid() && this in kernel.live && src in kernel.live
      modifies kernel, this
      ensures kernel.Valid() && kernel.live == old(kernel.live)
      ensures src == this ==> fd == old(fd) && kernel.open == old(kernel.open)
      ensures src != this ==> src.fd == old(src.fd)
      ensures src != this && src.fd < 0 ==> fd == -1
      ensures src != this && src.fd >= 0 ==>
        fd == Granted(old(kernel.grants), Without(old(kernel.open), old(fd))) && fd != 0
      ensures src != this ==> kernel.open == With(Without(old(kernel.open), old(fd)), fd)
      ensures kernel.foreign == old(kernel.foreign)
    {
      hide Accounts, Kernel.Counted;
      if this == src {
        return;
      }
      Abandon();
      if src.fd >= 0 {
        fd := -1;
        AccountsMeaning(kernel.open, kernel.foreign, kernel.owner);
        Obtain(src.fd);
      } else {
        fd := -1;
      }
    }

    /** operator=(File &&): the source keeps only what this object had and could not close. */
    method MoveAssign(src: File)
      requires kernel == src.kernel && kernel.Valid() && this in kernel.live && src in kernel.live
      modifies kernel, this, src
      ensures kernel.Valid() && kernel.live == old(kernel.live)
      ensures kernel.open == Without(old(kernel.open), old(fd))
      ensures src.fd <= 0
      ensures src != this ==> fd == old(src.fd) && src.fd == if old(fd) > 0 then -1 else old(fd)
      ensures src == this ==> fd == if old(fd) > 0 then -1 else old(fd)
      ensures kernel.foreign == old(kernel.foreign)
    {
      hide Accounts, Kernel.Counted;
      Abandon();
      SwapWith(src);
    }

    /** ~File(). */
    method Destroy()
      requires kernel.Valid() && this in kernel.live
      modifies kernel, this
      ensures kernel.Valid() && kernel.live == old(kernel.live) - {this}
      ensures kernel.open == Without(old(kernel.open), old(fd))
      ensures kernel.foreign == old(kernel.foreign)
    {
      hide Accounts, Kernel.Counted;
      Abandon();
      kernel.live := kernel.live - {this};
    }

    // ----- the two things that change ownership -----

    /** fd_ takes a descriptor that was just obtained, or -1. */
    method Obtain(source: int)
      requires kernel.Valid() && this in kernel.live && fd <= 0
      modifies kernel, this
      ensures kernel.Valid() && kernel.live == old(kernel.live)
      ensures fd == if source in old(kernel.open) then Granted(old(kernel.grants), old(kernel.open)) else -1
      ensures fd != 0 && kernel.open == With(old(kernel.open), fd)
      ensures kernel.foreign == old(kernel.foreign)
    {
      hide Accounts, Kernel.Counted;
      fd := -1;
      if source in kernel.open {
        var d := kernel.Grant();
        fd := d;
        if d > 0 {
          AccountsOwned(kernel.open, kernel.foreign, kernel.owner, d, this);
          kernel.owner, kernel.foreign := kernel.owner[d := this], kernel.foreign - {d};
        }
      }
    }

    /** if (fd_ > 0) { close(fd_); fd_ = -1; } */
    method Abandon()
      requires kernel.Valid() && this in kernel.live
      modifies kernel, this
      ensures kernel.Valid() && kernel.live == old(kernel.live)
      ensures fd == if old(fd) > 0 then -1 else old(fd)
      ensures kernel.open == Without(old(kernel.open), old(fd)) && kernel.grants == old(kernel.grants)
      ensures kernel.foreign == old(kernel.foreign)
    {
      hide Accounts, Kernel.Counted;
      if fd > 0 {
        AccountsClosed(kernel.open, kernel.foreign, kernel.owner, fd);
        kernel.Close(fd);
        kernel.owner := kernel.owner - {fd};
        fd := -1;
      }
    }

    /** std::swap(fd_, src.fd_), also of an object with itself. */
    method SwapWith(src: File)
      requires kernel == src.kernel && kernel.Valid() && this in kernel.live && src in kernel.live
      modifies kernel, this, src
      ensures kernel.Valid() && kernel.live == old(kernel.live) && kernel.open == old(kernel.open)
      ensures fd == old(src.fd) && src.fd == old(fd)
      ensures kernel.foreign == old(kernel.foreign)
    {
      hide Accounts, Kernel.Counted, Kernel.Linked, Exchanged;
      if this != src {
        AccountsRenamed(kernel.open, kernel.foreign, kernel.owner, Exchanged(kernel.owner, this, src));
        fd, src.fd := src.fd, fd;
        kernel.owner := Exchanged(kernel.owner, this, src);
        SwapLinks(src);
      }
    }

    /** Exchanging descriptors, and their owners with them, keeps objects and descriptors in correspondence. */
    twostate lemma SwapLinks(src: File)
      requires old(kernel.Linked()) && this in kernel.live && src in kernel.live && this != src
      requires kernel.live == old(kernel.live) && kernel.owner == Exchanged(old(kernel.owner), this, src)
      requires fd == old(src.fd) && src.fd == old(fd)
      requires forall f <- kernel.live :: f != this && f != src ==> f.fd == old(f.fd)
      ensures kernel.Linked()
    {
    }
  }

  /** A Pipe is a File with a direction. */
  class Pipe {
    const base: File
    var readEnd: bool

    /** Pipe(). */
    constructor Empty(kernel: Kernel)
      requires kernel.Valid()
      modifies kernel
      ensures fresh(base) && base.kernel == kernel && kernel.Valid() && base.fd == -1 && !readEnd
      ensures kernel.live == old(kernel.live) + {base} && kernel.open == old(kernel.open)
      ensures kernel.foreign == old(kernel.foreign)
    {
      hide Accounts, Kernel.Counted;
      base := new File.Empty(kernel);
      readEnd := false;
    }

    constructor OfDescriptor(kernel: Kernel, fd: int, readEnd: bool)
      requires kernel.Valid()
      requires fd > 0 ==> fd in kernel.foreign
      modifies kernel
      ensures fresh(base) && base.kernel == kernel && kernel.Valid() && base.fd == fd && this.readEnd == readEnd
      ensures kernel.live == old(kernel.live) + {base} && kernel.open == old(kernel.open)
      ensures kernel.owner == if fd > 0 then old(kernel.owner)[fd := base] else old(kernel.owner)
      ensures kernel.foreign == old(kernel.foreign) - (if fd > 0 then {fd} else {})
    {
      hide Accounts, Kernel.Counted;
      base := new File.Adopt(kernel, fd);
      this.readEnd := readEnd;
    }

    /** Pipe::create(). */
    static method Create(kernel: Kernel) returns (r: Pipe, w: Pipe)
      requires kernel.Valid()
      modifies kernel
      ensures kernel.Valid() && fresh(r) && fresh(w) && fresh(r.base) && fresh(w.base) && r.base != w.base
      ensures r.base.kernel == w.base.kernel == kernel
      ensures kernel.live == old(kernel.live) + {r.base, w.base}
      ensures (r.base.fd, w.base.fd) == GrantedPair(old(kernel.grants), old(kernel.open))
      ensures kernel.open == With(With(old(kernel.open), r.base.fd), w.base.fd)
      ensures r.base.fd > 0 ==> r.readEnd && !w.readEnd && r.base.fd != w.base.fd
      ensures kernel.foreign == old(kernel.foreign)
    {
      hide Accounts, Kernel.Counted;
      var rfd, wfd := kernel.GrantPair();
      if rfd == -1 {
        r := new Pipe.Empty(kernel);
        w := new Pipe.Empty(kernel);
      } else {
        r := new Pipe.OfDescriptor(kernel, rfd, true);
        w := new Pipe.OfDescriptor(kernel, wfd, false);
      }
    }

    /** Pipe(const Pipe &): unlike File's, it gives an invalid source an invalid copy. */
    constructor Copy(other: Pipe)
      requires other.base.kernel.Valid() && other.base in other.base.kernel.live
      modifies other.base.kernel
      ensures fresh(base) && base.kernel == other.base.kernel && base.kernel.Valid()
      ensures base.kernel.live == old(other.base.kernel.live) + {base}
      ensures readEnd == other.readEnd && (other.base.fd < 0 ==> base.fd == -1)
      ensures other.base.fd >= 0 ==> base.fd == Granted(old(other.base.kernel.grants), old(other.base.kernel.open))
      ensures base.kernel.open == With(old(other.base.kernel.open), base.fd)
      ensures other.base.kernel.foreign == old(other.base.kernel.foreign)
    {
      hide Accounts, Kernel.Counted;
      base := new File.Empty(other.base.kernel);
      readEnd := other.readEnd;
      new;
      if other.base.fd >= 0 {
        AccountsMeaning(base.kernel.open, base.kernel.foreign, base.kernel.owner);
        base.Obtain(other.base.fd);
      }
    }

    /** Pipe(Pipe &&). */
    constructor Move(other: Pipe)
      requires other.base.kernel.Valid() && other.base in other.base.kernel.live
      modifies other.base.kernel, other.base
      ensures fresh(base) && base.kernel == other.base.kernel && base.kernel.Valid()
      ensures base.kernel.live == old(other.base.kernel.live) + {base}
      ensures base.fd == old(other.base.fd) && other.base.fd == -1 && readEnd == other.readEnd
      ensures other.base.kernel.foreign == old(other.base.kernel.foreign)
    {
      hide Accounts, Kernel.Counted;
      base := new File.Move(other.base);
      readEnd := other.readEnd;
    }

    /** operator=(const Pipe &). */
    method Assign(other: Pipe)
      requires base.kernel == other.base.kernel && base.kernel.Valid()
      requires base in base.kernel.live && other.base in base.kernel.live
      requires this != other ==> base != other.base
      modifies base.kernel, base, this
      ensures base.kernel.Valid() && base.kernel.live == old(base.kernel.live)
      ensures this == other ==> base.fd == old(base.fd) && readEnd == old(readEnd)
      ensures this != other ==> readEnd == other.readEnd && (other.base.fd < 0 ==> base.fd == -1)
      ensures this != other && other.base.fd >= 0 ==>
        base.fd == Granted(old(base.kernel.grants), Without(old(base.kernel.open), old(base.fd)))
      ensures this != other ==> base.kernel.open == With(Without(old(base.kernel.open), old(base.fd)), base.fd)
      ensures base.kernel.foreign == old(base.kernel.foreign)
    {
      hide Accounts, Kernel.Counted;
      if this == other {
        return;
      }
      readEnd := other.readEnd;
      base.Assign(other.base);
    }

    /** operator=(Pipe &&). */
    method MoveAssign(other: Pipe)
      requires base.kernel == other.base.kernel && base.kernel.Valid()
      requires base in base.kernel.live && other.base in base.kernel.live
      requires this != other ==> base != other.base
      modifies base.kernel, base, this, other.base
      ensures base.kernel.Valid() && base.kernel.live == old(base.kernel.live)
      ensures this != other ==> base.fd == old(other.base.fd) && readEnd == other.readEnd
      ensures this != other ==> other.base.fd == if old(base.fd) > 0 then -1 else old(base.fd)
      ensures this == other ==> base.fd == (if old(base.fd) > 0 then -1 else old(base.fd))
      ensures this == other ==> readEnd == (old(base.fd) <= 0 && old(readEnd))
      ensures base.kernel.open == Without(old(base.kernel.open), old(base.fd))
      ensures base.kernel.foreign == old(base.kernel.foreign)
    {
      hide Accounts, Kernel.Counted;
      if base.fd > 0 {
        base.Abandon();
        readEnd := false;
      }
      base.SwapWith(other.base);
      readEnd := other.readEnd;
    }
  }

  datatype Mode = WRITE | READ

  datatype Mkfifo = Created | Exists | Failed

  /** A Fifo is a File that remembers its name. A string that was moved from is left empty. */
  class Fifo {
    const base: File
    var pathname: string
    var mode: Mode

    /** Fifo(pathname, mode, nonblocking): an existing special file is reused. */
    constructor (kernel: Kernel, pathname: string, mode: Mode, made: Mkfifo)
      requires kernel.Valid()
      modifies kernel
      ensures fresh(base) && base.kernel == kernel && kernel.Valid()
      ensures kernel.live == old(kernel.live) + {base}
      ensures this.pathname == pathname && this.mode == mode
      ensures base.fd == if made.Failed? then -1 else Granted(old(kernel.grants), old(kernel.open))
      ensures kernel.open == With(old(kernel.open), base.fd)
      ensures kernel.foreign == old(kernel.foreign)
    {
      hide Accounts, Kernel.Counted;
      base := new File.Empty(kernel);
      this.pathname, this.mode := pathname, mode;
      new;
      if !made.Failed? {
        AccountsMeaning(kernel.open, kernel.foreign, kernel.owner);
        base.Obtain(0);
      }
    }

    /** Fifo(const Fifo &). */
    constructor Copy(other: Fifo)
      requires other.base.kernel.Valid() && other.base in other.base.kernel.live
      modifies other.base.kernel
      ensures fresh(base) && base.kernel == other.base.kernel && base.kernel.Valid()
      ensures base.kernel.live == old(other.base.kernel.live) + {base}
      ensures pathname == other.pathname && mode == other.mode
      ensures base.fd == if other.base.fd < 0 then -1
                         else Granted(old(other.base.kernel.grants), old(other.base.kernel.open))
      ensures base.kernel.open == With(old(other.base.kernel.open), base.fd)
      ensures other.base.kernel.foreign == old(other.base.kernel.foreign)
    {
      hide Accounts, Kernel.Counted;
      base := new File.Empty(other.base.kernel);
      pathname, mode := other.pathname, other.mode;
      new;
      if other.base.fd >= 0 {
        AccountsMeaning(base.kernel.open, base.kernel.foreign, base.kernel.owner);
        base.Obtain(other.base.fd);
      }
    }

    /** Fifo(Fifo &&). */
    constructor Move(other: Fifo)
      requires other.base.kernel.Valid() && other.base in other.base.kernel.live
      modifies other.base.kernel, other.base, other
      ensures fresh(base) && base.kernel == other.base.kernel && base.kernel.Valid()
      ensures base.kernel.live == old(other.base.kernel.live) + {base}
      ensures base.fd == old(other.base.fd) && other.base.fd == -1
      ensures pathname == old(other.pathname) && mode == other.mode && other.pathname == ""
      ensures other.base.kernel.foreign == old(other.base.kernel.foreign)
    {
      hide Accounts, Kernel.Counted;
      base := new File.Move(other.base);
      pathname, mode := other.pathname, other.mode;
      new;
      other.pathname := "";
    }

    /** operator=(const Fifo &). */
    method Assign(other: Fifo)
      requires base.kernel == other.base.kernel && base.kernel.Valid()
      requires base in base.kernel.live && other.base in base.kernel.live
      requires this != other ==> base != other.base
      modifies base.kernel, base, this
      ensures base.kernel.Valid() && base.kernel.live == old(base.kernel.live)
      ensures this == other ==> base.fd == old(base.fd)
      ensures pathname == old(other.pathname) && mode == old(other.mode)
      ensures this != other && other.base.fd < 0 ==> base.fd == -1
      ensures this != other && other.base.fd >= 0 ==>
        base.fd == Granted(old(base.kernel.grants), Without(old(base.kernel.open), old(base.fd)))
      ensures this != other ==> base.kernel.open == With(Without(old(base.kernel.open), old(base.fd)), base.fd)
      ensures base.kernel.foreign == old(base.kernel.foreign)
    {
      hide Accounts, Kernel.Counted;
      if this == other {
        return;
      }
      pathname, mode := other.pathname, other.mode;
      base.Assign(other.base);
    }

    /** operator=(Fifo &&). */
    method MoveAssign(other: Fifo)
      requires base.kernel == other.base.kernel && base.kernel.Valid()
      requires base in base.kernel.live && other.base in base.kernel.live
      requires this != other ==> base != other.base
      modifies base.kernel, base, this, other.base, other
      ensures base.kernel.Valid() && base.kernel.live == old(base.kernel.live)
      ensures this != other ==> base.fd == old(other.base.fd)
      ensures this != other ==> pathname == old(other.pathname) && mode == old(other.mode)
      ensures this != other ==> other.base.fd == if old(base.fd) > 0 then -1 else old(base.fd)
      ensures this != other ==> other.pathname == ""
      ensures this == other ==> base.fd == (if old(base.fd) > 0 then -1 else old(base.fd)) && mode == old(mode)
      ensures base.kernel.open == Without(old(base.kernel.open), old(base.fd))
      ensures base.kernel.foreign == old(base.kernel.foreign)
    {
      hide Accounts, Kernel.Counted;
      if base.fd > 0 {
        base.Abandon();
        pathname := "";
      }
      base.SwapWith(other.base);
      if this != other {
        pathname, other.pathname := other.pathname, "";
      }
      mode := other.mode;
    }
  }

  // ----- whole programs -----

  /** The objects of a program: files, ends of pipes, fifos. */
  datatype Object = AFile(file: File) | APipe(pipe: Pipe) | AFifo(fifo: Fifo)

  function Base(o: Object): File {
    match o
    case AFile(f) => f
    case APipe(p) => p.base
    case AFifo(q) => q.base
  }

  /** Anything a program can do with them; objects are named by position. */
  datatype Op =
    | OpenFile
    | AdoptFd(fd: int)
    | MakePipe
    | OpenFifo(pathname: string, mode: Mode, made: Mkfifo)
    | CopyOf(k: nat)
    | MoveOf(k: nat)
    | AssignTo(k: nat, from: nat)
    | MoveTo(k: nat, from: nat)
    | Destruct(k: nat)

  /** The objects are exactly the live ones, each once. */
  ghost predicate Covers(live: set<File>, objects: seq<Object>) {
    && (forall f :: f in live ==> exists i :: 0 <= i < |objects| && Base(objects[i]) == f)
    && (forall i :: 0 <= i < |objects| ==> Base(objects[i]) in live)
    && (forall a, b :: 0 <= a < b < |objects| ==> Base(objects[a]) != Base(objects[b]))
  }

  ghost predicate Holds(kernel: Kernel, objects: seq<Object>)
    reads kernel, kernel.live
  {
    kernel.Valid() && Covers(kernel.live, objects)
  }

  /** The memory that the objects consist of. */
  ghost function Memory(objects: seq<Object>): set<object> {
    var files: set<object> := set o <- objects :: Base(o);
    var pipes: set<object> := set o <- objects | o.APipe? :: o.pipe;
    var fifos: set<object> := set o <- objects | o.AFifo? :: o.fifo;
    files + pipes + fifos
  }

  lemma CoversMore(live: set<File>, objects: seq<Object>, o: Object)
    requires Covers(live, objects) && Base(o) !in live
    ensures Covers(live + {Base(o)}, objects + [o])
  {
    var more := objects + [o];
    forall f | f in live + {Base(o)} ensures exists i :: 0 <= i < |more| && Base(more[i]) == f {
      if f == Base(o) {
        assert Base(more[|objects|]) == f;
      } else {
        var i :| 0 <= i < |objects| && Base(objects[i]) == f;
        assert Base(more[i]) == f;
      }
    }
  }

  lemma CoversLess(live: set<File>, objects: seq<Object>, k: nat)
    requires Covers(live, objects) && k < |objects|
    ensures Covers(live - {Base(objects[k])}, objects[..k] + objects[k + 1..])
  {
    var less := objects[..k] + objects[k + 1..];
    forall f | f in live - {Base(objects[k])} ensures exists i :: 0 <= i < |less| && Base(less[i]) == f {
      var i :| 0 <= i < |objects| && Base(objects[i]) == f;
      assert Base(less[if i < k then i else i - 1]) == f;
    }
  }

  /** A copy of any object. Only a File has to be valid: see File.Copy. */
  method CopyObject(o: Object) returns (r: Object)
    requires Base(o).kernel.Valid() && Base(o) in Base(o).kernel.live
    requires o.AFile? ==> o.file.fd >= 0
    modifies Base(o).kernel
    ensures fresh(Base(r)) && fresh(Memory([r])) && Base(r).kernel == Base(o).kernel && Base(r).kernel.Valid()
    ensures Base(r).kernel.live == old(Base(o).kernel.live) + {Base(r)}
    ensures Base(r).kernel.foreign == old(Base(o).kernel.foreign)
  {
    hide Accounts, Kernel.Counted;
    if o.AFile? {
      var f := new File.Copy(o.file, 0);
      r := AFile(f);
    } else if o.APipe? {
      var p := new Pipe.Copy(o.pipe);
      r := APipe(p);
    } else {
      var q := new Fifo.Copy(o.fifo);
      r := AFifo(q);
    }
  }

  method MoveObject(o: Object) returns (r: Object)
    requires Base(o).kernel.Valid() && Base(o) in Base(o).kernel.live
    modifies Base(o).kernel, Memory([o])
    ensures fresh(Base(r)) && fresh(Memory([r])) && Base(r).kernel == Base(o).kernel && Base(r).kernel.Valid()
    ensures Base(r).kernel.live == old(Base(o).kernel.live) + {Base(r)}
    ensures Base(r).kernel.foreign == old(Base(o).kernel.foreign)
  {
    hide Accounts, Kernel.Counted;
    assert o in [o];
    if o.AFile? {
      var f := new File.Move(o.file);
      r := AFile(f);
    } else if o.APipe? {
      var p := new Pipe.Move(o.pipe);
      r := APipe(p);
    } else {
      var q := new Fifo.Move(o.fifo);
      r := AFifo(q);
    }
  }

  /** Assignment between objects of one kind. */
  method AssignObject(o: Object, from: Object, moving: bool)
    requires Base(o).kernel.Valid() && Base(o).kernel == Base(from).kernel
    requires Base(o) in Base(o).kernel.live && Base(from) in Base(o).kernel.live
    requires o != from ==> Base(o) != Base(from)
    modifies Base(o).kernel, Memory([o, from])
    ensures Base(o).kernel.Valid() && Base(o).kernel.live == old(Base(o).kernel.live)
    ensures Base(o).kernel.foreign == old(Base(o).kernel.foreign)
  {
    hide Accounts, Kernel.Counted;
    assert o in [o, from] && from in [o, from];
    if o.AFile? && from.AFile? {
      if moving { o.file.MoveAssign(from.file); } else { o.file.Assign(from.file); }
    } else if o.APipe? && from.APipe? {
      if moving { o.pipe.MoveAssign(from.pipe); } else { o.pipe.Assign(from.pipe); }
    } else if o.AFifo? && from.AFifo? {
      if moving { o.fifo.MoveAssign(from.fifo); } else { o.fifo.Assign(from.fifo); }
    }
  }

  lemma MemoryOf(objects: seq<Object>, k: nat)
    requires k < |objects|
    ensures Memory([objects[k]]) <= Memory(objects) && Base(objects[k]) in Memory(objects)
    ensures Memory(objects[..k] + objects[k + 1..]) <= Memory(objects)
  {
    assert forall o <- [objects[k]] :: o in objects;
    assert forall o <- objects[..k] + objects[k + 1..] :: o in objects;
  }

  lemma MemoryOfTwo(objects: seq<Object>, k: nat, from: nat)
    requires k < |objects| && from < |objects|
    ensures Memory([objects[k], objects[from]]) <= Memory(objects)
  {
    assert forall o <- [objects[k], objects[from]] :: o in objects;
  }

  lemma MemoryMore(objects: seq<Object>, o: Object)
    ensures Memory(objects + [o]) == Memory(objects) + Memory([o])
  {
    assert forall p :: p in objects + [o] <==> p in objects || p in [o];
  }

  lemma HoldsValid(kernel: Kernel, objects: seq<Object>)
    requires Holds(kernel, objects)
    ensures kernel.Valid() && forall f :: f in kernel.live ==> f.kernel == kernel
  {
  }

  method Append(ghost live: set<File>, objects: seq<Object>, o: Object) returns (objects': seq<Object>)
    requires Covers(live, objects) && Base(o) !in live
    ensures objects' == objects + [o]
    ensures Covers(live + {Base(o)}, objects') && Memory(objects') == Memory(objects) + Memory([o])
    ensures Memory([o]) == {Base(o)} + (if o.APipe? then {o.pipe} else if o.AFifo? then {o.fifo} else {})
  {
    hide Accounts, Kernel.Counted;
    objects' := objects + [o];
    CoversMore(live, objects, o);
    MemoryMore(objects, o);
  }

  method MakeEnds(kernel: Kernel, objects: seq<Object>) returns (objects': seq<Object>)
    requires Holds(kernel, objects)
    modifies kernel
    ensures Holds(kernel, objects') && fresh(Memory(objects') - Memory(objects))
    ensures kernel.foreign == old(kernel.foreign)
  {
    hide Covers, Memory, Kernel.Valid;
    ghost var live := kernel.live;
    HoldsValid(kernel, objects);
    var r, w := Pipe.Create(kernel);
    objects' := Append(live, objects, APipe(r));
    objects' := Append(live + {r.base}, objects', APipe(w));
    assert live + {r.base} + {w.base} == kernel.live;
  }

  /** An operation that makes objects out of nothing. */
  method Make(op: Op, kernel: Kernel, objects: seq<Object>) returns (objects': seq<Object>)
    requires Holds(kernel, objects)
    modifies kernel
    ensures Holds(kernel, objects') && fresh(Memory(objects') - Memory(objects))
    ensures kernel.foreign == old(kernel.foreign)
  {
    hide Covers, Memory, Kernel.Valid;
    objects' := objects;
    ghost var live := kernel.live;
    HoldsValid(kernel, objects);
    if op.OpenFile? {
      var f := new File.Open(kernel);
      objects' := Append(live, objects, AFile(f));
    } else if op.OpenFifo? {
      var q := new Fifo(kernel, op.pathname, op.mode, op.made);
      objects' := Append(live, objects, AFifo(q));
    } else if op.MakePipe? {
      objects' := MakeEnds(kernel, objects);
    }
  }

  /** The descriptor that an operation takes over from outside the wrappers. */
  function Adopts(op: Op): set<int> {
    if op.AdoptFd? && op.fd > 0 then {op.fd} else {}
  }

  function Adopted(ops: seq<Op>): set<int> {
    if ops == [] then {} else Adopted(ops[..|ops| - 1]) + Adopts(ops[|ops| - 1])
  }

  /** Whether an object of the program already has this descriptor. */
  predicate InUse(objects: seq<Object>, fd: int)
    reads set o <- objects :: Base(o)
  {
    exists o <- objects :: Base(o).fd == fd
  }

  /** An open descriptor is nobody's exactly when no object of the program has it. */
  lemma NobodysIff(kernel: Kernel, objects: seq<Object>, fd: int)
    requires Holds(kernel, objects) && fd > 0
    ensures fd in kernel.foreign <==> fd in kernel.open && !InUse(objects, fd)
  {
    hide Accounts, Kernel.Counted;
    AccountsMeaning(kernel.open, kernel.foreign, kernel.owner);
    if fd in kernel.owner {
      var i :| 0 <= i < |objects| && Base(objects[i]) == kernel.owner[fd];
      assert objects[i] in objects;
    }
  }

  /** File(int) on a descriptor that no object of the program has. */
  method MakeAdopted(fd: int, kernel: Kernel, objects: seq<Object>) returns (objects': seq<Object>)
    requires Holds(kernel, objects)
    modifies kernel
    ensures Holds(kernel, objects') && fresh(Memory(objects') - Memory(objects))
    ensures kernel.foreign == old(kernel.foreign) - (if fd > 0 then {fd} else {})
  {
    hide Covers, Memory, Accounts, Kernel.Linked, Kernel.Counted;
    objects' := objects;
    ghost var live := kernel.live;
    if fd > 0 { NobodysIff(kernel, objects, fd); }
    if fd <= 0 || (fd in kernel.open && !InUse(objects, fd)) {
      var f := new File.Adopt(kernel, fd);
      objects' := Append(live, objects, AFile(f));
    }
  }

  /** An operation on the object at position op.k. */
  method Perform(op: Op, kernel: Kernel, objects: seq<Object>) returns (objects': seq<Object>)
    requires Holds(kernel, objects)
    modifies kernel, Memory(objects)
    ensures Holds(kernel, objects') && fresh(Memory(objects') - Memory(objects))
    ensures kernel.foreign == old(kernel.foreign) - Adopts(op)
  {
    hide Memory, Accounts;
    objects' := objects;
    if op.OpenFile? || op.MakePipe? || op.OpenFifo? {
      objects' := Make(op, kernel, objects);
    } else if op.AdoptFd? {
      objects' := MakeAdopted(op.fd, kernel, objects);
    } else if op.k < |objects| {
      var target := objects[op.k];
      ghost var live := kernel.live;
      MemoryOf(objects, op.k);
      if op.Destruct? {
        CoversLess(live, objects, op.k);
        Base(target).Destroy();
        objects' := objects[..op.k] + objects[op.k + 1..];
      } else if op.MoveOf? {
        var r := MoveObject(target);
        objects' := Append(live, objects, r);
      } else if op.CopyOf? {
        if !target.AFile? || target.file.fd >= 0 {
          var r := CopyObject(target);
          objects' := Append(live, objects, r);
        }
      } else if op.from < |objects| {
        MemoryOfTwo(objects, op.k, op.from);
        AssignObject(target, objects[op.from], op.MoveTo?);
      }
    }
  }

  lemma AdoptedNext(ops: seq<Op>, n: nat)
    requires n < |ops|
    ensures Adopted(ops[..n + 1]) == Adopted(ops[..n]) + Adopts(ops[n])
  {
    assert ops[..n + 1][..n] == ops[..n];
  }

  lemma NoneAdopted()
    ensures Adopted([]) == {}
  {
  }

  lemma NoObjects()
    ensures Covers({}, []) && Memory([]) == {}
  {
  }

  lemma CoversNone(live: set<File>)
    requires Covers(live, [])
    ensures live == {}
  {
  }

  /**
   * Every program of these operations keeps ownership linear and closes no
   * foreign descriptor but those it adopted. When all objects are gone the
   * descriptor table is what it was, without the adopted ones, and the calls
   * that handed out and closed descriptors add up.
   */
  method RunProgram(ops: seq<Op>, open: set<int>, grants: seq<int>) returns (kernel: Kernel, objects: seq<Object>)
    requires 0 in open
    ensures fresh(kernel) && Holds(kernel, objects)
    ensures open - Adopted(ops) <= kernel.open
    ensures objects == [] ==> kernel.owner == map[] && kernel.open == open - Adopted(ops)
    ensures |open| + kernel.granted == |kernel.open| + kernel.closed
    ensures objects == [] && Adopted(ops) == {} ==> kernel.open == open && kernel.granted == kernel.closed
  {
    hide Covers, Accounts, Adopted, Adopts, Kernel.Linked;
    kernel := new Kernel(open, grants);
    objects := [];
    NoObjects();
    NoneAdopted();
    for n := 0 to |ops|
      invariant fresh(kernel) && Holds(kernel, objects) && fresh(Memory(objects))
      invariant kernel.foreign == open - Adopted(ops[..n]) && kernel.base == |open|
    {
      AdoptedNext(ops, n);
      objects := Perform(ops[n], kernel, objects);
    }
    assert ops[..|ops|] == ops;
    AccountsMeaning(kernel.open, kernel.foreign, kernel.owner);
    kernel.OwnedMeansLive();
    if objects == [] { CoversNone(kernel.live); }
  }
}
