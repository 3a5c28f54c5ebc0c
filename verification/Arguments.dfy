/** ArgumentParser of include/rix/util/argument_parser.hpp and its .cpp. */
module Arguments {

  datatype Option<+T> = None | Some(value: T)

  /** The variant behind an argument. A double is an opaque pattern. */
  datatype Value =
    | Flag(on: bool)
    | Letter(c: char)
    | Int(i: int)
    | Real(bits: int)
    | Text(s: string)
    | Ints(ints: seq<int>)
    | Reals(reals: seq<int>)
    | Texts(texts: seq<string>)

  /** std::stoi and std::stof, which may throw. */
  datatype Readers = Readers(int_: string -> Option<int>, real_: string -> Option<int>)

  // ----- detail::parse -----

  /** What a parse leaves in its value and its in/out offset. */
  datatype Parsed<+T> = Parsed(ok: bool, value: T, offset: nat)

  /** argv[offset][0] != '-'; the first character of an empty argument is the terminator. */
  predicate StartsWithDash(s: string) {
    s != "" && s[0] == '-'
  }

  function AsLetter(s: string): Option<char> {
    if |s| == 1 then Some(s[0]) else None
  }

  function AsText(s: string): Option<string> { Some(s) }

  function ParseOne<T>(argv: seq<string>, offset: nat, old_: T, read: string -> Option<T>): (r: Parsed<T>)
    ensures r.offset >= offset
  {
    if offset >= |argv| then Parsed(false, old_, offset) else
      match read(argv[offset])
      case None => Parsed(false, old_, offset + 1)
      case Some(v) => Parsed(true, v, offset + 1)
  }

  /** The elements up to the next argument that starts with a dash; a bad element empties the vector. */
  function ParseMany<T>(argv: seq<string>, offset: nat, items: seq<T>, read: string -> Option<T>): (r: Parsed<seq<T>>)
    ensures r.offset >= offset
    decreases |argv| - offset
  {
    if offset >= |argv| || StartsWithDash(argv[offset]) then Parsed(true, items, offset) else
      match read(argv[offset])
      case None => Parsed(false, [], offset + 1)
      case Some(v) => ParseMany(argv, offset + 1, items + [v], read)
  }

  function ParseVector<T>(argv: seq<string>, offset: nat, old_: seq<T>, read: string -> Option<T>): (r: Parsed<seq<T>>)
    ensures r.offset >= offset
  {
    if offset >= |argv| then Parsed(false, old_, offset) else ParseMany(argv, offset, [], read)
  }

  function Wrap<T>(p: Parsed<T>, f: T -> Value): (r: Parsed<Value>)
    ensures r.offset == p.offset
  {
    Parsed(p.ok, f(p.value), p.offset)
  }

  /** ArgumentParser::parse_arg. */
  function ParseArg(rd: Readers, argv: seq<string>, offset: nat, v: Value): (r: Parsed<Value>)
    ensures r.offset >= offset
  {
    match v
    case Flag(b) => if offset > |argv| then Parsed(false, v, offset) else Parsed(true, Flag(!b), offset)
    case Letter(c) => Wrap(ParseOne(argv, offset, c, AsLetter), x => Letter(x))
    case Int(i) => Wrap(ParseOne(argv, offset, i, rd.int_), x => Int(x))
    case Real(b) => Wrap(ParseOne(argv, offset, b, rd.real_), x => Real(x))
    case Text(s) => Wrap(ParseOne(argv, offset, s, AsText), x => Text(x))
    case Ints(s) => Wrap(ParseVector(argv, offset, s, rd.int_), x => Ints(x))
    case Reals(s) => Wrap(ParseVector(argv, offset, s, rd.real_), x => Reals(x))
    case Texts(s) => Wrap(ParseVector(argv, offset, s, AsText), x => Texts(x))
  }

  // ----- parse -----

  /** The long name that an option argument stands for. */
  function LongName(shorts: map<char, string>, s: string): Option<string> {
    if |s| < 2 || |s| == 3 then None
    else if |s| == 2 then (if s[0] == '-' && s[1] in shorts then Some(shorts[s[1]]) else None)
    else if s[..2] == "--" then Some(s[2..]) else None
  }

  /** The state of a parser after its option loop: the values, changed up to a failure. */
  datatype Outcome = Outcome(ok: bool, args: map<string, Value>)

  function ParseOptions(rd: Readers, shorts: map<char, string>, args: map<string, Value>, argv: seq<string>,
                        offset: nat)
    : Outcome
    decreases |argv| - offset
  {
    if offset >= |argv| then Outcome(true, args) else
      match LongName(shorts, argv[offset])
      case None => Outcome(false, args)
      case Some(name) =>
        if name !in args then Outcome(false, args) else
          var r := ParseArg(rd, argv, offset + 1, args[name]);
          if !r.ok then Outcome(false, args[name := r.value])
          else ParseOptions(rd, shorts, args[name := r.value], argv, r.offset)
  }

  function ParsePositional(rd: Readers, required: seq<string>, args: map<string, Value>, argv: seq<string>, offset: nat)
    : (r: Parsed<map<string, Value>>)
    requires forall n :: n in required ==> n in args
    ensures r.offset >= offset && r.value.Keys == args.Keys
    decreases |required|
  {
    if required == [] then Parsed(true, args, offset) else
      var r := ParseArg(rd, argv, offset, args[required[0]]);
      var next := args[required[0] := r.value];
      if !r.ok then Parsed(false, next, r.offset) else ParsePositional(rd, required[1..], next, argv, r.offset)
  }

  /** parse: what it returns and the values it leaves. argc - 1 is compared as an unsigned number. */
  function ParseAll(rd: Readers, required: seq<string>, shorts: map<char, string>, args: map<string, Value>,
                    argv: seq<string>): Outcome
    requires forall n :: n in required ==> n in args
  {
    if 1 <= |argv| <= |required| then Outcome(false, args) else
      var p := ParsePositional(rd, required, args, argv, 1);
      if p.ok then ParseOptions(rd, shorts, p.value, argv, p.offset) else Outcome(false, p.value)
  }

  /** One round of the option loop. */
  lemma OptionStep(rd: Readers, shorts: map<char, string>, args: map<string, Value>, argv: seq<string>, offset: nat,
                   name: string)
    requires offset < |argv| && LongName(shorts, argv[offset]) == Some(name) && name in args
    ensures var r := ParseArg(rd, argv, offset + 1, args[name]);
            ParseOptions(rd, shorts, args, argv, offset)
              == if r.ok then ParseOptions(rd, shorts, args[name := r.value], argv, r.offset)
                 else Outcome(false, args[name := r.value])
  {
    hide ParseArg, LongName;
  }

  lemma OptionStop(rd: Readers, shorts: map<char, string>, args: map<string, Value>, argv: seq<string>, offset: nat)
    requires offset < |argv|
    requires LongName(shorts, argv[offset]).Some? ==> LongName(shorts, argv[offset]).value !in args
    ensures ParseOptions(rd, shorts, args, argv, offset) == Outcome(false, args)
  {
    hide ParseArg, LongName;
  }

  lemma EndOfOptions(rd: Readers, shorts: map<char, string>, args: map<string, Value>, argv: seq<string>, offset: nat)
    requires offset >= |argv|
    ensures ParseOptions(rd, shorts, args, argv, offset) == Outcome(true, args)
  {
  }

  /** One required argument. */
  lemma PositionalStep(rd: Readers, required: seq<string>, args: map<string, Value>, argv: seq<string>, offset: nat)
    requires required != [] && forall n :: n in required ==> n in args
    ensures var r := ParseArg(rd, argv, offset, args[required[0]]);
            var next := args[required[0] := r.value];
            ParsePositional(rd, required, args, argv, offset)
              == if r.ok then ParsePositional(rd, required[1..], next, argv, r.offset)
                 else Parsed(false, next, r.offset)
  {
    hide ParseArg;
  }

  lemma NoPositional(rd: Readers, args: map<string, Value>, argv: seq<string>, offset: nat)
    ensures ParsePositional(rd, [], args, argv, offset) == Parsed(true, args, offset)
  {
  }

  function IsAlnum(c: char): bool {
    'a' <= c <= 'z' || 'A' <= c <= 'Z' || '0' <= c <= '9'
  }

  lemma AlnumIs(c: char)
    ensures IsAlnum(c) <==> 48 <= c as int <= 57 || 65 <= c as int <= 90 || 97 <= c as int <= 122
  {
  }

  predicate GoodName(name: string) {
    |name| >= 2 && forall i :: 0 <= i < |name| ==> IsAlnum(name[i]) || name[i] == '_'
  }

  class ArgumentParser {
    const readers: Readers
    var required: seq<string>
    var shortToLong: map<char, string>
    var args: map<string, Value>

    ghost predicate Valid()
      reads this
    {
      && (forall n :: n in required ==> n in args)
      && (forall c :: c in shortToLong ==> shortToLong[c] in args)
      && (forall n :: n in args ==> GoodName(n))
    }

    /** Every argument that could be added can be given by its long name. */
    lemma Reachable(name: string)
      requires Valid() && name in args
      ensures LongName(shortToLong, "--" + name) == Some(name)
      ensures |name| >= 2 && forall i :: 0 <= i < |name| ==> name[i] != '-' && name[i] != ' '
    {
      assert GoodName(name) && ("--" + name)[..2] == "--" && ("--" + name)[2..] == name;
      forall i | 0 <= i < |name| ensures name[i] != '-' && name[i] != ' ' {
        AlnumIs(name[i]);
      }
    }

    constructor (readers: Readers)
      ensures Valid() && required == [] && shortToLong == map[] && args == map[] && this.readers == readers
    {
      this.readers, required, shortToLong, args := readers, [], map[], map[];
    }

    /** add, with the exceptions of Arg's constructor as a false result. A name already there keeps its argument. */
    method Add(name: string, shortName: Option<char>, value: Value, isRequired: bool) returns (ok: bool)
      requires Valid()
      modifies this
      ensures Valid()
      ensures ok <==> GoodName(name) && !(value.Flag? && isRequired) && (shortName.Some? ==> IsAlnum(shortName.value))
      ensures !ok ==> unchanged(this)
      ensures ok ==> args == if name in old(args) then old(args) else old(args)[name := value]
      ensures ok ==> required == if isRequired then old(required) + [name] else old(required)
      ensures ok ==> shortToLong == if !isRequired && shortName.Some? then old(shortToLong)[shortName.value := name]
                                    else old(shortToLong)
    {
      if shortName.Some? && !IsAlnum(shortName.value) {
        return false;
      }
      if !GoodName(name) || (value.Flag? && isRequired) {
        return false;
      }
      if isRequired {
        required := required + [name];
      } else if shortName.Some? {
        shortToLong := shortToLong[shortName.value := name];
      }
      if name !in args {
        args := args[name := value];
      }
      return true;
    }

    method Parse(argv: seq<string>) returns (ok: bool)
      requires Valid()
      modifies this`args
      ensures Valid() && args.Keys == old(args).Keys
      ensures Outcome(ok, args) == ParseAll(readers, required, shortToLong, old(args), argv)
    {
      hide ParseArg, LongName, GoodName, ParsePositional, ParseOptions;
      var argc := |argv|;
      if 1 <= argc && argc - 1 < |required| {
        return false;
      }
      var offset := 1;
      for k := 0 to |required|
        invariant args.Keys == old(args).Keys
        invariant offset >= 1
        invariant ParsePositional(readers, required, old(args), argv, 1)
               == ParsePositional(readers, required[k..], args, argv, offset)
      {
        assert required[k..][0] == required[k] && required[k..][1..] == required[k + 1..];
        PositionalStep(readers, required[k..], args, argv, offset);
        var r := ParseArg(readers, argv, offset, args[required[k]]);
        args, offset := args[required[k] := r.value], r.offset;
        if !r.ok {
          return false;
        }
      }
      assert required[|required|..] == [];
      NoPositional(readers, args, argv, offset);
      ghost var parsed := ParseOptions(readers, shortToLong, args, argv, offset);
      while offset < argc
        invariant args.Keys == old(args).Keys
        invariant ParseOptions(readers, shortToLong, args, argv, offset) == parsed
        decreases argc - offset
      {
        ghost var start := offset;
        var name := LongName(shortToLong, argv[offset]);
        offset := offset + 1;
        if name.None? || name.value !in args {
          OptionStop(readers, shortToLong, args, argv, start);
          return false;
        }
        OptionStep(readers, shortToLong, args, argv, start, name.value);
        var r := ParseArg(readers, argv, offset, args[name.value]);
        args, offset := args[name.value := r.value], r.offset;
        if !r.ok {
          return false;
        }
      }
      EndOfOptions(readers, shortToLong, args, argv, offset);
      return true;
    }
  }

  // ----- printing arguments and reading them back -----

  predicate Dashless(ts: seq<string>) {
    forall i :: 0 <= i < |ts| ==> !StartsWithDash(ts[i])
  }

  function Kind(v: Value): nat {
    match v
    case Flag(_) => 0
    case Letter(_) => 1
    case Int(_) => 2
    case Real(_) => 3
    case Text(_) => 4
    case Ints(_) => 5
    case Reals(_) => 6
    case Texts(_) => 7
  }

  predicate SameKind(v: Value, w: Value) { Kind(v) == Kind(w) }

  predicate IsVector(v: Value) { v.Ints? || v.Reals? || v.Texts? }

  /** Each text reads as the value beside it. */
  predicate ReadsAs<T(==)>(read: string -> Option<T>, ts: seq<string>, vs: seq<T>) {
    |ts| == |vs| && forall k :: 0 <= k < |ts| ==> read(ts[k]) == Some(vs[k])
  }

  /** The texts are a way to write the value. A flag's value is not written: each mention toggles it. */
  predicate Spells(rd: Readers, ts: seq<string>, v: Value) {
    match v
    case Flag(_) => ts == []
    case Letter(c) => ts == [[c]]
    case Int(i) => ReadsAs(rd.int_, ts, [i])
    case Real(b) => ReadsAs(rd.real_, ts, [b])
    case Text(s) => ts == [s]
    case Ints(xs) => ReadsAs(rd.int_, ts, xs)
    case Reals(xs) => ReadsAs(rd.real_, ts, xs)
    case Texts(ss) => ts == ss
  }

  predicate Ended(ts: seq<string>, rest: seq<string>) {
    if rest == [] then ts != [] else StartsWithDash(rest[0])
  }

  /** They can stand in front of rest: a vector has no dashes and is ended by one, or by the end of the line. */
  predicate Readable(rd: Readers, ts: seq<string>, v: Value, rest: seq<string>) {
    && Spells(rd, ts, v)
    && (IsVector(v) ==> Dashless(ts) && Ended(ts, rest))
  }

  lemma {:induction false} ManyRead<T(!new)>(argv: seq<string>, offset: nat, items: seq<T>, ts: seq<string>, vs: seq<T>,
                                       read: string -> Option<T>)
    requires offset + |ts| <= |argv| && argv[offset..offset + |ts|] == ts && Dashless(ts)
    requires |ts| == |vs| && forall k :: 0 <= k < |ts| ==> read(ts[k]) == Some(vs[k])
    requires offset + |ts| == |argv| || StartsWithDash(argv[offset + |ts|])
    ensures ParseMany(argv, offset, items, read) == Parsed(true, items + vs, offset + |ts|)
    decreases |ts|
  {
    if ts == [] {
      assert items + vs == items;
    } else {
      assert argv[offset] == ts[0];
      assert argv[offset + 1..offset + |ts|] == ts[1..];
      ManyRead(argv, offset + 1, items + [vs[0]], ts[1..], vs[1..], read);
      assert items + [vs[0]] + vs[1..] == items + vs;
    }
  }

  /** Where a vector ends: behind elements without dashes, at an option or at the end of the line. */
  lemma {:induction false} ManyStops<T>(argv: seq<string>, offset: nat, items: seq<T>, read: string -> Option<T>)
    requires offset <= |argv|
    ensures var r := ParseMany(argv, offset, items, read);
            r.ok ==> r.offset <= |argv| && Dashless(argv[offset..r.offset]) &&
                     (r.offset == |argv| || StartsWithDash(argv[r.offset]))
    decreases |argv| - offset
  {
    if offset < |argv| && !StartsWithDash(argv[offset]) && read(argv[offset]).Some? {
      var v := read(argv[offset]).value;
      ManyStops(argv, offset + 1, items + [v], read);
      var r := ParseMany(argv, offset + 1, items + [v], read);
      if r.ok {
        assert argv[offset..r.offset] == [argv[offset]] + argv[offset + 1..r.offset];
      }
    }
  }

  /**
   * Whatever text follows on the command line, the elements of a vector are
   * read back, all of them and nothing more, if and only if none starts with a
   * dash and they are followed by an option, or are some and end the line.
   */
  lemma VectorReadIff<T(!new)>(argv: seq<string>, offset: nat, old_: seq<T>, ts: seq<string>, vs: seq<T>,
                         read: string -> Option<T>, rest: seq<string>)
    requires offset <= |argv| && argv[offset..] == ts + rest
    requires |ts| == |vs| && forall k :: 0 <= k < |ts| ==> read(ts[k]) == Some(vs[k])
    ensures ParseVector(argv, offset, old_, read) == Parsed(true, vs, offset + |ts|)
      <==> Dashless(ts) && Ended(ts, rest)
  {
    hide ParseMany;
    var end := offset + |ts|;
    assert argv[offset..][..|ts|] == argv[offset..end] == ts;
    assert argv[offset..][|ts|..] == argv[end..] == rest;
    ManyStops(argv, offset, [], read);
    if Dashless(ts) && Ended(ts, rest) {
      ManyRead(argv, offset, [], ts, vs, read);
      assert [] + vs == vs;
    }
  }

  /** One argument of any kind but a flag is read back as it was printed. */
  lemma ArgumentRead(rd: Readers, v: Value, ts: seq<string>, old_: Value, argv: seq<string>, offset: nat,
                     rest: seq<string>)
    requires SameKind(old_, v) && !v.Flag? && Readable(rd, ts, v, rest)
    requires offset <= |argv| && argv[offset..] == ts + rest
    ensures ParseArg(rd, argv, offset, old_) == Parsed(true, v, offset + |ts|)
  {
    hide ParseVector, Dashless, Ended;
    if IsVector(v) {
      match v {
        case Ints(xs) => VectorReadIff(argv, offset, old_.ints, ts, xs, rd.int_, rest);
        case Reals(xs) => VectorReadIff(argv, offset, old_.reals, ts, xs, rd.real_, rest);
        case Texts(ss) => VectorReadIff(argv, offset, old_.texts, ts, ss, AsText, rest);
      }
    } else {
      assert |ts| == 1 && argv[offset] == argv[offset..][0] == ts[0];
    }
  }

  // ----- options -----

  /** One option on a command line, by its long or its short name, with the texts of its value. */
  datatype Setting = Setting(name: string, short: Option<char>, value: Value, tokens: seq<string>)

  function Mention(s: Setting): string {
    if s.short.Some? then ['-', s.short.value] else "--" + s.name
  }

  function PrintOne(s: Setting): seq<string> {
    [Mention(s)] + s.tokens
  }

  function Print(ss: seq<Setting>): seq<string> {
    if ss == [] then [] else PrintOne(ss[0]) + Print(ss[1..])
  }

  /** The setting names a registered option of its own kind. */
  predicate Registered(shorts: map<char, string>, args: map<string, Value>, s: Setting) {
    && s.name in args && |s.name| >= 2 && SameKind(args[s.name], s.value)
    && (s.short.Some? ==> s.short.value in shorts && shorts[s.short.value] == s.name)
  }

  predicate AllRegistered(shorts: map<char, string>, args: map<string, Value>, ss: seq<Setting>) {
    forall i :: 0 <= i < |ss| ==> Registered(shorts, args, ss[i])
  }

  /** Every value can be read back in front of what follows it, which is the other options and then tail. */
  predicate AllReadable(rd: Readers, ss: seq<Setting>, tail: seq<string>) {
    ss != [] ==> Readable(rd, ss[0].tokens, ss[0].value, Print(ss[1..]) + tail) && AllReadable(rd, ss[1..], tail)
  }

  function Apply(args: map<string, Value>, s: Setting): map<string, Value> {
    if s.name in args then args[s.name := if args[s.name].Flag? then Flag(!args[s.name].on) else s.value] else args
  }

  function ApplyAll(args: map<string, Value>, ss: seq<Setting>): map<string, Value> {
    if ss == [] then args else ApplyAll(Apply(args, ss[0]), ss[1..])
  }

  /** The same arguments with values of the same kinds. */
  predicate Alike(args: map<string, Value>, args': map<string, Value>) {
    args'.Keys == args.Keys && forall n :: n in args ==> SameKind(args[n], args'[n])
  }

  lemma AlikeRegistered(shorts: map<char, string>, args: map<string, Value>, args': map<string, Value>,
                        ss: seq<Setting>)
    requires Alike(args, args') && AllRegistered(shorts, args, ss)
    ensures AllRegistered(shorts, args', ss)
  {
    hide Kind;
    forall i | 0 <= i < |ss| ensures Registered(shorts, args', ss[i]) {
      assert Registered(shorts, args, ss[i]);
      assert ss[i].name in args'.Keys;
    }
  }

  lemma RestRegistered(shorts: map<char, string>, args: map<string, Value>, ss: seq<Setting>)
    requires ss != [] && AllRegistered(shorts, args, ss)
    ensures Registered(shorts, args, ss[0]) && Alike(args, Apply(args, ss[0]))
    ensures AllRegistered(shorts, Apply(args, ss[0]), ss[1..])
  {
    assert Registered(shorts, args, ss[0]);
    forall i | 0 <= i < |ss[1..]| ensures Registered(shorts, args, ss[1..][i]) {
      assert Registered(shorts, args, ss[i + 1]);
    }
    AlikeRegistered(shorts, args, Apply(args, ss[0]), ss[1..]);
  }

  lemma MentionNames(shorts: map<char, string>, args: map<string, Value>, s: Setting)
    requires Registered(shorts, args, s)
    ensures LongName(shorts, Mention(s)) == Some(s.name) && StartsWithDash(Mention(s))
  {
    if s.short.None? {
      assert Mention(s)[..2] == "--" && Mention(s)[2..] == s.name;
    }
  }

  /** The value of an option is read back and applied. */
  lemma ValueRead(rd: Readers, shorts: map<char, string>, args: map<string, Value>, s: Setting, argv: seq<string>,
                  offset: nat, rest: seq<string>)
    requires Registered(shorts, args, s) && Readable(rd, s.tokens, s.value, rest)
    requires offset <= |argv| && argv[offset..] == s.tokens + rest
    ensures var r := ParseArg(rd, argv, offset, args[s.name]);
            r.ok && r.offset == offset + |s.tokens| && args[s.name := r.value] == Apply(args, s)
  {
    hide ParseOne, ParseVector, StartsWithDash, Ended, Dashless;
    if !s.value.Flag? {
      ArgumentRead(rd, s.value, s.tokens, args[s.name], argv, offset, rest);
    }
  }

  lemma OneSetting(rd: Readers, shorts: map<char, string>, args: map<string, Value>, s: Setting, argv: seq<string>,
                   offset: nat, rest: seq<string>)
    requires Registered(shorts, args, s) && Readable(rd, s.tokens, s.value, rest)
    requires offset <= |argv| && argv[offset..] == PrintOne(s) + rest
    ensures ParseOptions(rd, shorts, args, argv, offset)
         == ParseOptions(rd, shorts, Apply(args, s), argv, offset + |PrintOne(s)|)
  {
    hide ParseOptions, ParseArg, LongName, Mention, StartsWithDash, Readable, Kind, Apply;
    assert argv[offset] == argv[offset..][0] == Mention(s);
    assert argv[offset + 1..] == argv[offset..][1..] == s.tokens + rest;
    MentionNames(shorts, args, s);
    OptionStep(rd, shorts, args, argv, offset, s.name);
    ValueRead(rd, shorts, args, s, argv, offset + 1, rest);
  }

  lemma PrintNothing(tail: seq<string>)
    ensures Print([]) + tail == tail
  {
  }

  lemma PrintSplit(ss: seq<Setting>, tail: seq<string>)
    requires ss != []
    ensures Print(ss) + tail == PrintOne(ss[0]) + (Print(ss[1..]) + tail)
  {
    hide PrintOne;
  }

  /** The option loop reads printed settings, applying one after another, and goes on with what follows them. */
  lemma {:induction false} PrintParse(rd: Readers, shorts: map<char, string>, args: map<string, Value>,
                                      ss: seq<Setting>, argv: seq<string>, offset: nat, tail: seq<string>)
    requires AllRegistered(shorts, args, ss) && AllReadable(rd, ss, tail)
    requires offset <= |argv| && argv[offset..] == Print(ss) + tail
    ensures ParseOptions(rd, shorts, args, argv, offset)
         == ParseOptions(rd, shorts, ApplyAll(args, ss), argv, |argv| - |tail|)
    decreases |ss|
  {
    hide ParseOptions, Readable, AllRegistered, Registered, Mention, Apply, Print, PrintOne;
    if ss == [] {
      PrintNothing(tail);
    } else {
      var p, rest := PrintOne(ss[0]), Print(ss[1..]) + tail;
      PrintSplit(ss, tail);
      assert argv[offset + |p|..] == argv[offset..][|p|..] == rest;
      RestRegistered(shorts, args, ss);
      OneSetting(rd, shorts, args, ss[0], argv, offset, rest);
      PrintParse(rd, shorts, Apply(args, ss[0]), ss[1..], argv, offset + |p|, tail);
    }
  }

  /** How often a command line mentions an option. */
  function Mentions(ss: seq<Setting>, name: string): nat {
    if ss == [] then 0 else (if ss[0].name == name then 1 else 0) + Mentions(ss[1..], name)
  }

  ghost predicate LastAt(ss: seq<Setting>, name: string, k: nat) {
    k < |ss| && ss[k].name == name && forall j :: k < j < |ss| ==> ss[j].name != name
  }

  lemma {:induction false} NotMentioned(ss: seq<Setting>, name: string)
    ensures Mentions(ss, name) == 0 <==> forall k :: 0 <= k < |ss| ==> ss[k].name != name
  {
    if ss != [] {
      NotMentioned(ss[1..], name);
      assert forall k :: 0 <= k < |ss[1..]| ==> ss[1..][k] == ss[k + 1];
      assert ss == [ss[0]] + ss[1..];
    }
  }

  lemma KindOfFlag(v: Value, w: Value)
    requires SameKind(v, w)
    ensures v.Flag? <==> w.Flag?
  {
  }

  /** What the settings leave: flags toggled once a mention, other options at their last value or as they were. */
  lemma {:induction false} AppliedValues(shorts: map<char, string>, args: map<string, Value>, ss: seq<Setting>,
                                         name: string)
    requires AllRegistered(shorts, args, ss) && name in args
    ensures name in ApplyAll(args, ss)
    ensures args[name].Flag? ==>
      ApplyAll(args, ss)[name] == Flag(if Mentions(ss, name) % 2 == 0 then args[name].on else !args[name].on)
    ensures !args[name].Flag? ==> forall k: nat :: LastAt(ss, name, k) ==> ApplyAll(args, ss)[name] == ss[k].value
    ensures Mentions(ss, name) == 0 ==> ApplyAll(args, ss)[name] == args[name]
    decreases |ss|
  {
    hide AllRegistered, Kind;
    if ss != [] {
      RestRegistered(shorts, args, ss);
      AppliedValues(shorts, Apply(args, ss[0]), ss[1..], name);
      KindOfFlag(args[ss[0].name], ss[0].value);
      if !args[name].Flag? {
        forall k: nat | LastAt(ss, name, k) ensures ApplyAll(args, ss)[name] == ss[k].value {
          if k > 0 {
            assert LastAt(ss[1..], name, k - 1);
          } else {
            assert forall j :: 0 <= j < |ss[1..]| ==> ss[1..][j] == ss[j + 1];
            NotMentioned(ss[1..], name);
          }
        }
      }
    }
  }

  // ----- required arguments -----

  /** What is given for one required argument. */
  datatype Given = Given(value: Value, tokens: seq<string>)

  function PrintGiven(given: seq<Given>): seq<string> {
    if given == [] then [] else given[0].tokens + PrintGiven(given[1..])
  }

  /** The values fit the required arguments and can be read back in front of what follows, which is tail in the end. */
  predicate AllGiven(rd: Readers, required: seq<string>, args: map<string, Value>, given: seq<Given>, tail: seq<string>)
  {
    && |given| == |required|
    && (given != [] ==>
          && required[0] in args && SameKind(args[required[0]], given[0].value) && !given[0].value.Flag?
          && Readable(rd, given[0].tokens, given[0].value, PrintGiven(given[1..]) + tail)
          && AllGiven(rd, required[1..], args, given[1..], tail))
  }

  function Assigned(args: map<string, Value>, required: seq<string>, given: seq<Given>): map<string, Value>
    requires |given| == |required|
    decreases |given|
  {
    if given == [] then args else Assigned(args[required[0] := given[0].value], required[1..], given[1..])
  }

  lemma {:induction false} AlikeGiven(rd: Readers, required: seq<string>, args: map<string, Value>,
                                      args': map<string, Value>, given: seq<Given>, tail: seq<string>)
    requires Alike(args, args') && AllGiven(rd, required, args, given, tail)
    ensures AllGiven(rd, required, args', given, tail)
    decreases |given|
  {
    hide Kind, Readable;
    if given != [] {
      assert required[0] in args'.Keys;
      AlikeGiven(rd, required[1..], args, args', given[1..], tail);
    }
  }

  lemma {:induction false} AssignedAlike(rd: Readers, required: seq<string>, args: map<string, Value>,
                                         given: seq<Given>, tail: seq<string>)
    requires AllGiven(rd, required, args, given, tail)
    ensures Alike(args, Assigned(args, required, given))
    decreases |given|
  {
    hide Kind, Readable;
    if given != [] {
      var next := args[required[0] := given[0].value];
      assert next.Keys == args.Keys;
      AlikeGiven(rd, required[1..], args, next, given[1..], tail);
      AssignedAlike(rd, required[1..], next, given[1..], tail);
    }
  }

  /** With distinct names the i-th required argument has the i-th value, and everything else is as it was. */
  lemma {:induction false} AssignedValues(args: map<string, Value>, required: seq<string>, given: seq<Given>)
    requires |given| == |required| && forall i, j :: 0 <= i < j < |required| ==> required[i] != required[j]
    ensures forall i :: 0 <= i < |required| ==>
      required[i] in Assigned(args, required, given) && Assigned(args, required, given)[required[i]] == given[i].value
    ensures forall n :: n in args && n !in required ==>
      n in Assigned(args, required, given) && Assigned(args, required, given)[n] == args[n]
    decreases |given|
  {
    if given != [] {
      var next := args[required[0] := given[0].value];
      AssignedValues(next, required[1..], given[1..]);
      assert required[0] !in required[1..];
      assert forall i :: 0 < i < |required| ==> required[i] == required[1..][i - 1] && given[i] == given[1..][i - 1];
    }
  }

  lemma {:induction false} GivenParse(rd: Readers, required: seq<string>, args: map<string, Value>, given: seq<Given>,
                                      argv: seq<string>, offset: nat, tail: seq<string>)
    requires AllGiven(rd, required, args, given, tail) && forall n :: n in required ==> n in args
    requires offset <= |argv| && argv[offset..] == PrintGiven(given) + tail
    ensures ParsePositional(rd, required, args, argv, offset)
         == Parsed(true, Assigned(args, required, given), |argv| - |tail|)
    decreases |given|
  {
    hide ParseArg, Readable, Kind, ParsePositional;
    if given == [] {
      assert PrintGiven(given) + tail == tail;
      NoPositional(rd, args, argv, offset);
    } else {
      PositionalStep(rd, required, args, argv, offset);
      var ts, rest := given[0].tokens, PrintGiven(given[1..]) + tail;
      var next := args[required[0] := given[0].value];
      assert PrintGiven(given) + tail == ts + rest;
      assert argv[offset + |ts|..] == argv[offset..][|ts|..] == rest;
      ArgumentRead(rd, given[0].value, ts, args[required[0]], argv, offset, rest);
      assert next.Keys == args.Keys;
      AlikeGiven(rd, required[1..], args, next, given[1..], tail);
      GivenParse(rd, required[1..], next, given[1..], argv, offset + |ts|, tail);
    }
  }

  // ----- whole command lines -----

  function Line(program: string, given: seq<Given>, ss: seq<Setting>, tail: seq<string>): seq<string> {
    [program] + PrintGiven(given) + Print(ss) + tail
  }

  lemma LineEnds(program: string, given: seq<Given>, ss: seq<Setting>, tail: seq<string>)
    ensures var argv := Line(program, given, ss, tail);
            |argv| > |tail| && forall k :: 0 <= k < |tail| ==> argv[|argv| - |tail| + k] == tail[k]
    ensures tail != [] ==> var argv := Line(program, given, ss, tail); argv[|argv| - |tail|] == tail[0]
  {
    hide Print, PrintGiven;
    var argv := Line(program, given, ss, tail);
    assert tail != [] ==> argv[|argv| - |tail| + 0] == tail[0];
  }

  lemma GivenCount(rd: Readers, required: seq<string>, args: map<string, Value>, given: seq<Given>, tail: seq<string>)
    requires AllGiven(rd, required, args, given, tail)
    ensures |given| == |required|
  {
  }

  /** Required values and then options are read as they were printed, and the option loop goes on with what follows. */
  lemma LinePrefix(rd: Readers, required: seq<string>, shorts: map<char, string>, args: map<string, Value>,
                   program: string, given: seq<Given>, ss: seq<Setting>, tail: seq<string>)
    requires forall n :: n in required ==> n in args
    requires AllGiven(rd, required, args, given, Print(ss) + tail)
    requires AllRegistered(shorts, args, ss) && AllReadable(rd, ss, tail)
    ensures var argv := Line(program, given, ss, tail);
            ParseAll(rd, required, shorts, args, argv)
              == if |argv| <= |required| then Outcome(false, args)
                 else ParseOptions(rd, shorts, ApplyAll(Assigned(args, required, given), ss), argv, |argv| - |tail|)
  {
    hide ParseOptions, ParsePositional, AllGiven, AllReadable, AllRegistered, ApplyAll, Assigned, Print, PrintGiven;
    var argv := Line(program, given, ss, tail);
    assert argv[1..] == PrintGiven(given) + (Print(ss) + tail);
    GivenParse(rd, required, args, given, argv, 1, Print(ss) + tail);
    GivenCount(rd, required, args, given, Print(ss) + tail);
    AssignedAlike(rd, required, args, given, Print(ss) + tail);
    var values := Assigned(args, required, given);
    AlikeRegistered(shorts, args, values, ss);
    var start := |argv| - |Print(ss) + tail|;
    assert argv[start..] == Print(ss) + tail;
    PrintParse(rd, shorts, values, ss, argv, start, tail);
  }

  /**
   * Printing a value for each required argument and any settings, and parsing
   * the line, succeeds if and only if the line is not shorter than the number
   * of required arguments, which takes an empty vector; it then assigns the
   * required values and applies the settings one after another.
   */
  lemma LineParses(rd: Readers, required: seq<string>, shorts: map<char, string>, args: map<string, Value>,
                   program: string, given: seq<Given>, ss: seq<Setting>)
    requires forall n :: n in required ==> n in args
    requires AllGiven(rd, required, args, given, Print(ss))
    requires AllRegistered(shorts, args, ss) && AllReadable(rd, ss, [])
    ensures |given| == |required|
    ensures var argv := Line(program, given, ss, []);
            ParseAll(rd, required, shorts, args, argv)
              == if |argv| <= |required| then Outcome(false, args)
                 else Outcome(true, ApplyAll(Assigned(args, required, given), ss))
  {
    hide ParseOptions, ParseAll, AllGiven, AllReadable, AllRegistered, ApplyAll, Assigned;
    GivenCount(rd, required, args, given, Print(ss));
    assert Print(ss) + [] == Print(ss);
    LinePrefix(rd, required, shorts, args, program, given, ss, []);
    EndOfOptions(rd, shorts, ApplyAll(Assigned(args, required, given), ss), Line(program, given, ss, []),
                 |Line(program, given, ss, [])|);
  }

  /** Neither `-c` with a registered c nor `--name` with a registered name of two or more characters. */
  predicate NotAnOption(shorts: map<char, string>, args: map<string, Value>, bad: string) {
    && (forall c :: c in shorts ==> bad != ['-', c])
    && (forall name :: name in args && |name| >= 2 ==> bad != "--" + name)
  }

  lemma NamesNothing(shorts: map<char, string>, args: map<string, Value>, bad: string)
    requires NotAnOption(shorts, args, bad)
    ensures LongName(shorts, bad).Some? ==> LongName(shorts, bad).value !in args
  {
    if |bad| == 2 && bad[0] == '-' {
      assert bad == ['-', bad[1]];
    } else if |bad| >= 4 && bad[..2] == "--" {
      assert bad == "--" + bad[2..];
    }
  }

  lemma UnknownStops(rd: Readers, shorts: map<char, string>, args: map<string, Value>, argv: seq<string>, offset: nat)
    requires offset < |argv| && NotAnOption(shorts, args, argv[offset])
    ensures ParseOptions(rd, shorts, args, argv, offset) == Outcome(false, args)
  {
    hide ParseOptions, LongName, NotAnOption;
    NamesNothing(shorts, args, argv[offset]);
    OptionStop(rd, shorts, args, argv, offset);
  }

  lemma {:induction false} AppliedAlike(shorts: map<char, string>, args: map<string, Value>, ss: seq<Setting>)
    requires AllRegistered(shorts, args, ss)
    ensures Alike(args, ApplyAll(args, ss))
    decreases |ss|
  {
    hide Kind, AllRegistered;
    if ss != [] {
      RestRegistered(shorts, args, ss);
      AppliedAlike(shorts, Apply(args, ss[0]), ss[1..]);
    }
  }

  /** The values in front of tail: of the same kinds as at the start. */
  lemma ValuesAlike(rd: Readers, required: seq<string>, shorts: map<char, string>, args: map<string, Value>,
                    given: seq<Given>, ss: seq<Setting>, tail: seq<string>)
    requires AllGiven(rd, required, args, given, tail) && AllRegistered(shorts, args, ss)
    ensures |given| == |required| && Alike(args, ApplyAll(Assigned(args, required, given), ss))
  {
    hide AllRegistered, Kind, ApplyAll, Assigned, Readable;
    var values := Assigned(args, required, given);
    AssignedAlike(rd, required, args, given, tail);
    AlikeRegistered(shorts, args, values, ss);
    AppliedAlike(shorts, values, ss);
  }

  lemma StillNoOption(shorts: map<char, string>, args: map<string, Value>, args': map<string, Value>, bad: string)
    requires Alike(args, args') && NotAnOption(shorts, args, bad)
    ensures NotAnOption(shorts, args', bad)
  {
    assert forall name :: name in args' ==> name in args'.Keys;
  }

  /** An argument that is no option ends the parse with false, and leaves what was set in front of it. */
  lemma UnknownOptionRejected(rd: Readers, required: seq<string>, shorts: map<char, string>, args: map<string, Value>,
                              program: string, given: seq<Given>, ss: seq<Setting>, tail: seq<string>)
    requires forall n :: n in required ==> n in args
    requires AllGiven(rd, required, args, given, Print(ss) + tail)
    requires AllRegistered(shorts, args, ss) && AllReadable(rd, ss, tail)
    requires tail != [] && NotAnOption(shorts, args, tail[0])
    ensures |given| == |required|
    ensures var argv := Line(program, given, ss, tail);
            ParseAll(rd, required, shorts, args, argv)
              == Outcome(false, if |argv| <= |required| then args else ApplyAll(Assigned(args, required, given), ss))
  {
    hide ParseOptions, ParseAll, AllGiven, AllReadable, AllRegistered, ApplyAll, Assigned, NotAnOption, Alike, Line,
         Print, PrintGiven;
    var argv := Line(program, given, ss, tail);
    ValuesAlike(rd, required, shorts, args, given, ss, Print(ss) + tail);
    LinePrefix(rd, required, shorts, args, program, given, ss, tail);
    LineEnds(program, given, ss, tail);
    var values := ApplyAll(Assigned(args, required, given), ss);
    StillNoOption(shorts, args, values, tail[0]);
    UnknownStops(rd, shorts, values, argv, |argv| - |tail|);
  }

  /** The reader refuses the text as (an element of) a value of this kind. */
  predicate Refused(rd: Readers, v: Value, t: string) {
    match v
    case Letter(_) => |t| != 1
    case Int(_) => rd.int_(t).None?
    case Real(_) => rd.real_(t).None?
    case Ints(_) => !StartsWithDash(t) && rd.int_(t).None?
    case Reals(_) => !StartsWithDash(t) && rd.real_(t).None?
    case _ => false
  }

  /** What a refused text leaves: vectors are emptied, other values stay. */
  function AfterRefusal(v: Value): Value {
    match v
    case Ints(_) => Ints([])
    case Reals(_) => Reals([])
    case _ => v
  }

  lemma {:induction false} ManyRefused<T(!new)>(argv: seq<string>, offset: nat, items: seq<T>, k: nat,
                                                read: string -> Option<T>)
    requires offset + k < |argv| && Dashless(argv[offset..offset + k])
    requires forall i :: offset <= i < offset + k ==> read(argv[i]).Some?
    requires !StartsWithDash(argv[offset + k]) && read(argv[offset + k]).None?
    ensures ParseMany(argv, offset, items, read) == Parsed(false, [], offset + k + 1)
    decreases k
  {
    if k > 0 {
      assert argv[offset] == argv[offset..offset + k][0];
      assert argv[offset + 1..offset + k] == argv[offset..offset + k][1..];
      ManyRefused(argv, offset + 1, items + [read(argv[offset]).value], k - 1, read);
    }
  }

  /** An element of a numeric vector that cannot be read, behind any number that can, empties the vector and fails. */
  lemma RefusedElement(rd: Readers, v: Value, argv: seq<string>, offset: nat, k: nat)
    requires offset + k < |argv| && Dashless(argv[offset..offset + k]) && (v.Ints? || v.Reals?)
    requires forall i :: offset <= i < offset + k ==> !Refused(rd, v, argv[i])
    requires Refused(rd, v, argv[offset + k])
    ensures !ParseArg(rd, argv, offset, v).ok && ParseArg(rd, argv, offset, v).value == AfterRefusal(v)
  {
    forall i | offset <= i < offset + k ensures !StartsWithDash(argv[i]) {
      assert argv[i] == argv[offset..offset + k][i - offset];
    }
    if v.Ints? {
      ManyRefused(argv, offset, [], k, rd.int_);
    } else {
      ManyRefused(argv, offset, [], k, rd.real_);
    }
  }

  lemma RefusedOrMissing(rd: Readers, v: Value, argv: seq<string>, offset: nat)
    requires !v.Flag? && (offset >= |argv| || Refused(rd, v, argv[offset]))
    ensures !ParseArg(rd, argv, offset, v).ok
    ensures ParseArg(rd, argv, offset, v).value == if offset >= |argv| then v else AfterRefusal(v)
  {
    if offset < |argv| && (v.Ints? || v.Reals?) {
      RefusedElement(rd, v, argv, offset, 0);
    }
  }

  /** An option whose value is missing, or cannot be read, ends the parse with false; what was set before it stays. */
  lemma BadValueRejected(rd: Readers, required: seq<string>, shorts: map<char, string>, args: map<string, Value>,
                         program: string, given: seq<Given>, ss: seq<Setting>, s: Setting, tail: seq<string>)
    requires forall n :: n in required ==> n in args
    requires AllGiven(rd, required, args, given, Print(ss) + tail)
    requires AllRegistered(shorts, args, ss) && AllReadable(rd, ss, tail)
    requires Registered(shorts, args, s) && !s.value.Flag?
    requires tail != [] && tail[0] == Mention(s) && (|tail| == 1 || Refused(rd, s.value, tail[1]))
    ensures |given| == |required|
    ensures var argv := Line(program, given, ss, tail);
            var values := ApplyAll(Assigned(args, required, given), ss);
            && s.name in values
            && ParseAll(rd, required, shorts, args, argv)
                 == Outcome(false, if |argv| <= |required| then args
                                   else if |tail| == 1 then values
                                   else values[s.name := AfterRefusal(values[s.name])])
  {
    hide ParseOptions, ParseAll, ParseArg, AllGiven, AllReadable, AllRegistered, ApplyAll, Assigned, Mention, LongName,
         Line, Print, PrintGiven;
    var argv := Line(program, given, ss, tail);
    var offset := |argv| - |tail|;
    LinePrefix(rd, required, shorts, args, program, given, ss, tail);
    LineEnds(program, given, ss, tail);
    ValuesAlike(rd, required, shorts, args, given, ss, Print(ss) + tail);
    var values := ApplyAll(Assigned(args, required, given), ss);
    MentionNames(shorts, args, s);
    assert s.name in values.Keys && SameKind(values[s.name], s.value);
    assert |tail| > 1 ==> argv[offset + 1] == tail[1];
    OptionStep(rd, shorts, values, argv, offset, s.name);
    RefusedOrMissing(rd, values[s.name], argv, offset + 1);
    assert values[s.name := values[s.name]] == values;
  }

  // ----- exactly which vectors survive -----

  lemma {:induction false} ManyDashless(argv: seq<string>, offset: nat, items: seq<string>)
    requires Dashless(items)
    ensures Dashless(ParseMany(argv, offset, items, AsText).value)
    decreases |argv| - offset
  {
    if offset < |argv| && !StartsWithDash(argv[offset]) {
      ManyDashless(argv, offset + 1, items + [argv[offset]]);
    }
  }

  lemma NoneDashless()
    ensures Dashless([])
  {
  }

  /** A vector of strings that holds no element with a dash, or the value it started with. */
  ghost predicate DashlessOr(old_: Value, args: map<string, Value>, name: string) {
    name in args && args[name].Texts? && (args[name] == old_ || Dashless(args[name].texts))
  }

  /** One argument of any kind, for this option or another one. */
  lemma ArgumentDashless(rd: Readers, args: map<string, Value>, argv: seq<string>, offset: nat, other: string,
                         name: string, old_: Value)
    requires DashlessOr(old_, args, name) && other in args
    ensures DashlessOr(old_, args[other := ParseArg(rd, argv, offset, args[other]).value], name)
  {
    hide ParseMany, ParseOne, Dashless;
    if other == name {
      NoneDashless();
      ManyDashless(argv, offset, []);
    }
  }

  lemma {:induction false} OptionsDashless(rd: Readers, shorts: map<char, string>, args: map<string, Value>,
                                           argv: seq<string>, offset: nat, name: string, old_: Value)
    requires DashlessOr(old_, args, name)
    ensures DashlessOr(old_, ParseOptions(rd, shorts, args, argv, offset).args, name)
    decreases |argv| - offset
  {
    hide LongName, ParseArg, DashlessOr;
    if offset < |argv| && LongName(shorts, argv[offset]).Some? && LongName(shorts, argv[offset]).value in args {
      var other := LongName(shorts, argv[offset]).value;
      var r := ParseArg(rd, argv, offset + 1, args[other]);
      ArgumentDashless(rd, args, argv, offset + 1, other, name, old_);
      if r.ok {
        OptionsDashless(rd, shorts, args[other := r.value], argv, r.offset, name, old_);
      }
    }
  }

  lemma {:induction false} PositionalDashless(rd: Readers, required: seq<string>, args: map<string, Value>,
                                              argv: seq<string>, offset: nat, name: string, old_: Value)
    requires DashlessOr(old_, args, name) && forall n :: n in required ==> n in args
    ensures DashlessOr(old_, ParsePositional(rd, required, args, argv, offset).value, name)
    decreases |required|
  {
    hide ParseArg, DashlessOr;
    if required != [] {
      var r := ParseArg(rd, argv, offset, args[required[0]]);
      ArgumentDashless(rd, args, argv, offset, required[0], name, old_);
      if r.ok {
        PositionalDashless(rd, required[1..], args[required[0] := r.value], argv, r.offset, name, old_);
      }
    }
  }

  /**
   * Whatever the command line says, a vector of strings, required or optional,
   * either keeps its value or holds no element that starts with a dash.
   */
  lemma SetVectorsDashless(rd: Readers, required: seq<string>, shorts: map<char, string>, args: map<string, Value>,
                           argv: seq<string>, name: string)
    requires (forall n :: n in required ==> n in args) && name in args && args[name].Texts?
    ensures var after := ParseAll(rd, required, shorts, args, argv).args;
            && name in after && after[name].Texts?
            && (after[name] == args[name] || Dashless(after[name].texts))
  {
    var old_ := args[name];
    if !(1 <= |argv| <= |required|) {
      var p := ParsePositional(rd, required, args, argv, 1);
      PositionalDashless(rd, required, args, argv, 1, name, old_);
      if p.ok {
        OptionsDashless(rd, shorts, p.value, argv, p.offset, name, old_);
      }
    }
  }

  /** Once it has been set on the command line, a vector without dashes is only ever replaced by another one. */
  lemma DashlessStays(rd: Readers, shorts: map<char, string>, args: map<string, Value>, argv: seq<string>, offset: nat,
                      name: string)
    requires name in args && args[name].Texts? && Dashless(args[name].texts)
    ensures var after := ParseOptions(rd, shorts, args, argv, offset).args;
            name in after && after[name].Texts? && Dashless(after[name].texts)
  {
    hide ParseOptions;
    OptionsDashless(rd, shorts, args, argv, offset, name, args[name]);
  }

  lemma RegisteredVector(shorts: map<char, string>, args: map<string, Value>, s: Setting)
    requires Registered(shorts, args, s) && s.value.Texts?
    ensures s.name in args && args[s.name].Texts?
  {
  }

  /** A vector of strings that cannot be read back is lost, whatever follows it. */
  lemma BadVector(rd: Readers, shorts: map<char, string>, args: map<string, Value>, argv: seq<string>, offset: nat,
                  name: string, ts: seq<string>, rest: seq<string>)
    requires offset < |argv| && LongName(shorts, argv[offset]) == Some(name)
    requires name in args && args[name].Texts? && argv[offset + 1..] == ts + rest
    requires !Dashless(ts) || (ts == [] && rest == [])
    ensures var r := ParseOptions(rd, shorts, args, argv, offset);
            !(r.ok && name in r.args && r.args[name] == Texts(ts))
  {
    hide LongName, ParseMany, ParseOne, ParseOptions, Dashless;
    var p := ParseArg(rd, argv, offset + 1, args[name]);
    NoneDashless();
    ManyDashless(argv, offset + 1, []);
    OptionStep(rd, shorts, args, argv, offset, name);
    if p.ok {
      DashlessStays(rd, shorts, args[name := p.value], argv, p.offset, name);
    }
  }

  lemma ConsRegistered(shorts: map<char, string>, args: map<string, Value>, s: Setting, ss: seq<Setting>)
    requires Registered(shorts, args, s) && AllRegistered(shorts, args, ss)
    ensures AllRegistered(shorts, args, [s] + ss)
  {
    forall i | 0 <= i < |[s] + ss| ensures Registered(shorts, args, ([s] + ss)[i]) {
      if i > 0 { assert Registered(shorts, args, ss[i - 1]); }
    }
  }

  /** What follows a setting begins with a dash, or is nothing. */
  lemma PrintStarts(shorts: map<char, string>, args: map<string, Value>, ss: seq<Setting>)
    requires AllRegistered(shorts, args, ss)
    ensures Print(ss) == [] <==> ss == []
    ensures ss != [] ==> StartsWithDash(Print(ss)[0])
  {
    if ss != [] {
      assert Registered(shorts, args, ss[0]);
      MentionNames(shorts, args, ss[0]);
    }
  }

  lemma FirstPrinted(s: Setting, ss: seq<Setting>, argv: seq<string>, offset: nat)
    requires offset <= |argv| && argv[offset..] == Print([s] + ss)
    ensures offset < |argv| && argv[offset] == Mention(s) && argv[offset + 1..] == s.tokens + Print(ss)
  {
    hide Mention;
    assert ([s] + ss)[1..] == ss;
    assert argv[offset] == argv[offset..][0];
    assert argv[offset + 1..] == argv[offset..][1..] == (PrintOne(s) + Print(ss))[1..];
  }

  /**
   * On a whole line: a vector of strings, followed by any settings of other
   * options, comes back if and only if none of its elements starts with a dash
   * and it has one or another option follows.
   */
  lemma VectorSurvivesIff(rd: Readers, shorts: map<char, string>, args: map<string, Value>, s: Setting,
                          ss: seq<Setting>, argv: seq<string>, offset: nat)
    requires Registered(shorts, args, s) && s.value == Texts(s.tokens)
    requires AllRegistered(shorts, args, ss) && AllReadable(rd, ss, []) && Mentions(ss, s.name) == 0
    requires offset <= |argv| && argv[offset..] == Print([s] + ss)
    ensures var r := ParseOptions(rd, shorts, args, argv, offset);
            (r.ok && s.name in r.args && r.args[s.name] == s.value)
              <==> Dashless(s.tokens) && (s.tokens != [] || ss != [])
  {
    hide LongName, ParseOptions, Print, Registered, Dashless, AllRegistered, Mentions, Mention, StartsWithDash;
    var all := [s] + ss;
    FirstPrinted(s, ss, argv, offset);
    MentionNames(shorts, args, s);
    RegisteredVector(shorts, args, s);
    PrintStarts(shorts, args, ss);
    if Dashless(s.tokens) && (s.tokens != [] || ss != []) {
      ConsRegistered(shorts, args, s, ss);
      assert Print(ss) + [] == Print(ss) && all[1..] == ss;
      assert AllReadable(rd, all, []);
      assert argv[offset..] == Print(all) + [];
      PrintParse(rd, shorts, args, all, argv, offset, []);
      EndOfOptions(rd, shorts, ApplyAll(args, all), argv, |argv|);
      assert LastAt(all, s.name, 0) by {
        NotMentioned(ss, s.name);
        assert forall j :: 0 < j < |all| ==> all[j] == ss[j - 1];
      }
      AppliedValues(shorts, args, all, s.name);
    } else {
      BadVector(rd, shorts, args, argv, offset, s.name, s.tokens, Print(ss));
    }
  }

  // ----- the parser object -----

  /** Parsing a printed line: the round trip on the parser object. */
  method PrintAndParse(parser: ArgumentParser, program: string, given: seq<Given>, ss: seq<Setting>) returns (ok: bool)
    requires parser.Valid() && AllGiven(parser.readers, parser.required, parser.args, given, Print(ss))
    requires AllRegistered(parser.shortToLong, parser.args, ss) && AllReadable(parser.readers, ss, [])
    modifies parser`args
    ensures ok <==> |PrintGiven(given)| + |Print(ss)| >= |parser.required|
    ensures |given| == |parser.required| && parser.args.Keys == old(parser.args).Keys
    ensures parser.args ==
      if ok then ApplyAll(Assigned(old(parser.args), parser.required, given), ss) else old(parser.args)
  {
    hide Print, PrintGiven, ParseAll, AllGiven, AllRegistered, AllReadable, ApplyAll, Assigned;
    var argv := Line(program, given, ss, []);
    LineParses(parser.readers, parser.required, parser.shortToLong, parser.args, program, given, ss);
    ok := parser.Parse(argv);
  }
}
