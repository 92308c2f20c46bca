/** The event half of the scanner: an argument list is compiled to the decoding walk of
    Dispatch and to the zombie walk of AbsorbNewIDs. Both run on one small machine. */
module Decoder {
  import opened Wire
  import opened Registry
  import opened Signature

  /** The emitted statements. A number names the argument whose variable is meant. */
  datatype Op =
    | LoadId(arg: nat)                       // xID := Uint32(data[l:l+4])
    | BindNew(arg: nat, kind: Kind)          // the live proxy of that type at xID, else a registered new one
    | BindRef(arg: nat, kind: Kind)          // the live proxy of that type at xID, else nil
    | LoadRef                                // e.X = GetProxy(Uint32(data[l:l+4]))
    | Placeholder(arg: nat, kind: Kind)      // if xID != 0, register a proxy there and mark it zombie
    | TakeFD                                 // e.X = fd
    | LoadUint
    | LoadInt
    | LoadFixed
    | NeedLength                             // if len(data)-l < 4 panic
    | LoadLength(arg: nat)                   // xWireLen := Uint32(data[l:l+4])
    | NeedBytes(arg: nat)                    // if uint64(xWireLen) > uint64(len(data)-l) panic
    | NeedPadding(arg: nat)                  // if PaddedLen(xLen) > len(data)-l panic
    | CopyString(arg: nat, allowNull: bool)
    | CopyArray(arg: nat)
    | Advance
    | AdvancePadded(arg: nat)

  /** A field of the decoded event. bound says whether a proxy field is non-nil. */
  datatype Field =
    | RefF(id: Word, bound: bool)
    | NewF(id: Word, bound: bool)
    | UintF(w: Word)
    | IntF(i: Int32)
    | FixedF(raw: Int32)
    | StringF(text: Option<seq<byte>>)
    | ArrayF(data: seq<byte>)
    | FdF(fd: int)

  /** The cursor l, the event so far, the object map, and a log of the new_id arguments met:
      the offset each was read at and its ID. */
  datatype Walked = Walked(l: nat, fields: seq<Field>, objects: Objects, intros: seq<(nat, Word)>)

  /** Go's local variables besides l and e. */
  datatype Machine = Machine(w: Walked, ids: map<nat, Word>, lens: map<nat, Word>)

  /** Panic carries the object map: registrations made before the panic stay. */
  datatype Outcome<+T> = Next(s: T) | Panic(objects: Objects)

  // ---- compilation

  function DecodeFor(k: nat, a: Arg): seq<Op> {
    match a
    case NewId(Some(kind)) => [LoadId(k), BindNew(k, kind), Advance]
    case NewId(None) => [LoadRef, Advance]
    case Object(Some(kind), _) => [LoadId(k), BindRef(k, kind), Advance]
    case Object(None, _) => [LoadRef, Advance]
    case Fd => [TakeFD]
    case Uint => [LoadUint, Advance]
    case Int => [LoadInt, Advance]
    case Fixed => [LoadFixed, Advance]
    case String(allowNull) =>
      [NeedLength, LoadLength(k), Advance, NeedBytes(k), NeedPadding(k), CopyString(k, allowNull), AdvancePadded(k)]
    case Array =>
      [NeedLength, LoadLength(k), Advance, NeedBytes(k), NeedPadding(k), CopyArray(k), AdvancePadded(k)]
  }

  function AbsorbFor(k: nat, a: Arg): seq<Op> {
    match a
    case NewId(Some(kind)) => [LoadId(k), Placeholder(k, kind), Advance]
    case NewId(None) => [Advance]
    case Object(Some(_), _) => [LoadId(k), Advance]
    case Object(None, _) => [Advance]
    case Fd => []
    case Uint => [Advance]
    case Int => [Advance]
    case Fixed => [Advance]
    case String(_) => [NeedLength, LoadLength(k), Advance, NeedBytes(k), AdvancePadded(k)]
    case Array => [NeedLength, LoadLength(k), Advance, NeedBytes(k), AdvancePadded(k)]
  }

  function CompileDecoder(args: seq<Arg>): seq<Op> {
    if args == [] then []
    else CompileDecoder(args[..|args| - 1]) + DecodeFor(|args| - 1, args[|args| - 1])
  }

  function CompileAbsorber(args: seq<Arg>): seq<Op> {
    if args == [] then []
    else CompileAbsorber(args[..|args| - 1]) + AbsorbFor(|args| - 1, args[|args| - 1])
  }

  // ---- the machine

  /** The conversion of a Go int to uint64. */
  function Unsigned64(i: int): nat {
    i % 0x1_0000_0000_0000_0000
  }

  /** data[l : l+4] as a word; a slice past the body panics. */
  function WordAt(data: seq<byte>, l: nat): Option<Word> {
    if l + 4 <= |data| then Some(Uint32(data[l..l + 4])) else None
  }

  /** A string body: up to its first NUL, which must be there. */
  function TextIn(data: seq<byte>, l: nat, n: nat): Option<seq<byte>> {
    if l + n > |data| then None
    else if FirstNul(data[l..l + n]) == n then None
    else Some(CString(data[l..l + n]))
  }

  function WithField(w: Walked, f: Field): Walked {
    w.(fields := w.fields + [f])
  }

  /** The new_id rule of Dispatch. */
  function Introduce(w: Walked, id: Word, kind: Kind): Outcome<Walked> {
    var noted := w.(intros := w.intros + [(w.l, id)]);
    if LiveOf(w.objects, id, kind) then Next(WithField(noted, NewF(id, true)))
    else if id != 0 then
      match RegisterWithID(w.objects, id, Obj(kind, false))
      case None => Panic(w.objects)
      case Some(o) => Next(WithField(noted.(objects := o), NewF(id, true)))
    else Next(WithField(noted, NewF(id, false)))
  }

  /** The new_id rule of AbsorbNewIDs. */
  function Absorb(w: Walked, id: Word, kind: Kind): Outcome<Walked> {
    var noted := w.(intros := w.intros + [(w.l, id)]);
    if id == 0 then Next(noted)
    else
      match RegisterWithID(w.objects, id, Obj(kind, true))
      case None => Panic(w.objects)
      case Some(o) => Next(noted.(objects := o))
  }

  function Lift(m: Machine, r: Outcome<Walked>): Outcome<Machine> {
    match r case Next(w) => Next(m.(w := w)) case Panic(o) => Panic(o)
  }

  function Step(op: Op, m: Machine, data: seq<byte>, fd: int): Outcome<Machine> {
    var w := m.w;
    var here := WordAt(data, w.l);
    var room: int := |data| - w.l;
    match op
    case LoadId(k) =>
      if here.None? then Panic(w.objects) else Next(m.(ids := m.ids[k := here.value]))
    case BindNew(k, kind) =>
      if k !in m.ids then Panic(w.objects) else Lift(m, Introduce(w, m.ids[k], kind))
    case BindRef(k, kind) =>
      if k !in m.ids then Panic(w.objects)
      else Next(m.(w := WithField(w, RefF(m.ids[k], LiveOf(w.objects, m.ids[k], kind)))))
    case LoadRef =>
      if here.None? then Panic(w.objects)
      else Next(m.(w := WithField(w, RefF(here.value, here.value in w.objects))))
    case Placeholder(k, kind) =>
      if k !in m.ids then Panic(w.objects) else Lift(m, Absorb(w, m.ids[k], kind))
    case TakeFD => Next(m.(w := WithField(w, FdF(fd))))
    case LoadUint =>
      if here.None? then Panic(w.objects) else Next(m.(w := WithField(w, UintF(here.value))))
    case LoadInt =>
      if here.None? then Panic(w.objects) else Next(m.(w := WithField(w, IntF(ToInt32(here.value)))))
    case LoadFixed =>
      if here.None? then Panic(w.objects) else Next(m.(w := WithField(w, FixedF(ToInt32(here.value)))))
    case NeedLength => if room < 4 then Panic(w.objects) else Next(m)
    case LoadLength(k) =>
      if here.None? then Panic(w.objects) else Next(m.(lens := m.lens[k := here.value]))
    case NeedBytes(k) =>
      if k !in m.lens || m.lens[k] > Unsigned64(room) then Panic(w.objects) else Next(m)
    case NeedPadding(k) =>
      if k !in m.lens || PaddedLen(m.lens[k]) > room then Panic(w.objects) else Next(m)
    case CopyString(k, allowNull) =>
      if k !in m.lens then Panic(w.objects)
      else if allowNull && m.lens[k] == 0 then Next(m.(w := WithField(w, StringF(None))))
      else
        (match TextIn(data, w.l, m.lens[k])
         case None => Panic(w.objects)
         case Some(s) => Next(m.(w := WithField(w, StringF(Some(s))))))
    case CopyArray(k) =>
      if k !in m.lens || w.l + m.lens[k] > |data| then Panic(w.objects)
      else Next(m.(w := WithField(w, ArrayF(data[w.l..w.l + m.lens[k]]))))
    case Advance => Next(m.(w := w.(l := w.l + 4)))
    case AdvancePadded(k) =>
      if k !in m.lens then Panic(w.objects) else Next(m.(w := w.(l := w.l + PaddedLen(m.lens[k]))))
  }

  function Run(ops: seq<Op>, m: Machine, data: seq<byte>, fd: int): Outcome<Machine> {
    if ops == [] then Next(m)
    else
      var r := Run(ops[..|ops| - 1], m, data, fd);
      if r.Panic? then r else Step(ops[|ops| - 1], r.s, data, fd)
  }

  /** Goes on with more statements unless there was a panic. */
  function Chain(r: Outcome<Machine>, ops: seq<Op>, data: seq<byte>, fd: int): Outcome<Machine> {
    if r.Panic? then r else Run(ops, r.s, data, fd)
  }

  function Start(o: Objects): Machine {
    Machine(Walked(0, [], o, []), map[], map[])
  }

  function Result(r: Outcome<Machine>): Outcome<Walked> {
    match r case Next(m) => Next(m.w) case Panic(o) => Panic(o)
  }

  /** The body of one case of the generated Dispatch, up to the handler. */
  function Decode(args: seq<Arg>, o: Objects, data: seq<byte>, fd: int): Outcome<Walked> {
    Result(Run(CompileDecoder(args), Start(o), data, fd))
  }

  /** The body of one case of the generated AbsorbNewIDs. */
  function AbsorbAll(args: seq<Arg>, o: Objects, data: seq<byte>): Outcome<Walked> {
    Result(Run(CompileAbsorber(args), Start(o), data, -1))
  }

  // ---- what the compiled code does to one argument

  /** The length word, the bound checks and the new cursor shared by strings and arrays.
      With padded, the padding is checked too. */
  function Measure(data: seq<byte>, l: nat, padded: bool): Option<Word> {
    var room: int := |data| - l;
    if room < 4 then None
    else
      var n := Uint32(data[l..l + 4]);
      if n > room - 4 || (padded && PaddedLen(n) > room - 4) then None else Some(n)
  }

  function DecodeArg(a: Arg, w: Walked, data: seq<byte>, fd: int): Outcome<Walked> {
    match a
    case Fd => Next(WithField(w, FdF(fd)))
    case String(allowNull) =>
      (match Measure(data, w.l, true)
       case None => Panic(w.objects)
       case Some(n) =>
         var w' := w.(l := w.l + 4 + PaddedLen(n));
         if allowNull && n == 0 then Next(WithField(w', StringF(None)))
         else
           match TextIn(data, w.l + 4, n)
           case None => Panic(w.objects)
           case Some(s) => Next(WithField(w', StringF(Some(s)))))
    case Array =>
      (match Measure(data, w.l, true)
       case None => Panic(w.objects)
       case Some(n) =>
         Next(WithField(w.(l := w.l + 4 + PaddedLen(n)), ArrayF(data[w.l + 4..w.l + 4 + n]))))
    case _ =>
      match WordAt(data, w.l)
      case None => Panic(w.objects)
      case Some(v) =>
        var r := match a
          case NewId(Some(kind)) => Introduce(w, v, kind)
          case NewId(None) => Next(WithField(w, RefF(v, v in w.objects)))
          case Object(Some(kind), _) => Next(WithField(w, RefF(v, LiveOf(w.objects, v, kind))))
          case Object(None, _) => Next(WithField(w, RefF(v, v in w.objects)))
          case Int => Next(WithField(w, IntF(ToInt32(v))))
          case Fixed => Next(WithField(w, FixedF(ToInt32(v))))
          case _ => Next(WithField(w, UintF(v)));
        match r case Panic(o) => Panic(o) case Next(w') => Next(w'.(l := w.l + 4))
  }

  function AbsorbArg(a: Arg, w: Walked, data: seq<byte>): Outcome<Walked> {
    match a
    case Fd => Next(w)
    case NewId(Some(kind)) =>
      (match WordAt(data, w.l)
       case None => Panic(w.objects)
       case Some(v) =>
         match Absorb(w, v, kind) case Panic(o) => Panic(o) case Next(w') => Next(w'.(l := w.l + 4)))
    case Object(Some(_), _) =>
      if WordAt(data, w.l).None? then Panic(w.objects) else Next(w.(l := w.l + 4))
    case String(_) =>
      (match Measure(data, w.l, false)
       case None => Panic(w.objects)
       case Some(n) => Next(w.(l := w.l + 4 + PaddedLen(n))))
    case Array =>
      (match Measure(data, w.l, false)
       case None => Panic(w.objects)
       case Some(n) => Next(w.(l := w.l + 4 + PaddedLen(n))))
    case _ => Next(w.(l := w.l + 4))
  }

  function DecodeArgs(args: seq<Arg>, w: Walked, data: seq<byte>, fd: int): Outcome<Walked> {
    if args == [] then Next(w)
    else
      match DecodeArgs(args[..|args| - 1], w, data, fd)
      case Panic(o) => Panic(o)
      case Next(w') => DecodeArg(args[|args| - 1], w', data, fd)
  }

  function AbsorbArgs(args: seq<Arg>, w: Walked, data: seq<byte>): Outcome<Walked> {
    if args == [] then Next(w)
    else
      match AbsorbArgs(args[..|args| - 1], w, data)
      case Panic(o) => Panic(o)
      case Next(w') => AbsorbArg(args[|args| - 1], w', data)
  }

  // ---- the compiled code does that

  lemma {:induction false} RunAppend(p: seq<Op>, q: seq<Op>, m: Machine, data: seq<byte>, fd: int)
    ensures Run(p + q, m, data, fd) == Chain(Run(p, m, data, fd), q, data, fd)
  {
    if q == [] {
      assert p + q == p;
    } else {
      assert (p + q)[..|p + q| - 1] == p + q[..|q| - 1];
      RunAppend(p, q[..|q| - 1], m, data, fd);
    }
  }

  lemma RunCons(op: Op, ops: seq<Op>, m: Machine, data: seq<byte>, fd: int)
    ensures Run([op] + ops, m, data, fd) ==
            Chain(Step(op, m, data, fd), ops, data, fd)
  {
    RunAppend([op], ops, m, data, fd);
    assert [op][..0] == [];
    assert Run([op], m, data, fd) == Step(op, m, data, fd);
  }

  lemma RunOne(op: Op, m: Machine, data: seq<byte>, fd: int)
    ensures Run([op], m, data, fd) == Step(op, m, data, fd)
  {
    RunCons(op, [], m, data, fd);
    assert [op] + [] == [op];
  }

  lemma RunTwo(a: Op, b: Op, m: Machine, data: seq<byte>, fd: int)
    ensures Run([a, b], m, data, fd) ==
            var r := Step(a, m, data, fd);
            if r.Panic? then r else Step(b, r.s, data, fd)
  {
    RunCons(a, [b], m, data, fd);
    assert [a] + [b] == [a, b];
    var r := Step(a, m, data, fd);
    if r.Next? { RunOne(b, r.s, data, fd); }
  }

  lemma RunThree(a: Op, b: Op, c: Op, m: Machine, data: seq<byte>, fd: int)
    ensures Run([a, b, c], m, data, fd) ==
            Chain(Step(a, m, data, fd), [b, c], data, fd)
  {
    RunCons(a, [b, c], m, data, fd);
    assert [a] + [b, c] == [a, b, c];
  }

  lemma RoomIsUnsigned(room: int)
    requires 0 <= room < 0x1_0000_0000_0000_0000
    ensures Unsigned64(room) == room
  {
  }

  /** The two checks and the load in front of a string or an array. */
  lemma LengthSteps(k: nat, m: Machine, data: seq<byte>, fd: int)
    requires |data| < 0x1_0000_0000_0000_0000
    ensures var r := Run([NeedLength, LoadLength(k)], m, data, fd);
            if |data| - m.w.l < 4 then r == Panic(m.w.objects)
            else r == Next(m.(lens := m.lens[k := Uint32(data[m.w.l..m.w.l + 4])]))
    ensures k in m.lens && m.w.l + 4 <= |data| ==>
              Run([Advance, NeedBytes(k)], m, data, fd) ==
              if m.lens[k] > |data| - m.w.l - 4 then Panic(m.w.objects) else Next(m.(w := m.w.(l := m.w.l + 4)))
  {
    hide Unsigned64, PaddedLen, FirstNul, CString, Uint32, LiveOf, Run;
    RunTwo(NeedLength, LoadLength(k), m, data, fd);
    RunTwo(Advance, NeedBytes(k), m, data, fd);
    if m.w.l + 4 <= |data| { RoomIsUnsigned(|data| - m.w.l - 4); }
  }

  /** The first four statements of a string or an array. */
  lemma MeasurePrefix(k: nat, m: Machine, data: seq<byte>, fd: int)
    requires |data| < 0x1_0000_0000_0000_0000
    ensures var r := Run([NeedLength, LoadLength(k), Advance, NeedBytes(k)], m, data, fd);
            match Measure(data, m.w.l, false)
            case None => r == Panic(m.w.objects)
            case Some(n) => r == Next(m.(w := m.w.(l := m.w.l + 4), lens := m.lens[k := n]))
  {
    hide Step, Uint32, Run, PaddedLen;
    var p, q := [NeedLength, LoadLength(k)], [Advance, NeedBytes(k)];
    RunAppend(p, q, m, data, fd);
    assert p + q == [NeedLength, LoadLength(k), Advance, NeedBytes(k)];
    LengthSteps(k, m, data, fd);
    var r := Run(p, m, data, fd);
    if r.Next? { LengthSteps(k, r.s, data, fd); }
  }

  /** The last three statements, from the cursor behind the length word. */
  lemma CopySteps(k: nat, a: Arg, m: Machine, data: seq<byte>, fd: int)
    requires (a.String? || a.Array?) && k in m.lens && m.w.l + m.lens[k] <= |data|
    ensures var n := m.lens[k];
            var w' := m.w.(l := m.w.l + PaddedLen(n));
            var copy := if a.String? then CopyString(k, a.allowNull) else CopyArray(k);
            Result(Run([NeedPadding(k), copy, AdvancePadded(k)], m, data, fd)) ==
            if m.w.l + PaddedLen(n) > |data| then Panic(m.w.objects)
            else if a.Array? then Next(WithField(w', ArrayF(data[m.w.l..m.w.l + n])))
            else if a.allowNull && n == 0 then Next(WithField(w', StringF(None)))
            else match TextIn(data, m.w.l, n)
              case None => Panic(m.w.objects)
              case Some(s) => Next(WithField(w', StringF(Some(s))))
  {
    hide PaddedLen, TextIn, Run, LiveOf, Uint32;
    var copy := if a.String? then CopyString(k, a.allowNull) else CopyArray(k);
    RunThree(NeedPadding(k), copy, AdvancePadded(k), m, data, fd);
    if m.w.l + PaddedLen(m.lens[k]) <= |data| {
      RunTwo(copy, AdvancePadded(k), m, data, fd);
    }
  }

  lemma StringBlock(k: nat, a: Arg, m: Machine, data: seq<byte>, fd: int)
    requires a.String? || a.Array?
    requires |data| < 0x1_0000_0000_0000_0000
    ensures Result(Run(DecodeFor(k, a), m, data, fd)) == DecodeArg(a, m.w, data, fd)
    ensures Result(Run(AbsorbFor(k, a), m, data, fd)) == AbsorbArg(a, m.w, data)
  {
    hide PaddedLen, TextIn, Uint32, Run, LiveOf;
    var p := [NeedLength, LoadLength(k), Advance, NeedBytes(k)];
    var copy := if a.String? then CopyString(k, a.allowNull) else CopyArray(k);
    var q := [NeedPadding(k), copy, AdvancePadded(k)];
    assert DecodeFor(k, a) == p + q;
    assert AbsorbFor(k, a) == p + [AdvancePadded(k)];
    RunAppend(p, q, m, data, fd);
    RunAppend(p, [AdvancePadded(k)], m, data, fd);
    MeasurePrefix(k, m, data, fd);
    var n := Measure(data, m.w.l, false);
    if n.Some? {
      var m' := m.(w := m.w.(l := m.w.l + 4), lens := m.lens[k := n.value]);
      CopySteps(k, a, m', data, fd);
      RunOne(AdvancePadded(k), m', data, fd);
    }
  }

  /** One or two statements are enough for the fixed-size arguments without registration. */
  lemma WordBlock(k: nat, a: Arg, m: Machine, data: seq<byte>, fd: int)
    requires !a.String? && !a.Array?
    ensures Result(Run(DecodeFor(k, a), m, data, fd)) == DecodeArg(a, m.w, data, fd)
  {
    hide Uint32, LiveOf, Run, RegisterWithID, TextIn, PaddedLen, ToInt32, Unsigned64;
    var d := DecodeFor(k, a);
    if |d| == 1 {
      RunOne(d[0], m, data, fd);
    } else if |d| == 2 {
      RunTwo(d[0], d[1], m, data, fd);
    } else {
      RunThree(d[0], d[1], d[2], m, data, fd);
      var r := Step(d[0], m, data, fd);
      if r.Next? { RunTwo(d[1], d[2], r.s, data, fd); }
    }
  }

  lemma WordAbsorbed(k: nat, a: Arg, m: Machine, data: seq<byte>)
    requires !a.String? && !a.Array?
    ensures Result(Run(AbsorbFor(k, a), m, data, -1)) == AbsorbArg(a, m.w, data)
  {
    hide Uint32, LiveOf, Run, RegisterWithID, TextIn, PaddedLen, ToInt32, Unsigned64;
    var b := AbsorbFor(k, a);
    if |b| == 0 {
      NoOp(m, data);
    } else if |b| == 1 {
      RunOne(b[0], m, data, -1);
    } else if |b| == 2 {
      RunTwo(b[0], b[1], m, data, -1);
    } else {
      RunThree(b[0], b[1], b[2], m, data, -1);
      var r := Step(b[0], m, data, -1);
      if r.Next? { RunTwo(b[1], b[2], r.s, data, -1); }
    }
  }

  lemma NoOp(m: Machine, data: seq<byte>)
    ensures Run([], m, data, -1) == Next(m)
  {
  }

  lemma ArgumentBlock(k: nat, a: Arg, m: Machine, data: seq<byte>, fd: int)
    requires |data| < 0x1_0000_0000_0000_0000
    ensures Result(Run(DecodeFor(k, a), m, data, fd)) == DecodeArg(a, m.w, data, fd)
    ensures Result(Run(AbsorbFor(k, a), m, data, -1)) == AbsorbArg(a, m.w, data)
  {
    hide Run, DecodeFor, AbsorbFor, DecodeArg, AbsorbArg;
    if a.String? || a.Array? {
      StringBlock(k, a, m, data, fd);
      StringBlock(k, a, m, data, -1);
    } else {
      WordBlock(k, a, m, data, fd);
      WordAbsorbed(k, a, m, data);
    }
  }

  /** The compiled decoding walk is the argument-by-argument walk. */
  lemma {:induction false} DecoderWalks(args: seq<Arg>, o: Objects, data: seq<byte>, fd: int)
    requires |data| < 0x1_0000_0000_0000_0000
    ensures Decode(args, o, data, fd) == DecodeArgs(args, Walked(0, [], o, []), data, fd)
  {
    hide Step, DecodeArg, DecodeFor;
    if args != [] {
      var n := |args| - 1;
      DecoderWalks(args[..n], o, data, fd);
      RunAppend(CompileDecoder(args[..n]), DecodeFor(n, args[n]), Start(o), data, fd);
      var r := Run(CompileDecoder(args[..n]), Start(o), data, fd);
      if r.Next? { ArgumentBlock(n, args[n], r.s, data, fd); }
    }
  }

  /** The compiled zombie walk is the argument-by-argument walk. */
  lemma {:induction false} AbsorberWalks(args: seq<Arg>, o: Objects, data: seq<byte>)
    requires |data| < 0x1_0000_0000_0000_0000
    ensures AbsorbAll(args, o, data) == AbsorbArgs(args, Walked(0, [], o, []), data)
  {
    hide Step, AbsorbArg, AbsorbFor;
    if args != [] {
      var n := |args| - 1;
      AbsorberWalks(args[..n], o, data);
      RunAppend(CompileAbsorber(args[..n]), AbsorbFor(n, args[n]), Start(o), data, -1);
      var r := Run(CompileAbsorber(args[..n]), Start(o), data, -1);
      if r.Next? { ArgumentBlock(n, args[n], r.s, data, -1); }
    }
  }
}
