/** The scanner's loops: they walk over the arguments and events of an interface and append the
    emitted statements. */
module Scanner {
  import opened Wire
  import opened Registry
  import opened Signature
  import E = Encoder
  import D = Decoder
  import C = Connection
  import Z = Zombies

  // ---- requests

  /** An argument whose size depends on its value. */
  predicate Variable(a: Arg) {
    a == NewId(None) || a.String? || a.Array?
  }

  predicate ConstantSize(args: seq<Arg>) {
    forall i :: 0 <= i < |args| ==> !Variable(args[i])
  }

  predicate AllFour(ws: seq<E.Width>) {
    forall i :: 0 <= i < |ws| ==> ws[i] == E.Four
  }

  lemma VariableArgument(k: nat, a: Arg)
    ensures AllFour(E.SizeFor(k, a)) <==> !Variable(a)
    ensures E.LensFor(k, a) == [] <==> !Variable(a)
  {
    if Variable(a) { assert E.SizeFor(k, a)[0] == E.FourPlus(k); }
  }

  lemma AllFourAppend(v: seq<E.Width>, w: seq<E.Width>)
    ensures AllFour(v + w) <==> AllFour(v) && AllFour(w)
  {
    assert forall i :: 0 <= i < |v| ==> (v + w)[i] == v[i];
    assert forall i :: 0 <= i < |w| ==> (v + w)[|v| + i] == w[i];
  }

  lemma ConstantSizePrefix(args: seq<Arg>, k: nat)
    requires k < |args|
    ensures ConstantSize(args[..k + 1]) <==> ConstantSize(args[..k]) && !Variable(args[k])
  {
    assert forall i :: 0 <= i < k ==> args[..k + 1][i] == args[..k][i];
  }

  /** A request's buffer is an array of constant size exactly when its size expression and its
      code mention no length variable. */
  lemma {:induction false} ConstantSizeIsConstant(args: seq<Arg>)
    ensures ConstantSize(args) <==> AllFour(E.CompileSize(args))
    ensures ConstantSize(args) <==> E.CompileLens(args) == []
  {
    hide AllFour, ConstantSize, Variable, E.SizeFor, E.LensFor;
    if args != [] {
      var n := |args| - 1;
      ConstantSizeIsConstant(args[..n]);
      ConstantSizePrefix(args, n);
      assert args[..n + 1] == args;
      VariableArgument(n, args[n]);
      AllFourAppend(E.CompileSize(args[..n]), E.SizeFor(n, args[n]));
    } else {
      NoArguments();
    }
  }

  lemma NoArguments()
    ensures ConstantSize([]) && AllFour([])
  {
  }

  /** writeRequest: one loop for the size, one for the encoding walk. */
  method WriteRequest(args: seq<Arg>) returns (r: E.Request, canBeConst: bool)
    ensures r == E.CompileRequest(args)
    ensures canBeConst <==> ConstantSize(args)
  {
    hide ConstantSize;
    NoArguments();
    var lens: seq<E.LenDef>, sizes: seq<E.Width> := [], [];
    canBeConst := true;
    for k := 0 to |args|
      invariant lens == E.CompileLens(args[..k]) && sizes == E.CompileSize(args[..k])
      invariant canBeConst <==> ConstantSize(args[..k])
    {
      assert args[..k + 1][..k] == args[..k];
      ConstantSizePrefix(args, k);
      match args[k] {
        case NewId(iface) =>
          if iface.Some? {
            sizes := sizes + [E.Four];
          } else {
            canBeConst := false;
            lens := lens + [E.IfaceLen(k)];
            sizes := sizes + [E.FourPlus(k), E.Four, E.Four];
          }
        case String(allowNull) =>
          canBeConst := false;
          lens := lens + [if allowNull then E.NullableLen(k) else E.StringLen(k)];
          sizes := sizes + [E.FourPlus(k)];
        case Array =>
          canBeConst := false;
          lens := lens + [E.ArrayLen(k)];
          sizes := sizes + [E.FourPlus(k)];
        case Fd =>
        case _ => sizes := sizes + [E.Four];
      }
    }
    assert args[..|args|] == args;
    var walk, fdIndex := WriteWalk(args);
    r := E.Request(lens, sizes, walk, fdIndex);
  }

  method WriteWalk(args: seq<Arg>) returns (walk: seq<E.Stmt>, fdIndex: Option<nat>)
    ensures walk == E.CompileWalk(args) && fdIndex == E.LastFd(args)
  {
    walk := [E.Do(E.PutWord(E.SelfId)), E.Do(E.Advance(E.Four)), E.Do(E.PutWord(E.SizeAndOpcode)), E.Do(E.Advance(E.Four))];
    fdIndex := None;
    for k := 0 to |args|
      invariant walk == E.CompileWalk(args[..k]) && fdIndex == E.LastFd(args[..k])
    {
      assert args[..k + 1][..k] == args[..k];
      match args[k] {
        case Object(_, allowNull) =>
          if allowNull {
            walk := walk + [E.IfNil(k, [E.PutWord(E.NullId), E.Advance(E.Four)], [E.PutWord(E.IdOf(k)), E.Advance(E.Four)])];
          } else {
            walk := walk + [E.Do(E.PutWord(E.IdOf(k))), E.Do(E.Advance(E.Four))];
          }
        case NewId(iface) =>
          if iface.Some? {
            walk := walk + [E.Do(E.PutWord(E.IdOf(k))), E.Do(E.Advance(E.Four))];
          } else {
            walk := walk + [E.Do(E.PutString(k)), E.Do(E.Advance(E.FourPlus(k))),
                            E.Do(E.PutWord(E.VersionOf(k))), E.Do(E.Advance(E.Four)),
                            E.Do(E.PutWord(E.IdOf(k))), E.Do(E.Advance(E.Four))];
          }
        case Int => walk := walk + [E.Do(E.PutWord(E.IntOf(k))), E.Do(E.Advance(E.Four))];
        case Uint => walk := walk + [E.Do(E.PutWord(E.UintOf(k))), E.Do(E.Advance(E.Four))];
        case Fixed => walk := walk + [E.Do(E.PutFixed(k)), E.Do(E.Advance(E.Four))];
        case String(allowNull) =>
          if allowNull {
            walk := walk + [E.IfNil(k, [E.PutWord(E.NullId), E.Advance(E.Four)], [E.PutString(k), E.Advance(E.FourPlus(k))])];
          } else {
            walk := walk + [E.Do(E.PutString(k)), E.Do(E.Advance(E.FourPlus(k)))];
          }
        case Array => walk := walk + [E.Do(E.PutArray(k)), E.Do(E.Advance(E.FourPlus(k)))];
        case Fd => fdIndex := Some(k);
      }
    }
    assert args[..|args|] == args;
  }

  // ---- events

  /** One case of the emitted Dispatch: a test for a missing handler in front of the decoding
      or behind it, which closes a descriptor of the event. */
  datatype Case = Case(testsFirst: bool, walk: seq<D.Op>, effect: Role, testsLast: bool, closes: bool)

  /** The emitted methods: the opcodes for which HasFD is true, the cases of Dispatch by opcode,
      and the cases of AbsorbNewIDs. */
  datatype Methods = Methods(fdCases: seq<nat>, cases: seq<Case>, absorbers: seq<(nat, seq<D.Op>)>)

  function CompileCase(e: Event): Case {
    Case(e.role == Plain && !HasNewId(e.args), D.CompileDecoder(e.args), e.role,
         e.role == Plain && HasNewId(e.args), CarriesFD(e.args))
  }

  function CompileMethods(events: seq<Event>): Methods {
    if events == [] then Methods([], [], [])
    else
      var k, e := |events| - 1, events[|events| - 1];
      var before := CompileMethods(events[..k]);
      Methods(before.fdCases + if CarriesFD(e.args) then [k] else [],
              before.cases + [CompileCase(e)],
              before.absorbers + if HasNewId(e.args) then [(k, D.CompileAbsorber(e.args))] else [])
  }

  method AnyFd(args: seq<Arg>) returns (found: bool)
    ensures found <==> CarriesFD(args)
  {
    for i := 0 to |args|
      invariant Fd !in args[..i]
    {
      if args[i].Fd? {
        return true;
      }
    }
    assert args[..|args|] == args;
    found := false;
  }

  method AnyNewId(args: seq<Arg>) returns (found: bool)
    ensures found <==> HasNewId(args)
  {
    for i := 0 to |args|
      invariant !HasNewId(args[..i])
    {
      if args[i].NewId? {
        return true;
      }
      assert forall j :: 0 <= j < i ==> args[..i][j] == args[j];
    }
    assert args[..|args|] == args;
    found := false;
  }

  /** writeEventDispatcher; an interface without events gets no method. */
  method WriteEventDispatcher(events: seq<Event>) returns (m: Option<Methods>)
    ensures m == if events == [] then None else Some(CompileMethods(events))
  {
    if |events| == 0 {
      return None;
    }
    var fdCases: seq<nat>, cases: seq<Case>, absorbers: seq<(nat, seq<D.Op>)> := [], [], [];
    for k := 0 to |events|
      invariant Methods(fdCases, cases, absorbers) == CompileMethods(events[..k])
    {
      assert events[..k + 1][..k] == events[..k];
      var e := events[k];
      var hasFd := AnyFd(e.args);
      var hasNewID := AnyNewId(e.args);
      if hasFd {
        fdCases := fdCases + [k];
      }
      var walk := WriteDecoder(e.args);
      cases := cases + [Case(e.role == Plain && !hasNewID, walk, e.role, e.role == Plain && hasNewID, hasFd)];
      if hasNewID {
        var absorber := WriteAbsorber(e.args);
        absorbers := absorbers + [(k, absorber)];
      }
    }
    assert events[..|events|] == events;
    m := Some(Methods(fdCases, cases, absorbers));
  }

  method WriteDecoder(args: seq<Arg>) returns (walk: seq<D.Op>)
    ensures walk == D.CompileDecoder(args)
  {
    walk := [];
    for k := 0 to |args|
      invariant walk == D.CompileDecoder(args[..k])
    {
      assert args[..k + 1][..k] == args[..k];
      match args[k] {
        case NewId(iface) =>
          if iface.Some? {
            walk := walk + [D.LoadId(k), D.BindNew(k, iface.value), D.Advance];
          } else {
            walk := walk + [D.LoadRef, D.Advance];
          }
        case Object(iface, _) =>
          if iface.Some? {
            walk := walk + [D.LoadId(k), D.BindRef(k, iface.value), D.Advance];
          } else {
            walk := walk + [D.LoadRef, D.Advance];
          }
        case Fd => walk := walk + [D.TakeFD];
        case Uint => walk := walk + [D.LoadUint, D.Advance];
        case Int => walk := walk + [D.LoadInt, D.Advance];
        case Fixed => walk := walk + [D.LoadFixed, D.Advance];
        case String(allowNull) =>
          walk := walk + [D.NeedLength, D.LoadLength(k), D.Advance, D.NeedBytes(k), D.NeedPadding(k),
                          D.CopyString(k, allowNull), D.AdvancePadded(k)];
        case Array =>
          walk := walk + [D.NeedLength, D.LoadLength(k), D.Advance, D.NeedBytes(k), D.NeedPadding(k),
                          D.CopyArray(k), D.AdvancePadded(k)];
      }
    }
    assert args[..|args|] == args;
  }

  /** writeNewIDAbsorber, for one event. */
  method WriteAbsorber(args: seq<Arg>) returns (walk: seq<D.Op>)
    ensures walk == D.CompileAbsorber(args)
  {
    walk := [];
    for k := 0 to |args|
      invariant walk == D.CompileAbsorber(args[..k])
    {
      assert args[..k + 1][..k] == args[..k];
      match args[k] {
        case NewId(iface) =>
          if iface.Some? {
            walk := walk + [D.LoadId(k), D.Placeholder(k, iface.value)];
          }
          walk := walk + [D.Advance];
        case Object(iface, _) =>
          if iface.Some? {
            walk := walk + [D.LoadId(k)];
          }
          walk := walk + [D.Advance];
        case Fd =>
        case String(_) =>
          walk := walk + [D.NeedLength, D.LoadLength(k), D.Advance, D.NeedBytes(k), D.AdvancePadded(k)];
        case Array =>
          walk := walk + [D.NeedLength, D.LoadLength(k), D.Advance, D.NeedBytes(k), D.AdvancePadded(k)];
        case _ => walk := walk + [D.Advance];
      }
    }
    assert args[..|args|] == args;
  }

  // ---- what the emitted methods do

  /** Running a case of Dispatch. True is a panic. */
  function RunCase(c: Case, s: C.State, fd: int, data: seq<byte>, h: C.Handler): (C.State, bool) {
    if c.testsFirst && h.Absent? then (Returned(c, s, fd), false)
    else
      match D.Result(D.Run(c.walk, D.Start(s.objects), data, fd))
      case Panic(o) => (s.(objects := o), true)
      case Next(w) =>
        var s1 := s.(objects := w.objects);
        match c.effect
        case DeleteIdEvent => C.Finish(C.Delete(s1, Z.DeletedId(w.fields)), fd, h)
        case DisplayErrorEvent => C.Finish(C.SetFatal(s1, C.ErrorOf(w.fields)), fd, h)
        case Plain => if c.testsLast && h.Absent? then (Returned(c, s1, fd), false) else C.Finish(s1, fd, h)
  }

  /** Returning without a handler: the dispatcher owns the descriptor. */
  function Returned(c: Case, s: C.State, fd: int): C.State {
    if c.closes then C.CloseFD(s, fd) else C.HandOver(s, fd)
  }

  function Absorbing(walk: seq<D.Op>, o: Objects, data: seq<byte>): D.Outcome<Objects> {
    match D.Result(D.Run(walk, D.Start(o), data, -1))
    case Panic(o') => D.Panic(o')
    case Next(w) => D.Next(w.objects)
  }

  /** Running AbsorbNewIDs: the case of the opcode, if there is one. */
  function RunAbsorbers(cases: seq<(nat, seq<D.Op>)>, opcode: nat, o: Objects, data: seq<byte>): D.Outcome<Objects> {
    if cases == [] then D.Next(o)
    else if cases[|cases| - 1].0 == opcode then Absorbing(cases[|cases| - 1].1, o, data)
    else RunAbsorbers(cases[..|cases| - 1], opcode, o, data)
  }

  lemma CaseIsDispatchEvent(e: Event, s: C.State, fd: int, data: seq<byte>, h: C.Handler)
    ensures RunCase(CompileCase(e), s, fd, data, h) == C.DispatchEvent(s, e, fd, data, h)
  {
    hide D.Run, D.CompileDecoder, C.Delete, C.SetFatal, C.DoAll, C.CloseFD, C.HandOver;
  }

  lemma {:induction false} EmittedCases(events: seq<Event>)
    ensures |CompileMethods(events).cases| == |events|
    ensures forall k :: 0 <= k < |events| ==> CompileMethods(events).cases[k] == CompileCase(events[k])
  {
    hide CompileCase, CarriesFD, HasNewId, D.CompileAbsorber;
    if events != [] {
      var n := |events| - 1;
      EmittedCases(events[..n]);
      assert forall k :: 0 <= k < n ==> events[..n][k] == events[k];
    }
  }

  lemma {:induction false} EmittedHasFD(events: seq<Event>, opcode: nat)
    ensures opcode in CompileMethods(events).fdCases <==> opcode < |events| && CarriesFD(events[opcode].args)
  {
    hide CompileCase, CarriesFD, HasNewId, D.CompileAbsorber;
    if events != [] { EmittedHasFD(events[..|events| - 1], opcode); }
  }

  lemma {:induction false} AbsorbersInRange(events: seq<Event>)
    ensures forall c :: c in CompileMethods(events).absorbers ==> c.0 < |events|
  {
    hide CompileCase, CarriesFD, HasNewId, D.CompileAbsorber;
    if events != [] { AbsorbersInRange(events[..|events| - 1]); }
  }

  /** The case of an opcode, or none. */
  lemma {:induction false} EmittedAbsorber(events: seq<Event>, opcode: nat, o: Objects, data: seq<byte>)
    ensures RunAbsorbers(CompileMethods(events).absorbers, opcode, o, data) ==
            if opcode < |events| && HasNewId(events[opcode].args) then
              Absorbing(D.CompileAbsorber(events[opcode].args), o, data)
            else D.Next(o)
  {
    hide CompileCase, CarriesFD, HasNewId, D.CompileAbsorber, Absorbing;
    if events != [] {
      var n := |events| - 1;
      var before, all := CompileMethods(events[..n]).absorbers, CompileMethods(events).absorbers;
      EmittedAbsorber(events[..n], opcode, o, data);
      AbsorbersInRange(events[..n]);
      if HasNewId(events[n].args) {
        assert all[..|all| - 1] == before;
      } else {
        assert all == before;
        if opcode == n { NoAbsorber(before, n, o, data); }
      }
    }
  }

  lemma {:induction false} NoAbsorber(cases: seq<(nat, seq<D.Op>)>, opcode: nat, o: Objects, data: seq<byte>)
    requires forall c :: c in cases ==> c.0 != opcode
    ensures RunAbsorbers(cases, opcode, o, data) == D.Next(o)
  {
    hide Absorbing;
    if cases != [] { NoAbsorber(cases[..|cases| - 1], opcode, o, data); }
  }

  /** The main result on emitted dispatchers: the three emitted methods agree with the
      interface on every opcode. HasFD tells exactly the events with a descriptor argument;
      Dispatch has a case for exactly the events, which decodes that event; and AbsorbNewIDs
      absorbs what that event introduces and ignores all other opcodes. */
  lemma EmittedMethods(events: seq<Event>, opcode: nat, o: Objects, data: seq<byte>)
    ensures var m := CompileMethods(events);
            && |m.cases| == |events|
            && (opcode < |events| ==> m.cases[opcode] == CompileCase(events[opcode]))
            && (opcode in m.fdCases <==> C.HasFD(Interface(events, true), opcode))
            && RunAbsorbers(m.absorbers, opcode, o, data) == Z.AbsorbNewIDs(Interface(events, true), opcode, o, data)
  {
    hide CompileMethods, CompileCase, CarriesFD, HasNewId, D.CompileAbsorber, D.Run;
    EmittedCases(events);
    EmittedHasFD(events, opcode);
    EmittedAbsorber(events, opcode, o, data);
  }
}
