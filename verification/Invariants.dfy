/** An induction principle for connections: what the small operations keep, every run keeps,
    through decoders, absorbers, handlers and panics. */
module Invariants {
  import opened Wire
  import opened Registry
  import opened Signature
  import opened Decoder
  import opened Socket
  import opened Connection
  import Encoder
  import Z = Zombies

  /** The two maps agree on the client's IDs and on the types registered there, and what was
      destroyed stays destroyed. */
  ghost predicate SameClientIDs(o: Objects, o': Objects) {
    forall n: Word :: n < FIRST_SERVER_ID ==>
      (n in o <==> n in o') && (n in o ==> o[n].kind == o'[n].kind && (o[n].zombie ==> o'[n].zombie))
  }

  type Property = State -> bool

  ghost predicate KeptByFatal(inv: Property) {
    forall s, e | inv(s) :: inv(SetFatal(s, e))
  }

  ghost predicate KeptByDescriptors(inv: Property) {
    && (forall s, fd | inv(s) :: inv(CloseFD(s, fd)))
    && (forall s, fd | inv(s) :: inv(HandOver(s, fd)))
    && (forall s, fd | inv(s) && s.fatal.None? :: inv(PutBack(s, fd)))
  }

  ghost predicate KeptByRegistry(inv: Property) {
    && (forall s, kind | inv(s) :: inv(Register(s, kind).0))
    && (forall s, id | inv(s) :: inv(Delete(s, id)))
    && (forall s, o | inv(s) && SameClientIDs(s.objects, o) :: inv(s.(objects := o)))
  }

  ghost predicate KeptBySocket(inv: Property) {
    && (forall s, b, oob | inv(s) :: inv(WriteMsg(s, b, oob).0))
    && (forall s | inv(s) :: inv(ReadMsg(s).0))
    && (forall s | inv(s) :: inv(CloseConn(s)))
  }

  ghost predicate KeptByNote(inv: Property) {
    forall s | inv(s) :: inv(s.(done := true))
  }

  ghost predicate Stable(inv: Property) {
    KeptByNote(inv) && KeptByFatal(inv) && KeptByDescriptors(inv) && KeptByRegistry(inv) && KeptBySocket(inv)
  }

  /** Two states with the same objects, allocator and registry calls. */
  predicate SameRegistry(s: State, s': State) {
    s'.objects == s.objects && s'.ids == s.ids && s'.book == s.book
  }

  /** Traffic does not touch the registry. */
  lemma ReadKeepsRegistry(s: State)
    ensures SameRegistry(s, ReadMsg(s).0)
  {
    hide ReadExact, HeaderFault, Uint32;
  }

  lemma WriteKeepsRegistry(s: State, b: seq<byte>, oob: seq<byte>)
    ensures SameRegistry(s, WriteMsg(s, b, oob).0)
  {
    hide WriteFrame, Encoder.Sendable, Accepted;
  }

  lemma StepsKeepRegistry(s: State, e: Error, fd: int)
    ensures SameRegistry(s, s.(done := true)) && SameRegistry(s, SetFatal(s, e)) && SameRegistry(s, CloseConn(s))
    ensures SameRegistry(s, CloseFD(s, fd)) && SameRegistry(s, HandOver(s, fd)) && SameRegistry(s, PutBack(s, fd))
  {
  }

  /** What depends on the registry only is stable under everything else. */
  lemma RegistryOnly(inv: Property)
    requires forall s, s' | inv(s) && SameRegistry(s, s') :: inv(s')
    ensures KeptByNote(inv) && KeptByFatal(inv) && KeptByDescriptors(inv) && KeptBySocket(inv)
  {
    hide SameRegistry, SetFatal, CloseConn, CloseFD, HandOver, PutBack, ReadMsg, WriteMsg;
    forall s | inv(s) ensures inv(s.(done := true)) { StepsKeepRegistry(s, NoProgress, 0); }
    forall s, e | inv(s) ensures inv(SetFatal(s, e)) { StepsKeepRegistry(s, e, 0); }
    forall s, fd | inv(s) ensures inv(CloseFD(s, fd)) { StepsKeepRegistry(s, NoProgress, fd); }
    forall s, fd | inv(s) ensures inv(HandOver(s, fd)) { StepsKeepRegistry(s, NoProgress, fd); }
    forall s, fd | inv(s) && s.fatal.None? ensures inv(PutBack(s, fd)) { StepsKeepRegistry(s, NoProgress, fd); }
    forall s, b, oob | inv(s) ensures inv(WriteMsg(s, b, oob).0) { WriteKeepsRegistry(s, b, oob); }
    forall s | inv(s) ensures inv(ReadMsg(s).0) { ReadKeepsRegistry(s); }
    forall s | inv(s) ensures inv(CloseConn(s)) { StepsKeepRegistry(s, NoProgress, 0); }
  }

  // ---- walks never touch the client's part of the map

  lemma ArgKeepsClientIDs(a: Arg, w: Walked, data: seq<byte>, fd: int)
    ensures match DecodeArg(a, w, data, fd)
            case Next(w') => SameClientIDs(w.objects, w'.objects)
            case Panic(o) => o == w.objects
    ensures match AbsorbArg(a, w, data)
            case Next(w') => SameClientIDs(w.objects, w'.objects)
            case Panic(o) => o == w.objects
  {
    hide Uint32, PaddedLen, FirstNul, CString, ToInt32;
  }

  lemma {:induction false} DecodeKeepsClientIDs(args: seq<Arg>, w: Walked, data: seq<byte>, fd: int)
    ensures match DecodeArgs(args, w, data, fd)
            case Next(w') => SameClientIDs(w.objects, w'.objects)
            case Panic(o) => SameClientIDs(w.objects, o)
  {
    hide DecodeArg;
    if args != [] {
      var n := |args| - 1;
      DecodeKeepsClientIDs(args[..n], w, data, fd);
      var r := DecodeArgs(args[..n], w, data, fd);
      if r.Next? { ArgKeepsClientIDs(args[n], r.s, data, fd); }
    }
  }

  lemma {:induction false} AbsorbKeepsClientIDs(args: seq<Arg>, w: Walked, data: seq<byte>)
    ensures match AbsorbArgs(args, w, data)
            case Next(w') => SameClientIDs(w.objects, w'.objects)
            case Panic(o) => SameClientIDs(w.objects, o)
  {
    hide AbsorbArg;
    if args != [] {
      var n := |args| - 1;
      AbsorbKeepsClientIDs(args[..n], w, data);
      var r := AbsorbArgs(args[..n], w, data);
      if r.Next? { ArgKeepsClientIDs(args[n], r.s, data, -1); }
    }
  }

  lemma CompiledKeepsClientIDs(args: seq<Arg>, o: Objects, data: seq<byte>, fd: int)
    requires |data| <= MAX_FRAME
    ensures match Decode(args, o, data, fd)
            case Next(w) => SameClientIDs(o, w.objects)
            case Panic(o') => SameClientIDs(o, o')
    ensures match AbsorbAll(args, o, data)
            case Next(w) => SameClientIDs(o, w.objects)
            case Panic(o') => SameClientIDs(o, o')
  {
    hide Decode, AbsorbAll, DecodeArgs, AbsorbArgs;
    DecoderWalks(args, o, data, fd);
    AbsorberWalks(args, o, data);
    DecodeKeepsClientIDs(args, Walked(0, [], o, []), data, fd);
    AbsorbKeepsClientIDs(args, Walked(0, [], o, []), data);
  }

  // ---- the principle

  lemma DoKeeps(inv: Property, s: State, d: Deed)
    requires Stable(inv) && inv(s)
    ensures inv(Do(s, d).0)
  {
    hide Register, WriteMsg, SetFatal, CloseConn;
    match d {
      case Create(kind) => assert inv(Register(s, kind).0);
      case Destroy(id) => MarkKeeps(inv, s, id);
      case Send(b, oob) => assert inv(WriteMsg(s, b, oob).0);
      case Fail(e) => assert inv(SetFatal(s, e));
      case CloseIt => assert inv(CloseConn(s));
    }
  }

  lemma MarkKeeps(inv: Property, s: State, id: Word)
    requires Stable(inv) && inv(s)
    ensures inv(MarkZombie(s, id))
  {
    if id in s.objects {
      var o := s.objects[id := s.objects[id].(zombie := true)];
      assert SameClientIDs(s.objects, o);
      assert inv(s.(objects := o));
    }
  }

  lemma {:induction false} DoAllKeeps(inv: Property, s: State, ds: seq<Deed>)
    requires Stable(inv) && inv(s)
    ensures inv(DoAll(s, ds).0)
    decreases |ds|
  {
    hide Do, Stable;
    if ds != [] {
      DoKeeps(inv, s, ds[0]);
      DoAllKeeps(inv, Do(s, ds[0]).0, ds[1..]);
    }
  }

  lemma FinishKeeps(inv: Property, s: State, fd: int, h: Handler)
    requires Stable(inv) && inv(s)
    ensures inv(Finish(s, fd, h).0)
  {
    hide DoAll, HandOver;
    if h.Present? {
      assert inv(Noted(s, h));
      DoAllKeeps(inv, Noted(s, h), h.deeds);
    }
    assert inv(RunHandler(s, h).0);
    assert inv(HandOver(RunHandler(s, h).0, fd));
  }

  /** What follows a decoding. */
  lemma DecodedKeeps(inv: Property, s: State, w: Walked, fd: int, h: Handler)
    requires Stable(inv) && inv(s) && SameClientIDs(s.objects, w.objects)
    ensures var s1 := s.(objects := w.objects);
            && inv(CloseFD(s1, fd)) && inv(Finish(s1, fd, h).0)
            && inv(Finish(Delete(s1, Z.DeletedId(w.fields)), fd, h).0)
            && inv(Finish(SetFatal(s1, ErrorOf(w.fields)), fd, h).0)
  {
    hide Finish, Delete, SetFatal, CloseFD, SameClientIDs, Z.DeletedId, ErrorOf;
    var s1 := s.(objects := w.objects);
    assert inv(s1);
    var id, err := Z.DeletedId(w.fields), ErrorOf(w.fields);
    assert inv(Delete(s1, id)) && inv(SetFatal(s1, err)) && inv(CloseFD(s1, fd));
    FinishKeeps(inv, Delete(s1, id), fd, h);
    FinishKeeps(inv, SetFatal(s1, err), fd, h);
    FinishKeeps(inv, s1, fd, h);
  }

  lemma ReleaseKeeps(inv: Property, s: State, fd: int)
    requires Stable(inv) && inv(s)
    ensures inv(CloseFD(s, fd)) && inv(HandOver(s, fd))
  {
  }

  lemma ObjectsKeep(inv: Property, s: State, o: Objects)
    requires Stable(inv) && inv(s) && SameClientIDs(s.objects, o)
    ensures inv(s.(objects := o))
  {
  }

  lemma DispatchEventKeeps(inv: Property, s: State, e: Event, fd: int, data: seq<byte>, h: Handler)
    requires Stable(inv) && inv(s) && |data| <= MAX_FRAME
    ensures inv(DispatchEvent(s, e, fd, data, h).0)
  {
    hide Decode, Finish, Delete, SetFatal, CloseFD, HandOver, SameClientIDs, Z.DeletedId, Z.Decodes, ErrorOf, CarriesFD;
    hide Stable;
    CompiledKeepsClientIDs(e.args, s.objects, data, fd);
    ReleaseKeeps(inv, s, fd);
    match Decode(e.args, s.objects, data, fd) {
      case Panic(o) => ObjectsKeep(inv, s, o);
      case Next(w) => DecodedKeeps(inv, s, w, fd, h);
    }
  }

  lemma RecoveredKeeps(inv: Property, s: State, fd: int, opcode: nat, id: Word)
    requires Stable(inv) && inv(s)
    ensures inv(Recovered(s, fd, opcode, id))
  {
    hide SetFatal, CloseFD;
    assert inv(CloseFD(s, fd));
  }

  lemma ZombieKeeps(inv: Property, s: State, iface: Interface, f: Frame)
    requires Stable(inv) && inv(s) && |f.body| <= MAX_FRAME
    ensures match Z.AbsorbNewIDs(iface, f.opcode, s.objects, f.body)
            case Panic(o) => inv(s.(objects := o))
            case Next(o) => inv(s.(objects := o))
  {
    hide AbsorbAll;
    if f.opcode < |iface.events| {
      CompiledKeepsClientIDs(iface.events[f.opcode].args, s.objects, f.body, -1);
    }
    assert s.(objects := s.objects) == s;
  }

  lemma DispatchFrameKeeps(inv: Property, p: Protocol, s: State, f: Frame, fd: int, h: Handler)
    requires Stable(inv) && inv(s) && |f.body| <= MAX_FRAME && s.fatal.None?
    ensures inv(DispatchFrame(p, s, f, fd, h))
  {
    hide SetFatal, CloseFD, PutBack, DispatchEvent, Recovered, Z.AbsorbNewIDs, InterfaceOf, HasFD;
    assert inv(CloseFD(s, fd));
    assert inv(SetFatal(CloseFD(s, fd), SenderNotFound(f.sender)));
    if f.sender in s.objects {
      var obj := s.objects[f.sender];
      var iface := InterfaceOf(p, obj.kind);
      assert inv(PutBack(s, fd));
      var (s1, fd1) := RouteFD(s, iface, f.opcode, fd);
      assert inv(s1);
      var s2 := CloseFD(s1, fd1);
      assert inv(s2);
      assert inv(SetFatal(s2, SenderUnsupported(f.sender)));
      RecoveredKeeps(inv, s1, fd1, f.opcode, f.sender);
      if obj.zombie && obj.kind != DISPLAY {
        ZombieKeeps(inv, s2, iface, f);
        match Z.AbsorbNewIDs(iface, f.opcode, s2.objects, f.body) {
          case Panic(o) => RecoveredKeeps(inv, s2.(objects := o), -1, f.opcode, f.sender);
          case Next(o) =>
        }
      } else if f.opcode < |iface.events| {
        var e := iface.events[f.opcode];
        DispatchEventKeeps(inv, s1, e, fd1, f.body, h);
        RecoveredKeeps(inv, DispatchEvent(s1, e, fd1, f.body, h).0, fd1, f.opcode, f.sender);
      }
    }
  }

  /** A message that ReadMsg returns is small, and leaves no fatal error. */
  lemma GotIsSmall(s: State)
    requires ReadMsg(s).1.Got?
    ensures |ReadMsg(s).1.frame.body| <= MAX_FRAME && ReadMsg(s).0.fatal.None?
  {
    hide Uint32, ReadExact;
  }

  lemma ActKeeps(inv: Property, p: Protocol, s: State, a: Action)
    requires Stable(inv) && inv(s)
    ensures inv(Act(p, s, a).0)
  {
    hide Register, Delete, WriteMsg, ReadMsg, CloseConn, HandOver, SetFatal, DispatchFrame, MarkZombie;
    match a {
      case DoRegister(kind) => assert inv(Register(s, kind).0);
      case DoRegisterServer(id, kind) =>
        var r := RegisterWithID(s.objects, id, Obj(kind, false));
        if r.Some? {
          assert SameClientIDs(s.objects, r.value);
          assert inv(s.(objects := r.value));
        }
      case DoDelete(id) => assert inv(Delete(s, id));
      case DoMarkZombie(id) => MarkKeeps(inv, s, id);
      case DoWrite(b, oob) => assert inv(WriteMsg(s, b, oob).0);
      case DoRead =>
        assert inv(ReadMsg(s).0);
        if ReadMsg(s).1.Got? { assert inv(HandOver(ReadMsg(s).0, ReadMsg(s).1.fd)); }
      case DoDispatch(h) =>
        var (s1, r) := ReadMsg(s);
        assert inv(ReadMsg(s).0);
        match r {
          case Idle =>
          case ReadFailed(e) => assert inv(SetFatal(s1, UnableToRead(e)));
          case Got(f, fd) =>
            GotIsSmall(s);
            DispatchFrameKeeps(inv, p, s1, f, fd, h);
        }
      case DoClose => assert inv(CloseConn(s));
    }
  }

  /** A stable property that holds once holds for ever after. */
  lemma {:induction false} RunsKeep(inv: Property, p: Protocol, s: State, acts: seq<Action>)
    requires Stable(inv) && inv(s)
    ensures inv(RunCalls(p, s, acts))
  {
    hide Act, Stable;
    if acts != [] {
      RunsKeep(inv, p, s, acts[..|acts| - 1]);
      ActKeeps(inv, p, RunCalls(p, s, acts[..|acts| - 1]), acts[|acts| - 1]);
    }
  }
}
