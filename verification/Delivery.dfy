/** The deliveries of Zombies, of connections and of the object protocol are one: what is proved
    of one of them is lifted here to the others. */
module Delivery {
  import opened Wire
  import opened Registry
  import opened Signature
  import opened Decoder
  import opened Socket
  import opened Connection
  import opened Invariants
  import Allocator
  import Encoder
  import Deadlines
  import Sessions
  import Sync
  import Z = Zombies

  // ---- a dispatched message is a delivery

  /** A handler that only looks. */
  predicate Inert(h: Handler) {
    h.Present? ==> h.deeds == [] && !h.panics
  }

  function MessageOf(p: Protocol, s: State, f: Frame, fd: int, h: Handler): Z.Message {
    var routed := if f.sender in s.objects then RouteFD(s, InterfaceOf(p, s.objects[f.sender].kind), f.opcode, fd).1 else fd;
    Z.Message(f.sender, f.opcode, f.body, h.Present?, routed)
  }

  /** What an event does to the objects; None ends the connection. */
  function EventObjects(e: Event, o: Objects, data: seq<byte>, fd: int, handled: bool): Option<Objects> {
    if !Z.Decodes(e, handled) then Some(o)
    else
      match Decode(e.args, o, data, fd)
      case Panic(_) => None
      case Next(w) =>
        match e.role
        case Plain => Some(w.objects)
        case DeleteIdEvent => Some(w.objects - {Z.DeletedId(w.fields)})
        case DisplayErrorEvent => None
  }

  lemma InertFinish(s: State, fd: int, h: Handler)
    requires Inert(h)
    ensures Finish(s, fd, h) == (HandOver(Noted(s, h), fd), false)
  {
  }

  lemma NotedObjects(s: State, fd: int, h: Handler)
    ensures var t := HandOver(Noted(s, h), fd); t.objects == s.objects && t.fatal == s.fatal
    ensures var t := CloseFD(s, fd); t.objects == s.objects && t.fatal == s.fatal
    ensures var t := HandOver(s, fd); t.objects == s.objects && t.fatal == s.fatal
  {
  }

  lemma DeletedObjects(s: State, id: Word, e: Error)
    ensures Delete(s, id).objects == s.objects - {id} && Delete(s, id).fatal == s.fatal
    ensures SetFatal(s, e).fatal.Some?
  {
    assert id !in s.objects ==> s.objects - {id} == s.objects;
  }

  lemma EventIsDelivery(s: State, e: Event, fd: int, data: seq<byte>, h: Handler)
    requires s.fatal.None? && Inert(h)
    ensures var (t, panicked) := DispatchEvent(s, e, fd, data, h);
            var o := EventObjects(e, s.objects, data, fd, h.Present?);
            && (t.fatal.None? && !panicked <==> o.Some?)
            && (o.Some? ==> t.objects == o.value)
  {
    hide Decode, Z.DeletedId, HasNewId, CarriesFD, Finish, ErrorOf, Delete, SetFatal, CloseFD, HandOver, Noted;
    NotedObjects(s, fd, h);
    match Decode(e.args, s.objects, data, fd) {
      case Panic(_) =>
      case Next(w) =>
        var s1 := s.(objects := w.objects);
        var s2, s3 := Delete(s1, Z.DeletedId(w.fields)), SetFatal(s1, ErrorOf(w.fields));
        InertFinish(s1, fd, h);
        InertFinish(s2, fd, h);
        InertFinish(s3, fd, h);
        NotedObjects(s1, fd, h);
        NotedObjects(s2, fd, h);
        NotedObjects(s3, fd, h);
        DeletedObjects(s1, Z.DeletedId(w.fields), ErrorOf(w.fields));
    }
  }

  lemma RecoveredFails(s: State, fd: int, opcode: nat, id: Word)
    ensures Recovered(s, fd, opcode, id).fatal.Some?
  {
  }

  /** Dispatching a message is delivering it: the connection survives in the same cases, with the
      same objects. */
  lemma FrameIsDelivery(p: Protocol, s: State, f: Frame, fd: int, h: Handler)
    requires s.fatal.None? && Inert(h)
    ensures var d := Z.Deliver(p, s.objects, MessageOf(p, s, f, fd, h));
            && (DispatchFrame(p, s, f, fd, h).fatal.None? <==> d.Some?)
            && (d.Some? ==> DispatchFrame(p, s, f, fd, h).objects == d.value)
  {
    hide Decode, Z.AbsorbNewIDs, InterfaceOf, DispatchEvent, Z.Decodes, HasFD, Recovered;
    if f.sender in s.objects {
      var iface := InterfaceOf(p, s.objects[f.sender].kind);
      var (s1, fd1) := RouteFD(s, iface, f.opcode, fd);
      RecoveredFails(s1, fd1, f.opcode, f.sender);
      if s.objects[f.sender].zombie && s.objects[f.sender].kind != DISPLAY {
        match Z.AbsorbNewIDs(iface, f.opcode, s.objects, f.body) {
          case Panic(o) => RecoveredFails(CloseFD(s1, fd1).(objects := o), -1, f.opcode, f.sender);
          case Next(_) =>
        }
      } else if f.opcode < |iface.events| {
        EventIsDelivery(s1, iface.events[f.opcode], fd1, f.body, h);
        RecoveredFails(DispatchEvent(s1, iface.events[f.opcode], fd1, f.body, h).0, fd1, f.opcode, f.sender);
      }
    }
  }

  /** Where an event leaves the rest of the state. */
  lemma EventRest(s: State, e: Event, fd: int, data: seq<byte>, h: Handler)
    requires s.fatal.None? && Inert(h) && |data| <= MAX_FRAME
    requires var (t, panicked) := DispatchEvent(s, e, fd, data, h); t.fatal.None? && !panicked
    ensures var t := DispatchEvent(s, e, fd, data, h).0;
            var gone := Sync.DeletedBy(e, s.objects, data, fd);
            var s2 := if gone.None? then s else Delete(s, gone.value);
            t == s2.(objects := t.objects, handed := t.handed, closed := t.closed, done := t.done)
  {
    hide Decode, Z.DeletedId, HasNewId, CarriesFD, Finish, ErrorOf, SameClientIDs, Delete, HandOver, CloseFD;
    CompiledKeepsClientIDs(e.args, s.objects, data, fd);
    RestAfterNote(s, s, fd, h);
    UnhandledRest(s, fd);
    match Decode(e.args, s.objects, data, fd) {
      case Panic(_) =>
      case Next(w) =>
        var s1 := s.(objects := w.objects);
        var id := Z.DeletedId(w.fields);
        InertFinish(s1, fd, h);
        InertFinish(Delete(s1, id), fd, h);
        InertFinish(SetFatal(s1, ErrorOf(w.fields)), fd, h);
        FatalOutlives(SetFatal(s1, ErrorOf(w.fields)), fd, h);
        SameRecycling(s, w.objects, id);
        RestAfterNote(s1, s, fd, h);
        RestAfterNote(Delete(s1, id), Delete(s, id), fd, h);
    }
  }

  lemma SameRecycling(s: State, o: Objects, id: Word)
    requires SameClientIDs(s.objects, o)
    ensures var t := Delete(s.(objects := o), id); t == Delete(s, id).(objects := t.objects)
  {
  }

  lemma UnhandledRest(s: State, fd: int)
    ensures HandOver(s, fd) == s.(handed := HandOver(s, fd).handed)
    ensures CloseFD(s, fd) == s.(closed := CloseFD(s, fd).closed)
  {
  }

  lemma FatalOutlives(s: State, fd: int, h: Handler)
    ensures HandOver(Noted(s, h), fd).fatal == s.fatal
  {
  }

  lemma RestAfterNote(s: State, s2: State, fd: int, h: Handler)
    requires s == s2.(objects := s.objects)
    ensures var t := HandOver(Noted(s, h), fd);
            t == s2.(objects := t.objects, handed := t.handed, closed := t.closed, done := t.done)
    ensures var t := CloseFD(s, fd); t == s2.(objects := t.objects, closed := t.closed)
  {
  }

  /** The rest of the state after a dispatch. */
  lemma FrameRest(p: Protocol, s: State, f: Frame, fd: int, h: Handler)
    requires s.fatal.None? && Inert(h) && DispatchFrame(p, s, f, fd, h).fatal.None? && |f.body| <= MAX_FRAME
    ensures f.sender in s.objects
    ensures var t := DispatchFrame(p, s, f, fd, h);
            var gone := Sync.Deletes(p, s, f, fd);
            var s1 := RouteFD(s, InterfaceOf(p, s.objects[f.sender].kind), f.opcode, fd).0;
            var s2 := if gone.None? then s1 else Delete(s1, gone.value);
            t == s2.(objects := t.objects, handed := t.handed, closed := t.closed, done := t.done)
  {
    hide Z.AbsorbNewIDs, InterfaceOf, DispatchEvent, Sync.DeletedBy, Delete, HasFD, Recovered;
    if f.sender in s.objects {
      var iface := InterfaceOf(p, s.objects[f.sender].kind);
      var (s1, fd1) := RouteFD(s, iface, f.opcode, fd);
      RecoveredFails(s1, fd1, f.opcode, f.sender);
      if s.objects[f.sender].zombie && s.objects[f.sender].kind != DISPLAY {
        match Z.AbsorbNewIDs(iface, f.opcode, s.objects, f.body) {
          case Panic(o) => RecoveredFails(CloseFD(s1, fd1).(objects := o), -1, f.opcode, f.sender);
          case Next(_) =>
        }
      } else if f.opcode < |iface.events| {
        RecoveredFails(DispatchEvent(s1, iface.events[f.opcode], fd1, f.body, h).0, fd1, f.opcode, f.sender);
        var (t, panicked) := DispatchEvent(s1, iface.events[f.opcode], fd1, f.body, h);
        if !panicked { EventRest(s1, iface.events[f.opcode], fd1, f.body, h); }
      }
    }
  }

  // ---- a handler that acts

  lemma DeedHanded(s: State, d: Deed, fd: int)
    ensures Do(HandOver(s, fd), d) == (HandOver(Do(s, d).0, fd), Do(s, d).1)
  {
    hide Allocate, Encoder.Sendable, WriteFrame;
  }

  lemma {:induction false} DeedsHanded(s: State, ds: seq<Deed>, fd: int)
    ensures DoAll(HandOver(s, fd), ds) == (HandOver(DoAll(s, ds).0, fd), DoAll(s, ds).1)
    decreases |ds|
  {
    hide Do, HandOver;
    if ds != [] {
      DeedHanded(s, ds[0], fd);
      DeedsHanded(Do(s, ds[0]).0, ds[1..], fd);
    }
  }

  lemma FinishDeeds(s: State, fd: int, ds: seq<Deed>, notes: bool)
    ensures var t := Finish(s, fd, Present([], false, notes));
            && t == (HandOver(Noted(s, Present([], false, notes)), fd), false)
            && (!DoAll(t.0, ds).1 ==> Finish(s, fd, Present(ds, false, notes)) == (DoAll(t.0, ds).0, false))
  {
    hide HandOver, Do;
    DeedsHanded(Noted(s, Present([], false, notes)), ds, fd);
  }

  lemma EventDeeds(s: State, e: Event, fd: int, data: seq<byte>, ds: seq<Deed>, notes: bool)
    requires var (t, panicked) := DispatchEvent(s, e, fd, data, Present([], false, notes));
             t.fatal.None? && !panicked && !DoAll(t, ds).1
    ensures var (t, _) := DispatchEvent(s, e, fd, data, Present([], false, notes));
            DispatchEvent(s, e, fd, data, Present(ds, false, notes)) == (DoAll(t, ds).0, false)
  {
    hide Decode, Z.DeletedId, HasNewId, CarriesFD, Finish, ErrorOf, Delete, SetFatal, DoAll;
    match Decode(e.args, s.objects, data, fd) {
      case Panic(_) =>
      case Next(w) =>
        var s1 := s.(objects := w.objects);
        FinishDeeds(Delete(s1, Z.DeletedId(w.fields)), fd, ds, notes);
        FinishDeeds(SetFatal(s1, ErrorOf(w.fields)), fd, ds, notes);
        FinishDeeds(s1, fd, ds, notes);
    }
  }

  /** What a handler does is what the same calls after the dispatch would do: if the dispatch with a
      handler that only looks does not fail, nor the deeds after it, the dispatch with these deeds
      in its handler comes to the same state, provided that the message calls the handler. */
  lemma DeedsAreCalls(p: Protocol, s: State, f: Frame, fd: int, ds: seq<Deed>, notes: bool)
    requires s.fatal.None? && DispatchFrame(p, s, f, fd, Present([], false, notes)).fatal.None?
    requires !DoAll(DispatchFrame(p, s, f, fd, Present([], false, notes)), ds).1
    ensures var t := DispatchFrame(p, s, f, fd, Present([], false, notes));
            DispatchFrame(p, s, f, fd, Present(ds, false, notes)) == if Sync.Calls(p, s, f, fd) then DoAll(t, ds).0 else t
  {
    hide Decode, Z.AbsorbNewIDs, InterfaceOf, DispatchEvent, HasFD, Recovered, DoAll;
    if f.sender in s.objects {
      var iface := InterfaceOf(p, s.objects[f.sender].kind);
      var (s1, fd1) := RouteFD(s, iface, f.opcode, fd);
      RecoveredFails(s1, fd1, f.opcode, f.sender);
      if f.opcode < |iface.events| && (s.objects[f.sender].zombie ==> s.objects[f.sender].kind == DISPLAY) {
        var e := iface.events[f.opcode];
        var (t, panicked) := DispatchEvent(s1, e, fd1, f.body, Present([], false, notes));
        RecoveredFails(t, fd1, f.opcode, f.sender);
        EventCalls(s1, e, fd1, f.body, notes);
        if !panicked { EventDeeds(s1, e, fd1, f.body, ds, notes); }
      }
    }
  }

  /** Deeds as calls into the library. */
  function CallsOf(ds: seq<Deed>): seq<Action>
    requires forall i :: 0 <= i < |ds| ==> !ds[i].Fail?
  {
    if ds == [] then []
    else
      (match ds[0]
       case Create(kind) => [DoRegister(kind)]
       case Destroy(id) => [DoMarkZombie(id)]
       case Send(b, oob) => [DoWrite(b, oob)]
       case CloseIt => [DoClose]
       case _ => [])
      + CallsOf(ds[1..])
  }

  /** The i-th deed creates an object, and no ID is left for it. */
  predicate ExhaustsAt(p: Protocol, s: State, ds: seq<Deed>, i: nat)
    requires forall k :: 0 <= k < |ds| ==> !ds[k].Fail?
  {
    i < |ds| && ds[i].Create? && Register(RunCalls(p, s, CallsOf(ds[..i])), ds[i].kind).1.None?
  }

  /** They come to the state that these calls come to, and panic only where Register does. */
  lemma {:induction false} DeedsAreActions(p: Protocol, s: State, ds: seq<Deed>)
    requires forall i :: 0 <= i < |ds| ==> !ds[i].Fail?
    ensures !DoAll(s, ds).1 ==> DoAll(s, ds).0 == RunCalls(p, s, CallsOf(ds))
    ensures DoAll(s, ds).1 <==> exists i: nat :: ExhaustsAt(p, s, ds, i)
    decreases |ds|
  {
    hide Do, RunCalls, ExhaustsAt;
    if ds == [] {
      RunNothing(p, s);
      NothingExhausts(p, s);
    } else {
      var more := ds[1..];
      assert forall i :: 0 <= i < |more| ==> more[i] == ds[i + 1];
      OneDeed(p, s, ds);
      ExhaustsFirst(p, s, ds);
      if !Do(s, ds[0]).1 {
        DeedsAreActions(p, Do(s, ds[0]).0, more);
        forall i: nat
          ensures ExhaustsAt(p, s, ds, i + 1) <==> ExhaustsAt(p, Do(s, ds[0]).0, more, i)
        {
          ExhaustsLater(p, s, ds, i);
        }
        forall i: nat | ExhaustsAt(p, s, ds, i)
          ensures i > 0 && ExhaustsAt(p, Do(s, ds[0]).0, more, i - 1)
        {
          assert i > 0;
          assert ExhaustsAt(p, s, ds, (i - 1) + 1);
        }
      }
    }
  }

  lemma NothingExhausts(p: Protocol, s: State)
    ensures forall i: nat :: !ExhaustsAt(p, s, [], i)
  {
  }

  lemma ExhaustsFirst(p: Protocol, s: State, ds: seq<Deed>)
    requires ds != [] && forall i :: 0 <= i < |ds| ==> !ds[i].Fail?
    ensures ExhaustsAt(p, s, ds, 0) <==> Do(s, ds[0]).1
  {
    hide Register;
    assert ds[..0] == [];
    RunNothing(p, s);
  }

  lemma ExhaustsLater(p: Protocol, s: State, ds: seq<Deed>, i: nat)
    requires ds != [] && !Do(s, ds[0]).1 && forall i :: 0 <= i < |ds| ==> !ds[i].Fail?
    ensures forall k :: 0 <= k < |ds[1..]| ==> ds[1..][k] == ds[k + 1]
    ensures ExhaustsAt(p, s, ds, i + 1) <==> ExhaustsAt(p, Do(s, ds[0]).0, ds[1..], i)
  {
    hide Do, RunCalls, Register;
    if i + 1 < |ds| {
      assert ds[..i + 1][0] == ds[0] && ds[..i + 1][1..] == ds[1..][..i];
      OneDeed(p, s, ds[..i + 1]);
    }
  }

  lemma RunNothing(p: Protocol, s: State)
    ensures RunCalls(p, s, CallsOf([])) == s
  {
  }

  lemma OneDeed(p: Protocol, s: State, ds: seq<Deed>)
    requires ds != [] && forall i :: 0 <= i < |ds| ==> !ds[i].Fail?
    ensures Do(s, ds[0]).1 <==> ds[0].Create? && Register(s, ds[0].kind).1.None?
    ensures !Do(s, ds[0]).1 ==> RunCalls(p, s, CallsOf(ds)) == RunCalls(p, Do(s, ds[0]).0, CallsOf(ds[1..]))
  {
    hide Register, WriteMsg, MarkZombie, CloseConn, RunCalls;
    var a := match ds[0]
      case Create(kind) => DoRegister(kind)
      case Destroy(id) => DoMarkZombie(id)
      case Send(b, oob) => DoWrite(b, oob)
      case _ => DoClose;
    Sync.RunCallsHead(p, s, a, CallsOf(ds[1..]));
  }

  lemma EventCalls(s: State, e: Event, fd: int, data: seq<byte>, notes: bool)
    ensures !DispatchEvent(s, e, fd, data, Present([], false, notes)).1 <==> Decode(e.args, s.objects, data, fd).Next?
  {
    hide Decode, Z.DeletedId, ErrorOf;
  }

  // ---- what a delete_id gives back

  /** What a delivery does, beside the objects: the allocator gets back what a delete_id names. */
  lemma Recycles(p: Protocol, s: State, f: Frame, fd: int, h: Handler)
    requires s.fatal.None? && Inert(h) && DispatchFrame(p, s, f, fd, h).fatal.None? && |f.body| <= MAX_FRAME
    ensures var t := DispatchFrame(p, s, f, fd, h);
            var gone := Sync.Deletes(p, s, f, fd);
            && t.inbox == s.inbox && t.sent == s.sent
            && t.ids == if gone.None? then s.ids else DeleteID(s.objects, s.ids, gone.value).1
  {
    hide DispatchFrame, Sync.Deletes, DeleteID, InterfaceOf;
    FrameRest(p, s, f, fd, h);
    RoutingRest(s, InterfaceOf(p, s.objects[f.sender].kind), f.opcode, fd);
  }

  lemma RoutingRest(s: State, iface: Interface, opcode: nat, fd: int)
    ensures var t := RouteFD(s, iface, opcode, fd).0; t == s.(pending := t.pending)
  {
  }

  /** Over whole sessions: after a dispatch that delivers a delete_id for a registered client ID,
      the next object gets this very ID. */
  lemma AcknowledgedIsNext(p: Protocol, inbox: seq<Arrival>, plan: seq<Written>, acts: seq<Action>, h: Handler,
                           id: Word, kind: Kind)
    requires Inert(h) && Recyclable(id)
    requires var s := RunCalls(p, Initial(inbox, plan), acts);
             var (s1, r) := ReadMsg(s);
             && r.Got? && id in s.objects && Sync.Deletes(p, s1, r.frame, r.fd) == Some(id)
             && Dispatch(p, s, h).1.None?
    ensures Register(Dispatch(p, RunCalls(p, Initial(inbox, plan), acts), h).0, kind).1 == Some(id)
  {
    hide RunCalls, ReadMsg, DispatchFrame, Sync.Deletes, Balanced, Register, Allocate;
    var s := RunCalls(p, Initial(inbox, plan), acts);
    var (s1, r) := ReadMsg(s);
    Sync.ReadKeepsObjects(s);
    ReadKeepsRegistry(s);
    GotIsSmall(s);
    Recycles(p, s1, r.frame, r.fd, h);
    Sessions.EverySessionIsBalanced(p, inbox, plan, acts + [DoDispatch(h)]);
    Deadlines.RunCallsAppend(p, Initial(inbox, plan), acts, [DoDispatch(h)]);
    OneCall(p, s, DoDispatch(h));
    LastRecycled(DispatchFrame(p, s1, r.frame, r.fd, h), s1, id, kind);
  }

  lemma LastRecycled(t: State, s: State, id: Word, kind: Kind)
    requires Balanced(t.objects, t.ids) && Recyclable(id) && id in s.objects
    requires t.ids == DeleteID(s.objects, s.ids, id).1
    ensures Register(t, kind).1 == Some(id)
  {
    AllocateBalanced(t.objects, t.ids, Obj(kind, false));
  }

  lemma OneCall(p: Protocol, s: State, a: Action)
    ensures RunCalls(p, s, [a]) == Act(p, s, a).0
  {
    hide Act;
    assert [a][..0] == [];
  }

  // ---- destroying is harmless to sessions

  /** The same connection, with more zombies. What became of descriptors and of the variable of
      Roundtrip may differ, since no handler of a zombie is called. */
  ghost predicate Twins(s: State, s': State) {
    && s' == s.(objects := s'.objects, handed := s'.handed, closed := s'.closed, done := s'.done)
    && Z.Shadows(s.objects, s'.objects)
  }

  /** Calls other than direct registrations in the server's range, with handlers that only look. */
  predicate Quiet(a: Action) {
    match a
    case DoDispatch(h) => Inert(h)
    case DoRegisterServer(_, _) => false
    case _ => true
  }

  /** What a dispatch introduces is not held by live objects. */
  predicate OrderlyCall(p: Protocol, s: State, a: Action) {
    a.DoDispatch? ==>
      var (s1, r) := ReadMsg(s);
      r.Got? ==> Z.Orderly(p, s1.objects, MessageOf(p, s1, r.frame, r.fd, a.h))
  }

  predicate OrderlyCalls(p: Protocol, s: State, acts: seq<Action>) {
    forall i :: 0 <= i < |acts| ==> OrderlyCall(p, RunCalls(p, s, acts[..i]), acts[i])
  }

  /** more is acts with destructions inserted anywhere. */
  predicate Inserts(acts: seq<Action>, more: seq<Action>)
    decreases |more|
  {
    if more == [] then acts == []
    else
      var n := |more| - 1;
      || (acts != [] && acts[|acts| - 1] == more[n] && Inserts(acts[..|acts| - 1], more[..n]))
      || (more[n].DoMarkZombie? && Inserts(acts, more[..n]))
  }

  lemma AbsorbedTwins(s: State, s': State, r: Reading)
    requires Twins(s, s')
    ensures Twins(Absorbed(s, r), Absorbed(s', r))
    ensures TakePending(s).0 == TakePending(s').0 && Twins(TakePending(s).1, TakePending(s').1)
  {
    hide Z.Shadows;
  }

  lemma FatalFails(s: State, e: Error)
    ensures SetFatal(s, e).fatal.Some?
  {
  }

  lemma ReadTwins(s: State, s': State)
    requires Twins(s, s') && s.fatal.None? && ReadMsg(s).0.fatal.None?
    ensures Twins(ReadMsg(s).0, ReadMsg(s').0) && ReadMsg(s').1 == ReadMsg(s).1
    ensures ReadMsg(s).0.objects == s.objects && ReadMsg(s').0.objects == s'.objects
  {
    ReadKeepsRegistry(s);
    ReadKeepsRegistry(s');
    hide ReadExact, HeaderFault, Uint32, Z.Shadows, Absorbed, TakePending, SetFatal;
    var h := ReadExact(s.inbox, 8);
    AbsorbedTwins(s, s', h);
    var s1, s1' := Absorbed(s, h), Absorbed(s', h);
    if h.error.Some? {
      FatalFails(s1, h.error.value);
    } else if HeaderFault(h.got).Some? {
      FatalFails(s1, HeaderFault(h.got).value);
    } else {
      GoodSize(h.got);
      var b := ReadExact(s1.inbox, Uint32(h.got[4..8]) / 0x1_0000 - 8);
      AbsorbedTwins(s1, s1', b);
      if b.error.Some? { FatalFails(Absorbed(s1, b), b.error.value); }
      AbsorbedTwins(Absorbed(s1, b), Absorbed(s1', b), b);
    }
  }

  lemma RouteTwins(s: State, s': State, iface: Interface, opcode: nat, fd: int)
    requires Twins(s, s')
    ensures Twins(RouteFD(s, iface, opcode, fd).0, RouteFD(s', iface, opcode, fd).0)
    ensures RouteFD(s, iface, opcode, fd).1 == RouteFD(s', iface, opcode, fd).1
  {
    hide Z.Shadows;
  }

  /** Both sides delete the same ID, or none. */
  lemma SameDeletion(p: Protocol, s: State, s': State, f: Frame, fd: int, h: Handler)
    requires Z.WellFormed(p) && Twins(s, s') && f.sender in s.objects && |f.body| <= MAX_FRAME
    requires Z.Orderly(p, s.objects, MessageOf(p, s, f, fd, h))
    requires Z.Deliver(p, s.objects, MessageOf(p, s, f, fd, h)).Some?
    ensures Sync.Deletes(p, s', f, fd) == Sync.Deletes(p, s, f, fd)
  {
    hide Decode, HasFD, Z.AbsorbNewIDs, Z.DeletedId;
    var kind := s.objects[f.sender].kind;
    var iface := InterfaceOf(p, kind);
    RouteTwins(s, s', iface, f.opcode, fd);
    var fd1 := RouteFD(s, iface, f.opcode, fd).1;
    if f.opcode < |iface.events| {
      var e := iface.events[f.opcode];
      assert p[kind].events[f.opcode] == e;
      if kind == DISPLAY && e.role == DeleteIdEvent {
        Z.DecoderIgnoresZombies(e.args, s.objects, s'.objects, f.body, fd1);
        Z.SameDeletedId(Decode(e.args, s.objects, f.body, fd1).s.fields, Decode(e.args, s'.objects, f.body, fd1).s.fields);
      }
    }
  }

  lemma DeleteTwins(s: State, s': State, id: Word)
    requires Twins(s, s')
    ensures Twins(Delete(s, id), Delete(s', id))
  {
  }

  /** One message on both sides. */
  lemma FrameTwins(p: Protocol, s: State, s': State, f: Frame, fd: int, h: Handler)
    requires Z.WellFormed(p) && Twins(s, s') && s.fatal.None? && Inert(h) && |f.body| <= MAX_FRAME
    requires Z.Orderly(p, s.objects, MessageOf(p, s, f, fd, h))
    requires DispatchFrame(p, s, f, fd, h).fatal.None?
    ensures Twins(DispatchFrame(p, s, f, fd, h), DispatchFrame(p, s', f, fd, h))
  {
    hide DispatchFrame, Z.Deliver, Z.Orderly, Sync.Deletes, Z.WellFormed, RouteFD, Delete, Z.Shadows;
    var m := MessageOf(p, s, f, fd, h);
    FrameIsDelivery(p, s, f, fd, h);
    FrameIsDelivery(p, s', f, fd, h);
    FrameRest(p, s, f, fd, h);
    SameSender(s, s', f.sender);
    var iface := InterfaceOf(p, s.objects[f.sender].kind);
    RouteTwins(s, s', iface, f.opcode, fd);
    Z.DeliverShadowed(p, s.objects, s'.objects, m);
    SameDeletion(p, s, s', f, fd, h);
    FrameRest(p, s', f, fd, h);
    var gone := Sync.Deletes(p, s, f, fd);
    if gone.Some? {
      DeleteTwins(RouteFD(s, iface, f.opcode, fd).0, RouteFD(s', iface, f.opcode, fd).0, gone.value);
    }
  }

  lemma SameSender(s: State, s': State, id: Word)
    requires Twins(s, s') && id in s.objects
    ensures id in s'.objects && s'.objects[id].kind == s.objects[id].kind
  {
  }

  lemma RegisterTwins(s: State, s': State, kind: Kind)
    requires Twins(s, s')
    ensures Twins(Register(s, kind).0, Register(s', kind).0)
  {
    SameAllocation(s.objects, s'.objects, s.ids);
  }

  lemma {:induction false} SamePop(o: Objects, o': Objects, free: seq<Word>)
    requires o.Keys == o'.Keys
    ensures PopFree(o, free) == PopFree(o', free)
  {
    if free != [] { SamePop(o, o', free[..|free| - 1]); }
  }

  lemma {:induction false} SameBump(o: Objects, o': Objects, current: Word)
    requires o.Keys == o'.Keys
    ensures Bump(o, current) == Bump(o', current)
    decreases FIRST_SERVER_ID - current
  {
    if current < FIRST_SERVER_ID - 1 && current + 1 in o { SameBump(o, o', current + 1); }
  }

  /** Allocation looks at the IDs only. */
  lemma SameAllocation(o: Objects, o': Objects, ids: Ids)
    requires o.Keys == o'.Keys
    ensures Allocate(o, ids) == Allocate(o', ids)
  {
    SamePop(o, o', ids.free);
    SameBump(o, o', ids.current);
  }

  lemma MarkTwins(s: State, s': State, id: Word)
    requires Twins(s, s')
    ensures Twins(MarkZombie(s, id), MarkZombie(s', id)) && Twins(s, MarkZombie(s', id))
  {
  }

  lemma SmallTwins(s: State, s': State, b: seq<byte>, oob: seq<byte>, fd: int)
    requires Twins(s, s')
    ensures Twins(WriteMsg(s, b, oob).0, WriteMsg(s', b, oob).0)
    ensures Twins(CloseConn(s), CloseConn(s')) && Twins(HandOver(s, fd), HandOver(s', fd))
  {
    hide WriteFrame, Encoder.Sendable, Accepted, Z.Shadows;
  }

  lemma CallTwins(p: Protocol, s: State, s': State, a: Action)
    requires Z.WellFormed(p) && Twins(s, s') && Quiet(a) && OrderlyCall(p, s, a)
    requires Act(p, s, a).0.fatal.None?
    ensures Twins(Act(p, s, a).0, Act(p, s', a).0)
  {
    hide ReadMsg, DispatchFrame, Register, Delete, MarkZombie, WriteMsg, CloseConn, HandOver, Z.Orderly, Z.WellFormed, Z.Shadows;
    Deadlines.FailureStays(p, s, a);
    match a {
      case DoRegister(kind) => RegisterTwins(s, s', kind);
      case DoDelete(id) => DeleteTwins(s, s', id);
      case DoMarkZombie(id) => MarkTwins(s, s', id);
      case DoWrite(b, oob) => SmallTwins(s, s', b, oob, -1);
      case DoClose => SmallTwins(s, s', [], [], -1);
      case DoRead =>
        ReadAlive(s);
        ReadTwins(s, s');
        var (s1, r) := ReadMsg(s);
        if r.Got? { SmallTwins(s1, ReadMsg(s').0, [], [], r.fd); }
      case DoDispatch(h) =>
        ReadAlive(s);
        var (s1, r) := ReadMsg(s);
        if !r.ReadFailed? { ReadTwins(s, s'); }
        if r.Got? {
          GotIsSmall(s);
          FrameTwins(p, s1, ReadMsg(s').0, r.frame, r.fd, h);
        }
    }
  }

  /** Reading fails with the fatal error, or leaves none. */
  lemma ReadAlive(s: State)
    requires s.fatal.None?
    ensures ReadMsg(s).0.fatal.None? <==> !ReadMsg(s).1.ReadFailed?
  {
    hide ReadExact, HeaderFault, Uint32;
  }

  /** The main result on zombies, for whole sessions: take any session that does not fail, with
      handlers that only look, and let the application destroy further proxies at any moments
      in between. The session does not fail either, and it comes to the same state, up to
      zombies and to who got the descriptors. */
  lemma {:induction false} SessionsSurviveDestruction(p: Protocol, s: State, s': State, acts: seq<Action>, more: seq<Action>)
    requires Z.WellFormed(p) && Twins(s, s') && Inserts(acts, more)
    requires forall i :: 0 <= i < |acts| ==> Quiet(acts[i])
    requires OrderlyCalls(p, s, acts) && RunCalls(p, s, acts).fatal.None?
    ensures Twins(RunCalls(p, s, acts), RunCalls(p, s', more))
    decreases |more|
  {
    hide Act, Quiet, OrderlyCall, Twins, Z.WellFormed;
    if more != [] {
      var n := |more| - 1;
      if acts != [] && acts[|acts| - 1] == more[n] && Inserts(acts[..|acts| - 1], more[..n]) {
        var init, last := acts[..|acts| - 1], acts[|acts| - 1];
        assert forall i :: 0 <= i < |init| ==> init[i] == acts[i] && init[..i] == acts[..i];
        var t := RunCalls(p, s, init);
        Deadlines.FailureStays(p, t, last);
        SessionsSurviveDestruction(p, s, s', init, more[..n]);
        CallTwins(p, t, RunCalls(p, s', more[..n]), last);
      } else {
        SessionsSurviveDestruction(p, s, s', acts, more[..n]);
        MarkIsCall(p, RunCalls(p, s', more[..n]), more[n].id);
        MarkTwins(RunCalls(p, s, acts), RunCalls(p, s', more[..n]), more[n].id);
      }
    }
  }

  lemma MarkIsCall(p: Protocol, s: State, id: Word)
    ensures Act(p, s, DoMarkZombie(id)).0 == MarkZombie(s, id)
  {
  }

  // ---- the allocator over sessions

  /** The registry calls of a session are a run of the allocator, and lead to the session's IDs. */
  ghost predicate Books(s: State) {
    && Balanced(s.objects, s.ids)
    && Allocator.Run(s.book).ids == s.ids
    && SameIDs(Allocator.Run(s.book).objects, s.objects)
  }

  ghost predicate SameIDs(o: Objects, o': Objects) {
    forall n: Word :: n < FIRST_SERVER_ID ==> (n in o <==> n in o')
  }

  lemma BookRegister(s: State, kind: Kind)
    requires Books(s)
    ensures Books(Register(s, kind).0)
    ensures Register(s, kind).1 == var b := Allocator.Run(s.book);
                                   var a := Allocate(b.objects, b.ids);
                                   if a.Fresh? then Some(a.id) else None
  {
    hide Balanced, Allocate, Allocator.Run;
    var b := Allocator.Run(s.book);
    Allocator.RunSnoc(s.book, Allocator.Register(kind));
    Allocator.EveryRunIsBalanced(s.book);
    AllocateBalanced(s.objects, s.ids, Obj(kind, false));
    AllocateBalanced(b.objects, b.ids, Obj(kind, false));
  }

  lemma BookDelete(s: State, id: Word)
    requires Books(s)
    ensures Books(Delete(s, id))
  {
    hide Balanced, Allocator.Run;
    Allocator.RunSnoc(s.book, Allocator.Delete(id));
    DeleteBalanced(s.objects, s.ids, id);
  }

  lemma BooksAreStable()
    ensures Stable((s: State) => Books(s))
  {
    hide Register, Delete, Balanced, Allocator.Run, KeptByNote, KeptByFatal, KeptByDescriptors, KeptBySocket;
    var inv := (s: State) => Books(s);
    RegistryOnly(inv);
    forall s, kind | inv(s) ensures inv(Register(s, kind).0) { BookRegister(s, kind); }
    forall s, id | inv(s) ensures inv(Delete(s, id)) { BookDelete(s, id); }
    forall s, o | inv(s) && SameClientIDs(s.objects, o) ensures inv(s.(objects := o)) {
      BalancedIgnoresServerIDs(s.objects, o, s.ids);
    }
  }

  lemma EverySessionKeepsBooks(p: Protocol, inbox: seq<Arrival>, plan: seq<Written>, acts: seq<Action>)
    ensures Books(RunCalls(p, Initial(inbox, plan), acts))
  {
    var inv := (s: State) => Books(s);
    BooksAreStable();
    EmptyBook(inbox, plan);
    assert inv(Initial(inbox, plan));
    RunsKeep(inv, p, Initial(inbox, plan), acts);
  }

  lemma EmptyBook(inbox: seq<Arrival>, plan: seq<Written>)
    ensures Books(Initial(inbox, plan))
  {
  }

  /** Books only grow. */
  lemma BookGrows(p: Protocol, s: State, acts: seq<Action>)
    ensures s.book <= RunCalls(p, s, acts).book
  {
    var inv := (t: State) => s.book <= t.book;
    GrowthIsStable(s.book);
    assert inv(s);
    RunsKeep(inv, p, s, acts);
  }

  lemma GrowthIsStable(book: seq<Allocator.Op>)
    ensures Stable((t: State) => book <= t.book)
  {
    hide Allocate, DeleteID, SameClientIDs, KeptByNote, KeptByFatal, KeptByDescriptors, KeptBySocket;
    RegistryOnly((t: State) => book <= t.book);
  }

  lemma SameKeys(o: Objects, o': Objects)
    requires SameIDs(o, o')
    ensures Allocator.ClientKeys(o) == Allocator.ClientKeys(o')
  {
  }

  lemma {:induction false} PeakIsAbove(ops: seq<Allocator.Op>, k: nat)
    requires k <= |ops|
    ensures |Allocator.ClientKeys(Allocator.Run(ops[..k]).objects)| <= Allocator.Peak(ops)
  {
    if k == |ops| {
      assert ops[..k] == ops;
    } else {
      assert ops[..k] == ops[..|ops| - 1][..k];
      PeakIsAbove(ops[..|ops| - 1], k);
    }
  }

  /** The main result on IDs, for whole sessions: whatever the peer sends and the handlers do,
      if the display was never deleted the counter is the largest number of client IDs that
      were registered at once at any registry call, and at no moment were there more; and the
      next ID is an acknowledged one, or exactly one above all issued. */
  lemma SessionCounterIsPeak(p: Protocol, inbox: seq<Arrival>, plan: seq<Written>, acts: seq<Action>, k: nat, kind: Kind)
    requires k <= |acts|
    ensures var s := RunCalls(p, Initial(inbox, plan), acts);
            var earlier := RunCalls(p, Initial(inbox, plan), acts[..k]);
            && (Allocator.NeverDeletesDisplay(s.book) ==>
                 && s.ids.current == Allocator.Peak(s.book)
                 && |Allocator.ClientKeys(earlier.objects)| <= s.ids.current)
            && var id := Register(s, kind).1;
               (id.Some? ==>
                 || (id.value in Allocator.Acknowledged(s.book) && id.value in Allocator.Issued(s.book))
                 || ((forall i :: i in Allocator.Issued(s.book) ==> i < id.value)
                     && (id.value == 1 || (id.value - 1) in Allocator.Issued(s.book))))
  {
    hide Books, Register, Allocate, Allocator.Run, Allocator.Issued, Allocator.Acknowledged, Allocator.Peak, Allocator.ClientKeys;
    var s0 := Initial(inbox, plan);
    var s, t := RunCalls(p, s0, acts), RunCalls(p, s0, acts[..k]);
    EverySessionKeepsBooks(p, inbox, plan, acts);
    EverySessionKeepsBooks(p, inbox, plan, acts[..k]);
    Deadlines.RunCallsAppend(p, s0, acts[..k], acts[k..]);
    assert acts[..k] + acts[k..] == acts;
    BookGrows(p, t, acts[k..]);
    BookRegister(s, kind);
    BookIDs(s);
    BookIDs(t);
    if Allocator.NeverDeletesDisplay(s.book) {
      Allocator.CounterIsPeak(s.book);
      PeakIsAbove(s.book, |t.book|);
      assert s.book[..|t.book|] == t.book;
    }
    if Register(s, kind).1.Some? { Allocator.NextIsAcknowledgedOrOneAboveAll(s.book); }
  }

  lemma BookIDs(s: State)
    requires Books(s)
    ensures Allocator.Run(s.book).ids == s.ids
    ensures Allocator.ClientKeys(Allocator.Run(s.book).objects) == Allocator.ClientKeys(s.objects)
  {
    SameKeys(Allocator.Run(s.book).objects, s.objects);
  }
}
