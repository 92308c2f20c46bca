/** Closing a connection, by a call or in a handler: its queue of descriptors is closed with it, and
    nothing moves afterwards. */
module Closing {
  import opened Wire
  import opened Registry
  import opened Signature
  import opened Decoder
  import opened Socket
  import opened Connection
  import D = Descriptors
  import Deadlines
  import Delivery
  import Encoder
  import Sync
  import Z = Zombies

  /** No descriptor is queued, and the socket neither gives nor takes anything. */
  predicate Shut(s: State) {
    s.pending == [] && s.inbox == [] && s.plan == []
  }

  /** Every descriptor that was received was handed to the application or closed. */
  ghost predicate Settled(s: State) {
    multiset(s.received) == multiset(s.handed) + multiset(s.closed)
  }

  /** No byte and no descriptor has moved since. */
  predicate Unmoved(s: State, t: State) {
    && t.outbox == s.outbox && t.sent == s.sent && t.received == s.received
    && t.handed == s.handed && t.closed == s.closed
  }

  // ---- after the end

  lemma NothingToRead(s: State)
    requires Shut(s)
    ensures var (t, r) := ReadMsg(s);
            !r.Got? && Shut(t) && Unmoved(s, t) && t.fatal.Some? && (s.fatal.None? ==> r == ReadFailed(UnexpectedEOF))
  {
    hide HeaderFault, Uint32;
    assert s.pending + [] == s.pending && s.received + [] == s.received && s.closed + [] == s.closed;
  }

  lemma NothingToWrite(s: State, b: seq<byte>, oob: seq<byte>)
    requires Shut(s)
    ensures var (t, e) := WriteMsg(s, b, oob); Shut(t) && Unmoved(s, t) && e.Some?
  {
    hide Encoder.Sendable;
    if s.fatal.None? && Encoder.Sendable(b) {
      assert Accepted(WriteFrame([], b, oob).attempts) == [] by { FailedWrite(b, oob); }
      assert s.outbox + [] == s.outbox && s.closed + [] == s.closed;
    }
  }

  lemma FailedWrite(b: seq<byte>, oob: seq<byte>)
    ensures var w := WriteFrame([], b, oob); w.plan == [] && Accepted(w.attempts) == [] && w.error.Some?
  {
    FrameTurn([], b, oob);
  }

  lemma ObjectsStayShut(s: State, kind: Kind, id: Word, e: Error)
    requires Shut(s)
    ensures Shut(Register(s, kind).0) && Unmoved(s, Register(s, kind).0)
    ensures Shut(Delete(s, id)) && Unmoved(s, Delete(s, id))
    ensures Shut(MarkZombie(s, id)) && Unmoved(s, MarkZombie(s, id))
    ensures Shut(SetFatal(s, e)) && Unmoved(s, SetFatal(s, e))
    ensures Shut(CloseConn(s)) && Unmoved(s, CloseConn(s))
  {
    hide Allocate, DeleteID;
    assert s.closed + [] == s.closed;
  }

  lemma ActStaysShut(p: Protocol, s: State, a: Action)
    requires Shut(s)
    ensures Shut(Act(p, s, a).0) && Unmoved(s, Act(p, s, a).0)
  {
    hide ReadMsg, WriteMsg, Register, Delete, MarkZombie, SetFatal, CloseConn, DispatchFrame, RegisterWithID, Shut, Unmoved;
    match a {
      case DoRegister(kind) => ObjectsStayShut(s, kind, 0, NoProgress);
      case DoRegisterServer(_, _) => OtherObjects(s);
      case DoDelete(id) => ObjectsStayShut(s, 0, id, NoProgress);
      case DoMarkZombie(id) => ObjectsStayShut(s, 0, id, NoProgress);
      case DoWrite(b, oob) => NothingToWrite(s, b, oob);
      case DoRead =>
        NothingToRead(s);
        assert Act(p, s, a).0 == ReadMsg(s).0;
      case DoDispatch(_) =>
        NothingToRead(s);
        OtherObjects(s);
        var (t, r) := ReadMsg(s);
        if r.ReadFailed? {
          ObjectsStayShut(t, 0, 0, UnableToRead(r.error));
          StillUnmoved(s, t, SetFatal(t, UnableToRead(r.error)));
        }
      case DoClose => ObjectsStayShut(s, 0, 0, NoProgress);
    }
  }

  lemma OtherObjects(s: State)
    requires Shut(s)
    ensures Unmoved(s, s) && forall o :: Shut(s.(objects := o)) && Unmoved(s, s.(objects := o))
  {
  }

  lemma StillUnmoved(s: State, t: State, u: State)
    requires Unmoved(s, t) && Unmoved(t, u)
    ensures Unmoved(s, u)
  {
  }

  /** Nothing that is called later moves a byte or a descriptor. */
  lemma {:induction false} StaysShut(p: Protocol, s: State, later: seq<Action>)
    requires Shut(s)
    ensures Shut(RunCalls(p, s, later)) && Unmoved(s, RunCalls(p, s, later))
  {
    hide Act, Shut, Unmoved;
    if later == [] {
      OtherObjects(s);
    } else {
      var n := |later| - 1;
      StaysShut(p, s, later[..n]);
      ActStaysShut(p, RunCalls(p, s, later[..n]), later[n]);
      StillUnmoved(s, RunCalls(p, s, later[..n]), RunCalls(p, s, later));
    }
  }

  // ---- a call of Close

  /** The main result on Close: over every session, the descriptors that were queued are closed, in
      order and once, so that none is left that the application does not own; and no later call
      reads or writes anything. */
  lemma CloseEmptiesTheQueue(p: Protocol, inbox: seq<Arrival>, plan: seq<Written>, acts: seq<Action>, later: seq<Action>)
    requires D.Genuine(inbox)
    ensures var s := RunCalls(p, Initial(inbox, plan), acts);
            var t := RunCalls(p, Initial(inbox, plan), acts + [DoClose]);
            && Shut(t) && t == s.(closed := s.closed + s.pending, pending := [], inbox := [], plan := []) && Settled(t)
            && var u := RunCalls(p, t, later); Shut(u) && Unmoved(t, u)
  {
    hide D.Genuine, D.Accounted;
    var all := acts + [DoClose];
    var s := RunCalls(p, Initial(inbox, plan), acts);
    assert all[..|all| - 1] == acts;
    D.EveryDescriptorAccounted(p, inbox, plan, all);
    NothingQueued(RunCalls(p, Initial(inbox, plan), all));
    StaysShut(p, RunCalls(p, Initial(inbox, plan), all), later);
  }

  lemma NothingQueued(s: State)
    requires D.Accounted(s, -1) && s.pending == []
    ensures Settled(s)
  {
  }

  // ---- a handler that closes

  lemma DoStaysShut(s: State, d: Deed)
    requires Shut(s)
    ensures Shut(Do(s, d).0) && Unmoved(s, Do(s, d).0)
  {
    hide Shut, Unmoved, Register, WriteMsg, MarkZombie, SetFatal, CloseConn;
    match d {
      case Create(kind) => ObjectsStayShut(s, kind, 0, NoProgress);
      case Destroy(id) => ObjectsStayShut(s, 0, id, NoProgress);
      case Send(b, oob) => NothingToWrite(s, b, oob);
      case Fail(e) => ObjectsStayShut(s, 0, 0, e);
      case CloseIt => ObjectsStayShut(s, 0, 0, NoProgress);
    }
  }

  lemma {:induction false} DeedsStayShut(s: State, ds: seq<Deed>)
    requires Shut(s)
    ensures Shut(DoAll(s, ds).0) && Unmoved(s, DoAll(s, ds).0)
    decreases |ds|
  {
    hide Do, Shut, Unmoved;
    if ds == [] {
      OtherObjects(s);
    } else {
      DoStaysShut(s, ds[0]);
      DeedsStayShut(Do(s, ds[0]).0, ds[1..]);
      StillUnmoved(s, Do(s, ds[0]).0, DoAll(s, ds).0);
    }
  }

  /** The descriptors that were queued when the k-th deed closed the connection are closed. */
  lemma {:induction false} DeedsShut(s: State, ds: seq<Deed>, k: nat)
    requires k < |ds| && ds[k] == CloseIt && !DoAll(s, ds[..k]).1
    ensures var t := DoAll(s, ds).0;
            var u := DoAll(s, ds[..k]).0;
            Shut(t) && t.closed == u.closed + u.pending && t.handed == u.handed && t.received == u.received
    decreases k
  {
    hide Shut, Unmoved;
    if k == 0 {
      assert ds[..0] == [];
      Closed(s);
      DeedsStayShut(Do(s, ds[0]).0, ds[1..]);
      UnmovedParts(Do(s, ds[0]).0, DoAll(s, ds).0);
    } else {
      hide Do;
      assert ds[..k][0] == ds[0] && ds[..k][1..] == ds[1..][..k - 1];
      DeedsShut(Do(s, ds[0]).0, ds[1..], k - 1);
    }
  }

  lemma Closed(s: State)
    ensures var t := Do(s, CloseIt).0;
            Shut(t) && t.closed == s.closed + s.pending && t.handed == s.handed && t.received == s.received
  {
  }

  lemma UnmovedParts(s: State, t: State)
    requires Unmoved(s, t)
    ensures t.closed == s.closed && t.handed == s.handed && t.received == s.received
  {
  }

  lemma FinishShuts(s: State, fd: int, h: Handler, k: nat)
    requires h.Present? && k < |h.deeds| && h.deeds[k] == CloseIt
    requires !DoAll(HandOver(Noted(s, h), fd), h.deeds[..k]).1
    ensures Shut(Finish(s, fd, h).0)
  {
    hide DoAll, HandOver, Shut;
    var s1 := Noted(s, h);
    Delivery.DeedsHanded(s1, h.deeds[..k], fd);
    DeedsShut(s1, h.deeds, k);
    HandedIsShut(RunHandler(s, h).0, fd);
  }

  lemma HandedIsShut(s: State, fd: int)
    requires Shut(s)
    ensures Shut(HandOver(s, fd))
    ensures forall opcode, id :: Shut(Recovered(s, fd, opcode, id))
  {
  }

  lemma EventShuts(s: State, e: Event, fd: int, data: seq<byte>, h: Handler, k: nat)
    requires Decode(e.args, s.objects, data, fd).Next?
    requires h.Present? && k < |h.deeds| && h.deeds[k] == CloseIt
    requires !DoAll(DispatchEvent(s, e, fd, data, Present([], false, h.notes)).0, h.deeds[..k]).1
    ensures Shut(DispatchEvent(s, e, fd, data, h).0)
  {
    hide Decode, Z.DeletedId, HasNewId, CarriesFD, ErrorOf, Delete, SetFatal, DoAll, HandOver, Finish, Shut;
    var w := Decode(e.args, s.objects, data, fd).s;
    var s1 := s.(objects := w.objects);
    var s2 := match e.role
      case DeleteIdEvent => Delete(s1, Z.DeletedId(w.fields))
      case DisplayErrorEvent => SetFatal(s1, ErrorOf(w.fields))
      case Plain => s1;
    assert DispatchEvent(s, e, fd, data, h) == Finish(s2, fd, h);
    Delivery.FinishDeeds(s2, fd, [], h.notes);
    SameNote(s2, h);
    FinishShuts(s2, fd, h, k);
  }

  lemma SameNote(s: State, h: Handler)
    requires h.Present?
    ensures Noted(s, Present([], false, h.notes)) == Noted(s, h)
  {
  }

  /** A message whose handler closes the connection, with the deeds before that not in a panic. */
  predicate ClosesIn(p: Protocol, s: State, f: Frame, fd: int, h: Handler, k: nat) {
    && Sync.Calls(p, s, f, fd) && h.Present? && k < |h.deeds| && h.deeds[k] == CloseIt
    && !DoAll(DispatchFrame(p, s, f, fd, Present([], false, h.notes)), h.deeds[..k]).1
  }

  lemma FrameShuts(p: Protocol, s: State, f: Frame, fd: int, h: Handler, k: nat)
    requires ClosesIn(p, s, f, fd, h, k)
    ensures Shut(DispatchFrame(p, s, f, fd, h))
  {
    hide Decode, Z.AbsorbNewIDs, InterfaceOf, DispatchEvent, HasFD, Recovered, DoAll, Shut;
    var iface := InterfaceOf(p, s.objects[f.sender].kind);
    var (s1, fd1) := RouteFD(s, iface, f.opcode, fd);
    var e := iface.events[f.opcode];
    Delivery.EventCalls(s1, e, fd1, f.body, h.notes);
    EventShuts(s1, e, fd1, f.body, h, k);
    HandedIsShut(DispatchEvent(s1, e, fd1, f.body, h).0, fd1);
  }

  /** The same when a handler closes the connection in a dispatch, whatever it does afterwards, be it
      a panic: every descriptor received so far is the application's or closed, and no later call
      reads or writes anything. */
  lemma HandlerCloses(p: Protocol, inbox: seq<Arrival>, plan: seq<Written>, acts: seq<Action>, h: Handler, k: nat,
                      later: seq<Action>)
    requires D.Genuine(inbox)
    requires var (s, r) := ReadMsg(RunCalls(p, Initial(inbox, plan), acts)); r.Got? && ClosesIn(p, s, r.frame, r.fd, h, k)
    ensures var t := RunCalls(p, Initial(inbox, plan), acts + [DoDispatch(h)]);
            && Shut(t) && Settled(t)
            && var u := RunCalls(p, t, later); Shut(u) && Unmoved(t, u)
  {
    hide D.Genuine, D.Accounted, ReadMsg, DispatchFrame, ClosesIn, Shut;
    var all := acts + [DoDispatch(h)];
    var s := RunCalls(p, Initial(inbox, plan), acts);
    var (s1, r) := ReadMsg(s);
    assert all[..|all| - 1] == acts;
    Sync.ReadKeepsObjects(s);
    FrameShuts(p, s1, r.frame, r.fd, h, k);
    D.EveryDescriptorAccounted(p, inbox, plan, all);
    QueueEmpty(RunCalls(p, Initial(inbox, plan), all));
    NothingQueued(RunCalls(p, Initial(inbox, plan), all));
    StaysShut(p, RunCalls(p, Initial(inbox, plan), all), later);
  }

  lemma QueueEmpty(s: State)
    requires Shut(s)
    ensures s.pending == []
  {
  }
}
