/** Descriptors are neither lost nor closed twice: over every run, what came in is what is
    queued, what was handed to the application and what the library closed. */
module Descriptors {
  import opened Wire
  import opened Registry
  import opened Signature
  import opened Decoder
  import opened Socket
  import opened Connection
  import Encoder
  import Z = Zombies

  function InHand(fd: int): multiset<int> {
    if fd >= 0 then multiset{fd} else multiset{}
  }

  /** All descriptors are accounted for while fd is in the hands of the current call. */
  ghost predicate Accounted(s: State, fd: int) {
    && multiset(s.received) == multiset(s.pending) + multiset(s.handed) + multiset(s.closed) + InHand(fd)
    && (forall d :: d in s.received ==> d >= 0)
  }

  /** The kernel never installs a negative descriptor. */
  predicate Genuine(inbox: seq<Arrival>) {
    forall i, j :: 0 <= i < |inbox| && inbox[i].oob.Rights? && 0 <= j < |inbox[i].oob.fds| ==> inbox[i].oob.fds[j] >= 0
  }

  lemma ReceiveGenuine(inbox: seq<Arrival>, room: nat)
    requires Genuine(inbox)
    ensures var (c, rest) := Receive(inbox, room);
            Genuine(rest) && (c.oob.Rights? ==> forall j :: 0 <= j < |c.oob.fds| ==> c.oob.fds[j] >= 0)
  {
    if inbox != [] {
      assert forall i :: 0 <= i < |inbox[1..]| ==> inbox[1..][i] == inbox[i + 1];
    }
  }

  lemma {:induction false} ReadExactGenuine(inbox: seq<Arrival>, want: nat)
    requires Genuine(inbox)
    ensures var r := ReadExact(inbox, want); Genuine(r.inbox) && forall d :: d in r.fds ==> d >= 0
    decreases want
  {
    if want > 0 {
      hide Genuine, Receive;
      var (c, rest) := Receive(inbox, want);
      ReceiveGenuine(inbox, want);
      if c.fault == NoFault && 0 < c.n <= want && !c.truncated && c.oob != BadRecord && |c.data| > 0 {
        ReadExactGenuine(rest, want - |c.data|);
      } else if c.fault == NoFault && 0 < c.n <= want && !c.truncated && c.oob != BadRecord {
        CountIsData(inbox, want);
      }
    }
  }

  lemma MultisetAppend(a: seq<int>, b: seq<int>)
    ensures multiset(a + b) == multiset(a) + multiset(b)
  {
  }

  lemma SetFatalAccounted(s: State, e: Error, fd: int)
    requires Accounted(s, fd)
    ensures Accounted(SetFatal(s, e), fd)
  {
    MultisetAppend(s.closed, s.pending);
  }

  lemma CloseAccounted(s: State, fd: int)
    requires Accounted(s, fd)
    ensures Accounted(CloseFD(s, fd), -1) && Accounted(HandOver(s, fd), -1)
  {
  }

  lemma TakeAccounted(s: State)
    requires Accounted(s, -1)
    ensures Accounted(TakePending(s).1, TakePending(s).0)
  {
    if s.pending != [] {
      var fd := s.pending[0];
      assert s.pending == [fd] + s.pending[1..];
      MultisetAppend([fd], s.pending[1..]);
      assert fd in multiset(s.pending);
      assert fd in multiset(s.received) && fd in s.received && fd >= 0;
      assert multiset([fd]) == InHand(fd);
      assert TakePending(s) == (fd, s.(pending := s.pending[1..]));
    }
  }

  lemma PutBackAccounted(s: State, fd: int)
    requires Accounted(s, fd)
    ensures Accounted(PutBack(s, fd), -1)
  {
  }

  lemma AbsorbedAccounted(s: State, r: Reading)
    requires Accounted(s, -1) && forall d :: d in r.fds ==> d >= 0
    ensures Accounted(Absorbed(s, r), -1)
  {
    MultisetAppend(s.pending, r.fds);
    MultisetAppend(s.received, r.fds);
  }

  lemma CloseConnAccounted(s: State, fd: int)
    requires Accounted(s, fd)
    ensures Accounted(CloseConn(s), fd)
  {
    MultisetAppend(s.closed, s.pending);
  }

  lemma ReadMsgAccounted(s: State)
    requires Accounted(s, -1) && Genuine(s.inbox)
    ensures var (s', r) := ReadMsg(s);
            Accounted(s', if r.Got? then r.fd else -1) && Genuine(s'.inbox)
  {
    hide Accounted, Genuine, ReadExact, HeaderFault, TakePending, SetFatal;
    if s.fatal.None? {
      var h := ReadExact(s.inbox, 8);
      ReadExactGenuine(s.inbox, 8);
      var s1 := Absorbed(s, h);
      AbsorbedAccounted(s, h);
      if h.error.Some? {
        SetFatalAccounted(s1, h.error.value, -1);
        FatalKeepsInbox(s1, h.error.value);
      } else if HeaderFault(h.got).Some? {
        SetFatalAccounted(s1, HeaderFault(h.got).value, -1);
        FatalKeepsInbox(s1, HeaderFault(h.got).value);
      } else {
        GoodSize(h.got);
        var n := Uint32(h.got[4..8]) / 0x1_0000 - 8;
        ReadExactGenuine(s1.inbox, n);
        var b := ReadExact(s1.inbox, n);
        var s2 := Absorbed(s1, b);
        AbsorbedAccounted(s1, b);
        if b.error.Some? {
          SetFatalAccounted(s2, b.error.value, -1);
          FatalKeepsInbox(s2, b.error.value);
        } else {
          TakeAccounted(s2);
          TakeKeepsInbox(s2);
        }
      }
    }
  }

  lemma FatalKeepsInbox(s: State, e: Error)
    ensures SetFatal(s, e).inbox == s.inbox
  {
  }

  lemma TakeKeepsInbox(s: State)
    ensures TakePending(s).1.inbox == s.inbox
  {
  }

  /** Writing leaves descriptors alone, unless it fails. */
  lemma WriteAccounted(s: State, b: seq<byte>, oob: seq<byte>, fd: int)
    requires Accounted(s, fd)
    ensures var s' := WriteMsg(s, b, oob).0; Accounted(s', fd) && s'.inbox == s.inbox
  {
    hide Encoder.Sendable, WriteFrame, Accounted, SetFatal;
    if s.fatal.None? && Encoder.Sendable(b) {
      var w := WriteFrame(s.plan, b, oob);
      var t := s.(plan := w.plan, outbox := s.outbox + Accepted(w.attempts), tried := s.tried + [b]);
      WrittenUnaccounted(s, t, t.sent + [b], fd);
      if w.error.Some? {
        SetFatalAccounted(t, w.error.value, fd);
        FatalKeepsInbox(t, w.error.value);
      }
    }
  }

  lemma WrittenUnaccounted(s: State, t: State, sent: seq<seq<byte>>, fd: int)
    requires Accounted(s, fd) && t == s.(plan := t.plan, outbox := t.outbox, tried := t.tried)
    ensures Accounted(t, fd) && Accounted(t.(sent := sent), fd)
  {
  }

  lemma DoAccounted(s: State, d: Deed, fd: int)
    requires Accounted(s, fd) && Genuine(s.inbox)
    ensures var s' := Do(s, d).0; Accounted(s', fd) && Genuine(s'.inbox)
  {
    hide Allocate, WriteMsg;
    match d {
      case Create(_) =>
      case Destroy(_) =>
      case Send(b, oob) => WriteAccounted(s, b, oob, fd);
      case Fail(e) => SetFatalAccounted(s, e, fd);
      case CloseIt => CloseConnAccounted(s, fd);
    }
  }

  lemma {:induction false} DoAllAccounted(s: State, ds: seq<Deed>, fd: int)
    requires Accounted(s, fd) && Genuine(s.inbox)
    ensures var s' := DoAll(s, ds).0; Accounted(s', fd) && Genuine(s'.inbox)
    decreases |ds|
  {
    hide Accounted, Genuine, Do;
    if ds != [] {
      DoAccounted(s, ds[0], fd);
      DoAllAccounted(Do(s, ds[0]).0, ds[1..], fd);
    }
  }

  lemma FinishAccounted(s: State, fd: int, h: Handler)
    requires Accounted(s, fd) && Genuine(s.inbox)
    ensures var (s', panicked) := Finish(s, fd, h);
            Accounted(s', if panicked then fd else -1) && Genuine(s'.inbox)
  {
    hide Accounted, Genuine, DoAll;
    NoteUnaccounted(s, h, fd);
    if h.Present? { DoAllAccounted(Noted(s, h), h.deeds, fd); }
    var s' := RunHandler(s, h).0;
    CloseAccounted(s', fd);
    HandOverKeepsInbox(s', fd);
  }

  lemma NoteUnaccounted(s: State, h: Handler, fd: int)
    requires Accounted(s, fd)
    ensures Accounted(Noted(s, h), fd) && Noted(s, h).inbox == s.inbox
  {
  }

  lemma HandOverKeepsInbox(s: State, fd: int)
    ensures HandOver(s, fd).inbox == s.inbox == CloseFD(s, fd).inbox
  {
  }

  lemma DispatchEventAccounted(s: State, e: Event, fd: int, data: seq<byte>, h: Handler)
    requires Accounted(s, fd) && Genuine(s.inbox)
    ensures var (s', panicked) := DispatchEvent(s, e, fd, data, h);
            Accounted(s', if panicked then fd else -1) && Genuine(s'.inbox)
  {
    hide Accounted, Decode, Finish, Genuine, Z.Decodes, Z.DeletedId, ErrorOf, DeleteID, CloseFD, HandOver, SetFatal;
    ObjectsUnaccounted(s, fd);
    CloseAccounted(s, fd);
    HandOverKeepsInbox(s, fd);
    if Z.Decodes(e, h.Present?) && Decode(e.args, s.objects, data, fd).Next? {
      var w := Decode(e.args, s.objects, data, fd).s;
      var s1 := s.(objects := w.objects);
      match e.role {
        case DeleteIdEvent =>
          ObjectsUnaccounted(s1, fd);
          FinishAccounted(Delete(s1, Z.DeletedId(w.fields)), fd, h);
        case DisplayErrorEvent =>
          var e1 := ErrorOf(w.fields);
          SetFatalAccounted(s1, e1, fd);
          FatalKeepsInbox(s1, e1);
          FinishAccounted(SetFatal(s1, e1), fd, h);
        case Plain =>
          CloseAccounted(s1, fd);
          HandOverKeepsInbox(s1, fd);
          FinishAccounted(s1, fd, h);
      }
    }
  }

  lemma RecoveredAccounted(s: State, fd: int, opcode: nat, id: Word)
    requires Accounted(s, fd)
    ensures var s' := Recovered(s, fd, opcode, id); Accounted(s', -1) && s'.inbox == s.inbox
  {
    CloseAccounted(s, fd);
    SetFatalAccounted(CloseFD(s, fd), DispatchPanic(opcode, id), -1);
  }

  lemma RouteAccounted(s: State, iface: Interface, opcode: nat, fd: int)
    requires Accounted(s, fd)
    ensures var (s', fd') := RouteFD(s, iface, opcode, fd); Accounted(s', fd') && s'.inbox == s.inbox
  {
    PutBackAccounted(s, fd);
  }

  lemma DispatchFrameAccounted(p: Protocol, s: State, f: Frame, fd: int, h: Handler)
    requires Accounted(s, fd) && Genuine(s.inbox)
    ensures var s' := DispatchFrame(p, s, f, fd, h); Accounted(s', -1) && Genuine(s'.inbox)
  {
    hide Accounted, Genuine, DispatchEvent, RouteFD, Recovered, Z.AbsorbNewIDs, CloseFD, SetFatal, InterfaceOf;
    HandOverKeepsInbox(s, fd);
    if f.sender !in s.objects {
      CloseAccounted(s, fd);
      SetFatalAccounted(CloseFD(s, fd), SenderNotFound(f.sender), -1);
      FatalKeepsInbox(CloseFD(s, fd), SenderNotFound(f.sender));
    } else {
      var obj := s.objects[f.sender];
      var iface := InterfaceOf(p, obj.kind);
      var (s1, fd1) := RouteFD(s, iface, f.opcode, fd);
      RouteAccounted(s, iface, f.opcode, fd);
      CloseAccounted(s1, fd1);
      HandOverKeepsInbox(s1, fd1);
      if obj.zombie && obj.kind != DISPLAY {
        var s2 := CloseFD(s1, fd1);
        ObjectsUnaccounted(s2, -1);
        match Z.AbsorbNewIDs(iface, f.opcode, s2.objects, f.body) {
          case Panic(o) => RecoveredAccounted(s2.(objects := o), -1, f.opcode, f.sender);
          case Next(o) =>
        }
      } else if iface.events == [] {
        SetFatalAccounted(CloseFD(s1, fd1), SenderUnsupported(f.sender), -1);
        FatalKeepsInbox(CloseFD(s1, fd1), SenderUnsupported(f.sender));
      } else if f.opcode >= |iface.events| {
        RecoveredAccounted(s1, fd1, f.opcode, f.sender);
      } else {
        DispatchEventAccounted(s1, iface.events[f.opcode], fd1, f.body, h);
        var (s2, panicked) := DispatchEvent(s1, iface.events[f.opcode], fd1, f.body, h);
        if panicked { RecoveredAccounted(s2, fd1, f.opcode, f.sender); }
      }
    }
  }

  lemma ActAccounted(p: Protocol, s: State, a: Action)
    requires Accounted(s, -1) && Genuine(s.inbox)
    ensures var s' := Act(p, s, a).0; Accounted(s', -1) && Genuine(s'.inbox)
  {
    hide Accounted, Genuine, DispatchFrame, ReadMsg, Allocate, DeleteID, WriteMsg, RegisterWithID, HandOver;
    match a {
      case DoRegister(kind) => DoAccounted(s, Create(kind), -1);
      case DoRegisterServer(_, _) => ObjectsUnaccounted(s, -1);
      case DoDelete(_) => ObjectsUnaccounted(s, -1);
      case DoMarkZombie(_) => ObjectsUnaccounted(s, -1);
      case DoWrite(b, oob) => DoAccounted(s, Send(b, oob), -1);
      case DoRead =>
        ReadMsgAccounted(s);
        var (s', r) := ReadMsg(s);
        if r.Got? {
          CloseAccounted(s', r.fd);
          HandOverKeepsInbox(s', r.fd);
        }
      case DoDispatch(h) =>
        ReadMsgAccounted(s);
        var (s', r) := ReadMsg(s);
        match r {
          case Idle =>
          case ReadFailed(e) =>
            SetFatalAccounted(s', UnableToRead(e), -1);
            FatalKeepsInbox(s', UnableToRead(e));
          case Got(f, fd) => DispatchFrameAccounted(p, s', f, fd, h);
        }
      case DoClose => DoAccounted(s, CloseIt, -1);
    }
  }

  lemma ObjectsUnaccounted(s: State, fd: int)
    requires Accounted(s, fd)
    ensures forall o, ids, book :: Accounted(s.(objects := o, ids := ids, book := book), fd)
    ensures forall o :: Accounted(s.(objects := o), fd)
  {
  }

  /** The main result on descriptors: after every run, each descriptor received is queued, was
      handed to the application or was closed by the library, as often as it was received. */
  lemma {:induction false} EveryDescriptorAccounted(p: Protocol, inbox: seq<Arrival>, plan: seq<Written>, acts: seq<Action>)
    requires Genuine(inbox)
    ensures var s := RunCalls(p, Initial(inbox, plan), acts); Accounted(s, -1) && Genuine(s.inbox)
  {
    hide Genuine, Act;
    if acts != [] {
      EveryDescriptorAccounted(p, inbox, plan, acts[..|acts| - 1]);
      ActAccounted(p, RunCalls(p, Initial(inbox, plan), acts[..|acts| - 1]), acts[|acts| - 1]);
    }
  }

  /** With each descriptor received once, the library closes none twice, and none that is still
      queued or was handed over. */
  lemma NoDoubleClose(p: Protocol, inbox: seq<Arrival>, plan: seq<Written>, acts: seq<Action>)
    requires Genuine(inbox)
    requires var r := RunCalls(p, Initial(inbox, plan), acts).received; forall d :: multiset(r)[d] <= 1
    ensures var s := RunCalls(p, Initial(inbox, plan), acts);
            forall d :: d in s.received ==>
              multiset(s.pending)[d] + multiset(s.handed)[d] + multiset(s.closed)[d] == 1
  {
    EveryDescriptorAccounted(p, inbox, plan, acts);
    var s := RunCalls(p, Initial(inbox, plan), acts);
    forall d | d in s.received
      ensures multiset(s.pending)[d] + multiset(s.handed)[d] + multiset(s.closed)[d] == 1
    {
      assert d in multiset(s.received);
    }
  }
}
