/** Roundtrip: dispatching until the answer to one's own wl_display.sync was delivered. */
module Sync {
  import opened Wire
  import opened Registry
  import opened Signature
  import opened Socket
  import opened Connection
  import Decoder
  import Encoder
  import opened Invariants
  import Framing
  import Z = Zombies

  /** Handlers by the object and the event they are set for. */
  type Table = (Word, nat) -> Handler

  /** A handler of the application: the variable of Roundtrip is not in its scope. */
  type Own = h: Handler | h.Present? ==> !h.notes witness Absent

  type Handlers = (Word, nat) -> Own

  /** The message the next dispatch delivers, if it delivers one. */
  function Incoming(s: State): Option<Frame> {
    var r := ReadMsg(s).1;
    if r.Got? then Some(r.frame) else None
  }

  /** The handler a table has for the next message. */
  function Chosen(s: State, hs: Table): Handler {
    var f := Incoming(s);
    if f.Some? then hs(f.value.sender, f.value.opcode) else Absent
  }

  function DispatchTo(p: Protocol, s: State, hs: Table): (State, Option<Error>) {
    Dispatch(p, s, Chosen(s, hs))
  }

  /** The ID that delivering a message takes out of the map: only a delete_id does. */
  function Deletes(p: Protocol, s: State, f: Frame, fd: int): Option<Word> {
    if f.sender !in s.objects then None
    else
      var obj := s.objects[f.sender];
      var iface := InterfaceOf(p, obj.kind);
      if (obj.zombie && obj.kind != DISPLAY) || f.opcode >= |iface.events| then None
      else DeletedBy(iface.events[f.opcode], s.objects, f.body, RouteFD(s, iface, f.opcode, fd).1)
  }

  function DeletedBy(e: Event, o: Objects, data: seq<byte>, fd: int): Option<Word> {
    if e.role != DeleteIdEvent then None
    else match Decoder.Decode(e.args, o, data, fd)
      case Panic(_) => None
      case Next(w) => Some(Z.DeletedId(w.fields))
  }

  /** The object registered at an ID is the same one after the next dispatch. */
  function StaysAt(p: Protocol, s: State, id: Word): bool {
    var (s1, r) := ReadMsg(s);
    r.Got? ==> Deletes(p, s1, r.frame, r.fd) != Some(id)
  }

  // ---- which dispatches call a handler

  /** Delivering a message calls the handler that is set for it: the sender is live, it has such
      an event, and the event decodes. */
  predicate Calls(p: Protocol, s: State, f: Frame, fd: int) {
    f.sender in s.objects &&
    var obj := s.objects[f.sender];
    var iface := InterfaceOf(p, obj.kind);
    && (obj.zombie ==> obj.kind == DISPLAY)
    && f.opcode < |iface.events|
    && Decoder.Decode(iface.events[f.opcode].args, s.objects, f.body, RouteFD(s, iface, f.opcode, fd).1).Next?
  }

  lemma {:induction false} DeedsNoteNothing(s: State, ds: seq<Deed>)
    ensures DoAll(s, ds).0.done == s.done
    decreases |ds|
  {
    hide Allocate, WriteFrame, Encoder.Sendable;
    if ds != [] { DeedsNoteNothing(Do(s, ds[0]).0, ds[1..]); }
  }

  lemma FinishNotes(s: State, fd: int, h: Handler)
    ensures Finish(s, fd, h).0.done == (s.done || (h.Present? && h.notes))
  {
    hide DoAll;
    if h.Present? { DeedsNoteNothing(Noted(s, h), h.deeds); }
  }

  lemma EventNotes(s: State, e: Event, fd: int, data: seq<byte>, h: Handler)
    ensures DispatchEvent(s, e, fd, data, h).0.done ==
            (s.done || (h.Present? && h.notes && Decoder.Decode(e.args, s.objects, data, fd).Next?))
  {
    hide Decoder.Decode, Finish, DeleteID, ErrorOf, Z.DeletedId;
    match Decoder.Decode(e.args, s.objects, data, fd) {
      case Panic(_) =>
      case Next(w) =>
        var s1 := s.(objects := w.objects);
        FinishNotes(Delete(s1, Z.DeletedId(w.fields)), fd, h);
        FinishNotes(SetFatal(s1, ErrorOf(w.fields)), fd, h);
        FinishNotes(s1, fd, h);
    }
  }

  /** The variable is set by a call of the handler that sets it, and by nothing else: no other
      handler, decoder, absorber or recovery does. */
  lemma NoteExactly(p: Protocol, s: State, f: Frame, fd: int, h: Handler)
    ensures DispatchFrame(p, s, f, fd, h).done == (s.done || (h.Present? && h.notes && Calls(p, s, f, fd)))
  {
    hide DispatchEvent, Decoder.Decode, Z.AbsorbNewIDs, InterfaceOf, HasFD;
    if f.sender in s.objects {
      var iface := InterfaceOf(p, s.objects[f.sender].kind);
      var (s1, fd1) := RouteFD(s, iface, f.opcode, fd);
      if f.opcode < |iface.events| { EventNotes(s1, iface.events[f.opcode], fd1, f.body, h); }
    }
  }

  // ---- what stays registered

  /** An object of a type is registered at an ID; with zombie, a destroyed one. */
  predicate KindAt(o: Objects, id: Word, kind: Kind, zombie: bool) {
    id in o && o[id].kind == kind && (zombie ==> o[id].zombie)
  }

  lemma {:induction false} DeedsKeepKind(s: State, ds: seq<Deed>, id: Word, kind: Kind, zombie: bool)
    requires KindAt(s.objects, id, kind, zombie)
    ensures KindAt(DoAll(s, ds).0.objects, id, kind, zombie)
    decreases |ds|
  {
    hide Allocate, WriteFrame, Encoder.Sendable;
    if ds != [] { DeedsKeepKind(Do(s, ds[0]).0, ds[1..], id, kind, zombie); }
  }

  lemma FinishKeepsKind(s: State, fd: int, h: Handler, id: Word, kind: Kind, zombie: bool)
    requires KindAt(s.objects, id, kind, zombie)
    ensures KindAt(Finish(s, fd, h).0.objects, id, kind, zombie)
  {
    hide DoAll;
    if h.Present? { DeedsKeepKind(Noted(s, h), h.deeds, id, kind, zombie); }
  }

  lemma EventKeepsKind(s: State, e: Event, fd: int, data: seq<byte>, h: Handler, id: Word, kind: Kind, zombie: bool)
    requires KindAt(s.objects, id, kind, zombie) && id < FIRST_SERVER_ID && |data| <= MAX_FRAME
    requires DeletedBy(e, s.objects, data, fd) != Some(id)
    ensures KindAt(DispatchEvent(s, e, fd, data, h).0.objects, id, kind, zombie)
  {
    hide Decoder.Decode, Finish, ErrorOf, Z.DeletedId, Z.Decodes;
    CompiledKeepsClientIDs(e.args, s.objects, data, fd);
    match Decoder.Decode(e.args, s.objects, data, fd) {
      case Panic(_) =>
      case Next(w) =>
        var s1 := s.(objects := w.objects);
        match e.role {
          case DeleteIdEvent => FinishKeepsKind(Delete(s1, Z.DeletedId(w.fields)), fd, h, id, kind, zombie);
          case DisplayErrorEvent =>
            FinishKeepsKind(SetFatal(s1, ErrorOf(w.fields)), fd, h, id, kind, zombie);
          case Plain => FinishKeepsKind(s1, fd, h, id, kind, zombie);
        }
    }
  }

  lemma AbsorberKeepsKind(iface: Interface, f: Frame, o: Objects, id: Word, kind: Kind, zombie: bool)
    requires KindAt(o, id, kind, zombie) && id < FIRST_SERVER_ID && |f.body| <= MAX_FRAME
    ensures match Z.AbsorbNewIDs(iface, f.opcode, o, f.body)
            case Panic(o') => KindAt(o', id, kind, zombie)
            case Next(o') => KindAt(o', id, kind, zombie)
  {
    hide Decoder.AbsorbAll;
    if f.opcode < |iface.events| {
      CompiledKeepsClientIDs(iface.events[f.opcode].args, o, f.body, -1);
    }
  }

  lemma FrameKeepsKind(p: Protocol, s: State, f: Frame, fd: int, h: Handler, id: Word, kind: Kind, zombie: bool)
    requires KindAt(s.objects, id, kind, zombie) && id < FIRST_SERVER_ID && |f.body| <= MAX_FRAME
    requires Deletes(p, s, f, fd) != Some(id)
    ensures KindAt(DispatchFrame(p, s, f, fd, h).objects, id, kind, zombie)
  {
    hide DispatchEvent, DeletedBy, Z.AbsorbNewIDs, InterfaceOf, HasFD, KindAt;
    if f.sender in s.objects {
      var iface := InterfaceOf(p, s.objects[f.sender].kind);
      var (s1, fd1) := RouteFD(s, iface, f.opcode, fd);
      AbsorberKeepsKind(iface, f, s1.objects, id, kind, zombie);
      if f.opcode < |iface.events| && (s.objects[f.sender].zombie ==> s.objects[f.sender].kind == DISPLAY) {
        EventKeepsKind(s1, iface.events[f.opcode], fd1, f.body, h, id, kind, zombie);
      }
    }
  }

  /** An object of the client that no delete_id takes away keeps its ID and its type, and stays
      destroyed if it was. */
  lemma DispatchKeepsKind(p: Protocol, s: State, h: Handler, id: Word, kind: Kind, zombie: bool)
    requires KindAt(s.objects, id, kind, zombie) && id < FIRST_SERVER_ID && StaysAt(p, s, id)
    ensures KindAt(Dispatch(p, s, h).0.objects, id, kind, zombie)
  {
    hide ReadMsg, DispatchFrame, Deletes, KindAt;
    ReadKeepsObjects(s);
    var (s1, r) := ReadMsg(s);
    if r.Got? {
      GotIsSmall(s);
      FrameKeepsKind(p, s1, r.frame, r.fd, h, id, kind, zombie);
    }
  }

  // ---- every dispatched message takes bytes from the socket

  function Remaining(inbox: seq<Arrival>): nat {
    if inbox == [] then 0 else |inbox[0].data| + Remaining(inbox[1..])
  }

  lemma {:induction false} ReadExactConsumes(inbox: seq<Arrival>, want: nat)
    ensures var r := ReadExact(inbox, want); Remaining(r.inbox) + |r.got| <= Remaining(inbox)
    decreases want
  {
    if want > 0 && inbox != [] {
      hide Receive, ReadExact, Remaining, FDsOf;
      ReceiveConsumes(inbox, want);
      FirstTurn(inbox, want);
      var (c, rest) := Receive(inbox, want);
      if c.oob != BadRecord && !c.truncated && 0 < c.n <= want && c.fault == NoFault {
        ReadExactConsumes(rest, want - |c.data|);
      }
    }
  }

  lemma ReceiveConsumes(inbox: seq<Arrival>, room: nat)
    ensures var (c, rest) := Receive(inbox, room); Remaining(rest) + |c.data| <= Remaining(inbox)
  {
    if inbox != [] && |inbox[0].data| > room {
      assert Receive(inbox, room).1[1..] == inbox[1..];
    }
  }

  lemma ReadMsgConsumes(s: State)
    ensures var (s', r) := ReadMsg(s);
            Remaining(s'.inbox) <= Remaining(s.inbox) && (r.Got? ==> Remaining(s'.inbox) < Remaining(s.inbox))
  {
    hide ReadExact, Uint32, HeaderFault;
    if s.fatal.None? {
      var h := ReadExact(s.inbox, 8);
      ReadExactConsumes(s.inbox, 8);
      if h.error.None? && HeaderFault(h.got).None? {
        GoodSize(h.got);
        ReadExactConsumes(h.inbox, Uint32(h.got[4..8]) / 0x1_0000 - 8);
      }
    }
  }

  lemma WriteKeepsInbox(s: State, b: seq<byte>, oob: seq<byte>)
    ensures WriteMsg(s, b, oob).0.inbox == s.inbox
  {
    hide WriteFrame, Encoder.Sendable, Accepted;
  }

  lemma StepsKeepInbox(s: State, e: Error, fd: int, kind: Kind, id: Word)
    ensures SetFatal(s, e).inbox == s.inbox && CloseFD(s, fd).inbox == s.inbox && HandOver(s, fd).inbox == s.inbox
    ensures PutBack(s, fd).inbox == s.inbox && Register(s, kind).0.inbox == s.inbox && Delete(s, id).inbox == s.inbox
    ensures CloseConn(s).inbox == []
  {
    hide Allocate, DeleteID;
  }

  lemma BoundIsStable(n: nat)
    ensures Stable((s: State) => Remaining(s.inbox) <= n)
  {
    hide ReadMsg, WriteMsg, SetFatal, CloseFD, HandOver, PutBack, Register, Delete, CloseConn;
    var inv := (s: State) => Remaining(s.inbox) <= n;
    forall s, e | inv(s) ensures inv(SetFatal(s, e)) { StepsKeepInbox(s, e, 0, 0, 0); }
    forall s, fd | inv(s) ensures inv(CloseFD(s, fd)) { StepsKeepInbox(s, NoProgress, fd, 0, 0); }
    forall s, fd | inv(s) ensures inv(HandOver(s, fd)) { StepsKeepInbox(s, NoProgress, fd, 0, 0); }
    forall s, fd | inv(s) && s.fatal.None? ensures inv(PutBack(s, fd)) { StepsKeepInbox(s, NoProgress, fd, 0, 0); }
    forall s, kind | inv(s) ensures inv(Register(s, kind).0) { StepsKeepInbox(s, NoProgress, 0, kind, 0); }
    forall s, id | inv(s) ensures inv(Delete(s, id)) { StepsKeepInbox(s, NoProgress, 0, 0, id); }
    forall s, b, oob | inv(s) ensures inv(WriteMsg(s, b, oob).0) { WriteKeepsInbox(s, b, oob); }
    forall s | inv(s) ensures inv(ReadMsg(s).0) { ReadMsgConsumes(s); }
    forall s | inv(s) ensures inv(CloseConn(s)) { StepsKeepInbox(s, NoProgress, 0, 0, 0); }
  }

  lemma DispatchConsumes(p: Protocol, s: State, h: Handler)
    requires Dispatch(p, s, h).1.None?
    ensures Remaining(Dispatch(p, s, h).0.inbox) < Remaining(s.inbox)
  {
    hide ReadMsg, DispatchFrame, Stable;
    ReadMsgConsumes(s);
    var (s1, r) := ReadMsg(s);
    var inv := (s: State) => Remaining(s.inbox) <= Remaining(s1.inbox);
    BoundIsStable(Remaining(s1.inbox));
    GotIsSmall(s);
    assert inv(s1);
    DispatchFrameKeeps(inv, p, s1, r.frame, r.fd, h);
  }

  lemma DispatchToConsumes(p: Protocol, s: State, hs: Table)
    requires DispatchTo(p, s, hs).1.None?
    ensures Remaining(DispatchTo(p, s, hs).0.inbox) < Remaining(s.inbox)
  {
    DispatchConsumes(p, s, Chosen(s, hs));
  }

  // ---- the loop

  /** The function literal of Roundtrip. */
  const NOTE: Handler := Present([], false, true)

  /** The application's table with the done handler of the callback in it. */
  function Waiting(hs: Handlers, id: Word, held: bool): Table {
    (sender: Word, opcode: nat) => if held && sender == id && opcode == 0 then NOTE else hs(sender, opcode)
  }

  /** Dispatches until the variable is set or there is an error. held says whether the callback
      is still registered; hs(n) are the application's handlers at the n-th dispatch. */
  function Await(p: Protocol, s: State, id: Word, held: bool, hs: nat -> Handlers, n: nat)
    : (State, Option<Error>, bool)
    decreases Remaining(s.inbox)
  {
    var table := Waiting(hs(n), id, held);
    var (s', e) := DispatchTo(p, s, table);
    var held' := held && StaysAt(p, s, id);
    if e.Some? || s'.done then (s', e, held')
    else
      DispatchToConsumes(p, s, table);
      Await(p, s', id, held', hs, n + 1)
  }

  /** The next message is the done event of a live callback at an ID, and it decodes. */
  predicate Answers(s: State, id: Word, callback: Kind) {
    var f := Incoming(s);
    f.Some? && f.value.sender == id && f.value.opcode == 0 && |f.value.body| >= 4 && LiveOf(s.objects, id, callback)
  }

  /** The type generated for wl_callback. */
  predicate Callback(p: Protocol, callback: Kind) {
    && callback != DISPLAY
    && InterfaceOf(p, callback).fdAware && InterfaceOf(p, callback).events == [Event([Uint], Plain)]
  }

  lemma ReadKeepsObjects(s: State)
    ensures ReadMsg(s).0.objects == s.objects && ReadMsg(s).0.done == s.done
    ensures ReadMsg(s).1.Got? ==> s.fatal.None?
  {
    hide ReadExact, Uint32, HeaderFault;
  }

  /** One argument of four bytes. */
  lemma DoneDecodes(o: Objects, body: seq<byte>, fd: int)
    requires |body| <= MAX_FRAME
    ensures Decoder.Decode([Uint], o, body, fd).Next? <==> |body| >= 4
    ensures |body| >= 4 ==> Decoder.Decode([Uint], o, body, fd).s.objects == o
  {
    hide Uint32, Decoder.Decode;
    assert [Uint][..0] == [];
    Decoder.DecoderWalks([Uint], o, body, fd);
  }

  /** For every table of the application: a dispatch sets the variable if and only if it delivers
      the done event to the live callback that is still registered, and the event decodes. */
  lemma DoneExactly(p: Protocol, s: State, id: Word, callback: Kind, held: bool, hs: Handlers)
    requires Callback(p, callback) && !s.done
    requires held ==> KindAt(s.objects, id, callback, false)
    ensures DispatchTo(p, s, Waiting(hs, id, held)).0.done <==> held && Answers(s, id, callback)
  {
    hide ReadMsg, DispatchFrame, Decoder.Decode, HasFD, InterfaceOf;
    ReadKeepsObjects(s);
    var (s1, r) := ReadMsg(s);
    if r.Got? {
      GotIsSmall(s);
      var h := Chosen(s, Waiting(hs, id, held));
      assert h.Present? && h.notes <==> held && r.frame.sender == id && r.frame.opcode == 0;
      NoteExactly(p, s1, r.frame, r.fd, h);
      if held {
        var iface := InterfaceOf(p, callback);
        DoneDecodes(s1.objects, r.frame.body, RouteFD(s1, iface, 0, r.fd).1);
      }
    }
  }

  lemma {:induction false} RunCallsHead(p: Protocol, s: State, a: Action, acts: seq<Action>)
    ensures RunCalls(p, s, [a] + acts) == RunCalls(p, Act(p, s, a).0, acts)
  {
    hide Act;
    if acts == [] {
      assert [a] + acts == [a] && [a][..0] == [];
    } else {
      var n := |acts| - 1;
      assert ([a] + acts)[..n + 1] == [a] + acts[..n];
      RunCallsHead(p, s, a, acts[..n]);
    }
  }

  predicate Dispatches(acts: seq<Action>) {
    forall i :: 0 <= i < |acts| ==> acts[i].DoDispatch?
  }

  /** All calls of a run returned nil. */
  predicate Silent(p: Protocol, s: State, acts: seq<Action>) {
    forall i :: 0 <= i < |acts| ==> Act(p, RunCalls(p, s, acts[..i]), acts[i]).1.None?
  }

  lemma SilentHead(p: Protocol, s: State, a: Action, acts: seq<Action>)
    requires Act(p, s, a).1.None? && Silent(p, Act(p, s, a).0, acts)
    ensures Silent(p, s, [a] + acts)
  {
    hide Act;
    var all := [a] + acts;
    forall i | 0 <= i < |all|
      ensures Act(p, RunCalls(p, s, all[..i]), all[i]).1.None?
    {
      if i > 0 {
        assert all[..i] == [a] + acts[..i - 1];
        RunCallsHead(p, s, a, acts[..i - 1]);
      }
    }
  }

  /** The object at an ID is the same one all along. */
  predicate Stays(p: Protocol, s: State, acts: seq<Action>, id: Word) {
    forall i :: 0 <= i < |acts| ==> StaysAt(p, RunCalls(p, s, acts[..i]), id)
  }

  /** A run of successful dispatches during which the callback stays registered, until the last
      one delivers its done event, which calls the handler that sets the variable. */
  ghost predicate EndsWithDone(p: Protocol, s: State, acts: seq<Action>, id: Word, callback: Kind) {
    && acts != [] && Dispatches(acts) && Silent(p, s, acts)
    && var init := acts[..|acts| - 1];
       var last := RunCalls(p, s, init);
       Stays(p, s, init, id) && !last.done && RunCalls(p, s, acts).done && Answers(last, id, callback)
  }

  lemma StaysHead(p: Protocol, s: State, a: Action, acts: seq<Action>, id: Word)
    requires StaysAt(p, s, id) && Stays(p, Act(p, s, a).0, acts, id)
    ensures Stays(p, s, [a] + acts, id)
  {
    hide Act, StaysAt;
    var all := [a] + acts;
    forall i | 0 <= i < |all|
      ensures StaysAt(p, RunCalls(p, s, all[..i]), id)
    {
      if i > 0 {
        assert all[..i] == [a] + acts[..i - 1];
        RunCallsHead(p, s, a, acts[..i - 1]);
      }
    }
  }

  lemma EndsWithDoneHead(p: Protocol, s: State, a: Action, more: seq<Action>, id: Word, callback: Kind)
    requires a.DoDispatch? && Act(p, s, a).1.None? && StaysAt(p, s, id)
    requires EndsWithDone(p, Act(p, s, a).0, more, id, callback)
    ensures EndsWithDone(p, s, [a] + more, id, callback)
  {
    hide Act, Answers, Silent, Stays, StaysAt;
    var acts := [a] + more;
    var init := more[..|more| - 1];
    SilentHead(p, s, a, more);
    RunCallsHead(p, s, a, more);
    RunCallsHead(p, s, a, init);
    StaysHead(p, s, a, init, id);
    assert acts[..|acts| - 1] == [a] + init;
  }

  lemma OneAnswer(p: Protocol, s: State, a: Action, id: Word, callback: Kind)
    requires a.DoDispatch? && Answers(s, id, callback) && Act(p, s, a).1.None?
    requires !s.done && Act(p, s, a).0.done
    ensures EndsWithDone(p, s, [a], id, callback)
    ensures RunCalls(p, s, [a]) == Act(p, s, a).0
  {
    hide Act, Answers;
    assert [a][..0] == [];
  }

  /** A done event takes nothing out of the map. */
  lemma AnswerStays(p: Protocol, s: State, id: Word, callback: Kind)
    requires Callback(p, callback) && Answers(s, id, callback)
    ensures StaysAt(p, s, id)
  {
    hide ReadMsg, HasFD, Decoder.Decode;
    ReadKeepsObjects(s);
  }

  /** Whatever the application's handlers do, the loop returns nil only at the end of such a
      run: it ends because the variable is set, and that means that the event was delivered. */
  lemma {:induction false} AwaitEndsWithDone(p: Protocol, s: State, id: Word, callback: Kind, held: bool,
                                             hs: nat -> Handlers, n: nat)
    returns (acts: seq<Action>)
    requires Callback(p, callback) && !s.done && id < FIRST_SERVER_ID
    requires held ==> KindAt(s.objects, id, callback, false)
    requires Await(p, s, id, held, hs, n).1.None?
    ensures held && EndsWithDone(p, s, acts, id, callback)
    ensures RunCalls(p, s, acts) == Await(p, s, id, held, hs, n).0 && Await(p, s, id, held, hs, n).2
    decreases Remaining(s.inbox)
  {
    hide Dispatch, Answers, StaysAt, EndsWithDone, RunCalls, Chosen, Waiting, KindAt, Callback;
    var table := Waiting(hs(n), id, held);
    var a := DoDispatch(Chosen(s, table));
    var s' := DispatchTo(p, s, table).0;
    assert Act(p, s, a) == DispatchTo(p, s, table);
    DoneExactly(p, s, id, callback, held, hs(n));
    if s'.done {
      acts := [a];
      OneAnswer(p, s, a, id, callback);
      AnswerStays(p, s, id, callback);
    } else {
      var held' := held && StaysAt(p, s, id);
      DispatchToConsumes(p, s, table);
      if held' { DispatchKeepsKind(p, s, Chosen(s, table), id, callback, false); }
      var more := AwaitEndsWithDone(p, s', id, callback, held', hs, n + 1);
      acts := [a] + more;
      EndsWithDoneHead(p, s, a, more, id, callback);
      RunCallsHead(p, s, a, more);
    }
  }

  /** Such a dispatch calls the handler and does nothing else; a done event that is too short
      sets nothing and is fatal. */
  lemma AnswerCallsHandler(p: Protocol, s: State, id: Word, callback: Kind)
    requires Callback(p, callback) && s.fatal.None? && Incoming(s).Some? && LiveOf(s.objects, id, callback)
    requires Incoming(s).value.sender == id && Incoming(s).value.opcode == 0
    ensures var (s1, r) := ReadMsg(s);
            if |r.frame.body| >= 4 then Dispatch(p, s, NOTE) == (PutBack(s1, r.fd).(done := true), None)
            else Dispatch(p, s, NOTE).1 == Some(DispatchPanic(0, id)) && Dispatch(p, s, NOTE).0.done == s.done
  {
    hide ReadMsg, Decoder.Decode;
    var (s1, r) := ReadMsg(s);
    GotIsSmall(s);
    ReadKeepsObjects(s);
    DoneDecodes(s1.objects, r.frame.body, -1);
  }

  // ---- the whole call

  /** The bytes of wl_display.sync. */
  function SyncRequest(id: Word): seq<byte> {
    WireFrame(DISPLAY_ID, 0, WireBody([NewV(id)]))
  }

  /** They are twelve: the display, opcode 0 and the length, and the callback's ID; and they are what
      the compiled request leaves in its buffer. */
  lemma SyncRequestBytes(id: Word, callback: Kind)
    ensures SyncRequest(id) == Bytes32(1) + Bytes32(12 * 0x1_0000) + Bytes32(id)
    ensures var c := Encoder.Execute(Encoder.CompileRequest([NewId(Some(callback))]), DISPLAY_ID, 0, [NewV(id)]);
            c.Some? && c.value.buf == SyncRequest(id)
  {
    hide Bytes32, Encoder.Execute, Encoder.CompileRequest, Encoder.Covers, Encoder.SetUp;
    var vals := [NewV(id)];
    assert vals[..0] == [];
    assert WireBody(vals) == [] + Bytes32(id) == Bytes32(id);
    assert AllTyped([NewId(Some(callback))], vals) && !Encoder.SomeNilDereference([NewId(Some(callback))], vals);
    Encoder.RequestIsWireFormat([NewId(Some(callback))], DISPLAY_ID, 0, vals);
  }

  /** The request of a Roundtrip; None where the ID space is exhausted, which is a panic. */
  function Ask(s: State, callback: Kind): (State, Option<Word>, Option<Error>) {
    var (s1, id) := Register(s, callback);
    if id.None? then (s1, None, None)
    else
      var (s2, e) := WriteMsg(s1, SyncRequest(id.value), []);
      (if e.Some? then s2 else s2.(done := false), id, e)
  }

  /** Roundtrip. Whatever the dispatches return, the callback is destroyed at the end; that shows in
      the object map if it is still registered. */
  function Roundtrip(p: Protocol, s: State, callback: Kind, hs: nat -> Handlers)
    : (State, Option<Word>, Option<Error>)
  {
    var (s1, id, e) := Ask(s, callback);
    if id.None? || e.Some? then (s1, id, e)
    else
      var (s2, e', held) := Await(p, s1, id.value, true, hs, 0);
      (if held then MarkZombie(s2, id.value) else s2, id, e')
  }

  lemma AskedIsRegistered(s: State, callback: Kind)
    requires (forall f :: f in s.ids.free ==> f < FIRST_SERVER_ID)
    requires Ask(s, callback).1.Some? && Ask(s, callback).2.None?
    ensures var (s', id, _) := Ask(s, callback);
            && id.value < FIRST_SERVER_ID && id.value !in s.objects && id.value != 0
            && LiveOf(s'.objects, id.value, callback)
            && !s'.done && s'.fatal.None? && s'.inbox == s.inbox
            && s'.sent == s.sent + [SyncRequest(id.value)]
  {
    hide WriteFrame, Encoder.Sendable, SyncRequest, Accepted;
  }

  /** The main result on roundtrips: nil means that the sync request was written whole, and
      that a run of dispatches without an error followed, at whose end the done event of that
      very callback was delivered and its handler called; then the callback is destroyed. */
  lemma RoundtripMeansDone(p: Protocol, s: State, callback: Kind, hs: nat -> Handlers) returns (acts: seq<Action>)
    requires Callback(p, callback) && (forall f :: f in s.ids.free ==> f < FIRST_SERVER_ID)
    requires Roundtrip(p, s, callback, hs).1.Some? && Roundtrip(p, s, callback, hs).2.None?
    ensures var id := Roundtrip(p, s, callback, hs).1.value;
            var asked := Ask(s, callback).0;
            && id !in s.objects
            && asked.sent == s.sent + [SyncRequest(id)]
            && EndsWithDone(p, asked, acts, id, callback)
            && MarkZombie(RunCalls(p, asked, acts), id) == Roundtrip(p, s, callback, hs).0
  {
    hide Await, EndsWithDone, RunCalls, SyncRequest, Ask, MarkZombie;
    var (asked, id, _) := Ask(s, callback);
    AskedIsRegistered(s, callback);
    acts := AwaitEndsWithDone(p, asked, id.value, callback, true, hs, 0);
  }

  // ---- an answer ends the roundtrip

  /** The done event is next in the stream. */
  lemma DoneIsNext(s: State, id: Word, callback: Kind, data: Word, rest: seq<byte>)
    requires s.fatal.None? && Clean(s.inbox) && id != 0 && LiveOf(s.objects, id, callback)
    requires Stream(s.inbox) == WireFrame(id, 0, Bytes32(data)) + rest
    ensures Answers(s, id, callback) && Stream(ReadMsg(s).0.inbox) == rest
  {
    hide ReadMsg, Stream, Clean, Bytes32, HeaderWord, Framing.Split;
    var f := Frame(id, 0, Bytes32(data));
    assert Framing.Valid(f) && Framing.Bytes(f) == WireFrame(id, 0, Bytes32(data));
    Framing.SplitFindsFrame(f, rest);
    Framing.ReadMsgRefinesSplit(s);
  }

  /** Some turns of the loop that end neither in an error nor with the answer. */
  function Turns(p: Protocol, s: State, id: Word, held: bool, hs: nat -> Handlers, n: nat, k: nat)
    : Option<(State, bool)>
    decreases k
  {
    if k == 0 then Some((s, held))
    else
      var (s', e) := DispatchTo(p, s, Waiting(hs(n), id, held));
      if e.Some? || s'.done then None else Turns(p, s', id, held && StaysAt(p, s, id), hs, n + 1, k - 1)
  }

  lemma {:induction false} AwaitAfterTurns(p: Protocol, s: State, id: Word, held: bool, hs: nat -> Handlers, n: nat, k: nat)
    requires Turns(p, s, id, held, hs, n, k).Some? && s.fatal.None? && !s.done
    ensures var (t, held') := Turns(p, s, id, held, hs, n, k).value;
            t.fatal.None? && !t.done && Await(p, s, id, held, hs, n) == Await(p, t, id, held', hs, n + k)
    decreases k
  {
    hide DispatchTo, StaysAt, Waiting;
    if k > 0 {
      var table := Waiting(hs(n), id, held);
      SilentIsAlive(p, s, table);
      DispatchToConsumes(p, s, table);
      AwaitAfterTurns(p, DispatchTo(p, s, table).0, id, held && StaysAt(p, s, id), hs, n + 1, k - 1);
    }
  }

  lemma SilentIsAlive(p: Protocol, s: State, hs: Table)
    requires DispatchTo(p, s, hs).1.None?
    ensures DispatchTo(p, s, hs).0.fatal.None?
  {
    hide ReadMsg, DispatchFrame;
  }

  /** When the request is written, in whatever pieces, and the answer arrives behind any
      messages that are dispatched without an error, Roundtrip returns nil, and what follows
      the answer is still to be read. */
  lemma AnswerEndsRoundtrip(p: Protocol, s: State, callback: Kind, hs: nat -> Handlers, k: nat, data: Word, rest: seq<byte>)
    requires Callback(p, callback) && (forall f :: f in s.ids.free ==> f < FIRST_SERVER_ID)
    requires var (asked, id, e) := Ask(s, callback);
             && id.Some? && e.None?
             && var turns := Turns(p, asked, id.value, true, hs, 0, k);
                turns.Some? &&
                var (t, held) := turns.value;
                && held && LiveOf(t.objects, id.value, callback) && Clean(t.inbox)
                && Stream(t.inbox) == WireFrame(id.value, 0, Bytes32(data)) + rest
    ensures Roundtrip(p, s, callback, hs).2.None?
    ensures Stream(Roundtrip(p, s, callback, hs).0.inbox) == rest
  {
    hide ReadMsg, Dispatch, Ask, Turns, Stream, Clean, Bytes32, HeaderWord, StaysAt, Answers, Callback;
    var (asked, id, _) := Ask(s, callback);
    AskedIsRegistered(s, callback);
    AwaitAfterTurns(p, asked, id.value, true, hs, 0, k);
    var t := Turns(p, asked, id.value, true, hs, 0, k).value.0;
    DoneIsNext(t, id.value, callback, data, rest);
    AnswerIsDispatched(p, t, id.value, callback, hs(k));
    DestructionKeepsInbox(Await(p, asked, id.value, true, hs, 0).0, id.value);
  }

  lemma DestructionKeepsInbox(s: State, id: Word)
    ensures MarkZombie(s, id).inbox == s.inbox
  {
  }

  lemma AnswerIsDispatched(p: Protocol, s: State, id: Word, callback: Kind, hs: Handlers)
    requires Callback(p, callback) && s.fatal.None? && Answers(s, id, callback)
    ensures var (s', e) := DispatchTo(p, s, Waiting(hs, id, true));
            e.None? && s'.done && s'.inbox == ReadMsg(s).0.inbox
  {
    hide ReadMsg, Dispatch, Callback;
    AnswerCallsHandler(p, s, id, callback);
  }

  // ---- the callback afterwards

  /** A run of dispatches, of which only the last may have returned an error. */
  predicate SilentButLast(p: Protocol, s: State, acts: seq<Action>) {
    acts != [] && Dispatches(acts) && Silent(p, s, acts[..|acts| - 1])
  }

  /** However the loop ends, it was such a run, and it returns what its last dispatch returned. */
  lemma {:induction false} AwaitIsDispatches(p: Protocol, s: State, id: Word, held: bool, hs: nat -> Handlers, n: nat)
    returns (acts: seq<Action>)
    ensures SilentButLast(p, s, acts)
    ensures var r := Await(p, s, id, held, hs, n);
            var init := acts[..|acts| - 1];
            && r.0 == RunCalls(p, s, acts) && r.1 == Act(p, RunCalls(p, s, init), acts[|acts| - 1]).1
            && (r.2 <==> held && Stays(p, s, acts, id))
    decreases Remaining(s.inbox)
  {
    hide Act, StaysAt, Waiting, Chosen, Stays, SilentButLast, RunCalls, DispatchTo;
    var table := Waiting(hs(n), id, held);
    var a := DoDispatch(Chosen(s, table));
    var (s', e) := DispatchTo(p, s, table);
    assert Act(p, s, a) == (s', e) by { ActIsDispatch(p, s, table); }
    if e.Some? || s'.done {
      acts := [a];
      OneDispatch(p, s, a, id);
    } else {
      DispatchToConsumes(p, s, table);
      var more := AwaitIsDispatches(p, s', id, held && StaysAt(p, s, id), hs, n + 1);
      acts := [a] + more;
      DispatchInFront(p, s, a, more, id);
    }
  }

  lemma DispatchInFront(p: Protocol, s: State, a: Action, more: seq<Action>, id: Word)
    requires a.DoDispatch? && Act(p, s, a).1.None? && SilentButLast(p, Act(p, s, a).0, more)
    ensures SilentButLast(p, s, [a] + more)
    ensures var all := [a] + more;
            && all[|all| - 1] == more[|more| - 1]
            && RunCalls(p, s, all) == RunCalls(p, Act(p, s, a).0, more)
            && RunCalls(p, s, all[..|all| - 1]) == RunCalls(p, Act(p, s, a).0, more[..|more| - 1])
            && (Stays(p, s, all, id) <==> StaysAt(p, s, id) && Stays(p, Act(p, s, a).0, more, id))
  {
    hide Act, StaysAt, RunCalls, Silent, Stays;
    var all, init := [a] + more, more[..|more| - 1];
    assert all[..|all| - 1] == [a] + init;
    RunCallsHead(p, s, a, more);
    RunCallsHead(p, s, a, init);
    SilentHead(p, s, a, init);
    StaysExactly(p, s, a, more, id);
  }

  lemma ActIsDispatch(p: Protocol, s: State, hs: Table)
    ensures Act(p, s, DoDispatch(Chosen(s, hs))) == DispatchTo(p, s, hs)
  {
    hide Dispatch, Chosen;
  }

  lemma OneDispatch(p: Protocol, s: State, a: Action, id: Word)
    requires a.DoDispatch?
    ensures SilentButLast(p, s, [a]) && RunCalls(p, s, [a]) == Act(p, s, a).0 && RunCalls(p, s, [a][..0]) == s
    ensures Stays(p, s, [a], id) <==> StaysAt(p, s, id)
  {
    hide Act, StaysAt;
    assert [a][..0] == [];
    if StaysAt(p, s, id) { StaysHead(p, s, a, [], id) by { NothingStays(p, Act(p, s, a).0, id); } }
    if Stays(p, s, [a], id) { assert StaysAt(p, RunCalls(p, s, [a][..0]), id); }
  }

  lemma NothingStays(p: Protocol, s: State, id: Word)
    ensures Stays(p, s, [], id)
  {
  }

  lemma StaysExactly(p: Protocol, s: State, a: Action, acts: seq<Action>, id: Word)
    ensures Stays(p, s, [a] + acts, id) <==> StaysAt(p, s, id) && Stays(p, Act(p, s, a).0, acts, id)
  {
    hide Act, StaysAt;
    var all := [a] + acts;
    if Stays(p, s, all, id) {
      assert all[..0] == [] && StaysAt(p, RunCalls(p, s, all[..0]), id);
      forall i | 0 <= i < |acts|
        ensures StaysAt(p, RunCalls(p, Act(p, s, a).0, acts[..i]), id)
      {
        assert all[..i + 1] == [a] + acts[..i];
        RunCallsHead(p, s, a, acts[..i]);
        assert StaysAt(p, RunCalls(p, s, all[..i + 1]), id);
      }
    } else if StaysAt(p, s, id) && Stays(p, Act(p, s, a).0, acts, id) {
      StaysHead(p, s, a, acts, id);
    }
  }

  /** Dispatches leave an object where it is, and destroyed, unless they deliver its delete_id. */
  lemma {:induction false} DispatchesKeepKind(p: Protocol, s: State, acts: seq<Action>, id: Word, kind: Kind, zombie: bool)
    requires KindAt(s.objects, id, kind, zombie) && id < FIRST_SERVER_ID
    requires Dispatches(acts) && Stays(p, s, acts, id)
    ensures KindAt(RunCalls(p, s, acts).objects, id, kind, zombie)
  {
    hide Dispatch, KindAt, StaysAt;
    if acts != [] {
      var n := |acts| - 1;
      assert forall i :: 0 <= i < n ==> acts[..n][i] == acts[i] && acts[..n][..i] == acts[..i];
      DispatchesKeepKind(p, s, acts[..n], id, kind, zombie);
      assert acts[n].DoDispatch? && StaysAt(p, RunCalls(p, s, acts[..n]), id);
      DispatchKeepsKind(p, RunCalls(p, s, acts[..n]), acts[n].h, id, kind, zombie);
    }
  }

  /** The next message is dispatched to nothing: nil is returned, and a descriptor that came with it
      is queued for a later event. */
  predicate Absorbs(p: Protocol, s: State, h: Handler) {
    var (s1, r) := ReadMsg(s);
    r.Got? && Dispatch(p, s, h) == (PutBack(s1, r.fd), None)
  }

  /** A done event for a destroyed callback, of any length, is absorbed whatever the handler
      that is set for it would do. */
  lemma LateAnswerIsAbsorbed(p: Protocol, s: State, id: Word, callback: Kind, h: Handler)
    requires Callback(p, callback) && s.fatal.None? && KindAt(s.objects, id, callback, true)
    requires Incoming(s).Some? && Incoming(s).value.sender == id
    ensures Absorbs(p, s, h)
  {
    hide ReadMsg;
    ReadKeepsObjects(s);
    var (s1, r) := ReadMsg(s);
    GotIsAlive(s);
    NoNewIdInDone();
  }

  lemma GotIsAlive(s: State)
    requires ReadMsg(s).1.Got?
    ensures ReadMsg(s).0.fatal.None?
  {
    hide ReadExact, Uint32, HeaderFault;
  }

  lemma NoNewIdInDone()
    ensures !HasNewId([Uint]) && !CarriesFD([Uint])
  {
  }

  /** The main result on the end of a Roundtrip, whether it returns nil or an error: if the request
      was written, it has made some dispatches, all but the last of which returned nil, and returns
      what the last one returned. Unless one of them delivered the delete_id of the callback, the
      callback is then a destroyed object at its ID, and stays one through any later dispatches
      with any handlers, until its delete_id; a done event that still arrives is absorbed. */
  lemma RoundtripDestroys(p: Protocol, s: State, callback: Kind, hs: nat -> Handlers) returns (acts: seq<Action>)
    requires Callback(p, callback) && (forall f :: f in s.ids.free ==> f < FIRST_SERVER_ID)
    requires Ask(s, callback).1.Some? && Ask(s, callback).2.None?
    ensures var (asked, id, _) := Ask(s, callback);
            var (t, id', e) := Roundtrip(p, s, callback, hs);
            && id' == id && SilentButLast(p, asked, acts)
            && e == Act(p, RunCalls(p, asked, acts[..|acts| - 1]), acts[|acts| - 1]).1
            && t == (if Stays(p, asked, acts, id.value) then RunCalls(p, asked, acts + [DoMarkZombie(id.value)])
                     else RunCalls(p, asked, acts))
            && (Stays(p, asked, acts, id.value) ==> KindAt(t.objects, id.value, callback, true))
    ensures var id := Ask(s, callback).1.value;
            var t := Roundtrip(p, s, callback, hs).0;
            Stays(p, Ask(s, callback).0, acts, id) ==>
              forall later: seq<Action>, h: Handler ::
                var u := RunCalls(p, t, later);
                Dispatches(later) && Stays(p, t, later, id) && u.fatal.None? && Incoming(u).Some? && Incoming(u).value.sender == id ==>
                  Absorbs(p, u, h)
  {
    hide Ask, RunCalls, Await, Act, Stays, SilentButLast, Absorbs, Callback, KindAt, Incoming;
    var (asked, id, _) := Ask(s, callback);
    AskedIsRegistered(s, callback);
    acts := AwaitIsDispatches(p, asked, id.value, true, hs, 0);
    var u := RunCalls(p, asked, acts);
    ThenMarked(p, asked, acts, id.value);
    if Stays(p, asked, acts, id.value) {
      LiveIsKind(asked.objects, id.value, callback);
      assert Dispatches(acts) by { assert SilentButLast(p, asked, acts); AllDispatches(p, asked, acts); }
      DispatchesKeepKind(p, asked, acts, id.value, callback, false);
      MarkedKind(u, id.value, callback);
      var t := Roundtrip(p, s, callback, hs).0;
      forall later: seq<Action>, h: Handler |
        var v := RunCalls(p, t, later);
        Dispatches(later) && Stays(p, t, later, id.value) && v.fatal.None? && Incoming(v).Some? && Incoming(v).value.sender == id.value
        ensures Absorbs(p, RunCalls(p, t, later), h)
      {
        DispatchesKeepKind(p, t, later, id.value, callback, true);
        LateAnswerIsAbsorbed(p, RunCalls(p, t, later), id.value, callback, h);
      }
    }
  }

  lemma AllDispatches(p: Protocol, s: State, acts: seq<Action>)
    requires SilentButLast(p, s, acts)
    ensures Dispatches(acts)
  {
    hide Silent;
  }

  lemma ThenMarked(p: Protocol, s: State, acts: seq<Action>, id: Word)
    ensures RunCalls(p, s, acts + [DoMarkZombie(id)]) == MarkZombie(RunCalls(p, s, acts), id)
  {
    hide MarkZombie;
    assert (acts + [DoMarkZombie(id)])[..|acts|] == acts;
  }

  lemma LiveIsKind(o: Objects, id: Word, kind: Kind)
    requires LiveOf(o, id, kind)
    ensures KindAt(o, id, kind, false)
  {
  }

  lemma MarkedKind(s: State, id: Word, kind: Kind)
    requires KindAt(s.objects, id, kind, false)
    ensures KindAt(MarkZombie(s, id).objects, id, kind, true)
  {
  }
}
