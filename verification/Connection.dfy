/** A connection as a value: the fields of Context, the two ends of its socket, and a ledger of
    descriptors. Every operation is a function from one state to the next. */
module Connection {
  import opened Wire
  import opened Registry
  import opened Signature
  import opened Decoder
  import opened Socket
  import Allocator
  import Encoder
  import Z = Zombies

  /** done is the variable that the handler of a running Roundtrip sets. tried records the frames
      that WriteMsg handed to the socket, sent those it reported as written, book the calls of Register and DeleteID. received,
      handed and closed record the descriptors that came in, that were given to the
      application, and that the library closed. */
  datatype State = State(
    objects: Objects,
    ids: Ids,
    fatal: Option<Error>,
    pending: seq<int>,
    inbox: seq<Arrival>,
    plan: seq<Written>,
    outbox: seq<byte>,
    done: bool,
    tried: seq<seq<byte>>,
    sent: seq<seq<byte>>,
    received: seq<int>,
    handed: seq<int>,
    closed: seq<int>,
    book: seq<Allocator.Op>)

  // ---- the small operations of client/context.go

  function SetFatal(s: State, e: Error): State {
    if s.fatal.Some? then s
    else s.(fatal := Some(e), closed := s.closed + s.pending, pending := [])
  }

  function CloseFD(s: State, fd: int): State {
    if fd >= 0 then s.(closed := s.closed + [fd]) else s
  }

  function HandOver(s: State, fd: int): State {
    if fd >= 0 then s.(handed := s.handed + [fd]) else s
  }

  function TakePending(s: State): (int, State) {
    if s.pending == [] then (-1, s) else (s.pending[0], s.(pending := s.pending[1..]))
  }

  function PutBack(s: State, fd: int): State {
    if fd < 0 then s else s.(pending := [fd] + s.pending)
  }

  /** Closing the socket ends both scripts: every later read and write fails. */
  function CloseConn(s: State): State {
    s.(closed := s.closed + s.pending, pending := [], inbox := [], plan := [])
  }

  /** None is the panic of an exhausted ID space. */
  function Register(s: State, kind: Kind): (State, Option<Word>) {
    var a := Allocate(s.objects, s.ids);
    var s' := s.(ids := a.ids, book := s.book + [Allocator.Register(kind)]);
    if a.Fresh? then (s'.(objects := s.objects[a.id := Obj(kind, false)]), Some(a.id)) else (s', None)
  }

  function Delete(s: State, id: Word): State {
    var (o, ids) := DeleteID(s.objects, s.ids, id);
    s.(objects := o, ids := ids, book := s.book + [Allocator.Delete(id)])
  }

  function MarkZombie(s: State, id: Word): State {
    if id in s.objects then s.(objects := s.objects[id := s.objects[id].(zombie := true)]) else s
  }

  // ---- reading and writing messages

  datatype Frame = Frame(sender: Word, opcode: nat, body: seq<byte>)

  /** What the eight header bytes say, and whether ReadMsg accepts it. */
  function HeaderFault(header: seq<byte>): Option<Error>
    requires |header| == 8
  {
    var size := Uint32(header[4..8]) / 0x1_0000;
    if Uint32(header[..4]) == 0 then Some(ZeroSender)
    else if size < 8 || size > 65535 then Some(BadSize)
    else if size % 4 != 0 then Some(Unaligned)
    else None
  }

  /** An accepted size covers the header. */
  lemma GoodSize(header: seq<byte>)
    requires |header| == 8 && HeaderFault(header).None?
    ensures 8 <= Uint32(header[4..8]) / 0x1_0000 <= 65535
  {
  }

  datatype ReadOutcome = Idle | ReadFailed(error: Error) | Got(frame: Frame, fd: int)

  /** Stores the results of one readExact call in the state. */
  function Absorbed(s: State, r: Reading): State {
    s.(inbox := r.inbox, pending := s.pending + r.fds, received := s.received + r.fds)
  }

  function ReadMsg(s: State): (State, ReadOutcome) {
    if s.fatal.Some? then (s, ReadFailed(s.fatal.value))
    else
      var h := ReadExact(s.inbox, 8);
      var s1 := Absorbed(s, h);
      if h.error.Some? then
        if h.got == [] && h.error.value == Deadline then (s1, Idle)
        else (SetFatal(s1, h.error.value), ReadFailed(h.error.value))
      else
        var fault := HeaderFault(h.got);
        if fault.Some? then (SetFatal(s1, fault.value), ReadFailed(fault.value))
        else
          var word := Uint32(h.got[4..8]);
          var b := ReadExact(s1.inbox, word / 0x1_0000 - 8);
          var s2 := Absorbed(s1, b);
          if b.error.Some? then (SetFatal(s2, b.error.value), ReadFailed(b.error.value))
          else
            var (fd, s3) := TakePending(s2);
            (s3, Got(Frame(Uint32(h.got[..4]), word % 0x1_0000, b.got), fd))
  }

  function WriteMsg(s: State, b: seq<byte>, oob: seq<byte>): (State, Option<Error>) {
    if s.fatal.Some? then (s, s.fatal)
    else if !Encoder.Sendable(b) then (s, Some(FrameSize))
    else
      var w := WriteFrame(s.plan, b, oob);
      var s' := s.(plan := w.plan, outbox := s.outbox + Accepted(w.attempts), tried := s.tried + [b]);
      if w.error.Some? then (SetFatal(s', w.error.value), w.error)
      else (s'.(sent := s.sent + [b]), None)
  }

  // ---- handlers

  /** What an event handler may do with the connection, in any order. */
  datatype Deed =
    | Create(kind: Kind)
    | Destroy(id: Word)
    | Send(b: seq<byte>, oob: seq<byte>)
    | Fail(e: Error)
    | CloseIt

  /** The handler set for an event, by its behaviour. notes marks the function literal of
      Roundtrip, which sets that call's own variable. */
  datatype Handler = Absent | Present(deeds: seq<Deed>, panics: bool, notes: bool)

  function Do(s: State, d: Deed): (State, bool) {
    match d
    case Create(kind) => var (s', id) := Register(s, kind); (s', id.None?)
    case Destroy(id) => (MarkZombie(s, id), false)
    case Send(b, oob) => (WriteMsg(s, b, oob).0, false)
    case Fail(e) => (SetFatal(s, e), false)
    case CloseIt => (CloseConn(s), false)
  }

  /** Runs deeds until one panics. */
  function DoAll(s: State, ds: seq<Deed>): (State, bool)
    decreases |ds|
  {
    if ds == [] then (s, false)
    else
      var (s', panicked) := Do(s, ds[0]);
      if panicked then (s', true) else DoAll(s', ds[1..])
  }

  /** Calling the function literal of Roundtrip sets its variable. */
  function Noted(s: State, h: Handler): State {
    if h.Present? && h.notes then s.(done := true) else s
  }

  function RunHandler(s: State, h: Handler): (State, bool) {
    if h.Absent? then (s, false)
    else
      var (s', panicked) := DoAll(Noted(s, h), h.deeds);
      (s', panicked || h.panics)
  }

  // ---- dispatching

  predicate HasFD(iface: Interface, opcode: nat) {
    opcode < |iface.events| && CarriesFD(iface.events[opcode].args)
  }

  /** One case of the generated Dispatch. True means that it panicked. */
  function DispatchEvent(s: State, e: Event, fd: int, data: seq<byte>, h: Handler): (State, bool) {
    if !Z.Decodes(e, h.Present?) then
      (if CarriesFD(e.args) then CloseFD(s, fd) else HandOver(s, fd), false)
    else
      match Decode(e.args, s.objects, data, fd)
      case Panic(o) => (s.(objects := o), true)
      case Next(w) =>
        var s1 := s.(objects := w.objects);
        match e.role
        case DeleteIdEvent => Finish(Delete(s1, Z.DeletedId(w.fields)), fd, h)
        case DisplayErrorEvent => Finish(SetFatal(s1, ErrorOf(w.fields)), fd, h)
        case Plain =>
          if h.Absent? && CarriesFD(e.args) then (CloseFD(s1, fd), false) else Finish(s1, fd, h)
  }

  /** What recordDisplayError makes of an event: the object's ID if there is a proxy, else 0, the
      code and the message. */
  function ErrorOf(fields: seq<Field>): Error {
    if |fields| == 3 && fields[0].RefF? && fields[1].UintF? && fields[2].StringF? && fields[2].text.Some? then
      DisplayError(if fields[0].bound then fields[0].id else 0, fields[1].w, fields[2].text.value)
    else DisplayError(0, 0, [])
  }

  /** The handler owns the descriptor once it returns; a panic leaves it to the caller. */
  function Finish(s: State, fd: int, h: Handler): (State, bool) {
    var (s', panicked) := RunHandler(s, h);
    if panicked then (s', true) else (HandOver(s', fd), false)
  }

  function Recovered(s: State, fd: int, opcode: nat, id: Word): State {
    SetFatal(CloseFD(s, fd), DispatchPanic(opcode, id))
  }

  /** The descriptor an event is dispatched with: an event without descriptor arguments leaves
      it to a later one, if the sender can tell. */
  function RouteFD(s: State, iface: Interface, opcode: nat, fd: int): (State, int) {
    if iface.fdAware && !HasFD(iface, opcode) then (PutBack(s, fd), -1) else (s, fd)
  }

  /** Everything Dispatch does once a message was read. */
  function DispatchFrame(p: Protocol, s: State, f: Frame, fd: int, h: Handler): State {
    if f.sender !in s.objects then SetFatal(CloseFD(s, fd), SenderNotFound(f.sender))
    else
      var obj := s.objects[f.sender];
      var iface := InterfaceOf(p, obj.kind);
      var (s1, fd1) := RouteFD(s, iface, f.opcode, fd);
      if obj.zombie && obj.kind != DISPLAY then
        var s2 := CloseFD(s1, fd1);
        match Z.AbsorbNewIDs(iface, f.opcode, s2.objects, f.body)
        case Panic(o) => Recovered(s2.(objects := o), -1, f.opcode, f.sender)
        case Next(o) => s2.(objects := o)
      else if iface.events == [] then SetFatal(CloseFD(s1, fd1), SenderUnsupported(f.sender))
      else if f.opcode >= |iface.events| then Recovered(s1, fd1, f.opcode, f.sender)
      else
        var (s2, panicked) := DispatchEvent(s1, iface.events[f.opcode], fd1, f.body, h);
        if panicked then Recovered(s2, fd1, f.opcode, f.sender) else s2
  }

  /** Dispatch: one message is read and delivered. The result is nil, or the error returned. */
  function Dispatch(p: Protocol, s: State, h: Handler): (State, Option<Error>) {
    if s.fatal.Some? then (s, s.fatal)
    else
      var (s1, r) := ReadMsg(s);
      match r
      case Idle => (s1, Some(ReadTimeout))
      case ReadFailed(e) => var s2 := SetFatal(s1, UnableToRead(e)); (s2, s2.fatal)
      case Got(f, fd) => var s2 := DispatchFrame(p, s1, f, fd, h); (s2, s2.fatal)
  }

  // ---- runs

  /** One call into the library by the application. */
  datatype Action =
    | DoRegister(kind: Kind)
    | DoRegisterServer(id: Word, kind: Kind)
    | DoDelete(id: Word)
    | DoMarkZombie(id: Word)
    | DoWrite(b: seq<byte>, oob: seq<byte>)
    | DoRead
    | DoDispatch(h: Handler)
    | DoClose

  /** The state after one call and the error it returned. A caller of ReadMsg owns the fd. */
  function Act(p: Protocol, s: State, a: Action): (State, Option<Error>) {
    match a
    case DoRegister(kind) => (Register(s, kind).0, None)
    case DoRegisterServer(id, kind) =>
      var r := RegisterWithID(s.objects, id, Obj(kind, false));
      (if r.Some? then s.(objects := r.value) else s, None)
    case DoDelete(id) => (Delete(s, id), None)
    case DoMarkZombie(id) => (MarkZombie(s, id), None)
    case DoWrite(b, oob) => WriteMsg(s, b, oob)
    case DoRead =>
      var (s', r) := ReadMsg(s);
      (match r
       case Idle => (s', Some(ReadTimeout))
       case ReadFailed(e) => (s', Some(e))
       case Got(_, fd) => (HandOver(s', fd), None))
    case DoDispatch(h) => Dispatch(p, s, h)
    case DoClose => (CloseConn(s), None)
  }

  function RunCalls(p: Protocol, s: State, acts: seq<Action>): State {
    if acts == [] then s else Act(p, RunCalls(p, s, acts[..|acts| - 1]), acts[|acts| - 1]).0
  }

  /** A new connection over a socket. */
  function Initial(inbox: seq<Arrival>, plan: seq<Written>): State {
    State(map[], Ids([], 0), None, [], inbox, plan, [], false, [], [], [], [], [], [])
  }
}
