/** Deadlines: idle ones change nothing, wherever they expire between two messages; late ones,
    inside a message, are fatal. */
module Deadlines {
  import opened Wire
  import opened Registry
  import opened Signature
  import opened Decoder
  import opened Socket
  import opened Connection
  import opened Invariants
  import Encoder
  import Z = Zombies

  // ---- one idle deadline

  /** A deadline that expired while nothing of a frame had been read. */
  const IDLE := Arrival([], NoOob, false, false, DeadlineFault)

  function IdleTimes(n: nat): seq<Arrival> {
    seq(n, _ => IDLE)
  }

  /** ReadMsg reports an idle deadline exactly when the first call it makes expires without a
      byte; then it has done nothing but queue the descriptors that call may have carried. */
  lemma IdleExactly(s: State)
    requires s.fatal.None?
    ensures ReadMsg(s).1.Idle? <==>
            && s.inbox != [] && s.inbox[0].data == [] && s.inbox[0].oob != BadRecord
            && !s.inbox[0].truncated && !s.inbox[0].overrun && s.inbox[0].fault == DeadlineFault
    ensures ReadMsg(s).1.Idle? ==>
            var fds := FDsOf(s.inbox[0]);
            ReadMsg(s).0 == s.(inbox := s.inbox[1..], pending := s.pending + fds, received := s.received + fds)
  {
    hide HeaderFault, Uint32;
    FirstReadIdle(s.inbox);
    if s.inbox != [] && s.inbox[0].data == [] {
      assert s.pending + [] == s.pending;
    }
  }

  /** A deadline with nothing consumed comes from the first call. */
  lemma FirstReadIdle(inbox: seq<Arrival>)
    ensures var r := ReadExact(inbox, 8);
            r.got == [] && r.error == Some(Deadline) <==>
            && inbox != [] && inbox[0].data == [] && inbox[0].oob != BadRecord
            && !inbox[0].truncated && !inbox[0].overrun && inbox[0].fault == DeadlineFault
    ensures var r := ReadExact(inbox, 8);
            r.got == [] && r.error == Some(Deadline) ==> r.inbox == inbox[1..] && r.fds == FDsOf(inbox[0])
  {
    var (c, rest) := Receive(inbox, 8);
  }

  /** Any number of idle deadlines in front of the traffic leaves the connection as it was, so
      it does not change what is dispatched afterwards. */
  lemma {:induction false} IdleDeadlinesStutter(p: Protocol, s: State, n: nat, hs: seq<Handler>)
    requires s.fatal.None? && |hs| == n
    ensures RunCalls(p, s.(inbox := IdleTimes(n) + s.inbox), seq(n, i requires 0 <= i < n => DoDispatch(hs[i]))) == s
    ensures n > 0 ==> Dispatch(p, s.(inbox := IdleTimes(n) + s.inbox), hs[0]).1 == Some(ReadTimeout)
    decreases n
  {
    hide ReadMsg, DispatchFrame;
    var s' := s.(inbox := IdleTimes(n) + s.inbox);
    if n == 0 {
      assert s' == s;
    } else {
      OneIdle(p, s', hs[0]);
      var m := n - 1;
      var acts := seq(n, i requires 0 <= i < n => DoDispatch(hs[i]));
      var init := seq(m, i requires 0 <= i < m => DoDispatch(hs[..m][i]));
      assert acts[..m] == init;
      var t := s.(inbox := [IDLE] + s.inbox);
      IdleDeadlinesStutter(p, t, m, hs[..m]);
      assert t.(inbox := IdleTimes(m) + t.inbox) == s';
      OneIdle(p, t, hs[m]);
      assert t.inbox[1..] == s.inbox;
    }
  }

  lemma OneIdle(p: Protocol, s: State, h: Handler)
    requires s.fatal.None? && s.inbox != [] && s.inbox[0] == IDLE
    ensures Dispatch(p, s, h) == (s.(inbox := s.inbox[1..]), Some(ReadTimeout))
  {
    hide ReadMsg, DispatchFrame;
    IdleExactly(s);
    assert s.pending + [] == s.pending && s.received + [] == s.received;
  }

  // ---- what is read and what is left

  lemma NothingWanted(part: seq<Arrival>, more: seq<Arrival>)
    ensures ReadExact(part, 0).inbox == part && ReadExact(part + more, 0) == ReadExact(part, 0).(inbox := part + more)
  {
  }

  /** A clean prefix that is long enough is all that is looked at. */
  lemma {:induction false} ReadExactPrefix(part: seq<Arrival>, more: seq<Arrival>, want: nat)
    requires Clean(part) && want <= |Stream(part)|
    ensures var r := ReadExact(part, want); ReadExact(part + more, want) == r.(inbox := r.inbox + more)
    decreases want
  {
    if want == 0 {
      NothingWanted(part, more);
    } else {
      hide Receive, Stream, Clean, ReadExact, FDsWithin;
      NoStream();
      ReceiveTakes(part, want);
      CleanCall(part, more, want);
      CleanCall(part, [], want);
      var (c, rest) := Receive(part, want);
      assert part + [] == part && rest + [] == rest;
      ReadExactPrefix(rest, more, want - |c.data|);
    }
  }

  lemma NoStream()
    ensures Stream([]) == []
  {
  }

  // ---- idle deadlines at any message boundary

  /** The calls leave the connection open. */
  predicate Open(acts: seq<Action>) {
    forall i :: 0 <= i < |acts| ==>
      acts[i] != DoClose && (acts[i].DoDispatch? && acts[i].h.Present? ==> CloseIt !in acts[i].h.deeds)
  }

  lemma DeedElsewhere(s: State, d: Deed, i: seq<Arrival>)
    requires d != CloseIt
    ensures Do(s.(inbox := i), d) == (Do(s, d).0.(inbox := i), Do(s, d).1)
  {
    hide Allocate, Encoder.Sendable, WriteFrame;
  }

  lemma {:induction false} DeedsElsewhere(s: State, ds: seq<Deed>, i: seq<Arrival>)
    requires CloseIt !in ds
    ensures DoAll(s.(inbox := i), ds) == (DoAll(s, ds).0.(inbox := i), DoAll(s, ds).1)
    decreases |ds|
  {
    hide Do;
    if ds != [] {
      DeedElsewhere(s, ds[0], i);
      DeedsElsewhere(Do(s, ds[0]).0, ds[1..], i);
    }
  }

  lemma FinishElsewhere(s: State, fd: int, h: Handler, i: seq<Arrival>)
    requires h.Present? ==> CloseIt !in h.deeds
    ensures Finish(s.(inbox := i), fd, h) == (Finish(s, fd, h).0.(inbox := i), Finish(s, fd, h).1)
  {
    hide DoAll;
    if h.Present? {
      DeedsElsewhere(Noted(s, h), h.deeds, i);
      assert Noted(s, h).(inbox := i) == Noted(s.(inbox := i), h);
    }
  }

  lemma EventElsewhere(s: State, e: Event, fd: int, data: seq<byte>, h: Handler, i: seq<Arrival>)
    requires h.Present? ==> CloseIt !in h.deeds
    ensures DispatchEvent(s.(inbox := i), e, fd, data, h) ==
            (DispatchEvent(s, e, fd, data, h).0.(inbox := i), DispatchEvent(s, e, fd, data, h).1)
  {
    hide Decode, Finish, DeleteID, ErrorOf, Z.DeletedId, Z.Decodes;
    match Decode(e.args, s.objects, data, fd) {
      case Panic(_) =>
      case Next(w) =>
        var s1 := s.(objects := w.objects);
        FinishElsewhere(Delete(s1, Z.DeletedId(w.fields)), fd, h, i);
        FinishElsewhere(SetFatal(s1, ErrorOf(w.fields)), fd, h, i);
        FinishElsewhere(s1, fd, h, i);
    }
  }

  lemma StepsElsewhere(s: State, fd: int, e: Error, opcode: nat, id: Word, i: seq<Arrival>)
    ensures SetFatal(s.(inbox := i), e) == SetFatal(s, e).(inbox := i)
    ensures CloseFD(s.(inbox := i), fd) == CloseFD(s, fd).(inbox := i)
    ensures Recovered(s.(inbox := i), fd, opcode, id) == Recovered(s, fd, opcode, id).(inbox := i)
  {
  }

  lemma RouteElsewhere(s: State, iface: Interface, opcode: nat, fd: int, i: seq<Arrival>)
    ensures RouteFD(s.(inbox := i), iface, opcode, fd) ==
            (RouteFD(s, iface, opcode, fd).0.(inbox := i), RouteFD(s, iface, opcode, fd).1)
    ensures RouteFD(s, iface, opcode, fd).0.objects == s.objects
  {
  }

  lemma ZombieElsewhere(s: State, iface: Interface, f: Frame, fd: int, i: seq<Arrival>)
    ensures var t, t' := CloseFD(s, fd), CloseFD(s.(inbox := i), fd);
            && t'.objects == t.objects
            && match Z.AbsorbNewIDs(iface, f.opcode, t.objects, f.body)
               case Panic(o) => Recovered(t'.(objects := o), -1, f.opcode, f.sender)
                                == Recovered(t.(objects := o), -1, f.opcode, f.sender).(inbox := i)
               case Next(o) => t'.(objects := o) == t.(objects := o).(inbox := i)
  {
    hide Z.AbsorbNewIDs;
  }

  lemma FrameElsewhere(p: Protocol, s: State, f: Frame, fd: int, h: Handler, i: seq<Arrival>)
    requires h.Present? ==> CloseIt !in h.deeds
    ensures DispatchFrame(p, s.(inbox := i), f, fd, h) == DispatchFrame(p, s, f, fd, h).(inbox := i)
  {
    hide DispatchEvent, Z.AbsorbNewIDs, InterfaceOf, RouteFD, SetFatal, CloseFD, Recovered;
    if f.sender !in s.objects {
      StepsElsewhere(s, fd, SenderNotFound(f.sender), 0, 0, i);
      StepsElsewhere(CloseFD(s, fd), fd, SenderNotFound(f.sender), 0, 0, i);
    } else {
      var iface := InterfaceOf(p, s.objects[f.sender].kind);
      RouteElsewhere(s, iface, f.opcode, fd, i);
      var (s1, fd1) := RouteFD(s, iface, f.opcode, fd);
      StepsElsewhere(s1, fd1, SenderUnsupported(f.sender), f.opcode, f.sender, i);
      StepsElsewhere(CloseFD(s1, fd1), fd1, SenderUnsupported(f.sender), 0, 0, i);
      ZombieElsewhere(s1, iface, f, fd1, i);
      if f.opcode < |iface.events| {
        EventElsewhere(s1, iface.events[f.opcode], fd1, f.body, h, i);
        StepsElsewhere(DispatchEvent(s1, iface.events[f.opcode], fd1, f.body, h).0, fd1, NoProgress, f.opcode, f.sender, i);
      }
    }
  }

  /** On clean fragments a message is read, or the connection dies. */
  lemma CleanRead(s: State)
    requires Clean(s.inbox) && s.fatal.None?
    ensures var (s', r) := ReadMsg(s); if r.Got? then Clean(s'.inbox) else s'.fatal.Some?
  {
    hide ReadExact, HeaderFault, Uint32, Clean, Stream, FDsWithin;
    var h := ReadExact(s.inbox, 8);
    ReadExactTakes(s.inbox, 8);
    if h.error.None? && HeaderFault(h.got).None? {
      GoodSize(h.got);
      ReadExactTakes(h.inbox, Uint32(h.got[4..8]) / 0x1_0000 - 8);
    }
  }

  /** What arrives behind a message does not matter for reading it. */
  lemma ReadElsewhere(s: State, x: seq<Arrival>)
    requires Clean(s.inbox) && ReadMsg(s).1.Got?
    ensures ReadMsg(s.(inbox := s.inbox + x)) ==
            (ReadMsg(s).0.(inbox := ReadMsg(s).0.inbox + x), ReadMsg(s).1)
  {
    hide ReadExact, HeaderFault, Uint32, Clean, Stream, FDsWithin;
    var h := ReadExact(s.inbox, 8);
    ReadExactTakes(s.inbox, 8);
    ReadExactPrefix(s.inbox, x, 8);
    GoodSize(h.got);
    var n := Uint32(h.got[4..8]) / 0x1_0000 - 8;
    ReadExactTakes(h.inbox, n);
    ReadExactPrefix(h.inbox, x, n);
  }

  lemma FailureStays(p: Protocol, s: State, a: Action)
    ensures Act(p, s, a).0.fatal.None? ==> s.fatal.None?
  {
    hide Act, Stable;
    var inv := (s: State) => s.fatal.Some?;
    FailureIsStable();
    if s.fatal.Some? {
      assert inv(s);
      ActKeeps(inv, p, s, a);
    }
  }

  lemma FailureIsStable()
    ensures Stable((s: State) => s.fatal.Some?)
  {
    hide ReadExact, WriteFrame, Encoder.Sendable, HeaderFault, Allocate, DeleteID, Accepted, Uint32;
  }

  lemma ActElsewhere(p: Protocol, s: State, a: Action, x: seq<Arrival>)
    requires Clean(s.inbox) && Open([a]) && Act(p, s, a).0.fatal.None?
    ensures Clean(Act(p, s, a).0.inbox)
    ensures Act(p, s.(inbox := s.inbox + x), a) == (Act(p, s, a).0.(inbox := Act(p, s, a).0.inbox + x), Act(p, s, a).1)
  {
    hide ReadMsg, DispatchFrame, WriteFrame, Encoder.Sendable, Allocate, DeleteID, Clean;
    FailureStays(p, s, a);
    assert [a][0] == a;
    CleanRead(s);
    var (s1, r) := ReadMsg(s);
    if r.Got? { ReadElsewhere(s, x); }
    if a.DoDispatch? && r.Got? {
      FrameElsewhere(p, s1, r.frame, r.fd, a.h, s1.inbox);
      FrameElsewhere(p, s1, r.frame, r.fd, a.h, s1.inbox + x);
      assert s1.(inbox := s1.inbox) == s1;
    }
  }

  lemma {:induction false} RunElsewhere(p: Protocol, s: State, acts: seq<Action>, x: seq<Arrival>)
    requires Clean(s.inbox) && Open(acts) && RunCalls(p, s, acts).fatal.None?
    ensures Clean(RunCalls(p, s, acts).inbox)
    ensures RunCalls(p, s.(inbox := s.inbox + x), acts) == RunCalls(p, s, acts).(inbox := RunCalls(p, s, acts).inbox + x)
  {
    hide Act, Clean;
    if acts != [] {
      var n := |acts| - 1;
      var t := RunCalls(p, s, acts[..n]);
      FailureStays(p, t, acts[n]);
      assert forall i :: 0 <= i < n ==> acts[..n][i] == acts[i];
      RunElsewhere(p, s, acts[..n], x);
      ActElsewhere(p, t, acts[n], x);
    }
  }

  lemma {:induction false} RunCallsAppend(p: Protocol, s: State, a: seq<Action>, b: seq<Action>)
    ensures RunCalls(p, s, a + b) == RunCalls(p, RunCalls(p, s, a), b)
  {
    hide Act;
    if b == [] {
      assert a + b == a;
    } else {
      assert (a + b)[..|a + b| - 1] == a + b[..|b| - 1];
      RunCallsAppend(p, s, a, b[..|b| - 1]);
    }
  }

  /** A part of a session that ends between two messages, and the handlers of the dispatches
      that then run into an idle deadline. */
  datatype Part = Part(arrivals: seq<Arrival>, acts: seq<Action>, idle: seq<Handler>)

  function Traffic(parts: seq<Part>, idle: bool): seq<Arrival>
    decreases |parts|
  {
    if parts == [] then []
    else parts[0].arrivals + (if idle then IdleTimes(|parts[0].idle|) else []) + Traffic(parts[1..], idle)
  }

  function Dispatches(hs: seq<Handler>): (r: seq<Action>)
    ensures |r| == |hs|
  {
    seq(|hs|, i requires 0 <= i < |hs| => DoDispatch(hs[i]))
  }

  function Calls(parts: seq<Part>, idle: bool): seq<Action>
    decreases |parts|
  {
    if parts == [] then []
    else parts[0].acts + (if idle then Dispatches(parts[0].idle) else []) + Calls(parts[1..], idle)
  }

  /** Each part reads exactly what arrives in it, and does not fail. */
  predicate Paced(p: Protocol, s: State, parts: seq<Part>)
    decreases |parts|
  {
    parts == [] ||
    var t := RunCalls(p, s.(inbox := parts[0].arrivals), parts[0].acts);
    && Clean(parts[0].arrivals) && Open(parts[0].acts)
    && t.fatal.None? && t.inbox == []
    && Paced(p, t, parts[1..])
  }

  /** One part, with whatever follows it. */
  lemma OnePart(p: Protocol, s: State, part: Part, idle: bool, x: seq<Arrival>)
    requires Paced(p, s, [part])
    ensures var t := RunCalls(p, s.(inbox := part.arrivals), part.acts);
            RunCalls(p, s.(inbox := part.arrivals + (if idle then IdleTimes(|part.idle|) else []) + x),
                     part.acts + (if idle then Dispatches(part.idle) else [])) == t.(inbox := x)
  {
    hide Act, Open, Clean;
    assert [part][0] == part && [part][1..] == [];
    var s0 := s.(inbox := part.arrivals);
    var t := RunCalls(p, s0, part.acts);
    var n := |part.idle|;
    var gap := if idle then IdleTimes(n) else [];
    var more := if idle then Dispatches(part.idle) else [];
    RunElsewhere(p, s0, part.acts, gap + x);
    assert part.arrivals + gap + x == part.arrivals + (gap + x);
    RunCallsAppend(p, s.(inbox := part.arrivals + (gap + x)), part.acts, more);
    assert [] + (gap + x) == gap + x;
    if idle {
      IdleDeadlinesStutter(p, t.(inbox := x), n, part.idle);
    } else {
      assert gap + x == x;
    }
  }

  /** The main result on idle deadlines: let any number of them expire at any boundaries between
      messages of a session that does not fail. It comes to the same state as without them, so it
      has dispatched the same and will dispatch the same. */
  lemma {:induction false} IdleDeadlinesAnywhere(p: Protocol, s: State, parts: seq<Part>)
    requires Paced(p, s, parts)
    ensures RunCalls(p, s.(inbox := Traffic(parts, true)), Calls(parts, true)) ==
            RunCalls(p, s.(inbox := Traffic(parts, false)), Calls(parts, false))
    decreases |parts|
  {
    hide Act, Open, Clean;
    if parts != [] {
      var part, more := parts[0], parts[1..];
      var t := RunCalls(p, s.(inbox := part.arrivals), part.acts);
      assert [part][1..] == [];
      assert Paced(p, s, [part]);
      OnePart(p, s, part, true, Traffic(more, true));
      OnePart(p, s, part, false, Traffic(more, false));
      RunCallsAppend(p, s.(inbox := Traffic(parts, true)), part.acts + Dispatches(part.idle), Calls(more, true));
      RunCallsAppend(p, s.(inbox := Traffic(parts, false)), part.acts + [], Calls(more, false));
      IdleDeadlinesAnywhere(p, t, more);
    }
  }

  // ---- deadlines inside a message

  /** A call that brings some bytes, perhaps none, and reports an expired deadline. */
  predicate Late(a: Arrival) {
    a.fault == DeadlineFault && a.oob != BadRecord && !a.truncated && !a.overrun
  }

  lemma LateNow(late: Arrival, more: seq<Arrival>, want: nat)
    requires Late(late) && want > 0
    ensures var r := ReadExact([late] + more, want);
            if |late.data| < want then r.got == late.data && r.error == Some(Deadline) && r.inbox == more
            else
              && r.got == late.data[..want] && r.error.None?
              && r.inbox == (if |late.data| == want then more else [late.(data := late.data[want..], oob := NoOob)] + more)
  {
    assert ([late] + more)[1..] == more;
    if |late.data| > want {
      var rest := [late.(data := late.data[want..], oob := NoOob)] + more;
      assert ReadExact(rest, 0) == Reading([], None, rest, []);
      assert late.data[..want] + [] == late.data[..want];
    }
  }

  /** Reading past a clean prefix into a call that expires: too few bytes are an error, and
      enough of them are not. */
  lemma {:induction false} ReadExactLate(part: seq<Arrival>, late: Arrival, more: seq<Arrival>, want: nat)
    requires Clean(part) && Late(late) && |Stream(part)| < want
    ensures var r := ReadExact(part + ([late] + more), want);
            var b := Stream(part) + late.data;
            if |b| < want then r.got == b && r.error == Some(Deadline) && r.inbox == more
            else
              && r.got == b[..want] && r.error.None?
              && r.inbox == (if |b| == want then more
                             else [late.(data := late.data[want - |Stream(part)|..], oob := NoOob)] + more)
    decreases want
  {
    hide Receive, Stream, Clean, Late, ReadExact, FDsWithin;
    if part == [] {
      NoStream();
      LateNow(late, more, want);
      assert part + ([late] + more) == [late] + more;
      assert [] + late.data == late.data;
    } else {
      ReceiveTakes(part, want);
      CleanCall(part, [late] + more, want);
      var (c, rest) := Receive(part, want);
      ReadExactLate(rest, late, more, want - |c.data|);
      assert Stream(part) + late.data == c.data + (Stream(rest) + late.data);
    }
  }

  /** The length of the message a stream starts with, as far as it is known. */
  function Announced(b: seq<byte>): nat {
    if |b| < 8 then 8 else Uint32(b[4..8]) / 0x1_0000
  }

  /** What a reading that ran into a deadline does to the connection. */
  ghost predicate DiedOfDeadline(s: State, more: seq<Arrival>) {
    var (s', r) := ReadMsg(s);
    && r == ReadFailed(Deadline) && s'.fatal == Some(Deadline) && s'.pending == [] && s'.inbox == more
    && s.received <= s'.received && s'.closed == s.closed + s.pending + s'.received[|s.received|..]
  }

  lemma DiedInHeader(s: State, more: seq<Arrival>)
    requires s.fatal.None?
    requires var h := ReadExact(s.inbox, 8); h.error == Some(Deadline) && h.got != [] && h.inbox == more
    ensures DiedOfDeadline(s, more)
  {
    hide ReadExact, HeaderFault, Uint32;
  }

  lemma DiedInBody(s: State, more: seq<Arrival>)
    requires s.fatal.None?
    requires var h := ReadExact(s.inbox, 8);
             && h.error.None? && HeaderFault(h.got).None?
             && Uint32(h.got[4..8]) / 0x1_0000 >= 8
             && var b := ReadExact(h.inbox, Uint32(h.got[4..8]) / 0x1_0000 - 8);
                b.error == Some(Deadline) && b.inbox == more
    ensures DiedOfDeadline(s, more)
  {
    hide ReadExact, HeaderFault, Uint32;
    var h := ReadExact(s.inbox, 8);
    var b := ReadExact(h.inbox, Uint32(h.got[4..8]) / 0x1_0000 - 8);
    assert s.received + h.fds + b.fds == s.received + (h.fds + b.fds);
    assert s.closed + (s.pending + h.fds + b.fds) == s.closed + s.pending + (h.fds + b.fds);
  }

  /** A reading takes something out of a stream that has not ended. */
  lemma {:induction false} ReadExactMoves(inbox: seq<Arrival>, want: nat)
    requires want > 0 && inbox != []
    ensures var r := ReadExact(inbox, want); |Stream(r.inbox)| + |r.inbox| < |Stream(inbox)| + |inbox|
    decreases want
  {
    hide ReadExact, Stream, FDsWithin;
    var (c, rest) := Receive(inbox, want);
    FirstTurn(inbox, want);
    ReceiveLosesNothing(inbox, want);
    assert |Stream(inbox)| == |c.data| + |Stream(rest)|;
    if c.oob != BadRecord && !c.truncated && 0 < c.n <= want && c.fault == NoFault {
      if |c.data| < want && rest != [] {
        ReadExactMoves(rest, want - |c.data|);
      } else {
        NothingMoves(rest, want - |c.data|);
      }
    }
  }

  lemma NothingMoves(inbox: seq<Arrival>, want: nat)
    requires want == 0 || inbox == []
    ensures ReadExact(inbox, want).inbox == inbox
  {
  }

  /** A closed stream is not an expired one. */
  lemma EndIsNoDeadline(want: nat)
    requires want > 0
    ensures ReadExact([], want).error == Some(UnexpectedEOF)
  {
  }

  /** A call that completes what is wanted is read as if its deadline had not expired. */
  lemma {:induction false} ExpiryUnseen(part: seq<Arrival>, late: Arrival, more: seq<Arrival>, want: nat)
    requires Clean(part) && Late(late) && late.data != [] && |Stream(part)| + |late.data| == want
    ensures ReadExact(part + ([late] + more), want) == ReadExact(part + ([late.(fault := NoFault)] + more), want)
    decreases want
  {
    hide Receive, Stream, Clean, ReadExact, FDsWithin;
    var late' := late.(fault := NoFault);
    if part == [] {
      NoStream();
      assert part + ([late] + more) == [late] + more && part + ([late'] + more) == [late'] + more;
      ExpiryUnseenNow(late, more);
    } else {
      ReceiveTakes(part, want);
      CleanCall(part, [late] + more, want);
      CleanCall(part, [late'] + more, want);
      var (c, rest) := Receive(part, want);
      assert |Stream(part)| == |c.data| + |Stream(rest)|;
      ExpiryUnseen(rest, late, more, want - |c.data|);
    }
  }

  lemma ExpiryUnseenNow(late: Arrival, more: seq<Arrival>)
    requires Late(late) && late.data != []
    ensures ReadExact([late] + more, |late.data|) == ReadExact([late.(fault := NoFault)] + more, |late.data|)
  {
    var late' := late.(fault := NoFault);
    assert ([late] + more)[1..] == more && ([late'] + more)[1..] == more;
    NothingLeft(Resumed(late.data, FDsOf(late), ReadExact(more, 0)), late.data, FDsOf(late), more);
  }

  /** The one deadline inside a message that is not looked at: that of a call which completes the
      header. The message is read as if it had not expired. */
  lemma DeadlineUnseen(s: State, part: seq<Arrival>, late: Arrival, more: seq<Arrival>)
    requires s.fatal.None? && s.inbox == part + ([late] + more) && Clean(part) && Late(late)
    requires |Stream(part)| + |late.data| == 8 && late.data != []
    ensures ReadMsg(s) == ReadMsg(s.(inbox := part + ([late.(fault := NoFault)] + more)))
  {
    hide ReadExact, HeaderFault, Uint32, Stream, Clean, Late;
    ExpiryUnseen(part, late, more, 8);
  }

  lemma OutlivesDeadline(s: State, part: seq<Arrival>, late: Arrival, more: seq<Arrival>)
    requires s.fatal.None? && s.inbox == part + ([late] + more) && Clean(part) && Late(late)
    requires var b := Stream(part) + late.data;
             |b| == 8 < Announced(b) && HeaderFault(b).None? && late.data != []
    ensures !DiedOfDeadline(s, more)
  {
    hide ReadExact, HeaderFault, Uint32, Stream, Clean, Late;
    ReadExactLate(part, late, more, 8);
    var b := Stream(part) + late.data;
    assert b[..8] == b;
    var size := Announced(b);
    if more == [] {
      EndIsNoDeadline(size - 8);
    } else {
      ReadExactMoves(more, size - 8);
    }
  }

  lemma DiesOfDeadline(s: State, part: seq<Arrival>, late: Arrival, more: seq<Arrival>)
    requires s.fatal.None? && s.inbox == part + ([late] + more) && Clean(part) && Late(late)
    requires var b := Stream(part) + late.data;
             && 0 < |b| < Announced(b)
             && (|b| >= 8 ==> HeaderFault(b[..8]).None?)
             && (|b| == 8 ==> late.data == [])
    ensures DiedOfDeadline(s, more)
  {
    hide ReadExact, HeaderFault, Uint32, Stream, Clean, DiedOfDeadline, Late;
    var b := Stream(part) + late.data;
    if |b| < 8 {
      ReadExactLate(part, late, more, 8);
      DiedInHeader(s, more);
    } else {
      var size := Announced(b);
      if |Stream(part)| >= 8 {
        var h := ReadExact(part, 8);
        ReadExactTakes(part, 8);
        ReadExactPrefix(part, [late] + more, 8);
        assert h.got == b[..8] && h.got[4..8] == b[4..8];
        ReadExactLate(h.inbox, late, more, size - 8);
      } else {
        ReadExactLate(part, late, more, 8);
        assert b[..8][4..8] == b[4..8];
        LateRest(late, 8 - |Stream(part)|, more, size - 8);
      }
      DiedInBody(s, more);
    }
  }

  /** The rest of an expired call whose first bytes were taken. */
  lemma LateRest(late: Arrival, taken: nat, more: seq<Arrival>, want: nat)
    requires Late(late) && taken < |late.data| && |late.data| - taken < want
    ensures ReadExact([late.(data := late.data[taken..], oob := NoOob)] + more, want).error == Some(Deadline)
    ensures ReadExact([late.(data := late.data[taken..], oob := NoOob)] + more, want).inbox == more
  {
    LateNow(late.(data := late.data[taken..], oob := NoOob), more, want);
  }

  /** The main result on late deadlines: let one expire after the first byte of a message and
      before its last one, in the header or in the body, however the bytes before it were cut,
      in a call that brings some of them or none. It is the sticky error, and every descriptor
      received is closed, unless that call completes the header. */
  lemma LateDeadlineIsFatal(s: State, part: seq<Arrival>, late: Arrival, more: seq<Arrival>)
    requires s.fatal.None? && s.inbox == part + ([late] + more) && Clean(part) && Late(late)
    requires var b := Stream(part) + late.data;
             0 < |b| < Announced(b) && (|b| >= 8 ==> HeaderFault(b[..8]).None?)
    ensures DiedOfDeadline(s, more) <==> !(|Stream(part) + late.data| == 8 && late.data != [])
  {
    hide DiedOfDeadline, HeaderFault, Uint32, Stream, Clean, Late;
    var b := Stream(part) + late.data;
    if |b| == 8 && late.data != [] {
      assert b[..8] == b;
      OutlivesDeadline(s, part, late, more);
    } else {
      DiesOfDeadline(s, part, late, more);
    }
  }

  /** Such a call: a whole header and an expired deadline, and the four bytes of body after it. */
  const EXPIRED := Arrival([1, 0, 0, 0, 0, 0, 12, 0], NoOob, false, false, DeadlineFault)
  const BODY := Arrival([7, 0, 0, 0], NoOob, false, false, NoFault)

  /** The message behind that header is read although the deadline expired inside it. */
  lemma HeaderOutlivesDeadline(s: State)
    requires s.fatal.None? && s.pending == [] && s.inbox == [EXPIRED, BODY]
    ensures Late(EXPIRED) && EXPIRED.data != []
    ensures ReadMsg(s) == (s.(inbox := []), Got(Frame(1, 0, BODY.data), -1))
  {
    hide ReadExact, Uint32;
    assert s.inbox == [EXPIRED] + [BODY] && [BODY] == [BODY] + [];
    WholeCall(EXPIRED, [BODY]);
    WholeCall(BODY, []);
    HeaderOfTwelve();
    assert s.pending + [] + [] == [] && s.received + [] + [] == s.received;
  }

  /** A call that brings exactly what is wanted. */
  lemma WholeCall(a: Arrival, more: seq<Arrival>)
    requires a.data != [] && a.oob == NoOob && !a.truncated && !a.overrun
    ensures ReadExact([a] + more, |a.data|) == Reading(a.data, None, more, [])
  {
    assert ([a] + more)[1..] == more;
    NothingLeft(Resumed(a.data, [], ReadExact(more, 0)), a.data, [], more);
  }

  lemma HeaderOfTwelve()
    ensures Uint32(EXPIRED.data[..4]) == 1 && Uint32(EXPIRED.data[4..8]) == 12 * 0x1_0000
  {
  }

  // ---- every other fault of the socket

  /** What a call that brings no byte makes of a reading. */
  function Blame(a: Arrival): Error {
    if a.oob == BadRecord then BadControl
    else if a.truncated then TruncatedRead
    else if a.overrun then Overrun
    else match a.fault
      case DeadlineFault => Deadline
      case OtherFault => Broken
      case _ => UnexpectedEOF
  }

  /** The descriptors of some arrivals. */
  function AllFDs(inbox: seq<Arrival>): seq<int> {
    if inbox == [] then [] else FDsOf(inbox[0]) + AllFDs(inbox[1..])
  }

  lemma BlameNow(a: Arrival, more: seq<Arrival>, want: nat)
    requires a.data == [] && want > 0
    ensures ReadExact([a] + more, want) == Reading([], Some(Blame(a)), more, FDsOf(a))
  {
    assert ([a] + more)[1..] == more;
  }

  /** Reading past a clean prefix that is too short, into such a call: the error is what the call
      says, and the descriptors of the prefix and of the call are all queued. */
  lemma {:induction false} ReadExactBlames(part: seq<Arrival>, a: Arrival, more: seq<Arrival>, want: nat)
    requires Clean(part) && a.data == [] && |Stream(part)| < want
    ensures ReadExact(part + ([a] + more), want) ==
            Reading(Stream(part), Some(Blame(a)), more, AllFDs(part) + FDsOf(a))
    decreases want
  {
    hide Receive, Stream, Clean, ReadExact, FDsWithin, Blame, AllFDs;
    if part == [] {
      NoStream();
      NoFDs();
      BlameNow(a, more, want);
      assert part + ([a] + more) == [a] + more;
    } else {
      ReceiveTakes(part, want);
      CleanCall(part, [a] + more, want);
      WholeFragment(part, want);
      var (c, rest) := Receive(part, want);
      ReadExactBlames(rest, a, more, want - |c.data|);
      assert FDsOf(part[0]) + (AllFDs(rest) + FDsOf(a)) == (FDsOf(part[0]) + AllFDs(rest)) + FDsOf(a);
    }
  }

  lemma NoFDs()
    ensures AllFDs([]) == []
  {
  }

  /** A fragment that fits is taken whole. */
  lemma WholeFragment(part: seq<Arrival>, want: nat)
    requires part != [] && |Stream(part)| < want
    ensures Receive(part, want).1 == part[1..] && Stream(part) == Receive(part, want).0.data + Stream(part[1..])
    ensures AllFDs(part) == FDsOf(part[0]) + AllFDs(part[1..])
  {
  }

  /** What a reading that failed does to the connection, with all descriptors that came. */
  ghost predicate DiedOf(s: State, e: Error, fds: seq<int>, more: seq<Arrival>) {
    ReadMsg(s) == (s.(fatal := Some(e), pending := [], inbox := more, received := s.received + fds,
                      closed := s.closed + (s.pending + fds)),
                   ReadFailed(e))
  }

  lemma DiedReadingHeader(s: State, e: Error, fds: seq<int>, more: seq<Arrival>)
    requires s.fatal.None?
    requires var h := ReadExact(s.inbox, 8);
             h.error == Some(e) && h.inbox == more && h.fds == fds && (e == Deadline ==> h.got != [])
    ensures DiedOf(s, e, fds, more)
  {
    hide ReadExact, HeaderFault, Uint32;
  }

  lemma DiedReadingBody(s: State, e: Error, fds: seq<int>, more: seq<Arrival>)
    requires s.fatal.None?
    requires var h := ReadExact(s.inbox, 8);
             && h.error.None? && HeaderFault(h.got).None?
             && Uint32(h.got[4..8]) / 0x1_0000 >= 8
             && var b := ReadExact(h.inbox, Uint32(h.got[4..8]) / 0x1_0000 - 8);
                b.error == Some(e) && b.inbox == more && h.fds + b.fds == fds
    ensures DiedOf(s, e, fds, more)
  {
    hide ReadExact, HeaderFault, Uint32;
    var h := ReadExact(s.inbox, 8);
    var b := ReadExact(h.inbox, Uint32(h.got[4..8]) / 0x1_0000 - 8);
    assert s.received + h.fds + b.fds == s.received + (h.fds + b.fds);
    assert s.pending + h.fds + b.fds == s.pending + (h.fds + b.fds);
  }

  lemma PrefixStep(part: seq<Arrival>, want: nat)
    requires Clean(part) && 0 < want <= |Stream(part)|
    ensures part != []
    ensures var (c, rest) := Receive(part, want);
            && Clean(rest) && 0 < |c.data| <= want && want - |c.data| <= |Stream(rest)|
            && ReadExact(part, want) == Resumed(c.data, FDsOf(part[0]), ReadExact(rest, want - |c.data|))
  {
    hide Receive, Stream, Clean, ReadExact, FDsWithin;
    NoStream();
    ReceiveTakes(part, want);
    CleanCall(part, [], want);
    var (c, rest) := Receive(part, want);
    assert part + [] == part && rest + [] == rest;
    assert |Stream(part)| == |c.data| + |Stream(rest)|;
  }

  lemma {:induction false} FDsOfPrefix(part: seq<Arrival>, want: nat)
    requires Clean(part) && want <= |Stream(part)|
    ensures ReadExact(part, want).fds + AllFDs(ReadExact(part, want).inbox) == AllFDs(part)
    decreases want
  {
    hide Receive, Stream, Clean, ReadExact, AllFDs, Resumed;
    if want == 0 {
      NoFDsOfNothing(part);
    } else {
      PrefixStep(part, want);
      var (c, rest) := Receive(part, want);
      FDsOfRest(part, want);
      FDsOfPrefix(rest, want - |c.data|);
      FDsInParts(c.data, FDsOf(part[0]), ReadExact(rest, want - |c.data|));
    }
  }

  lemma NoFDsOfNothing(part: seq<Arrival>)
    ensures ReadExact(part, 0).fds + AllFDs(ReadExact(part, 0).inbox) == AllFDs(part)
  {
    NothingWanted(part, []);
    assert [] + AllFDs(part) == AllFDs(part);
  }

  lemma FDsInParts(got: seq<byte>, fds: seq<int>, r: Reading)
    ensures Resumed(got, fds, r).inbox == r.inbox
    ensures Resumed(got, fds, r).fds + AllFDs(r.inbox) == fds + (r.fds + AllFDs(r.inbox))
  {
  }

  lemma FDsOfRest(part: seq<Arrival>, want: nat)
    requires part != [] && want > 0
    ensures FDsOf(part[0]) + AllFDs(Receive(part, want).1) == AllFDs(part)
  {
    var rest := Receive(part, want).1;
    if |part[0].data| > want { assert rest[1..] == part[1..]; }
  }

  /** The main result on a socket that fails: whatever it reports before a message is whole, be it in
      the header or in the body, the connection fails with exactly that, and each descriptor that
      arrived, with the fragments before or with the failing call, is closed. An idle deadline is
      the exception. */
  lemma BrokenReadIsFatal(s: State, part: seq<Arrival>, a: Arrival, more: seq<Arrival>)
    requires s.fatal.None? && s.inbox == part + ([a] + more) && Clean(part) && a.data == []
    requires |Stream(part)| < Announced(Stream(part))
    requires |Stream(part)| >= 8 ==> HeaderFault(Stream(part)[..8]).None?
    ensures DiedOf(s, Blame(a), AllFDs(part) + FDsOf(a), more) || (part == [] && Blame(a) == Deadline && ReadMsg(s).1.Idle?)
  {
    hide ReadExact, HeaderFault, Uint32, Stream, Clean, DiedOf, Blame, AllFDs;
    var b := Stream(part);
    if |b| < 8 {
      ReadExactBlames(part, a, more, 8);
      if b == [] && Blame(a) == Deadline {
        NoBytesNoPart(part);
        IdleRead(s, a, more);
      } else {
        DiedReadingHeader(s, Blame(a), AllFDs(part) + FDsOf(a), more);
      }
    } else {
      var size := Announced(b);
      var h := ReadExact(part, 8);
      ReadExactTakes(part, 8);
      ReadExactPrefix(part, [a] + more, 8);
      assert h.got == b[..8] && h.got[4..8] == b[4..8];
      FDsOfPrefix(part, 8);
      ReadExactBlames(h.inbox, a, more, size - 8);
      assert h.fds + (AllFDs(h.inbox) + FDsOf(a)) == (h.fds + AllFDs(h.inbox)) + FDsOf(a);
      DiedReadingBody(s, Blame(a), AllFDs(part) + FDsOf(a), more);
    }
  }

  lemma NoBytesNoPart(part: seq<Arrival>)
    requires Clean(part) && Stream(part) == []
    ensures part == []
  {
  }

  lemma IdleRead(s: State, a: Arrival, more: seq<Arrival>)
    requires s.fatal.None? && ReadExact(s.inbox, 8).got == [] && ReadExact(s.inbox, 8).error == Some(Deadline)
    ensures ReadMsg(s).1.Idle?
  {
    hide ReadExact, HeaderFault, Uint32;
  }
}
