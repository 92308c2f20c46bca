/** What holds over whole sessions, whatever the peer sends and the application does. */
module Sessions {
  import opened Wire
  import opened Registry
  import opened Signature
  import opened Decoder
  import opened Socket
  import opened Connection
  import opened Invariants
  import Allocator
  import Encoder

  // ---- object IDs

  lemma BalanceIsStable()
    ensures Stable((s: State) => Balanced(s.objects, s.ids))
  {
    hide Balanced, Allocate, DeleteID, KeptByNote, KeptByFatal, KeptByDescriptors, KeptBySocket;
    var inv := (s: State) => Balanced(s.objects, s.ids);
    RegistryOnly(inv);
    forall s, kind | inv(s)
      ensures inv(Register(s, kind).0)
    {
      AllocateBalanced(s.objects, s.ids, Obj(kind, false));
      BalancedWhenExhausted(s.objects, s.ids);
    }
    forall s, id | inv(s)
      ensures inv(Delete(s, id))
    {
      DeleteBalanced(s.objects, s.ids, id);
    }
    forall s, o | inv(s) && SameClientIDs(s.objects, o)
      ensures inv(s.(objects := o))
    {
      BalancedIgnoresServerIDs(s.objects, o, s.ids);
    }
  }

  lemma BalancedWhenExhausted(o: Objects, ids: Ids)
    requires Balanced(o, ids)
    ensures Balanced(o, Allocate(o, ids).ids) || Allocate(o, ids).Fresh?
  {
    AllocateBalanced(o, ids, Obj(0, false));
  }

  /** The allocator invariant survives events: delete_id, introductions, absorbed introductions,
      panics in the middle of an event, and whatever handlers create and destroy. */
  lemma EverySessionIsBalanced(p: Protocol, inbox: seq<Arrival>, plan: seq<Written>, acts: seq<Action>)
    ensures var s := RunCalls(p, Initial(inbox, plan), acts); Balanced(s.objects, s.ids)
  {
    var inv := (s: State) => Balanced(s.objects, s.ids);
    BalanceIsStable();
    assert inv(Initial(inbox, plan));
    RunsKeep(inv, p, Initial(inbox, plan), acts);
  }

  lemma OneMoreCall(p: Protocol, s: State, acts: seq<Action>, a: Action)
    ensures RunCalls(p, s, acts + [a]) == Act(p, RunCalls(p, s, acts), a).0
  {
    hide Act;
    assert (acts + [a])[..|acts|] == acts;
  }

  /** Over every session: Register after DeleteID of a registered client ID puts the new object at
      this ID, and leaves the allocator and the other objects as they were. */
  lemma DeletedIsRegisteredNext(p: Protocol, inbox: seq<Arrival>, plan: seq<Written>, acts: seq<Action>, id: Word, kind: Kind)
    requires Recyclable(id) && id in RunCalls(p, Initial(inbox, plan), acts).objects
    ensures var s := RunCalls(p, Initial(inbox, plan), acts);
            var t := RunCalls(p, Initial(inbox, plan), acts + [DoDelete(id)] + [DoRegister(kind)]);
            t.ids == s.ids && t.objects == s.objects[id := Obj(kind, false)]
  {
    hide Balanced, Allocate, DeleteID, RunCalls;
    EverySessionIsBalanced(p, inbox, plan, acts);
    var s := RunCalls(p, Initial(inbox, plan), acts);
    OneMoreCall(p, Initial(inbox, plan), acts, DoDelete(id));
    OneMoreCall(p, Initial(inbox, plan), acts + [DoDelete(id)], DoRegister(kind));
    DeletedIsNext(s.objects, s.ids, id);
    Allocator.Removed(s.objects, s.ids, id);
    assert (s.objects - {id})[id := Obj(kind, false)] == s.objects[id := Obj(kind, false)];
  }

  /** A direct registration makes the proxy live at a server ID exactly when no live object is there,
      and touches no other ID and nothing else of the connection. */
  lemma ServerIDsAreRegistered(p: Protocol, s: State, id: Word, kind: Kind)
    ensures var t := Act(p, s, DoRegisterServer(id, kind)).0;
            && (LiveOf(t.objects, id, kind) <==> LiveOf(s.objects, id, kind) || Introducible(s.objects, id))
            && t.objects - {id} == s.objects - {id} && t == s.(objects := t.objects)
            && (!Introducible(s.objects, id) ==> t == s)
  {
  }

  // ---- the sticky fatal error

  /** The connection has failed with e and has moved no byte and no descriptor since. */
  predicate Dead(s: State, e: Error, since: State) {
    && s.fatal == Some(e) && s.pending == []
    && s.outbox == since.outbox && s.tried == since.tried && s.sent == since.sent && s.received == since.received
    && (s.inbox == since.inbox || s.inbox == [])
  }

  /** A failed connection does not touch its socket. */
  lemma FailedIsInert(s: State, b: seq<byte>, oob: seq<byte>)
    requires s.fatal.Some?
    ensures ReadMsg(s) == (s, ReadFailed(s.fatal.value))
    ensures WriteMsg(s, b, oob) == (s, s.fatal)
  {
  }

  lemma DeathOutlivesObjects(s: State, e: Error, since: State, kind: Kind, id: Word)
    requires Dead(s, e, since)
    ensures Dead(Register(s, kind).0, e, since) && Dead(Delete(s, id), e, since)
    ensures forall o :: Dead(s.(objects := o), e, since)
  {
    hide Allocate, DeleteID;
  }

  lemma DeathOutlivesRegistry(e: Error, since: State)
    ensures KeptByRegistry((s: State) => Dead(s, e, since))
  {
    hide Dead, Register, Delete, SameClientIDs;
    var inv := (s: State) => Dead(s, e, since);
    forall s, kind | inv(s) ensures inv(Register(s, kind).0) { DeathOutlivesObjects(s, e, since, kind, 0); }
    forall s, id | inv(s) ensures inv(Delete(s, id)) { DeathOutlivesObjects(s, e, since, 0, id); }
    forall s, o | inv(s) && SameClientIDs(s.objects, o) ensures inv(s.(objects := o)) {
      DeathOutlivesObjects(s, e, since, 0, 0);
    }
  }

  lemma DeathOutlivesFatal(e: Error, since: State)
    ensures KeptByFatal((s: State) => Dead(s, e, since))
  {
  }

  lemma DeathOutlivesDescriptors(e: Error, since: State)
    ensures KeptByDescriptors((s: State) => Dead(s, e, since))
  {
  }

  lemma DeathOutlivesSocket(e: Error, since: State)
    ensures KeptBySocket((s: State) => Dead(s, e, since))
  {
    hide ReadMsg, WriteMsg;
    var inv := (s: State) => Dead(s, e, since);
    forall s, b, oob | inv(s) ensures inv(WriteMsg(s, b, oob).0) { FailedIsInert(s, b, oob); }
    forall s | inv(s) ensures inv(ReadMsg(s).0) { FailedIsInert(s, [], []); }
  }

  lemma DeathIsStable(e: Error, since: State)
    ensures Stable((s: State) => Dead(s, e, since))
  {
    hide KeptByRegistry, KeptBySocket, KeptByFatal, KeptByDescriptors;
    DeathOutlivesFatal(e, since);
    DeathOutlivesDescriptors(e, since);
    DeathOutlivesRegistry(e, since);
    DeathOutlivesSocket(e, since);
  }

  predicate FailsClosed(s: State) {
    s.fatal.Some? ==> s.pending == []
  }

  lemma StepsFailClosed(s: State, e: Error, fd: int, kind: Kind, id: Word)
    requires FailsClosed(s)
    ensures FailsClosed(SetFatal(s, e)) && FailsClosed(CloseFD(s, fd)) && FailsClosed(HandOver(s, fd))
    ensures s.fatal.None? ==> FailsClosed(PutBack(s, fd))
    ensures FailsClosed(Register(s, kind).0) && FailsClosed(Delete(s, id)) && FailsClosed(CloseConn(s))
    ensures FailsClosed(s.(done := true)) && forall o :: FailsClosed(s.(objects := o))
  {
    hide Allocate, DeleteID;
  }

  lemma WriteFailsClosed(s: State, b: seq<byte>, oob: seq<byte>)
    requires FailsClosed(s)
    ensures FailsClosed(WriteMsg(s, b, oob).0)
  {
    hide WriteFrame, Encoder.Sendable, Accepted;
  }

  lemma FailureClosesIsStable()
    ensures Stable((s: State) => FailsClosed(s))
  {
    hide FailsClosed, SetFatal, CloseFD, HandOver, PutBack, Register, Delete, CloseConn, ReadMsg, WriteMsg, SameClientIDs;
    var inv := (s: State) => FailsClosed(s);
    forall s | inv(s) ensures inv(s.(done := true)) && inv(CloseConn(s)) { StepsFailClosed(s, NoProgress, 0, 0, 0); }
    forall s, e | inv(s) ensures inv(SetFatal(s, e)) { StepsFailClosed(s, e, 0, 0, 0); }
    forall s, fd | inv(s) ensures inv(CloseFD(s, fd)) && inv(HandOver(s, fd)) { StepsFailClosed(s, NoProgress, fd, 0, 0); }
    forall s, fd | inv(s) && s.fatal.None? ensures inv(PutBack(s, fd)) { StepsFailClosed(s, NoProgress, fd, 0, 0); }
    forall s, kind | inv(s) ensures inv(Register(s, kind).0) { StepsFailClosed(s, NoProgress, 0, kind, 0); }
    forall s, id | inv(s) ensures inv(Delete(s, id)) { StepsFailClosed(s, NoProgress, 0, 0, id); }
    forall s, o | inv(s) && SameClientIDs(s.objects, o) ensures inv(s.(objects := o)) {
      StepsFailClosed(s, NoProgress, 0, 0, 0);
    }
    forall s, b, oob | inv(s) ensures inv(WriteMsg(s, b, oob).0) { WriteFailsClosed(s, b, oob); }
    forall s | inv(s) ensures inv(ReadMsg(s).0) { ReadMsgFailsClosed(s); }
  }

  lemma ReadMsgFailsClosed(s: State)
    requires FailsClosed(s)
    ensures FailsClosed(ReadMsg(s).0)
  {
    hide ReadExact, Uint32;
  }

  /** The main result on failure: after every session in which a fatal error occurred, no
      descriptor is queued; and in every continuation the error stays the first one, every
      read, write and dispatch returns it, and nothing more is read or written. */
  lemma FirstErrorSticks(p: Protocol, inbox: seq<Arrival>, plan: seq<Written>, before: seq<Action>, after: seq<Action>)
    requires RunCalls(p, Initial(inbox, plan), before).fatal.Some?
    ensures var s := RunCalls(p, Initial(inbox, plan), before);
            var e := s.fatal.value;
            var s' := RunCalls(p, s, after);
            && Dead(s', e, s)
            && (forall b, oob :: WriteMsg(s', b, oob) == (s', Some(e)))
            && ReadMsg(s') == (s', ReadFailed(e))
            && (forall h :: Dispatch(p, s', h) == (s', Some(e)))
  {
    hide RunCalls, Dispatch, WriteMsg, ReadMsg, Stable;
    var closed := (s: State) => FailsClosed(s);
    FailureClosesIsStable();
    assert closed(Initial(inbox, plan));
    RunsKeep(closed, p, Initial(inbox, plan), before);
    var s := RunCalls(p, Initial(inbox, plan), before);
    var e := s.fatal.value;
    DeathIsStable(e, s);
    var dead := (x: State) => Dead(x, e, s);
    assert closed(s);
    assert dead(s);
    RunsKeep(dead, p, s, after);
    assert dead(RunCalls(p, s, after));
    EveryCallFails(p, RunCalls(p, s, after));
  }

  lemma EveryCallFails(p: Protocol, s: State)
    requires s.fatal.Some?
    ensures forall b, oob :: WriteMsg(s, b, oob) == (s, s.fatal)
    ensures ReadMsg(s) == (s, ReadFailed(s.fatal.value))
    ensures forall h :: Dispatch(p, s, h) == (s, s.fatal)
  {
    hide WriteFrame, ReadExact, DispatchFrame;
  }

  /** ReadMsg has made its error sticky before Dispatch wraps it, so Dispatch returns the error
      itself: ErrDispatchUnableToReadMsg never reaches a caller. */
  lemma ReadErrorsAreNotWrapped(p: Protocol, s: State, h: Handler)
    requires ReadMsg(s).1.ReadFailed?
    ensures Dispatch(p, s, h) == (ReadMsg(s).0, Some(ReadMsg(s).1.error))
  {
    hide ReadExact, Uint32, HeaderFault;
  }

  /** For instance, when the peer has closed before anything was read. */
  lemma ClosedPeerIsUnexpectedEOF(p: Protocol, h: Handler)
    ensures Dispatch(p, Initial([], []), h).1 == Some(UnexpectedEOF) != Some(UnableToRead(UnexpectedEOF))
  {
  }

  // ---- the outgoing stream

  function Flatten(frames: seq<seq<byte>>): seq<byte> {
    if frames == [] then [] else Flatten(frames[..|frames| - 1]) + frames[|frames| - 1]
  }

  /** The socket took all frames handed to it, whole; or all but the last, of which it took a
      part, and after which there was no other write because the connection had failed. */
  ghost predicate WellFramed(s: State) {
    && (forall i :: 0 <= i < |s.tried| ==> OneMessage(s.tried[i]))
    && if s.tried == s.sent then s.outbox == Flatten(s.sent)
       else
         && s.fatal.Some? && s.tried != [] && s.tried[..|s.tried| - 1] == s.sent
         && exists tail :: tail <= s.tried[|s.tried| - 1] && s.outbox == Flatten(s.sent) + tail
  }

  lemma FlattenMore(frames: seq<seq<byte>>, b: seq<byte>)
    ensures Flatten(frames + [b]) == Flatten(frames) + b
  {
    assert (frames + [b])[..|frames|] == frames;
  }

  /** A frame that the socket took whole, and one of which it took a part. */
  lemma FramedMore(s: State, s': State, b: seq<byte>, took: seq<byte>)
    requires WellFramed(s) && s.fatal.None? && OneMessage(b) && took <= b
    requires s'.tried == s.tried + [b] && s'.outbox == s.outbox + took
    requires if s'.fatal.None? then s'.sent == s.sent + [b] && took == b else s'.sent == s.sent
    ensures WellFramed(s')
  {
    hide OneMessage, Flatten;
    FlattenMore(s.sent, b);
    assert s'.tried[..|s'.tried| - 1] == s.tried;
  }

  /** What WriteMsg does to the frames and to the bytes on the socket. */
  lemma WriteOutcome(s: State, b: seq<byte>, oob: seq<byte>) returns (took: seq<byte>)
    requires s.fatal.None? && Encoder.Sendable(b)
    ensures var s' := WriteMsg(s, b, oob).0;
            && took <= b && s'.tried == s.tried + [b] && s'.outbox == s.outbox + took
            && if s'.fatal.None? then s'.sent == s.sent + [b] && took == b else s'.sent == s.sent
  {
    hide WriteFrame, Resumes, Accepted, Uint32;
    WriteFrameResult(s.plan, b, oob);
    took := Accepted(WriteFrame(s.plan, b, oob).attempts);
  }

  lemma WriteKeepsFraming(s: State, b: seq<byte>, oob: seq<byte>)
    requires WellFramed(s)
    ensures WellFramed(WriteMsg(s, b, oob).0)
  {
    hide WellFramed, Encoder.Sendable, OneMessage;
    Encoder.SendableExactly(b);
    if s.fatal.None? && Encoder.Sendable(b) {
      var took := WriteOutcome(s, b, oob);
      FramedMore(s, WriteMsg(s, b, oob).0, b, took);
    }
  }

  lemma FramingUnaffected(s: State, s': State)
    requires WellFramed(s) && s'.outbox == s.outbox && s'.sent == s.sent && s'.tried == s.tried
    requires s.fatal.Some? ==> s'.fatal.Some?
    ensures WellFramed(s')
  {
  }

  lemma FramingIsStable()
    ensures Stable((s: State) => WellFramed(s))
  {
    hide WriteMsg, ReadExact, HeaderFault, Allocate, DeleteID, WellFramed, SameClientIDs, Uint32;
    var inv := (s: State) => WellFramed(s);
    forall s | inv(s) ensures inv(s.(done := true)) { FramingUnaffected(s, s.(done := true)); }
    forall s, e | inv(s) ensures inv(SetFatal(s, e)) { FramingUnaffected(s, SetFatal(s, e)); }
    forall s, fd | inv(s) ensures inv(CloseFD(s, fd)) { FramingUnaffected(s, CloseFD(s, fd)); }
    forall s, fd | inv(s) ensures inv(HandOver(s, fd)) { FramingUnaffected(s, HandOver(s, fd)); }
    forall s, fd | inv(s) && s.fatal.None? ensures inv(PutBack(s, fd)) { FramingUnaffected(s, PutBack(s, fd)); }
    forall s, kind | inv(s) ensures inv(Register(s, kind).0) { FramingUnaffected(s, Register(s, kind).0); }
    forall s, id | inv(s) ensures inv(Delete(s, id)) { FramingUnaffected(s, Delete(s, id)); }
    forall s, o | inv(s) && SameClientIDs(s.objects, o) ensures inv(s.(objects := o)) {
      FramingUnaffected(s, s.(objects := o));
    }
    forall s, b, oob | inv(s) ensures inv(WriteMsg(s, b, oob).0) { WriteKeepsFraming(s, b, oob); }
    forall s | inv(s) ensures inv(ReadMsg(s).0) {
      ReadLeavesOutbox(s);
      FramingUnaffected(s, ReadMsg(s).0);
    }
    forall s | inv(s) ensures inv(CloseConn(s)) { FramingUnaffected(s, CloseConn(s)); }
  }

  lemma ReadLeavesOutbox(s: State)
    ensures var s' := ReadMsg(s).0;
            && s'.outbox == s.outbox && s'.sent == s.sent && s'.tried == s.tried && s'.objects == s.objects && s'.ids == s.ids
            && s'.handed == s.handed && (s.fatal.Some? ==> s'.fatal.Some?)
  {
    hide ReadExact, HeaderFault, Uint32;
  }

  /** What a peer makes of a byte stream: whole messages, cut by the lengths they declare, and what
      is not a whole one yet. */
  function Cut(b: seq<byte>): (seq<seq<byte>>, seq<byte>)
    decreases |b|
  {
    if |b| < 8 then ([], b)
    else
      var size := Uint32(b[4..8]) / 0x1_0000;
      if size < 8 || size > |b| then ([], b)
      else
        var (more, rest) := Cut(b[size..]);
        ([b[..size]] + more, rest)
  }

  lemma MessageLength(b: seq<byte>)
    requires OneMessage(b)
    ensures |b| >= 8 && Uint32(b[4..8]) / 0x1_0000 == |b|
  {
    hide OneMessage;
    Encoder.SendableExactly(b);
  }

  lemma CutOne(b: seq<byte>, rest: seq<byte>)
    requires OneMessage(b)
    ensures Cut(b + rest) == ([b] + Cut(rest).0, Cut(rest).1)
  {
    hide OneMessage, Uint32;
    MessageLength(b);
    var all := b + rest;
    assert all[4..8] == b[4..8] && all[..|b|] == b && all[|b|..] == rest;
  }

  /** A part of a message is not a whole one. */
  lemma CutNone(tail: seq<byte>, b: seq<byte>)
    requires OneMessage(b) && tail <= b && tail != b
    ensures Cut(tail) == ([], tail)
  {
    hide OneMessage, Uint32;
    MessageLength(b);
    if |tail| >= 8 { assert tail[4..8] == b[4..8]; }
  }

  lemma {:induction false} CutAll(frames: seq<seq<byte>>, tail: seq<byte>)
    requires forall i :: 0 <= i < |frames| ==> OneMessage(frames[i])
    ensures Cut(Flatten(frames) + tail) == (frames + Cut(tail).0, Cut(tail).1)
  {
    hide OneMessage, Cut;
    if frames == [] {
      assert [] + tail == tail && [] + Cut(tail).0 == Cut(tail).0;
    } else {
      var n := |frames| - 1;
      CutAll(frames[..n], frames[n] + tail);
      CutOne(frames[n], tail);
      assert Flatten(frames[..n]) + (frames[n] + tail) == Flatten(frames) + tail;
      assert frames[..n] + ([frames[n]] + Cut(tail).0) == frames + Cut(tail).0;
    }
  }

  /** A peer finds the frames in the bytes: those reported as written and no other, unless the last
      one that was handed to the socket was taken whole and its writing failed nevertheless. */
  ghost predicate CutBack(s: State) {
    var (frames, rest) := Cut(s.outbox);
    && (s.fatal.None? ==> frames == s.sent && rest == [])
    && (frames == s.sent || frames == s.tried)
    && (rest != [] ==> s.tried != [] && frames == s.tried[..|s.tried| - 1] && rest <= s.tried[|s.tried| - 1])
  }

  lemma WellFramedCutsBack(s: State)
    requires WellFramed(s)
    ensures CutBack(s)
  {
    hide OneMessage, Cut, Flatten;
    CutNothing();
    if s.tried == s.sent {
      CutAll(s.sent, []);
      assert Flatten(s.sent) + [] == s.outbox && s.sent + [] == s.sent;
    } else {
      var last := s.tried[|s.tried| - 1];
      var tail :| tail <= last && s.outbox == Flatten(s.sent) + tail;
      assert forall i :: 0 <= i < |s.sent| ==> s.sent[i] == s.tried[i];
      CutAll(s.sent, tail);
      if tail == last {
        CutOne(last, []);
        assert last + [] == last && [last] + [] == [last] && s.sent + [last] == s.tried;
      } else {
        CutNone(tail, last);
        assert s.sent + [] == s.sent;
      }
    }
  }

  lemma CutNothing()
    ensures Cut([]) == ([], [])
  {
  }

  /** The main result on writing: over every session the bytes on the socket are the frames
      WriteMsg reported as written, whole and in order, then at most a prefix of the one frame
      that was handed to the socket after them, and that only once the connection has failed.
      Each frame is one message, so that a peer finds them again. */
  lemma OutgoingStreamIsWellFramed(p: Protocol, inbox: seq<Arrival>, plan: seq<Written>, acts: seq<Action>)
    ensures WellFramed(RunCalls(p, Initial(inbox, plan), acts))
    ensures CutBack(RunCalls(p, Initial(inbox, plan), acts))
  {
    hide CutBack;
    var inv := (s: State) => WellFramed(s);
    FramingIsStable();
    assert inv(Initial(inbox, plan));
    RunsKeep(inv, p, Initial(inbox, plan), acts);
    assert inv(RunCalls(p, Initial(inbox, plan), acts));
    WellFramedCutsBack(RunCalls(p, Initial(inbox, plan), acts));
  }

  /** Bytes that are not one message are refused: they contribute nothing to the stream and leave
      the connection as it was. */
  lemma RefusedFrameChangesNothing(s: State, b: seq<byte>, oob: seq<byte>)
    requires s.fatal.None?
    ensures var (s', e) := WriteMsg(s, b, oob);
            && (e == Some(FrameSize) <==> !OneMessage(b))
            && (e == Some(FrameSize) ==> s' == s)
  {
    hide OneMessage;
    Encoder.SendableExactly(b);
    if Encoder.Sendable(b) {
      hide Resumes, Accepted;
      WriteErrors(s.plan, b, oob);
    }
  }

  lemma {:induction false} RestErrors(plan: seq<Written>, data: seq<byte>)
    ensures WriteRest(plan, data).error != Some(FrameSize)
  {
    WriteRestResult(plan, data);
  }

  lemma WriteErrors(plan: seq<Written>, data: seq<byte>, oob: seq<byte>)
    requires data != []
    ensures WriteFrame(plan, data, oob).error != Some(FrameSize)
  {
    var (c, rest) := NextWrite(plan);
    if 0 < c.n <= |data| { RestErrors(rest, data[c.n..]); }
  }
}
