/** Events: what decoding does, who gets a descriptor, and what a broken message leads to. */
module Events {
  import opened Wire
  import opened Registry
  import opened Signature
  import opened Decoder
  import opened Socket
  import opened Connection
  import D = Descriptors
  import Delivery
  import Encoder
  import F = Framing
  import R = RoundTrip
  import Sync
  import Z = Zombies

  // ---- decoded events

  /** Decoding reads only inside the body: the cursor never passes its end. */
  lemma {:induction false} DecodingStaysInside(args: seq<Arg>, w: Walked, data: seq<byte>, fd: int)
    requires w.l <= |data|
    ensures var r := DecodeArgs(args, w, data, fd); r.Next? ==> w.l <= r.s.l <= |data|
  {
    hide Uint32, FirstNul, CString, ToInt32, LiveOf;
    if args != [] {
      DecodingStaysInside(args[..|args| - 1], w, data, fd);
    }
  }

  lemma ArgAddsField(a: Arg, w: Walked, data: seq<byte>, fd: int)
    requires DecodeArg(a, w, data, fd).Next?
    ensures var f := DecodeArg(a, w, data, fd).s.fields;
            |f| == |w.fields| + 1 && f[..|w.fields|] == w.fields && (a.Fd? ==> f[|w.fields|] == FdF(fd))
  {
    hide Uint32, FirstNul, CString, ToInt32, LiveOf, PaddedLen;
  }

  /** The event's fields are its arguments in order, and its descriptor field is the descriptor
      the event was dispatched with. */
  lemma {:induction false} FieldsAreArguments(args: seq<Arg>, w: Walked, data: seq<byte>, fd: int)
    requires w.fields == []
    ensures var r := DecodeArgs(args, w, data, fd);
            r.Next? ==> |r.s.fields| == |args| && forall k :: 0 <= k < |args| && args[k].Fd? ==> r.s.fields[k] == FdF(fd)
  {
    hide DecodeArg;
    if args != [] {
      var n := |args| - 1;
      FieldsAreArguments(args[..n], w, data, fd);
      var r := DecodeArgs(args[..n], w, data, fd);
      if r.Next? && DecodeArg(args[n], r.s, data, fd).Next? { ArgAddsField(args[n], r.s, data, fd); }
    }
  }

  /** Decoding an argument leaves live proxies live. */
  lemma LiveStaysLive(a: Arg, w: Walked, data: seq<byte>, fd: int, id: Word, kind: Kind)
    requires DecodeArg(a, w, data, fd).Next? && LiveOf(w.objects, id, kind)
    ensures LiveOf(DecodeArg(a, w, data, fd).s.objects, id, kind)
  {
    hide Uint32, FirstNul, CString, ToInt32, PaddedLen;
  }

  /** What an event's proxy field refers to, given the objects before and after the decoding. */
  predicate Bound(a: Arg, f: Field, before: Objects, after: Objects) {
    match a
    case NewId(Some(kind)) => f.NewF? && (f.id != 0 ==> f.bound) && (f.bound ==> LiveOf(after, f.id, kind))
    case Object(Some(kind), _) =>
      f.RefF? && (f.bound ==> LiveOf(after, f.id, kind)) && (!f.bound ==> !LiveOf(before, f.id, kind))
    case _ => true
  }

  lemma ArgIsBound(a: Arg, w: Walked, data: seq<byte>, fd: int)
    requires DecodeArg(a, w, data, fd).Next?
    ensures var r := DecodeArg(a, w, data, fd).s;
            |r.fields| == |w.fields| + 1 && r.fields[..|w.fields|] == w.fields
            && Bound(a, r.fields[|w.fields|], w.objects, r.objects)
  {
    hide Uint32, FirstNul, CString, ToInt32, PaddedLen;
  }

  /** Whatever the message says, a handler sees a non-nil proxy only where one of the declared
      type is live at that ID; a new_id field is non-nil unless the ID is 0; and an object field
      is nil only where there was no such proxy. */
  lemma {:induction false} FieldsAreBound(args: seq<Arg>, w: Walked, data: seq<byte>, fd: int)
    requires w.fields == []
    ensures var r := DecodeArgs(args, w, data, fd);
            r.Next? ==> |r.s.fields| == |args|
                        && forall k :: 0 <= k < |args| ==> Bound(args[k], r.s.fields[k], w.objects, r.s.objects)
    ensures var r := DecodeArgs(args, w, data, fd);
            r.Next? ==> forall id: Word, kind :: LiveOf(w.objects, id, kind) ==> LiveOf(r.s.objects, id, kind)
  {
    hide DecodeArg, LiveOf;
    if args != [] && DecodeArgs(args, w, data, fd).Next? {
      var n := |args| - 1;
      FieldsAreBound(args[..n], w, data, fd);
      var m, r := DecodeArgs(args[..n], w, data, fd).s, DecodeArgs(args, w, data, fd).s;
      ArgIsBound(args[n], m, data, fd);
      forall id: Word, kind | LiveOf(m.objects, id, kind)
        ensures LiveOf(r.objects, id, kind)
      {
        LiveStaysLive(args[n], m, data, fd, id, kind);
      }
      forall k | 0 <= k < n
        ensures Bound(args[k], r.fields[k], w.objects, r.objects)
      {
        assert args[..n][k] == args[k] && r.fields[k] == m.fields[k];
      }
    }
  }

  /** Deeds close descriptors, but hand none over. */
  lemma {:induction false} DeedsOnlyClose(s: State, ds: seq<Deed>)
    ensures DoAll(s, ds).0.handed == s.handed && s.closed <= DoAll(s, ds).0.closed
    decreases |ds|
  {
    hide Allocate, WriteFrame, Encoder.Sendable;
    if ds != [] { DeedsOnlyClose(Do(s, ds[0]).0, ds[1..]); }
  }

  lemma HandlerOnlyCloses(s: State, h: Handler)
    ensures RunHandler(s, h).0.handed == s.handed && s.closed <= RunHandler(s, h).0.closed
  {
    if h.Present? { DeedsOnlyClose(Noted(s, h), h.deeds); }
  }

  lemma RecoveryAppends(s: State, fd: int, opcode: nat, id: Word)
    requires fd >= 0
    ensures var s' := Recovered(s, fd, opcode, id);
            s'.handed == s.handed && s.closed + [fd] <= s'.closed
  {
  }

  /** The event's handler is called and returns. */
  predicate Returns(e: Event, s: State, data: seq<byte>, fd: int, h: Handler) {
    h.Present? &&
    var r := Decode(e.args, s.objects, data, fd);
    r.Next? && !RunHandler(s.(objects := r.s.objects), h).1
  }

  /** Who gets the descriptor of an event: the handler that was called and returned, whether or
      not it has set the fatal error; in every other case the library closes it, for zombies and
      missing handlers, broken messages, and panics of decoders, absorbers and handlers. */
  lemma OwnerOfDescriptor(p: Protocol, s: State, f: Frame, fd: int, h: Handler)
    requires f.sender in s.objects && fd >= 0
    requires HasFD(InterfaceOf(p, s.objects[f.sender].kind), f.opcode)
    requires InterfaceOf(p, s.objects[f.sender].kind).events[f.opcode].role == Plain
    ensures var obj := s.objects[f.sender];
            var e := InterfaceOf(p, obj.kind).events[f.opcode];
            var s' := DispatchFrame(p, s, f, fd, h);
            if (obj.zombie ==> obj.kind == DISPLAY) && Returns(e, s, f.body, fd, h) then
              s'.handed == s.handed + [fd] && s.closed <= s'.closed
            else
              s'.handed == s.handed && s.closed <= s'.closed && fd in s'.closed[|s.closed|..]
  {
    hide Decode, Z.AbsorbNewIDs, RunHandler, Recovered, InterfaceOf;
    var obj := s.objects[f.sender];
    var e := InterfaceOf(p, obj.kind).events[f.opcode];
    if obj.zombie && obj.kind != DISPLAY {
      AbsorberCloses(p, s, f, fd, h);
    } else {
      EventOwner(s, e, fd, f.body, h);
      var (s1, panicked) := DispatchEvent(s, e, fd, f.body, h);
      if panicked {
        RecoveryAppends(s1, fd, f.opcode, f.sender);
        LastCloses(s.closed, s1.closed, fd, Recovered(s1, fd, f.opcode, f.sender).closed);
      }
    }
  }

  lemma LastCloses(before: seq<int>, middle: seq<int>, fd: int, after: seq<int>)
    requires before <= middle && middle + [fd] <= after
    ensures before <= after && fd in after[|before|..]
  {
    assert after[|before|..][|middle| - |before|] == fd;
  }

  lemma EventOwner(s: State, e: Event, fd: int, data: seq<byte>, h: Handler)
    requires e.role == Plain && CarriesFD(e.args) && fd >= 0
    ensures var (s', panicked) := DispatchEvent(s, e, fd, data, h);
            if Returns(e, s, data, fd, h) then
              !panicked && s'.handed == s.handed + [fd] && s.closed <= s'.closed
            else
              s'.handed == s.handed && s.closed <= s'.closed && (!panicked ==> s'.closed == s.closed + [fd])
  {
    hide Decode, RunHandler;
    var r := Decode(e.args, s.objects, data, fd);
    if r.Next? { HandlerOnlyCloses(s.(objects := r.s.objects), h); }
  }

  lemma AbsorberCloses(p: Protocol, s: State, f: Frame, fd: int, h: Handler)
    requires f.sender in s.objects && s.objects[f.sender].zombie && s.objects[f.sender].kind != DISPLAY
    requires fd >= 0 && HasFD(InterfaceOf(p, s.objects[f.sender].kind), f.opcode)
    ensures var s' := DispatchFrame(p, s, f, fd, h);
            s'.handed == s.handed && s.closed <= s'.closed && fd in s'.closed[|s.closed|..]
  {
    hide Z.AbsorbNewIDs, InterfaceOf, HasFD;
    var s' := DispatchFrame(p, s, f, fd, h);
    assert s'.closed[|s.closed|] == fd;
    assert s'.closed[|s.closed|..][0] == fd;
  }

  /** An absorber that panics ends the connection too: the panic is the error, the zombie's
      descriptor and the queued ones are closed, and nothing else happens but registrations. */
  lemma CorruptAbsorptionIsFatal(p: Protocol, s: State, f: Frame, fd: int, h: Handler)
    requires s.fatal.None?
    requires f.sender in s.objects && s.objects[f.sender].zombie && s.objects[f.sender].kind != DISPLAY
    requires Z.AbsorbNewIDs(InterfaceOf(p, s.objects[f.sender].kind), f.opcode, s.objects, f.body).Panic?
    ensures var s' := DispatchFrame(p, s, f, fd, h);
            && s' == s.(objects := s'.objects, fatal := Some(DispatchPanic(f.opcode, f.sender)), pending := [],
                        closed := s'.closed)
            && multiset(s'.closed) == multiset(s.closed) + multiset(s.pending) + D.InHand(fd)
  {
    hide Z.AbsorbNewIDs, HasFD, InterfaceOf, Recovered, RouteFD, D.InHand, CloseFD;
    var iface := InterfaceOf(p, s.objects[f.sender].kind);
    var (s1, fd1) := RouteFD(s, iface, f.opcode, fd);
    RoutingMoves(s, iface, f.opcode, fd);
    ClosingMoves(s1, fd1);
    var o := Z.AbsorbNewIDs(iface, f.opcode, s.objects, f.body).objects;
    RecoveryCloses(CloseFD(s1, fd1).(objects := o), -1, f.opcode, f.sender);
    NothingInHand();
    var closed, here, there := multiset(s.closed), multiset(s1.pending), D.InHand(fd1);
    assert closed + there + here + multiset{} == closed + (here + there);
    assert closed + multiset(s.pending) + D.InHand(fd) == closed + (multiset(s.pending) + D.InHand(fd));
  }

  lemma NothingInHand()
    ensures D.InHand(-1) == multiset{}
  {
  }

  lemma ClosingMoves(s: State, fd: int)
    ensures CloseFD(s, fd) == s.(closed := CloseFD(s, fd).closed)
    ensures multiset(CloseFD(s, fd).closed) == multiset(s.closed) + D.InHand(fd)
  {
    if fd >= 0 { assert multiset([fd]) == multiset{fd}; }
  }

  /** The recovery from a panic closes the event's descriptor and the queue. */
  lemma RecoveryCloses(s: State, fd: int, opcode: nat, id: Word)
    requires s.fatal.None?
    ensures var s' := Recovered(s, fd, opcode, id);
            && s' == s.(fatal := Some(DispatchPanic(opcode, id)), pending := [], closed := s'.closed)
            && multiset(s'.closed) == multiset(s.closed) + multiset(s.pending) + D.InHand(fd)
  {
    if fd >= 0 { assert multiset([fd]) == multiset{fd}; }
  }

  /** Routing only moves the descriptor between hand and queue. */
  lemma RoutingMoves(s: State, iface: Interface, opcode: nat, fd: int)
    ensures var (s1, fd1) := RouteFD(s, iface, opcode, fd);
            && s1 == s.(pending := s1.pending)
            && multiset(s1.pending) + D.InHand(fd1) == multiset(s.pending) + D.InHand(fd)
  {
    if fd >= 0 { assert multiset([fd]) == multiset{fd}; }
  }

  /** An event that does not decode ends the connection: the error is the panic, and its descriptor
      and the queued ones are closed once each. No handler has run: nothing was written, handed
      over, noted or allocated. */
  lemma CorruptEventIsFatal(p: Protocol, s: State, f: Frame, fd: int, h: Handler)
    requires s.fatal.None? && |f.body| <= MAX_FRAME
    requires f.sender in s.objects && (s.objects[f.sender].zombie ==> s.objects[f.sender].kind == DISPLAY)
    requires var iface := InterfaceOf(p, s.objects[f.sender].kind);
             && iface.events != []
             && (f.opcode < |iface.events| ==>
                  && Z.Decodes(iface.events[f.opcode], h.Present?)
                  && Decode(iface.events[f.opcode].args, s.objects, f.body, RouteFD(s, iface, f.opcode, fd).1).Panic?)
    ensures var s' := DispatchFrame(p, s, f, fd, h);
            && s' == s.(objects := s'.objects, fatal := Some(DispatchPanic(f.opcode, f.sender)), pending := [],
                        closed := s'.closed)
            && multiset(s'.closed) == multiset(s.closed) + multiset(s.pending) + D.InHand(fd)
  {
    hide Decode, Z.Decodes, HasFD, InterfaceOf, Finish, Recovered, RouteFD, D.InHand;
    var iface := InterfaceOf(p, s.objects[f.sender].kind);
    var (s1, fd1) := RouteFD(s, iface, f.opcode, fd);
    RoutingMoves(s, iface, f.opcode, fd);
    var closed, here, there := multiset(s.closed), multiset(s1.pending), D.InHand(fd1);
    assert closed + here + there == closed + (here + there);
    assert closed + multiset(s.pending) + D.InHand(fd) == closed + (multiset(s.pending) + D.InHand(fd));
    RecoveryCloses(s1, fd1, f.opcode, f.sender);
    if f.opcode < |iface.events| {
      var o := Decode(iface.events[f.opcode].args, s.objects, f.body, fd1).objects;
      RecoveryCloses(s1.(objects := o), fd1, f.opcode, f.sender);
    }
  }

  // ---- errors of the compositor

  /** The arguments of wl_display.error: any object, a code and a message. */
  predicate ErrorArgs(args: seq<Arg>) {
    |args| == 3 && args[0].Object? && args[0].iface.None? && args[1] == Uint && args[2].String?
  }

  lemma ErrorMeant(target: Option<Word>, code: Word, text: seq<byte>)
    ensures var vals := [RefV(target), UintV(code), StringV(Some(text))];
            R.MeantAll(vals) ==
            [R.IdR(if target.Some? then target.value else 0), R.UintR(code), R.StringR(Some(CString(text)))]
  {
    var vals := [RefV(target), UintV(code), StringV(Some(text))];
    assert vals[..2] == [vals[0], vals[1]] && vals[..2][..1] == [vals[0]] && vals[..2][..1][..0] == [];
    assert R.MeantAll(vals[..2][..1]) == R.MeantAll([]) + R.Meant(vals[0]);
    assert R.MeantAll(vals[..2]) == R.MeantAll(vals[..2][..1]) + R.Meant(vals[1]);
  }

  /** The object argument has a proxy if one is registered at its ID, live or destroyed. */
  lemma {:induction false} FirstRefIsBound(args: seq<Arg>, w: Walked, data: seq<byte>, fd: int)
    requires args != [] && args[0].Object? && args[0].iface.None? && w.fields == []
    ensures var r := DecodeArgs(args, w, data, fd);
            r.Next? ==> |r.s.fields| > 0 && r.s.fields[0].RefF? && (r.s.fields[0].bound <==> r.s.fields[0].id in w.objects)
  {
    hide DecodeArg;
    var n := |args| - 1;
    if n == 0 {
      assert args[..0] == [] && DecodeArgs(args[..0], w, data, fd) == Next(w);
      if DecodeArgs(args, w, data, fd).Next? { RefIsBound(args[0], w, data, fd); }
    } else if DecodeArgs(args, w, data, fd).Next? {
      FirstRefIsBound(args[..n], w, data, fd);
      var m := DecodeArgs(args[..n], w, data, fd).s;
      ArgAddsField(args[n], m, data, fd);
      assert DecodeArgs(args, w, data, fd).s.fields[..|m.fields|][0] == m.fields[0];
    }
  }

  lemma RefIsBound(a: Arg, w: Walked, data: seq<byte>, fd: int)
    requires a.Object? && a.iface.None? && w.fields == [] && DecodeArg(a, w, data, fd).Next?
    ensures var f := DecodeArg(a, w, data, fd).s.fields;
            |f| == 1 && f[0].RefF? && (f[0].bound <==> f[0].id in w.objects)
  {
    hide Uint32;
  }

  /** Without untyped new_ids, each argument is one on the wire. */
  lemma {:induction false} NothingExpands(args: seq<Arg>)
    requires NewId(None) !in args
    ensures R.ExpandAll(args) == args
  {
    if args != [] {
      NothingExpands(args[..|args| - 1]);
      assert args[|args| - 1] in args;
    }
  }

  lemma {:induction false} NothingBound(args: seq<Arg>, vals: seq<Value>, o: Objects)
    requires |args| == |vals| && !HasNewId(args)
    ensures R.BindValues(args, vals, o) == Some(o)
  {
    if args != [] {
      var n := |args| - 1;
      assert !args[n].NewId? && forall i :: 0 <= i < n ==> !args[..n][i].NewId?;
      NothingBound(args[..n], vals[..n], o);
    }
  }

  /** The object an error is about, as far as the client knows it. */
  function Blamed(o: Objects, target: Option<Word>): Word {
    if target.Some? && target.value in o then target.value else 0
  }

  /** Its body is decoded, and the error is found in it. */
  lemma ErrorDecodes(args: seq<Arg>, o: Objects, target: Option<Word>, code: Word, text: seq<byte>, fd: int)
    requires ErrorArgs(args) && |WireBody([RefV(target), UintV(code), StringV(Some(text))])| <= MAX_FRAME
    ensures var r := Decode(args, o, WireBody([RefV(target), UintV(code), StringV(Some(text))]), fd);
            r.Next? && ErrorOf(r.s.fields) == DisplayError(Blamed(o, target), code, CString(text))
  {
    hide WireBody, Decode, DecodeArgs, CString, R.MeantAll, R.SeenAll, R.BindValues, R.ExpandAll;
    var vals := [RefV(target), UintV(code), StringV(Some(text))];
    assert AllTyped(args, vals);
    assert NewId(None) !in args && !HasNewId(args);
    NothingExpands(args);
    NothingBound(args, vals, o);
    R.ArgsReadBack(args, vals, o, [], fd);
    assert WireBody(vals) + [] == WireBody(vals);
    DecoderWalks(args, o, WireBody(vals), fd);
    ErrorMeant(target, code, text);
    FirstRefIsBound(args, Walked(0, [], o, []), WireBody(vals), fd);
    ErrorSeen(Decode(args, o, WireBody(vals), fd).s.fields, o, if target.Some? then target.value else 0, code, CString(text));
  }

  lemma ErrorSeen(fields: seq<Field>, o: Objects, id: Word, code: Word, text: seq<byte>)
    requires R.SeenAll(fields) == [R.IdR(id), R.UintR(code), R.StringR(Some(text))]
    requires |fields| > 0 && fields[0].RefF? && (fields[0].bound <==> fields[0].id in o)
    ensures ErrorOf(fields) == DisplayError(if id in o then id else 0, code, text)
  {
    assert |fields| == |R.SeenAll(fields)|;
    assert R.SeenAll(fields)[0] == R.Seen(fields[0]);
    assert R.SeenAll(fields)[1] == R.Seen(fields[1]);
    assert R.SeenAll(fields)[2] == R.Seen(fields[2]);
  }

  /** The main result on errors of the compositor: when the bytes of wl_display.error are next in the
      stream, for whatever object, code and message, the dispatch makes exactly these the sticky error
      and returns it, be the display destroyed or not, and whatever its handler does. The object is
      0 where the client has no proxy for it. What the handler then sends is refused. */
  lemma DisplayErrorIsSticky(p: Protocol, s: State, f: Frame, rest: seq<byte>, h: Handler,
                             target: Option<Word>, code: Word, text: seq<byte>)
    requires s.fatal.None? && Clean(s.inbox) && F.Valid(f) && Stream(s.inbox) == F.Bytes(f) + rest
    requires f.sender in s.objects && s.objects[f.sender].kind == DISPLAY
    requires var events := InterfaceOf(p, DISPLAY).events;
             && f.opcode < |events| && events[f.opcode].role == DisplayErrorEvent && ErrorArgs(events[f.opcode].args)
    requires f.body == WireBody([RefV(target), UintV(code), StringV(Some(text))])
    ensures var (t, e) := Dispatch(p, s, h);
            && e == t.fatal == Some(DisplayError(Blamed(s.objects, target), code, CString(text)))
            && t.outbox == s.outbox && t.pending == []
  {
    hide ReadMsg, Stream, Clean, F.Bytes, F.Split, WireBody, Decode, ErrorOf, HasFD, ErrorArgs;
    F.SplitFindsFrame(f, rest);
    F.ReadMsgRefinesSplit(s);
    var (s1, r) := ReadMsg(s);
    var iface := InterfaceOf(p, DISPLAY);
    var (s2, fd) := RouteFD(s1, iface, f.opcode, r.fd);
    ErrorDecodes(iface.events[f.opcode].args, s.objects, target, code, text, fd);
    ErrorHandled(s2, iface.events[f.opcode], fd, f.body, h);
    FailedAlready(DispatchEvent(s2, iface.events[f.opcode], fd, f.body, h).0, fd, f.opcode, f.sender);
  }

  lemma FailedAlready(s: State, fd: int, opcode: nat, id: Word)
    requires s.fatal.Some?
    ensures var t := Recovered(s, fd, opcode, id); t.fatal == s.fatal && t.outbox == s.outbox && t.pending == s.pending
  {
  }

  lemma ErrorHandled(s: State, e: Event, fd: int, data: seq<byte>, h: Handler)
    requires s.fatal.None? && e.role == DisplayErrorEvent && Decode(e.args, s.objects, data, fd).Next?
    ensures var t := DispatchEvent(s, e, fd, data, h).0;
            && t.fatal == Some(ErrorOf(Decode(e.args, s.objects, data, fd).s.fields))
            && t.outbox == s.outbox && t.pending == []
  {
    hide Decode, ErrorOf, DoAll;
    var s1 := s.(objects := Decode(e.args, s.objects, data, fd).s.objects);
    var s2 := SetFatal(s1, ErrorOf(Decode(e.args, s.objects, data, fd).s.fields));
    if h.Present? { DeedsKeepFatal(Noted(s2, h), h.deeds); }
  }

  /** Handlers do not replace an error, and write nothing after it. */
  lemma {:induction false} DeedsKeepFatal(s: State, ds: seq<Deed>)
    requires s.fatal.Some? && s.pending == []
    ensures var t := DoAll(s, ds).0; t.fatal == s.fatal && t.outbox == s.outbox && t.pending == []
    decreases |ds|
  {
    hide Allocate, WriteFrame, Encoder.Sendable;
    if ds != [] { DeedsKeepFatal(Do(s, ds[0]).0, ds[1..]); }
  }

  // ---- senders that cannot be dispatched to

  /** What ends a connection before any decoding: an unknown sender, or one whose type has no events.
      The error says which ID it was; the descriptor of the message, or the queue it went back to,
      is closed, and nothing else happens. */
  lemma BadSenderIsFatal(p: Protocol, s: State, f: Frame, fd: int, h: Handler)
    requires s.fatal.None?
    requires f.sender in s.objects ==>
               var obj := s.objects[f.sender];
               InterfaceOf(p, obj.kind).events == [] && (obj.zombie ==> obj.kind == DISPLAY)
    ensures var s' := DispatchFrame(p, s, f, fd, h);
            var e := if f.sender in s.objects then SenderUnsupported(f.sender) else SenderNotFound(f.sender);
            && s' == s.(fatal := Some(e), pending := [], closed := s'.closed)
            && multiset(s'.closed) == multiset(s.closed) + multiset(s.pending) + D.InHand(fd)
  {
    hide HasFD, InterfaceOf, RouteFD, CloseFD, D.InHand;
    if f.sender in s.objects {
      var iface := InterfaceOf(p, s.objects[f.sender].kind);
      var (s1, fd1) := RouteFD(s, iface, f.opcode, fd);
      RoutingMoves(s, iface, f.opcode, fd);
      FailureCloses(s1, fd1, SenderUnsupported(f.sender));
      var closed, here, there := multiset(s.closed), multiset(s1.pending), D.InHand(fd1);
      assert closed + here + there == closed + (here + there);
      assert closed + multiset(s.pending) + D.InHand(fd) == closed + (multiset(s.pending) + D.InHand(fd));
    } else {
      FailureCloses(s, fd, SenderNotFound(f.sender));
    }
  }

  lemma FailureCloses(s: State, fd: int, e: Error)
    requires s.fatal.None?
    ensures var s' := SetFatal(CloseFD(s, fd), e);
            && s' == s.(fatal := Some(e), pending := [], closed := s'.closed)
            && multiset(s'.closed) == multiset(s.closed) + multiset(s.pending) + D.InHand(fd)
  {
    if fd >= 0 { assert multiset([fd]) == multiset{fd}; }
  }

  /** A sender that cannot say which of its events carry descriptors: whatever descriptor is next goes
      to the handler that is called and returns, with an event that has no descriptor argument
      too. */
  lemma UnawareSenderTakesAny(p: Protocol, s: State, f: Frame, fd: int, h: Handler)
    requires s.fatal.None? && Sync.Calls(p, s, f, fd) && !InterfaceOf(p, s.objects[f.sender].kind).fdAware
    requires fd >= 0 && h.Present? && h.deeds == [] && !h.panics
    ensures DispatchFrame(p, s, f, fd, h).handed == s.handed + [fd]
    ensures DispatchFrame(p, s, f, fd, h).pending == s.pending
            || InterfaceOf(p, s.objects[f.sender].kind).events[f.opcode].role == DisplayErrorEvent
  {
    hide Decode, InterfaceOf, ErrorOf, Z.DeletedId, Recovered, HasFD;
  }

  // ---- handlers that panic

  /** The handler that is called panics: by itself, or because no ID is left for a new object. */
  predicate PanicsIn(p: Protocol, s: State, f: Frame, fd: int, h: Handler) {
    && Sync.Calls(p, s, f, fd) && h.Present?
    && (h.panics || DoAll(DispatchFrame(p, s, f, fd, Present([], false, h.notes)), h.deeds).1)
  }

  /** A panic of a handler fails the connection like a panic of the decoder, unless the handler has
      failed it already, and hands nothing over. */
  lemma HandlerPanicIsFatal(p: Protocol, s: State, f: Frame, fd: int, h: Handler)
    requires s.fatal.None? && PanicsIn(p, s, f, fd, h)
    ensures var s' := DispatchFrame(p, s, f, fd, h);
            && s'.fatal.Some? && s'.handed == s.handed
            && (!DisplayErrorFor(p, s, f) && FailsNothing(h.deeds) ==> s'.fatal == Some(DispatchPanic(f.opcode, f.sender)))
  {
    hide Decode, InterfaceOf, HasFD, DispatchEvent, Recovered, DoAll;
    var iface := InterfaceOf(p, s.objects[f.sender].kind);
    var (s1, fd1) := RouteFD(s, iface, f.opcode, fd);
    var e := iface.events[f.opcode];
    InertReturns(s1, e, fd1, f.body, h.notes);
    EventPanics(s1, e, fd1, f.body, h);
    PanicRecovered(DispatchEvent(s1, e, fd1, f.body, h).0, fd1, f.opcode, f.sender);
  }

  predicate DisplayErrorFor(p: Protocol, s: State, f: Frame) {
    f.sender in s.objects &&
    var events := InterfaceOf(p, s.objects[f.sender].kind).events;
    f.opcode < |events| && events[f.opcode].role == DisplayErrorEvent
  }

  /** Deeds that cannot fail the connection. */
  predicate FailsNothing(ds: seq<Deed>) {
    forall i :: 0 <= i < |ds| ==> !ds[i].Fail? && !ds[i].Send?
  }

  lemma PanicRecovered(s: State, fd: int, opcode: nat, id: Word)
    ensures var t := Recovered(s, fd, opcode, id);
            t.handed == s.handed && t.fatal == if s.fatal.Some? then s.fatal else Some(DispatchPanic(opcode, id))
  {
  }

  lemma InertReturns(s: State, e: Event, fd: int, data: seq<byte>, notes: bool)
    requires Decode(e.args, s.objects, data, fd).Next?
    ensures !DispatchEvent(s, e, fd, data, Present([], false, notes)).1
  {
    hide Decode, ErrorOf, Z.DeletedId, Delete, SetFatal, HandOver;
  }

  lemma {:induction false} DeedsFailNothing(s: State, ds: seq<Deed>)
    requires s.fatal.None? && FailsNothing(ds)
    ensures DoAll(s, ds).0.fatal.None?
    decreases |ds|
  {
    hide Allocate;
    if ds != [] {
      assert forall i :: 0 <= i < |ds[1..]| ==> ds[1..][i] == ds[i + 1];
      DeedsFailNothing(Do(s, ds[0]).0, ds[1..]);
    }
  }

  lemma FinishPanics(s: State, fd: int, h: Handler)
    requires h.Present? && (h.panics || DoAll(Finish(s, fd, Present([], false, h.notes)).0, h.deeds).1)
    ensures var (t, panicked) := Finish(s, fd, h);
            && panicked && t.handed == s.handed
            && (s.fatal.None? && FailsNothing(h.deeds) ==> t.fatal.None?)
  {
    hide DoAll, FailsNothing;
    InertFinishes(s, fd, h.notes);
    Delivery.DeedsHanded(Noted(s, h), h.deeds, fd);
    DeedsOnlyClose(Noted(s, h), h.deeds);
    if s.fatal.None? && FailsNothing(h.deeds) { DeedsFailNothing(Noted(s, h), h.deeds); }
  }

  lemma InertFinishes(s: State, fd: int, notes: bool)
    ensures Finish(s, fd, Present([], false, notes)) == (HandOver(Noted(s, Present([], false, notes)), fd), false)
    ensures forall ds, panics :: Noted(s, Present(ds, panics, notes)) == Noted(s, Present([], false, notes))
  {
  }

  lemma EventPanics(s: State, e: Event, fd: int, data: seq<byte>, h: Handler)
    requires Decode(e.args, s.objects, data, fd).Next? && h.Present?
    requires h.panics || DoAll(DispatchEvent(s, e, fd, data, Present([], false, h.notes)).0, h.deeds).1
    ensures var (t, panicked) := DispatchEvent(s, e, fd, data, h);
            && panicked && t.handed == s.handed
            && (s.fatal.None? && e.role != DisplayErrorEvent && FailsNothing(h.deeds) ==> t.fatal.None?)
  {
    hide Decode, Z.DeletedId, HasNewId, CarriesFD, ErrorOf, DoAll, HandOver, Finish, FailsNothing;
    var w := Decode(e.args, s.objects, data, fd).s;
    var s1 := s.(objects := w.objects);
    var s2 := match e.role
      case DeleteIdEvent => Delete(s1, Z.DeletedId(w.fields))
      case DisplayErrorEvent => SetFatal(s1, ErrorOf(w.fields))
      case Plain => s1;
    assert DispatchEvent(s, e, fd, data, h) == Finish(s2, fd, h);
    assert DispatchEvent(s, e, fd, data, Present([], false, h.notes)) == Finish(s2, fd, Present([], false, h.notes));
    FinishPanics(s2, fd, h);
  }

  // ---- handlers that fail the connection

  /** The handler that is called fails the connection with its k-th deed, and has not panicked or
      written before. */
  predicate FailsIn(p: Protocol, s: State, f: Frame, fd: int, h: Handler, k: nat) {
    && Sync.Calls(p, s, f, fd) && h.Present? && k < |h.deeds| && h.deeds[k].Fail? && FailsNothing(h.deeds[..k])
    && !DoAll(DispatchFrame(p, s, f, fd, Present([], false, h.notes)), h.deeds[..k]).1
  }

  lemma {:induction false} DeedsFail(s: State, ds: seq<Deed>, k: nat)
    requires s.fatal.None? && k < |ds| && ds[k].Fail? && FailsNothing(ds[..k]) && !DoAll(s, ds[..k]).1
    ensures DoAll(s, ds).0.fatal == Some(ds[k].e)
    decreases k
  {
    hide Allocate;
    if k == 0 {
      FailedDeeds(SetFatal(s, ds[0].e), ds[1..]);
    } else {
      assert ds[..k][0] == ds[0] && ds[..k][1..] == ds[1..][..k - 1];
      OneDeedFailsNothing(s, ds[0]);
      var init := ds[..k];
      assert forall i :: 0 <= i < |init[1..]| ==> init[1..][i] == init[i + 1];
      DeedsFail(Do(s, ds[0]).0, ds[1..], k - 1);
    }
  }

  lemma OneDeedFailsNothing(s: State, d: Deed)
    requires s.fatal.None? && !d.Fail? && !d.Send?
    ensures Do(s, d).0.fatal.None?
  {
    hide Allocate;
  }

  lemma {:induction false} FailedDeeds(s: State, ds: seq<Deed>)
    requires s.fatal.Some?
    ensures DoAll(s, ds).0.fatal == s.fatal
    decreases |ds|
  {
    hide Allocate, WriteFrame, Encoder.Sendable;
    if ds != [] { FailedDeeds(Do(s, ds[0]).0, ds[1..]); }
  }

  lemma FinishFails(s: State, fd: int, h: Handler, k: nat)
    requires s.fatal.None? && h.Present? && k < |h.deeds| && h.deeds[k].Fail? && FailsNothing(h.deeds[..k])
    requires !DoAll(Finish(s, fd, Present([], false, h.notes)).0, h.deeds[..k]).1
    ensures Finish(s, fd, h).0.fatal == Some(h.deeds[k].e)
  {
    hide DoAll, FailsNothing;
    InertFinishes(s, fd, h.notes);
    Delivery.DeedsHanded(Noted(s, h), h.deeds[..k], fd);
    DeedsFail(Noted(s, h), h.deeds, k);
  }

  /** The error a handler fails the connection with is the sticky one, whatever the handler does
      afterwards, a panic included. */
  lemma HandlerErrorSticks(p: Protocol, s: State, f: Frame, fd: int, h: Handler, k: nat)
    requires s.fatal.None? && FailsIn(p, s, f, fd, h, k) && !DisplayErrorFor(p, s, f)
    ensures DispatchFrame(p, s, f, fd, h).fatal == Some(h.deeds[k].e)
  {
    hide Decode, InterfaceOf, HasFD, DispatchEvent, Recovered, DoAll, FailsNothing;
    var iface := InterfaceOf(p, s.objects[f.sender].kind);
    var (s1, fd1) := RouteFD(s, iface, f.opcode, fd);
    var e := iface.events[f.opcode];
    InertReturns(s1, e, fd1, f.body, h.notes);
    EventFails(s1, e, fd1, f.body, h, k);
    PanicRecovered(DispatchEvent(s1, e, fd1, f.body, h).0, fd1, f.opcode, f.sender);
  }

  lemma EventFails(s: State, e: Event, fd: int, data: seq<byte>, h: Handler, k: nat)
    requires s.fatal.None? && e.role != DisplayErrorEvent && Decode(e.args, s.objects, data, fd).Next? && h.Present?
    requires k < |h.deeds| && h.deeds[k].Fail? && FailsNothing(h.deeds[..k])
    requires !DoAll(DispatchEvent(s, e, fd, data, Present([], false, h.notes)).0, h.deeds[..k]).1
    ensures DispatchEvent(s, e, fd, data, h).0.fatal == Some(h.deeds[k].e)
  {
    hide Decode, Z.DeletedId, HasNewId, CarriesFD, ErrorOf, DoAll, HandOver, Finish, FailsNothing;
    var w := Decode(e.args, s.objects, data, fd).s;
    var s1 := s.(objects := w.objects);
    var s2 := if e.role == DeleteIdEvent then Delete(s1, Z.DeletedId(w.fields)) else s1;
    assert DispatchEvent(s, e, fd, data, h) == Finish(s2, fd, h);
    assert DispatchEvent(s, e, fd, data, Present([], false, h.notes)) == Finish(s2, fd, Present([], false, h.notes));
    FinishFails(s2, fd, h, k);
  }

  // ---- strings and arrays

  /** A string is decoded exactly when its length and its padding are inside the body and it is
      terminated within its length, or is a null string where one is allowed; and what is decoded is
      what stands before the first NUL. */
  lemma StringDecodesExactly(allowNull: bool, w: Walked, data: seq<byte>, fd: int)
    ensures var r := DecodeArg(String(allowNull), w, data, fd);
            r.Next? <==>
              && w.l + 4 <= |data|
              && var n := Uint32(data[w.l..w.l + 4]);
                 var from := w.l + 4;
                 from + PaddedLen(n) <= |data| && ((allowNull && n == 0) || NUL in data[from..from + n])
    ensures var r := DecodeArg(String(allowNull), w, data, fd);
            r.Next? ==>
              var n := Uint32(data[w.l..w.l + 4]);
              && r.s.l == w.l + 4 + PaddedLen(n)
              && var text := r.s.fields[|w.fields|];
                 && r.s.fields == w.fields + [text]
                 && if allowNull && n == 0 then text == StringF(None)
                    else
                      && text.StringF? && text.text.Some? && NUL !in text.text.value
                      && text.text.value + [NUL] <= data[w.l + 4..w.l + 4 + n]
  {
    hide Uint32, FirstNul, CString, PaddedLen;
    if w.l + 4 <= |data| {
      var n := Uint32(data[w.l..w.l + 4]);
      PaddedIsMore(n);
      if w.l + 4 + PaddedLen(n) <= |data| { FirstNulExactly(data[w.l + 4..w.l + 4 + n]); }
    }
  }

  lemma PaddedIsMore(n: nat)
    ensures n <= PaddedLen(n)
  {
  }

  lemma FirstNulExactly(b: seq<byte>)
    ensures FirstNul(b) == |b| <==> NUL !in b
    ensures FirstNul(b) < |b| ==> CString(b) + [NUL] <= b && NUL !in CString(b)
  {
    hide FirstNul;
    var k := FirstNul(b);
    NoneAmong(b, k);
    if k < |b| {
      assert b[k] in b;
      CutThere(b, k);
    } else {
      assert b[..k] == b;
    }
  }

  lemma NoneAmong(b: seq<byte>, k: nat)
    requires k <= |b| && forall j :: 0 <= j < k ==> b[j] != NUL
    ensures NUL !in b[..k]
  {
  }

  lemma CutThere(b: seq<byte>, k: nat)
    requires k < |b| && b[k] == NUL
    ensures b[..k] + [NUL] <= b
  {
    assert b[..k] + [NUL] == b[..k + 1];
  }

  /** An array is decoded exactly when its length and its padding are inside the body. */
  lemma ArrayDecodesExactly(w: Walked, data: seq<byte>, fd: int)
    ensures var r := DecodeArg(Array, w, data, fd);
            if w.l + 4 <= |data| && w.l + 4 + PaddedLen(Uint32(data[w.l..w.l + 4])) <= |data| then
              var n := Uint32(data[w.l..w.l + 4]);
              r == Next(Walked(w.l + 4 + PaddedLen(n), w.fields + [ArrayF(data[w.l + 4..w.l + 4 + n])], w.objects, w.intros))
            else r.Panic?
  {
    hide Uint32, PaddedLen;
    if w.l + 4 <= |data| { PaddedIsMore(Uint32(data[w.l..w.l + 4])); }
  }

  /** Under a zombie a string or an array is skipped whenever its length is inside the body: its
      padding and its terminator are not looked at. */
  lemma AbsorbsExactly(a: Arg, w: Walked, data: seq<byte>)
    requires a.String? || a.Array?
    ensures var r := AbsorbArg(a, w, data);
            if w.l + 4 <= |data| && w.l + 4 + Uint32(data[w.l..w.l + 4]) <= |data| then
              r == Next(w.(l := w.l + 4 + PaddedLen(Uint32(data[w.l..w.l + 4]))))
            else r.Panic?
  {
    hide Uint32, PaddedLen;
  }
}
