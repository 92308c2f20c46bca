/** A connection and an ordered server, run together: calls of the application beside the client's
    steps of the object protocol, and the bytes of the server's messages beside its events. */
module Joint {
  import opened Wire
  import opened Registry
  import opened Signature
  import opened Decoder
  import opened Socket
  import opened Connection
  import opened Sync
  import opened Bridge
  import B = Barrier
  import Delivery
  import Encoder
  import F = Framing
  import P = ObjectProtocol
  import Z = Zombies

  /** A message under way: its frame, and the arguments in it. */
  datatype Post = Post(frame: Frame, vals: seq<Value>)

  /** The connection and the system are two views of one client. posts are the messages the client
      has not dispatched, one for each event in flight; of their bytes those in flying have not
      arrived. issued are the requests. */
  datatype World = World(conn: State, sys: P.System, posts: seq<Post>, flying: seq<byte>, issued: seq<P.Request>)

  /** A request of the application; the destruction of a proxy without one; a step of the server
      with the messages it sends; some bytes that arrive; and a dispatch. */
  datatype Turn =
    | Asks(step: P.Step, b: seq<byte>, oob: seq<byte>)
    | Forgets(id: Word)
    | Serves(step: P.Step, posts: seq<Post>)
    | Arrives(a: Arrival)
    | Dispatches(h: Handler)

  /** What a step adds to the queues. */
  function NewRequests(s: P.System, a: P.Step): seq<P.Request>
    requires P.Enabled(s, a)
  {
    var t := P.Take(s, a);
    if |s.requests| <= |t.requests| then t.requests[|s.requests|..] else []
  }

  function NewEvents(s: P.System, a: P.Step): seq<P.FromServer>
    requires P.Enabled(s, a)
  {
    var t := P.Take(s, a);
    if |s.events| <= |t.events| then t.events[|s.events|..] else []
  }

  function PostBytes(posts: seq<Post>): seq<byte> {
    if posts == [] then [] else F.Bytes(posts[0].frame) + PostBytes(posts[1..])
  }

  ghost predicate EncodesAll(p: Protocol, kinds: Types, posts: seq<Post>, ms: seq<P.FromServer>) {
    && |posts| == |ms|
    && forall i :: 0 <= i < |posts| ==> F.Valid(posts[i].frame) && Encodes(p, kinds, posts[i].frame, posts[i].vals, ms[i])
  }

  /** The calls of the application: a new object is registered before its request is written, and
      a proxy is marked as destroyed after its destructor was. */
  function CallsOf(kinds: Types, next: P.Incarnation, t: Turn): seq<Action> {
    match t
    case Asks(step, b, oob) =>
      (match step
       case ClientCreates(_, _, _) => [DoRegister(kinds(next)), DoWrite(b, oob)]
       case ClientDestroys(id) => [DoWrite(b, oob), DoMarkZombie(id)]
       case _ => [DoWrite(b, oob)])
    case Forgets(id) => [DoMarkZombie(id)]
    case Dispatches(h) => [DoDispatch(h)]
    case _ => []
  }

  /** The step of the object protocol; bytes that arrive are none. */
  function StepsOf(t: Turn): seq<P.Step> {
    match t
    case Asks(step, _, _) => [step]
    case Forgets(id) => [P.ClientForgets(id)]
    case Serves(step, _) => [step]
    case Arrives(_) => []
    case Dispatches(_) => [P.ClientDispatches]
  }

  /** What may happen: the application makes requests that say what the step does, as long as they
      are written; the server sends events of the senders' types; bytes arrive in any fragments;
      and a dispatch, with a handler that only looks, has a whole message to read. */
  ghost predicate Possible(p: Protocol, kinds: Types, w: World, t: Turn) {
    match t
    case Asks(step, b, oob) =>
      && (step.ClientCreates? || step.ClientUses? || step.ClientDestroys?)
      && (step.ClientCreates? ==> kinds(w.sys.next) != DISPLAY)
      && P.Enabled(w.sys, step) && Wrote([b], NewRequests(w.sys, step))
      && Silent(p, w.conn, CallsOf(kinds, w.sys.next, t))
    case Forgets(id) => P.Enabled(w.sys, P.ClientForgets(id))
    case Serves(step, posts) =>
      && (step.ServerHandles? || step.ServerSends? || step.ServerEnds?)
      && P.Enabled(w.sys, step) && EncodesAll(p, kinds, posts, NewEvents(w.sys, step))
    case Arrives(a) => Clean([a]) && a.data <= w.flying
    case Dispatches(h) =>
      && Delivery.Inert(h) && P.Enabled(w.sys, P.ClientDispatches)
      && w.posts != [] && |F.Bytes(w.posts[0].frame)| <= |Stream(w.conn.inbox)|
  }

  ghost function Make(p: Protocol, kinds: Types, w: World, t: Turn): World
    requires Possible(p, kinds, w, t)
  {
    var conn := RunCalls(p, w.conn, CallsOf(kinds, w.sys.next, t));
    match t
    case Asks(step, _, _) =>
      w.(conn := conn, sys := P.Take(w.sys, step), issued := w.issued + NewRequests(w.sys, step))
    case Forgets(id) =>
      w.(conn := conn, sys := P.Take(w.sys, P.ClientForgets(id)))
    case Serves(step, posts) =>
      w.(sys := P.Take(w.sys, step), posts := w.posts + posts, flying := w.flying + PostBytes(posts))
    case Arrives(a) =>
      w.(conn := w.conn.(inbox := w.conn.inbox + [a]), flying := w.flying[|a.data|..])
    case Dispatches(_) =>
      w.(conn := conn, sys := P.Take(w.sys, P.ClientDispatches), posts := w.posts[1..])
  }

  /** A new connection, whose only object is the display. */
  function Dawn(plan: seq<Written>): World {
    World(Register(Initial([], plan), DISPLAY).0, P.START, [], [], [])
  }

  ghost function Play(p: Protocol, kinds: Types, w: World, turns: seq<Turn>): Option<World> {
    if turns == [] then Some(w)
    else
      var n := |turns| - 1;
      var before := Play(p, kinds, w, turns[..n]);
      if before.Some? && Possible(p, kinds, before.value, turns[n]) then Some(Make(p, kinds, before.value, turns[n]))
      else None
  }

  // ---- what every turn keeps

  /** The connection is alive and has the objects, the types and the allocator of the system; what
      has arrived and what is flying are the bytes of the events in flight; and the frames it has
      written are the requests. */
  ghost predicate Sound(p: Protocol, kinds: Types, w: World) {
    && P.Consistent(w.sys)
    && w.conn.fatal.None? && w.conn.ids == w.sys.ids && Agree(kinds, w.sys.proxies, w.conn.objects)
    && Clean(w.conn.inbox) && Stream(w.conn.inbox) + w.flying == PostBytes(w.posts)
    && EncodesAll(p, kinds, w.posts, w.sys.events)
    && Wrote(w.conn.sent, w.issued)
  }

  ghost predicate Sane(p: Protocol, kinds: Types) {
    Z.WellFormed(p) && OnlyOneDisplay(p) && kinds(0) == DISPLAY
  }

  lemma DawnIsSound(p: Protocol, kinds: Types, plan: seq<Written>)
    requires Sane(p, kinds)
    ensures Sound(p, kinds, Dawn(plan))
  {
    P.StartConsistent();
    hide P.Consistent, Z.WellFormed, OnlyOneDisplay;
    var s := Initial([], plan);
    assert PopFree(s.objects, []) == (None, []);
    assert Stream([]) == [];
  }

  // ---- the application's turns

  /** A write that succeeds. */
  lemma WriteSucceeds(s: State, b: seq<byte>, oob: seq<byte>)
    requires WriteMsg(s, b, oob).1.None?
    ensures var t := WriteMsg(s, b, oob).0;
            t == s.(plan := t.plan, outbox := t.outbox, tried := t.tried, sent := s.sent + [b])
  {
    hide WriteFrame, Encoder.Sendable, Accepted;
  }

  /** One call, and two. */
  lemma OneCall(p: Protocol, s: State, a: Action)
    ensures RunCalls(p, s, [a]) == Act(p, s, a).0
    ensures Silent(p, s, [a]) ==> Act(p, s, a).1.None?
  {
    hide Act;
    assert [a][..0] == [];
  }

  lemma TwoCalls(p: Protocol, s: State, a: Action, b: Action)
    ensures RunCalls(p, s, [a, b]) == Act(p, Act(p, s, a).0, b).0
    ensures Silent(p, s, [a, b]) ==> Act(p, s, a).1.None? && Act(p, Act(p, s, a).0, b).1.None?
  {
    hide Act;
    OneCall(p, s, a);
    assert [a, b][..1] == [a] && [a, b][..0] == [];
  }

  /** What a request does to the connection: the objects, the allocator and the frames written. */
  lemma AskedConnection(p: Protocol, kinds: Types, w: World, t: Turn)
    requires t.Asks? && Possible(p, kinds, w, t)
    ensures var conn := Make(p, kinds, w, t).conn;
            var s := if t.step.ClientCreates? then Register(w.conn, kinds(w.sys.next)).0 else w.conn;
            && conn.sent == w.conn.sent + [t.b] && conn.fatal == w.conn.fatal && conn.inbox == w.conn.inbox
            && conn.ids == s.ids
            && conn.objects == if t.step.ClientDestroys? then MarkZombie(w.conn, t.step.id).objects else s.objects
  {
    hide Register, WriteMsg, P.Take, P.Enabled, Wrote, Silent, RunCalls, MarkZombie;
    var s := w.conn;
    var write := DoWrite(t.b, t.oob);
    if t.step.ClientCreates? {
      var kind := kinds(w.sys.next);
      TwoCalls(p, s, DoRegister(kind), write);
      WriteSucceeds(Register(s, kind).0, t.b, t.oob);
      RegisterRest(s, kind);
    } else if t.step.ClientDestroys? {
      TwoCalls(p, s, write, DoMarkZombie(t.step.id));
      WriteSucceeds(s, t.b, t.oob);
      MarkRest(s, WriteMsg(s, t.b, t.oob).0, t.step.id);
    } else {
      OneCall(p, s, write);
      WriteSucceeds(s, t.b, t.oob);
    }
  }

  lemma RegisterRest(s: State, kind: Kind)
    ensures var t := Register(s, kind).0; t == s.(objects := t.objects, ids := t.ids, book := t.book)
  {
    hide Allocate;
  }

  lemma MarkRest(s: State, t: State, id: Word)
    requires t.objects == s.objects
    ensures MarkZombie(t, id) == t.(objects := MarkZombie(s, id).objects)
  {
  }

  /** The two allocators are one. */
  lemma CreateAgrees(kinds: Types, s: State, ps: P.Proxies, inc: P.Incarnation, life: P.Life)
    requires Agree(kinds, ps, s.objects) && s.ids.current >= 1 && (forall id :: id in s.ids.free ==> Recyclable(id))
    requires Allocate(P.Registered(ps), s.ids).Fresh? && kinds(inc) != DISPLAY
    ensures var a := Allocate(P.Registered(ps), s.ids);
            var (s', id) := Register(s, kinds(inc));
            id == Some(a.id) && s'.ids == a.ids && Agree(kinds, ps[a.id := P.ProxyView(inc, life, false)], s'.objects)
  {
    hide Allocate;
    assert P.Registered(ps).Keys == s.objects.Keys;
    Delivery.SameAllocation(P.Registered(ps), s.objects, s.ids);
    P.FreshIsRecyclable(P.Registered(ps), s.ids);
  }

  lemma MarkAgrees(kinds: Types, s: State, ps: P.Proxies, id: Word)
    requires Agree(kinds, ps, s.objects)
    ensures Agree(kinds, P.Zombify(ps, id), MarkZombie(s, id).objects) && MarkZombie(s, id).ids == s.ids
  {
  }

  lemma ConsistentIDs(s: P.System)
    requires P.Consistent(s)
    ensures s.ids.current >= 1 && forall id :: id in s.ids.free ==> Recyclable(id)
  {
  }

  /** What a request does to the system. */
  lemma AskedSystem(s: P.System, a: P.Step)
    requires P.Enabled(s, a) && (a.ClientCreates? || a.ClientUses? || a.ClientDestroys? || a.ClientForgets?)
    ensures var t := P.Take(s, a);
            && t.events == s.events
            && (a.ClientUses? ==> t.proxies == s.proxies && t.ids == s.ids)
            && (a.ClientDestroys? || a.ClientForgets? ==> t.proxies == P.Zombify(s.proxies, a.id) && t.ids == s.ids)
            && (a.ClientCreates? ==>
                 var f := Allocate(P.Registered(s.proxies), s.ids);
                 && f.Fresh? && t.ids == f.ids
                 && t.proxies == s.proxies[f.id := P.ProxyView(s.next, a.life, false)])
  {
    hide Allocate, P.Registered, P.ProxyRefs;
  }

  lemma AsksIsSound(p: Protocol, kinds: Types, w: World, t: Turn)
    requires Sound(p, kinds, w) && t.Asks? && Possible(p, kinds, w, t)
    ensures Sound(p, kinds, Make(p, kinds, w, t))
  {
    hide P.Consistent, P.Take, P.Enabled, Agree, RunCalls, Silent, Wrote, EncodesAll, Register, Allocate, Clean, Stream;
    hide P.Zombify, MarkZombie;
    AskedConnection(p, kinds, w, t);
    AskedSystem(w.sys, t.step);
    P.StepConsistent(w.sys, t.step);
    ConsistentIDs(w.sys);
    WroteMore(w.conn.sent, w.issued, [t.b], NewRequests(w.sys, t.step));
    if t.step.ClientCreates? {
      CreateAgrees(kinds, w.conn, w.sys.proxies, w.sys.next, t.step.life);
    } else if t.step.ClientDestroys? {
      MarkAgrees(kinds, w.conn, w.sys.proxies, t.step.id);
    }
  }

  lemma ForgetsIsSound(p: Protocol, kinds: Types, w: World, id: Word)
    requires Sound(p, kinds, w) && Possible(p, kinds, w, Forgets(id))
    ensures Sound(p, kinds, Make(p, kinds, w, Forgets(id)))
  {
    hide P.Consistent, P.Take, P.Enabled, Agree, RunCalls, Wrote, EncodesAll, Clean, Stream, P.Zombify;
    OneCall(p, w.conn, DoMarkZombie(id));
    AskedSystem(w.sys, P.ClientForgets(id));
    P.StepConsistent(w.sys, P.ClientForgets(id));
    MarkAgrees(kinds, w.conn, w.sys.proxies, id);
  }

  // ---- the server's turns, and the wire

  lemma {:induction false} PostBytesAppend(a: seq<Post>, b: seq<Post>)
    ensures PostBytes(a + b) == PostBytes(a) + PostBytes(b)
    decreases |a|
  {
    hide F.Bytes;
    if a == [] {
      assert a + b == b;
    } else {
      assert (a + b)[1..] == a[1..] + b;
      PostBytesAppend(a[1..], b);
    }
  }

  lemma {:induction false} StreamAppend(inbox: seq<Arrival>, more: seq<Arrival>)
    ensures Stream(inbox + more) == Stream(inbox) + Stream(more)
    decreases |inbox|
  {
    if inbox == [] {
      assert inbox + more == more;
    } else {
      assert (inbox + more)[1..] == inbox[1..] + more;
      StreamAppend(inbox[1..], more);
    }
  }

  lemma EncodesMore(p: Protocol, kinds: Types, posts: seq<Post>, ms: seq<P.FromServer>, more: seq<Post>, ns: seq<P.FromServer>)
    requires EncodesAll(p, kinds, posts, ms) && EncodesAll(p, kinds, more, ns)
    ensures EncodesAll(p, kinds, posts + more, ms + ns)
  {
    hide Encodes, F.Valid;
  }

  lemma ServedSystem(s: P.System, a: P.Step)
    requires P.Enabled(s, a) && (a.ServerHandles? || a.ServerSends? || a.ServerEnds?)
    ensures var t := P.Take(s, a); t.proxies == s.proxies && t.ids == s.ids && t.events == s.events + NewEvents(s, a)
  {
    hide P.IntroRefs, P.AddResources, P.ArgRefs, P.FreshIntros, P.Known;
  }

  lemma ServesIsSound(p: Protocol, kinds: Types, w: World, t: Turn)
    requires Sound(p, kinds, w) && t.Serves? && Possible(p, kinds, w, t)
    ensures Sound(p, kinds, Make(p, kinds, w, t))
  {
    hide P.Consistent, P.Take, P.Enabled, Agree, Wrote, EncodesAll, Clean, Stream, PostBytes, NewEvents;
    ServedSystem(w.sys, t.step);
    P.StepConsistent(w.sys, t.step);
    PostBytesAppend(w.posts, t.posts);
    EncodesMore(p, kinds, w.posts, w.sys.events, t.posts, NewEvents(w.sys, t.step));
    assert Stream(w.conn.inbox) + (w.flying + PostBytes(t.posts)) == (Stream(w.conn.inbox) + w.flying) + PostBytes(t.posts);
  }

  lemma CleanMore(inbox: seq<Arrival>, more: seq<Arrival>)
    requires Clean(inbox) && Clean(more)
    ensures Clean(inbox + more)
  {
  }

  lemma OneArrival(a: Arrival)
    ensures Stream([a]) == a.data
  {
    assert [a][1..] == [];
  }

  lemma ArrivedWorld(p: Protocol, kinds: Types, w: World, a: Arrival)
    requires Possible(p, kinds, w, Arrives(a))
    ensures Clean([a]) && a.data <= w.flying
    ensures Make(p, kinds, w, Arrives(a)) ==
            w.(conn := w.conn.(inbox := w.conn.inbox + [a]), flying := w.flying[|a.data|..])
  {
    hide Clean, Stream, RunCalls;
  }

  lemma ArrivesIsSound(p: Protocol, kinds: Types, w: World, a: Arrival)
    requires Sound(p, kinds, w) && Possible(p, kinds, w, Arrives(a))
    ensures Sound(p, kinds, Make(p, kinds, w, Arrives(a)))
  {
    hide P.Consistent, Agree, Wrote, EncodesAll, Clean, Stream, PostBytes, Make, Possible;
    ArrivedWorld(p, kinds, w, a);
    CleanMore(w.conn.inbox, [a]);
    StreamAppend(w.conn.inbox, [a]);
    OneArrival(a);
    MovedOver(Stream(w.conn.inbox), a.data, w.flying);
  }

  lemma MovedOver(arrived: seq<byte>, data: seq<byte>, flying: seq<byte>)
    requires data <= flying
    ensures arrived + data + flying[|data|..] == arrived + flying
  {
  }

  // ---- dispatches

  /** The next message is read whole, and the bytes behind it are those of the later posts. */
  lemma NextIsRead(p: Protocol, kinds: Types, w: World)
    requires Sound(p, kinds, w) && w.posts != [] && |F.Bytes(w.posts[0].frame)| <= |Stream(w.conn.inbox)|
    ensures var (s, r) := ReadMsg(w.conn);
            && r.Got? && r.frame == w.posts[0].frame
            && s == w.conn.(inbox := s.inbox, pending := s.pending, received := s.received)
            && Clean(s.inbox) && Stream(s.inbox) + w.flying == PostBytes(w.posts[1..])
  {
    hide P.Consistent, Agree, Wrote, Encodes, Clean, Stream, F.Bytes, F.Split, ReadMsg, F.Valid;
    var f := w.posts[0].frame;
    var b := Stream(w.conn.inbox);
    var rest := b[|F.Bytes(f)|..];
    CutAfter(b, w.flying, F.Bytes(f), PostBytes(w.posts[1..]));
    F.SplitFindsFrame(f, rest);
    F.ReadMsgRefinesSplit(w.conn);
  }

  lemma CutAfter(a: seq<byte>, b: seq<byte>, x: seq<byte>, y: seq<byte>)
    requires a + b == x + y && |x| <= |a|
    ensures a == x + a[|x|..] && a[|x|..] + b == y
  {
    assert a[..|x|] == (a + b)[..|x|] == (x + y)[..|x|] == x;
    assert a[|x|..] + b == (a + b)[|x|..] == (x + y)[|x|..] == y;
  }

  /** The ID a message takes away is that of the protocol's delete_id. */
  lemma DeletesThat(p: Protocol, kinds: Types, s: State, ps: P.Proxies, f: Frame, vals: seq<Value>, m: P.FromServer, fd: int)
    requires Z.WellFormed(p) && Agree(kinds, ps, s.objects)
    requires P.Deliverable(ps, m) && Encodes(p, kinds, f, vals, m)
    ensures Deletes(p, s, f, fd) == if m.DeleteId? then Some(m.id) else None
  {
    hide Decode, Z.DeletedId, WireBody, NewIDs, NewKinds, AllTyped, HasFD, Agree, P.Deliverable;
    match m {
      case Event(sender, args, intros) =>
        SenderKind(kinds, ps, s.objects, sender, args, intros);
      case DeleteId(id, inc) =>
        DisplayHeld(kinds, ps, s.objects, id, inc);
        AgreeParts(kinds, ps, s.objects);
        assert p[DISPLAY].events[f.opcode] == InterfaceOf(p, DISPLAY).events[f.opcode];
        DeleteDecodes(s.objects, id, RouteFD(s, InterfaceOf(p, DISPLAY), f.opcode, fd).1);
    }
  }

  lemma SameRecycling(ps: P.Proxies, o: Objects, ids: Ids, id: Word)
    requires Same(ps, o)
    ensures DeleteID(P.Registered(ps), ids, id).1 == DeleteID(o, ids, id).1
  {
  }

  /** One message: its delivery succeeds, and both sides go on together. */
  lemma MessageDelivered(p: Protocol, kinds: Types, s: State, ps: P.Proxies, f: Frame, vals: seq<Value>, m: P.FromServer,
                         fd: int, h: Handler)
    requires Z.WellFormed(p) && OnlyOneDisplay(p) && Agree(kinds, ps, s.objects) && s.fatal.None? && Delivery.Inert(h)
    requires P.Deliverable(ps, m) && Encodes(p, kinds, f, vals, m) && |f.body| <= MAX_FRAME
    ensures var t := DispatchFrame(p, s, f, fd, h);
            var ps' := P.ClientReceives(ps, m);
            && t.fatal.None? && t.inbox == s.inbox && t.sent == s.sent
            && ps'.Some? && Agree(kinds, ps'.value, t.objects)
            && t.ids == if m.DeleteId? then DeleteID(P.Registered(ps), s.ids, m.id).1 else s.ids
  {
    hide DispatchFrame, Deletes, DeleteID, Agree, Encodes, P.Deliverable, P.ClientReceives, Z.Deliver, Z.WellFormed;
    hide OnlyOneDisplay, InterfaceOf, HasFD;
    var message := Delivery.MessageOf(p, s, f, fd, h);
    EncodedIsReceived(p, kinds, s.objects, ps, f, vals, m, message.handled, message.fd);
    Delivery.FrameIsDelivery(p, s, f, fd, h);
    Delivery.Recycles(p, s, f, fd, h);
    DeletesThat(p, kinds, s, ps, f, vals, m, fd);
    AgreeParts(kinds, ps, s.objects);
    if m.DeleteId? { SameRecycling(ps, s.objects, s.ids, m.id); }
  }

  /** What a dispatch does to the system. */
  lemma DispatchedSystem(s: P.System)
    requires P.Consistent(s) && P.Enabled(s, P.ClientDispatches)
    ensures s.events != [] && P.Deliverable(s.proxies, s.events[0])
    ensures var t := P.Take(s, P.ClientDispatches);
            var m := s.events[0];
            && P.ClientReceives(s.proxies, m) == Some(t.proxies) && t.events == s.events[1..]
            && t.ids == if m.DeleteId? then DeleteID(P.Registered(s.proxies), s.ids, m.id).1 else s.ids
  {
    hide P.Agreed, P.UsesFit, P.Deliverable, P.ClientReceives, DeleteID, P.Registered, P.Settled;
  }

  lemma EncodesTail(p: Protocol, kinds: Types, posts: seq<Post>, ms: seq<P.FromServer>)
    requires EncodesAll(p, kinds, posts, ms) && posts != []
    ensures EncodesAll(p, kinds, posts[1..], ms[1..])
    ensures F.Valid(posts[0].frame) && Encodes(p, kinds, posts[0].frame, posts[0].vals, ms[0])
  {
    hide Encodes, F.Valid;
  }

  /** The next dispatch returns nil, and both sides go on together. */
  lemma DispatchGoesOn(p: Protocol, kinds: Types, w: World, h: Handler)
    requires Sane(p, kinds) && Sound(p, kinds, w) && Possible(p, kinds, w, Dispatches(h))
    ensures Dispatch(p, w.conn, h).1.None?
    ensures Make(p, kinds, w, Dispatches(h)).conn == Dispatch(p, w.conn, h).0
    ensures Sound(p, kinds, Make(p, kinds, w, Dispatches(h)))
  {
    hide P.Consistent, P.Take, P.Enabled, Agree, RunCalls, Wrote, EncodesAll, Encodes, Clean, Stream, PostBytes, F.Bytes;
    hide P.Deliverable, P.ClientReceives, DeleteID, P.Registered, ReadMsg, DispatchFrame, Z.WellFormed, OnlyOneDisplay;
    OneCall(p, w.conn, DoDispatch(h));
    DispatchedSystem(w.sys);
    P.StepConsistent(w.sys, P.ClientDispatches);
    NextIsRead(p, kinds, w);
    EncodesTail(p, kinds, w.posts, w.sys.events);
    var (s, r) := ReadMsg(w.conn);
    MessageDelivered(p, kinds, s, w.sys.proxies, r.frame, w.posts[0].vals, w.sys.events[0], r.fd, h);
  }

  // ---- runs

  lemma TurnIsSound(p: Protocol, kinds: Types, w: World, t: Turn)
    requires Sane(p, kinds) && Sound(p, kinds, w) && Possible(p, kinds, w, t)
    ensures Sound(p, kinds, Make(p, kinds, w, t))
  {
    hide Sound, Make, Possible, Sane;
    match t {
      case Asks(_, _, _) => AsksIsSound(p, kinds, w, t);
      case Forgets(id) => ForgetsIsSound(p, kinds, w, id);
      case Serves(_, _) => ServesIsSound(p, kinds, w, t);
      case Arrives(a) => ArrivesIsSound(p, kinds, w, a);
      case Dispatches(h) => DispatchGoesOn(p, kinds, w, h);
    }
  }

  lemma {:induction false} EveryWorldIsSound(p: Protocol, kinds: Types, w: World, turns: seq<Turn>)
    requires Sane(p, kinds) && Sound(p, kinds, w)
    ensures Play(p, kinds, w, turns).Some? ==> Sound(p, kinds, Play(p, kinds, w, turns).value)
  {
    hide Sound, Make, Possible, Sane;
    if turns != [] {
      var n := |turns| - 1;
      EveryWorldIsSound(p, kinds, w, turns[..n]);
      var before := Play(p, kinds, w, turns[..n]);
      if before.Some? && Possible(p, kinds, before.value, turns[n]) { TurnIsSound(p, kinds, before.value, turns[n]); }
    }
  }

  /** The main result: let a connection and an ordered server run together from the start, with
      creations, uses and destructions, IDs reused, and bytes that arrive in any fragments. No
      dispatch that has a message to read fails: it returns nil, and the objects on the connection
      are then those of the object protocol after its event. */
  lemma NoDispatchFails(p: Protocol, kinds: Types, plan: seq<Written>, turns: seq<Turn>, h: Handler)
    requires Sane(p, kinds) && Play(p, kinds, Dawn(plan), turns).Some?
    requires Possible(p, kinds, Play(p, kinds, Dawn(plan), turns).value, Dispatches(h))
    ensures var w := Play(p, kinds, Dawn(plan), turns).value;
            && w.conn.fatal.None? && Agree(kinds, w.sys.proxies, w.conn.objects)
            && w.sys.events != [] && P.Deliverable(w.sys.proxies, w.sys.events[0])
            && var (conn, e) := Dispatch(p, w.conn, h);
               && e.None? && conn.fatal.None?
               && var ps := P.ClientReceives(w.sys.proxies, w.sys.events[0]);
                  ps.Some? && Agree(kinds, ps.value, conn.objects)
  {
    hide P.Consistent, P.Take, P.Enabled, Agree, RunCalls, Wrote, EncodesAll, Clean, Stream, PostBytes, F.Bytes;
    hide P.Deliverable, P.ClientReceives, DeleteID, P.Registered, ReadMsg, DispatchFrame, Z.WellFormed, OnlyOneDisplay;
    DawnIsSound(p, kinds, plan);
    EveryWorldIsSound(p, kinds, Dawn(plan), turns);
    var w := Play(p, kinds, Dawn(plan), turns).value;
    DispatchedSystem(w.sys);
    DispatchGoesOn(p, kinds, w, h);
  }

  // ---- such a run is a run of the object protocol

  function StepsAll(turns: seq<Turn>): seq<P.Step> {
    if turns == [] then [] else StepsAll(turns[..|turns| - 1]) + StepsOf(turns[|turns| - 1])
  }

  /** The requests a step issues, in the system and in its log. */
  lemma RecordIssues(h: B.History, a: P.Step)
    requires P.Enabled(h.now, a)
    ensures B.Record(h, a).now == P.Take(h.now, a)
    ensures B.Record(h, a).issued ==
            if a.ClientCreates? || a.ClientUses? || a.ClientDestroys? then h.issued + NewRequests(h.now, a) else h.issued
  {
    hide Allocate, P.ProxyRefs, P.Registered, P.ClientReceives, P.AddResources, P.IntroRefs, P.ArgRefs, P.FreshIntros;
    hide P.AllHeld, DeleteID, P.Known;
    var t := P.Take(h.now, a);
    if !(a.ClientCreates? || a.ClientUses? || a.ClientDestroys?) {
      var rs := if a.ServerHandles? then h.now.requests[1..] else h.now.requests;
      assert t.requests[|rs|..] == [];
      assert h.issued + [] == h.issued;
    }
  }

  /** What the client and the server did is a run of the object protocol, with the same requests:
      whatever is proved of those runs holds of the connection. */
  lemma {:induction false} PlayIsRun(p: Protocol, kinds: Types, plan: seq<Written>, turns: seq<Turn>)
    requires Play(p, kinds, Dawn(plan), turns).Some?
    ensures var w := Play(p, kinds, Dawn(plan), turns).value;
            && P.TakeAll(StepsAll(turns)) == Some(w.sys)
            && B.Recall(StepsAll(turns)).Some? && B.Asked(StepsAll(turns)) == w.issued
  {
    hide P.Enabled, P.Take, B.Record, RunCalls, EncodesAll, Wrote, Silent, F.Bytes, Stream, Clean;
    hide NewRequests, NewEvents, PostBytes;
    if turns != [] {
      var n := |turns| - 1;
      PlayIsRun(p, kinds, plan, turns[..n]);
      var w := Play(p, kinds, Dawn(plan), turns[..n]).value;
      var run := StepsAll(turns[..n]);
      B.RecallIsRun(run);
      OneTurn(p, kinds, w, turns[n], run);
    }
  }

  lemma OneTurn(p: Protocol, kinds: Types, w: World, t: Turn, run: seq<P.Step>)
    requires P.TakeAll(run) == Some(w.sys) && B.Recall(run).Some? && B.Asked(run) == w.issued
    requires Possible(p, kinds, w, t)
    ensures var w' := Make(p, kinds, w, t);
            && P.TakeAll(run + StepsOf(t)) == Some(w'.sys)
            && B.Recall(run + StepsOf(t)).Some? && B.Asked(run + StepsOf(t)) == w'.issued
  {
    hide P.Enabled, P.Take, B.Record, RunCalls, EncodesAll, Wrote, Silent, F.Bytes, Stream, Clean;
    hide NewRequests, NewEvents, PostBytes, P.TakeAll, B.Recall;
    B.RecallIsRun(run);
    if t.Arrives? {
      assert run + StepsOf(t) == run;
    } else {
      var a := StepsOf(t)[0];
      B.RecallStep(run, a);
      RecordIssues(B.Recall(run).value, a);
    }
  }

  /** When nothing is in flight, the connection has exactly the objects of the server: the same IDs
      of the client, and besides them only destroyed proxies at server IDs. */
  lemma QuietConnectionAgrees(p: Protocol, kinds: Types, plan: seq<Written>, turns: seq<Turn>)
    requires Sane(p, kinds) && Play(p, kinds, Dawn(plan), turns).Some?
    requires var w := Play(p, kinds, Dawn(plan), turns).value; w.posts == [] && w.sys.requests == []
    ensures var w := Play(p, kinds, Dawn(plan), turns).value;
            var o, rs := w.conn.objects, w.sys.resources;
            && (forall id: Word :: id < FIRST_SERVER_ID ==> (id in o <==> id in rs))
            && (forall id :: id in rs ==> id in o && o[id].kind == kinds(rs[id].inc))
            && (forall id :: id in o && id !in rs ==> o[id].zombie)
  {
    hide P.Consistent, RunCalls, Wrote, Encodes, Clean, Stream, PostBytes, Play, Sane, P.TakeAll, StepsAll;
    DawnIsSound(p, kinds, plan);
    EveryWorldIsSound(p, kinds, Dawn(plan), turns);
    PlayIsRun(p, kinds, plan, turns);
    P.QuietSidesAgree(StepsAll(turns));
  }
}
