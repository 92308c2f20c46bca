/** The object protocol between the client and an ordered server: one FIFO queue each way, and
    IDs that both sides reuse. Every object ever created gets an incarnation number that neither
    side can see; messages on the wire name objects by ID only. */
module ObjectProtocol {
  import opened Wire
  import opened Registry

  type Incarnation = nat

  /** How an object ends: by the client's destructor request, by the server on its own as a
      wl_callback does, or never, as the display and interfaces without a destructor. */
  datatype Life = ByClient | ByServer | Never

  datatype ProxyView = ProxyView(inc: Incarnation, life: Life, zombie: bool)

  datatype Resource = Resource(inc: Incarnation, life: Life)

  datatype Ref = Ref(id: Word, inc: Incarnation)

  /** Requests: from an object, with object arguments and perhaps an ID for a new object; or an
      object's own destructor. The incarnation is what the sender means; the receiver acts on
      the ID alone. */
  datatype Request =
    | New(sender: Ref, args: seq<Ref>, id: Word, inc: Incarnation, life: Life)
    | Use(sender: Ref, args: seq<Ref>)
    | Destroy(id: Word, inc: Incarnation)

  /** The objects a request comes from and is about. */
  function About(q: Request): seq<Ref> {
    if q.Destroy? then [Ref(q.id, q.inc)] else [q.sender] + q.args
  }

  /** Events: from a sender, with object arguments and with new objects; or a delete_id. */
  datatype FromServer =
    | Event(sender: Ref, args: seq<Ref>, intros: seq<(Ref, Life)>)
    | DeleteId(id: Word, inc: Incarnation)

  type Proxies = map<Word, ProxyView>

  datatype System = System(
    proxies: Proxies, ids: Ids,             // the client
    resources: map<Word, Resource>,         // the server
    requests: seq<Request>,                 // client to server
    events: seq<FromServer>,                // server to client
    next: Incarnation,
    broken: bool)                           // a fatal error on one of the sides

  /** The allocator sees the registered IDs only. */
  function Registered(ps: Proxies): Objects {
    map id | id in ps :: Obj(0, ps[id].zombie)
  }

  // ---- the client's side of an event, by IDs alone

  /** The new_id arguments of an event: registered live, or as zombies under a zombie sender.
      None is the panic of RegisterWithID. */
  function BindAll(ps: Proxies, intros: seq<(Ref, Life)>, zombie: bool): Option<Proxies>
    decreases |intros|
  {
    if intros == [] then Some(ps)
    else
      var (r, life) := intros[0];
      if r.id < FIRST_SERVER_ID || (r.id in ps && !ps[r.id].zombie) then None
      else BindAll(ps[r.id := ProxyView(r.inc, life, zombie)], intros[1..], zombie)
  }

  /** What the client does with a message; None ends the connection. */
  function ClientReceives(ps: Proxies, m: FromServer): Option<Proxies> {
    match m
    case Event(sender, _, intros) =>
      if sender.id !in ps then None
      else BindAll(ps, intros, ps[sender.id].zombie && sender.id != DISPLAY_ID)
    case DeleteId(id, _) => if DISPLAY_ID !in ps then None else Some(ps - {id})
  }

  // ---- steps

  datatype Step =
    | ClientCreates(sender: Word, args: seq<Word>, life: Life)
    | ClientUses(sender: Word, args: seq<Word>)
    | ClientDestroys(id: Word)
    | ClientForgets(id: Word)
    | ClientDispatches
    | ServerHandles
    | ServerSends(sender: Word, args: seq<Word>, intros: seq<(Word, Life)>)
    | ServerEnds(id: Word)

  function IntroRefs(intros: seq<(Word, Life)>, first: Incarnation): (r: seq<(Ref, Life)>)
    ensures |r| == |intros|
  {
    seq(|intros|, i requires 0 <= i < |intros| => (Ref(intros[i].0, first + i), intros[i].1))
  }

  function ArgRefs(resources: map<Word, Resource>, args: seq<Word>): seq<Ref>
    requires forall i :: 0 <= i < |args| ==> args[i] in resources
  {
    seq(|args|, i requires 0 <= i < |args| => Ref(args[i], resources[args[i]].inc))
  }

  function ProxyRefs(ps: Proxies, args: seq<Word>): (r: seq<Ref>)
    requires forall i :: 0 <= i < |args| ==> args[i] in ps
    ensures |r| == |args|
  {
    seq(|args|, i requires 0 <= i < |args| => Ref(args[i], ps[args[i]].inc))
  }

  /** A live object that the server does not end on its own, so that it may be used. */
  predicate Held(ps: Proxies, id: Word) {
    id in ps && !ps[id].zombie && ps[id].life != ByServer
  }

  predicate AllHeld(ps: Proxies, sender: Word, args: seq<Word>) {
    Held(ps, sender) && forall i :: 0 <= i < |args| ==> Held(ps, args[i])
  }

  /** The server has all objects of a request. */
  predicate Known(rs: map<Word, Resource>, q: Request) {
    forall i :: 0 <= i < |About(q)| ==> About(q)[i].id in rs
  }

  function AddResources(rs: map<Word, Resource>, intros: seq<(Ref, Life)>): map<Word, Resource>
    decreases |intros|
  {
    if intros == [] then rs
    else AddResources(rs[intros[0].0.id := Resource(intros[0].0.inc, intros[0].1)], intros[1..])
  }

  /** The server introduces IDs of its own range that it does not use, each once. */
  predicate FreshIntros(rs: map<Word, Resource>, intros: seq<(Word, Life)>) {
    && (forall i :: 0 <= i < |intros| ==> intros[i].0 >= FIRST_SERVER_ID && intros[i].0 !in rs)
    && (forall i, j :: 0 <= i < j < |intros| ==> intros[i].0 != intros[j].0)
  }

  /** What the application, the library and an ordered server may do next. The server sends only
      from and about objects it still has, so nothing from an object follows its delete_id; it
      ends its own objects only when the client's destroy arrives, and reuses their IDs only
      then. The client uses and destroys what it has not destroyed. */
  predicate Enabled(s: System, a: Step) {
    !s.broken &&
    match a
    case ClientCreates(sender, args, _) =>
      Allocate(Registered(s.proxies), s.ids).Fresh? && AllHeld(s.proxies, sender, args)
    case ClientUses(sender, args) => AllHeld(s.proxies, sender, args)
    case ClientDestroys(id) => Held(s.proxies, id) && s.proxies[id].life == ByClient
    case ClientForgets(id) => id in s.proxies
    case ClientDispatches => s.events != []
    case ServerHandles => s.requests != []
    case ServerSends(sender, args, intros) =>
      && sender in s.resources
      && (forall i :: 0 <= i < |args| ==> args[i] in s.resources)
      && FreshIntros(s.resources, intros)
    case ServerEnds(id) => id in s.resources && id < FIRST_SERVER_ID && s.resources[id].life == ByServer
  }

  function Zombify(ps: Proxies, id: Word): Proxies {
    if id in ps then ps[id := ps[id].(zombie := true)] else ps
  }

  /** The server ends an object; a client's ID is acknowledged. */
  function Acknowledge(events: seq<FromServer>, id: Word, inc: Incarnation): seq<FromServer> {
    if id < FIRST_SERVER_ID then events + [DeleteId(id, inc)] else events
  }

  function Take(s: System, a: Step): System
    requires Enabled(s, a)
  {
    match a
    case ClientCreates(sender, args, life) =>
      var f := Allocate(Registered(s.proxies), s.ids);
      var from := Ref(sender, s.proxies[sender].inc);
      s.(proxies := s.proxies[f.id := ProxyView(s.next, life, false)], ids := f.ids,
         requests := s.requests + [New(from, ProxyRefs(s.proxies, args), f.id, s.next, life)], next := s.next + 1)
    case ClientUses(sender, args) =>
      s.(requests := s.requests + [Use(Ref(sender, s.proxies[sender].inc), ProxyRefs(s.proxies, args))])
    case ClientDestroys(id) =>
      s.(proxies := Zombify(s.proxies, id), requests := s.requests + [Destroy(id, s.proxies[id].inc)])
    case ClientForgets(id) => s.(proxies := Zombify(s.proxies, id))
    case ClientDispatches =>
      var m := s.events[0];
      var ps := ClientReceives(s.proxies, m);
      var s' := s.(events := s.events[1..]);
      if ps.None? then s'.(broken := true)
      else if m.DeleteId? then
        s'.(proxies := ps.value, ids := DeleteID(Registered(s.proxies), s.ids, m.id).1)
      else s'.(proxies := ps.value)
    case ServerHandles =>
      var s' := s.(requests := s.requests[1..]);
      (match s.requests[0]
       case New(_, _, id, inc, life) =>
         if !Known(s.resources, s.requests[0]) || id in s.resources || id >= FIRST_SERVER_ID then s'.(broken := true)
         else s'.(resources := s.resources[id := Resource(inc, life)])
       case Use(_, _) => s'.(broken := !Known(s.resources, s.requests[0]))
       case Destroy(id, _) =>
         if id !in s.resources then s'.(broken := true)
         else s'.(resources := s.resources - {id}, events := Acknowledge(s.events, id, s.resources[id].inc)))
    case ServerSends(sender, args, intros) =>
      var refs := IntroRefs(intros, s.next);
      s.(resources := AddResources(s.resources, refs), next := s.next + |intros|,
         events := s.events + [Event(Ref(sender, s.resources[sender].inc), ArgRefs(s.resources, args), refs)])
    case ServerEnds(id) =>
      s.(resources := s.resources - {id}, events := Acknowledge(s.events, id, s.resources[id].inc))
  }

  /** The display is object 1 on both sides. */
  const START := System(map[DISPLAY_ID := ProxyView(0, Never, false)], Ids([], 1),
                        map[DISPLAY_ID := Resource(0, Never)], [], [], 1, false)

  /** The state after a run, or None when some step of it could not be taken. */
  function TakeAll(run: seq<Step>): Option<System> {
    if run == [] then Some(START)
    else
      var s := TakeAll(run[..|run| - 1]);
      if s.Some? && Enabled(s.value, run[|run| - 1]) then Some(Take(s.value, run[|run| - 1])) else None
  }

  // ---- what every run keeps

  /** The proxy at a reference's ID is the object the sender meant. */
  predicate Hits(ps: Proxies, r: Ref) {
    r.id in ps && ps[r.id].inc == r.inc
  }

  /** A message that can be delivered, and that reaches the objects it was sent about. */
  predicate Deliverable(ps: Proxies, m: FromServer) {
    match m
    case Event(sender, args, intros) =>
      && Hits(ps, sender)
      && (forall i :: 0 <= i < |args| ==> Hits(ps, args[i]))
      && (forall i :: 0 <= i < |intros| ==>
           intros[i].0.id >= FIRST_SERVER_ID && (intros[i].0.id in ps ==> ps[intros[i].0.id].zombie))
      && (forall i, j :: 0 <= i < j < |intros| ==> intros[i].0.id != intros[j].0.id)
    case DeleteId(id, inc) =>
      && Recyclable(id) && Hits(ps, Ref(id, inc)) && DISPLAY_ID in ps
      && (ps[id].zombie || ps[id].life == ByServer)
  }

  predicate AllDeliverable(ps: Proxies, ms: seq<FromServer>)
    decreases |ms|
  {
    ms == [] ||
    (&& Deliverable(ps, ms[0])
     && ClientReceives(ps, ms[0]).Some?
     && AllDeliverable(ClientReceives(ps, ms[0]).value, ms[1..]))
  }

  /** The proxies once everything in flight has arrived. */
  function Settled(ps: Proxies, ms: seq<FromServer>): Proxies
    requires AllDeliverable(ps, ms)
    decreases |ms|
  {
    if ms == [] then ps else Settled(ClientReceives(ps, ms[0]).value, ms[1..])
  }

  predicate PendingNew(rs: seq<Request>, id: Word, inc: Incarnation) {
    exists i :: 0 <= i < |rs| && rs[i].New? && rs[i].id == id && rs[i].inc == inc
  }

  /** Requests in flight name what the server will find when it gets to them. */
  ghost predicate RequestsFit(rs: seq<Request>, f: Proxies, live: map<Word, Resource>) {
    && (forall i :: 0 <= i < |rs| && rs[i].New? ==>
         && Recyclable(rs[i].id) && rs[i].id !in live
         && rs[i].id in f && f[rs[i].id].inc == rs[i].inc && f[rs[i].id].life == rs[i].life)
    && (forall i, j :: 0 <= i < j < |rs| && rs[i].New? && rs[j].New? ==> rs[i].id != rs[j].id)
    && (forall i :: 0 <= i < |rs| && rs[i].Destroy? ==>
         && rs[i].id in f && f[rs[i].id].inc == rs[i].inc && f[rs[i].id].zombie && f[rs[i].id].life == ByClient
         && (rs[i].id in live || PendingNew(rs[..i], rs[i].id, rs[i].inc)))
    && (forall i, j :: 0 <= i < j < |rs| && rs[i].Destroy? && rs[j].Destroy? ==> rs[i].id != rs[j].id)
  }

  predicate PendingDestroy(rs: seq<Request>, id: Word) {
    exists i :: 0 <= i < |rs| && rs[i].Destroy? && rs[i].id == id
  }

  /** The two sides agree up to what is in flight, with f the settled proxies. */
  ghost predicate Agreed(rs: seq<Request>, f: Proxies, live: map<Word, Resource>) {
    && RequestsFit(rs, f, live)
    && 0 !in f && DISPLAY_ID in live && live[DISPLAY_ID].life == Never
    && (forall id :: id in live ==> id in f && f[id].inc == live[id].inc && f[id].life == live[id].life)
    && (forall id :: id in f && id >= FIRST_SERVER_ID && id !in live ==> f[id].zombie)
    && (forall id :: Held(f, id) ==> (id in live || PendingNew(rs, id, f[id].inc)) && !PendingDestroy(rs, id))
    && (forall id :: id in f && id < FIRST_SERVER_ID ==> id in live || PendingNew(rs, id, f[id].inc))
  }

  predicate PendingLasting(rs: seq<Request>, id: Word, inc: Incarnation) {
    exists i :: 0 <= i < |rs| && rs[i].New? && rs[i].id == id && rs[i].inc == inc && rs[i].life != ByServer
  }

  /** After some requests the server will have an object, and not end it on its own. */
  ghost predicate Reached(rs: seq<Request>, live: map<Word, Resource>, r: Ref) {
    && !PendingDestroy(rs, r.id)
    && ((r.id in live && live[r.id].inc == r.inc && live[r.id].life != ByServer) || PendingLasting(rs, r.id, r.inc))
  }

  predicate Names(q: Request, r: Ref) {
    !q.Destroy? && (r == q.sender || r in q.args)
  }

  /** The objects that requests in flight are about will be there. */
  ghost predicate UsesFit(rs: seq<Request>, live: map<Word, Resource>) {
    forall i, r: Ref :: 0 <= i < |rs| && Names(rs[i], r) ==> Reached(rs[..i], live, r)
  }

  ghost predicate Consistent(s: System) {
    && !s.broken
    && (forall id :: id in s.ids.free ==> Recyclable(id))
    && s.ids.current >= 1
    && AllDeliverable(s.proxies, s.events)
    && Agreed(s.requests, Settled(s.proxies, s.events), s.resources)
    && UsesFit(s.requests, s.resources)
  }

  // ---- introductions

  function IntroIds(intros: seq<(Ref, Life)>): set<Word> {
    set i | 0 <= i < |intros| :: intros[i].0.id
  }

  predicate Introduced(intros: seq<(Ref, Life)>, id: Word) {
    id in IntroIds(intros)
  }

  predicate DistinctIntros(intros: seq<(Ref, Life)>) {
    forall i, j :: 0 <= i < j < |intros| ==> intros[i].0.id != intros[j].0.id
  }

  predicate AllBindable(ps: Proxies, intros: seq<(Ref, Life)>) {
    forall i :: 0 <= i < |intros| ==>
      intros[i].0.id >= FIRST_SERVER_ID && (intros[i].0.id in ps ==> ps[intros[i].0.id].zombie)
  }

  /** The proxies, and the resources, that some introductions stand for. */
  function ProxiesOf(intros: seq<(Ref, Life)>, z: bool): Proxies
    decreases |intros|
  {
    if intros == [] then map[]
    else map[intros[0].0.id := ProxyView(intros[0].0.inc, intros[0].1, z)] + ProxiesOf(intros[1..], z)
  }

  function ResourcesOf(intros: seq<(Ref, Life)>): map<Word, Resource>
    decreases |intros|
  {
    if intros == [] then map[]
    else map[intros[0].0.id := Resource(intros[0].0.inc, intros[0].1)] + ResourcesOf(intros[1..])
  }

  lemma IntroIdsHead(intros: seq<(Ref, Life)>)
    requires intros != []
    ensures IntroIds(intros) == {intros[0].0.id} + IntroIds(intros[1..])
  {
    var more := intros[1..];
    forall id
      ensures id in IntroIds(intros) <==> id == intros[0].0.id || id in IntroIds(more)
    {
      if id in IntroIds(intros) {
        var i :| 0 <= i < |intros| && intros[i].0.id == id;
        if i > 0 { assert more[i - 1] == intros[i]; }
      }
      if id in IntroIds(more) {
        var i :| 0 <= i < |more| && more[i].0.id == id;
        assert intros[i + 1] == more[i];
      }
    }
  }

  /** The proxies and the resources have the same IDs and match. */
  lemma {:induction false} IntrosMatch(intros: seq<(Ref, Life)>, z: bool)
    ensures ProxiesOf(intros, z).Keys == ResourcesOf(intros).Keys == IntroIds(intros)
    ensures forall id :: id in IntroIds(intros) ==>
              ProxiesOf(intros, z)[id] == ProxyView(ResourcesOf(intros)[id].inc, ResourcesOf(intros)[id].life, z)
    decreases |intros|
  {
    if intros != [] {
      IntrosMatch(intros[1..], z);
      IntroIdsHead(intros);
    }
  }

  lemma HeadIsDistinct(intros: seq<(Ref, Life)>)
    requires DistinctIntros(intros) && intros != []
    ensures DistinctIntros(intros[1..]) && intros[0].0.id !in IntroIds(intros[1..])
  {
    var more := intros[1..];
    assert forall j :: 0 <= j < |more| ==> more[j] == intros[j + 1];
  }

  lemma {:induction false} IntroAt(intros: seq<(Ref, Life)>, i: nat)
    requires DistinctIntros(intros) && i < |intros|
    ensures var r := ResourcesOf(intros); intros[i].0.id in r && r[intros[i].0.id] == Resource(intros[i].0.inc, intros[i].1)
    decreases |intros|
  {
    var more := intros[1..];
    HeadIsDistinct(intros);
    IntrosMatch(more, false);
    if i > 0 {
      assert more[i - 1] == intros[i];
      IntroAt(more, i - 1);
    }
  }

  /** Introductions replace what was at their IDs and touch nothing else. */
  lemma {:induction false} BindAllResult(ps: Proxies, intros: seq<(Ref, Life)>, z: bool)
    requires DistinctIntros(intros) && AllBindable(ps, intros)
    ensures BindAll(ps, intros, z) == Some(ps + ProxiesOf(intros, z))
    decreases |intros|
  {
    if intros == [] {
      assert ps + map[] == ps;
    } else {
      var head, more := intros[0], intros[1..];
      var one: Proxies := map[head.0.id := ProxyView(head.0.inc, head.1, z)];
      assert forall i :: 0 <= i < |more| ==> more[i] == intros[i + 1];
      assert ps[head.0.id := ProxyView(head.0.inc, head.1, z)] == ps + one;
      BindAllResult(ps + one, more, z);
      assert (ps + one) + ProxiesOf(more, z) == ps + (one + ProxiesOf(more, z));
    }
  }

  lemma {:induction false} AddResourcesResult(rs: map<Word, Resource>, intros: seq<(Ref, Life)>)
    ensures AddResources(rs, intros) == rs + ResourcesOf(intros)
    decreases |intros|
  {
    if intros == [] {
      assert rs + map[] == rs;
    } else {
      var head, more := intros[0], intros[1..];
      var one: map<Word, Resource> := map[head.0.id := Resource(head.0.inc, head.1)];
      assert rs[head.0.id := Resource(head.0.inc, head.1)] == rs + one;
      AddResourcesResult(rs + one, more);
      assert (rs + one) + ResourcesOf(more) == rs + (one + ResourcesOf(more));
    }
  }

  /** Whether an event's new objects are zombies from the start. */
  predicate UnderZombie(ps: Proxies, sender: Ref)
    requires sender.id in ps
  {
    ps[sender.id].zombie && sender.id != DISPLAY_ID
  }

  /** A deliverable message is delivered, and this is what becomes of the proxies. */
  lemma DeliverableIsDelivered(ps: Proxies, m: FromServer)
    requires Deliverable(ps, m)
    ensures ClientReceives(ps, m) == match m
            case Event(sender, _, intros) => Some(ps + ProxiesOf(intros, UnderZombie(ps, sender)))
            case DeleteId(id, _) => Some(ps - {id})
    ensures m.Event? ==> forall id :: id in IntroIds(m.intros) ==> id >= FIRST_SERVER_ID && (id in ps ==> ps[id].zombie)
  {
    if m.Event? { BindAllResult(ps, m.intros, UnderZombie(ps, m.sender)); }
  }

  lemma UnionFresh(ps: Proxies, more: Proxies, id: Word, x: ProxyView)
    requires id !in more
    ensures ps[id := x] + more == (ps + more)[id := x]
  {
  }

  lemma UnionZombier(ps: Proxies, ps': Proxies, more: Proxies, more': Proxies)
    requires Zombier(ps, ps') && Zombier(more, more')
    ensures Zombier(ps + more, ps' + more')
  {
    assert (ps + more).Keys == ps.Keys + more.Keys;
    assert (ps' + more').Keys == ps'.Keys + more'.Keys;
  }

  lemma IntrosZombier(intros: seq<(Ref, Life)>, z: bool, z': bool)
    requires z ==> z'
    ensures Zombier(ProxiesOf(intros, z), ProxiesOf(intros, z'))
  {
    hide ProxiesOf, ResourcesOf, IntroIds;
    IntrosMatch(intros, z);
    IntrosMatch(intros, z');
  }

  // ---- the queue of events

  lemma {:induction false} SettleOneMore(ps: Proxies, ms: seq<FromServer>, m: FromServer)
    requires AllDeliverable(ps, ms) && Deliverable(Settled(ps, ms), m)
    ensures AllDeliverable(ps, ms + [m])
    ensures ClientReceives(Settled(ps, ms), m).Some? && Settled(ps, ms + [m]) == ClientReceives(Settled(ps, ms), m).value
    decreases |ms|
  {
    hide Deliverable, ClientReceives;
    DeliverableIsDelivered(Settled(ps, ms), m);
    var all := ms + [m];
    if ms == [] {
      assert all[1..] == [];
    } else {
      assert all[1..] == ms[1..] + [m] && all[0] == ms[0];
      SettleOneMore(ClientReceives(ps, ms[0]).value, ms[1..], m);
    }
  }

  /** Client IDs are never introduced by events. */
  lemma {:induction false} SettlingOnlyRemoves(ps: Proxies, ms: seq<FromServer>)
    requires AllDeliverable(ps, ms)
    ensures forall id :: id in Settled(ps, ms) && id < FIRST_SERVER_ID ==> id in ps && Settled(ps, ms)[id] == ps[id]
    decreases |ms|
  {
    if ms != [] {
      hide BindAll, Settled;
      DeliverRemoves(ps, ms[0]);
      SettlingOnlyRemoves(ClientReceives(ps, ms[0]).value, ms[1..]);
      SettledTail(ps, ms);
    } else {
      SettledNone(ps);
    }
  }

  lemma SettledTail(ps: Proxies, ms: seq<FromServer>)
    requires ms != [] && AllDeliverable(ps, ms)
    ensures Settled(ps, ms) == Settled(ClientReceives(ps, ms[0]).value, ms[1..])
  {
  }

  lemma SettledNone(ps: Proxies)
    ensures AllDeliverable(ps, []) && Settled(ps, []) == ps
  {
  }

  lemma DeliverRemoves(ps: Proxies, m: FromServer)
    requires Deliverable(ps, m) && ClientReceives(ps, m).Some?
    ensures var ps' := ClientReceives(ps, m).value;
            forall id :: id in ps' && id < FIRST_SERVER_ID ==> id in ps && ps'[id] == ps[id]
  {
    DeliverableIsDelivered(ps, m);
    if m.Event? { IntrosMatch(m.intros, UnderZombie(ps, m.sender)); }
  }

  /** A client ID that is not registered is in no message: registering it changes nothing else. */
  lemma DeliverFresh(ps: Proxies, m: FromServer, id: Word, x: ProxyView)
    requires Deliverable(ps, m) && ClientReceives(ps, m).Some? && id !in ps && id < FIRST_SERVER_ID
    ensures Deliverable(ps[id := x], m)
    ensures ClientReceives(ps[id := x], m) == Some(ClientReceives(ps, m).value[id := x])
    ensures id !in ClientReceives(ps, m).value
  {
    hide BindAll, ProxiesOf, ResourcesOf, IntroIds;
    var ps' := ps[id := x];
    DeliverableIsDelivered(ps, m);
    FreshDeliverable(ps, m, id, x);
    DeliverableIsDelivered(ps', m);
    match m {
      case Event(sender, args, intros) =>
        var z := UnderZombie(ps, sender);
        IntrosMatch(intros, z);
        UnionFresh(ps, ProxiesOf(intros, z), id, x);
      case DeleteId(d, _) =>
        assert ps' - {d} == (ps - {d})[id := x];
    }
  }

  lemma FreshDeliverable(ps: Proxies, m: FromServer, id: Word, x: ProxyView)
    requires Deliverable(ps, m) && id !in ps && id < FIRST_SERVER_ID
    ensures Deliverable(ps[id := x], m)
  {
  }

  lemma {:induction false} SettleFresh(ps: Proxies, ms: seq<FromServer>, id: Word, x: ProxyView)
    requires AllDeliverable(ps, ms) && id !in ps && id < FIRST_SERVER_ID
    ensures AllDeliverable(ps[id := x], ms)
    ensures Settled(ps[id := x], ms) == Settled(ps, ms)[id := x]
    decreases |ms|
  {
    hide Deliverable, ClientReceives;
    if ms != [] {
      DeliverFresh(ps, ms[0], id, x);
      SettleFresh(ClientReceives(ps, ms[0]).value, ms[1..], id, x);
    }
  }

  /** The same proxies, more of them destroyed. */
  ghost predicate Zombier(ps: Proxies, ps': Proxies) {
    && ps.Keys == ps'.Keys
    && (forall id :: id in ps ==>
         ps[id].inc == ps'[id].inc && ps[id].life == ps'[id].life && (ps[id].zombie ==> ps'[id].zombie))
  }

  lemma DeliverZombier(ps: Proxies, ps': Proxies, m: FromServer)
    requires Deliverable(ps, m) && ClientReceives(ps, m).Some? && Zombier(ps, ps')
    ensures Deliverable(ps', m) && ClientReceives(ps', m).Some?
    ensures Zombier(ClientReceives(ps, m).value, ClientReceives(ps', m).value)
  {
    hide BindAll, ProxiesOf, ResourcesOf, IntroIds;
    DeliverableIsDelivered(ps, m);
    ZombierDeliverable(ps, ps', m);
    DeliverableIsDelivered(ps', m);
    if m.Event? {
      var z, z' := UnderZombie(ps, m.sender), UnderZombie(ps', m.sender);
      IntrosZombier(m.intros, z, z');
      UnionZombier(ps, ps', ProxiesOf(m.intros, z), ProxiesOf(m.intros, z'));
    }
  }

  lemma ZombierDeliverable(ps: Proxies, ps': Proxies, m: FromServer)
    requires Deliverable(ps, m) && Zombier(ps, ps')
    ensures Deliverable(ps', m)
  {
  }

  lemma {:induction false} SettleZombier(ps: Proxies, ps': Proxies, ms: seq<FromServer>)
    requires AllDeliverable(ps, ms) && Zombier(ps, ps')
    ensures AllDeliverable(ps', ms) && Zombier(Settled(ps, ms), Settled(ps', ms))
    decreases |ms|
  {
    hide Deliverable, ClientReceives, Zombier;
    if ms != [] {
      DeliverZombier(ps, ps', ms[0]);
      SettleZombier(ClientReceives(ps, ms[0]).value, ClientReceives(ps', ms[0]).value, ms[1..]);
    }
  }

  /** Nothing in flight touches an object that is held. */
  lemma DeliverHeld(ps: Proxies, ps': Proxies, m: FromServer, id: Word)
    requires Deliverable(ps, m) && ClientReceives(ps, m).Some? && Held(ps, id)
    requires Zombier(ps, ps') && ClientReceives(ps', m).Some? && Deliverable(ps', m)
    ensures id in ClientReceives(ps, m).value && ClientReceives(ps, m).value[id] == ps[id]
    ensures id in ClientReceives(ps', m).value && ClientReceives(ps', m).value[id] == ps'[id]
  {
    hide BindAll, ProxiesOf, ResourcesOf, IntroIds;
    DeliverableIsDelivered(ps, m);
    DeliverableIsDelivered(ps', m);
    if m.Event? {
      IntrosMatch(m.intros, UnderZombie(ps, m.sender));
      IntrosMatch(m.intros, UnderZombie(ps', m.sender));
    }
  }

  lemma {:induction false} SettleHeld(ps: Proxies, ps': Proxies, ms: seq<FromServer>, id: Word)
    requires AllDeliverable(ps, ms) && AllDeliverable(ps', ms) && Zombier(ps, ps') && Held(ps, id)
    ensures id in Settled(ps, ms) && Settled(ps, ms)[id] == ps[id]
    ensures id in Settled(ps', ms) && Settled(ps', ms)[id] == ps'[id]
    decreases |ms|
  {
    hide Deliverable, ClientReceives, Zombier;
    if ms != [] {
      HeldIsIn(ps, ps', id);
      DeliverHeld(ps, ps', ms[0], id);
      DeliverZombier(ps, ps', ms[0]);
      SettleHeld(ClientReceives(ps, ms[0]).value, ClientReceives(ps', ms[0]).value, ms[1..], id);
    } else {
      HeldIsIn(ps, ps', id);
    }
  }

  lemma HeldIsIn(ps: Proxies, ps': Proxies, id: Word)
    requires Zombier(ps, ps') && id in ps
    ensures id in ps'
  {
  }

  // ---- requests in flight

  lemma PendingNewPrefix(rs: seq<Request>, r: Request, id: Word, inc: Incarnation)
    requires PendingNew(rs, id, inc)
    ensures PendingNew(rs + [r], id, inc)
  {
    var i :| 0 <= i < |rs| && rs[i].New? && rs[i].id == id && rs[i].inc == inc;
    assert (rs + [r])[i] == rs[i];
  }

  /** One more request at the end. */
  lemma RequestsFitMore(rs: seq<Request>, r: Request, f: Proxies, live: map<Word, Resource>)
    requires RequestsFit(rs, f, live)
    requires match r
             case New(_, _, id, inc, life) =>
               && Recyclable(id) && id !in live && id in f && f[id].inc == inc && f[id].life == life
               && (forall i :: 0 <= i < |rs| && rs[i].New? ==> rs[i].id != id)
             case Use(_, _) => true
             case Destroy(id, inc) =>
               && id in f && f[id].inc == inc && f[id].zombie && f[id].life == ByClient && !PendingDestroy(rs, id)
               && (id in live || PendingNew(rs, id, inc))
    ensures RequestsFit(rs + [r], f, live)
  {
    hide PendingNew;
    var more := rs + [r];
    forall i | 0 <= i < |more|
      ensures more[..i] == rs[..i]
    {
    }
    assert rs[..|rs|] == rs;
  }

  /** The first request was handled: a new object is live, or a destroyed one is gone. */
  lemma RequestsFitLess(rs: seq<Request>, f: Proxies, live: map<Word, Resource>, f': Proxies, live': map<Word, Resource>)
    requires rs != [] && RequestsFit(rs, f, live)
    requires match rs[0]
             case New(_, _, id, inc, life) => f' == f && live' == live[id := Resource(inc, life)]
             case Use(_, _) => f' == f && live' == live
             case Destroy(id, _) => live' == live - {id} && (f' == f || f' == f - {id}) && id in live
    ensures RequestsFit(rs[1..], f', live')
  {
    var less := rs[1..];
    assert forall i :: 0 <= i < |less| ==> less[i] == rs[i + 1];
    forall i | 0 <= i < |less| && less[i].Destroy?
      ensures less[i].id in live' || PendingNew(less[..i], less[i].id, less[i].inc)
      ensures less[i].id in f'
    {
      if less[i].id !in live' {
        assert rs[i + 1].Destroy?;
        var j :| 0 <= j < |rs[..i + 1]| && rs[..i + 1][j].New?
          && rs[..i + 1][j].id == less[i].id && rs[..i + 1][j].inc == less[i].inc;
        assert rs[j].New?;
        if j > 0 { assert less[..i][j - 1] == rs[j]; }
      }
    }
  }

  lemma PendingLess(rs: seq<Request>, id: Word, inc: Incarnation)
    requires rs != []
    ensures PendingNew(rs, id, inc) ==> PendingNew(rs[1..], id, inc) || (rs[0].New? && rs[0].id == id && rs[0].inc == inc)
    ensures PendingDestroy(rs[1..], id) ==> PendingDestroy(rs, id)
  {
    assert forall i :: 0 <= i < |rs[1..]| ==> rs[1..][i] == rs[i + 1];
    if PendingNew(rs, id, inc) {
      var i :| 0 <= i < |rs| && rs[i].New? && rs[i].id == id && rs[i].inc == inc;
      if i > 0 { assert rs[1..][i - 1] == rs[i]; }
    }
  }

  lemma PendingMore(rs: seq<Request>, r: Request, id: Word, inc: Incarnation)
    ensures PendingNew(rs, id, inc) ==> PendingNew(rs + [r], id, inc)
    ensures r.New? && r.id == id && r.inc == inc ==> PendingNew(rs + [r], id, inc)
    ensures PendingDestroy(rs + [r], id) <==> PendingDestroy(rs, id) || (r.Destroy? && r.id == id)
  {
    var more := rs + [r];
    if PendingNew(rs, id, inc) { PendingNewPrefix(rs, r, id, inc); }
    assert more[|rs|] == r;
    if PendingDestroy(rs, id) {
      var i :| 0 <= i < |rs| && rs[i].Destroy? && rs[i].id == id;
      assert more[i] == rs[i];
    }
    if PendingDestroy(more, id) {
      var i :| 0 <= i < |more| && more[i].Destroy? && more[i].id == id;
      if i < |rs| { assert rs[i] == more[i]; }
    }
  }

  // ---- requests about objects

  lemma LastingIsNew(rs: seq<Request>, f: Proxies, live: map<Word, Resource>, id: Word)
    requires RequestsFit(rs, f, live) && Held(f, id) && PendingNew(rs, id, f[id].inc)
    ensures PendingLasting(rs, id, f[id].inc)
  {
    var i :| 0 <= i < |rs| && rs[i].New? && rs[i].id == id && rs[i].inc == f[id].inc;
    assert rs[i].life == f[id].life;
  }

  /** One more request, about objects the client holds. */
  lemma UsesFitMore(rs: seq<Request>, q: Request, f: Proxies, live: map<Word, Resource>)
    requires Agreed(rs, f, live) && UsesFit(rs, live)
    requires forall r: Ref :: Names(q, r) ==> Held(f, r.id) && f[r.id].inc == r.inc
    ensures UsesFit(rs + [q], live)
  {
    hide RequestsFit, PendingDestroy, PendingNew, PendingLasting, Names;
    var more := rs + [q];
    forall i, r: Ref | 0 <= i < |more| && Names(more[i], r)
      ensures Reached(more[..i], live, r)
    {
      assert more[..i] == rs[..i];
      if i == |rs| {
        assert rs[..i] == rs;
        if r.id !in live { LastingIsNew(rs, f, live, r.id); }
      } else {
        assert Reached(rs[..i], live, r);
      }
    }
  }

  lemma LastingLess(rs: seq<Request>, id: Word, inc: Incarnation)
    requires rs != []
    ensures PendingLasting(rs, id, inc) ==>
              || PendingLasting(rs[1..], id, inc)
              || (rs[0].New? && rs[0].id == id && rs[0].inc == inc && rs[0].life != ByServer)
  {
    if PendingLasting(rs, id, inc) {
      var i :| 0 <= i < |rs| && rs[i].New? && rs[i].id == id && rs[i].inc == inc && rs[i].life != ByServer;
      if i > 0 { assert rs[1..][i - 1] == rs[i]; }
    }
  }

  lemma ReachedLess(q: Request, rs: seq<Request>, live: map<Word, Resource>, live': map<Word, Resource>, r: Ref)
    requires Reached([q] + rs, live, r)
    requires match q
             case New(_, _, id, inc, life) => id !in live && live' == live[id := Resource(inc, life)]
             case Use(_, _) => live' == live
             case Destroy(id, _) => live' == live - {id}
    ensures Reached(rs, live', r)
  {
    var all := [q] + rs;
    assert all[1..] == rs;
    PendingLess(all, r.id, r.inc);
    if q.Destroy? { assert all[0] == q && r.id != q.id; }
    LastingLess(all, r.id, r.inc);
  }

  /** The first request was handled. */
  lemma UsesFitLess(rs: seq<Request>, live: map<Word, Resource>, live': map<Word, Resource>)
    requires rs != [] && UsesFit(rs, live)
    requires match rs[0]
             case New(_, _, id, inc, life) => id !in live && live' == live[id := Resource(inc, life)]
             case Use(_, _) => live' == live
             case Destroy(id, _) => live' == live - {id}
    ensures UsesFit(rs[1..], live')
  {
    hide Names, Reached;
    var less := rs[1..];
    forall i, r: Ref | 0 <= i < |less| && Names(less[i], r)
      ensures Reached(less[..i], live', r)
    {
      assert less[i] == rs[i + 1];
      assert Reached(rs[..i + 1], live, r);
      assert rs[..i + 1] == [rs[0]] + less[..i];
      ReachedLess(rs[0], less[..i], live, live', r);
    }
  }

  /** Objects that the server ends on its own, and new objects, do not matter. */
  lemma UsesFitLive(rs: seq<Request>, live: map<Word, Resource>, live': map<Word, Resource>)
    requires UsesFit(rs, live)
    requires forall id :: id in live && live[id].life != ByServer ==> id in live' && live'[id] == live[id]
    ensures UsesFit(rs, live')
  {
    hide Names, PendingDestroy, PendingLasting;
    forall i, r: Ref | 0 <= i < |rs| && Names(rs[i], r)
      ensures Reached(rs[..i], live', r)
    {
      assert Reached(rs[..i], live, r);
    }
  }

  /** The head of the queue is about what the client meant. */
  lemma UsesHit(rs: seq<Request>, live: map<Word, Resource>)
    requires UsesFit(rs, live) && rs != [] && !rs[0].Destroy?
    ensures forall i :: 0 <= i < |About(rs[0])| ==>
              About(rs[0])[i].id in live && live[About(rs[0])[i].id].inc == About(rs[0])[i].inc
  {
    assert rs[..0] == [];
    forall i | 0 <= i < |About(rs[0])|
      ensures About(rs[0])[i].id in live && live[About(rs[0])[i].id].inc == About(rs[0])[i].inc
    {
      assert Names(rs[0], About(rs[0])[i]);
      assert Reached(rs[..0], live, About(rs[0])[i]);
    }
  }

  // ---- the steps

  lemma CreateAgreed(rs: seq<Request>, f: Proxies, live: map<Word, Resource>, q: Request)
    requires Agreed(rs, f, live) && q.New? && q.id !in f && Recyclable(q.id)
    ensures Agreed(rs + [q], f[q.id := ProxyView(q.inc, q.life, false)], live)
  {
    hide PendingNew, PendingDestroy;
    var id := q.id;
    var f' := f[id := ProxyView(q.inc, q.life, false)];
    assert RequestsFit(rs, f', live);
    RequestsFitMore(rs, q, f', live);
    forall x: Word | x in f' && (Held(f', x) || x < FIRST_SERVER_ID)
      ensures x in live || PendingNew(rs + [q], x, f'[x].inc)
      ensures Held(f', x) ==> !PendingDestroy(rs + [q], x)
    {
      PendingMore(rs, q, x, f'[x].inc);
      if x == id { NoDestroyOfUnknown(rs, f, live, id); }
    }
  }

  lemma NoDestroyOfUnknown(rs: seq<Request>, f: Proxies, live: map<Word, Resource>, id: Word)
    requires RequestsFit(rs, f, live) && id !in f
    ensures !PendingDestroy(rs, id)
  {
  }

  lemma RequestsFitZombier(rs: seq<Request>, f: Proxies, f': Proxies, live: map<Word, Resource>)
    requires RequestsFit(rs, f, live) && Zombier(f, f')
    ensures RequestsFit(rs, f', live)
  {
    hide PendingNew;
  }

  lemma ForgetAgreed(rs: seq<Request>, f: Proxies, f': Proxies, live: map<Word, Resource>)
    requires Agreed(rs, f, live) && Zombier(f, f')
    ensures Agreed(rs, f', live)
  {
    hide PendingNew, PendingDestroy, RequestsFit;
    RequestsFitZombier(rs, f, f', live);
  }

  lemma DestroyAgreed(rs: seq<Request>, f: Proxies, f': Proxies, live: map<Word, Resource>, id: Word)
    requires Agreed(rs, f, live) && Zombier(f, f') && Held(f, id) && f[id].life == ByClient && f'[id].zombie
    ensures Agreed(rs + [Destroy(id, f[id].inc)], f', live)
  {
    hide PendingNew, PendingDestroy, RequestsFit;
    var r := Destroy(id, f[id].inc);
    ForgetAgreed(rs, f, f', live);
    RequestsFitMore(rs, r, f', live);
    forall x: Word | x in f' && (Held(f', x) || x < FIRST_SERVER_ID)
      ensures x in live || PendingNew(rs + [r], x, f'[x].inc)
      ensures Held(f', x) ==> !PendingDestroy(rs + [r], x)
    {
      PendingMore(rs, r, x, f'[x].inc);
    }
  }

  lemma UseAgreed(rs: seq<Request>, f: Proxies, live: map<Word, Resource>, q: Request)
    requires Agreed(rs, f, live) && q.Use?
    ensures Agreed(rs + [q], f, live)
  {
    hide PendingNew, PendingDestroy, RequestsFit;
    RequestsFitMore(rs, q, f, live);
    forall x: Word | x in f && (Held(f, x) || x < FIRST_SERVER_ID)
      ensures x in live || PendingNew(rs + [q], x, f[x].inc)
      ensures Held(f, x) ==> !PendingDestroy(rs + [q], x)
    {
      PendingMore(rs, q, x, f[x].inc);
    }
  }

  lemma UseHandledAgreed(rs: seq<Request>, f: Proxies, live: map<Word, Resource>)
    requires Agreed(rs, f, live) && rs != [] && rs[0].Use?
    ensures Agreed(rs[1..], f, live)
  {
    RequestsFitLess(rs, f, live, f, live);
    hide PendingNew, PendingDestroy, RequestsFit;
    forall x: Word | x in f && (Held(f, x) || x < FIRST_SERVER_ID)
      ensures x in live || PendingNew(rs[1..], x, f[x].inc)
      ensures Held(f, x) ==> !PendingDestroy(rs[1..], x)
    {
      PendingLess(rs, x, f[x].inc);
    }
  }

  lemma NewHandledAgreed(rs: seq<Request>, f: Proxies, live: map<Word, Resource>)
    requires Agreed(rs, f, live) && rs != [] && rs[0].New?
    ensures Recyclable(rs[0].id) && rs[0].id !in live
    ensures Agreed(rs[1..], f, live[rs[0].id := Resource(rs[0].inc, rs[0].life)])
  {
    var live' := live[rs[0].id := Resource(rs[0].inc, rs[0].life)];
    assert Recyclable(rs[0].id) && rs[0].id !in live;
    RequestsFitLess(rs, f, live, f, live');
    hide PendingNew, PendingDestroy, RequestsFit;
    forall x: Word | x in f && (Held(f, x) || x < FIRST_SERVER_ID)
      ensures x in live' || PendingNew(rs[1..], x, f[x].inc)
      ensures Held(f, x) ==> !PendingDestroy(rs[1..], x)
    {
      PendingLess(rs, x, f[x].inc);
    }
    assert rs[0].id in f && f[rs[0].id].inc == rs[0].inc && f[rs[0].id].life == rs[0].life by {
      NewIsRegistered(rs, f, live);
    }
  }

  lemma NewIsRegistered(rs: seq<Request>, f: Proxies, live: map<Word, Resource>)
    requires RequestsFit(rs, f, live) && rs != [] && rs[0].New?
    ensures rs[0].id in f && f[rs[0].id].inc == rs[0].inc && f[rs[0].id].life == rs[0].life
  {
  }

  /** The head of the queue destroys what the client meant. */
  lemma DestroyHits(rs: seq<Request>, f: Proxies, live: map<Word, Resource>)
    requires Agreed(rs, f, live) && rs != [] && rs[0].Destroy?
    ensures var id := rs[0].id;
            && id in live && live[id].inc == rs[0].inc && id != DISPLAY_ID && id != 0
            && id in f && f[id].zombie && f[id].inc == rs[0].inc && f[id].life == ByClient
  {
    assert !PendingNew(rs[..0], rs[0].id, rs[0].inc);
  }

  lemma DestroyHandledAgreed(rs: seq<Request>, f: Proxies, live: map<Word, Resource>)
    requires Agreed(rs, f, live) && rs != [] && rs[0].Destroy?
    ensures var id := rs[0].id;
            Agreed(rs[1..], if id < FIRST_SERVER_ID then f - {id} else f, live - {id})
  {
    DestroyHits(rs, f, live);
    var id := rs[0].id;
    var f' := if id < FIRST_SERVER_ID then f - {id} else f;
    RequestsFitLess(rs, f, live, f', live - {id});
    hide PendingNew, PendingDestroy, RequestsFit;
    forall x: Word | x in f' && (Held(f', x) || x < FIRST_SERVER_ID)
      ensures x in live - {id} || PendingNew(rs[1..], x, f'[x].inc)
      ensures Held(f', x) ==> !PendingDestroy(rs[1..], x)
    {
      PendingLess(rs, x, f'[x].inc);
    }
  }

  lemma RequestsFitEnd(rs: seq<Request>, f: Proxies, live: map<Word, Resource>, id: Word)
    requires RequestsFit(rs, f, live) && id in live && id in f && f[id].life == ByServer
    ensures RequestsFit(rs, f - {id}, live - {id})
  {
    hide PendingNew;
  }

  lemma EndAgreed(rs: seq<Request>, f: Proxies, live: map<Word, Resource>, id: Word)
    requires Agreed(rs, f, live) && id in live && id < FIRST_SERVER_ID && live[id].life == ByServer
    ensures Agreed(rs, f - {id}, live - {id})
  {
    RequestsFitEnd(rs, f, live, id);
    hide PendingNew, PendingDestroy, RequestsFit;
  }

  lemma RequestsFitIntro(rs: seq<Request>, f: Proxies, live: map<Word, Resource>, f': Proxies,
                         live': map<Word, Resource>, intros: seq<(Ref, Life)>)
    requires RequestsFit(rs, f, live)
    requires forall id: Word :: id in f && !Introduced(intros, id) ==> id in f' && f'[id] == f[id]
    requires forall id: Word :: id in live' <==> id in live || Introduced(intros, id)
    requires forall id: Word :: Introduced(intros, id) ==> id >= FIRST_SERVER_ID && id !in live
    ensures RequestsFit(rs, f', live')
  {
    hide Introduced;
    forall i | 0 <= i < |rs| && rs[i].Destroy?
      ensures !Introduced(intros, rs[i].id)
    {
      if rs[i].id !in live {
        var j :| 0 <= j < |rs[..i]| && rs[..i][j].New? && rs[..i][j].id == rs[i].id && rs[..i][j].inc == rs[i].inc;
        assert rs[j].New?;
      }
    }
  }

  lemma SendAgreed(rs: seq<Request>, f: Proxies, live: map<Word, Resource>, intros: seq<(Ref, Life)>, z: bool)
    requires Agreed(rs, f, live) && DistinctIntros(intros) && AllBindable(f, intros)
    requires forall i :: 0 <= i < |intros| ==> intros[i].0.id !in live
    ensures var r := BindAll(f, intros, z);
            r.Some? && Agreed(rs, r.value, AddResources(live, intros))
  {
    hide BindAll, AddResources, ProxiesOf, ResourcesOf;
    BindAllResult(f, intros, z);
    AddResourcesResult(live, intros);
    IntrosMatch(intros, z);
    forall id | id in IntroIds(intros)
      ensures id >= FIRST_SERVER_ID && id !in live
    {
      var i :| 0 <= i < |intros| && intros[i].0.id == id;
    }
    UnionAgreed(rs, f, live, intros, ProxiesOf(intros, z), ResourcesOf(intros));
  }

  lemma UnionAgreed(rs: seq<Request>, f: Proxies, live: map<Word, Resource>, intros: seq<(Ref, Life)>, ps: Proxies,
                    res: map<Word, Resource>)
    requires Agreed(rs, f, live) && ps.Keys == res.Keys == IntroIds(intros)
    requires forall id :: id in ps ==> ps[id].inc == res[id].inc && ps[id].life == res[id].life
    requires forall id :: id in IntroIds(intros) ==> id >= FIRST_SERVER_ID && id !in live
    ensures Agreed(rs, f + ps, live + res)
  {
    hide IntroIds, PendingNew;
    var f', live' := f + ps, live + res;
    assert live'.Keys == live.Keys + IntroIds(intros) && f'.Keys == f.Keys + IntroIds(intros);
    RequestsFitIntro(rs, f, live, f', live', intros);
    hide RequestsFit;
    forall id | id in IntroIds(intros)
      ensures !PendingDestroy(rs, id)
    {
      IntroducedNotDestroyed(rs, f, live, intros, id);
    }
  }

  lemma IntroducedNotDestroyed(rs: seq<Request>, f: Proxies, live: map<Word, Resource>, intros: seq<(Ref, Life)>, id: Word)
    requires RequestsFit(rs, f, live) && Introduced(intros, id)
    requires id >= FIRST_SERVER_ID && id !in live
    ensures !PendingDestroy(rs, id)
  {
  }

  // ---- consistency of the whole system

  lemma IntroRefsDistinct(rs: map<Word, Resource>, intros: seq<(Word, Life)>, first: Incarnation)
    requires FreshIntros(rs, intros)
    ensures var refs := IntroRefs(intros, first);
            DistinctIntros(refs) && forall i :: 0 <= i < |refs| ==> refs[i].0.id >= FIRST_SERVER_ID && refs[i].0.id !in rs
  {
  }

  lemma SendUses(rs: seq<Request>, live: map<Word, Resource>, intros: seq<(Ref, Life)>)
    requires UsesFit(rs, live) && forall i :: 0 <= i < |intros| ==> intros[i].0.id !in live
    ensures UsesFit(rs, AddResources(live, intros))
  {
    hide AddResources, ResourcesOf, UsesFit;
    AddResourcesResult(live, intros);
    IntrosMatch(intros, false);
    UsesFitLive(rs, live, AddResources(live, intros));
  }

  lemma SendConsistent(s: System, a: Step)
    requires Consistent(s) && a.ServerSends? && Enabled(s, a)
    ensures Consistent(Take(s, a))
  {
    hide RequestsFit, AllDeliverable, Settled, BindAll, AddResources, UsesFit;
    var f := Settled(s.proxies, s.events);
    var refs := IntroRefs(a.intros, s.next);
    IntroRefsDistinct(s.resources, a.intros, s.next);
    var m := Event(Ref(a.sender, s.resources[a.sender].inc), ArgRefs(s.resources, a.args), refs);
    assert AllBindable(f, refs);
    assert Deliverable(f, m);
    SettleOneMore(s.proxies, s.events, m);
    SendAgreed(s.requests, f, s.resources, refs, f[a.sender].zombie && a.sender != DISPLAY_ID);
    SendUses(s.requests, s.resources, refs);
  }

  lemma AcknowledgeConsistent(s: System, id: Word, rs: seq<Request>)
    requires Consistent(s) && id in s.resources && id != DISPLAY_ID && id != 0
    requires var f := Settled(s.proxies, s.events);
             && (f[id].zombie || f[id].life == ByServer)
             && UsesFit(rs, s.resources - {id})
             && Agreed(rs, if id < FIRST_SERVER_ID then f - {id} else f, s.resources - {id})
    ensures Consistent(s.(requests := rs, resources := s.resources - {id},
                          events := Acknowledge(s.events, id, s.resources[id].inc)))
  {
    hide RequestsFit, AllDeliverable, Settled, UsesFit;
    var f := Settled(s.proxies, s.events);
    if id < FIRST_SERVER_ID {
      var m := DeleteId(id, s.resources[id].inc);
      assert Deliverable(f, m);
      SettleOneMore(s.proxies, s.events, m);
    }
  }

  lemma HandleConsistent(s: System)
    requires Consistent(s) && s.requests != []
    ensures Consistent(Take(s, ServerHandles))
  {
    hide RequestsFit, AllDeliverable, Settled, UsesFit;
    var f := Settled(s.proxies, s.events);
    var q := s.requests[0];
    if q.Destroy? {
      DestroyHits(s.requests, f, s.resources);
      DestroyHandledAgreed(s.requests, f, s.resources);
      UsesFitLess(s.requests, s.resources, s.resources - {q.id});
      AcknowledgeConsistent(s, q.id, s.requests[1..]);
    } else {
      UsesHit(s.requests, s.resources);
      if q.New? {
        NewHandledAgreed(s.requests, f, s.resources);
        UsesFitLess(s.requests, s.resources, s.resources[q.id := Resource(q.inc, q.life)]);
      } else {
        UseHandledAgreed(s.requests, f, s.resources);
        UsesFitLess(s.requests, s.resources, s.resources);
      }
    }
  }

  /** What a request is about is still there when everything in flight has arrived. */
  lemma RefsHeld(s: System, q: Request, sender: Word, args: seq<Word>)
    requires AllDeliverable(s.proxies, s.events) && AllHeld(s.proxies, sender, args) && !q.Destroy?
    requires q.sender == Ref(sender, s.proxies[sender].inc) && q.args == ProxyRefs(s.proxies, args)
    ensures var f := Settled(s.proxies, s.events);
            forall r: Ref :: Names(q, r) ==> Held(f, r.id) && f[r.id].inc == r.inc
  {
    hide AllDeliverable, Settled;
    forall r: Ref | Names(q, r)
      ensures var f := Settled(s.proxies, s.events); Held(f, r.id) && f[r.id].inc == r.inc
    {
      assert Held(s.proxies, r.id) && s.proxies[r.id].inc == r.inc;
      assert Zombier(s.proxies, s.proxies);
      SettleHeld(s.proxies, s.proxies, s.events, r.id);
    }
  }

  lemma CreateConsistent(s: System, a: Step)
    requires Consistent(s) && a.ClientCreates? && Enabled(s, a)
    ensures Consistent(Take(s, a))
  {
    hide RequestsFit, AllDeliverable, Settled, Bump, UsesFit, AllHeld, ProxyRefs;
    var f := Allocate(Registered(s.proxies), s.ids);
    FreshIsRecyclable(Registered(s.proxies), s.ids);
    var x := ProxyView(s.next, a.life, false);
    SettleFresh(s.proxies, s.events, f.id, x);
    SettlingOnlyRemoves(s.proxies, s.events);
    AllHeldRegistered(s.proxies, a.sender, a.args);
    var q := New(Ref(a.sender, s.proxies[a.sender].inc), ProxyRefs(s.proxies, a.args), f.id, s.next, a.life);
    RefsHeld(s, q, a.sender, a.args);
    CreateAgreed(s.requests, Settled(s.proxies, s.events), s.resources, q);
    UsesFitMore(s.requests, q, Settled(s.proxies, s.events), s.resources);
  }

  lemma AllHeldRegistered(ps: Proxies, sender: Word, args: seq<Word>)
    requires AllHeld(ps, sender, args)
    ensures sender in ps && forall i :: 0 <= i < |args| ==> args[i] in ps
  {
  }

  lemma UseConsistent(s: System, a: Step)
    requires Consistent(s) && a.ClientUses? && Enabled(s, a)
    ensures Consistent(Take(s, a))
  {
    hide RequestsFit, AllDeliverable, Settled, UsesFit, AllHeld, ProxyRefs;
    AllHeldRegistered(s.proxies, a.sender, a.args);
    var q := Use(Ref(a.sender, s.proxies[a.sender].inc), ProxyRefs(s.proxies, a.args));
    RefsHeld(s, q, a.sender, a.args);
    UseAgreed(s.requests, Settled(s.proxies, s.events), s.resources, q);
    UsesFitMore(s.requests, q, Settled(s.proxies, s.events), s.resources);
  }

  lemma FreshIsRecyclable(o: Objects, ids: Ids)
    requires Allocate(o, ids).Fresh? && ids.current >= 1 && forall id :: id in ids.free ==> Recyclable(id)
    ensures var a := Allocate(o, ids);
            Recyclable(a.id) && a.id !in o && a.ids.current >= 1 && forall id :: id in a.ids.free ==> Recyclable(id)
  {
    var (popped, rest) := PopFree(o, ids.free);
    assert forall id :: id in rest ==> id in ids.free;
  }

  lemma ZombifyIsZombier(ps: Proxies, id: Word)
    ensures Zombier(ps, Zombify(ps, id))
  {
  }

  lemma DestroyConsistent(s: System, a: Step)
    requires Consistent(s) && Enabled(s, a) && (a.ClientDestroys? || a.ClientForgets?)
    ensures Consistent(Take(s, a))
  {
    hide RequestsFit, AllDeliverable, Settled, Zombier, UsesFit;
    var ps' := Zombify(s.proxies, a.id);
    ZombifyIsZombier(s.proxies, a.id);
    SettleZombier(s.proxies, ps', s.events);
    var f, f' := Settled(s.proxies, s.events), Settled(ps', s.events);
    if a.ClientDestroys? {
      SettleHeld(s.proxies, ps', s.events, a.id);
      DestroyAgreed(s.requests, f, f', s.resources, a.id);
      UsesFitMore(s.requests, Destroy(a.id, f[a.id].inc), f, s.resources);
    } else {
      ForgetAgreed(s.requests, f, f', s.resources);
    }
  }

  lemma DispatchConsistent(s: System)
    requires Consistent(s) && s.events != []
    ensures Consistent(Take(s, ClientDispatches))
  {
    hide RequestsFit, Agreed, BindAll, UsesFit;
    SettledTail(s.proxies, s.events);
    var s' := Take(s, ClientDispatches);
    assert forall id :: id in s'.ids.free ==> Recyclable(id);
  }

  lemma StepConsistent(s: System, a: Step)
    requires Consistent(s) && Enabled(s, a)
    ensures Consistent(Take(s, a))
  {
    hide Consistent, Take;
    match a {
      case ClientCreates(_, _, _) => CreateConsistent(s, a);
      case ClientUses(_, _) => UseConsistent(s, a);
      case ClientDestroys(_) => DestroyConsistent(s, a);
      case ClientForgets(_) => DestroyConsistent(s, a);
      case ClientDispatches => DispatchConsistent(s);
      case ServerHandles => HandleConsistent(s);
      case ServerSends(_, _, _) => SendConsistent(s, a);
      case ServerEnds(id) => EndConsistent(s, id);
    }
  }

  lemma EndConsistent(s: System, id: Word)
    requires Consistent(s) && Enabled(s, ServerEnds(id))
    ensures Consistent(Take(s, ServerEnds(id)))
  {
    hide RequestsFit, AllDeliverable, Settled, UsesFit;
    EndAgreed(s.requests, Settled(s.proxies, s.events), s.resources, id);
    UsesFitLive(s.requests, s.resources, s.resources - {id});
    AcknowledgeConsistent(s, id, s.requests);
  }

  lemma StartConsistent()
    ensures Consistent(START)
  {
    SettledNone(START.proxies);
  }

  lemma {:induction false} EveryRunConsistent(run: seq<Step>)
    ensures TakeAll(run).Some? ==> Consistent(TakeAll(run).value)
  {
    hide Consistent, Take, Enabled;
    if run == [] {
      StartConsistent();
    } else {
      EveryRunConsistent(run[..|run| - 1]);
      var s := TakeAll(run[..|run| - 1]);
      if s.Some? && Enabled(s.value, run[|run| - 1]) { StepConsistent(s.value, run[|run| - 1]); }
    }
  }

  /** The main result: in every interleaving with an ordered server, no side ever fails. The next
      event finds, at its sender's ID and at the ID of each of its objects, the incarnation it
      was sent from and about, live or zombie, never none and never a later object; each object
      it introduces becomes that incarnation; and a delete_id acknowledges the incarnation
      registered at its ID. */
  lemma EventsReachTheirObjects(run: seq<Step>)
    requires TakeAll(run).Some?
    ensures var s := TakeAll(run).value;
            && !s.broken
            && (s.events != [] ==>
                 && Deliverable(s.proxies, s.events[0])
                 && var ps := ClientReceives(s.proxies, s.events[0]);
                    ps.Some? && (s.events[0].Event? ==>
                      forall i :: 0 <= i < |s.events[0].intros| ==> Hits(ps.value, s.events[0].intros[i].0)))
  {
    EveryRunConsistent(run);
    var s := TakeAll(run).value;
    if s.events != [] && s.events[0].Event? {
      var m := s.events[0];
      var z := UnderZombie(s.proxies, m.sender);
      DeliverableIsDelivered(s.proxies, m);
      IntrosMatch(m.intros, z);
      forall i | 0 <= i < |m.intros|
        ensures Hits(s.proxies + ProxiesOf(m.intros, z), m.intros[i].0)
      {
        IntroAt(m.intros, i);
      }
    }
  }

  /** The same in the other direction: the next request finds, at its sender's ID and at the ID
      of each of its objects, the incarnation the client meant, and the ID of a new object is
      unused on the server. */
  lemma RequestsReachTheirObjects(run: seq<Step>)
    requires TakeAll(run).Some?
    ensures var s := TakeAll(run).value;
            s.requests != [] ==>
              var q := s.requests[0];
              && (forall i :: 0 <= i < |About(q)| ==>
                   About(q)[i].id in s.resources && s.resources[About(q)[i].id].inc == About(q)[i].inc)
              && (q.New? ==> q.id !in s.resources)
  {
    EveryRunConsistent(run);
    var s := TakeAll(run).value;
    if s.requests != [] {
      if s.requests[0].Destroy? {
        DestroyHits(s.requests, Settled(s.proxies, s.events), s.resources);
      } else {
        UsesHit(s.requests, s.resources);
      }
    }
  }

  /** When nothing is in flight the two sides have the same objects: the client's IDs in use are the
      server's, so that every destroyed one was acknowledged; each object of the server is there as
      the same incarnation; and what the client keeps besides is destroyed, at server IDs. */
  lemma QuietSidesAgree(run: seq<Step>)
    requires TakeAll(run).Some? && TakeAll(run).value.requests == [] && TakeAll(run).value.events == []
    ensures var s := TakeAll(run).value;
            && (forall id: Word :: id < FIRST_SERVER_ID ==> (id in s.proxies <==> id in s.resources))
            && (forall id :: id in s.resources ==>
                 && Hits(s.proxies, Ref(id, s.resources[id].inc)) && s.proxies[id].life == s.resources[id].life)
            && (forall id :: id in s.proxies && id !in s.resources ==> s.proxies[id].zombie)
  {
    EveryRunConsistent(run);
    SettledNone(TakeAll(run).value.proxies);
  }

  // ---- the client's side is the registry, and runs with reuse exist

  /** RegisterWithID for each introduction in turn. */
  function RegisterAll(o: Objects, intros: seq<(Ref, Life)>, z: bool): Option<Objects>
    decreases |intros|
  {
    if intros == [] then Some(o)
    else
      var r := RegisterWithID(o, intros[0].0.id, Obj(0, z));
      if r.None? then None else RegisterAll(r.value, intros[1..], z)
  }

  /** What the client does with an event and with a delete_id is what the object map does. */
  lemma {:induction false} IntroduceIsRegistration(ps: Proxies, intros: seq<(Ref, Life)>, z: bool)
    ensures RegisterAll(Registered(ps), intros, z) ==
            var ps' := BindAll(ps, intros, z);
            if ps'.None? then None else Some(Registered(ps'.value))
    decreases |intros|
  {
    if intros != [] {
      var (r, life) := intros[0];
      if r.id >= FIRST_SERVER_ID && (r.id in ps ==> ps[r.id].zombie) {
        assert Registered(ps[r.id := ProxyView(r.inc, life, z)]) == Registered(ps)[r.id := Obj(0, z)];
        IntroduceIsRegistration(ps[r.id := ProxyView(r.inc, life, z)], intros[1..], z);
      }
    }
  }

  lemma DeleteIsDeleteID(ps: Proxies, ids: Ids, id: Word, inc: Incarnation)
    requires DISPLAY_ID in ps
    ensures Registered(ClientReceives(ps, DeleteId(id, inc)).value) == DeleteID(Registered(ps), ids, id).0
  {
  }

  lemma OneMoreStep(run: seq<Step>, s: System, a: Step)
    requires TakeAll(run) == Some(s) && Enabled(s, a)
    ensures TakeAll(run + [a]) == Some(Take(s, a))
  {
    assert (run + [a])[..|run + [a]| - 1] == run;
  }

  const INTRO := ServerSends(DISPLAY_ID, [], [(FIRST_SERVER_ID, ByClient)])

  lemma OneIntroduction(ps: Proxies, rs: map<Word, Resource>, intros: seq<(Ref, Life)>)
    requires |intros| == 1 && intros[0].0.id >= FIRST_SERVER_ID
    requires intros[0].0.id in ps ==> ps[intros[0].0.id].zombie
    ensures BindAll(ps, intros, false) == Some(ps[intros[0].0.id := ProxyView(intros[0].0.inc, intros[0].1, false)])
    ensures AddResources(rs, intros) == rs[intros[0].0.id := Resource(intros[0].0.inc, intros[0].1)]
  {
    assert intros[1..] == [];
  }

  /** The display introduces a server object, and the client takes note. */
  lemma IntroductionDelivered(run: seq<Step>, s: System)
    requires TakeAll(run) == Some(s) && !s.broken && s.events == []
    requires DISPLAY_ID in s.resources && DISPLAY_ID in s.proxies && FIRST_SERVER_ID !in s.resources
    requires FIRST_SERVER_ID in s.proxies ==> s.proxies[FIRST_SERVER_ID].zombie
    ensures TakeAll(run + [INTRO] + [ClientDispatches]) ==
            Some(s.(resources := s.resources[FIRST_SERVER_ID := Resource(s.next, ByClient)],
                    proxies := s.proxies[FIRST_SERVER_ID := ProxyView(s.next, ByClient, false)],
                    next := s.next + 1))
  {
    hide Take, Enabled;
    IntroductionSent(s);
    OneMoreStep(run, s, INTRO);
    var s1 := Take(s, INTRO);
    IntroductionReceived(s1, s.next);
    OneMoreStep(run + [INTRO], s1, ClientDispatches);
  }

  lemma IntroductionSent(s: System)
    requires !s.broken && s.events == [] && DISPLAY_ID in s.resources && FIRST_SERVER_ID !in s.resources
    ensures Enabled(s, INTRO)
    ensures var sender := Ref(DISPLAY_ID, s.resources[DISPLAY_ID].inc);
            Take(s, INTRO) == s.(resources := s.resources[FIRST_SERVER_ID := Resource(s.next, ByClient)], next := s.next + 1,
                                 events := [Event(sender, [], [(Ref(FIRST_SERVER_ID, s.next), ByClient)])])
  {
    var refs := IntroRefs(INTRO.intros, s.next);
    assert refs == [(Ref(FIRST_SERVER_ID, s.next), ByClient)];
    OneIntroduction(map[], s.resources, refs);
    assert ArgRefs(s.resources, []) == [];
    hide IntroRefs, AddResources, ArgRefs;
  }

  lemma IntroductionReceived(s: System, inc: Incarnation)
    requires !s.broken && DISPLAY_ID in s.proxies
    requires |s.events| == 1 && s.events[0].Event? && s.events[0].sender.id == DISPLAY_ID
    requires s.events[0].intros == [(Ref(FIRST_SERVER_ID, inc), ByClient)]
    requires FIRST_SERVER_ID in s.proxies ==> s.proxies[FIRST_SERVER_ID].zombie
    ensures Enabled(s, ClientDispatches)
    ensures Take(s, ClientDispatches) ==
            s.(proxies := s.proxies[FIRST_SERVER_ID := ProxyView(inc, ByClient, false)], events := [])
  {
    OneIntroduction(s.proxies, map[], s.events[0].intros);
    hide BindAll;
  }

  predicate HasProxy(s: Option<System>, id: Word, p: ProxyView) {
    s.Some? && id in s.value.proxies && s.value.proxies[id] == p
  }

  /** A server ID is reused while the client still keeps its old object as a zombie, and the new
      object replaces it. */
  lemma ReuseHappens() returns (before: seq<Step>, after: seq<Step>)
    ensures HasProxy(TakeAll(before), FIRST_SERVER_ID, ProxyView(1, ByClient, true))
    ensures HasProxy(TakeAll(before + after), FIRST_SERVER_ID, ProxyView(2, ByClient, false))
  {
    IntroductionDelivered([], START);
    var run := [] + [INTRO] + [ClientDispatches];
    var s2 := TakeAll(run).value;
    OneMoreStep(run, s2, ClientDestroys(FIRST_SERVER_ID));
    before := run + [ClientDestroys(FIRST_SERVER_ID)];
    var s3 := TakeAll(before).value;
    assert s3.requests == [Destroy(FIRST_SERVER_ID, 1)] && s3.requests[1..] == [];
    OneMoreStep(before, s3, ServerHandles);
    IntroductionDelivered(before + [ServerHandles], Take(s3, ServerHandles));
    after := [ServerHandles] + [INTRO] + [ClientDispatches];
    assert before + after == before + [ServerHandles] + [INTRO] + [ClientDispatches];
  }
}
