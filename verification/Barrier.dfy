/** wl_display.sync as a barrier: when the answer has arrived, so has everything before it. */
module Barrier {
  import opened Wire
  import opened Registry
  import opened ObjectProtocol

  /** A system with its past: all requests issued and how many of them were handled; all
      messages sent, each with the number of requests handled by then, and how many of them
      were dispatched. */
  datatype History = History(
    now: System, issued: seq<Request>, handled: nat, sent: seq<(FromServer, nat)>, dispatched: nat)

  const BEGINNING := History(START, [], 0, [], 0)

  function Stamped(ms: seq<FromServer>, n: nat): (r: seq<(FromServer, nat)>)
    ensures |r| == |ms|
  {
    seq(|ms|, i requires 0 <= i < |ms| => (ms[i], n))
  }

  function Record(h: History, a: Step): History
    requires Enabled(h.now, a)
  {
    var s, s' := h.now, Take(h.now, a);
    var handled := if a.ServerHandles? then h.handled + 1 else h.handled;
    var rs := if a.ServerHandles? then s.requests[1..] else s.requests;
    var ms := if a.ClientDispatches? then s.events[1..] else s.events;
    History(s',
            h.issued + (if |rs| <= |s'.requests| then s'.requests[|rs|..] else []),
            handled,
            h.sent + Stamped(if |ms| <= |s'.events| then s'.events[|ms|..] else [], handled),
            if a.ClientDispatches? then h.dispatched + 1 else h.dispatched)
  }

  function Recall(run: seq<Step>): Option<History> {
    if run == [] then Some(BEGINNING)
    else
      var h := Recall(run[..|run| - 1]);
      if h.Some? && Enabled(h.value.now, run[|run| - 1]) then Some(Record(h.value, run[|run| - 1])) else None
  }

  lemma {:induction false} RecallIsRun(run: seq<Step>)
    ensures match Recall(run)
            case None => TakeAll(run).None?
            case Some(h) => TakeAll(run) == Some(h.now)
  {
    hide Enabled, Take;
    if run != [] { RecallIsRun(run[..|run| - 1]); }
  }

  /** The log agrees with the queues, and its stamps grow. */
  ghost predicate Faithful(h: History) {
    && h.handled <= |h.issued| && h.issued[h.handled..] == h.now.requests
    && h.dispatched <= |h.sent| && |h.sent| - h.dispatched == |h.now.events|
    && (forall i :: h.dispatched <= i < |h.sent| ==> h.sent[i].0 == h.now.events[i - h.dispatched])
    && (forall i :: 0 <= i < |h.sent| ==> h.sent[i].1 <= h.handled)
    && (forall i, j :: 0 <= i < j < |h.sent| ==> h.sent[i].1 <= h.sent[j].1)
  }

  /** An incarnation the client created: the request for it is one of the first n issued. */
  predicate CreatedWithin(issued: seq<Request>, n: nat, inc: Incarnation) {
    exists i :: 0 <= i < |issued| && i < n && issued[i].New? && issued[i].inc == inc
  }

  predicate CreatedByClient(issued: seq<Request>, inc: Incarnation) {
    CreatedWithin(issued, |issued|, inc)
  }

  /** Incarnations are fresh, and the server has, and has sent events from, only those of the
      client's objects whose creation it had handled by then. */
  ghost predicate Causal(h: History) {
    && (forall i :: 0 <= i < |h.issued| && h.issued[i].New? ==> h.issued[i].inc < h.now.next)
    && (forall i, j :: 0 <= i < j < |h.issued| && h.issued[i].New? && h.issued[j].New? ==> h.issued[i].inc != h.issued[j].inc)
    && (forall id :: id in h.now.resources ==> h.now.resources[id].inc < h.now.next)
    && (forall id :: id in h.now.resources && CreatedByClient(h.issued, h.now.resources[id].inc) ==>
         CreatedWithin(h.issued, h.handled, h.now.resources[id].inc))
    && (forall i :: 0 <= i < |h.sent| && h.sent[i].0.Event? ==>
         && h.sent[i].0.sender.inc < h.now.next
         && (CreatedByClient(h.issued, h.sent[i].0.sender.inc) ==>
              CreatedWithin(h.issued, h.sent[i].1, h.sent[i].0.sender.inc)))
  }

  lemma CreatedMore(issued: seq<Request>, more: seq<Request>, n: nat, inc: Incarnation)
    ensures CreatedWithin(issued, n, inc) ==> CreatedWithin(issued + more, n, inc) && CreatedWithin(issued + more, n + 1, inc)
    ensures n <= |issued| ==> (CreatedWithin(issued + more, n, inc) ==> CreatedWithin(issued, n, inc))
    ensures (forall i :: 0 <= i < |more| && more[i].New? ==> more[i].inc != inc) ==>
              (CreatedByClient(issued + more, inc) ==> CreatedByClient(issued, inc))
  {
    var all := issued + more;
    if CreatedWithin(issued, n, inc) {
      var i :| 0 <= i < |issued| && i < n && issued[i].New? && issued[i].inc == inc;
      assert all[i] == issued[i];
    }
    if CreatedWithin(all, n, inc) && n <= |issued| {
      var i :| 0 <= i < |all| && i < n && all[i].New? && all[i].inc == inc;
      assert issued[i] == all[i];
    }
    if CreatedByClient(all, inc) && forall i :: 0 <= i < |more| && more[i].New? ==> more[i].inc != inc {
      var i :| 0 <= i < |all| && all[i].New? && all[i].inc == inc;
      if i < |issued| { assert issued[i] == all[i]; }
    }
  }

  // ---- the log

  /** What was queued at one end is logged at that end. */
  lemma FaithfulQueued(h: History, h': History, rs: seq<Request>, ms: seq<FromServer>, handled: nat)
    requires Faithful(h)
    requires h'.issued == h.issued + rs && h.handled <= h'.handled == handled <= |h.issued|
    requires h'.now.requests == h.issued[handled..] + rs
    requires h'.sent == h.sent + Stamped(ms, handled) && h'.dispatched == h.dispatched
    requires h'.now.events == h.now.events + ms
    ensures Faithful(h')
  {
    assert h'.issued[handled..] == h.issued[handled..] + rs;
  }

  lemma FaithfulDispatch(h: History, h': History)
    requires Faithful(h) && h.now.events != []
    requires h'.issued == h.issued && h'.handled == h.handled && h'.now.requests == h.now.requests
    requires h'.sent == h.sent && h'.dispatched == h.dispatched + 1 && h'.now.events == h.now.events[1..]
    ensures Faithful(h')
  {
  }

  lemma FaithfulStep(h: History, a: Step)
    requires Faithful(h) && Enabled(h.now, a)
    ensures Faithful(Record(h, a))
  {
    hide Faithful, Record, Enabled;
    match a {
      case ClientDispatches => DispatchEnabled(h.now); FaithfulAfterDispatch(h);
      case ServerHandles => FaithfulAfterHandling(h);
      case _ => FaithfulOtherwise(h, a);
    }
  }

  lemma FaithfulAfterDispatch(h: History)
    requires Faithful(h) && Enabled(h.now, ClientDispatches) && h.now.events != []
    ensures Faithful(Record(h, ClientDispatches))
  {
    hide Faithful, ClientReceives, DeleteID, Registered;
    var h' := Record(h, ClientDispatches);
    assert h'.now.requests[|h.now.requests|..] == [] && h'.now.events[|h.now.events[1..]|..] == [];
    FaithfulDispatch(h, h');
  }

  lemma FaithfulAfterHandling(h: History)
    requires Faithful(h) && Enabled(h.now, ServerHandles)
    ensures Faithful(Record(h, ServerHandles))
  {
    hide Faithful;
    var h' := Record(h, ServerHandles);
    QueueLengths(h);
    assert h'.now.requests[|h.now.requests[1..]|..] == [];
    assert h.issued[h.handled + 1..] == h.now.requests[1..];
    FaithfulQueued(h, h', [], h'.now.events[|h.now.events|..], h.handled + 1);
  }

  lemma FaithfulOtherwise(h: History, a: Step)
    requires Faithful(h) && Enabled(h.now, a) && !a.ClientDispatches? && !a.ServerHandles?
    ensures Faithful(Record(h, a))
  {
    hide Faithful, Allocate, Zombify, AddResources, Registered, IntroRefs, ArgRefs, FreshIntros;
    var h' := Record(h, a);
    QueueLengths(h);
    FaithfulQueued(h, h', h'.now.requests[|h.now.requests|..], h'.now.events[|h.now.events|..], h.handled);
  }

  lemma QueueLengths(h: History)
    requires Faithful(h)
    ensures h.handled <= |h.issued| && h.issued[h.handled..] == h.now.requests
  {
  }

  // ---- causality

  lemma CausalCreate(h: History, a: Step)
    requires Faithful(h) && Causal(h) && a.ClientCreates? && Enabled(h.now, a)
    ensures Causal(Record(h, a))
  {
    hide Allocate, Registered, ProxyRefs;
    var h' := Record(h, a);
    var r := h'.now.requests[|h.now.requests|];
    assert h'.issued == h.issued + [r] && h'.sent == h.sent;
    forall inc: nat, n: nat | inc < h.now.next
      ensures CreatedByClient(h'.issued, inc) ==> CreatedByClient(h.issued, inc)
      ensures CreatedWithin(h.issued, n, inc) ==> CreatedWithin(h'.issued, n, inc)
    {
      CreatedMore(h.issued, [r], n, inc);
    }
  }

  lemma CausalDestroy(h: History, a: Step)
    requires Faithful(h) && Causal(h) && Enabled(h.now, a)
    requires a.ClientDestroys? || a.ClientForgets? || a.ClientUses?
    ensures Causal(Record(h, a))
  {
    hide Zombify, ProxyRefs;
    var h' := Record(h, a);
    if a.ClientForgets? {
      assert h'.issued == h.issued && h'.sent == h.sent;
    } else {
      var r := h'.now.requests[|h.now.requests|];
      assert h'.issued == h.issued + [r] && h'.sent == h.sent && !r.New?;
      forall inc: nat, n: nat | inc < h.now.next
        ensures CreatedByClient(h'.issued, inc) ==> CreatedByClient(h.issued, inc)
        ensures CreatedWithin(h.issued, n, inc) ==> CreatedWithin(h'.issued, n, inc)
      {
        CreatedMore(h.issued, [r], n, inc);
      }
    }
  }

  lemma CausalDispatch(h: History)
    requires Faithful(h) && Causal(h) && h.now.events != [] && Enabled(h.now, ClientDispatches)
    ensures Causal(Record(h, ClientDispatches))
  {
    hide ClientReceives, DeleteID, Registered;
    var h' := Record(h, ClientDispatches);
    assert h'.issued == h.issued && h'.sent == h.sent;
  }

  lemma HandledMore(h: History, inc: Incarnation)
    ensures CreatedWithin(h.issued, h.handled, inc) ==> CreatedWithin(h.issued, h.handled + 1, inc)
  {
    CreatedMore(h.issued, [], h.handled, inc);
    assert h.issued + [] == h.issued;
  }

  /** The resources after a request: one more, one less, or the same. */
  lemma HandledResources(h: History, id: Word)
    requires Faithful(h) && Enabled(h.now, ServerHandles) && h.now.requests != []
    ensures var rs := Take(h.now, ServerHandles).resources;
            id in rs ==>
              || (id in h.now.resources && rs[id] == h.now.resources[id])
              || (h.now.requests[0].New? && rs[id].inc == h.now.requests[0].inc)
  {
  }

  lemma HandledRecord(h: History)
    requires Enabled(h.now, ServerHandles) && h.now.requests != []
    ensures var h' := Record(h, ServerHandles);
            && h'.issued == h.issued && h'.handled == h.handled + 1 && h'.now.next == h.now.next
            && |h'.sent| >= |h.sent| && h'.sent[..|h.sent|] == h.sent
            && (forall i :: |h.sent| <= i < |h'.sent| ==> h'.sent[i].0.DeleteId?)
  {
  }

  lemma CausalHandle(h: History)
    requires Faithful(h) && Causal(h) && Enabled(h.now, ServerHandles)
    ensures Causal(Record(h, ServerHandles))
  {
    HandleEnabled(h.now);
    QueueLengths(h);
    HandledRecord(h);
    var h' := Record(h, ServerHandles);
    assert h.issued[h.handled] == h.now.requests[0];
    hide Faithful, Take, Enabled;
    forall id | id in h'.now.resources
      ensures h'.now.resources[id].inc < h.now.next
      ensures CreatedByClient(h.issued, h'.now.resources[id].inc) ==>
                CreatedWithin(h.issued, h.handled + 1, h'.now.resources[id].inc)
    {
      HandledResources(h, id);
      HandledMore(h, h'.now.resources[id].inc);
    }
    hide Record, CreatedWithin;
    assert forall i :: 0 <= i < |h.sent| ==> h'.sent[i] == h.sent[i];
  }

  lemma HandleEnabled(s: System)
    requires Enabled(s, ServerHandles)
    ensures s.requests != []
  {
  }

  lemma {:induction false} IntroIncarnations(intros: seq<(Ref, Life)>, id: Word, low: Incarnation, high: Incarnation)
    requires id in ResourcesOf(intros)
    requires forall i :: 0 <= i < |intros| ==> low <= intros[i].0.inc < high
    ensures low <= ResourcesOf(intros)[id].inc < high
    decreases |intros|
  {
    if id in ResourcesOf(intros[1..]) {
      assert forall i :: 0 <= i < |intros[1..]| ==> intros[1..][i] == intros[i + 1];
      IntroIncarnations(intros[1..], id, low, high);
    }
  }

  lemma CausalSend(h: History, a: Step)
    requires Faithful(h) && Causal(h) && a.ServerSends? && Enabled(h.now, a)
    ensures Causal(Record(h, a))
  {
    hide AddResources;
    var h' := Record(h, a);
    var s, s' := h.now, h'.now;
    assert h'.issued == h.issued;
    var refs := IntroRefs(a.intros, s.next);
    forall id | id in s'.resources
      ensures s'.resources[id].inc < s'.next
      ensures CreatedByClient(h.issued, s'.resources[id].inc) ==> CreatedWithin(h.issued, h.handled, s'.resources[id].inc)
    {
      AddResourcesResult(s.resources, refs);
      if id in ResourcesOf(refs) { IntroIncarnations(refs, id, s.next, s.next + |a.intros|); }
    }
    var m := s'.events[|s.events|];
    assert h'.sent == h.sent + [(m, h.handled)];
  }

  lemma CausalEnd(h: History, id: Word)
    requires Faithful(h) && Causal(h) && Enabled(h.now, ServerEnds(id))
    ensures Causal(Record(h, ServerEnds(id)))
  {
    var h' := Record(h, ServerEnds(id));
    assert h'.issued == h.issued;
    assert forall i :: |h.sent| <= i < |h'.sent| ==> h'.sent[i].0.DeleteId?;
  }

  lemma {:induction false} EveryHistory(run: seq<Step>)
    ensures Recall(run).Some? ==> Faithful(Recall(run).value) && Causal(Recall(run).value)
  {
    if run != [] {
      hide Faithful, Causal, Record, Enabled;
      EveryHistory(run[..|run| - 1]);
      var h, a := Recall(run[..|run| - 1]), run[|run| - 1];
      if h.Some? && Enabled(h.value.now, a) {
        FaithfulStep(h.value, a);
        match a {
          case ClientCreates(_, _, _) => CausalCreate(h.value, a);
          case ClientUses(_, _) => CausalDestroy(h.value, a);
          case ClientDestroys(_) => CausalDestroy(h.value, a);
          case ClientForgets(_) => CausalDestroy(h.value, a);
          case ClientDispatches => DispatchEnabled(h.value.now); CausalDispatch(h.value);
          case ServerHandles => CausalHandle(h.value);
          case ServerSends(_, _, _) => CausalSend(h.value, a);
          case ServerEnds(id) => CausalEnd(h.value, id);
        }
      }
    }
  }

  lemma DispatchEnabled(s: System)
    requires Enabled(s, ClientDispatches)
    ensures s.events != []
  {
  }

  /** A message from an object that the i-th request created was sent after that request was
      handled. */
  lemma SentAfterCreation(h: History, i: nat, p: nat)
    requires Causal(h) && i < |h.issued| && h.issued[i].New? && p < |h.sent|
    requires h.sent[p].0.Event? && h.sent[p].0.sender.inc == h.issued[i].inc
    ensures h.sent[p].1 > i
  {
    var inc := h.issued[i].inc;
    assert CreatedByClient(h.issued, inc);
    var j :| 0 <= j < |h.issued| && j < h.sent[p].1 && h.issued[j].New? && h.issued[j].inc == inc;
    assert j == i;
  }

  /** The p-th message was sent after the i-th request was handled, and all that was sent before
      that is in front of it. */
  ghost predicate Follows(h: History, i: nat, p: nat) {
    && p < |h.sent| && h.sent[p].1 > i && h.handled > i
    && (forall q :: 0 <= q < |h.sent| && h.sent[q].1 <= i ==> q < p)
  }

  lemma StampsOrder(h: History, i: nat, p: nat)
    requires Faithful(h) && p < |h.sent| && h.sent[p].1 > i
    ensures Follows(h, i, p)
  {
  }

  /** Let the i-th request create a callback, and let an event from it, the p-th message sent,
      have been dispatched. Then the server had handled all requests up to the i-th when it sent
      the answer; and every message it sent before it had handled the sync, which includes its
      reactions to all earlier requests, was dispatched before the answer. */
  lemma SyncIsABarrier(run: seq<Step>, i: nat, p: nat)
    requires Recall(run).Some?
    requires i < |Recall(run).value.issued| && Recall(run).value.issued[i].New?
    requires p < Recall(run).value.dispatched && p < |Recall(run).value.sent|
    requires var m := Recall(run).value.sent[p].0;
             m.Event? && m.sender.inc == Recall(run).value.issued[i].inc
    ensures Follows(Recall(run).value, i, p)
  {
    hide Causal, Faithful;
    EveryHistory(run);
    SentAfterCreation(Recall(run).value, i, p);
    StampsOrder(Recall(run).value, i, p);
  }

  // ---- the barrier, by what the client can see

  /** The same by IDs, which is all there is on the wire: let the i-th request create an object,
      let that object still be registered at its ID, and let the next event come from this ID.
      Then the server had handled the requests up to the i-th when it sent the event, and the
      messages it sent before that are all dispatched. */
  lemma NextEventIsABarrier(run: seq<Step>, i: nat)
    requires Recall(run).Some?
    requires var h := Recall(run).value;
             && i < |h.issued| && h.issued[i].New?
             && h.now.events != [] && h.now.events[0].Event?
             && h.now.events[0].sender.id == h.issued[i].id
             && Hits(h.now.proxies, Ref(h.issued[i].id, h.issued[i].inc))
    ensures var h := Recall(run).value;
            && h.dispatched < |h.sent| && h.sent[h.dispatched].0 == h.now.events[0]
            && Follows(h, i, h.dispatched)
  {
    hide Causal;
    EveryHistory(run);
    RecallIsRun(run);
    EventsReachTheirObjects(run);
    var h := Recall(run).value;
    NextIsNext(h);
    hide Faithful;
    SentAfterCreation(h, i, h.dispatched);
    StampsOrder(h, i, h.dispatched);
  }

  lemma NextIsNext(h: History)
    requires Faithful(h) && h.now.events != []
    ensures h.dispatched < |h.sent| && h.sent[h.dispatched].0 == h.now.events[0]
  {
  }

  // ---- the roundtrip as a run

  /** No delete_id for an ID is dispatched, so its object stays registered. */
  predicate Undeleted(s: System, more: seq<Step>, id: Word)
    decreases |more|
  {
    more == [] ||
    (&& Enabled(s, more[0])
     && (more[0].ClientDispatches? && s.events[0].DeleteId? ==> s.events[0].id != id)
     && Undeleted(Take(s, more[0]), more[1..], id))
  }

  /** The system after some steps that can be taken. */
  function After(s: System, more: seq<Step>): Option<System>
    decreases |more|
  {
    if more == [] then Some(s)
    else if Enabled(s, more[0]) then After(Take(s, more[0]), more[1..]) else None
  }

  /** A step keeps a client's object at its ID unless it dispatches the delete_id. */
  lemma StepKeepsIncarnation(s: System, a: Step, id: Word, inc: Incarnation)
    requires Consistent(s) && Enabled(s, a) && Hits(s.proxies, Ref(id, inc)) && id < FIRST_SERVER_ID
    requires a.ClientDispatches? && s.events[0].DeleteId? ==> s.events[0].id != id
    ensures Hits(Take(s, a).proxies, Ref(id, inc))
  {
    hide AddResources, DeleteID, Agreed, Settled;
    match a {
      case ClientCreates(_, _, _) => assert id in Registered(s.proxies);
      case ClientDispatches =>
        var m := s.events[0];
        if m.Event? {
          var z := UnderZombie(s.proxies, m.sender);
          DeliverableIsDelivered(s.proxies, m);
          IntrosMatch(m.intros, z);
        }
      case _ =>
    }
  }

  lemma RecordKeepsIssued(h: History, a: Step)
    requires Enabled(h.now, a)
    ensures h.issued <= Record(h, a).issued
  {
  }

  lemma RecallStep(run: seq<Step>, a: Step)
    requires TakeAll(run).Some? && Enabled(TakeAll(run).value, a)
    ensures TakeAll(run + [a]) == Some(Take(TakeAll(run).value, a))
    ensures Recall(run).Some? && Recall(run).value.now == TakeAll(run).value
    ensures Recall(run + [a]) == Some(Record(Recall(run).value, a))
  {
    hide Record, Take, Enabled;
    RecallIsRun(run);
    assert (run + [a])[..|run + [a]| - 1] == run;
  }

  /** While no delete_id for it is dispatched, an object stays where it is, and the requests
      issued so far stay issued. */
  lemma {:induction false} RunOn(run: seq<Step>, more: seq<Step>, id: Word, inc: Incarnation)
    requires TakeAll(run).Some? && Hits(TakeAll(run).value.proxies, Ref(id, inc)) && id < FIRST_SERVER_ID
    requires Undeleted(TakeAll(run).value, more, id)
    ensures TakeAll(run + more).Some? && Hits(TakeAll(run + more).value.proxies, Ref(id, inc))
    ensures TakeAll(run + more) == After(TakeAll(run).value, more)
    ensures Recall(run).Some? && Recall(run + more).Some?
    ensures Recall(run).value.issued <= Recall(run + more).value.issued
    decreases |more|
  {
    hide Record, Take, Enabled, Hits, Consistent;
    RecallIsRun(run);
    if more == [] {
      assert run + more == run;
    } else {
      var s, a := TakeAll(run).value, more[0];
      EveryRunConsistent(run);
      StepKeepsIncarnation(s, a, id, inc);
      RecallStep(run, a);
      RecordKeepsIssued(Recall(run).value, a);
      RunOn(run + [a], more[1..], id, inc);
      assert run + more == (run + [a]) + more[1..];
    }
  }

  /** The request of wl_display.sync: a new callback, which the server ends by itself. */
  const SYNC := ClientCreates(DISPLAY_ID, [], ByServer)

  function SyncOf(s: System): Request
    requires DISPLAY_ID in s.proxies
  {
    New(Ref(DISPLAY_ID, s.proxies[DISPLAY_ID].inc), [], NextID(s), s.next, ByServer)
  }

  /** The ID the next object of the client gets. */
  function NextID(s: System): Word {
    var a := Allocate(Registered(s.proxies), s.ids);
    if a.Fresh? then a.id else 0
  }

  /** The requests issued in a run. */
  function Asked(run: seq<Step>): seq<Request> {
    var h := Recall(run);
    if h.Some? then h.value.issued else []
  }

  lemma SyncIsIssued(run: seq<Step>)
    requires TakeAll(run).Some? && Enabled(TakeAll(run).value, SYNC)
    ensures var s := TakeAll(run).value;
            var id := NextID(s);
            && id < FIRST_SERVER_ID && TakeAll(run + [SYNC]).Some?
            && Hits(TakeAll(run + [SYNC]).value.proxies, Ref(id, s.next))
            && Recall(run).Some? && Recall(run + [SYNC]).Some?
            && DISPLAY_ID in s.proxies
            && Recall(run + [SYNC]).value.issued == Recall(run).value.issued + [SyncOf(s)]
  {
    assert forall ps :: ProxyRefs(ps, []) == [];
    EveryRunConsistent(run);
    RecallStep(run, SYNC);
    var s := TakeAll(run).value;
    CreatedIsRecyclable(s);
  }

  lemma CreatedIsRecyclable(s: System)
    requires Consistent(s) && Enabled(s, SYNC)
    ensures NextID(s) < FIRST_SERVER_ID
  {
    hide Agreed, AllDeliverable, Settled;
  }

  /** The last message dispatched came from the object that the first request after asked
      created, and it follows all those requests. */
  ghost predicate Answered(h: History, asked: seq<Request>) {
    && asked < h.issued && h.issued[|asked|].New?
    && h.dispatched > 0 && Follows(h, |asked|, h.dispatched - 1)
    && var m := h.sent[h.dispatched - 1].0;
       m.Event? && m.sender == Ref(h.issued[|asked|].id, h.issued[|asked|].inc)
  }

  /** The main result: a roundtrip is a barrier. Take any run, let the client issue a sync, and
      let anything happen after that, on both sides, in any order, except that the callback is
      not deleted; and let the client then dispatch an event from the callback's ID, which is
      what Roundtrip waits for. Then the server had handled the sync and every request issued
      before it when it sent this event; and every message it sent before it had handled the
      sync was dispatched earlier. */
  lemma RoundtripIsABarrier(before: seq<Step>, more: seq<Step>)
    requires TakeAll(before).Some? && Enabled(TakeAll(before).value, SYNC)
    requires var s := TakeAll(before).value;
             var id := NextID(s);
             && Undeleted(Take(s, SYNC), more, id)
             && var t := After(Take(s, SYNC), more);
                && t.Some? && Enabled(t.value, ClientDispatches) && t.value.events != []
                && t.value.events[0].Event? && t.value.events[0].sender.id == id
    ensures var r := Recall(before + [SYNC] + more + [ClientDispatches]);
            r.Some? && Answered(r.value, Asked(before))
  {
    hide Take, Enabled, Undeleted, Hits, Consistent, NextID, Record, Follows;
    var s := TakeAll(before).value;
    var id := NextID(s);
    var asked := Asked(before);
    SyncIsIssued(before);
    RecallStep(before, SYNC);
    var run := before + [SYNC] + more;
    RunOn(before + [SYNC], more, id, s.next);
    var h := Recall(run).value;
    RecallIsRun(run);
    assert h.issued[|asked|] == SyncOf(s);
    NextEventIsABarrier(run, |asked|);
    RecallStep(run, ClientDispatches);
    AnswerDispatched(h);
    FollowsStill(h, Record(h, ClientDispatches), |asked|, h.dispatched);
    SenderIsCallback(run, id, s.next);
  }

  lemma FollowsStill(h: History, h': History, i: nat, p: nat)
    requires Follows(h, i, p) && h'.sent == h.sent && h'.handled == h.handled
    ensures Follows(h', i, p)
  {
  }

  /** The sender of the next event is the object that is registered at its ID. */
  lemma SenderIsCallback(run: seq<Step>, id: Word, inc: Incarnation)
    requires TakeAll(run).Some? && Hits(TakeAll(run).value.proxies, Ref(id, inc))
    requires var events := TakeAll(run).value.events; events != [] && events[0].Event? && events[0].sender.id == id
    ensures TakeAll(run).value.events[0].sender == Ref(id, inc)
  {
    EventsReachTheirObjects(run);
  }

  lemma AnswerDispatched(h: History)
    requires Enabled(h.now, ClientDispatches) && h.now.events != []
    ensures var h' := Record(h, ClientDispatches);
            h'.issued == h.issued && h'.handled == h.handled && h'.sent == h.sent && h'.dispatched == h.dispatched + 1
  {
    hide ClientReceives, DeleteID;
    var h' := Record(h, ClientDispatches);
    assert h'.now.events == h.now.events[1..] && h'.now.requests == h.now.requests;
  }
}
