/** A Roundtrip that returns nil is a barrier of the object protocol. */
module RoundtripBarrier {
  import opened Wire
  import opened Registry
  import opened Signature
  import opened Connection
  import opened Sync
  import opened Socket
  import opened Bridge
  import opened Joint
  import B = Barrier
  import Deadlines
  import Decoder
  import Encoder
  import F = Framing
  import P = ObjectProtocol

  // ---- Roundtrip is a barrier

  /** The next message on the wire is the next event of the object protocol: it comes from the
      same ID, and it is a delete_id exactly if the event is. */
  predicate Carries(p: Protocol, s: State, m: P.FromServer) {
    var (s1, r) := ReadMsg(s);
    r.Got? &&
    match m
    case Event(sender, _, _) => r.frame.sender == sender.id && Deletes(p, s1, r.frame, r.fd).None?
    case DeleteId(id, _) => Deletes(p, s1, r.frame, r.fd) == Some(id)
  }

  /** The dispatches of a connection and those of a run of the object protocol go hand in hand,
      whatever else happens in that run. */
  predicate Lockstep(p: Protocol, s: State, acts: seq<Action>, t: P.System, steps: seq<P.Step>)
    decreases |steps|
  {
    if steps == [] then acts == []
    else
      && P.Enabled(t, steps[0])
      && if steps[0].ClientDispatches? then
           && acts != [] && Carries(p, s, t.events[0])
           && Lockstep(p, Act(p, s, acts[0]).0, acts[1..], P.Take(t, steps[0]), steps[1..])
         else Lockstep(p, s, acts, P.Take(t, steps[0]), steps[1..])
  }

  lemma StaysTail(p: Protocol, s: State, acts: seq<Action>, id: Word)
    requires acts != [] && Stays(p, s, acts, id)
    ensures StaysAt(p, s, id) && Stays(p, Act(p, s, acts[0]).0, acts[1..], id)
  {
    hide Act, StaysAt;
    assert acts[..0] == [];
    var more := acts[1..];
    forall i | 0 <= i < |more|
      ensures StaysAt(p, RunCalls(p, Act(p, s, acts[0]).0, more[..i]), id)
    {
      RunCallsHead(p, s, acts[0], more[..i]);
      assert [acts[0]] + more[..i] == acts[..i + 1];
      assert StaysAt(p, RunCalls(p, s, acts[..i + 1]), id);
    }
  }

  /** What the connection sees of such a run: no delete_id for an ID while its object stays, and
      the same last message. */
  ghost predicate Seen(p: Protocol, s: State, acts: seq<Action>, t: P.System, more: seq<P.Step>, id: Word) {
    && acts != [] && B.Undeleted(t, more, id)
    && var u := B.After(t, more);
       && u.Some? && P.Enabled(u.value, P.ClientDispatches) && u.value.events != []
       && Carries(p, RunCalls(p, s, acts[..|acts| - 1]), u.value.events[0])
  }

  lemma SeenHead(p: Protocol, s: State, acts: seq<Action>, t: P.System, more: seq<P.Step>, id: Word)
    requires acts != [] && more != [] && P.Enabled(t, more[0])
    requires if more[0].ClientDispatches? then
               && t.events != [] && (t.events[0].DeleteId? ==> t.events[0].id != id)
               && Seen(p, Act(p, s, acts[0]).0, acts[1..], P.Take(t, more[0]), more[1..], id)
             else Seen(p, s, acts, P.Take(t, more[0]), more[1..], id)
    ensures Seen(p, s, acts, t, more, id)
  {
    hide Act, P.Take, P.Enabled, Carries;
    if more[0].ClientDispatches? {
      var rest := acts[1..];
      RunCallsHead(p, s, acts[0], rest[..|rest| - 1]);
      assert [acts[0]] + rest[..|rest| - 1] == acts[..|acts| - 1];
    }
  }

  lemma SeenAtLast(p: Protocol, s: State, acts: seq<Action>, t: P.System, id: Word)
    requires Lockstep(p, s, acts, t, [P.ClientDispatches])
    ensures Seen(p, s, acts, t, [], id)
  {
    hide Act, P.Take;
    assert [P.ClientDispatches][1..] == [];
    B.DispatchEnabled(t);
    assert acts[1..] == [] && acts[..|acts| - 1] == [];
  }

  lemma LockstepHead(p: Protocol, s: State, acts: seq<Action>, t: P.System, more: seq<P.Step>)
    requires more != [] && Lockstep(p, s, acts, t, more + [P.ClientDispatches])
    ensures P.Enabled(t, more[0])
    ensures var steps := more[1..] + [P.ClientDispatches];
            if more[0].ClientDispatches? then
              && acts != [] && t.events != [] && Carries(p, s, t.events[0])
              && Lockstep(p, Act(p, s, acts[0]).0, acts[1..], P.Take(t, more[0]), steps)
            else Lockstep(p, s, acts, P.Take(t, more[0]), steps)
  {
    hide Act, P.Take, Carries;
    var steps := more + [P.ClientDispatches];
    assert steps[0] == more[0] && steps[1..] == more[1..] + [P.ClientDispatches];
    if more[0].ClientDispatches? { B.DispatchEnabled(t); }
  }

  lemma {:induction false} SeenInLockstep(p: Protocol, s: State, acts: seq<Action>, t: P.System, more: seq<P.Step>, id: Word)
    requires Lockstep(p, s, acts, t, more + [P.ClientDispatches])
    requires acts != [] ==> Stays(p, s, acts[..|acts| - 1], id)
    ensures Seen(p, s, acts, t, more, id)
    decreases |more|
  {
    hide Act, P.Take, P.Enabled, StaysAt, Stays, Seen, Lockstep, Carries, RunCalls;
    NotTheLast(p, s, acts, t, more);
    if more == [] {
      assert more + [P.ClientDispatches] == [P.ClientDispatches];
      SeenAtLast(p, s, acts, t, id);
    } else {
      var a := more[0];
      LockstepHead(p, s, acts, t, more);
      if a.ClientDispatches? {
        var rest := acts[1..];
        NotTheLast(p, Act(p, s, acts[0]).0, rest, P.Take(t, a), more[1..]);
        var init := acts[..|acts| - 1];
        assert init[0] == acts[0] && init[1..] == rest[..|rest| - 1];
        StaysTail(p, s, init, id);
        SeenInLockstep(p, Act(p, s, acts[0]).0, rest, P.Take(t, a), more[1..], id);
        DeletionSeen(p, s, t.events[0], id);
      } else {
        SeenInLockstep(p, s, acts, P.Take(t, a), more[1..], id);
      }
      SeenHead(p, s, acts, t, more, id);
    }
  }

  lemma {:induction false} NotTheLast(p: Protocol, s: State, acts: seq<Action>, t: P.System, more: seq<P.Step>)
    requires Lockstep(p, s, acts, t, more + [P.ClientDispatches])
    ensures acts != []
    decreases |more|
  {
    hide Act, P.Take, P.Enabled;
    if more == [] {
      assert (more + [P.ClientDispatches])[0] == P.ClientDispatches;
    } else {
      LockstepHead(p, s, acts, t, more);
      if !more[0].ClientDispatches? { NotTheLast(p, s, acts, P.Take(t, more[0]), more[1..]); }
    }
  }

  lemma DeletionSeen(p: Protocol, s: State, m: P.FromServer, id: Word)
    requires Carries(p, s, m) && StaysAt(p, s, id)
    ensures m.DeleteId? ==> m.id != id
  {
    hide ReadMsg, Deletes;
  }

  /** The done event is the event of the protocol that comes from the callback's ID. */
  lemma AnswerSeen(p: Protocol, s: State, m: P.FromServer, id: Word, callback: Kind)
    requires Callback(p, callback) && Answers(s, id, callback) && Carries(p, s, m)
    ensures m.Event? && m.sender.id == id
  {
    hide ReadMsg, HasFD, Decoder.Decode;
    ReadKeepsObjects(s);
  }

  /** The frame of wl_display.sync says what the request of the protocol says. */
  lemma SyncIsWritten(t: P.System)
    requires DISPLAY_ID in t.proxies && B.NextID(t) != 0
    ensures FrameOf(SyncRequest(B.NextID(t)), B.SyncOf(t))
  {
    hide B.NextID, WireFrame, WireBody;
    var vals := [NewV(B.NextID(t))];
    assert vals[..0] == [];
    assert NewIDs(vals) == NewIDs([]) + NewID(vals[0]) == [B.NextID(t)];
    assert RefIDs(vals) == RefIDs([]) + RefID(vals[0]) == [] == RefsOf([]);
    assert Says(vals, B.SyncOf(t));
    SaidIsFrame(SyncRequest(B.NextID(t)), B.SyncOf(t), 0, vals);
  }

  lemma SyncOnTheWire(s: State, asked: State, before: seq<P.Step>)
    requires P.TakeAll(before).Some? && P.Enabled(P.TakeAll(before).value, B.SYNC) && Wrote(s.sent, B.Asked(before))
    requires asked.sent == s.sent + [SyncRequest(B.NextID(P.TakeAll(before).value))]
    ensures Wrote(asked.sent, B.Asked(before + [B.SYNC]))
  {
    hide P.TakeAll, P.Take, B.Recall, FrameOf, SyncRequest;
    var t := P.TakeAll(before).value;
    B.SyncIsIssued(before);
    SyncIsWritten(t);
    WroteMore(s.sent, B.Asked(before), [SyncRequest(B.NextID(t))], [B.SyncOf(t)]);
  }

  /** Nil is a barrier. Let the frames on the wire be the requests of a run of the object protocol
      with an ordered server, and let Roundtrip return nil. Then it has written the sync request
      behind them and has made some successful dispatches up to the done event of its callback.
      If their messages are those of the run, in which anything else may happen in between, then
      the server had handled the sync and every earlier request when it sent the done event, and
      everything it had sent before that was dispatched before Roundtrip returned. */
  lemma NilIsABarrier(p: Protocol, s: State, callback: Kind, hs: nat -> Handlers, before: seq<P.Step>)
    returns (acts: seq<Action>)
    requires Callback(p, callback) && (forall f :: f in s.ids.free ==> f < FIRST_SERVER_ID)
    requires Roundtrip(p, s, callback, hs).1.Some? && Roundtrip(p, s, callback, hs).2.None?
    requires var t := P.TakeAll(before);
             && t.Some? && P.Enabled(t.value, B.SYNC) && B.NextID(t.value) == Roundtrip(p, s, callback, hs).1.value
    requires Wrote(s.sent, B.Asked(before))
    ensures Wrote(Ask(s, callback).0.sent, B.Asked(before + [B.SYNC]))
    ensures EndsWithDone(p, Ask(s, callback).0, acts, Roundtrip(p, s, callback, hs).1.value, callback)
    ensures MarkZombie(RunCalls(p, Ask(s, callback).0, acts), Roundtrip(p, s, callback, hs).1.value)
            == Roundtrip(p, s, callback, hs).0
    ensures forall more ::
              Lockstep(p, Ask(s, callback).0, acts, P.Take(P.TakeAll(before).value, B.SYNC), more + [P.ClientDispatches]) ==>
                var h := B.Recall(before + [B.SYNC] + more + [P.ClientDispatches]);
                h.Some? && B.Answered(h.value, B.Asked(before))
  {
    hide Ask, RunCalls, P.Take, P.Enabled, B.Answered, B.Asked, Lockstep, B.NextID, Roundtrip, Callback, SyncRequest;
    hide EndsWithDone, Wrote;
    acts := RoundtripMeansDone(p, s, callback, hs);
    var id := Roundtrip(p, s, callback, hs).1.value;
    var asked := Ask(s, callback).0;
    var t := P.TakeAll(before).value;
    SyncOnTheWire(s, asked, before);
    forall more | Lockstep(p, asked, acts, P.Take(t, B.SYNC), more + [P.ClientDispatches])
      ensures var h := B.Recall(before + [B.SYNC] + more + [P.ClientDispatches]);
              h.Some? && B.Answered(h.value, B.Asked(before))
    {
      OneRoundtrip(p, asked, acts, id, callback, before, more);
    }
  }

  lemma OneRoundtrip(p: Protocol, asked: State, acts: seq<Action>, id: Word, callback: Kind,
                     before: seq<P.Step>, more: seq<P.Step>)
    requires Callback(p, callback) && EndsWithDone(p, asked, acts, id, callback)
    requires var t := P.TakeAll(before);
             && t.Some? && P.Enabled(t.value, B.SYNC) && B.NextID(t.value) == id
             && Lockstep(p, asked, acts, P.Take(t.value, B.SYNC), more + [P.ClientDispatches])
    ensures var h := B.Recall(before + [B.SYNC] + more + [P.ClientDispatches]);
            h.Some? && B.Answered(h.value, B.Asked(before))
  {
    hide *;
    var t := P.Take(P.TakeAll(before).value, B.SYNC);
    LastMessage(p, asked, acts, id, callback, t, more);
    B.RoundtripIsABarrier(before, more);
  }

  lemma LastMessage(p: Protocol, asked: State, acts: seq<Action>, id: Word, callback: Kind, t: P.System, more: seq<P.Step>)
    requires Callback(p, callback) && EndsWithDone(p, asked, acts, id, callback)
    requires Lockstep(p, asked, acts, t, more + [P.ClientDispatches])
    ensures B.Undeleted(t, more, id)
    ensures var u := B.After(t, more);
            && u.Some? && P.Enabled(u.value, P.ClientDispatches) && u.value.events != []
            && u.value.events[0].Event? && u.value.events[0].sender.id == id
  {
    hide RunCalls, P.Take, P.Enabled, Lockstep, Callback, B.After, B.Undeleted, Carries, Answers, Stays, Silent;
    SeenInLockstep(p, asked, acts, t, more, id);
    var u := B.After(t, more).value;
    AnswerSeen(p, RunCalls(p, asked, acts[..|acts| - 1]), u.events[0], id, callback);
  }

  // ---- such runs exist

  /** The server handles the sync and answers. */
  const ANSWERED: seq<P.Step> := [P.ServerHandles, P.ServerSends(2, [], [])]

  lemma FirstSync()
    ensures P.TakeAll([]) == Some(P.START) && P.Enabled(P.START, B.SYNC) && B.NextID(P.START) == 2
    ensures var t := P.Take(P.START, B.SYNC);
            && t.requests == [P.New(P.Ref(DISPLAY_ID, 0), [], 2, 1, P.ByServer)] && t.events == [] && !t.broken
            && t.resources == P.START.resources && t.proxies == P.START.proxies[2 := P.ProxyView(1, P.ByServer, false)]
  {
    assert PopFree(P.Registered(P.START.proxies), []) == (None, []);
  }

  lemma AnswerSent(t: P.System)
    requires t.requests == [P.New(P.Ref(DISPLAY_ID, 0), [], 2, 1, P.ByServer)] && t.events == [] && !t.broken
    requires 2 !in t.resources && DISPLAY_ID in t.resources
    ensures B.After(t, ANSWERED).Some?
    ensures var u := B.After(t, ANSWERED).value;
            !u.broken && |u.events| == 1 && u.events[0].Event? && u.events[0].sender.id == 2
    ensures P.Enabled(t, P.ServerHandles) && P.Enabled(P.Take(t, P.ServerHandles), ANSWERED[1])
    ensures P.Take(P.Take(t, P.ServerHandles), ANSWERED[1]) == B.After(t, ANSWERED).value
  {
    var u := P.Take(t, P.ServerHandles);
    assert ANSWERED[1..] == [ANSWERED[1]] && ANSWERED[1..][1..] == [];
    assert P.IntroRefs([], u.next) == [] && P.ArgRefs(u.resources, []) == [];
  }

  /** The premises of NilIsABarrier can be met: when the done event of callback 2 is next on the
      wire, the connection is in lockstep with the run in which the server answers a first sync. */
  lemma LockstepHappens(p: Protocol, s: State, callback: Kind)
    requires Callback(p, callback) && Answers(s, 2, callback)
    ensures var t := P.TakeAll([B.SYNC]);
            t.Some? && Lockstep(p, s, [DoDispatch(NOTE)], t.value, ANSWERED + [P.ClientDispatches])
  {
    hide Act, P.Take, P.Enabled, Carries, Lockstep, B.After, P.TakeAll;
    FirstSync();
    P.OneMoreStep([], P.START, B.SYNC);
    assert [] + [B.SYNC] == [B.SYNC];
    var t := P.Take(P.START, B.SYNC);
    AnswerSent(t);
    var u := B.After(t, ANSWERED).value;
    var acts := [DoDispatch(NOTE)];
    AnswerCarried(p, s, u.events[0], callback);
    DispatchPossible(u);
    LastInLockstep(p, s, acts, u);
    LockstepOther(p, s, acts, P.Take(t, P.ServerHandles), ANSWERED[1], [P.ClientDispatches]);
    LockstepOther(p, s, acts, t, P.ServerHandles, [ANSWERED[1]] + [P.ClientDispatches]);
    assert ANSWERED + [P.ClientDispatches] == [P.ServerHandles] + ([ANSWERED[1]] + [P.ClientDispatches]);
  }

  lemma LastInLockstep(p: Protocol, s: State, acts: seq<Action>, u: P.System)
    requires |acts| == 1 && P.Enabled(u, P.ClientDispatches) && u.events != [] && Carries(p, s, u.events[0])
    ensures Lockstep(p, s, acts, u, [P.ClientDispatches])
  {
    hide Act, P.Take, P.Enabled, Carries;
    assert acts[1..] == [] && [P.ClientDispatches][1..] == [];
    assert Lockstep(p, Act(p, s, acts[0]).0, [], P.Take(u, P.ClientDispatches), []);
  }

  lemma LockstepOther(p: Protocol, s: State, acts: seq<Action>, t: P.System, a: P.Step, more: seq<P.Step>)
    requires !a.ClientDispatches? && P.Enabled(t, a) && Lockstep(p, s, acts, P.Take(t, a), more)
    ensures Lockstep(p, s, acts, t, [a] + more)
  {
    hide Act, P.Take, P.Enabled, Carries;
    assert ([a] + more)[1..] == more;
  }

  lemma AnswerCarried(p: Protocol, s: State, m: P.FromServer, callback: Kind)
    requires Callback(p, callback) && Answers(s, 2, callback) && m.Event? && m.sender.id == 2
    ensures Carries(p, s, m)
  {
    hide ReadMsg, HasFD, Decoder.Decode;
    ReadKeepsObjects(s);
  }

  lemma DispatchPossible(t: P.System)
    requires !t.broken && t.events != []
    ensures P.Enabled(t, P.ClientDispatches)
  {
  }

  // ---- roundtrips over a connection to a server

  /** Turns of the server, of the wire, and dispatches. */
  predicate Awaiting(turns: seq<Turn>) {
    forall i :: 0 <= i < |turns| ==> turns[i].Serves? || turns[i].Arrives? || turns[i].Dispatches?
  }

  /** All that arrives in some turns, and the dispatches in them. */
  function Later(turns: seq<Turn>): seq<Arrival> {
    if turns == [] then [] else (if turns[0].Arrives? then [turns[0].a] else []) + Later(turns[1..])
  }

  function DispatchesOf(turns: seq<Turn>): seq<Action> {
    if turns == [] then [] else (if turns[0].Dispatches? then [DoDispatch(turns[0].h)] else []) + DispatchesOf(turns[1..])
  }

  lemma {:induction false} StepsHead(turns: seq<Turn>)
    requires turns != []
    ensures StepsAll(turns) == StepsOf(turns[0]) + StepsAll(turns[1..])
  {
    var n := |turns| - 1;
    if n > 0 {
      StepsHead(turns[..n]);
      assert turns[..n][1..] == turns[1..][..n - 1];
    } else {
      assert turns[..0] == [] && turns[1..] == [];
    }
  }

  lemma {:induction false} PlayHead(p: Protocol, kinds: Types, w: World, turns: seq<Turn>)
    requires turns != [] && Play(p, kinds, w, turns).Some?
    ensures Possible(p, kinds, w, turns[0])
    ensures Play(p, kinds, Make(p, kinds, w, turns[0]), turns[1..]) == Play(p, kinds, w, turns)
  {
    hide Possible, Make;
    var n := |turns| - 1;
    if n > 0 {
      PlayHead(p, kinds, w, turns[..n]);
      assert turns[..n][1..] == turns[1..][..n - 1];
    } else {
      assert turns[..0] == [] && turns[1..] == [];
    }
  }

  /** The next message on the wire is the next event. */
  lemma NextIsCarried(p: Protocol, kinds: Types, w: World, x: seq<Arrival>, h: Handler)
    requires Sane(p, kinds) && Sound(p, kinds, w) && Possible(p, kinds, w, Dispatches(h))
    ensures w.sys.events != [] && Carries(p, w.conn.(inbox := w.conn.inbox + x), w.sys.events[0])
  {
    hide P.Consistent, P.Take, P.Enabled, Agree, Wrote, EncodesAll, Encodes, Clean, Stream, PostBytes, F.Bytes;
    hide P.Deliverable, P.ClientReceives, DeleteID, P.Registered, ReadMsg, Deletes;
    DispatchedSystem(w.sys);
    NextIsRead(p, kinds, w);
    EncodesTail(p, kinds, w.posts, w.sys.events);
    Deadlines.ReadElsewhere(w.conn, x);
    var (s, r) := ReadMsg(w.conn.(inbox := w.conn.inbox + x));
    DeletesThat(p, kinds, s, w.sys.proxies, r.frame, w.posts[0].vals, w.sys.events[0], r.fd);
    SenderOf(p, kinds, r.frame, w.posts[0].vals, w.sys.events[0]);
  }

  lemma SenderOf(p: Protocol, kinds: Types, f: Frame, vals: seq<Value>, m: P.FromServer)
    requires Encodes(p, kinds, f, vals, m)
    ensures m.Event? ==> f.sender == m.sender.id
  {
  }

  /** A dispatch does not look at what arrives later. */
  lemma DispatchElsewhere(p: Protocol, kinds: Types, w: World, x: seq<Arrival>, h: Handler)
    requires Sane(p, kinds) && Sound(p, kinds, w) && Possible(p, kinds, w, Dispatches(h))
    ensures var t := Make(p, kinds, w, Dispatches(h)).conn;
            Act(p, w.conn.(inbox := w.conn.inbox + x), DoDispatch(h)).0 == t.(inbox := t.inbox + x)
  {
    hide Sane, P.Take, P.Enabled, ReadMsg, DispatchFrame, P.Consistent, Agree, Wrote, EncodesAll, Stream, PostBytes, Clean;
    DispatchGoesOn(p, kinds, w, h);
    Deadlines.ActElsewhere(p, w.conn, DoDispatch(h), x);
  }

  /** Over any such turns, the dispatches of the connection, with all that arrives in its inbox from
      the start, go hand in hand with the run. */
  lemma {:induction false} TurnsAreInLockstep(p: Protocol, kinds: Types, w: World, turns: seq<Turn>)
    requires Sane(p, kinds) && Sound(p, kinds, w) && Awaiting(turns) && Play(p, kinds, w, turns).Some?
    ensures Lockstep(p, w.conn.(inbox := w.conn.inbox + Later(turns)), DispatchesOf(turns), w.sys, StepsAll(turns))
    decreases |turns|
  {
    hide Sane, Sound, Play, Possible, Carries, Act, P.Take, P.Enabled;
    if turns != [] {
      var t, rest := turns[0], turns[1..];
      PlayHead(p, kinds, w, turns);
      TurnIsSound(p, kinds, w, t);
      StepsHead(turns);
      assert forall i :: 0 <= i < |rest| ==> rest[i] == turns[i + 1];
      TurnsAreInLockstep(p, kinds, Make(p, kinds, w, t), rest);
      LockstepTurn(p, kinds, w, t, Later(rest), DispatchesOf(rest), StepsAll(rest));
      assert w.conn.inbox + Later(turns) == w.conn.inbox + (if t.Arrives? then [t.a] else []) + Later(rest);
    }
  }

  lemma LockstepTurn(p: Protocol, kinds: Types, w: World, t: Turn, x: seq<Arrival>, acts: seq<Action>, steps: seq<P.Step>)
    requires Sane(p, kinds) && Sound(p, kinds, w) && Possible(p, kinds, w, t)
    requires t.Serves? || t.Arrives? || t.Dispatches?
    requires var w' := Make(p, kinds, w, t); Lockstep(p, w'.conn.(inbox := w'.conn.inbox + x), acts, w'.sys, steps)
    ensures var s := w.conn.(inbox := w.conn.inbox + (if t.Arrives? then [t.a] else []) + x);
            Lockstep(p, s, (if t.Dispatches? then [DoDispatch(t.h)] else []) + acts, w.sys, StepsOf(t) + steps)
  {
    hide Sane, Sound, Carries, Act, P.Take, P.Enabled, RunCalls, EncodesAll, F.Bytes, Stream, PostBytes, NewEvents;
    match t {
      case Serves(step, _) =>
        assert w.conn.inbox + [] == w.conn.inbox && [] + acts == acts;
        LockstepOther(p, w.conn.(inbox := w.conn.inbox + x), acts, w.sys, step, steps);
      case Arrives(a) =>
        assert [] + acts == acts && [] + steps == steps;
      case Dispatches(h) =>
        assert w.conn.inbox + [] == w.conn.inbox;
        NextIsCarried(p, kinds, w, x, h);
        DispatchElsewhere(p, kinds, w, x, h);
        LockstepDispatch(p, w.conn.(inbox := w.conn.inbox + x), DoDispatch(h), acts, w.sys, steps);
    }
  }

  lemma LockstepDispatch(p: Protocol, s: State, a: Action, acts: seq<Action>, t: P.System, more: seq<P.Step>)
    requires t.events != [] && P.Enabled(t, P.ClientDispatches) && Carries(p, s, t.events[0])
    requires Lockstep(p, Act(p, s, a).0, acts, P.Take(t, P.ClientDispatches), more)
    ensures Lockstep(p, s, [a] + acts, t, [P.ClientDispatches] + more)
  {
    hide Act, P.Take, P.Enabled, Carries;
    assert ([P.ClientDispatches] + more)[1..] == more && ([a] + acts)[1..] == acts;
  }

  /** Asking does not look at what arrives. */
  lemma AskElsewhere(s: State, callback: Kind, i: seq<Arrival>)
    ensures var (t, id, e) := Ask(s, callback); Ask(s.(inbox := i), callback) == (t.(inbox := i), id, e) && t.inbox == s.inbox
  {
    hide Allocate, WriteFrame, Encoder.Sendable, SyncRequest, Accepted;
  }

  /** A connection and a server after the sync request of a Roundtrip. */
  ghost function Synced(w: World, callback: Kind): World
    requires P.Enabled(w.sys, B.SYNC)
  {
    World(Ask(w.conn, callback).0, P.Take(w.sys, B.SYNC), w.posts, w.flying, w.issued + NewRequests(w.sys, B.SYNC))
  }

  lemma SyncIsNew(t: P.System)
    requires P.Enabled(t, B.SYNC)
    ensures DISPLAY_ID in t.proxies && NewRequests(t, B.SYNC) == [B.SyncOf(t)]
    ensures var a := Allocate(P.Registered(t.proxies), t.ids); a.Fresh? && B.NextID(t) == a.id != 0
  {
    hide Allocate, P.Registered;
    assert P.ProxyRefs(t.proxies, []) == [];
  }

  lemma AskInParts(s: State, callback: Kind)
    requires Ask(s, callback).1.Some? && Ask(s, callback).2.None?
    ensures var (s1, id) := Register(s, callback);
            var t := Ask(s, callback).0;
            && id == Ask(s, callback).1 && t.sent == s.sent + [SyncRequest(id.value)]
            && t.objects == s1.objects && t.ids == s1.ids && t.fatal == s.fatal && t.inbox == s.inbox
  {
    hide Register, WriteMsg, SyncRequest;
    var (s1, id) := Register(s, callback);
    WriteSucceeds(s1, SyncRequest(id.value), []);
    RegisterRest(s, callback);
  }

  lemma SyncedIsSound(p: Protocol, kinds: Types, w: World, callback: Kind)
    requires Sound(p, kinds, w) && P.Enabled(w.sys, B.SYNC) && kinds(w.sys.next) == callback != DISPLAY
    requires Ask(w.conn, callback).1.Some? && Ask(w.conn, callback).2.None?
    ensures Sound(p, kinds, Synced(w, callback)) && Ask(w.conn, callback).1.value == B.NextID(w.sys)
  {
    hide P.Consistent, P.Take, P.Enabled, Agree, Wrote, EncodesAll, Register, Allocate, Clean, Stream, Ask, PostBytes;
    hide NewRequests, FrameOf, SyncRequest, B.NextID;
    AskInParts(w.conn, callback);
    AskedSystem(w.sys, B.SYNC);
    P.StepConsistent(w.sys, B.SYNC);
    ConsistentIDs(w.sys);
    SyncIsNew(w.sys);
    CreateAgrees(kinds, w.conn, w.sys.proxies, w.sys.next, P.ByServer);
    SyncIsWritten(w.sys);
    OneFrame(SyncRequest(B.NextID(w.sys)), B.SyncOf(w.sys));
    WroteMore(w.conn.sent, w.issued, [SyncRequest(B.NextID(w.sys))], [B.SyncOf(w.sys)]);
  }

  lemma OneFrame(b: seq<byte>, q: P.Request)
    requires FrameOf(b, q)
    ensures Wrote([b], [q])
  {
  }

  /** Turns after a sync that end with a dispatch, and in which a Roundtrip makes these dispatches
      over this traffic. */
  ghost predicate Made(p: Protocol, kinds: Types, w: World, more: seq<Turn>, acts: seq<Action>, x: seq<Arrival>) {
    && Awaiting(more) && more != [] && more[|more| - 1].Dispatches? && Play(p, kinds, w, more).Some?
    && DispatchesOf(more) == acts && Later(more) == x
  }

  lemma MadeInLockstep(p: Protocol, kinds: Types, w: World, more: seq<Turn>, acts: seq<Action>, x: seq<Arrival>)
    requires Sane(p, kinds) && Sound(p, kinds, w) && Made(p, kinds, w, more, acts, x)
    ensures more != [] && more[|more| - 1].Dispatches?
    ensures Lockstep(p, w.conn.(inbox := w.conn.inbox + x), acts, w.sys, StepsAll(more[..|more| - 1]) + [P.ClientDispatches])
  {
    hide Sane, Sound, Play, Lockstep;
    TurnsAreInLockstep(p, kinds, w, more);
    LastTurn(more);
  }

  /** The main result on roundtrips: nil is a barrier. Let a connection and an ordered server have
      run together in any way, and let Roundtrip return nil. It has made some successful
      dispatches up to the done event of its callback; and if the server went on in any way
      meanwhile, and what arrived is what it sent, in any fragments, then it had handled the sync
      and every request written before when it sent that event, and everything it had sent
      before that was dispatched before the return. */
  lemma RoundtripReachesTheServer(p: Protocol, kinds: Types, plan: seq<Written>, turns: seq<Turn>, x: seq<Arrival>,
                                  callback: Kind, hs: nat -> Handlers)
    returns (acts: seq<Action>)
    requires Sane(p, kinds) && Callback(p, callback) && Play(p, kinds, Dawn(plan), turns).Some?
    requires var w := Play(p, kinds, Dawn(plan), turns).value;
             && P.Enabled(w.sys, B.SYNC) && kinds(w.sys.next) == callback
             && var r := Roundtrip(p, w.conn.(inbox := w.conn.inbox + x), callback, hs); r.1.Some? && r.2.None?
    ensures var w := Play(p, kinds, Dawn(plan), turns).value;
            var s := w.conn.(inbox := w.conn.inbox + x);
            && Wrote(s.sent, B.Asked(StepsAll(turns)))
            && EndsWithDone(p, Ask(s, callback).0, acts, Roundtrip(p, s, callback, hs).1.value, callback)
            && MarkZombie(RunCalls(p, Ask(s, callback).0, acts), Roundtrip(p, s, callback, hs).1.value)
               == Roundtrip(p, s, callback, hs).0
    ensures forall more :: Made(p, kinds, Synced(Play(p, kinds, Dawn(plan), turns).value, callback), more, acts, x) ==>
              var h := B.Recall(StepsAll(turns) + [B.SYNC] + StepsAll(more));
              h.Some? && B.Answered(h.value, B.Asked(StepsAll(turns)))
  {
    hide *;
    hide Sane, Play, Roundtrip, Callback, Ask, Made;
    var w := Play(p, kinds, Dawn(plan), turns).value;
    var s := w.conn.(inbox := w.conn.inbox + x);
    var before := StepsAll(turns);
    DawnIsSound(p, kinds, plan);
    EveryWorldIsSound(p, kinds, Dawn(plan), turns);
    PlayIsRun(p, kinds, plan, turns);
    RoundtripAsks(p, s, callback, hs);
    AskElsewhere(w.conn, callback, w.conn.inbox + x);
    NotDisplay(p, callback);
    SyncedIsSound(p, kinds, w, callback);
    SoundParts(p, kinds, w);
    acts := NilIsABarrier(p, s, callback, hs, before);
    var w1 := Synced(w, callback);
    SyncedParts(w, callback);
    forall more | Made(p, kinds, w1, more, acts, x)
      ensures var h := B.Recall(before + [B.SYNC] + StepsAll(more));
              h.Some? && B.Answered(h.value, B.Asked(before))
    {
      MadeInLockstep(p, kinds, w1, more, acts, x);
      LastTurn(more);
      var init := StepsAll(more[..|more| - 1]);
      assert before + [B.SYNC] + init + [P.ClientDispatches] == before + [B.SYNC] + (init + [P.ClientDispatches]);
    }
  }

  lemma LastTurn(more: seq<Turn>)
    requires more != [] && more[|more| - 1].Dispatches?
    ensures StepsAll(more) == StepsAll(more[..|more| - 1]) + [P.ClientDispatches]
  {
    assert StepsOf(more[|more| - 1]) == [P.ClientDispatches];
  }

  lemma SyncedParts(w: World, callback: Kind)
    requires P.Enabled(w.sys, B.SYNC)
    ensures Synced(w, callback).conn == Ask(w.conn, callback).0 && Synced(w, callback).sys == P.Take(w.sys, B.SYNC)
  {
    hide Ask, P.Take, P.Enabled;
  }

  lemma NotDisplay(p: Protocol, callback: Kind)
    requires Callback(p, callback)
    ensures callback != DISPLAY
  {
  }

  lemma SoundParts(p: Protocol, kinds: Types, w: World)
    requires Sound(p, kinds, w)
    ensures Wrote(w.conn.sent, w.issued) && forall f :: f in w.conn.ids.free ==> f < FIRST_SERVER_ID
  {
    ConsistentIDs(w.sys);
  }

  lemma RoundtripAsks(p: Protocol, s: State, callback: Kind, hs: nat -> Handlers)
    ensures var r := Roundtrip(p, s, callback, hs);
            r.1 == Ask(s, callback).1 && (r.1.Some? && r.2.None? ==> Ask(s, callback).2.None?)
  {
    hide Ask, Await;
  }

  // ---- such roundtrips exist

  /** The done event of callback 2, as one arrival. */
  const DONE: Post := Post(Frame(2, 0, Bytes32(7)), [UintV(7)])

  const DONE_ARRIVES: Arrival := Arrival(F.Bytes(DONE.frame), NoOob, false, false, NoFault)

  /** The server handles the sync and answers, the answer arrives, and it is dispatched. */
  const MEANWHILE: seq<Turn> :=
    [Serves(P.ServerHandles, []), Serves(P.ServerSends(2, [], []), [DONE]), Arrives(DONE_ARRIVES), Dispatches(NOTE)]

  lemma DoneBody()
    ensures WireBody([UintV(7)]) == Bytes32(7) && |Bytes32(7)| == 4
    ensures NewIDs([UintV(7)]) == [] && RefIDs([UintV(7)]) == [] && NewKinds([Uint], [UintV(7)]) == []
  {
    assert [UintV(7)][..0] == [] && [Uint][..0] == [];
    assert [] + Bytes32(7) == Bytes32(7);
  }

  /** The event is encoded as the callback's type demands. */
  lemma DoneIsEncoded(p: Protocol, kinds: Types, callback: Kind)
    requires Callback(p, callback) && kinds(1) == callback
    ensures EncodesAll(p, kinds, [DONE], [P.Event(P.Ref(2, 1), [], [])])
  {
    hide Bytes32, WireBody, NewIDs, RefIDs, NewKinds;
    DoneBody();
    assert IDs([]) == [] && KindsOf(kinds, []) == [] && RefsOf([]) == [];
    assert AllTyped([Uint], [UintV(7)]);
  }

  /** A step of the server in a world. */
  lemma Served(p: Protocol, kinds: Types, w: World, t: Turn)
    requires t.Serves? && Possible(p, kinds, w, t)
    ensures Make(p, kinds, w, t) ==
            w.(sys := P.Take(w.sys, t.step), posts := w.posts + t.posts, flying := w.flying + PostBytes(t.posts))
  {
    hide P.Take, P.Enabled, PostBytes, NewEvents, EncodesAll;
  }

  lemma PlayMore(p: Protocol, kinds: Types, w: World, turns: seq<Turn>, t: Turn)
    requires Play(p, kinds, w, turns).Some? && Possible(p, kinds, Play(p, kinds, w, turns).value, t)
    ensures Play(p, kinds, w, turns + [t]) == Some(Make(p, kinds, Play(p, kinds, w, turns).value, t))
  {
    hide Possible, Make;
    assert (turns + [t])[..|turns + [t]| - 1] == turns;
  }

  /** What the server's two steps send. */
  lemma AnswerSteps(t: P.System)
    requires t.requests == [P.New(P.Ref(DISPLAY_ID, 0), [], 2, 1, P.ByServer)] && t.events == [] && !t.broken
    requires t.resources == P.START.resources
    ensures P.Enabled(t, P.ServerHandles) && NewEvents(t, P.ServerHandles) == []
    ensures var u := P.Take(t, P.ServerHandles);
            && P.Enabled(u, ANSWERED[1]) && NewEvents(u, ANSWERED[1]) == [P.Event(P.Ref(2, 1), [], [])]
            && var v := P.Take(u, ANSWERED[1]); P.Enabled(v, P.ClientDispatches)
  {
    var u := P.Take(t, P.ServerHandles);
    assert u.events == [] && 2 in u.resources && u.resources[2].inc == 1;
    assert P.IntroRefs([], u.next) == [] && P.ArgRefs(u.resources, []) == [];
  }

  lemma OnePost(post: Post)
    ensures PostBytes([post]) == F.Bytes(post.frame)
  {
    hide F.Bytes;
    assert [post][1..] == [] && F.Bytes(post.frame) + [] == F.Bytes(post.frame);
  }

  lemma DoneIsClean()
    ensures Clean([DONE_ARRIVES]) && Stream([DONE_ARRIVES]) == F.Bytes(DONE.frame)
  {
    OneArrival(DONE_ARRIVES);
    assert |DONE_ARRIVES.data| > 0;
  }

  /** The server's turns can be taken. */
  lemma ServerAnswers(p: Protocol, kinds: Types, w: World, callback: Kind)
    requires Callback(p, callback) && kinds(1) == callback
    requires var t := w.sys;
             && t.requests == [P.New(P.Ref(DISPLAY_ID, 0), [], 2, 1, P.ByServer)] && t.events == [] && !t.broken
             && t.resources == P.START.resources
    requires w.posts == [] && w.flying == []
    ensures var r := Play(p, kinds, w, MEANWHILE[..2]);
            && r.Some? && r.value.conn == w.conn && r.value.posts == [DONE] && r.value.flying == F.Bytes(DONE.frame)
            && P.Enabled(r.value.sys, P.ClientDispatches)
  {
    hide P.Take, P.Enabled, NewEvents, EncodesAll, F.Bytes, PostBytes, Callback, Play, RunCalls;
    AnswerSteps(w.sys);
    NothingSent(p, kinds);
    DoneIsEncoded(p, kinds, callback);
    OnePost(DONE);
    PlayNothing(p, kinds, w);
    var t1, t2 := MEANWHILE[0], MEANWHILE[1];
    assert Possible(p, kinds, w, t1);
    Served(p, kinds, w, t1);
    PlayMore(p, kinds, w, [], t1);
    var w1 := Make(p, kinds, w, t1);
    assert Possible(p, kinds, w1, t2);
    Served(p, kinds, w1, t2);
    PlayMore(p, kinds, w, [] + [t1], t2);
    assert [] + [t1] + [t2] == MEANWHILE[..2];
  }

  /** All of the turns can be taken. */
  lemma MeanwhileHappens(p: Protocol, kinds: Types, w: World, callback: Kind)
    requires Callback(p, callback) && kinds(1) == callback
    requires var t := w.sys;
             && t.requests == [P.New(P.Ref(DISPLAY_ID, 0), [], 2, 1, P.ByServer)] && t.events == [] && !t.broken
             && t.resources == P.START.resources
    requires w.posts == [] && w.flying == [] && w.conn.inbox == []
    ensures Made(p, kinds, w, MEANWHILE, [DoDispatch(NOTE)], [DONE_ARRIVES])
  {
    hide P.Take, P.Enabled, F.Bytes, PostBytes, Stream, Clean, Callback, Play, RunCalls, DispatchesOf, Later, Awaiting;
    ServerAnswers(p, kinds, w, callback);
    DoneIsClean();
    var t3, t4 := MEANWHILE[2], MEANWHILE[3];
    var w2 := Play(p, kinds, w, MEANWHILE[..2]).value;
    PlayMore(p, kinds, w, MEANWHILE[..2], t3);
    var w3 := Make(p, kinds, w2, t3);
    assert w3.conn.inbox == [DONE_ARRIVES] && w3.posts == [DONE] && w3.sys == w2.sys;
    PlayMore(p, kinds, w, MEANWHILE[..2] + [t3], t4);
    assert MEANWHILE[..2] + [t3] + [t4] == MEANWHILE;
    MeanwhileParts();
  }

  lemma NothingSent(p: Protocol, kinds: Types)
    ensures EncodesAll(p, kinds, [], []) && PostBytes([]) == []
  {
  }

  lemma PlayNothing(p: Protocol, kinds: Types, w: World)
    ensures Play(p, kinds, w, []) == Some(w)
  {
  }

  lemma LastIsDispatch(h: Handler)
    ensures DispatchesOf([Dispatches(h)]) == [DoDispatch(h)] && Later([Dispatches(h)]) == []
  {
    assert [Dispatches(h)][1..] == [];
    assert Later([]) == [] && DispatchesOf([]) == [];
  }

  lemma MeanwhileParts()
    ensures DispatchesOf(MEANWHILE) == [DoDispatch(NOTE)] && Later(MEANWHILE) == [DONE_ARRIVES] && Awaiting(MEANWHILE)
  {
    var a, b := MEANWHILE[2], MEANWHILE[3];
    assert MEANWHILE[1..] == [MEANWHILE[1], a, b] && MEANWHILE[1..][1..] == [a, b] && [a, b][1..] == [b] && [b][1..] == [];
    LastIsDispatch(NOTE);
    assert DispatchesOf([a, b]) == [DoDispatch(NOTE)] && Later([a, b]) == [DONE_ARRIVES];
  }

  /** A socket that takes the twelve bytes of a sync request. */
  const ROOM: seq<Written> := [Written(12, 0, false)]

  lemma SyncFits(s: State, id: Word)
    requires s.fatal.None? && s.plan == ROOM
    ensures WriteMsg(s, SyncRequest(id), []).1.None?
  {
    hide Bytes32, HeaderWord, Encoder.Sendable;
    var vals := [NewV(id)];
    assert vals[..0] == [];
    assert |WireBody(vals)| == 4;
    Encoder.GeneratedFrameSendable(DISPLAY_ID, 0, vals);
    assert |SyncRequest(id)| == 12;
  }

  lemma FirstAsk(callback: Kind)
    ensures Ask(Dawn(ROOM).conn, callback).1 == Some(2) && Ask(Dawn(ROOM).conn, callback).2.None?
    ensures var s := Dawn(ROOM).conn; s.inbox == [] && s.ids.free == []
    ensures LiveOf(Ask(Dawn(ROOM).conn, callback).0.objects, 2, callback)
  {
    hide WriteMsg, SyncRequest;
    var s := Dawn(ROOM).conn;
    assert PopFree(Initial([], ROOM).objects, []) == (None, []);
    assert s.objects == map[1 := Obj(DISPLAY, false)] && s.ids == Ids([], 1);
    assert PopFree(s.objects, []) == (None, []);
    SyncFits(Register(s, callback).0, 2);
    WriteSucceeds(Register(s, callback).0, SyncRequest(2), []);
  }

  /** The premises of RoundtripReachesTheServer can be met: over a socket that takes the request, the
      first Roundtrip of a connection returns nil when the server answers. */
  lemma RoundtripHappens(p: Protocol, kinds: Types, callback: Kind, hs: nat -> Handlers)
    requires Sane(p, kinds) && Callback(p, callback) && kinds(1) == callback
    ensures Play(p, kinds, Dawn(ROOM), []) == Some(Dawn(ROOM)) && P.Enabled(Dawn(ROOM).sys, B.SYNC)
    ensures kinds(Dawn(ROOM).sys.next) == callback
    ensures var s := Dawn(ROOM).conn.(inbox := [DONE_ARRIVES]);
            Roundtrip(p, s, callback, hs).1.Some? && Roundtrip(p, s, callback, hs).2.None?
    ensures Made(p, kinds, Synced(Dawn(ROOM), callback), MEANWHILE, [DoDispatch(NOTE)], [DONE_ARRIVES])
  {
    hide P.Take, P.Enabled, NewEvents, EncodesAll, F.Bytes, Stream, Clean, Callback, Play, RunCalls, Ask, Roundtrip, Made;
    hide Sane, SyncRequest;
    FirstSync();
    FirstAsk(callback);
    PlayNothing(p, kinds, Dawn(ROOM));
    var w := Dawn(ROOM);
    AskElsewhere(w.conn, callback, [DONE_ARRIVES]);
    MeanwhileHappens(p, kinds, Synced(w, callback), callback);
    var s := w.conn.(inbox := [DONE_ARRIVES]);
    var asked := Ask(s, callback).0;
    DoneIsClean();
    assert F.Bytes(DONE.frame) + [] == WireFrame(2, 0, Bytes32(7)) + [] by { DoneBytes(); }
    assert Turns(p, asked, 2, true, hs, 0, 0) == Some((asked, true));
    AnswerEndsRoundtrip(p, s, callback, hs, 0, 7, []);
    RoundtripAsks(p, s, callback, hs);
  }

  lemma DoneBytes()
    ensures F.Bytes(DONE.frame) + [] == WireFrame(2, 0, Bytes32(7)) + [] == F.Bytes(DONE.frame)
  {
  }
}
