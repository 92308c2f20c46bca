/** The object protocol and the object map side by side: an event of the protocol is a delivery of
    its bytes. */
module Bridge {
  import opened Wire
  import opened Registry
  import opened Signature
  import opened Decoder
  import opened Connection
  import E = Events
  import P = ObjectProtocol
  import R = RoundTrip
  import Z = Zombies

  // ---- an event is a delivery

  /** The same IDs are registered, and the same of them are zombies. */
  ghost predicate Same(ps: P.Proxies, o: Objects) {
    ps.Keys == o.Keys && forall id :: id in o ==> ps[id].zombie == o[id].zombie
  }

  /** The IDs in a log of new_id arguments; 0 introduces nothing. */
  function NonZero(log: seq<(nat, Word)>): seq<Word> {
    if log == [] then []
    else NonZero(log[..|log| - 1]) + if log[|log| - 1].1 != 0 then [log[|log| - 1].1] else []
  }

  function IDs(intros: seq<(P.Ref, P.Life)>): (r: seq<Word>)
    ensures |r| == |intros|
  {
    seq(|intros|, i requires 0 <= i < |intros| => intros[i].0.id)
  }

  predicate Distinct(ids: seq<Word>) {
    forall i, j :: 0 <= i < j < |ids| ==> ids[i] != ids[j]
  }

  lemma {:induction false} BindAppend(ps: P.Proxies, a: seq<(P.Ref, P.Life)>, b: seq<(P.Ref, P.Life)>, z: bool)
    ensures P.BindAll(ps, a + b, z) ==
            var ps' := P.BindAll(ps, a, z);
            if ps'.None? then None else P.BindAll(ps'.value, b, z)
    decreases |a|
  {
    if a == [] {
      assert a + b == b;
    } else {
      assert (a + b)[1..] == a[1..] + b;
      var (r, life) := a[0];
      BindAppend(ps[r.id := P.ProxyView(r.inc, life, z)], a[1..], b, z);
    }
  }

  /** One registration on both sides. */
  lemma BindOne(ps: P.Proxies, o: Objects, intro: (P.Ref, P.Life), kind: Kind, z: bool)
    requires Same(ps, o) && RegisterWithID(o, intro.0.id, Obj(kind, z)).Some?
    ensures var ps' := P.BindAll(ps, [intro], z);
            ps'.Some? && Same(ps'.value, RegisterWithID(o, intro.0.id, Obj(kind, z)).value)
  {
    assert [intro][1..] == [];
  }

  /** What one argument adds to the log and to the objects. */
  lemma ArgLog(a: Arg, w: Walked, data: seq<byte>, fd: int)
    requires DecodeArg(a, w, data, fd).Next?
    ensures var r := DecodeArg(a, w, data, fd).s;
            if a.NewId? && a.iface.Some? then
              && |r.intros| == |w.intros| + 1 && r.intros[..|w.intros|] == w.intros
              && var id := r.intros[|w.intros|].1;
                 if id == 0 || LiveOf(w.objects, id, a.iface.value) then r.objects == w.objects
                 else RegisterWithID(w.objects, id, Obj(a.iface.value, false)) == Some(r.objects)
            else r.intros == w.intros && r.objects == w.objects
  {
    hide Uint32, PaddedLen, TextIn, ToInt32, Measure, RegisterWithID;
  }

  lemma AbsorbLog(a: Arg, w: Walked, data: seq<byte>)
    requires AbsorbArg(a, w, data).Next?
    ensures var r := AbsorbArg(a, w, data).s;
            if a.NewId? && a.iface.Some? then
              && |r.intros| == |w.intros| + 1 && r.intros[..|w.intros|] == w.intros
              && var id := r.intros[|w.intros|].1;
                 if id == 0 then r.objects == w.objects
                 else RegisterWithID(w.objects, id, Obj(a.iface.value, true)) == Some(r.objects)
            else r.intros == w.intros && r.objects == w.objects
  {
    hide Uint32, PaddedLen, TextIn, ToInt32, Measure, RegisterWithID;
  }

  lemma NonZeroStep(log: seq<(nat, Word)>, before: seq<(nat, Word)>)
    requires |log| == |before| + 1 && log[..|before|] == before
    ensures NonZero(log) == NonZero(before) + if log[|before|].1 != 0 then [log[|before|].1] else []
  {
  }

  lemma IDsPrefix(intros: seq<(P.Ref, P.Life)>, ids: seq<Word>, last: Word)
    requires IDs(intros) == ids + [last]
    ensures |intros| == |ids| + 1 && IDs(intros[..|ids|]) == ids && intros[|ids|].0.id == last
    ensures intros == intros[..|ids|] + [intros[|ids|]]
  {
    assert IDs(intros)[|ids|] == last;
    forall i | 0 <= i < |ids|
      ensures IDs(intros[..|ids|])[i] == ids[i]
    {
      assert IDs(intros)[i] == ids[i];
    }
  }

  /** The IDs live after some introductions. */
  predicate LiveAmong(o: Objects, o': Objects, ids: seq<Word>) {
    forall id :: Live(o', id) ==> Live(o, id) || id in ids
  }

  /** Decoding an event registers what the protocol's event introduces. */
  lemma {:induction false} DecodingBinds(args: seq<Arg>, o: Objects, data: seq<byte>, fd: int, ps: P.Proxies,
                                         intros: seq<(P.Ref, P.Life)>)
    requires Same(ps, o)
    requires var r := DecodeArgs(args, Walked(0, [], o, []), data, fd);
             && r.Next? && IDs(intros) == NonZero(r.s.intros)
             && Z.IntroducesOnlyFree(r.s.intros, o) && Distinct(IDs(intros))
    ensures var r := DecodeArgs(args, Walked(0, [], o, []), data, fd).s;
            var ps' := P.BindAll(ps, intros, false);
            ps'.Some? && Same(ps'.value, r.objects) && LiveAmong(o, r.objects, IDs(intros))
  {
    hide DecodeArg, RegisterWithID, Same, P.BindAll, IDs, NonZero;
    var w0 := Walked(0, [], o, []);
    if args == [] {
      NothingBound(ps, intros);
    } else {
      var n := |args| - 1;
      var m, r := DecodeArgs(args[..n], w0, data, fd).s, DecodeArgs(args, w0, data, fd).s;
      ArgLog(args[n], m, data, fd);
      if |r.intros| == |m.intros| {
        DecodingBinds(args[..n], o, data, fd, ps, intros);
      } else {
        var id := r.intros[|m.intros|].1;
        NonZeroStep(r.intros, m.intros);
        assert Z.IntroducesOnlyFree(m.intros, o) by {
          assert forall i :: 0 <= i < |m.intros| ==> m.intros[i] == r.intros[i];
        }
        if id == 0 {
          DecodingBinds(args[..n], o, data, fd, ps, intros);
        } else {
          var ids := NonZero(m.intros);
          IDsPrefix(intros, ids, id);
          DistinctPrefix(IDs(intros), ids, id);
          DecodingBinds(args[..n], o, data, fd, ps, intros[..|ids|]);
          BindLast(o, m.objects, ps, intros, ids, id, args[n].iface.value, r.objects);
        }
      }
    }
  }

  lemma NothingBound(ps: P.Proxies, intros: seq<(P.Ref, P.Life)>)
    requires IDs(intros) == NonZero([])
    ensures intros == [] && forall z :: P.BindAll(ps, intros, z) == Some(ps)
  {
  }

  lemma DistinctPrefix(all: seq<Word>, ids: seq<Word>, id: Word)
    requires all == ids + [id] && Distinct(all)
    ensures Distinct(ids) && id !in ids
  {
    forall i | 0 <= i < |ids|
      ensures ids[i] != id
    {
      assert all[i] == ids[i] && all[|ids|] == id;
    }
    assert forall i :: 0 <= i < |ids| ==> all[i] == ids[i];
  }

  /** The last introduction of an event. */
  lemma BindLast(o: Objects, m: Objects, ps: P.Proxies, intros: seq<(P.Ref, P.Life)>, ids: seq<Word>, id: Word,
                 kind: Kind, o': Objects)
    requires IDs(intros) == ids + [id] && id !in ids && !Live(o, id) && LiveAmong(o, m, ids)
    requires |intros| == |ids| + 1 && intros == intros[..|ids|] + [intros[|ids|]] && intros[|ids|].0.id == id
    requires P.BindAll(ps, intros[..|ids|], false).Some? && Same(P.BindAll(ps, intros[..|ids|], false).value, m)
    requires if LiveOf(m, id, kind) then o' == m else RegisterWithID(m, id, Obj(kind, false)) == Some(o')
    ensures var ps' := P.BindAll(ps, intros, false);
            ps'.Some? && Same(ps'.value, o') && LiveAmong(o, o', IDs(intros))
  {
    hide P.BindAll, IDs, Same;
    BindAppend(ps, intros[..|ids|], [intros[|ids|]], false);
    BindOne(P.BindAll(ps, intros[..|ids|], false).value, m, intros[|ids|], kind, false);
  }

  /** Absorbing an event registers the same as zombies. */
  lemma {:induction false} AbsorbingBinds(args: seq<Arg>, o: Objects, data: seq<byte>, ps: P.Proxies,
                                          intros: seq<(P.Ref, P.Life)>)
    requires Same(ps, o)
    requires var r := AbsorbArgs(args, Walked(0, [], o, []), data); r.Next? && IDs(intros) == NonZero(r.s.intros)
    ensures var r := AbsorbArgs(args, Walked(0, [], o, []), data).s;
            var ps' := P.BindAll(ps, intros, true);
            ps'.Some? && Same(ps'.value, r.objects)
  {
    hide AbsorbArg, RegisterWithID, Same, P.BindAll, IDs, NonZero;
    var w0 := Walked(0, [], o, []);
    if args == [] {
      NothingBound(ps, intros);
    } else {
      var n := |args| - 1;
      var m, r := AbsorbArgs(args[..n], w0, data).s, AbsorbArgs(args, w0, data).s;
      AbsorbLog(args[n], m, data);
      if |r.intros| == |m.intros| {
        AbsorbingBinds(args[..n], o, data, ps, intros);
      } else {
        var id := r.intros[|m.intros|].1;
        NonZeroStep(r.intros, m.intros);
        if id == 0 {
          AbsorbingBinds(args[..n], o, data, ps, intros);
        } else {
          var ids := NonZero(m.intros);
          IDsPrefix(intros, ids, id);
          AbsorbingBinds(args[..n], o, data, ps, intros[..|ids|]);
          BindAppend(ps, intros[..|ids|], [intros[|ids|]], true);
          BindOne(P.BindAll(ps, intros[..|ids|], true).value, m.objects, intros[|ids|], args[n].iface.value, true);
        }
      }
    }
  }

  /** The IDs a message introduces. */
  function Introduced(p: Protocol, o: Objects, m: Z.Message): seq<Word> {
    if m.sender !in o then []
    else
      var obj := o[m.sender];
      var iface := InterfaceOf(p, obj.kind);
      if m.opcode >= |iface.events| then []
      else
        var e := iface.events[m.opcode];
        var r :=
          if obj.zombie && obj.kind != DISPLAY then
            if HasNewId(e.args) then AbsorbAll(e.args, o, m.data) else Panic(o)
          else if Z.Decodes(e, m.handled) then Decode(e.args, o, m.data, m.fd) else Panic(o);
        if r.Next? then NonZero(r.s.intros) else []
  }

  /** Only the object at ID 1 is the display. */
  predicate OneDisplay(o: Objects) {
    forall id :: id in o ==> (o[id].kind == DISPLAY <==> id == DISPLAY_ID)
  }

  /** An event of the object protocol that introduces what the message introduces is delivered
      just as the message is: the sender is looked up, tested for being a zombie, and the event
      is decoded or absorbed, with the same IDs registered and the same of them zombies. */
  lemma EventIsDelivery(p: Protocol, o: Objects, ps: P.Proxies, m: Z.Message, sender: P.Ref, args: seq<P.Ref>,
                        intros: seq<(P.Ref, P.Life)>)
    requires Same(ps, o) && OneDisplay(o) && |m.data| <= MAX_FRAME && m.sender == sender.id
    requires IDs(intros) == Introduced(p, o, m) && Distinct(IDs(intros)) && Z.Orderly(p, o, m)
    requires m.sender in o && m.opcode < |InterfaceOf(p, o[m.sender].kind).events| ==>
               InterfaceOf(p, o[m.sender].kind).events[m.opcode].role == Plain
    ensures m.sender !in o ==> Z.Deliver(p, o, m).None? && P.ClientReceives(ps, P.Event(sender, args, intros)).None?
    ensures Z.Deliver(p, o, m).Some? ==>
              var ps' := P.ClientReceives(ps, P.Event(sender, args, intros));
              ps'.Some? && Same(ps'.value, Z.Deliver(p, o, m).value)
  {
    hide Decode, AbsorbAll, DecodeArgs, AbsorbArgs, P.BindAll, IDs, NonZero, HasNewId;
    if Z.Deliver(p, o, m).Some? {
      var obj := o[m.sender];
      var iface := InterfaceOf(p, obj.kind);
      NothingLogged();
      if intros == [] { NothingBound(ps, intros); }
      if m.opcode < |iface.events| {
        var e := iface.events[m.opcode];
        DecoderWalks(e.args, o, m.data, m.fd);
        AbsorberWalks(e.args, o, m.data);
        if obj.zombie && obj.kind != DISPLAY {
          if HasNewId(e.args) { AbsorbingBinds(e.args, o, m.data, ps, intros); }
        } else if Z.Decodes(e, m.handled) {
          DecodingBinds(e.args, o, m.data, m.fd, ps, intros);
        }
      }
    }
  }

  lemma NothingLogged()
    ensures NonZero([]) == [] && forall intros :: IDs(intros) == [] ==> intros == []
  {
    forall intros | IDs(intros) == []
      ensures intros == []
    {
      assert |IDs(intros)| == |intros|;
    }
  }

  /** A delete_id of the protocol is delivered as the event of wl_display is. */
  lemma DeleteIsDelivery(p: Protocol, o: Objects, ps: P.Proxies, m: Z.Message, id: Word, inc: P.Incarnation)
    requires Z.WellFormed(p) && Same(ps, o) && OneDisplay(o) && |m.data| <= MAX_FRAME && m.sender in o
    requires var events := InterfaceOf(p, o[m.sender].kind).events;
             && m.opcode < |events| && events[m.opcode].role == DeleteIdEvent
             && var r := Decode(events[m.opcode].args, o, m.data, m.fd); r.Next? && Z.DeletedId(r.s.fields) == id
    ensures m.sender == DISPLAY_ID
    ensures var ps' := P.ClientReceives(ps, P.DeleteId(id, inc));
            Z.Deliver(p, o, m).Some? && ps'.Some? && Same(ps'.value, Z.Deliver(p, o, m).value)
  {
    hide Decode, DecodeArgs, AbsorbAll;
    var e := InterfaceOf(p, o[m.sender].kind).events[m.opcode];
    assert p[o[m.sender].kind].events[m.opcode] == e;
    assert !HasNewId(e.args);
    DecoderWalks(e.args, o, m.data, m.fd);
    Z.NothingIntroduced(e.args, Walked(0, [], o, []), m.data, m.fd);
  }

  // ---- messages as bytes

  /** The type of every incarnation. */
  type Types = P.Incarnation -> Kind

  function NonNull(id: Word): seq<Word> {
    if id == 0 then [] else [id]
  }

  function NewID(v: Value): seq<Word> {
    match v
    case NewV(id) => NonNull(id)
    case BindV(_, _, bound) => NonNull(bound)
    case _ => []
  }

  /** The IDs of the new objects among some arguments. */
  function NewIDs(vals: seq<Value>): seq<Word> {
    if vals == [] then [] else NewIDs(vals[..|vals| - 1]) + NewID(vals[|vals| - 1])
  }

  function RefID(v: Value): seq<Word> {
    if v.RefV? && v.target.Some? then NonNull(v.target.value) else []
  }

  /** The IDs of the objects the arguments refer to. */
  function RefIDs(vals: seq<Value>): seq<Word> {
    if vals == [] then [] else RefIDs(vals[..|vals| - 1]) + RefID(vals[|vals| - 1])
  }

  /** The types of the new objects. */
  function NewKinds(args: seq<Arg>, vals: seq<Value>): seq<Kind>
    requires |args| == |vals|
  {
    if args == [] then []
    else
      var n := |args| - 1;
      NewKinds(args[..n], vals[..n]) +
      if args[n].NewId? && args[n].iface.Some? && NewID(vals[n]) != [] then [args[n].iface.value] else []
  }

  function RefsOf(refs: seq<P.Ref>): (r: seq<Word>)
    ensures |r| == |refs|
  {
    seq(|refs|, i requires 0 <= i < |refs| => refs[i].id)
  }

  function KindOf(kinds: Types, r: P.Ref): Kind {
    kinds(r.inc)
  }

  function KindsOf(kinds: Types, intros: seq<(P.Ref, P.Life)>): (r: seq<Kind>)
    ensures |r| == |intros|
  {
    seq(|intros|, i requires 0 <= i < |intros| => KindOf(kinds, intros[i].0))
  }

  /** A message of the protocol as a compositor writes it: it is an event of the sender's type with
      arguments of the declared types, which introduce and refer to the objects the protocol's
      event is about; or a delete_id of wl_display. */
  ghost predicate Encodes(p: Protocol, kinds: Types, f: Frame, vals: seq<Value>, m: P.FromServer) {
    match m
    case Event(sender, args, intros) =>
      var events := InterfaceOf(p, kinds(sender.inc)).events;
      && f.sender == sender.id && f.opcode < |events|
      && var e := events[f.opcode];
         && e.role == Plain && NewId(None) !in e.args && AllTyped(e.args, vals) && f.body == WireBody(vals)
         && NewIDs(vals) == IDs(intros) && NewKinds(e.args, vals) == KindsOf(kinds, intros)
         && RefIDs(vals) == RefsOf(args)
    case DeleteId(id, _) =>
      var events := InterfaceOf(p, DISPLAY).events;
      && f.sender == DISPLAY_ID && f.opcode < |events| && events[f.opcode].role == DeleteIdEvent
      && vals == [UintV(id)] && f.body == WireBody(vals)
  }

  /** Every object has the type of the incarnation that is registered. */
  ghost predicate Matches(kinds: Types, ps: P.Proxies, o: Objects) {
    Same(ps, o) && forall id :: id in o ==> o[id].kind == kinds(ps[id].inc)
  }

  // ---- decoding what was encoded

  /** The arguments as they arrive: with the descriptor the event is dispatched with. */
  function WithFD(vals: seq<Value>, fd: int): (r: seq<Value>)
    ensures |r| == |vals|
  {
    seq(|vals|, i requires 0 <= i < |vals| => if vals[i].FdV? then FdV(fd) else vals[i])
  }

  /** A descriptor is not among the bytes. */
  lemma {:induction false} FDNotInBody(vals: seq<Value>, fd: int)
    ensures WireBody(WithFD(vals, fd)) == WireBody(vals)
  {
    hide WireValue;
    if vals != [] {
      var n := |vals| - 1;
      FDNotInBody(vals[..n], fd);
      assert WithFD(vals, fd)[..n] == WithFD(vals[..n], fd);
      FDHasNoBytes(vals[n], fd);
    }
  }

  lemma FDHasNoBytes(v: Value, fd: int)
    ensures WireValue(if v.FdV? then FdV(fd) else v) == WireValue(v)
  {
  }

  lemma WithFDTyped(args: seq<Arg>, vals: seq<Value>, fd: int)
    requires AllTyped(args, vals)
    ensures AllTyped(args, WithFD(vals, fd))
  {
    forall i | 0 <= i < |args|
      ensures Typed(args[i], WithFD(vals, fd)[i])
    {
      assert Typed(args[i], vals[i]);
    }
  }

  /** Where the new objects are among the arguments. */
  lemma {:induction false} NewIDAt(args: seq<Arg>, vals: seq<Value>, i: nat)
    requires AllTyped(args, vals) && i < |vals| && vals[i].NewV? && vals[i].id != 0
    ensures vals[i].id in NewIDs(vals)
  {
    var n := |vals| - 1;
    if i < n {
      R.PrefixTyped(args, vals, n);
      NewIDAt(args[..n], vals[..n], i);
    }
  }

  lemma DistinctParts(a: seq<Word>, b: seq<Word>)
    requires Distinct(a + b)
    ensures Distinct(a) && Distinct(b) && forall i, j :: 0 <= i < |a| && 0 <= j < |b| ==> a[i] != b[j]
  {
    var all := a + b;
    assert forall i :: 0 <= i < |a| ==> all[i] == a[i];
    assert forall j :: 0 <= j < |b| ==> all[|a| + j] == b[j];
  }

  /** No two arguments introduce the same ID. */
  lemma {:induction false} NewIDsApart(args: seq<Arg>, vals: seq<Value>, i: nat, j: nat)
    requires AllTyped(args, vals) && Distinct(NewIDs(vals)) && i < j < |vals|
    requires vals[i].NewV? && vals[i].id != 0 && vals[j].NewV? && vals[j].id != 0
    ensures vals[i].id != vals[j].id
  {
    hide Distinct, AllTyped, NewIDs;
    var n := |vals| - 1;
    SameLength(args, vals);
    R.PrefixTyped(args, vals, n);
    NewIDsLast(vals);
    DistinctParts(NewIDs(vals[..n]), NewID(vals[n]));
    assert vals[..n][i] == vals[i];
    if j < n {
      NewIDsApart(args[..n], vals[..n], i, j);
    } else {
      NewIDAt(args[..n], vals[..n], i);
      InBoth(NewIDs(vals[..n]), NewID(vals[n]), vals[i].id);
    }
  }

  lemma SameLength(args: seq<Arg>, vals: seq<Value>)
    requires AllTyped(args, vals)
    ensures |args| == |vals|
  {
  }

  lemma NewIDsLast(vals: seq<Value>)
    requires vals != []
    ensures NewIDs(vals) == NewIDs(vals[..|vals| - 1]) + NewID(vals[|vals| - 1])
  {
  }

  lemma InBoth(a: seq<Word>, b: seq<Word>, id: Word)
    requires id in a && forall i, j :: 0 <= i < |a| && 0 <= j < |b| ==> a[i] != b[j]
    ensures id !in b
  {
  }

  /** New IDs that may be introduced can be bound. */
  lemma NewIDsBindable(args: seq<Arg>, vals: seq<Value>, o: Objects)
    requires AllTyped(args, vals) && Distinct(NewIDs(vals))
    requires forall id :: id in NewIDs(vals) ==> Introducible(o, id)
    ensures R.Bindable(args, vals, o)
  {
    hide Introducible, NewIDs;
    forall i | 0 <= i < |vals| && vals[i].NewV? && vals[i].id != 0
      ensures Introducible(o, vals[i].id)
    {
      NewIDAt(args, vals, i);
    }
    forall i, j | 0 <= i < j < |vals| && vals[i].NewV? && vals[i].id != 0 && vals[j].NewV? && vals[j].id != 0
      ensures vals[i] != vals[j]
    {
      NewIDsApart(args, vals, i, j);
    }
  }

  /** The new_ids among received arguments. */
  function NewReceived(args: seq<Arg>, seen: seq<R.Received>): seq<Word>
    requires |args| == |seen|
  {
    if args == [] then []
    else
      var n := |args| - 1;
      NewReceived(args[..n], seen[..n]) +
      if args[n].NewId? && seen[n].IdR? then NonNull(seen[n].id) else []
  }

  /** A typed argument is one on the wire. */
  lemma MeantLast(a: Arg, vals: seq<Value>)
    requires vals != [] && Typed(a, vals[|vals| - 1]) && a != NewId(None)
    ensures var n, seen := |vals| - 1, R.MeantAll(vals);
            && |seen| == |R.MeantAll(vals[..n])| + 1 && seen[..|seen| - 1] == R.MeantAll(vals[..n])
            && [seen[|seen| - 1]] == R.Meant(vals[n])
            && NewID(vals[n]) == if a.NewId? && seen[|seen| - 1].IdR? then NonNull(seen[|seen| - 1].id) else []
  {
    var n := |vals| - 1;
    assert |R.Meant(vals[n])| == 1;
  }

  lemma {:induction false} NewIDsReceived(args: seq<Arg>, vals: seq<Value>)
    requires AllTyped(args, vals) && NewId(None) !in args
    ensures |R.MeantAll(vals)| == |args| && NewReceived(args, R.MeantAll(vals)) == NewIDs(vals)
  {
    if args != [] {
      var n := |args| - 1;
      R.PrefixTyped(args, vals, n);
      NewIDsReceived(args[..n], vals[..n]);
      assert Typed(args[n], vals[n]) && args[n] in args;
      MeantLast(args[n], vals);
    }
  }

  /** What one argument adds to the event. */
  lemma ArgField(a: Arg, w: Walked, data: seq<byte>, fd: int)
    requires DecodeArg(a, w, data, fd).Next? && a != NewId(None)
    ensures var r := DecodeArg(a, w, data, fd).s;
            && |r.fields| == |w.fields| + 1 && r.fields[..|w.fields|] == w.fields
            && (if a.NewId? then
                  && r.fields[|w.fields|].NewF?
                  && |r.intros| == |w.intros| + 1 && r.intros[..|w.intros|] == w.intros
                  && r.intros[|w.intros|].1 == r.fields[|w.fields|].id
                else r.intros == w.intros)
  {
    hide Uint32, PaddedLen, TextIn, ToInt32, Measure, RegisterWithID;
  }

  /** The log of a decoding is what the decoded event introduces. */
  lemma {:induction false} LogIsReceived(args: seq<Arg>, o: Objects, data: seq<byte>, fd: int)
    requires NewId(None) !in args
    ensures var r := DecodeArgs(args, Walked(0, [], o, []), data, fd);
            r.Next? ==> |r.s.fields| == |args| && NonZero(r.s.intros) == NewReceived(args, R.SeenAll(r.s.fields))
  {
    hide DecodeArg, R.SeenAll;
    var w0 := Walked(0, [], o, []);
    if args == [] {
      assert R.SeenAll([]) == [];
    } else if DecodeArgs(args, w0, data, fd).Next? {
      var n := |args| - 1;
      assert args[n] in args;
      LogIsReceived(args[..n], o, data, fd);
      var m, r := DecodeArgs(args[..n], w0, data, fd).s, DecodeArgs(args, w0, data, fd).s;
      ArgField(args[n], m, data, fd);
      assert r.fields == m.fields + [r.fields[n]];
      R.SeenAppend(m.fields, r.fields[n]);
      assert R.SeenAll(r.fields)[..n] == R.SeenAll(m.fields) && R.SeenAll(r.fields)[n] == R.Seen(r.fields[n]);
      if args[n].NewId? { NonZeroStep(r.intros, m.intros); }
    }
  }

  /** Every logged ID that is not null is among the nonzero ones. */
  lemma {:induction false} LoggedAmong(log: seq<(nat, Word)>, i: nat)
    requires i < |log| && log[i].1 != 0
    ensures log[i].1 in NonZero(log)
  {
    var n := |log| - 1;
    if i < n { LoggedAmong(log[..n], i); }
  }

  /** Bytes that encode arguments of the declared types are decoded, whatever the descriptor, if
      the receiver can introduce the new objects; it then introduces them, and only them. */
  lemma EncodedDecodes(args: seq<Arg>, vals: seq<Value>, o: Objects, fd: int)
    requires AllTyped(args, vals) && NewId(None) !in args && |WireBody(vals)| <= MAX_FRAME && 0 !in o
    requires Distinct(NewIDs(vals)) && forall id :: id in NewIDs(vals) ==> Introducible(o, id)
    ensures var r := Decode(args, o, WireBody(vals), fd);
            && r.Next? && r == DecodeArgs(args, Walked(0, [], o, []), WireBody(vals), fd)
            && NonZero(r.s.intros) == NewIDs(vals) && Z.IntroducesOnlyFree(r.s.intros, o)
            && R.SeenAll(r.s.fields) == R.MeantAll(WithFD(vals, fd))
            && AllTyped(args, WithFD(vals, fd)) && R.BoundBy(args, WithFD(vals, fd), o, r.s.objects)
  {
    hide Decode, DecodeArgs, AllTyped, WireBody, NewIDs, R.Bindable, R.BoundBy, R.MeantAll, R.SeenAll, R.ExpandAll;
    hide NonZero, NewReceived, Distinct, Introducible;
    var sent := WithFD(vals, fd);
    WithFDTyped(args, vals, fd);
    FDNotInBody(vals, fd);
    SameNewIDs(vals, fd);
    E.NothingExpands(args);
    NewIDsBindable(args, sent, o);
    R.BindableExactly(args, sent, o);
    assert WireBody(sent) + [] == WireBody(vals);
    R.ArgsReadBack(args, sent, o, [], fd);
    DecoderWalks(args, o, WireBody(vals), fd);
    LogIsReceived(args, o, WireBody(vals), fd);
    NewIDsReceived(args, sent);
    LoggedAreFree(Decode(args, o, WireBody(vals), fd).s.intros, o);
  }

  lemma {:induction false} SameNewIDs(vals: seq<Value>, fd: int)
    ensures NewIDs(WithFD(vals, fd)) == NewIDs(vals)
  {
    if vals != [] {
      var n := |vals| - 1;
      SameNewIDs(vals[..n], fd);
      assert WithFD(vals, fd)[..n] == WithFD(vals[..n], fd);
    }
  }

  lemma LoggedAreFree(log: seq<(nat, Word)>, o: Objects)
    requires 0 !in o && forall id :: id in NonZero(log) ==> Introducible(o, id)
    ensures Z.IntroducesOnlyFree(log, o)
  {
    hide NonZero;
    forall i | 0 <= i < |log|
      ensures !Live(o, log[i].1)
    {
      if log[i].1 != 0 { LoggedAmong(log, i); }
    }
  }

  // ---- an event the protocol delivers is delivered

  lemma DeliverableBinds(ps: P.Proxies, o: Objects, sender: P.Ref, args: seq<P.Ref>, intros: seq<(P.Ref, P.Life)>)
    requires Same(ps, o) && P.Deliverable(ps, P.Event(sender, args, intros))
    ensures sender.id in o && Distinct(IDs(intros)) && forall id :: id in IDs(intros) ==> Introducible(o, id)
  {
  }

  lemma {:induction false} NoNewIDs(args: seq<Arg>, vals: seq<Value>)
    requires AllTyped(args, vals) && !HasNewId(args)
    ensures NewIDs(vals) == [] && NewKinds(args, vals) == []
  {
    if args != [] {
      var n := |args| - 1;
      R.PrefixTyped(args, vals, n);
      assert Typed(args[n], vals[n]) && !args[n].NewId?;
      assert forall i :: 0 <= i < n ==> !args[..n][i].NewId?;
      NoNewIDs(args[..n], vals[..n]);
    }
  }

  /** The types of the objects: new ones at some IDs, the others as they were. */
  ghost predicate Kinded(o: Objects, o': Objects, ids: seq<Word>, ks: seq<Kind>) {
    && |ids| == |ks|
    && (forall i :: 0 <= i < |ids| ==> ids[i] in o' && o'[ids[i]].kind == ks[i])
    && (forall id :: id in o' && id !in ids ==> id in o && o'[id].kind == o[id].kind)
  }

  /** The argument behind a new object. */
  lemma {:induction false} NewKindAt(args: seq<Arg>, vals: seq<Value>, k: nat) returns (i: nat)
    requires AllTyped(args, vals) && NewId(None) !in args && k < |NewIDs(vals)|
    ensures |NewKinds(args, vals)| == |NewIDs(vals)|
    ensures i < |vals| && vals[i] == NewV(NewIDs(vals)[k]) && vals[i].id != 0
    ensures args[i] == NewId(Some(NewKinds(args, vals)[k]))
  {
    var n := |vals| - 1;
    R.PrefixTyped(args, vals, n);
    SameNumber(args[..n], vals[..n]);
    assert Typed(args[n], vals[n]) && args[n] in args;
    if k < |NewIDs(vals[..n])| {
      i := NewKindAt(args[..n], vals[..n], k);
    } else {
      i := n;
    }
  }

  lemma {:induction false} SameNumber(args: seq<Arg>, vals: seq<Value>)
    requires AllTyped(args, vals) && NewId(None) !in args
    ensures |NewKinds(args, vals)| == |NewIDs(vals)|
  {
    if args != [] {
      var n := |args| - 1;
      R.PrefixTyped(args, vals, n);
      assert Typed(args[n], vals[n]) && args[n] in args;
      SameNumber(args[..n], vals[..n]);
    }
  }

  lemma BoundKinds(args: seq<Arg>, vals: seq<Value>, o: Objects, o': Objects)
    requires AllTyped(args, vals) && NewId(None) !in args && R.BoundBy(args, vals, o, o')
    ensures Kinded(o, o', NewIDs(vals), NewKinds(args, vals))
  {
    hide NewIDs, NewKinds, AllTyped;
    SameLength(args, vals);
    SameNumber(args, vals);
    var ids, ks := NewIDs(vals), NewKinds(args, vals);
    forall k | 0 <= k < |ids|
      ensures ids[k] in o' && o'[ids[k]].kind == ks[k]
    {
      var i := NewKindAt(args, vals, k);
      assert LiveOf(o', vals[i].id, args[i].iface.value);
    }
    forall id | id in o' && id !in ids
      ensures id in o && o'[id].kind == o[id].kind
    {
      forall i | 0 <= i < |vals|
        ensures !R.Introduces(vals[i], id)
      {
        if R.Introduces(vals[i], id) { NewIDAt(args, vals, i); }
      }
    }
  }

  lemma KindedShadows(o: Objects, o1: Objects, o2: Objects, ids: seq<Word>, ks: seq<Kind>)
    requires Kinded(o, o1, ids, ks) && Z.Shadows(o1, o2)
    ensures Kinded(o, o2, ids, ks)
  {
  }

  lemma KindedAlready(o: Objects)
    ensures Kinded(o, o, [], []) && Z.Shadows(o, o)
  {
  }

  /** The bytes of an event, for a live sender. */
  lemma LiveDelivery(e: Event, o: Objects, data: seq<byte>, vals: seq<Value>, fd: int, handled: bool)
    requires e.role == Plain && NewId(None) !in e.args && AllTyped(e.args, vals) && data == WireBody(vals)
    requires |data| <= MAX_FRAME && 0 !in o
    requires Distinct(NewIDs(vals)) && forall id :: id in NewIDs(vals) ==> Introducible(o, id)
    ensures var r := Decode(e.args, o, data, fd);
            && r.Next? && NonZero(r.s.intros) == NewIDs(vals) && Z.IntroducesOnlyFree(r.s.intros, o)
            && Kinded(o, r.s.objects, NewIDs(vals), NewKinds(e.args, vals))
    ensures !Z.Decodes(e, handled) ==> Kinded(o, o, NewIDs(vals), NewKinds(e.args, vals)) && NewIDs(vals) == []
  {
    hide Decode, DecodeArgs, WireBody, NewIDs, NewKinds, AllTyped, Distinct, Introducible, R.BoundBy, Kinded;
    SameLength(e.args, vals);
    EncodedDecodes(e.args, vals, o, fd);
    BoundKinds(e.args, WithFD(vals, fd), o, Decode(e.args, o, data, fd).s.objects);
    SameNewIDs(vals, fd);
    SameNewKinds(e.args, vals, fd);
    if !Z.Decodes(e, handled) {
      NoNewIDs(e.args, vals);
      KindedAlready(o);
    }
  }

  lemma {:induction false} SameNewKinds(args: seq<Arg>, vals: seq<Value>, fd: int)
    requires |args| == |vals|
    ensures NewKinds(args, WithFD(vals, fd)) == NewKinds(args, vals)
  {
    if vals != [] {
      var n := |vals| - 1;
      SameNewKinds(args[..n], vals[..n], fd);
      assert WithFD(vals, fd)[..n] == WithFD(vals[..n], fd);
    }
  }

  /** The bytes of an event, for a zombie. */
  lemma ZombieDelivery(iface: Interface, opcode: nat, o: Objects, data: seq<byte>, vals: seq<Value>, fd: int)
    requires opcode < |iface.events|
    requires var e := iface.events[opcode];
             e.role == Plain && NewId(None) !in e.args && AllTyped(e.args, vals) && data == WireBody(vals)
    requires |data| <= MAX_FRAME && 0 !in o
    requires Distinct(NewIDs(vals)) && forall id :: id in NewIDs(vals) ==> Introducible(o, id)
    ensures var e := iface.events[opcode];
            var r := Z.AbsorbNewIDs(iface, opcode, o, data);
            && r.Next? && Kinded(o, r.s, NewIDs(vals), NewKinds(e.args, vals))
            && if HasNewId(e.args) then
                 var a := AbsorbAll(e.args, o, data); a.Next? && NonZero(a.s.intros) == NewIDs(vals)
               else NewIDs(vals) == []
  {
    hide Decode, AbsorbAll, WireBody, NewIDs, NewKinds, AllTyped, Distinct, Introducible, Kinded, Z.Shadows, HasNewId;
    var e := iface.events[opcode];
    SameLength(e.args, vals);
    LiveDelivery(e, o, data, vals, fd, false);
    KindedAlready(o);
    if HasNewId(e.args) {
      Z.AbsorberFollowsDecoder(e.args, o, o, data, fd);
      KindedShadows(o, Decode(e.args, o, data, fd).s.objects, AbsorbAll(e.args, o, data).s.objects,
                    NewIDs(vals), NewKinds(e.args, vals));
    } else {
      NoNewIDs(e.args, vals);
    }
  }

  /** The main result on single messages: take an event that the object protocol can deliver, and
      the bytes of an event of the sender's type whose new_ids are the objects it introduces. The
      connection delivers them, to a live sender and to a zombie, with a handler and without, and
      with whatever descriptor: no unknown sender, no duplicate ID, no body that does not decode.
      Both sides have the same objects afterwards. */
  lemma EncodedIsDelivered(p: Protocol, o: Objects, ps: P.Proxies, m: Z.Message, vals: seq<Value>,
                           sender: P.Ref, args: seq<P.Ref>, intros: seq<(P.Ref, P.Life)>)
    requires Same(ps, o) && OneDisplay(o) && 0 !in o && m.sender == sender.id && |m.data| <= MAX_FRAME
    requires P.Deliverable(ps, P.Event(sender, args, intros))
    requires m.sender in o ==>
               var events := InterfaceOf(p, o[m.sender].kind).events;
               && m.opcode < |events|
               && var e := events[m.opcode];
                  && e.role == Plain && NewId(None) !in e.args && AllTyped(e.args, vals)
                  && m.data == WireBody(vals) && NewIDs(vals) == IDs(intros)
    ensures m.sender in o && Z.Deliver(p, o, m).Some?
    ensures var ps' := P.ClientReceives(ps, P.Event(sender, args, intros));
            ps'.Some? && Same(ps'.value, Z.Deliver(p, o, m).value)
    ensures var e := InterfaceOf(p, o[m.sender].kind).events[m.opcode];
            |e.args| == |vals| && Kinded(o, Z.Deliver(p, o, m).value, NewIDs(vals), NewKinds(e.args, vals))
  {
    hide Decode, AbsorbAll, WireBody, NewIDs, NewKinds, AllTyped, Distinct, Introducible, Kinded, IDs, NonZero, HasNewId;
    hide Same, P.Deliverable, P.BindAll;
    DeliverableBinds(ps, o, sender, args, intros);
    SameSenders(ps, o);
    var obj := o[m.sender];
    var iface := InterfaceOf(p, obj.kind);
    var e := iface.events[m.opcode];
    SameLength(e.args, vals);
    if obj.zombie && obj.kind != DISPLAY {
      ZombieDelivery(iface, m.opcode, o, m.data, vals, m.fd);
    } else {
      LiveDelivery(e, o, m.data, vals, m.fd, m.handled);
    }
    EventIsDelivery(p, o, ps, m, sender, args, intros);
  }

  lemma SameSenders(ps: P.Proxies, o: Objects)
    requires Same(ps, o)
    ensures forall id :: id in ps <==> id in o
  {
  }

  // ---- what the two sides keep

  /** No event introduces a display. */
  predicate OnlyOneDisplay(p: Protocol) {
    forall k, e, i :: 0 <= k < |p| && 0 <= e < |p[k].events| && 0 <= i < |p[k].events[e].args| ==>
      p[k].events[e].args[i] != NewId(Some(DISPLAY))
  }

  /** The client's object map, and its proxies in the object protocol. */
  ghost predicate Agree(kinds: Types, ps: P.Proxies, o: Objects) {
    Matches(kinds, ps, o) && OneDisplay(o) && 0 !in o
  }

  /** The delete_id event carries the ID. */
  lemma DeleteDecodes(o: Objects, id: Word, fd: int)
    requires 0 !in o
    ensures |WireBody([UintV(id)])| == 4
    ensures var r := Decode([Uint], o, WireBody([UintV(id)]), fd); r.Next? && Z.DeletedId(r.s.fields) == id && r.s.objects == o
  {
    hide Decode, R.BoundBy, Bytes32, Uint32;
    var vals := [UintV(id)];
    assert vals[..0] == [] && [Uint][..0] == [];
    assert WireBody(vals) == [] + Bytes32(id);
    assert NewIDs(vals) == [];
    EncodedDecodes([Uint], vals, o, fd);
    assert WithFD(vals, fd) == vals;
    assert R.MeantAll(vals) == [R.UintR(id)];
    var r := Decode([Uint], o, WireBody(vals), fd);
    assert R.SeenAll(r.s.fields)[0] == R.Seen(r.s.fields[0]);
    Z.NothingIntroduced([Uint], Walked(0, [], o, []), WireBody(vals), fd);
  }

  /** After an event, each of its objects is at its ID, and the others are where they were. */
  lemma ReceivedIncarnations(ps: P.Proxies, sender: P.Ref, args: seq<P.Ref>, intros: seq<(P.Ref, P.Life)>)
    requires P.Deliverable(ps, P.Event(sender, args, intros))
    ensures var r := P.ClientReceives(ps, P.Event(sender, args, intros));
            && r.Some?
            && (forall i :: 0 <= i < |intros| ==> P.Hits(r.value, intros[i].0))
            && (forall id :: id in r.value && id !in P.IntroIds(intros) ==> id in ps && r.value[id] == ps[id])
            && (forall id :: id in P.IntroIds(intros) ==> id >= FIRST_SERVER_ID)
  {
    hide P.ClientReceives, P.ProxiesOf, P.ResourcesOf;
    var z := P.UnderZombie(ps, sender);
    P.DeliverableIsDelivered(ps, P.Event(sender, args, intros));
    P.IntrosMatch(intros, z);
    forall i | 0 <= i < |intros|
      ensures P.Hits(ps + P.ProxiesOf(intros, z), intros[i].0)
    {
      P.IntroAt(intros, i);
    }
  }

  lemma IDsAreIntros(intros: seq<(P.Ref, P.Life)>)
    ensures forall id :: id in IDs(intros) <==> id in P.IntroIds(intros)
    ensures forall i :: 0 <= i < |intros| ==> intros[i].0.id == IDs(intros)[i]
  {
    forall id | id in P.IntroIds(intros)
      ensures id in IDs(intros)
    {
      var i :| 0 <= i < |intros| && intros[i].0.id == id;
      assert IDs(intros)[i] == id;
    }
  }

  lemma KindedAgrees(kinds: Types, ps: P.Proxies, o: Objects, ps': P.Proxies, o': Objects, intros: seq<(P.Ref, P.Life)>)
    requires Agree(kinds, ps, o) && Same(ps', o') && Kinded(o, o', IDs(intros), KindsOf(kinds, intros))
    requires DISPLAY !in KindsOf(kinds, intros)
    requires forall i :: 0 <= i < |intros| ==> P.Hits(ps', intros[i].0)
    requires forall id :: id in ps' && id !in P.IntroIds(intros) ==> id in ps && ps'[id] == ps[id]
    requires forall id :: id in P.IntroIds(intros) ==> id >= FIRST_SERVER_ID
    ensures Agree(kinds, ps', o')
  {
    hide IDs, P.IntroIds;
    IDsAreIntros(intros);
    forall id | id in o'
      ensures o'[id].kind == kinds(ps'[id].inc) && (o'[id].kind == DISPLAY <==> id == DISPLAY_ID)
    {
      if id in IDs(intros) {
        var i :| 0 <= i < |IDs(intros)| && IDs(intros)[i] == id;
        assert P.Hits(ps', intros[i].0);
        assert o'[id].kind == KindsOf(kinds, intros)[i] && o'[id].kind in KindsOf(kinds, intros);
      }
    }
  }

  lemma {:induction false} NoNewDisplays(args: seq<Arg>, vals: seq<Value>)
    requires |args| == |vals| && forall i :: 0 <= i < |args| ==> args[i] != NewId(Some(DISPLAY))
    ensures DISPLAY !in NewKinds(args, vals)
  {
    if args != [] { NoNewDisplays(args[..|args| - 1], vals[..|args| - 1]); }
  }

  /** A message of the protocol that can be delivered, and its bytes: the connection delivers them,
      and both sides have the same objects afterwards, of the same types. */
  lemma EncodedIsReceived(p: Protocol, kinds: Types, o: Objects, ps: P.Proxies, f: Frame, vals: seq<Value>,
                          m: P.FromServer, handled: bool, fd: int)
    requires Z.WellFormed(p) && OnlyOneDisplay(p) && Agree(kinds, ps, o) && |f.body| <= MAX_FRAME
    requires P.Deliverable(ps, m) && Encodes(p, kinds, f, vals, m)
    ensures f.sender in o && Z.Deliver(p, o, Z.Message(f.sender, f.opcode, f.body, handled, fd)).Some?
    ensures var ps' := P.ClientReceives(ps, m);
            ps'.Some? && Agree(kinds, ps'.value, Z.Deliver(p, o, Z.Message(f.sender, f.opcode, f.body, handled, fd)).value)
  {
    hide Z.Deliver, WireBody, NewIDs, NewKinds, AllTyped, Kinded, IDs, KindsOf, Agree, Decode, P.Deliverable, P.ClientReceives;
    hide Z.DeletedId;
    var message := Z.Message(f.sender, f.opcode, f.body, handled, fd);
    AgreeParts(kinds, ps, o);
    match m {
      case Event(sender, args, intros) =>
        SenderKind(kinds, ps, o, sender, args, intros);
        EncodedIsDelivered(p, o, ps, message, vals, sender, args, intros);
        ReceivedIncarnations(ps, sender, args, intros);
        var kind := o[f.sender].kind;
        var e := InterfaceOf(p, kind).events[f.opcode];
        assert p[kind].events[f.opcode] == e;
        NoNewDisplays(e.args, vals);
        KindedAgrees(kinds, ps, o, P.ClientReceives(ps, m).value, Z.Deliver(p, o, message).value, intros);
      case DeleteId(id, inc) =>
        DisplayHeld(kinds, ps, o, id, inc);
        var e := InterfaceOf(p, DISPLAY).events[f.opcode];
        assert p[DISPLAY].events[f.opcode] == e;
        DeleteDecodes(o, id, fd);
        DeleteIsDelivery(p, o, ps, message, id, inc);
        DeletedDelivery(p, o, message, id);
        DeletedAgrees(kinds, ps, o, id, inc);
    }
  }

  lemma AgreeParts(kinds: Types, ps: P.Proxies, o: Objects)
    requires Agree(kinds, ps, o)
    ensures Same(ps, o) && OneDisplay(o) && 0 !in o
  {
  }

  lemma SenderKind(kinds: Types, ps: P.Proxies, o: Objects, sender: P.Ref, args: seq<P.Ref>, intros: seq<(P.Ref, P.Life)>)
    requires Agree(kinds, ps, o) && P.Deliverable(ps, P.Event(sender, args, intros))
    ensures sender.id in o && o[sender.id].kind == kinds(sender.inc)
  {
  }

  lemma DisplayHeld(kinds: Types, ps: P.Proxies, o: Objects, id: Word, inc: P.Incarnation)
    requires Agree(kinds, ps, o) && P.Deliverable(ps, P.DeleteId(id, inc))
    ensures DISPLAY_ID in o && o[DISPLAY_ID].kind == DISPLAY && id != DISPLAY_ID && id in o
  {
  }

  lemma DeletedDelivery(p: Protocol, o: Objects, m: Z.Message, id: Word)
    requires Z.WellFormed(p) && m.sender in o && o[m.sender].kind == DISPLAY
    requires var events := InterfaceOf(p, DISPLAY).events; m.opcode < |events| && events[m.opcode].role == DeleteIdEvent
    requires var r := Decode([Uint], o, m.data, m.fd); r.Next? && Z.DeletedId(r.s.fields) == id && r.s.objects == o
    ensures Z.Deliver(p, o, m) == Some(o - {id})
  {
    hide Decode, Z.DeletedId;
    assert p[DISPLAY].events[m.opcode] == InterfaceOf(p, DISPLAY).events[m.opcode];
  }

  lemma DeletedAgrees(kinds: Types, ps: P.Proxies, o: Objects, id: Word, inc: P.Incarnation)
    requires Agree(kinds, ps, o) && P.Deliverable(ps, P.DeleteId(id, inc))
    ensures P.ClientReceives(ps, P.DeleteId(id, inc)) == Some(ps - {id}) && Agree(kinds, ps - {id}, o - {id})
  {
  }

  // ---- the objects an event refers to

  lemma NothingMeant()
    ensures R.MeantAll([]) == []
  {
  }

  lemma {:induction false} MeantEach(args: seq<Arg>, vals: seq<Value>, i: nat)
    requires AllTyped(args, vals) && NewId(None) !in args && i < |vals|
    ensures |R.MeantAll(vals)| == |vals| && [R.MeantAll(vals)[i]] == R.Meant(vals[i])
  {
    hide R.MeantAll, R.Meant;
    var n := |vals| - 1;
    R.PrefixTyped(args, vals, n);
    assert Typed(args[n], vals[n]) && args[n] in args;
    MeantLast(args[n], vals);
    NothingMeant();
    if n > 0 { MeantEach(args[..n], vals[..n], if i < n then i else 0); }
  }

  lemma {:induction false} RefIDAt(vals: seq<Value>, i: nat) returns (j: nat)
    requires i < |vals| && RefID(vals[i]) != []
    ensures j < |RefIDs(vals)| && [RefIDs(vals)[j]] == RefID(vals[i])
  {
    var n := |vals| - 1;
    if i < n {
      assert vals[..n][i] == vals[i];
      j := RefIDAt(vals[..n], i);
    } else {
      j := |RefIDs(vals[..n])|;
    }
  }

  lemma SeenAt(fields: seq<Field>, i: nat)
    requires i < |fields|
    ensures R.SeenAll(fields)[i] == R.Seen(fields[i])
  {
  }

  /** An object argument of an event that the protocol delivers to a live sender: it is one of the
      objects the event is about, and the incarnation the server meant is registered at its ID.
      The handler gets that object unless the client has destroyed it, or it is of another type
      than the argument is declared with. */
  lemma ReferenceReaches(p: Protocol, kinds: Types, o: Objects, ps: P.Proxies, f: Frame, vals: seq<Value>,
                         sender: P.Ref, args: seq<P.Ref>, intros: seq<(P.Ref, P.Life)>, fd: int, i: nat)
    returns (j: nat)
    requires Agree(kinds, ps, o) && P.Deliverable(ps, P.Event(sender, args, intros)) && |f.body| <= MAX_FRAME
    requires Encodes(p, kinds, f, vals, P.Event(sender, args, intros)) && i < |vals|
    requires vals[i].RefV? && vals[i].target.Some? && vals[i].target.value != 0
    ensures j < |args| && args[j].id == vals[i].target.value && P.Hits(ps, args[j])
    ensures var a := InterfaceOf(p, kinds(sender.inc)).events[f.opcode].args;
            var r := Decode(a, o, f.body, fd);
            && r.Next? && i < |a| && a[i].Object? && i < |r.s.fields|
            && R.Seen(r.s.fields[i]) == R.IdR(args[j].id)
            && (a[i].iface.Some? ==>
                 && r.s.fields[i].RefF?
                 && (a[i].iface.value == kinds(args[j].inc) && !ps[args[j].id].zombie ==> r.s.fields[i].bound)
                 && (r.s.fields[i].bound ==> LiveOf(r.s.objects, args[j].id, a[i].iface.value)))
  {
    hide Decode, DecodeArgs, AllTyped, WireBody, NewIDs, NewKinds, RefIDs, R.MeantAll, R.SeenAll, R.BoundBy, NonZero, IDs;
    hide Distinct, Introducible;
    var e := InterfaceOf(p, kinds(sender.inc)).events[f.opcode];
    j := RefIDAt(vals, i);
    assert RefsOf(args)[j] == args[j].id;
    DeliverableBinds(ps, o, sender, args, intros);
    EncodedDecodes(e.args, vals, o, fd);
    TypedAt(e.args, vals, i);
    var fields := Decode(e.args, o, f.body, fd).s.fields;
    MeantEach(e.args, WithFD(vals, fd), i);
    E.FieldsAreBound(e.args, Walked(0, [], o, []), f.body, fd);
    SameLength(e.args, vals);
    SeenAt(fields, i);
    assert E.Bound(e.args[i], fields[i], o, Decode(e.args, o, f.body, fd).s.objects);
    assert R.Meant(WithFD(vals, fd)[i]) == [R.IdR(args[j].id)];
  }

  lemma TypedAt(args: seq<Arg>, vals: seq<Value>, i: nat)
    requires AllTyped(args, vals) && i < |vals|
    ensures i < |args| && Typed(args[i], vals[i])
  {
  }

  // ---- requests as bytes

  /** The arguments of a request of the protocol: its new object and the objects it is about. */
  predicate Says(vals: seq<Value>, q: P.Request) {
    && NewIDs(vals) == (if q.New? then [q.id] else [])
    && RefIDs(vals) == (if q.Destroy? then [] else RefsOf(q.args))
  }

  /** A frame from the object that a request of the protocol comes from, with such arguments. */
  ghost predicate FrameOf(b: seq<byte>, q: P.Request) {
    exists opcode: nat, vals: seq<Value> :: b == WireFrame(P.About(q)[0].id, opcode, WireBody(vals)) && Says(vals, q)
  }

  lemma SaidIsFrame(b: seq<byte>, q: P.Request, opcode: nat, vals: seq<Value>)
    requires b == WireFrame(P.About(q)[0].id, opcode, WireBody(vals)) && Says(vals, q)
    ensures FrameOf(b, q)
  {
  }

  /** The frames are those requests, one by one. */
  ghost predicate Wrote(sent: seq<seq<byte>>, qs: seq<P.Request>) {
    |sent| == |qs| && forall i :: 0 <= i < |sent| ==> FrameOf(sent[i], qs[i])
  }

  lemma WroteMore(sent: seq<seq<byte>>, qs: seq<P.Request>, more: seq<seq<byte>>, rs: seq<P.Request>)
    requires Wrote(sent, qs) && Wrote(more, rs)
    ensures Wrote(sent + more, qs + rs)
  {
    hide FrameOf;
  }
}
