/** The zombie walk does for a destroyed proxy what the decoding walk does for a live one, so
    that destroying proxies at any moment never makes the connection lose track of an object. */
module Zombies {
  import opened Wire
  import opened Registry
  import opened Signature
  import opened Decoder
  import RoundTrip

  /** The same objects are registered, with the same types, and at least as many are zombies. */
  ghost predicate Shadows(o: Objects, o': Objects) {
    && o.Keys == o'.Keys
    && (forall id :: id in o ==> o[id].kind == o'[id].kind && (o[id].zombie ==> o'[id].zombie))
  }

  /** No ID the walk introduced was held by a live object beforehand. */
  predicate IntroducesOnlyFree(intros: seq<(nat, Word)>, o: Objects) {
    forall i :: 0 <= i < |intros| ==> !Live(o, intros[i].1)
  }

  predicate AmongIntros(intros: seq<(nat, Word)>, id: Word) {
    exists i :: 0 <= i < |intros| && intros[i].1 == id
  }

  // ---- one argument, two walks side by side

  /** Same cursor, same log; all introduced IDs are zombies on the right. */
  ghost predicate Mirrors(w: Walked, w': Walked, all: seq<(nat, Word)>) {
    && w.l == w'.l && w.intros == w'.intros
    && Shadows(w.objects, w'.objects)
    && IntroducesOnlyFree(all, w'.objects)
    && (forall i :: 0 <= i < |all| && Live(w.objects, all[i].1) ==> all[i].1 >= FIRST_SERVER_ID)
  }

  /** Same cursor, same log, same plain fields; introduced IDs are live on both sides or on none. */
  ghost predicate Agrees(w: Walked, w': Walked, all: seq<(nat, Word)>) {
    && w.l == w'.l && w.intros == w'.intros
    && RoundTrip.SeenAll(w.fields) == RoundTrip.SeenAll(w'.fields)
    && Shadows(w.objects, w'.objects)
    && (forall i :: 0 <= i < |all| ==> (Live(w.objects, all[i].1) <==> Live(w'.objects, all[i].1)))
  }

  lemma DecodeArgLog(a: Arg, w: Walked, data: seq<byte>, fd: int)
    ensures var r := DecodeArg(a, w, data, fd); r.Next? ==> w.intros <= r.s.intros
    ensures var r := AbsorbArg(a, w, data); r.Next? ==> w.intros <= r.s.intros
  {
    hide Uint32, PaddedLen, FirstNul, CString;
  }

  /** The absorber's step beside the decoder's. */
  lemma ArgMirrored(a: Arg, w: Walked, w': Walked, data: seq<byte>, fd: int, all: seq<(nat, Word)>)
    requires Mirrors(w, w', all)
    requires var r := DecodeArg(a, w, data, fd); r.Next? && r.s.intros <= all
    ensures var r' := AbsorbArg(a, w', data);
            r'.Next? && Mirrors(DecodeArg(a, w, data, fd).s, r'.s, all)
  {
    hide Uint32, PaddedLen, FirstNul, CString;
    if a.NewId? && a.iface.Some? {
      var v := WordAt(data, w.l).value;
      var r := DecodeArg(a, w, data, fd).s;
      assert r.intros[|w.intros|] == (w.l, v);
      assert all[|w.intros|].1 == v;
    }
  }

  lemma FieldsAgree(w: Walked, w': Walked, f: Field, f': Field)
    requires RoundTrip.SeenAll(w.fields) == RoundTrip.SeenAll(w'.fields)
    requires RoundTrip.Seen(f) == RoundTrip.Seen(f')
    ensures RoundTrip.SeenAll(WithField(w, f).fields) == RoundTrip.SeenAll(WithField(w', f').fields)
  {
    RoundTrip.SeenAppend(w.fields, f);
    RoundTrip.SeenAppend(w'.fields, f');
  }

  lemma IntroductionAgreed(w: Walked, w': Walked, id: Word, kind: Kind, all: seq<(nat, Word)>)
    requires Agrees(w, w', all)
    requires var r := Introduce(w, id, kind); r.Next? && r.s.intros <= all
    ensures var r' := Introduce(w', id, kind);
            r'.Next? && Agrees(Introduce(w, id, kind).s, r'.s, all)
  {
    hide RoundTrip.SeenAll;
    var r := Introduce(w, id, kind).s;
    assert r.intros[|w.intros|] == (w.l, id);
    assert all[|w.intros|].1 == id;
    FieldsAgree(w, w', NewF(id, true), NewF(id, true));
    FieldsAgree(w, w', NewF(id, false), NewF(id, false));
  }

  /** The decoder's step beside the decoder's. */
  lemma ArgAgreed(a: Arg, w: Walked, w': Walked, data: seq<byte>, fd: int, all: seq<(nat, Word)>)
    requires Agrees(w, w', all)
    requires var r := DecodeArg(a, w, data, fd); r.Next? && r.s.intros <= all
    ensures var r' := DecodeArg(a, w', data, fd);
            r'.Next? && Agrees(DecodeArg(a, w, data, fd).s, r'.s, all)
  {
    hide Uint32, PaddedLen, TextIn, ToInt32, RoundTrip.SeenAll, Introduce, Live, Measure;
    if a.NewId? && a.iface.Some? {
      IntroductionAgreed(w, w', WordAt(data, w.l).value, a.iface.value, all);
    } else {
      var r, r' := DecodeArg(a, w, data, fd), DecodeArg(a, w', data, fd);
      assert r'.Next?;
      FieldsAgree(w, w', r.s.fields[|w.fields|], r'.s.fields[|w'.fields|]);
    }
  }

  /** The absorber's step beside the absorber's. */
  lemma ArgShadowed(a: Arg, w: Walked, w': Walked, data: seq<byte>)
    requires w.l == w'.l && w.intros == w'.intros && Shadows(w.objects, w'.objects)
    requires AbsorbArg(a, w, data).Next?
    ensures var r, r' := AbsorbArg(a, w, data), AbsorbArg(a, w', data);
            r'.Next? && r.s.l == r'.s.l && r.s.intros == r'.s.intros && Shadows(r.s.objects, r'.s.objects)
  {
    hide Uint32, PaddedLen;
  }

  // ---- a whole event

  lemma {:induction false} ArgsMirrored(args: seq<Arg>, w: Walked, w': Walked, data: seq<byte>, fd: int, all: seq<(nat, Word)>)
    requires Mirrors(w, w', all)
    requires var r := DecodeArgs(args, w, data, fd); r.Next? && r.s.intros <= all
    ensures var r' := AbsorbArgs(args, w', data);
            r'.Next? && Mirrors(DecodeArgs(args, w, data, fd).s, r'.s, all)
  {
    hide DecodeArg, AbsorbArg, Mirrors;
    if args != [] {
      var n := |args| - 1;
      var m := DecodeArgs(args[..n], w, data, fd).s;
      DecodeArgLog(args[n], m, data, fd);
      ArgsMirrored(args[..n], w, w', data, fd, all);
      ArgMirrored(args[n], m, AbsorbArgs(args[..n], w', data).s, data, fd, all);
    }
  }

  lemma {:induction false} ArgsAgreed(args: seq<Arg>, w: Walked, w': Walked, data: seq<byte>, fd: int, all: seq<(nat, Word)>)
    requires Agrees(w, w', all)
    requires var r := DecodeArgs(args, w, data, fd); r.Next? && r.s.intros <= all
    ensures var r' := DecodeArgs(args, w', data, fd);
            r'.Next? && Agrees(DecodeArgs(args, w, data, fd).s, r'.s, all)
  {
    hide DecodeArg, Agrees;
    if args != [] {
      var n := |args| - 1;
      var m := DecodeArgs(args[..n], w, data, fd).s;
      DecodeArgLog(args[n], m, data, fd);
      ArgsAgreed(args[..n], w, w', data, fd, all);
      ArgAgreed(args[n], m, DecodeArgs(args[..n], w', data, fd).s, data, fd, all);
    }
  }

  lemma {:induction false} ArgsShadowed(args: seq<Arg>, w: Walked, w': Walked, data: seq<byte>)
    requires w.l == w'.l && w.intros == w'.intros && Shadows(w.objects, w'.objects)
    requires AbsorbArgs(args, w, data).Next?
    ensures var r, r' := AbsorbArgs(args, w, data), AbsorbArgs(args, w', data);
            r'.Next? && r.s.l == r'.s.l && r.s.intros == r'.s.intros && Shadows(r.s.objects, r'.s.objects)
  {
    hide AbsorbArg;
    if args != [] {
      var n := |args| - 1;
      ArgsShadowed(args[..n], w, w', data);
      ArgShadowed(args[n], AbsorbArgs(args[..n], w, data).s, AbsorbArgs(args[..n], w', data).s, data);
    }
  }

  /** The main result on one event: wherever the generated Dispatch succeeds without meeting a
      live object at an ID it introduces, the generated AbsorbNewIDs succeeds too, even if more
      objects are zombies. It reads every new_id at the same offset, ends at the same place,
      registers the same IDs with the same types, and all of them are zombies. */
  lemma AbsorberFollowsDecoder(args: seq<Arg>, o: Objects, o': Objects, data: seq<byte>, fd: int)
    requires |data| < 0x1_0000_0000_0000_0000
    requires Shadows(o, o')
    requires var r := Decode(args, o, data, fd); r.Next? && IntroducesOnlyFree(r.s.intros, o)
    ensures var w := Decode(args, o, data, fd).s;
            var r' := AbsorbAll(args, o', data);
            && r'.Next?
            && r'.s.l == w.l && r'.s.intros == w.intros
            && Shadows(w.objects, r'.s.objects)
            && (forall id :: AmongIntros(w.intros, id) && id in w.objects ==> r'.s.objects[id].zombie)
  {
    hide DecodeArgs, AbsorbArgs, Decode, AbsorbAll;
    DecoderWalks(args, o, data, fd);
    AbsorberWalks(args, o', data);
    var w0, w0' := Walked(0, [], o, []), Walked(0, [], o', []);
    var all := Decode(args, o, data, fd).s.intros;
    ArgsMirrored(args, w0, w0', data, fd, all);
  }

  /** A live proxy decodes the same event just as well when other objects have become zombies. */
  lemma DecoderIgnoresZombies(args: seq<Arg>, o: Objects, o': Objects, data: seq<byte>, fd: int)
    requires |data| < 0x1_0000_0000_0000_0000
    requires Shadows(o, o')
    requires var r := Decode(args, o, data, fd); r.Next? && IntroducesOnlyFree(r.s.intros, o)
    ensures var w := Decode(args, o, data, fd).s;
            var r' := Decode(args, o', data, fd);
            && r'.Next?
            && Shadows(w.objects, r'.s.objects)
            && RoundTrip.SeenAll(w.fields) == RoundTrip.SeenAll(r'.s.fields)
  {
    hide DecodeArgs, Decode;
    DecoderWalks(args, o, data, fd);
    DecoderWalks(args, o', data, fd);
    ArgsAgreed(args, Walked(0, [], o, []), Walked(0, [], o', []), data, fd, Decode(args, o, data, fd).s.intros);
  }

  lemma AbsorberIgnoresZombies(args: seq<Arg>, o: Objects, o': Objects, data: seq<byte>)
    requires |data| < 0x1_0000_0000_0000_0000
    requires Shadows(o, o') && AbsorbAll(args, o, data).Next?
    ensures var r' := AbsorbAll(args, o', data);
            r'.Next? && Shadows(AbsorbAll(args, o, data).s.objects, r'.s.objects)
  {
    hide AbsorbArgs, AbsorbAll;
    AbsorberWalks(args, o, data);
    AbsorberWalks(args, o', data);
    ArgsShadowed(args, Walked(0, [], o, []), Walked(0, [], o', []), data);
  }

  lemma {:induction false} NothingIntroduced(args: seq<Arg>, w: Walked, data: seq<byte>, fd: int)
    requires !HasNewId(args)
    ensures var r := DecodeArgs(args, w, data, fd); r.Next? ==> r.s.objects == w.objects
  {
    hide Uint32, PaddedLen, FirstNul, CString, ToInt32;
    if args != [] {
      var n := |args| - 1;
      assert !args[n].NewId?;
      forall i | 0 <= i < n
        ensures !args[..n][i].NewId?
      {
        assert !args[i].NewId?;
      }
      NothingIntroduced(args[..n], w, data, fd);
    }
  }

  // ---- whole runs

  /** An incoming message; handled says whether the application set a handler for it, and fd is
      the descriptor it is dispatched with. */
  datatype Message = Message(sender: Word, opcode: nat, data: seq<byte>, handled: bool, fd: int)

  /** Only wl_display has events with an extra effect, and delete_id carries one ID. */
  predicate WellFormed(p: Protocol) {
    forall k, e :: 0 <= k < |p| && 0 <= e < |p[k].events| ==>
      && (p[k].events[e].role != Plain ==> k == DISPLAY)
      && (p[k].events[e].role == DeleteIdEvent ==> p[k].events[e].args == [Uint])
  }

  function DeletedId(fields: seq<Field>): Word {
    if |fields| == 1 && fields[0].UintF? then fields[0].w else 0
  }

  /** The generated AbsorbNewIDs: a switch over the events that introduce objects. */
  function AbsorbNewIDs(iface: Interface, opcode: nat, o: Objects, data: seq<byte>): Outcome<Objects> {
    if opcode < |iface.events| && HasNewId(iface.events[opcode].args) then
      match AbsorbAll(iface.events[opcode].args, o, data)
      case Panic(o') => Panic(o')
      case Next(w) => Next(w.objects)
    else Next(o)
  }

  /** Whether the generated Dispatch decodes the event at all. */
  predicate Decodes(e: Event, handled: bool) {
    handled || e.role != Plain || HasNewId(e.args)
  }

  /** What delivering a message does to the object map; None ends the connection. */
  function Deliver(p: Protocol, o: Objects, m: Message): Option<Objects> {
    if m.sender !in o then None
    else
      var obj := o[m.sender];
      var iface := InterfaceOf(p, obj.kind);
      if obj.zombie && obj.kind != DISPLAY then
        match AbsorbNewIDs(iface, m.opcode, o, m.data)
        case Panic(_) => None
        case Next(o') => Some(o')
      else if m.opcode >= |iface.events| then None
      else
        var e := iface.events[m.opcode];
        if !Decodes(e, m.handled) then Some(o)
        else
          match Decode(e.args, o, m.data, m.fd)
          case Panic(_) => None
          case Next(w) =>
            match e.role
            case Plain => Some(w.objects)
            case DeleteIdEvent => Some(w.objects - {DeletedId(w.fields)})
            case DisplayErrorEvent => None
  }

  /** The IDs a live sender's message introduces are not held by live objects. */
  predicate Orderly(p: Protocol, o: Objects, m: Message) {
    m.sender in o ==>
      var e := InterfaceOf(p, o[m.sender].kind).events;
      m.opcode < |e| && (!o[m.sender].zombie || o[m.sender].kind == DISPLAY) ==>
        var r := Decode(e[m.opcode].args, o, m.data, m.fd);
        r.Next? ==> IntroducesOnlyFree(r.s.intros, o)
  }

  /** A delivery, or the application destroying the proxy at an ID. */
  datatype Happening = Arrives(m: Message) | Destroyed(id: Word)

  function Happen(p: Protocol, o: Objects, h: Happening): Option<Objects> {
    match h
    case Arrives(m) => Deliver(p, o, m)
    case Destroyed(id) => Some(if id in o then o[id := o[id].(zombie := true)] else o)
  }

  function HappenAll(p: Protocol, o: Objects, hs: seq<Happening>): Option<Objects>
    decreases |hs|
  {
    if hs == [] then Some(o)
    else
      match Happen(p, o, hs[0])
      case None => None
      case Some(o') => HappenAll(p, o', hs[1..])
  }

  /** Each delivery of a run that survives meets no live object at an ID it introduces. A server
      may reuse an ID: a destroyed object is not live. */
  predicate OrderlyRun(p: Protocol, o: Objects, hs: seq<Happening>)
    decreases |hs|
  {
    hs == [] ||
    (&& (hs[0].Arrives? ==> Orderly(p, o, hs[0].m))
     && match Happen(p, o, hs[0])
        case None => true
        case Some(o') => OrderlyRun(p, o', hs[1..]))
  }

  /** more is hs with destructions inserted anywhere. */
  predicate Inserts(hs: seq<Happening>, more: seq<Happening>)
    decreases |more|
  {
    if more == [] then hs == []
    else
      || (hs != [] && hs[0] == more[0] && Inserts(hs[1..], more[1..]))
      || (more[0].Destroyed? && Inserts(hs, more[1..]))
  }

  predicate SmallBodies(hs: seq<Happening>) {
    forall i :: 0 <= i < |hs| && hs[i].Arrives? ==> |hs[i].m.data| <= MAX_FRAME
  }

  lemma DeliverShadowed(p: Protocol, o: Objects, o': Objects, m: Message)
    requires WellFormed(p) && Shadows(o, o') && |m.data| <= MAX_FRAME
    requires Deliver(p, o, m).Some? && Orderly(p, o, m)
    ensures Deliver(p, o', m).Some?
    ensures Shadows(Deliver(p, o, m).value, Deliver(p, o', m).value)
  {
    hide Decode, AbsorbAll;
    var obj, obj' := o[m.sender], o'[m.sender];
    var iface := InterfaceOf(p, obj.kind);
    if obj.zombie && obj.kind != DISPLAY {
      if m.opcode < |iface.events| && HasNewId(iface.events[m.opcode].args) {
        AbsorberIgnoresZombies(iface.events[m.opcode].args, o, o', m.data);
      }
    } else {
      var e := iface.events[m.opcode];
      if Decodes(e, m.handled) {
        if obj'.zombie && obj'.kind != DISPLAY {
          assert p[obj.kind].events[m.opcode] == e;
          if !HasNewId(e.args) {
            DecoderWalks(e.args, o, m.data, m.fd);
            NothingIntroduced(e.args, Walked(0, [], o, []), m.data, m.fd);
          }
          AbsorberFollowsDecoder(e.args, o, o', m.data, m.fd);
        } else {
          DecoderIgnoresZombies(e.args, o, o', m.data, m.fd);
          SameDeletedId(Decode(e.args, o, m.data, m.fd).s.fields, Decode(e.args, o', m.data, m.fd).s.fields);
        }
      }
    }
  }

  lemma SameDeletedId(f: seq<Field>, f': seq<Field>)
    requires RoundTrip.SeenAll(f) == RoundTrip.SeenAll(f')
    ensures DeletedId(f) == DeletedId(f')
  {
    assert |f| == |f'|;
    if |f| == 1 {
      assert RoundTrip.SeenAll(f)[0] == RoundTrip.Seen(f[0]);
      assert RoundTrip.SeenAll(f')[0] == RoundTrip.Seen(f'[0]);
    }
  }

  lemma DestroyedShadowed(o: Objects, o': Objects, id: Word)
    requires Shadows(o, o')
    ensures forall p :: Shadows(o, Happen(p, o', Destroyed(id)).value)
    ensures forall p :: Shadows(Happen(p, o, Destroyed(id)).value, Happen(p, o', Destroyed(id)).value)
  {
  }

  /** The main result on whole runs: take any run of messages and destructions that a connection
      survives, reused IDs included, and let the application destroy further proxies at any
      moments in between. The connection survives the longer run too: no unknown sender, no
      duplicate ID and no truncated event appear, however deeply the introductions nest, and
      the same IDs are registered at the end. */
  lemma {:induction false} DestroyingIsHarmless(p: Protocol, o: Objects, o': Objects, hs: seq<Happening>, more: seq<Happening>)
    requires WellFormed(p) && Shadows(o, o') && SmallBodies(hs) && Inserts(hs, more)
    requires HappenAll(p, o, hs).Some? && OrderlyRun(p, o, hs)
    ensures HappenAll(p, o', more).Some?
    ensures Shadows(HappenAll(p, o, hs).value, HappenAll(p, o', more).value)
    decreases |more|
  {
    hide Deliver, Orderly, Shadows;
    if more != [] {
      if hs != [] && hs[0] == more[0] && Inserts(hs[1..], more[1..]) {
        if hs[0].Arrives? {
          DeliverShadowed(p, o, o', hs[0].m);
        } else {
          DestroyedShadowed(o, o', hs[0].id);
        }
        DestroyingIsHarmless(p, Happen(p, o, hs[0]).value, Happen(p, o', hs[0]).value, hs[1..], more[1..]);
      } else {
        DestroyedShadowed(o, o', more[0].id);
        DestroyingIsHarmless(p, o, Happen(p, o', more[0]).value, hs, more[1..]);
      }
    }
  }
}
