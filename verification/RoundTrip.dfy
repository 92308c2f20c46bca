/** The compiled decoding walk reads back what the compiled encoding walk wrote. */
module RoundTrip {
  import opened Wire
  import opened Registry
  import opened Signature
  import Encoder
  import opened Decoder

  /** What an argument is once it has left one process: proxies are IDs, and a string ends at
      its first NUL. A null object is ID 0. A null string is None, an empty one Some([]). */
  datatype Received =
    | IdR(id: Word)
    | UintR(w: Word)
    | IntR(i: Int32)
    | FixedR(raw: Int32)
    | StringR(text: Option<seq<byte>>)
    | ArrayR(data: seq<byte>)
    | FdR(fd: int)

  function Seen(f: Field): Received {
    match f
    case RefF(id, _) => IdR(id)
    case NewF(id, _) => IdR(id)
    case UintF(w) => UintR(w)
    case IntF(i) => IntR(i)
    case FixedF(raw) => FixedR(raw)
    case StringF(text) => StringR(text)
    case ArrayF(data) => ArrayR(data)
    case FdF(fd) => FdR(fd)
  }

  function SeenAll(fs: seq<Field>): (r: seq<Received>)
    ensures |r| == |fs|
  {
    seq(|fs|, i requires 0 <= i < |fs| => Seen(fs[i]))
  }

  function Meant(v: Value): seq<Received> {
    match v
    case RefV(None) => [IdR(0)]
    case RefV(Some(id)) => [IdR(id)]
    case NewV(id) => [IdR(id)]
    case BindV(name, version, bound) => [StringR(Some(CString(name))), UintR(version), IdR(bound)]
    case UintV(w) => [UintR(w)]
    case IntV(i) => [IntR(i)]
    case FixedV(raw) => [FixedR(raw)]
    case StringV(None) => [StringR(None)]
    case StringV(Some(s)) => [StringR(Some(CString(s)))]
    case ArrayV(a) => [ArrayR(a)]
    case FdV(fd) => [FdR(fd)]
  }

  function MeantAll(vals: seq<Value>): seq<Received> {
    if vals == [] then [] else MeantAll(vals[..|vals| - 1]) + Meant(vals[|vals| - 1])
  }

  /** On the wire an untyped new_id is a string, a version and an ID. */
  function Expand(a: Arg): seq<Arg> {
    if a == NewId(None) then [String(false), Uint, Object(None, true)] else [a]
  }

  function ExpandAll(args: seq<Arg>): seq<Arg> {
    if args == [] then [] else ExpandAll(args[..|args| - 1]) + Expand(args[|args| - 1])
  }

  predicate Introduces(v: Value, id: Word) {
    v == NewV(id) && id != 0
  }

  /** The receiver's objects after one argument; None where it panics. A new_id may name a live
      proxy of its type, which is bound as it is. */
  function BindValue(a: Arg, v: Value, o: Objects): Option<Objects> {
    if !a.NewId? || a.iface.None? || !v.NewV? || v.id == 0 || LiveOf(o, v.id, a.iface.value) then Some(o)
    else RegisterWithID(o, v.id, Obj(a.iface.value, false))
  }

  function BindValues(args: seq<Arg>, vals: seq<Value>, o: Objects): Option<Objects>
    requires |args| == |vals|
  {
    if args == [] then Some(o)
    else
      var before := BindValues(args[..|args| - 1], vals[..|args| - 1], o);
      if before.None? then None else BindValue(args[|args| - 1], vals[|args| - 1], before.value)
  }

  /** What a sender can look up: each new_id is a compositor ID that no live object holds, or the
      ID of a live proxy of its type; and arguments that share an ID have the same type. */
  predicate Bindable(args: seq<Arg>, vals: seq<Value>, o: Objects)
    requires AllTyped(args, vals)
  {
    && (forall i :: 0 <= i < |vals| && vals[i].NewV? && vals[i].id != 0 ==>
          Introducible(o, vals[i].id) || LiveOf(o, vals[i].id, args[i].iface.value))
    && (forall i, j :: 0 <= i < j < |vals| && vals[i].NewV? && vals[i].id != 0 && vals[i] == vals[j] ==> args[i] == args[j])
  }

  /** The objects after the arguments: each introduced one is live under its ID, with its type,
      and everything else is as it was. */
  ghost predicate BoundBy(args: seq<Arg>, vals: seq<Value>, o: Objects, o': Objects)
    requires AllTyped(args, vals)
  {
    && (forall i :: 0 <= i < |vals| && vals[i].NewV? && vals[i].id != 0 ==> LiveOf(o', vals[i].id, args[i].iface.value))
    && (forall id :: (forall i :: 0 <= i < |vals| ==> !Introduces(vals[i], id)) ==>
          (id in o <==> id in o') && (id in o ==> o[id] == o'[id]))
  }

  lemma PrefixTyped(args: seq<Arg>, vals: seq<Value>, n: nat)
    requires AllTyped(args, vals) && n <= |args|
    ensures AllTyped(args[..n], vals[..n])
    ensures forall i :: 0 <= i < n ==> args[..n][i] == args[i] && vals[..n][i] == vals[i]
  {
  }

  /** What the last argument adds to the condition. */
  predicate LastFits(args: seq<Arg>, vals: seq<Value>, o: Objects)
    requires args != [] && AllTyped(args, vals)
  {
    var n := |args| - 1;
    assert Typed(args[n], vals[n]);
    vals[n].NewV? && vals[n].id != 0 ==>
      && (Introducible(o, vals[n].id) || LiveOf(o, vals[n].id, args[n].iface.value))
      && (forall i :: 0 <= i < n && vals[i] == vals[n] ==> args[i] == args[n])
  }

  lemma BindableSplit(args: seq<Arg>, vals: seq<Value>, o: Objects)
    requires args != [] && AllTyped(args, vals)
    requires var n := |args| - 1; AllTyped(args[..n], vals[..n]) && Bindable(args[..n], vals[..n], o)
    ensures Bindable(args, vals, o) <==> LastFits(args, vals, o)
  {
    hide Introducible, LiveOf;
    var n := |args| - 1;
    PrefixTyped(args, vals, n);
    if LastFits(args, vals, o) {
      forall i, j | 0 <= i < j < |vals| && vals[i].NewV? && vals[i].id != 0 && vals[i] == vals[j]
        ensures args[i] == args[j]
      {
        if j < n { assert vals[..n][i] == vals[..n][j]; }
      }
      forall i | 0 <= i < |vals| && vals[i].NewV? && vals[i].id != 0
        ensures Introducible(o, vals[i].id) || LiveOf(o, vals[i].id, args[i].iface.value)
      {
        if i < n { assert vals[..n][i] == vals[i]; }
      }
    }
  }

  /** An ID that an earlier argument of the message introduced. */
  lemma SharedLast(args: seq<Arg>, vals: seq<Value>, o: Objects, m: Objects, i: nat)
    requires args != [] && AllTyped(args, vals) && i < |args| - 1
    requires var n := |args| - 1;
             AllTyped(args[..n], vals[..n]) && Bindable(args[..n], vals[..n], o) && BoundBy(args[..n], vals[..n], o, m)
    requires var n := |args| - 1; vals[n].NewV? && vals[n].id != 0 && vals[i] == vals[n]
    ensures BindValue(args[|args| - 1], vals[|args| - 1], m) == if args[i] == args[|args| - 1] then Some(m) else None
    ensures LastFits(args, vals, o) <==> args[i] == args[|args| - 1]
  {
    hide BoundBy, Introducible;
    var n := |args| - 1;
    PrefixTyped(args, vals, n);
    assert Typed(args[n], vals[n]) && Typed(args[i], vals[i]);
    assert vals[..n][i] == vals[i];
    BoundAt(args[..n], vals[..n], o, m, i);
    forall k | 0 <= k < n && vals[k] == vals[n]
      ensures args[k] == args[i]
    {
      assert vals[..n][k] == vals[..n][i];
    }
    FitsAt(args[..n], vals[..n], o, i);
  }

  lemma BoundAt(args: seq<Arg>, vals: seq<Value>, o: Objects, m: Objects, i: nat)
    requires AllTyped(args, vals) && BoundBy(args, vals, o, m)
    requires i < |vals| && vals[i].NewV? && vals[i].id != 0
    ensures Typed(args[i], vals[i]) && LiveOf(m, vals[i].id, args[i].iface.value)
  {
    assert Typed(args[i], vals[i]);
  }

  lemma FitsAt(args: seq<Arg>, vals: seq<Value>, o: Objects, i: nat)
    requires AllTyped(args, vals) && Bindable(args, vals, o)
    requires i < |vals| && vals[i].NewV? && vals[i].id != 0
    ensures Typed(args[i], vals[i])
    ensures Introducible(o, vals[i].id) || LiveOf(o, vals[i].id, args[i].iface.value)
  {
    assert Typed(args[i], vals[i]);
  }

  /** An ID that no earlier argument introduced. */
  lemma FreshLast(args: seq<Arg>, vals: seq<Value>, o: Objects, m: Objects)
    requires args != [] && AllTyped(args, vals)
    requires var n := |args| - 1; AllTyped(args[..n], vals[..n]) && BoundBy(args[..n], vals[..n], o, m)
    requires var n := |args| - 1; vals[n].NewV? && vals[n].id != 0 && forall i :: 0 <= i < n ==> vals[i] != vals[n]
    ensures BindValue(args[|args| - 1], vals[|args| - 1], m).Some? <==> LastFits(args, vals, o)
  {
    var n := |args| - 1;
    PrefixTyped(args, vals, n);
    assert Typed(args[n], vals[n]);
    assert forall i :: 0 <= i < n ==> !Introduces(vals[..n][i], vals[n].id);
    assert (vals[n].id in o <==> vals[n].id in m) && (vals[n].id in o ==> o[vals[n].id] == m[vals[n].id]);
  }

  /** The objects after the last argument. */
  lemma LastBound(args: seq<Arg>, vals: seq<Value>, o: Objects, m: Objects)
    requires args != [] && AllTyped(args, vals)
    requires var n := |args| - 1; AllTyped(args[..n], vals[..n]) && BoundBy(args[..n], vals[..n], o, m)
    requires BindValue(args[|args| - 1], vals[|args| - 1], m).Some?
    ensures BoundBy(args, vals, o, BindValue(args[|args| - 1], vals[|args| - 1], m).value)
  {
    var n := |args| - 1;
    PrefixTyped(args, vals, n);
    assert Typed(args[n], vals[n]);
    var r := BindValue(args[n], vals[n], m).value;
    forall i | 0 <= i < |vals| && vals[i].NewV? && vals[i].id != 0
      ensures LiveOf(r, vals[i].id, args[i].iface.value)
    {
      assert Typed(args[i], vals[i]);
      if i < n { assert vals[..n][i] == vals[i]; }
    }
    forall id | forall i :: 0 <= i < |vals| ==> !Introduces(vals[i], id)
      ensures (id in o <==> id in r) && (id in o ==> o[id] == r[id])
    {
      assert !Introduces(vals[n], id);
      assert forall i :: 0 <= i < n ==> !Introduces(vals[..n][i], id);
    }
  }

  /** The last argument meets the objects as they were, or one that its own message bound. */
  lemma LastBindable(args: seq<Arg>, vals: seq<Value>, o: Objects, m: Objects)
    requires args != [] && AllTyped(args, vals)
    requires var n := |args| - 1;
             AllTyped(args[..n], vals[..n]) && Bindable(args[..n], vals[..n], o) && BoundBy(args[..n], vals[..n], o, m)
    ensures BindValue(args[|args| - 1], vals[|args| - 1], m).Some? <==> Bindable(args, vals, o)
    ensures var r := BindValue(args[|args| - 1], vals[|args| - 1], m); r.Some? ==> BoundBy(args, vals, o, r.value)
  {
    hide Bindable, BoundBy, LiveOf, RegisterWithID, Introducible;
    var n := |args| - 1;
    BindableSplit(args, vals, o);
    if vals[n].NewV? && vals[n].id != 0 {
      if i :| 0 <= i < n && vals[i] == vals[n] {
        SharedLast(args, vals, o, m, i);
      } else {
        FreshLast(args, vals, o, m);
      }
    }
    if BindValue(args[n], vals[n], m).Some? { LastBound(args, vals, o, m); }
  }

  lemma PrefixBindable(args: seq<Arg>, vals: seq<Value>, o: Objects, n: nat)
    requires AllTyped(args, vals) && n <= |args| && Bindable(args, vals, o)
    ensures AllTyped(args[..n], vals[..n]) && Bindable(args[..n], vals[..n], o)
  {
    PrefixTyped(args, vals, n);
  }

  /** The receiver binds all arguments exactly when they are bindable up front. */
  lemma {:induction false} BindableExactly(args: seq<Arg>, vals: seq<Value>, o: Objects)
    requires AllTyped(args, vals)
    ensures BindValues(args, vals, o).Some? <==> Bindable(args, vals, o)
    ensures BindValues(args, vals, o).Some? ==> BoundBy(args, vals, o, BindValues(args, vals, o).value)
  {
    if args != [] {
      hide Bindable, BoundBy, BindValue;
      var n := |args| - 1;
      PrefixTyped(args, vals, n);
      BindableExactly(args[..n], vals[..n], o);
      var m := BindValues(args[..n], vals[..n], o);
      if m.Some? {
        LastBindable(args, vals, o, m.value);
      } else if Bindable(args, vals, o) {
        PrefixBindable(args, vals, o, n);
      }
    }
  }

  lemma WordHere(pre: seq<byte>, v: Word, post: seq<byte>)
    ensures WordAt(pre + Bytes32(v) + post, |pre|) == Some(v)
  {
    var data := pre + Bytes32(v) + post;
    assert data[|pre|..|pre| + 4] == Bytes32(v);
    WordSurvivesBytes(v);
  }

  lemma SeenAppend(fs: seq<Field>, f: Field)
    ensures SeenAll(fs + [f]) == SeenAll(fs) + [Seen(f)]
  {
  }

  /** What DecodeArg makes of one plain value at the cursor. */
  predicate ReadsBack(a: Arg, v: Value, w: Walked, data: seq<byte>, fd: int, end: nat) {
    var r := DecodeArg(a, w, data, fd);
    var o := BindValue(a, v, w.objects);
    if o.None? then r.Panic?
    else
      && r.Next?
      && r.s.l == end && r.s.objects == o.value
      && SeenAll(r.s.fields) == SeenAll(w.fields) + Meant(v)
  }

  lemma WordReadBack(a: Arg, v: Value, w: Walked, pre: seq<byte>, post: seq<byte>, fd: int, word: Word)
    requires Typed(a, v) && a != NewId(None) && !a.String? && !a.Array? && !a.Fd?
    requires w.l == |pre| && WireValue(v) == Bytes32(word)
    requires word == (match v
                      case RefV(None) => 0
                      case RefV(Some(id)) => id
                      case NewV(id) => id
                      case UintV(u) => u
                      case IntV(i) => ToWord(i)
                      case FixedV(raw) => ToWord(raw)
                      case _ => 0)
    ensures ReadsBack(a, v, w, pre + WireValue(v) + post, fd, |pre| + 4)
  {
    hide Bytes32, Uint32, WordAt;
    WordHere(pre, word, post);
    var r := DecodeArg(a, w, pre + WireValue(v) + post, fd);
    if BindValue(a, v, w.objects).Some? {
      assert r.Next?;
      SeenAppend(w.fields, r.s.fields[|w.fields|]);
      assert r.s.fields == w.fields + [r.s.fields[|w.fields|]];
    }
  }

  lemma LengthReadBack(pre: seq<byte>, n: Word, content: seq<byte>, post: seq<byte>)
    requires |content| == PaddedLen(n)
    ensures Measure(pre + Bytes32(n) + content + post, |pre|, true) == Some(n)
  {
    var data := pre + Bytes32(n) + content + post;
    assert data[|pre|..|pre| + 4] == Bytes32(n);
    WordSurvivesBytes(n);
  }

  /** A terminated string is found again behind its length word. */
  lemma TextReadBack(pre: seq<byte>, s: seq<byte>, post: seq<byte>)
    ensures TextIn(pre + s + [NUL] + post, |pre|, |s| + 1) == Some(CString(s))
  {
    hide FirstNul;
    var data := pre + s + [NUL] + post;
    assert data[|pre|..|pre| + |s| + 1] == s + [NUL] + [];
    CStringTerminated(s, []);
  }

  lemma TextReadsBack(a: Arg, s: seq<byte>, w: Walked, pre: seq<byte>, post: seq<byte>, fd: int)
    requires a.String? && w.l == |pre| && |WireString(s)| <= MAX_FRAME
    ensures ReadsBack(a, StringV(Some(s)), w, pre + WireString(s) + post, fd, |pre| + |WireString(s)|)
  {
    hide Bytes32, Uint32, Measure, TextIn, CString, PaddedLen, SeenAll;
    var data := pre + WireString(s) + post;
    var n: Word := |s| + 1;
    var pad := Zeros(PaddedLen(n) - n);
    var content := s + [NUL] + pad;
    assert WireString(s) == Bytes32(n) + content;
    assert data == pre + Bytes32(n) + content + post;
    LengthReadBack(pre, n, content, post);
    assert data == (pre + Bytes32(n)) + s + [NUL] + (pad + post);
    TextReadBack(pre + Bytes32(n), s, pad + post);
    SeenAppend(w.fields, StringF(Some(CString(s))));
  }

  lemma NullReadsBack(a: Arg, w: Walked, pre: seq<byte>, post: seq<byte>, fd: int)
    requires a.String? && a.allowNull && w.l == |pre|
    ensures ReadsBack(a, StringV(None), w, pre + Bytes32(0) + post, fd, |pre| + 4)
  {
    hide Bytes32, Uint32, Measure, TextIn, CString, PaddedLen, SeenAll;
    assert pre + Bytes32(0) + post == pre + Bytes32(0) + [] + post;
    NoPadding();
    LengthReadBack(pre, 0, [], post);
    SeenAppend(w.fields, StringF(None));
  }

  lemma StringReadBack(a: Arg, v: Value, w: Walked, pre: seq<byte>, post: seq<byte>, fd: int)
    requires a.String? && Typed(a, v) && w.l == |pre| && |WireValue(v)| <= MAX_FRAME
    ensures ReadsBack(a, v, w, pre + WireValue(v) + post, fd, |pre| + |WireValue(v)|)
  {
    hide Bytes32, PaddedLen, WireString, ReadsBack;
    if v == StringV(None) {
      NullReadsBack(a, w, pre, post, fd);
    } else {
      TextReadsBack(a, v.text.value, w, pre, post, fd);
    }
  }

  lemma NoPadding()
    ensures PaddedLen(0) == 0
  {
  }

  lemma ArrayReadBack(a: Arg, v: Value, w: Walked, pre: seq<byte>, post: seq<byte>, fd: int)
    requires a.Array? && Typed(a, v) && w.l == |pre| && |WireValue(v)| <= MAX_FRAME
    ensures ReadsBack(a, v, w, pre + WireValue(v) + post, fd, |pre| + |WireValue(v)|)
  {
    hide Bytes32, Uint32, Measure;
    var data := pre + WireValue(v) + post;
    var n: Word := |v.data|;
    var content := v.data + Zeros(PaddedLen(n) - n);
    assert data == pre + Bytes32(n) + content + post;
    LengthReadBack(pre, n, content, post);
    assert data[|pre| + 4..|pre| + 4 + n] == v.data;
    SeenAppend(w.fields, ArrayF(v.data));
  }

  lemma ValueReadBack(a: Arg, v: Value, w: Walked, pre: seq<byte>, post: seq<byte>, fd: int)
    requires Typed(a, v) && a != NewId(None) && w.l == |pre| && |WireValue(v)| <= MAX_FRAME
    requires v.FdV? ==> v.fd == fd
    ensures ReadsBack(a, v, w, pre + WireValue(v) + post, fd, |pre| + |WireValue(v)|)
  {
    hide Bytes32, DecodeArg, PaddedLen, RegisterWithID;
    match a {
      case String(_) => StringReadBack(a, v, w, pre, post, fd);
      case Array => ArrayReadBack(a, v, w, pre, post, fd);
      case Fd => FdReadBack(a, v, w, pre + WireValue(v) + post, fd);
      case _ =>
        var word := match v
          case RefV(None) => 0
          case RefV(Some(id)) => id
          case NewV(id) => id
          case UintV(u) => u
          case IntV(i) => ToWord(i)
          case FixedV(raw) => ToWord(raw)
          case _ => 0;
        WordReadBack(a, v, w, pre, post, fd, word);
    }
  }

  lemma FdReadBack(a: Arg, v: Value, w: Walked, data: seq<byte>, fd: int)
    requires a.Fd? && v == FdV(fd)
    ensures ReadsBack(a, v, w, data, fd, w.l)
  {
    SeenAppend(w.fields, FdF(fd));
  }

  lemma {:induction false} DecodeAppend(args: seq<Arg>, more: seq<Arg>, w: Walked, data: seq<byte>, fd: int)
    ensures DecodeArgs(args + more, w, data, fd) ==
            match DecodeArgs(args, w, data, fd)
            case Panic(o) => Panic(o)
            case Next(w') => DecodeArgs(more, w', data, fd)
  {
    if more == [] {
      assert args + more == args;
    } else {
      assert (args + more)[..|args + more| - 1] == args + more[..|more| - 1];
      DecodeAppend(args, more[..|more| - 1], w, data, fd);
    }
  }

  lemma DecodeOne(a: Arg, w: Walked, data: seq<byte>, fd: int)
    ensures DecodeArgs([a], w, data, fd) == DecodeArg(a, w, data, fd)
  {
    assert [a][..0] == [];
  }

  /** The three decoded parts of an untyped new_id. */
  lemma BindReadBack(v: Value, w: Walked, pre: seq<byte>, post: seq<byte>, fd: int)
    requires v.BindV? && w.l == |pre| && |WireValue(v)| <= MAX_FRAME
    ensures var r := DecodeArgs(Expand(NewId(None)), w, pre + WireValue(v) + post, fd);
            && r.Next?
            && r.s.l == |pre| + |WireValue(v)|
            && SeenAll(r.s.fields) == SeenAll(w.fields) + Meant(v)
            && r.s.objects == w.objects
  {
    hide Bytes32, DecodeArg, PaddedLen;
    var data := pre + WireValue(v) + post;
    var name, version, bound := WireString(v.name), Bytes32(v.version), Bytes32(v.bound);
    assert data == pre + name + (version + bound + post);
    assert data == (pre + name) + version + (bound + post);
    assert data == (pre + name + version) + bound + post;
    ValueReadBack(String(false), StringV(Some(v.name)), w, pre, version + bound + post, fd);
    var w1 := DecodeArg(String(false), w, data, fd).s;
    ValueReadBack(Uint, UintV(v.version), w1, pre + name, bound + post, fd);
    var w2 := DecodeArg(Uint, w1, data, fd).s;
    ValueReadBack(Object(None, true), RefV(Some(v.bound)), w2, pre + name + version, post, fd);
    assert Expand(NewId(None)) == [String(false)] + ([Uint] + [Object(None, true)]);
    DecodeAppend([String(false)], [Uint] + [Object(None, true)], w, data, fd);
    DecodeAppend([Uint], [Object(None, true)], w1, data, fd);
    DecodeOne(String(false), w, data, fd);
    DecodeOne(Uint, w1, data, fd);
    DecodeOne(Object(None, true), w2, data, fd);
  }

  /** One argument, typed or not. */
  lemma ExpandedReadBack(a: Arg, v: Value, w: Walked, pre: seq<byte>, post: seq<byte>, fd: int)
    requires Typed(a, v) && w.l == |pre| && |WireValue(v)| <= MAX_FRAME
    requires v.FdV? ==> v.fd == fd
    ensures var r := DecodeArgs(Expand(a), w, pre + WireValue(v) + post, fd);
            var o := BindValue(a, v, w.objects);
            if o.None? then r.Panic?
            else
              && r.Next?
              && r.s.l == |pre| + |WireValue(v)| && r.s.objects == o.value
              && SeenAll(r.s.fields) == SeenAll(w.fields) + Meant(v)
  {
    hide WireValue, Meant, DecodeArg, RegisterWithID;
    if a == NewId(None) {
      BindReadBack(v, w, pre, post, fd);
    } else {
      ValueReadBack(a, v, w, pre, post, fd);
      DecodeOne(a, w, pre + WireValue(v) + post, fd);
    }
  }

  lemma LengthsAgree(args: seq<Arg>, vals: seq<Value>)
    requires AllTyped(args, vals)
    ensures |args| == |vals| && (args != [] ==> Typed(args[|args| - 1], vals[|args| - 1]))
  {
  }

  lemma {:induction false} ArgsReadBack(args: seq<Arg>, vals: seq<Value>, o: Objects, post: seq<byte>, fd: int)
    requires AllTyped(args, vals)
    requires |WireBody(vals)| <= MAX_FRAME
    requires forall i :: 0 <= i < |vals| && vals[i].FdV? ==> vals[i].fd == fd
    ensures var r := DecodeArgs(ExpandAll(args), Walked(0, [], o, []), WireBody(vals) + post, fd);
            var o' := BindValues(args, vals, o);
            if o'.None? then r.Panic?
            else
              && r.Next?
              && r.s.l == |WireBody(vals)| && r.s.objects == o'.value
              && SeenAll(r.s.fields) == MeantAll(vals)
  {
    hide WireValue, Meant, DecodeArg, Typed, BindValue, Expand, AllTyped;
    if args == [] {
      assert SeenAll([]) == [];
      LengthsAgree(args, vals);
    } else {
      var n := |args| - 1;
      LengthsAgree(args, vals);
      PrefixTyped(args, vals, n);
      var v := vals[n];
      var data := WireBody(vals) + post;
      assert data == WireBody(vals[..n]) + (WireValue(v) + post);
      ArgsReadBack(args[..n], vals[..n], o, WireValue(v) + post, fd);
      var r := DecodeArgs(ExpandAll(args[..n]), Walked(0, [], o, []), data, fd);
      DecodeAppend(ExpandAll(args[..n]), Expand(args[n]), Walked(0, [], o, []), data, fd);
      if r.Next? {
        assert data == WireBody(vals[..n]) + WireValue(v) + post;
        ExpandedReadBack(args[n], v, r.s, WireBody(vals[..n]), post, fd);
      }
    }
  }

  /** The descriptor that travels beside a request. */
  function Descriptor(args: seq<Arg>, vals: seq<Value>): int
    requires AllTyped(args, vals)
  {
    var k := Encoder.LastFd(args);
    if k.Some? && k.value < |vals| && vals[k.value].FdV? then vals[k.value].fd else -1
  }

  predicate AtMostOneFd(args: seq<Arg>) {
    forall i, j :: 0 <= i < |args| && 0 <= j < |args| && args[i].Fd? && args[j].Fd? ==> i == j
  }

  lemma {:induction false} LastFdIsAnFd(args: seq<Arg>)
    ensures var k := Encoder.LastFd(args);
            if k.None? then Fd !in args else k.value < |args| && args[k.value].Fd?
  {
    if args != [] && !args[|args| - 1].Fd? { LastFdIsAnFd(args[..|args| - 1]); }
  }

  /** The main result on layouts. For every request signature and every argument list that
      WriteMsg sends, the decoding walk compiled for the same arguments reads the body the
      encoding walk produced: every argument comes back, in order, and the walk ends at the
      end of the body. It panics exactly when the arguments are not bindable. */
  lemma DecodingInvertsEncoding(args: seq<Arg>, self: Word, opcode: nat, vals: seq<Value>, o: Objects)
    requires AllTyped(args, vals) && !Encoder.SomeNilDereference(args, vals) && AtMostOneFd(args)
    ensures var c := Encoder.Execute(Encoder.CompileRequest(args), self, opcode, vals);
            c.Some? && (Encoder.Sendable(c.value.buf) ==>
              var r := Decode(ExpandAll(args), o, c.value.buf[8..], Descriptor(args, vals));
              && (r.Next? <==> Bindable(args, vals, o))
              && (r.Next? ==> r.s.l == |c.value.buf| - 8 && SeenAll(r.s.fields) == MeantAll(vals)
                              && BoundBy(args, vals, o, r.s.objects)))
  {
    hide Encoder.CompileRequest, Encoder.Execute, Encoder.SetUp, Encoder.Covers, DecodeArgs, Decode;
    hide Bytes32, Uint32, HeaderWord, Meant, WireValue, Typed, NilDereference, Bindable, BoundBy;
    Encoder.RequestIsWireFormat(args, self, opcode, vals);
    Encoder.GeneratedFrameSendable(self, opcode, vals);
    var body := WireBody(vals);
    var buf := WireFrame(self, opcode, body);
    assert buf[8..] == body + [];
    if Encoder.Sendable(buf) {
      SingleDescriptor(args, vals);
      BindableExactly(args, vals, o);
      ArgsReadBack(args, vals, o, [], Descriptor(args, vals));
      DecoderWalks(ExpandAll(args), o, body + [], Descriptor(args, vals));
    }
  }

  lemma SingleDescriptor(args: seq<Arg>, vals: seq<Value>)
    requires AllTyped(args, vals) && AtMostOneFd(args)
    ensures forall i :: 0 <= i < |vals| && vals[i].FdV? ==> vals[i].fd == Descriptor(args, vals)
  {
    LastFdIsAnFd(args);
    forall i | 0 <= i < |vals| && vals[i].FdV?
      ensures vals[i].fd == Descriptor(args, vals)
    {
      assert Typed(args[i], vals[i]);
      assert args[i].Fd?;
    }
  }

  /** Without a NUL inside, a string comes back unchanged. */
  lemma NulFreeStringsSurvive(s: seq<byte>)
    ensures CString(s) == s <==> NUL !in s
  {
    if CString(s) == s { assert FirstNul(s) == |s|; }
    if NUL !in s { FirstNulUnique(s, |s|); }
  }
}
