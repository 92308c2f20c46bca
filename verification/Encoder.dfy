/** The request half of the scanner: an argument list is compiled to length definitions, a
    size expression and a straight-line encoding walk over one buffer. */
module Encoder {
  import opened Wire
  import opened Registry
  import opened Signature

  /** The term 4, or (4 + xLen) for the length variable of argument x. */
  datatype Width = Four | FourPlus(arg: nat)

  /** The definition of a length variable, by the argument it measures. */
  datatype LenDef = IfaceLen(arg: nat) | StringLen(arg: nat) | NullableLen(arg: nat) | ArrayLen(arg: nat)

  /** The uint32 expression stored by a PutUint32 call. */
  datatype Source =
    | SelfId
    | SizeAndOpcode
    | NullId
    | IdOf(arg: nat)
    | VersionOf(arg: nat)
    | UintOf(arg: nat)
    | IntOf(arg: nat)

  datatype Instr =
    | PutWord(src: Source)
    | PutFixed(arg: nat)
    | PutString(arg: nat)
    | PutArray(arg: nat)
    | Advance(width: Width)

  datatype Stmt = Do(instr: Instr) | IfNil(arg: nat, thn: seq<Instr>, els: seq<Instr>)

  datatype Request = Request(lens: seq<LenDef>, size: seq<Width>, walk: seq<Stmt>, rights: Option<nat>)

  // ---- compilation, one argument at a time

  function LensFor(k: nat, a: Arg): seq<LenDef> {
    match a
    case NewId(None) => [IfaceLen(k)]
    case String(allowNull) => [if allowNull then NullableLen(k) else StringLen(k)]
    case Array => [ArrayLen(k)]
    case _ => []
  }

  function SizeFor(k: nat, a: Arg): seq<Width> {
    match a
    case NewId(None) => [FourPlus(k), Four, Four]
    case NewId(Some(_)) => [Four]
    case Object(_, _) => [Four]
    case Int => [Four]
    case Uint => [Four]
    case Fixed => [Four]
    case String(_) => [FourPlus(k)]
    case Array => [FourPlus(k)]
    case Fd => []
  }

  function WalkFor(k: nat, a: Arg): seq<Stmt> {
    match a
    case Object(_, allowNull) =>
      if allowNull then
        [IfNil(k, [PutWord(NullId), Advance(Four)], [PutWord(IdOf(k)), Advance(Four)])]
      else [Do(PutWord(IdOf(k))), Do(Advance(Four))]
    case NewId(Some(_)) => [Do(PutWord(IdOf(k))), Do(Advance(Four))]
    case NewId(None) =>
      [Do(PutString(k)), Do(Advance(FourPlus(k))),
       Do(PutWord(VersionOf(k))), Do(Advance(Four)),
       Do(PutWord(IdOf(k))), Do(Advance(Four))]
    case Int => [Do(PutWord(IntOf(k))), Do(Advance(Four))]
    case Uint => [Do(PutWord(UintOf(k))), Do(Advance(Four))]
    case Fixed => [Do(PutFixed(k)), Do(Advance(Four))]
    case String(allowNull) =>
      if allowNull then
        [IfNil(k, [PutWord(NullId), Advance(Four)], [PutString(k), Advance(FourPlus(k))])]
      else [Do(PutString(k)), Do(Advance(FourPlus(k)))]
    case Array => [Do(PutArray(k)), Do(Advance(FourPlus(k)))]
    case Fd => []
  }

  const HEADER_WALK: seq<Stmt> :=
    [Do(PutWord(SelfId)), Do(Advance(Four)), Do(PutWord(SizeAndOpcode)), Do(Advance(Four))]

  function CompileLens(args: seq<Arg>): seq<LenDef> {
    if args == [] then []
    else CompileLens(args[..|args| - 1]) + LensFor(|args| - 1, args[|args| - 1])
  }

  function CompileSize(args: seq<Arg>): seq<Width> {
    if args == [] then []
    else CompileSize(args[..|args| - 1]) + SizeFor(|args| - 1, args[|args| - 1])
  }

  function CompileWalk(args: seq<Arg>): seq<Stmt> {
    if args == [] then HEADER_WALK
    else CompileWalk(args[..|args| - 1]) + WalkFor(|args| - 1, args[|args| - 1])
  }

  /** The index of the last fd argument: each later one overwrites the variable. */
  function LastFd(args: seq<Arg>): Option<nat> {
    if args == [] then None
    else if args[|args| - 1].Fd? then Some(|args| - 1)
    else LastFd(args[..|args| - 1])
  }

  function CompileRequest(args: seq<Arg>): Request {
    Request(CompileLens(args), CompileSize(args), CompileWalk(args), LastFd(args))
  }

  // ---- what the generated code computes

  /** The value of a length variable; None where the generated code would not compile. */
  function LenValue(d: LenDef, vals: seq<Value>): Option<nat> {
    if d.arg >= |vals| then None
    else
      match (d, vals[d.arg])
      case (IfaceLen(_), BindV(name, _, _)) => Some(PaddedLen(|name| + 1))
      case (StringLen(_), StringV(Some(s))) => Some(PaddedLen(|s| + 1))
      case (NullableLen(_), StringV(text)) => Some(if text.Some? then PaddedLen(|text.value| + 1) else 0)
      case (ArrayLen(_), ArrayV(a)) => Some(PaddedLen(|a|))
      case _ => None
  }

  function RunLens(defs: seq<LenDef>, vals: seq<Value>): map<nat, nat> {
    if defs == [] then map[]
    else
      var before := RunLens(defs[..|defs| - 1], vals);
      var d := defs[|defs| - 1];
      var v := LenValue(d, vals);
      if v.Some? then before[d.arg := v.value] else before
  }

  function WidthValue(w: Width, lens: map<nat, nat>): nat {
    match w
    case Four => 4
    case FourPlus(arg) => 4 + if arg in lens then lens[arg] else 0
  }

  function Sum(ws: seq<Width>, lens: map<nat, nat>): nat {
    if ws == [] then 0 else Sum(ws[..|ws| - 1], lens) + WidthValue(ws[|ws| - 1], lens)
  }

  /** The inputs of a generated request method, with its length variables and _reqBufLen. */
  datatype Frame = Frame(self: Word, opcode: nat, vals: seq<Value>, lens: map<nat, nat>, size: nat)

  /** _reqBuf, the cursor l, and the slices the Put calls were given. */
  datatype Cursor = Cursor(buf: seq<byte>, l: nat, writes: seq<(nat, nat)>)

  function Splice(buf: seq<byte>, at: nat, x: seq<byte>): (r: seq<byte>)
    requires at + |x| <= |buf|
    ensures |r| == |buf|
  {
    buf[..at] + x + buf[at + |x|..]
  }

  /** The bytes a PutString call leaves in a destination of n bytes; None is a panic. */
  function StringBytes(s: seq<byte>, n: nat): Option<seq<byte>> {
    if n < 4 || 4 + |s| >= n then None else Some(Bytes32((|s| + 1) % 0x1_0000_0000) + s + [NUL])
  }

  function ArrayBytes(a: seq<byte>, n: nat): Option<seq<byte>> {
    if n < 4 then None
    else Some(Bytes32(|a| % 0x1_0000_0000) + if |a| <= n - 4 then a else a[..n - 4])
  }

  /** The word a source denotes; None is a nil dereference. */
  function SourceWord(src: Source, f: Frame): Option<Word> {
    match src
    case SelfId => Some(f.self)
    case SizeAndOpcode => Some(HeaderWord(f.size, f.opcode))
    case NullId => Some(0)
    case IdOf(k) =>
      if k >= |f.vals| then None else
      (match f.vals[k]
       case RefV(target) => target
       case NewV(id) => Some(id)
       case BindV(_, _, bound) => Some(bound)
       case _ => None)
    case VersionOf(k) => if k < |f.vals| && f.vals[k].BindV? then Some(f.vals[k].version) else None
    case UintOf(k) => if k < |f.vals| && f.vals[k].UintV? then Some(f.vals[k].w) else None
    case IntOf(k) => if k < |f.vals| && f.vals[k].IntV? then Some(ToWord(f.vals[k].i)) else None
  }

  /** The text a PutString call is given. */
  function TextOf(k: nat, f: Frame): Option<seq<byte>> {
    if k >= |f.vals| then None else
    match f.vals[k]
    case StringV(text) => text
    case BindV(name, _, _) => Some(name)
    case _ => None
  }

  /** The slice an instruction writes to and the bytes it stores there: (width, bytes). */
  function Stored(i: Instr, f: Frame): Option<(nat, seq<byte>)>
    requires !i.Advance?
  {
    match i
    case PutWord(src) =>
      var w := SourceWord(src, f);
      if w.Some? then Some((4, Bytes32(w.value))) else None
    case PutFixed(k) =>
      if k < |f.vals| && f.vals[k].FixedV? then Some((4, Bytes32(ToWord(f.vals[k].raw)))) else None
    case PutString(k) =>
      var n := WidthValue(FourPlus(k), f.lens);
      var text := TextOf(k, f);
      if text.None? then None else
      (match StringBytes(text.value, n)
       case Some(b) => Some((n, b))
       case None => None)
    case PutArray(k) =>
      var n := WidthValue(FourPlus(k), f.lens);
      if k >= |f.vals| || !f.vals[k].ArrayV? then None else
      (match ArrayBytes(f.vals[k].data, n)
       case Some(b) => Some((n, b))
       case None => None)
  }

  /** One instruction; None is a panic: a slice past the buffer or a nil dereference. */
  function Step(i: Instr, f: Frame, c: Cursor): Option<Cursor> {
    if i.Advance? then Some(c.(l := c.l + WidthValue(i.width, f.lens)))
    else
      match Stored(i, f)
      case None => None
      case Some((n, b)) =>
        if c.l + n > |c.buf| || |b| > n then None
        else Some(Cursor(Splice(c.buf, c.l, b), c.l, c.writes + [(c.l, c.l + n)]))
  }

  function Line(code: seq<Instr>, f: Frame, c: Cursor): Option<Cursor> {
    if code == [] then Some(c)
    else
      match Step(code[0], f, c)
      case None => None
      case Some(c') => Line(code[1..], f, c')
  }

  predicate IsNil(k: nat, f: Frame) {
    k < |f.vals| && (f.vals[k] == RefV(None) || f.vals[k] == StringV(None))
  }

  function StmtRun(s: Stmt, f: Frame, c: Cursor): Option<Cursor> {
    match s
    case Do(i) => Step(i, f, c)
    case IfNil(k, thn, els) => if IsNil(k, f) then Line(thn, f, c) else Line(els, f, c)
  }

  function Walk(ss: seq<Stmt>, f: Frame, c: Cursor): Option<Cursor> {
    if ss == [] then Some(c)
    else
      match Walk(ss[..|ss| - 1], f, c)
      case None => None
      case Some(c') => StmtRun(ss[|ss| - 1], f, c')
  }

  /** The whole generated method up to WriteMsg: lengths, size, make, walk. */
  function SetUp(r: Request, self: Word, opcode: nat, vals: seq<Value>): Frame {
    var lens := RunLens(r.lens, vals);
    Frame(self, opcode, vals, lens, 8 + Sum(r.size, lens))
  }

  function Execute(r: Request, self: Word, opcode: nat, vals: seq<Value>): Option<Cursor> {
    var f := SetUp(r, self, opcode, vals);
    Walk(r.walk, f, Cursor(Zeros(f.size), 0, []))
  }

  // ---- the four walks agree: size and encoding

  lemma {:induction false} WalkAppend(ss: seq<Stmt>, tt: seq<Stmt>, f: Frame, c: Cursor)
    ensures Walk(ss + tt, f, c) ==
            match Walk(ss, f, c) case None => None case Some(c') => Walk(tt, f, c')
  {
    if tt == [] {
      assert ss + tt == ss;
    } else {
      var init, last := tt[..|tt| - 1], tt[|tt| - 1];
      assert (ss + tt)[..|ss + tt| - 1] == ss + init;
      WalkAppend(ss, init, f, c);
    }
  }

  lemma {:induction false} SumAppend(vs: seq<Width>, ws: seq<Width>, lens: map<nat, nat>)
    ensures Sum(vs + ws, lens) == Sum(vs, lens) + Sum(ws, lens)
  {
    if ws == [] {
      assert vs + ws == vs;
    } else {
      assert (vs + ws)[..|vs + ws| - 1] == vs + ws[..|ws| - 1];
      SumAppend(vs, ws[..|ws| - 1], lens);
    }
  }

  /** The length variable of an argument, where its type has one. */
  predicate Measured(k: nat, a: Arg, v: Value, lens: map<nat, nat>) {
    match (a, v)
    case (NewId(None), BindV(name, _, _)) => k in lens && lens[k] == PaddedLen(|name| + 1)
    case (String(_), StringV(Some(s))) => k in lens && lens[k] == PaddedLen(|s| + 1)
    case (String(_), StringV(None)) => k in lens && lens[k] == 0
    case (Array, ArrayV(a)) => k in lens && lens[k] == PaddedLen(|a|)
    case _ => true
  }

  lemma {:induction false} RunLensAppend(ds: seq<LenDef>, d: LenDef, vals: seq<Value>)
    ensures RunLens(ds + [d], vals) ==
            var v := LenValue(d, vals);
            if v.Some? then RunLens(ds, vals)[d.arg := v.value] else RunLens(ds, vals)
  {
    assert (ds + [d])[..|ds + [d]| - 1] == ds;
  }

  /** The definition compiled for one argument measures that argument and no other. */
  lemma LensForMeasures(ds: seq<LenDef>, k: nat, a: Arg, vals: seq<Value>)
    requires k < |vals| && Typed(a, vals[k])
    ensures var before := RunLens(ds, vals);
            var after := RunLens(ds + LensFor(k, a), vals);
            && Measured(k, a, vals[k], after)
            && (forall j :: j != k ==> (j in after <==> j in before) && (j in before ==> after[j] == before[j]))
  {
    hide PaddedLen;
    var block := LensFor(k, a);
    if block == [] {
      assert ds + block == ds;
    } else {
      RunLensAppend(ds, block[0], vals);
      assert block == [block[0]];
    }
  }

  lemma MeasuredFrame(k: nat, a: Arg, v: Value, before: map<nat, nat>, after: map<nat, nat>)
    requires Measured(k, a, v, before)
    requires k in before ==> k in after && after[k] == before[k]
    ensures Measured(k, a, v, after)
  {
  }

  /** Every length variable is defined, once, from its own argument. */
  lemma {:induction false} LensMeasure(args: seq<Arg>, vals: seq<Value>, n: nat)
    requires n <= |args| && AllTyped(args, vals)
    ensures forall k :: 0 <= k < n ==> Measured(k, args[k], vals[k], RunLens(CompileLens(args[..n]), vals))
  {
    hide PaddedLen, Measured, LenValue, LensFor;
    if n > 0 {
      LensMeasure(args, vals, n - 1);
      assert args[..n][..n - 1] == args[..n - 1];
      var ds := CompileLens(args[..n - 1]);
      assert CompileLens(args[..n]) == ds + LensFor(n - 1, args[n - 1]);
      LensForMeasures(ds, n - 1, args[n - 1], vals);
      forall k | 0 <= k < n - 1
        ensures Measured(k, args[k], vals[k], RunLens(CompileLens(args[..n]), vals))
      {
        MeasuredFrame(k, args[k], vals[k], RunLens(ds, vals), RunLens(CompileLens(args[..n]), vals));
      }
    }
  }

  lemma OneTerm(w: Width, lens: map<nat, nat>)
    ensures Sum([w], lens) == WidthValue(w, lens)
  {
    assert [w][..0] == [];
  }

  lemma ArgumentSize(k: nat, a: Arg, v: Value, lens: map<nat, nat>)
    requires Typed(a, v) && Measured(k, a, v, lens)
    ensures Sum(SizeFor(k, a), lens) == |WireValue(v)|
  {
    OneTerm(Four, lens);
    OneTerm(FourPlus(k), lens);
    if a == NewId(None) {
      SumAppend([FourPlus(k), Four], [Four], lens);
      SumAppend([FourPlus(k)], [Four], lens);
      assert SizeFor(k, a) == [FourPlus(k), Four] + [Four];
      assert [FourPlus(k), Four] == [FourPlus(k)] + [Four];
    }
  }

  /** The generated _reqBufLen is the length of the frame. */
  lemma {:induction false} SizeIsBodyLength(args: seq<Arg>, vals: seq<Value>, lens: map<nat, nat>)
    requires AllTyped(args, vals)
    requires forall k :: 0 <= k < |args| ==> Measured(k, args[k], vals[k], lens)
    ensures Sum(CompileSize(args), lens) == |WireBody(vals)|
  {
    if args != [] {
      var n := |args| - 1;
      SizeIsBodyLength(args[..n], vals[..n], lens);
      SumAppend(CompileSize(args[..n]), SizeFor(n, args[n]), lens);
      ArgumentSize(n, args[n], vals[n], lens);
    }
  }

  /** The slices are non-empty, in order, and leave no gap between from and to. */
  predicate Covers(writes: seq<(nat, nat)>, from: nat, to: nat) {
    if writes == [] then from == to
    else
      var last := writes[|writes| - 1];
      last.1 == to && last.0 < to && Covers(writes[..|writes| - 1], from, last.0)
  }

  /** The buffer holds what is encoded so far and zeros after it. */
  predicate Progress(c: Cursor, done: seq<byte>, size: nat) {
    && |done| <= size
    && c.buf == done + Zeros(size - |done|)
    && c.l == |done|
    && Covers(c.writes, 0, c.l)
  }

  /** Writing n bytes at the cursor and advancing by n. */
  lemma StoreAndAdvance(i: Instr, w: Width, f: Frame, c: Cursor, done: seq<byte>, size: nat, image: seq<byte>)
    requires !i.Advance? && Progress(c, done, size)
    requires Stored(i, f).Some? && Stored(i, f).value.0 == WidthValue(w, f.lens) == |image|
    requires |done| + |image| <= size && |image| > 0
    requires var b := Stored(i, f).value.1; |b| <= |image| && image == b + Zeros(|image| - |b|)
    ensures Step(i, f, c).Some?
    ensures var c2 := Step(Advance(w), f, Step(i, f, c).value);
            c2.Some? && Progress(c2.value, done + image, size)
  {
    var b := Stored(i, f).value.1;
    var c1 := Step(i, f, c).value;
    assert c.buf[..c.l] == done;
    assert c.buf[c.l + |b|..] == Zeros(size - |done| - |b|);
    assert c1.buf == done + b + Zeros(size - |done| - |b|);
    assert c1.buf == (done + image) + Zeros(size - |done| - |image|);
    assert c1.writes[..|c1.writes| - 1] == c.writes;
  }

  lemma TwoStatements(s: Stmt, t: Stmt, f: Frame, c: Cursor)
    ensures Walk([s, t], f, c) ==
            match StmtRun(s, f, c) case None => None case Some(c') => StmtRun(t, f, c')
  {
    assert [s, t][..1] == [s] && [s][..0] == [];
    assert Walk([s], f, c) == StmtRun(s, f, c);
  }

  lemma TwoInstructions(i: Instr, j: Instr, f: Frame, c: Cursor)
    ensures Line([i, j], f, c) ==
            match Step(i, f, c) case None => None case Some(c') => Step(j, f, c')
  {
    assert [i, j][1..] == [j] && [j][1..] == [];
    match Step(i, f, c) {
      case None =>
      case Some(c') => assert Line([j], f, c') == Step(j, f, c');
    }
  }

  /** An instruction and the advance after it, as the walk runs them. */
  lemma PairRuns(i: Instr, w: Width, f: Frame, c: Cursor, done: seq<byte>, size: nat, image: seq<byte>)
    requires !i.Advance? && Progress(c, done, size)
    requires Stored(i, f).Some? && Stored(i, f).value.0 == WidthValue(w, f.lens) == |image|
    requires |done| + |image| <= size && |image| > 0
    requires var b := Stored(i, f).value.1; |b| <= |image| && image == b + Zeros(|image| - |b|)
    ensures var r := Walk([Do(i), Do(Advance(w))], f, c); r.Some? && Progress(r.value, done + image, size)
    ensures var r := Line([i, Advance(w)], f, c); r.Some? && Progress(r.value, done + image, size)
  {
    StoreAndAdvance(i, w, f, c, done, size, image);
    TwoStatements(Do(i), Do(Advance(w)), f, c);
    TwoInstructions(i, Advance(w), f, c);
  }

  /** An argument of one PutX call, with or without the nil test around it. */
  lemma SingleWalk(k: nat, a: Arg, i: Instr, w: Width, f: Frame, c: Cursor, done: seq<byte>, size: nat, image: seq<byte>)
    requires k < |f.vals|
    requires var plain := [Do(i), Do(Advance(w))];
             var code := [i, Advance(w)];
             WalkFor(k, a) == plain
             || (|WalkFor(k, a)| == 1 && WalkFor(k, a)[0].IfNil?
                 && StmtRun(WalkFor(k, a)[0], f, c) == Line(code, f, c))
    requires !i.Advance? && Progress(c, done, size)
    requires Stored(i, f).Some? && Stored(i, f).value.0 == WidthValue(w, f.lens) == |image|
    requires |done| + |image| <= size && |image| > 0
    requires var b := Stored(i, f).value.1; |b| <= |image| && image == b + Zeros(|image| - |b|)
    ensures var r := Walk(WalkFor(k, a), f, c); r.Some? && Progress(r.value, done + image, size)
  {
    hide WalkFor, Progress, Stored, Step, Bytes32;
    PairRuns(i, w, f, c, done, size, image);
    if |WalkFor(k, a)| == 1 {
      OneStatement(WalkFor(k, a)[0], f, c);
      assert WalkFor(k, a) == [WalkFor(k, a)[0]];
    }
  }

  /** The three PutX calls of an untyped new_id. */
  lemma BindWalk(k: nat, a: Arg, f: Frame, c: Cursor, done: seq<byte>, size: nat)
    requires a == NewId(None)
    requires k < |f.vals| && Typed(a, f.vals[k]) && Measured(k, a, f.vals[k], f.lens)
    requires Progress(c, done, size) && |done| + |WireValue(f.vals[k])| <= size
    ensures var r := Walk(WalkFor(k, a), f, c);
            r.Some? && Progress(r.value, done + WireValue(f.vals[k]), size)
  {
    hide PaddedLen, Bytes32, Progress, Step, HeaderWord, Walk, Line;
    var v := f.vals[k];
    var name, version, bound := WireString(v.name), Bytes32(v.version), Bytes32(v.bound);
    var w := WalkFor(k, a);
    assert w[..2] == [Do(PutString(k)), Do(Advance(FourPlus(k)))];
    assert w[2..4] == [Do(PutWord(VersionOf(k))), Do(Advance(Four))];
    assert w[4..] == [Do(PutWord(IdOf(k))), Do(Advance(Four))];
    PairRuns(PutString(k), FourPlus(k), f, c, done, size, name);
    var c1 := Walk(w[..2], f, c).value;
    PairRuns(PutWord(VersionOf(k)), Four, f, c1, done + name, size, version);
    var c2 := Walk(w[2..4], f, c1).value;
    PairRuns(PutWord(IdOf(k)), Four, f, c2, done + name + version, size, bound);
    WalkAppend(w[..2], w[2..4], f, c);
    WalkAppend(w[..4], w[4..], f, c);
    assert w == w[..4] + w[4..] && w[..4] == w[..2] + w[2..4];
    assert done + name + version + bound == done + WireValue(v);
  }

  /** A nil object that is not allowed: the first statement panics. */
  lemma NilWalk(k: nat, a: Arg, f: Frame, c: Cursor)
    requires k < |f.vals| && NilDereference(a, f.vals[k])
    ensures Walk(WalkFor(k, a), f, c).None?
  {
    TwoStatements(Do(PutWord(IdOf(k))), Do(Advance(Four)), f, c);
  }

  /** The code of one argument appends exactly its wire format, or dereferences nil. */
  lemma ArgumentWalk(k: nat, a: Arg, f: Frame, c: Cursor, done: seq<byte>, size: nat)
    requires k < |f.vals| && Typed(a, f.vals[k]) && Measured(k, a, f.vals[k], f.lens)
    requires Progress(c, done, size) && |done| + |WireValue(f.vals[k])| <= size
    ensures var r := Walk(WalkFor(k, a), f, c);
            if NilDereference(a, f.vals[k]) then r.None?
            else r.Some? && Progress(r.value, done + WireValue(f.vals[k]), size)
  {
    hide PaddedLen, Bytes32, Progress, Step, HeaderWord, Walk, Line;
    var v := f.vals[k];
    var image := WireValue(v);
    if a == Fd {
      assert done + [] == done;
      NoStatement(f, c);
    } else if a == NewId(None) {
      BindWalk(k, a, f, c, done, size);
    } else if NilDereference(a, v) {
      NilWalk(k, a, f, c);
    } else if v == RefV(None) || v == StringV(None) {
      SingleWalk(k, a, PutWord(NullId), Four, f, c, done, size, image);
    } else {
      match a {
        case NewId(_) => SingleWalk(k, a, PutWord(IdOf(k)), Four, f, c, done, size, image);
        case Object(_, _) => SingleWalk(k, a, PutWord(IdOf(k)), Four, f, c, done, size, image);
        case Int => SingleWalk(k, a, PutWord(IntOf(k)), Four, f, c, done, size, image);
        case Uint => SingleWalk(k, a, PutWord(UintOf(k)), Four, f, c, done, size, image);
        case Fixed => SingleWalk(k, a, PutFixed(k), Four, f, c, done, size, image);
        case String(_) => SingleWalk(k, a, PutString(k), FourPlus(k), f, c, done, size, image);
        case Array => SingleWalk(k, a, PutArray(k), FourPlus(k), f, c, done, size, image);
      }
    }
  }

  lemma NoStatement(f: Frame, c: Cursor)
    ensures Walk([], f, c) == Some(c)
  {
  }

  lemma OneStatement(s: Stmt, f: Frame, c: Cursor)
    ensures Walk([s], f, c) == StmtRun(s, f, c)
  {
    assert [s][..0] == [];
  }

  /** The header: the sender and the size with the opcode. */
  lemma HeaderWalk(f: Frame, c: Cursor, size: nat)
    requires Progress(c, [], size) && size >= 8
    ensures var r := Walk(HEADER_WALK, f, c);
            r.Some? && Progress(r.value, Bytes32(f.self) + Bytes32(HeaderWord(f.size, f.opcode)), size)
  {
    var h := HEADER_WALK;
    PairRuns(PutWord(SelfId), Four, f, c, [], size, Bytes32(f.self));
    assert [] + Bytes32(f.self) == Bytes32(f.self);
    assert h[..2] == [Do(PutWord(SelfId)), Do(Advance(Four))];
    assert h[2..] == [Do(PutWord(SizeAndOpcode)), Do(Advance(Four))];
    var c1 := Walk(h[..2], f, c).value;
    PairRuns(PutWord(SizeAndOpcode), Four, f, c1, Bytes32(f.self), size, Bytes32(HeaderWord(f.size, f.opcode)));
    WalkAppend(h[..2], h[2..], f, c);
    assert h == h[..2] + h[2..];
  }

  predicate SomeNilDereference(args: seq<Arg>, vals: seq<Value>)
    requires |args| == |vals|
  {
    exists k :: 0 <= k < |args| && NilDereference(args[k], vals[k])
  }

  lemma BodyGrows(vals: seq<Value>)
    requires vals != []
    ensures |WireBody(vals)| == |WireBody(vals[..|vals| - 1])| + |WireValue(vals[|vals| - 1])|
  {
  }

  lemma {:induction false} BodyPrefixFits(vals: seq<Value>, n: nat)
    requires n <= |vals|
    ensures |WireBody(vals[..n])| <= |WireBody(vals)|
  {
    if n == |vals| {
      assert vals[..n] == vals;
    } else {
      var init := vals[..|vals| - 1];
      assert vals[..n] == init[..n];
      BodyPrefixFits(init, n);
      BodyGrows(vals);
    }
  }

  lemma {:induction false} WalkProgress(args: seq<Arg>, f: Frame, n: nat)
    requires n <= |args| && AllTyped(args, f.vals)
    requires forall k :: 0 <= k < |args| ==> Measured(k, args[k], f.vals[k], f.lens)
    requires f.size == 8 + |WireBody(f.vals)|
    ensures var r := Walk(CompileWalk(args[..n]), f, Cursor(Zeros(f.size), 0, []));
            if SomeNilDereference(args[..n], f.vals[..n]) then r.None?
            else r.Some? && Progress(r.value,
                   Bytes32(f.self) + Bytes32(HeaderWord(f.size, f.opcode)) + WireBody(f.vals[..n]), f.size)
  {
    hide PaddedLen, Bytes32, HeaderWord, WalkFor, WireValue, Measured, StmtRun, Typed;
    var start := Cursor(Zeros(f.size), 0, []);
    var head := Bytes32(f.self) + Bytes32(HeaderWord(f.size, f.opcode));
    if n == 0 {
      assert [] + Zeros(f.size) == Zeros(f.size);
      HeaderWalk(f, start, f.size);
      assert head + [] == head;
    } else {
      var k := n - 1;
      WalkProgress(args, f, k);
      assert args[..n][..k] == args[..k] && f.vals[..n][..k] == f.vals[..k];
      WalkAppend(CompileWalk(args[..k]), WalkFor(k, args[k]), f, start);
      BodyPrefixFits(f.vals, n);
      if !SomeNilDereference(args[..k], f.vals[..k]) {
        var c := Walk(CompileWalk(args[..k]), f, start).value;
        ArgumentWalk(k, args[k], f, c, head + WireBody(f.vals[..k]), f.size);
        assert head + WireBody(f.vals[..k]) + WireValue(f.vals[k]) == head + WireBody(f.vals[..n]);
        if NilDereference(args[k], f.vals[k]) {
          assert NilDereference(args[..n][k], f.vals[..n][k]);
        } else {
          forall j | 0 <= j < n
            ensures !NilDereference(args[..n][j], f.vals[..n][j])
          {
            if j < k { assert !NilDereference(args[..k][j], f.vals[..k][j]); }
          }
        }
      } else {
        var j :| 0 <= j < k && NilDereference(args[..k][j], f.vals[..k][j]);
        assert NilDereference(args[..n][j], f.vals[..n][j]);
      }
    }
  }

  /** The main result on requests. For every signature, the size expression equals the final
      cursor of the encoding walk and the length of the frame; no write leaves the buffer; the
      writes are consecutive slices from its first to its last byte; and the bytes are the wire
      format. The only panic is a nil object where the protocol wants one. */
  lemma RequestIsWireFormat(args: seq<Arg>, self: Word, opcode: nat, vals: seq<Value>)
    requires AllTyped(args, vals)
    ensures var r := CompileRequest(args);
            var c := Execute(r, self, opcode, vals);
            var size := SetUp(r, self, opcode, vals).size;
            && size == 8 + |WireBody(vals)|
            && (c.None? <==> SomeNilDereference(args, vals))
            && (c.Some? ==>
                && c.value.l == size == |c.value.buf|
                && c.value.buf == WireFrame(self, opcode, WireBody(vals))
                && Covers(c.value.writes, 0, size))
  {
    hide PaddedLen, Bytes32, HeaderWord, Measured, WireValue, Typed, Walk, Covers, NilDereference;
    var f := SetUp(CompileRequest(args), self, opcode, vals);
    assert args[..|args|] == args && vals[..|vals|] == vals;
    LensMeasure(args, vals, |args|);
    SizeIsBodyLength(args, vals, f.lens);
    WalkProgress(args, f, |args|);
  }

  /** What WriteMsg demands of a frame before it writes any byte. */
  predicate Sendable(b: seq<byte>) {
    && 8 <= |b| <= MAX_FRAME
    && |b| % 4 == 0
    && Uint32(b[4..8]) / 0x1_0000 == |b|
  }

  /** WriteMsg demands that the bytes are one message, no more and no less. */
  lemma SendableExactly(b: seq<byte>)
    ensures Sendable(b) <==> OneMessage(b)
  {
    hide Bytes32, Uint32, HeaderWord;
    if Sendable(b) {
      var word := Uint32(b[4..8]);
      BytesSurviveWord(b[..4]);
      BytesSurviveWord(b[4..8]);
      WordFromParts(word);
      BodyAligned(|b|);
      assert b == b[..4] + b[4..8] + b[8..];
      MessageOf(Uint32(b[..4]), word % 0x1_0000, b[8..]);
    }
    if OneMessage(b) {
      var sender: Word, opcode: nat, body: seq<byte> :|
        && opcode < 0x1_0000 && |body| % 4 == 0 && 8 + |body| <= MAX_FRAME
        && b == WireFrame(sender, opcode, body);
      var word := HeaderWord(8 + |body|, opcode);
      assert b[4..8] == Bytes32(word);
      WordSurvivesBytes(word);
      HeaderWordParts(8 + |body|, opcode);
      BodyAligned(|b|);
    }
  }

  lemma MessageOf(sender: Word, opcode: nat, body: seq<byte>)
    requires opcode < 0x1_0000 && |body| % 4 == 0 && 8 + |body| <= MAX_FRAME
    ensures OneMessage(WireFrame(sender, opcode, body))
  {
  }

  lemma BodyAligned(n: nat)
    requires n >= 8
    ensures n % 4 == 0 <==> (n - 8) % 4 == 0
  {
  }

  /** A generated request is refused by WriteMsg exactly when it does not fit the 16-bit size. */
  lemma GeneratedFrameSendable(self: Word, opcode: nat, vals: seq<Value>)
    ensures Sendable(WireFrame(self, opcode, WireBody(vals))) <==> 8 + |WireBody(vals)| <= MAX_FRAME
  {
    hide Bytes32, HeaderWord, WireBody, Uint32;
    var body := WireBody(vals);
    var b := WireFrame(self, opcode, body);
    var h := HeaderWord(8 + |body|, opcode);
    assert b[4..8] == Bytes32(h);
    WordSurvivesBytes(h);
    WireBodyAligned(vals);
    HeaderSize(8 + |body|, opcode);
  }

  lemma HeaderSize(size: nat, opcode: nat)
    ensures size <= MAX_FRAME ==> HeaderWord(size, opcode) / 0x1_0000 == size
  {
    var low := opcode % 0x1_0000;
    if size <= MAX_FRAME {
      assert size * 0x1_0000 + low < 0x1_0000_0000;
      assert (size * 0x1_0000 + low) / 0x1_0000 == size;
    }
  }
}
