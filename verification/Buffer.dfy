/** A generated request at work: it fills its buffer in place, with the Put functions of
    client/request.go. */
module Buffer {
  import opened Wire
  import opened Signature
  import opened Encoder

  /** Copies bytes into the buffer. */
  method Copy(buf: array<byte>, at: nat, src: seq<byte>)
    requires at + |src| <= buf.Length
    modifies buf
    ensures buf[..] == Splice(old(buf[..]), at, src)
  {
    for i := 0 to |src|
      invariant forall j :: 0 <= j < buf.Length ==> buf[j] == if at <= j < at + i then src[j - at] else old(buf[j])
    {
      buf[at + i] := src[i];
    }
  }

  method PutUint32(buf: array<byte>, at: nat, v: Word)
    requires at + 4 <= buf.Length
    modifies buf
    ensures buf[..] == Splice(old(buf[..]), at, Bytes32(v))
  {
    hide Splice;
    Copy(buf, at, Bytes32(v));
  }

  /** Writing two pieces next to each other. */
  lemma SpliceTwice(b: seq<byte>, at: nat, x: seq<byte>, y: seq<byte>)
    requires at + |x| + |y| <= |b|
    ensures Splice(Splice(b, at, x), at + |x|, y) == Splice(b, at, x + y)
  {
  }

  /** PutString on the slice of n bytes at a position; false is a panic. */
  method PutString(buf: array<byte>, at: nat, n: nat, v: seq<byte>) returns (ok: bool)
    requires at + n <= buf.Length
    modifies buf
    ensures ok <==> StringBytes(v, n).Some?
    ensures ok ==> buf[..] == Splice(old(buf[..]), at, StringBytes(v, n).value)
  {
    hide Splice;
    if n < 4 {
      return false;
    }
    var word := (|v| + 1) % 0x1_0000_0000;
    PutUint32(buf, at, word);
    if 4 + |v| >= n {
      return false;
    }
    Copy(buf, at + 4, v);
    Copy(buf, at + 4 + |v|, [NUL]);
    SpliceTwice(old(buf[..]), at, Bytes32(word), v);
    SpliceTwice(old(buf[..]), at, Bytes32(word) + v, [NUL]);
    ok := true;
  }

  /** PutArray on such a slice; what does not fit is dropped. */
  method PutArray(buf: array<byte>, at: nat, n: nat, a: seq<byte>) returns (ok: bool)
    requires at + n <= buf.Length
    modifies buf
    ensures ok <==> ArrayBytes(a, n).Some?
    ensures ok ==> buf[..] == Splice(old(buf[..]), at, ArrayBytes(a, n).value)
  {
    hide Splice;
    if n < 4 {
      return false;
    }
    var word := |a| % 0x1_0000_0000;
    var fits := if |a| <= n - 4 then a else a[..n - 4];
    PutUint32(buf, at, word);
    Copy(buf, at + 4, fits);
    SpliceTwice(old(buf[..]), at, Bytes32(word), fits);
    ok := true;
  }

  /** One instruction. The cursor's writes are only a record. */
  method Exec(i: Instr, f: Frame, buf: array<byte>, l: nat, ghost writes: seq<(nat, nat)>)
    returns (l': nat, ghost writes': seq<(nat, nat)>, ok: bool)
    modifies buf
    ensures var r := Step(i, f, Cursor(old(buf[..]), l, writes));
            ok == r.Some? && (ok ==> Cursor(buf[..], l', writes') == r.value)
  {
    hide Splice, HeaderWord, Bytes32;
    l', writes', ok := l, writes, true;
    match i {
      case Advance(w) => l' := l + WidthValue(w, f.lens);
      case PutWord(src) =>
        var v := SourceWord(src, f);
        if v.None? || l + 4 > buf.Length {
          return l, writes, false;
        }
        PutUint32(buf, l, v.value);
        writes' := writes + [(l, l + 4)];
      case PutFixed(k) =>
        if k >= |f.vals| || !f.vals[k].FixedV? || l + 4 > buf.Length {
          return l, writes, false;
        }
        PutUint32(buf, l, ToWord(f.vals[k].raw));
        writes' := writes + [(l, l + 4)];
      case PutString(k) =>
        var n := WidthValue(FourPlus(k), f.lens);
        var text := TextOf(k, f);
        if text.None? || l + n > buf.Length {
          return l, writes, false;
        }
        ok := PutString(buf, l, n, text.value);
        writes' := writes + [(l, l + n)];
      case PutArray(k) =>
        var n := WidthValue(FourPlus(k), f.lens);
        if k >= |f.vals| || !f.vals[k].ArrayV? || l + n > buf.Length {
          return l, writes, false;
        }
        ok := PutArray(buf, l, n, f.vals[k].data);
        writes' := writes + [(l, l + n)];
    }
  }

  method RunLine(code: seq<Instr>, f: Frame, buf: array<byte>, l: nat, ghost writes: seq<(nat, nat)>)
    returns (l': nat, ghost writes': seq<(nat, nat)>, ok: bool)
    modifies buf
    ensures var r := Line(code, f, Cursor(old(buf[..]), l, writes));
            ok == r.Some? && (ok ==> Cursor(buf[..], l', writes') == r.value)
  {
    hide Step;
    ghost var goal := Line(code, f, Cursor(buf[..], l, writes));
    l', writes', ok := l, writes, true;
    var i := 0;
    while i < |code| && ok
      invariant i <= |code|
      invariant goal == if ok then Line(code[i..], f, Cursor(buf[..], l', writes')) else None
    {
      assert code[i..][1..] == code[i + 1..];
      l', writes', ok := Exec(code[i], f, buf, l', writes');
      i := i + 1;
    }
  }

  method RunStmt(s: Stmt, f: Frame, buf: array<byte>, l: nat, ghost writes: seq<(nat, nat)>)
    returns (l': nat, ghost writes': seq<(nat, nat)>, ok: bool)
    modifies buf
    ensures var r := StmtRun(s, f, Cursor(old(buf[..]), l, writes));
            ok == r.Some? && (ok ==> Cursor(buf[..], l', writes') == r.value)
  {
    hide Step, Line;
    match s {
      case Do(i) => l', writes', ok := Exec(i, f, buf, l, writes);
      case IfNil(k, thn, els) =>
        l', writes', ok := RunLine(if IsNil(k, f) then thn else els, f, buf, l, writes);
    }
  }

  method RunWalk(ss: seq<Stmt>, f: Frame, buf: array<byte>)
    returns (l: nat, ghost writes: seq<(nat, nat)>, ok: bool)
    modifies buf
    ensures var r := Walk(ss, f, Cursor(old(buf[..]), 0, []));
            ok == r.Some? && (ok ==> Cursor(buf[..], l, writes) == r.value)
  {
    hide StmtRun;
    ghost var start := Cursor(buf[..], 0, []);
    l, writes, ok := 0, [], true;
    var i := 0;
    while i < |ss| && ok
      invariant i <= |ss|
      invariant Walk(ss[..i], f, start) == if ok then Some(Cursor(buf[..], l, writes)) else None
    {
      assert ss[..i + 1][..i] == ss[..i];
      l, writes, ok := RunStmt(ss[i], f, buf, l, writes);
      i := i + 1;
    }
    assert ss[..i] + ss[i..] == ss;
    WalkAppend(ss[..i], ss[i..], f, start);
  }

  /** A generated request method up to its call of WriteMsg: the buffer holds the wire format of
      the arguments, and the cursor has reached its end; it panics exactly on a nil object
      where none is allowed. */
  method Encode(args: seq<Arg>, self: Word, opcode: nat, vals: seq<Value>) returns (buf: array<byte>, l: nat, ok: bool)
    requires AllTyped(args, vals)
    ensures ok <==> !SomeNilDereference(args, vals)
    ensures ok ==> buf[..] == WireFrame(self, opcode, WireBody(vals)) && l == buf.Length == 8 + |WireBody(vals)|
    ensures fresh(buf)
  {
    hide Walk, SomeNilDereference, WireFrame, Covers, CompileRequest;
    var r := CompileRequest(args);
    var f := SetUp(r, self, opcode, vals);
    buf := new byte[f.size](_ => 0);
    assert buf[..] == Zeros(f.size);
    RequestIsWireFormat(args, self, opcode, vals);
    ghost var writes;
    l, writes, ok := RunWalk(r.walk, f, buf);
    assert Walk(r.walk, f, Cursor(Zeros(f.size), 0, [])) == Execute(r, self, opcode, vals);
  }
}
