/** Message signatures as the scanner reads them from a protocol description. */
module Signature {
  import opened Wire
  import opened Registry

  /** An argument's type. An interface of None is an argument without interface attribute. */
  datatype Arg =
    | NewId(iface: Option<Kind>)
    | Object(iface: Option<Kind>, allowNull: bool)
    | Int
    | Uint
    | Fixed
    | String(allowNull: bool)
    | Array
    | Fd

  /** wl_display.delete_id and wl_display.error are compiled with an extra effect. */
  datatype Role = Plain | DeleteIdEvent | DisplayErrorEvent

  datatype Event = Event(args: seq<Arg>, role: Role)

  /** What Dispatch sees of a proxy's type. Generated types with events are fdAware, which
      says they have a HasFD method; a hand-written dispatcher may not be. */
  datatype Interface = Interface(events: seq<Event>, fdAware: bool)

  type Protocol = seq<Interface>

  function InterfaceOf(p: Protocol, kind: Kind): Interface {
    if kind < |p| then p[kind] else Interface([], false)
  }

  predicate HasNewId(args: seq<Arg>) {
    exists i :: 0 <= i < |args| && args[i].NewId?
  }

  predicate CarriesFD(args: seq<Arg>) {
    Fd in args
  }

  /** The arguments of one message as the client holds them. */
  datatype Value =
    | RefV(target: Option<Word>)
    | NewV(id: Word)
    | BindV(name: seq<byte>, version: Word, bound: Word)
    | UintV(w: Word)
    | IntV(i: Int32)
    | FixedV(raw: Int32)
    | StringV(text: Option<seq<byte>>)
    | ArrayV(data: seq<byte>)
    | FdV(fd: int)

  /** The static types of the generated parameters: only a pointer parameter can be nil. */
  predicate Typed(a: Arg, v: Value) {
    match a
    case NewId(None) => v.BindV?
    case NewId(Some(_)) => v.NewV?
    case Object(_, _) => v.RefV?
    case Int => v.IntV?
    case Uint => v.UintV?
    case Fixed => v.FixedV?
    case String(allowNull) => v.StringV? && (allowNull || v.text.Some?)
    case Array => v.ArrayV?
    case Fd => v.FdV?
  }

  predicate AllTyped(args: seq<Arg>, vals: seq<Value>) {
    |args| == |vals| && forall i :: 0 <= i < |args| ==> Typed(args[i], vals[i])
  }

  /** A nil object where none is allowed: calling its ID method panics. */
  predicate NilDereference(a: Arg, v: Value) {
    a.Object? && !a.allowNull && v == RefV(None)
  }

  /** The wire format of one argument, as chapter 4 of the Wayland documentation lays it out:
      words, strings with their NUL counted, arrays, both padded with zeros to four bytes. */
  function WireString(s: seq<byte>): (w: seq<byte>)
    ensures |w| == 4 + PaddedLen(|s| + 1)
  {
    Bytes32((|s| + 1) % 0x1_0000_0000) + s + [NUL] + Zeros(PaddedLen(|s| + 1) - |s| - 1)
  }

  function WireArray(a: seq<byte>): (w: seq<byte>)
    ensures |w| == 4 + PaddedLen(|a|)
  {
    Bytes32(|a| % 0x1_0000_0000) + a + Zeros(PaddedLen(|a|) - |a|)
  }

  function WireValue(v: Value): seq<byte> {
    match v
    case RefV(None) => Bytes32(0)
    case RefV(Some(id)) => Bytes32(id)
    case NewV(id) => Bytes32(id)
    case BindV(name, version, bound) => WireString(name) + Bytes32(version) + Bytes32(bound)
    case UintV(w) => Bytes32(w)
    case IntV(i) => Bytes32(ToWord(i))
    case FixedV(raw) => Bytes32(ToWord(raw))
    case StringV(None) => Bytes32(0)
    case StringV(Some(s)) => WireString(s)
    case ArrayV(a) => WireArray(a)
    case FdV(_) => []
  }

  function WireBody(vals: seq<Value>): seq<byte> {
    if vals == [] then [] else WireBody(vals[..|vals| - 1]) + WireValue(vals[|vals| - 1])
  }

  lemma WireValueAligned(v: Value)
    ensures |WireValue(v)| % 4 == 0
  {
    hide Bytes32, WireString, WireArray, PaddedLen;
    match v {
      case BindV(name, _, _) => PaddedLenAligned(|name| + 1);
      case StringV(Some(s)) => PaddedLenAligned(|s| + 1);
      case ArrayV(a) => PaddedLenAligned(|a|);
      case _ =>
    }
  }

  /** Every frame is aligned, whatever its arguments. */
  lemma {:induction false} WireBodyAligned(vals: seq<Value>)
    ensures |WireBody(vals)| % 4 == 0
  {
    hide WireValue;
    if vals != [] {
      var init, last := vals[..|vals| - 1], vals[|vals| - 1];
      WireBodyAligned(init);
      WireValueAligned(last);
      SumAligned(|WireBody(init)|, |WireValue(last)|);
    }
  }

  lemma SumAligned(m: nat, n: nat)
    requires m % 4 == 0 && n % 4 == 0
    ensures (m + n) % 4 == 0
  {
  }

  /** A whole message. The size goes into the upper half of the second word. */
  function WireFrame(sender: Word, opcode: nat, body: seq<byte>): seq<byte> {
    Bytes32(sender) + Bytes32(HeaderWord(8 + |body|, opcode)) + body
  }

  function HeaderWord(size: nat, opcode: nat): Word {
    (size * 0x1_0000 + opcode % 0x1_0000) % 0x1_0000_0000
  }

  lemma HeaderWordParts(size: nat, opcode: nat)
    requires size <= MAX_FRAME && opcode < 0x1_0000
    ensures HeaderWord(size, opcode) / 0x1_0000 == size && HeaderWord(size, opcode) % 0x1_0000 == opcode
  {
    var w := size * 0x1_0000 + opcode;
    assert w < 0x1_0000_0000;
    assert w / 0x1_0000 == size;
  }

  lemma WordFromParts(word: Word)
    ensures HeaderWord(word / 0x1_0000, word % 0x1_0000) == word
    ensures word % 0x1_0000 < 0x1_0000 && word / 0x1_0000 <= MAX_FRAME
  {
    assert word / 0x1_0000 * 0x1_0000 + word % 0x1_0000 == word;
  }

  /** The bytes are one message: of some sender, opcode and aligned body, with its own length. */
  ghost predicate OneMessage(b: seq<byte>) {
    exists sender: Word, opcode: nat, body: seq<byte> ::
      && opcode < 0x1_0000 && |body| % 4 == 0 && 8 + |body| <= MAX_FRAME
      && b == WireFrame(sender, opcode, body)
  }
}
