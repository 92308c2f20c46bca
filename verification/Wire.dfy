/** The byte-level rules every other module builds on: 32-bit words in the host's
    little-endian order, alignment to four bytes, and NUL-terminated strings. */
module Wire {

  type byte = b: int | 0 <= b < 0x100

  /** Go's uint32. */
  type Word = w: int | 0 <= w < 0x1_0000_0000

  datatype Option<+T> = None | Some(value: T)

  const NUL: byte := 0

  /** The largest length a frame can declare in its 16-bit size field. */
  const MAX_FRAME := 0xffff

  function Uint32(src: seq<byte>): Word
    requires |src| >= 4
  {
    src[0] as int + 0x100 * (src[1] as int) + 0x1_0000 * (src[2] as int) + 0x100_0000 * (src[3] as int)
  }

  function Bytes32(v: Word): (b: seq<byte>)
    ensures |b| == 4
  {
    [v % 0x100, v / 0x100 % 0x100, v / 0x1_0000 % 0x100, v / 0x100_0000]
  }

  lemma WordSurvivesBytes(v: Word)
    ensures Uint32(Bytes32(v)) == v
  {
    assert v / 0x100 / 0x100 == v / 0x1_0000;
    assert v / 0x1_0000 / 0x100 == v / 0x100_0000;
  }

  lemma BytesSurviveWord(b: seq<byte>)
    requires |b| == 4
    ensures Bytes32(Uint32(b)) == b
  {
    var v, b1, b2, b3 := Uint32(b), b[1] as int, b[2] as int, b[3] as int;
    assert v / 0x100 == b1 + 0x100 * b2 + 0x1_0000 * b3;
    assert v / 0x1_0000 == b2 + 0x100 * b3;
    assert v / 0x100_0000 == b3;
  }

  /** Rounds a length up to the next multiple of four. */
  function PaddedLen(l: nat): (r: nat)
    ensures l <= r < l + 4
  {
    if l % 4 != 0 then l + (4 - l % 4) else l
  }

  lemma PaddedLenAligned(l: nat)
    ensures PaddedLen(l) % 4 == 0
  {
  }

  function Zeros(n: nat): (z: seq<byte>)
    ensures |z| == n && forall k :: 0 <= k < n ==> z[k] == 0
  {
    seq(n, _ => 0)
  }

  /** Two's complement: what a conversion from int32 to uint32 keeps. */
  type Int32 = i: int | -0x8000_0000 <= i < 0x8000_0000

  function ToWord(i: Int32): Word {
    if i < 0 then i + 0x1_0000_0000 else i
  }

  function ToInt32(w: Word): Int32 {
    if w >= 0x8000_0000 then w - 0x1_0000_0000 else w
  }

  /** The index of the first NUL, or the length when there is none. */
  function FirstNul(s: seq<byte>): (k: nat)
    ensures k <= |s|
    ensures forall j :: 0 <= j < k ==> s[j] != NUL
    ensures k < |s| ==> s[k] == NUL
  {
    if s == [] then 0
    else if s[0] == NUL then 0
    else 1 + FirstNul(s[1..])
  }

  /** The C string held in s: everything before its first NUL. */
  function CString(s: seq<byte>): seq<byte> {
    s[..FirstNul(s)]
  }

  lemma FirstNulUnique(s: seq<byte>, k: nat)
    requires k <= |s|
    requires forall j :: 0 <= j < k ==> s[j] != NUL
    requires k < |s| ==> s[k] == NUL
    ensures FirstNul(s) == k
  {
  }

  /** Terminating a string changes nothing about the C string it holds. */
  lemma CStringTerminated(s: seq<byte>, rest: seq<byte>)
    ensures FirstNul(s + [NUL] + rest) == FirstNul(s)
    ensures CString(s + [NUL] + rest) == CString(s)
  {
    var k := FirstNul(s);
    FirstNulUnique(s + [NUL] + rest, k);
  }
}
