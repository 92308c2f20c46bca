/** Incoming traffic: reading messages from arbitrary fragments is splitting the byte stream,
    and each event that carries a descriptor gets the one that was sent with it. */
module Framing {
  import opened Wire
  import opened Registry
  import opened Signature
  import opened Socket
  import opened Connection
  import Decoder
  import Encoder
  import D = Descriptors
  import Z = Zombies

  /** The simple splitter: the next message of a byte stream and what follows it. */
  function Split(b: seq<byte>): Option<(Frame, seq<byte>)> {
    if |b| < 8 || HeaderFault(b[..8]).Some? then None
    else
      var word := Uint32(b[4..8]);
      var size := word / 0x1_0000;
      if |b| < size then None
      else Some((Frame(Uint32(b[..4]), word % 0x1_0000, b[8..size]), b[size..]))
  }

  /** What one ReadMsg does to a connection when the stream starts with a message. */
  ghost predicate ReadsOne(s: State, f: Frame, rest: seq<byte>) {
    var (s', r) := ReadMsg(s);
    var size := 8 + |f.body|;
    var fds := FDsWithin(s.inbox, size);
    var (fd, queued) := TakePending(s.(pending := s.pending + fds));
    && r == Got(f, fd)
    && Clean(s'.inbox) && Stream(s'.inbox) == rest
    && s' == s.(inbox := s'.inbox, pending := queued.pending, received := s.received + fds)
    && (forall n :: fds + FDsWithin(s'.inbox, n) == FDsWithin(s.inbox, size + n))
  }

  lemma HeaderOfStream(b: seq<byte>, got: seq<byte>, rest: seq<byte>)
    requires |got| == 8 && got + rest == b
    ensures b[..8] == got && b[8..] == rest
    ensures got[..4] == b[..4] && got[4..8] == b[4..8]
  {
  }

  lemma BodyOfStream(b: seq<byte>, got: seq<byte>, rest: seq<byte>, size: nat)
    requires size >= 8 && |b| >= 8 && |got| == size - 8 && got + rest == b[8..]
    ensures |b| >= size && b[8..size] == got && b[size..] == rest
  {
  }

  lemma TwoReads(inbox: seq<Arrival>, size: nat)
    requires Clean(inbox) && size >= 8 && ReadExact(inbox, 8).error.None?
    ensures var i1 := ReadExact(inbox, 8).inbox;
            var i2 := ReadExact(i1, size - 8).inbox;
            && FDsWithin(inbox, 8) + FDsWithin(i1, size - 8) == FDsWithin(inbox, size)
            && forall n :: FDsWithin(inbox, size) + FDsWithin(i2, n) == FDsWithin(inbox, size + n)
  {
    hide ReadExact, FDsWithin;
    var i1 := ReadExact(inbox, 8).inbox;
    var i2 := ReadExact(i1, size - 8).inbox;
    ReadExactTakes(inbox, 8);
    FDsWithinSplit(inbox, 8, size - 8);
    forall n: nat
      ensures FDsWithin(inbox, size) + FDsWithin(i2, n) == FDsWithin(inbox, size + n)
    {
      FDsWithinSplit(inbox, 8, size - 8 + n);
      FDsWithinSplit(i1, size - 8, n);
      assert (FDsWithin(inbox, 8) + FDsWithin(i1, size - 8)) + FDsWithin(i2, n)
          == FDsWithin(inbox, 8) + (FDsWithin(i1, size - 8) + FDsWithin(i2, n));
    }
  }

  /** The main result on reading: on any fragmentation of a byte stream, ReadMsg returns the
      message the splitter finds and leaves exactly the rest, not a byte more or less; and it
      fails exactly where the splitter finds none. */
  lemma ReadMsgRefinesSplit(s: State)
    requires s.fatal.None? && Clean(s.inbox)
    ensures match Split(Stream(s.inbox))
            case None => ReadMsg(s).1.ReadFailed? && ReadMsg(s).0.fatal.Some?
            case Some((f, rest)) => ReadsOne(s, f, rest)
  {
    hide ReadExact, FDsWithin, HeaderFault, Uint32, Stream, Clean;
    var b := Stream(s.inbox);
    var h := ReadExact(s.inbox, 8);
    ReadExactTakes(s.inbox, 8);
    if h.error.None? {
      HeaderOfStream(b, h.got, Stream(h.inbox));
      if HeaderFault(h.got).None? {
        GoodSize(h.got);
        var size := Uint32(h.got[4..8]) / 0x1_0000;
        var r := ReadExact(h.inbox, size - 8);
        ReadExactTakes(h.inbox, size - 8);
        if r.error.None? {
          BodyOfStream(b, r.got, Stream(r.inbox), size);
          TwoReads(s.inbox, size);
          assert s.pending + h.fds + r.fds == s.pending + FDsWithin(s.inbox, size);
          assert s.received + h.fds + r.fds == s.received + FDsWithin(s.inbox, size);
        }
      }
    }
  }

  // ---- streams of whole messages

  predicate Valid(f: Frame) {
    f.sender != 0 && f.opcode < 0x1_0000 && |f.body| % 4 == 0 && 8 + |f.body| <= MAX_FRAME
  }

  function Bytes(f: Frame): (b: seq<byte>)
    ensures |b| == 8 + |f.body|
  {
    WireFrame(f.sender, f.opcode, f.body)
  }

  lemma SplitFindsFrame(f: Frame, rest: seq<byte>)
    requires Valid(f)
    ensures Split(Bytes(f) + rest) == Some((f, rest))
  {
    hide Bytes32, Uint32, HeaderWord;
    var size := 8 + |f.body|;
    var w := HeaderWord(size, f.opcode);
    var b := Bytes(f) + rest;
    assert b[..4] == Bytes32(f.sender) && b[4..8] == Bytes32(w);
    assert b[..8][..4] == Bytes32(f.sender) && b[..8][4..8] == Bytes32(w);
    WordSurvivesBytes(f.sender);
    WordSurvivesBytes(w);
    HeaderWordParts(size, f.opcode);
    assert b[8..size] == f.body && b[size..] == rest;
    Alignment(size, |f.body|);
  }

  /** The splitter loses nothing: what it finds is valid, and encodes to the bytes it was found
      in. */
  lemma SplitLosesNothing(b: seq<byte>)
    requires Split(b).Some?
    ensures var (f, rest) := Split(b).value; Valid(f) && b == Bytes(f) + rest
  {
    hide Bytes32, Uint32;
    var (f, rest) := Split(b).value;
    var word := Uint32(b[4..8]);
    assert b[..8][..4] == b[..4] && b[..8][4..8] == b[4..8];
    BytesSurviveWord(b[..4]);
    BytesSurviveWord(b[4..8]);
    WordFromParts(word);
    Alignment(word / 0x1_0000, |f.body|);
    assert b == b[..4] + b[4..8] + b[8..word / 0x1_0000] + rest;
  }

  lemma Alignment(size: nat, n: nat)
    requires size == 8 + n
    ensures size % 4 == 0 <==> n % 4 == 0
  {
  }

  /** A header that is not a message's: the error says what is wrong with it, and nothing is read
      beyond it. */
  lemma InvalidHeaderIsFatal(s: State, sender: Word, size: nat, opcode: nat, rest: seq<byte>)
    requires s.fatal.None? && Clean(s.inbox) && size <= MAX_FRAME && opcode < 0x1_0000
    requires Stream(s.inbox) == Bytes32(sender) + Bytes32(HeaderWord(size, opcode)) + rest
    requires sender == 0 || size < 8 || size % 4 != 0
    ensures var (t, r) := ReadMsg(s);
            && r == ReadFailed(if sender == 0 then ZeroSender else if size < 8 then BadSize else Unaligned)
            && t.fatal == Some(r.error) && Stream(t.inbox) == rest
            && t.pending == [] && t.closed == s.closed + s.pending + FDsWithin(s.inbox, 8)
  {
    hide ReadExact, FDsWithin, Bytes32, Uint32, Stream, Clean, HeaderWord;
    var h := ReadExact(s.inbox, 8);
    ReadExactTakes(s.inbox, 8);
    var first, second := Bytes32(sender), Bytes32(HeaderWord(size, opcode));
    assert first + second + rest == (first + second) + rest;
    HeaderOfStream(Stream(s.inbox), h.got, Stream(h.inbox));
    assert h.got == first + second && Stream(h.inbox) == rest;
    assert h.got[..4] == first && h.got[4..8] == second;
    WordSurvivesBytes(sender);
    WordSurvivesBytes(HeaderWord(size, opcode));
    HeaderWordParts(size, opcode);
    assert s.closed + (s.pending + h.fds) == s.closed + s.pending + h.fds;
  }

  function BytesAll(fs: seq<Frame>): seq<byte> {
    if fs == [] then [] else Bytes(fs[0]) + BytesAll(fs[1..])
  }

  /** The messages that n calls of ReadMsg return, up to a failure. */
  function ReadFrames(s: State, n: nat): (State, seq<Frame>)
    decreases n
  {
    if n == 0 then (s, [])
    else
      var (s1, r) := ReadMsg(s);
      if r.Got? then
        var (s2, fs) := ReadFrames(s1, n - 1);
        (s2, [r.frame] + fs)
      else (s1, [])
  }

  /** Fragmentation is invisible: however a stream of messages is cut, the same messages come
      out, in order, and nothing of what follows them is consumed. */
  lemma {:induction false} FragmentationIsInvisible(s: State, fs: seq<Frame>, rest: seq<byte>)
    requires s.fatal.None? && Clean(s.inbox)
    requires Stream(s.inbox) == BytesAll(fs) + rest
    requires forall i :: 0 <= i < |fs| ==> Valid(fs[i])
    ensures var (s', out) := ReadFrames(s, |fs|);
            out == fs && Stream(s'.inbox) == rest && s'.fatal.None?
    decreases |fs|
  {
    hide ReadMsg, Split, Bytes;
    if fs == [] {
      assert [] + rest == rest;
    } else {
      var more := BytesAll(fs[1..]) + rest;
      assert Stream(s.inbox) == Bytes(fs[0]) + more;
      SplitFindsFrame(fs[0], more);
      ReadMsgRefinesSplit(s);
      FragmentationIsInvisible(ReadMsg(s).0, fs[1..], rest);
    }
  }

  // ---- descriptors beside the stream

  /** A message as the compositor sent it, with its descriptor if its event carries one. */
  datatype Sent = Sent(frame: Frame, fd: Option<int>)

  function SentBytes(sent: seq<Sent>): seq<byte> {
    if sent == [] then [] else Bytes(sent[0].frame) + SentBytes(sent[1..])
  }

  function One(fd: Option<int>): seq<int> {
    if fd.Some? then [fd.value] else []
  }

  function SentFDs(sent: seq<Sent>): seq<int> {
    if sent == [] then [] else One(sent[0].fd) + SentFDs(sent[1..])
  }

  /** Descriptors arrive in the order they were sent, each no later than the last byte of its
      message; how much earlier does not matter. queued have arrived before. */
  ghost predicate Timely(queued: seq<int>, inbox: seq<Arrival>, sent: seq<Sent>) {
    forall k :: 0 <= k <= |sent| ==>
      SentFDs(sent[..k]) <= queued + FDsWithin(inbox, |SentBytes(sent[..k])|)
  }

  /** The handler leaves the connection open. */
  predicate KeepsOpen(h: Handler) {
    h.Present? ==> CloseIt !in h.deeds
  }

  /** The sender and descriptor Dispatch uses for the next message. */
  function Routed(p: Protocol, s: State): Option<(Frame, int)> {
    var (s1, r) := ReadMsg(s);
    if !r.Got? || r.frame.sender !in s1.objects then None
    else
      var iface := InterfaceOf(p, s1.objects[r.frame.sender].kind);
      Some((r.frame, RouteFD(s1, iface, r.frame.opcode, r.fd).1))
  }

  /** The next message is from a sender that tells which of its events carry a descriptor, and
      is dispatched without an error. */
  predicate Honest(p: Protocol, s: State, m: Sent, h: Handler) {
    && m.frame.sender in s.objects
    && (m.fd.Some? ==> m.fd.value >= 0)
    && KeepsOpen(h)
    && Dispatch(p, s, h).1.None?
    && var iface := InterfaceOf(p, s.objects[m.frame.sender].kind);
       iface.fdAware && (HasFD(iface, m.frame.opcode) <==> m.fd.Some?)
  }

  predicate HonestRun(p: Protocol, s: State, sent: seq<Sent>, hs: seq<Handler>)
    requires |sent| == |hs|
    decreases |sent|
  {
    sent == [] || (Honest(p, s, sent[0], hs[0]) && HonestRun(p, Dispatch(p, s, hs[0]).0, sent[1..], hs[1..]))
  }

  /** What consecutive dispatches work on. */
  function RoutedAll(p: Protocol, s: State, hs: seq<Handler>): seq<Option<(Frame, int)>>
    decreases |hs|
  {
    if hs == [] then [] else [Routed(p, s)] + RoutedAll(p, Dispatch(p, s, hs[0]).0, hs[1..])
  }

  function Expected(sent: seq<Sent>): seq<Option<(Frame, int)>> {
    if sent == [] then []
    else [Some((sent[0].frame, if sent[0].fd.Some? then sent[0].fd.value else -1))] + Expected(sent[1..])
  }

  /** A state reached without an error has neither failed nor been read from in between. */
  predicate Untouched(s: State, s': State) {
    s'.fatal.None? ==> s.fatal.None? && s'.pending == s.pending && s'.inbox == s.inbox
  }

  lemma {:induction false} DoAllUntouched(s: State, ds: seq<Deed>)
    requires CloseIt !in ds
    ensures Untouched(s, DoAll(s, ds).0)
    decreases |ds|
  {
    hide Allocate, Encoder.Sendable, WriteFrame;
    if ds != [] {
      assert Untouched(s, Do(s, ds[0]).0);
      DoAllUntouched(Do(s, ds[0]).0, ds[1..]);
    }
  }

  lemma FinishUntouched(s: State, fd: int, h: Handler)
    requires KeepsOpen(h)
    ensures Untouched(s, Finish(s, fd, h).0)
  {
    if h.Present? { DoAllUntouched(Noted(s, h), h.deeds); }
  }

  lemma DispatchEventUntouched(s: State, e: Event, fd: int, data: seq<byte>, h: Handler)
    requires KeepsOpen(h)
    ensures Untouched(s, DispatchEvent(s, e, fd, data, h).0)
  {
    hide Decoder.Decode, Finish, DeleteID, Z.Decodes, Z.DeletedId, ErrorOf;
    match Decoder.Decode(e.args, s.objects, data, fd) {
      case Panic(_) =>
      case Next(w) =>
        var s1 := s.(objects := w.objects);
        FinishUntouched(Delete(s1, Z.DeletedId(w.fields)), fd, h);
        FinishUntouched(SetFatal(s1, ErrorOf(w.fields)), fd, h);
        FinishUntouched(s1, fd, h);
    }
  }

  /** Dispatching a message without an error leaves the queue as routing left it. */
  lemma DispatchFrameUntouched(p: Protocol, s: State, f: Frame, fd: int, h: Handler)
    requires KeepsOpen(h) && f.sender in s.objects && DispatchFrame(p, s, f, fd, h).fatal.None?
    ensures var iface := InterfaceOf(p, s.objects[f.sender].kind);
            Untouched(RouteFD(s, iface, f.opcode, fd).0, DispatchFrame(p, s, f, fd, h))
  {
    hide DispatchEvent, RouteFD, Z.AbsorbNewIDs, InterfaceOf;
    var iface := InterfaceOf(p, s.objects[f.sender].kind);
    var (s1, fd1) := RouteFD(s, iface, f.opcode, fd);
    if f.opcode < |iface.events| {
      DispatchEventUntouched(s1, iface.events[f.opcode], fd1, f.body, h);
    }
  }

  /** The queue when the first message is complete: it starts with that message's descriptor. */
  lemma FirstDescriptorIsThere(queued: seq<int>, inbox: seq<Arrival>, sent: seq<Sent>)
    requires sent != [] && Timely(queued, inbox, sent)
    ensures One(sent[0].fd) <= queued + FDsWithin(inbox, 8 + |sent[0].frame.body|)
  {
    assert sent[..1] == [sent[0]];
    assert [sent[0]][1..] == [];
    assert SentFDs([]) == [] && SentBytes([]) == [];
    assert SentFDs(sent[..1]) == One(sent[0].fd);
    assert SentBytes(sent[..1]) == Bytes(sent[0].frame);
  }

  /** The rest of the messages is timely for the queue that is left. */
  lemma StillTimely(queued: seq<int>, inbox: seq<Arrival>, sent: seq<Sent>, left: seq<int>, inbox': seq<Arrival>)
    requires sent != [] && Timely(queued, inbox, sent)
    requires var size := 8 + |sent[0].frame.body|;
             && queued + FDsWithin(inbox, size) == One(sent[0].fd) + left
             && (forall n :: FDsWithin(inbox, size) + FDsWithin(inbox', n) == FDsWithin(inbox, size + n))
    ensures Timely(left, inbox', sent[1..])
  {
    hide FDsWithin;
    var more := sent[1..];
    var size := 8 + |sent[0].frame.body|;
    forall k | 0 <= k <= |more|
      ensures SentFDs(more[..k]) <= left + FDsWithin(inbox', |SentBytes(more[..k])|)
    {
      var n := |SentBytes(more[..k])|;
      var head := sent[..k + 1];
      assert head[1..] == more[..k] && head[0] == sent[0];
      var a, b, c := One(sent[0].fd), SentFDs(more[..k]), left + FDsWithin(inbox', n);
      assert SentFDs(head) == a + b;
      assert |SentBytes(head)| == size + n;
      assert queued + FDsWithin(inbox, size + n) == (queued + FDsWithin(inbox, size)) + FDsWithin(inbox', n);
      assert queued + FDsWithin(inbox, size + n) == a + c;
      assert a + b <= a + c;
      PrefixCancels(a, b, c);
    }
  }

  lemma PrefixCancels(a: seq<int>, b: seq<int>, c: seq<int>)
    requires a + b <= a + c
    ensures b <= c
  {
    assert (a + b)[|a|..] == b && (a + c)[|a|..] == c;
  }

  /** Queued and arriving descriptors are real ones. */
  predicate GenuineQueue(s: State) {
    D.Genuine(s.inbox) && forall d :: d in s.pending ==> d >= 0
  }

  lemma {:induction false} FDsWithinGenuine(inbox: seq<Arrival>, n: nat)
    requires D.Genuine(inbox)
    ensures forall d :: d in FDsWithin(inbox, n) ==> d >= 0
  {
    if inbox != [] && n > 0 {
      assert forall i :: 0 <= i < |inbox[1..]| ==> inbox[1..][i] == inbox[i + 1];
      FDsWithinGenuine(inbox[1..], if n <= |inbox[0].data| then 0 else n - |inbox[0].data|);
    }
  }

  lemma ReadMsgGenuine(s: State)
    requires GenuineQueue(s)
    ensures GenuineQueue(ReadMsg(s).0)
  {
    hide ReadExact, D.Genuine, Uint32;
    if s.fatal.None? {
      var h := ReadExact(s.inbox, 8);
      D.ReadExactGenuine(s.inbox, 8);
      if h.error.None? && HeaderFault(h.got).None? {
        GoodSize(h.got);
        var n := Uint32(h.got[4..8]) / 0x1_0000 - 8;
        D.ReadExactGenuine(h.inbox, n);
        var all := s.pending + h.fds + ReadExact(h.inbox, n).fds;
        assert forall d :: d in all ==> d >= 0;
        assert all != [] ==> forall d :: d in all[1..] ==> d in all;
      }
    }
  }

  /** What is true once the next message was read. */
  lemma ReadNext(s: State, sent: seq<Sent>, rest: seq<byte>)
    requires s.fatal.None? && Clean(s.inbox) && sent != [] && GenuineQueue(s)
    requires Stream(s.inbox) == SentBytes(sent) + rest && Valid(sent[0].frame)
    requires Timely(s.pending, s.inbox, sent)
    ensures ReadsOne(s, sent[0].frame, SentBytes(sent[1..]) + rest)
    ensures GenuineQueue(ReadMsg(s).0)
    ensures var pool := s.pending + FDsWithin(s.inbox, 8 + |sent[0].frame.body|);
            One(sent[0].fd) <= pool && (pool != [] ==> pool[0] >= 0)
  {
    hide ReadMsg, Split, FDsWithin, Timely, Stream, Clean, Bytes, ReadsOne, GenuineQueue, One;
    var f := sent[0].frame;
    var more := SentBytes(sent[1..]) + rest;
    assert Stream(s.inbox) == Bytes(f) + more;
    SplitFindsFrame(f, more);
    ReadMsgRefinesSplit(s);
    FirstDescriptorIsThere(s.pending, s.inbox, sent);
    ReadMsgGenuine(s);
    PoolIsGenuine(s, 8 + |f.body|);
  }

  lemma PoolIsGenuine(s: State, n: nat)
    requires GenuineQueue(s)
    ensures var pool := s.pending + FDsWithin(s.inbox, n); pool != [] ==> pool[0] >= 0
  {
    hide FDsWithin, D.Genuine;
    FDsWithinGenuine(s.inbox, n);
    var fds := FDsWithin(s.inbox, n);
    if s.pending != [] { assert s.pending[0] in s.pending; }
    else if fds != [] { assert fds[0] in fds; }
  }

  lemma DispatchOne(p: Protocol, s: State, sent: seq<Sent>, h: Handler, rest: seq<byte>)
    requires s.fatal.None? && Clean(s.inbox) && sent != [] && GenuineQueue(s)
    requires Stream(s.inbox) == SentBytes(sent) + rest && Valid(sent[0].frame)
    requires Timely(s.pending, s.inbox, sent) && Honest(p, s, sent[0], h)
    ensures Routed(p, s) == Some((sent[0].frame, if sent[0].fd.Some? then sent[0].fd.value else -1))
    ensures var s' := Dispatch(p, s, h).0;
            && s'.fatal.None? && Clean(s'.inbox) && GenuineQueue(s')
            && Stream(s'.inbox) == SentBytes(sent[1..]) + rest
            && Timely(s'.pending, s'.inbox, sent[1..])
  {
    hide ReadMsg, DispatchFrame, FDsWithin, Timely, InterfaceOf, HasFD, Stream, Clean, Valid, SentBytes, D.Genuine;
    var f := sent[0].frame;
    ReadNext(s, sent, rest);
    var (s1, r) := ReadMsg(s);
    var pool := s.pending + FDsWithin(s.inbox, 8 + |f.body|);
    var iface := InterfaceOf(p, s.objects[f.sender].kind);
    var s2 := RouteFD(s1, iface, f.opcode, r.fd).0;
    DispatchFrameUntouched(p, s1, f, r.fd, h);
    RoutingTakesOwn(s1, pool, sent[0].fd, iface, f.opcode, r.fd);
    StillTimely(s.pending, s.inbox, sent, s2.pending, s2.inbox);
    RoutedGenuine(s1, iface, f.opcode, r.fd);
  }

  lemma RoutedGenuine(s: State, iface: Interface, opcode: nat, fd: int)
    requires GenuineQueue(s)
    ensures GenuineQueue(RouteFD(s, iface, opcode, fd).0)
  {
  }

  /** Taking a descriptor and routing it removes the event's own descriptor, or nothing. */
  lemma RoutingTakesOwn(s: State, pool: seq<int>, own: Option<int>, iface: Interface, opcode: nat, fd: int)
    requires (fd, s.pending) == (if pool == [] then (-1, []) else (pool[0], pool[1..]))
    requires One(own) <= pool && (own.Some? ==> own.value >= 0)
    requires iface.fdAware && (HasFD(iface, opcode) <==> own.Some?)
    requires pool != [] ==> pool[0] >= 0
    ensures var (s', fd') := RouteFD(s, iface, opcode, fd);
            && pool == One(own) + s'.pending
            && fd' == (if own.Some? then own.value else -1)
  {
  }

  /** The main result on descriptors and messages: over any fragmentation and coalescing in
      which each descriptor arrives no later than the last byte of its message, consecutive
      dispatches work on the messages sent, in order, each with its own descriptor and the
      others with none; events of zombies and events without descriptors do not shift the
      pairing. */
  lemma {:induction false} DescriptorsStayAligned(p: Protocol, s: State, sent: seq<Sent>, hs: seq<Handler>, rest: seq<byte>)
    requires s.fatal.None? && Clean(s.inbox) && GenuineQueue(s) && |sent| == |hs|
    requires Stream(s.inbox) == SentBytes(sent) + rest
    requires forall i :: 0 <= i < |sent| ==> Valid(sent[i].frame)
    requires Timely(s.pending, s.inbox, sent) && HonestRun(p, s, sent, hs)
    ensures RoutedAll(p, s, hs) == Expected(sent)
    decreases |sent|
  {
    hide Dispatch, Routed, Honest, Timely, Stream, Clean, Valid, SentBytes, GenuineQueue;
    if sent != [] {
      DispatchOne(p, s, sent, hs[0], rest);
      DescriptorsStayAligned(p, Dispatch(p, s, hs[0]).0, sent[1..], hs[1..], rest);
    }
  }
}
