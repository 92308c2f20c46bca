/** The Unix socket, as the two scripts of results its calls will return, and the loops that
    turn those results into whole reads and whole writes. */
module Socket {
  import opened Wire

  /** Errors, as far as a caller can tell them apart. */
  datatype Error =
    | ReadTimeout                 // ErrReadTimeout
    | FrameSize                   // ErrFrameSize
    | Deadline
    | UnexpectedEOF
    | Broken                      // any other error of the socket
    | TruncatedRead
    | Overrun
    | BadControl
    | ZeroSender
    | BadSize
    | Unaligned
    | NoProgress
    | WriteFailed
    | PartialFrame(cause: Error)  // wraps ErrPartialFrame
    | BadCount
    | UnableToRead(cause: Error)  // ErrDispatchUnableToReadMsg
    | SenderNotFound(id: Word)
    | SenderUnsupported(id: Word)
    | DispatchPanic(opcode: nat, id: Word)
    | DisplayError(object: Word, code: Word, text: seq<byte>)  // wl_display.error
    | Other(n: nat)

  // ---- reading

  datatype Fault = NoFault | DeadlineFault | EofFault | OtherFault

  /** Ancillary data: none, descriptors, or records that do not parse. */
  datatype Oob = NoOob | Rights(fds: seq<int>) | BadRecord

  /** What has arrived. A read that has room for less than data takes a part; descriptors come
      with the first part, flags and faults with the last. overrun makes the call report more
      bytes than it was given room for. */
  datatype Arrival = Arrival(data: seq<byte>, oob: Oob, truncated: bool, overrun: bool, fault: Fault)

  /** The results of one ReadMsgUnix call: the bytes stored, and the count reported. */
  datatype Call = Call(data: seq<byte>, n: nat, oob: Oob, truncated: bool, fault: Fault)

  /** One call with room for some bytes. When everything was read, the peer has closed. */
  function Receive(inbox: seq<Arrival>, room: nat): (r: (Call, seq<Arrival>))
    ensures |r.0.data| <= room
  {
    if inbox == [] then (Call([], 0, NoOob, false, EofFault), [])
    else
      var a := inbox[0];
      if |a.data| > room then
        (Call(a.data[..room], room, a.oob, false, NoFault),
         [a.(data := a.data[room..], oob := NoOob)] + inbox[1..])
      else
        (Call(a.data, if a.overrun then room + 1 else |a.data|, a.oob, a.truncated, a.fault), inbox[1..])
  }

  /** A count that is not too large is the number of bytes stored. */
  lemma CountIsData(inbox: seq<Arrival>, room: nat)
    ensures var c := Receive(inbox, room).0; c.n <= room ==> c.n == |c.data|
  {
  }

  function FaultError(f: Fault): Error {
    match f
    case DeadlineFault => Deadline
    case EofFault => UnexpectedEOF
    case _ => Broken
  }

  /** got are the bytes of dst that count as consumed, fds the descriptors queued. */
  datatype Reading = Reading(got: seq<byte>, error: Option<Error>, inbox: seq<Arrival>, fds: seq<int>)

  /** readExactWith: call again until dst is full or something is wrong. */
  function ReadExact(inbox: seq<Arrival>, want: nat): (r: Reading)
    ensures |r.got| <= want
    ensures r.error.None? ==> |r.got| == want
    decreases want
  {
    if want == 0 then Reading([], None, inbox, [])
    else
      var (c, rest) := Receive(inbox, want);
      var fds := if c.oob.Rights? then c.oob.fds else [];
      if c.oob == BadRecord then Reading([], Some(BadControl), rest, [])
      else if c.truncated then Reading([], Some(TruncatedRead), rest, fds)
      else if c.n > want then Reading([], Some(Overrun), rest, fds)
      else if c.fault != NoFault then
        Reading(c.data, if |c.data| == want then None else Some(FaultError(c.fault)), rest, fds)
      else if c.n == 0 then Reading([], Some(UnexpectedEOF), rest, fds)
      else
        var r := ReadExact(rest, want - |c.data|);
        Reading(c.data + r.got, r.error, r.inbox, fds + r.fds)
  }

  /** A reading that goes on with what r reads. */
  function Resumed(got: seq<byte>, fds: seq<int>, r: Reading): Reading {
    Reading(got + r.got, r.error, r.inbox, fds + r.fds)
  }

  lemma NothingRead(r: Reading)
    ensures Resumed([], [], r) == r
  {
    assert [] + r.got == r.got && [] + r.fds == r.fds;
  }

  lemma NothingLeft(r: Reading, got: seq<byte>, fds: seq<int>, inbox: seq<Arrival>)
    requires r == Resumed(got, fds, ReadExact(inbox, 0))
    ensures r == Reading(got, None, inbox, fds)
  {
  }

  /** What one call decides about a reading under way. */
  lemma ReadTurn(r: Reading, got: seq<byte>, fds: seq<int>, inbox: seq<Arrival>, want: nat)
    requires want > 0 && r == Resumed(got, fds, ReadExact(inbox, want))
    ensures var (c, rest) := Receive(inbox, want);
            var all := fds + if c.oob.Rights? then c.oob.fds else [];
            if c.oob == BadRecord then r == Reading(got, Some(BadControl), rest, fds)
            else if c.truncated then r == Reading(got, Some(TruncatedRead), rest, all)
            else if c.n > want then r == Reading(got, Some(Overrun), rest, all)
            else
              && c.n == |c.data|
              && if c.fault != NoFault then
                   r == Reading(got + c.data, if |c.data| == want then None else Some(FaultError(c.fault)), rest, all)
                 else if c.n == 0 then r == Reading(got, Some(UnexpectedEOF), rest, all)
                 else r == Resumed(got + c.data, all, ReadExact(rest, want - |c.data|))
  {
    hide Receive;
    CountIsData(inbox, want);
    var (c, rest) := Receive(inbox, want);
    if c.n != 0 && c.n <= want {
      var more := ReadExact(rest, want - |c.data|);
      var mine := if c.oob.Rights? then c.oob.fds else [];
      assert got + (c.data + more.got) == (got + c.data) + more.got;
      assert fds + (mine + more.fds) == (fds + mine) + more.fds;
    }
  }

  /** Plain deliveries of bytes and descriptors, in any fragments. */
  predicate Clean(inbox: seq<Arrival>) {
    forall i :: 0 <= i < |inbox| ==>
      && inbox[i].data != [] && inbox[i].oob != BadRecord
      && !inbox[i].truncated && !inbox[i].overrun && inbox[i].fault == NoFault
  }

  /** The byte stream, whatever the fragments. */
  function Stream(inbox: seq<Arrival>): seq<byte> {
    if inbox == [] then [] else inbox[0].data + Stream(inbox[1..])
  }

  function FDsOf(a: Arrival): seq<int> {
    if a.oob.Rights? then a.oob.fds else []
  }

  /** The descriptors that arrive with the first n bytes of the stream. */
  function FDsWithin(inbox: seq<Arrival>, n: nat): seq<int> {
    if inbox == [] || n == 0 then []
    else FDsOf(inbox[0]) + FDsWithin(inbox[1..], if n <= |inbox[0].data| then 0 else n - |inbox[0].data|)
  }

  /** One call on a clean stream makes progress and loses nothing. */
  lemma ReceiveTakes(inbox: seq<Arrival>, room: nat)
    requires Clean(inbox) && inbox != [] && room > 0
    ensures var (c, rest) := Receive(inbox, room);
            && Clean(rest)
            && c.data != [] && c.n == |c.data| && c.oob == inbox[0].oob != BadRecord
            && !c.truncated && c.fault == NoFault
            && c.data + Stream(rest) == Stream(inbox)
            && FDsOf(inbox[0]) + FDsWithin(rest, room - |c.data|) == FDsWithin(inbox, room)
  {
    var (c, rest) := Receive(inbox, room);
    if |inbox[0].data| > room {
      assert rest[1..] == inbox[1..];
      assert c.data + rest[0].data == inbox[0].data;
      assert c.data + (rest[0].data + Stream(rest[1..])) == Stream(inbox);
    }
  }

  /** What ReadExact promises on a clean stream. */
  ghost predicate Takes(inbox: seq<Arrival>, want: nat, r: Reading) {
    && Clean(r.inbox)
    && r.got + Stream(r.inbox) == Stream(inbox)
    && (r.error.None? <==> want <= |Stream(inbox)|)
    && (r.error.Some? ==> r.error.value == UnexpectedEOF && r.inbox == [])
    && r.fds == FDsWithin(inbox, want)
  }

  lemma TakesStep(inbox: seq<Arrival>, want: nat, c: Call, rest: seq<Arrival>, r: Reading)
    requires Clean(inbox) && inbox != [] && want > 0 && (c, rest) == Receive(inbox, want)
    requires Takes(rest, want - |c.data|, r)
    ensures Takes(inbox, want, Reading(c.data + r.got, r.error, r.inbox, FDsOf(inbox[0]) + r.fds))
  {
    hide Receive, FDsWithin, Stream, Clean;
    ReceiveTakes(inbox, want);
    assert c.data + r.got + Stream(r.inbox) == c.data + Stream(rest);
  }

  /** Reading from a clean stream takes exactly the next bytes and the descriptors that come
      with them, and fails only when the stream ends first. */
  lemma {:induction false} ReadExactTakes(inbox: seq<Arrival>, want: nat)
    requires Clean(inbox)
    ensures Takes(inbox, want, ReadExact(inbox, want))
    decreases want
  {
    if want == 0 || inbox == [] {
      assert [] + Stream(inbox) == Stream(inbox);
    } else {
      hide Receive, FDsWithin, Stream, Clean, Takes;
      var (c, rest) := Receive(inbox, want);
      ReceiveTakes(inbox, want);
      ReadExactTakes(rest, want - |c.data|);
      TakesStep(inbox, want, c, rest, ReadExact(rest, want - |c.data|));
    }
  }

  lemma ReceivePrefix(part: seq<Arrival>, more: seq<Arrival>, room: nat)
    requires part != []
    ensures var (c, rest) := Receive(part, room); Receive(part + more, room) == (c, rest + more)
  {
    var a := part[0];
    assert (part + more)[0] == a && (part + more)[1..] == part[1..] + more;
    if |a.data| > room {
      var left := [a.(data := a.data[room..], oob := NoOob)];
      assert left + part[1..] + more == left + (part[1..] + more);
    }
  }

  /** The first call of a reading, when it meets a clean fragment. */
  lemma CleanCall(part: seq<Arrival>, more: seq<Arrival>, want: nat)
    requires Clean(part) && part != [] && want > 0
    ensures var (c, rest) := Receive(part, want);
            var r := ReadExact(rest + more, want - |c.data|);
            ReadExact(part + more, want) == Resumed(c.data, FDsOf(part[0]), r)
  {
    hide Receive, Stream, Clean, FDsWithin;
    ReceivePrefix(part, more, want);
    ReceiveTakes(part, want);
  }

  /** A reading takes the next bytes, and when it succeeds it loses nothing else. */
  ghost predicate Lossless(inbox: seq<Arrival>, want: nat, r: Reading) {
    && r.got <= Stream(inbox)
    && (r.error.None? ==> r.got + Stream(r.inbox) == Stream(inbox) && r.fds == FDsWithin(inbox, want))
  }

  lemma LosslessStep(inbox: seq<Arrival>, want: nat, r: Reading)
    requires inbox != [] && want > 0
    requires var (c, rest) := Receive(inbox, want); Lossless(rest, want - |c.data|, r)
    ensures var c := Receive(inbox, want).0; Lossless(inbox, want, Resumed(c.data, FDsOf(inbox[0]), r))
  {
    hide Receive, FDsWithin, Stream;
    ReceiveLosesNothing(inbox, want);
    var (c, rest) := Receive(inbox, want);
    assert c.data + r.got + Stream(r.inbox) == c.data + (r.got + Stream(r.inbox));
  }

  /** A call that ends the reading. */
  lemma LosslessEnd(inbox: seq<Arrival>, want: nat, r: Reading)
    requires inbox != [] && want > 0
    requires var (c, rest) := Receive(inbox, want);
             || (r.got == [] && r.error.Some?)
             || (r.got == c.data && r.inbox == rest
                 && (r.error.None? ==> |c.data| == want && r.fds == FDsOf(inbox[0])))
    ensures Lossless(inbox, want, r)
  {
    hide Receive, FDsWithin, Stream;
    ReceiveLosesNothing(inbox, want);
  }

  /** The first call ends the reading, or the reading goes on. */
  lemma FirstTurn(inbox: seq<Arrival>, want: nat)
    requires inbox != [] && want > 0
    ensures var (c, rest) := Receive(inbox, want);
            var r := ReadExact(inbox, want);
            if c.oob != BadRecord && !c.truncated && 0 < c.n <= want && c.fault == NoFault then
              c.n == |c.data| && r == Resumed(c.data, FDsOf(inbox[0]), ReadExact(rest, want - |c.data|))
            else
              || (r.got == [] && r.inbox == rest && r.error.Some?)
              || (r.got == c.data && r.inbox == rest && (r.error.None? ==> |c.data| == want && r.fds == FDsOf(inbox[0])))
  {
    hide Receive, FDsWithin, Stream;
    CountIsData(inbox, want);
    ReceiveLosesNothing(inbox, want);
  }

  /** Whatever the calls report, what is read is the next bytes of the stream; and when reading
      succeeds, the rest of the stream is left and the descriptors are those that came along. */
  lemma {:induction false} ReadExactLosesNothing(inbox: seq<Arrival>, want: nat)
    ensures Lossless(inbox, want, ReadExact(inbox, want))
    decreases want
  {
    if want == 0 || inbox == [] {
      NothingLost(inbox, want);
    } else {
      hide Receive, ReadExact, Lossless, FDsWithin, Stream, Resumed;
      var (c, rest) := Receive(inbox, want);
      FirstTurn(inbox, want);
      if c.oob != BadRecord && !c.truncated && 0 < c.n <= want && c.fault == NoFault {
        ReadExactLosesNothing(rest, want - |c.data|);
        LosslessStep(inbox, want, ReadExact(rest, want - |c.data|));
      } else {
        LosslessEnd(inbox, want, ReadExact(inbox, want));
      }
    }
  }

  lemma NothingLost(inbox: seq<Arrival>, want: nat)
    requires want == 0 || inbox == []
    ensures Lossless(inbox, want, ReadExact(inbox, want))
  {
    assert [] + Stream(inbox) == Stream(inbox);
  }

  lemma ReceiveLosesNothing(inbox: seq<Arrival>, room: nat)
    requires inbox != [] && room > 0
    ensures var (c, rest) := Receive(inbox, room);
            && c.data + Stream(rest) == Stream(inbox) && c.oob == inbox[0].oob
            && FDsOf(inbox[0]) + FDsWithin(rest, room - |c.data|) == FDsWithin(inbox, room)
            && (|c.data| == room ==> FDsOf(inbox[0]) == FDsWithin(inbox, room))
  {
    var rest := Receive(inbox, room).1;
    if |inbox[0].data| > room {
      assert rest[1..] == inbox[1..];
      assert inbox[0].data[..room] + rest[0].data == inbox[0].data;
      assert inbox[0].data[..room] + (rest[0].data + Stream(rest[1..])) == Stream(inbox);
    }
  }

  /** A fragment that the first reading cuts in two. */
  lemma SplitInFragment(inbox: seq<Arrival>, m: nat, n: nat)
    requires inbox != [] && 0 < m < |inbox[0].data|
    ensures FDsWithin(Receive(inbox, m).1, n) == FDsWithin(inbox, m + n)[|FDsOf(inbox[0])|..]
    ensures FDsWithin(inbox, m) == FDsOf(inbox[0]) <= FDsWithin(inbox, m + n)
  {
    var rest := Receive(inbox, m).1;
    assert rest[1..] == inbox[1..];
  }

  /** The first reading stops inside the first fragment. */
  lemma SplitInside(inbox: seq<Arrival>, m: nat, n: nat)
    requires Clean(inbox) && inbox != [] && 0 < m < |inbox[0].data|
    ensures FDsWithin(inbox, m) + FDsWithin(ReadExact(inbox, m).inbox, n) == FDsWithin(inbox, m + n)
  {
    hide Receive, FDsWithin, Clean, Stream, ReadExact;
    ReceiveTakes(inbox, m);
    CleanCall(inbox, [], m);
    ReceiveCleanOnce(inbox, m);
    SplitInFragment(inbox, m, n);
    var rest := Receive(inbox, m).1;
    assert inbox + [] == inbox && rest + [] == rest;
    NothingLeft(ReadExact(rest, 0), [], [], rest);
  }

  /** The first reading goes past the first fragment. */
  lemma SplitBehind(inbox: seq<Arrival>, m: nat, n: nat)
    requires Clean(inbox) && inbox != [] && 0 < m && |inbox[0].data| <= m
    requires var more, k := inbox[1..], m - |inbox[0].data|;
             FDsWithin(more, k) + FDsWithin(ReadExact(more, k).inbox, n) == FDsWithin(more, k + n)
    ensures FDsWithin(inbox, m) + FDsWithin(ReadExact(inbox, m).inbox, n) == FDsWithin(inbox, m + n)
  {
    hide Receive, FDsWithin, Clean, Stream, ReadExact;
    CleanCall(inbox, [], m);
    ReceiveCleanOnce(inbox, m);
    FDsWithinTail(inbox, m);
    FDsWithinTail(inbox, m + n);
    var more, k := inbox[1..], m - |inbox[0].data|;
    assert inbox + [] == inbox && more + [] == more;
    var left := FDsWithin(ReadExact(more, k).inbox, n);
    assert FDsOf(inbox[0]) + FDsWithin(more, k) + left == FDsOf(inbox[0]) + (FDsWithin(more, k) + left);
  }

  lemma NothingToSplit(inbox: seq<Arrival>, m: nat, n: nat)
    requires m == 0 || inbox == []
    ensures FDsWithin(inbox, m) + FDsWithin(ReadExact(inbox, m).inbox, n) == FDsWithin(inbox, m + n)
  {
    if m == 0 { assert [] + FDsWithin(inbox, n) == FDsWithin(inbox, n); }
  }

  /** Reading in two goes is reading in one. */
  lemma {:induction false} FDsWithinSplit(inbox: seq<Arrival>, m: nat, n: nat)
    requires Clean(inbox)
    ensures FDsWithin(inbox, m) + FDsWithin(ReadExact(inbox, m).inbox, n) == FDsWithin(inbox, m + n)
    decreases |inbox|
  {
    hide ReadExact, FDsWithin;
    if m == 0 || inbox == [] {
      NothingToSplit(inbox, m, n);
    } else if m < |inbox[0].data| {
      SplitInside(inbox, m, n);
    } else {
      assert forall i :: 0 <= i < |inbox[1..]| ==> inbox[1..][i] == inbox[i + 1];
      FDsWithinSplit(inbox[1..], m - |inbox[0].data|, n);
      SplitBehind(inbox, m, n);
    }
  }

  lemma ReceiveCleanOnce(inbox: seq<Arrival>, room: nat)
    requires inbox != []
    ensures |inbox[0].data| <= room ==> Receive(inbox, room).1 == inbox[1..] && Receive(inbox, room).0.data == inbox[0].data
    ensures |inbox[0].data| > room ==> |Receive(inbox, room).0.data| == room
  {
  }

  lemma FDsWithinTail(inbox: seq<Arrival>, n: nat)
    requires inbox != [] && n > 0 && |inbox[0].data| <= n
    ensures FDsWithin(inbox, n) == FDsOf(inbox[0]) + FDsWithin(inbox[1..], n - |inbox[0].data|)
  {
  }

  // ---- writing

  /** The counts one write call reports, and whether it reports an error. */
  datatype Written = Written(n: int, oobn: int, failed: bool)

  /** One write call: what it was given, and the bytes the socket took of it, assuming that the
      reported count is what it took. A plain write passes no ancillary data. */
  datatype Attempt = Attempt(data: seq<byte>, oob: Option<seq<byte>>, took: seq<byte>)

  datatype Writing = Writing(error: Option<Error>, plan: seq<Written>, attempts: seq<Attempt>)

  /** Every write fails when the script has ended: the connection is closed. */
  function NextWrite(plan: seq<Written>): (Written, seq<Written>) {
    if plan == [] then (Written(0, 0, true), []) else (plan[0], plan[1..])
  }

  function Taken(data: seq<byte>, n: int): (t: seq<byte>)
    ensures t <= data
  {
    if n <= 0 then [] else if n >= |data| then data else data[..n]
  }

  /** The loop of plain writes. */
  function WriteRest(plan: seq<Written>, data: seq<byte>): Writing
    decreases |data|
  {
    if data == [] then Writing(None, plan, [])
    else
      var (c, rest) := NextWrite(plan);
      var tried := [Attempt(data, None, Taken(data, c.n))];
      if c.n < 0 || c.n > |data| then Writing(Some(PartialFrame(BadCount)), rest, tried)
      else if c.failed then Writing(Some(PartialFrame(WriteFailed)), rest, tried)
      else if c.n == 0 then Writing(Some(PartialFrame(NoProgress)), rest, tried)
      else
        var r := WriteRest(rest, data[c.n..]);
        r.(attempts := tried + r.attempts)
  }

  function WriteFrame(plan: seq<Written>, data: seq<byte>, oob: seq<byte>): Writing {
    var (c, rest) := NextWrite(plan);
    var tried := [Attempt(data, Some(oob), Taken(data, c.n))];
    var accepted := c.n > 0 || c.oobn > 0;
    if c.n < 0 || c.n > |data| then Writing(Some(PartialFrame(BadCount)), rest, tried)
    else if c.oobn < 0 || c.oobn > |oob| then Writing(Some(PartialFrame(BadCount)), rest, tried)
    else if c.oobn != |oob| then Writing(Some(PartialFrame(BadCount)), rest, tried)
    else if c.failed then
      Writing(Some(if accepted then PartialFrame(WriteFailed) else WriteFailed), rest, tried)
    else if c.n == 0 then
      Writing(Some(if accepted then PartialFrame(NoProgress) else NoProgress), rest, tried)
    else
      var r := WriteRest(rest, data[c.n..]);
      r.(attempts := tried + r.attempts)
  }

  /** The bytes the socket took over some calls. */
  function Accepted(attempts: seq<Attempt>): seq<byte> {
    if attempts == [] then [] else attempts[0].took + Accepted(attempts[1..])
  }

  /** Each call passes what is left of the data, and only the first passes ancillary data. */
  predicate Resumes(attempts: seq<Attempt>, data: seq<byte>) {
    attempts == [] ||
    (&& attempts[0].data == data
     && attempts[0].took <= data
     && Resumes(attempts[1..], data[|attempts[0].took|..])
     && (forall i :: 1 <= i < |attempts| ==> attempts[i].oob == None))
  }

  /** Putting one call in front of others. */
  lemma CallInFront(a: Attempt, more: seq<Attempt>, data: seq<byte>)
    requires a.data == data && a.took <= data
    requires Resumes(more, data[|a.took|..]) && Accepted(more) <= data[|a.took|..]
    requires forall i :: 0 <= i < |more| ==> more[i].oob == None
    ensures Resumes([a] + more, data)
    ensures Accepted([a] + more) == a.took + Accepted(more)
    ensures Accepted([a] + more) <= data
    ensures Accepted(more) == data[|a.took|..] ==> Accepted([a] + more) == data
  {
    assert ([a] + more)[1..] == more;
    assert data == a.took + data[|a.took|..];
  }

  lemma AcceptedInFront(a: Attempt, more: seq<Attempt>)
    ensures Accepted([a] + more) == a.took + Accepted(more)
    ensures Accepted([a]) == a.took
  {
    assert ([a] + more)[1..] == more;
    assert [a][1..] == [] && a.took + [] == a.took;
  }

  lemma NothingToWrite(plan: seq<Written>)
    ensures WriteRest(plan, []) == Writing(None, plan, []) && Accepted([]) == []
  {
  }

  /** What one plain write decides about the rest of a frame. */
  lemma RestTurn(plan: seq<Written>, data: seq<byte>)
    requires data != []
    ensures var (c, rest) := NextWrite(plan);
            var r := WriteRest(plan, data);
            if c.n < 0 || c.n > |data| || c.failed || c.n == 0 then
              && r.plan == rest && Accepted(r.attempts) == Taken(data, c.n)
              && r.error == Some(PartialFrame(if c.n < 0 || c.n > |data| then BadCount
                                              else if c.failed then WriteFailed else NoProgress))
            else
              var more := WriteRest(rest, data[c.n..]);
              r.error == more.error && r.plan == more.plan
              && Accepted(r.attempts) == Taken(data, c.n) + Accepted(more.attempts)
  {
    hide Accepted;
    var (c, rest) := NextWrite(plan);
    var a := Attempt(data, None, Taken(data, c.n));
    AcceptedInFront(a, if 0 < c.n <= |data| then WriteRest(rest, data[c.n..]).attempts else []);
  }

  /** What is left of a writing after some bytes of it were taken. */
  predicate Remains(w: Writing, plan: seq<Written>, data: seq<byte>, taken: seq<byte>) {
    var more := WriteRest(plan, data);
    w.error == more.error && w.plan == more.plan && Accepted(w.attempts) == taken + Accepted(more.attempts)
  }

  lemma AllRemains(plan: seq<Written>, data: seq<byte>)
    ensures Remains(WriteRest(plan, data), plan, data, [])
  {
    var a := Accepted(WriteRest(plan, data).attempts);
    assert [] + a == a;
  }

  lemma NothingRemains(w: Writing, plan: seq<Written>, taken: seq<byte>)
    requires Remains(w, plan, [], taken)
    ensures w.error == None && w.plan == plan && Accepted(w.attempts) == taken
  {
    NothingToWrite(plan);
    assert taken + [] == taken;
  }

  lemma RemainsTurn(w: Writing, plan: seq<Written>, data: seq<byte>, taken: seq<byte>)
    requires data != [] && Remains(w, plan, data, taken)
    ensures var (c, rest) := NextWrite(plan);
            var all := taken + Taken(data, c.n);
            if c.n < 0 || c.n > |data| || c.failed || c.n == 0 then
              && w.plan == rest && Accepted(w.attempts) == all
              && w.error == Some(PartialFrame(if c.n < 0 || c.n > |data| then BadCount
                                              else if c.failed then WriteFailed else NoProgress))
            else Remains(w, rest, data[c.n..], all)
  {
    hide Accepted, WriteRest;
    RestTurn(plan, data);
    var (c, rest) := NextWrite(plan);
    if 0 < c.n <= |data| && !c.failed {
      var t, a := Taken(data, c.n), Accepted(WriteRest(rest, data[c.n..]).attempts);
      assert taken + (t + a) == (taken + t) + a;
    }
  }

  /** What the first call decides about a frame. */
  lemma FrameTurn(plan: seq<Written>, data: seq<byte>, oob: seq<byte>)
    ensures var (c, rest) := NextWrite(plan);
            var r := WriteFrame(plan, data, oob);
            if 0 < c.n <= |data| && !c.failed && c.oobn == |oob| then
              var more := WriteRest(rest, data[c.n..]);
              r.error == more.error && r.plan == more.plan
              && Accepted(r.attempts) == Taken(data, c.n) + Accepted(more.attempts)
            else r.plan == rest && r.error.Some? && Accepted(r.attempts) == Taken(data, c.n)
  {
    hide Accepted;
    var (c, rest) := NextWrite(plan);
    var a := Attempt(data, Some(oob), Taken(data, c.n));
    AcceptedInFront(a, if 0 < c.n <= |data| then WriteRest(rest, data[c.n..]).attempts else []);
  }

  lemma {:induction false} WriteRestResult(plan: seq<Written>, data: seq<byte>)
    ensures var r := WriteRest(plan, data);
            && Accepted(r.attempts) <= data
            && (r.error.None? ==> Accepted(r.attempts) == data)
            && (r.error.Some? ==> r.error.value.PartialFrame?)
            && |r.attempts| <= |data|
            && Resumes(r.attempts, data)
            && (forall i :: 0 <= i < |r.attempts| ==> r.attempts[i].oob == None)
    decreases |data|
  {
    if data != [] {
      hide Resumes, Accepted;
      var (c, rest) := NextWrite(plan);
      var a := Attempt(data, None, Taken(data, c.n));
      NoCalls(data[|a.took|..]);
      if 0 < c.n <= |data| && !c.failed {
        var r := WriteRest(rest, data[c.n..]);
        WriteRestResult(rest, data[c.n..]);
        CallInFront(a, r.attempts, data);
      } else {
        CallInFront(a, [], data);
        assert [a] + [] == [a];
      }
    } else {
      NoCalls(data);
    }
  }

  lemma NoCalls(data: seq<byte>)
    ensures Resumes([], data) && Accepted([]) == []
  {
  }

  /** The main result on one frame: at most one plain write per byte the first call left; every
      call resumes where the last one stopped; the ancillary data is passed once, by the first
      call. Success means that the socket took the whole frame. Failure means that it took a
      prefix, and the error says so whenever a byte or ancillary data was taken. */
  lemma WriteFrameResult(plan: seq<Written>, data: seq<byte>, oob: seq<byte>)
    requires data != []
    ensures var r := WriteFrame(plan, data, oob);
            var c := NextWrite(plan).0;
            && r.attempts != []
            && r.attempts[0].oob == Some(oob)
            && Resumes(r.attempts, data)
            && |r.attempts| <= 1 + |data| - |r.attempts[0].took|
            && Accepted(r.attempts) <= data
            && (r.error.None? ==> Accepted(r.attempts) == data && c.oobn == |oob|)
            && (r.error.Some? && (Accepted(r.attempts) != [] || c.oobn > 0) ==> r.error.value.PartialFrame?)
  {
    hide Resumes, Accepted, WriteRest;
    var (c, rest) := NextWrite(plan);
    var a := Attempt(data, Some(oob), Taken(data, c.n));
    NoCalls(data[|a.took|..]);
    if 0 < c.n <= |data| && c.oobn == |oob| && !c.failed {
      var r := WriteRest(rest, data[c.n..]);
      WriteRestResult(rest, data[c.n..]);
      CallInFront(a, r.attempts, data);
    } else {
      CallInFront(a, [], data);
      assert [a] + [] == [a];
    }
  }

  // ---- what the calls decide

  /** The result of the i-th call from now on. */
  function Script(plan: seq<Written>, i: nat): Written {
    if i < |plan| then plan[i] else Written(0, 0, true)
  }

  /** What is wrong with a call that was given some data. */
  function Trouble(c: Written, data: seq<byte>): Option<Error> {
    if c.n < 0 || c.n > |data| then Some(BadCount)
    else if c.failed then Some(WriteFailed)
    else if c.n == 0 then Some(NoProgress)
    else None
  }

  /** The calls took what the socket reports, all but the last one without trouble. */
  ghost predicate Obeys(plan: seq<Written>, attempts: seq<Attempt>) {
    forall i :: 0 <= i < |attempts| ==>
      && attempts[i].took == Taken(attempts[i].data, Script(plan, i).n)
      && (i < |attempts| - 1 ==> Trouble(Script(plan, i), attempts[i].data).None?)
  }

  lemma ObeysInFront(plan: seq<Written>, a: Attempt, more: seq<Attempt>)
    requires Obeys(NextWrite(plan).1, more) && a.took == Taken(a.data, NextWrite(plan).0.n)
    requires more != [] ==> Trouble(NextWrite(plan).0, a.data).None?
    ensures Obeys(plan, [a] + more)
    ensures more != [] ==> Script(NextWrite(plan).1, |more| - 1) == Script(plan, |more|)
  {
    hide Trouble, Taken;
    var all := [a] + more;
    forall i | 0 <= i < |all|
      ensures all[i].took == Taken(all[i].data, Script(plan, i).n)
      ensures i < |all| - 1 ==> Trouble(Script(plan, i), all[i].data).None?
    {
      if i > 0 { assert all[i] == more[i - 1] && Script(plan, i) == Script(NextWrite(plan).1, i - 1); }
    }
  }

  /** The plain writes go on while there is no trouble, and the error is the trouble of the last. */
  lemma {:induction false} WriteRestStops(plan: seq<Written>, data: seq<byte>)
    ensures var r := WriteRest(plan, data);
            && Obeys(plan, r.attempts)
            && (r.attempts == [] ==> r.error.None?)
            && (r.attempts != [] ==>
                 var n := |r.attempts| - 1;
                 var trouble := Trouble(Script(plan, n), r.attempts[n].data);
                 r.error == if trouble.Some? then Some(PartialFrame(trouble.value)) else None)
    decreases |data|
  {
    if data != [] {
      hide Obeys, Taken;
      var (c, rest) := NextWrite(plan);
      var a := Attempt(data, None, Taken(data, c.n));
      if Trouble(c, data).None? {
        var r := WriteRest(rest, data[c.n..]);
        WriteRestStops(rest, data[c.n..]);
        ObeysInFront(plan, a, r.attempts);
      } else {
        NoCallsObey(rest);
        ObeysInFront(plan, a, []);
        assert [a] + [] == [a];
      }
    }
  }

  lemma NoCallsObey(plan: seq<Written>)
    ensures Obeys(plan, [])
  {
  }

  /** The writing of a frame stops at the first call in trouble, and at no other. If that is the
      first call and its counts are valid, the error says that the frame was cut if and only if
      the socket took something, be it ancillary data alone; otherwise it always says so. */
  lemma WriteFrameStops(plan: seq<Written>, data: seq<byte>, oob: seq<byte>)
    requires data != []
    ensures var r := WriteFrame(plan, data, oob);
            var n := |r.attempts| - 1;
            && n >= 0 && Obeys(plan, r.attempts)
            && var trouble := Trouble(Script(plan, n), r.attempts[n].data);
               var c := Script(plan, 0);
               var counted := 0 <= c.n <= |data| && c.oobn == |oob|;
               && (r.error.None? <==> c.oobn == |oob| && trouble.None?)
               && (n > 0 ==> counted)
               && (n > 0 && trouble.Some? ==> r.error == Some(PartialFrame(trouble.value)))
               && (n == 0 && !counted ==> r.error == Some(PartialFrame(BadCount)))
               && (n == 0 && counted && trouble.Some? ==>
                    r.error == Some(if Accepted(r.attempts) != [] || c.oobn > 0 then PartialFrame(trouble.value) else trouble.value))
  {
    hide Obeys, Accepted;
    var (c, rest) := NextWrite(plan);
    var a := Attempt(data, Some(oob), Taken(data, c.n));
    NoCallsObey(rest);
    ObeysInFront(plan, a, []);
    assert [a] + [] == [a];
    AcceptedInFront(a, []);
    if c.oobn == |oob| && Trouble(c, data).None? {
      var r := WriteRest(rest, data[c.n..]);
      WriteRestStops(rest, data[c.n..]);
      ObeysInFront(plan, a, r.attempts);
    }
  }
}
