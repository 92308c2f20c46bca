/** The connection as the client keeps it: an object whose fields its methods update in place.
    Each method is specified by the function of Connection that takes the old state to the new. */
module Client {
  import opened Wire
  import opened Registry
  import opened Signature
  import opened Socket
  import Allocator
  import Decoder
  import C = Connection
  import Z = Zombies
  import opened Sync

  /** BaseProxy, with the Go type it is embedded in. */
  class Proxy {
    const kind: Kind
    var id: Word
    var zombie: bool

    constructor (kind: Kind)
      ensures this.kind == kind && !zombie
    {
      this.kind := kind;
      id, zombie := 0, false;
    }

    method MarkZombie()
      modifies this`zombie
      ensures zombie
    {
      zombie := true;
    }
  }

  /** The socket: what its calls will return, and the bytes it has taken. */
  class Conn {
    var inbox: seq<Arrival>
    var plan: seq<Written>
    ghost var outbox: seq<byte>

    constructor (inbox: seq<Arrival>, plan: seq<Written>)
      ensures this.inbox == inbox && this.plan == plan && outbox == []
    {
      this.inbox, this.plan, outbox := inbox, plan, [];
    }

    /** Stores what it reads at dst[from..]. */
    method ReadMsgUnix(dst: array<byte>, from: nat) returns (n: int, oob: Oob, truncated: bool, fault: Fault)
      requires from <= dst.Length
      modifies this`inbox, dst
      ensures var (c, rest) := Receive(old(inbox), dst.Length - from);
              inbox == rest && n == c.n && oob == c.oob && truncated == c.truncated && fault == c.fault
      ensures var data := Receive(old(inbox), dst.Length - from).0.data;
              dst[..from + |data|] == old(dst[..from]) + data
    {
      var (c, rest) := Receive(inbox, dst.Length - from);
      inbox, n, oob, truncated, fault := rest, c.n, c.oob, c.truncated, c.fault;
      ghost var before := dst[..from];
      for i := 0 to |c.data|
        modifies dst
        invariant dst[..from + i] == before + c.data[..i]
      {
        dst[from + i] := c.data[i];
        assert c.data[..i + 1] == c.data[..i] + [c.data[i]];
      }
      assert c.data[..|c.data|] == c.data;
    }

    /** A call with ancillary data, or without. */
    method Write(data: seq<byte>) returns (w: Written)
      modifies this`plan, this`outbox
      ensures (w, plan) == NextWrite(old(plan))
      ensures outbox == old(outbox) + Taken(data, w.n)
    {
      var (c, rest) := NextWrite(plan);
      w, plan, outbox := c, rest, outbox + Taken(data, c.n);
    }

    method Close()
      modifies this`inbox, this`plan
      ensures inbox == [] && plan == []
    {
      inbox, plan := [], [];
    }
  }

  /** The client's objects stay registered as they were, perhaps but one. */
  ghost predicate Kept(before: map<Word, Proxy>, after: map<Word, Proxy>, gone: Option<Word>) {
    forall n :: n in before && n < FIRST_SERVER_ID && gone != Some(n) ==> n in after && after[n] == before[n]
  }

  /** An object of the client that was deleted is registered nowhere. */
  ghost predicate Dropped(before: map<Word, Proxy>, after: map<Word, Proxy>, gone: Option<Word>) {
    gone.Some? && gone.value in before && gone.value < FIRST_SERVER_ID ==> before[gone.value] !in after.Values
  }

  class Context {
    const conn: Conn
    var objects: map<Word, Proxy>
    var freeIDs: seq<Word>
    var currentID: Word
    var fatalErr: Option<Error>
    var pendingFDs: seq<int>

    /** The variable of a Roundtrip under way, which its function literal sets. */
    var done: bool

    // What was handed to the socket and written, where descriptors came from and went, and the calls of the registry.
    ghost var tried: seq<seq<byte>>
    ghost var sent: seq<seq<byte>>
    ghost var received: seq<int>
    ghost var handed: seq<int>
    ghost var closed: seq<int>
    ghost var book: seq<Allocator.Op>

    ghost function Repr(): set<object>
      reads this`objects
    {
      {this, conn} + set p | p in objects.Values
    }

    /** Every proxy carries the ID it is registered under; only client IDs are recycled. */
    ghost predicate Valid()
      reads this`objects, this`freeIDs, objects.Values
    {
      && (forall id :: id in objects ==> objects[id].id == id)
      && (forall id :: id in freeIDs ==> id < FIRST_SERVER_ID)
    }

    ghost function Objects(): Registry.Objects
      reads this`objects, objects.Values
    {
      map id | id in objects :: Obj(objects[id].kind, objects[id].zombie)
    }

    /** The connection as a value. */
    ghost function Abs(): C.State
      reads this, conn, objects.Values
    {
      C.State(Objects(), Ids(freeIDs, currentID), fatalErr, pendingFDs, conn.inbox, conn.plan, conn.outbox,
              done, tried, sent, received, handed, closed, book)
    }

    constructor (conn: Conn)
      requires conn.outbox == []
      ensures Valid() && this.conn == conn
      ensures Abs() == C.Initial(conn.inbox, conn.plan)
      ensures objects == map[]
    {
      this.conn := conn;
      objects, freeIDs, currentID, fatalErr, pendingFDs := map[], [], 0, None, [];
      done := false;
      tried, sent, received, handed, closed, book := [], [], [], [], [], [];
    }

    // ---- object IDs

    /** SetID, SetContext and the map update. */
    method Enter(p: Proxy, id: Word)
      requires Valid() && !p.zombie && p !in objects.Values
      modifies this`objects, p`id
      ensures Valid() && p.id == id && objects == old(objects)[id := p]
      ensures Objects() == old(Objects())[id := Obj(p.kind, false)]
    {
      assert forall n :: n in objects ==> objects[n] in objects.Values;
      p.id := id;
      objects := objects[id := p];
    }

    /** Registering a new proxy; false is the panic when no ID is left. */
    method Register(p: Proxy) returns (ok: bool)
      requires Valid() && !p.zombie && p !in objects.Values
      modifies this`objects, this`freeIDs, this`currentID, this`book, p`id
      ensures Valid()
      ensures (Abs(), if ok then Some(p.id) else None) == C.Register(old(Abs()), p.kind)
      ensures objects == if ok then old(objects)[p.id := p] else old(objects)
      ensures ok ==> p.id !in old(objects) && p.id < FIRST_SERVER_ID
    {
      hide Allocate;
      ghost var o := Objects();
      book := book + [Allocator.Register(p.kind)];
      var id := Pick(o);
      assert Objects() == o;
      ok := id != 0;
      if ok {
        Enter(p, id);
      }
    }

    /** A generated NewX: a new proxy, registered; false is the panic. */
    method NewProxy(kind: Kind) returns (p: Proxy, ok: bool)
      requires Valid()
      modifies this`objects, this`freeIDs, this`currentID, this`book
      ensures Valid() && fresh(p) && !p.zombie && p.kind == kind
      ensures (Abs(), if ok then Some(p.id) else None) == C.Register(old(Abs()), kind)
      ensures objects == if ok then old(objects)[p.id := p] else old(objects)
      ensures ok ==> p.id !in old(objects) && p.id < FIRST_SERVER_ID
      ensures fresh(objects.Values - old(objects.Values))
    {
      hide C.Register;
      p := new Proxy(kind);
      assert Abs() == old(Abs());
      ok := Register(p);
      KeptWithServer(old(objects), p.id, p);
    }

    /** The ID for a new object; 0 stands for the panic. */
    method Pick(ghost o: Registry.Objects) returns (id: Word)
      requires o.Keys == objects.Keys && (forall f :: f in freeIDs ==> f < FIRST_SERVER_ID)
      modifies this`freeIDs, this`currentID
      ensures var a := Allocate(o, Ids(old(freeIDs), old(currentID)));
              Ids(freeIDs, currentID) == a.ids && id == if a.Fresh? then a.id else 0
      ensures id != 0 ==> id !in objects && id < FIRST_SERVER_ID
      ensures forall f :: f in freeIDs ==> f in old(freeIDs)
    {
      hide PopFree, Bump;
      id := Recycled(o);
      if id == 0 {
        id := Counted(o);
      }
    }

    /** The first loop of Register: pops until a recycled ID is not registered. */
    method Recycled(ghost o: Registry.Objects) returns (id: Word)
      requires o.Keys == objects.Keys
      modifies this`freeIDs
      ensures var (popped, rest) := PopFree(o, old(freeIDs));
              freeIDs == rest && id == if popped.Some? then popped.value else 0
      ensures (forall f :: f in freeIDs ==> f in old(freeIDs)) && (id != 0 ==> id in old(freeIDs))
    {
      id := 0;
      while |freeIDs| > 0
        invariant id == 0 && freeIDs <= old(freeIDs) && PopFree(o, freeIDs) == PopFree(o, old(freeIDs))
      {
        var n := |freeIDs| - 1;
        var cand := freeIDs[n];
        freeIDs := freeIDs[..n];
        if cand !in objects {
          id := cand;
          break;
        }
      }
    }

    /** The second loop of Register: counts up to the next ID that is not registered. The result
        0 stands for the panic. */
    method Counted(ghost o: Registry.Objects) returns (id: Word)
      requires o.Keys == objects.Keys
      modifies this`currentID
      ensures var next := Bump(o, old(currentID));
              && id == (if next.Some? then next.value else 0)
              && currentID == (if next.Some? then next.value
                               else if old(currentID) < FIRST_SERVER_ID - 1 then FIRST_SERVER_ID - 1
                               else old(currentID))
    {
      id := 0;
      while id == 0
        invariant id == 0 ==> Bump(o, currentID) == Bump(o, old(currentID))
        invariant id == 0 && currentID != old(currentID) ==> old(currentID) < currentID < FIRST_SERVER_ID
        invariant id != 0 ==> id == currentID && Bump(o, old(currentID)) == Some(id)
        decreases id == 0, FIRST_SERVER_ID - currentID
      {
        if currentID >= FIRST_SERVER_ID - 1 {
          return;
        }
        currentID := currentID + 1;
        if currentID !in objects {
          id := currentID;
        }
      }
    }

    /** False is the panic on a client's ID or on a live duplicate. */
    method RegisterWithID(p: Proxy, id: Word) returns (ok: bool)
      requires Valid() && !p.zombie && p !in objects.Values
      modifies this`objects, p`id
      ensures Valid()
      ensures var o := Registry.RegisterWithID(old(Objects()), id, Obj(p.kind, false));
              ok == o.Some? && Objects() == if ok then o.value else old(Objects())
      ensures objects == if ok then old(objects)[id := p] else old(objects)
    {
      if id < FIRST_SERVER_ID {
        return false;
      }
      if id in objects && !objects[id].zombie {
        return false;
      }
      Enter(p, id);
      ok := true;
    }

    method DeleteID(id: Word)
      requires Valid()
      modifies this`objects, this`freeIDs, this`book
      ensures Valid() && Abs() == C.Delete(old(Abs()), id)
      ensures objects == old(objects) - {id}
    {
      book := book + [Allocator.Delete(id)];
      if id !in objects {
        assert objects == objects - {id};
        return;
      }
      objects := objects - {id};
      assert Objects() == old(Objects()) - {id};
      if id > 1 && id < FIRST_SERVER_ID {
        freeIDs := freeIDs + [id];
      }
    }

    // ---- descriptors and failure

    method CloseFDs(fds: seq<int>)
      modifies this`closed
      ensures closed == old(closed) + fds
    {
      for i := 0 to |fds|
        invariant closed == old(closed) + fds[..i]
      {
        assert fds[..i + 1] == fds[..i] + [fds[i]];
        closed := closed + [fds[i]];
      }
      assert fds[..|fds|] == fds;
    }

    method CloseReceivedFD(fd: int)
      modifies this`closed
      ensures Abs() == C.CloseFD(old(Abs()), fd)
    {
      if fd >= 0 {
        closed := closed + [fd];
      }
    }

    method SetFatal(e: Error) returns (err: Error)
      modifies this`fatalErr, this`pendingFDs, this`closed
      ensures Abs() == C.SetFatal(old(Abs()), e) && Some(err) == fatalErr
    {
      if fatalErr.None? {
        fatalErr := Some(e);
        CloseFDs(pendingFDs);
        pendingFDs := [];
      }
      err := fatalErr.value;
    }

    method TakeFD() returns (fd: int)
      modifies this`pendingFDs
      ensures (fd, Abs()) == C.TakePending(old(Abs()))
    {
      if |pendingFDs| == 0 {
        return -1;
      }
      fd := pendingFDs[0];
      pendingFDs := pendingFDs[1..];
    }

    method PutBackFD(fd: int)
      modifies this`pendingFDs
      ensures Abs() == C.PutBack(old(Abs()), fd)
    {
      if fd < 0 {
        return;
      }
      pendingFDs := [fd] + pendingFDs;
    }

    method Close()
      modifies this`pendingFDs, this`closed, conn`inbox, conn`plan
      ensures Abs() == C.CloseConn(old(Abs()))
    {
      CloseFDs(pendingFDs);
      pendingFDs := [];
      conn.Close();
    }

    // ---- reading

    method ReadExact(dst: array<byte>) returns (consumed: nat, err: Option<Error>)
      modifies this`pendingFDs, this`received, conn`inbox, dst
      ensures var r := Socket.ReadExact(old(conn.inbox), dst.Length);
              && consumed == |r.got| && dst[..consumed] == r.got && err == r.error
              && Abs() == C.Absorbed(old(Abs()), r)
    {
      consumed, err := ReadExactWith(dst);
    }

    /** One call, whose descriptors are queued; good says that its control data parsed. */
    method ReadOnce(dst: array<byte>, from: nat) returns (n: int, good: bool, truncated: bool, fault: Fault)
      requires from <= dst.Length
      modifies this`pendingFDs, this`received, conn`inbox, dst
      ensures var (c, rest) := Receive(old(conn.inbox), dst.Length - from);
              && conn.inbox == rest && n == c.n && good == (c.oob != BadRecord) && truncated == c.truncated && fault == c.fault
              && dst[..from + |c.data|] == old(dst[..from]) + c.data
              && var fds := if c.oob.Rights? then c.oob.fds else [];
                 pendingFDs == old(pendingFDs) + fds && received == old(received) + fds
    {
      hide Receive;
      var oob;
      n, oob, truncated, fault := conn.ReadMsgUnix(dst, from);
      good := oob != BadRecord;
      var fds := if oob.Rights? then oob.fds else [];
      pendingFDs, received := pendingFDs + fds, received + fds;
    }

    /** Fills dst, in as many calls as it takes, and queues the descriptors that come along. */
    method ReadExactWith(dst: array<byte>) returns (consumed: nat, err: Option<Error>)
      modifies this`pendingFDs, this`received, conn`inbox, dst
      ensures var r := Socket.ReadExact(old(conn.inbox), dst.Length);
              && consumed == |r.got| && dst[..consumed] == r.got && err == r.error && conn.inbox == r.inbox
              && pendingFDs == old(pendingFDs) + r.fds && received == old(received) + r.fds
    {
      hide Receive, Socket.ReadExact, FaultError, Socket.Resumed;
      consumed := 0;
      ghost var r := Socket.ReadExact(conn.inbox, dst.Length);
      ghost var got: seq<byte>, fds: seq<int> := [], [];
      NothingRead(r);
      while consumed < dst.Length
        invariant consumed <= dst.Length && dst[..consumed] == got
        invariant r == Socket.Resumed(got, fds, Socket.ReadExact(conn.inbox, dst.Length - consumed))
        invariant pendingFDs == old(pendingFDs) + fds && received == old(received) + fds
      {
        ReadTurn(r, got, fds, conn.inbox, dst.Length - consumed);
        ghost var c := Receive(conn.inbox, dst.Length - consumed).0;
        var n, good, truncated, fault := ReadOnce(dst, consumed);
        fds := fds + if c.oob.Rights? then c.oob.fds else [];
        if !good {
          return consumed, Some(BadControl);
        }
        if truncated {
          return consumed, Some(TruncatedRead);
        }
        if n > dst.Length - consumed {
          return consumed, Some(Overrun);
        }
        consumed, got := consumed + n, got + c.data;
        if fault != NoFault {
          if consumed == dst.Length {
            return consumed, None;
          }
          return consumed, Some(FaultError(fault));
        }
        if n == 0 {
          return consumed, Some(UnexpectedEOF);
        }
      }
      NothingLeft(r, got, fds, conn.inbox);
      err := None;
    }

    method ReadMsg() returns (r: C.ReadOutcome)
      modifies this`fatalErr, this`pendingFDs, this`received, this`closed, conn`inbox
      ensures (Abs(), r) == C.ReadMsg(old(Abs()))
    {
      hide Socket.ReadExact, Uint32;
      if fatalErr.Some? {
        return C.ReadFailed(fatalErr.value);
      }
      var header := new byte[8];
      var n, err := ReadExact(header);
      if err.Some? {
        if n == 0 && err.value == Deadline {
          return C.Idle;
        }
        var e := SetFatal(err.value);
        return C.ReadFailed(e);
      }
      var sender := Uint32(header[..4]);
      var word := Uint32(header[4..8]);
      assert header[..8][..4] == header[..4] && header[..8][4..8] == header[4..8];
      var opcode, size := word % 0x1_0000, word / 0x1_0000;
      if sender == 0 {
        var e := SetFatal(ZeroSender);
        return C.ReadFailed(e);
      }
      if size < 8 || size > 65535 {
        var e := SetFatal(BadSize);
        return C.ReadFailed(e);
      }
      if size % 4 != 0 {
        var e := SetFatal(Unaligned);
        return C.ReadFailed(e);
      }
      r := ReadBody(sender, opcode, size - 8);
    }

    /** The rest of ReadMsg, once the header is known. */
    method ReadBody(sender: Word, opcode: nat, size: nat) returns (r: C.ReadOutcome)
      requires fatalErr.None?
      modifies this`fatalErr, this`pendingFDs, this`received, this`closed, conn`inbox
      ensures var b := Socket.ReadExact(old(conn.inbox), size);
              var s2 := C.Absorbed(old(Abs()), b);
              if b.error.Some? then Abs() == C.SetFatal(s2, b.error.value) && r == C.ReadFailed(b.error.value)
              else
                var (fd, s3) := C.TakePending(s2);
                Abs() == s3 && r == C.Got(C.Frame(sender, opcode, b.got), fd)
    {
      hide Socket.ReadExact;
      var msg := new byte[size];
      ghost var before := Abs();
      if size > 0 {
        var n, err := ReadExact(msg);
        if err.Some? {
          var e := SetFatal(err.value);
          return C.ReadFailed(e);
        }
      } else {
        ReadNothing(before, conn.inbox);
      }
      assert msg[..] == Socket.ReadExact(old(conn.inbox), size).got;
      var fd := TakeFD();
      r := C.Got(C.Frame(sender, opcode, msg[..]), fd);
    }

    // ---- writing

    /** Hands a whole frame to the socket, in as many calls as it takes. */
    method WriteFrame(data: seq<byte>, oob: seq<byte>) returns (err: Option<Error>)
      modifies conn`plan, conn`outbox
      ensures var w := Socket.WriteFrame(old(conn.plan), data, oob);
              err == w.error && conn.plan == w.plan && conn.outbox == old(conn.outbox) + Accepted(w.attempts)
    {
      hide Accepted, WriteRest;
      FrameTurn(conn.plan, data, oob);
      var c := conn.Write(data);
      if c.n < 0 || c.n > |data| {
        return Some(PartialFrame(BadCount));
      }
      if c.oobn < 0 || c.oobn > |oob| {
        return Some(PartialFrame(BadCount));
      }
      var accepted := c.n > 0 || c.oobn > 0;
      if c.oobn != |oob| {
        return Some(PartialFrame(BadCount));
      }
      if c.failed {
        return Some(if accepted then PartialFrame(WriteFailed) else WriteFailed);
      }
      if c.n == 0 {
        return Some(if accepted then PartialFrame(NoProgress) else NoProgress);
      }
      err := WriteTail(data, c.n);
      ghost var more := WriteRest(NextWrite(old(conn.plan)).1, data[c.n..]).attempts;
      assert conn.outbox == old(conn.outbox) + (Taken(data, c.n) + Accepted(more));
    }

    /** The loop of plain writes, from an offset. */
    method WriteTail(data: seq<byte>, from: nat) returns (err: Option<Error>)
      requires from <= |data|
      modifies conn`plan, conn`outbox
      ensures var w := WriteRest(old(conn.plan), data[from..]);
              err == w.error && conn.plan == w.plan && conn.outbox == old(conn.outbox) + Accepted(w.attempts)
    {
      hide Accepted, WriteRest, Remains;
      ghost var w := WriteRest(conn.plan, data[from..]);
      ghost var taken: seq<byte> := [];
      AllRemains(conn.plan, data[from..]);
      var offset := from;
      while offset < |data|
        invariant from <= offset <= |data|
        invariant Remains(w, conn.plan, data[offset..], taken)
        invariant conn.outbox == old(conn.outbox) + taken
      {
        ghost var left := data[offset..];
        RemainsTurn(w, conn.plan, left, taken);
        var c := conn.Write(data[offset..]);
        assert old(conn.outbox) + (taken + Taken(left, c.n)) == (old(conn.outbox) + taken) + Taken(left, c.n);
        taken := taken + Taken(left, c.n);
        if c.n < 0 || c.n > |data| - offset {
          return Some(PartialFrame(BadCount));
        }
        assert left[c.n..] == data[offset + c.n..];
        offset := offset + c.n;
        if c.failed {
          return Some(PartialFrame(WriteFailed));
        }
        if c.n == 0 {
          return Some(PartialFrame(NoProgress));
        }
      }
      assert data[offset..] == [];
      NothingRemains(w, conn.plan, taken);
      err := None;
    }

    method WriteMsg(b: seq<byte>, oob: seq<byte>) returns (err: Option<Error>)
      modifies this`fatalErr, this`pendingFDs, this`closed, this`tried, this`sent, conn`plan, conn`outbox
      ensures (Abs(), err) == C.WriteMsg(old(Abs()), b, oob)
    {
      hide Socket.WriteFrame, Uint32, Accepted;
      if fatalErr.Some? {
        return fatalErr;
      }
      if |b| < 8 || |b| > 0xffff || |b| % 4 != 0 || Uint32(b[4..8]) / 0x1_0000 != |b| {
        return Some(FrameSize);
      }
      tried := tried + [b];
      err := WriteFrame(b, oob);
      if err.Some? {
        var e := SetFatal(err.value);
        return Some(e);
      }
      sent := sent + [b];
    }

    // ---- generated decoders and absorbers

    /** GetProxy(id).(*T) with its zombie test. */
    function LiveProxy(id: Word, kind: Kind): (live: bool)
      reads this`objects, objects.Values
      ensures live <==> LiveOf(Objects(), id, kind)
    {
      id in objects && objects[id].kind == kind && !objects[id].zombie
    }

    /** Marks a proxy that is registered at an ID, or nowhere any more. */
    method MarkProxy(p: Proxy, id: Word, ghost held: bool)
      requires Valid() && if held then id in objects && objects[id] == p else p !in objects.Values
      modifies p`zombie
      ensures Valid() && p.zombie
      ensures Abs() == if held then C.MarkZombie(old(Abs()), id) else old(Abs())
      ensures Objects() == if held then old(Objects())[id := old(Objects())[id].(zombie := true)] else old(Objects())
    {
      p.MarkZombie();
      if held {
        assert forall n :: n in objects && n != id ==> objects[n] != p;
        assert Objects() == old(Objects())[id := old(Objects())[id].(zombie := true)];
      } else {
        assert Objects() == old(Objects());
      }
    }

    /** A new proxy of the given type at a server ID, live or as a placeholder. */
    method RegisterNew(id: Word, kind: Kind, zombie: bool) returns (ok: bool)
      requires Valid()
      modifies this`objects
      ensures Valid() && fresh(objects.Values - old(objects.Values))
      ensures Kept(old(objects), objects, None)
      ensures var o := Registry.RegisterWithID(old(Objects()), id, Obj(kind, zombie));
              ok == o.Some? && Objects() == if ok then o.value else old(Objects())
    {
      hide Registry.RegisterWithID, Kept, C.MarkZombie;
      MarkedRegistration(Objects(), id, kind);
      KeptAlready(objects);
      var p := new Proxy(kind);
      KeptWithServer(objects, id, p);
      assert Objects() == old(Objects());
      ok := RegisterWithID(p, id);
      if ok && zombie {
        MarkProxy(p, id, true);
      }
    }

    /** One statement of a generated walk. The machine holds the local variables; the objects
        are those of the connection. */
    method Exec(op: Decoder.Op, m: Decoder.Machine, data: seq<byte>, fd: int) returns (m': Decoder.Machine, panicked: bool)
      requires Valid()
      modifies this`objects
      ensures Valid() && fresh(objects.Values - old(objects.Values))
      ensures Kept(old(objects), objects, None)
      ensures var r := Decoder.Step(op, With(m, old(Objects())), data, fd);
              && panicked == r.Panic?
              && Objects() == (if r.Panic? then r.objects else r.s.w.objects)
              && (r.Next? ==> With(m', Objects()) == r.s)
    {
      hide Uint32, PaddedLen, Decoder.TextIn, FirstNul, CString;
      m', panicked := m, false;
      var w := m.w;
      match op {
        case BindNew(k, kind) =>
          if k !in m.ids {
            panicked := true;
          } else {
            var id := m.ids[k];
            var noted := w.(intros := w.intros + [(w.l, id)]);
            if LiveProxy(id, kind) {
              m' := m.(w := Decoder.WithField(noted, Decoder.NewF(id, true)));
            } else if id != 0 {
              var ok := RegisterNew(id, kind, false);
              panicked := !ok;
              m' := m.(w := Decoder.WithField(noted, Decoder.NewF(id, true)));
            } else {
              m' := m.(w := Decoder.WithField(noted, Decoder.NewF(id, false)));
            }
          }
        case BindRef(k, kind) =>
          if k !in m.ids {
            panicked := true;
          } else {
            m' := m.(w := Decoder.WithField(w, Decoder.RefF(m.ids[k], LiveProxy(m.ids[k], kind))));
          }
        case LoadRef =>
          var here := Decoder.WordAt(data, w.l);
          if here.None? {
            panicked := true;
          } else {
            m' := m.(w := Decoder.WithField(w, Decoder.RefF(here.value, here.value in objects)));
          }
        case Placeholder(k, kind) =>
          if k !in m.ids {
            panicked := true;
          } else {
            m' := m.(w := w.(intros := w.intros + [(w.l, m.ids[k])]));
            if m.ids[k] != 0 {
              var ok := RegisterNew(m.ids[k], kind, true);
              panicked := !ok;
            }
          }
        case _ =>
          var r := Decoder.Step(op, m, data, fd);
          LocalStep(op, m, Objects(), data, fd);
          panicked := r.Panic?;
          if r.Next? {
            m' := r.s;
          }
      }
    }

    /** A generated walk; a panic leaves what was registered before it. */
    method Walk(ops: seq<Decoder.Op>, data: seq<byte>, fd: int) returns (fields: seq<Decoder.Field>, panicked: bool)
      requires Valid()
      modifies this`objects
      ensures Valid() && fresh(objects.Values - old(objects.Values))
      ensures Kept(old(objects), objects, None)
      ensures var r := Decoder.Run(ops, Decoder.Start(old(Objects())), data, fd);
              && panicked == r.Panic?
              && Objects() == (if r.Panic? then r.objects else r.s.w.objects)
              && (r.Next? ==> fields == r.s.w.fields)
    {
      hide Decoder.Step;
      var m := Decoder.Start(map[]);
      ghost var start := Decoder.Start(Objects());
      panicked := false;
      var i := 0;
      assert With(m, Objects()) == start;
      while i < |ops| && !panicked
        invariant i <= |ops| && Valid() && fresh(objects.Values - old(objects.Values)) && Kept(old(objects), objects, None)
        invariant var r := Decoder.Run(ops[..i], start, data, fd);
                  && panicked == r.Panic?
                  && Objects() == (if r.Panic? then r.objects else r.s.w.objects)
                  && (r.Next? ==> With(m, Objects()) == r.s)
      {
        assert ops[..i + 1][..i] == ops[..i];
        m, panicked := Exec(ops[i], m, data, fd);
        i := i + 1;
      }
      fields := m.w.fields;
      if panicked {
        PanicStays(ops, i, start, data, fd);
      } else {
        assert ops[..i] == ops;
      }
    }

    /** The generated AbsorbNewIDs. True is a panic. */
    method AbsorbNewIDs(iface: Interface, opcode: nat, data: seq<byte>) returns (panicked: bool)
      requires Valid()
      modifies this`objects
      ensures Valid() && fresh(objects.Values - old(objects.Values))
      ensures Kept(old(objects), objects, None)
      ensures var r := Z.AbsorbNewIDs(iface, opcode, old(Objects()), data);
              panicked == r.Panic? && Objects() == if r.Panic? then r.objects else r.s
    {
      hide Decoder.Run;
      panicked := false;
      if opcode < |iface.events| && HasNewId(iface.events[opcode].args) {
        var fields;
        fields, panicked := Walk(Decoder.CompileAbsorber(iface.events[opcode].args), data, -1);
      }
    }

    // ---- handlers

    /** What a destructor request does on this side. */
    method Destroy(id: Word)
      requires Valid()
      modifies objects.Values
      ensures Valid() && Abs() == C.MarkZombie(old(Abs()), id)
    {
      if id in objects {
        assert objects[id] in objects.Values;
        objects[id].MarkZombie();
        assert forall n :: n in objects && n != id ==> objects[n] != objects[id];
        assert Objects() == old(Objects())[id := old(Objects())[id].(zombie := true)];
      }
    }

    /** One deed of a handler. True is a panic. */
    method Do(d: C.Deed) returns (panicked: bool)
      requires Valid()
      modifies Repr()
      ensures Valid() && fresh(Repr() - old(Repr()))
      ensures Kept(old(objects), objects, None)
      ensures (Abs(), panicked) == C.Do(old(Abs()), d)
    {
      hide C.Register, C.WriteMsg, C.SetFatal, C.CloseConn;
      panicked := false;
      match d {
        case Create(kind) =>
          var p, ok := NewProxy(kind);
          panicked := !ok;
        case Destroy(id) =>
          Destroy(id);
        case Send(b, oob) => var err := WriteMsg(b, oob);
        case Fail(e) => var err := SetFatal(e);
        case CloseIt => Close();
      }
    }

    method RunHandler(h: C.Handler) returns (panicked: bool)
      requires Valid()
      modifies Repr()
      ensures Valid() && fresh(Repr() - old(Repr()))
      ensures Kept(old(objects), objects, None)
      ensures (Abs(), panicked) == C.RunHandler(old(Abs()), h)
    {
      hide C.Do;
      panicked := false;
      if h.Absent? {
        return;
      }
      if h.notes {
        done := true;
      }
      ghost var s0 := Abs();
      var i := 0;
      while i < |h.deeds| && !panicked
        invariant i <= |h.deeds| && Valid() && fresh(Repr() - old(Repr())) && Kept(old(objects), objects, None)
        invariant C.DoAll(s0, h.deeds) == if panicked then (Abs(), true) else C.DoAll(Abs(), h.deeds[i..])
      {
        panicked := Do(h.deeds[i]);
        assert h.deeds[i..][1..] == h.deeds[i + 1..];
        i := i + 1;
      }
      panicked := panicked || h.panics;
    }

    // ---- dispatching

    /** From now on the descriptor belongs to the application. */
    ghost method HandOver(fd: int)
      modifies this`handed
      ensures Abs() == C.HandOver(old(Abs()), fd)
    {
      if fd >= 0 {
        handed := handed + [fd];
      }
    }

    /** The end of every case of the generated Dispatch. */
    method Finish(fd: int, h: C.Handler) returns (panicked: bool)
      requires Valid()
      modifies Repr()
      ensures Valid() && fresh(Repr() - old(Repr()))
      ensures Kept(old(objects), objects, None)
      ensures (Abs(), panicked) == C.Finish(old(Abs()), fd, h)
    {
      hide C.RunHandler, C.HandOver;
      panicked := RunHandler(h);
      if !panicked {
        HandOver(fd);
      }
    }

    /** One case of the generated Dispatch. True is a panic. */
    method DispatchEvent(e: Event, fd: int, data: seq<byte>, h: C.Handler)
      returns (panicked: bool, ghost gone: Option<Word>)
      requires Valid()
      modifies Repr()
      ensures Valid() && fresh(Repr() - old(Repr()))
      ensures (Abs(), panicked) == C.DispatchEvent(old(Abs()), e, fd, data, h)
      ensures gone == DeletedBy(e, old(Objects()), data, fd)
      ensures Kept(old(objects), objects, gone) && Dropped(old(objects), objects, gone)
    {
      hide C.Finish, C.HandOver, C.CloseFD, C.Delete, C.SetFatal, Decoder.Run, Decoder.CompileDecoder, Kept;
      hide CarriesFD, HasNewId, Z.DeletedId, C.ErrorOf;
      gone := None;
      KeptAlready(objects);
      if e.role == Plain && !HasNewId(e.args) && h.Absent? {
        panicked := false;
        Release(e, fd);
        return;
      }
      var fields;
      fields, panicked := Walk(Decoder.CompileDecoder(e.args), data, fd);
      if panicked {
        return;
      }
      ghost var walked := objects;
      assert Abs() == old(Abs()).(objects := Objects());
      panicked, gone := Conclude(e, fields, fd, h);
      KeptThrough(old(objects), walked, objects, gone);
    }

    /** What follows the decoding. */
    method Conclude(e: Event, fields: seq<Decoder.Field>, fd: int, h: C.Handler)
      returns (panicked: bool, ghost gone: Option<Word>)
      requires Valid()
      modifies Repr()
      ensures Valid() && fresh(Repr() - old(Repr()))
      ensures (Abs(), panicked) == match e.role
                case DeleteIdEvent => C.Finish(C.Delete(old(Abs()), Z.DeletedId(fields)), fd, h)
                case DisplayErrorEvent => C.Finish(C.SetFatal(old(Abs()), C.ErrorOf(fields)), fd, h)
                case Plain =>
                  if h.Absent? && CarriesFD(e.args) then (C.CloseFD(old(Abs()), fd), false)
                  else C.Finish(old(Abs()), fd, h)
      ensures gone == if e.role == DeleteIdEvent then Some(Z.DeletedId(fields)) else None
      ensures Kept(old(objects), objects, gone) && Dropped(old(objects), objects, gone)
    {
      hide C.Finish, C.CloseFD, C.Delete, C.SetFatal, Kept, Dropped;
      gone := if e.role == DeleteIdEvent then Some(Z.DeletedId(fields)) else None;
      KeptAlready(objects);
      Effect(e.role, fields);
      if e.role == Plain && h.Absent? && CarriesFD(e.args) {
        panicked := false;
        CloseReceivedFD(fd);
        return;
      }
      ghost var left := objects;
      panicked := Finish(fd, h);
      DroppedForGood(old(objects), left, objects, gone);
    }

    /** What wl_display's own events do to the connection. */
    method Effect(role: Role, fields: seq<Decoder.Field>)
      requires Valid()
      modifies this`objects, this`freeIDs, this`book, this`fatalErr, this`pendingFDs, this`closed
      ensures Valid()
      ensures objects == if role.DeleteIdEvent? then old(objects) - {Z.DeletedId(fields)} else old(objects)
      ensures Abs() == match role
                       case DeleteIdEvent => C.Delete(old(Abs()), Z.DeletedId(fields))
                       case DisplayErrorEvent => C.SetFatal(old(Abs()), C.ErrorOf(fields))
                       case Plain => old(Abs())
    {
      hide C.Delete, C.SetFatal;
      match role {
        case DeleteIdEvent => DeleteID(Z.DeletedId(fields));
        case DisplayErrorEvent => var err := SetFatal(C.ErrorOf(fields));
        case Plain =>
      }
    }

    /** An event without a handler closes a descriptor of its own. */
    method Release(e: Event, fd: int)
      modifies this`handed, this`closed
      ensures Abs() == if CarriesFD(e.args) then C.CloseFD(old(Abs()), fd) else C.HandOver(old(Abs()), fd)
    {
      if CarriesFD(e.args) {
        CloseReceivedFD(fd);
      } else {
        HandOver(fd);
      }
    }

    /** What the deferred recover does. */
    method Recover(fd: int, opcode: nat, id: Word)
      modifies this`fatalErr, this`pendingFDs, this`closed
      ensures Abs() == C.Recovered(old(Abs()), fd, opcode, id)
    {
      hide C.SetFatal, C.CloseFD;
      CloseReceivedFD(fd);
      var err := SetFatal(DispatchPanic(opcode, id));
    }

    /** Puts back a descriptor that is for a later event, if the sender can tell. */
    method Route(iface: Interface, opcode: nat, received: int) returns (fd: int)
      modifies this`pendingFDs
      ensures (Abs(), fd) == C.RouteFD(old(Abs()), iface, opcode, received)
    {
      fd := received;
      if iface.fdAware && !C.HasFD(iface, opcode) {
        PutBackFD(fd);
        fd := -1;
      }
    }

    /** A message for a zombie: its new objects become zombies too. */
    method Absorb(iface: Interface, f: C.Frame, fd: int)
      requires Valid()
      modifies Repr()
      ensures Valid() && fresh(Repr() - old(Repr()))
      ensures var s := C.CloseFD(old(Abs()), fd);
              Abs() == match Z.AbsorbNewIDs(iface, f.opcode, s.objects, f.body)
                       case Panic(o) => C.Recovered(s.(objects := o), -1, f.opcode, f.sender)
                       case Next(o) => s.(objects := o)
      ensures Kept(old(objects), objects, None)
    {
      hide C.CloseFD, C.Recovered, Z.AbsorbNewIDs, Kept;
      CloseReceivedFD(fd);
      var panicked := AbsorbNewIDs(iface, f.opcode, f.body);
      if panicked {
        Recover(-1, f.opcode, f.sender);
      }
    }

    /** A message for a live proxy. */
    method Invoke(iface: Interface, f: C.Frame, fd: int, h: C.Handler) returns (ghost gone: Option<Word>)
      requires Valid()
      modifies Repr()
      ensures Valid() && fresh(Repr() - old(Repr()))
      ensures Abs() == if iface.events == [] then C.SetFatal(C.CloseFD(old(Abs()), fd), SenderUnsupported(f.sender))
                       else if f.opcode >= |iface.events| then C.Recovered(old(Abs()), fd, f.opcode, f.sender)
                       else
                         var (s, panicked) := C.DispatchEvent(old(Abs()), iface.events[f.opcode], fd, f.body, h);
                         if panicked then C.Recovered(s, fd, f.opcode, f.sender) else s
      ensures gone == if f.opcode >= |iface.events| then None
                      else DeletedBy(iface.events[f.opcode], old(Objects()), f.body, fd)
      ensures Kept(old(objects), objects, gone) && Dropped(old(objects), objects, gone)
    {
      hide C.CloseFD, C.Recovered, C.SetFatal, C.DispatchEvent, DeletedBy, Kept;
      gone := None;
      KeptAlready(objects);
      if iface.events == [] {
        CloseReceivedFD(fd);
        var err := SetFatal(SenderUnsupported(f.sender));
        return;
      }
      var panicked := true;
      if f.opcode < |iface.events| {
        panicked, gone := DispatchEvent(iface.events[f.opcode], fd, f.body, h);
      }
      if panicked {
        Recover(fd, f.opcode, f.sender);
      }
    }

    /** Delivers a message that was read. */
    method Deliver(p: Protocol, f: C.Frame, received: int, h: C.Handler) returns (ghost gone: Option<Word>)
      requires Valid()
      modifies Repr()
      ensures Valid() && fresh(Repr() - old(Repr()))
      ensures Abs() == C.DispatchFrame(p, old(Abs()), f, received, h)
      ensures gone == Deletes(p, old(Abs()), f, received)
      ensures Kept(old(objects), objects, gone) && Dropped(old(objects), objects, gone)
    {
      hide C.DispatchEvent, C.Recovered, C.SetFatal, C.CloseFD, C.RouteFD, Z.AbsorbNewIDs, InterfaceOf, Kept, DeletedBy;
      gone := None;
      KeptAlready(objects);
      if f.sender !in objects {
        CloseReceivedFD(received);
        var err := SetFatal(SenderNotFound(f.sender));
        return;
      }
      var proxy := objects[f.sender];
      var iface := InterfaceOf(p, proxy.kind);
      var fd := Route(iface, f.opcode, received);
      if proxy.zombie && proxy.kind != DISPLAY {
        Absorb(iface, f, fd);
      } else {
        gone := Invoke(iface, f, fd, h);
      }
    }

    /** Reads one message and delivers it to the handler that the table has for it. */
    method Dispatch(p: Protocol, hs: Table) returns (err: Option<Error>)
      requires Valid()
      modifies Repr()
      ensures Valid() && fresh(Repr() - old(Repr()))
      ensures (Abs(), err) == DispatchTo(p, old(Abs()), hs)
      ensures forall n :: n in old(objects) && n < FIRST_SERVER_ID && StaysAt(p, old(Abs()), n) ==>
                n in objects && objects[n] == old(objects[n])
      ensures forall n :: n in old(objects) && n < FIRST_SERVER_ID && !StaysAt(p, old(Abs()), n) ==>
                old(objects[n]) !in objects.Values
    {
      hide C.ReadMsg, C.DispatchFrame, Deletes;
      if fatalErr.Some? {
        FailedReads(Abs());
        return fatalErr;
      }
      var r := ReadMsg();
      match r {
        case Idle => err := Some(ReadTimeout);
        case ReadFailed(e) =>
          var first := SetFatal(UnableToRead(e));
          err := Some(first);
        case Got(f, fd) =>
          ghost var gone := Deliver(p, f, fd, hs(f.sender, f.opcode));
          err := fatalErr;
      }
    }

    // ---- roundtrips

    /** Display.Roundtrip, with cb as its callback. hs(n) are the handlers the application has
        set when the n-th message is dispatched. */
    method Roundtrip(p: Protocol, callback: Kind, hs: nat -> Handlers) returns (panicked: bool, err: Option<Error>, cb: Proxy)
      requires Valid()
      modifies Repr()
      ensures Valid() && fresh(Repr() - old(Repr())) && fresh(cb)
      ensures var (s, id, e) := Sync.Roundtrip(p, old(Abs()), callback, hs);
              Abs() == s && panicked == id.None? && (id.Some? ==> err == e)
      ensures var (asked, id, e) := Sync.Ask(old(Abs()), callback);
              && cb.kind == callback
              && (cb.zombie <==> id.Some? && e.None?)
              && (id.Some? && e.None? ==>
                   if Await(p, asked, id.value, true, hs, 0).2 then id.value in objects && objects[id.value] == cb
                   else cb !in objects.Values)
    {
      hide Await, Sync.Ask;
      panicked, err, cb := Ask(callback);
      if panicked || err.Some? {
        return;
      }
      var id := cb.id;
      ghost var held;
      err, held := AwaitDone(p, cb, id, hs);
      MarkProxy(cb, id, held);
    }

    /** The sync request, with a new callback. */
    method Ask(callback: Kind) returns (panicked: bool, err: Option<Error>, cb: Proxy)
      requires Valid()
      modifies this, conn
      ensures Valid() && fresh(Repr() - old(Repr())) && fresh(cb) && !cb.zombie
      ensures var (s, id, e) := Sync.Ask(old(Abs()), callback);
              Abs() == s && panicked == id.None? && (id.Some? ==> err == e && cb.id == id.value) && cb.kind == callback
      ensures !panicked ==> cb.id < FIRST_SERVER_ID && cb.id in objects && objects[cb.id] == cb
      ensures !panicked && err.None? ==> !done
    {
      hide C.WriteMsg, C.Register, SyncRequest, Sync.Ask;
      ghost var s0 := Abs();
      panicked, err := false, None;
      var ok;
      cb, ok := NewProxy(callback);
      ghost var s1 := Abs();
      if !ok {
        panicked := true;
        NoCallback(s0, s1, callback);
        return;
      }
      err := SendSync(cb.id);
      Asked(s0, s1, callback, cb.id);
    }

    /** The bytes of the request, and the variable that the loop waits for. */
    method SendSync(id: Word) returns (err: Option<Error>)
      modifies this`fatalErr, this`pendingFDs, this`closed, this`tried, this`sent, this`done, conn`plan, conn`outbox
      ensures var (s, e) := C.WriteMsg(old(Abs()), SyncRequest(id), []);
              err == e && Abs() == if e.Some? then s else s.(done := false)
    {
      hide C.WriteMsg, SyncRequest;
      err := WriteMsg(SyncRequest(id), []);
      if err.None? {
        done := false;
      }
    }

    /** The loop of Roundtrip: it ends when the handler of cb has set the variable, or with an
        error. */
    method AwaitDone(p: Protocol, cb: Proxy, id: Word, hs: nat -> Handlers)
      returns (err: Option<Error>, ghost held: bool)
      requires Valid() && !done && id < FIRST_SERVER_ID && id in objects && objects[id] == cb
      modifies Repr()
      ensures Valid() && fresh(Repr() - old(Repr()))
      ensures (Abs(), err, held) == Await(p, old(Abs()), id, true, hs, 0)
      ensures if held then id in objects && objects[id] == cb else cb !in objects.Values
    {
      hide DispatchTo, StaysAt, Remaining, Waiting;
      var n := 0;
      held, err := true, None;
      ghost var goal := Await(p, Abs(), id, true, hs, 0);
      while !done && err.None?
        invariant Valid() && fresh(Repr() - old(Repr()))
        invariant if held then id in objects && objects[id] == cb else cb !in objects.Values
        invariant goal == if done || err.Some? then (Abs(), err, held) else Await(p, Abs(), id, held, hs, n)
        decreases !done && err.None?, Remaining(Abs().inbox)
      {
        err, held := AwaitOnce(p, cb, id, hs(n), held);
        n := n + 1;
      }
    }

    /** One turn of that loop: the done handler is the one set on cb. */
    method AwaitOnce(p: Protocol, cb: Proxy, id: Word, hs: Handlers, ghost before: bool)
      returns (err: Option<Error>, ghost held: bool)
      requires Valid() && id < FIRST_SERVER_ID
      requires if before then id in objects && objects[id] == cb else cb !in objects.Values
      modifies Repr()
      ensures Valid() && fresh(Repr() - old(Repr()))
      ensures (Abs(), err) == DispatchTo(p, old(Abs()), Waiting(hs, id, before))
      ensures held == (before && StaysAt(p, old(Abs()), id))
      ensures if held then id in objects && objects[id] == cb else cb !in objects.Values
      ensures err.None? ==> Remaining(conn.inbox) < Remaining(old(conn.inbox))
    {
      hide DispatchTo, StaysAt, Remaining, Incoming;
      ghost var s := Abs();
      held := before && StaysAt(p, s, id);
      var registered := id in objects && objects[id] == cb;
      assert registered == before;
      err := Dispatch(p, Waiting(hs, id, registered));
      if err.None? {
        DispatchToConsumes(p, s, Waiting(hs, id, before));
      }
    }

    // ---- sessions

    /** ReadMsg, called by the application, which then owns the descriptor. */
    method ReadAndKeep() returns (err: Option<Error>)
      modifies this`fatalErr, this`pendingFDs, this`received, this`closed, this`handed, conn`inbox
      ensures var (s, r) := C.ReadMsg(old(Abs()));
              (Abs(), err) == match r
                              case Idle => (s, Some(ReadTimeout))
                              case ReadFailed(e) => (s, Some(e))
                              case Got(_, fd) => (C.HandOver(s, fd), None)
    {
      hide C.ReadMsg, C.HandOver;
      err := None;
      var r := ReadMsg();
      match r {
        case Idle => err := Some(ReadTimeout);
        case ReadFailed(e) => err := Some(e);
        case Got(_, fd) => HandOver(fd);
      }
    }

    /** A call that only concerns the object map. */
    method PerformOnObjects(p: Protocol, a: C.Action)
      requires Valid() && (a.DoRegister? || a.DoRegisterServer? || a.DoDelete? || a.DoMarkZombie?)
      modifies Repr()
      ensures Valid() && fresh(Repr() - old(Repr()))
      ensures (Abs(), None) == C.Act(p, old(Abs()), a)
    {
      hide C.Register, C.Delete, C.MarkZombie;
      match a {
        case DoRegister(kind) =>
          var proxy, ok := NewProxy(kind);
        case DoRegisterServer(id, kind) =>
          var ok := RegisterNew(id, kind, false);
        case DoDelete(id) => DeleteID(id);
        case DoMarkZombie(id) => Destroy(id);
      }
    }

    /** A dispatch with one handler for whatever arrives. */
    method DispatchWith(p: Protocol, h: C.Handler) returns (err: Option<Error>)
      requires Valid()
      modifies Repr()
      ensures Valid() && fresh(Repr() - old(Repr()))
      ensures (Abs(), err) == C.Dispatch(p, old(Abs()), h)
    {
      hide C.Dispatch, DispatchTo, StaysAt;
      SameHandler(p, Abs(), h);
      err := Dispatch(p, (sender, opcode) => h);
    }

    /** One call by the application. */
    method Perform(p: Protocol, a: C.Action) returns (err: Option<Error>)
      requires Valid()
      modifies Repr()
      ensures Valid() && fresh(Repr() - old(Repr()))
      ensures (Abs(), err) == C.Act(p, old(Abs()), a)
    {
      hide C.Register, C.WriteMsg, C.ReadMsg, C.Dispatch, C.CloseConn, C.Delete, C.HandOver, C.MarkZombie;
      err := None;
      match a {
        case DoWrite(b, oob) => err := WriteMsg(b, oob);
        case DoRead =>
          err := ReadAndKeep();
        case DoDispatch(h) =>
          err := DispatchWith(p, h);
        case DoClose => Close();
        case _ => PerformOnObjects(p, a);
      }
    }

    /** The object goes through the runs that the theorems about connections speak of. */
    method Session(p: Protocol, acts: seq<C.Action>)
      requires Valid()
      modifies Repr()
      ensures Valid() && Abs() == C.RunCalls(p, old(Abs()), acts)
    {
      hide C.Act;
      for i := 0 to |acts|
        invariant Valid() && fresh(Repr() - old(Repr()))
        invariant Abs() == C.RunCalls(p, old(Abs()), acts[..i])
      {
        assert acts[..i + 1][..i] == acts[..i];
        var err := Perform(p, acts[i]);
      }
      assert acts[..|acts|] == acts;
    }
  }

  /** The local variables of a walk beside given objects. */
  function With(m: Decoder.Machine, o: Registry.Objects): Decoder.Machine {
    m.(w := m.w.(objects := o))
  }

  lemma {:induction false} PanicStays(ops: seq<Decoder.Op>, i: nat, m: Decoder.Machine, data: seq<byte>, fd: int)
    requires i <= |ops| && Decoder.Run(ops[..i], m, data, fd).Panic?
    ensures Decoder.Run(ops, m, data, fd) == Decoder.Run(ops[..i], m, data, fd)
  {
    hide Decoder.Step;
    assert ops[..i] + ops[i..] == ops;
    Decoder.RunAppend(ops[..i], ops[i..], m, data, fd);
  }

  lemma KeptAlready(m: map<Word, Proxy>)
    ensures Kept(m, m, None)
    ensures forall m' :: Dropped(m, m', None)
  {
  }

  /** A deleted object does not come back: what is registered later is new. */
  lemma DroppedForGood(m0: map<Word, Proxy>, m1: map<Word, Proxy>, m2: map<Word, Proxy>, gone: Option<Word>)
    requires m1 == (if gone.Some? then m0 - {gone.value} else m0) && Kept(m1, m2, None)
    requires forall i, j :: i in m0 && j in m0 && i != j ==> m0[i] != m0[j]
    requires (m2.Values - m1.Values) !! m0.Values
    ensures Kept(m0, m2, gone) && Dropped(m0, m2, gone)
  {
    if gone.Some? && gone.value in m0 {
      assert m0[gone.value] !in m1.Values;
      assert m0[gone.value] in m0.Values;
    }
  }

  lemma KeptThrough(m0: map<Word, Proxy>, m1: map<Word, Proxy>, m2: map<Word, Proxy>, gone: Option<Word>)
    requires Kept(m0, m1, None) && Kept(m1, m2, gone) && Dropped(m1, m2, gone)
    ensures Kept(m0, m2, gone) && Dropped(m0, m2, gone)
  {
  }

  /** The other statements use local variables and the body only. */
  lemma LocalStep(op: Decoder.Op, m: Decoder.Machine, o: Registry.Objects, data: seq<byte>, fd: int)
    requires !op.BindNew? && !op.BindRef? && !op.LoadRef? && !op.Placeholder?
    ensures var r, r' := Decoder.Step(op, m, data, fd), Decoder.Step(op, With(m, o), data, fd);
            if r.Panic? then r' == Decoder.Panic(o) else r' == Decoder.Next(With(r.s, o))
  {
    hide Uint32, PaddedLen, Decoder.TextIn;
  }

  /** Where no message is delivered, the handler does not matter. */
  lemma SameHandler(p: Protocol, s: C.State, h: C.Handler)
    ensures DispatchTo(p, s, (sender, opcode) => h) == C.Dispatch(p, s, h)
  {
    hide C.ReadMsg, C.DispatchFrame;
    if s.fatal.Some? { FailedReads(s); }
  }

  /** An ID of the server does not touch the client's objects. */
  lemma KeptWithServer(m: map<Word, Proxy>, id: Word, p: Proxy)
    ensures id >= FIRST_SERVER_ID ==> Kept(m, m[id := p], None)
    ensures m[id := p].Values <= m.Values + {p}
  {
    forall x | x in m[id := p].Values
      ensures x in m.Values + {p}
    {
      var n :| n in m[id := p] && m[id := p][n] == x;
      assert n != id ==> n in m && m[n] == x;
    }
  }

  /** A placeholder is registered live and then marked. */
  lemma MarkedRegistration(o: Registry.Objects, id: Word, kind: Kind)
    ensures var live, zombie := Registry.RegisterWithID(o, id, Obj(kind, false)), Registry.RegisterWithID(o, id, Obj(kind, true));
            && live.Some? == zombie.Some?
            && (live.Some? ==> id in live.value && zombie.value == live.value[id := live.value[id].(zombie := true)])
  {
  }

  lemma NoCallback(s: C.State, s1: C.State, callback: Kind)
    requires C.Register(s, callback) == (s1, None)
    ensures Sync.Ask(s, callback) == (s1, None, None)
  {
  }

  lemma Asked(s: C.State, s1: C.State, callback: Kind, id: Word)
    requires C.Register(s, callback) == (s1, Some(id))
    ensures var (s2, e) := C.WriteMsg(s1, SyncRequest(id), []);
            Sync.Ask(s, callback) == (if e.Some? then s2 else s2.(done := false), Some(id), e)
  {
    hide C.Register, C.WriteMsg, SyncRequest;
  }

  lemma FailedReads(s: C.State)
    requires s.fatal.Some?
    ensures C.ReadMsg(s) == (s, C.ReadFailed(s.fatal.value))
  {
  }

  lemma ReadNothing(s: C.State, inbox: seq<Arrival>)
    requires s.inbox == inbox
    ensures Socket.ReadExact(inbox, 0) == Reading([], None, inbox, [])
    ensures C.Absorbed(s, Socket.ReadExact(inbox, 0)) == s
  {
  }
}
