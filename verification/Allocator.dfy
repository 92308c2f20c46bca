/** Runs of the three registry operations, starting from an empty connection. */
module Allocator {
  import opened Wire
  import opened Registry

  datatype Op = Register(kind: Kind) | RegisterServer(id: Word, kind: Kind) | Delete(id: Word)

  datatype Book = Book(objects: Objects, ids: Ids)

  const EMPTY := Book(map[], Ids([], 0))

  /** One operation on fresh proxies. A panic leaves the map as it was. */
  function Apply(b: Book, op: Op): Book {
    match op
    case Register(kind) =>
      var a := Allocate(b.objects, b.ids);
      if a.Fresh? then Book(b.objects[a.id := Obj(kind, false)], a.ids) else b.(ids := a.ids)
    case RegisterServer(id, kind) =>
      var r := RegisterWithID(b.objects, id, Obj(kind, false));
      if r.Some? then b.(objects := r.value) else b
    case Delete(id) =>
      var (o, ids) := DeleteID(b.objects, b.ids, id);
      Book(o, ids)
  }

  function Run(ops: seq<Op>): Book {
    if ops == [] then EMPTY else Apply(Run(ops[..|ops| - 1]), ops[|ops| - 1])
  }

  lemma RunSnoc(ops: seq<Op>, op: Op)
    ensures Run(ops + [op]) == Apply(Run(ops), op)
  {
    assert (ops + [op])[..|ops|] == ops;
  }

  /** The IDs the calls of Register returned, in order. */
  function Issued(ops: seq<Op>): seq<Word> {
    if ops == [] then []
    else
      var before := ops[..|ops| - 1];
      var a := Allocate(Run(before).objects, Run(before).ids);
      if ops[|ops| - 1].Register? && a.Fresh? then Issued(before) + [a.id] else Issued(before)
  }

  /** The client IDs a delete_id took back while they were registered. */
  function Acknowledged(ops: seq<Op>): set<Word> {
    if ops == [] then {}
    else
      var before := ops[..|ops| - 1];
      match ops[|ops| - 1]
      case Delete(id) => if id in Run(before).objects then Acknowledged(before) + {id} else Acknowledged(before)
      case _ => Acknowledged(before)
  }

  function ClientKeys(o: Objects): set<Word> {
    set n | n in o && n < FIRST_SERVER_ID
  }

  /** The largest number of client IDs that were ever registered at once. */
  function Peak(ops: seq<Op>): nat {
    var now := |ClientKeys(Run(ops).objects)|;
    if ops == [] then now
    else
      var earlier := Peak(ops[..|ops| - 1]);
      if earlier < now then now else earlier
  }

  predicate NeverDeletesDisplay(ops: seq<Op>) {
    forall i :: 0 <= i < |ops| ==> ops[i] != Delete(DISPLAY_ID)
  }

  /** The allocator invariant over every run. */
  lemma {:induction false} EveryRunIsBalanced(ops: seq<Op>)
    ensures Balanced(Run(ops).objects, Run(ops).ids)
  {
    if ops != [] {
      var b := Run(ops[..|ops| - 1]);
      EveryRunIsBalanced(ops[..|ops| - 1]);
      match ops[|ops| - 1] {
        case Register(kind) => AllocateBalanced(b.objects, b.ids, Obj(kind, false));
        case RegisterServer(id, kind) => BalancedIgnoresServerIDs(b.objects, Run(ops).objects, b.ids);
        case Delete(id) => DeleteBalanced(b.objects, b.ids, id);
      }
    }
  }

  /** The set of IDs the counter has reached. */
  function UpTo(n: Word): (s: set<Word>)
    ensures |s| == n && forall k: Word :: k in s <==> 1 <= k <= n
    decreases n
  {
    if n == 0 then {} else UpTo(n - 1) + {n}
  }

  function Elements(s: seq<Word>): set<Word> {
    set n | n in s
  }

  lemma {:induction false} DistinctElements(s: seq<Word>)
    requires forall i, j :: 0 <= i < j < |s| ==> s[i] != s[j]
    ensures |Elements(s)| == |s|
  {
    if s == [] {
      assert Elements(s) == {};
    } else {
      var last := s[|s| - 1];
      var rest := s[..|s| - 1];
      DistinctElements(rest);
      assert s == rest + [last];
      assert last !in Elements(rest);
      assert Elements(s) == Elements(rest) + {last};
    }
  }

  /** While the display is registered, every counted ID is registered or free. */
  lemma CounterIsRegisteredPlusFree(o: Objects, ids: Ids)
    requires Balanced(o, ids)
    requires DISPLAY_ID in o || ids.current == 0
    ensures ids.current == |ClientKeys(o)| + |ids.free|
  {
    var keys, free := ClientKeys(o), Elements(ids.free);
    DistinctElements(ids.free);
    forall n: Word
      ensures n in UpTo(ids.current) <==> n in keys + free
    {
    }
    assert UpTo(ids.current) == keys + free;
    assert keys !! free;
  }

  lemma {:induction false} DisplayStays(ops: seq<Op>)
    requires NeverDeletesDisplay(ops)
    ensures DISPLAY_ID in Run(ops).objects || Run(ops) == EMPTY.(objects := Run(ops).objects)
  {
    if ops != [] {
      var before := ops[..|ops| - 1];
      assert NeverDeletesDisplay(before);
      DisplayStays(before);
      EveryRunIsBalanced(before);
      var b := Run(before);
      match ops[|ops| - 1] {
        case Register(kind) => AllocateBalanced(b.objects, b.ids, Obj(kind, false));
        case RegisterServer(id, kind) =>
        case Delete(id) =>
          assert ops[|ops| - 1] != Delete(DISPLAY_ID);
      }
    }
  }

  /** The counter is the peak: IDs are recycled so well that the space used never exceeds
      what was needed at once. */
  lemma {:induction false} CounterIsPeak(ops: seq<Op>)
    requires NeverDeletesDisplay(ops)
    ensures Run(ops).ids.current == Peak(ops)
  {
    if ops == [] {
      assert ClientKeys(map[]) == {};
    } else {
      var before := ops[..|ops| - 1];
      assert NeverDeletesDisplay(before);
      CounterIsPeak(before);
      EveryRunIsBalanced(before);
      EveryRunIsBalanced(ops);
      DisplayStays(before);
      DisplayStays(ops);
      var b, b' := Run(before), Run(ops);
      CounterIsRegisteredPlusFree(b.objects, b.ids);
      CounterIsRegisteredPlusFree(b'.objects, b'.ids);
      match ops[|ops| - 1] {
        case Register(kind) => AllocateBalanced(b.objects, b.ids, Obj(kind, false));
        case RegisterServer(id, kind) =>
        case Delete(id) =>
      }
    }
  }

  lemma {:induction false} IssuedReachesCounter(ops: seq<Op>)
    ensures forall id :: id in Issued(ops) ==> 1 <= id <= Run(ops).ids.current
    ensures Run(ops).ids.current > 0 ==> Run(ops).ids.current in Issued(ops)
    ensures forall id :: id in Run(ops).ids.free ==> id in Acknowledged(ops)
    ensures forall id :: id in Run(ops).objects && id < FIRST_SERVER_ID ==> id in Issued(ops)
    ensures forall id :: id in Acknowledged(ops) && id < FIRST_SERVER_ID ==> id in Issued(ops)
  {
    if ops != [] {
      var before := ops[..|ops| - 1];
      IssuedReachesCounter(before);
      EveryRunIsBalanced(before);
      var b := Run(before);
      match ops[|ops| - 1] {
        case Register(kind) => AllocateBalanced(b.objects, b.ids, Obj(kind, false));
        case RegisterServer(id, kind) =>
        case Delete(id) =>
      }
    }
  }

  /** Where the next ID comes from: one that was issued before and that the compositor has
      acknowledged, or exactly one above all that were issued. */
  lemma NextIsAcknowledgedOrOneAboveAll(ops: seq<Op>)
    requires Allocate(Run(ops).objects, Run(ops).ids).Fresh?
    ensures var id := Allocate(Run(ops).objects, Run(ops).ids).id;
            || (id in Acknowledged(ops) && id in Issued(ops))
            || ((forall i :: i in Issued(ops) ==> i < id) && (id == 1 || (id - 1) in Issued(ops)))
  {
    EveryRunIsBalanced(ops);
    IssuedReachesCounter(ops);
    AllocateBalanced(Run(ops).objects, Run(ops).ids, Obj(0, false));
  }

  /** Over every run: a Register right after the deletion of a registered client ID returns this
      ID, whatever is free besides, and leaves the allocator as it was before the two. */
  lemma DeletedIsIssuedNext(ops: seq<Op>, id: Word, kind: Kind)
    requires Recyclable(id) && id in Run(ops).objects
    ensures Issued(ops + [Delete(id)] + [Register(kind)]) == Issued(ops) + [id]
    ensures var b := Run(ops + [Delete(id)] + [Register(kind)]);
            b.ids == Run(ops).ids && b.objects == Run(ops).objects[id := Obj(kind, false)]
  {
    hide Balanced, Allocate, DeleteID;
    var b, d := Run(ops), ops + [Delete(id)];
    EveryRunIsBalanced(ops);
    RunSnoc(ops, Delete(id));
    RunSnoc(d, Register(kind));
    DeletedIsNext(b.objects, b.ids, id);
    assert d[..|ops|] == ops && (d + [Register(kind)])[..|d|] == d;
    Removed(b.objects, b.ids, id);
    assert (b.objects - {id})[id := Obj(kind, false)] == b.objects[id := Obj(kind, false)];
  }

  lemma Removed(o: Objects, ids: Ids, id: Word)
    ensures DeleteID(o, ids, id).0 == o - {id}
  {
    if id !in o { assert o - {id} == o; }
  }
}
