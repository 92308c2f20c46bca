/** The object map of a connection as a value, and the allocation of client object IDs.
    IDs below FIRST_SERVER_ID belong to the client, the others to the compositor. */
module Registry {
  import opened Wire

  const FIRST_SERVER_ID: Word := 0xff00_0000

  const DISPLAY_ID: Word := 1

  /** Stands for the Go type of a proxy: the interface it was generated from. */
  type Kind = nat

  const DISPLAY: Kind := 0

  datatype Obj = Obj(kind: Kind, zombie: bool)

  type Objects = map<Word, Obj>

  /** A proxy of the given type is registered at id and has not been destroyed. */
  predicate LiveOf(o: Objects, id: Word, kind: Kind) {
    id in o && o[id].kind == kind && !o[id].zombie
  }

  predicate Live(o: Objects, id: Word) {
    id in o && !o[id].zombie
  }

  /** Only a compositor ID that no live object holds may be introduced. */
  predicate Introducible(o: Objects, id: Word) {
    id >= FIRST_SERVER_ID && !Live(o, id)
  }

  /** None is the panic on a client-range ID or on a duplicate. */
  function RegisterWithID(o: Objects, id: Word, obj: Obj): (r: Option<Objects>)
    ensures r.Some? <==> Introducible(o, id)
  {
    if id < FIRST_SERVER_ID then None
    else if Live(o, id) then None
    else Some(o[id := obj])
  }

  /** A registration makes the new object the one at its ID, and loses no live object: what it
      replaces, if anything, is a zombie. */
  lemma RegistrationLosesNoLive(o: Objects, id: Word, obj: Obj)
    requires RegisterWithID(o, id, obj).Some?
    ensures var r := RegisterWithID(o, id, obj).value;
            && id in r && r[id] == obj && r.Keys == o.Keys + {id}
            && (id in o ==> o[id].zombie)
            && (forall n :: n in o && n != id ==> r[n] == o[n])
            && (forall n :: Live(o, n) ==> n in r && r[n] == o[n])
  {
  }

  predicate ClientRange(id: Word) {
    0 < id < FIRST_SERVER_ID
  }

  predicate Recyclable(id: Word) {
    1 < id < FIRST_SERVER_ID
  }

  /** The allocator's two fields: the recycled IDs, most recent last, and the counter. */
  datatype Ids = Ids(free: seq<Word>, current: Word)

  /** Deletes an acknowledged ID; an unknown one changes nothing. */
  function DeleteID(o: Objects, ids: Ids, id: Word): (Objects, Ids) {
    if id !in o then (o, ids)
    else (o - {id}, if Recyclable(id) then ids.(free := ids.free + [id]) else ids)
  }

  datatype Allocation = Fresh(id: Word, ids: Ids) | Exhausted(ids: Ids)

  /** Pops recycled IDs until one is not registered. */
  function PopFree(o: Objects, free: seq<Word>): (r: (Option<Word>, seq<Word>))
    ensures r.0.Some? ==> r.0.value in free && r.0.value !in o
    ensures r.1 <= free
  {
    if free == [] then (None, [])
    else
      var cand := free[|free| - 1];
      var rest := free[..|free| - 1];
      if cand !in o then (Some(cand), rest) else PopFree(o, rest)
  }

  /** Advances the counter past registered IDs; None when the client range is used up. */
  function Bump(o: Objects, current: Word): (r: Option<Word>)
    ensures r.Some? ==> current < r.value < FIRST_SERVER_ID && r.value !in o
    decreases FIRST_SERVER_ID - current
  {
    if current >= FIRST_SERVER_ID - 1 then None
    else if current + 1 !in o then Some(current + 1)
    else Bump(o, current + 1)
  }

  /** Recycled IDs first, then the counter. The ID 0 a popped entry might carry counts as none. */
  function Allocate(o: Objects, ids: Ids): (a: Allocation)
    ensures a.Fresh? ==> a.id !in o && a.id != 0
  {
    var (popped, rest) := PopFree(o, ids.free);
    if popped.Some? && popped.value != 0 then Fresh(popped.value, Ids(rest, ids.current))
    else
      var next := Bump(o, ids.current);
      if next.Some? then Fresh(next.value, Ids(rest, next.value))
      else Exhausted(Ids(rest, if ids.current < FIRST_SERVER_ID - 1 then FIRST_SERVER_ID - 1 else ids.current))
  }

  /** What every run keeps: the free stack has no duplicate and no registered ID, and
      the IDs 1 to the counter are exactly the registered client IDs, the free IDs and,
      once it was deleted, the display's. */
  ghost predicate Balanced(o: Objects, ids: Ids) {
    && 0 !in o
    && ids.current < FIRST_SERVER_ID
    && (forall i, j :: 0 <= i < j < |ids.free| ==> ids.free[i] != ids.free[j])
    && (forall n :: n in ids.free ==> n !in o && 1 < n <= ids.current)
    && (forall n :: n in o && n < FIRST_SERVER_ID ==> 1 <= n <= ids.current)
    && (forall n: Word :: 1 <= n <= ids.current ==> n in o || n in ids.free || n == DISPLAY_ID)
  }

  /** The balance after the top of the free stack was reused. */
  lemma PopBalanced(o: Objects, ids: Ids, obj: Obj)
    requires Balanced(o, ids) && ids.free != []
    ensures var top := ids.free[|ids.free| - 1];
            Recyclable(top) && top !in o
            && Balanced(o[top := obj], ids.(free := ids.free[..|ids.free| - 1]))
  {
    var f := ids.free;
    var top, rest := f[|f| - 1], f[..|f| - 1];
    assert top in f;
    assert f == rest + [top];
    forall n | n in rest
      ensures n in f && n != top
    {
      var i :| 0 <= i < |rest| && rest[i] == n;
      assert f[i] == n;
    }
  }

  /** In a balanced state neither loop of the allocation ever goes round twice. */
  lemma AllocateBalanced(o: Objects, ids: Ids, obj: Obj)
    requires Balanced(o, ids)
    ensures Allocate(o, ids) ==
            if ids.free != [] then
              Fresh(ids.free[|ids.free| - 1], ids.(free := ids.free[..|ids.free| - 1]))
            else if ids.current < FIRST_SERVER_ID - 1 then Fresh(ids.current + 1, Ids([], ids.current + 1))
            else Exhausted(ids)
    ensures var a := Allocate(o, ids);
            a.Fresh? ==> ClientRange(a.id) && Balanced(o[a.id := obj], a.ids)
  {
    if ids.free != [] {
      PopBalanced(o, ids, obj);
    } else if ids.current < FIRST_SERVER_ID - 1 {
      assert ids.current + 1 !in o;
      assert Balanced(o[ids.current + 1 := obj], Ids([], ids.current + 1));
    }
  }

  lemma DeleteBalanced(o: Objects, ids: Ids, id: Word)
    requires Balanced(o, ids)
    ensures Balanced(DeleteID(o, ids, id).0, DeleteID(o, ids, id).1)
  {
  }

  /** Anything that leaves the client's part of the map alone keeps the balance. */
  lemma BalancedIgnoresServerIDs(o: Objects, o': Objects, ids: Ids)
    requires Balanced(o, ids)
    requires forall n: Word :: n < FIRST_SERVER_ID ==> (n in o <==> n in o')
    ensures Balanced(o', ids)
  {
  }

  /** The most recently recycled ID is the next one: allocating after an effective deletion gives
      the ID that was deleted, whatever was free before, and the allocator is back where it was. */
  lemma DeletedIsNext(o: Objects, ids: Ids, id: Word)
    requires Balanced(o, ids) && Recyclable(id) && id in o
    ensures var (o', ids') := DeleteID(o, ids, id); Allocate(o', ids') == Fresh(id, ids)
  {
    var (o', ids') := DeleteID(o, ids, id);
    DeleteBalanced(o, ids, id);
    AllocateBalanced(o', ids', Obj(0, false));
  }
}
