/** Runs of insertions after which the ledger of the heap is not that of the objects. */
module TableRuns {
  import opened Database
  import opened Objects
  import opened Table
  import opened ObjectHeap
  import SubaCells
  import Suba
  import Blocks

  const REGION: nat := 8000
  const MINCELL: nat := 1024

  const WHO := Caller(1, false)

  /** A request for an object with so many bytes, two of them in its history. */
  function Named(name: string, size: nat, unique: bool): Request {
    Request(name, 1, 0, size, 0.0, 0.0, 0.0, Flags(false, unique, false, false, false))
  }

  lemma NamedBytes(name: string, size: nat, unique: bool)
    requires size % 2 == 0
    ensures ShapeOf(Named(name, size, unique), 0.0).Bytes() == 2 * size
  {
    var r := Named(name, size, unique);
    AtLeastTwo(0.001, 0.001);
    assert Retention.HistorySize(0.001, 0.001) == 2 by {
      assert 0.001 / 0.001 == 1.0;
    }
    assert size != 0 ==> Slots(r) == 2;
  }

  const INITIAL: seq<Blocks.Cell> := [Blocks.Cell(SubaCells.HDR, REGION - (SubaCells.HDR + SubaCells.POFF), false)]

  lemma RoomAtFirst(size: int)
    requires 0 < size <= MINCELL
    ensures HasRoom(INITIAL, size, MINCELL)
  {
    assert SubaCells.FirstFit(INITIAL, MINCELL, 0) == 0;
  }

  lemma NoRoomBeyond(cells: seq<Blocks.Cell>, region: nat, mincell: nat, size: int)
    requires SubaCells.WellFormed(cells, region, mincell) && size > region
    ensures !HasRoom(cells, size, mincell)
  {
    var k := SubaCells.FirstFit(cells, SubaCells.Need(size, mincell), 0);
    if k < |cells| { SubaCells.CellInRegion(cells, region, mincell, k); }
  }

  /** A new table on a new heap. */
  method NewTable() returns (t: Table)
    ensures fresh(t) && fresh(t.slots) && fresh(t.store) && fresh(t.store.heap) && fresh(t.store.data)
    ensures t.Valid() && t.oidNext == 1 && t.lost == 0 && t.defaultKeep == 0.0
    ensures t.store.heap.size == REGION && t.store.heap.mincell == MINCELL && t.store.heap.cells == INITIAL
    ensures forall i :: 0 <= i < OBJ_MAX ==> !t.slots[i].Occupied()
  {
    var heap := new Suba.Heap(REGION, MINCELL);
    var data := new int[REGION];
    var store := new ObjectHeap(heap, data);
    t := new Table(store, 0.0);
  }

  lemma EmptyTable(s: Entries, r: Request, x: Shape, served: bool, next: int)
    requires |s| == OBJ_MAX && forall i :: 0 <= i < |s| ==> !s[i].Occupied()
    requires served && next > 0
    ensures Verdict(s, served, next, r, x, WHO, 1) == Inserted(next) && Lost(s, served, r, WHO, x.Bytes(), 1) == 0
  {
    assert s[0].oid == 0;
  }

  /** The object inserted forbids another of its name. */
  lemma InsertedClashes(s: Entries, s': Entries, r: Request, r2: Request, x: Shape, oid: int, served: bool)
    requires InsertedAs(s, s', r, x, WHO, 1, oid, served) && oid > 0
    requires r2.name == r.name && r2.otype == r.otype && r.flags.unique
    ensures AnyClash(s', r2)
  {
    var i: int, buffer: nat, place: int :| Choice(s, served, i, buffer, place, WHO, x.Bytes(), 1) && 0 <= i < |s|
      && s' == s[i := Activated(NewInfo(r, x, WHO, 1, buffer), oid)];
    assert Clashes(s'[i], r2);
  }

  lemma NoneReusable(s: Entries, r: Request, bytes: nat)
    requires forall i :: 0 <= i < |s| ==> s[i].oid == 0 || s[i].deleted == 0
    ensures !AnyReusable(s, WHO, bytes, 1)
  {}

  lemma InsertedLives(s: Entries, s': Entries, r: Request, x: Shape, oid: int, served: bool)
    requires InsertedAs(s, s', r, x, WHO, 1, oid, served) && oid > 0
    requires forall i :: 0 <= i < |s| ==> s[i].oid == 0 || s[i].deleted == 0
    ensures forall i :: 0 <= i < |s'| ==> s'[i].oid == 0 || s'[i].deleted == 0
  {}

  /** A second unique object of the same name asks for more memory than there is: it is refused
      for its name, and memory is given back that it did not get. */
  method ClashGivesBackTooMuch() returns (t: Table, res: InsertResult, before: int)
    ensures fresh(t) && t.Valid() && res == NotUniq
    ensures t.lost == -200000 && t.store.used == before - 200000
  {
    t := NewTable();
    InsertFirst(t);
    var r2 := Named("a", 100000, true);
    NamedBytes("a", 100000, true);
    NoneReusable(t.slots[..], r2, 200000);
    NoRoomBeyond(t.store.heap.cells, REGION, MINCELL, 200000);
    before := t.store.used;
    res := t.Insert(r2, WHO, 1);
  }

  method InsertFirst(t: Table)
    requires t.Valid() && t.oidNext == 1 && t.defaultKeep == 0.0 && t.store.heap.mincell == MINCELL
    requires t.store.heap.cells == INITIAL && forall i :: 0 <= i < OBJ_MAX ==> !t.slots[i].Occupied()
    modifies t, t.slots, t.store, t.store.heap, t.store.data
    ensures t.Valid() && t.oidNext == 2 && t.lost == old(t.lost)
    ensures AnyClash(t.slots[..], Named("a", 100000, true))
    ensures forall i :: 0 <= i < OBJ_MAX ==> t.slots[i].oid == 0 || t.slots[i].deleted == 0
  {
    var r := Named("a", 24, true);
    NamedBytes("a", 24, true);
    RoomAtFirst(48);
    ghost var x, s := ShapeOf(r, 0.0), t.slots[..];
    EmptyTable(s, r, x, true, 1);
    var res := t.Insert(r, WHO, 1);
    InsertedClashes(s, t.slots[..], r, Named("a", 100000, true), x, 1, true);
    InsertedLives(s, t.slots[..], r, x, 1, true);
  }

  // ------------------------------------------------------------------- a full table

  /** The first n entries are live, and the others empty. */
  ghost predicate Filled(s: Entries, n: nat) {
    && |s| == OBJ_MAX
    && forall i :: 0 <= i < |s| ==>
         if i < n then s[i].Live() && !s[i].flags.unique else s[i].oid == 0
  }

  const EMPTY_OBJECT := Named("b", 0, false)

  /** An object without data goes to the first empty entry. */
  lemma FillsNext(s: Entries, n: nat, x: Shape, served: bool, next: int)
    requires Filled(s, n) && n < OBJ_MAX && x.Bytes() == 0 && next > 0
    ensures Verdict(s, served, next, EMPTY_OBJECT, x, WHO, 1) == Inserted(next)
    ensures Lost(s, served, EMPTY_OBJECT, WHO, 0, 1) == 0
    ensures forall s' :: InsertedAs(s, s', EMPTY_OBJECT, x, WHO, 1, next, served) ==> Filled(s', n + 1)
  {
    NoneReusable(s, EMPTY_OBJECT, 0);
    assert s[n].oid == 0;
    forall i | FirstEmpty(s, i) ensures i == n {}
  }

  lemma FullIsFull(s: Entries, r: Request, x: Shape, next: int)
    requires Filled(s, OBJ_MAX) && !r.flags.unique && x.Bytes() > 0
    ensures Verdict(s, true, next, r, x, WHO, 1) == NoRoom && Lost(s, true, r, WHO, x.Bytes(), 1) == x.Bytes()
  {
    NoneReusable(s, r, x.Bytes());
  }

  method InsertEmpty(t: Table, ghost n: nat)
    requires t.Valid() && Filled(t.slots[..], n) && n < OBJ_MAX && t.oidNext == n + 1
    requires t.defaultKeep == 0.0
    modifies t, t.slots, t.store, t.store.heap, t.store.data
    ensures t.Valid() && Filled(t.slots[..], n + 1) && t.oidNext == n + 2 && t.lost == old(t.lost)
    ensures t.store.heap.cells == old(t.store.heap.cells)
  {
    NamedBytes("b", 0, false);
    ghost var x, served := ShapeOf(EMPTY_OBJECT, 0.0), t.store.CanServe(0);
    FillsNext(t.slots[..], n, x, served, n + 1);
    var res := t.Insert(EMPTY_OBJECT, WHO, 1);
  }

  /** In a full table the memory of a new object is lost. */
  method FullTableLosesMemory() returns (t: Table, res: InsertResult, before: int)
    ensures fresh(t) && t.Valid() && res == NoRoom && t.lost == 48 && t.store.used == before + 48
  {
    t := NewTable();
    var n := 0;
    while n < OBJ_MAX
      invariant 0 <= n <= OBJ_MAX && t.Valid() && Filled(t.slots[..], n) && t.oidNext == n + 1
      invariant t.lost == 0 && t.store.heap.cells == INITIAL
    {
      InsertEmpty(t, n);
      n := n + 1;
    }
    NamedBytes("b", 24, false);
    RoomAtFirst(48);
    ghost var x := ShapeOf(Named("b", 24, false), 0.0);
    FullIsFull(t.slots[..], Named("b", 24, false), x, t.oidNext);
    before := t.store.used;
    res := t.Insert(Named("b", 24, false), WHO, 1);
  }
}
