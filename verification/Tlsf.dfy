/** The tlsf heap: initialisation, allocation and release. */
module Tlsf {
  import opened Blocks
  import opened TlsfMapping
  import opened TlsfBlocks
  import opened TlsfFreeLists
  import opened TlsfStores
  import TlsfLists

  /** The least whole number of words for a request, and not below the minimal block. */
  function Rounded(size: nat): (r: nat)
    ensures r % 4 == 0
    ensures var least := if size < 12 then 12 else size; least <= r < least + 4
  {
    if size < MIN_BLOCK_SIZE then MIN_BLOCK_SIZE else (size + 3) / 4 * 4
  }

  /** The least block that serves the request. */
  function Need(size: nat): nat {
    SearchSize(Rounded(size))
  }

  /** A request of `size` bytes looks for a block that has them, and exceeds them by less than four
      bytes and a part in 32 of all. */
  lemma NeedBounds(size: nat)
    ensures var least := if size < 12 then 12 else size;
      least <= Need(size) && 32 * Need(size) < 33 * (least + 3)
    ensures size < 125 ==> Need(size) < size + 4 || Need(size) == 12
  {
    SearchSizeBounds(Rounded(size));
  }

  /** The block that is handed out has the bytes asked for, and not many more. */
  lemma HandedOut(blocks: seq<Cell>, size: nat, k: nat)
    requires k < |blocks| && !blocks[k].used && Need(size) <= blocks[k].size
    ensures var c := Take(blocks, BHDR_OVERHEAD, Need(size), SLACK, k)[k];
      && c == Cell(blocks[k].addr, c.size, true) && size <= c.size && 12 <= c.size
      && 32 * (c.size - 15) < 33 * ((if size < 12 then 12 else size) + 3)
  {
    NeedBounds(size);
  }

  /** Block k serves: it is free, big enough, and no block of a lower class is. */
  ghost predicate Chosen(blocks: seq<Cell>, need: nat, k: int) {
    && 0 <= k < |blocks| && !blocks[k].used
    && need <= blocks[k].size
    && forall j :: 0 <= j < |blocks| && !blocks[j].used && need <= blocks[j].size ==>
         ClassOf(blocks[k].size) <= ClassOf(blocks[j].size)
  }

  ghost predicate NoneServes(blocks: seq<Cell>, need: nat) {
    forall k :: 0 <= k < |blocks| && !blocks[k].used ==> blocks[k].size < need
  }

  lemma NoneFits(blocks: seq<Cell>, sentinel: nat, members: map<nat, nat>, fl: nat, sl: nat)
    requires WellFormed(blocks, sentinel) && Listed(blocks, members) && sl < MAX_SLI
    requires TlsfLists.NoneFrom(members, fl * MAX_SLI + sl, CLASSES)
    ensures NoneServes(blocks, LowerBound(fl, sl))
  {
    forall k | 0 <= k < |blocks| && !blocks[k].used ensures blocks[k].size < LowerBound(fl, sl) {
      assert SizeOk(blocks[k]);
      ClassInTables(blocks[k].size);
      ClassAtLeast(blocks[k].size, fl, sl);
    }
  }

  lemma Fits(blocks: seq<Cell>, members: map<nat, nat>, fl: nat, sl: nat, k: nat)
    requires Listed(blocks, members) && sl < MAX_SLI && k < |blocks| && !blocks[k].used
    requires fl * MAX_SLI + sl <= ClassOf(blocks[k].size)
    requires TlsfLists.NoneFrom(members, fl * MAX_SLI + sl, ClassOf(blocks[k].size))
    ensures Chosen(blocks, LowerBound(fl, sl), k)
  {
    ClassAtLeast(blocks[k].size, fl, sl);
    forall j | 0 <= j < |blocks| && !blocks[j].used && LowerBound(fl, sl) <= blocks[j].size
      ensures ClassOf(blocks[k].size) <= ClassOf(blocks[j].size)
    {
      ClassAtLeast(blocks[j].size, fl, sl);
    }
  }

  /** A block that exceeds the request, in whole words, by one part in 32 is always enough. */
  lemma GoodFit(blocks: seq<Cell>, size: nat, k: nat)
    requires k < |blocks| && !blocks[k].used
    requires 32 * blocks[k].size >= 33 * ((if size < 12 then 12 else size) + 3)
    ensures !NoneServes(blocks, Need(size))
  {
    NeedBounds(size);
    assert blocks[k].size >= Need(size);
  }

  /** Freeing the block just allocated gives back the identical blocks. */
  lemma MallocThenFree(blocks: seq<Cell>, sentinel: nat, need: nat, k: nat)
    requires WellFormed(blocks, sentinel) && k < |blocks| && !blocks[k].used
    requires need % 4 == 0 && MIN_BLOCK_SIZE <= need <= blocks[k].size
    ensures var blocks' := Take(blocks, BHDR_OVERHEAD, need, SLACK, k);
      var j := Find(blocks', blocks[k].addr);
      j < |blocks'| && Release(blocks', BHDR_OVERHEAD, j) == blocks
  {
    var blocks' := Take(blocks, BHDR_OVERHEAD, need, SLACK, k);
    WellFormedTake(blocks, sentinel, need, k);
    FindUnique(blocks', BHDR_OVERHEAD, FIRST, sentinel + BHDR_OVERHEAD, k);
    TakeThenRelease(blocks, BHDR_OVERHEAD, need, SLACK, k);
  }

  lemma OneOfTwoUsed(blocks: seq<Cell>) returns (i: nat)
    requires Coalesced(blocks) && |blocks| > 2
    ensures i < |blocks| - 1 && blocks[i].used
  {
    i := if blocks[0].used then 0 else 1;
  }

  lemma NothingLive(blocks: seq<Cell>, sentinel: nat)
    requires WellFormed(blocks, sentinel)
    requires forall a :: a in LiveAddrs(blocks) ==> a == sentinel
    ensures FIRST + BHDR_OVERHEAD <= sentinel && blocks == Initial(sentinel - FIRST - BHDR_OVERHEAD)
  {
    LiveAddrsMember(blocks);
    CellsAscend(blocks, BHDR_OVERHEAD, FIRST, sentinel + BHDR_OVERHEAD, 0, |blocks| - 1);
    if |blocks| > 2 {
      var i := OneOfTwoUsed(blocks);
      CellsAscend(blocks, BHDR_OVERHEAD, FIRST, sentinel + BHDR_OVERHEAD, i, |blocks| - 1);
    }
  }

  /** The live blocks are freed in this order. */
  ghost predicate ListsLive(order: seq<nat>, blocks: seq<Cell>, sentinel: nat) {
    && (forall i, j :: 0 <= i < j < |order| ==> order[i] != order[j])
    && (forall a :: a in order <==> a in LiveAddrs(blocks) && a != sentinel)
  }

  lemma FirstFreed(blocks: seq<Cell>, sentinel: nat, order: seq<nat>, i: nat)
    requires WellFormed(blocks, sentinel) && order != [] && ListsLive(order, blocks, sentinel)
    requires i < |blocks| && blocks[i].used && blocks[i].addr == order[0] != sentinel
    ensures WellFormed(Release(blocks, BHDR_OVERHEAD, i), sentinel)
    ensures ListsLive(order[1..], Release(blocks, BHDR_OVERHEAD, i), sentinel)
    ensures Find(blocks, order[0]) == i
  {
    FindUnique(blocks, BHDR_OVERHEAD, FIRST, sentinel + BHDR_OVERHEAD, i);
    WellFormedRelease(blocks, sentinel, i);
    ReleaseLiveAddrs(blocks, BHDR_OVERHEAD, FIRST, sentinel + BHDR_OVERHEAD, i);
    assert order == [order[0]] + order[1..];
    assert forall a :: a in order[1..] <==> a in order && a != order[0];
  }

  /** Freeing every live block, in whatever order, leaves the pool as it was initialised. */
  lemma {:induction false} FreeAllRestores(blocks: seq<Cell>, sentinel: nat, order: seq<nat>)
    requires WellFormed(blocks, sentinel) && ListsLive(order, blocks, sentinel)
    ensures FIRST + BHDR_OVERHEAD <= sentinel
    ensures ReleaseAll(blocks, BHDR_OVERHEAD, order) == Initial(sentinel - FIRST - BHDR_OVERHEAD)
    decreases |order|
  {
    if order == [] {
      NothingLive(blocks, sentinel);
    } else {
      assert order[0] in order;
      var i :| 0 <= i < |blocks| && blocks[i].used && blocks[i].addr == order[0];
      FirstFreed(blocks, sentinel, order, i);
      FreeAllRestores(Release(blocks, BHDR_OVERHEAD, i), sentinel, order[1..]);
    }
  }

  /** p was handed out and not freed. */
  ghost predicate LiveAt(blocks: seq<Cell>, p: nat) {
    exists k :: 0 <= k < |blocks| - 1 && blocks[k].used && p == blocks[k].addr + BUFFER
  }

  lemma BecomesLive(blocks: seq<Cell>, sentinel: nat, need: nat, k: nat)
    requires WellFormed(blocks, sentinel) && k < |blocks| && !blocks[k].used
    ensures !LiveAt(blocks, blocks[k].addr + BUFFER)
    ensures LiveAt(Take(blocks, BHDR_OVERHEAD, need, SLACK, k), blocks[k].addr + BUFFER)
  {
    AddrsDiffer(blocks, BHDR_OVERHEAD, FIRST, sentinel + BHDR_OVERHEAD, k);
    var blocks' := Take(blocks, BHDR_OVERHEAD, need, SLACK, k);
    assert blocks'[k].used && blocks'[k].addr == blocks[k].addr;
  }

  /** The note of a block in use may hold anything. */
  lemma NoteOfUsed(blocks: seq<Cell>, sentinel: nat, tags: Tags, prevs: PrevHdrs, prevs': PrevHdrs, k: nat, last: nat)
    requires WellFormed(blocks, sentinel) && Headers(blocks, tags, prevs)
    requires k < |blocks| - 1 && blocks[k].used && prevs' == prevs[blocks[k + 1].addr := last]
    ensures Headers(blocks, tags, prevs')
    ensures blocks[k + 1].addr == blocks[k].addr + BHDR_OVERHEAD + blocks[k].size
  {
    AddrsDiffer(blocks, BHDR_OVERHEAD, FIRST, sentinel + BHDR_OVERHEAD, k + 1);
    forall j | 0 <= j < |blocks| ensures HeaderAt(blocks, tags, prevs', j) {
      assert HeaderAt(blocks, tags, prevs, j);
    }
  }

  /** What is known of the block after block k. */
  lemma NextBlock(blocks: seq<Cell>, sentinel: nat, tags: Tags, prevs: PrevHdrs, members: map<nat, nat>, k: nat)
    requires WellFormed(blocks, sentinel) && Headers(blocks, tags, prevs) && Listed(blocks, members)
    requires k + 1 < |blocks| && blocks[k].used
    ensures var c := blocks[k + 1];
      && c.addr == blocks[k].End(BHDR_OVERHEAD) && c.addr != blocks[k].addr && c.addr in tags
      && tags[c.addr].size == c.size && tags[c.addr].free == JoinsRight(blocks, k)
      && (JoinsRight(blocks, k) ==> c.size < TOO_BIG && c.addr in members && members[c.addr] == ClassOf(c.size))
  {
    assert HeaderAt(blocks, tags, prevs, k + 1);
    assert k + 1 < |blocks| - 1 ==> SizeOk(blocks[k + 1]);
  }

  class Pool {
    const lists: FreeLists
    var tags: Tags
    /** Where the free block before starts; it means something only if there is one. */
    var prevs: PrevHdrs

    /** All blocks in address order, the sentinel included. */
    ghost var blocks: seq<Cell>
    ghost const sentinel: nat

    ghost predicate Valid()
      reads this, lists, lists.rows, lists.matrix
    {
      && lists.Valid()
      && WellFormed(blocks, sentinel)
      && Headers(blocks, tags, prevs)
      && Listed(blocks, lists.members)
    }

    constructor (size: nat)
      requires 120 <= size < TOO_BIG && size % 4 == 0
      ensures Valid() && fresh(lists) && fresh(lists.rows) && fresh(lists.matrix)
      ensures blocks == Initial(size)
    {
      lists := new FreeLists();
      var b := SIZEOF_TLSF - 4;
      var last := b + BUFFER + size - 4;
      tags := map[b := Tag(size, true, false), last := Tag(0, false, true)];
      prevs := map[last := b];
      sentinel := last;
      blocks := Initial(size);
      new;
      var fl, sl := MappingInsert(size + 1);
      FlagIgnored(size);
      lists.Insert(b, fl, sl);
      InitialOk(size, tags, prevs, lists.members);
    }

    /** init_memory_pool: the size of the single free block, or -1. */
    static method Init(poolSize: nat, base: nat) returns (ret: int, pool: Pool?)
      ensures ret >= 0 <==> base != 0 && base % 4 == 0 && SIZEOF_TLSF + 128 <= poolSize < SIZEOF_TLSF + 8 + TOO_BIG
      ensures ret >= 0 <==> pool != null
      ensures ret >= 0 ==> ret % 4 == 0 && poolSize - 4 < SIZEOF_TLSF + 8 + ret <= poolSize
      ensures pool != null ==> fresh(pool) && pool.Valid() && pool.blocks == Initial(ret)
    {
      if base == 0 || poolSize == 0 || poolSize < SIZEOF_TLSF + 128 { return -1, null; }
      if base % 4 != 0 { return -1, null; }
      ret := (poolSize - SIZEOF_TLSF - 2 * BHDR_OVERHEAD) / 4 * 4;
      // the size word has the free flag set
      if ret + 1 > TOO_BIG { return -1, null; }
      pool := new Pool(ret);
    }

    ghost predicate Live(p: nat)
      reads this
    {
      LiveAt(blocks, p)
    }

    method Malloc(size: nat) returns (p: nat)
      requires Valid() && Rounded(size) <= LARGEST_REQUEST
      modifies this, lists, lists.rows, lists.matrix
      ensures Valid()
      ensures p == 0 ==> blocks == old(blocks) && NoneServes(blocks, Need(size))
      ensures p == 0 ==> forall j :: 0 <= j < |blocks| && !blocks[j].used ==>
        32 * blocks[j].size < 33 * ((if size < 12 then 12 else size) + 3)
      ensures p != 0 ==> exists k ::
        (Chosen(old(blocks), Need(size), k) && p == old(blocks)[k].addr + BUFFER
         && blocks == Take(old(blocks), BHDR_OVERHEAD, Need(size), SLACK, k)
         && blocks[k].used && size <= blocks[k].size
         && 32 * (blocks[k].size - 15) < 33 * ((if size < 12 then 12 else size) + 3))
      ensures p != 0 ==> Live(p) && !old(Live(p))
      ensures StoresSpare(old(blocks), -1, old(tags), tags, old(prevs), prevs, old(lists.links), lists.links)
    {
      var want, fl, sl := MappingSearch(Rounded(size));
      LowerBoundAligned(fl, sl);
      var b, fl', sl' := lists.FindSuitable(fl, sl);
      if b == 0 {
        NoneFits(blocks, sentinel, lists.members, fl, sl);
        NeedBounds(size);
        return 0;
      }
      ghost var k :| FreeAt(blocks, b, k);
      Fits(blocks, lists.members, fl, sl, k);
      Serve(b, want, fl', sl', k);
      p := b + BUFFER;
      BecomesLive(old(blocks), sentinel, want, k);
      HandedOut(old(blocks), size, k);
    }

    /** malloc_ex after it has found block b. */
    method Serve(b: nat, want: nat, fl: nat, sl: nat, ghost k: nat)
      requires Valid() && FreeAt(blocks, b, k)
      requires want % 4 == 0 && MIN_BLOCK_SIZE <= want <= blocks[k].size
      requires fl < REAL_FLI && sl < MAX_SLI && TlsfLists.At(lists.lists[fl * MAX_SLI + sl], 0) == b != 0
      modifies this, lists, lists.rows, lists.matrix
      ensures Valid() && blocks == Take(old(blocks), BHDR_OVERHEAD, want, SLACK, k)
      ensures StoresSpare(old(blocks), -1, old(tags), tags, old(prevs), prevs, old(lists.links), lists.links)
    {
      MembersInRoom(blocks, sentinel, lists.members, -1);
      ghost var blocks0, tags0, prevs0, links0, l := blocks, tags, prevs, lists.links, lists.members.Keys;
      StoreServe(b, want, fl, sl, k);
      ServeSpares(blocks0, l, k, want, tags0, tags, prevs0, prevs, links0, lists.links);
    }

    method StoreServe(b: nat, want: nat, fl: nat, sl: nat, ghost k: nat)
      requires Valid() && FreeAt(blocks, b, k)
      requires want % 4 == 0 && MIN_BLOCK_SIZE <= want <= blocks[k].size
      requires fl < REAL_FLI && sl < MAX_SLI && TlsfLists.At(lists.lists[fl * MAX_SLI + sl], 0) == b != 0
      modifies this, lists, lists.rows, lists.matrix
      ensures Valid() && blocks == Take(old(blocks), BHDR_OVERHEAD, want, SLACK, k)
      ensures k + 1 < |old(blocks)|
      ensures ServeStores(old(blocks), k, want, old(lists.members).Keys, old(tags), tags, old(prevs), prevs,
                          old(lists.links), lists.links)
    {
      ghost var blocks0, members0, tags0, prevs0, links0 := blocks, lists.members, tags, prevs, lists.links;
      ServedBlock(blocks, sentinel, tags, prevs, members0, k, want);
      lists.ExtractHead(b, fl, sl);
      ghost var links1 := lists.links;
      TakeBlock(b, want, k);
      ServeStoresMore(blocks0, k, want, members0.Keys - {b}, members0.Keys, tags0, tags, prevs0, prevs,
                      links0, links1, lists.links);
      ServedOk(blocks0, sentinel, members0, k, want, blocks, lists.members);
    }

    /** The block that has left its list is split, or used whole. */
    method TakeBlock(b: nat, want: nat, ghost k: nat)
      requires lists.Valid() && Takeable(blocks, sentinel, tags, prevs, lists.members, k, want) && b == blocks[k].addr
      modifies this, lists, lists.rows, lists.matrix
      ensures blocks == Take(old(blocks), BHDR_OVERHEAD, want, SLACK, k)
      ensures lists.Valid() && Headers(blocks, tags, prevs)
      ensures lists.members == TakenMembers(old(blocks), old(lists.members), k, want)
      ensures ServeStores(old(blocks), k, want, old(lists.members).Keys, old(tags), tags, old(prevs), prevs,
                          old(lists.links), lists.links)
    {
      var tmpSize: int := tags[b].size - want - BHDR_OVERHEAD;
      if tmpSize >= MIN_BLOCK_SIZE {
        SplitOff(b, want, tmpSize, k);
      } else {
        ghost var blocks0 := blocks;
        UseWhole(b, k);
        assert blocks == Take(blocks0, BHDR_OVERHEAD, want, SLACK, k);
      }
    }

    method UseWhole(b: nat, ghost k: nat)
      requires Tiles(blocks, BHDR_OVERHEAD, FIRST, sentinel + BHDR_OVERHEAD) && Headers(blocks, tags, prevs)
      requires k + 1 < |blocks| && !blocks[k].used && b == blocks[k].addr
      requires b in tags && tags[b].size == blocks[k].size && blocks[k + 1].addr in tags
      modifies this`tags, this`blocks
      ensures blocks == old(blocks)[k := old(blocks)[k].(used := true)]
      ensures TlsfLists.Only(old(tags), tags, {b, old(blocks)[k + 1].addr})
      ensures Headers(blocks, tags, prevs)
    {
      ghost var blocks0, tags0 := blocks, tags;
      var next := b + BUFFER + tags[b].size - 4;
      assert blocks[k].End(BHDR_OVERHEAD) == blocks[k + 1].addr;
      tags := tags[next := tags[next].(prevFree := false)];
      tags := tags[b := tags[b].(free := false)];
      blocks := blocks[k := blocks[k].(used := true)];
      HeadersWhole(blocks0, sentinel + BHDR_OVERHEAD, tags0, prevs, tags, k, blocks);
    }

    method StoreSplit(b: nat, want: nat, tmpSize: nat)
      requires b in tags && tags[b].size == want + BHDR_OVERHEAD + tmpSize
      modifies this`tags, this`prevs
      ensures SplitInTwo(old(tags), old(prevs), tags, prevs, b, want, tmpSize)
      ensures TlsfLists.Only(old(tags), tags, {b, b + BHDR_OVERHEAD + want})
      ensures TlsfLists.Only(old(prevs), prevs, {b + 2 * BHDR_OVERHEAD + want + tmpSize})
    {
      var next := b + BUFFER + tags[b].size - 4;
      var b2 := b + BUFFER + want - 4;
      tags := tags[b2 := Tag(tmpSize, true, false)];
      prevs := prevs[next := b2];
      tags := tags[b := Tag(want, true, tags[b].prevFree)];
      tags := tags[b := tags[b].(free := false)];
    }

    method SplitOff(b: nat, want: nat, tmpSize: nat, ghost k: nat)
      requires lists.Valid() && Tiles(blocks, BHDR_OVERHEAD, FIRST, sentinel + BHDR_OVERHEAD)
      requires Headers(blocks, tags, prevs) && k + 1 < |blocks| && !blocks[k].used && b == blocks[k].addr
      requires b in tags && tags[b].size == blocks[k].size == want + BHDR_OVERHEAD + tmpSize
      requires MIN_BLOCK_SIZE <= tmpSize < TOO_BIG && b + BHDR_OVERHEAD + want !in lists.members
      modifies this, lists, lists.rows, lists.matrix
      ensures blocks == Take(old(blocks), BHDR_OVERHEAD, want, SLACK, k)
      ensures lists.Valid() && Headers(blocks, tags, prevs)
      ensures lists.members == old(lists.members)[b + BHDR_OVERHEAD + want := ClassOf(tmpSize)]
      ensures TlsfLists.Only(old(tags), tags, {b, b + BHDR_OVERHEAD + want})
      ensures TlsfLists.Only(old(prevs), prevs, {old(blocks)[k + 1].addr})
      ensures TlsfLists.Only(old(lists.links), lists.links, old(lists.members).Keys + {b + BHDR_OVERHEAD + want})
    {
      ghost var blocks0, tags0, prevs0 := blocks, tags, prevs;
      assert blocks[k].End(BHDR_OVERHEAD) == blocks[k + 1].addr;
      ListSecond(b, want, tmpSize);
      blocks := Take(blocks0, BHDR_OVERHEAD, want, SLACK, k);
      HeadersSplit(blocks0, sentinel + BHDR_OVERHEAD, tags0, prevs0, tags, prevs, k, want, blocks);
    }

    /** The stores of a split, and the second part is listed. */
    method ListSecond(b: nat, want: nat, tmpSize: nat)
      requires lists.Valid() && b in tags && tags[b].size == want + BHDR_OVERHEAD + tmpSize && tmpSize < TOO_BIG
      requires b + BHDR_OVERHEAD + want !in lists.members
      modifies this`tags, this`prevs, lists, lists.rows, lists.matrix
      ensures lists.Valid()
      ensures lists.members == old(lists.members)[b + BHDR_OVERHEAD + want := ClassOf(tmpSize)]
      ensures TlsfLists.Only(old(lists.links), lists.links, old(lists.members).Keys + {b + BHDR_OVERHEAD + want})
      ensures SplitInTwo(old(tags), old(prevs), tags, prevs, b, want, tmpSize)
      ensures TlsfLists.Only(old(tags), tags, {b, b + BHDR_OVERHEAD + want})
      ensures TlsfLists.Only(old(prevs), prevs, {b + 2 * BHDR_OVERHEAD + want + tmpSize})
    {
      StoreSplit(b, want, tmpSize);
      var fl, sl := MappingInsert(tmpSize);
      lists.Insert(b + BUFFER + want - 4, fl, sl);
    }

    /** The user of a live block writes over it.  Its first two words are where a free block
        has its links, and its last is the note that the next block keeps of a free block
        before it. */
    method UserStore(p: nat, link: TlsfLists.Link, last: nat)
      requires Valid() && Live(p)
      modifies this`prevs, lists`links
      ensures Valid() && blocks == old(blocks)
    {
      ghost var k :| 0 <= k < |blocks| - 1 && blocks[k].used && p == blocks[k].addr + BUFFER;
      UsedNotListed(blocks, sentinel, lists.members, k);
      assert HeaderAt(blocks, tags, prevs, k);
      lists.Overwrite(p - BUFFER, link);
      var next := p + tags[p - BUFFER].size - 4;
      ghost var prevs0 := prevs;
      assert blocks[k].End(BHDR_OVERHEAD) == blocks[k + 1].addr;
      prevs := prevs[next := last];
      NoteOfUsed(blocks, sentinel, tags, prevs0, prevs, k, last);
    }

    method Free(p: nat)
      requires Valid() && Live(p)
      modifies this, lists, lists.rows, lists.matrix
      ensures Valid()
      ensures exists k ::
        (0 <= k < |old(blocks)| - 1 && old(blocks)[k].used && p == old(blocks)[k].addr + BUFFER
         && blocks == Release(old(blocks), BHDR_OVERHEAD, k)
         && StoresSpare(old(blocks), k, old(tags), tags, old(prevs), prevs, old(lists.links), lists.links))
    {
      ghost var k :| 0 <= k < |blocks| - 1 && blocks[k].used && p == blocks[k].addr + BUFFER;
      ReleaseBlock(p - BUFFER, k);
    }

    method ReleaseBlock(b0: nat, ghost k: nat)
      requires Valid() && k + 1 < |blocks| && blocks[k].used && b0 == blocks[k].addr
      modifies this, lists, lists.rows, lists.matrix
      ensures Valid() && blocks == Release(old(blocks), BHDR_OVERHEAD, k)
      ensures StoresSpare(old(blocks), k, old(tags), tags, old(prevs), prevs, old(lists.links), lists.links)
    {
      MembersInRoom(blocks, sentinel, lists.members, k);
      ghost var blocks0, tags0, prevs0, links0, l := blocks, tags, prevs, lists.links, lists.members.Keys;
      StoreRelease(b0, k);
      ReleaseSpares(blocks0, sentinel, l, k, tags0, tags, prevs0, prevs, links0, lists.links);
    }

    method StoreRelease(b0: nat, ghost k: nat)
      requires Valid() && k + 1 < |blocks| && blocks[k].used && b0 == blocks[k].addr
      modifies this, lists, lists.rows, lists.matrix
      ensures Valid() && blocks == Release(old(blocks), BHDR_OVERHEAD, k)
      ensures MergeEnd(old(blocks), k) < |old(blocks)|
      ensures var m, next := old(blocks)[MergeStart(old(blocks), k)].addr, old(blocks)[MergeEnd(old(blocks), k)].addr;
        && TlsfLists.Only(old(tags), tags, {b0, m, next}) && TlsfLists.Only(old(prevs), prevs, {next})
        && TlsfLists.Only(old(lists.links), lists.links, old(lists.members).Keys + {b0})
    {
      ghost var tags0, prevs0, members0, links0 := tags, prevs, lists.members, lists.links;
      MergedBlock(blocks, sentinel, k);
      MergedNotListed(blocks, sentinel, members0, k);
      var b := Absorb(b0, k);
      ghost var joined, links1, all := tags, lists.links, members0.Keys + {b0};
      ghost var next := blocks[MergeEnd(blocks, k)].addr;
      assert HeaderAt(blocks, tags0, prevs, MergeEnd(blocks, k));
      ListMerged(b, next);
      TlsfLists.OnlyThen(links0, links1, lists.links, all, all, all);
      TlsfLists.OnlyThen(tags0, joined, tags, {b0, b}, {next}, {b0, b, next});
      MergedBy(blocks, k, tags0, prevs0, joined, tags, prevs, b, next);
      ReleaseOk(blocks, sentinel, tags0, prevs0, members0, tags, prevs, lists.members, k,
                Release(blocks, BHDR_OVERHEAD, k));
      blocks := Release(blocks, BHDR_OVERHEAD, k);
    }

    /** The block is marked as free, and joined with its free neighbours, which leave their
        lists. */
    method Absorb(b0: nat, ghost k: nat) returns (b: nat)
      requires Valid() && k + 1 < |blocks| && blocks[k].used && b0 == blocks[k].addr
      modifies this`tags, lists, lists.rows, lists.matrix
      ensures lists.Valid() && lists.members == Extracted(blocks, old(lists.members), k)
      ensures b == blocks[MergeStart(blocks, k)].addr
      ensures b in tags && tags[b] == Tag(MergedSize(blocks, BHDR_OVERHEAD, k), true, false)
      ensures forall x :: x in old(tags) && x != b0 && x != b ==> x in tags && tags[x] == old(tags)[x]
      ensures TlsfLists.Only(old(tags), tags, {b0, b})
      ensures TlsfLists.Only(old(lists.links), lists.links, old(lists.members).Keys + {b0})
    {
      ghost var tags0, links0, s := tags, lists.links, lists.members.Keys;
      MarkFree(b0, k);
      b := b0;
      ghost var links1 := lists.links;
      AbsorbNext(b, k, tags0);
      ghost var links2 := lists.links;
      b := AbsorbPrevious(b, k, tags0, tags[b].size);
      ThreeLinks(links0, links1, links2, lists.links, {b0}, s, s + {b0});
    }

    method MarkFree(b: nat, ghost k: nat)
      requires Valid() && k + 1 < |blocks| && blocks[k].used && b == blocks[k].addr
      modifies this`tags, lists`links
      ensures Releasing(k, old(tags), blocks[k].size)
      ensures TlsfLists.Only(old(lists.links), lists.links, {b})
    {
      UsedNotListed(blocks, sentinel, lists.members, k);
      assert HeaderAt(blocks, tags, prevs, k);
      tags := tags[b := tags[b].(free := true)];
      lists.Overwrite(b, TlsfLists.Link(0, 0));
    }

    static lemma ThreeLinks(m: TlsfLists.Links, m1: TlsfLists.Links, m2: TlsfLists.Links, m3: TlsfLists.Links,
                            b: set<nat>, s: set<nat>, all: set<nat>)
      requires TlsfLists.Only(m, m1, b) && TlsfLists.Only(m1, m2, s) && TlsfLists.Only(m2, m3, s) && b <= all
        && s <= all
      ensures TlsfLists.Only(m, m3, all)
    {
      TlsfLists.OnlyThen(m, m1, m2, b, s, all);
      TlsfLists.OnlyThen(m, m2, m3, all, s, all);
    }

    ghost predicate Releasing(k: nat, tags0: Tags, bytes: nat)
      reads this, lists, lists.rows, lists.matrix
    {
      && lists.Valid()
      && WellFormed(blocks, sentinel)
      && Headers(blocks, tags0, prevs)
      && k + 1 < |blocks| && blocks[k].used
      && blocks[k].addr in tags0
      && tags == tags0[blocks[k].addr := Tag(bytes, true, JoinsLeft(blocks, k))]
    }

    /** The block after b, if free, is taken out of its list and joined to b. */
    method AbsorbNext(b: nat, ghost k: nat, ghost tags0: Tags)
      requires k < |blocks| && Releasing(k, tags0, blocks[k].size) && b == blocks[k].addr
        && Listed(blocks, lists.members)
      modifies this`tags, lists, lists.rows, lists.matrix
      ensures Releasing(k, tags0, blocks[k].size +
                        if JoinsRight(blocks, k) then blocks[k + 1].size + BHDR_OVERHEAD else 0)
      ensures lists.members ==
        if JoinsRight(blocks, k) then old(lists.members) - {blocks[k + 1].addr} else old(lists.members)
      ensures TlsfLists.Only(old(lists.links), lists.links, old(lists.members).Keys)
    {
      var next := b + BUFFER + tags[b].size - 4;
      NextBlock(blocks, sentinel, tags0, prevs, lists.members, k);
      if tags[next].free {
        var fl, sl := MappingInsert(tags[next].size);
        lists.Extract(next, fl, sl);
        tags := tags[b := tags[b].(size := tags[b].size + tags[next].size + BHDR_OVERHEAD)];
      }
    }

    /** The block before b, if free, is taken out of its list, and b is joined to it. */
    method AbsorbPrevious(b: nat, ghost k: nat, ghost tags0: Tags, ghost bytes: nat) returns (b': nat)
      requires Releasing(k, tags0, bytes) && b == blocks[k].addr
      requires JoinsLeft(blocks, k) ==>
        blocks[k - 1].addr in lists.members && lists.members[blocks[k - 1].addr] == ClassOf(blocks[k - 1].size)
      modifies this`tags, lists, lists.rows, lists.matrix
      ensures lists.Valid() && b' == blocks[MergeStart(blocks, k)].addr
      ensures lists.members ==
        if JoinsLeft(blocks, k) then old(lists.members) - {blocks[k - 1].addr} else old(lists.members)
      ensures TlsfLists.Only(old(lists.links), lists.links, old(lists.members).Keys)
      ensures tags == if JoinsLeft(blocks, k)
        then old(tags)[b' := Tag(blocks[k - 1].size + bytes + BHDR_OVERHEAD, true, false)] else old(tags)
    {
      b' := b;
      if tags[b].prevFree {
        assert HeaderAt(blocks, tags0, prevs, k) && HeaderAt(blocks, tags0, prevs, k - 1);
        assert SizeOk(blocks[k - 1]);
        var before := prevs[b];
        var fl, sl := MappingInsert(tags[before].size);
        lists.Extract(before, fl, sl);
        tags := tags[before := tags[before].(size := tags[before].size + tags[b].size + BHDR_OVERHEAD)];
        b' := before;
      }
    }

    /** The merged block is listed, and the block after it told. */
    method ListMerged(b: nat, ghost next0: nat)
      requires lists.Valid() && b in tags && tags[b].size < TOO_BIG && b != 0 && b !in lists.members
      requires next0 == b + BHDR_OVERHEAD + tags[b].size && next0 in tags
      modifies this`tags, this`prevs, lists, lists.rows, lists.matrix
      ensures lists.Valid() && lists.members == old(lists.members)[b := ClassOf(old(tags)[b].size)]
      ensures TlsfLists.Only(old(lists.links), lists.links, old(lists.members).Keys + {b})
      ensures tags == old(tags)[next0 := old(tags)[next0].(prevFree := true)] && prevs == old(prevs)[next0 := b]
    {
      var fl, sl := MappingInsert(tags[b].size);
      lists.Insert(b, fl, sl);
      var next := b + BUFFER + tags[b].size - 4;
      tags := tags[next := tags[next].(prevFree := true)];
      prevs := prevs[next := b];
    }
  }
}
