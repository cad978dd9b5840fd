/** The block headers of the tlsf allocator: each records its size, whether it is free and
    whether the block before it is free, and then where that block starts.  A used block of
    size 0 stands at the end of the pool. */
module TlsfBlocks {
  import opened Blocks
  import opened TlsfMapping

  /** The size word: its two lowest bits are flags. */
  datatype Tag = Tag(size: nat, free: bool, prevFree: bool)

  type Tags = map<nat, Tag>
  type PrevHdrs = map<nat, nat>

  const BHDR_OVERHEAD: nat := 4
  const MIN_BLOCK_SIZE: nat := 12
  /** From a block to the memory handed out. */
  const BUFFER: nat := 8
  const SIZEOF_TLSF: nat := 3176
  const FIRST: nat := SIZEOF_TLSF - 4
  /** A remainder of at most this many bytes, with its header, is not split off. */
  const SLACK: nat := MIN_BLOCK_SIZE - 1

  ghost predicate HeaderAt(blocks: seq<Cell>, tags: Tags, prevs: PrevHdrs, k: nat)
    requires k < |blocks|
  {
    var c := blocks[k];
    && c.addr in tags
    && tags[c.addr] == Tag(c.size, !c.used, JoinsLeft(blocks, k))
    && (JoinsLeft(blocks, k) ==> c.addr in prevs && prevs[c.addr] == blocks[k - 1].addr)
  }

  ghost predicate Headers(blocks: seq<Cell>, tags: Tags, prevs: PrevHdrs) {
    forall k {:trigger HeaderAt(blocks, tags, prevs, k)} :: 0 <= k < |blocks| ==> HeaderAt(blocks, tags, prevs, k)
  }

  ghost predicate FreeAt(blocks: seq<Cell>, a: nat, k: int) {
    0 <= k < |blocks| && !blocks[k].used && blocks[k].addr == a
  }

  /** Exactly the free blocks are members, each in the class of its size. */
  ghost predicate Listed(blocks: seq<Cell>, members: map<nat, nat>) {
    && (forall k :: 0 <= k < |blocks| && !blocks[k].used ==>
          blocks[k].addr in members && members[blocks[k].addr] == ClassOf(blocks[k].size))
    && (forall a :: a in members ==> exists k :: FreeAt(blocks, a, k))
  }

  ghost predicate SizeOk(c: Cell) {
    MIN_BLOCK_SIZE <= c.size < TOO_BIG && c.size % 4 == 0
  }

  ghost predicate WellFormed(blocks: seq<Cell>, sentinel: nat) {
    && Tiles(blocks, BHDR_OVERHEAD, FIRST, sentinel + BHDR_OVERHEAD)
    && Coalesced(blocks)
    && |blocks| > 1
    && blocks[|blocks| - 1] == Cell(sentinel, 0, true)
    && sentinel <= FIRST + TOO_BIG
    && forall k :: 0 <= k < |blocks| - 1 ==> SizeOk(blocks[k])
  }

  /** One free block and the sentinel. */
  function Initial(size: nat): seq<Cell> {
    [Cell(FIRST, size, false), Cell(FIRST + BHDR_OVERHEAD + size, 0, true)]
  }

  lemma InitialOk(size: nat, tags: Tags, prevs: PrevHdrs, members: map<nat, nat>)
    requires MIN_BLOCK_SIZE <= size < TOO_BIG && size % 4 == 0
    requires var last := FIRST + BHDR_OVERHEAD + size;
      && FIRST in tags && tags[FIRST] == Tag(size, true, false)
      && last in tags && tags[last] == Tag(0, false, true)
      && last in prevs && prevs[last] == FIRST
    requires members == map[FIRST := ClassOf(size)]
    ensures WellFormed(Initial(size), FIRST + BHDR_OVERHEAD + size)
    ensures Headers(Initial(size), tags, prevs) && Listed(Initial(size), members)
  {
    var blocks := Initial(size);
    assert HeaderAt(blocks, tags, prevs, 0) && HeaderAt(blocks, tags, prevs, 1);
    assert FreeAt(blocks, FIRST, 0);
  }

  // ------------------------------------------------------------------- addresses

  lemma NotInside(blocks: seq<Cell>, h: nat, lo: nat, region: nat, k: nat, a: nat, j: nat)
    requires Tiles(blocks, h, lo, region) && k < |blocks| && j < |blocks|
    requires blocks[k].addr < a < blocks[k].End(h)
    ensures blocks[j].addr != a
  {
    if j < k { CellsAscend(blocks, h, lo, region, j, k); }
    if k < j { CellsAscend(blocks, h, lo, region, k, j); }
  }

  /** A block's header depends only on itself and the block before. */
  lemma SameHeader(blocks: seq<Cell>, tags: Tags, prevs: PrevHdrs, k: nat,
                   blocks': seq<Cell>, tags': Tags, prevs': PrevHdrs, k': nat)
    requires k < |blocks| && k' < |blocks'| && HeaderAt(blocks, tags, prevs, k)
    requires blocks'[k'] == blocks[k] && JoinsLeft(blocks', k') == JoinsLeft(blocks, k)
    requires JoinsLeft(blocks, k) ==> blocks'[k' - 1].addr == blocks[k - 1].addr
    requires blocks[k].addr in tags' && tags'[blocks[k].addr] == tags[blocks[k].addr]
    requires blocks[k].addr in prevs ==> blocks[k].addr in prevs' && prevs'[blocks[k].addr] == prevs[blocks[k].addr]
    ensures HeaderAt(blocks', tags', prevs', k')
  {}

  // ------------------------------------------------------------------ allocation

  /** The stores when a block is used as a whole. */
  ghost predicate UsedWhole(tags: Tags, tags': Tags, b: nat, next: nat) {
    && b in tags && b in tags' && tags'[b] == tags[b].(free := false)
    && next in tags && next in tags' && tags'[next] == tags[next].(prevFree := false)
    && forall x :: x in tags && x != b && x != next ==> x in tags' && tags'[x] == tags[x]
  }

  lemma HeadersWhole(blocks: seq<Cell>, region: nat, tags: Tags, prevs: PrevHdrs, tags': Tags, k: nat,
                     blocks': seq<Cell>)
    requires Tiles(blocks, BHDR_OVERHEAD, FIRST, region) && Headers(blocks, tags, prevs)
    requires k + 1 < |blocks| && !blocks[k].used && blocks' == blocks[k := blocks[k].(used := true)]
    requires UsedWhole(tags, tags', blocks[k].addr, blocks[k + 1].addr)
    ensures Headers(blocks', tags', prevs)
  {
    AddrsDiffer(blocks, BHDR_OVERHEAD, FIRST, region, k);
    AddrsDiffer(blocks, BHDR_OVERHEAD, FIRST, region, k + 1);
    forall j | 0 <= j < |blocks'| ensures HeaderAt(blocks', tags', prevs, j) {
      assert HeaderAt(blocks, tags, prevs, j);
      if j != k && j != k + 1 { SameHeader(blocks, tags, prevs, j, blocks', tags', prevs, j); }
    }
  }

  /** The stores when block b of `need + rest` bytes and one header is split. */
  ghost predicate SplitInTwo(tags: Tags, prevs: PrevHdrs, tags': Tags, prevs': PrevHdrs, b: nat, need: nat, rest: nat) {
    var b2, next := b + BHDR_OVERHEAD + need, b + 2 * BHDR_OVERHEAD + need + rest;
    && b in tags && b in tags' && tags'[b] == Tag(need, false, tags[b].prevFree)
    && b2 in tags' && tags'[b2] == Tag(rest, true, false)
    && next in prevs' && prevs'[next] == b2
    && (forall x :: x in tags && x != b && x != b2 ==> x in tags' && tags'[x] == tags[x])
    && (forall x :: x in prevs && x != next ==> x in prevs' && prevs'[x] == prevs[x])
  }

  lemma HeadersSplit(blocks: seq<Cell>, region: nat, tags: Tags, prevs: PrevHdrs, tags': Tags, prevs': PrevHdrs,
                     k: nat, need: nat, blocks': seq<Cell>)
    requires Tiles(blocks, BHDR_OVERHEAD, FIRST, region) && Headers(blocks, tags, prevs)
    requires k + 1 < |blocks| && !blocks[k].used && blocks[k].size > BHDR_OVERHEAD + need + SLACK
    requires blocks' == Take(blocks, BHDR_OVERHEAD, need, SLACK, k)
    requires SplitInTwo(tags, prevs, tags', prevs', blocks[k].addr, need, blocks[k].size - (need + BHDR_OVERHEAD))
    ensures Headers(blocks', tags', prevs')
  {
    var b2 := blocks[k].addr + BHDR_OVERHEAD + need;
    AddrsDiffer(blocks, BHDR_OVERHEAD, FIRST, region, k);
    AddrsDiffer(blocks, BHDR_OVERHEAD, FIRST, region, k + 1);
    assert HeaderAt(blocks, tags, prevs, k);
    assert HeaderAt(blocks, tags, prevs, k + 1);
    forall j | 0 <= j < |blocks'| ensures HeaderAt(blocks', tags', prevs', j) {
      if j < k || j > k + 1 {
        var i := if j < k then j else j - 1;
        assert blocks'[j] == blocks[i];
        assert HeaderAt(blocks, tags, prevs, i);
        NotInside(blocks, BHDR_OVERHEAD, FIRST, region, k, b2, i);
        if j != k + 2 {
          assert JoinsLeft(blocks', j) ==> blocks'[j - 1] == blocks[i - 1];
          SameHeader(blocks, tags, prevs, i, blocks', tags', prevs', j);
        }
      }
    }
  }

  lemma ListedWhole(blocks: seq<Cell>, region: nat, members: map<nat, nat>, k: nat, blocks': seq<Cell>)
    requires Tiles(blocks, BHDR_OVERHEAD, FIRST, region) && Listed(blocks, members)
    requires k < |blocks| && !blocks[k].used && blocks' == blocks[k := blocks[k].(used := true)]
    ensures Listed(blocks', members - {blocks[k].addr})
  {
    AddrsDiffer(blocks, BHDR_OVERHEAD, FIRST, region, k);
    forall a | a in members && a != blocks[k].addr ensures exists j :: FreeAt(blocks', a, j) {
      var i :| FreeAt(blocks, a, i);
      assert FreeAt(blocks', a, i);
    }
  }

  /** A free block at b2 is inserted after used block k, which may shrink. */
  lemma ListedInsert(blocks: seq<Cell>, members: map<nat, nat>, members': map<nat, nat>, k: nat, b2: nat,
                     blocks': seq<Cell>)
    requires Listed(blocks, members) && k < |blocks| && |blocks'| == |blocks| + 1
    requires blocks[k].used && blocks'[k].used && !blocks'[k + 1].used && blocks'[k + 1].addr == b2
    requires forall i :: 0 <= i < |blocks| ==> blocks[i].addr != b2
    requires forall i :: 0 <= i < k ==> blocks'[i] == blocks[i]
    requires forall i :: k + 1 < i < |blocks'| ==> blocks'[i] == blocks[i - 1]
    requires members' == members[b2 := ClassOf(blocks'[k + 1].size)]
    ensures Listed(blocks', members')
  {
    forall j | 0 <= j < |blocks'| && !blocks'[j].used
      ensures blocks'[j].addr in members' && members'[blocks'[j].addr] == ClassOf(blocks'[j].size)
    {
      if j != k + 1 { assert blocks'[j] == blocks[if j > k then j - 1 else j]; }
    }
    forall a | a in members' ensures exists j :: FreeAt(blocks', a, j) {
      if a == b2 {
        assert FreeAt(blocks', a, k + 1);
      } else {
        var i :| FreeAt(blocks, a, i);
        assert FreeAt(blocks', a, if i > k then i + 1 else i);
      }
    }
  }

  lemma NotAnAddress(blocks: seq<Cell>, region: nat, k: nat, a: nat)
    requires Tiles(blocks, BHDR_OVERHEAD, FIRST, region) && k < |blocks|
    requires blocks[k].addr < a < blocks[k].End(BHDR_OVERHEAD)
    ensures forall i :: 0 <= i < |blocks| ==> blocks[i].addr != a
  {
    forall i | 0 <= i < |blocks| ensures blocks[i].addr != a {
      NotInside(blocks, BHDR_OVERHEAD, FIRST, region, k, a, i);
    }
  }

  lemma ListedTake(blocks: seq<Cell>, region: nat, members: map<nat, nat>, members': map<nat, nat>,
                   k: nat, need: nat, blocks': seq<Cell>)
    requires Tiles(blocks, BHDR_OVERHEAD, FIRST, region) && Listed(blocks, members)
    requires k < |blocks| && !blocks[k].used && blocks' == Take(blocks, BHDR_OVERHEAD, need, SLACK, k)
    requires var b, size := blocks[k].addr, blocks[k].size;
      members' == if size > BHDR_OVERHEAD + need + SLACK
        then (members - {b})[b + BHDR_OVERHEAD + need := ClassOf(size - (need + BHDR_OVERHEAD))]
        else members - {b}
    ensures Listed(blocks', members')
  {
    var b := blocks[k].addr;
    var whole := blocks[k := blocks[k].(used := true)];
    ListedWhole(blocks, region, members, k, whole);
    if blocks[k].size > BHDR_OVERHEAD + need + SLACK {
      NotAnAddress(blocks, region, k, b + BHDR_OVERHEAD + need);
      ListedInsert(whole, members - {b}, members', k, b + BHDR_OVERHEAD + need, blocks');
    }
  }

  lemma NotListed(blocks: seq<Cell>, sentinel: nat, members: map<nat, nat>, k: nat, a: nat)
    requires WellFormed(blocks, sentinel) && Listed(blocks, members)
    requires k < |blocks| && blocks[k].addr < a < blocks[k].End(BHDR_OVERHEAD)
    ensures a !in members
  {
    if a in members {
      var i :| FreeAt(blocks, a, i);
      NotInside(blocks, BHDR_OVERHEAD, FIRST, sentinel + BHDR_OVERHEAD, k, a, i);
    }
  }

  lemma UsedNotListed(blocks: seq<Cell>, sentinel: nat, members: map<nat, nat>, k: nat)
    requires WellFormed(blocks, sentinel) && Listed(blocks, members)
    requires k < |blocks| && blocks[k].used
    ensures blocks[k].addr !in members
  {
    AddrsDiffer(blocks, BHDR_OVERHEAD, FIRST, sentinel + BHDR_OVERHEAD, k);
    forall i ensures !FreeAt(blocks, blocks[k].addr, i) {}
  }

  lemma WellFormedTake(blocks: seq<Cell>, sentinel: nat, need: nat, k: nat)
    requires WellFormed(blocks, sentinel) && k < |blocks| && !blocks[k].used
    requires need % 4 == 0 && MIN_BLOCK_SIZE <= need <= blocks[k].size
    ensures WellFormed(Take(blocks, BHDR_OVERHEAD, need, SLACK, k), sentinel)
  {
    TakeKeepsTiling(blocks, BHDR_OVERHEAD, FIRST, sentinel + BHDR_OVERHEAD, need, SLACK, k);
    var blocks' := Take(blocks, BHDR_OVERHEAD, need, SLACK, k);
    forall j | 0 <= j < |blocks'| - 1 ensures SizeOk(blocks'[j]) {
      assert SizeOk(blocks[k]);
      if j < k { assert SizeOk(blocks[j]); }
      if |blocks'| == |blocks| { assert j != k ==> SizeOk(blocks[j]); }
      if |blocks'| > |blocks| && j > k + 1 { assert SizeOk(blocks[j - 1]); }
    }
  }

  // --------------------------------------------------------------------- release

  /** Where merging starts and ends: only the two neighbours can be free. */
  lemma MergeEdges(blocks: seq<Cell>, k: nat)
    requires Coalesced(blocks) && k + 1 < |blocks| && blocks[k].used && blocks[|blocks| - 1].used
    ensures MergeEnd(blocks, k) < |blocks| && blocks[MergeEnd(blocks, k)].used
    ensures !JoinsLeft(blocks, MergeStart(blocks, k))
  {}

  /** The stores of a release: the merged block's header, and the note of it in the block
      after; the header of the released block itself may have become part of the merged one. */
  ghost predicate Merged(blocks: seq<Cell>, k: nat, tags: Tags, prevs: PrevHdrs, tags': Tags, prevs': PrevHdrs)
    requires k < |blocks| && MergeEnd(blocks, k) < |blocks|
  {
    var am, ae := blocks[MergeStart(blocks, k)].addr, blocks[MergeEnd(blocks, k)].addr;
    && am in tags' && tags'[am] == Tag(MergedSize(blocks, BHDR_OVERHEAD, k), true, false)
    && ae in tags && ae in tags' && tags'[ae] == tags[ae].(prevFree := true)
    && ae in prevs' && prevs'[ae] == am
    && (forall x :: x in tags && x != blocks[k].addr && x != am && x != ae ==> x in tags' && tags'[x] == tags[x])
    && (forall x :: x in prevs && x != ae ==> x in prevs' && prevs'[x] == prevs[x])
  }

  lemma HeadersRelease(blocks: seq<Cell>, region: nat, tags: Tags, prevs: PrevHdrs, tags': Tags, prevs': PrevHdrs,
                       k: nat, blocks': seq<Cell>)
    requires Tiles(blocks, BHDR_OVERHEAD, FIRST, region) && Coalesced(blocks) && Headers(blocks, tags, prevs)
    requires k + 1 < |blocks| && blocks[k].used && blocks[|blocks| - 1].used
    requires blocks' == Release(blocks, BHDR_OVERHEAD, k)
    requires MergeEnd(blocks, k) < |blocks| && Merged(blocks, k, tags, prevs, tags', prevs')
    ensures Headers(blocks', tags', prevs')
  {
    var m, e := MergeStart(blocks, k), MergeEnd(blocks, k);
    MergeEdges(blocks, k);
    ReleaseElements(blocks, BHDR_OVERHEAD, k);
    AddrsDiffer(blocks, BHDR_OVERHEAD, FIRST, region, k);
    AddrsDiffer(blocks, BHDR_OVERHEAD, FIRST, region, m);
    AddrsDiffer(blocks, BHDR_OVERHEAD, FIRST, region, e);
    assert HeaderAt(blocks, tags, prevs, e);
    forall j | 0 <= j < |blocks'| ensures HeaderAt(blocks', tags', prevs', j) {
      if j != m {
        var i := if j < m then j else j + (e - m) - 1;
        assert blocks'[j] == blocks[i];
        assert HeaderAt(blocks, tags, prevs, i);
        if j != m + 1 { OtherHeader(blocks, region, tags, prevs, i, blocks', tags', prevs', j, k); }
      }
    }
  }

  lemma OtherHeader(blocks: seq<Cell>, region: nat, tags: Tags, prevs: PrevHdrs, i: nat,
                    blocks': seq<Cell>, tags': Tags, prevs': PrevHdrs, j: nat, k: nat)
    requires k < |blocks| && MergeEnd(blocks, k) < |blocks| && Merged(blocks, k, tags, prevs, tags', prevs')
    requires i < |blocks| && j < |blocks'| && blocks'[j] == blocks[i] && HeaderAt(blocks, tags, prevs, i)
    requires blocks' == Release(blocks, BHDR_OVERHEAD, k)
    requires var m, e := MergeStart(blocks, k), MergeEnd(blocks, k);
      (i == j < m || e < i == j + (e - m) - 1)
      && blocks[i].addr != blocks[k].addr && blocks[i].addr != blocks[m].addr && blocks[i].addr != blocks[e].addr
    ensures HeaderAt(blocks', tags', prevs', j)
  {
    ReleaseElements(blocks, BHDR_OVERHEAD, k);
    assert JoinsLeft(blocks', j) == JoinsLeft(blocks, i);
    SameHeader(blocks, tags, prevs, i, blocks', tags', prevs', j);
  }

  /** The members after the free neighbours of block k were extracted. */
  function Extracted(blocks: seq<Cell>, members: map<nat, nat>, k: nat): map<nat, nat>
    requires k < |blocks|
  {
    var without := if JoinsRight(blocks, k) then members - {blocks[k + 1].addr} else members;
    if JoinsLeft(blocks, k) then without - {blocks[k - 1].addr} else without
  }

  lemma StaysListed(blocks: seq<Cell>, region: nat, members: map<nat, nat>, k: nat, i: nat)
    requires Tiles(blocks, BHDR_OVERHEAD, FIRST, region) && Listed(blocks, members)
    requires k < |blocks| && i < |blocks| && !blocks[i].used
    requires i < MergeStart(blocks, k) || MergeEnd(blocks, k) <= i
    ensures blocks[i].addr in Extracted(blocks, members, k)
    ensures Extracted(blocks, members, k)[blocks[i].addr] == ClassOf(blocks[i].size)
  {
    AddrsDiffer(blocks, BHDR_OVERHEAD, FIRST, region, i);
  }

  lemma WasListed(blocks: seq<Cell>, members: map<nat, nat>, k: nat, a: nat) returns (i: nat)
    requires Listed(blocks, members)
    requires k < |blocks| && blocks[k].used && a in Extracted(blocks, members, k)
    ensures FreeAt(blocks, a, i) && (i < MergeStart(blocks, k) || MergeEnd(blocks, k) <= i)
  {
    i :| FreeAt(blocks, a, i);
  }

  lemma MergedNotListed(blocks: seq<Cell>, sentinel: nat, members: map<nat, nat>, k: nat)
    requires WellFormed(blocks, sentinel) && Listed(blocks, members)
    requires k < |blocks| && blocks[k].used
    ensures blocks[MergeStart(blocks, k)].addr !in Extracted(blocks, members, k)
  {
    if !JoinsLeft(blocks, k) { UsedNotListed(blocks, sentinel, members, k); }
  }

  /** Exactly the free blocks outside m to n are members. */
  ghost predicate ListedOutside(blocks: seq<Cell>, members: map<nat, nat>, m: nat, n: nat) {
    && (forall i :: (0 <= i < m || n <= i) && i < |blocks| && !blocks[i].used ==>
          blocks[i].addr in members && members[blocks[i].addr] == ClassOf(blocks[i].size))
    && (forall a :: a in members ==> exists i :: FreeAt(blocks, a, i) && (i < m || n <= i))
  }

  lemma ExtractedOutside(blocks: seq<Cell>, region: nat, members: map<nat, nat>, k: nat)
    requires Tiles(blocks, BHDR_OVERHEAD, FIRST, region) && Listed(blocks, members)
    requires k < |blocks| && blocks[k].used
    ensures ListedOutside(blocks, Extracted(blocks, members, k), MergeStart(blocks, k), MergeEnd(blocks, k))
  {
    var m, n, base := MergeStart(blocks, k), MergeEnd(blocks, k), Extracted(blocks, members, k);
    forall i | (0 <= i < m || n <= i < |blocks|) && !blocks[i].used
      ensures blocks[i].addr in base && base[blocks[i].addr] == ClassOf(blocks[i].size)
    {
      StaysListed(blocks, region, members, k, i);
    }
    forall a | a in base ensures exists i :: FreeAt(blocks, a, i) && (i < m || n <= i) {
      var i := WasListed(blocks, members, k, a);
      assert FreeAt(blocks, a, i) && (i < m || n <= i);
    }
  }

  /** Cells m to n are replaced by one free cell at the same address. */
  ghost predicate Replaced(blocks: seq<Cell>, blocks': seq<Cell>, m: nat, n: nat) {
    && m < n <= |blocks| && |blocks| == |blocks'| + (n - m - 1)
    && !blocks'[m].used && blocks'[m].addr == blocks[m].addr
    && (forall i :: 0 <= i < m ==> blocks'[i] == blocks[i])
    && (forall i :: m < i < |blocks'| ==> blocks'[i] == blocks[i + (n - m) - 1])
  }

  lemma ReplacedBy(blocks: seq<Cell>, blocks': seq<Cell>, k: nat, m: nat, n: nat)
    requires k < |blocks| && blocks' == Release(blocks, BHDR_OVERHEAD, k)
    requires m == MergeStart(blocks, k) && n == MergeEnd(blocks, k)
    ensures Replaced(blocks, blocks', m, n)
  {
    ReleaseElements(blocks, BHDR_OVERHEAD, k);
  }

  /** Blocks m to n are replaced by a free one, which is listed. */
  lemma Relisted(blocks: seq<Cell>, blocks': seq<Cell>, m: nat, n: nat, base: map<nat, nat>, members': map<nat, nat>)
    requires Replaced(blocks, blocks', m, n) && ListedOutside(blocks, base, m, n)
    requires forall i :: 0 <= i < |blocks| && i != m ==> blocks[i].addr != blocks[m].addr
    requires members' == base[blocks'[m].addr := ClassOf(blocks'[m].size)]
    ensures Listed(blocks', members')
  {
    var d := n - m - 1;
    forall j | 0 <= j < |blocks'| && !blocks'[j].used
      ensures blocks'[j].addr in members' && members'[blocks'[j].addr] == ClassOf(blocks'[j].size)
    {
      if j > m { assert blocks'[j] == blocks[j + d]; }
    }
    forall a | a in members' ensures exists j :: FreeAt(blocks', a, j) {
      if a == blocks'[m].addr {
        assert FreeAt(blocks', a, m);
      } else {
        var i :| FreeAt(blocks, a, i) && (i < m || n <= i);
        assert FreeAt(blocks', a, if i < m then i else i - d);
      }
    }
  }

  lemma ListedRelease(blocks: seq<Cell>, region: nat, members: map<nat, nat>, members': map<nat, nat>, k: nat,
                      blocks': seq<Cell>)
    requires Tiles(blocks, BHDR_OVERHEAD, FIRST, region) && Listed(blocks, members)
    requires k < |blocks| && blocks[k].used && blocks' == Release(blocks, BHDR_OVERHEAD, k)
    requires var c := blocks'[MergeStart(blocks, k)];
      members' == Extracted(blocks, members, k)[c.addr := ClassOf(c.size)]
    ensures Listed(blocks', members')
  {
    ExtractedOutside(blocks, region, members, k);
    AddrsDiffer(blocks, BHDR_OVERHEAD, FIRST, region, MergeStart(blocks, k));
    ReplacedBy(blocks, blocks', k, MergeStart(blocks, k), MergeEnd(blocks, k));
    Relisted(blocks, blocks', MergeStart(blocks, k), MergeEnd(blocks, k), Extracted(blocks, members, k), members');
  }

  lemma MergedSizeOk(blocks: seq<Cell>, sentinel: nat, k: nat)
    requires WellFormed(blocks, sentinel) && k + 1 < |blocks| && blocks[k].used
    ensures SizeOk(Cell(0, MergedSize(blocks, BHDR_OVERHEAD, k), false))
  {
    MergedBlock(blocks, sentinel, k);
    assert SizeOk(blocks[k]);
    if JoinsLeft(blocks, k) { assert SizeOk(blocks[k - 1]); }
    if JoinsRight(blocks, k) { assert SizeOk(blocks[k + 1]); }
  }

  lemma ReleasedSizes(blocks: seq<Cell>, sentinel: nat, k: nat)
    requires WellFormed(blocks, sentinel) && k + 1 < |blocks| && blocks[k].used
    ensures var blocks' := Release(blocks, BHDR_OVERHEAD, k);
      forall j :: 0 <= j < |blocks'| - 1 ==> SizeOk(blocks'[j])
  {
    var m, e := MergeStart(blocks, k), MergeEnd(blocks, k);
    var blocks' := Release(blocks, BHDR_OVERHEAD, k);
    ReleaseElements(blocks, BHDR_OVERHEAD, k);
    MergedSizeOk(blocks, sentinel, k);
    forall j | 0 <= j < |blocks'| - 1 ensures SizeOk(blocks'[j]) {
      if j != m { assert SizeOk(blocks[if j < m then j else j + (e - m) - 1]); }
    }
  }

  lemma WellFormedRelease(blocks: seq<Cell>, sentinel: nat, k: nat)
    requires WellFormed(blocks, sentinel) && k + 1 < |blocks| && blocks[k].used
    ensures WellFormed(Release(blocks, BHDR_OVERHEAD, k), sentinel)
  {
    var m, e := MergeStart(blocks, k), MergeEnd(blocks, k);
    var region := sentinel + BHDR_OVERHEAD;
    MergeEdges(blocks, k);
    ReleaseElements(blocks, BHDR_OVERHEAD, k);
    ReleaseKeepsTiling(blocks, BHDR_OVERHEAD, FIRST, region, k);
    var blocks' := Release(blocks, BHDR_OVERHEAD, k);
    assert blocks'[|blocks'| - 1] == blocks[|blocks| - 1];
    CellsAscend(blocks', BHDR_OVERHEAD, FIRST, region, m, |blocks'| - 1);
    InRegion(blocks', BHDR_OVERHEAD, FIRST, region, m);
    ReleasedSizes(blocks, sentinel, k);
  }

  /** The merged block reaches up to the block after, and has a class. */
  lemma MergedBlock(blocks: seq<Cell>, sentinel: nat, k: nat)
    requires WellFormed(blocks, sentinel) && k + 1 < |blocks| && blocks[k].used
    ensures var m, e := MergeStart(blocks, k), MergeEnd(blocks, k);
      && e < |blocks|
      && blocks[m].addr + BHDR_OVERHEAD + MergedSize(blocks, BHDR_OVERHEAD, k) == blocks[e].addr
      && blocks[e].addr != blocks[m].addr && blocks[e].addr != blocks[k].addr
      && blocks[m].addr > 0
    ensures MergedSize(blocks, BHDR_OVERHEAD, k) < TOO_BIG
  {
    var m, e := MergeStart(blocks, k), MergeEnd(blocks, k);
    MergeEdges(blocks, k);
    InRegion(blocks, BHDR_OVERHEAD, FIRST, sentinel + BHDR_OVERHEAD, m);
    InRegion(blocks, BHDR_OVERHEAD, FIRST, sentinel + BHDR_OVERHEAD, e);
    assert blocks[k].End(BHDR_OVERHEAD) == blocks[k + 1].addr;
    assert m < k ==> blocks[m].End(BHDR_OVERHEAD) == blocks[m + 1].addr;
    assert k + 1 < e ==> blocks[k + 1].End(BHDR_OVERHEAD) == blocks[k + 2].addr;
  }

  lemma MergedBy(blocks: seq<Cell>, k: nat, tags: Tags, prevs: PrevHdrs, joined: Tags, tags': Tags, prevs': PrevHdrs,
                 am: nat, ae: nat)
    requires k < |blocks| && MergeEnd(blocks, k) < |blocks|
    requires am == blocks[MergeStart(blocks, k)].addr && ae == blocks[MergeEnd(blocks, k)].addr
    requires ae != am && ae != blocks[k].addr && ae in tags && ae in joined
    requires am in joined && joined[am] == Tag(MergedSize(blocks, BHDR_OVERHEAD, k), true, false)
    requires forall x :: x in tags && x != blocks[k].addr && x != am ==> x in joined && joined[x] == tags[x]
    requires tags' == joined[ae := joined[ae].(prevFree := true)] && prevs' == prevs[ae := am]
    ensures Merged(blocks, k, tags, prevs, tags', prevs')
  {}

  lemma ReleaseOk(blocks: seq<Cell>, sentinel: nat, tags: Tags, prevs: PrevHdrs, members: map<nat, nat>,
                  tags': Tags, prevs': PrevHdrs, members': map<nat, nat>, k: nat, blocks': seq<Cell>)
    requires WellFormed(blocks, sentinel) && Headers(blocks, tags, prevs) && Listed(blocks, members)
    requires k + 1 < |blocks| && blocks[k].used && blocks' == Release(blocks, BHDR_OVERHEAD, k)
    requires MergeEnd(blocks, k) < |blocks| && Merged(blocks, k, tags, prevs, tags', prevs')
    requires members' == Extracted(blocks, members, k)
      [blocks[MergeStart(blocks, k)].addr := ClassOf(MergedSize(blocks, BHDR_OVERHEAD, k))]
    ensures WellFormed(blocks', sentinel) && Headers(blocks', tags', prevs') && Listed(blocks', members')
  {
    ReleaseElements(blocks, BHDR_OVERHEAD, k);
    WellFormedRelease(blocks, sentinel, k);
    HeadersRelease(blocks, sentinel + BHDR_OVERHEAD, tags, prevs, tags', prevs', k, blocks');
    ListedRelease(blocks, sentinel + BHDR_OVERHEAD, members, members', k, blocks');
  }
}
