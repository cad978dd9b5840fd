/** Where the stores of the tlsf allocator lie: none touches the data of a block in use. */
module TlsfStores {
  import opened Blocks
  import opened TlsfMapping
  import opened TlsfBlocks
  import opened TlsfLists

  /** The bytes from lo to hi lie in a free block, or in block k, behind its note of the block
      before and up to the note that the next block keeps of it. */
  ghost predicate InRoom(blocks: seq<Cell>, k: int, lo: nat, hi: nat) {
    exists j :: 0 <= j < |blocks| && (!blocks[j].used || j == k) && RoomOf(blocks[j], lo, hi)
  }

  predicate RoomOf(c: Cell, lo: nat, hi: nat) {
    c.addr + BHDR_OVERHEAD <= lo && hi <= c.End(BHDR_OVERHEAD) + BHDR_OVERHEAD
  }

  ghost predicate IsBlock(blocks: seq<Cell>, x: nat) {
    exists j :: 0 <= j < |blocks| && blocks[j].addr == x
  }

  ghost predicate Stored<V>(m: map<nat, V>, m': map<nat, V>, x: nat) {
    x in m' && (x !in m || m'[x] != m[x])
  }

  /** Size words are stored in blocks that there were, or in room of free ones; notes and links in
      room of free blocks only. */
  ghost predicate StoresSpare(blocks: seq<Cell>, k: int, tags: Tags, tags': Tags, prevs: PrevHdrs, prevs': PrevHdrs,
                              links: Links, links': Links)
  {
    && (forall x: nat :: Stored(tags, tags', x) ==> IsBlock(blocks, x) || InRoom(blocks, k, x + 4, x + 8))
    && (forall x: nat :: Stored(prevs, prevs', x) ==> InRoom(blocks, k, x, x + 4))
    && (forall x: nat :: Stored(links, links', x) ==> InRoom(blocks, k, x + 8, x + 16))
  }

  /** The data of block i, which ends with the note of the next block. */
  predicate OutsideData(c: Cell, lo: nat, hi: nat) {
    hi <= c.addr + BUFFER || c.End(BHDR_OVERHEAD) + BHDR_OVERHEAD <= lo
  }

  lemma RoomIsOutside(blocks: seq<Cell>, sentinel: nat, k: int, i: nat, lo: nat, hi: nat)
    requires WellFormed(blocks, sentinel) && InRoom(blocks, k, lo, hi)
    requires i < |blocks| && blocks[i].used && i != k
    ensures OutsideData(blocks[i], lo, hi)
  {
    var j :| 0 <= j < |blocks| && (!blocks[j].used || j == k) && RoomOf(blocks[j], lo, hi);
    if i < j {
      CellsAscend(blocks, BHDR_OVERHEAD, FIRST, sentinel + BHDR_OVERHEAD, i, j);
    } else {
      CellsAscend(blocks, BHDR_OVERHEAD, FIRST, sentinel + BHDR_OVERHEAD, j, i);
    }
  }

  lemma SizeWordIsOutside(blocks: seq<Cell>, sentinel: nat, x: nat, i: nat)
    requires WellFormed(blocks, sentinel) && IsBlock(blocks, x) && i < |blocks|
    ensures OutsideData(blocks[i], x + 4, x + 8)
  {
    var j :| 0 <= j < |blocks| && blocks[j].addr == x;
    if i < j {
      CellsAscend(blocks, BHDR_OVERHEAD, FIRST, sentinel + BHDR_OVERHEAD, i, j);
    } else if j < i {
      CellsAscend(blocks, BHDR_OVERHEAD, FIRST, sentinel + BHDR_OVERHEAD, j, i);
    }
  }

  /** So no store touches the data of a block in use: neither a size word, nor a note of a free
      block, nor a link. */
  lemma StoresSpareData(blocks: seq<Cell>, sentinel: nat, k: int, tags: Tags, tags': Tags,
                        prevs: PrevHdrs, prevs': PrevHdrs, links: Links, links': Links, i: nat, x: nat)
    requires WellFormed(blocks, sentinel) && StoresSpare(blocks, k, tags, tags', prevs, prevs', links, links')
    requires i < |blocks| && blocks[i].used && i != k
    ensures Stored(tags, tags', x) ==> OutsideData(blocks[i], x + 4, x + 8)
    ensures Stored(prevs, prevs', x) ==> OutsideData(blocks[i], x, x + 4)
    ensures Stored(links, links', x) ==> OutsideData(blocks[i], x + 8, x + 16)
  {
    if Stored(tags, tags', x) {
      if IsBlock(blocks, x) {
        SizeWordIsOutside(blocks, sentinel, x, i);
      } else {
        RoomIsOutside(blocks, sentinel, k, i, x + 4, x + 8);
      }
    }
    if Stored(prevs, prevs', x) { RoomIsOutside(blocks, sentinel, k, i, x, x + 4); }
    if Stored(links, links', x) { RoomIsOutside(blocks, sentinel, k, i, x + 8, x + 16); }
  }

  lemma LinkInRoom(blocks: seq<Cell>, sentinel: nat, k: int, j: nat)
    requires WellFormed(blocks, sentinel) && j < |blocks| - 1 && (!blocks[j].used || j == k)
    ensures InRoom(blocks, k, blocks[j].addr + 8, blocks[j].addr + 16)
  {
    assert SizeOk(blocks[j]);
    assert RoomOf(blocks[j], blocks[j].addr + 8, blocks[j].addr + 16);
  }

  // ------------------------------------------------------- sets of addresses

  ghost predicate TagAddrs(blocks: seq<Cell>, k: int, s: set<nat>) {
    forall x: nat :: x in s ==> IsBlock(blocks, x) || InRoom(blocks, k, x + 4, x + 8)
  }

  ghost predicate NoteAddrs(blocks: seq<Cell>, k: int, s: set<nat>) {
    forall x: nat :: x in s ==> InRoom(blocks, k, x, x + 4)
  }

  ghost predicate LinkAddrs(blocks: seq<Cell>, k: int, s: set<nat>) {
    forall x: nat :: x in s ==> InRoom(blocks, k, x + 8, x + 16)
  }

  lemma AddrsSpare(blocks: seq<Cell>, k: int, tags: Tags, tags': Tags, t: set<nat>, prevs: PrevHdrs, prevs': PrevHdrs,
                   n: set<nat>, links: Links, links': Links, l: set<nat>)
    requires TagAddrs(blocks, k, t) && NoteAddrs(blocks, k, n) && LinkAddrs(blocks, k, l)
    requires Only(tags, tags', t) && Only(prevs, prevs', n) && Only(links, links', l)
    ensures StoresSpare(blocks, k, tags, tags', prevs, prevs', links, links')
  {
    forall x: nat | Stored(tags, tags', x) ensures IsBlock(blocks, x) || InRoom(blocks, k, x + 4, x + 8) {
      assert x in t;
    }
    forall x: nat | Stored(prevs, prevs', x) ensures InRoom(blocks, k, x, x + 4) {
      assert x in n;
    }
    forall x: nat | Stored(links, links', x) ensures InRoom(blocks, k, x + 8, x + 16) {
      assert x in l;
    }
  }

  ghost predicate AllFree(blocks: seq<Cell>, s: set<nat>) {
    forall x: nat :: x in s ==> exists j :: FreeAt(blocks, x, j)
  }

  lemma MembersFree(blocks: seq<Cell>, members: map<nat, nat>)
    requires Listed(blocks, members)
    ensures AllFree(blocks, members.Keys)
  {}

  lemma FreeInRoom(blocks: seq<Cell>, sentinel: nat, s: set<nat>, k: int)
    requires WellFormed(blocks, sentinel) && AllFree(blocks, s)
    ensures LinkAddrs(blocks, k, s)
  {
    forall x: nat | x in s ensures InRoom(blocks, k, x + 8, x + 16) {
      var j :| FreeAt(blocks, x, j);
      LinkInRoom(blocks, sentinel, k, j);
    }
  }

  lemma MembersInRoom(blocks: seq<Cell>, sentinel: nat, members: map<nat, nat>, k: int)
    requires WellFormed(blocks, sentinel) && Listed(blocks, members)
    ensures LinkAddrs(blocks, k, members.Keys)
  {
    MembersFree(blocks, members);
    FreeInRoom(blocks, sentinel, members.Keys, k);
  }

  lemma OneMoreLink(blocks: seq<Cell>, k: int, s: set<nat>, x: nat)
    requires LinkAddrs(blocks, k, s) && InRoom(blocks, k, x + 8, x + 16)
    ensures LinkAddrs(blocks, k, s + {x})
  {}

  /** What is stored to when free block k is split after `need` bytes. */
  lemma SplitAddrs(blocks: seq<Cell>, l: set<nat>, k: nat, need: nat)
    requires LinkAddrs(blocks, -1, l) && k + 1 < |blocks| && !blocks[k].used
    requires blocks[k].End(BHDR_OVERHEAD) == blocks[k + 1].addr
    requires need + BHDR_OVERHEAD + MIN_BLOCK_SIZE <= blocks[k].size
    ensures var b, b2 := blocks[k].addr, blocks[k].addr + BHDR_OVERHEAD + need;
      && TagAddrs(blocks, -1, {b, b2}) && NoteAddrs(blocks, -1, {blocks[k + 1].addr})
      && LinkAddrs(blocks, -1, l + {b2})
  {
    var b2, next := blocks[k].addr + BHDR_OVERHEAD + need, blocks[k + 1].addr;
    assert RoomOf(blocks[k], b2 + 8, b2 + 16);
    OneMoreLink(blocks, -1, l, b2);
    assert RoomOf(blocks[k], b2 + 4, b2 + 8) && RoomOf(blocks[k], next, next + 4);
  }

  /** What is stored to when free block k is used whole. */
  lemma WholeAddrs(blocks: seq<Cell>, k: nat)
    requires k + 1 < |blocks|
    ensures TagAddrs(blocks, -1, {blocks[k].addr, blocks[k + 1].addr}) && NoteAddrs(blocks, -1, {})
  {}

  lemma NoteInRoom(blocks: seq<Cell>, sentinel: nat, k: nat)
    requires WellFormed(blocks, sentinel) && k + 1 < |blocks| && blocks[k].used && MergeEnd(blocks, k) < |blocks|
    ensures var next := blocks[MergeEnd(blocks, k)].addr; InRoom(blocks, k, next, next + 4)
  {
    var e := MergeEnd(blocks, k);
    assert blocks[e - 1].End(BHDR_OVERHEAD) == blocks[e].addr;
    assert RoomOf(blocks[e - 1], blocks[e].addr, blocks[e].addr + 4);
  }

  /** What is stored to when block k is freed. */
  lemma ReleaseAddrs(blocks: seq<Cell>, sentinel: nat, l: set<nat>, k: nat)
    requires WellFormed(blocks, sentinel) && LinkAddrs(blocks, k, l) && k + 1 < |blocks| && blocks[k].used
    requires MergeEnd(blocks, k) < |blocks|
    ensures var b, m, next := blocks[k].addr, blocks[MergeStart(blocks, k)].addr, blocks[MergeEnd(blocks, k)].addr;
      && TagAddrs(blocks, k, {b, m, next}) && NoteAddrs(blocks, k, {next}) && LinkAddrs(blocks, k, l + {b})
  {
    NoteInRoom(blocks, sentinel, k);
    LinkInRoom(blocks, sentinel, k, k);
    OneMoreLink(blocks, k, l, blocks[k].addr);
  }

  /** Stores of an allocation from free block k, to these addresses and to those in l. */
  ghost predicate ServeStores(blocks: seq<Cell>, k: nat, need: nat, l: set<nat>, tags: Tags, tags': Tags,
                              prevs: PrevHdrs, prevs': PrevHdrs, links: Links, links': Links)
    requires k + 1 < |blocks|
  {
    var b, b2, next := blocks[k].addr, blocks[k].addr + BHDR_OVERHEAD + need, blocks[k + 1].addr;
    if need + BHDR_OVERHEAD + MIN_BLOCK_SIZE <= blocks[k].size then
      Only(tags, tags', {b, b2}) && Only(prevs, prevs', {next}) && Only(links, links', l + {b2})
    else
      Only(tags, tags', {b, next}) && prevs' == prevs && Only(links, links', l)
  }

  /** Free block k, which is in no list, can serve `need` bytes. */
  ghost predicate Takeable(blocks: seq<Cell>, sentinel: nat, tags: Tags, prevs: PrevHdrs, members: map<nat, nat>,
                           k: nat, need: nat)
  {
    && Tiles(blocks, BHDR_OVERHEAD, FIRST, sentinel + BHDR_OVERHEAD) && Headers(blocks, tags, prevs)
    && k + 1 < |blocks| && !blocks[k].used && need <= blocks[k].size < TOO_BIG
    && blocks[k].addr in tags && tags[blocks[k].addr].size == blocks[k].size && blocks[k + 1].addr in tags
    && (need + BHDR_OVERHEAD + MIN_BLOCK_SIZE <= blocks[k].size ==>
          blocks[k].addr + BHDR_OVERHEAD + need !in members)
  }

  /** The members when the second part of block k is listed, if it was split. */
  function TakenMembers(blocks: seq<Cell>, members: map<nat, nat>, k: nat, need: nat): map<nat, nat>
    requires k < |blocks|
  {
    if need + BHDR_OVERHEAD + MIN_BLOCK_SIZE <= blocks[k].size then
      members[blocks[k].addr + BHDR_OVERHEAD + need := ClassOf(blocks[k].size - (need + BHDR_OVERHEAD))]
    else members
  }

  lemma ServedBlock(blocks: seq<Cell>, sentinel: nat, tags: Tags, prevs: PrevHdrs, members: map<nat, nat>,
                    k: nat, need: nat)
    requires WellFormed(blocks, sentinel) && Headers(blocks, tags, prevs) && Listed(blocks, members)
    requires k < |blocks| && !blocks[k].used && need <= blocks[k].size
    ensures k + 1 < |blocks| && Takeable(blocks, sentinel, tags, prevs, members - {blocks[k].addr}, k, need)
  {
    assert HeaderAt(blocks, tags, prevs, k) && HeaderAt(blocks, tags, prevs, k + 1);
    assert SizeOk(blocks[k]);
    if need + BHDR_OVERHEAD + MIN_BLOCK_SIZE <= blocks[k].size {
      NotListed(blocks, sentinel, members, k, blocks[k].addr + BHDR_OVERHEAD + need);
    }
  }

  lemma ServedOk(blocks: seq<Cell>, sentinel: nat, members: map<nat, nat>, k: nat, need: nat, blocks': seq<Cell>,
                 members': map<nat, nat>)
    requires WellFormed(blocks, sentinel) && Listed(blocks, members) && k < |blocks| && !blocks[k].used
    requires need % 4 == 0 && MIN_BLOCK_SIZE <= need <= blocks[k].size
    requires blocks' == Take(blocks, BHDR_OVERHEAD, need, SLACK, k)
    requires members' == TakenMembers(blocks, members - {blocks[k].addr}, k, need)
    ensures WellFormed(blocks', sentinel) && Listed(blocks', members')
  {
    WellFormedTake(blocks, sentinel, need, k);
    ListedTake(blocks, sentinel + BHDR_OVERHEAD, members, members', k, need, blocks');
  }

  lemma ServeStoresMore(blocks: seq<Cell>, k: nat, need: nat, l: set<nat>, all: set<nat>, tags: Tags, tags': Tags,
                        prevs: PrevHdrs, prevs': PrevHdrs, links: Links, links': Links, links'': Links)
    requires k + 1 < |blocks| && l <= all && Only(links, links', all)
    requires ServeStores(blocks, k, need, l, tags, tags', prevs, prevs', links', links'')
    ensures ServeStores(blocks, k, need, all, tags, tags', prevs, prevs', links, links'')
  {
    var b2 := blocks[k].addr + BHDR_OVERHEAD + need;
    if need + BHDR_OVERHEAD + MIN_BLOCK_SIZE <= blocks[k].size {
      OnlyThen(links, links', links'', all, l + {b2}, all + {b2});
    } else {
      OnlyThen(links, links', links'', all, l, all);
    }
  }

  lemma ServeSpares(blocks: seq<Cell>, l: set<nat>, k: nat, need: nat, tags: Tags, tags': Tags,
                    prevs: PrevHdrs, prevs': PrevHdrs, links: Links, links': Links)
    requires LinkAddrs(blocks, -1, l) && k + 1 < |blocks| && !blocks[k].used
    requires blocks[k].End(BHDR_OVERHEAD) == blocks[k + 1].addr
    requires ServeStores(blocks, k, need, l, tags, tags', prevs, prevs', links, links')
    ensures StoresSpare(blocks, -1, tags, tags', prevs, prevs', links, links')
  {
    var b, b2, next := blocks[k].addr, blocks[k].addr + BHDR_OVERHEAD + need, blocks[k + 1].addr;
    if need + BHDR_OVERHEAD + MIN_BLOCK_SIZE <= blocks[k].size {
      SplitAddrs(blocks, l, k, need);
      AddrsSpare(blocks, -1, tags, tags', {b, b2}, prevs, prevs', {next}, links, links', l + {b2});
    } else {
      WholeAddrs(blocks, k);
      AddrsSpare(blocks, -1, tags, tags', {b, next}, prevs, prevs', {}, links, links', l);
    }
  }

  /** The stores of a release of block k. */
  lemma ReleaseSpares(blocks: seq<Cell>, sentinel: nat, l: set<nat>, k: nat, tags: Tags, tags': Tags,
                      prevs: PrevHdrs, prevs': PrevHdrs, links: Links, links': Links)
    requires WellFormed(blocks, sentinel) && LinkAddrs(blocks, k, l) && k + 1 < |blocks| && blocks[k].used
    requires MergeEnd(blocks, k) < |blocks|
    requires var b, m, next := blocks[k].addr, blocks[MergeStart(blocks, k)].addr, blocks[MergeEnd(blocks, k)].addr;
      Only(tags, tags', {b, m, next}) && Only(prevs, prevs', {next}) && Only(links, links', l + {b})
    ensures StoresSpare(blocks, k, tags, tags', prevs, prevs', links, links')
  {
    var b, m, next := blocks[k].addr, blocks[MergeStart(blocks, k)].addr, blocks[MergeEnd(blocks, k)].addr;
    ReleaseAddrs(blocks, sentinel, l, k);
    AddrsSpare(blocks, k, tags, tags', {b, m, next}, prevs, prevs', {next}, links, links', l + {b});
  }
}
