/** The operations on the free lists: insertion at the head, extraction of the head and from
    the middle, and the search through the bitmaps. */
module TlsfFreeLists {
  import opened Bits
  import opened TlsfMapping
  import opened TlsfLists

  class FreeLists {
    var top: nat
    const rows: array<nat>
    const matrix: array<nat>
    /** The first words of the blocks; they mean something only in free blocks. */
    var links: Links

    /** The blocks of every class in list order, and the class of every block. */
    ghost var lists: seq<seq<nat>>
    ghost var members: map<nat, nat>

    ghost predicate Valid()
      reads this, rows, matrix
    {
      && rows != matrix
      && ListsOk(matrix[..], links, lists, members)
      && BitsOk(rows[..], top, lists)
    }

    constructor ()
      ensures Valid() && fresh(rows) && fresh(matrix)
      ensures members == map[] && lists == seq(CLASSES, _ => [])
    {
      top := 0;
      links := map[];
      rows := new nat[REAL_FLI](_ => 0);
      matrix := new nat[CLASSES](_ => 0);
      lists := seq(CLASSES, _ => []);
      members := map[];
      new;
      forall f | 0 <= f < REAL_FLI ensures RowOk(rows[..], top, lists, f) {
        ZeroHasNoBit(f);
        forall s: nat ensures !Bit(0, s) { ZeroHasNoBit(s); }
      }
    }

    method Insert(b: nat, fl: nat, sl: nat)
      requires Valid() && fl < REAL_FLI && sl < MAX_SLI
      requires b != 0 && b !in members
      modifies this, rows, matrix
      ensures Valid()
      ensures lists == old(lists)[fl * MAX_SLI + sl := [b] + old(lists)[fl * MAX_SLI + sl]]
      ensures members == old(members)[b := fl * MAX_SLI + sl]
      ensures Only(old(links), links, old(members).Keys + {b})
    {
      var i := fl * MAX_SLI + sl;
      assert ClassOk(matrix[..], links, lists, members, i);
      assert RowOk(rows[..], top, lists, fl);
      ghost var lists', members' := lists[i := [b] + lists[i]], members[b := i];
      var head := matrix[i];
      assert head != 0 ==> LinkedAt(lists[i], links, 0);
      links := links[b := Link(0, head)];
      if head != 0 {
        links := links[head := links[head].(prev := b)];
      }
      matrix[i] := b;
      rows[fl] := SetBit(rows[fl], sl);
      top := SetBit(top, fl);
      assert matrix[..] == old(matrix[..])[i := b];
      assert rows[..] == old(rows[..])[fl := rows[fl]];
      Inserted(old(matrix[..]), old(links), old(lists), old(members), matrix[..], links, lists', members', i, b);
      SetBits(old(rows[..]), old(top), old(lists), rows[..], top, lists', fl, sl);
      lists, members := lists', members';
    }

    /** The bits after list `sl` of row `fl` became empty. */
    method ClearClass(fl: nat, sl: nat, ghost lists': seq<seq<nat>>)
      requires rows != matrix && BitsOk(rows[..], top, lists) && fl < REAL_FLI && sl < MAX_SLI
      requires SameButOne(lists, lists', fl * MAX_SLI + sl)
      requires lists'[fl * MAX_SLI + sl] == [] && lists[fl * MAX_SLI + sl] != []
      modifies this`top, rows
      ensures BitsOk(rows[..], top, lists')
    {
      assert RowOk(rows[..], top, lists, fl);
      rows[fl] := ClearBit(rows[fl], sl);
      assert rows[..] == old(rows[..])[fl := rows[fl]];
      if rows[fl] == 0 {
        top := ClearBit(top, fl);
      }
      ClearBits(old(rows[..]), old(top), lists, rows[..], top, lists', fl, sl);
    }

    /** The neighbours of b are linked to each other. */
    method Unlink(b: nat)
      requires b in links
      requires var l := links[b];
        && (l.next != 0 ==> l.next in links && l.next != b)
        && (l.prev != 0 ==> l.prev in links && l.prev != b && l.prev != l.next)
      modifies this`links
      ensures Unlinked(old(links), links, b) && b in links && links[b] == Link(0, 0)
      ensures Only(old(links), links, {b} + ({old(links)[b].next, old(links)[b].prev} - {0}))
    {
      var next := links[b].next;
      var prev := links[b].prev;
      if next != 0 {
        links := links[next := links[next].(prev := prev)];
      }
      if prev != 0 {
        links := links[prev := links[prev].(next := next)];
      }
      links := links[b := Link(0, 0)];
    }

    /** EXTRACT_BLOCK: b can be anywhere in its list. */
    method Extract(b: nat, fl: nat, sl: nat)
      requires Valid() && fl < REAL_FLI && sl < MAX_SLI
      requires b in members && members[b] == fl * MAX_SLI + sl
      modifies this, rows, matrix
      ensures Valid() && members == old(members) - {b}
      ensures var i := fl * MAX_SLI + sl; exists p ::
        0 <= p < |old(lists)[i]| && old(lists)[i][p] == b && lists == old(lists)[i := Without(old(lists)[i], p)]
      ensures Only(old(links), links, old(members).Keys) && b in links && links[b] == Link(0, 0)
    {
      var i := fl * MAX_SLI + sl;
      assert ClassOk(matrix[..], links, lists, members, i);
      ghost var list := lists[i];
      ghost var p :| 0 <= p < |list| && list[p] == b;
      Around(list, links, p);
      ghost var lists', members' := lists[i := Without(list, p)], members - {b};
      var next := links[b].next;
      Unlink(b);
      FixHead(b, next, fl, sl, lists');
      Removed(old(matrix[..]), old(links), old(lists), old(members), matrix[..], links, lists', members', i, p);
      lists, members := lists', members';
    }

    /** If b headed its list, the next block does, and the bits follow. */
    method FixHead(b: nat, next: nat, fl: nat, sl: nat, ghost lists': seq<seq<nat>>)
      requires rows != matrix && matrix.Length == CLASSES && fl < REAL_FLI && sl < MAX_SLI
      requires BitsOk(rows[..], top, lists) && SameButOne(lists, lists', fl * MAX_SLI + sl)
      requires lists[fl * MAX_SLI + sl] != []
      requires lists'[fl * MAX_SLI + sl] == [] <==> matrix[fl * MAX_SLI + sl] == b && next == 0
      modifies this`top, rows, matrix
      ensures BitsOk(rows[..], top, lists')
      ensures var i := fl * MAX_SLI + sl;
        matrix[..] == if old(matrix[i]) == b then old(matrix[..])[i := next] else old(matrix[..])
    {
      var i := fl * MAX_SLI + sl;
      if matrix[i] == b {
        matrix[i] := next;
        assert matrix[..] == old(matrix[..])[i := next];
        if next == 0 {
          ClearClass(fl, sl, lists');
        } else {
          KeepBits(rows[..], top, lists, lists', i);
        }
      } else {
        KeepBits(rows[..], top, lists, lists', i);
      }
    }

    /** EXTRACT_BLOCK_HDR: b heads its list. */
    method ExtractHead(b: nat, fl: nat, sl: nat)
      requires Valid() && fl < REAL_FLI && sl < MAX_SLI
      requires At(lists[fl * MAX_SLI + sl], 0) == b != 0
      modifies this, rows, matrix
      ensures Valid() && members == old(members) - {b}
      ensures lists == old(lists)[fl * MAX_SLI + sl := old(lists)[fl * MAX_SLI + sl][1..]]
      ensures Only(old(links), links, old(members).Keys) && b in links && links[b] == Link(0, 0)
    {
      var i := fl * MAX_SLI + sl;
      assert ClassOk(matrix[..], links, lists, members, i);
      ghost var list := lists[i];
      assert LinkedAt(list, links, 0);
      assert 1 < |list| ==> LinkedAt(list, links, 1);
      assert Without(list, 0) == list[1..];
      ghost var lists', members' := lists[i := list[1..]], members - {b};
      matrix[i] := links[b].next;
      assert matrix[..] == old(matrix[..])[i := matrix[i]];
      if matrix[i] != 0 {
        links := links[matrix[i] := links[matrix[i]].(prev := 0)];
        KeepBits(rows[..], top, old(lists), lists', i);
      } else {
        ClearClass(fl, sl, lists');
      }
      links := links[b := Link(0, 0)];
      Removed(old(matrix[..]), old(links), old(lists), old(members), matrix[..], links, lists', members', i, 0);
      lists, members := lists', members';
    }

    /** A store to the first two words of a block that is not free. */
    method Overwrite(b: nat, link: Link)
      requires Valid() && b !in members
      modifies this`links
      ensures Valid() && Only(old(links), links, {b})
    {
      ghost var links0 := links;
      links := links[b := link];
      forall i | 0 <= i < CLASSES ensures ClassOk(matrix[..], links, lists, members, i) {
        assert ClassOk(matrix[..], links0, lists, members, i);
        OtherClass(matrix[..], links0, lists, members, matrix[..], links, lists, members, i);
      }
    }

    /** The head of the first nonempty list from the given class on, or 0. */
    method FindSuitable(fl: nat, sl: nat) returns (b: nat, fl': nat, sl': nat)
      requires Valid() && fl < REAL_FLI && sl < MAX_SLI
      ensures b == 0 ==> NoneFrom(members, fl * MAX_SLI + sl, CLASSES)
      ensures b != 0 ==>
        && fl' < REAL_FLI && sl' < MAX_SLI
        && At(lists[fl' * MAX_SLI + sl'], 0) == b
        && b in members && members[b] == fl' * MAX_SLI + sl' >= fl * MAX_SLI + sl
        && NoneFrom(members, fl * MAX_SLI + sl, fl' * MAX_SLI + sl')
    {
      Pow2Is();
      assert RowOk(rows[..], top, lists, fl);
      TopFits(top);
      var r := NextBit(rows[fl], sl);
      if r >= 0 {
        HeadOfList(matrix[..], links, lists, members, fl * MAX_SLI + r);
        EmptyInRow(rows[..], top, lists, fl, sl, r);
        EmptyNoMember(matrix[..], links, lists, members, fl * MAX_SLI + sl, fl * MAX_SLI + r);
        return matrix[fl * MAX_SLI + r], fl, r;
      }
      EmptyInRow(rows[..], top, lists, fl, sl, MAX_SLI);
      var f := NextBit(top, fl + 1);
      if f <= 0 {
        EmptyRows(rows[..], top, lists, fl + 1, REAL_FLI);
        EmptyNoMember(matrix[..], links, lists, members, fl * MAX_SLI + sl, CLASSES);
        return 0, 0, 0;
      }
      BelowTop(top, f);
      EmptyRows(rows[..], top, lists, fl + 1, f);
      assert RowOk(rows[..], top, lists, f);
      NonzeroRow(rows[f]);
      var s := NextBit(rows[f], 0);
      EmptyInRow(rows[..], top, lists, f, 0, s);
      HeadOfList(matrix[..], links, lists, members, f * MAX_SLI + s);
      EmptyNoMember(matrix[..], links, lists, members, fl * MAX_SLI + sl, f * MAX_SLI + s);
      return matrix[f * MAX_SLI + s], f, s;
    }
  }
}
