/** The intrusive circular doubly-linked list with a header element, src/utils/mrvl_sai_dlist.c. */
module DList {
  import opened SeqLib

  /** A list element with the entry it is embedded in; a header is embedded in none that matters. A detached element has
      null links. */
  class Elem<T> {
    var next: Elem?<T>
    var prev: Elem?<T>
    var entry: T

    constructor (entry: T)
      ensures this.entry == entry && next == null && prev == null
    {
      this.entry := entry;
      next, prev := null, null;
    }
  }

  function InsertAt<T>(s: seq<T>, p: nat, x: T): seq<T>
    requires p <= |s|
  {
    s[..p] + [x] + s[p..]
  }

  function CutAt<T>(s: seq<T>, p: nat): seq<T>
    requires p < |s|
  {
    s[..p] + s[p + 1..]
  }

  /** Going round after an insertion. */
  lemma RingInserted<T>(h: T, s: seq<T>, p: nat, x: T)
    requires p <= |s| && h !in s && NoDup(s) && x != h && x !in s
    ensures var ring := [h] + s + [h];
            [h] + InsertAt(s, p, x) + [h] == ring[..p + 1] + [x] + ring[p + 1..]
    ensures h !in InsertAt(s, p, x) && NoDup(InsertAt(s, p, x))
  {
    var ring, now := [h] + s + [h], [h] + InsertAt(s, p, x) + [h];
    assert ring[..p + 1] == [h] + s[..p] && ring[p + 1..] == s[p..] + [h];
    assert now == [h] + s[..p] + [x] + s[p..] + [h];
  }

  lemma RingCut<T>(h: T, s: seq<T>, p: nat)
    requires p < |s| && h !in s && NoDup(s)
    ensures var ring := [h] + s + [h];
            [h] + CutAt(s, p) + [h] == ring[..p + 1] + ring[p + 2..]
    ensures h !in CutAt(s, p) && NoDup(CutAt(s, p))
  {
    var ring := [h] + s + [h];
    assert ring[..p + 1] == [h] + s[..p] && ring[p + 2..] == s[p + 1..] + [h];
  }

  /** The entries that elements are embedded in. */
  ghost function EntriesOf<T>(elems: seq<Elem<T>>): (entries: seq<T>)
    reads elems`entry
    ensures |entries| == |elems|
  {
    if elems == [] then [] else [elems[0].entry] + EntriesOf(elems[1..])
  }

  lemma {:induction false} EntryAt<T>(elems: seq<Elem<T>>)
    ensures forall i :: 0 <= i < |elems| ==> EntriesOf(elems)[i] == elems[i].entry
  {
    if elems != [] {
      EntryAt(elems[1..]);
    }
  }

  lemma OneEntryAt<T>(elems: seq<Elem<T>>, p: nat)
    requires p < |elems|
    ensures EntriesOf(elems)[p] == elems[p].entry
  {
    EntryAt(elems);
  }

  lemma {:induction false} EntriesInserted<T>(elems: seq<Elem<T>>, p: nat, x: Elem<T>)
    requires p <= |elems|
    ensures EntriesOf(InsertAt(elems, p, x)) == InsertAt(EntriesOf(elems), p, x.entry)
  {
    var now := InsertAt(elems, p, x);
    if p == 0 {
      assert now[1..] == elems;
    } else {
      assert now[1..] == InsertAt(elems[1..], p - 1, x);
      EntriesInserted(elems[1..], p - 1, x);
    }
  }

  lemma {:induction false} EntriesCut<T>(elems: seq<Elem<T>>, p: nat)
    requires p < |elems|
    ensures EntriesOf(CutAt(elems, p)) == CutAt(EntriesOf(elems), p)
  {
    var now := CutAt(elems, p);
    if p == 0 {
      assert now == elems[1..];
    } else {
      assert now[1..] == CutAt(elems[1..], p - 1);
      EntriesCut(elems[1..], p - 1);
    }
  }

  /** Consecutive elements point at each other. */
  ghost predicate Linked<T>(ring: seq<Elem<T>>)
    reads ring`next, ring`prev
  {
    && (forall i {:trigger ring[i].next} :: 0 <= i < |ring| - 1 ==> ring[i].next == ring[i + 1])
    && (forall i {:trigger ring[i].prev} :: 0 < i < |ring| ==> ring[i].prev == ring[i - 1])
  }

  /** Writing the four links around a new element. */
  lemma Spliced<T>(ring: seq<Elem<T>>, x: Elem<T>, p: nat)
    requires p + 1 < |ring|
    requires ring[p].next == x && x.next == ring[p + 1] && x.prev == ring[p] && ring[p + 1].prev == x
    requires forall i {:trigger ring[i].next} :: 0 <= i < |ring| - 1 && i != p ==> ring[i].next == ring[i + 1]
    requires forall i {:trigger ring[i].prev} :: 0 < i < |ring| && i != p + 1 ==> ring[i].prev == ring[i - 1]
    ensures Linked(ring[..p + 1] + [x] + ring[p + 1..])
  {
    var now := ring[..p + 1] + [x] + ring[p + 1..];
    forall i | 0 <= i < |now| - 1 ensures now[i].next == now[i + 1] {
      if i != p && i != p + 1 {
        var j := if i < p then i else i - 1;
        assert now[i] == ring[j] && now[i + 1] == ring[j + 1];
      }
    }
    forall i | 0 < i < |now| ensures now[i].prev == now[i - 1] {
      if i != p + 1 && i != p + 2 {
        var j := if i <= p then i else i - 1;
        assert now[i] == ring[j] && now[i - 1] == ring[j - 1];
      }
    }
  }

  /** Writing the two links that close the gap around an element. */
  lemma Closed<T>(ring: seq<Elem<T>>, p: nat)
    requires p + 2 < |ring|
    requires ring[p].next == ring[p + 2] && ring[p + 2].prev == ring[p]
    requires forall i {:trigger ring[i].next} :: 0 <= i < |ring| - 1 && i != p ==> ring[i].next == ring[i + 1]
    requires forall i {:trigger ring[i].prev} :: 0 < i < |ring| && i != p + 2 ==> ring[i].prev == ring[i - 1]
    ensures Linked(ring[..p + 1] + ring[p + 2..])
  {
    var now := ring[..p + 1] + ring[p + 2..];
    forall i | 0 <= i < |now| - 1 ensures now[i].next == now[i + 1] {
      if i != p {
        var j := if i < p then i else i + 1;
        assert now[i] == ring[j] && now[i + 1] == ring[j + 1];
      }
    }
    forall i | 0 < i < |now| ensures now[i].prev == now[i - 1] {
      if i != p + 1 {
        var j := if i <= p then i else i + 1;
        assert now[i] == ring[j] && now[i - 1] == ring[j - 1];
      }
    }
  }

  class List<T> {
    const header: Elem<T>
    // The elements from head to tail.
    ghost var elems: seq<Elem<T>>

    /** Once around, from header to header. */
    ghost function Ring(): seq<Elem<T>>
      reads this`elems
    {
      [header] + elems + [header]
    }

    ghost function Nodes(): set<Elem<T>>
      reads this`elems
    {
      set e | e in Ring()
    }

    ghost predicate Valid()
      reads this`elems, Nodes()`next, Nodes()`prev
    {
      header !in elems && NoDup(elems) && Linked(Ring())
    }

    ghost function Entries(): (entries: seq<T>)
      reads this`elems, elems`entry
      ensures |entries| == |elems|
    {
      EntriesOf(elems)
    }

    /** On the way around only the header is met twice. */
    lemma RingDistinct()
      requires header !in elems && NoDup(elems)
      ensures forall i, j :: 0 <= i < j < |Ring()| - 1 ==> Ring()[i] != Ring()[j]
      ensures forall i, j :: 0 < i < j < |Ring()| ==> Ring()[i] != Ring()[j]
    {
    }

    /** mrvl_sai_utl_dlist_init; `filler` stands for the entry that a header does not have */
    constructor (filler: T)
      ensures Valid() && elems == [] && fresh(header)
    {
      var h := new Elem<T>(filler);
      header := h;
      elems := [];
      new;
      header.next := header;
      header.prev := header;
    }

    /** mrvl_sai_utl_dlist_is_empty */
    method IsEmpty() returns (empty: bool)
      requires Valid()
      ensures empty <==> elems == []
    {
      assert Ring()[0].next == Ring()[1];
      empty := header.next == header;
    }

    /** mrvl_sai_utl_dlist_is_last */
    method IsLast(e: Elem<T>, ghost p: nat) returns (last: bool)
      requires Valid() && p < |elems| && e == elems[p]
      ensures last <==> p == |elems| - 1
    {
      assert Ring()[p + 1].next == Ring()[p + 2];
      last := e.next == header;
    }

    /** mrvl_sai_utl_dlist_get_first; the header when there is none */
    method GetFirst() returns (e: Elem<T>)
      requires Valid()
      ensures e == if elems == [] then header else elems[0]
    {
      assert Ring()[0].next == Ring()[1];
      e := header.next;
    }

    /** mrvl_sai_utl_dlist_get_last */
    method GetLast() returns (e: Elem<T>)
      requires Valid()
      ensures e == if elems == [] then header else elems[|elems| - 1]
    {
      assert Ring()[|elems| + 1].prev == Ring()[|elems|];
      e := header.prev;
    }

    /** mrvl_sai_utl_dlist_get_next, of an element or of the header */
    method GetNext(e: Elem<T>, ghost p: nat) returns (n: Elem<T>)
      requires Valid() && p <= |elems| && e == Ring()[p]
      ensures n == Ring()[p + 1]
    {
      assert Ring()[p].next == Ring()[p + 1];
      n := e.next;
    }

    /** mrvl_sai_utl_dlist_prv_insert, between two neighbours */
    method PrvInsert(prev: Elem<T>, next: Elem<T>, x: Elem<T>, ghost p: nat)
      requires Valid() && p <= |elems| && prev == Ring()[p] && next == Ring()[p + 1] && x !in Ring()
      modifies this`elems, Nodes()`next, Nodes()`prev, x`next, x`prev
      ensures Valid() && elems == InsertAt(old(elems), p, x) && Entries() == InsertAt(old(Entries()), p, x.entry)
    {
      EntriesInserted(elems, p, x);
      RingInserted(header, elems, p, x);
      Splice(prev, next, x, p);
      elems := InsertAt(elems, p, x);
    }

    /** Its four writes */
    method Splice(prev: Elem<T>, next: Elem<T>, x: Elem<T>, ghost p: nat)
      requires Valid() && p <= |elems| && prev == Ring()[p] && next == Ring()[p + 1] && x !in Ring()
      modifies Nodes()`next, Nodes()`prev, x`next, x`prev
      ensures Linked(Ring()[..p + 1] + [x] + Ring()[p + 1..])
    {
      ghost var ring := Ring();
      RingDistinct();
      next.prev := x;
      prev.next := x;
      x.next := next;
      x.prev := prev;
      Spliced(ring, x, p);
    }

    /** mrvl_sai_utl_dlist_insert_after */
    method InsertAfter(prev: Elem<T>, x: Elem<T>, ghost p: nat)
      requires Valid() && p <= |elems| && prev == Ring()[p] && x !in Ring()
      modifies this`elems, Nodes()`next, Nodes()`prev, x`next, x`prev
      ensures Valid() && elems == InsertAt(old(elems), p, x) && Entries() == InsertAt(old(Entries()), p, x.entry)
    {
      assert Ring()[p].next == Ring()[p + 1];
      PrvInsert(prev, prev.next, x, p);
    }

    /** mrvl_sai_utl_dlist_insert_before */
    method InsertBefore(next: Elem<T>, x: Elem<T>, ghost p: nat)
      requires Valid() && p <= |elems| && next == Ring()[p + 1] && x !in Ring()
      modifies this`elems, Nodes()`next, Nodes()`prev, x`next, x`prev
      ensures Valid() && elems == InsertAt(old(elems), p, x) && Entries() == InsertAt(old(Entries()), p, x.entry)
    {
      assert Ring()[p + 1].prev == Ring()[p];
      PrvInsert(next.prev, next, x, p);
    }

    /** mrvl_sai_utl_dlist_insert_to_head */
    method InsertToHead(x: Elem<T>)
      requires Valid() && x !in Ring()
      modifies this`elems, Nodes()`next, Nodes()`prev, x`next, x`prev
      ensures Valid() && elems == [x] + old(elems) && Entries() == [x.entry] + old(Entries())
    {
      assert Ring()[0].next == Ring()[1];
      PrvInsert(header, header.next, x, 0);
    }

    /** mrvl_sai_utl_dlist_insert_to_tail */
    method InsertToTail(x: Elem<T>)
      requires Valid() && x !in Ring()
      modifies this`elems, Nodes()`next, Nodes()`prev, x`next, x`prev
      ensures Valid() && elems == old(elems) + [x] && Entries() == old(Entries()) + [x.entry]
    {
      assert Ring()[|elems| + 1].prev == Ring()[|elems|];
      PrvInsert(header.prev, header, x, |elems|);
    }

    /** mrvl_sai_utl_dlist_remove_from_head; on the empty list it hands out the header and changes nothing */
    method RemoveFromHead() returns (x: Elem<T>)
      requires Valid()
      modifies this`elems, Nodes()`next, Nodes()`prev
      ensures Valid()
      ensures if old(elems) == [] then x == header && elems == [] else x == old(elems)[0] && elems == old(elems)[1..]
    {
      assert Ring()[0].next == Ring()[1];
      x := header.next;
      if x == header {
        header.next := header.next.next;
        header.next.prev := header;
      } else {
        assert Ring()[1].next == Ring()[2];
        PrvRemove(header, header.next.next, this, 0);
      }
    }

    /** mrvl_sai_utl_dlist_remove_from_tail */
    method RemoveFromTail() returns (x: Elem<T>)
      requires Valid()
      modifies this`elems, Nodes()`next, Nodes()`prev
      ensures Valid()
      ensures if old(elems) == [] then x == header && elems == []
              else x == old(elems)[|old(elems)| - 1] && elems == old(elems)[..|old(elems)| - 1]
    {
      assert Ring()[|elems| + 1].prev == Ring()[|elems|];
      x := header.prev;
      if x == header {
        header.prev.prev.next := header;
        header.prev := header.prev.prev;
      } else {
        assert Ring()[|elems|].prev == Ring()[|elems| - 1];
        PrvRemove(header.prev.prev, header, this, |elems| - 1);
      }
    }

    /** mrvl_sai_utl_dlist_move_to_head */
    method MoveToHead(x: Elem<T>, ghost p: nat)
      requires Valid() && p < |elems| && x == elems[p]
      modifies this`elems, Nodes()`next, Nodes()`prev
      ensures Valid() && elems == [x] + CutAt(old(elems), p)
    {
      assert Ring()[p + 1].next == Ring()[p + 2] && Ring()[p + 1].prev == Ring()[p];
      PrvRemove(x.prev, x.next, this, p);
      InsertToHead(x);
    }

    /** mrvl_sai_utl_dlist_move_to_tail */
    method MoveToTail(x: Elem<T>, ghost p: nat)
      requires Valid() && p < |elems| && x == elems[p]
      modifies this`elems, Nodes()`next, Nodes()`prev
      ensures Valid() && elems == CutAt(old(elems), p) + [x]
    {
      assert Ring()[p + 1].next == Ring()[p + 2] && Ring()[p + 1].prev == Ring()[p];
      PrvRemove(x.prev, x.next, this, p);
      InsertToTail(x);
    }
  }

  /** mrvl_sai_utl_dlist_prv_remove: close the gap around the element at `p`, whose own links stay */
  method PrvRemove<T>(prev: Elem<T>, next: Elem<T>, ghost list: List<T>, ghost p: nat)
    requires list.Valid() && p < |list.elems| && prev == list.Ring()[p] && next == list.Ring()[p + 2]
    modifies list`elems, list.Nodes()`next, list.Nodes()`prev
    ensures list.Valid() && list.elems == CutAt(old(list.elems), p) && list.Entries() == CutAt(old(list.Entries()), p)
    ensures old(list.elems)[p].next == next && old(list.elems)[p].prev == prev
  {
    EntriesCut(list.elems, p);
    RingCut(list.header, list.elems, p);
    ghost var cut := CutAt(list.elems, p);
    assert forall e :: e in cut ==> e in list.elems;
    Close(prev, next, list, p);
    list.elems := cut;
  }

  /** Its two writes */
  method Close<T>(prev: Elem<T>, next: Elem<T>, ghost list: List<T>, ghost p: nat)
    requires list.Valid() && p < |list.elems| && prev == list.Ring()[p] && next == list.Ring()[p + 2]
    modifies list.Nodes()`next, list.Nodes()`prev
    ensures Linked(list.Ring()[..p + 1] + list.Ring()[p + 2..])
    ensures list.elems[p].next == next && list.elems[p].prev == prev
  {
    ghost var ring := list.Ring();
    assert ring[p + 1].next == ring[p + 2] && ring[p + 1].prev == ring[p];
    list.RingDistinct();
    prev.next := next;
    next.prev := prev;
    Closed(ring, p);
  }

  /** mrvl_sai_utl_dlist_remove: unlink an element from whatever list it is on; one that is on none stays as it is. */
  method Remove<T>(x: Elem<T>, ghost list: List?<T>, ghost p: nat)
    requires if list == null then x.next == null && x.prev == null
             else list.Valid() && p < |list.elems| && x == list.elems[p]
    modifies x`next, x`prev
    modifies (if list == null then {} else {list})`elems
    modifies (if list == null then {} else list.Nodes())`next, (if list == null then {} else list.Nodes())`prev
    ensures x.next == null && x.prev == null
    ensures list != null ==> list.Valid() && list.elems == CutAt(old(list.elems), p)
    ensures list != null ==> list.Entries() == CutAt(old(list.Entries()), p)
  {
    assert list != null ==> list.Ring()[p + 1].next == list.Ring()[p + 2] && list.Ring()[p + 1].prev == list.Ring()[p];
    if x.prev != null && x.next != null {
      PrvRemove(x.prev, x.next, list, p);
    }
    x.next := null;
    x.prev := null;
  }
}
