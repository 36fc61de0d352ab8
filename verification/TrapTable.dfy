/** mrvl_hostif_trap_list_set over the circular list it keeps for a trap. */
module TrapTable {
  import opened Words
  import opened DList
  import opened SortedKeys
  import opened SortedList
  import opened TrapList

  class TrapPorts {
    var filled: bool
    var count: nat
    var list: List<Entry>

    // The sets so far, and the marks that the entries of the first one happened to carry.
    ghost var asked: seq<seq<u64>>
    ghost var marks: seq<bool>

    /** The counter the source keeps beside the list is its length, and the list is what the sets so far make of it. */
    ghost predicate Valid()
      reads this, list, list.Nodes()
    {
      && filled == (asked != [])
      && (filled ==> list.Valid() && count == |list.elems| && |marks| == |asked[0]|
                     && Entries() == LifeOf(asked, marks))
    }

    ghost function Entries(): seq<Entry>
      reads this, list, list.elems
    {
      list.Entries()
    }

    constructor ()
      ensures Valid() && !filled
    {
      filled, count := false, 0;
      list := new List(Entry(0, false));
      asked, marks := [], [];
    }

    /** mrvl_hostif_trap_list_set */
    method Set(ids: seq<u64>)
      requires Valid()
      modifies this, list, list.Nodes()
      ensures Valid() && asked == old(asked) + [ids] && count == |Entries()|
      ensures old(filled) ==> marks == old(marks) && Entries() == Reset(old(Entries()), ids)
      ensures |asked| >= 3 ==> Exact(Entries(), ids)
    {
      if !filled {
        FirstFill(ids);
      } else {
        LaterSet(ids);
      }
    }

    method FirstFill(ids: seq<u64>)
      requires Valid() && !filled
      modifies this
      ensures Valid() && asked == [ids]
    {
      filled := true;
      count := |ids|;
      list, marks := FirstSet(ids);
      asked := [ids];
      assert asked[1..] == [];
    }

    method LaterSet(ids: seq<u64>)
      requires Valid() && filled
      modifies this, list, list.Nodes()
      ensures Valid() && asked == old(asked) + [ids] && marks == old(marks)
      ensures Entries() == Reset(old(Entries()), ids)
      ensures |asked| >= 3 ==> Exact(Entries(), ids)
    {
      LifeNext(asked, marks, ids);
      count := ResetList(list, ids, count);
      asked := asked + [ids];
    }
  }

  /** What the sets in `asked` make of the list. */
  ghost function LifeOf(asked: seq<seq<u64>>, marks: seq<bool>): seq<Entry>
    requires asked != [] && |marks| == |asked[0]|
  {
    Life(asked[0], marks, asked[1..])
  }

  /** The list has exactly the requested keys, each once and in order, and all marks are clear. */
  ghost predicate Exact(s: seq<Entry>, ids: seq<u64>) {
    StrictlyAscending(KeysIn(s)) && Clear(s) && ListsRequested(s, ids)
  }

  lemma LifeNext(asked: seq<seq<u64>>, marks: seq<bool>, ids: seq<u64>)
    requires asked != [] && |marks| == |asked[0]|
    ensures LifeOf(asked + [ids], marks) == Reset(LifeOf(asked, marks), ids)
    ensures |asked| >= 2 ==> Exact(LifeOf(asked + [ids], marks), ids)
  {
    var later := (asked + [ids])[1..];
    assert later == asked[1..] + [ids] && later[..|later| - 1] == asked[1..];
    if |asked| >= 2 {
      LifeExact(asked[0], marks, later);
    }
  }

  /** A set on a list that has been filled once. */
  method ResetList(list: List<Entry>, ids: seq<u64>, count: nat) returns (now: nat)
    requires list.Valid() && count == |list.elems|
    modifies list, list.Nodes()
    ensures list.Valid() && now == |list.elems| && list.Entries() == Reset(old(list.Entries()), ids)
  {
    if |ids| == 0 {
      now := 0;
      DeleteAll(list);
    } else {
      now := MarkOrInsert(list, ids, count);
      now := SweepOut(list, now);
    }
  }

  /** Step 1 of the update, with the caller's counter. */
  method MarkOrInsert(list: List<Entry>, ids: seq<u64>, count: nat) returns (now: nat)
    requires list.Valid() && count == |list.elems|
    modifies list, list.Nodes()
    ensures list.Valid() && now == |list.elems| && list.Entries() == MarkAll(old(list.Entries()), ids)
    ensures fresh(list.Nodes() - old(list.Nodes()))
  {
    ghost var was := list.Entries();
    ghost var nodes := list.Nodes();
    var i := 0;
    now := count;
    while i < |ids|
      invariant 0 <= i <= |ids|
      invariant list.Valid() && now == |list.elems| && list.Entries() == MarkAll(was, ids[..i])
      invariant fresh(list.Nodes() - nodes)
    {
      now := MarkNext(list, ids, i, now, was);
      i := i + 1;
    }
    assert ids[..i] == ids;
  }

  /** One round of that loop. */
  method MarkNext(list: List<Entry>, ids: seq<u64>, i: nat, count: nat, ghost was: seq<Entry>) returns (now: nat)
    requires list.Valid() && count == |list.elems| && i < |ids| && list.Entries() == MarkAll(was, ids[..i])
    modifies list, list.Nodes()
    ensures list.Valid() && now == |list.elems| && list.Entries() == MarkAll(was, ids[..i + 1])
    ensures fresh(list.Nodes() - old(list.Nodes()))
  {
    MarkAllStep(was, ids, i);
    var inserted := MarkOrInsertOne(list, ids[i]);
    now := if inserted then count + 1 else count;
  }

  lemma MarkAllStep(s: seq<Entry>, ids: seq<u64>, i: nat)
    requires i < |ids|
    ensures MarkAll(s, ids[..i + 1]) == MarkOne(MarkAll(s, ids[..i]), ids[i])
  {
    assert ids[..i + 1][..i] == ids[..i];
  }

  /** Step 2 of the update; it runs as often as the counter says at the start. */
  method SweepOut(list: List<Entry>, count: nat) returns (now: nat)
    requires list.Valid() && count == |list.elems|
    modifies list, list.Nodes()
    ensures list.Valid() && now == |list.elems| && list.Entries() == Sweep(old(list.Entries()))
    ensures list.Nodes() <= old(list.Nodes())
  {
    ghost var goal := Sweep(list.Entries());
    ghost var nodes := list.Nodes();
    var e := list.GetFirst();
    var next := e;
    var i := 0;
    now := count;
    ghost var p: nat := 0;
    while i < count
      invariant 0 <= i <= count && now - p == count - i
      invariant list.Valid() && p <= now == |list.elems| && list.Nodes() <= nodes
      invariant Swept(list.Entries(), p) == goal
      invariant i < count ==> e == list.elems[p]
    {
      e, next, now, p := SweepOne(list, e, next, now, p);
      i := i + 1;
    }
    SweptAll(list.Entries());
  }

  /** One round of that loop. */
  method SweepOne(list: List<Entry>, e: Elem<Entry>, spare: Elem<Entry>, count: nat, ghost p: nat)
    returns (e': Elem<Entry>, next: Elem<Entry>, now: nat, ghost q: nat)
    requires list.Valid() && p < |list.elems| && e == list.elems[p] && count == |list.elems|
    modifies list, list.Nodes()
    ensures list.Valid() && now == |list.elems| && q <= now && now - q == count - p - 1
    ensures Swept(list.Entries(), q) == Swept(old(list.Entries()), p)
    ensures list.Nodes() <= old(list.Nodes())
    ensures q < now ==> e' == list.elems[q]
  {
    OneEntryAt(list.elems, p);
    SweepNext(list.Entries(), p);
    next, now, q := spare, count, p;
    if !e.entry.valid {
      next, now := DeleteEntry(list, e, spare, count, p);
      e' := next;
    } else {
      SetMark(list, e, false, p);
      e' := list.GetNext(e, p + 1);
      q := p + 1;
    }
  }

  /** The list once the rest of the sweep is done, when it has reached position `p`. */
  ghost function Swept(s: seq<Entry>, p: nat): seq<Entry>
    requires p <= |s|
  {
    s[..p] + Sweep(s[p..])
  }

  lemma SweptAll(s: seq<Entry>)
    ensures Swept(s, |s|) == s
  {
    assert s[|s|..] == [];
  }

  /** One step of the sweep at position `p`. */
  lemma SweepNext(s: seq<Entry>, p: nat)
    requires p < |s|
    ensures !s[p].valid ==> Swept(CutAt(s, p), p) == Swept(s, p)
    ensures s[p].valid ==> Swept(s[p := s[p].(valid := false)], p + 1) == Swept(s, p)
  {
    assert s[p..][1..] == s[p + 1..] && s[p..][0] == s[p];
    if !s[p].valid {
      assert CutAt(s, p)[..p] == s[..p] && CutAt(s, p)[p..] == s[p + 1..];
      assert Sweep(s[p..]) == [] + Sweep(s[p + 1..]);
    } else {
      var now := s[p := s[p].(valid := false)];
      assert now[p + 1..] == s[p + 1..] && now[..p + 1] == s[..p] + [s[p].(valid := false)];
    }
  }

  method SetMark(list: List<Entry>, e: Elem<Entry>, mark: bool, ghost p: nat)
    requires list.Valid() && p < |list.elems| && e == list.elems[p]
    modifies e`entry
    ensures list.Valid() && list.Entries() == old(list.Entries())[p := Entry(old(e.entry.data), mark)]
  {
    SetEntry(list, e, e.entry.(valid := mark), p);
  }

  /** The branch of the sweep that drops an entry; a list that becomes empty leaves the next element as it was. */
  method DeleteEntry(list: List<Entry>, e: Elem<Entry>, spare: Elem<Entry>, count: nat, ghost p: nat)
    returns (next: Elem<Entry>, now: nat)
    requires list.Valid() && p < |list.elems| && e == list.elems[p] && count == |list.elems|
    modifies list`elems, list.Nodes()`next, list.Nodes()`prev
    ensures list.Valid() && list.Entries() == CutAt(old(list.Entries()), p)
    ensures list.Nodes() <= old(list.Nodes()) && now == |list.elems| == count - 1
    ensures p < now ==> next == list.elems[p]
  {
    next, now := spare, count - 1;
    if now > 0 {
      next := list.GetNext(e, p + 1);
    }
    Remove(e, list, p);
  }

  /** Look one requested id up; a new entry goes before the element the search stopped at. */
  method MarkOrInsertOne(list: List<Entry>, id: u64) returns (inserted: bool)
    requires list.Valid()
    modifies list, list.Nodes()
    ensures list.Valid() && list.Entries() == MarkOne(old(list.Entries()), id)
    ensures |list.elems| == old(|list.elems|) + if inserted then 1 else 0
    ensures fresh(list.Nodes() - old(list.Nodes()))
  {
    var e, found, p := FindSorted(list, Key(id));
    MarkOneIs(list.Entries(), id, p, found);
    if found {
      OneEntryAt(list.elems, p);
      SetMark(list, e, true, p);
      inserted := false;
    } else {
      InsertMarked(list, e, id, p);
      inserted := true;
    }
  }

  lemma MarkOneIs(s: seq<Entry>, id: u64, p: nat, found: bool)
    requires p == SearchPos(KeysIn(s), Key(id)) <= |s| && (found <==> p < |s| && KeysIn(s)[p] == Key(id))
    ensures MarkOne(s, id) == if found then s[p := Entry(s[p].data, true)] else InsertAt(s, p, Entry(id, true))
  {
  }

  method InsertMarked(list: List<Entry>, e: Elem<Entry>, id: u64, ghost p: nat)
    requires list.Valid() && p <= |list.elems| && e == list.Ring()[p + 1]
    modifies list, list.Nodes()
    ensures list.Valid() && list.Entries() == InsertAt(old(list.Entries()), p, Entry(id, true))
    ensures |list.elems| == old(|list.elems|) + 1 && fresh(list.Nodes() - old(list.Nodes()))
  {
    var x := new Elem(Entry(id, true));
    list.InsertBefore(e, x, p);
  }

  method FirstSet(ids: seq<u64>) returns (list: List<Entry>, ghost marks: seq<bool>)
    ensures |marks| == |ids| && list.Valid() && |list.elems| == |ids| && list.Entries() == Fill(ids, marks)
  {
    list := new List(Entry(0, false));
    marks := FillIn(list, ids);
  }

  /** The loop of the first set: entries in sorted order, their marks as allocation leaves them. */
  method FillIn(list: List<Entry>, ids: seq<u64>) returns (ghost marks: seq<bool>)
    requires list.Valid() && list.elems == []
    modifies list, list.Nodes()
    ensures |marks| == |ids| && list.Valid() && list.Entries() == Fill(ids, marks)
  {
    ghost var nodes := list.Nodes();
    var i := 0;
    marks := [];
    while i < |ids|
      invariant 0 <= i <= |ids| && |marks| == i
      invariant list.Valid() && list.Entries() == Fill(ids[..i], marks)
      invariant fresh(list.Nodes() - nodes)
    {
      var mark: bool := *;
      FillStep(ids, marks, mark);
      InsertNew(list, ids[i], mark);
      marks := marks + [mark];
      i := i + 1;
    }
    assert ids[..i] == ids;
  }

  lemma FillStep(ids: seq<u64>, marks: seq<bool>, mark: bool)
    requires |marks| < |ids|
    ensures var i := |marks|;
            var s := Fill(ids[..i], marks);
            Fill(ids[..i + 1], marks + [mark]) == InsertAt(s, InsertPos(KeysIn(s), Key(ids[i])), Entry(ids[i], mark))
  {
    var i := |marks|;
    assert ids[..i + 1][..i] == ids[..i] && (marks + [mark])[..i] == marks;
  }

  method InsertNew(list: List<Entry>, id: u64, mark: bool)
    requires list.Valid()
    modifies list, list.Nodes()
    ensures list.Valid()
    ensures var was := old(list.Entries());
            list.Entries() == InsertAt(was, InsertPos(KeysIn(was), Key(id)), Entry(id, mark))
    ensures fresh(list.Nodes() - old(list.Nodes()))
  {
    var x := new Elem(Entry(id, mark));
    KeyKept(id);
    InsertSorted(list, x, Key(id));
  }

  /** The loop of a set by the empty request. */
  method DeleteAll(list: List<Entry>)
    requires list.Valid()
    modifies list, list.Nodes()
    ensures list.Valid() && list.elems == []
    ensures list.Nodes() <= old(list.Nodes())
  {
    ghost var nodes := list.Nodes();
    var empty := list.IsEmpty();
    while !empty
      invariant list.Valid() && (empty <==> list.elems == []) && list.Nodes() <= nodes
      decreases |list.elems|
    {
      var e := list.RemoveFromHead();
      empty := list.IsEmpty();
    }
  }
}
