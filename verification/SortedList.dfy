/** The functions of src/utils/mrvl_sai_dlist.c that read and write a 32-bit word of the entries. */
module SortedList {
  import opened Words
  import opened DList
  import opened SortedKeys

  /** One step round the ring, seen from the keys. */
  lemma StepAt(list: List<Entry>, keys: seq<u32>, p: nat)
    requires list.Valid() && keys == KeysIn(list.Entries()) && p <= |keys|
    ensures |keys| == |list.elems|
    ensures list.Ring()[p].next == list.Ring()[p + 1] && (list.Ring()[p + 1] == list.header <==> p == |keys|)
    ensures p < |keys| ==> Key(list.Ring()[p + 1].entry.data) == keys[p]
  {
    if p < |list.elems| {
      OneEntryAt(list.elems, p);
    }
  }

  /** mrvl_sai_utl_dlist_find_sorted_element: the first element whose key is not smaller, or the header */
  method FindSorted(list: List<Entry>, key: u32) returns (e: Elem<Entry>, found: bool, ghost p: nat)
    requires list.Valid()
    ensures p == SearchPos(KeysIn(list.Entries()), key)
    ensures var keys := KeysIn(list.Entries());
            var q := SearchPos(keys, key);
            e == list.Ring()[q + 1] && (found <==> q < |keys| && keys[q] == key)
  {
    ghost var keys := KeysIn(list.Entries());
    var prev := list.header;
    found := false;
    p := 0;
    while prev.next != list.header
      invariant 0 <= p <= |keys| && prev == list.Ring()[p] && !found
      invariant forall i :: 0 <= i < p ==> keys[i] < key
      decreases |keys| - p
    {
      StepAt(list, keys, p);
      var data := Key(prev.next.entry.data);
      if key > data {
        prev := prev.next;
        p := p + 1;
      } else if key == data {
        found := true;
        break;
      } else {
        break;
      }
    }
    SearchPosIs(keys, key, p);
    StepAt(list, keys, p);
    e := prev.next;
  }

  /** mrvl_sai_utl_dlist_insert_sorted_element: before the first bigger element */
  method InsertSorted(list: List<Entry>, x: Elem<Entry>, key: u32)
    requires list.Valid() && x !in list.Ring()
    modifies list`elems, list.Nodes()`next, list.Nodes()`prev, x
    ensures list.Valid() && x.entry == old(x.entry).(data := WithKey(old(x.entry.data), key))
    ensures var was := old(list.Entries());
            var p := InsertPos(KeysIn(was), key);
            list.elems == InsertAt(old(list.elems), p, x) && list.Entries() == InsertAt(was, p, x.entry)
  {
    var prev, p := FindBigger(list, key);
    PlaceKey(list, prev, prev.next, x, key, p);
  }

  /** Its walk */
  method FindBigger(list: List<Entry>, key: u32) returns (prev: Elem<Entry>, ghost p: nat)
    requires list.Valid()
    ensures p == InsertPos(KeysIn(list.Entries()), key)
    ensures prev == list.Ring()[p] && prev.next == list.Ring()[p + 1]
  {
    ghost var keys := KeysIn(list.Entries());
    prev, p := list.header, 0;
    while prev.next != list.header
      invariant 0 <= p <= |keys| && prev == list.Ring()[p]
      invariant forall i :: 0 <= i < p ==> keys[i] <= key
      decreases |keys| - p
    {
      StepAt(list, keys, p);
      var data := Key(prev.next.entry.data);
      if key < data {
        break;
      } else {
        prev := prev.next;
        p := p + 1;
      }
    }
    InsertPosIs(keys, key, p);
    StepAt(list, keys, p);
  }

  /** mrvl_sai_utl_dlist_insert_bigger_element: insertion into a list of successive differences */
  method InsertBigger(list: List<Entry>, x: Elem<Entry>, key: u32)
    requires list.Valid() && x !in list.Ring()
    modifies list, list.Nodes(), x
    ensures var was := KeysIn(old(list.Entries()));
            && list.Valid() && list.elems == InsertAt(old(list.elems), DeltaPos(was, key), x)
            && KeysIn(list.Entries()) == InsertDelta(was, key)
  {
    var prev, rest, p := FindDelta(list, key);
    if prev.next != list.header {
      SplitDelta(list, prev, x, rest, p);
    } else {
      ghost var was := list.Entries();
      PlaceKey(list, prev, prev.next, x, rest, p);
      KeysInserted(was, p, x.entry);
    }
  }

  /** Its walk, which takes each difference it passes off the new one */
  method FindDelta(list: List<Entry>, key: u32) returns (prev: Elem<Entry>, rest: u32, ghost p: nat)
    requires list.Valid()
    ensures var keys := KeysIn(list.Entries());
            var q := DeltaPos(keys, key);
            && p == q && prev == list.Ring()[q] && prev.next == list.Ring()[q + 1]
            && (prev.next == list.header <==> q == |keys|) && (q < |keys| ==> rest < keys[q])
            && InsertDelta(keys, key) == WithDelta(keys, q, rest)
  {
    ghost var keys := KeysIn(list.Entries());
    prev, rest, p := list.header, key, 0;
    while prev.next != list.header
      invariant 0 <= p <= |keys| && prev == list.Ring()[p]
      invariant Passed(keys, key, p) && rest == Left(keys, key, p)
      decreases |keys| - p
    {
      StepAt(list, keys, p);
      var data := Key(prev.next.entry.data);
      if rest < data {
        break;
      } else {
        prev := prev.next;
        rest := rest - data;
        p := p + 1;
      }
    }
    StepAt(list, keys, p);
    DeltaStops(keys, key, p);
  }

  /** Give a new element its key and put it between two neighbours. */
  method PlaceKey(list: List<Entry>, prev: Elem<Entry>, next: Elem<Entry>, x: Elem<Entry>, key: u32, ghost p: nat)
    requires list.Valid() && p <= |list.elems| && prev == list.Ring()[p] && next == list.Ring()[p + 1]
             && x !in list.Ring()
    modifies list`elems, list.Nodes()`next, list.Nodes()`prev, x
    ensures list.Valid() && list.elems == InsertAt(old(list.elems), p, x)
    ensures x.entry == old(x.entry).(data := WithKey(old(x.entry.data), key))
    ensures list.Entries() == InsertAt(old(list.Entries()), p, x.entry)
  {
    x.entry := x.entry.(data := WithKey(x.entry.data, key));
    list.PrvInsert(prev, next, x, p);
  }

  /** The inner branch of mrvl_sai_utl_dlist_insert_bigger_element: the new element takes its part off the difference
      of the element it is put before. */
  method SplitDelta(list: List<Entry>, prev: Elem<Entry>, x: Elem<Entry>, rest: u32, ghost p: nat)
    requires list.Valid() && x !in list.Ring() && p < |list.elems| && prev == list.Ring()[p]
    requires rest < KeysIn(list.Entries())[p]
    modifies list, list.Nodes(), x
    ensures list.Valid() && list.elems == InsertAt(old(list.elems), p, x)
    ensures KeysIn(list.Entries()) == WithDelta(KeysIn(old(list.Entries())), p, rest)
  {
    var next := NextOf(list, prev, p);
    var data := Key(next.entry.data);
    SplitKeys(list.Entries(), p, x.entry.(data := WithKey(x.entry.data, rest)));
    PlaceAndSet(list, prev, next, x, rest, next.entry.(data := WithKey(next.entry.data, data - rest)), p);
  }

  /** Its two writes to the entries */
  method PlaceAndSet(list: List<Entry>, prev: Elem<Entry>, next: Elem<Entry>, x: Elem<Entry>, key: u32, entry: Entry,
        ghost p: nat)
    requires list.Valid() && x !in list.Ring() && p < |list.elems| && prev == list.Ring()[p] && next == list.elems[p]
    modifies list, list.Nodes(), x
    ensures list.Valid() && list.elems == InsertAt(old(list.elems), p, x)
    ensures list.Entries()
            == InsertAt(old(list.Entries()), p, old(x.entry.(data := WithKey(x.entry.data, key))))[p + 1 := entry]
  {
    PlaceKey(list, prev, next, x, key, p);
    SetEntry(list, next, entry, p + 1);
  }

  /** The element behind another */
  method NextOf(list: List<Entry>, prev: Elem<Entry>, ghost p: nat) returns (next: Elem<Entry>)
    requires list.Valid() && p < |list.elems| && prev == list.Ring()[p]
    ensures next == prev.next == list.elems[p] && next.entry == list.Entries()[p]
  {
    assert list.Ring()[p].next == list.Ring()[p + 1];
    OneEntryAt(list.elems, p);
    next := prev.next;
  }

  lemma SplitKeys(was: seq<Entry>, p: nat, e: Entry)
    requires p < |was| && Key(e.data) < Key(was[p].data)
    ensures var next := was[p].(data := WithKey(was[p].data, Key(was[p].data) - Key(e.data)));
            KeysIn(InsertAt(was, p, e)[p + 1 := next]) == WithDelta(KeysIn(was), p, Key(e.data))
  {
  }

  /** Write the entry of one element. */
  method SetEntry<T>(list: List<T>, e: Elem<T>, entry: T, ghost p: nat)
    requires list.Valid() && p < |list.elems| && e == list.elems[p]
    modifies e`entry
    ensures list.Valid() && list.Entries() == old(list.Entries())[p := entry]
  {
    EntryAt(list.elems);
    ghost var was := list.Entries();
    e.entry := entry;
    EntryAt(list.elems);
    assert forall i :: 0 <= i < |was| && i != p ==> list.elems[i] != e;
  }
}
