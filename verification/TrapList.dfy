/** The sorted list of ports or VLANs of a trap, mrvl_hostif_trap_list_set in src/mrvl_sai_host_interface.c. */
module TrapList {
  import opened Words
  import opened DList
  import opened SortedKeys

  /** Step 1 of the update for one requested id: mark its entry, or put a marked one where it belongs. */
  function MarkOne(s: seq<Entry>, id: u64): seq<Entry> {
    var p := SearchPos(KeysIn(s), Key(id));
    if p < |s| && Key(s[p].data) == Key(id) then s[p := s[p].(valid := true)] else InsertAt(s, p, Entry(id, true))
  }

  function MarkAll(s: seq<Entry>, ids: seq<u64>): seq<Entry> {
    if ids == [] then s else MarkOne(MarkAll(s, ids[..|ids| - 1]), ids[|ids| - 1])
  }

  /** Step 2: unmarked entries go, the others lose their marks. */
  function Sweep(s: seq<Entry>): seq<Entry> {
    if s == [] then [] else (if s[0].valid then [s[0].(valid := false)] else []) + Sweep(s[1..])
  }

  /** A set on a list that has been filled once. */
  function Reset(s: seq<Entry>, ids: seq<u64>): seq<Entry> {
    if ids == [] then [] else Sweep(MarkAll(s, ids))
  }

  /** The first set. `marks` are the values that the allocated entries happen to carry. */
  function Fill(ids: seq<u64>, marks: seq<bool>): (s: seq<Entry>)
    requires |ids| == |marks|
    ensures |s| == |ids|
  {
    if ids == [] then []
    else
      var n := |ids| - 1;
      var s := Fill(ids[..n], marks[..n]);
      InsertAt(s, InsertPos(KeysIn(s), Key(ids[n])), Entry(ids[n], marks[n]))
  }

  ghost predicate Requested(ids: seq<u64>, key: u32) {
    exists i :: 0 <= i < |ids| && Key(ids[i]) == key
  }

  ghost predicate Marked(s: seq<Entry>, key: u32) {
    exists i :: 0 <= i < |s| && s[i].valid && Key(s[i].data) == key
  }

  ghost predicate Holds(s: seq<Entry>, data: u64) {
    exists i :: 0 <= i < |s| && s[i].data == data
  }

  ghost predicate Clear(s: seq<Entry>) {
    forall i :: 0 <= i < |s| ==> !s[i].valid
  }

  ghost predicate Sorted(s: seq<Entry>) {
    Ascending(KeysIn(s))
  }

  /** A marked entry is the first with its key. */
  ghost predicate MarkedFirst(s: seq<Entry>) {
    forall i, j :: 0 <= i < j < |s| && s[j].valid ==> Key(s[i].data) < Key(s[j].data)
  }

  // ----- One request -----

  lemma Inserted<T>(s: seq<T>, p: nat, x: T)
    requires p <= |s|
    ensures var now := InsertAt(s, p, x);
            && |now| == |s| + 1 && now[p] == x
            && (forall i :: 0 <= i < p ==> now[i] == s[i])
            && (forall i :: p <= i < |s| ==> now[i + 1] == s[i])
            && (forall i :: p < i < |now| ==> now[i] == s[i - 1])
  {
  }

  lemma MarkOneSorted(s: seq<Entry>, id: u64)
    requires Sorted(s)
    ensures Sorted(MarkOne(s, id))
  {
    var keys := KeysIn(s);
    var p := SearchPos(keys, Key(id));
    SearchPosSplits(keys, Key(id));
    if p < |s| && Key(s[p].data) == Key(id) {
      assert KeysIn(MarkOne(s, id)) == keys;
    } else {
      InsertAtAscends(keys, p, Key(id));
      KeysInserted(s, p, Entry(id, true));
    }
  }

  lemma InsertedFirst(s: seq<Entry>, p: nat, e: Entry)
    requires p <= |s| && Sorted(s) && MarkedFirst(s)
    requires forall i :: 0 <= i < p ==> Key(s[i].data) < Key(e.data)
    requires p < |s| ==> Key(e.data) < Key(s[p].data)
    ensures MarkedFirst(InsertAt(s, p, e))
  {
    var keys, now := KeysIn(s), InsertAt(s, p, e);
    forall i, j | 0 <= i < j < |now| && now[j].valid ensures Key(now[i].data) < Key(now[j].data) {
      var a, b := if i < p then i else i - 1, if j < p then j else j - 1;
      assert i != p ==> now[i] == s[a];
      assert j != p ==> now[j] == s[b];
      assert i == p ==> now[i] == e && keys[p] <= keys[b];
      assert j == p ==> now[j] == e;
    }
  }

  lemma MarkOneFirst(s: seq<Entry>, id: u64)
    requires Sorted(s) && MarkedFirst(s)
    ensures MarkedFirst(MarkOne(s, id))
  {
    var keys := KeysIn(s);
    var p := SearchPos(keys, Key(id));
    SearchPosSplits(keys, Key(id));
    assert forall i :: 0 <= i < p ==> Key(s[i].data) == keys[i];
    if p == |s| || Key(s[p].data) != Key(id) {
      InsertedFirst(s, p, Entry(id, true));
    }
  }

  lemma MarkOneMarks(s: seq<Entry>, id: u64, key: u32)
    ensures Marked(MarkOne(s, id), key) <==> Marked(s, key) || key == Key(id)
  {
    var p := SearchPos(KeysIn(s), Key(id));
    var now := MarkOne(s, id);
    if p < |s| && Key(s[p].data) == Key(id) {
      assert now[p].valid && forall i :: 0 <= i < |s| && i != p ==> now[i] == s[i];
      if Marked(s, key) {
        var i :| 0 <= i < |s| && s[i].valid && Key(s[i].data) == key;
        assert now[i].valid && Key(now[i].data) == key;
      }
      if Marked(now, key) {
        var i :| 0 <= i < |now| && now[i].valid && Key(now[i].data) == key;
        assert i != p ==> s[i].valid;
      }
    } else {
      Inserted(s, p, Entry(id, true));
      if Marked(s, key) {
        var i :| 0 <= i < |s| && s[i].valid && Key(s[i].data) == key;
        assert now[if i < p then i else i + 1] == s[i];
      }
      if Marked(now, key) {
        var i :| 0 <= i < |now| && now[i].valid && Key(now[i].data) == key;
        assert i == p || s[if i < p then i else i - 1] == now[i];
      }
    }
  }

  /** A request forgets no data and brings in none but its own. */
  lemma MarkOneHolds(s: seq<Entry>, id: u64, data: u64)
    ensures Holds(s, data) ==> Holds(MarkOne(s, id), data)
    ensures Holds(MarkOne(s, id), data) ==> Holds(s, data) || data == id
  {
    var p := SearchPos(KeysIn(s), Key(id));
    var now := MarkOne(s, id);
    if p < |s| && Key(s[p].data) == Key(id) {
      assert forall i :: 0 <= i < |s| ==> now[i].data == s[i].data;
    } else {
      Inserted(s, p, Entry(id, true));
      if Holds(s, data) {
        var i :| 0 <= i < |s| && s[i].data == data;
        assert now[if i < p then i else i + 1] == s[i];
      }
      if Holds(now, data) {
        var i :| 0 <= i < |now| && now[i].data == data;
        assert i == p || s[if i < p then i else i - 1] == now[i];
      }
    }
  }

  // ----- All requests -----

  lemma RequestedLast(ids: seq<u64>, key: u32)
    requires ids != []
    ensures Requested(ids, key) <==> Requested(ids[..|ids| - 1], key) || key == Key(ids[|ids| - 1])
  {
    var less := ids[..|ids| - 1];
    assert forall i :: 0 <= i < |less| ==> ids[i] == less[i];
    if Requested(less, key) {
      var i :| 0 <= i < |less| && Key(less[i]) == key;
      assert Key(ids[i]) == key;
    }
    if Requested(ids, key) {
      var i :| 0 <= i < |ids| && Key(ids[i]) == key;
      assert i < |less| ==> Key(less[i]) == key;
    }
  }

  lemma {:induction false} MarkAllShape(s: seq<Entry>, ids: seq<u64>)
    requires Sorted(s)
    ensures Sorted(MarkAll(s, ids)) && (MarkedFirst(s) ==> MarkedFirst(MarkAll(s, ids)))
  {
    if ids != [] {
      var n := |ids| - 1;
      MarkAllShape(s, ids[..n]);
      MarkOneSorted(MarkAll(s, ids[..n]), ids[n]);
      if MarkedFirst(s) {
        MarkOneFirst(MarkAll(s, ids[..n]), ids[n]);
      }
    }
  }

  lemma {:induction false} MarkAllMarks(s: seq<Entry>, ids: seq<u64>, key: u32)
    ensures Marked(MarkAll(s, ids), key) <==> Marked(s, key) || Requested(ids, key)
  {
    if ids != [] {
      var n := |ids| - 1;
      MarkAllMarks(s, ids[..n], key);
      MarkOneMarks(MarkAll(s, ids[..n]), ids[n], key);
      RequestedLast(ids, key);
    }
  }

  lemma {:induction false} MarkAllHolds(s: seq<Entry>, ids: seq<u64>, data: u64)
    ensures Holds(s, data) ==> Holds(MarkAll(s, ids), data)
    ensures Holds(MarkAll(s, ids), data) ==> Holds(s, data) || data in ids
  {
    if ids != [] {
      var n := |ids| - 1;
      MarkAllHolds(s, ids[..n], data);
      MarkOneHolds(MarkAll(s, ids[..n]), ids[n], data);
    }
  }

  // ----- The sweep -----

  lemma {:induction false} SweepClears(s: seq<Entry>)
    ensures Clear(Sweep(s))
  {
    if s != [] {
      SweepClears(s[1..]);
    }
  }

  /** What the sweep keeps, entry by entry. */
  lemma {:induction false} SweepKeeps(s: seq<Entry>, data: u64)
    ensures Holds(Sweep(s), data) <==> exists i :: 0 <= i < |s| && s[i].valid && s[i].data == data
  {
    if s != [] {
      SweepKeeps(s[1..], data);
      var head, rest := if s[0].valid then [s[0].(valid := false)] else [], Sweep(s[1..]);
      assert Sweep(s) == head + rest;
      if Holds(rest, data) {
        var i :| 0 <= i < |rest| && rest[i].data == data;
        assert Sweep(s)[|head| + i].data == data;
        var k :| 0 <= k < |s[1..]| && s[1..][k].valid && s[1..][k].data == data;
        assert s[k + 1].valid && s[k + 1].data == data;
      }
      if s[0].valid && s[0].data == data {
        assert Sweep(s)[0].data == data;
      }
      if Holds(Sweep(s), data) {
        var i :| 0 <= i < |Sweep(s)| && Sweep(s)[i].data == data;
        assert i >= |head| ==> rest[i - |head|].data == data;
      }
      if i :| 0 < i < |s| && s[i].valid && s[i].data == data {
        assert s[1..][i - 1].valid && s[1..][i - 1].data == data;
      }
    }
  }

  lemma SweepKeys(s: seq<Entry>, key: u32)
    ensures key in KeysIn(Sweep(s)) <==> Marked(s, key)
  {
    if key in KeysIn(Sweep(s)) {
      var i :| 0 <= i < |Sweep(s)| && KeysIn(Sweep(s))[i] == key;
      SweepKeeps(s, Sweep(s)[i].data);
    }
    if Marked(s, key) {
      var i :| 0 <= i < |s| && s[i].valid && Key(s[i].data) == key;
      SweepKeeps(s, s[i].data);
      var j :| 0 <= j < |Sweep(s)| && Sweep(s)[j].data == s[i].data;
      assert KeysIn(Sweep(s))[j] == key;
    }
  }

  lemma SweepBehind(s: seq<Entry>, j: nat)
    requires Sorted(s) && s != [] && j < |Sweep(s[1..])|
    ensures var data := Sweep(s[1..])[j].data;
            Key(s[0].data) <= Key(data) && (MarkedFirst(s) ==> Key(s[0].data) < Key(data))
  {
    var data := Sweep(s[1..])[j].data;
    SweepKeeps(s[1..], data);
    var k :| 0 <= k < |s[1..]| && s[1..][k].valid && s[1..][k].data == data;
    assert s[k + 1].valid && s[k + 1].data == data;
    assert KeysIn(s)[0] <= KeysIn(s)[k + 1];
  }

  lemma KeysCons(e: Entry, rest: seq<Entry>)
    ensures KeysIn([e] + rest) == [Key(e.data)] + KeysIn(rest)
  {
  }

  lemma AscendingCons(key: u32, rest: seq<u32>)
    ensures Ascending(rest) && (forall j :: 0 <= j < |rest| ==> key <= rest[j]) ==> Ascending([key] + rest)
    ensures StrictlyAscending(rest) && (forall j :: 0 <= j < |rest| ==> key < rest[j]) ==>
              StrictlyAscending([key] + rest)
  {
  }

  lemma TailOrdered(s: seq<Entry>)
    requires s != [] && Sorted(s)
    ensures Sorted(s[1..]) && (MarkedFirst(s) ==> MarkedFirst(s[1..]))
  {
    assert KeysIn(s[1..]) == KeysIn(s)[1..];
  }

  /** The sweep keeps the order; what is left has no repeats when marked entries come first among their equals. */
  lemma {:induction false} SweepOrdered(s: seq<Entry>)
    requires Sorted(s)
    ensures Sorted(Sweep(s)) && (MarkedFirst(s) ==> StrictlyAscending(KeysIn(Sweep(s))))
  {
    if s != [] {
      var rest := Sweep(s[1..]);
      TailOrdered(s);
      SweepOrdered(s[1..]);
      forall j | 0 <= j < |rest|
        ensures Key(s[0].data) <= KeysIn(rest)[j] && (MarkedFirst(s) ==> Key(s[0].data) < KeysIn(rest)[j])
      {
        SweepBehind(s, j);
      }
      if s[0].valid {
        KeysCons(s[0].(valid := false), rest);
        AscendingCons(Key(s[0].data), KeysIn(rest));
      }
    }
  }

  // ----- What a set does -----

  /** Whatever the marks were: the list stays sorted, all marks are clear afterwards, and the keys are the requested
      ones and those that carried a mark before. */
  lemma ResetIs(s: seq<Entry>, ids: seq<u64>)
    requires Sorted(s) && ids != []
    ensures Sorted(Reset(s, ids)) && Clear(Reset(s, ids))
    ensures forall key: u32 :: key in KeysIn(Reset(s, ids)) <==> Requested(ids, key) || Marked(s, key)
  {
    MarkAllShape(s, ids);
    SweepOrdered(MarkAll(s, ids));
    SweepClears(MarkAll(s, ids));
    forall key: u32 ensures key in KeysIn(Reset(s, ids)) <==> Requested(ids, key) || Marked(s, key) {
      MarkAllMarks(s, ids, key);
      SweepKeys(MarkAll(s, ids), key);
    }
  }

  /** With all marks clear, a set leaves exactly the requested keys, each once; repeats that were there are gone. */
  lemma ResetExact(s: seq<Entry>, ids: seq<u64>)
    requires Sorted(s) && Clear(s)
    ensures StrictlyAscending(KeysIn(Reset(s, ids))) && Clear(Reset(s, ids))
    ensures forall key: u32 :: key in KeysIn(Reset(s, ids)) <==> Requested(ids, key)
  {
    if ids != [] {
      ResetIs(s, ids);
      MarkAllShape(s, ids);
      SweepOrdered(MarkAll(s, ids));
      assert forall key: u32 :: !Marked(s, key);
    }
  }

  ghost predicate ListsRequested(s: seq<Entry>, ids: seq<u64>) {
    forall key: u32 :: key in KeysIn(s) <==> Requested(ids, key)
  }

  /** A set by a non-empty request is exact when, and only when, no entry outside the request carries a mark. */
  lemma ResetExactIff(s: seq<Entry>, ids: seq<u64>)
    requires Sorted(s) && ids != []
    ensures ListsRequested(Reset(s, ids), ids) <==>
            forall i :: 0 <= i < |s| && s[i].valid ==> Requested(ids, Key(s[i].data))
  {
    ResetIs(s, ids);
    forall i | 0 <= i < |s| && s[i].valid ensures Marked(s, Key(s[i].data)) {
    }
  }

  ghost predicate HoldsRequested(s: seq<Entry>, ids: seq<u64>) {
    forall data: u64 :: Holds(s, data) <==> data in ids
  }

  /** No requested id shares its low word with another requested or listed one. */
  ghost predicate Separate(s: seq<Entry>, ids: seq<u64>) {
    && (forall i, j :: 0 <= i < |ids| && 0 <= j < |ids| && Key(ids[i]) == Key(ids[j]) ==> ids[i] == ids[j])
    && (forall i, j :: 0 <= i < |ids| && 0 <= j < |s| && Key(ids[i]) == Key(s[j].data) ==> ids[i] == s[j].data)
  }

  lemma EqualKeysEqualData(s: seq<Entry>, a: u64, b: u64)
    requires StrictlyAscending(KeysIn(s)) && Holds(s, a) && Holds(s, b) && Key(a) == Key(b)
    ensures a == b
  {
    var i :| 0 <= i < |s| && s[i].data == a;
    var j :| 0 <= j < |s| && s[j].data == b;
    assert KeysIn(s)[i] == KeysIn(s)[j];
  }

  /** What is listed after a set was listed before or requested, under a requested key. */
  lemma HeldAfter(s: seq<Entry>, ids: seq<u64>, data: u64)
    requires Sorted(s) && Clear(s) && Holds(Reset(s, ids), data)
    ensures (Holds(s, data) || data in ids) && Requested(ids, Key(data))
  {
    ResetExact(s, ids);
    var i :| 0 <= i < |Reset(s, ids)| && Reset(s, ids)[i].data == data;
    assert KeysIn(Reset(s, ids))[i] == Key(data);
    var all := MarkAll(s, ids);
    SweepKeeps(all, data);
    assert Holds(all, data);
    MarkAllHolds(s, ids, data);
  }

  /** A listed entry whose key is requested stays as it is. */
  lemma KeptAfter(s: seq<Entry>, ids: seq<u64>, data: u64)
    requires StrictlyAscending(KeysIn(s)) && Clear(s) && Holds(s, data) && Requested(ids, Key(data))
    ensures Holds(Reset(s, ids), data)
  {
    ResetExact(s, ids);
    MarkAllKeeps(s, ids, data);
    SweepKeeps(MarkAll(s, ids), data);
  }

  /** From a list without repeats, a key that is both listed and requested keeps its one entry, now marked. */
  lemma MarkAllKeeps(s: seq<Entry>, ids: seq<u64>, data: u64)
    requires StrictlyAscending(KeysIn(s)) && Holds(s, data) && Requested(ids, Key(data))
    ensures exists i :: 0 <= i < |MarkAll(s, ids)| && MarkAll(s, ids)[i].valid && MarkAll(s, ids)[i].data == data
  {
    var all := MarkAll(s, ids);
    MarkAllMarks(s, ids, Key(data));
    MarkAllHolds(s, ids, data);
    MarkAllStrict(s, ids);
    var i :| 0 <= i < |all| && all[i].valid && Key(all[i].data) == Key(data);
    EqualKeysEqualData(all, all[i].data, data);
  }

  lemma {:induction false} MarkAllStrict(s: seq<Entry>, ids: seq<u64>)
    requires StrictlyAscending(KeysIn(s))
    ensures StrictlyAscending(KeysIn(MarkAll(s, ids)))
  {
    if ids != [] {
      var n := |ids| - 1;
      MarkAllStrict(s, ids[..n]);
      MarkOneStrict(MarkAll(s, ids[..n]), ids[n]);
    }
  }

  lemma InsertAtStrict(keys: seq<u32>, p: nat, key: u32)
    requires p <= |keys| && StrictlyAscending(keys)
    requires (forall i :: 0 <= i < p ==> keys[i] < key) && (p < |keys| ==> key < keys[p])
    ensures StrictlyAscending(InsertAt(keys, p, key))
  {
    var now := InsertAt(keys, p, key);
    forall i, j | 0 <= i < j < |now| ensures now[i] < now[j] {
      var a, b := if i < p then i else i - 1, if j < p then j else j - 1;
      assert i != p ==> now[i] == keys[a];
      assert j != p ==> now[j] == keys[b];
      assert i == p ==> keys[p] <= keys[b];
    }
  }

  lemma MarkOneStrict(s: seq<Entry>, id: u64)
    requires StrictlyAscending(KeysIn(s))
    ensures StrictlyAscending(KeysIn(MarkOne(s, id)))
  {
    var keys := KeysIn(s);
    var p := SearchPos(keys, Key(id));
    SearchPosSplits(keys, Key(id));
    if p < |s| && Key(s[p].data) == Key(id) {
      assert KeysIn(MarkOne(s, id)) == keys;
    } else {
      KeysInserted(s, p, Entry(id, true));
      InsertAtStrict(keys, p, Key(id));
    }
  }

  /** The list ends up with exactly the requested ids, as 64-bit values, when and only when no requested id shares its
      low word with a different requested or listed one. */
  lemma ResetHoldsIff(s: seq<Entry>, ids: seq<u64>)
    requires StrictlyAscending(KeysIn(s)) && Clear(s)
    ensures HoldsRequested(Reset(s, ids), ids) <==> Separate(s, ids)
  {
    var now := Reset(s, ids);
    ResetExact(s, ids);
    if Separate(s, ids) {
      forall data: u64 ensures Holds(now, data) <==> data in ids {
        if Holds(now, data) {
          HeldAfter(s, ids, data);
        }
        if data in ids {
          HeldWhenSeparate(s, ids, data);
        }
      }
    }
    if HoldsRequested(now, ids) {
      forall i, j | 0 <= i < |ids| && 0 <= j < |s| && Key(ids[i]) == Key(s[j].data) ensures ids[i] == s[j].data {
        KeptAfter(s, ids, s[j].data);
        EqualKeysEqualData(now, ids[i], s[j].data);
      }
      forall i, j | 0 <= i < |ids| && 0 <= j < |ids| && Key(ids[i]) == Key(ids[j]) ensures ids[i] == ids[j] {
        EqualKeysEqualData(now, ids[i], ids[j]);
      }
    }
  }

  lemma HeldWhenSeparate(s: seq<Entry>, ids: seq<u64>, data: u64)
    requires StrictlyAscending(KeysIn(s)) && Clear(s) && Separate(s, ids) && data in ids
    ensures Holds(Reset(s, ids), data)
  {
    var now := Reset(s, ids);
    ResetExact(s, ids);
    var i :| 0 <= i < |ids| && ids[i] == data;
    assert Requested(ids, Key(data));
    var j :| 0 <= j < |now| && KeysIn(now)[j] == Key(data);
    assert Holds(now, now[j].data);
    HeldAfter(s, ids, now[j].data);
  }

  /** How an object id carries its type and its number, mrvl_sai_utl_create_object. */
  function ObjectId(kind: u32, number: u32): u64
    requires kind < 256
  {
    number * WORD + kind
  }

  /** Ids of objects of one kind have the same low word, so a list set by them has one entry however many there are. */
  lemma ObjectIdsCollapse(s: seq<Entry>, kind: u32, numbers: seq<u32>)
    requires Sorted(s) && Clear(s) && kind < 256 && numbers != []
    ensures |Reset(s, seq(|numbers|, i requires 0 <= i < |numbers| => ObjectId(kind, numbers[i])))| == 1
  {
    var ids: seq<u64> := seq(|numbers|, i requires 0 <= i < |numbers| => ObjectId(kind, numbers[i]));
    var now := Reset(s, ids);
    ResetExact(s, ids);
    forall i | 0 <= i < |ids| ensures Key(ids[i]) == kind {
    }
    assert Requested(ids, kind) by { assert Key(ids[0]) == kind; }
    forall key: u32 ensures key in KeysIn(now) <==> key == kind {
      assert key in KeysIn(now) <==> Requested(ids, key);
    }
    SingleKey(KeysIn(now), kind);
  }

  lemma SingleKey(keys: seq<u32>, key: u32)
    requires StrictlyAscending(keys) && (forall k :: k in keys <==> k == key)
    ensures |keys| == 1
  {
    assert key in keys;
    assert |keys| > 1 ==> keys[0] < keys[1];
    forall i | 0 <= i < |keys| ensures keys[i] == key {
      assert keys[i] in keys;
    }
    if |keys| > 1 {
      assert false;
    }
  }

  // ----- The first set and all that follow -----

  lemma {:induction false} FillSorted(ids: seq<u64>, marks: seq<bool>)
    requires |ids| == |marks|
    ensures Sorted(Fill(ids, marks))
    ensures forall key: u32 :: key in KeysIn(Fill(ids, marks)) <==> Requested(ids, key)
  {
    if ids != [] {
      var n := |ids| - 1;
      var s := Fill(ids[..n], marks[..n]);
      FillSorted(ids[..n], marks[..n]);
      var p := InsertPos(KeysIn(s), Key(ids[n]));
      InsertKeepsAscending(KeysIn(s), Key(ids[n]));
      KeysInserted(s, p, Entry(ids[n], marks[n]));
      forall key: u32 ensures key in KeysIn(Fill(ids, marks)) <==> Requested(ids, key) {
        RequestedLast(ids, key);
        assert key in InsertAt(KeysIn(s), p, Key(ids[n])) <==> key in KeysIn(s) || key == Key(ids[n]) by {
          assert multiset(InsertAt(KeysIn(s), p, Key(ids[n])))[key] ==
                 (multiset(KeysIn(s)) + multiset{Key(ids[n])})[key];
        }
      }
    }
  }

  /** The list after the first set and the sets in `later`. */
  function Life(first: seq<u64>, marks: seq<bool>, later: seq<seq<u64>>): seq<Entry>
    requires |first| == |marks|
  {
    if later == [] then Fill(first, marks) else Reset(Life(first, marks, later[..|later| - 1]), later[|later| - 1])
  }

  lemma {:induction false} LifeSorted(first: seq<u64>, marks: seq<bool>, later: seq<seq<u64>>)
    requires |first| == |marks|
    ensures Sorted(Life(first, marks, later)) && (later != [] ==> Clear(Life(first, marks, later)))
  {
    if later == [] {
      FillSorted(first, marks);
    } else {
      var n := |later| - 1;
      LifeSorted(first, marks, later[..n]);
      if later[n] != [] {
        ResetIs(Life(first, marks, later[..n]), later[n]);
      }
    }
  }

  /** Whatever marks the first entries carried, from the third set on the list is exactly what was asked for last. */
  lemma LifeExact(first: seq<u64>, marks: seq<bool>, later: seq<seq<u64>>)
    requires |first| == |marks| && |later| >= 2
    ensures var s := Life(first, marks, later);
            && StrictlyAscending(KeysIn(s)) && Clear(s) && ListsRequested(s, later[|later| - 1])
            && LowWordsExact(s, later[|later| - 1])
  {
    var n := |later| - 1;
    LifeSorted(first, marks, later[..n]);
    ResetExact(Life(first, marks, later[..n]), later[n]);
    ExactLowWords(Life(first, marks, later), later[n]);
  }

  /** The low words of the list ascend, each is that of a requested id, and each requested id has its low word there. */
  ghost predicate LowWordsExact(s: seq<Entry>, ids: seq<u64>) {
    && (forall i, j :: 0 <= i < j < |s| ==> s[i].data % 0x1_0000_0000 < s[j].data % 0x1_0000_0000)
    && (forall i :: 0 <= i < |s| ==>
          exists j :: 0 <= j < |ids| && ids[j] % 0x1_0000_0000 == s[i].data % 0x1_0000_0000)
    && (forall j :: 0 <= j < |ids| ==>
          exists i :: 0 <= i < |s| && s[i].data % 0x1_0000_0000 == ids[j] % 0x1_0000_0000)
  }

  lemma ExactLowWords(s: seq<Entry>, ids: seq<u64>)
    requires StrictlyAscending(KeysIn(s)) && ListsRequested(s, ids)
    ensures LowWordsExact(s, ids)
  {
    KeysAreLowWords(s);
    forall i | 0 <= i < |s| ensures exists j :: 0 <= j < |ids| && ids[j] % 0x1_0000_0000 == s[i].data % 0x1_0000_0000 {
      assert KeysIn(s)[i] in KeysIn(s);
      var j :| 0 <= j < |ids| && Key(ids[j]) == KeysIn(s)[i];
      assert ids[j] % 0x1_0000_0000 == s[i].data % 0x1_0000_0000;
    }
    forall j | 0 <= j < |ids| ensures exists i :: 0 <= i < |s| && s[i].data % 0x1_0000_0000 == ids[j] % 0x1_0000_0000 {
      assert Requested(ids, Key(ids[j]));
      var i :| 0 <= i < |s| && KeysIn(s)[i] == Key(ids[j]);
      assert s[i].data % 0x1_0000_0000 == ids[j] % 0x1_0000_0000;
    }
  }

  /** The second set is exact when and only when no entry of the first that came with a mark is left out of it. */
  lemma SecondSetExactIff(first: seq<u64>, marks: seq<bool>, ids: seq<u64>)
    requires |first| == |marks| && ids != []
    ensures ListsRequested(Life(first, marks, [ids]), ids)
            <==> forall i :: 0 <= i < |first| && marks[i] ==> Requested(ids, Key(first[i]))
  {
    var s := Fill(first, marks);
    assert [ids][..0] == [];
    assert Life(first, marks, [ids]) == Reset(s, ids);
    FillSorted(first, marks);
    ResetExactIff(s, ids);
    if forall i :: 0 <= i < |first| && marks[i] ==> Requested(ids, Key(first[i])) {
      forall i | 0 <= i < |s| && s[i].valid ensures Requested(ids, Key(s[i].data)) {
        FillMarks(first, marks, s[i]);
        var j :| 0 <= j < |first| && first[j] == s[i].data && marks[j] == s[i].valid;
      }
    }
    if forall i :: 0 <= i < |s| && s[i].valid ==> Requested(ids, Key(s[i].data)) {
      forall i | 0 <= i < |first| && marks[i] ensures Requested(ids, Key(first[i])) {
        FillMarks(first, marks, Entry(first[i], true));
        var j :| 0 <= j < |s| && s[j] == Entry(first[i], true);
      }
    }
  }

  ghost predicate CameWith(ids: seq<u64>, marks: seq<bool>, e: Entry)
    requires |ids| == |marks|
  {
    exists i :: 0 <= i < |ids| && ids[i] == e.data && marks[i] == e.valid
  }

  lemma CameLast(ids: seq<u64>, marks: seq<bool>, e: Entry)
    requires |ids| == |marks| && ids != []
    ensures var n := |ids| - 1;
            CameWith(ids, marks, e) <==> CameWith(ids[..n], marks[..n], e) || e == Entry(ids[n], marks[n])
  {
    var n := |ids| - 1;
    assert forall i :: 0 <= i < n ==> ids[..n][i] == ids[i] && marks[..n][i] == marks[i];
    if CameWith(ids, marks, e) {
      var i :| 0 <= i < |ids| && ids[i] == e.data && marks[i] == e.valid;
      assert i < n ==> ids[..n][i] == e.data && marks[..n][i] == e.valid;
    }
    if CameWith(ids[..n], marks[..n], e) {
      var i :| 0 <= i < n && ids[..n][i] == e.data && marks[..n][i] == e.valid;
      assert ids[i] == e.data && marks[i] == e.valid;
    }
  }

  lemma {:induction false} FillMarks(ids: seq<u64>, marks: seq<bool>, e: Entry)
    requires |ids| == |marks|
    ensures e in Fill(ids, marks) <==> CameWith(ids, marks, e)
  {
    if ids != [] {
      var n := |ids| - 1;
      var s, x := Fill(ids[..n], marks[..n]), Entry(ids[n], marks[n]);
      FillMarks(ids[..n], marks[..n], e);
      CameLast(ids, marks, e);
      var p := InsertPos(KeysIn(s), Key(ids[n]));
      InsertAtAdds(s, p, x);
      assert multiset(InsertAt(s, p, x))[e] == (multiset(s) + multiset{x})[e];
    }
  }
}
