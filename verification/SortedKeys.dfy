/** What the three searching list functions look for, and what that means for sorted lists and for delta queues. */
module SortedKeys {
  import opened Words
  import opened DList

  /** What the list functions read and write of an entry: the 32-bit word at the data's offset, the low one. */
  function Key(data: u64): u32 { data % WORD }

  function WithKey(data: u64, key: u32): (d: u64)
    ensures Key(d) == key && d / WORD == data / WORD
  {
    data / WORD * WORD + key
  }

  /** Writing a key writes the low word, and no other bit. */
  lemma KeyWritten(data: u64, key: u32)
    ensures WithKey(data, key) % 0x1_0000_0000 == key
    ensures WithKey(data, key) / 0x1_0000_0000 == data / 0x1_0000_0000
  {
  }

  lemma KeyKept(data: u64)
    ensures WithKey(data, Key(data)) == data
  {
  }

  /** An entry of a sorted list: mrvl_sai_hostif_list_entry_t without its links */
  datatype Entry = Entry(data: u64, valid: bool)

  function KeysIn(s: seq<Entry>): (keys: seq<u32>)
    ensures |keys| == |s| && forall i :: 0 <= i < |s| ==> keys[i] == Key(s[i].data)
  {
    seq(|s|, i requires 0 <= i < |s| => Key(s[i].data))
  }

  /** The keys are the low words of the data. */
  lemma KeysAreLowWords(s: seq<Entry>)
    ensures |KeysIn(s)| == |s| && forall i :: 0 <= i < |s| ==> KeysIn(s)[i] == s[i].data % 0x1_0000_0000
  {
  }

  lemma KeysInserted(s: seq<Entry>, p: nat, e: Entry)
    requires p <= |s|
    ensures KeysIn(InsertAt(s, p, e)) == InsertAt(KeysIn(s), p, Key(e.data))
  {
  }

  /** The first position whose key is not smaller. */
  function SearchPos(keys: seq<u32>, key: u32): (p: nat)
    ensures p <= |keys|
  {
    if keys == [] || keys[0] >= key then 0 else 1 + SearchPos(keys[1..], key)
  }

  /** The first position whose key is bigger. */
  function InsertPos(keys: seq<nat>, key: nat): (p: nat)
    ensures p <= |keys|
  {
    if keys == [] || keys[0] > key then 0 else 1 + InsertPos(keys[1..], key)
  }

  lemma {:induction false} SearchPosIs(keys: seq<u32>, key: u32, p: nat)
    requires p <= |keys| && (forall i :: 0 <= i < p ==> keys[i] < key) && (p < |keys| ==> keys[p] >= key)
    ensures SearchPos(keys, key) == p
  {
    if p > 0 {
      SearchPosIs(keys[1..], key, p - 1);
    }
  }

  lemma {:induction false} InsertPosIs(keys: seq<nat>, key: nat, p: nat)
    requires p <= |keys| && (forall i :: 0 <= i < p ==> keys[i] <= key) && (p < |keys| ==> keys[p] > key)
    ensures InsertPos(keys, key) == p
  {
    if p > 0 {
      InsertPosIs(keys[1..], key, p - 1);
    }
  }

  // ----- Lists of successive differences -----

  function InsertDelta(deltas: seq<u32>, x: u32): seq<u32>
  {
    if deltas == [] then [x]
    else if x < deltas[0] then [x, deltas[0] - x] + deltas[1..]
    else [deltas[0]] + InsertDelta(deltas[1..], x - deltas[0])
  }

  /** A new difference before position `p`, taken off the one that stands there. */
  function WithDelta(deltas: seq<u32>, p: nat, rest: u32): seq<u32>
    requires p <= |deltas| && (p < |deltas| ==> rest <= deltas[p])
  {
    var now := InsertAt(deltas, p, rest);
    if p == |deltas| then now else now[p + 1 := deltas[p] - rest]
  }

  /** The first `p` differences are passed and `rest` is what is left of `key`. */
  ghost predicate DeltaReached(deltas: seq<u32>, key: u32, p: nat, rest: u32) {
    && p <= |deltas|
    && InsertDelta(deltas, key) == deltas[..p] + InsertDelta(deltas[p..], rest)
    && DeltaPos(deltas, key) == p + DeltaPos(deltas[p..], rest)
  }

  /** What is left of `key` behind the first `p` differences. */
  ghost function Left(deltas: seq<u32>, key: u32, p: nat): int
    requires p <= |deltas|
  {
    if p == 0 then key else Left(deltas, key, p - 1) - deltas[p - 1]
  }

  /** None of the first `p` differences is bigger than what is left before it. */
  ghost predicate Passed(deltas: seq<u32>, key: u32, p: nat)
    requires p <= |deltas|
  {
    p == 0 || (Passed(deltas, key, p - 1) && deltas[p - 1] <= Left(deltas, key, p - 1))
  }

  lemma {:induction false} PassedReaches(deltas: seq<u32>, key: u32, p: nat)
    requires p <= |deltas| && Passed(deltas, key, p)
    ensures 0 <= Left(deltas, key, p) <= key && DeltaReached(deltas, key, p, Left(deltas, key, p))
  {
    if p > 0 {
      PassedReaches(deltas, key, p - 1);
      DeltaNext(deltas, key, p - 1, Left(deltas, key, p - 1));
    }
  }

  /** A walk over the differences stops at the place and with the rest of the insertion. */
  lemma DeltaStops(deltas: seq<u32>, key: u32, p: nat)
    requires p <= |deltas| && Passed(deltas, key, p) && (p < |deltas| ==> Left(deltas, key, p) < deltas[p])
    ensures 0 <= Left(deltas, key, p) <= key && DeltaPos(deltas, key) == p
    ensures InsertDelta(deltas, key) == WithDelta(deltas, p, Left(deltas, key, p))
  {
    PassedReaches(deltas, key, p);
    DeltaDone(deltas, key, p, Left(deltas, key, p));
  }

  lemma DeltaNext(deltas: seq<u32>, key: u32, p: nat, rest: u32)
    requires DeltaReached(deltas, key, p, rest) && p < |deltas|
    ensures rest >= deltas[p] ==> DeltaReached(deltas, key, p + 1, rest - deltas[p])
  {
    assert deltas[p..][1..] == deltas[p + 1..];
    assert deltas[..p + 1] == deltas[..p] + [deltas[p]];
  }

  lemma DeltaDone(deltas: seq<u32>, key: u32, p: nat, rest: u32)
    requires DeltaReached(deltas, key, p, rest) && (p < |deltas| ==> rest < deltas[p])
    ensures DeltaPos(deltas, key) == p
    ensures InsertDelta(deltas, key) == WithDelta(deltas, p, rest)
  {
    if p == |deltas| {
      assert deltas[..p] == deltas && deltas[p..] == [];
    } else {
      DeltaHead(deltas[p..], rest);
      assert deltas[p..][1..] == deltas[p + 1..];
      DeltaSplit(deltas, p, rest);
    }
  }

  lemma DeltaHead(deltas: seq<u32>, rest: u32)
    requires deltas != [] && rest < deltas[0]
    ensures DeltaPos(deltas, rest) == 0 && InsertDelta(deltas, rest) == [rest, deltas[0] - rest] + deltas[1..]
  {
  }

  lemma DeltaSplit(deltas: seq<u32>, p: nat, rest: u32)
    requires p < |deltas| && rest < deltas[p]
    ensures deltas[..p] + ([rest, deltas[p] - rest] + deltas[p + 1..])
            == WithDelta(deltas, p, rest)
  {
  }

  /** Where `InsertDelta` puts the new element. */
  function DeltaPos(deltas: seq<u32>, x: u32): (p: nat)
    ensures p <= |deltas|
  {
    if deltas == [] || x < deltas[0] then 0 else 1 + DeltaPos(deltas[1..], x - deltas[0])
  }

  // ----- Sorted lists -----

  ghost predicate Ascending(keys: seq<nat>) {
    forall i, j :: 0 <= i < j < |keys| ==> keys[i] <= keys[j]
  }

  ghost predicate StrictlyAscending(keys: seq<nat>) {
    forall i, j :: 0 <= i < j < |keys| ==> keys[i] < keys[j]
  }

  lemma {:induction false} InsertPosSplits(keys: seq<nat>, key: nat)
    ensures var p := InsertPos(keys, key);
            (forall i :: 0 <= i < p ==> keys[i] <= key) && (p < |keys| ==> keys[p] > key)
  {
    if keys != [] && keys[0] <= key {
      InsertPosSplits(keys[1..], key);
      var p := InsertPos(keys[1..], key);
      forall i | 0 <= i < p + 1 ensures keys[i] <= key {
        if i > 0 { assert keys[i] == keys[1..][i - 1]; }
      }
    }
  }

  lemma {:induction false} SearchPosSplits(keys: seq<u32>, key: u32)
    ensures var p := SearchPos(keys, key);
            (forall i :: 0 <= i < p ==> keys[i] < key) && (p < |keys| ==> keys[p] >= key)
  {
    if keys != [] && keys[0] < key {
      SearchPosSplits(keys[1..], key);
      var p := SearchPos(keys[1..], key);
      forall i | 0 <= i < p + 1 ensures keys[i] < key {
        if i > 0 { assert keys[i] == keys[1..][i - 1]; }
      }
    }
  }

  lemma InsertAtAscends(keys: seq<nat>, p: nat, key: nat)
    requires Ascending(keys) && p <= |keys|
    requires (forall i :: 0 <= i < p ==> keys[i] <= key) && (p < |keys| ==> keys[p] >= key)
    ensures Ascending(InsertAt(keys, p, key))
  {
    var now := InsertAt(keys, p, key);
    forall i, j | 0 <= i < j < |now| ensures now[i] <= now[j] {
      assert now[i] == if i < p then keys[i] else if i == p then key else keys[i - 1];
      assert now[j] == if j < p then keys[j] else if j == p then key else keys[j - 1];
      assert j > p ==> keys[p] <= keys[j - 1];
    }
  }

  lemma InsertAtAdds<T>(s: seq<T>, p: nat, x: T)
    requires p <= |s|
    ensures multiset(InsertAt(s, p, x)) == multiset(s) + multiset{x}
  {
    assert s == s[..p] + s[p..];
  }

  /** The sorted insertion keeps the list sorted and adds exactly the new key, behind its equals and before all that is
      bigger. */
  lemma InsertKeepsAscending(keys: seq<u32>, key: u32)
    requires Ascending(keys)
    ensures var now := InsertAt(keys, InsertPos(keys, key), key);
            && Ascending(now) && multiset(now) == multiset(keys) + multiset{key}
            && var p := InsertPos(keys, key);
               (forall i :: 0 <= i < p ==> keys[i] <= key) && (forall i :: p <= i < |keys| ==> keys[i] > key)
  {
    InsertPosSplits(keys, key);
    InsertAtAscends(keys, InsertPos(keys, key), key);
    InsertAtAdds(keys, InsertPos(keys, key), key);
  }

  /** On a sorted list the search finds a key exactly when it is there. */
  lemma SearchFinds(keys: seq<u32>, key: u32)
    requires Ascending(keys)
    ensures var p := SearchPos(keys, key);
            (p < |keys| && keys[p] == key) <==> key in keys
  {
    SearchPosSplits(keys, key);
  }

  // ----- Running sums -----

  /** The running sums of a list of differences, from `base` on. */
  function Sums(deltas: seq<u32>, base: nat): (sums: seq<nat>)
    ensures |sums| == |deltas|
  {
    if deltas == [] then [] else [base + deltas[0]] + Sums(deltas[1..], base + deltas[0])
  }

  lemma {:induction false} SumsAscend(deltas: seq<u32>, base: nat)
    ensures Ascending(Sums(deltas, base))
    ensures forall i :: 0 <= i < |deltas| ==> base <= Sums(deltas, base)[i]
  {
    if deltas != [] {
      var rest := Sums(deltas[1..], base + deltas[0]);
      SumsAscend(deltas[1..], base + deltas[0]);
      assert forall i :: 0 < i < |deltas| ==> Sums(deltas, base)[i] == rest[i - 1];
    }
  }

  lemma SumsCons(d: u32, rest: seq<u32>, base: nat)
    ensures Sums([d] + rest, base) == [base + d] + Sums(rest, base + d)
  {
    assert ([d] + rest)[1..] == rest;
  }

  lemma InsertDeltaCons(d: u32, rest: seq<u32>, x: u32)
    ensures InsertDelta([d] + rest, x) == if x < d then [x] + ([d - x] + rest) else [d] + InsertDelta(rest, x - d)
    ensures DeltaPos([d] + rest, x) == if x < d then 0 else 1 + DeltaPos(rest, x - d)
  {
    assert ([d] + rest)[1..] == rest;
    assert [x] + ([d - x] + rest) == [x, d - x] + rest || x >= d;
  }

  lemma SumsOfSplit(d: u32, rest: seq<u32>, x: u32, base: nat)
    requires x < d
    ensures Sums([x] + ([d - x] + rest), base) == [base + x] + Sums([d] + rest, base)
  {
    SumsCons(x, [d - x] + rest, base);
    SumsCons(d - x, rest, base + x);
    SumsCons(d, rest, base);
    assert base + x + (d - x) == base + d;
  }

  /** What the delta insertion promises about the sums. */
  ghost predicate InsertsSum(deltas: seq<u32>, x: u32, base: nat) {
    var sums := Sums(deltas, base);
    var p := InsertPos(sums, base + x);
    DeltaPos(deltas, x) == p && Sums(InsertDelta(deltas, x), base) == InsertAt(sums, p, base + x)
  }

  lemma InsertsSumFront(d: u32, rest: seq<u32>, x: u32, base: nat)
    requires x < d
    ensures InsertsSum([d] + rest, x, base)
  {
    SumsCons(d, rest, base);
    InsertDeltaCons(d, rest, x);
    SumsOfSplit(d, rest, x, base);
    InsertAtFront(Sums([d] + rest, base), base + x);
  }

  lemma InsertsSumBehind(d: u32, rest: seq<u32>, x: u32, base: nat)
    requires x >= d && InsertsSum(rest, x - d, base + d)
    ensures InsertsSum([d] + rest, x, base)
  {
    var sums, t := Sums(rest, base + d), base + x;
    assert base + d + (x - d) == t;
    SumsBehind(d, rest, InsertDelta(rest, x - d), base, InsertPos(sums, t), t);
    InsertDeltaCons(d, rest, x);
    SumsCons(d, rest, base);
    InsertPosCons(base + d, sums, t);
  }

  lemma SumsBehind(d: u32, rest: seq<u32>, after: seq<u32>, base: nat, p: nat, t: nat)
    requires p <= |rest| && Sums(after, base + d) == InsertAt(Sums(rest, base + d), p, t)
    ensures Sums([d] + after, base) == InsertAt(Sums([d] + rest, base), p + 1, t)
  {
    SumsCons(d, rest, base);
    SumsCons(d, after, base);
    Prefixed(base + d, Sums(rest, base + d), Sums(after, base + d), p, t, Sums([d] + rest, base),
        Sums([d] + after, base));
  }

  lemma Prefixed(a: nat, s: seq<nat>, s': seq<nat>, p: nat, t: nat, r: seq<nat>, r': seq<nat>)
    requires p <= |s| && s' == InsertAt(s, p, t) && r == [a] + s && r' == [a] + s'
    ensures r' == InsertAt(r, p + 1, t)
  {
    InsertAtBehind(a, s, p, t);
  }

  /** The delta insertion puts `base + x` after all sums that do not exceed it and before all others, and leaves every
      other sum as it was; no subtraction goes below zero. */
  lemma DeltaInsertInsertsSum(deltas: seq<u32>, x: u32, base: nat)
    ensures var sums, p := Sums(deltas, base), DeltaPos(deltas, x);
            && (forall i :: 0 <= i < p ==> sums[i] <= base + x)
            && (forall i :: p <= i < |sums| ==> sums[i] > base + x)
            && Sums(InsertDelta(deltas, x), base) == InsertAt(sums, p, base + x)
  {
    DeltaInserts(deltas, x, base);
    SumsAscend(deltas, base);
    InsertPosSplits(Sums(deltas, base), base + x);
  }

  lemma {:induction false} DeltaInserts(deltas: seq<u32>, x: u32, base: nat)
    ensures InsertsSum(deltas, x, base)
  {
    if deltas == [] {
      assert InsertAt<nat>([], 0, base + x) == [base + x];
    } else {
      var d, rest := deltas[0], deltas[1..];
      assert deltas == [d] + rest;
      if x < d {
        InsertsSumFront(d, rest, x, base);
      } else {
        DeltaInserts(rest, x - d, base + d);
        InsertsSumBehind(d, rest, x, base);
      }
    }
  }

  lemma InsertPosCons(a: nat, s: seq<nat>, t: nat)
    requires a <= t
    ensures InsertPos([a] + s, t) == 1 + InsertPos(s, t)
  {
    assert ([a] + s)[1..] == s;
  }

  lemma InsertAtFront<T>(s: seq<T>, x: T)
    ensures InsertAt(s, 0, x) == [x] + s
  {
  }

  lemma InsertAtBehind<T>(a: T, s: seq<T>, p: nat, x: T)
    requires p <= |s|
    ensures InsertAt([a] + s, p + 1, x) == [a] + InsertAt(s, p, x)
  {
  }

  /** Differences are determined by their sums. */
  lemma {:induction false} SumsDetermine(a: seq<u32>, b: seq<u32>, base: nat)
    requires Sums(a, base) == Sums(b, base)
    ensures a == b
  {
    if a != [] {
      assert Sums(a, base)[0] == base + a[0] && Sums(b, base)[0] == base + b[0];
      assert Sums(a, base)[1..] == Sums(a[1..], base + a[0]);
      assert Sums(b, base)[1..] == Sums(b[1..], base + b[0]);
      SumsDetermine(a[1..], b[1..], base + a[0]);
    }
  }
}
