/** The hash of route entries with the list element in each, and the headers of the next hops' route lists. */
module RouteStore {
  import opened Words
  import opened L3Types
  import opened SeqLib
  import opened DList

  /** mrvl_sai_route_hash_entry_t without its links */
  datatype RouteRow = RouteRow(key: RouteKey, action: PacketAction, nhValid: bool, nhIdx: NhId, nbrIdx: u32)

  const NO_ROUTE_ROW := RouteRow(RouteKey(0, Prefix(V4(0), 0)), Forward, false, 0, 0)

  function RowOf(key: RouteKey, route: Route): RouteRow
  {
    RouteRow(key, route.action, route.nhValid, route.nhIdx, route.nbrIdx)
  }

  lemma RowsUpdated(routes: map<RouteKey, Route>, key: RouteKey, route: Route)
    ensures RowsOf(routes[key := route]) == RowsOf(routes)[key := RowOf(key, route)]
    ensures RowsOf(routes - {key}) == RowsOf(routes) - {key}
  {
  }

  function RowsOf(routes: map<RouteKey, Route>): map<RouteKey, RouteRow>
  {
    map k | k in routes :: RowOf(k, routes[k])
  }

  /** The ring of a next hop holds exactly the entries of `keys`, in that order; a header that is all zero has none. */
  ghost predicate Spells(ring: List?<RouteRow>, keys: seq<RouteKey>, entries: map<RouteKey, Elem<RouteRow>>)
    reads (if ring == null then {} else {ring})`elems
    reads (if ring == null then {} else ring.Nodes())`next, (if ring == null then {} else ring.Nodes())`prev
  {
    if ring == null then keys == []
    else
      && ring.Valid() && |ring.elems| == |keys|
      && forall i :: 0 <= i < |keys| ==> keys[i] in entries && ring.elems[i] == entries[keys[i]]
  }

  /** Each list holds the keys that are on its ring, once each. */
  ghost predicate Listed(lists: seq<seq<RouteKey>>, ringOf: map<RouteKey, NhId>) {
    && |lists| == NH_TABLE_SIZE
    && (forall h: NhId :: NoDup(lists[h]))
    && (forall h: NhId, k :: k in lists[h] <==> k in ringOf && ringOf[k] == h)
  }

  lemma OnItsList(lists: seq<seq<RouteKey>>, ringOf: map<RouteKey, NhId>, key: RouteKey)
    requires Listed(lists, ringOf)
    ensures key in ringOf ==> key in lists[ringOf[key]]
  {
  }

  lemma JoinListed(lists: seq<seq<RouteKey>>, ringOf: map<RouteKey, NhId>, h: NhId, key: RouteKey)
    requires Listed(lists, ringOf) && key !in ringOf
    ensures Listed(lists[h := lists[h] + [key]], ringOf[key := h])
  {
    var list := lists[h] + [key];
    assert forall k :: k in list <==> k in lists[h] || k == key;
    assert key !in lists[h] && NoDup(list);
  }

  /** The lists without a key, which is on one of them at most. */
  function LeftBy(lists: seq<seq<RouteKey>>, ringOf: map<RouteKey, NhId>, key: RouteKey): seq<seq<RouteKey>>
    requires |lists| == NH_TABLE_SIZE
  {
    if key in ringOf then lists[ringOf[key] := Without(lists[ringOf[key]], key)] else lists
  }

  lemma LeaveListed(lists: seq<seq<RouteKey>>, ringOf: map<RouteKey, NhId>, key: RouteKey)
    requires Listed(lists, ringOf)
    ensures Listed(LeftBy(lists, ringOf, key), ringOf - {key})
  {
    if key in ringOf {
      WithoutNoDup(lists[ringOf[key]], key);
    }
  }

  class Store {
    var entries: map<RouteKey, Elem<RouteRow>>
    const heads: array<List?<RouteRow>>
    // What the entries hold, the keys on each next hop's ring, and for each key that is on one, on which.
    ghost var table: map<RouteKey, RouteRow>
    ghost var lists: seq<seq<RouteKey>>
    ghost var ringOf: map<RouteKey, NhId>
    // Every header that is or was in use, and every element that is or was in the hash or a header.
    ghost var rings: set<List<RouteRow>>
    ghost var nodes: set<Elem<RouteRow>>
    // All of these, and the array of headers.
    ghost var Repr: set<object>

    ghost predicate Valid()
      reads this, Repr
    {
      && heads in Repr && rings <= Repr && nodes <= Repr && this !in Repr
      && Holds(lists, ringOf)
    }

    /** The rings are those of `lists`, and `ringOf` says which. */
    ghost predicate Holds(lists: seq<seq<RouteKey>>, ringOf: map<RouteKey, NhId>)
      reads this`entries, this`table, this`rings, this`nodes, heads, rings`elems, nodes
    {
      Entered() && Ringed(lists, ringOf)
    }

    /** What does not depend on the contents of the entries. */
    ghost predicate Ringed(lists: seq<seq<RouteKey>>, ringOf: map<RouteKey, NhId>)
      reads this`entries, this`rings, this`nodes, heads, rings`elems, nodes`next, nodes`prev
    {
      && Footed() && RingsApart() && Listed(lists, ringOf) && Detached(ringOf)
      && forall h: NhId :: Spells(heads[h], lists[h], entries)
    }

    /** Everything the store is made of belongs to it. */
    ghost predicate Footed()
      reads this`entries, this`rings, this`nodes, heads, rings`elems
    {
      && heads.Length == NH_TABLE_SIZE
      && (forall k :: k in entries ==> entries[k] in nodes)
      && (forall h: NhId :: heads[h] != null ==> heads[h] in rings && heads[h].Nodes() <= nodes)
    }

    /** Each entry carries its own key. */
    ghost predicate Entered()
      reads this`entries, this`table, this`nodes, nodes`entry
    {
      && table.Keys == entries.Keys && (forall k :: k in entries ==> entries[k] in nodes)
      && forall k :: k in entries ==> entries[k].entry == table[k] && table[k].key == k
    }

    /** Rings share no headers, and a header is no entry. */
    ghost predicate RingsApart()
      reads this`entries, heads
      requires heads.Length == NH_TABLE_SIZE
    {
      && (forall g: NhId, h: NhId :: g != h && heads[g] != null && heads[h] != null ==>
            heads[g] != heads[h] && heads[g].header != heads[h].header)
      && (forall h: NhId, k :: heads[h] != null && k in entries ==> heads[h].header != entries[k])
    }

    /** An entry on no ring has null links. */
    ghost predicate Detached(ringOf: map<RouteKey, NhId>)
      reads this`entries, this`nodes, nodes`next, nodes`prev
    {
      forall k :: k in entries && k !in ringOf ==>
        entries[k] in nodes && entries[k].next == null && entries[k].prev == null
    }

    constructor ()
      ensures Valid() && table == map[] && lists == seq(NH_TABLE_SIZE, _ => []) && ringOf == map[]
      ensures fresh(Repr)
      ensures forall h :: 0 <= h < NH_TABLE_SIZE ==> heads[h] == null
    {
      entries := map[];
      heads := new List?<RouteRow>[NH_TABLE_SIZE](_ => null);
      table := map[];
      lists, ringOf := seq(NH_TABLE_SIZE, _ => []), map[];
      rings, nodes, Repr := {}, {}, {heads};
      new;
    }

    /** What a ring is known by. */
    lemma RingIs(h: NhId)
      requires Valid()
      ensures Spells(heads[h], lists[h], entries)
    {
    }

    /** mrvl_sai_utl_InsertHash of an absent key, into a zeroed slot */
    method Insert(row: RouteRow)
      requires Valid() && row.key !in table
      modifies this`entries, this`table, this`nodes, this`Repr
      ensures Valid() && fresh(Repr - old(Repr)) && fresh(nodes - old(nodes))
      ensures table == old(table)[row.key := row] && row.key !in ringOf
    {
      NotListed(row.key);
      var x := new Elem(row);
      entries := entries[row.key := x];
      table := table[row.key := row];
      nodes, Repr := nodes + {x}, Repr + {x};
      forall h: NhId ensures Spells(heads[h], lists[h], entries) {
        assert Spells(heads[h], lists[h], old(entries));
      }
    }

    lemma NotListed(key: RouteKey)
      requires Valid() && key !in entries
      ensures key !in ringOf
    {
      assert key in ringOf ==> key in lists[ringOf[key]];
      forall h: NhId ensures key !in lists[h] {
        RingIs(h);
      }
    }

    /** mrvl_sai_utl_DeleteHash of an entry on no ring */
    method Delete(key: RouteKey)
      requires Valid() && key in table && key !in ringOf
      modifies this`entries, this`table
      ensures Valid() && table == old(table) - {key}
    {
      entries := entries - {key};
      table := table - {key};
      forall h: NhId ensures Spells(heads[h], lists[h], entries) {
        assert Spells(heads[h], lists[h], old(entries));
      }
    }

    /** Write an entry through the pointer that the hash or a list gave out. */
    method Write(x: Elem<RouteRow>, row: RouteRow)
      requires Valid() && row.key in entries && x == entries[row.key]
      modifies this`table, x`entry
      ensures Valid() && table == old(table)[row.key := row]
    {
      WriteEntered(x, row);
    }

    /** Its heap step */
    method WriteEntered(x: Elem<RouteRow>, row: RouteRow)
      requires Entered() && row.key in entries && x == entries[row.key]
      modifies this`table, x`entry
      ensures Entered() && table == old(table)[row.key := row]
    {
      assert forall k :: k in entries && k != row.key ==> entries[k] != x;
      x.entry := row;
      table := table[row.key := row];
    }

    /** mrvl_sai_utl_dlist_is_empty on the header of a next hop */
    method IsEmpty(h: NhId) returns (empty: bool)
      requires Valid() && heads[h] != null
      ensures empty <==> lists[h] == []
    {
      RingIs(h);
      empty := heads[h].IsEmpty();
    }

    /** mrvl_sai_utl_dlist_init on the header of a next hop */
    method InitHead(h: NhId)
      requires Valid() && heads[h] == null
      modifies this`rings, this`nodes, this`Repr, heads
      ensures Valid() && fresh(Repr - old(Repr))
      ensures heads[h] != null && forall g: NhId :: g != h ==> heads[g] == old(heads[g])
    {
      RingIs(h);
      var list := new List<RouteRow>(NO_ROUTE_ROW);
      SetHead(h, list);
    }

    method SetHead(h: NhId, list: List<RouteRow>)
      requires Valid() && heads[h] == null && lists[h] == []
      requires list.Valid() && list.elems == [] && list !in rings && list.header !in nodes
               && this !in {list, list.header}
      modifies this`rings, this`nodes, this`Repr, heads
      ensures Ringed(lists, ringOf) && Repr == old(Repr) + {list, list.header}
      ensures rings == old(rings) + {list} && nodes == old(nodes) + {list.header}
      ensures heads[h] == list && forall g: NhId :: g != h ==> heads[g] == old(heads[g])
    {
      heads[h] := list;
      rings, nodes, Repr := rings + {list}, nodes + {list.header}, Repr + {list, list.header};
      forall g: NhId ensures Spells(heads[g], lists[g], entries) {
        if g != h {
          assert Spells(old(heads[g]), lists[g], entries);
        }
      }
    }

    /** memset on the row of a next hop without routes */
    method ZeroHead(h: NhId)
      requires Valid() && lists[h] == []
      modifies heads
      ensures Valid() && heads[h] == null && forall g: NhId :: g != h ==> heads[g] == old(heads[g])
    {
      heads[h] := null;
      forall g: NhId ensures Spells(heads[g], lists[g], entries) {
        if g != h {
          assert Spells(old(heads[g]), lists[g], entries);
        }
      }
    }

    // ----- Entries joining and leaving rings -----

    /** An entry is a node of a ring exactly when its key is on it. */
    lemma EntryOnRing(h: NhId, key: RouteKey)
      requires Valid() && key in entries && heads[h] != null
      ensures entries[key] in heads[h].Nodes() <==> key in ringOf && ringOf[key] == h
    {
      RingIs(h);
      if entries[key] in heads[h].Nodes() {
        var i :| 0 <= i < |heads[h].elems| && heads[h].elems[i] == entries[key];
        assert lists[h][i] in lists[h] && entries[lists[h][i]].entry.key == lists[h][i];
      }
      if key in ringOf && ringOf[key] == h {
        assert key in lists[h];
      }
    }

    lemma NodesApart(g: NhId, h: NhId)
      requires Valid() && g != h && heads[g] != null && heads[h] != null
      ensures heads[g].Nodes() !! heads[h].Nodes()
    {
      RingIs(g);
      RingIs(h);
      assert heads[g].header !in heads[h].elems && heads[h].header !in heads[g].elems;
      forall i, j | 0 <= i < |lists[g]| && 0 <= j < |lists[h]| ensures heads[g].elems[i] != heads[h].elems[j] {
        var k, l := lists[g][i], lists[h][j];
        assert k in lists[g] && l in lists[h] && ringOf[k] == g && ringOf[l] == h;
        assert entries[k].entry.key == k && entries[l].entry.key == l;
      }
    }

    /** Everything but the ring at `h` and the entry of `key`, which have none of the nodes in `others`. */
    ghost predicate Rest(h: Option<NhId>, key: RouteKey, others: set<Elem<RouteRow>>, otherRings: set<List<RouteRow>>,
                         lists: seq<seq<RouteKey>>, ringOf: map<RouteKey, NhId>)
      reads this`entries, heads, otherRings`elems, others`next, others`prev
      requires heads.Length == |lists| == NH_TABLE_SIZE
    {
      && (forall g: NhId :: h != Some(g) && heads[g] != null ==> heads[g] in otherRings && heads[g].Nodes() <= others)
      && (forall g: NhId :: h != Some(g) ==> Spells(heads[g], lists[g], entries))
      && (forall k :: k in entries && k != key && k !in ringOf ==>
            entries[k] in others && entries[k].next == null && entries[k].prev == null)
    }

    lemma RestOfRing(h: NhId, key: RouteKey)
      requires Valid() && key in entries && heads[h] != null && (key in ringOf ==> ringOf[key] == h)
      ensures Rest(Some(h), key, nodes - heads[h].Nodes() - {entries[key]}, rings - {heads[h]}, lists, ringOf)
    {
      forall g: NhId | g != h && heads[g] != null
        ensures heads[g].Nodes() !! heads[h].Nodes() && entries[key] !in heads[g].Nodes()
      {
        NodesApart(g, h);
        EntryOnRing(g, key);
      }
      forall k | k in entries && k != key && k !in ringOf
        ensures entries[k] !in heads[h].Nodes() && entries[k] != entries[key]
      {
        EntryOnRing(h, k);
        assert entries[k].entry.key == k && entries[key].entry.key == key;
      }
    }

    lemma RestOfNone(key: RouteKey)
      requires Valid() && key in entries && key !in ringOf
      ensures Rest(None, key, nodes - {entries[key]}, rings, lists, ringOf)
    {
      forall g: NhId | heads[g] != null ensures entries[key] !in heads[g].Nodes() {
        EntryOnRing(g, key);
      }
      forall k | k in entries && k != key && k !in ringOf ensures entries[k] != entries[key] {
        assert entries[k].entry.key == k && entries[key].entry.key == key;
      }
    }

    /** The rest and the ring at `h`, which now spells its new list, make the store. */
    lemma RestAndRing(h: NhId, key: RouteKey, others: set<Elem<RouteRow>>, otherRings: set<List<RouteRow>>,
                      lists: seq<seq<RouteKey>>, ringOf: map<RouteKey, NhId>,
                      now: seq<seq<RouteKey>>, nowOf: map<RouteKey, NhId>)
      requires Entered() && heads.Length == NH_TABLE_SIZE && RingsApart() && |lists| == NH_TABLE_SIZE
               && Listed(now, nowOf)
      requires Rest(Some(h), key, others, otherRings, lists, ringOf) && others <= nodes && otherRings <= rings
      requires heads[h] != null && heads[h] in rings && heads[h].Nodes() <= nodes && Spells(heads[h], now[h], entries)
      requires now == lists[h := now[h]] && nowOf - {key} == ringOf - {key}
      requires key in nowOf || (key in entries ==> entries[key].next == null && entries[key].prev == null)
      ensures Holds(now, nowOf)
    {
      forall k | k in entries && k !in nowOf && k != key ensures k !in ringOf {
        assert k in ringOf ==> k in ringOf - {key};
      }
    }

    lemma RestAlone(key: RouteKey, others: set<Elem<RouteRow>>, otherRings: set<List<RouteRow>>,
                    lists: seq<seq<RouteKey>>, ringOf: map<RouteKey, NhId>)
      requires Entered() && heads.Length == NH_TABLE_SIZE && RingsApart() && Listed(lists, ringOf)
      requires Rest(None, key, others, otherRings, lists, ringOf) && others <= nodes && otherRings <= rings
      requires key in entries ==> entries[key].next == null && entries[key].prev == null
      ensures Holds(lists, ringOf)
    {
    }

    /** mrvl_sai_utl_dlist_insert_to_tail of an entry on no ring */
    method Join(h: NhId, key: RouteKey)
      requires Valid() && key in table && key !in ringOf && heads[h] != null
      modifies this`lists, this`ringOf, rings`elems, nodes`next, nodes`prev
      ensures Valid() && lists == old(lists)[h := old(lists)[h] + [key]] && ringOf == old(ringOf)[key := h]
    {
      LinkTail(heads[h], entries[key], h, key);
      lists, ringOf := lists[h := lists[h] + [key]], ringOf[key := h];
    }

    /** Its heap step */
    method LinkTail(ring: List<RouteRow>, x: Elem<RouteRow>, ghost h: NhId, ghost key: RouteKey)
      requires Valid() && key in table && key !in ringOf && ring == heads[h] && x == entries[key]
      modifies ring`elems, ring.Nodes()`next, ring.Nodes()`prev, x`next, x`prev
      ensures Holds(lists[h := lists[h] + [key]], ringOf[key := h])
    {
      ghost var others, otherRings := nodes - ring.Nodes() - {x}, rings - {ring};
      JoinListed(lists, ringOf, h, key);
      AppendToRing(ring, x, h, key);
      RestAndRing(h, key, others, otherRings, lists, ringOf, lists[h := lists[h] + [key]], ringOf[key := h]);
    }

    method AppendToRing(ring: List<RouteRow>, x: Elem<RouteRow>, ghost h: NhId, ghost key: RouteKey)
      requires Valid() && key in table && key !in ringOf && ring == heads[h] && x == entries[key]
      modifies ring`elems, ring.Nodes()`next, ring.Nodes()`prev, x`next, x`prev
      ensures Spells(ring, lists[h] + [key], entries) && ring.Nodes() <= nodes
      ensures Rest(Some(h), key, old(nodes - ring.Nodes() - {x}), rings - {ring}, lists, ringOf)
    {
      RestOfRing(h, key);
      EntryOnRing(h, key);
      RingIs(h);
      ring.InsertToTail(x);
    }

    /** mrvl_sai_utl_dlist_remove of an entry: it leaves whatever ring it is on. */
    method Leave(key: RouteKey)
      requires Valid() && key in table
      modifies this`lists, this`ringOf, rings`elems, nodes`next, nodes`prev
      ensures Valid() && ringOf == old(ringOf) - {key}
      ensures lists == LeftBy(old(lists), old(ringOf), key)
    {
      Unlink(entries[key], key);
      lists, ringOf := LeftBy(lists, ringOf, key), ringOf - {key};
    }

    /** Its heap step */
    method Unlink(x: Elem<RouteRow>, ghost key: RouteKey)
      requires Valid() && key in table && x == entries[key]
      modifies rings`elems, nodes`next, nodes`prev
      ensures Holds(LeftBy(lists, ringOf, key), ringOf - {key})
    {
      LeaveListed(lists, ringOf, key);
      ghost var others, otherRings := CutFromRing(x, key);
      if key in ringOf {
        RestAndRing(ringOf[key], key, others, otherRings, lists, ringOf, LeftBy(lists, ringOf, key), ringOf - {key});
      } else {
        assert ringOf - {key} == ringOf;
        RestAlone(key, others, otherRings, lists, ringOf);
      }
    }

    method CutFromRing(x: Elem<RouteRow>, ghost key: RouteKey)
      returns (ghost others: set<Elem<RouteRow>>, ghost otherRings: set<List<RouteRow>>)
      requires Valid() && key in table && x == entries[key]
      modifies rings`elems, nodes`next, nodes`prev
      ensures x.next == null && x.prev == null && others <= nodes && otherRings <= rings
      ensures key in ringOf ==>
                var ring := heads[ringOf[key]];
                ring != null && Spells(ring, Without(lists[ringOf[key]], key), entries) && ring.Nodes() <= nodes
      ensures Rest(if key in ringOf then Some(ringOf[key]) else None, key, others, otherRings, lists, ringOf)
    {
      ghost var ring, p := WhereOn(key);
      others := nodes - (if ring == null then {} else ring.Nodes()) - {x};
      otherRings := rings - (if ring == null then {} else {ring});
      RemoveAt(x, ring, p, if ring == null then [] else lists[ringOf[key]]);
    }

    method RemoveAt(x: Elem<RouteRow>, ghost ring: List?<RouteRow>, ghost p: nat, ghost keys: seq<RouteKey>)
      requires if ring == null then x.next == null && x.prev == null
               else Spells(ring, keys, entries) && p < |keys| && ring.elems[p] == x
      modifies x`next, x`prev
      modifies (if ring == null then {} else {ring})`elems
      modifies (if ring == null then {} else ring.Nodes())`next, (if ring == null then {} else ring.Nodes())`prev
      ensures x.next == null && x.prev == null
      ensures ring != null ==> Spells(ring, CutAt(keys, p), entries) && ring.Nodes() <= old(ring.Nodes())
    {
      Remove(x, ring, p);
    }

    /** The ring and the place of an entry, if it has one */
    lemma WhereOn(key: RouteKey) returns (ring: List?<RouteRow>, p: nat)
      requires Valid() && key in entries
      ensures if key in ringOf then
                var keys := lists[ringOf[key]];
                && ring == heads[ringOf[key]] && ring != null && p < |keys| && Without(keys, key) == CutAt(keys, p)
                && Spells(ring, keys, entries) && ring.elems[p] == entries[key]
                && Rest(Some(ringOf[key]), key, nodes - ring.Nodes() - {entries[key]}, rings - {ring}, lists, ringOf)
              else
                && ring == null && entries[key].next == null && entries[key].prev == null
                && Rest(None, key, nodes - {entries[key]}, rings, lists, ringOf)
    {
      ring, p := null, 0;
      if key in ringOf {
        var keys := lists[ringOf[key]];
        RingIs(ringOf[key]);
        assert key in keys;
        ring := heads[ringOf[key]];
        p :| p < |keys| && keys[p] == key;
        WithoutAt(keys, p);
        RestOfRing(ringOf[key], key);
      } else {
        RestOfNone(key);
      }
    }
  }
}
