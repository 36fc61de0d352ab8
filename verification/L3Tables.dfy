/** The rows of the global tables as the sources lay them out, with their index links, and how they
    represent the tables of the database value. */
module L3Tables {
  import opened Words
  import opened L3Types
  import opened SeqLib
  import opened L3Spec
  import opened L3Invariant

  datatype RifRow = RifRow(valid: bool, conf: RifConf, nbrValid: bool, firstNbr: u32, nhValid: bool, firstNh: u32)
  datatype NbrRow = NbrRow(used: bool, ip: IpUnion, next: u32, nextHop: u32)
  datatype NhRow = NhRow(used: bool, ip: IpUnion, next: u32, rif: RifId, nbrId: u32)

  const NO_RIF_ROW := RifRow(false, NO_CONF, false, 0, false, 0)
  const NO_NBR_ROW := NbrRow(false, NO_IP, 0, 0)
  const NO_NH_ROW := NhRow(false, NO_IP, 0, 0, 0)

  type RifRows = s: seq<RifRow> | |s| == RIF_TABLE_SIZE witness seq(RIF_TABLE_SIZE, _ => NO_RIF_ROW)
  type NbrRows = s: seq<NbrRow> | |s| == NBR_TABLE_SIZE witness seq(NBR_TABLE_SIZE, _ => NO_NBR_ROW)
  type NhRows = s: seq<NhRow> | |s| == NH_TABLE_SIZE witness seq(NH_TABLE_SIZE, _ => NO_NH_ROW)

  // ----- Contents -----

  ghost predicate RifsRep(rows: RifRows, rifs: RifTable) {
    forall r: RifId :: rows[r].valid == rifs[r].valid && rows[r].conf == rifs[r].conf
  }

  ghost predicate NbrsRep(rows: NbrRows, nbrs: NbrTable) {
    forall n: NbrId :: rows[n].used == nbrs[n].used && rows[n].ip == nbrs[n].ip && rows[n].nextHop == nbrs[n].nextHop
  }

  ghost predicate NhsRep(rows: NhRows, nhs: NhTable) {
    forall h: NhId :: nhs[h] == Nh(rows[h].used, rows[h].ip, rows[h].rif, rows[h].nbrId, nhs[h].routes)
  }

  // ----- Links -----

  /** What the row of the element at `j` links to. */
  function After(list: seq<nat>, j: nat): nat
    requires j < |list|
  {
    if j + 1 < |list| then list[j + 1] else INVALID_ID
  }

  /** Each element's row links to the next element. */
  ghost predicate NbrChain(rows: NbrRows, list: seq<NbrId>) {
    forall j: nat {:trigger After(list, j)} :: j < |list| ==> rows[list[j]].next == After(list, j)
  }

  ghost predicate NhChain(rows: NhRows, list: seq<NhId>) {
    forall j: nat {:trigger After(list, j)} :: j < |list| ==> rows[list[j]].next == After(list, j)
  }

  ghost predicate NbrChains(rows: NbrRows, rifs: RifTable) {
    forall r: RifId :: NbrChain(rows, rifs[r].nbrs)
  }

  ghost predicate NhChains(rows: NhRows, rifs: RifTable) {
    forall r: RifId :: NhChain(rows, rifs[r].nhs)
  }

  function Head<T>(list: seq<T>, none: T): T { if list == [] then none else list[0] }

  /** The rows of the interfaces point at the heads of the neighbour lists; the list of `hole`, if any, hangs on
      nothing. */
  ghost predicate NbrHeads(rows: RifRows, rifs: RifTable, hole: Option<RifId>) {
    forall r: RifId ::
      if hole == Some(r) then !rows[r].nbrValid
      else rows[r].nbrValid == (rifs[r].nbrs != []) && (rows[r].nbrValid ==> rows[r].firstNbr == rifs[r].nbrs[0])
  }

  ghost predicate NhHeads(rows: RifRows, rifs: RifTable) {
    forall r: RifId ::
      rows[r].nhValid == (rifs[r].nhs != []) && (rows[r].nhValid ==> rows[r].firstNh == rifs[r].nhs[0])
  }

  // ----- What the writes of the sources do to the links -----

  /** Linking a fresh row at the head of one list leaves the others' links alone. */
  lemma LinkedNhChains(was: NhRows, rows: NhRows, rifs: RifTable, nhs: NhTable, r: RifId, h: NhId)
    requires NhLists(rifs, nhs) && NhChains(was, rifs) && !nhs[h].used
    requires forall g: NhId :: g != h ==> rows[g] == was[g]
    requires rows[h].next == Head<nat>(rifs[r].nhs, INVALID_ID)
    ensures NhChains(rows, rifs[r := rifs[r].(nhs := [h] + rifs[r].nhs)])
  {
    forall q: RifId ensures NhChain(rows, rifs[q].nhs) {
      assert NhChain(was, rifs[q].nhs);
      assert h !in rifs[q].nhs;
    }
    var list := [h] + rifs[r].nhs;
    forall j: nat | j < |list| ensures rows[list[j]].next == After(list, j) {
      if j > 0 {
        assert rows[rifs[r].nhs[j - 1]].next == After(rifs[r].nhs, j - 1);
      }
    }
  }

  lemma CutNhChain(was: NhRows, rows: NhRows, list: seq<NhId>, p: nat)
    requires NoDup(list) && p < |list| && NhChain(was, list)
    requires forall g: NhId :: g != list[p] && (p == 0 || g != list[p - 1]) ==> rows[g] == was[g]
    requires p > 0 ==> rows[list[p - 1]].next == was[list[p]].next
    ensures NhChain(rows, list[..p] + list[p + 1..])
  {
    var cut := list[..p] + list[p + 1..];
    forall j: nat | j < |cut| ensures rows[cut[j]].next == After(cut, j) {
      var i := if j < p then j else j + 1;
      assert was[list[i]].next == After(list, i);
      assert was[list[p]].next == After(list, p);
    }
  }

  /** A row that points at the head of its interface's new next-hop list. */
  lemma NewNhHead(rows: RifRows, rifs: RifTable, r: RifId, list: seq<NhId>)
    requires RifsRep(rows, rifs) && NbrHeads(rows, rifs, None) && NhHeads(rows, rifs)
    ensures var rows' := rows[r := rows[r].(nhValid := list != [], firstNh := Head<nat>(list, INVALID_ID))];
            var rifs' := rifs[r := rifs[r].(nhs := list)];
            RifsRep(rows', rifs') && NbrHeads(rows', rifs', None) && NhHeads(rows', rifs')
    ensures forall nbrs: NbrRows :: NbrChains(nbrs, rifs) ==> NbrChains(nbrs, rifs[r := rifs[r].(nhs := list)])
  {
  }

  /** The same for neighbours: linking a fresh row at the head of one list leaves the others' links alone. */
  lemma LinkedNbrChains(was: NbrRows, rows: NbrRows, rifs: RifTable, nbrs: NbrTable, r: RifId, h: NbrId)
    requires NbrLists(rifs, nbrs) && NbrChains(was, rifs) && !nbrs[h].used
    requires forall g: NbrId :: g != h ==> rows[g] == was[g]
    requires rows[h].next == Head<nat>(rifs[r].nbrs, INVALID_ID)
    ensures NbrChains(rows, rifs[r := rifs[r].(nbrs := [h] + rifs[r].nbrs)])
  {
    forall q: RifId ensures NbrChain(rows, rifs[q].nbrs) {
      assert NbrChain(was, rifs[q].nbrs);
      assert h !in rifs[q].nbrs;
    }
    var list := [h] + rifs[r].nbrs;
    forall j: nat | j < |list| ensures rows[list[j]].next == After(list, j) {
      if j > 0 {
        assert rows[rifs[r].nbrs[j - 1]].next == After(rifs[r].nbrs, j - 1);
      }
    }
  }

  lemma CutNbrChain(was: NbrRows, rows: NbrRows, list: seq<NbrId>, p: nat)
    requires NoDup(list) && p < |list| && NbrChain(was, list)
    requires forall g: NbrId :: g != list[p] && (p == 0 || g != list[p - 1]) ==> rows[g] == was[g]
    requires p > 0 ==> rows[list[p - 1]].next == was[list[p]].next
    ensures NbrChain(rows, list[..p] + list[p + 1..])
  {
    var cut := list[..p] + list[p + 1..];
    forall j: nat | j < |cut| ensures rows[cut[j]].next == After(cut, j) {
      var i := if j < p then j else j + 1;
      assert was[list[i]].next == After(list, i);
      assert was[list[p]].next == After(list, p);
    }
  }

  /** A row that points at the head of its interface's new neighbour list. */
  lemma NewNbrHead(rows: RifRows, rifs: RifTable, r: RifId, list: seq<NbrId>)
    requires RifsRep(rows, rifs) && NbrHeads(rows, rifs, None) && NhHeads(rows, rifs)
    ensures var rows' := rows[r := rows[r].(nbrValid := list != [], firstNbr := Head<nat>(list, INVALID_ID))];
            var rifs' := rifs[r := rifs[r].(nbrs := list)];
            RifsRep(rows', rifs') && NbrHeads(rows', rifs', None) && NhHeads(rows', rifs')
    ensures forall nhs: NhRows :: NhChains(nhs, rifs) ==> NhChains(nhs, rifs[r := rifs[r].(nbrs := list)])
  {
  }

  /** A list cut at one place leaves the links of the other lists alone. */
  lemma CutNhChains(was: NhRows, rows: NhRows, rifs: RifTable, nhs: NhTable, r: RifId, list: seq<NhId>)
    requires NhLists(rifs, nhs) && NhChains(was, rifs) && NhChain(rows, list)
    requires forall g: NhId :: g !in rifs[r].nhs ==> rows[g] == was[g]
    ensures NhChains(rows, rifs[r := rifs[r].(nhs := list)])
  {
    forall q: RifId | q != r ensures NhChain(rows, rifs[q].nhs) {
      assert NhChain(was, rifs[q].nhs);
      forall g: NhId | g in rifs[q].nhs ensures rows[g] == was[g] {
        assert nhs[g].rif == q;
      }
    }
  }

  lemma CutNbrChains(was: NbrRows, rows: NbrRows, rifs: RifTable, nbrs: NbrTable, r: RifId, list: seq<NbrId>)
    requires NbrLists(rifs, nbrs) && NbrChains(was, rifs) && NbrChain(rows, list)
    requires forall g: NbrId :: g !in rifs[r].nbrs ==> rows[g] == was[g]
    ensures NbrChains(rows, rifs[r := rifs[r].(nbrs := list)])
  {
    forall q: RifId | q != r ensures NbrChain(rows, rifs[q].nbrs) {
      assert NbrChain(was, rifs[q].nbrs);
      forall g: NbrId | g in rifs[q].nbrs ensures rows[g] == was[g] {
        assert nbrs[g].rif == q;
      }
    }
  }

  /** Everything that links and rows say about interfaces, neighbours and next hops. */
  ghost predicate TablesRep(rifRows: RifRows, nbrRows: NbrRows, nhRows: NhRows, rifs: RifTable, nbrs: NbrTable,
      nhs: NhTable,
                            hole: Option<RifId>) {
    && RifsRep(rifRows, rifs) && NbrsRep(nbrRows, nbrs) && NhsRep(nhRows, nhs)
    && NbrChains(nbrRows, rifs) && NhChains(nhRows, rifs)
    && NbrHeads(rifRows, rifs, hole) && NhHeads(rifRows, rifs)
  }

  /** The row of interface `r` made to head the neighbour list `list`. */
  function HeadNbrs(rows: RifRows, r: RifId, list: seq<NbrId>): RifRows
  {
    rows[r := rows[r].(nbrValid := list != [], firstNbr := Head<nat>(list, INVALID_ID))]
  }

  function HeadNhs(rows: RifRows, r: RifId, list: seq<NhId>): RifRows
  {
    rows[r := rows[r].(nhValid := list != [], firstNh := Head<nat>(list, INVALID_ID))]
  }

  lemma LinkNbrRep(rifRows: RifRows, was: NbrRows, now: NbrRows, nhRows: NhRows, db: Db, r: RifId, n: NbrId,
      ip: IpUnion, made: bool)
    requires TablesRep(rifRows, was, nhRows, db.rifs, db.nbrs, db.nhs, None)
    requires NbrLists(db.rifs, db.nbrs) && !db.nbrs[n].used
    requires now == was[n := NbrRow(true, ip, Head<nat>(db.rifs[r].nbrs, INVALID_ID), INVALID_ID)]
    ensures var to := LinkNbr(db, r, n, ip, made);
            TablesRep(HeadNbrs(rifRows, r, to.rifs[r].nbrs), now, nhRows, to.rifs, to.nbrs, to.nhs, None)
  {
    LinkedNbrChains(was, now, db.rifs, db.nbrs, r, n);
    NewNbrHead(rifRows, db.rifs, r, [n] + db.rifs[r].nbrs);
  }

  lemma UnlinkNbrRep(rifRows: RifRows, was: NbrRows, now: NbrRows, nhRows: NhRows, db: Db, r: RifId, n: NbrId)
    requires TablesRep(rifRows, was, nhRows, db.rifs, db.nbrs, db.nhs, None)
    requires NbrLists(db.rifs, db.nbrs)
    requires now[n] == NO_NBR_ROW && NbrChain(now, Without(db.rifs[r].nbrs, n))
    requires forall m: NbrId :: m != n ==> now[m] == was[m].(next := now[m].next)
    requires forall m: NbrId :: m !in db.rifs[r].nbrs ==> now[m] == was[m]
    ensures var to := UnlinkNbr(db, r, n);
            TablesRep(HeadNbrs(rifRows, r, to.rifs[r].nbrs), now, nhRows, to.rifs, to.nbrs, to.nhs, None)
  {
    var list := Without(db.rifs[r].nbrs, n);
    CutNbrChains(was, now, db.rifs, db.nbrs, r, list);
    NewNbrHead(rifRows, db.rifs, r, list);
  }

  lemma LinkNhRep(rifRows: RifRows, nbrRows: NbrRows, was: NhRows, now: NhRows, db: Db, r: RifId, h: NhId,
      ip: IpUnion, id: u32)
    requires TablesRep(rifRows, nbrRows, was, db.rifs, db.nbrs, db.nhs, None)
    requires NhLists(db.rifs, db.nhs) && !db.nhs[h].used
    requires now == was[h := NhRow(true, ip, Head<nat>(db.rifs[r].nhs, INVALID_ID), r, id)]
    ensures var list := [h] + db.rifs[r].nhs;
            TablesRep(HeadNhs(rifRows, r, list), nbrRows, now, db.rifs[r := db.rifs[r].(nhs := list)], db.nbrs,
                      db.nhs[h := Nh(true, ip, r, id, [])], None)
  {
    LinkedNhChains(was, now, db.rifs, db.nhs, r, h);
    NewNhHead(rifRows, db.rifs, r, [h] + db.rifs[r].nhs);
  }

  lemma UnlinkNhRep(rifRows: RifRows, nbrRows: NbrRows, was: NhRows, now: NhRows, db: Db, r: RifId, h: NhId)
    requires TablesRep(rifRows, nbrRows, was, db.rifs, db.nbrs, db.nhs, None)
    requires NhLists(db.rifs, db.nhs)
    requires now[h] == NO_NH_ROW && NhChain(now, Without(db.rifs[r].nhs, h))
    requires forall g: NhId :: g != h ==> now[g] == was[g].(next := now[g].next)
    requires forall g: NhId :: g !in db.rifs[r].nhs ==> now[g] == was[g]
    ensures var list := Without(db.rifs[r].nhs, h);
            TablesRep(HeadNhs(rifRows, r, list), nbrRows, now, db.rifs[r := db.rifs[r].(nhs := list)], db.nbrs,
                      db.nhs[h := NO_NH], None)
  {
    var list := Without(db.rifs[r].nhs, h);
    CutNhChains(was, now, db.rifs, db.nhs, r, list);
    NewNhHead(rifRows, db.rifs, r, list);
  }

  /** The links of a list whose head row is zeroed. */
  lemma DestroyHeadChain(was: NbrRows, list: seq<NbrId>)
    requires NoDup(list) && list != [] && NbrChain(was, list)
    ensures was[list[0]].next == Head<nat>(list[1..], INVALID_ID) && NbrChain(was[list[0] := NO_NBR_ROW], list[1..])
  {
    var now, rest := was[list[0] := NO_NBR_ROW], list[1..];
    assert was[list[0]].next == After(list, 0);
    forall j: nat | j < |rest| ensures now[rest[j]].next == After(rest, j) {
      assert rest[j] == list[j + 1] && was[list[j + 1]].next == After(list, j + 1);
    }
  }

  /** While the list of `r` hangs on nothing, no interface row depends on it. */
  lemma HoleHeads(rows: RifRows, nhRows: NhRows, rifs: RifTable, r: RifId, list: seq<NbrId>)
    requires RifsRep(rows, rifs) && NbrHeads(rows, rifs, Some(r)) && NhHeads(rows, rifs) && NhChains(nhRows, rifs)
    ensures var rifs' := rifs[r := rifs[r].(nbrs := list)];
            RifsRep(rows, rifs') && NbrHeads(rows, rifs', Some(r)) && NhHeads(rows, rifs') && NhChains(nhRows, rifs')
  {
  }

  /** Zeroing the head of a list that hangs on nothing leaves its tail. */
  lemma DestroyHeadRep(rifRows: RifRows, was: NbrRows, nhRows: NhRows, db: Db, r: RifId, n: NbrId)
    requires TablesRep(rifRows, was, nhRows, db.rifs, db.nbrs, db.nhs, Some(r))
    requires NbrLists(db.rifs, db.nbrs) && db.rifs[r].nbrs != [] && n == db.rifs[r].nbrs[0]
    ensures var to := UnlinkNbr(db, r, n);
            && to.rifs[r].nbrs == db.rifs[r].nbrs[1..] && was[n].next == Head<nat>(to.rifs[r].nbrs, INVALID_ID)
            && TablesRep(rifRows, was[n := NO_NBR_ROW], nhRows, to.rifs, to.nbrs, to.nhs, Some(r))
  {
    var list := db.rifs[r].nbrs;
    assert NbrChain(was, list) && Without(list, n) == list[1..];
    DestroyHeadChain(was, list);
    CutNbrChains(was, was[n := NO_NBR_ROW], db.rifs, db.nbrs, r, list[1..]);
    HoleHeads(rifRows, nhRows, db.rifs, r, list[1..]);
  }

  lemma DetachHead(was: RifRows, rows: RifRows, rifs: RifTable, r: RifId)
    requires RifsRep(was, rifs) && NbrHeads(was, rifs, None) && NhHeads(was, rifs)
    requires rows == was[r := was[r].(nbrValid := false, firstNbr := INVALID_ID)]
    ensures RifsRep(rows, rifs) && NbrHeads(rows, rifs, Some(r)) && NhHeads(rows, rifs)
  {
  }

  lemma AttachEmpty(rows: RifRows, rifs: RifTable, r: RifId)
    requires NbrHeads(rows, rifs, Some(r)) && rifs[r].nbrs == []
    ensures NbrHeads(rows, rifs, None)
  {
  }

  lemma SwapRifRep(rifRows: RifRows, nbrRows: NbrRows, nhRows: NhRows, rifs: RifTable, nbrs: NbrTable, nhs: NhTable,
                   r: RifId, row: RifRow, rif: Rif)
    requires TablesRep(rifRows, nbrRows, nhRows, rifs, nbrs, nhs, None)
    requires row.valid == rif.valid && row.conf == rif.conf && !row.nbrValid && !row.nhValid && rif.nbrs == []
             && rif.nhs == []
    ensures TablesRep(rifRows[r := row], nbrRows, nhRows, rifs[r := rif], nbrs, nhs, None)
  {
  }

  /** Every row is zero. */
  ghost predicate AllZero(vrs: seq<Vr>, mtus: seq<MtuProfile>, rifs: seq<RifRow>, nbrs: seq<NbrRow>, nhs: seq<NhRow>) {
    && |vrs| == VR_TABLE_SIZE && (forall v :: 0 <= v < |vrs| ==> vrs[v] == NO_VR)
    && |mtus| == MTU_TABLE_SIZE && (forall m :: 0 <= m < |mtus| ==> mtus[m] == NO_MTU)
    && |rifs| == RIF_TABLE_SIZE && (forall r :: 0 <= r < |rifs| ==> rifs[r] == NO_RIF_ROW)
    && |nbrs| == NBR_TABLE_SIZE && (forall n :: 0 <= n < |nbrs| ==> nbrs[n] == NO_NBR_ROW)
    && |nhs| == NH_TABLE_SIZE && (forall h :: 0 <= h < |nhs| ==> nhs[h] == NO_NH_ROW)
  }

  lemma EmptyRep(vrs: seq<Vr>, mtus: seq<MtuProfile>, rifs: seq<RifRow>, nbrs: seq<NbrRow>, nhs: seq<NhRow>)
    requires AllZero(vrs, mtus, rifs, nbrs, nhs)
    ensures vrs == EMPTY_DB.vrs && mtus == EMPTY_DB.mtus
    ensures TablesRep(rifs, nbrs, nhs, EMPTY_DB.rifs, EMPTY_DB.nbrs, EMPTY_DB.nhs, None)
  {
  }
}
