/** Addresses byte by byte, as the tables keep them and as they are compared. */
module L3Addresses {
  import opened Words
  import opened L3Types
  import opened L3Spec
  import opened L3Neighbors

  /** The last `k` bytes of a number, the highest first. */
  function BytesOf(x: nat, k: nat): (bytes: seq<nat>)
    ensures |bytes| == k
  {
    if k == 0 then [] else BytesOf(x / 256, k - 1) + [x % 256]
  }

  /** The sixteen bytes of a union, of which an IPv4 address has the first four. */
  function Bytes(ip: IpUnion): (bytes: seq<nat>)
    ensures |bytes| == 16
  {
    BytesOf(ip.word, 4) + BytesOf(ip.tail, 12)
  }

  function Pow256(k: nat): (p: nat)
    ensures p > 0
  {
    if k == 0 then 1 else 256 * Pow256(k - 1)
  }

  lemma {:induction false} BytesTell(x: nat, y: nat, k: nat)
    requires x < Pow256(k) && y < Pow256(k)
    ensures BytesOf(x, k) == BytesOf(y, k) <==> x == y
  {
    if k > 0 && BytesOf(x, k) == BytesOf(y, k) {
      var a, b := BytesOf(x / 256, k - 1), BytesOf(y / 256, k - 1);
      assert (a + [x % 256])[k - 1] == x % 256 && (b + [y % 256])[k - 1] == y % 256;
      assert a == (a + [x % 256])[..k - 1] && b == (b + [y % 256])[..k - 1];
      BytesTell(x / 256, y / 256, k - 1);
    }
  }

  /** The comparison is that of the first bytes of both unions, four for an IPv4 query and sixteen for an IPv6 one. */
  lemma MatchesIsMemcmp(stored: IpUnion, query: IpUnion)
    ensures Matches(stored, query) <==>
            if query.v4 then Bytes(stored)[..4] == Bytes(query)[..4] else Bytes(stored) == Bytes(query)
  {
    assert Pow256(4) == 0x1_0000_0000 && Pow256(12) == 0x1_0000_0000_0000_0000_0000_0000;
    BytesTell(stored.word, query.word, 4);
    BytesTell(stored.tail, query.tail, 12);
    assert Bytes(stored)[..4] == BytesOf(stored.word, 4) && Bytes(stored)[4..] == BytesOf(stored.tail, 12);
    assert Bytes(query)[..4] == BytesOf(query.word, 4) && Bytes(query)[4..] == BytesOf(query.tail, 12);
    assert Bytes(stored) == Bytes(stored)[..4] + Bytes(stored)[4..];
    assert Bytes(query) == Bytes(query)[..4] + Bytes(query)[4..];
  }

  lemma {:induction false} ZeroBytes(k: nat)
    ensures BytesOf(0, k) == seq(k, _ => 0)
  {
    if k > 0 {
      ZeroBytes(k - 1);
    }
  }

  /** A neighbour that is entered keeps the bytes of its family, in the first slot not in use, and zeros behind them. */
  lemma NeighborKeepsBytes(db: Db, r: u32, ip: IpUnion, action: Option<PacketAction>, lib: GroupOracle, stale: u32)
    requires CreateNeighbor(db, r, ip, action, lib, stale).1 == Success
    ensures var to := CreateNeighbor(db, r, ip, action, lib, stale).0;
            exists n: NbrId ::
              && !db.nbrs[n].used && (forall m: NbrId :: m < n ==> db.nbrs[m].used)
              && to.nbrs[n].used && to.nbrs[n].rif == r && to.nbrs[n].ip.v4 == ip.v4
              && Bytes(to.nbrs[n].ip) == (if ip.v4 then Bytes(ip)[..4] + seq(12, _ => 0) else Bytes(ip))
              && forall m: NbrId :: m != n ==> to.nbrs[m] == db.nbrs[m]
  {
    var n := FreeNbr(db.nbrs);
    AddNeighborShape(db, r, n, Kept(ip), MakeGroup(db.rifs[r].conf.kind, lib).GroupMade?, stale);
    ZeroBytes(12);
    assert Bytes(ip)[..4] == BytesOf(ip.word, 4);
    assert !db.nbrs[n].used;
  }

  /** A next hop keeps all sixteen, also those that an IPv4 address has no use for. */
  lemma NextHopKeepsBytes(db: Db, r: u32, ip: IpUnion)
    requires CreateNextHop(db, true, r, ip).1 == Success
    ensures var to := CreateNextHop(db, true, r, ip).0;
            exists h: NhId ::
              && !db.nhs[h].used && (forall g: NhId :: g < h ==> db.nhs[g].used)
              && to.nhs[h].used && to.nhs[h].rif == r && to.nhs[h].ip.v4 == ip.v4 && Bytes(to.nhs[h].ip) == Bytes(ip)
              && forall g: NhId :: g != h ==> to.nhs[g] == db.nhs[g]
  {
    var h := FreeNh(db.nhs);
    assert !db.nhs[h].used;
  }
}
