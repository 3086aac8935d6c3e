/** Which sectors the clusters of a chain occupy. */
module ClusterMap {
  import opened Bytes
  import opened Geometry
  import opened Chains

  /** First sector of cluster `c`. */
  ghost function ClusterBase(g: Layout, c: nat): (s: nat)
    ensures s >= g.database
  {
    if c <= 2 then g.database else ClusterBase(g, c - 1) + g.csize
  }

  /** Number of sectors in the first `k` clusters of a chain. */
  ghost function SectorCount(g: Layout, k: nat): nat {
    if k == 0 then 0 else SectorCount(g, k - 1) + g.csize
  }

  /** The data area lies inside the drive. */
  ghost predicate Roomy(g: Layout, total: nat) {
    ClusterBase(g, g.nFatent) <= total
  }

  lemma {:induction false} ClusterBaseIs(g: Layout, c: nat)
    requires c >= 2
    ensures ClusterBase(g, c) == g.database + g.csize * (c - 2)
  {
    if c > 2 {
      ClusterBaseIs(g, c - 1);
      assert g.csize * (c - 2) == g.csize * (c - 3) + g.csize;
    }
  }

  /** Distinct clusters occupy disjoint ranges, in order. */
  lemma {:induction false} ClusterBaseOrder(g: Layout, c: nat, d: nat)
    requires 2 <= c < d
    ensures ClusterBase(g, c) + g.csize <= ClusterBase(g, d)
    decreases d
  {
    if c < d - 1 {
      ClusterBaseOrder(g, c, d - 1);
    }
  }

  lemma {:induction false} SectorCountIs(g: Layout, k: nat)
    ensures SectorCount(g, k) == k * g.csize
  {
    if k > 0 {
      SectorCountIs(g, k - 1);
      assert k * g.csize == (k - 1) * g.csize + g.csize;
    }
  }

  lemma {:induction false} SectorCountOrder(g: Layout, k: nat, m: nat)
    requires k < m
    ensures SectorCount(g, k) + g.csize <= SectorCount(g, m)
    decreases m
  {
    if k < m - 1 {
      SectorCountOrder(g, k, m - 1);
    }
  }

  ghost function SectorIn(g: Layout, c: nat, i: nat): nat {
    ClusterBase(g, c) + i
  }

  /** The sectors of cluster `c`. */
  ghost function ClusterSectors(g: Layout, c: nat): (s: seq<nat>)
    ensures |s| == g.csize
    ensures forall i :: 0 <= i < |s| ==> s[i] == ClusterBase(g, c) + i
  {
    seq(g.csize, i requires 0 <= i < g.csize => SectorIn(g, c, i))
  }

  /** The sectors of a chain, in file order. */
  ghost function Sectors(g: Layout, ch: seq<nat>): (s: seq<nat>)
    ensures |s| == SectorCount(g, |ch|)
  {
    if ch == [] then [] else Sectors(g, ch[..|ch| - 1]) + ClusterSectors(g, ch[|ch| - 1])
  }

  /** Sector `r` of cluster number `k` of the chain. */
  lemma {:induction false} SectorsAt(g: Layout, ch: seq<nat>, k: nat, r: nat)
    requires k < |ch| && r < g.csize
    ensures SectorCount(g, k) + r < |Sectors(g, ch)|
    ensures Sectors(g, ch)[SectorCount(g, k) + r] == ClusterBase(g, ch[k]) + r
    decreases |ch|
  {
    if k < |ch| - 1 {
      SectorsAt(g, ch[..|ch| - 1], k, r);
    }
  }

  lemma SectorsPush(g: Layout, ch: seq<nat>, c: nat)
    ensures Sectors(g, ch + [c]) == Sectors(g, ch) + ClusterSectors(g, c)
  {
    assert (ch + [c])[..|ch|] == ch;
  }

  lemma {:induction false} SectorsPrefix(g: Layout, ch: seq<nat>, k: nat)
    requires k <= |ch|
    ensures SectorCount(g, k) <= |Sectors(g, ch)|
    ensures Sectors(g, ch[..k]) == Sectors(g, ch)[..SectorCount(g, k)]
    decreases |ch|
  {
    if k < |ch| {
      SectorsPrefix(g, ch[..|ch| - 1], k);
      assert ch[..|ch| - 1][..k] == ch[..k];
    } else {
      assert ch[..k] == ch;
    }
  }

  /** Every sector of a chain belongs to a cluster of it. */
  lemma {:induction false} SectorOwner(g: Layout, ch: seq<nat>, j: nat) returns (k: nat, r: nat)
    requires j < |Sectors(g, ch)|
    ensures k < |ch| && r < g.csize && j == SectorCount(g, k) + r
    ensures Sectors(g, ch)[j] == ClusterBase(g, ch[k]) + r
    decreases |ch|
  {
    var m := |ch| - 1;
    if j >= SectorCount(g, m) {
      k, r := m, j - SectorCount(g, m);
    } else {
      k, r := SectorOwner(g, ch[..m], j);
    }
  }

  /** Two clusters share no sector. */
  lemma SectorsApart(g: Layout, c: nat, d: nat, r: nat, q: nat)
    requires 2 <= c && 2 <= d && c != d && r < g.csize && q < g.csize
    ensures ClusterBase(g, c) + r != ClusterBase(g, d) + q
  {
    if c < d {
      ClusterBaseOrder(g, c, d);
    } else {
      ClusterBaseOrder(g, d, c);
    }
  }

  /** The sectors of a proper chain are distinct and lie in the data area. */
  lemma SectorsDistinct(g: Layout, fat: seq<nat>, ch: seq<nat>, i: nat, j: nat)
    requires IsChain(fat, ch) && i < j < |Sectors(g, ch)|
    ensures Sectors(g, ch)[i] != Sectors(g, ch)[j]
  {
    var k, r := SectorOwner(g, ch, i);
    var m, q := SectorOwner(g, ch, j);
    if k < m {
      ChainDistinct(fat, ch, k, m);
      SectorsApart(g, ch[k], ch[m], r, q);
    } else if m < k {
      ChainDistinct(fat, ch, m, k);
      SectorsApart(g, ch[k], ch[m], r, q);
    }
  }

  lemma ClusterInDrive(g: Layout, total: nat, c: nat)
    requires Roomy(g, total) && 2 <= c < g.nFatent
    ensures ClusterBase(g, c) + g.csize <= total
  {
    ClusterBaseOrder(g, c, g.nFatent);
  }

  lemma SectorsInDrive(g: Layout, total: nat, fat: seq<nat>, ch: seq<nat>, j: nat)
    requires Roomy(g, total) && |fat| == g.nFatent && IsChain(fat, ch) && j < |Sectors(g, ch)|
    ensures g.database <= Sectors(g, ch)[j] < total
  {
    var k, r := SectorOwner(g, ch, j);
    ClusterInDrive(g, total, ch[k]);
  }

  /** Chains without a common cluster have no common sector. */
  lemma SectorsDisjoint(g: Layout, fat: seq<nat>, a: seq<nat>, b: seq<nat>, i: nat, j: nat)
    requires (forall c :: c in a ==> 2 <= c) && (forall c :: c in b ==> 2 <= c) && Disjoint(a, b)
    requires i < |Sectors(g, a)| && j < |Sectors(g, b)|
    ensures Sectors(g, a)[i] != Sectors(g, b)[j]
  {
    var k, r := SectorOwner(g, a, i);
    var m, q := SectorOwner(g, b, j);
    assert a[k] in a && b[m] in b;
    SectorsApart(g, a[k], b[m], r, q);
  }

  /** `(j & (csize - 1))`: the sector's place in its cluster. */
  lemma PlaceInCluster(g: Layout, k: nat, r: nat)
    requires r < g.csize
    ensures (SectorCount(g, k) + r) % g.csize == r && (SectorCount(g, k) + r) / g.csize == k
  {
    SectorCountIs(g, k);
    DivMod(k, g.csize, r);
  }

  lemma MulStep(a: nat, b: nat, m: nat)
    requires a < b
    ensures a * m + m <= b * m
  {
    assert b * m == (a + 1) * m + (b - a - 1) * m;
  }

  lemma DivMod(k: nat, m: nat, r: nat)
    requires r < m
    ensures (k * m + r) / m == k && (k * m + r) % m == r
  {
    var x := k * m + r;
    var q, s := x / m, x % m;
    assert x == q * m + s;
    if q < k {
      MulStep(q, k, m);
    }
    if k < q {
      MulStep(k, q, m);
    }
  }
}
