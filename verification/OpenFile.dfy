/** An open file: f_read, f_write, f_lseek and f_truncate against a plain sequence of bytes. */
module OpenFile {
  import opened Bytes
  import opened Geometry
  import opened FatEntries
  import opened Volume
  import opened Chains
  import opened ClusterMap
  import opened FileData
  import opened Allocator

  /** `ch` is the chain that starts at cluster `sclust` (0: no cluster). */
  ghost predicate ChainFrom(fat: seq<nat>, sclust: nat, ch: seq<nat>) {
    if sclust == 0 then ch == [] else IsChain(fat, ch) && ch[0] == sclust
  }

  /** The free count is honest: unknown or exact. */
  ghost predicate Honest(fs: FatFs)
    reads fs`fat, fs`freeClst
  {
    |fs.fat| >= 2 && FreeKnown(fs)
  }

  /** Sectors other than the listed ones are as before. */
  ghost predicate OnlySectors(a: seq<Sector>, b: seq<Sector>, sects: seq<nat>) {
    |a| == |b| && forall s :: 0 <= s < |a| && s !in sects ==> b[s] == a[s]
  }

  lemma DirectFrame(sects: seq<nat>, img: seq<Sector>, j: nat, n: nat, d: seq<Byte>)
    requires 0 < n && Adjacent(sects, j, n) && sects[j] + n <= |img| && |d| == SS * n
    ensures OnlySectors(img, PutSectors(img, sects[j], n, d), sects)
  {
    forall s | 0 <= s < |img| && s !in sects ensures PutSectors(img, sects[j], n, d)[s] == img[s] {
      if sects[j] <= s < sects[j] + n {
        RunMember(sects, j, n, s);
      }
    }
  }

  /** clst2sect: 0 for an invalid cluster number. */
  method Clst2Sect(fs: FatFs, clst: nat) returns (s: nat)
    requires fs.Valid() && clst < TWO32
    ensures s == if 2 <= clst < fs.g.nFatent then ClusterBase(fs.g, clst) % TWO32 else 0
    ensures Roomy(fs.g, fs.total) && 2 <= clst < fs.g.nFatent ==>
      s == ClusterBase(fs.g, clst) && s + fs.g.csize <= fs.total
  {
    hide ClusterBase, Roomy, FatFs.Valid, Sub32;
    var c := Sub32(clst, 2);
    SubTwo(clst, fs.g);
    if c >= fs.g.nFatent - 2 {
      return 0;
    }
    ClusterBaseIs(fs.g, clst);
    if Roomy(fs.g, fs.total) { ClusterInDrive(fs.g, fs.total, clst); }
    s := (fs.g.database + fs.g.csize * c) % TWO32;
  }

  lemma SubTwo(clst: nat, g: Layout)
    requires clst < TWO32 && 3 <= g.nFatent <= MaxEntries(g.fsType)
    ensures if 2 <= clst < g.nFatent then Sub32(clst, 2) == clst - 2 else Sub32(clst, 2) >= g.nFatent - 2
  {
  }

  /** `j & (csize - 1)`: csize is a power of two. */
  function PlaceOf(g: Layout, j: nat): nat
    requires g.csize > 0
  {
    j % g.csize
  }

  /** At a sector boundary, the place in the cluster tells whether the next cluster is due. */
  lemma NextOrSame(g: Layout, k: nat, j: nat)
    requires 0 < g.csize && SectorCount(g, k) < j <= SectorCount(g, k) + g.csize
    ensures PlaceOf(g, j) == if j < SectorCount(g, k) + g.csize then j - SectorCount(g, k) else 0
    ensures PlaceOf(g, j) == 0 <==> j == SectorCount(g, k + 1)
  {
    if j < SectorCount(g, k) + g.csize {
      PlaceInCluster(g, k, j - SectorCount(g, k));
    } else {
      PlaceInCluster(g, k + 1, 0);
    }
  }

  /** `p / bcs` */
  function ClusterNo(g: Layout, p: nat): nat
    requires g.csize > 0
  {
    p / (g.csize * SS)
  }

  /** `p & ~(bcs - 1)`: bcs is a power of two. */
  function ClusterStart(g: Layout, p: nat): nat
    requires g.csize > 0
  {
    p - p % (g.csize * SS)
  }

  /** Number and start of the cluster that position `p` ends in. */
  lemma ClusterOf(g: Layout, k: nat, p: nat)
    requires 0 < g.csize && SS * SectorCount(g, k) < p <= SS * (SectorCount(g, k) + g.csize)
    ensures ClusterNo(g, p - 1) == k && ClusterStart(g, p - 1) == SS * SectorCount(g, k)
  {
    SectorCountIs(g, k);
    var bcs, r := g.csize * SS, p - 1 - SS * SectorCount(g, k);
    assert SS * SectorCount(g, k) == k * bcs;
    DivMod(k, bcs, r);
  }

  /** Every position ends in some cluster. */
  lemma SomeCluster(g: Layout, p: nat) returns (k: nat)
    requires 0 < g.csize && 0 < p
    ensures SS * SectorCount(g, k) < p <= SS * (SectorCount(g, k) + g.csize)
  {
    k := 0;
    while p > SS * (SectorCount(g, k) + g.csize)
      invariant SS * SectorCount(g, k) < p
      decreases p - SS * SectorCount(g, k)
    {
      k := k + 1;
    }
  }

  /** A later position ends in the same or a later cluster. */
  lemma {:induction false} ClusterOrder(g: Layout, k: nat, m: nat)
    requires k <= m
    ensures SectorCount(g, k) <= SectorCount(g, m)
  {
    if k < m {
      SectorCountOrder(g, k, m);
    }
  }

  lemma LandIn(g: Layout, k: nat, rem: nat)
    requires 0 < rem <= SS * g.csize && rem % SS != 0
    ensures rem / SS < g.csize
    ensures var p := SS * SectorCount(g, k) + rem; p % SS != 0 && p / SS == SectorCount(g, k) + rem / SS
  {
    InSector(SS * SectorCount(g, k) + rem, SectorCount(g, k) + rem / SS, rem % SS);
  }

  /** The table after a chain was cut before its cluster number `k`. */
  ghost function Trimmed(g: Layout, fat: seq<nat>, ch: seq<nat>, k: nat): seq<nat>
    requires k <= |ch|
  {
    if k < |ch| then CutAt(fat, ch, k, EndMark(g)) else fat
  }

  /** What is left of a cut chain is a chain; the clusters behind are free; nothing else changes. */
  lemma TrimmedChain(g: Layout, fat: seq<nat>, ch: seq<nat>, k: nat)
    requires IsChain(fat, ch) && k <= |ch| && g.nFatent == |fat| <= MaxEntries(g.fsType)
    ensures |Trimmed(g, fat, ch, k)| == |fat|
    ensures k > 0 ==> IsChain(Trimmed(g, fat, ch, k), ch[..k])
    ensures forall c :: 0 <= c < |fat| && c !in ch ==> Trimmed(g, fat, ch, k)[c] == fat[c]
    ensures forall i :: k <= i < |ch| ==> Trimmed(g, fat, ch, k)[ch[i]] == 0
  {
    assert ch[..|ch|] == ch;
    if 0 < k < |ch| {
      CutIsChain(fat, ch, k, EndMark(g));
    }
    if k < |ch| {
      assert ch == ch[..k] + ch[k..];
      forall i | k <= i < |ch| ensures ch[i] in ch[k..] {
        assert ch[k..][i - k] == ch[i];
      }
    }
  }

  /** Cutting a chain before its cluster number `k`: what remove_chain leaves, or nothing to do. */
  lemma CutFacts(g: Layout, fat: seq<nat>, ch: seq<nat>, k: nat)
    requires IsChain(fat, ch) && 0 < k <= |ch| && g.nFatent == |fat| <= MaxEntries(g.fsType)
    ensures k < |ch| ==> Freed(Ended(g, fat, ch[k - 1]), ch[k]) == (CutAt(fat, ch, k, EndMark(g)), true)
  {
    if k < |ch| {
      FreedTail(fat, ch, k, EndMark(g));
    }
  }

  /** A sector number inside the chain lies in one of its clusters. */
  lemma InsideChain(g: Layout, k: nat, n: nat)
    requires k <= n && SectorCount(g, k) < SectorCount(g, n)
    ensures k < n
  {
  }

  lemma ChainLinks(fat: seq<nat>, ch: seq<nat>, k: nat)
    requires IsChain(fat, ch) && k < |ch|
    ensures 2 <= ch[k] < |fat|
    ensures if k + 1 < |ch| then fat[ch[k]] == ch[k + 1] && 2 <= ch[k + 1] < |fat| else fat[ch[k]] >= |fat|
  {
  }

  lemma RunInCluster(g: Layout, fat: seq<nat>, ch: seq<nat>, k: nat, r: nat, n: nat)
    requires IsChain(fat, ch) && k < |ch| && 0 < n && r + n <= g.csize
    ensures Adjacent(Sectors(g, ch), SectorCount(g, k) + r, n)
    ensures Sectors(g, ch)[SectorCount(g, k) + r] == ClusterBase(g, ch[k]) + r
  {
    var j := SectorCount(g, k) + r;
    SectorsAt(g, ch, k, r);
    SectorsAt(g, ch, k, r + n - 1);
    forall i | j <= i < j + n ensures Sectors(g, ch)[i] == Sectors(g, ch)[j] + (i - j) {
      SectorsAt(g, ch, k, r + (i - j));
    }
  }

  lemma SectorsGood(g: Layout, total: nat, fat: seq<nat>, ch: seq<nat>)
    requires Roomy(g, total) && |fat| == g.nFatent && (ch == [] || IsChain(fat, ch))
    ensures AllDifferent(Sectors(g, ch))
    ensures forall j :: 0 <= j < |Sectors(g, ch)| ==> g.database <= Sectors(g, ch)[j] < total
  {
    var sects := Sectors(g, ch);
    if ch != [] {
      forall i, j | 0 <= i < j < |sects| ensures sects[i] != sects[j] {
        SectorsDistinct(g, fat, ch, i, j);
      }
      forall j | 0 <= j < |sects| ensures g.database <= sects[j] < total {
        SectorsInDrive(g, total, fat, ch, j);
      }
    }
  }

  /** A chain took up free clusters behind its old end, and the table changed for nothing else: every entry that changed
      is on the longer chain. */
  ghost predicate Grew(fat0: seq<nat>, ch0: seq<nat>, fat: seq<nat>, ch: seq<nat>) {
    && |ch0| <= |ch| && ch[..|ch0|] == ch0
    && (forall i :: |ch0| <= i < |ch| ==> ch[i] < |fat0| && fat0[ch[i]] == 0)
    && Local(fat0, fat, ch0)
    && (forall c :: 0 <= c < |fat0| && fat[c] != fat0[c] ==> c in ch && |ch| > |ch0|)
  }

  /** A chain that has grown from `n0` clusters to `n` is no longer than the `size` bytes in it. */
  ghost predicate Snug(g: Layout, n0: nat, n: nat, size: nat) {
    n > n0 ==> SS * SectorCount(g, n - 1) < size
  }

  lemma SnugTrans(g: Layout, n0: nat, n1: nat, size1: nat, n2: nat, size2: nat)
    requires Snug(g, n0, n1, size1) && Snug(g, n1, n2, size2) && n1 <= n2 && size1 <= size2
    ensures Snug(g, n0, n2, size2)
  {
  }

  lemma SnugNow(g: Layout, n: nat, size: nat)
    ensures Snug(g, n, n, size)
  {
  }

  lemma SnugIn(g: Layout, n0: nat, n: nat, k: nat, p: nat, size: nat)
    requires (n > n0 ==> n == k + 1) && SS * SectorCount(g, k) < p <= size
    ensures Snug(g, n0, n, size)
  {
  }

  lemma GrewLonger(fat0: seq<nat>, ch0: seq<nat>, fat: seq<nat>, ch: seq<nat>)
    requires Grew(fat0, ch0, fat, ch)
    ensures |ch0| <= |ch|
  {
  }

  /** Outside the table and the listed sectors the volume is as before. */
  ghost predicate Elsewhere(g: Layout, a: seq<Sector>, b: seq<Sector>, sects: seq<nat>) {
    |a| == |b| && forall s :: 0 <= s < |a| && !InFat(g, s) && !InMirror(g, s) && s !in sects ==> b[s] == a[s]
  }

  lemma GrewTrans(fat0: seq<nat>, ch0: seq<nat>, fat1: seq<nat>, ch1: seq<nat>, fat2: seq<nat>, ch2: seq<nat>)
    requires Grew(fat0, ch0, fat1, ch1) && Grew(fat1, ch1, fat2, ch2)
    requires ch1 == [] || IsChain(fat1, ch1)
    requires ch2 == [] || IsChain(fat2, ch2)
    ensures Grew(fat0, ch0, fat2, ch2)
  {
    assert ch2[..|ch0|] == ch1[..|ch0|];
    forall i | |ch0| <= i < |ch2| ensures ch2[i] < |fat0| && fat0[ch2[i]] == 0 {
      if i < |ch1| {
        assert ch2[i] == ch1[..][i];
      } else {
        NotInOld(fat1, ch1, ch2[i]);
        assert ch0 == ch1[..|ch0|];
      }
    }
    forall c | 2 <= c < |fat0| && fat2[c] != fat0[c] ensures c in ch0 || fat0[c] == 0 {
      assert c in ch1 ==> c in ch0 || fat0[c] == 0;
    }
    forall c | 0 <= c < |fat0| && fat2[c] != fat0[c] ensures c in ch2 && |ch2| > |ch0| {
      if fat1[c] != fat0[c] { assert c in ch2[..|ch1|]; }
    }
  }

  /** A chain that grows makes no entry invalid. */
  lemma GrewValid(fat0: seq<nat>, ch0: seq<nat>, fat: seq<nat>, ch: seq<nat>)
    requires Grew(fat0, ch0, fat, ch) && (ch == [] || IsChain(fat, ch))
    ensures SomeInvalid(fat) ==> SomeInvalid(fat0)
  {
    if SomeInvalid(fat) {
      var x :| 2 <= x < |fat| && fat[x] == 1;
      if x in ch { OnChain(fat, ch, x); }
      assert fat0[x] == 1;
    }
  }

  lemma ElsewhereFrom(g: Layout, a: seq<Sector>, b: seq<Sector>, c: seq<Sector>, sects: seq<nat>)
    requires SameOutsideFat(g, a, b) && OnlySectors(b, c, sects)
    ensures Elsewhere(g, a, c, sects)
  {
  }

  lemma ElsewhereTrans(g: Layout, a: seq<Sector>, b: seq<Sector>, c: seq<Sector>, ch1: seq<nat>, ch2: seq<nat>)
    requires |ch1| <= |ch2| && ch2[..|ch1|] == ch1
    requires Elsewhere(g, a, b, Sectors(g, ch1)) && Elsewhere(g, b, c, Sectors(g, ch2))
    ensures Elsewhere(g, a, c, Sectors(g, ch2))
  {
    SectorsPrefix(g, ch2, |ch1|);
    var s1, s2 := Sectors(g, ch1), Sectors(g, ch2);
    assert forall x :: x in s1 ==> x in s2;
  }

  lemma NotInOld(fat: seq<nat>, ch: seq<nat>, c: nat)
    requires ch == [] || IsChain(fat, ch)
    requires c < |fat| && fat[c] == 0
    ensures c !in ch
  {
    if c in ch {
      OnChain(fat, ch, c);
    }
  }

  class FileObj {
    const fs: FatFs
    const buf: array<Byte>       // buf[]: the private sector buffer
    const canRead: bool          // FA_READ
    const canWrite: bool         // FA_WRITE
    var sclust: nat              // obj.sclust
    var objsize: nat             // obj.objsize
    var fptr: nat
    var clust: nat
    var sect: nat                // sector appearing in buf
    var dirty: bool              // FA_DIRTY
    var modified: bool           // FA_MODIFIED
    var err: FResult

    ghost var data: seq<Cell>    // the contents of the file
    ghost var chain: seq<nat>    // its clusters
    ghost var sects: seq<nat>    // its sectors
    ghost var bj: int            // the number of the buffered sector, -1 when it is none of the file's
    ghost var ck: nat            // the number of the current cluster

    /** The end of f_open: an object for the file that begins at cluster `sclust` and holds `size` bytes. */
    constructor (fs: FatFs, sclust: nat, size: nat, canRead: bool, canWrite: bool, ghost ch: seq<nat>)
      requires fs.Valid() && Roomy(fs.g, fs.total)
      requires ChainFrom(fs.fat, sclust, ch)
      requires size <= SS * |Sectors(fs.g, ch)| && size < TWO32
      requires fs.winsect !in Sectors(fs.g, ch)
      ensures Steady() && fresh(buf) && this.fs == fs && err == FR_OK
      ensures this.canRead == canRead && this.canWrite == canWrite && !dirty && !modified
      ensures this.sclust == sclust && chain == ch && fptr == 0
      ensures (forall j :: 0 <= j < |sects| ==> sects[j] < |fs.img|) && data == Stored(fs.img, sects, size)
    {
      this.fs, this.sclust, objsize := fs, sclust, size;
      this.canRead, this.canWrite := canRead, canWrite;
      fptr, clust, sect, dirty, modified, err := 0, 0, 0, false, false, FR_OK;
      buf := new Byte[SS](_ => 0);
      chain, sects, bj, ck := ch, Sectors(fs.g, ch), -1, 0;
      SectorsGood(fs.g, fs.total, fs.fat, ch);
      data := Stored(fs.img, Sectors(fs.g, ch), size);
    }

    /** The chain on the volume is the file's, and gives its sectors. */
    ghost predicate Chained()
      reads this`sclust, this`chain, this`sects, fs`fat
    {
      ChainFrom(fs.fat, sclust, chain) && sects == Sectors(fs.g, chain)
    }

    /** The sectors are in the data area, and none is in the volume's window. */
    ghost predicate Placed()
      reads this`sects, fs`winsect
    {
      forall j :: 0 <= j < |sects| ==> fs.g.database <= sects[j] < fs.total && sects[j] != fs.winsect
    }

    /** Volume and buffer together show the contents. */
    ghost predicate Content()
      reads this`data, this`sects, this`bj, this`sect, this`dirty, this`objsize, buf, fs`img
    {
      && Shows(data, sects, fs.img, bj, buf[..], dirty)
      && objsize == |data| < TWO32
      && sect < TWO32
      && if bj >= 0 then sects[bj] == sect else sect !in sects
    }

    /** Everything but the cursor. */
    ghost predicate Inv()
      reads this`sclust, this`chain, this`sects, this`data, this`bj, this`sect, this`dirty, this`objsize
      reads buf, fs, fs.win
    {
      && fs.Valid() && Roomy(fs.g, fs.total)
      && buf != fs.win && buf.Length == SS
      && Chained() && Placed() && Content()
    }

    /** The cluster and the sector that belong to the file pointer. */
    ghost predicate Cursor()
      reads this`fptr, this`objsize, this`clust, this`chain, this`ck, this`bj
    {
      && fptr <= objsize
      && (fptr > 0 ==> Within(ck, fptr))
      && (fptr % SS != 0 ==> bj == fptr / SS)
    }

    /** The current cluster is cluster number `k`, and position `p` ends in it. */
    ghost predicate Within(k: nat, p: nat)
      reads this`clust, this`chain
    {
      && k < |chain| && clust == chain[k]
      && SS * SectorCount(fs.g, k) < p <= SS * (SectorCount(fs.g, k) + fs.g.csize)
    }

    /** The file pointer is at the end of the last cluster. */
    ghost predicate AtEnd()
      reads this`fptr, this`chain
    {
      fptr == SS * SectorCount(fs.g, |chain|)
    }

    lemma AtEndIs()
      ensures AtEnd() <==> fptr == SS * SectorCount(fs.g, |chain|)
    {
    }

    ghost predicate Steady()
      reads this`sclust, this`chain, this`sects, this`data, this`bj, this`sect, this`dirty, this`objsize, this`fptr
      reads this`clust, this`ck, buf, fs, fs.win
    {
      Inv() && Cursor()
    }

    /** An open file; after an internal error it is of no more use, and the cursor is anywhere. */
    ghost predicate Valid()
      reads this, buf, fs, fs.win
    {
      Inv() && (err == FR_OK ==> Cursor())
    }

    /** The sectors of the file are all different. */
    lemma Different()
      requires Inv()
      ensures AllDifferent(sects)
    {
      SectorsGood(fs.g, fs.total, fs.fat, chain);
    }

    /** Write-back of the sector buffer. */
    method FlushBuf()
      requires Inv() && dirty
      modifies this`dirty, fs`disk, fs`img
      ensures Inv() && !dirty
      ensures OnlySectors(old(fs.img), fs.img, sects)
    {
      Different();
      FlushShows(data, sects, fs.img, bj, buf[..]);
      fs.WriteData(sect, 1, buf[..]);
      dirty := false;
      assert fs.img == old(fs.img)[sect := buf[..]];
    }

    /** The current cluster is the one that holds sector number `j`, at place `r` in it. */
    ghost predicate AtSector(j: nat, r: nat)
      reads this`ck, this`chain, this`clust
    {
      ck < |chain| && clust == chain[ck] && r < fs.g.csize && j == SectorCount(fs.g, ck) + r
    }

    /** f_read, on a cluster boundary: the cluster that holds the file pointer. */
    method NextCluster(ghost j: nat)
      requires Steady() && fptr < objsize && fptr == SS * j && j == SectorCount(fs.g, if fptr == 0 then 0 else ck + 1)
      modifies this`clust, this`ck, fs`disk, fs`wflag, fs`winsect, fs.win
      ensures Inv() && AtSector(j, 0)
      ensures clust < TWO32
      ensures fs.WindowStays()
    {
      hide FileObj.Inv, Cursor, FileObj.Steady, AtSector, SectorCount, FatFs.Valid, Roomy, InBytes;
      NextFacts();
      if fptr == 0 {
        clust := sclust;
        ck := 0;
      } else {
        var clst := GetFat(fs, clust);
        StillInv();
        clust := clst;
        ck := ck + 1;
      }
      AtStart(j);
    }

    /** The chain reaches on as far as the file. */
    lemma NextFacts()
      requires Steady() && fptr < objsize && (fptr > 0 ==> fptr == SS * SectorCount(fs.g, ck + 1))
      ensures fs.Valid() && Inv() && buf != fs.win && fs.g.csize > 0 && chain != [] && sclust == chain[0] < TWO32
      ensures fptr > 0 ==> ck + 1 < |chain| && clust == chain[ck] && 2 <= clust < fs.g.nFatent == |fs.fat|
      ensures fptr > 0 ==> fs.fat[clust] == chain[ck + 1] < TWO32
    {
      FirstFacts();
      LinkOf(0);
      if fptr > 0 {
        InsideChain(fs.g, ck + 1, |chain|);
        LinkOf(ck);
        LinkOf(ck + 1);
      }
      hide FileObj.Inv, Roomy;
    }

    /** `fptr / SS & (csize - 1)` at a sector boundary: 0 on a cluster boundary, else the place of the
        sector in the current cluster. */
    method PlaceInCluster(ghost j: nat) returns (csect: nat)
      requires Inv() && Cursor() && fptr == SS * j
      ensures if csect == 0 then j == SectorCount(fs.g, if fptr == 0 then 0 else ck + 1) else AtSector(j, csect)
    {
      assert 0 < fs.g.csize && PlaceOf(fs.g, 0) == 0;
      if fptr > 0 {
        NextOrSame(fs.g, ck, j);
      }
      InSector(fptr, j, 0);
      hide FatFs.Valid, Chained, Placed, Content, Roomy, PlaceOf;
      csect := PlaceOf(fs.g, fptr / SS);
    }

    /** The sector of the current cluster at place `r`. */
    lemma SectorHere(j: nat, r: nat)
      requires Inv() && AtSector(j, r)
      ensures j < |sects| && 2 <= clust < fs.g.nFatent && sects[j] == ClusterBase(fs.g, clust) + r
    {
      SectorsAt(fs.g, chain, ck, r);
    }

    /** f_read, on a sector boundary: the sector to read and its place in the cluster. The
        FR_INT_ERR exits of the code cannot be taken: the chain reaches as far as the file. */
    method LocateForRead() returns (s: nat, csect: nat, ghost j: nat)
      requires Steady() && fptr < objsize && fptr % SS == 0
      modifies this`clust, this`ck, fs`disk, fs`wflag, fs`winsect, fs.win
      ensures Inv() && AtSector(j, csect) && fptr == SS * j
      ensures j < |sects| && s == sects[j]
      ensures fs.WindowStays()
    {
      hide FileObj.Inv, Cursor, FileObj.Steady, AtSector, SectorCount, FatFs.Valid;
      SteadyIs();
      j := Boundary(fptr);
      csect := PlaceInCluster(j);
      if csect == 0 {
        NextCluster(j);
      }
      s := SectorNumber(csect, j);
    }

    /** The sectors of one cluster from place `r` on are neighbours. */
    lemma Neighbours(j: nat, r: nat, n: nat)
      requires Inv() && AtSector(j, r) && 0 < n && r + n <= fs.g.csize
      ensures Adjacent(sects, j, n) && sects[j] + n <= fs.total
    {
      RunInCluster(fs.g, fs.fat, chain, ck, r, n);
      ClusterInDrive(fs.g, fs.total, clust);
    }

    /** The window holds no sector of a run of the file's. */
    lemma WindowClear(j: nat, n: nat)
      requires Placed() && 0 < n && Adjacent(sects, j, n)
      ensures !(sects[j] <= fs.winsect < sects[j] + n)
    {
      if sects[j] <= fs.winsect < sects[j] + n {
        RunMember(sects, j, n, fs.winsect);
      }
    }

    /** A position in the next `n` sectors belongs to the current cluster. */
    lemma Advance(j: nat, r: nat, n: nat, p: nat)
      requires AtSector(j, r) && r + n <= fs.g.csize && SS * j < p <= SS * (j + n)
      ensures Within(ck, p)
    {
    }

    /** The test `fp->sect - sect < cc`: is the buffered sector among `n` neighbours? */
    lemma BufferHit(j: nat, n: nat)
      requires Inv() && 0 < n && Adjacent(sects, j, n) && sects[j] + n <= fs.total
      ensures Sub32(sect, sects[j]) < n <==> j <= bj < j + n
      ensures j <= bj < j + n ==> sect - sects[j] == bj - j
    {
      Different();
      Sub32Window(sect, sects[j], n);
      if sects[j] <= sect < sects[j] + n {
        RunMember(sects, j, n, sect);
        InsideRun(sects, j, n, bj);
      }
    }

    /** The transfer of f_read that bypasses the buffer, with a dirty buffer patched in. */
    method TransferIn(s: nat, cc: nat, ghost j: nat, ghost r: nat) returns (d: seq<Byte>)
      requires Inv() && AtSector(j, r) && 0 < cc && r + cc <= fs.g.csize
      requires j < |sects| && s == sects[j]
      requires SS * (j + cc) <= |data|
      ensures Fits(d, data[SS * j..SS * (j + cc)])
    {
      Neighbours(j, r, cc);
      WindowClear(j, cc);
      BufferHit(j, cc);
      assert fs.g.database <= s && (dirty ==> bj >= 0);
      d := fs.ReadData(s, cc);
      DirectReadAll(data, sects, fs.img, bj, buf[..], dirty, j, cc, d);
      hide *;
      if dirty && Sub32(sect, s) < cc {
        d := Splice(d, SS * (sect - s), buf[..]);
      }
    }

    /** f_read's step that takes whole sectors past the buffer. */
    method ReadDirect(s: nat, csect: nat, btr: nat, ghost j: nat) returns (d: seq<Byte>)
      requires Inv() && AtSector(j, csect) && fptr == SS * j
      requires j < |sects| && s == sects[j]
      requires SS <= btr <= |data| - fptr
      modifies this`fptr
      ensures Steady() && 0 < |d| <= btr
      ensures fptr == old(fptr) + |d| && Fits(d, Piece(data, old(fptr), |d|))
    {
      RoomLeft(j, csect);
      hide FatFs.Valid, FileObj.Inv, FileObj.Steady, Within, AtSector, SectorCount, IsChain;
      var cc := btr / SS;
      if csect + cc > fs.g.csize {
        cc := fs.g.csize - csect;
      }
      d := TransferIn(s, cc, j, csect);
      Advance(j, csect, cc, fptr + SS * cc);
      fptr := fptr + SS * cc;
      InSector(fptr, j + cc, 0);
      Moved();
    }

    /** Fill the sector buffer with sector number `j` of the file, writing back what it held. */
    method SwitchBuf(s: nat, ghost j: nat)
      requires Inv() && j < |sects| && s == sects[j]
      modifies this`dirty, this`sect, this`bj, fs`disk, fs`img, buf
      ensures Inv() && bj == j && sect == s
      ensures OnlySectors(old(fs.img), fs.img, sects)
    {
      if sect != s {
        if dirty {
          FlushBuf();
        }
        LoadBuf(s, j);
      } else {
        Different();
        bj := j;
      }
    }

    /** disk_read of one sector of the file into the clean buffer, and `sect = s`. */
    method LoadBuf(s: nat, ghost j: nat)
      requires Inv() && j < |sects| && s == sects[j] && !dirty
      modifies this`sect, this`bj, buf
      ensures Inv() && bj == j && sect == s
    {
      LoadShows(data, sects, fs.img, bj, buf[..], j, fs.img[s]);
      hide Shows, Chained, Roomy;
      var d := fs.ReadData(s, 1);
      forall k | 0 <= k < SS { buf[k] := d[k]; }
      assert buf[..] == fs.img[s];
      sect := s;
      bj := j;
    }

    /** Off a sector boundary the buffer holds the cursor's sector. */
    lemma Current() returns (j: nat, r: nat)
      requires Inv() && Cursor() && fptr % SS != 0
      ensures AtSector(j, r) && bj == j && SS * j < fptr < SS * j + SS
    {
      j := fptr / SS;
      r := j - SectorCount(fs.g, ck);
    }

    /** f_read's step through the buffer: as much as the sector and `btr` allow. */
    method ReadBuffered(btr: nat, ghost j: nat, ghost r: nat) returns (d: seq<Byte>)
      requires Inv() && AtSector(j, r) && bj == j && SS * j <= fptr < SS * j + SS
      requires 0 < btr <= |data| - fptr
      modifies this`fptr
      ensures Steady() && 0 < |d| <= btr
      ensures fptr == old(fptr) + |d| && Fits(d, Piece(data, old(fptr), |d|))
    {
      hide FatFs.Valid, Within, AtSector, SectorCount, Shows, Chained, Placed, Roomy, Fits, Piece;
      RoomLeft(j, r);
      InSector(fptr, j, fptr - SS * j);
      assert objsize == |data|;
      var o := fptr % SS;
      var rcnt := SS - o;
      if rcnt > btr {
        rcnt := btr;
      }
      d := buf[o..o + rcnt];
      BufferedBytes(data, sects, fs.img, bj, buf[..], dirty, j, o, rcnt);
      hide FileObj.Inv, FileObj.Steady;
      Advance(j, r, 1, fptr + rcnt);
      fptr := fptr + rcnt;
      EndOfStore(old(fptr), rcnt, j);
      Moved();
    }

    /** One turn of f_read's loop, on a sector boundary. */
    method ReadAtBoundary(btr: nat) returns (d: seq<Byte>)
      requires Steady() && 0 < btr <= |data| - fptr && fptr % SS == 0
      modifies this`clust, this`ck, this`dirty, this`sect, this`bj, this`fptr
      modifies fs`disk, fs`img, fs`wflag, fs`winsect, fs.win, buf
      ensures Steady() && 0 < |d| <= btr
      ensures fptr == old(fptr) + |d| && Fits(d, Piece(data, old(fptr), |d|))
      ensures OnlySectors(old(fs.img), fs.img, sects)
      ensures fs.WindowStays()
    {
      hide FileObj.Inv, Cursor, FileObj.Steady, AtSector, SectorCount, FatFs.Valid, Roomy, Piece, Fits;
      SteadyIs();
      var s, csect;
      ghost var j;
      s, csect, j := LocateForRead();
      if btr / SS > 0 {
        d := ReadDirect(s, csect, btr, j);
      } else {
        SwitchBuf(s, j);
        d := ReadBuffered(btr, j, csect);
      }
    }

    /** One turn of f_read's loop. */
    method ReadStep(btr: nat) returns (d: seq<Byte>)
      requires Steady() && 0 < btr <= |data| - fptr
      modifies this`clust, this`ck, this`dirty, this`sect, this`bj, this`fptr
      modifies fs`disk, fs`img, fs`wflag, fs`winsect, fs.win, buf
      ensures Steady() && 0 < |d| <= btr
      ensures fptr == old(fptr) + |d| && Fits(d, Piece(data, old(fptr), |d|))
      ensures OnlySectors(old(fs.img), fs.img, sects)
      ensures fs.WindowStays()
    {
      if fptr % SS == 0 {
        d := ReadAtBoundary(btr);
      } else {
        ghost var j, r := Current();
        d := ReadBuffered(btr, j, r);
      }
    }

    /** The loop of f_read. */
    method ReadAll(btr: nat) returns (d: seq<Byte>)
      requires Steady() && btr <= |data| - fptr
      modifies this`clust, this`ck, this`dirty, this`sect, this`bj, this`fptr
      modifies fs`disk, fs`img, fs`wflag, fs`winsect, fs.win, buf
      ensures Steady()
      ensures |d| == btr && fptr == old(fptr) + btr && Fits(d, Piece(data, old(fptr), btr))
      ensures OnlySectors(old(fs.img), fs.img, sects)
      ensures fs.WindowStays()
    {
      hide FileObj.Inv, Cursor, FileObj.Steady, Fits, Piece;
      NothingRead(data, fptr);
      d := [];
      var n: nat := btr;
      while n > 0
        invariant Steady() && n <= |data| - fptr
        invariant fptr == old(fptr) + |d| && |d| + n == btr
        invariant Fits(d, Piece(data, old(fptr), |d|))
        invariant OnlySectors(old(fs.img), fs.img, sects) && fs.WindowStays()
      {
        var chunk := ReadStep(n);
        PieceStep(data, old(fptr), |d|, |chunk|);
        FitsBoth(d, Piece(data, old(fptr), |d|), chunk, Piece(data, old(fptr) + |d|, |chunk|));
        d := d + chunk;
        n := n - |chunk|;
      }
    }

    /** f_read */
    method Read(btr: nat) returns (res: FResult, d: seq<Byte>)
      requires Valid()
      modifies this`clust, this`ck, this`dirty, this`sect, this`bj, this`fptr
      modifies fs`disk, fs`img, fs`wflag, fs`winsect, fs.win, buf
      ensures Valid()
      ensures res == if err != FR_OK then err else if !canRead then FR_DENIED else FR_OK
      ensures if res == FR_OK then ReadFrom(data, old(fptr), btr, d) else d == []
      ensures res == FR_OK ==> |d| == if btr <= |data| - old(fptr) then btr else |data| - old(fptr)
      ensures fptr == old(fptr) + |d|
      ensures OnlySectors(old(fs.img), fs.img, sects)
      ensures fs.WindowStays()
    {
      d := [];
      if err != FR_OK {
        return err, d;
      }
      if !canRead {
        return FR_DENIED, d;
      }
      OpenFacts();
      hide *;
      var remain := objsize - fptr;
      var n := if btr > remain then remain else btr;
      d := ReadAll(n);
      PieceRead(data, old(fptr), btr, d);
      res := FR_OK;
    }

    /** Everything that does not depend on the chain, for a volume whose table has just changed. */
    ghost predicate Waiting(img0: seq<Sector>)
      reads this`chain, this`sects, this`data, this`bj, this`sect, this`dirty, this`objsize
      reads buf, fs, fs.win
    {
      && fs.Valid() && Roomy(fs.g, fs.total) && fs.winsect < fs.g.database
      && buf != fs.win && buf.Length == SS
      && (forall j :: 0 <= j < |sects| ==> fs.g.database <= sects[j] < fs.total)
      && |img0| == fs.total && SameOutsideFat(fs.g, img0, fs.img)
      && Shows(data, sects, img0, bj, buf[..], dirty)
      && sects == Sectors(fs.g, chain)
      && objsize == |data| < TWO32 && sect < TWO32
      && if bj >= 0 then sects[bj] == sect else sect !in sects
    }

    /** The number of the buffered sector after cluster `ncl` joined the file. */
    ghost function Renumbered(ncl: nat): int
      reads this`bj, this`sect, this`sects
    {
      var base := ClusterBase(fs.g, ncl);
      if bj < 0 && base <= sect < base + fs.g.csize then |sects| + (sect - base) else bj
    }

    lemma RenumberedIsRight(ncl: nat)
      requires bj < |sects| && if bj >= 0 then sects[bj] == sect else bj == -1 && sect !in sects
      ensures var b, sects' := Renumbered(ncl), sects + ClusterSectors(fs.g, ncl);
              && -1 <= b < |sects'|
              && (if b >= 0 then sects'[b] == sect else sect !in sects')
              && (bj >= 0 ==> b == bj) && (bj < 0 ==> b == -1 || |sects| <= b)
    {
    }

    lemma GrownContent(ncl: nat, img0: seq<Sector>)
      requires Waiting(img0) && IsChain(fs.fat, chain + [ncl])
      ensures var all := Sectors(fs.g, chain + [ncl]);
              && sects <= all && AllDifferent(all)
              && (forall j :: 0 <= j < |all| ==> fs.g.database <= all[j] < fs.total)
              && Shows(data, all, fs.img, Renumbered(ncl), buf[..], dirty)
              && if Renumbered(ncl) >= 0 then all[Renumbered(ncl)] == sect else sect !in all
    {
      SectorsPush(fs.g, chain, ncl);
      SectorsGood(fs.g, fs.total, fs.fat, chain + [ncl]);
      RenumberedIsRight(ncl);
      GrowShows(data, sects, img0, bj, buf[..], dirty, Sectors(fs.g, chain + [ncl]), fs.img, Renumbered(ncl));
    }

    /** Take cluster `ncl`, now the last of the chain on the volume, into the file. */
    ghost method Adopt(ncl: nat, img0: seq<Sector>)
      requires Waiting(img0)
      requires IsChain(fs.fat, chain + [ncl]) && (chain + [ncl])[0] == sclust
      modifies this`chain, this`sects, this`bj
      ensures Inv() && chain == old(chain) + [ncl]
    {
      GrownContent(ncl, img0);
      hide FatFs.Valid, Shows, Roomy;
      var b, ch := Renumbered(ncl), chain + [ncl];
      bj, chain, sects := b, ch, Sectors(fs.g, ch);
    }

    /** Moving the window to the table disturbs nothing. */
    twostate lemma StillInv()
      requires old(Inv()) && unchanged(this) && unchanged(buf)
      requires fs.Valid() && fs.WindowStays() && fs.img == old(fs.img) && fs.fat == old(fs.fat)
      ensures Inv()
    {
    }

    /** What the table says about cluster number `k` of the chain. */
    lemma LinkOf(k: nat)
      requires Inv() && k < |chain|
      ensures 2 <= chain[k] < |fs.fat| == fs.g.nFatent && |fs.fat| >= 3
      ensures k + 1 < |chain| ==> 2 <= fs.fat[chain[k]] == chain[k + 1] < |fs.fat|
      ensures k + 1 == |chain| ==> fs.fat[chain[k]] >= |fs.fat|
    {
      ChainLinks(fs.fat, chain, k);
    }

    /** The cluster before number `k` of the chain; 0 for the first. */
    ghost function Before(k: nat): nat
      reads this`chain
    {
      if 0 < k <= |chain| then chain[k - 1] else 0
    }

    lemma BeforeFacts(k: nat)
      requires Inv() && k <= |chain| && (k == 0 ==> chain == [])
      ensures fs.Valid() && Grew(fs.fat, chain, fs.fat, chain)
      ensures sclust == 0 <==> chain == []
      ensures chain != [] ==> sclust == chain[0]
      ensures |fs.fat| == fs.g.nFatent >= 3 && Before(k) < |fs.fat| && (k > 0 ==> Before(k) >= 2)
      ensures k == |chain| ==> Growing(fs.g, fs.fat, Before(k))
      ensures k < |chain| ==> 2 <= fs.fat[Before(k)] == chain[k] < |fs.fat| && !Growing(fs.g, fs.fat, Before(k))
    {
      if k > 0 {
        ChainLinks(fs.fat, chain, k - 1);
      }
    }

    /** After create_chain has taken cluster `r` behind the tail. */
    twostate lemma Stretched(r: nat)
      requires old(Inv()) && unchanged(this) && unchanged(buf)
      requires fs.Valid() && InFat(fs.g, fs.winsect) && SameOutsideFat(fs.g, old(fs.img), fs.img)
      requires 2 <= r < |old(fs.fat)| && old(fs.fat)[r] == 0 && old(Before(|chain|)) < |old(fs.fat)|
      requires fs.fat == Grown(fs.g, old(fs.fat), old(Before(|chain|)), r)
      ensures Waiting(old(fs.img))
      ensures IsChain(fs.fat, chain + [r])
      ensures Grew(old(fs.fat), chain, fs.fat, chain + [r])
    {
      hide *;
      OldParts();
      StretchedChain(fs.g, old(fs.fat), chain, r);
      MakeWaiting();
    }

    /** What a valid state says, after the volume has moved on. */
    twostate lemma OldParts()
      requires old(Inv()) && unchanged(this) && unchanged(buf)
      ensures Roomy(fs.g, fs.total) && buf != fs.win && buf.Length == SS && sects == Sectors(fs.g, chain)
      ensures forall j :: 0 <= j < |sects| ==> fs.g.database <= sects[j] < fs.total
      ensures Shows(data, sects, old(fs.img), bj, buf[..], dirty)
      ensures objsize == |data| < TWO32 && sect < TWO32
      ensures if bj >= 0 then bj < |sects| && sects[bj] == sect else sect !in sects
      ensures |old(fs.img)| == fs.total && |old(fs.fat)| == fs.g.nFatent <= MaxEntries(fs.g.fsType)
      ensures chain == [] || IsChain(old(fs.fat), chain)
      ensures old(Before(|chain|)) == if chain == [] then 0 else chain[|chain| - 1]
    {
      assert buf[..] == old(buf[..]);
    }

    twostate lemma MakeWaiting()
      requires fs.Valid() && Roomy(fs.g, fs.total) && InFat(fs.g, fs.winsect) && buf != fs.win && buf.Length == SS
      requires forall j :: 0 <= j < |sects| ==> fs.g.database <= sects[j] < fs.total
      requires |old(fs.img)| == fs.total && SameOutsideFat(fs.g, old(fs.img), fs.img)
      requires Shows(data, sects, old(fs.img), bj, buf[..], dirty) && sects == Sectors(fs.g, chain)
      requires objsize == |data| < TWO32 && sect < TWO32
      requires if bj >= 0 then bj < |sects| && sects[bj] == sect else sect !in sects
      ensures Waiting(old(fs.img))
    {
      hide Shows, Roomy, Sectors, SameOutsideFat;
    }

    /** What a call of create_chain that answered `r` does to the chain, the table and the rest. */
    twostate predicate Allocating(r: nat)
      reads this`chain, fs`fat, fs`freeClst, fs`img, fs`winsect
    {
      && (r == 0 ==> Full(fs))
      && (r == 1 ==> SomeInvalid(fs.fat))
      && (r < 2 ==> chain == old(chain) && fs.fat == old(fs.fat) && fs.img == old(fs.img))
      && Grew(old(fs.fat), old(chain), fs.fat, chain)
      && SameOutsideFat(fs.g, old(fs.img), fs.img) && fs.WindowStays()
      && (old(Honest(fs)) ==> Honest(fs))
    }

    /** The call of create_chain for cluster number `k` of the file. */
    method Ask(ghost k: nat) returns (r: nat)
      requires Inv() && k <= |chain| && (k == 0 ==> chain == []) && (k > 0 ==> clust == chain[k - 1])
      modifies fs`disk, fs`wflag, fs`winsect, fs`img, fs`fat, fs`freeClst, fs`lastClst, fs`fsiFlag, fs.win
      ensures r < 2 || k < |chain| ==>
        Inv() && fs.fat == old(fs.fat) && fs.img == old(fs.img) && fs.freeClst == old(fs.freeClst)
      ensures k < |chain| ==> r == chain[k] >= 2
      ensures r >= 2 && k == |chain| ==>
                Waiting(old(fs.img)) && IsChain(fs.fat, chain + [r]) && Grew(old(fs.fat), chain, fs.fat, chain + [r])
      ensures r == 0 ==> Full(fs)
      ensures r == 1 ==> SomeInvalid(fs.fat)
      ensures SameOutsideFat(fs.g, old(fs.img), fs.img)
      ensures fs.WindowStays() && (old(Honest(fs)) ==> Honest(fs))
    {
      BeforeFacts(k);
      hide FatFs.Valid, Grew, Local, Chained, Content, Waiting, Growing, Grown, Chosen, FreeKnown;
      r := CreateChain(fs, if sclust == 0 then 0 else clust);
      if r < 2 || k < |chain| {
        StillInv();
      } else {
        Stretched(r);
      }
    }

    /** create_chain for cluster number `k` of the file: follow or stretch. */
    method ExtendTo(ghost k: nat) returns (r: nat)
      requires Inv() && k <= |chain| && (k == 0 ==> chain == []) && (k > 0 ==> clust == chain[k - 1])
      modifies this`sclust, this`chain, this`sects, this`bj
      modifies fs`disk, fs`wflag, fs`winsect, fs`img, fs`fat, fs`freeClst, fs`lastClst, fs`fsiFlag, fs.win
      ensures Inv()
      ensures r < 2 ==> chain == old(chain) && bj == old(bj) && clust == old(clust) && ck == old(ck)
      ensures r >= 2 ==> k < |chain| && chain[k] == r
      ensures k < |old(chain)| ==> r >= 2 && Quiet(old(fs.fat), old(chain), old(fs.img), old(fs.freeClst))
      ensures r < 2 ==> k == |chain|
      ensures |chain| > |old(chain)| ==> |chain| == k + 1
      ensures Allocating(r)
    {
      hide *;
      BeforeFacts(k);
      r := Ask(k);
      if r >= 2 {
        if sclust == 0 {
          sclust := r;
        }
        if k == |chain| {
          Adopt(r, old(fs.img));
        }
      }
      QuietIs(old(fs.fat), old(chain), old(fs.img), old(fs.freeClst));
      AllocatingIs(r);
    }

    twostate lemma AllocatingIs(r: nat)
      requires (r == 0 ==> Full(fs)) && (r == 1 ==> SomeInvalid(fs.fat))
      requires r < 2 ==> chain == old(chain) && fs.fat == old(fs.fat) && fs.img == old(fs.img)
      requires Grew(old(fs.fat), old(chain), fs.fat, chain)
      requires SameOutsideFat(fs.g, old(fs.img), fs.img) && fs.WindowStays() && (old(Honest(fs)) ==> Honest(fs))
      ensures Allocating(r)
    {
    }

    /** On a cluster boundary: what the cursor says about the chain. */
    lemma BoundaryFacts()
      requires Steady() && (fptr > 0 ==> fptr == SS * SectorCount(fs.g, ck + 1))
      ensures 0 < fs.g.csize
      ensures sclust == 0 <==> chain == []
      ensures sclust != 0 ==> sclust == chain[0] >= 2
      ensures fptr > 0 ==> ck < |chain| && clust == chain[ck]
      ensures Grew(fs.fat, chain, fs.fat, chain)
    {
    }

    lemma TopFacts()
      requires Steady()
      ensures 0 < fs.g.csize && Inv() && SectorCount(fs.g, 0) == 0
    {
    }

    /** f_write at the top of a file without clusters. */
    method AskFirst() returns (r: nat)
      requires Steady() && fptr == 0 && chain == []
      modifies this`clust, this`ck, this`sclust, this`chain, this`sects, this`bj
      modifies fs`disk, fs`wflag, fs`winsect, fs`img, fs`fat, fs`freeClst, fs`lastClst, fs`fsiFlag, fs.win
      ensures if r >= 2 then Inv() && AtSector(0, 0) else Inv() && chain == []
      ensures |chain| > |old(chain)| ==> |chain| == 1
      ensures r < 2 ==> chain == old(chain) && bj == old(bj) && clust == old(clust) && ck == old(ck)
      ensures Allocating(r)
    {
      hide *;
      TopFacts();
      r := ExtendTo(0);
      if r >= 2 {
        clust := r;
        ck := 0;
        AtStart(0);
      }
    }

    /** f_write on a cluster boundary behind the first cluster. */
    method AskNext(ghost j: nat) returns (r: nat)
      requires Steady() && fptr == SS * j > 0 && j == SectorCount(fs.g, ck + 1)
      modifies this`clust, this`ck, this`sclust, this`chain, this`sects, this`bj
      modifies fs`disk, fs`wflag, fs`winsect, fs`img, fs`fat, fs`freeClst, fs`lastClst, fs`fsiFlag, fs.win
      ensures Inv() && if r >= 2 then AtSector(j, 0) else |chain| == ck + 1
      ensures |chain| > |old(chain)| ==> |chain| == old(ck) + 2
      ensures r < 2 ==> chain == old(chain) && bj == old(bj) && clust == old(clust) && ck == old(ck)
      ensures Allocating(r)
    {
      BoundaryFacts();
      assert Inv();
      r := TakeNext();
    }

    /** The cluster behind the current one. */
    method TakeNext() returns (r: nat)
      requires Inv() && ck < |chain| && clust == chain[ck] && fs.g.csize > 0
      modifies this`clust, this`ck, this`sclust, this`chain, this`sects, this`bj
      modifies fs`disk, fs`wflag, fs`winsect, fs`img, fs`fat, fs`freeClst, fs`lastClst, fs`fsiFlag, fs.win
      ensures Inv() && if r >= 2 then AtSector(SectorCount(fs.g, old(ck) + 1), 0) else |chain| == ck + 1
      ensures |chain| > |old(chain)| ==> |chain| == old(ck) + 2
      ensures r < 2 ==> chain == old(chain) && bj == old(bj) && clust == old(clust) && ck == old(ck)
      ensures Allocating(r)
    {
      hide *;
      r := ExtendTo(ck + 1);
      if r >= 2 {
        clust := r;
        ck := ck + 1;
        AtStart(SectorCount(fs.g, ck));
      }
    }

    lemma AtStart(j: nat)
      requires ck < |chain| && clust == chain[ck] && fs.g.csize > 0 && j == SectorCount(fs.g, ck)
      ensures AtSector(j, 0)
    {
    }

    /** f_write, on a cluster boundary: the cluster that holds the file pointer, allocated if need be.
        0: the disk is full; 1: the table holds an invalid entry. */
    method ClusterForWrite(ghost j: nat) returns (r: nat)
      requires Steady() && fptr == SS * j && j == SectorCount(fs.g, if fptr == 0 then 0 else ck + 1)
      modifies this`clust, this`ck, this`sclust, this`chain, this`sects, this`bj
      modifies fs`disk, fs`wflag, fs`winsect, fs`img, fs`fat, fs`freeClst, fs`lastClst, fs`fsiFlag, fs.win
      ensures Inv() && (r >= 2 ==> AtSector(j, 0))
      ensures r < 2 ==> Steady() && j == SectorCount(fs.g, |chain|)
      ensures |chain| > |old(chain)| ==> j == SectorCount(fs.g, |chain| - 1)
      ensures Allocating(r)
    {
      hide *;
      TopFacts();
      HeadFacts();
      if fptr == 0 {
        r := sclust;
        if r == 0 {
          r := AskFirst();
        } else {
          clust := r;
          ck := 0;
          AtStart(j);
          NothingTaken(r);
        }
      } else {
        r := AskNext(j);
      }
      if r < 2 { StillSteady(); }
    }

    twostate lemma NothingTaken(r: nat)
      requires r >= 2 && old(Inv()) && unchanged(fs) && unchanged(fs.win) && chain == old(chain)
      ensures Allocating(r)
    {
      assert Grew(fs.fat, chain, fs.fat, chain);
      assert SameOutsideFat(fs.g, fs.img, fs.img);
      assert fs.WindowStays();
    }

    twostate lemma StillSteady()
      requires old(Steady()) && Inv() && chain == old(chain) && bj == old(bj) && clust == old(clust) && ck == old(ck)
      requires fptr == old(fptr) && objsize == old(objsize)
      ensures Steady()
    {
      hide FileObj.Inv;
    }

    /** f_write, on a sector boundary: the cluster to write to, and the place in it. */
    method ArriveForWrite(ghost j: nat) returns (r: nat, csect: nat)
      requires Steady() && fptr == SS * j
      modifies this`clust, this`ck, this`sclust, this`chain, this`sects, this`bj
      modifies fs`disk, fs`wflag, fs`winsect, fs`img, fs`fat, fs`freeClst, fs`lastClst, fs`fsiFlag, fs.win
      ensures Inv() && (r >= 2 ==> AtSector(j, csect))
      ensures r < 2 ==> Steady() && j == SectorCount(fs.g, |chain|)
      ensures |chain| > |old(chain)| ==> j == SectorCount(fs.g, |chain| - 1)
      ensures Allocating(r)
    {
      hide FileObj.Inv, Cursor, FileObj.Steady, Grew, SectorCount, AtSector, SameOutsideFat, Full, SomeInvalid, Honest;
      SteadyIs();
      NothingTaken(2);
      csect := PlaceInCluster(j);
      r := 2;
      if csect == 0 {
        r := ClusterForWrite(j);
      }
    }

    /** The sector of the current cluster at a place. */
    method SectorNumber(csect: nat, ghost j: nat) returns (s: nat)
      requires Inv() && AtSector(j, csect)
      ensures j < |sects| && s == sects[j]
    {
      SectorHere(j, csect);
      s := Clst2Sect(fs, clust);
      s := s + csect;
    }

    /** What one file's writing does to the rest of the volume: free clusters may join the chain, and
        beyond the table only the file's own sectors change. */
    twostate predicate Mine()
      reads this`chain, this`sects, fs`fat, fs`freeClst, fs`img, fs`winsect
    {
      && Grew(old(fs.fat), old(chain), fs.fat, chain) && Elsewhere(fs.g, old(fs.img), fs.img, sects) && fs.WindowStays()
      && (old(Honest(fs)) ==> Honest(fs))
    }

    /** Why create_chain refused. */
    ghost predicate Refused(r: nat)
      reads fs`fat, fs`freeClst
    {
      (r == 0 ==> Full(fs)) && (r == 1 ==> SomeInvalid(fs.fat))
    }

    /** f_write, on a sector boundary: the sector to write to; the buffer is written back.
        `r` is create_chain's answer: 0 and 1 end the call. */
    method LocateForWrite(ghost j: nat) returns (r: nat, s: nat, csect: nat)
      requires Steady() && fptr == SS * j
      modifies this`clust, this`ck, this`sclust, this`chain, this`sects, this`bj, this`dirty
      modifies fs`disk, fs`wflag, fs`winsect, fs`img, fs`fat, fs`freeClst, fs`lastClst, fs`fsiFlag, fs.win
      ensures Inv() && (r < 2 ==> Steady())
      ensures r >= 2 ==> AtSector(j, csect) && !dirty && j < |sects| && s == sects[j]
      ensures if r < 2 then chain == old(chain) && j == SectorCount(fs.g, |chain|)
              else |chain| > |old(chain)| ==> j == SectorCount(fs.g, |chain| - 1)
      ensures Refused(r) && Mine()
    {
      hide FileObj.Inv, Cursor, Grew;
      r, csect := ArriveForWrite(j);
      s := 0;
      if r >= 2 {
        if dirty {
          FlushBuf();
        }
        s := SectorNumber(csect, j);
      }
    }

    /** The parts of a valid state. */
    lemma MakeValid()
      requires fs.Valid() && Roomy(fs.g, fs.total) && buf != fs.win && buf.Length == SS && Chained() && Placed()
      requires Shows(data, sects, fs.img, bj, buf[..], dirty) && fptr <= objsize == |data| < TWO32 && sect < TWO32
      requires if bj >= 0 then bj < |sects| && sects[bj] == sect else sect !in sects
      requires (fptr > 0 ==> Within(ck, fptr)) && (fptr % SS != 0 ==> bj == fptr / SS)
      ensures Steady()
    {
      hide FatFs.Valid, Roomy, Shows, Chained, Placed, Within;
    }

    /** The cursor has moved and nothing else. */
    twostate lemma Moved()
      requires old(Inv()) && unchanged(fs, fs.win, buf)
      requires unchanged(this`sclust, this`chain, this`sects, this`data, this`bj, this`sect, this`dirty, this`objsize)
      requires fptr <= objsize && (fptr > 0 ==> Within(ck, fptr)) && (fptr % SS != 0 ==> bj == fptr / SS)
      ensures Steady()
    {
      hide FatFs.Valid, Roomy, Shows, Within, ChainFrom, Sectors;
    }

    /** The bookkeeping of f_write's loop after `d` has gone to its place. */
    method Advanced(n: nat, ghost d: seq<Byte>, ghost j: nat, ghost r: nat, ghost m: nat)
      requires fs.Valid() && Roomy(fs.g, fs.total) && buf != fs.win && buf.Length == SS && Chained() && Placed()
      requires AtSector(j, r) && r + m <= fs.g.csize && SS * j < fptr + n <= SS * (j + m)
      requires fptr <= objsize == |data| < TWO32 && n == |d| && fptr + n < TWO32 && sect < TWO32
      requires Shows(Overwrite(data, fptr, d), sects, fs.img, bj, buf[..], dirty)
      requires if bj >= 0 then sects[bj] == sect else sect !in sects
      requires (fptr + n) % SS != 0 ==> bj == (fptr + n) / SS
      modifies this`fptr, this`objsize, this`data
      ensures Steady() && objsize >= old(objsize)
      ensures fptr == old(fptr) + n && data == Overwrite(old(data), old(fptr), d)
    {
      hide *;
      Advance(j, r, m, fptr + n);
      ShownNumber(Overwrite(data, fptr, d), sects, fs.img, bj, buf[..], dirty);
      data := Overwrite(data, fptr, d);
      fptr := fptr + n;
      objsize := if fptr > objsize then fptr else objsize;
      assert buf[..] == old(buf[..]);
      MakeValid();
    }

    /** f_write's store into the buffer: as much as the sector allows. */
    method StoreBuf(d: seq<Byte>, ghost j: nat, ghost r: nat) returns (n: nat)
      requires Inv() && AtSector(j, r) && bj == j && SS * j <= fptr < SS * j + SS && fptr <= |data|
      requires 0 < |d| && fptr + |d| < TWO32
      modifies this`dirty, this`fptr, this`objsize, this`data, buf
      ensures Steady() && 0 < n <= |d| && objsize >= old(objsize)
      ensures fptr == old(fptr) + n && data == Overwrite(old(data), old(fptr), d[..n])
    {
      hide FatFs.Valid, Shows, Chained, Placed, Roomy, Overwrite, SectorCount;
      InSector(fptr, j, fptr - SS * j);
      var o := fptr % SS;
      n := SS - o;
      if n > |d| {
        n := |d|;
      }
      StoreShows(data, sects, fs.img, bj, buf[..], dirty, fptr, d[..n]);
      EndOfStore(fptr, n, j);
      forall k | 0 <= k < n { buf[o + k] := d[k]; }
      assert buf[..] == Splice(old(buf[..]), o, d[..n]);
      dirty := true;
      Advanced(n, d[..n], j, r, 1);
    }

    lemma EndOfStore(p: nat, n: nat, j: nat)
      requires SS * j <= p && p + n <= SS * j + SS
      ensures (p + n) % SS != 0 ==> (p + n) / SS == j
    {
    }

    /** f_write's choice of buffer contents for sector `s`: keep it, load it, or, at the growing edge,
        leave it as it is. */
    method PrepareBuf(s: nat, ghost j: nat)
      requires Inv() && fptr == SS * j && j < |sects| && s == sects[j] && !dirty
      modifies this`sect, this`bj, buf
      ensures Inv() && bj == j
    {
      if sect != s && fptr < objsize {
        LoadBuf(s, j);
      } else {
        if sect != s {
          EdgeShows(data, sects, fs.img, bj, buf[..], j);
        } else {
          Different();
        }
        hide FatFs.Valid, Shows, Chained, Roomy;
        sect := s;
        bj := j;
      }
    }

    /** Everything a direct transfer of `n` sectors from number `j` on needs to know. */
    lemma DirectFacts(d: seq<Byte>, j: nat, r: nat, n: nat)
      requires Inv() && AtSector(j, r) && fptr == SS * j && !dirty && 0 < n && r + n <= fs.g.csize
      requires |d| == SS * n && fptr <= |data|
      ensures j < |sects| && sects[j] + n <= fs.total && fs.g.database <= sects[j]
      ensures !(sects[j] <= fs.winsect < sects[j] + n)
      ensures Shows(Overwrite(data, fptr, d), sects, PutSectors(fs.img, sects[j], n, d), bj,
        Refreshed(bj, buf[..], j, n, d), false)
      ensures OnlySectors(fs.img, PutSectors(fs.img, sects[j], n, d), sects)
      ensures Sub32(sect, sects[j]) < n <==> j <= bj < j + n
      ensures j <= bj < j + n ==> sect - sects[j] == bj - j
    {
      SectorHere(j, r);
      Different();
      Neighbours(j, r, n);
      WindowClear(j, n);
      BufferHit(j, n);
      DirectShows(data, sects, fs.img, bj, buf[..], j, n, d);
      DirectFrame(sects, fs.img, j, n, d);
    }

    /** f_write's transfer of whole sectors past the buffer. */
    method WriteDirect(s: nat, csect: nat, d: seq<Byte>, ghost j: nat) returns (n: nat)
      requires Inv() && AtSector(j, csect) && fptr == SS * j && !dirty && j < |sects| && s == sects[j]
      requires SS <= |d| && fptr + |d| < TWO32 && fptr <= |data|
      modifies this`dirty, this`fptr, this`objsize, this`data, fs`disk, fs`img, buf
      ensures Steady() && 0 < n <= |d| && objsize >= old(objsize)
      ensures fptr == old(fptr) + n && data == Overwrite(old(data), old(fptr), d[..n])
      ensures OnlySectors(old(fs.img), fs.img, sects)
    {
      hide FatFs.Valid, FileObj.Inv, FileObj.Steady, Chained, Placed, Content, AtSector, Roomy, Shows, Overwrite,
        OnlySectors, Sound, SectorCount;
      var cc := |d| / SS;
      RoomLeft(j, csect);
      if csect + cc > fs.g.csize {
        cc := fs.g.csize - csect;
      }
      n := SS * cc;
      InSector(fptr + n, j + cc, 0);
      TransferOut(s, cc, d[..n], j, csect);
      Advanced(n, d[..n], j, csect, cc);
    }

    lemma RoomLeft(j: nat, r: nat)
      requires Inv() && AtSector(j, r)
      ensures r < fs.g.csize && objsize == |data| < TWO32 && sect < TWO32 && Chained()
      ensures if bj >= 0 then bj < |sects| && sects[bj] == sect else sect !in sects
      ensures fs.Valid() && Roomy(fs.g, fs.total) && buf != fs.win && buf.Length == SS
    {
    }

    /** The transfer itself, and the refresh of a buffer it overtakes. */
    method TransferOut(s: nat, cc: nat, d: seq<Byte>, ghost j: nat, ghost r: nat)
      requires Inv() && AtSector(j, r) && fptr == SS * j && !dirty && j < |sects| && s == sects[j]
      requires 0 < cc && r + cc <= fs.g.csize && |d| == SS * cc && fptr <= |data|
      modifies this`dirty, fs`disk, fs`img, buf
      ensures fs.Valid() && Placed() && !dirty && AtSector(j, r)
      ensures Shows(Overwrite(data, fptr, d), sects, fs.img, bj, buf[..], false)
      ensures OnlySectors(old(fs.img), fs.img, sects)
    {
      DirectFacts(d, j, r, cc);
      assert fs.Valid() && Placed() && buf != fs.win && buf.Length == SS;
      hide FatFs.Valid, FileObj.Inv, Content, Shows, Chained, Placed, Roomy, Overwrite, OnlySectors, PutSectors,
        Refreshed;
      hide AtSector, Sub32;
      fs.WriteData(s, cc, d);
      RefreshBuf(s, cc, d, j);
    }

    /** The buffer takes its sector from the data written past it, if it was among them. */
    method RefreshBuf(s: nat, cc: nat, d: seq<Byte>, ghost j: nat)
      requires buf.Length == SS && |d| == SS * cc && !dirty
      requires (Sub32(sect, s) < cc <==> j <= bj < j + cc) && (j <= bj < j + cc ==> sect - s == bj - j)
      modifies this`dirty, buf
      ensures !dirty && buf[..] == Refreshed(bj, old(buf[..]), j, cc, d)
    {
      hide Sub32, Refreshed;
      if Sub32(sect, s) < cc {
        var o := SS * (sect - s);
        forall k | 0 <= k < SS { buf[k] := d[o + k]; }
        dirty := false;
      }
      RefreshedNow(bj, old(buf[..]), j, cc, d, buf[..]);
    }

    /** One turn of f_write's loop on a sector boundary. */
    method WriteAtBoundary(d: seq<Byte>) returns (r: nat, n: nat)
      requires Steady() && 0 < |d| && fptr + |d| < TWO32 && fptr % SS == 0
      modifies this`clust, this`ck, this`sclust, this`chain, this`sects, this`bj, this`dirty, this`sect, this`fptr
      modifies this`objsize, this`data
      modifies fs`disk, fs`wflag, fs`winsect, fs`img, fs`fat, fs`freeClst, fs`lastClst, fs`fsiFlag, fs.win, buf
      ensures Steady() && n <= |d| && (n == 0 <==> r < 2) && (r < 2 ==> AtEnd())
      ensures fptr == old(fptr) + n && data == Overwrite(old(data), old(fptr), d[..n])
      ensures Snug(fs.g, |old(chain)|, |chain|, objsize) && objsize >= old(objsize)
      ensures Refused(r) && Mine()
    {
      hide *;
      ghost var j := Boundary(fptr);
      var s, csect;
      SteadyIs();
      NothingWritten(d);
      SnugNow(fs.g, |chain|, objsize);
      r, s, csect := LocateForWrite(j);
      n := 0;
      if r >= 2 {
        MineNow();
        n := WriteLocated(s, csect, d, j, old(fs.fat), old(chain), old(fs.img), old(fs.winsect), old(Honest(fs)));
        SinceIsMine();
        NotRefused(r);
        SnugAt(|old(chain)|, j);
      } else {
        SteadyIs();
        AtEndIs();
      }
    }

    lemma Boundary(p: nat) returns (j: nat)
      requires p % SS == 0
      ensures p == SS * j
    {
      j := p / SS;
    }

    lemma SnugAt(n: nat, j: nat)
      requires Steady() && SS * j < fptr && (|chain| > n ==> j == SectorCount(fs.g, |chain| - 1))
      ensures Snug(fs.g, n, |chain|, objsize)
    {
      hide FileObj.Inv;
    }

    lemma NotRefused(r: nat)
      requires r >= 2
      ensures Refused(r)
    {
    }

    /** The transfer, seen from the start of the turn. */
    method WriteLocated(s: nat, csect: nat, d: seq<Byte>, ghost j: nat,
                        ghost fat0: seq<nat>, ghost ch0: seq<nat>, ghost img0: seq<Sector>, ghost w0: nat,
                        ghost h0: bool)
      returns (n: nat)
      requires Inv() && AtSector(j, csect) && fptr == SS * j && !dirty && j < |sects| && s == sects[j]
      requires 0 < |d| && fptr + |d| < TWO32 && fptr <= |data| && MineSince(fat0, ch0, img0, w0, h0)
      modifies this`dirty, this`sect, this`bj, this`fptr, this`objsize, this`data, fs`disk, fs`img, buf
      ensures Steady() && 0 < n <= |d| && objsize >= old(objsize)
      ensures fptr == old(fptr) + n && data == Overwrite(old(data), old(fptr), d[..n])
      ensures MineSince(fat0, ch0, img0, w0, h0)
    {
      hide FileObj.Inv, FileObj.Steady, AtSector, Overwrite, MineSince, Grew, Elsewhere, Honest, OnlySectors;
      SinceFor(fat0, ch0, img0, w0, h0);
      ghost var img1 := fs.img;
      n := WritePart(s, csect, d, j);
      SinceOnly(fat0, ch0, img0, w0, h0, img1);
    }

    /** The transfer of one turn: whole sectors past the buffer, or a part of one through it. */
    method WritePart(s: nat, csect: nat, d: seq<Byte>, ghost j: nat) returns (n: nat)
      requires Inv() && AtSector(j, csect) && fptr == SS * j && !dirty && j < |sects| && s == sects[j]
      requires 0 < |d| && fptr + |d| < TWO32 && fptr <= |data|
      modifies this`dirty, this`sect, this`bj, this`fptr, this`objsize, this`data, fs`disk, fs`img, buf
      ensures Steady() && 0 < n <= |d| && objsize >= old(objsize)
      ensures fptr == old(fptr) + n && data == Overwrite(old(data), old(fptr), d[..n])
      ensures OnlySectors(old(fs.img), fs.img, sects)
    {
      hide FileObj.Inv, FileObj.Steady, AtSector, Overwrite;
      if |d| / SS > 0 {
        n := WriteDirect(s, csect, d, j);
      } else {
        PrepareBuf(s, j);
        n := StoreBuf(d, j, csect);
      }
    }

    /** Writing to the file's own sectors only is the file's own affair. */
    lemma SinceOnly(fat0: seq<nat>, ch0: seq<nat>, img0: seq<Sector>, w0: nat, h0: bool, img1: seq<Sector>)
      requires Grew(fat0, ch0, fs.fat, chain) && Elsewhere(fs.g, img0, img1, sects) && OnlySectors(img1, fs.img, sects)
      requires (fs.winsect == w0 || InFat(fs.g, fs.winsect)) && (h0 ==> Honest(fs))
      ensures MineSince(fat0, ch0, img0, w0, h0)
    {
      hide Grew, Honest;
    }

    lemma SinceFor(fat0: seq<nat>, ch0: seq<nat>, img0: seq<Sector>, w0: nat, h0: bool)
      requires MineSince(fat0, ch0, img0, w0, h0)
      ensures Grew(fat0, ch0, fs.fat, chain) && Elsewhere(fs.g, img0, fs.img, sects)
      ensures (fs.winsect == w0 || InFat(fs.g, fs.winsect)) && (h0 ==> Honest(fs))
    {
    }

    /** One turn of f_write's loop. */
    method WriteStep(d: seq<Byte>) returns (r: nat, n: nat)
      requires Steady() && 0 < |d| && fptr + |d| < TWO32
      modifies this`clust, this`ck, this`sclust, this`chain, this`sects, this`bj, this`dirty, this`sect, this`fptr
      modifies this`objsize, this`data
      modifies fs`disk, fs`wflag, fs`winsect, fs`img, fs`fat, fs`freeClst, fs`lastClst, fs`fsiFlag, fs.win, buf
      ensures Steady() && n <= |d| && (n == 0 <==> r < 2) && (r < 2 ==> AtEnd())
      ensures fptr == old(fptr) + n && data == Overwrite(old(data), old(fptr), d[..n])
      ensures Snug(fs.g, |old(chain)|, |chain|, objsize) && objsize >= old(objsize)
      ensures Refused(r) && Mine()
    {
      if fptr % SS == 0 {
        r, n := WriteAtBoundary(d);
      } else {
        assert Mine();
        SnugNow(fs.g, |chain|, objsize);
        ghost var j, k := Current();
        n := StoreBuf(d, j, k);
        r := 2;
      }
    }

    lemma KnownChain()
      requires Valid()
      ensures Inv() && (chain == [] || IsChain(fs.fat, chain)) && sects == Sectors(fs.g, chain)
    {
    }

    /** The chain has room for the contents, and the table the entries of the volume. */
    lemma StoreFacts()
      requires Valid()
      ensures (chain == [] || IsChain(fs.fat, chain)) && objsize == |data| <= SS * SectorCount(fs.g, |chain|)
      ensures 3 <= |fs.fat| == fs.g.nFatent <= MaxEntries(fs.g.fsType)
    {
    }

    lemma SteadyIs()
      requires Steady()
      ensures Inv() && Cursor() && fptr <= objsize == |data|
    {
    }

    lemma SteadyChain()
      requires Steady()
      ensures Inv() && (chain == [] || IsChain(fs.fat, chain)) && sects == Sectors(fs.g, chain)
    {
    }

    /** Mine, since a state given by its table, chain and volume. */
    ghost predicate MineSince(fat0: seq<nat>, ch0: seq<nat>, img0: seq<Sector>, w0: nat, h0: bool)
      reads this`chain, this`sects, fs`fat, fs`freeClst, fs`img, fs`winsect
    {
      && Grew(fat0, ch0, fs.fat, chain) && Elsewhere(fs.g, img0, fs.img, sects)
      && (fs.winsect == w0 || InFat(fs.g, fs.winsect))
      && (h0 ==> Honest(fs))
    }

    /** Two stretches of writing make one. */
    lemma MineTrans(fat0: seq<nat>, ch0: seq<nat>, img0: seq<Sector>, w0: nat, h0: bool,
                    fat1: seq<nat>, ch1: seq<nat>, img1: seq<Sector>, w1: nat, h1: bool)
      requires Inv() && (ch1 == [] || IsChain(fat1, ch1))
      requires Grew(fat0, ch0, fat1, ch1) && Elsewhere(fs.g, img0, img1, Sectors(fs.g, ch1))
      requires (w1 == w0 || InFat(fs.g, w1)) && (h0 ==> h1)
      requires MineSince(fat1, ch1, img1, w1, h1)
      ensures MineSince(fat0, ch0, img0, w0, h0)
    {
      GrewTrans(fat0, ch0, fat1, ch1, fs.fat, chain);
      ElsewhereTrans(fs.g, img0, img1, fs.img, ch1, chain);
    }

    /** A turn of the loop, seen from the start of the call: `bw` bytes of `d` are written so far. */
    method WriteTurn(d: seq<Byte>, bw: nat, ghost data0: seq<Cell>, ghost p0: nat,
                     ghost fat0: seq<nat>, ghost ch0: seq<nat>, ghost img0: seq<Sector>, ghost w0: nat, ghost h0: bool)
      returns (r: nat, n: nat)
      requires Steady() && bw < |d| && fptr == p0 + bw && p0 + |d| < TWO32
      requires p0 <= |data0| && data == Overwrite(data0, p0, d[..bw]) && MineSince(fat0, ch0, img0, w0, h0)
      requires Snug(fs.g, |ch0|, |chain|, objsize)
      modifies this`clust, this`ck, this`sclust, this`chain, this`sects, this`bj, this`dirty, this`sect, this`fptr
      modifies this`objsize, this`data
      modifies fs`disk, fs`wflag, fs`winsect, fs`img, fs`fat, fs`freeClst, fs`lastClst, fs`fsiFlag, fs.win, buf
      ensures Steady() && n <= |d| - bw && (n == 0 <==> r < 2) && (r < 2 ==> AtEnd())
      ensures fptr == p0 + bw + n && data == Overwrite(data0, p0, d[..bw + n]) && MineSince(fat0, ch0, img0, w0, h0)
      ensures Refused(r) && Snug(fs.g, |ch0|, |chain|, objsize)
    {
      hide *;
      SteadyChain();
      SinceParts(fat0, ch0, img0, w0, h0);
      ghost var fat1, ch1, img1, w1, h1, size1 := fs.fat, chain, fs.img, fs.winsect, Honest(fs), objsize;
      r, n := WriteStep(d[bw..]);
      SteadyChain();
      MineNow();
      SinceFor(fat1, ch1, img1, w1, h1);
      GrewLonger(fat1, ch1, fs.fat, chain);
      SnugTrans(fs.g, |ch0|, |ch1|, size1, |chain|, objsize);
      MineTrans(fat0, ch0, img0, w0, h0, old(fs.fat), old(chain), old(fs.img), old(fs.winsect), old(Honest(fs)));
      TurnBytes(data0, p0, d, bw, n);
    }

    /** What is known of the writing so far. */
    lemma SinceParts(fat0: seq<nat>, ch0: seq<nat>, img0: seq<Sector>, w0: nat, h0: bool)
      requires MineSince(fat0, ch0, img0, w0, h0) && sects == Sectors(fs.g, chain)
      ensures Grew(fat0, ch0, fs.fat, chain) && Elsewhere(fs.g, img0, fs.img, Sectors(fs.g, chain))
      ensures (fs.winsect == w0 || InFat(fs.g, fs.winsect)) && (h0 ==> Honest(fs))
    {
    }

    twostate lemma MineNow()
      requires Mine()
      ensures MineSince(old(fs.fat), old(chain), old(fs.img), old(fs.winsect), old(Honest(fs)))
    {
      hide Grew, Elsewhere, Honest;
    }

    twostate lemma SinceIsMine()
      requires MineSince(old(fs.fat), old(chain), old(fs.img), old(fs.winsect), old(Honest(fs)))
      ensures Mine()
    {
      hide Grew, Elsewhere, Honest;
    }

    /** Before the first turn nothing has been written. */
    lemma NothingWritten(d: seq<Byte>)
      requires Steady()
      ensures fptr <= |data| && data == Overwrite(data, fptr, d[..0])
      ensures MineSince(fs.fat, chain, fs.img, fs.winsect, Honest(fs)) && Refused(2)
    {
    }

    /** The loop of f_write. */
    method WriteAll(d: seq<Byte>) returns (r: nat, bw: nat)
      requires Steady() && fptr + |d| < TWO32
      modifies this`clust, this`ck, this`sclust, this`chain, this`sects, this`bj, this`dirty, this`sect, this`fptr
      modifies this`objsize, this`data
      modifies fs`disk, fs`wflag, fs`winsect, fs`img, fs`fat, fs`freeClst, fs`lastClst, fs`fsiFlag, fs.win, buf
      ensures Steady() && bw <= |d| && (bw < |d| <==> r < 2) && (r < 2 ==> AtEnd())
      ensures fptr == old(fptr) + bw && data == Overwrite(old(data), old(fptr), d[..bw])
      ensures Refused(r) && Mine() && Snug(fs.g, |old(chain)|, |chain|, objsize)
    {
      hide *;
      r, bw := 2, 0;
      NothingWritten(d);
      SnugNow(fs.g, |chain|, objsize);
      while bw < |d|
        invariant Steady() && bw <= |d| && r == 2 && Refused(2)
        invariant fptr == old(fptr) + bw && data == Overwrite(old(data), old(fptr), d[..bw])
        invariant MineSince(old(fs.fat), old(chain), old(fs.img), old(fs.winsect), old(Honest(fs)))
        invariant Snug(fs.g, |old(chain)|, |chain|, objsize)
      {
        var n;
        r, n := WriteTurn(d, bw, old(data), old(fptr), old(fs.fat), old(chain), old(fs.img), old(fs.winsect),
          old(Honest(fs)));
        bw := bw + n;
        if r < 2 {
          break;
        }
        r := 2;
        NotRefused(r);
      }
      SinceIsMine();
    }

    /** f_write */
    method Write(d: seq<Byte>) returns (res: FResult, bw: nat)
      requires Valid() && |d| < TWO32
      modifies this`err, this`modified, this`clust, this`ck, this`sclust, this`chain, this`sects, this`bj, this`dirty
      modifies this`sect, this`fptr, this`objsize, this`data
      modifies fs`disk, fs`wflag, fs`winsect, fs`img, fs`fat, fs`freeClst, fs`lastClst, fs`fsiFlag, fs.win, buf
      ensures Valid()
      ensures old(err) != FR_OK ==> res == old(err)
      ensures old(err) == FR_OK && !canWrite ==> res == FR_DENIED
      ensures old(err) != FR_OK || !canWrite ==>
        err == old(err) && bw == 0 && fptr == old(fptr) && data == old(data) && KeptTable()
      ensures res == FR_OK || bw == 0 || err == FR_INT_ERR
      ensures bw <= |d| && (old(err) == FR_OK ==> fptr < TWO32)
      ensures old(err) == FR_OK ==> fptr == old(fptr) + bw && data == Overwrite(old(data), old(fptr), d[..bw])
      ensures old(err) == FR_OK && canWrite ==>
                || (res == FR_OK && err == FR_OK && modified &&
                    (bw < |d| ==> fptr == 0xFFFF_FFFF || (Full(fs) && AtEnd())))
                || (res == FR_INT_ERR == err && old(SomeInvalid(fs.fat)))
      ensures Mine() && Snug(fs.g, |old(chain)|, |chain|, objsize)
    {
      hide FileObj.Inv, FileObj.Steady, FileObj.Valid, Cursor, Grew, Elsewhere, Refused, Mine, Overwrite, KeptTable;
      hide MineSince, SomeInvalid, Full, Snug, AtEnd;
      bw := 0;
      NothingHappened();
      SnugNow(fs.g, |chain|, objsize);
      if err != FR_OK {
        return err, 0;
      }
      OpenFacts();
      NothingWritten(d);
      if !canWrite {
        return FR_DENIED, 0;
      }
      var btw := |d|;
      if (fptr + btw) % TWO32 < fptr {
        btw := 0xFFFF_FFFF - fptr;
      }
      assert fptr + btw < TWO32 && (btw < |d| ==> fptr + btw == 0xFFFF_FFFF);
      res, bw := WriteClipped(d, btw);
      StillOpen();
    }

    /** f_write, the number of bytes clipped. */
    method WriteClipped(d: seq<Byte>, btw: nat) returns (res: FResult, bw: nat)
      requires Steady() && btw <= |d| && fptr + btw < TWO32 && err == FR_OK
      modifies this`err, this`modified, this`clust, this`ck, this`sclust, this`chain, this`sects, this`bj, this`dirty
      modifies this`sect, this`fptr, this`objsize, this`data
      modifies fs`disk, fs`wflag, fs`winsect, fs`img, fs`fat, fs`freeClst, fs`lastClst, fs`fsiFlag, fs.win, buf
      ensures Steady() && bw <= btw
      ensures fptr == old(fptr) + bw && data == Overwrite(old(data), old(fptr), d[..bw])
      ensures (res == FR_OK && err == FR_OK && modified && (bw < btw ==> Full(fs) && AtEnd())) ||
        (res == FR_INT_ERR == err && old(SomeInvalid(fs.fat)))
      ensures Mine() && Snug(fs.g, |old(chain)|, |chain|, objsize)
    {
      hide FileObj.Inv, FileObj.Steady, Cursor, Grew, Elsewhere, Mine, Overwrite, Snug, SomeInvalid, Full, AtEnd;
      var r;
      r, bw := WriteAll(d[..btw]);
      SteadyChain();
      InvalidBefore();
      assert d[..btw][..bw] == d[..bw];
      if r == 1 {
        err := FR_INT_ERR;
        return FR_INT_ERR, bw;
      }
      modified := true;
      res := FR_OK;
    }

    /** An invalid entry that is there now was there before. */
    twostate lemma InvalidBefore()
      requires Mine() && (chain == [] || IsChain(fs.fat, chain))
      ensures SomeInvalid(fs.fat) ==> old(SomeInvalid(fs.fat))
    {
      hide Grew, SomeInvalid, IsChain;
      GrewValid(old(fs.fat), old(chain), fs.fat, chain);
    }

    lemma FirstFacts()
      requires Inv() && 0 < objsize
      ensures 0 < |chain| && sclust == chain[0] && 0 < fs.g.csize
      ensures objsize <= SS * SectorCount(fs.g, |chain|)
    {
    }

    /** Where f_lseek's walk begins: the current cluster when the target is in it or behind it, else the first one,
        which is created if there is none. `r` is create_chain's answer: 0 and 1 end the call. */
    method SeekStart(ofs: nat) returns (r: nat, rem: nat, ghost k: nat)
      requires Steady() && 0 < ofs
      modifies this`clust, this`fptr, this`sclust, this`chain, this`sects, this`bj
      modifies fs`disk, fs`wflag, fs`winsect, fs`img, fs`fat, fs`freeClst, fs`lastClst, fs`fsiFlag, fs.win
      ensures Inv() && Refused(r) && MineSince(old(fs.fat), old(chain), old(fs.img), old(fs.winsect), old(Honest(fs)))
      ensures if r >= 2 then Walking(k, rem, ofs) else fptr == objsize == 0 && chain == old(chain) == []
      ensures |chain| > |old(chain)| ==> |chain| == k + 1
      ensures objsize > 0 ==> Quiet(old(fs.fat), old(chain), old(fs.img), old(fs.freeClst))
    {
      hide *;
      SeekFacts(ofs);
      var ifptr := fptr;
      fptr := 0;
      rem := ofs;
      k := 0;
      if ifptr > 0 && ClusterNo(fs.g, ofs - 1) >= ClusterNo(fs.g, ifptr - 1) {
        fptr := ClusterStart(fs.g, ifptr - 1);
        rem := ofs - fptr;
        k := ck;
        r := 2;
        NothingAsked(r);
      } else {
        r := SeekFirst();
      }
      if r >= 2 {
        NowWalking(k, rem, ofs);
      }
    }

    /** What f_lseek's choice of a starting point comes to. */
    lemma SeekFacts(ofs: nat)
      requires Steady() && 0 < ofs
      ensures Inv() && fs.g.csize > 0 && (objsize > 0 ==> chain != []) && SS * SectorCount(fs.g, 0) == 0
      ensures fptr > 0 ==> ck < |chain| && clust == chain[ck]
      ensures fptr > 0 ==> ClusterStart(fs.g, fptr - 1) == SS * SectorCount(fs.g, ck)
      ensures fptr > 0 && ClusterNo(fs.g, ofs - 1) >= ClusterNo(fs.g, fptr - 1) ==> ClusterStart(fs.g, fptr - 1) < ofs
    {
      ghost var m := SomeCluster(fs.g, ofs);
      ClusterOf(fs.g, m, ofs);
      if fptr > 0 {
        ClusterOf(fs.g, ck, fptr);
        if ck <= m {
          ClusterOrder(fs.g, ck, m);
        }
      }
      hide FatFs.Valid, Placed, Roomy, ClusterNo, ClusterStart;
    }

    lemma NowWalking(k: nat, rem: nat, target: nat)
      requires k < |chain| && clust == chain[k] && fptr == SS * SectorCount(fs.g, k) && 0 < rem
      requires fptr + rem == target
      ensures Walking(k, rem, target)
    {
    }

    /** Table, chain and volume are what they were. */
    ghost predicate Quiet(fat0: seq<nat>, ch0: seq<nat>, img0: seq<Sector>, free0: nat)
      reads this`chain, fs`fat, fs`img, fs`freeClst
    {
      fs.fat == fat0 && chain == ch0 && fs.img == img0 && fs.freeClst == free0
    }

    lemma QuietTwice(fat0: seq<nat>, ch0: seq<nat>, img0: seq<Sector>, free0: nat,
                     fat1: seq<nat>, ch1: seq<nat>, img1: seq<Sector>, free1: nat)
      requires fat1 == fat0 && ch1 == ch0 && img1 == img0 && free1 == free0 && Quiet(fat1, ch1, img1, free1)
      ensures Quiet(fat0, ch0, img0, free0)
    {
    }

    twostate lemma NothingAsked(r: nat)
      requires r >= 2 && old(Inv()) && unchanged(fs) && unchanged(fs.win) && chain == old(chain) && sects == old(sects)
      ensures Refused(r) && MineSince(old(fs.fat), old(chain), old(fs.img), old(fs.winsect), old(Honest(fs)))
      ensures Quiet(old(fs.fat), old(chain), old(fs.img), old(fs.freeClst))
    {
    }

    /** The first cluster of the file. */
    method SeekFirst() returns (r: nat)
      requires Inv()
      modifies this`clust, this`sclust, this`chain, this`sects, this`bj
      modifies fs`disk, fs`wflag, fs`winsect, fs`img, fs`fat, fs`freeClst, fs`lastClst, fs`fsiFlag, fs.win
      ensures Inv() && Refused(r) && MineSince(old(fs.fat), old(chain), old(fs.img), old(fs.winsect), old(Honest(fs)))
      ensures if r >= 2 then chain != [] && clust == chain[0] else objsize == 0 && chain == old(chain) == []
      ensures |chain| > |old(chain)| ==> |chain| == 1
      ensures old(chain) != [] ==> r >= 2 && Quiet(old(fs.fat), old(chain), old(fs.img), old(fs.freeClst))
    {
      hide *;
      HeadFacts();
      r := sclust;
      if r == 0 {
        r := ExtendTo(0);
        AskedIsMine(r);
        if r == 1 {
          return;
        }
      } else {
        NothingAsked(r);
      }
      clust := r;
    }

    lemma HeadFacts()
      requires Inv()
      ensures if chain == [] then sclust == 0 && objsize == 0 else sclust == chain[0] >= 2
    {
      hide FatFs.Valid, Placed, Roomy;
    }

    /** One turn of f_lseek's walk: on to the next cluster of the chain, with a stretch in a file open for writing. */
    method SeekNext(ghost k: nat) returns (r: nat)
      requires Inv() && k < |chain| && clust == chain[k] && (canWrite || k + 1 < |chain|)
      modifies this`sclust, this`chain, this`sects, this`bj
      modifies fs`disk, fs`wflag, fs`winsect, fs`img, fs`fat, fs`freeClst, fs`lastClst, fs`fsiFlag, fs.win
      ensures Inv() && Refused(r) && MineSince(old(fs.fat), old(chain), old(fs.img), old(fs.winsect), old(Honest(fs)))
      ensures if r >= 2 then k + 1 < |chain| && chain[k + 1] == r else k + 1 == |chain| && chain == old(chain)
      ensures |chain| > |old(chain)| ==> |chain| == k + 2
      ensures k + 1 < |old(chain)| ==> Quiet(old(fs.fat), old(chain), old(fs.img), old(fs.freeClst))
    {
      hide *;
      if canWrite {
        r := ExtendTo(k + 1);
        AskedIsMine(r);
      } else {
        LinkOf(k);
        ValidIn();
        r := GetFat(fs, clust);
        StillInv();
        Followed(r);
      }
    }

    lemma ValidIn()
      requires Inv()
      ensures fs.Valid() && buf != fs.win
    {
    }

    /** A link of the chain was read. */
    twostate lemma Followed(r: nat)
      requires r >= 2 && old(Inv()) && fs.fat == old(fs.fat) && chain == old(chain) && fs.img == old(fs.img)
      requires fs.freeClst == old(fs.freeClst) && fs.WindowStays() && sects == old(sects)
      ensures Refused(r) && MineSince(old(fs.fat), old(chain), old(fs.img), old(fs.winsect), old(Honest(fs)))
      ensures Quiet(old(fs.fat), old(chain), old(fs.img), old(fs.freeClst))
    {
    }

    /** The position in f_lseek's walk: `rem` bytes are left from the start of cluster number `k`. */
    ghost predicate Walking(k: nat, rem: nat, target: nat)
      reads this`chain, this`clust, this`fptr
    {
      k < |chain| && clust == chain[k] && fptr == SS * SectorCount(fs.g, k) && 0 < rem && fptr + rem == target
    }

    /** The position after the walk: in cluster number `k`; at the end of the chain if it could not be stretched. */
    ghost predicate Arrived(r: nat, k: nat, rem: nat, target: nat)
      reads this`chain, this`clust, this`fptr, this`objsize
    {
      && k < |chain| && clust == chain[k] && fs.g.csize > 0
      && if r >= 2 then Walking(k, rem, target) && rem <= SS * fs.g.csize
         else rem == 0 && fptr == SS * SectorCount(fs.g, k + 1) && objsize <= fptr < target && k + 1 == |chain|
    }

    /** A turn of the walk. */
    method SeekTurn(ghost k: nat, rem: nat, ghost target: nat) returns (r: nat)
      requires Inv() && Walking(k, rem, target) && rem > SS * fs.g.csize && (canWrite || target <= objsize)
      modifies this`clust, this`fptr, this`sclust, this`chain, this`sects, this`bj
      modifies fs`disk, fs`wflag, fs`winsect, fs`img, fs`fat, fs`freeClst, fs`lastClst, fs`fsiFlag, fs.win
      ensures Inv() && Refused(r) && MineSince(old(fs.fat), old(chain), old(fs.img), old(fs.winsect), old(Honest(fs)))
      ensures if r >= 2 then Walking(k + 1, rem - SS * fs.g.csize, target) else Arrived(0, k, 0, target)
      ensures if r >= 2 then |chain| > k + 1 && (|chain| > |old(chain)| ==> |chain| == k + 2) else chain == old(chain)
      ensures target <= objsize ==> r >= 2 && Quiet(old(fs.fat), old(chain), old(fs.img), old(fs.freeClst))
    {
      hide *;
      WalkOn(k, rem, target);
      fptr := fptr + SS * fs.g.csize;
      r := SeekNext(k);
      if r >= 2 {
        clust := r;
        NowWalking(k + 1, rem - SS * fs.g.csize, target);
      } else {
        WalkEnds(k, target);
      }
    }

    /** What the walk has before it. */
    lemma WalkOn(k: nat, rem: nat, target: nat)
      requires Inv() && Walking(k, rem, target) && rem > SS * fs.g.csize
      ensures k < |chain| && clust == chain[k] && fptr + rem == target
      ensures fptr + SS * fs.g.csize == SS * SectorCount(fs.g, k + 1)
      ensures SS * fs.g.csize >= 0 && (target <= objsize ==> k + 1 < |chain|)
    {
      if target <= objsize {
        FirstFacts();
        InsideChain(fs.g, k + 1, |chain|);
      }
    }

    /** The chain could not be stretched. */
    lemma WalkEnds(k: nat, target: nat)
      requires Inv() && k + 1 == |chain| && clust == chain[k] && fptr == SS * SectorCount(fs.g, k + 1) < target
      ensures Arrived(0, k, 0, target)
    {
    }

    /** A turn of the walk, seen from the start of the call. */
    method SeekStep(ghost k: nat, rem: nat, ghost target: nat, ghost fat0: seq<nat>, ghost ch0: seq<nat>,
                    ghost img0: seq<Sector>, ghost w0: nat, ghost h0: bool, ghost free0: nat)
      returns (r: nat)
      requires Inv() && Walking(k, rem, target) && rem > SS * fs.g.csize && (canWrite || target <= objsize)
      requires MineSince(fat0, ch0, img0, w0, h0) && (target <= objsize ==> Quiet(fat0, ch0, img0, free0))
      requires |chain| > |ch0| ==> |chain| == k + 1
      modifies this`clust, this`fptr, this`sclust, this`chain, this`sects, this`bj
      modifies fs`disk, fs`wflag, fs`winsect, fs`img, fs`fat, fs`freeClst, fs`lastClst, fs`fsiFlag, fs.win
      ensures Inv() && Refused(r)
      ensures |chain| > |ch0| ==> |chain| == if r >= 2 then k + 2 else k + 1
      ensures if r >= 2 then Walking(k + 1, rem - SS * fs.g.csize, target) else Arrived(0, k, 0, target)
      ensures MineSince(fat0, ch0, img0, w0, h0)
      ensures target <= objsize ==> r >= 2 && Quiet(fat0, ch0, img0, free0)
    {
      hide *;
      InvChain();
      SinceParts(fat0, ch0, img0, w0, h0);
      ghost var fat1, ch1, img1, w1, h1, free1 := fs.fat, chain, fs.img, fs.winsect, Honest(fs), fs.freeClst;
      QuietIs(fat0, ch0, img0, free0);
      r := SeekTurn(k, rem, target);
      InvChain();
      MineTrans(fat0, ch0, img0, w0, h0, fat1, ch1, img1, w1, h1);
      if target <= objsize {
        QuietTwice(fat0, ch0, img0, free0, fat1, ch1, img1, free1);
      }
    }

    lemma QuietIs(fat0: seq<nat>, ch0: seq<nat>, img0: seq<Sector>, free0: nat)
      ensures Quiet(fat0, ch0, img0, free0) <==>
        fs.fat == fat0 && chain == ch0 && fs.img == img0 && fs.freeClst == free0
    {
    }

    lemma InvChain()
      requires Inv()
      ensures (chain == [] || IsChain(fs.fat, chain)) && sects == Sectors(fs.g, chain)
    {
    }

    /** What create_chain did is the file's own affair. */
    twostate lemma AskedIsMine(r: nat)
      requires Allocating(r)
      ensures MineSince(old(fs.fat), old(chain), old(fs.img), old(fs.winsect), old(Honest(fs))) && Refused(r)
    {
      hide Grew, Honest, SomeInvalid, Full;
    }

    /** f_lseek's walk along the chain. */
    method SeekWalk(rem0: nat, ghost k0: nat, ghost target: nat, ghost fat0: seq<nat>, ghost ch0: seq<nat>,
                    ghost img0: seq<Sector>, ghost w0: nat, ghost h0: bool, ghost free0: nat)
      returns (r: nat, rem: nat, ghost k: nat)
      requires Inv() && Walking(k0, rem0, target) && (canWrite || target <= objsize)
      requires MineSince(fat0, ch0, img0, w0, h0) && (target <= objsize ==> Quiet(fat0, ch0, img0, free0))
      requires |chain| > |ch0| ==> |chain| == k0 + 1
      modifies this`clust, this`fptr, this`sclust, this`chain, this`sects, this`bj
      modifies fs`disk, fs`wflag, fs`winsect, fs`img, fs`fat, fs`freeClst, fs`lastClst, fs`fsiFlag, fs.win
      ensures Inv() && Refused(r) && Arrived(r, k, rem, target)
      ensures |chain| > |ch0| ==> |chain| == k + 1
      ensures MineSince(fat0, ch0, img0, w0, h0)
      ensures target <= objsize ==> r >= 2 && Quiet(fat0, ch0, img0, free0)
    {
      hide *;
      var bcs := SS * fs.g.csize;
      r, rem, k := 2, rem0, k0;
      StillWalking(k, rem, target);
      while rem > bcs
        invariant Inv() && r == 2 && Walking(k, rem, target) && fs.g.csize > 0
        invariant MineSince(fat0, ch0, img0, w0, h0) && (target <= objsize ==> Quiet(fat0, ch0, img0, free0))
        invariant |chain| > |ch0| ==> |chain| == k + 1
        decreases rem
      {
        r := SeekStep(k, rem, target, fat0, ch0, img0, w0, h0, free0);
        if r < 2 {
          rem := 0;
          ArrivedFor(r, k, target);
          return;
        }
        r := 2;
        rem := rem - bcs;
        k := k + 1;
        StillWalking(k, rem, target);
      }
      HereIs(r, k, rem, target);
    }

    lemma StillWalking(k: nat, rem: nat, target: nat)
      requires Inv()
      ensures fs.g.csize > 0 && SS * fs.g.csize > 0 && Refused(2)
    {
    }

    lemma ArrivedFor(r: nat, k: nat, target: nat)
      requires r < 2 && Arrived(0, k, 0, target)
      ensures Arrived(r, k, 0, target)
    {
    }

    lemma HereIs(r: nat, k: nat, rem: nat, target: nat)
      requires r >= 2 && Walking(k, rem, target) && rem <= SS * fs.g.csize && fs.g.csize > 0
      ensures Arrived(r, k, rem, target) && Refused(r)
    {
    }

    /** The end of f_lseek: the size of a stretched file, and the buffer. */
    method SeekLand(r: nat, rem: nat, ghost k: nat, ghost target: nat)
      requires Inv() && Arrived(r, k, rem, target) && target < TWO32
      modifies this`fptr, this`ck, this`objsize, this`modified, this`data, this`dirty, this`sect, this`bj
      modifies fs`disk, fs`img, buf
      ensures Steady() && OnlySectors(old(fs.img), fs.img, sects)
      ensures if r >= 2 then fptr == target else old(objsize) <= fptr < target
      ensures SS * SectorCount(fs.g, k) < fptr <= objsize && (r < 2 ==> AtEnd())
      ensures data == Padded(old(data), fptr) && modified == (old(modified) || fptr > old(objsize))
    {
      hide FatFs.Valid, FileObj.Inv, FileObj.Steady, Cursor, OnlySectors, SectorCount, Within, AtSector, Padded;
      hide Arrived;
      LandFacts(r, rem, k, target);
      fptr := fptr + rem;
      ck := k;
      var nsect := 0;
      ghost var j := SectorCount(fs.g, k) + rem / SS;
      if rem % SS != 0 {
        LandAt(j, rem / SS);
        nsect := SectorNumber(rem / SS, j);
      }
      Stretch();
      NoSectors();
      if fptr % SS != 0 {
        SwitchBuf(nsect, j);
      }
      Landed();
    }

    /** Where the walk's last step leads. */
    lemma LandFacts(r: nat, rem: nat, k: nat, target: nat)
      requires Inv() && Arrived(r, k, rem, target) && target < TWO32
      ensures k < |chain| && clust == chain[k]
      ensures SS * SectorCount(fs.g, k) < fptr + rem <= SS * (SectorCount(fs.g, k) + fs.g.csize)
      ensures fptr + rem <= SS * |sects| && fptr + rem < TWO32
      ensures if r >= 2 then fptr + rem == target else rem == 0 && objsize <= fptr < target && AtEnd()
      ensures rem % SS == 0 <==> (fptr + rem) % SS == 0
      ensures rem % SS != 0 ==> rem / SS < fs.g.csize && (fptr + rem) / SS == SectorCount(fs.g, k) + rem / SS
    {
      InRoom(k);
      hide FileObj.Inv, FatFs.Valid;
      if rem % SS != 0 {
        LandIn(fs.g, k, rem);
      }
    }

    /** The cluster numbered `k` is among the file's sectors. */
    lemma InRoom(k: nat)
      requires Inv() && k < |chain|
      ensures SectorCount(fs.g, k) + fs.g.csize <= |sects|
    {
      ClusterOrder(fs.g, k + 1, |chain|);
      hide FatFs.Valid, Content, Placed, Roomy, IsChain;
    }

    lemma LandAt(j: nat, r: nat)
      requires ck < |chain| && clust == chain[ck] && r < fs.g.csize && j == SectorCount(fs.g, ck) + r
      ensures AtSector(j, r)
    {
    }

    /** The size follows a cursor that is behind it. */
    method Stretch()
      requires Inv() && fptr <= SS * |sects| && fptr < TWO32
      modifies this`objsize, this`modified, this`data
      ensures Inv() && fptr <= objsize && data == Padded(old(data), fptr)
      ensures modified == (old(modified) || fptr > old(objsize))
    {
      if fptr > objsize {
        StretchShows(data, sects, fs.img, bj, buf[..], dirty, fptr);
        hide FatFs.Valid, Shows, Chained, Placed, Roomy;
        data := Padded(data, fptr);
        objsize := fptr;
        modified := true;
      }
    }

    lemma NoSectors()
      ensures OnlySectors(fs.img, fs.img, sects)
    {
    }

    lemma Landed()
      requires Inv() && fptr <= objsize && ck < |chain| && clust == chain[ck]
      requires SS * SectorCount(fs.g, ck) < fptr <= SS * (SectorCount(fs.g, ck) + fs.g.csize)
      requires fptr % SS != 0 ==> bj == fptr / SS
      ensures Steady()
    {
      hide FileObj.Inv;
    }

    /** f_lseek to a place other than the start of the file. */
    method SeekTo(target: nat) returns (res: FResult)
      requires Steady() && 0 < target < TWO32 && (canWrite || target <= objsize) && err == FR_OK
      modifies this`err, this`modified, this`clust, this`ck, this`sclust, this`chain, this`sects, this`bj, this`dirty
      modifies this`sect, this`fptr, this`objsize, this`data
      modifies fs`disk, fs`wflag, fs`winsect, fs`img, fs`fat, fs`freeClst, fs`lastClst, fs`fsiFlag, fs.win, buf
      ensures Inv() && res == err && Mine()
      ensures res == FR_OK ==> Snug(fs.g, |old(chain)|, |chain|, objsize)
      ensures res == FR_OK ==> Steady() && data == Padded(old(data), fptr)
      ensures res == FR_OK ==> modified == (old(modified) || fptr > |old(data)|)
      ensures res == FR_OK ==> fptr == target || (|old(data)| <= fptr < target && Full(fs) && AtEnd())
      ensures res != FR_OK ==> res == FR_INT_ERR && old(SomeInvalid(fs.fat)) && data == old(data)
      ensures target <= |old(data)| ==> res == FR_OK && fptr == target && KeptTable()
    {
      hide *;
      SeekFacts(target);
      SizeIs();
      InvChain();
      ghost var fat0, ch0, img0, w0, h0, free0 := fs.fat, chain, fs.img, fs.winsect, Honest(fs), fs.freeClst;
      var r, rem;
      ghost var k;
      r, rem, k := SeekStart(target);
      if r >= 2 {
        QuietIs(fat0, ch0, img0, free0);
        r := SeekOn(rem, k, target, fat0, ch0, img0, w0, h0, free0);
        SinceFor(fat0, ch0, img0, w0, h0);
      } else {
        AtZero();
        SnugNow(fs.g, |chain|, objsize);
      }
      WhyRefused(r);
      SinceIsMine();
      InvChain();
      InvalidBefore();
      if r == 1 {
        err := FR_INT_ERR;
      } else if target <= |old(data)| {
        KeptNow();
      }
      res := err;
    }

    /** The walk and the landing. */
    method SeekOn(rem0: nat, ghost k0: nat, ghost target: nat, ghost fat0: seq<nat>, ghost ch0: seq<nat>,
                  ghost img0: seq<Sector>, ghost w0: nat, ghost h0: bool, ghost free0: nat)
      returns (r: nat)
      requires Inv() && Walking(k0, rem0, target) && (canWrite || target <= objsize) && target < TWO32
      requires MineSince(fat0, ch0, img0, w0, h0) && (target <= objsize ==> Quiet(fat0, ch0, img0, free0))
      requires |chain| > |ch0| ==> |chain| == k0 + 1
      modifies this`modified, this`clust, this`ck, this`sclust, this`chain, this`sects, this`bj, this`dirty
      modifies this`sect, this`fptr, this`objsize, this`data
      modifies fs`disk, fs`wflag, fs`winsect, fs`img, fs`fat, fs`freeClst, fs`lastClst, fs`fsiFlag, fs.win, buf
      ensures Inv() && Refused(r) && MineSince(fat0, ch0, img0, w0, h0)
      ensures r == 1 ==> data == old(data)
      ensures r != 1 ==> Steady() && Snug(fs.g, |ch0|, |chain|, objsize) && data == Padded(old(data), fptr)
      ensures r != 1 ==> modified == (old(modified) || fptr > old(objsize))
      ensures r != 1 ==> if r >= 2 then fptr == target else old(objsize) <= fptr < target && AtEnd()
      ensures target <= old(objsize) ==>
        r >= 2 && fs.fat == fat0 && chain == ch0 && fs.freeClst == free0 && OnlySectors(img0, fs.img, sects)
    {
      hide *;
      var rem;
      ghost var k;
      r, rem, k := SeekWalk(rem0, k0, target, fat0, ch0, img0, w0, h0, free0);
      QuietIs(fat0, ch0, img0, free0);
      SinceFor(fat0, ch0, img0, w0, h0);
      if r != 1 {
        ghost var img1 := fs.img;
        SeekLand(r, rem, k, target);
        SinceOnly(fat0, ch0, img0, w0, h0, img1);
        SteadyIs();
        SnugIn(fs.g, |ch0|, |chain|, k, fptr, objsize);
      }
    }

    lemma SizeIs()
      requires Inv()
      ensures objsize == |data|
    {
    }

    lemma AtZero()
      requires Inv() && fptr == objsize == 0 && chain == []
      ensures Steady() && data == Padded(data, fptr) && AtEnd()
    {
    }

    lemma WhyRefused(r: nat)
      requires Refused(r)
      ensures (r == 0 ==> Full(fs)) && (r == 1 ==> SomeInvalid(fs.fat))
    {
    }

    twostate lemma KeptNow()
      requires chain == old(chain) && fs.fat == old(fs.fat) && fs.freeClst == old(fs.freeClst)
      requires sects == Sectors(fs.g, chain) && old(sects) == Sectors(fs.g, chain)
      requires OnlySectors(old(fs.img), fs.img, sects) && (fs.winsect == old(fs.winsect) || InFat(fs.g, fs.winsect))
      ensures KeptTable()
    {
      hide Sectors, OnlySectors, InFat;
    }

    /** The place a seek is for: a file that may not be written clips it. */
    function Goal(size: nat, ofs: nat): nat {
      if ofs > size && !canWrite then size else ofs
    }

    /** f_lseek: the goal is reached, with a stretch of the file if need be, as far as there are clusters. */
    method Seek(ofs: nat) returns (res: FResult)
      requires Valid() && ofs < TWO32
      modifies this`err, this`modified, this`clust, this`ck, this`sclust, this`chain, this`sects, this`bj, this`dirty
      modifies this`sect, this`fptr, this`objsize, this`data
      modifies fs`disk, fs`wflag, fs`winsect, fs`img, fs`fat, fs`freeClst, fs`lastClst, fs`fsiFlag, fs.win, buf
      ensures Valid() && res == err && Mine() && (res == FR_OK ==> Snug(fs.g, |old(chain)|, |chain|, objsize))
      ensures old(err) != FR_OK ==> res == old(err) && fptr == old(fptr) && data == old(data) && KeptTable()
      ensures old(err) == FR_OK && res == FR_OK ==>
        data == Padded(old(data), fptr) && modified == (old(modified) || fptr > old(objsize))
      ensures old(err) == FR_OK && res == FR_OK ==>
        var goal := Goal(old(objsize), ofs); fptr == goal || (old(objsize) <= fptr < goal && Full(fs) && AtEnd())
      ensures old(err) == FR_OK && Goal(old(objsize), ofs) <= old(objsize) ==>
        res == FR_OK && fptr == Goal(old(objsize), ofs) && KeptTable()
      ensures old(err) == FR_OK && res != FR_OK ==> res == FR_INT_ERR && old(SomeInvalid(fs.fat)) && data == old(data)
    {
      NothingHappened();
      SnugNow(fs.g, |chain|, objsize);
      if err != FR_OK {
        return err;
      }
      OpenFacts();
      hide FileObj.Steady, FileObj.Valid, FileObj.Inv, Cursor, Mine, KeptTable, Full, SomeInvalid, Padded, Snug,
        AtEnd;
      var target := if ofs > objsize && !canWrite then objsize else ofs;
      if target > 0 {
        res := SeekTo(target);
      } else {
        fptr := 0;
        Moved();
        res := FR_OK;
      }
      StillOpen();
    }

    lemma OpenFacts()
      requires Valid() && err == FR_OK
      ensures Steady() && Inv() && fptr <= objsize == |data| < TWO32
    {
    }

    lemma StillOpen()
      requires Steady() || (Inv() && err != FR_OK)
      ensures Valid()
    {
    }

    /** The table, the chain and the rest of the volume are as they were; the buffer may have been written back. */
    twostate predicate KeptTable()
      reads this`chain, this`sects, fs`fat, fs`freeClst, fs`img, fs`winsect
    {
      && chain == old(chain) && sects == old(sects) && fs.fat == old(fs.fat) && fs.freeClst == old(fs.freeClst)
      && OnlySectors(old(fs.img), fs.img, sects) && fs.WindowStays()
    }

    twostate lemma KeptIs()
      ensures KeptTable() ==> fs.fat == old(fs.fat) && chain == old(chain)
    {
    }

    /** After a cut the cursor is in the last cluster. */
    lemma CutPlace()
      requires Steady() && |chain| == if fptr == 0 then 0 else ck + 1
      ensures fptr == 0 <==> chain == []
      ensures fptr > 0 ==> SS * SectorCount(fs.g, |chain| - 1) < fptr <= SS * SectorCount(fs.g, |chain|)
    {
      hide FileObj.Inv;
    }

    twostate lemma NothingHappened()
      requires old(Valid()) && unchanged(this) && unchanged(fs)
      ensures Mine() && KeptTable()
    {
    }

    /** Cut the chain behind the current cluster on the volume. */
    method CutBehind() returns (res: FResult)
      requires Steady() && 0 < fptr < objsize
      modifies fs`disk, fs`wflag, fs`winsect, fs`img, fs`fat, fs`freeClst, fs`fsiFlag, fs.win
      ensures fs.Valid() && res == FR_OK && InFat(fs.g, fs.winsect)
      ensures SameOutsideFat(fs.g, old(fs.img), fs.img)
      ensures ck < |chain| && fs.fat == Trimmed(fs.g, old(fs.fat), chain, ck + 1)
      ensures old(FreeKnown(fs)) ==> FreeKnown(fs)
    {
      hide *;
      BehindFacts();
      var ncl := GetFat(fs, clust);
      res := FR_OK;
      if ncl < fs.g.nFatent {
        res := RemoveChain(fs, ncl, clust);
      }
    }

    /** What cutting behind the current cluster comes to. */
    lemma BehindFacts()
      requires Steady() && 0 < fptr < objsize
      ensures fs.Valid() && ck < |chain| && 2 <= clust < fs.g.nFatent == |fs.fat| && fs.fat[clust] != 0
      ensures fs.fat[clust] < fs.g.nFatent ==>
        2 <= fs.fat[clust] &&
        Freed(Ended(fs.g, fs.fat, clust), fs.fat[clust]) == (Trimmed(fs.g, fs.fat, chain, ck + 1), true)
      ensures fs.fat[clust] >= fs.g.nFatent ==> Trimmed(fs.g, fs.fat, chain, ck + 1) == fs.fat
      ensures SameOutsideFat(fs.g, fs.img, fs.img)
    {
      LinkOf(ck);
      CutFacts(fs.g, fs.fat, chain, ck + 1);
      hide Freed, Ended, CutAt;
    }

    /** Remove the whole chain on the volume. */
    method CutAll() returns (res: FResult)
      requires Steady() && 0 < objsize
      modifies fs`disk, fs`wflag, fs`winsect, fs`img, fs`fat, fs`freeClst, fs`fsiFlag, fs.win
      ensures fs.Valid() && res == FR_OK && InFat(fs.g, fs.winsect)
      ensures SameOutsideFat(fs.g, old(fs.img), fs.img)
      ensures chain != [] && fs.fat == Trimmed(fs.g, old(fs.fat), chain, 0)
      ensures old(FreeKnown(fs)) ==> FreeKnown(fs)
    {
      FirstFacts();
      LinkOf(0);
      FreedChain(fs.fat, chain);
      assert CutAt(fs.fat, chain, 0, 0) == CutAt(fs.fat, chain, 0, EndMark(fs.g));
      hide Chained, Placed, Content, Roomy, Shows, Freed, CutAt;
      res := RemoveChain(fs, sclust, 0);
    }

    /** The chain on the volume is cut before cluster number `k`; the file does not know yet. */
    ghost predicate CutPending(k: nat)
      reads this`chain, this`sects, this`data, this`bj, this`sect, this`dirty, this`fptr, buf, fs, fs.win
    {
      && fs.Valid() && Roomy(fs.g, fs.total) && fs.winsect < fs.g.database
      && buf != fs.win && buf.Length == SS
      && k <= |chain| && (if k == 0 then fptr == 0 else IsChain(fs.fat, chain[..k]))
      && sects == Sectors(fs.g, chain) && AllDifferent(sects)
      && (forall j :: 0 <= j < |sects| ==> fs.g.database <= sects[j] < fs.total)
      && Shows(data, sects, fs.img, bj, buf[..], dirty)
      && fptr <= |data| < TWO32 && fptr <= SS * SectorCount(fs.g, k)
      && (if bj >= 0 then sects[bj] == sect else sect !in sects) && sect < TWO32
    }

    twostate lemma BecamePending(k: nat)
      requires old(Steady()) && unchanged(this) && unchanged(buf) && chain != []
      requires k == if fptr == 0 then 0 else ck + 1
      requires k <= |chain|
      requires fs.Valid() && InFat(fs.g, fs.winsect) && SameOutsideFat(fs.g, old(fs.img), fs.img)
      requires fs.fat == Trimmed(fs.g, old(fs.fat), chain, k)
      ensures CutPending(k)
    {
      hide FileObj.Inv, Shows, Roomy, Sectors, Trimmed, SectorCount, IsChain, FatFs.Valid, AllDifferent, Mirrored;
      OldParts();
      CursorIn(k);
      SectorsGood(fs.g, fs.total, old(fs.fat), chain);
      TrimmedChain(fs.g, old(fs.fat), chain, k);
      GrowShows(data, sects, old(fs.img), bj, buf[..], dirty, sects, fs.img, bj);
    }

    twostate lemma CursorIn(k: nat)
      requires old(Steady()) && unchanged(this) && k == if fptr == 0 then 0 else ck + 1
      ensures fptr <= SS * SectorCount(fs.g, k) && Sound(fs.g, fs.total)
    {
      hide FatFs.Valid, Content, Chained, Placed, Roomy;
    }

    /** f_truncate's write-back: the buffered sector may belong to a cluster that is already free. */
    method FlushPending(ghost k: nat)
      requires CutPending(k)
      modifies this`dirty, fs`disk, fs`img
      ensures CutPending(k) && !dirty
      ensures OnlySectors(old(fs.img), fs.img, sects)
    {
      if dirty {
        FlushShows(data, sects, fs.img, bj, buf[..]);
        hide Shows, Roomy;
        fs.WriteData(sect, 1, buf[..]);
        dirty := false;
        assert fs.img == old(fs.img)[sect := buf[..]];
      }
    }

    /** The file takes over what is left of its chain. */
    ghost method TakeCut(k: nat)
      requires CutPending(k) && !dirty && objsize == fptr
      requires if k == 0 then sclust == 0 else k <= |chain| && sclust == chain[0]
      modifies this`chain, this`sects, this`data, this`bj
      ensures Inv()
      ensures chain == old(chain)[..k] && data == old(data)[..fptr]
      ensures bj == if old(bj) < SectorCount(fs.g, k) then old(bj) else -1
    {
      hide *;
      var m := SectorCount(fs.g, k);
      var b := if bj < m then bj else -1;
      CutInv(k, m, b);
      chain, sects, data, bj := chain[..k], sects[..m], data[..fptr], b;
      InvFrom();
    }

    /** Inv, for other contents. */
    ghost predicate InvWith(ch: seq<nat>, ss: seq<nat>, d: seq<Cell>, b: int)
      reads this`sclust, this`sect, this`dirty, this`objsize, this`fptr, buf, fs, fs.win
    {
      && fs.Valid() && Roomy(fs.g, fs.total) && buf != fs.win && buf.Length == SS
      && ChainFrom(fs.fat, sclust, ch) && ss == Sectors(fs.g, ch)
      && (forall j :: 0 <= j < |ss| ==> fs.g.database <= ss[j] < fs.total && ss[j] != fs.winsect)
      && Shows(d, ss, fs.img, b, buf[..], dirty) && objsize == |d| < TWO32 && sect < TWO32
      && (if b >= 0 then ss[b] == sect else sect !in ss)
      && fptr <= objsize
    }

    lemma InvFrom()
      requires InvWith(chain, sects, data, bj)
      ensures Inv()
    {
      hide Shows, Roomy, Sectors, FatFs.Valid, IsChain;
    }

    /** The sector of the cursor is not cut off. */
    lemma NumberStays(k: nat)
      requires CutPending(k) && fptr % SS != 0 ==> bj == fptr / SS
      ensures CutPending(k) && fptr % SS != 0 ==> bj < SectorCount(fs.g, k)
    {
      hide Shows, Roomy, Sectors, FatFs.Valid, IsChain, SectorCount;
    }

    lemma CutInv(k: nat, m: nat, b: int)
      requires CutPending(k) && !dirty && objsize == fptr && m == SectorCount(fs.g, k) && b == if bj < m then bj else -1
      requires if k == 0 then sclust == 0 else sclust == chain[0]
      ensures k <= |chain| && fptr <= |data| && m <= |sects|
      ensures InvWith(chain[..k], sects[..m], data[..fptr], b)
    {
      SectorsPrefix(fs.g, chain, k);
      ShrinkShows(data, sects, fs.img, bj, buf[..], fptr, m);
      assert b < 0 ==> sect !in sects[..m];
      hide Shows, Roomy, Sectors, FatFs.Valid, IsChain, SectorCount;
    }

    /** f_truncate's work on the table. */
    method CutChain(ghost k: nat) returns (res: FResult)
      requires Steady() && fptr < objsize && k == if fptr == 0 then 0 else ck + 1
      modifies fs`disk, fs`wflag, fs`winsect, fs`img, fs`fat, fs`freeClst, fs`fsiFlag, fs.win
      ensures res == FR_OK && CutPending(k) && InFat(fs.g, fs.winsect)
      ensures chain != [] && sclust == chain[0] && fs.fat == Trimmed(fs.g, old(fs.fat), chain, k)
      ensures SameOutsideFat(fs.g, old(fs.img), fs.img)
      ensures old(FreeKnown(fs)) ==> FreeKnown(fs)
    {
      FirstFacts();
      hide FileObj.Inv, Cursor, Trimmed, FreeKnown;
      if fptr == 0 {
        res := CutAll();
      } else {
        res := CutBehind();
      }
      BecamePending(k);
    }

    /** The rest of f_truncate. */
    method FinishCut(ghost k: nat)
      requires CutPending(k) && chain != [] && sclust == chain[0] && (k == 0 <==> fptr == 0) && k <= |chain|
      requires fptr > 0 ==> Within(k - 1, fptr) && ck == k - 1
      requires fptr % SS != 0 ==> bj == fptr / SS
      modifies this`sclust, this`objsize, this`modified, this`dirty, this`chain, this`sects, this`data, this`bj
      modifies fs`disk, fs`img
      ensures Steady() && modified && !dirty
      ensures data == old(data)[..fptr] && chain == old(chain)[..k]
      ensures OnlySectors(old(fs.img), fs.img, old(sects))
    {
      hide CutPending, OnlySectors, FileObj.Inv, Within;
      FlushPending(k);
      if fptr == 0 {
        sclust := 0;
      }
      objsize := fptr;
      modified := true;
      NumberStays(k);
      TakeCut(k);
      StillWithin(k);
    }

    /** The cursor is in what is left. */
    twostate lemma StillWithin(k: nat)
      requires fptr == old(fptr) && clust == old(clust) && ck == old(ck) && k <= |old(chain)| &&
        chain == old(chain)[..k]
      requires (k == 0 <==> fptr == 0) && (fptr > 0 ==> old(Within(k - 1, fptr)) && ck == k - 1)
      ensures fptr > 0 ==> Within(ck, fptr)
    {
    }

    /** What cutting the file does to the rest of the volume: only entries of its old chain and, beyond
        the table, only its old sectors change. */
    twostate predicate CutFrame()
      reads fs`fat, fs`img, fs`winsect
    {
      && |fs.fat| == |old(fs.fat)|
      && (forall c :: 0 <= c < |fs.fat| && c !in old(chain) ==> fs.fat[c] == old(fs.fat)[c])
      && Elsewhere(fs.g, old(fs.img), fs.img, old(sects))
      && fs.WindowStays()
    }

    /** f_truncate before the end of the file. */
    method Cut() returns (res: FResult)
      requires Steady() && fptr < objsize
      modifies this`sclust, this`objsize, this`modified, this`dirty, this`chain, this`sects, this`data, this`bj
      modifies fs`disk, fs`wflag, fs`winsect, fs`img, fs`fat, fs`freeClst, fs`fsiFlag, fs.win
      ensures Steady() && res == FR_OK && modified && !dirty
      ensures data == old(data)[..fptr]
      ensures old(FreeKnown(fs)) ==> FreeKnown(fs)
      ensures CutFrame() && chain <= old(chain) && fs.fat == Trimmed(fs.g, old(fs.fat), old(chain), |chain|)
      ensures |chain| == if fptr == 0 then 0 else ck + 1
    {
      ghost var k := if fptr == 0 then 0 else ck + 1;
      CutReady(k);
      hide FileObj.Inv, FileObj.Steady, FatFs.Valid, Cursor, Within, CutPending, Trimmed, FreeKnown, IsChain, Elsewhere,
        OnlySectors;
      hide SameOutsideFat, CutFrame, Sound, MaxEntries;
      res := CutChain(k);
      ghost var img1 := fs.img;
      FinishCut(k);
      FrameOfCut(old(fs.fat), old(chain), old(sects), old(fs.img), img1, k);
      CutFrameIs();
    }

    twostate lemma CutFrameIs()
      requires |fs.fat| == |old(fs.fat)|
      requires forall c :: 0 <= c < |fs.fat| && c !in old(chain) ==> fs.fat[c] == old(fs.fat)[c]
      requires Elsewhere(fs.g, old(fs.img), fs.img, old(sects)) && fs.WindowStays()
      ensures CutFrame()
    {
    }

    lemma CutReady(k: nat)
      requires Steady() && fptr < objsize && k == if fptr == 0 then 0 else ck + 1
      ensures k <= |chain| && fptr <= |data| && IsChain(fs.fat, chain) &&
        fs.g.nFatent == |fs.fat| <= MaxEntries(fs.g.fsType)
      ensures (fptr > 0 ==> Within(k - 1, fptr) && ck == k - 1) && (fptr % SS != 0 ==> bj == fptr / SS)
    {
      FirstFacts();
      LinkOf(0);
    }

    lemma FrameOfCut(fat0: seq<nat>, ch0: seq<nat>, sects0: seq<nat>, img0: seq<Sector>, img1: seq<Sector>, k: nat)
      requires k <= |ch0| && IsChain(fat0, ch0) && fs.g.nFatent == |fat0| <= MaxEntries(fs.g.fsType)
      requires fs.fat == Trimmed(fs.g, fat0, ch0, k)
      requires SameOutsideFat(fs.g, img0, img1) && OnlySectors(img1, fs.img, sects0)
      ensures |fs.fat| == |fat0| && (forall c :: 0 <= c < |fs.fat| && c !in ch0 ==> fs.fat[c] == fat0[c])
      ensures Elsewhere(fs.g, img0, fs.img, sects0)
    {
      TrimmedChain(fs.g, fat0, ch0, k);
      ElsewhereFrom(fs.g, img0, img1, fs.img, sects0);
    }

    /** f_truncate */
    method Truncate() returns (res: FResult)
      requires Valid()
      modifies this`sclust, this`objsize, this`modified, this`dirty, this`chain, this`sects, this`data, this`bj
      modifies fs`disk, fs`wflag, fs`winsect, fs`img, fs`fat, fs`freeClst, fs`fsiFlag, fs.win
      ensures Valid()
      ensures res == if err != FR_OK then err else if !canWrite then FR_DENIED else FR_OK
      ensures data == if res == FR_OK then old(data)[..fptr] else old(data)
      ensures old(FreeKnown(fs)) ==> FreeKnown(fs)
      ensures CutFrame() && chain <= old(chain) && fs.fat == Trimmed(fs.g, old(fs.fat), old(chain), |chain|)
      ensures res == FR_OK && fptr < old(objsize) ==> |chain| == if fptr == 0 then 0 else ck + 1
      ensures res != FR_OK || fptr >= old(objsize) ==> chain == old(chain)
    {
      if err == FR_OK {
        OpenFacts();
      }
      assert fptr == objsize == |data| ==> data[..fptr] == data;
      hide FileObj.Inv, Cursor, FreeKnown;
      res := FR_OK;
      if err != FR_OK {
        res := err;
      } else if !canWrite {
        res := FR_DENIED;
      } else if fptr < objsize {
        res := Cut();
      }
    }

    /** What every operation on an open file may touch: table entries of its own or of free clusters,
        and, beyond the table, sectors it had before or has now. */
    twostate predicate OnlyOwn()
      reads this`chain, this`sects, fs`fat, fs`img, fs`winsect
    {
      && Local(old(fs.fat), fs.fat, old(chain))
      && (forall c :: c in chain && c < |old(fs.fat)| ==> c in old(chain) || old(fs.fat)[c] == 0)
      && |fs.img| == |old(fs.img)|
      && (forall s :: 0 <= s < |fs.img| && !InFat(fs.g, s) && !InMirror(fs.g, s) && s !in sects && s !in old(sects) ==>
            fs.img[s] == old(fs.img)[s])
      && fs.WindowStays()
    }

    twostate lemma MineIs()
      requires Mine()
      ensures Grew(old(fs.fat), old(chain), fs.fat, chain) && (old(Honest(fs)) ==> Honest(fs))
    {
    }

    twostate lemma MineIsOwn()
      requires Mine()
      ensures OnlyOwn()
    {
      forall c | c in chain && c < |old(fs.fat)| ensures c in old(chain) || old(fs.fat)[c] == 0 {
        var i :| 0 <= i < |chain| && chain[i] == c;
        if i < |old(chain)| {
          assert chain[..|old(chain)|][i] == c;
        }
      }
    }

    /** Reading and seeking write at most the file's own buffered sector back. */
    twostate lemma QuietIsOwn()
      requires chain == old(chain) && sects == old(sects) && fs.fat == old(fs.fat)
      requires OnlySectors(old(fs.img), fs.img, sects) && fs.WindowStays()
      ensures OnlyOwn()
    {
    }

    twostate lemma QuietHonest()
      requires fs.fat == old(fs.fat) && fs.freeClst == old(fs.freeClst)
      ensures Honest(fs) == old(Honest(fs))
    {
    }

    twostate lemma CutIsOwn()
      requires CutFrame() && chain <= old(chain)
      ensures OnlyOwn()
    {
    }

    /** Another open file is not disturbed by an operation that touches only its own. */
    twostate lemma Undisturbed(f: FileObj)
      requires old(Valid()) && unchanged(this) && unchanged(buf) && old(f.Valid())
      requires f.fs == fs && fs.Valid() && f.OnlyOwn()
      requires Disjoint(old(f.chain), chain) && Disjoint(f.sects, sects) && Disjoint(old(f.sects), sects)
      ensures Valid()
    {
      KeptChain(old(fs.fat), fs.fat, old(f.chain), chain);
      GrowShows(data, sects, old(fs.img), bj, buf[..], dirty, sects, fs.img, bj);
    }
  }

  lemma NothingRead(data: seq<Cell>, p: nat)
    requires p <= |data|
    ensures Fits([], Piece(data, p, 0))
  {
  }

  lemma RefreshedNow(bj: int, buf0: seq<Byte>, j: nat, n: nat, d: seq<Byte>, buf: seq<Byte>)
    requires |buf0| == |buf| == SS && |d| == SS * n
    requires if j <= bj < j + n then forall k :: 0 <= k < SS ==> buf[k] == d[SS * (bj - j) + k] else buf == buf0
    ensures buf == Refreshed(bj, buf0, j, n, d)
  {
  }

  /** A chain stretched by a free cluster, or a first cluster taken. */
  lemma StretchedChain(g: Layout, fat: seq<nat>, ch: seq<nat>, r: nat)
    requires (ch == [] || IsChain(fat, ch)) && 2 <= r < |fat| && fat[r] == 0 &&
      |fat| == g.nFatent <= MaxEntries(g.fsType)
    requires ch != [] ==> ch[|ch| - 1] < |fat|
    ensures var fat' := Grown(g, fat, if ch == [] then 0 else ch[|ch| - 1], r);
      IsChain(fat', ch + [r]) && Grew(fat, ch, fat', ch + [r])
  {
    if ch != [] {
      StretchIsChain(fat, ch, r, EndMark(g));
    }
  }

  /** The bytes of one turn of f_write's loop, added to those before. */
  lemma TurnBytes(data0: seq<Cell>, p0: nat, d: seq<Byte>, bw: nat, n: nat)
    requires p0 <= |data0| && bw + n <= |d|
    ensures Overwrite(Overwrite(data0, p0, d[..bw]), p0 + bw, d[bw..][..n]) == Overwrite(data0, p0, d[..bw + n])
  {
    OverwriteStep(data0, p0, d[..bw], d[bw..][..n]);
    assert d[..bw] + d[bw..][..n] == d[..bw + n];
  }

  /** A chain does not notice changes to clusters outside it. */
  lemma KeptChain(fat0: seq<nat>, fat: seq<nat>, other: seq<nat>, ch: seq<nat>)
    requires Local(fat0, fat, other) && Disjoint(other, ch)
    ensures IsChain(fat0, ch) ==> IsChain(fat, ch)
  {
    if IsChain(fat0, ch) {
      forall c | c in ch ensures fat[c] == fat0[c] {
        OnChain(fat0, ch, c);
      }
      ChainFrame(fat0, fat, ch);
    }
  }
}
