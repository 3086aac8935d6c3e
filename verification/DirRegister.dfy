/** Registering a name in a directory on the volume. */
module DirRegister {
  import opened Bytes
  import opened Geometry
  import opened FatEntries
  import opened Volume
  import opened Chains
  import opened ClusterMap
  import opened Allocator
  import opened DirWalk
  import opened LongName
  import opened NameTable
  import opened Directory
  import opened NumberedName
  import opened DirEntries
  import opened FileData
  import OpenFile

  /** Different sector numbers of a directory are different sectors of the volume. */
  lemma PlaceApart(g: Layout, fat: seq<nat>, sclust: nat, i: nat, j: nat)
    requires g.csize > 0 && DirChain(g, fat, sclust) && i != j
    requires Place(g, fat, sclust, i).Spot? && Place(g, fat, sclust, j).Spot?
    ensures Place(g, fat, sclust, i).sect != Place(g, fat, sclust, j).sect
  {
    var c := FirstCluster(g, sclust);
    if c != 0 {
      var ch :| IsChain(fat, ch) && ch[0] == c;
      var k, r := PlaceOnChain(g, fat, sclust, ch, i);
      var m, q := PlaceOnChain(g, fat, sclust, ch, j);
      SectorsOnChain(g, fat, ch, k, r, m, q);
      hide *;
    }
  }

  lemma PlaceOnChain(g: Layout, fat: seq<nat>, sclust: nat, ch: seq<nat>, i: nat) returns (k: nat, r: nat)
    requires g.csize > 0 && FirstCluster(g, sclust) != 0 && IsChain(fat, ch) && ch[0] == FirstCluster(g, sclust)
    requires Place(g, fat, sclust, i).Spot?
    ensures k < |ch| && r < g.csize && i == SectorCount(g, k) + r
    ensures Place(g, fat, sclust, i) == Spot(ch[k], ClusterBase(g, ch[k]) + r)
  {
    k, r := i / g.csize, i % g.csize;
    ChainFollowed(fat, ch, k);
    SectorCountIs(g, k);
  }

  lemma SectorsOnChain(g: Layout, fat: seq<nat>, ch: seq<nat>, k: nat, r: nat, m: nat, q: nat)
    requires IsChain(fat, ch) && k < |ch| && m < |ch| && r < g.csize && q < g.csize && (k != m || r != q)
    ensures ClusterBase(g, ch[k]) + r != ClusterBase(g, ch[m]) + q
  {
    if k < m {
      ChainDistinct(fat, ch, k, m);
      SectorsApart(g, ch[k], ch[m], r, q);
    } else if m < k {
      ChainDistinct(fat, ch, m, k);
      SectorsApart(g, ch[k], ch[m], r, q);
    }
  }

  /** The image with one directory entry replaced. */
  ghost predicate Replaced(g: Layout, fat: seq<nat>, img: seq<Sector>, img': seq<Sector>, sclust: nat, k: nat, e: Entry)
    requires g.csize > 0
  {
    && Place(g, fat, sclust, k / 16).Spot?
    && var s := Place(g, fat, sclust, k / 16).sect;
       s < |img| && img' == img[s := Splice(img[s], SZDIRE * (k % 16), e)]
  }

  /** Replacing an entry of the volume replaces it in the table, and nothing else. */
  lemma TableReplaced(g: Layout, fat: seq<nat>, img: seq<Sector>, img': seq<Sector>, sclust: nat, t: seq<Entry>, k: nat,
                      e: Entry)
    requires g.csize > 0 && DirChain(g, fat, sclust) && IsTable(g, fat, img, sclust, t) && k < |t|
    requires Replaced(g, fat, img, img', sclust, k, e)
    ensures IsTable(g, fat, img', sclust, t[k := e])
  {
    var t' := t[k := e];
    forall i | 0 <= i < |t'| ensures t'[i] == EntryAt(g, fat, img', sclust, i) {
      OneEntry(g, fat, img, img', sclust, i, k, e);
    }
  }

  lemma OneEntry(g: Layout, fat: seq<nat>, img: seq<Sector>, img': seq<Sector>, sclust: nat, i: nat, k: nat, e: Entry)
    requires g.csize > 0 && DirChain(g, fat, sclust) && Replaced(g, fat, img, img', sclust, k, e)
    requires Place(g, fat, sclust, i / 16).Spot?
    ensures EntryAt(g, fat, img', sclust, i) == if i == k then e else EntryAt(g, fat, img, sclust, i)
  {
    var s := Place(g, fat, sclust, k / 16).sect;
    if i / 16 != k / 16 {
      PlaceApart(g, fat, sclust, i / 16, k / 16);
    } else {
      OtherSlice(img[s], i % 16, k % 16, e);
    }
  }

  lemma OtherSlice(d: Sector, a: nat, b: nat, e: Entry)
    requires a < 16 && b < 16
    ensures Splice(d, SZDIRE * b, e)[SZDIRE * a..SZDIRE * a + 32] ==
      if a == b then e else d[SZDIRE * a..SZDIRE * a + 32]
  {
  }

  /** Memory at dp->dir replaced, and `wflag = 1`: the entry changes and no other, and the allocation table stays. */
  method WriteHere(d: DirObj, e: Entry, ghost t: seq<Entry>, ghost k: nat)
    requires Usable(d) && Standing(d, t, k) && DirChain(d.fs.g, d.fs.fat, d.sclust)
    modifies d.fs`disk, d.fs`wflag, d.fs`winsect, d.fs`img, d.fs`fat, d.fs.win
    ensures Usable(d) && d.fs.fat == old(d.fs.fat) && Standing(d, t[k := e], k)
    ensures Spared(d.fs.g, old(SnapOf(d.fs)), SnapOf(d.fs), d.sclust)
  {
    ghost var before := SnapOf(d.fs);
    ValidTable(d.fs);
    DirSector(d.fs.g, d.fs.fat, d.sclust, d.dptr / SS, d.fs.total);
    EntryPlace(d.dptr);
    EntrySector(d.dptr, k);
    PlainStore(d.fs.g, d.fs.img, d.sect, Splice(d.fs.img[d.sect], d.dptr % SS, e));
    hide FatFs.Valid, RootPlaced, Place, Roomy, IsTable, DirChain, Spared, WithSector;
    d.fs.MoveWindow(d.sect);
    d.fs.StoreWin(d.dptr % SS, e);
    ValidTable(d.fs);
    EntryStored(d, t, k, e, before, SnapOf(d.fs));
  }

  /** A store outside the tables changes one sector. */
  lemma PlainStore(g: Layout, img: seq<Sector>, s: nat, x: Sector)
    requires Sound(g, |img|) && s < |img| && !InFat(g, s) && !InMirror(g, s)
    ensures WithSector(g, img, s, x) == img[s := x]
  {
  }

  lemma EntrySector(ofs: nat, k: nat)
    requires ofs == SZDIRE * k
    ensures ofs / SS == k / 16 && ofs % SS == SZDIRE * (k % 16) && ofs % SS + 32 <= SS
  {
  }

  lemma ValidTable(fs: FatFs)
    requires fs.Valid()
    ensures Sound(fs.g, fs.total) && |fs.img| == fs.total && |fs.fat| == fs.g.nFatent && fs.fat == Table(fs.g, fs.img)
  {
  }

  /** What the store makes of the table of entries and the allocation table: nothing but the entry changes. */
  lemma EntryStored(d: DirObj, t: seq<Entry>, k: nat, e: Entry, s: Snap, s': Snap)
    requires var g := d.fs.g;
      Sound(g, |s.img|) && RootPlaced(g) && Roomy(g, |s.img|) && |s.fat| == g.nFatent && s.fat == Table(g, s.img)
    requires DirChain(d.fs.g, s.fat, d.sclust) && IsTable(d.fs.g, s.fat, s.img, d.sclust, t) && k < |t|
    requires var p := Place(d.fs.g, s.fat, d.sclust, k / 16);
      s'.free == s.free && p.Spot? && p.sect < |s.img| && !InFat(d.fs.g, p.sect) && s'.win == p.sect
      && s'.img == s.img[p.sect := Splice(s.img[p.sect], SZDIRE * (k % 16), e)]
    ensures |s'.img| == |s.img| && Table(d.fs.g, s'.img) == s.fat && IsTable(d.fs.g, s.fat, s'.img, d.sclust, t[k := e])
    ensures s'.fat == s.fat ==> Spared(d.fs.g, s, s', d.sclust)
  {
    assert Replaced(d.fs.g, s.fat, s.img, s'.img, d.sclust, k, e);
    hide Place, IsTable, DirChain, Replaced, Spared;
    SameTable(d.fs.g, s.img, s'.img, s'.win);
    TableReplaced(d.fs.g, s.fat, s.img, s'.img, d.sclust, t, k, e);
    if s'.fat == s.fat { SparedWrite(d.fs.g, s, s', d.sclust, k / 16); }
  }

  /** A sector outside the tables does not change the allocation table. */
  lemma SameTable(g: Layout, img: seq<Sector>, img': seq<Sector>, s: nat)
    requires Sound(g, |img|) && s < |img| && !InFat(g, s) && |img'| == |img| && img' == img[s := img'[s]]
    ensures Table(g, img') == Table(g, img)
  {
    forall c | 0 <= c < g.nFatent ensures Geometry.Entry(g, img', c) == Geometry.Entry(g, img, c) {
      EntryFrame(g, img, img', c);
    }
  }

  /** The table with the parts of a name in place, as far as they are written. */
  ghost predicate PartsIn(t0: seq<Entry>, t: seq<Entry>, f: nat, j: nat, name: seq<Wchar>, sum: Byte) {
    && |t| == |t0| && f <= j <= |t|
    && Parts(t[f..j], name, sum)
    && forall i :: 0 <= i < |t| && !(f <= i < j) ==> t[i] == t0[i]
  }

  lemma NoPartsYet(t: seq<Entry>, f: nat, name: seq<Wchar>, sum: Byte)
    requires f <= |t|
    ensures PartsIn(t, t, f, f, name, sum)
  {
  }

  lemma PartsPush(t0: seq<Entry>, t: seq<Entry>, f: nat, j: nat, name: seq<Wchar>, sum: Byte, e: Entry)
    requires PartsIn(t0, t, f, j, name, sum) && j < |t| && j - f < PartCount(name)
    requires IsPart(e, name, PartCount(name) - (j - f), sum)
    ensures PartsIn(t0, t[j := e], f, j + 1, name, sum)
  {
    assert t[j := e][f..j + 1] == t[f..j] + [e];
    hide IsPart;
  }

  /** One LFN entry put in place, and the object moved on. */
  method PutPart(d: DirObj, lfnbuf: seq<Wchar>, n: nat, sum: Byte, ghost t: seq<Entry>, ghost j: nat,
                 ghost name: seq<Wchar>, ghost start: Snap)
    returns (res: FResult, ghost e: Entry)
    requires Usable(d) && Standing(d, t, j) && DirChain(d.fs.g, d.fs.fat, d.sclust) && j + 1 < |t|
    requires IsName(name) && Holds(lfnbuf, name) && 1 <= n <= PartCount(name) &&
      Spared(d.fs.g, start, SnapOf(d.fs), d.sclust)
    modifies d, d.fs`disk, d.fs`wflag, d.fs`winsect, d.fs`img, d.fs`fat, d.fs`freeClst, d.fs`lastClst, d.fs`fsiFlag
    modifies d.fs.win
    ensures Usable(d) && d.fs.fat == old(d.fs.fat) && Standing(d, t[j := e], j + 1) && IsPart(e, name, n, sum)
    ensures Spared(d.fs.g, start, SnapOf(d.fs), d.sclust) && res == FR_OK
  {
    hide *;
    ghost var s0 := SnapOf(d.fs);
    var dir := ReadHere(d, t, j);
    ghost var s1 := SnapOf(d.fs);
    SparedTrans(d.fs.g, start, s0, s1, d.sclust);
    NameParts(name);
    var entry := PutLfn(lfnbuf, dir, n, sum, name);
    WriteHere(d, entry, t, j);
    ghost var s2 := SnapOf(d.fs);
    SparedTrans(d.fs.g, start, s1, s2, d.sclust);
    e := entry;
    res := NextHere(d, t[j := e], j);
    SparedTrans(d.fs.g, start, s2, SnapOf(d.fs), d.sclust);
  }

  /** Store LFN entries in bottom first; the object ends at the entry behind them. */
  method PutParts(d: DirObj, lfnbuf: seq<Wchar>, count: nat, sum: Byte, ghost t0: seq<Entry>, ghost f: nat,
                  ghost name: seq<Wchar>)
    returns (res: FResult, ghost t: seq<Entry>)
    requires Usable(d) && Standing(d, t0, f) && DirChain(d.fs.g, d.fs.fat, d.sclust)
    requires IsName(name) && Holds(lfnbuf, name) && count == PartCount(name) && f + count < |t0|
    modifies d, d.fs`disk, d.fs`wflag, d.fs`winsect, d.fs`img, d.fs`fat, d.fs`freeClst, d.fs`lastClst, d.fs`fsiFlag
    modifies d.fs.win
    ensures Usable(d) && d.fs.fat == old(d.fs.fat) && Spared(d.fs.g, old(SnapOf(d.fs)), SnapOf(d.fs), d.sclust)
    ensures res == FR_OK && Standing(d, t, f + count) && PartsIn(t0, t, f, f + count, name, sum) && |t| == |t0|
  {
    hide *;
    t := t0;
    ghost var j := f;
    NoPartsYet(t0, f, name, sum);
    d.AsBefore();
    QuietSpares(d);
    var n := count;
    res := FR_OK;
    while n > 0
      invariant 0 <= n <= count && j == f + count - n && res == FR_OK
      invariant Usable(d) && d.fs.fat == old(d.fs.fat) && DirChain(d.fs.g, d.fs.fat, d.sclust)
      invariant |t| == |t0| && Standing(d, t, j) && PartsIn(t0, t, f, j, name, sum)
      invariant Spared(d.fs.g, old(SnapOf(d.fs)), SnapOf(d.fs), d.sclust)
    {
      ghost var e;
      res, e := PutPart(d, lfnbuf, n, sum, t, j, name, old(SnapOf(d.fs)));
      PartsPush(t0, t, f, j, name, sum, e);
      t := t[j := e];
      j := j + 1;
      n := n - 1;
    }
  }

  // Free entries.

  /** A directory has a table. */
  lemma HasTable(g: Layout, fat: seq<nat>, img: seq<Sector>, sclust: nat) returns (t: seq<Entry>)
    requires g.csize > 0
    ensures IsTable(g, fat, img, sclust, t)
  {
    var n := TableEnd(g, fat, sclust, 0);
    t := seq(n, e requires 0 <= e < n => EntryAt(g, fat, img, sclust, e));
  }

  lemma {:induction false} TableEnd(g: Layout, fat: seq<nat>, sclust: nat, e: nat) returns (n: nat)
    requires g.csize > 0 && SZDIRE * e <= MAX_DIR && forall i :: 0 <= i < e ==> Place(g, fat, sclust, i / 16).Spot?
    ensures SZDIRE * n <= MAX_DIR && forall i :: 0 <= i < n ==> Place(g, fat, sclust, i / 16).Spot?
    ensures SZDIRE * n < MAX_DIR ==> Place(g, fat, sclust, n / 16) == Nowhere
    decreases MAX_DIR - SZDIRE * e
  {
    if SZDIRE * e == MAX_DIR || Place(g, fat, sclust, e / 16) == Nowhere {
      n := e;
    } else {
      n := TableEnd(g, fat, sclust, e + 1);
    }
  }

  /** A place of the walk is an entry of the table. */
  lemma InTable(g: Layout, fat: seq<nat>, img: seq<Sector>, sclust: nat, t: seq<Entry>, e: nat)
    requires g.csize > 0 && IsTable(g, fat, img, sclust, t) && SZDIRE * e < MAX_DIR &&
      Place(g, fat, sclust, e / 16).Spot?
    ensures e < |t|
  {
    if |t| <= e {
      NoneBehind(g, fat, sclust, |t| / 16, e / 16);
    }
  }

  /** A kept directory has the same table, with blank entries added at most. */
  lemma TableExtends(g: Layout, fat: seq<nat>, img: seq<Sector>, fat': seq<nat>, img': seq<Sector>, sclust: nat,
                     t: seq<Entry>, t': seq<Entry>)
    requires g.csize > 0 && IsTable(g, fat, img, sclust, t) && IsTable(g, fat', img', sclust, t')
    requires (forall j: nat {:trigger SectorKept(g, fat, img, fat', img', sclust, j)} ::
      SectorKept(g, fat, img, fat', img', sclust, j))
    ensures Extended(t, t')
  {
    if t != [] {
      assert SectorKept(g, fat, img, fat', img', sclust, (|t| - 1) / 16);
      InTable(g, fat', img', sclust, t', |t| - 1);
    }
    forall i | 0 <= i < |t'| ensures t'[i] == Old(t, i) {
      assert SectorKept(g, fat, img, fat', img', sclust, i / 16);
      if i >= |t| {
        NoneBehind(g, fat, sclust, |t| / 16, i / 16);
        BlankSlice(i % 16);
      }
    }
  }

  lemma BlankSlice(k: nat)
    requires k < 16
    ensures Zeros()[SZDIRE * k..SZDIRE * k + 32] == Blank()
  {
  }

  /** What dir_alloc found is a block of free entries of the table. */
  lemma BlockFound(d: DirObj, t: seq<Entry>, m: nat)
    requires Usable(d) && d.Allocated(m) && m > 0 && IsTable(d.fs.g, d.fs.fat, d.fs.img, d.sclust, t)
    ensures var f := EntryNumber(d.dptr) + 1 - m;
      f >= 0 && Block(t, f, m) && Standing(d, t, f + m - 1) && SZDIRE * (m - 1) <= d.dptr
  {
    var last := EntryNumber(d.dptr);
    LastEntry(d, t, m);
    hide FatFs.Valid, RootPlaced, Roomy, Place, EntryAt, IsTable, FreeEntry, UsedEntry, Vacant, DirObj.Here,
      EntryNumber, Standing;
    forall i: nat | last + 1 - m <= i <= last ensures Vacant(t[i]) {
      FreeIsVacant(d, t, i);
    }
    if last + 1 - m > 0 { UsedIsNot(d, t, last - m); }
    NoneEarlier(d, t, m);
  }

  /** No earlier row of m free entries was passed over. */
  lemma NoneEarlier(d: DirObj, t: seq<Entry>, m: nat)
    requires Usable(d) && d.Allocated(m) && m > 0 && IsTable(d.fs.g, d.fs.fat, d.fs.img, d.sclust, t)
    ensures forall f2: nat :: f2 < EntryNumber(d.dptr) + 1 - m ==> !VacantRun(t, f2, m)
  {
    hide Usable, IsTable, Place, FreeEntry, FreeBlock, VacantRun, RunAt, EntryNumber;
    forall f2: nat | f2 < EntryNumber(d.dptr) + 1 - m ensures !VacantRun(t, f2, m) {
      if VacantRun(t, f2, m) { RunThere(d, t, f2, m); }
    }
  }

  lemma LastEntry(d: DirObj, t: seq<Entry>, m: nat)
    requires d.Allocated(m) && m > 0 && IsTable(d.fs.g, d.fs.fat, d.fs.img, d.sclust, t)
    ensures m - 1 <= EntryNumber(d.dptr) && Standing(d, t, EntryNumber(d.dptr)) && SZDIRE * (m - 1) <= d.dptr
  {
    EntryPlace(d.dptr);
    InTable(d.fs.g, d.fs.fat, d.fs.img, d.sclust, t, EntryNumber(d.dptr));
  }

  lemma FreeIsVacant(d: DirObj, t: seq<Entry>, i: nat)
    requires Usable(d) && d.fs.g.csize > 0 && IsTable(d.fs.g, d.fs.fat, d.fs.img, d.sclust, t) && i < |t|
    requires FreeEntry(d.fs.g, d.fs.fat, d.fs.img, d.sclust, i)
    ensures Vacant(t[i])
  {
  }

  lemma UsedIsNot(d: DirObj, t: seq<Entry>, i: nat)
    requires Usable(d) && d.fs.g.csize > 0 && IsTable(d.fs.g, d.fs.fat, d.fs.img, d.sclust, t) && i < |t|
    requires UsedEntry(d.fs.g, d.fs.fat, d.fs.img, d.sclust, i)
    ensures !Vacant(t[i])
  {
    DirSector(d.fs.g, d.fs.fat, d.sclust, i / 16, d.fs.total);
  }

  /** The object stands at the last of m free entries of the table, which has blank entries added at most. */
  ghost predicate Allotted(d: DirObj, t: seq<Entry>, t1: seq<Entry>, f: nat, m: nat)
    reads d, d.fs, d.fs.win
  {
    && Usable(d) && m > 0 && Standing(d, t1, f + m - 1) && DirChain(d.fs.g, d.fs.fat, d.sclust)
    && Extended(t, t1) && Block(t1, f, m)
  }

  /** dir_alloc, seen by the table. */
  method Allot(d: DirObj, m: nat, ghost t: seq<Entry>) returns (res: FResult, ghost t1: seq<Entry>, ghost f: nat)
    requires Usable(d) && d.fs.g.csize > 0 && IsTable(d.fs.g, d.fs.fat, d.fs.img, d.sclust, t)
    requires DirChain(d.fs.g, d.fs.fat, d.sclust) && m > 0
    modifies d, d.fs`disk, d.fs`wflag, d.fs`winsect, d.fs`img, d.fs`fat, d.fs`freeClst, d.fs`lastClst, d.fs`fsiFlag
    modifies d.fs.win
    ensures Spared(d.fs.g, old(SnapOf(d.fs)), SnapOf(d.fs), d.sclust)
    ensures res == FR_OK || res == FR_INT_ERR || res == FR_DENIED
    ensures Usable(d) && IsTable(d.fs.g, d.fs.fat, d.fs.img, d.sclust, t1) && Extended(t, t1)
    ensures DirChain(d.fs.g, d.fs.fat, d.sclust)
    ensures res == FR_OK ==> Allotted(d, t, t1, f, m)
    ensures res == FR_DENIED ==> NoGap(t1, m) && CannotGrow(d.fs, d.sclust)
    ensures res == FR_INT_ERR ==> SomeInvalid(d.fs.fat) || t1 == []
  {
    hide *;
    UsableIs(d);
    SnapIs(d.fs);
    ghost var before := SnapOf(d.fs);
    res := d.DirAlloc(m);
    UsableFrom(d);
    SnapIs(d.fs);
    t1 := HasTable(d.fs.g, d.fs.fat, d.fs.img, d.sclust);
    KeptIs(d.fs.g, before, SnapOf(d.fs), d.sclust);
    TableExtends(d.fs.g, before.fat, before.img, d.fs.fat, d.fs.img, d.sclust, t, t1);
    f := 0;
    if res == FR_OK {
      f := Allotment(d, t, t1, m);
    }
    if res == FR_DENIED { NoGapThere(d, t1, m); }
    if res == FR_INT_ERR { FaultIs(d, t1); }
  }

  lemma UsableIs(d: DirObj)
    requires Usable(d)
    ensures d.fs.Valid() && RootPlaced(d.fs.g) && WordSized(d.fs.g, d.sclust) && Roomy(d.fs.g, d.fs.total)
  {
  }

  lemma Allotment(d: DirObj, t: seq<Entry>, t1: seq<Entry>, m: nat) returns (f: nat)
    requires Usable(d) && d.fs.g.csize > 0 && d.Allocated(m) && m > 0 && DirChain(d.fs.g, d.fs.fat, d.sclust)
    requires IsTable(d.fs.g, d.fs.fat, d.fs.img, d.sclust, t1) && Extended(t, t1)
    ensures Allotted(d, t, t1, f, m)
  {
    hide Usable, DirObj.Allocated, DirChain, IsTable, Extended, Block, Standing;
    BlockFound(d, t1, m);
    f := EntryNumber(d.dptr) + 1 - m;
  }

  /** No row of free entries in the directory is none in its table. */
  lemma NoGapThere(d: DirObj, t: seq<Entry>, m: nat)
    requires Usable(d) && d.fs.g.csize > 0 && IsTable(d.fs.g, d.fs.fat, d.fs.img, d.sclust, t)
    requires NoRoom(d.fs.g, d.fs.fat, d.fs.img, d.sclust, m)
    ensures NoGap(t, m)
  {
    hide Usable, Vacant, Place, EntryAt, RunAt, VacantRun, IsTable;
    forall f: nat | VacantRun(t, f, m)
      ensures RunAt(d.fs.g, d.fs.fat, d.fs.img, d.sclust, f, m) && f + m <= MAX_DIR / SZDIRE
    {
      RunThere(d, t, f, m);
    }
  }

  lemma RunThere(d: DirObj, t: seq<Entry>, f: nat, m: nat)
    requires Usable(d) && d.fs.g.csize > 0 && IsTable(d.fs.g, d.fs.fat, d.fs.img, d.sclust, t) && VacantRun(t, f, m)
    ensures RunAt(d.fs.g, d.fs.fat, d.fs.img, d.sclust, f, m) && f + m <= MAX_DIR / SZDIRE
  {
    hide Usable, FreeEntry, UsedEntry, Vacant, Place, EntryAt;
    forall i: nat | f <= i < f + m ensures FreeEntry(d.fs.g, d.fs.fat, d.fs.img, d.sclust, i) {
      VacantIsFree(d, t, i);
    }
  }

  lemma VacantIsFree(d: DirObj, t: seq<Entry>, i: nat)
    requires Usable(d) && d.fs.g.csize > 0 && IsTable(d.fs.g, d.fs.fat, d.fs.img, d.sclust, t) && i < |t|
    requires Vacant(t[i])
    ensures FreeEntry(d.fs.g, d.fs.fat, d.fs.img, d.sclust, i)
  {
    if !FreeEntry(d.fs.g, d.fs.fat, d.fs.img, d.sclust, i) {
      UsedIsNot(d, t, i);
    }
  }

  lemma FaultIs(d: DirObj, t: seq<Entry>)
    requires d.fs.g.csize > 0 && IsTable(d.fs.g, d.fs.fat, d.fs.img, d.sclust, t)
    requires DirChain(d.fs.g, d.fs.fat, d.sclust) && Faulty(d.fs.g, d.fs.fat, d.sclust)
    ensures SomeInvalid(d.fs.fat) || t == []
  {
    assert t != [] ==> Place(d.fs.g, d.fs.fat, d.sclust, 0 / 16).Spot? && 0 / 16 == 0;
    hide Place, DirChain, SomeInvalid, EntryAt;
  }

  lemma KeptIs(g: Layout, s: Snap, s': Snap, sclust: nat)
    requires g.csize > 0 && Kept(g, s, s', sclust)
    ensures forall j: nat {:trigger SectorKept(g, s.fat, s.img, s'.fat, s'.img, sclust, j)} ::
      SectorKept(g, s.fat, s.img, s'.fat, s'.img, sclust, j)
    ensures (DirChain(g, s.fat, sclust) ==> DirChain(g, s'.fat, sclust)) && Spared(g, s, s', sclust)
  {
    hide Place, DirChain, Spared;
  }

  // dir_register.

  /** Back to the first of the entries found. */
  method FirstOf(d: DirObj, n: nat, ghost t: seq<Entry>, ghost t1: seq<Entry>, ghost f: nat) returns (res: FResult)
    requires Allotted(d, t, t1, f, n + 1)
    modifies d, d.fs`disk, d.fs`wflag, d.fs`winsect, d.fs.win
    ensures Usable(d) && DirChain(d.fs.g, d.fs.fat, d.sclust) && Standing(d, t1, f) && res == FR_OK
    ensures Spared(d.fs.g, old(SnapOf(d.fs)), SnapOf(d.fs), d.sclust)
  {
    FirstReady(d, n, t, t1, f);
    hide FatFs.Valid, RootPlaced, Roomy, WordSized, Place, IsTable, DirChain, Allotted, Spared, FatFs.WindowStays;
    res := d.DirSdi(d.dptr - n * SZDIRE);
    QuietSpares(d);
  }

  lemma FirstReady(d: DirObj, n: nat, t: seq<Entry>, t1: seq<Entry>, f: nat)
    requires Allotted(d, t, t1, f, n + 1)
    ensures Usable(d) && d.fs.g.csize > 0 && DirChain(d.fs.g, d.fs.fat, d.sclust) && f < |t1|
    ensures IsTable(d.fs.g, d.fs.fat, d.fs.img, d.sclust, t1) && d.dptr - n * SZDIRE == SZDIRE * f
    ensures SZDIRE * f < MAX_DIR && SZDIRE * f % SZDIRE == 0 && Place(d.fs.g, d.fs.fat, d.sclust, SZDIRE * f / SS).Spot?
  {
    hide Usable, DirChain, Place, Extended, Block, DirObj.Here, IsTable;
    AllottedIs(d, n, t, t1, f);
    PlaceOfEntry(d.fs.g, d.fs.fat, d.fs.img, d.sclust, t1, f);
    assert d.dptr == SZDIRE * f + SZDIRE * n;
  }

  lemma AllottedIs(d: DirObj, n: nat, t: seq<Entry>, t1: seq<Entry>, f: nat)
    requires Allotted(d, t, t1, f, n + 1)
    ensures Usable(d) && d.fs.g.csize > 0 && DirChain(d.fs.g, d.fs.fat, d.sclust) && f + n < |t1|
    ensures IsTable(d.fs.g, d.fs.fat, d.fs.img, d.sclust, t1) && d.dptr == SZDIRE * (f + n) < MAX_DIR
  {
    hide Usable, DirChain, Place, EntryAt, Extended, Block;
  }

  lemma PlaceOfEntry(g: Layout, fat: seq<nat>, img: seq<Sector>, sclust: nat, t: seq<Entry>, e: nat)
    requires g.csize > 0 && IsTable(g, fat, img, sclust, t) && e < |t|
    ensures Place(g, fat, sclust, SZDIRE * e / SS).Spot?
  {
    assert SZDIRE * e / SS == e / 16;
  }

  /** The entries of the new object: the long name, if it gets one, and the short entry. */
  method PlaceName(d: DirObj, fn: seq<Byte>, nt: Byte, long: bool, lfnbuf: seq<Wchar>, ghost t: seq<Entry>,
                   ghost name: seq<Wchar>)
    returns (res: FResult, ghost t': seq<Entry>, ghost f: nat)
    requires Usable(d) && d.fs.g.csize > 0 && IsTable(d.fs.g, d.fs.fat, d.fs.img, d.sclust, t)
    requires DirChain(d.fs.g, d.fs.fat, d.sclust) && |fn| == 11 && IsName(name) && Holds(lfnbuf, name)
    modifies d, d.fs`disk, d.fs`wflag, d.fs`winsect, d.fs`img, d.fs`fat, d.fs`freeClst, d.fs`lastClst, d.fs`fsiFlag
    modifies d.fs.win
    ensures Spared(d.fs.g, old(SnapOf(d.fs)), SnapOf(d.fs), d.sclust)
    ensures res == FR_OK || res == FR_INT_ERR || res == FR_DENIED
    ensures Usable(d) && IsTable(d.fs.g, d.fs.fat, d.fs.img, d.sclust, t') && DirChain(d.fs.g, d.fs.fat, d.sclust)
    ensures res == FR_OK ==> var n := if long then PartCount(name) else 0;
      Entered(t, t', f, n, name, ShortEntry(fn, nt)) && Standing(d, t', f + n)
    ensures res != FR_OK ==> Extended(t, t')
    ensures res == FR_DENIED ==> NoPlace(d, t', if long then PartCount(name) else 0)
    ensures res == FR_INT_ERR ==> SomeInvalid(d.fs.fat) || t' == []
  {
    var len := Length(lfnbuf, name);
    ghost var t1;
    hide *;
    res, t1, f := Allot(d, Entries(len, long), t);
    t' := t1;
    if res == FR_OK {
      ghost var mid := SnapOf(d.fs);
      t' := FillBlock(d, fn, nt, long, len, lfnbuf, t, t1, f, name);
      SparedTrans(d.fs.g, old(SnapOf(d.fs)), mid, SnapOf(d.fs), d.sclust);
    }
    if res == FR_DENIED { NoPlaceIs(d, t', len, long, name); }
  }

  /** A short entry with n parts of a long name before it has no place: no row of free entries is long enough, and the
      directory gets no more. */
  ghost predicate NoPlace(d: DirObj, t: seq<Entry>, n: nat)
    reads d, d.fs, d.fs.win
  {
    NoGap(t, n + 1) && Usable(d) && CannotGrow(d.fs, d.sclust)
  }

  lemma NoPlaceIs(d: DirObj, t: seq<Entry>, len: nat, long: bool, name: seq<Wchar>)
    requires NoGap(t, Entries(len, long)) && Usable(d) && CannotGrow(d.fs, d.sclust) && len == |name|
    ensures NoPlace(d, t, if long then PartCount(name) else 0)
  {
    hide NoGap, Usable, CannotGrow;
  }

  /** Number of entries to allocate. */
  function Entries(len: nat, long: bool): (n: nat)
    ensures n > 0
  {
    if long then (len + 12) / 13 + 1 else 1
  }

  /** The free entries found get the parts of the name and the short entry. */
  method FillBlock(d: DirObj, fn: seq<Byte>, nt: Byte, long: bool, len: nat, lfnbuf: seq<Wchar>,
                   ghost t: seq<Entry>, ghost t1: seq<Entry>, ghost f: nat, ghost name: seq<Wchar>)
    returns (ghost t': seq<Entry>)
    requires |fn| == 11 && IsName(name) && Holds(lfnbuf, name) && len == |name| &&
      Allotted(d, t, t1, f, Entries(len, long))
    modifies d, d.fs`disk, d.fs`wflag, d.fs`winsect, d.fs`img, d.fs`fat, d.fs`freeClst, d.fs`lastClst, d.fs`fsiFlag
    modifies d.fs.win
    ensures Spared(d.fs.g, old(SnapOf(d.fs)), SnapOf(d.fs), d.sclust)
    ensures Usable(d) && DirChain(d.fs.g, d.fs.fat, d.sclust)
    ensures var n := if long then PartCount(name) else 0;
      Entered(t, t', f, n, name, ShortEntry(fn, nt)) && Standing(d, t', f + n)
  {
    hide *;
    var sfn := ShortEntry(fn, nt);
    var sum := SumSfn(sfn);
    FillStart(d, t, t1, f, len, long, name, sum);
    d.AsBefore();
    QuietSpares(d);
    ghost var n, t2 := Entries(len, long) - 1, t1;
    if long {
      t2 := PutName(d, Entries(len, long) - 1, sum, lfnbuf, t, t1, f, name);
    }
    ghost var s2 := SnapOf(d.fs);
    WriteHere(d, sfn, t2, f + n);
    SparedTrans(d.fs.g, old(SnapOf(d.fs)), s2, SnapOf(d.fs), d.sclust);
    t' := t2[f + n := sfn];
    Filled(t, t1, t2, f, n, name, sfn);
  }

  /** The parts of the name, from the first of the free entries on. */
  method PutName(d: DirObj, count: nat, sum: Byte, lfnbuf: seq<Wchar>, ghost t: seq<Entry>, ghost t1: seq<Entry>,
                 ghost f: nat, ghost name: seq<Wchar>)
    returns (ghost t2: seq<Entry>)
    requires IsName(name) && Holds(lfnbuf, name) && count == PartCount(name) && Allotted(d, t, t1, f, count + 1)
    requires f + count < |t1|
    modifies d, d.fs`disk, d.fs`wflag, d.fs`winsect, d.fs`img, d.fs`fat, d.fs`freeClst, d.fs`lastClst, d.fs`fsiFlag
    modifies d.fs.win
    ensures Usable(d) && DirChain(d.fs.g, d.fs.fat, d.sclust)
    ensures Spared(d.fs.g, old(SnapOf(d.fs)), SnapOf(d.fs), d.sclust)
    ensures Standing(d, t2, f + count) && PartsIn(t1, t2, f, f + count, name, sum) && |t2| == |t1|
  {
    hide *;
    var res := FirstOf(d, count, t, t1, f);
    ghost var s1 := SnapOf(d.fs);
    res, t2 := PutParts(d, lfnbuf, count, sum, t1, f, name);
    SparedTrans(d.fs.g, old(SnapOf(d.fs)), s1, SnapOf(d.fs), d.sclust);
  }

  lemma FillStart(d: DirObj, t: seq<Entry>, t1: seq<Entry>, f: nat, len: nat, long: bool, name: seq<Wchar>, sum: Byte)
    requires Allotted(d, t, t1, f, Entries(len, long)) && len == |name|
    ensures Usable(d) && DirChain(d.fs.g, d.fs.fat, d.sclust) && Extended(t, t1)
    ensures var n := Entries(len, long) - 1;
      && Block(t1, f, n + 1) && PartsIn(t1, t1, f, f, name, sum) && f + n < |t1| &&
        n == (if long then PartCount(name) else 0)
      && (!long ==> Standing(d, t1, f)) && Allotted(d, t, t1, f, n + 1)
  {
    hide Standing, Usable, DirChain, Extended;
  }

  lemma Filled(t: seq<Entry>, t1: seq<Entry>, t2: seq<Entry>, f: nat, n: nat, name: seq<Wchar>, short: Entry)
    requires Extended(t, t1) && Block(t1, f, n + 1) && PartsIn(t1, t2, f, f + n, name, Checksum(short[..11])) &&
      f + n < |t2|
    ensures Entered(t, t2[f + n := short], f, n, name, short) && |t2| == |t1|
  {
    var t' := t2[f + n := short];
    assert t'[f..f + n] == t2[f..f + n];
    hide Parts, Checksum, Block, Extended;
    EnteredIs(t, t1, t', f, n, name, short);
  }

  /** The name status flags dir_register looks at. */
  datatype NameFlags = NameFlags(none: bool, loss: bool, lfn: bool, nt: Byte)

  /** Long-name parts of the new object. */
  function NewParts(flags: NameFlags, name: seq<Wchar>): nat {
    if flags.lfn then PartCount(name) else 0
  }

  /** Every numbered name below number `n` is in use. */
  ghost predicate AllTaken(t: seq<Entry>, sn: seq<Byte>, name: seq<Wchar>, n: nat)
    requires |sn| == 11 && IsName(name) && n <= 100
  {
    forall k :: 1 <= k < n ==> !FreeName(t, Numbered(sn, NumberFor(name, k)))
  }

  lemma TakenBelow(t: seq<Entry>, sn: seq<Byte>, name: seq<Wchar>, k: nat)
    requires |sn| == 11 && IsName(name) && k < 100
    ensures k == 0 || (AllTaken(t, sn, name, k) && !FreeName(t, Numbered(sn, NumberFor(name, k)))) ==>
      AllTaken(t, sn, name, k + 1)
  {
  }

  /** The name a lossy one is registered under: with the first number that no object has. */
  method FreeNumber(d: DirObj, sn: seq<Byte>, lfnbuf: seq<Wchar>, up: Wchar -> Wchar, ghost t: seq<Entry>,
                    ghost name: seq<Wchar>)
    returns (res: FResult, fn: seq<Byte>, ghost n: nat)
    requires Usable(d) && d.fs.g.csize > 0 && IsTable(d.fs.g, d.fs.fat, d.fs.img, d.sclust, t)
    requires |sn| == 11 && IsName(name) && Holds(lfnbuf, name)
    modifies d, d.fs`disk, d.fs`wflag, d.fs`winsect, d.fs`img, d.fs`fat, d.fs`freeClst, d.fs`lastClst, d.fs`fsiFlag
    modifies d.fs.win
    ensures Spared(d.fs.g, old(SnapOf(d.fs)), SnapOf(d.fs), d.sclust)
    ensures res == FR_OK || res == FR_INT_ERR || res == FR_DENIED
    ensures Usable(d) && d.fs.fat == old(d.fs.fat) && d.fs.img == old(d.fs.img)
    ensures |fn| == 11 && (res == FR_OK ==> 1 <= n < 100 && fn == Numbered(sn, NumberFor(name, n)))
    ensures res == FR_OK && Tidy(t) ==> FreeName(t, fn)
    ensures res == FR_OK ==> AllTaken(t, sn, name, n)
    ensures res == FR_DENIED ==> AllTaken(t, sn, name, 100)
    ensures res == FR_INT_ERR ==> t == [] || !DirChain(d.fs.g, d.fs.fat, d.sclust)
  {
    fn := sn;
    var k := 1;
    n := 1;
    res := FR_OK;
    QuietSpares(d);
    TakenBelow(t, sn, name, 0);
    hide *;
    while k < 100
      invariant 1 <= k <= 100 && |fn| == 11
      invariant Usable(d) && d.fs.fat == old(d.fs.fat) && d.fs.img == old(d.fs.img)
      invariant Spared(d.fs.g, old(SnapOf(d.fs)), SnapOf(d.fs), d.sclust)
      invariant AllTaken(t, sn, name, k)
    {
      n := k;
      ghost var mid := SnapOf(d.fs);
      res, fn := TryNumber(d, sn, lfnbuf, k, up, t, name);
      SparedTrans(d.fs.g, old(SnapOf(d.fs)), mid, SnapOf(d.fs), d.sclust);
      if res != FR_OK { break; }
      TakenBelow(t, sn, name, k);
      k := k + 1;
    }
    if k == 100 { return FR_DENIED, fn, n; }
    if res == FR_NO_FILE { res := FR_OK; }
  }

  /** One numbered name, and whether it collides with an existing one. */
  method TryNumber(d: DirObj, sn: seq<Byte>, lfnbuf: seq<Wchar>, k: nat, up: Wchar -> Wchar, ghost t: seq<Entry>,
                   ghost name: seq<Wchar>)
    returns (res: FResult, fn: seq<Byte>)
    requires Usable(d) && d.fs.g.csize > 0 && IsTable(d.fs.g, d.fs.fat, d.fs.img, d.sclust, t)
    requires |sn| == 11 && IsName(name) && Holds(lfnbuf, name) && k < 100
    modifies d, d.fs`disk, d.fs`wflag, d.fs`winsect, d.fs`img, d.fs`fat, d.fs`freeClst, d.fs`lastClst, d.fs`fsiFlag
    modifies d.fs.win
    ensures Spared(d.fs.g, old(SnapOf(d.fs)), SnapOf(d.fs), d.sclust)
    ensures NextAnswer(res, false)
    ensures Usable(d) && d.fs.fat == old(d.fs.fat) && d.fs.img == old(d.fs.img)
    ensures |fn| == 11 && fn == Numbered(sn, NumberFor(name, k))
    ensures (res == FR_OK ==> !FreeName(t, fn)) && (Tidy(t) && res != FR_OK ==> FreeName(t, fn))
    ensures res == FR_INT_ERR ==> t == [] || !DirChain(d.fs.g, d.fs.fat, d.sclust)
  {
    fn := GenNumname(sn, lfnbuf, k, name);
    var w := Wanted(lfnbuf, fn, true, false);
    ghost var at;
    var blk;
    assert Proper(w);
    hide *;
    res, blk, at := DirFind(d, w, up, t);
    LookedIs(d);
    ShortSearch(t, w, up, at, res == FR_OK);
  }

  /** Without a long name nothing but the short name is a hit. */
  lemma ShortSearch(t: seq<Entry>, w: Wanted, up: Wchar -> Wchar, at: nat, ok: bool)
    requires Proper(w) && w.noLfn && !w.lossy && FoundAt(t, w, up, at, ok)
    ensures if ok then !FreeName(t, w.fn) else Tidy(t) ==> FreeName(t, w.fn)
  {
    if ok {
      NoLongMatch(t, w, up, at);
    } else if Tidy(t) {
      NotTaken(t, w, up, at);
    }
  }

  lemma {:induction false} NoLongMatch(t: seq<Entry>, w: Wanted, up: Wchar -> Wchar, j: nat)
    requires Proper(w) && w.noLfn && j <= |t|
    ensures MatchAt(t, w, up, j).ord == 0xFF
  {
    if j > 0 { NoLongMatch(t, w, up, j - 1); }
  }

  lemma ExtendedSelf(t: seq<Entry>)
    ensures Extended(t, t)
  {
  }

  /** Why dir_register refuses a name: all its numbered names are taken, or its entries have no place. */
  ghost predicate Refused(d: DirObj, t: seq<Entry>, t': seq<Entry>, sn: seq<Byte>, flags: NameFlags, name: seq<Wchar>)
    requires |sn| == 11 && IsName(name)
    reads d, d.fs, d.fs.win
  {
    (flags.loss && AllTaken(t, sn, name, 100)) || NoPlace(d, t', NewParts(flags, name))
  }

  /** What the refusal of a name and the number of its parts come to. */
  lemma Names(d: DirObj, t: seq<Entry>, t': seq<Entry>, sn: seq<Byte>, flags: NameFlags, name: seq<Wchar>)
    requires |sn| == 11 && IsName(name)
    ensures NewParts(flags, name) == if flags.lfn then PartCount(name) else 0
    ensures (flags.loss && AllTaken(t, sn, name, 100)) || NoPlace(d, t', NewParts(flags, name)) ==>
      Refused(d, t, t', sn, flags, name)
  {
    hide AllTaken, NoPlace;
  }

  /** dir_register */
  method Register(d: DirObj, sn: seq<Byte>, flags: NameFlags, lfnbuf: seq<Wchar>, up: Wchar -> Wchar,
                  ghost t: seq<Entry>, ghost name: seq<Wchar>)
    returns (res: FResult, fn: seq<Byte>, ghost t': seq<Entry>, ghost f: nat)
    requires Usable(d) && d.fs.g.csize > 0 && IsTable(d.fs.g, d.fs.fat, d.fs.img, d.sclust, t)
    requires DirChain(d.fs.g, d.fs.fat, d.sclust) && |sn| == 11 && IsName(name) && Holds(lfnbuf, name)
    modifies d, d.fs`disk, d.fs`wflag, d.fs`winsect, d.fs`img, d.fs`fat, d.fs`freeClst, d.fs`lastClst, d.fs`fsiFlag
    modifies d.fs.win
    ensures Spared(d.fs.g, old(SnapOf(d.fs)), SnapOf(d.fs), d.sclust)
    ensures Usable(d) && IsTable(d.fs.g, d.fs.fat, d.fs.img, d.sclust, t') && DirChain(d.fs.g, d.fs.fat, d.sclust)
    ensures |fn| == 11 && (flags.none <==> res == FR_INVALID_NAME) && res != FR_NO_FILE
    ensures res == FR_OK ==> var n := NewParts(flags, name);
      Entered(t, t', f, n, name, ShortEntry(fn, flags.nt)) && Standing(d, t', f + n)
    ensures res == FR_OK && !flags.loss ==> fn == sn
    ensures res == FR_OK ==> fn[0] == sn[0] || fn[0] == TILDE
    ensures res == FR_OK && flags.loss ==> fn[8..] == sn[8..] && (Tidy(t) ==> FreeName(t, fn))
    ensures res != FR_OK ==> Extended(t, t')
    ensures res == FR_DENIED ==> Refused(d, t, t', sn, flags, name)
    ensures res == FR_INT_ERR ==> SomeInvalid(d.fs.fat) || t == []
    ensures old(OpenFile.Honest(d.fs)) ==> OpenFile.Honest(d.fs)
  {
    fn, t', f := sn, t, 0;
    QuietSpares(d);
    ExtendedSelf(t);
    Names(d, t, t, sn, flags, name);
    hide *;
    if flags.none { return FR_INVALID_NAME, fn, t', f; }
    if flags.loss {
      ghost var n;
      res, fn, n := FreeNumber(d, sn, lfnbuf, up, t, name);
      Names(d, t, t, sn, flags, name);
      if res != FR_OK {
        CountStays(d);
        return;
      }
      NumberedKeeps(sn, NumberFor(name, n));
    }
    ghost var mid := SnapOf(d.fs);
    res, t', f := PlaceName(d, fn, flags.nt, flags.lfn, lfnbuf, t, name);
    Names(d, t, t', sn, flags, name);
    SparedTrans(d.fs.g, old(SnapOf(d.fs)), mid, SnapOf(d.fs), d.sclust);
    CountStays(d);
    if t' == [] && res != FR_OK { NothingBefore(t, t'); }
  }

  /** An honest free count stays honest. */
  twostate lemma CountStays(d: DirObj)
    requires Spared(d.fs.g, old(SnapOf(d.fs)), SnapOf(d.fs), d.sclust)
    ensures old(OpenFile.Honest(d.fs)) ==> OpenFile.Honest(d.fs)
  {
    hide EntriesSpared, SectorsSpared, DirSect;
  }

  lemma NothingBefore(t: seq<Entry>, t': seq<Entry>)
    requires Extended(t, t') && t' == []
    ensures t == []
  {
  }

  // Opening a name, with creation.

  /** What a directory keeps: its table, nothing behind the end mark, short names that differ. */
  ghost predicate InOrder(d: DirObj, t: seq<Entry>)
    reads d, d.fs, d.fs.win
  {
    && Usable(d) && d.fs.g.csize > 0 && IsTable(d.fs.g, d.fs.fat, d.fs.img, d.sclust, t)
    && DirChain(d.fs.g, d.fs.fat, d.sclust) && Tidy(t) && ShortDistinct(t)
  }

  /** A name create_name can have made. */
  ghost predicate Created(sn: seq<Byte>, flags: NameFlags, lfnbuf: seq<Wchar>, name: seq<Wchar>) {
    && |sn| == 11 && sn[0] != 0 && sn[0] != DDEM && sn[0] != 0x2E && !flags.none && (flags.loss ==> flags.lfn)
    && IsName(name) && Holds(lfnbuf, name)
  }

  lemma InOrderIs(d: DirObj, t: seq<Entry>)
    requires InOrder(d, t)
    ensures Usable(d) && d.fs.g.csize > 0 && IsTable(d.fs.g, d.fs.fat, d.fs.img, d.sclust, t)
    ensures DirChain(d.fs.g, d.fs.fat, d.sclust) && Tidy(t) && ShortDistinct(t)
  {
  }

  lemma InOrderFrom(d: DirObj, t: seq<Entry>)
    requires Usable(d) && d.fs.g.csize > 0 && IsTable(d.fs.g, d.fs.fat, d.fs.img, d.sclust, t)
    requires DirChain(d.fs.g, d.fs.fat, d.sclust) && Tidy(t) && ShortDistinct(t)
    ensures InOrder(d, t)
  {
  }

  lemma CreatedIs(sn: seq<Byte>, flags: NameFlags, lfnbuf: seq<Wchar>, name: seq<Wchar>)
    requires Created(sn, flags, lfnbuf, name)
    ensures |sn| == 11 && !flags.none && IsName(name) && Holds(lfnbuf, name)
    ensures Proper(Wanted(lfnbuf, sn, false, flags.loss))
  {
  }

  lemma NewFacts(sn: seq<Byte>, fn: seq<Byte>, flags: NameFlags, lfnbuf: seq<Wchar>, name: seq<Wchar>)
    requires Created(sn, flags, lfnbuf, name) && |fn| == 11 && (fn[0] == sn[0] || fn[0] == TILDE)
    ensures IsName(name) && Holds(lfnbuf, name) && |name| <= MAX_LFN && (flags.loss ==> flags.lfn)
    ensures Live(ShortEntry(fn, flags.nt)) && ShortEntry(fn, flags.nt)[..11] == fn
    ensures ShortMatch(ShortEntry(fn, flags.nt), sn, flags.loss) == (!flags.loss && fn == sn)
    ensures NewParts(flags, name) == if flags.lfn then PartCount(name) else 0
  {
    hide Holds;
  }

  /** A name registered where a search found nothing is what that search finds, and the table is in order still. */
  lemma NewObject(t: seq<Entry>, t': seq<Entry>, f: nat, sn: seq<Byte>, fn: seq<Byte>, flags: NameFlags,
                  lfnbuf: seq<Wchar>, up: Wchar -> Wchar, name: seq<Wchar>, at: nat)
    requires Tidy(t) && ShortDistinct(t) && Created(sn, flags, lfnbuf, name) && KeepsEnd(up) && |fn| == 11
    requires var w := Wanted(lfnbuf, sn, false, flags.loss); Proper(w) && FoundAt(t, w, up, at, false)
    requires Entered(t, t', f, NewParts(flags, name), name, ShortEntry(fn, flags.nt))
    requires if flags.loss then FreeName(t, fn) else fn == sn
    requires fn[0] == sn[0] || fn[0] == TILDE
    ensures Tidy(t') && ShortDistinct(t')
    ensures FoundAt(t', Wanted(lfnbuf, sn, false, flags.loss), up, f + NewParts(flags, name), true)
    ensures forall f2, other {:trigger Registered(t', f2, other)} :: Registered(t, f2, other) ==>
      Registered(t', f2, other)
  {
    var w, short, n := Wanted(lfnbuf, sn, false, flags.loss), ShortEntry(fn, flags.nt), NewParts(flags, name);
    NewFacts(sn, fn, flags, lfnbuf, name);
    hide *;
    OwnName(lfnbuf, name, up);
    if !flags.loss { NotTaken(t, w, up, at); }
    TidyKept(t, t', f, n, name, short);
    DistinctKept(t, t', f, n, name, short);
    if flags.lfn {
      NewNameFound(t, t', f, name, short, w, up, at);
    } else {
      NewShortFound(t, t', f, name, short, w, up, at);
    }
    forall f2: nat, other | Registered(t, f2, other) ensures Registered(t', f2, other) {
      StaysRegistered(t, t', f, n, name, short, f2, other);
    }
  }

  lemma ExtendedRegistered(t: seq<Entry>, t': seq<Entry>)
    requires Extended(t, t')
    ensures forall f2, other {:trigger Registered(t', f2, other)} :: Registered(t, f2, other) ==>
      Registered(t', f2, other)
  {
    forall f2: nat, other | Registered(t, f2, other) ensures Registered(t', f2, other) {
      assert forall i :: f2 <= i <= f2 + PartCount(other) ==> t'[i] == t[i];
      CopyRegistered(t, t', f2, other);
    }
  }

  /** The directory part of f_open with creation: look for the name, register it if there is none. The object stands at
      the place where the same search finds the name now. */
  method FindOrRegister(d: DirObj, sn: seq<Byte>, flags: NameFlags, lfnbuf: seq<Wchar>, up: Wchar -> Wchar,
                        ghost t: seq<Entry>, ghost name: seq<Wchar>)
    returns (res: FResult, ghost t': seq<Entry>, ghost at: nat)
    requires InOrder(d, t) && Created(sn, flags, lfnbuf, name) && KeepsEnd(up)
    modifies d, d.fs`disk, d.fs`wflag, d.fs`winsect, d.fs`img, d.fs`fat, d.fs`freeClst, d.fs`lastClst, d.fs`fsiFlag
    modifies d.fs.win
    ensures Spared(d.fs.g, old(SnapOf(d.fs)), SnapOf(d.fs), d.sclust)
    ensures InOrder(d, t')
    ensures res == FR_OK ==> Standing(d, t', at) && Proper(Wanted(lfnbuf, sn, false, flags.loss))
    ensures res == FR_OK ==> FoundAt(t', Wanted(lfnbuf, sn, false, flags.loss), up, at, true)
    ensures forall f, other {:trigger Registered(t', f, other)} :: Registered(t, f, other) ==> Registered(t', f, other)
    ensures res == FR_OK || res == FR_DENIED || res == FR_INT_ERR
    ensures |sn| == 11 && IsName(name)
    ensures res == FR_DENIED ==> Refused(d, t, t', sn, flags, name)
    ensures res == FR_INT_ERR ==> SomeInvalid(d.fs.fat) || t == []
    ensures old(OpenFile.Honest(d.fs)) ==> OpenFile.Honest(d.fs)
  {
    hide *;
    var w := Wanted(lfnbuf, sn, false, flags.loss);
    CreatedIs(sn, flags, lfnbuf, name);
    InOrderIs(d, t);
    t' := t;
    var blk;
    res, blk, at := DirFind(d, w, up, t);
    SearchAnswer(res);
    LookedIs(d);
    InOrderFrom(d, t);
    if res == FR_NO_FILE {
      ghost var mid := SnapOf(d.fs);
      res, t', at := RegisterNew(d, sn, flags, lfnbuf, up, t, name, at);
      SparedTrans(d.fs.g, old(SnapOf(d.fs)), mid, SnapOf(d.fs), d.sclust);
    }
    CountStays(d);
  }

  lemma SearchAnswer(res: FResult)
    requires NextAnswer(res, false)
    ensures res == FR_OK || res == FR_INT_ERR || res == FR_NO_FILE
  {
  }

  /** The name that was not found is registered. */
  method RegisterNew(d: DirObj, sn: seq<Byte>, flags: NameFlags, lfnbuf: seq<Wchar>, up: Wchar -> Wchar,
                     ghost t: seq<Entry>, ghost name: seq<Wchar>, ghost end: nat)
    returns (res: FResult, ghost t': seq<Entry>, ghost at: nat)
    requires InOrder(d, t) && Created(sn, flags, lfnbuf, name) && KeepsEnd(up)
    requires Proper(Wanted(lfnbuf, sn, false, flags.loss))
    requires FoundAt(t, Wanted(lfnbuf, sn, false, flags.loss), up, end, false)
    modifies d, d.fs`disk, d.fs`wflag, d.fs`winsect, d.fs`img, d.fs`fat, d.fs`freeClst, d.fs`lastClst, d.fs`fsiFlag
    modifies d.fs.win
    ensures Spared(d.fs.g, old(SnapOf(d.fs)), SnapOf(d.fs), d.sclust) && InOrder(d, t')
    ensures res == FR_OK ==> Standing(d, t', at) && FoundAt(t', Wanted(lfnbuf, sn, false, flags.loss), up, at, true)
    ensures forall f, other {:trigger Registered(t', f, other)} :: Registered(t, f, other) ==> Registered(t', f, other)
    ensures (res == FR_OK || res == FR_DENIED || res == FR_INT_ERR) && |sn| == 11 && IsName(name)
    ensures res == FR_DENIED ==> Refused(d, t, t', sn, flags, name)
    ensures res == FR_INT_ERR ==> SomeInvalid(d.fs.fat) || t == []
  {
    hide *;
    CreatedIs(sn, flags, lfnbuf, name);
    InOrderIs(d, t);
    var fn;
    ghost var f;
    res, fn, t', f := Register(d, sn, flags, lfnbuf, up, t, name);
    at := f + NewParts(flags, name);
    if res == FR_OK {
      NewObject(t, t', f, sn, fn, flags, lfnbuf, up, name, end);
    } else {
      ExtendedKeeps(t, t');
      ExtendedRegistered(t, t');
    }
    InOrderFrom(d, t');
  }

  // Reading a new name back.

  /** dir_register, then dir_read from the first new entry on: a long name is in the buffer again, whatever was there in
      between, a short one alone comes without a long one, and the entry is the new one. */
  method RegisterThenRead(d: DirObj, sn: seq<Byte>, flags: NameFlags, lfnbuf: array<Wchar>, up: Wchar -> Wchar,
                          ghost t: seq<Entry>, ghost name: seq<Wchar>)
    returns (res: FResult, blk: nat, dir: Entry, ghost t': seq<Entry>, ghost f: nat)
    requires InOrder(d, t) && Created(sn, flags, lfnbuf[..], name)
    modifies d, d.fs`disk, d.fs`wflag, d.fs`winsect, d.fs`img, d.fs`fat, d.fs`freeClst, d.fs`lastClst, d.fs`fsiFlag
    modifies d.fs.win, lfnbuf
    ensures Spared(d.fs.g, old(SnapOf(d.fs)), SnapOf(d.fs), d.sclust)
    ensures Usable(d)
    ensures res == FR_OK ==> ReadBack(t', f, name, sn, flags, blk, dir, lfnbuf[..])
    ensures res != FR_OK ==> res == FR_DENIED || res == FR_INT_ERR
    ensures |sn| == 11 && IsName(name)
    ensures res == FR_DENIED ==> Refused(d, t, t', sn, flags, name)
    ensures res == FR_INT_ERR ==> SomeInvalid(d.fs.fat) || t == []
    ensures old(OpenFile.Honest(d.fs)) ==> OpenFile.Honest(d.fs)
  {
    InOrderIs(d, t);
    CreatedIs(sn, flags, lfnbuf[..], name);
    var len := Length(lfnbuf[..], name);
    var n := Entries(len, flags.lfn) - 1;
    blk := NO_LFN;
    dir := seq(32, _ => 0);
    hide *;
    var fn;
    res, fn, t', f := Register(d, sn, flags, lfnbuf[..], up, t, name);
    if res == FR_OK {
      NowThere(d, t, t', f, sn, fn, flags, lfnbuf[..], name, n);
      Wipe(lfnbuf);
      ghost var s1, at := SnapOf(d.fs), 0;
      Rewind(d, n, t', f);
      ghost var s2 := SnapOf(d.fs);
      SparedTrans(d.fs.g, old(SnapOf(d.fs)), s1, s2, d.sclust);
      res, blk, at := DirRead(d, false, lfnbuf, NO_LFN, t', f, f, name);
      LookedSince(d, s2);
      ghost var s3 := SnapOf(d.fs);
      SparedTrans(d.fs.g, old(SnapOf(d.fs)), s2, s3, d.sclust);
      NewRead(t', f, name, sn, fn, flags, n, at, res == FR_OK, blk, lfnbuf[..]);
      dir := ReadHere(d, t', at);
      SparedTrans(d.fs.g, old(SnapOf(d.fs)), s3, SnapOf(d.fs), d.sclust);
    }
    CountStays(d);
  }

  /** What dir_read gives of a new object. */
  ghost predicate ReadBack(t': seq<Entry>, f: nat, name: seq<Wchar>, sn: seq<Byte>, flags: NameFlags, blk: nat,
                           dir: Entry, buf: seq<Wchar>) {
    && dir[12] == flags.nt && (!flags.loss ==> dir[..11] == sn)
    && if flags.lfn then Registered(t', f, name) && blk == f != NO_LFN && Holds(buf, name) else blk == NO_LFN
  }

  /** The new entries are the next ones read. */
  lemma NewRead(t': seq<Entry>, f: nat, name: seq<Wchar>, sn: seq<Byte>, fn: seq<Byte>, flags: NameFlags, n: nat,
                at: nat, ok: bool, blk: nat, buf: seq<Wchar>)
    requires |fn| == 11 && f + n < |t'| && t'[f + n] == ShortEntry(fn, flags.nt) && Live(t'[f + n])
    requires if flags.lfn then n == PartCount(name) && Registered(t', f, name) else n == 0
    requires (!flags.loss ==> fn == sn) && ReadAnswer(t', f, name, false, f, at, ok, blk, buf) && f < NO_LFN
    ensures ok && at == f + n && at < |t'| && ReadBack(t', f, name, sn, flags, blk, t'[at], buf)
  {
    if flags.lfn {
      ReadsBack(t', f, name, f, at, ok, blk, buf);
    } else {
      hide Registered, Holds, PartCount, Checksum;
      assert Shown(t'[f], false);
    }
    hide Registered, Holds, PartCount, Live, ReadAnswer;
  }

  /** Back by n entries. */
  method Rewind(d: DirObj, n: nat, ghost t: seq<Entry>, ghost f: nat)
    requires Usable(d) && Standing(d, t, f + n)
    modifies d, d.fs`disk, d.fs`wflag, d.fs`winsect, d.fs.win
    ensures Usable(d) && Standing(d, t, f) && f < NO_LFN
    ensures d.fs.img == old(d.fs.img) && d.fs.fat == old(d.fs.fat)
    ensures Spared(d.fs.g, old(SnapOf(d.fs)), SnapOf(d.fs), d.sclust)
  {
    BeforeRewind(d, n, t, f);
    hide FatFs.Valid, RootPlaced, Roomy, Place, EntryAt, Spared, FatFs.WindowStays, WordSized, IsTable;
    var res := d.DirSdi(d.dptr - n * SZDIRE);
    QuietSpares(d);
  }

  /** The entry to go back to is there. */
  lemma BeforeRewind(d: DirObj, n: nat, t: seq<Entry>, f: nat)
    requires Usable(d) && Standing(d, t, f + n)
    ensures d.fs.g.csize > 0 && SZDIRE * f < MAX_DIR && SZDIRE * f % SZDIRE == 0 && d.dptr - n * SZDIRE == SZDIRE * f
    ensures Place(d.fs.g, d.fs.fat, d.sclust, SZDIRE * f / SS).Spot?
  {
    PlaceOfEntry(d.fs.g, d.fs.fat, d.fs.img, d.sclust, t, f);
    hide FatFs.Valid, RootPlaced, Roomy, Place, EntryAt;
  }

  method Wipe(lfnbuf: array<Wchar>)
    modifies lfnbuf
  {
    forall k | 0 <= k < lfnbuf.Length { lfnbuf[k] := 0; }
  }

  lemma NowThere(d: DirObj, t: seq<Entry>, t': seq<Entry>, f: nat, sn: seq<Byte>, fn: seq<Byte>, flags: NameFlags,
                 lfnbuf: seq<Wchar>, name: seq<Wchar>, n: nat)
    requires Created(sn, flags, lfnbuf, name) && |fn| == 11 && (fn[0] == sn[0] || fn[0] == TILDE)
    requires Entered(t, t', f, NewParts(flags, name), name, ShortEntry(fn, flags.nt))
    requires n + 1 == Entries(|name|, flags.lfn) && Standing(d, t', f + NewParts(flags, name))
    ensures f + n < |t'| && t'[f + n] == ShortEntry(fn, flags.nt) && Live(t'[f + n]) && Standing(d, t', f + n)
    ensures if flags.lfn then Registered(t', f, name) && n == PartCount(name) else n == 0
  {
    NewFacts(sn, fn, flags, lfnbuf, name);
    assert n == NewParts(flags, name);
    assert f + n < |t'| && t'[f + n] == ShortEntry(fn, flags.nt);
    hide *;
    if flags.lfn {
      NowRegistered(t, t', f, name, ShortEntry(fn, flags.nt));
    }
  }

  /** An open file with no cluster in common with the directory stays valid, with its contents, whatever is done
      here. */
  twostate lemma FileStays(d: DirObj, f: OpenFile.FileObj)
    requires old(f.Valid() && RootPlaced(d.fs.g)) && unchanged(f) && unchanged(f.buf) && f.fs == d.fs && d.fs.Valid()
    requires old(forall k: nat :: Follow(d.fs.fat, FirstCluster(d.fs.g, d.sclust), k) !in f.chain)
    requires Spared(d.fs.g, old(SnapOf(d.fs)), SnapOf(d.fs), d.sclust)
    ensures f.Valid()
  {
    hide Spared, Place, FatFs.Valid, RootPlaced, Roomy;
    if f.chain != [] {
      assert f.sects == Sectors(d.fs.g, f.chain) && old(d.fs.winsect) !in f.sects;
      assert Beside(d.fs.g, old(SnapOf(d.fs)), d.sclust, f.chain);
      BesideStays(d.fs.g, old(SnapOf(d.fs)), SnapOf(d.fs), d.sclust, f.chain, d.fs.total);
      assert d.fs.winsect !in f.sects && SameOn(old(d.fs.img), d.fs.img, f.sects);
    }
    hide Sectors, Beside, Follow;
    GrowShows(f.data, f.sects, old(d.fs.img), f.bj, f.buf[..], f.dirty, f.sects, d.fs.img, f.bj);
  }
}
