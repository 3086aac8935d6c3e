/** Walking a directory table: by offset, entry by entry, and in search of a block of free entries. */
module DirWalk {
  import opened Bytes
  import opened Geometry
  import opened FatEntries
  import opened FileData
  import opened Volume
  import opened Chains
  import opened Allocator
  import opened ClusterMap
  import OpenFile

  const MAX_DIR: nat := 0x20_0000    // largest size of a FAT directory
  const SZDIRE: nat := 32            // bytes of a directory entry

  function EntryNumber(ofs: nat): nat {
    ofs / SZDIRE
  }

  /** Cluster numbers are DWORDs. */
  ghost predicate WordSized(g: Layout, sclust: nat) {
    sclust < TWO32 && g.dirbase < TWO32
  }

  /** What dir_next can answer. */
  predicate NextAnswer(res: FResult, stretch: bool) {
    res == FR_OK || res == FR_INT_ERR || res == FR_NO_FILE || (stretch && res == FR_DENIED)
  }

  /** A cluster at some place of a chain, or none. */
  datatype Found = Nowhere | Spot(clust: nat, sect: nat)

  /** The cluster `k` links behind `c`; 0 when the chain ends or is broken before. */
  ghost function Follow(fat: seq<nat>, c: nat, k: nat): (d: nat)
    ensures d == 0 || 2 <= d < |fat|
  {
    if k == 0 then (if 2 <= c < |fat| then c else 0)
    else
      var d := Follow(fat, c, k - 1);
      if d != 0 && 2 <= fat[d] < |fat| then fat[d] else 0
  }

  /** The first cluster of a table: 0 stands for the root. */
  function FirstCluster(g: Layout, sclust: nat): nat {
    if sclust == 0 && g.fsType == FAT32 then g.dirbase else sclust
  }

  /** Where sector `j` of a directory is, by definition. */
  ghost function Place(g: Layout, fat: seq<nat>, sclust: nat, j: nat): Found
    requires g.csize > 0
  {
    var c := FirstCluster(g, sclust);
    if c == 0 then
      if j < g.nRootdir / 16 then Spot(0, g.dirbase + j) else Nowhere
    else
      var d := Follow(fat, c, j / g.csize);
      if d == 0 then Nowhere else Spot(d, ClusterBase(g, d) + j % g.csize)
  }

  /** The directory object. */
  class DirObj {
    const fs: FatFs
    const sclust: nat
    var dptr: nat        // offset of the current entry
    var clust: nat       // its cluster, 0 in the fixed root
    var sect: nat        // its sector, 0 when the walk has ended

    constructor (fs: FatFs, sclust: nat)
      ensures this.fs == fs && this.sclust == sclust && sect == 0
    {
      this.fs, this.sclust := fs, sclust;
      dptr, clust, sect := 0, 0, 0;
    }

    /** The object stands at the entry at its offset. */
    ghost predicate Here()
      reads this, fs`fat
    {
      && fs.g.csize > 0 && dptr % SZDIRE == 0 && dptr < MAX_DIR
      && Place(fs.g, fs.fat, sclust, dptr / SS) == Spot(clust, sect)
    }

    /** dir_sdi */
    method DirSdi(ofs: nat) returns (res: FResult)
      requires fs.Valid() && RootPlaced(fs.g) && WordSized(fs.g, sclust) && Roomy(fs.g, fs.total)
      modifies this, fs`disk, fs`wflag, fs`winsect, fs.win
      ensures fs.Valid()
      ensures res == FR_OK <==> ofs < 0x20_0000 && ofs % 32 == 0 && Place(fs.g, fs.fat, sclust, ofs / SS).Spot?
      ensures res == FR_OK ==> Here() && dptr == ofs
      ensures fs.WindowStays()
      ensures res == FR_OK || res == FR_INT_ERR
    {
      if ofs >= MAX_DIR || ofs % SZDIRE != 0 {
        return FR_INT_ERR;
      }
      dptr := ofs;
      var clst := sclust;
      if clst == 0 && fs.g.fsType == FAT32 {
        clst := fs.g.dirbase;
      }
      if clst == 0 {
        RootIndex(ofs, fs.g.nRootdir);
        if ofs / SZDIRE >= fs.g.nRootdir {
          return FR_INT_ERR;
        }
        clust := 0;
        sect := fs.g.dirbase + ofs / SS;
        return FR_OK;
      }
      res := FollowChain(clst, ofs);
    }

    /** The part of dir_sdi that follows the cluster chain. */
    method FollowChain(clst0: nat, ofs0: nat) returns (res: FResult)
      requires fs.Valid() && clst0 == FirstCluster(fs.g, sclust) != 0 && WordSized(fs.g, sclust) &&
        Roomy(fs.g, fs.total)
      requires dptr == ofs0 < MAX_DIR && ofs0 % SZDIRE == 0
      modifies this`clust, this`sect, fs`disk, fs`wflag, fs`winsect, fs.win
      ensures fs.Valid()
      ensures res == FR_OK <==> Place(fs.g, fs.fat, sclust, ofs0 / SS).Spot?
      ensures res == FR_OK ==> Here()
      ensures res == FR_OK || res == FR_INT_ERR
      ensures fs.WindowStays()
    {
      hide FatFs.Valid, InBytes, Place;
      var clst: nat, ofs: nat := clst0, ofs0;
      var csz := fs.g.csize * SS;
      ghost var k := 0;
      while ofs >= csz
        invariant fs.Valid() && fs.WindowStays()
        invariant ofs0 == ofs + SS * SectorCount(fs.g, k)
        invariant if k == 0 then clst == clst0 else clst == Follow(fs.fat, clst0, k) != 0
        decreases ofs
      {
        clst := GetFat(fs, clst);
        if clst < 2 || clst >= fs.g.nFatent {
          Broken(fs.g, fs.fat, sclust, k + 1, ofs0);
          return FR_INT_ERR;
        }
        ofs := ofs - csz;
        k := k + 1;
      }
      var s := OpenFile.Clst2Sect(fs, clst);
      if s == 0 {
        Broken(fs.g, fs.fat, sclust, k, ofs0);
        return FR_INT_ERR;
      }
      Arrived(fs.g, fs.fat, sclust, k, ofs0, ofs);
      clust := clst;
      sect := s + ofs / SS;
      return FR_OK;
    }

    /** dir_next: one entry on. With `stretch` a table that ends here gets a cleared cluster more, unless it is the
        fixed root, has its largest size, or no cluster is to be had. */
    method DirNext(stretch: bool) returns (res: FResult)
      requires fs.Valid() && RootPlaced(fs.g) && WordSized(fs.g, sclust) && Roomy(fs.g, fs.total)
      requires sect == 0 || Here()
      modifies this, fs`disk, fs`wflag, fs`winsect, fs`img, fs`fat, fs`freeClst, fs`lastClst, fs`fsiFlag, fs.win
      ensures NextAnswer(res, stretch)
      ensures fs.Valid()
      ensures res == FR_OK ==> Here() && old(Here()) && dptr == old(dptr) + SZDIRE
      ensures res != FR_OK || !stretch ==> TableKept()
      ensures TableKept() || Stretched()
      ensures !stretch && old(sect) != 0 && old(dptr) + SZDIRE < MAX_DIR ==>
        (res == FR_OK <==> old(Place(fs.g, fs.fat, sclust, (dptr + SZDIRE) / SS).Spot?))
      ensures old(sect) == 0 ==> res == FR_NO_FILE
      ensures old(sect != 0 && dptr + SZDIRE < MAX_DIR && Place(fs.g, fs.fat, sclust, (dptr + SZDIRE) / SS).Spot?) ==>
        res == FR_OK && TableKept()
      ensures StepReason(res, stretch)
      ensures stretch && res == FR_NO_FILE ==> old(sect) == 0 || old(dptr) + SZDIRE >= MAX_DIR || old(clust) == 0
      ensures old(OpenFile.Honest(fs)) ==> OpenFile.Honest(fs)
    {
      hide FatFs.Valid, RootPlaced, Roomy, WordSized, Place, TableKept, Stretched, Full, SomeInvalid, OpenFile.Honest;
      AsBefore();
      SameCount();
      var ofs := dptr + SZDIRE;
      if ofs >= MAX_DIR {
        sect := 0;
      }
      if sect == 0 {
        return FR_NO_FILE;
      }
      NextEntry(dptr);
      if ofs % SS == 0 {
        res := NextSector(ofs, stretch);
        SameCount();
        if res != FR_OK { return; }
      }
      dptr := ofs;
      return FR_OK;
    }

    /** A step keeps an honest free count honest. */
    twostate lemma SameCount()
      requires TableKept() || Stretched()
      ensures old(OpenFile.Honest(fs)) ==> OpenFile.Honest(fs)
    {
      hide Grown, Fresh, ClusterBase, FatFs.WindowStays;
    }

    /** Why a step was refused or failed: no cluster was found, or an entry met is none. */
    twostate predicate StepReason(res: FResult, stretch: bool)
      reads this, fs
    {
      && (res == FR_DENIED ==> stretch && Full(fs))
      && (res == FR_INT_ERR ==>
            2 <= old(clust) < |fs.fat| && (fs.fat[old(clust)] < 2 || (stretch && SomeInvalid(fs.fat))))
    }

    twostate predicate TableKept()
      reads fs`fat, fs`img, fs`winsect, fs`freeClst
    {
      fs.fat == old(fs.fat) && fs.img == old(fs.img) && fs.freeClst == old(fs.freeClst) && fs.WindowStays()
    }

    /** Entry by entry from the start: the same end as a fresh dir_sdi to that offset. */
    method WalkTo(n: nat) returns (res: FResult)
      requires fs.Valid() && RootPlaced(fs.g) && WordSized(fs.g, sclust) && Roomy(fs.g, fs.total)
      modifies this, fs`disk, fs`wflag, fs`winsect, fs`img, fs`fat, fs`freeClst, fs`lastClst, fs`fsiFlag, fs.win
      ensures fs.Valid() && TableKept()
      ensures res == FR_OK <==> SZDIRE * n < MAX_DIR && Place(fs.g, fs.fat, sclust, SZDIRE * n / SS).Spot?
      ensures res == FR_OK ==> Here() && dptr == SZDIRE * n
    {
      hide FatFs.Valid, RootPlaced, Place;
      res := DirSdi(0);
      if res != FR_OK {
        assert Place(fs.g, fs.fat, sclust, 0 / SS) == Nowhere && 0 / SS == 0;
        NoneBehind(fs.g, fs.fat, sclust, 0, SZDIRE * n / SS);
        return;
      }
      var i := 0;
      while i < n
        invariant 0 <= i <= n && fs.Valid() && TableKept()
        invariant Here() && dptr == SZDIRE * i
      {
        ValidFacts(fs);
        DirSector(fs.g, fs.fat, sclust, dptr / SS, fs.total);
        assert SZDIRE * (i + 1) == SZDIRE * i + SZDIRE;
        res := DirNext(false);
        if res != FR_OK {
          if SZDIRE * (i + 1) < MAX_DIR {
            OffsetOrder(i + 1, n);
            NoneBehind(fs.g, fs.fat, sclust, SZDIRE * (i + 1) / SS, SZDIRE * n / SS);
          }
          return;
        }
        i := i + 1;
      }
      res := FR_OK;
    }

    /** dir_alloc: the first n consecutive entries that are all free, the object at the last of them. It refuses when
        there are none and the directory cannot grow. */
    method DirAlloc(nEnt: nat) returns (res: FResult)
      requires fs.Valid() && RootPlaced(fs.g) && WordSized(fs.g, sclust) && Roomy(fs.g, fs.total) && nEnt > 0
      modifies this, fs`disk, fs`wflag, fs`winsect, fs`img, fs`fat, fs`freeClst, fs`lastClst, fs`fsiFlag, fs.win
      ensures fs.Valid()
      ensures res == FR_OK ==> Allocated(nEnt)
      ensures res == FR_OK || res == FR_INT_ERR || res == FR_DENIED
      ensures fs.g.csize > 0 && Kept(fs.g, old(SnapOf(fs)), SnapOf(fs), sclust)
      ensures res == FR_DENIED ==> NoRoom(fs.g, fs.fat, fs.img, sclust, nEnt) && CannotGrow(fs, sclust)
      ensures res == FR_INT_ERR ==> Faulty(fs.g, fs.fat, sclust)
      ensures old(OpenFile.Honest(fs)) ==> OpenFile.Honest(fs)
    {
      ValidFacts(fs);
      hide FatFs.Valid, RootPlaced, Roomy, Place, Kept, FreeBlock, UsedEntry, FreeEntry, Allocated, FatFs.WindowStays,
        DirChain, SomeInvalid, CannotGrow, OpenFile.Honest, RunAt, NoRoom;
      res := DirSdi(0);
      QuietKept();
      if res == FR_OK {
        var n: nat, done := 0, false;
        NoneFree(fs.g, fs.fat, fs.img, sclust, 0);
        while true
          invariant Allocating(n, nEnt, old(SnapOf(fs))) && n < nEnt
          decreases MAX_DIR - dptr
        {
          res, n, done := AllocTurn(nEnt, n, old(SnapOf(fs)));
          if done || res != FR_OK { break; }
        }
      }
      if res == FR_NO_FILE { res := FR_DENIED; }
      CountKept();
    }

    /** An honest free count stays honest. */
    twostate lemma CountKept()
      requires fs.g.csize > 0 && Kept(fs.g, old(SnapOf(fs)), SnapOf(fs), sclust)
      ensures old(OpenFile.Honest(fs)) ==> OpenFile.Honest(fs)
    {
      SparesCount(fs.g, old(SnapOf(fs)), SnapOf(fs), sclust);
    }

    /** A look at the tables keeps everything. */
    twostate lemma QuietKept()
      requires old(fs.Valid() && RootPlaced(fs.g) && Roomy(fs.g, fs.total)) && TableKept()
      ensures fs.g.csize > 0 && Kept(fs.g, old(SnapOf(fs)), SnapOf(fs), sclust)
    {
      KeptNow(fs.g, old(SnapOf(fs)), SnapOf(fs), sclust, fs.total);
    }

    /** The object stands at the last of n free entries found, the first n in a row. */
    ghost predicate Allocated(n: nat)
      reads this, fs`fat, fs`img
    {
      Here() && SZDIRE * n <= dptr + SZDIRE &&
        FreeBlock(fs.g, fs.fat, fs.img, sclust, EntryNumber(dptr) + 1 - n, EntryNumber(dptr) + 1) &&
        NoRun(fs.g, fs.fat, fs.img, sclust, EntryNumber(dptr), n)
    }

    /** The object stands behind n free entries, and there were no m in a row so far. */
    ghost predicate Allocating(n: nat, m: nat, before: Snap)
      reads this, fs, fs.win
    {
      && fs.Valid() && Here() && SZDIRE * n <= dptr
      && FreeBlock(fs.g, fs.fat, fs.img, sclust, EntryNumber(dptr) - n, EntryNumber(dptr))
      && NoRun(fs.g, fs.fat, fs.img, sclust, EntryNumber(dptr), m)
      && Kept(fs.g, before, SnapOf(fs), sclust)
    }

    /** One turn of dir_alloc's loop. */
    method AllocTurn(nEnt: nat, n0: nat, ghost before: Snap) returns (res: FResult, n: nat, done: bool)
      requires RootPlaced(fs.g) && WordSized(fs.g, sclust) && Roomy(fs.g, fs.total)
      requires Allocating(n0, nEnt, before) && n0 < nEnt
      modifies this, fs`disk, fs`wflag, fs`winsect, fs`img, fs`fat, fs`freeClst, fs`lastClst, fs`fsiFlag, fs.win
      ensures NextAnswer(res, true)
      ensures fs.Valid() && fs.g.csize > 0 && Kept(fs.g, before, SnapOf(fs), sclust)
      ensures done ==> res == FR_OK && Allocated(nEnt)
      ensures !done && res == FR_OK ==>
        Allocating(n, nEnt, before) && n < nEnt && dptr == old(dptr) + SZDIRE && dptr < MAX_DIR
      ensures Stopped(res, nEnt)
    {
      hide FatFs.Valid, RootPlaced, Place, Roomy, WordSized, Kept, FreeBlock, UsedEntry, FreeEntry, NoRun, Faulty,
        CannotGrow;
      res, n, done := FR_OK, n0, false;
      var free := EntryFree();
      KeptTrans(fs.g, before, old(SnapOf(fs)), SnapOf(fs), sclust);
      if free {
        OneMore(fs.g, fs.fat, fs.img, sclust, EntryNumber(dptr) - n, EntryNumber(dptr));
        n := n + 1;
        if n == nEnt { return FR_OK, n, true; }
      } else {
        n := 0;
        NoneFree(fs.g, fs.fat, fs.img, sclust, EntryNumber(dptr) + 1);
      }
      NoRunNext(fs.g, fs.fat, fs.img, sclust, EntryNumber(dptr), n, nEnt);
      ghost var mid := SnapOf(fs);
      res := NextAlloc(n, nEnt);
      KeptTrans(fs.g, before, mid, SnapOf(fs), sclust);
    }

    /** What it means that the search for m free entries has stopped. */
    ghost predicate Stopped(res: FResult, m: nat)
      requires fs.g.csize > 0
      reads fs
    {
      && (res == FR_DENIED || res == FR_NO_FILE ==>
            NoRoom(fs.g, fs.fat, fs.img, sclust, m) && CannotGrow(fs, sclust))
      && (res == FR_INT_ERR ==> Faulty(fs.g, fs.fat, sclust))
    }

    /** The free test of dir_alloc. */
    method EntryFree() returns (free: bool)
      requires fs.Valid() && RootPlaced(fs.g) && Roomy(fs.g, fs.total) && Here()
      modifies fs`disk, fs`wflag, fs`winsect, fs.win
      ensures fs.Valid()
      ensures free <==> FreeEntry(fs.g, fs.fat, fs.img, sclust, EntryNumber(dptr))
      ensures !free ==> UsedEntry(fs.g, fs.fat, fs.img, sclust, EntryNumber(dptr))
      ensures Kept(fs.g, old(SnapOf(fs)), SnapOf(fs), sclust) && fs.fat == old(fs.fat) && fs.img == old(fs.img)
    {
      ValidFacts(fs);
      KeptLook(fs.g, SnapOf(fs), sclust, dptr / SS, fs.total);
      hide Kept;
      DirSector(fs.g, fs.fat, sclust, dptr / SS, fs.total);
      EntryPlace(dptr);
      fs.MoveWindow(sect);
      var b := fs.win[dptr % SS];
      free := b == 0xE5 || b == 0;
    }

    /** dir_next with stretch; the free entries found so far stay free. */
    method NextAlloc(n: nat, ghost m: nat) returns (res: FResult)
      requires fs.Valid() && RootPlaced(fs.g) && WordSized(fs.g, sclust) && Roomy(fs.g, fs.total) && Here()
      requires n <= EntryNumber(dptr) + 1 &&
        FreeBlock(fs.g, fs.fat, fs.img, sclust, EntryNumber(dptr) + 1 - n, EntryNumber(dptr) + 1)
      requires m > 0 && NoRun(fs.g, fs.fat, fs.img, sclust, EntryNumber(dptr) + 1, m)
      modifies this, fs`disk, fs`wflag, fs`winsect, fs`img, fs`fat, fs`freeClst, fs`lastClst, fs`fsiFlag, fs.win
      ensures NextAnswer(res, true)
      ensures fs.Valid()
      ensures res == FR_OK ==> Here() && dptr == old(dptr) + SZDIRE
      ensures res == FR_OK ==> FreeBlock(fs.g, fs.fat, fs.img, sclust, EntryNumber(dptr) - n, EntryNumber(dptr))
      ensures res == FR_OK ==> NoRun(fs.g, fs.fat, fs.img, sclust, EntryNumber(dptr), m)
      ensures Kept(fs.g, old(SnapOf(fs)), SnapOf(fs), sclust) && Stopped(res, m)
    {
      hide *;
      HereAt();
      SnapIs(fs);
      ghost var s0, ofs := SnapOf(fs), dptr;
      res := NextKept();
      SnapIs(fs);
      StillNoRun(fs.g, s0, SnapOf(fs), sclust, ofs, m);
      if res == FR_OK { StillBlock(n); }
      NowStopped(res, EntryNumber(ofs), m);
    }

    /** Where the directory has ended there is no room. */
    lemma NowStopped(res: FResult, e: nat, m: nat)
      requires fs.g.csize > 0 && m > 0 && NoRun(fs.g, fs.fat, fs.img, sclust, e + 1, m)
      requires res != FR_OK ==> NoEntry(fs.g, fs.fat, sclust, e + 1)
      requires res == FR_DENIED || res == FR_NO_FILE ==> CannotGrow(fs, sclust)
      requires res == FR_INT_ERR ==> Faulty(fs.g, fs.fat, sclust)
      ensures Stopped(res, m)
    {
      hide NoRun, NoEntry, CannotGrow, Faulty, NoRoom;
      if res != FR_OK { NoRunEnd(fs.g, fs.fat, fs.img, sclust, e + 1, m); }
    }

    twostate lemma StillBlock(n: nat)
      requires fs.g.csize > 0 && Kept(fs.g, old(SnapOf(fs)), SnapOf(fs), sclust)
      requires old(FreeBlock(fs.g, fs.fat, fs.img, sclust, EntryNumber(dptr) + 1 - n, EntryNumber(dptr) + 1))
      requires dptr == old(dptr) + SZDIRE
      ensures FreeBlock(fs.g, fs.fat, fs.img, sclust, EntryNumber(dptr) - n, EntryNumber(dptr))
    {
      hide Kept, FreeBlock;
      StillFree(fs.g, old(SnapOf(fs)), SnapOf(fs), sclust, old(EntryNumber(dptr)) + 1 - n, old(EntryNumber(dptr)) + 1);
    }

    /** dir_next with stretch keeps what the directory has. */
    method NextKept() returns (res: FResult)
      requires fs.Valid() && RootPlaced(fs.g) && WordSized(fs.g, sclust) && Roomy(fs.g, fs.total) && Here()
      modifies this, fs`disk, fs`wflag, fs`winsect, fs`img, fs`fat, fs`freeClst, fs`lastClst, fs`fsiFlag, fs.win
      ensures NextAnswer(res, true)
      ensures fs.Valid() && fs.g.csize > 0
      ensures res == FR_OK ==> Here() && dptr == old(dptr) + SZDIRE
      ensures Kept(fs.g, old(SnapOf(fs)), SnapOf(fs), sclust)
      ensures res != FR_OK ==> NoEntry(fs.g, fs.fat, sclust, old(EntryNumber(dptr)) + 1)
      ensures res == FR_DENIED || res == FR_NO_FILE ==> CannotGrow(fs, sclust)
      ensures res == FR_INT_ERR ==> Faulty(fs.g, fs.fat, sclust)
    {
      hide *;
      HereSector();
      res := DirNext(true);
      StaysKept();
      if res != FR_OK { WhyStopped(res); }
    }

    lemma HereAt()
      requires Here()
      ensures Place(fs.g, fs.fat, sclust, dptr / SS).Spot? && dptr % SZDIRE == 0
    {
    }

    lemma HereSector()
      requires fs.Valid() && RootPlaced(fs.g) && Roomy(fs.g, fs.total) && Here()
      ensures sect != 0 && fs.g.csize > 0
    {
      ValidFacts(fs);
      DirSector(fs.g, fs.fat, sclust, dptr / SS, fs.total);
    }

    /** Why dir_next with stretch went no further. */
    twostate lemma WhyStopped(res: FResult)
      requires old(Here()) && TableKept() && StepReason(res, true)
      requires old(dptr) + SZDIRE < MAX_DIR ==> !old(Place(fs.g, fs.fat, sclust, (dptr + SZDIRE) / SS).Spot?)
      requires res == FR_NO_FILE ==> old(dptr) + SZDIRE >= MAX_DIR || old(clust) == 0
      ensures fs.g.csize > 0 && NoEntry(fs.g, fs.fat, sclust, old(EntryNumber(dptr)) + 1)
      ensures res == FR_DENIED || res == FR_NO_FILE ==> CannotGrow(fs, sclust)
      ensures res == FR_INT_ERR ==> Faulty(fs.g, fs.fat, sclust)
    {
      var ofs, e := old(dptr), old(EntryNumber(dptr));
      assert ofs == SZDIRE * e && (ofs + SZDIRE) / SS == (e + 1) / 16;
      if ofs + SZDIRE >= MAX_DIR { AtTheTop(ofs); }
      if res == FR_INT_ERR && !SomeInvalid(fs.fat) { ChainBroken(fs.g, fs.fat, sclust, ofs / SS); }
      hide SomeInvalid, DirChain, AllUsed;
    }


    twostate lemma StaysKept()
      requires old(fs.Valid() && RootPlaced(fs.g) && Roomy(fs.g, fs.total) && Here()) && (TableKept() || Stretched())
      ensures fs.g.csize > 0 && Kept(fs.g, old(SnapOf(fs)), SnapOf(fs), sclust)
    {
      hide Place, RootPlaced, Roomy, Grown, Fresh, CountKnown, Kept, ClusterBase, OpenFile.PlaceOf;
      if TableKept() {
        QuietKept();
      } else {
        KeptGrown(fs.g, old(SnapOf(fs)), SnapOf(fs), sclust, old(dptr) / SS, old(clust), old(sect), clust, fs.total);
      }
    }

    /** The sector change of dir_next. */
    method NextSector(ofs: nat, stretch: bool) returns (res: FResult)
      requires fs.Valid() && RootPlaced(fs.g) && WordSized(fs.g, sclust) && Roomy(fs.g, fs.total) && Here()
      requires ofs == dptr + SZDIRE && ofs % SS == 0 && ofs / SS == dptr / SS + 1
      modifies this`clust, this`sect, fs`disk, fs`wflag, fs`winsect, fs`img, fs`fat, fs`freeClst, fs`lastClst
      modifies fs`fsiFlag, fs.win
      ensures NextAnswer(res, stretch)
      ensures fs.Valid()
      ensures res == FR_OK ==> Place(fs.g, fs.fat, sclust, ofs / SS) == Spot(clust, sect)
      ensures res != FR_OK || !stretch ==> TableKept()
      ensures TableKept() || Stretched()
      ensures !stretch ==> (res == FR_OK <==> old(Place(fs.g, fs.fat, sclust, ofs / SS).Spot?))
      ensures old(Place(fs.g, fs.fat, sclust, ofs / SS).Spot?) ==> res == FR_OK && TableKept()
      ensures StepReason(res, stretch) && (stretch && res == FR_NO_FILE ==> old(clust) == 0)
    {
      assert fs.g.nRootdir % 16 == 0;
      hide FatFs.Valid, RootPlaced, Roomy, WordSized, TableKept, Stretched, FatFs.WindowStays, Place, Full, SomeInvalid;
      AsBefore();
      ValidFacts(fs);
      if clust != 0 && OpenFile.PlaceOf(fs.g, ofs / SS) == 0 {
        res := ChangeCluster(stretch, dptr / SS);
      } else {
        res := SameCluster(ofs);
      }
    }

    /** The next sector of the same cluster, or of the fixed root. */
    method SameCluster(ofs: nat) returns (res: FResult)
      requires Here() && fs.g.nRootdir % 16 == 0 && !(clust != 0 && OpenFile.PlaceOf(fs.g, ofs / SS) == 0)
      requires ofs == dptr + SZDIRE && ofs % SS == 0 && ofs / SS == dptr / SS + 1
      modifies this`sect
      ensures res == FR_OK || (res == FR_NO_FILE && clust == 0)
      ensures res == FR_OK ==> Place(fs.g, fs.fat, sclust, ofs / SS) == Spot(clust, sect)
      ensures res == FR_OK <==> Place(fs.g, fs.fat, sclust, ofs / SS).Spot?
    {
      StepOn(fs.g, fs.fat, sclust, dptr / SS, clust, sect);
      RootIndex(ofs, fs.g.nRootdir);
      hide Place;
      sect := sect + 1;
      if clust == 0 && ofs / SZDIRE >= fs.g.nRootdir {
        sect := 0;
        return FR_NO_FILE;
      }
      return FR_OK;
    }

    /** Nothing has changed yet. */
    twostate lemma AsBefore()
      requires fs.fat == old(fs.fat) && fs.img == old(fs.img) && fs.winsect == old(fs.winsect)
      requires fs.freeClst == old(fs.freeClst)
      ensures TableKept()
    {
    }

    /** The sector change of dir_next when the next sector starts a cluster. */
    method ChangeCluster(stretch: bool, ghost j: nat) returns (res: FResult)
      requires fs.Valid() && Roomy(fs.g, fs.total) && clust != 0 && Place(fs.g, fs.fat, sclust, j) == Spot(clust, sect)
      requires j == dptr / SS && OpenFile.PlaceOf(fs.g, dptr / SS + 1) == 0
      modifies this`clust, this`sect, fs`disk, fs`wflag, fs`winsect, fs`img, fs`fat, fs`freeClst, fs`lastClst
      modifies fs`fsiFlag, fs.win
      ensures NextAnswer(res, stretch)
      ensures fs.Valid()
      ensures res == FR_OK ==> Place(fs.g, fs.fat, sclust, j + 1) == Spot(clust, sect)
      ensures res != FR_OK || !stretch ==> TableKept()
      ensures TableKept() || Stretched()
      ensures !stretch ==> (res == FR_OK <==> old(Place(fs.g, fs.fat, sclust, j + 1).Spot?))
      ensures old(Place(fs.g, fs.fat, sclust, j + 1).Spot?) ==> res == FR_OK && TableKept()
      ensures StepReason(res, stretch) && (res == FR_NO_FILE ==> !stretch)
    {
      hide *;
      BeforeChange(j);
      ghost var c, s, fat := clust, sect, fs.fat;
      res := NextCluster(stretch);
      KeptOr(fat[c] >= |fat| && res == FR_OK);
      if res == FR_OK {
        Changed(fs.g, fat, fs.fat, sclust, j, c, s, clust, sect);
      }
    }

    lemma BeforeChange(j: nat)
      requires fs.Valid() && clust != 0 && Place(fs.g, fs.fat, sclust, j) == Spot(clust, sect)
      requires OpenFile.PlaceOf(fs.g, j + 1) == 0
      ensures |fs.fat| == fs.g.nFatent && 2 <= clust < |fs.fat| && fs.g.csize > 0
      ensures Place(fs.g, fs.fat, sclust, j + 1).Spot? <==> 2 <= fs.fat[clust] < |fs.fat|
    {
      ValidFacts(fs);
      StepOn(fs.g, fs.fat, sclust, j, clust, sect);
    }

    twostate lemma KeptOr(grown: bool)
      requires if grown then Stretched() else TableKept()
      ensures if grown then Stretched() else TableKept()
    {
    }

    /** The table grew by the cluster the object now stands in, and that is all zeros. */
    twostate predicate Stretched()
      reads this`clust, fs
    {
      && fs.g.csize > 0 && OpenFile.PlaceOf(fs.g, old(dptr) / SS + 1) == 0
      && 2 <= old(clust) < |old(fs.fat)| && old(fs.fat)[old(clust)] >= |old(fs.fat)|
      && 2 <= clust < |old(fs.fat)| && old(fs.fat)[clust] == 0
      && fs.fat == Grown(fs.g, old(fs.fat), old(clust), clust)
      && Fresh(fs.g, old(fs.img), fs.img, clust) && fs.winsect == ClusterBase(fs.g, clust)
      && (old(CountKnown(SnapOf(fs))) ==> CountKnown(SnapOf(fs)))
    }

    /** The cluster change of dir_next, with the count to the next sector before it. */
    method NextCluster(stretch: bool) returns (res: FResult)
      requires fs.Valid() && Roomy(fs.g, fs.total) && 2 <= clust < fs.g.nFatent
      requires fs.g.csize > 0 && OpenFile.PlaceOf(fs.g, dptr / SS + 1) == 0
      modifies this`clust, this`sect, fs`disk, fs`wflag, fs`winsect, fs`img, fs`fat, fs`freeClst, fs`lastClst
      modifies fs`fsiFlag, fs.win
      ensures NextAnswer(res, stretch)
      ensures fs.Valid()
      ensures 2 <= old(fs.fat)[old(clust)] < fs.g.nFatent ==>
        res == FR_OK && clust == old(fs.fat)[old(clust)] && fs.fat == old(fs.fat) && TableKept()
      ensures old(fs.fat)[old(clust)] < 2 ==> res != FR_OK
      ensures res == FR_OK ==> 2 <= clust < fs.g.nFatent && sect == ClusterBase(fs.g, clust)
      ensures res == FR_OK && old(fs.fat)[old(clust)] >= fs.g.nFatent ==> stretch && Stretched()
      ensures res == FR_OK && old(fs.fat)[old(clust)] >= fs.g.nFatent ==>
        old(fs.fat)[clust] == 0 && fs.fat == Grown(fs.g, old(fs.fat), old(clust), clust)
      ensures res != FR_OK ==> TableKept()
      ensures !stretch && res == FR_NO_FILE ==> sect == 0
      ensures StepReason(res, stretch) && (res == FR_NO_FILE ==> !stretch)
    {
      hide FatFs.Valid, InBytes;
      sect := sect + 1;
      var clst := GetFat(fs, clust);
      if clst <= 1 { return FR_INT_ERR; }
      if clst >= fs.g.nFatent {
        if !stretch {
          sect := 0;
          return FR_NO_FILE;
        }
        clst := CreateChain(fs, clust);
        if clst == 0 { return FR_DENIED; }
        if clst == 1 { return FR_INT_ERR; }
        ghost var img := fs.img;
        DirClear(fs, clst);
        FreshAfter(fs.g, old(fs.img), img, fs.img, clst);
      }
      clust := clst;
      sect := OpenFile.Clst2Sect(fs, clst);
      return FR_OK;
    }
  }

  /** A sector of zeros. */
  function Zeros(): Sector {
    seq(SS, _ => 0)
  }

  /** The image with one cluster cleared and nothing else changed. */
  ghost predicate Cleared(g: Layout, img: seq<Sector>, img': seq<Sector>, c: nat) {
    && |img'| == |img|
    && forall s :: 0 <= s < |img| ==>
         img'[s] == if ClusterBase(g, c) <= s < ClusterBase(g, c) + g.csize then Zeros() else img[s]
  }

  /** The same, with the tables free to change. */
  ghost predicate Fresh(g: Layout, img: seq<Sector>, img': seq<Sector>, c: nat) {
    && |img'| == |img|
    && forall s :: 0 <= s < |img| && !InFat(g, s) && !InMirror(g, s) ==>
         img'[s] == if ClusterBase(g, c) <= s < ClusterBase(g, c) + g.csize then Zeros() else img[s]
  }

  lemma FreshAfter(g: Layout, img: seq<Sector>, mid: seq<Sector>, img': seq<Sector>, c: nat)
    requires SameOutsideFat(g, img, mid) && Cleared(g, mid, img', c)
    ensures Fresh(g, img, img', c)
  {
  }

  /** dir_clear: the cluster is filled with zeros, by way of the window. */
  method DirClear(fs: FatFs, clst: nat)
    requires fs.Valid() && Roomy(fs.g, fs.total) && 2 <= clst < fs.g.nFatent
    modifies fs`disk, fs`wflag, fs`winsect, fs`img, fs.win
    ensures fs.Valid() && Cleared(fs.g, old(fs.img), fs.img, clst) && fs.winsect == ClusterBase(fs.g, clst)
  {
    fs.SyncWindow();
    var sect := OpenFile.Clst2Sect(fs, clst);
    ClusterInDrive(fs.g, fs.total, clst);
    fs.winsect := sect;
    forall k | 0 <= k < SS { fs.win[k] := 0; }
    assert fs.win[..] == Zeros();
    var n := 0;
    ghost var img := fs.img;
    while n < fs.g.csize
      modifies fs`disk
      invariant 0 <= n <= fs.g.csize && |fs.disk| == |img| && fs.win[..] == Zeros()
      invariant forall s :: 0 <= s < |img| ==> fs.disk[s] == if sect <= s < sect + n then Zeros() else img[s]
    {
      fs.disk := fs.disk[sect + n := fs.win[..]];
      n := n + 1;
    }
    DataFrame(fs.g, img, fs.disk, fs.mounted);
    fs.img := fs.disk;
  }

  /** A chain that ends before cluster number `k` has no sector there. */
  lemma Broken(g: Layout, fat: seq<nat>, sclust: nat, k: nat, ofs: nat)
    requires g.csize > 0 && FirstCluster(g, sclust) != 0 && Follow(fat, FirstCluster(g, sclust), k) == 0
    requires ofs >= SS * SectorCount(g, k)
    ensures Place(g, fat, sclust, ofs / SS) == Nowhere
  {
    var j := ofs / SS;
    SectorCountIs(g, k);
    DivAtLeast(j, k, g.csize);
    StaysBroken(fat, FirstCluster(g, sclust), k, j / g.csize);
  }

  lemma DivAtLeast(j: nat, k: nat, m: nat)
    requires m > 0 && j >= k * m
    ensures j / m >= k
  {
    assert j == (j / m) * m + j % m;
    if j / m < k {
      MulStep(j / m, k, m);
    }
  }

  lemma {:induction false} StaysBroken(fat: seq<nat>, c: nat, k: nat, m: nat)
    requires Follow(fat, c, k) == 0 && k <= m
    ensures Follow(fat, c, m) == 0
    decreases m
  {
    if k < m {
      StaysBroken(fat, c, k, m - 1);
    }
  }

  /** The loop of dir_sdi has reached the cluster of the offset. */
  lemma Arrived(g: Layout, fat: seq<nat>, sclust: nat, k: nat, ofs0: nat, ofs: nat)
    requires g.csize > 0 && FirstCluster(g, sclust) != 0 && Follow(fat, FirstCluster(g, sclust), k) != 0
    requires ofs0 == ofs + SS * SectorCount(g, k) && ofs < g.csize * SS
    ensures var d := Follow(fat, FirstCluster(g, sclust), k);
      Place(g, fat, sclust, ofs0 / SS) == Spot(d, ClusterBase(g, d) + ofs / SS)
  {
    var r := ofs / SS;
    assert ofs0 / SS == SectorCount(g, k) + r && r < g.csize;
    PlaceInCluster(g, k, r);
  }

  /** Entry index against sector index in the fixed root. */
  lemma RootIndex(ofs: nat, n: nat)
    requires n % 16 == 0
    ensures ofs / SZDIRE >= n <==> ofs / SS >= n / 16
  {
  }

  /** The next sector, in the same cluster or at the start of the next one. */
  lemma NextPlace(j: nat, m: nat)
    requires m > 0
    ensures (j + 1) % m != 0 ==> (j + 1) / m == j / m && (j + 1) % m == j % m + 1
    ensures (j + 1) % m == 0 ==> (j + 1) / m == j / m + 1
  {
    var q, r := j / m, j % m;
    assert j == q * m + r;
    if r + 1 < m {
      DivMod(q, m, r + 1);
    } else {
      assert (q + 1) * m == q * m + m;
      DivMod(q + 1, m, 0);
    }
  }

  /** The next entry, by sector. */
  lemma NextEntry(ofs: nat)
    requires ofs % SZDIRE == 0
    ensures (ofs + SZDIRE) % SZDIRE == 0
    ensures (ofs + SZDIRE) / SS == ofs / SS + if (ofs + SZDIRE) % SS == 0 then 1 else 0
  {
    var e := ofs / SZDIRE;
    NextEntryAt(e / 16, e % 16);
  }

  lemma NextEntryAt(q: nat, r: nat)
    requires r < 16
    ensures var ofs := SS * q + SZDIRE * r;
      && (ofs + SZDIRE) % SZDIRE == 0
      && (ofs + SZDIRE) / SS == ofs / SS + if (ofs + SZDIRE) % SS == 0 then 1 else 0
  {
    var ofs := SS * q + SZDIRE * r;
    InSector(ofs, q, SZDIRE * r);
    if r < 15 {
      InSector(ofs + SZDIRE, q, SZDIRE * (r + 1));
    } else {
      InSector(ofs + SZDIRE, q + 1, 0);
    }
    Multiple(16 * q + r + 1);
  }

  lemma Multiple(k: nat)
    ensures SZDIRE * k % SZDIRE == 0
  {
  }

  /** Where the sector after sector j of a directory is. */
  lemma StepOn(g: Layout, fat: seq<nat>, sclust: nat, j: nat, c: nat, s: nat)
    requires g.csize > 0 && Place(g, fat, sclust, j) == Spot(c, s)
    ensures c == 0 || 2 <= c < |fat|
    ensures Place(g, fat, sclust, j + 1) ==
      if c == 0 then (if j + 1 < g.nRootdir / 16 then Spot(0, s + 1) else Nowhere)
      else if OpenFile.PlaceOf(g, j + 1) != 0 then Spot(c, s + 1)
      else if 2 <= fat[c] < |fat| then Spot(fat[c], ClusterBase(g, fat[c]))
      else Nowhere
  {
    NextPlace(j, g.csize);
    hide ClusterBase;
  }

  /** After a stretch: the sectors before are where they were, and the next one is in the new cluster. */
  lemma StepStretched(g: Layout, fat: seq<nat>, sclust: nat, j: nat, c: nat, s: nat, ncl: nat, i: nat)
    requires g.csize > 0 && |fat| == g.nFatent && Place(g, fat, sclust, j) == Spot(c, s) && c != 0 && fat[c] >= |fat|
    requires 2 <= ncl < |fat| && fat[ncl] == 0 && OpenFile.PlaceOf(g, j + 1) == 0 && i <= j
    ensures Place(g, Grown(g, fat, c, ncl), sclust, j + 1) == Spot(ncl, ClusterBase(g, ncl))
    ensures Place(g, Grown(g, fat, c, ncl), sclust, i) == Place(g, fat, sclust, i) != Nowhere
    ensures Place(g, fat, sclust, i).clust != ncl
  {
    var c0 := FirstCluster(g, sclust);
    NextPlace(j, g.csize);
    DivOrder(i, j, g.csize);
    FollowGrown(g, fat, c0, j / g.csize, c, ncl, i / g.csize);
    FollowGrown(g, fat, c0, j / g.csize, c, ncl, j / g.csize);
    hide ClusterBase;
  }

  /** The cluster change of dir_next reaches the place of the next sector. */
  lemma Changed(g: Layout, fat: seq<nat>, fat': seq<nat>, sclust: nat, j: nat, c: nat, s: nat, c': nat, s': nat)
    requires g.csize > 0 && |fat| == g.nFatent && Place(g, fat, sclust, j) == Spot(c, s) && 2 <= c < |fat|
    requires OpenFile.PlaceOf(g, j + 1) == 0 && s' == ClusterBase(g, c') && 2 <= c' < |fat|
    requires if fat[c] < |fat| then fat[c] == c' && fat' == fat else fat[c'] == 0 && fat' == Grown(g, fat, c, c')
    ensures Place(g, fat', sclust, j + 1) == Spot(c', s')
  {
    if fat[c] < |fat| {
      StepOn(g, fat, sclust, j, c, s);
    } else {
      StepStretched(g, fat, sclust, j, c, s, c', j);
    }
  }

  lemma DivOrder(i: nat, j: nat, m: nat)
    requires m > 0 && i <= j
    ensures i / m <= j / m
  {
    assert i == (i / m) * m + i % m;
    DivAtLeast(j, i / m, m);
  }

  lemma {:induction false} FollowGrown(g: Layout, fat: seq<nat>, c0: nat, k: nat, last: nat, ncl: nat, i: nat)
    requires |fat| == g.nFatent && Follow(fat, c0, k) == last != 0 && fat[last] >= |fat|
    requires 2 <= ncl < |fat| && fat[ncl] == 0 && i <= k
    ensures Follow(Grown(g, fat, last, ncl), c0, i) == Follow(fat, c0, i) != 0
    ensures fat[Follow(fat, c0, i)] != 0
    decreases i
  {
    if Follow(fat, c0, i) == 0 { StaysBroken(fat, c0, i, k); }
    if i < k && Follow(fat, c0, i + 1) == 0 { StaysBroken(fat, c0, i + 1, k); }
    if i > 0 {
      FollowGrown(g, fat, c0, k, last, ncl, i - 1);
      if Follow(fat, c0, i - 1) == last { StaysBroken(fat, c0, i, k); }
    }
  }

  lemma ValidFacts(fs: FatFs)
    requires fs.Valid()
    ensures Sound(fs.g, fs.total) && |fs.fat| == fs.g.nFatent && |fs.img| == fs.total
  {
  }

  /** The first byte of entry number e says it is free. */
  ghost predicate FreeEntry(g: Layout, fat: seq<nat>, img: seq<Sector>, sclust: nat, e: nat)
    requires g.csize > 0
  {
    match Place(g, fat, sclust, e / 16)
    case Nowhere => false
    case Spot(_, s) => s < |img| && img[s][SZDIRE * (e % 16)] in {0, 0xE5}
  }

  ghost predicate AllFree(g: Layout, fat: seq<nat>, img: seq<Sector>, sclust: nat, lo: int, hi: int)
    requires g.csize > 0
  {
    0 <= lo && forall e: nat :: lo <= e < hi ==> FreeEntry(g, fat, img, sclust, e)
  }

  /** Entry number e is there and in use. */
  ghost predicate UsedEntry(g: Layout, fat: seq<nat>, img: seq<Sector>, sclust: nat, e: nat)
    requires g.csize > 0
  {
    Place(g, fat, sclust, e / 16).Spot? && !FreeEntry(g, fat, img, sclust, e)
  }

  /** The entries lo..hi-1 are free, and they are not the end of a longer stretch of free entries. */
  ghost predicate FreeBlock(g: Layout, fat: seq<nat>, img: seq<Sector>, sclust: nat, lo: int, hi: int)
    requires g.csize > 0
  {
    AllFree(g, fat, img, sclust, lo, hi) && (lo == 0 || UsedEntry(g, fat, img, sclust, lo - 1))
  }

  /** The m entries from number lo on are free. */
  ghost predicate RunAt(g: Layout, fat: seq<nat>, img: seq<Sector>, sclust: nat, lo: nat, m: nat)
    requires g.csize > 0
  {
    AllFree(g, fat, img, sclust, lo, lo + m)
  }

  /** There are no m free entries in a row below entry number hi. */
  ghost predicate NoRun(g: Layout, fat: seq<nat>, img: seq<Sector>, sclust: nat, hi: nat, m: nat)
    requires g.csize > 0
  {
    forall lo: nat :: lo + m <= hi ==> !RunAt(g, fat, img, sclust, lo, m)
  }

  /** The directory has no m free entries in a row. */
  ghost predicate NoRoom(g: Layout, fat: seq<nat>, img: seq<Sector>, sclust: nat, m: nat)
    requires g.csize > 0
  {
    NoRun(g, fat, img, sclust, 0x1_0000, m)
  }

  /** The directory ends before entry number e. */
  ghost predicate NoEntry(g: Layout, fat: seq<nat>, sclust: nat, e: nat)
    requires g.csize > 0
  {
    SZDIRE * e >= MAX_DIR || Place(g, fat, sclust, e / 16) == Nowhere
  }

  /** The directory gets no further cluster: it is the fixed root, it has its largest size, or none is to be had. */
  ghost predicate CannotGrow(fs: FatFs, sclust: nat)
    requires fs.g.csize > 0
    reads fs`fat, fs`freeClst
  {
    FirstCluster(fs.g, sclust) == 0 || Place(fs.g, fs.fat, sclust, 0xFFF).Spot? || Full(fs)
  }

  /** The directory has no first sector or no proper chain, or the allocation table an invalid entry. */
  ghost predicate Faulty(g: Layout, fat: seq<nat>, sclust: nat)
    requires g.csize > 0
  {
    Place(g, fat, sclust, 0) == Nowhere || !DirChain(g, fat, sclust) || SomeInvalid(fat)
  }

  /** The entry after a row of fewer than m free ones. */
  lemma NoRunNext(g: Layout, fat: seq<nat>, img: seq<Sector>, sclust: nat, e: nat, n: nat, m: nat)
    requires g.csize > 0 && NoRun(g, fat, img, sclust, e, m) && n < m && n <= e + 1
    requires FreeBlock(g, fat, img, sclust, e + 1 - n, e + 1)
    ensures NoRun(g, fat, img, sclust, e + 1, m)
  {
    forall lo: nat | lo + m <= e + 1 ensures !RunAt(g, fat, img, sclust, lo, m) {
      if lo + m == e + 1 {
        assert UsedEntry(g, fat, img, sclust, e - n) && lo <= e - n;
      }
    }
  }

  /** At the end of the directory. */
  lemma NoRunEnd(g: Layout, fat: seq<nat>, img: seq<Sector>, sclust: nat, e: nat, m: nat)
    requires g.csize > 0 && m > 0 && NoRun(g, fat, img, sclust, e, m) && NoEntry(g, fat, sclust, e)
    ensures NoRoom(g, fat, img, sclust, m)
  {
    hide Place;
    forall lo: nat | e < lo + m <= MAX_DIR / SZDIRE ensures !RunAt(g, fat, img, sclust, lo, m) {
      var last: nat := lo + m - 1;
      NoneBehind(g, fat, sclust, e / 16, last / 16);
      assert !FreeEntry(g, fat, img, sclust, last);
    }
  }

  /** What is no row of free entries in a kept directory is none afterwards. */
  lemma NoRunKept(g: Layout, s: Snap, s': Snap, sclust: nat, e: nat, m: nat)
    requires g.csize > 0 && Kept(g, s, s', sclust) && NoRun(g, s.fat, s.img, sclust, e + 1, m)
    requires Place(g, s.fat, sclust, e / 16).Spot?
    ensures NoRun(g, s'.fat, s'.img, sclust, e + 1, m)
  {
    hide Place, Spared, DirChain;
    forall i: nat | i <= e
      ensures FreeEntry(g, s'.fat, s'.img, sclust, i) <==> FreeEntry(g, s.fat, s.img, sclust, i)
    {
      if Place(g, s.fat, sclust, i / 16) == Nowhere { NoneBehind(g, s.fat, sclust, i / 16, e / 16); }
      assert SectorKept(g, s.fat, s.img, s'.fat, s'.img, sclust, i / 16);
    }
    forall lo: nat | lo + m <= e + 1 ensures !RunAt(g, s'.fat, s'.img, sclust, lo, m) {
      assert !RunAt(g, s.fat, s.img, sclust, lo, m);
    }
  }

  lemma StillNoRun(g: Layout, s: Snap, s': Snap, sclust: nat, ofs: nat, m: nat)
    requires g.csize > 0 && Kept(g, s, s', sclust) && ofs % SZDIRE == 0 && Place(g, s.fat, sclust, ofs / SS).Spot?
    requires NoRun(g, s.fat, s.img, sclust, EntryNumber(ofs) + 1, m)
    ensures NoRun(g, s'.fat, s'.img, sclust, EntryNumber(ofs) + 1, m)
    ensures EntryNumber(ofs + SZDIRE) == EntryNumber(ofs) + 1
  {
    hide Kept, NoRun, Place;
    EntryPlace(ofs);
    NoRunKept(g, s, s', sclust, EntryNumber(ofs), m);
  }

  /** An entry of a cluster of the directory that leads nowhere breaks its chain. */
  lemma ChainBroken(g: Layout, fat: seq<nat>, sclust: nat, j: nat)
    requires g.csize > 0 && Place(g, fat, sclust, j).Spot?
    requires var c := Place(g, fat, sclust, j).clust; c != 0 && c < |fat| && fat[c] < 2
    ensures !DirChain(g, fat, sclust)
  {
    var c0, k, c := FirstCluster(g, sclust), j / g.csize, Place(g, fat, sclust, j).clust;
    forall ch | IsChain(fat, ch) && ch[0] == c0 ensures false {
      ChainFollowed(fat, ch, k);
      assert c in ch;
      OnChain(fat, ch, c);
    }
  }

  lemma NoneFree(g: Layout, fat: seq<nat>, img: seq<Sector>, sclust: nat, e: nat)
    requires g.csize > 0 && (e == 0 || UsedEntry(g, fat, img, sclust, e - 1))
    ensures FreeBlock(g, fat, img, sclust, e, e)
  {
  }

  lemma OneMore(g: Layout, fat: seq<nat>, img: seq<Sector>, sclust: nat, lo: int, hi: nat)
    requires g.csize > 0 && FreeBlock(g, fat, img, sclust, lo, hi) && FreeEntry(g, fat, img, sclust, hi)
    ensures FreeBlock(g, fat, img, sclust, lo, hi + 1)
  {
  }

  lemma EntryPlace(ofs: nat)
    requires ofs % SZDIRE == 0
    ensures ofs % SS == SZDIRE * (ofs / SZDIRE % 16) && ofs / SS == ofs / SZDIRE / 16
  {
  }

  /** The last entry a directory can have. */
  lemma AtTheTop(ofs: nat)
    requires ofs % SZDIRE == 0 && ofs < MAX_DIR <= ofs + SZDIRE
    ensures ofs / SS == MAX_DIR / SS - 1
  {
  }

  lemma OffsetOrder(i: nat, n: nat)
    requires i <= n
    ensures SZDIRE * i / SS <= SZDIRE * n / SS
  {
  }

  /** Directory sectors are on the drive, outside the tables. */
  lemma DirSector(g: Layout, fat: seq<nat>, sclust: nat, j: nat, total: nat)
    requires Sound(g, total) && RootPlaced(g) && Roomy(g, total) && |fat| == g.nFatent
    requires Place(g, fat, sclust, j).Spot?
    ensures var s := Place(g, fat, sclust, j).sect; 0 < s < total && !InFat(g, s) && !InMirror(g, s)
  {
    var p := Place(g, fat, sclust, j);
    if p.clust != 0 {
      ClusterInDrive(g, total, p.clust);
    }
  }

  /** Behind a missing sector there is none. */
  lemma NoneBehind(g: Layout, fat: seq<nat>, sclust: nat, i: nat, j: nat)
    requires g.csize > 0 && Place(g, fat, sclust, i) == Nowhere && i <= j
    ensures Place(g, fat, sclust, j) == Nowhere
  {
    var c := FirstCluster(g, sclust);
    if c != 0 {
      DivOrder(i, j, g.csize);
      StaysBroken(fat, c, i / g.csize, j / g.csize);
    }
  }

  /** The directory's clusters form a proper chain (the fixed root has none). */
  ghost predicate DirChain(g: Layout, fat: seq<nat>, sclust: nat) {
    var c := FirstCluster(g, sclust);
    c == 0 || exists ch :: IsChain(fat, ch) && ch[0] == c
  }

  lemma {:induction false} ChainFollowed(fat: seq<nat>, ch: seq<nat>, k: nat)
    requires IsChain(fat, ch)
    ensures Follow(fat, ch[0], k) == if k < |ch| then ch[k] else 0
    decreases k
  {
    if k > 0 {
      ChainFollowed(fat, ch, k - 1);
      if k < |ch| { assert fat[ch[k - 1]] == ch[k]; }
    }
  }

  lemma AtTheEnd(fat: seq<nat>, ch: seq<nat>, k: nat)
    requires IsChain(fat, ch) && k < |ch| && fat[ch[k]] >= |fat|
    ensures k == |ch| - 1
  {
    if k < |ch| - 1 { LinkInside(fat, ch, k); }
  }

  lemma LinkInside(fat: seq<nat>, ch: seq<nat>, k: nat)
    requires IsChain(fat, ch) && k < |ch| - 1
    ensures fat[ch[k]] == ch[k + 1] < |fat|
  {
  }

  /** A stretched chain is a chain. */
  lemma ChainGrown(g: Layout, fat: seq<nat>, sclust: nat, k: nat, last: nat, ncl: nat)
    requires FirstCluster(g, sclust) != 0 && DirChain(g, fat, sclust) && |fat| == g.nFatent <= MaxEntries(g.fsType)
    requires Follow(fat, FirstCluster(g, sclust), k) == last != 0 && fat[last] >= |fat|
    requires 2 <= ncl < |fat| && fat[ncl] == 0
    ensures DirChain(g, Grown(g, fat, last, ncl), sclust)
  {
    var ch :| IsChain(fat, ch) && ch[0] == FirstCluster(g, sclust);
    ChainFollowed(fat, ch, k);
    AtTheEnd(fat, ch, k);
    StretchIsChain(fat, ch, ncl, EndMark(g));
    assert IsChain(Grown(g, fat, last, ncl), ch + [ncl]) && (ch + [ncl])[0] == ch[0];
  }

  /** The table, the volume, the place of the window and the free count at some moment. */
  datatype Snap = Snap(fat: seq<nat>, img: seq<Sector>, win: nat, free: nat)

  ghost function SnapOf(fs: FatFs): Snap
    reads fs`fat, fs`img, fs`winsect, fs`freeClst
  {
    Snap(fs.fat, fs.img, fs.winsect, fs.freeClst)
  }

  lemma SnapIs(fs: FatFs)
    ensures SnapOf(fs).fat == fs.fat && SnapOf(fs).img == fs.img
  {
  }

  /** The free count is unknown or exact. */
  ghost predicate CountKnown(s: Snap) {
    |s.fat| >= 2 && (s.free > |s.fat| - 2 || s.free == FreeCount(s.fat))
  }

  /** Cluster `c` is one of the directory's. */
  ghost predicate DirCluster(g: Layout, fat: seq<nat>, sclust: nat, c: nat) {
    c != 0 && exists k: nat :: Follow(fat, FirstCluster(g, sclust), k) == c
  }

  /** Sector `x` is one of the directory's. */
  ghost predicate DirSect(g: Layout, fat: seq<nat>, sclust: nat, x: nat)
    requires g.csize > 0
  {
    exists j: nat :: Place(g, fat, sclust, j).Spot? && Place(g, fat, sclust, j).sect == x
  }

  /** An entry that changes belongs to the directory, was free or the end of a chain, and is in use now; the way of the
      directory goes on as it went, into clusters that were free. */
  ghost predicate EntriesSpared(g: Layout, fat: seq<nat>, fat': seq<nat>, sclust: nat) {
    var c0 := FirstCluster(g, sclust);
    && |fat'| == |fat|
    && (forall c: nat :: c < |fat| && fat'[c] != fat[c] ==>
          DirCluster(g, fat', sclust, c) && fat'[c] >= 2 && (fat[c] == 0 || fat[c] >= |fat|))
    && (forall k: nat {:trigger Follow(fat, c0, k)} {:trigger Follow(fat', c0, k)} ::
          if Follow(fat, c0, k) != 0 then Follow(fat', c0, k) == Follow(fat, c0, k)
          else Follow(fat', c0, k) == 0 || fat[Follow(fat', c0, k)] == 0)
  }

  /** A sector that changes is the directory's, or one of the tables. */
  ghost predicate SectorsSpared(g: Layout, s: Snap, s': Snap, sclust: nat)
    requires g.csize > 0
  {
    && |s'.img| == |s.img|
    && forall x: nat :: x < |s.img| && s'.img[x] != s.img[x] && !InFat(g, x) && !InMirror(g, x) ==>
         DirSect(g, s'.fat, sclust, x)
  }

  /** Nothing but the directory's own changes: no other entry of the allocation table, no other sector. The window stays
      or goes to the tables or the directory, and an honest free count stays honest. */
  ghost predicate Spared(g: Layout, s: Snap, s': Snap, sclust: nat) {
    && g.csize > 0
    && EntriesSpared(g, s.fat, s'.fat, sclust)
    && SectorsSpared(g, s, s', sclust)
    && (s'.win == s.win || InFat(g, s'.win) || DirSect(g, s'.fat, sclust, s'.win))
    && (CountKnown(s) ==> CountKnown(s'))
  }

  lemma PlaceStays(g: Layout, fat: seq<nat>, fat': seq<nat>, sclust: nat, j: nat)
    requires g.csize > 0 && EntriesSpared(g, fat, fat', sclust) && Place(g, fat, sclust, j).Spot?
    ensures Place(g, fat', sclust, j) == Place(g, fat, sclust, j)
  {
  }

  lemma SectStays(g: Layout, fat: seq<nat>, fat': seq<nat>, sclust: nat, x: nat)
    requires g.csize > 0 && EntriesSpared(g, fat, fat', sclust) && DirSect(g, fat, sclust, x)
    ensures DirSect(g, fat', sclust, x)
  {
    var j: nat :| Place(g, fat, sclust, j).Spot? && Place(g, fat, sclust, j).sect == x;
    PlaceStays(g, fat, fat', sclust, j);
  }

  lemma ClusterStays(g: Layout, fat: seq<nat>, fat': seq<nat>, sclust: nat, c: nat)
    requires EntriesSpared(g, fat, fat', sclust) && DirCluster(g, fat, sclust, c)
    ensures DirCluster(g, fat', sclust, c)
  {
    var k: nat :| Follow(fat, FirstCluster(g, sclust), k) == c;
    assert Follow(fat', FirstCluster(g, sclust), k) == c;
  }

  lemma EntriesTrans(g: Layout, fat0: seq<nat>, fat1: seq<nat>, fat2: seq<nat>, sclust: nat)
    requires EntriesSpared(g, fat0, fat1, sclust) && EntriesSpared(g, fat1, fat2, sclust)
    ensures EntriesSpared(g, fat0, fat2, sclust)
  {
    var c0 := FirstCluster(g, sclust);
    forall c: nat | c < |fat0| && fat2[c] != fat0[c]
      ensures DirCluster(g, fat2, sclust, c) && fat2[c] >= 2 && (fat0[c] == 0 || fat0[c] >= |fat0|)
    {
      if fat1[c] != fat0[c] { ClusterStays(g, fat1, fat2, sclust, c); }
    }
    forall k: nat
      ensures if Follow(fat0, c0, k) != 0 then Follow(fat2, c0, k) == Follow(fat0, c0, k)
              else Follow(fat2, c0, k) == 0 || fat0[Follow(fat2, c0, k)] == 0
    {
      NewWasFree(g, fat0, fat1, fat2, sclust, k);
    }
  }

  lemma NewWasFree(g: Layout, fat0: seq<nat>, fat1: seq<nat>, fat2: seq<nat>, sclust: nat, k: nat)
    requires EntriesSpared(g, fat0, fat1, sclust) && EntriesSpared(g, fat1, fat2, sclust)
    ensures var c0 := FirstCluster(g, sclust);
      if Follow(fat0, c0, k) != 0 then Follow(fat2, c0, k) == Follow(fat0, c0, k)
      else Follow(fat2, c0, k) == 0 || fat0[Follow(fat2, c0, k)] == 0
  {
    SameOrFree(g, fat0, fat1, sclust, k);
    SameOrFree(g, fat1, fat2, sclust, k);
    var d := Follow(fat2, FirstCluster(g, sclust), k);
    if d != 0 && fat1[d] == 0 { FreeBefore(g, fat0, fat1, sclust, d); }
    hide *;
  }

  lemma SameOrFree(g: Layout, fat: seq<nat>, fat': seq<nat>, sclust: nat, k: nat)
    requires EntriesSpared(g, fat, fat', sclust)
    ensures |fat'| == |fat|
    ensures var d, d' := Follow(fat, FirstCluster(g, sclust), k), Follow(fat', FirstCluster(g, sclust), k);
      if d != 0 then d' == d else d' == 0 || fat[d'] == 0
  {
  }

  lemma FreeBefore(g: Layout, fat: seq<nat>, fat': seq<nat>, sclust: nat, c: nat)
    requires EntriesSpared(g, fat, fat', sclust) && c < |fat| && fat'[c] == 0
    ensures fat[c] == 0
  {
  }

  lemma SparedTrans(g: Layout, s0: Snap, s1: Snap, s2: Snap, sclust: nat)
    requires Spared(g, s0, s1, sclust) && Spared(g, s1, s2, sclust)
    ensures Spared(g, s0, s2, sclust)
  {
    EntriesTrans(g, s0.fat, s1.fat, s2.fat, sclust);
    hide EntriesSpared, DirSect, CountKnown;
    forall x: nat | x < |s0.img| && s2.img[x] != s0.img[x] && !InFat(g, x) && !InMirror(g, x)
      ensures DirSect(g, s2.fat, sclust, x)
    {
      if s1.img[x] != s0.img[x] { SectStays(g, s1.fat, s2.fat, sclust, x); }
    }
    if DirSect(g, s1.fat, sclust, s1.win) { SectStays(g, s1.fat, s2.fat, sclust, s1.win); }
  }

  /** A chain that is none of the directory's, with the window elsewhere. */
  ghost predicate Beside(g: Layout, s: Snap, sclust: nat, ch: seq<nat>) {
    && IsChain(s.fat, ch) && s.win !in Sectors(g, ch)
    && forall k: nat :: Follow(s.fat, FirstCluster(g, sclust), k) !in ch
  }

  ghost predicate SameOn(img: seq<Sector>, img': seq<Sector>, sects: seq<nat>) {
    forall i :: 0 <= i < |sects| ==> sects[i] < |img| && sects[i] < |img'| && img'[sects[i]] == img[sects[i]]
  }

  /** A chain beside the directory stays one, with its contents. */
  lemma BesideStays(g: Layout, s: Snap, s': Snap, sclust: nat, ch: seq<nat>, total: nat)
    requires Sound(g, total) && RootPlaced(g) && Roomy(g, total) && |s.fat| == g.nFatent && |s.img| == total
    requires Spared(g, s, s', sclust) && Beside(g, s, sclust, ch)
    ensures Beside(g, s', sclust, ch) && SameOn(s.img, s'.img, Sectors(g, ch))
  {
    ChainStays(g, s.fat, s'.fat, sclust, ch);
    ChainSectors(g, total, s.fat, ch);
    forall x: nat | x in Sectors(g, ch) ensures !DirSect(g, s'.fat, sclust, x) {
      NotDirSect(g, s'.fat, sclust, total, ch, x);
    }
    hide DirSect, EntriesSpared, Sectors, IsChain;
    assert forall i :: 0 <= i < |Sectors(g, ch)| ==> Sectors(g, ch)[i] in Sectors(g, ch);
  }

  lemma ChainStays(g: Layout, fat: seq<nat>, fat': seq<nat>, sclust: nat, ch: seq<nat>)
    requires EntriesSpared(g, fat, fat', sclust) && IsChain(fat, ch)
    requires forall k: nat :: Follow(fat, FirstCluster(g, sclust), k) !in ch
    ensures IsChain(fat', ch) && forall k: nat :: Follow(fat', FirstCluster(g, sclust), k) !in ch
  {
    var c0 := FirstCluster(g, sclust);
    forall c | c in ch ensures 2 <= c < |fat| && fat[c] >= 2 { OnChain(fat, ch, c); }
    forall k: nat ensures Follow(fat', c0, k) !in ch { assert Follow(fat, c0, k) !in ch; }
    ChainFrame(fat, fat', ch);
  }

  /** The sectors of a chain are in the data area, and on the drive. */
  lemma ChainSectors(g: Layout, total: nat, fat: seq<nat>, ch: seq<nat>)
    requires Sound(g, total) && Roomy(g, total) && |fat| == g.nFatent && IsChain(fat, ch)
    ensures forall i {:trigger Sectors(g, ch)[i]} :: 0 <= i < |Sectors(g, ch)| ==>
      g.database <= Sectors(g, ch)[i] < total && !InFat(g, Sectors(g, ch)[i]) && !InMirror(g, Sectors(g, ch)[i])
  {
    forall i | 0 <= i < |Sectors(g, ch)|
      ensures g.database <= Sectors(g, ch)[i] < total && !InFat(g, Sectors(g, ch)[i]) && !InMirror(g, Sectors(g, ch)[i])
    {
      SectorsInDrive(g, total, fat, ch, i);
    }
  }

  /** A sector of such a chain is no directory sector. */
  lemma NotDirSect(g: Layout, fat: seq<nat>, sclust: nat, total: nat, ch: seq<nat>, x: nat)
    requires Sound(g, total) && RootPlaced(g) && Roomy(g, total) && |fat| == g.nFatent && IsChain(fat, ch)
    requires forall k: nat :: Follow(fat, FirstCluster(g, sclust), k) !in ch
    requires x in Sectors(g, ch)
    ensures !DirSect(g, fat, sclust, x)
  {
    forall j: nat | Place(g, fat, sclust, j).Spot? ensures Place(g, fat, sclust, j).sect != x {
      DirSectorApart(g, fat, sclust, j, total, ch);
    }
  }

  lemma DirSectorApart(g: Layout, fat: seq<nat>, sclust: nat, j: nat, total: nat, ch: seq<nat>)
    requires Sound(g, total) && RootPlaced(g) && Roomy(g, total) && |fat| == g.nFatent && IsChain(fat, ch)
    requires forall k: nat :: Follow(fat, FirstCluster(g, sclust), k) !in ch
    requires Place(g, fat, sclust, j).Spot?
    ensures Place(g, fat, sclust, j).sect !in Sectors(g, ch)
  {
    var p := Place(g, fat, sclust, j);
    if p.sect in Sectors(g, ch) {
      var i :| 0 <= i < |Sectors(g, ch)| && Sectors(g, ch)[i] == p.sect;
      SectorsInDrive(g, total, fat, ch, i);
      var k, r := SectorOwner(g, ch, i);
      if p.clust >= 2 {
        assert ch[k] in ch && p.clust == Follow(fat, FirstCluster(g, sclust), j / g.csize);
        SectorsApart(g, p.clust, ch[k], j % g.csize, r);
      }
    }
  }

  lemma EntriesSame(g: Layout, fat: seq<nat>, sclust: nat)
    ensures EntriesSpared(g, fat, fat, sclust)
  {
  }

  /** The window may stay or go to the tables. */
  lemma SparedQuiet(g: Layout, s: Snap, s': Snap, sclust: nat)
    requires g.csize > 0 && s'.fat == s.fat && s'.img == s.img && (s'.win == s.win || InFat(g, s'.win))
    requires CountKnown(s) ==> CountKnown(s')
    ensures Spared(g, s, s', sclust)
  {
    EntriesSame(g, s.fat, sclust);
  }

  /** The window may go to the directory, and the sector there may change. */
  lemma SparedWrite(g: Layout, s: Snap, s': Snap, sclust: nat, j: nat)
    requires g.csize > 0 && Place(g, s.fat, sclust, j).Spot? && s'.fat == s.fat && s'.free == s.free
    requires s'.win == Place(g, s.fat, sclust, j).sect
    requires |s'.img| == |s.img| && forall i :: 0 <= i < |s.img| && i != s'.win ==> s'.img[i] == s.img[i]
    ensures Spared(g, s, s', sclust)
  {
    EntriesSame(g, s.fat, sclust);
    assert DirSect(g, s'.fat, sclust, s'.win);
  }

  /** A stretch takes a free cluster and changes the last link of the directory's own chain. */
  lemma SparedGrown(g: Layout, s: Snap, s': Snap, sclust: nat, j: nat, c: nat, sect: nat, ncl: nat)
    requires g.csize > 0 && |s.fat| == g.nFatent <= MaxEntries(g.fsType)
    requires Place(g, s.fat, sclust, j) == Spot(c, sect) && c != 0 && c < |s.fat| && s.fat[c] >= |s.fat|
    requires 2 <= ncl < |s.fat| && s.fat[ncl] == 0 && s'.fat == Grown(g, s.fat, c, ncl)
    requires Fresh(g, s.img, s'.img, ncl) && s'.win == ClusterBase(g, ncl) && (CountKnown(s) ==> CountKnown(s'))
    ensures Spared(g, s, s', sclust)
  {
    hide Place, Follow, FirstCluster, ClusterBase, Fresh, Grown, EntriesSpared, SectorsSpared, DirSect, CountKnown;
    FirstIsNot(g, s.fat, sclust, j);
    EntriesGrown(g, s.fat, sclust, j / g.csize, c, ncl);
    SectorsGrown(g, s, s', sclust, j / g.csize, c, ncl);
  }

  lemma SectorsGrown(g: Layout, s: Snap, s': Snap, sclust: nat, k: nat, c: nat, ncl: nat)
    requires g.csize > 0 && |s.fat| == g.nFatent <= MaxEntries(g.fsType)
    requires Follow(s.fat, FirstCluster(g, sclust), k) == c != 0 && s.fat[c] >= |s.fat|
    requires 2 <= ncl < |s.fat| && s.fat[ncl] == 0 && s'.fat == Grown(g, s.fat, c, ncl)
    requires Fresh(g, s.img, s'.img, ncl)
    ensures SectorsSpared(g, s, s', sclust) && DirSect(g, s'.fat, sclust, ClusterBase(g, ncl))
  {
    hide Follow, FirstCluster, ClusterBase, Grown, DirSect;
    forall x: nat | ClusterBase(g, ncl) <= x < ClusterBase(g, ncl) + g.csize ensures DirSect(g, s'.fat, sclust, x) {
      NewSect(g, s.fat, sclust, k, c, ncl, x - ClusterBase(g, ncl));
    }
  }

  lemma EntriesGrown(g: Layout, fat: seq<nat>, sclust: nat, k: nat, c: nat, ncl: nat)
    requires |fat| == g.nFatent <= MaxEntries(g.fsType) && Follow(fat, FirstCluster(g, sclust), k) == c != 0
    requires fat[c] >= |fat| && 2 <= ncl < |fat| && fat[ncl] == 0
    ensures EntriesSpared(g, fat, Grown(g, fat, c, ncl), sclust)
  {
    var fat', c0 := Grown(g, fat, c, ncl), FirstCluster(g, sclust);
    GrownFollow(g, fat, c0, k, c, ncl, k);
    GrownFollow(g, fat, c0, k, c, ncl, k + 1);
    assert DirCluster(g, fat', sclust, c) && DirCluster(g, fat', sclust, ncl);
    forall m: nat
      ensures if Follow(fat, c0, m) != 0 then Follow(fat', c0, m) == Follow(fat, c0, m)
              else Follow(fat', c0, m) == 0 || fat[Follow(fat', c0, m)] == 0
    {
      GrownFollow(g, fat, c0, k, c, ncl, m);
      if m > k { EndsThere(fat, c0, k, m); }
    }
  }

  lemma EndsThere(fat: seq<nat>, c0: nat, k: nat, m: nat)
    requires Follow(fat, c0, k) != 0 && fat[Follow(fat, c0, k)] >= |fat| && m > k
    ensures Follow(fat, c0, m) == 0
  {
    assert Follow(fat, c0, k + 1) == 0;
    StaysBroken(fat, c0, k + 1, m);
  }

  /** The sectors of the new cluster are the directory's. */
  lemma NewSect(g: Layout, fat: seq<nat>, sclust: nat, k: nat, c: nat, ncl: nat, r: nat)
    requires |fat| == g.nFatent <= MaxEntries(g.fsType) && Follow(fat, FirstCluster(g, sclust), k) == c != 0
    requires fat[c] >= |fat| && 2 <= ncl < |fat| && fat[ncl] == 0 && r < g.csize
    ensures DirSect(g, Grown(g, fat, c, ncl), sclust, ClusterBase(g, ncl) + r)
  {
    GrownFollow(g, fat, FirstCluster(g, sclust), k, c, ncl, k + 1);
    FirstThere(fat, FirstCluster(g, sclust), k);
    PlaceInCluster(g, k + 1, r);
    var j := SectorCount(g, k + 1) + r;
    assert Place(g, Grown(g, fat, c, ncl), sclust, j) == Spot(ncl, ClusterBase(g, ncl) + r);
  }

  lemma FirstThere(fat: seq<nat>, c0: nat, k: nat)
    requires Follow(fat, c0, k) != 0
    ensures c0 != 0
  {
    if c0 == 0 { StaysBroken(fat, c0, 0, k); }
  }

  /** The way through a stretched chain. */
  lemma GrownFollow(g: Layout, fat: seq<nat>, c0: nat, k: nat, last: nat, ncl: nat, m: nat)
    requires |fat| == g.nFatent <= MaxEntries(g.fsType) && Follow(fat, c0, k) == last != 0 && fat[last] >= |fat|
    requires 2 <= ncl < |fat| && fat[ncl] == 0
    ensures Follow(Grown(g, fat, last, ncl), c0, m) ==
      if m <= k then Follow(fat, c0, m) else if m == k + 1 then ncl else 0
  {
    var fat' := Grown(g, fat, last, ncl);
    FollowGrown(g, fat, c0, k, last, ncl, if m <= k then m else k);
    if m > k {
      FollowGrown(g, fat, c0, k, last, ncl, k);
      assert Follow(fat', c0, k + 1) == ncl && Follow(fat', c0, k + 2) == 0;
      if m > k + 1 { StaysBroken(fat', c0, k + 2, m); }
    }
  }

  /** Every sector of the directory is where it was and holds what it held, sectors it did not have are zeros, its chain
      is still a proper one, and nothing but the directory's own has changed. */
  ghost predicate Kept(g: Layout, s: Snap, s': Snap, sclust: nat)
    requires g.csize > 0
  {
    && (forall j: nat {:trigger Place(g, s.fat, sclust, j)} {:trigger Place(g, s'.fat, sclust, j)} ::
          SectorKept(g, s.fat, s.img, s'.fat, s'.img, sclust, j))
    && (DirChain(g, s.fat, sclust) ==> DirChain(g, s'.fat, sclust))
    && Spared(g, s, s', sclust)
  }

  ghost predicate SectorKept(g: Layout, fat: seq<nat>, img: seq<Sector>, fat': seq<nat>, img': seq<Sector>, sclust: nat,
                             j: nat)
    requires g.csize > 0
  {
    match Place(g, fat, sclust, j)
    case Spot(_, s) => Place(g, fat', sclust, j) == Place(g, fat, sclust, j) && s < |img| && s < |img'| &&
      img'[s] == img[s]
    case Nowhere =>
      var p := Place(g, fat', sclust, j);
      p.Spot? ==> p.sect < |img'| && img'[p.sect] == Zeros()
  }

  lemma SparesCount(g: Layout, s: Snap, s': Snap, sclust: nat)
    requires g.csize > 0 && Kept(g, s, s', sclust)
    ensures Spared(g, s, s', sclust) && (CountKnown(s) ==> CountKnown(s'))
  {
    hide EntriesSpared, SectorsSpared, DirSect, Place, DirChain;
  }

  lemma KeptNow(g: Layout, s: Snap, s': Snap, sclust: nat, total: nat)
    requires Sound(g, total) && RootPlaced(g) && Roomy(g, total) && |s.fat| == g.nFatent && |s.img| == total
    requires s'.fat == s.fat && s'.img == s.img && (s'.win == s.win || InFat(g, s'.win))
    requires CountKnown(s) ==> CountKnown(s')
    ensures Kept(g, s, s', sclust)
  {
    SparedQuiet(g, s, s', sclust);
    hide Spared, Place;
    forall j: nat ensures SectorKept(g, s.fat, s.img, s'.fat, s'.img, sclust, j) { SectorNow(g, s, sclust, j, total); }
  }

  lemma SectorNow(g: Layout, s: Snap, sclust: nat, j: nat, total: nat)
    requires Sound(g, total) && RootPlaced(g) && Roomy(g, total) && |s.fat| == g.nFatent && |s.img| == total
    ensures SectorKept(g, s.fat, s.img, s.fat, s.img, sclust, j)
  {
    if Place(g, s.fat, sclust, j).Spot? { DirSector(g, s.fat, sclust, j, total); }
  }

  /** A look at a directory sector keeps everything. */
  lemma KeptLook(g: Layout, s: Snap, sclust: nat, j: nat, total: nat)
    requires Sound(g, total) && RootPlaced(g) && Roomy(g, total) && |s.fat| == g.nFatent && |s.img| == total
    requires Place(g, s.fat, sclust, j).Spot?
    ensures Kept(g, s, s.(win := Place(g, s.fat, sclust, j).sect), sclust)
  {
    var s' := s.(win := Place(g, s.fat, sclust, j).sect);
    SparedWrite(g, s, s', sclust, j);
    hide Spared, Place;
    forall i: nat ensures SectorKept(g, s.fat, s.img, s'.fat, s'.img, sclust, i) { SectorNow(g, s, sclust, i, total); }
  }

  lemma KeptTrans(g: Layout, s0: Snap, s1: Snap, s2: Snap, sclust: nat)
    requires g.csize > 0 && Kept(g, s0, s1, sclust) && Kept(g, s1, s2, sclust)
    ensures Kept(g, s0, s2, sclust)
  {
    hide Place, DirChain, Spared;
    SparedTrans(g, s0, s1, s2, sclust);
    forall j: nat ensures SectorKept(g, s0.fat, s0.img, s2.fat, s2.img, sclust, j) {
      assert SectorKept(g, s0.fat, s0.img, s1.fat, s1.img, sclust, j) &&
        SectorKept(g, s1.fat, s1.img, s2.fat, s2.img, sclust, j);
    }
  }

  /** A stretch keeps the directory as far as it went, and adds sectors of zeros. */
  lemma KeptGrown(g: Layout, s: Snap, s': Snap, sclust: nat, j: nat, c: nat, sect: nat, ncl: nat, total: nat)
    requires Sound(g, total) && RootPlaced(g) && Roomy(g, total) && |s.fat| == g.nFatent && |s.img| == total
    requires Place(g, s.fat, sclust, j) == Spot(c, sect) && c != 0 && c < |s.fat| && s.fat[c] >= |s.fat|
    requires 2 <= ncl < |s.fat| && s.fat[ncl] == 0 && OpenFile.PlaceOf(g, j + 1) == 0
    requires s'.fat == Grown(g, s.fat, c, ncl) && Fresh(g, s.img, s'.img, ncl) && s'.win == ClusterBase(g, ncl)
    requires CountKnown(s) ==> CountKnown(s')
    ensures Kept(g, s, s', sclust)
  {
    hide Spared, DirChain, Place, FirstCluster, ClusterBase, Grown, Fresh, OpenFile.PlaceOf, CountKnown, SectorKept;
    SparedGrown(g, s, s', sclust, j, c, sect, ncl);
    forall i: nat ensures SectorKept(g, s.fat, s.img, s'.fat, s'.img, sclust, i) {
      SectorGrown(g, s.fat, s.img, s'.img, sclust, j, c, sect, ncl, total, i);
    }
    if DirChain(g, s.fat, sclust) {
      FirstIsNot(g, s.fat, sclust, j);
      ChainGrown(g, s.fat, sclust, j / g.csize, c, ncl);
    }
  }

  lemma FirstIsNot(g: Layout, fat: seq<nat>, sclust: nat, j: nat)
    requires g.csize > 0 && Place(g, fat, sclust, j).Spot? && Place(g, fat, sclust, j).clust != 0
    ensures FirstCluster(g, sclust) != 0
    ensures Follow(fat, FirstCluster(g, sclust), j / g.csize) == Place(g, fat, sclust, j).clust
  {
  }

  lemma SectorGrown(g: Layout, fat: seq<nat>, img: seq<Sector>, img': seq<Sector>, sclust: nat, j: nat,
                    c: nat, s: nat, ncl: nat, total: nat, i: nat)
    requires Sound(g, total) && RootPlaced(g) && Roomy(g, total) && |fat| == g.nFatent && |img| == total
    requires Place(g, fat, sclust, j) == Spot(c, s) && c != 0 && c < |fat| && fat[c] >= |fat|
    requires 2 <= ncl < |fat| && fat[ncl] == 0 && OpenFile.PlaceOf(g, j + 1) == 0 && Fresh(g, img, img', ncl)
    ensures SectorKept(g, fat, img, Grown(g, fat, c, ncl), img', sclust, i)
  {
    var fat' := Grown(g, fat, c, ncl);
    StepOn(g, fat, sclust, j, c, s);
    if i <= j {
      StepStretched(g, fat, sclust, j, c, s, ncl, i);
      DirSector(g, fat, sclust, i, total);
      OtherCluster(g, fat, sclust, i, ncl);
    } else {
      NoneBehind(g, fat, sclust, j + 1, i);
      if Place(g, fat', sclust, i).Spot? {
        InNewCluster(g, fat, sclust, j, c, s, ncl, i);
        DirSector(g, fat', sclust, i, total);
      }
    }
  }

  /** After a stretch, what lies behind the old end is the new cluster. */
  lemma InNewCluster(g: Layout, fat: seq<nat>, sclust: nat, j: nat, c: nat, s: nat, ncl: nat, i: nat)
    requires g.csize > 0 && |fat| == g.nFatent <= MaxEntries(g.fsType)
    requires Place(g, fat, sclust, j) == Spot(c, s) && c != 0 && c < |fat| && fat[c] >= |fat|
    requires 2 <= ncl < |fat| && fat[ncl] == 0 && OpenFile.PlaceOf(g, j + 1) == 0 && i > j
    requires Place(g, Grown(g, fat, c, ncl), sclust, i).Spot?
    ensures var p := Place(g, Grown(g, fat, c, ncl), sclust, i).sect;
      ClusterBase(g, ncl) <= p < ClusterBase(g, ncl) + g.csize
  {
    var fat', c0, k := Grown(g, fat, c, ncl), FirstCluster(g, sclust), j / g.csize;
    NextPlace(j, g.csize);
    DivOrder(j + 1, i, g.csize);
    FollowGrown(g, fat, c0, k, c, ncl, k);
    assert Follow(fat', c0, k + 1) == ncl && Follow(fat', c0, k + 2) == 0;
    if i / g.csize > k + 1 { StaysBroken(fat', c0, k + 2, i / g.csize); }
  }

  /** A block of free entries in a kept directory is one still. */
  lemma StillFree(g: Layout, s: Snap, s': Snap, sclust: nat, lo: int, hi: nat)
    requires g.csize > 0 && Kept(g, s, s', sclust) && FreeBlock(g, s.fat, s.img, sclust, lo, hi)
    ensures FreeBlock(g, s'.fat, s'.img, sclust, lo, hi)
  {
    var fat, img, fat', img' := s.fat, s.img, s'.fat, s'.img;
    forall i: nat | Place(g, fat, sclust, i / 16).Spot?
      ensures Place(g, fat', sclust, i / 16).Spot?
      ensures FreeEntry(g, fat', img', sclust, i) <==> FreeEntry(g, fat, img, sclust, i)
    {
      assert SectorKept(g, fat, img, fat', img', sclust, i / 16);
    }
    forall i: nat | lo <= i < hi ensures FreeEntry(g, fat', img', sclust, i) {
      assert FreeEntry(g, fat, img, sclust, i);
    }
  }

  /** A directory sector of another cluster is not in cluster `ncl`. */
  lemma OtherCluster(g: Layout, fat: seq<nat>, sclust: nat, j: nat, ncl: nat)
    requires g.csize > 0 && Place(g, fat, sclust, j).Spot? && Place(g, fat, sclust, j).clust >= 2
    requires Place(g, fat, sclust, j).clust != ncl && ncl >= 2
    ensures var s := Place(g, fat, sclust, j).sect; !(ClusterBase(g, ncl) <= s < ClusterBase(g, ncl) + g.csize)
  {
    var p := Place(g, fat, sclust, j);
    if ClusterBase(g, ncl) <= p.sect < ClusterBase(g, ncl) + g.csize {
      SectorsApart(g, p.clust, ncl, j % g.csize, p.sect - ClusterBase(g, ncl));
    }
  }
}
