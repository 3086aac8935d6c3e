/** Cluster allocation: remove_chain, create_chain and the free-cluster count. */
module Allocator {
  import opened Bytes
  import opened Geometry
  import opened FatEntries
  import opened Volume
  import opened Chains

  /** The entry value that put_fat(0xFFFFFFFF) leaves behind: it reads back as the end of a chain,
      never as a link, and never as a failed read. */
  function EndMark(g: Layout): (v: nat)
    ensures v == Cut(g.fsType, 0xFFFF_FFFF) < 0xFFFF_FFFF
    ensures g.nFatent <= MaxEntries(g.fsType) ==> v >= g.nFatent
  {
    match g.fsType
    case FAT12 => 0xFFF
    case FAT16 => 0xFFFF
    case FAT32 => 0xFFF_FFFF
  }

  /** free_clst is unknown (out of range) or exact. */
  ghost predicate FreeKnown(fs: FatFs)
    reads fs`fat, fs`freeClst
    requires |fs.fat| >= 2
  {
    fs.freeClst > |fs.fat| - 2 || fs.freeClst == FreeCount(fs.fat)
  }

  /** The table with the previous cluster of a removed chain made the end. */
  ghost function Ended(g: Layout, fat: seq<nat>, pclst: nat): seq<nat>
    requires pclst < |fat|
  {
    if pclst == 0 then fat else fat[pclst := EndMark(g)]
  }

  /** A put_fat inside the table, with its effect on the number of free clusters. */
  method SetEntry(fs: FatFs, c: nat, val: nat)
    requires fs.Valid() && 2 <= c < fs.g.nFatent
    modifies fs`disk, fs`wflag, fs`winsect, fs`img, fs`fat, fs.win
    ensures fs.Valid() && InFat(fs.g, fs.winsect)
    ensures SameOutsideFat(fs.g, old(fs.img), fs.img)
    ensures fs.fat == old(fs.fat)[c := Cut(fs.g.fsType, val)]
    ensures FreeCount(fs.fat) == old(FreeCount(fs.fat))
              + (if Cut(fs.g.fsType, val) == 0 then 1 else 0) - (if old(fs.fat[c]) == 0 then 1 else 0)
  {
    hide FatFs.Valid, InBytes;
    FreeInUpdate(fs.fat, 2, |fs.fat|, c, Cut(fs.g.fsType, val));
    var ok := PutFat(fs, c, val);
  }

  /** One turn of remove_chain's loop: free one cluster and count it. */
  method FreeOne(fs: FatFs, c: nat)
    requires fs.Valid() && 2 <= c < fs.g.nFatent && fs.fat[c] >= 2
    modifies fs`disk, fs`wflag, fs`winsect, fs`img, fs`fat, fs`freeClst, fs`fsiFlag, fs.win
    ensures fs.Valid() && InFat(fs.g, fs.winsect)
    ensures fs.fat == old(fs.fat)[c := 0]
    ensures SameOutsideFat(fs.g, old(fs.img), fs.img)
    ensures FreeCount(fs.fat) == old(FreeCount(fs.fat)) + 1
    ensures fs.freeClst == if old(fs.freeClst) < fs.g.nFatent - 2 then old(fs.freeClst) + 1 else old(fs.freeClst)
    ensures old(FreeKnown(fs)) ==> FreeKnown(fs)
  {
    hide FatFs.Valid;
    SetEntry(fs, c, 0);
    if fs.freeClst < fs.g.nFatent - 2 {
      fs.freeClst := fs.freeClst + 1;
      fs.fsiFlag := true;
    }
  }

  /** remove_chain's loop, on any table contents; false on an invalid entry. */
  method FreeFrom(fs: FatFs, clst: nat) returns (ok: bool)
    requires fs.Valid() && 2 <= clst < fs.g.nFatent
    modifies fs`disk, fs`wflag, fs`winsect, fs`img, fs`fat, fs`freeClst, fs`fsiFlag, fs.win
    ensures fs.Valid() && InFat(fs.g, fs.winsect)
    ensures SameOutsideFat(fs.g, old(fs.img), fs.img)
    ensures (fs.fat, ok) == Freed(old(fs.fat), clst)
    ensures old(FreeKnown(fs)) ==> FreeKnown(fs)
  {
    hide FatFs.Valid, InBytes;
    var c := clst;
    while true
      invariant fs.Valid() && 2 <= c < fs.g.nFatent
      invariant SameOutsideFat(fs.g, old(fs.img), fs.img)
      invariant old(FreeKnown(fs)) ==> FreeKnown(fs)
      invariant Freed(old(fs.fat), clst) == Freed(fs.fat, c)
      decreases |fs.fat| - FreeCount(fs.fat)
    {
      var nxt := GetFat(fs, c);
      if nxt == 0 {
        return true;
      }
      if nxt == 1 {
        return false;
      }
      FreeOne(fs, c);
      if nxt >= fs.g.nFatent {
        return true;
      }
      c := nxt;
    }
  }

  /** remove_chain */
  method RemoveChain(fs: FatFs, clst: nat, pclst: nat) returns (res: FResult)
    requires fs.Valid()
    modifies fs`disk, fs`wflag, fs`winsect, fs`img, fs`fat, fs`freeClst, fs`fsiFlag, fs.win
    ensures fs.Valid()
    ensures SameOutsideFat(fs.g, old(fs.img), fs.img)
    ensures !(2 <= clst < fs.g.nFatent && (pclst == 0 || 2 <= pclst < fs.g.nFatent)) ==>
              res == FR_INT_ERR && fs.fat == old(fs.fat) && fs.winsect == old(fs.winsect)
    ensures 2 <= clst < fs.g.nFatent && (pclst == 0 || 2 <= pclst < fs.g.nFatent) ==>
              && InFat(fs.g, fs.winsect)
              && (fs.fat, res == FR_OK) == Freed(Ended(fs.g, old(fs.fat), pclst), clst)
              && (res == FR_OK || res == FR_INT_ERR)
    ensures old(FreeKnown(fs)) && (2 <= pclst < fs.g.nFatent ==> old(fs.fat[pclst]) != 0) ==> FreeKnown(fs)
  {
    hide FatFs.Valid;
    if clst < 2 || clst >= fs.g.nFatent {
      return FR_INT_ERR;
    }
    if pclst != 0 {
      if pclst < 2 || pclst >= fs.g.nFatent {
        return FR_INT_ERR;
      }
      SetEntry(fs, pclst, 0xFFFF_FFFF);
    }
    var ok := FreeFrom(fs, clst);
    return if ok then FR_OK else FR_INT_ERR;
  }

  /** Is `c` passed on the way from `s` to `r`, going up and around? */
  predicate Between(s: nat, c: nat, r: nat) {
    if s < r then s < c < r else c > s || c < r
  }

  /** Every cluster passed on the way from `s` to `r` is in use. */
  ghost predicate Skipped(fat: seq<nat>, s: nat, r: nat) {
    forall c :: 2 <= c < |fat| && Between(s, c, r) ==> fat[c] >= 2
  }

  ghost predicate AllUsed(fat: seq<nat>) {
    forall c :: 2 <= c < |fat| ==> fat[c] >= 2
  }

  /** The search has passed everything from `s` up to and including `c`. */
  ghost predicate Passed(fat: seq<nat>, s: nat, c: nat, wrapped: bool) {
    forall x :: 2 <= x < |fat| && (if wrapped then x > s || x <= c else s < x <= c) ==> fat[x] >= 2
  }

  /** create_chain's search loop: 0 when all are in use, 1 when it meets an invalid entry first. */
  method FindFree(fs: FatFs, scl: nat) returns (ncl: nat)
    requires fs.Valid() && 1 <= scl < fs.g.nFatent
    modifies fs`disk, fs`wflag, fs`winsect, fs.win
    ensures fs.Valid() && InFat(fs.g, fs.winsect)
    ensures ncl == 0 ==> AllUsed(fs.fat)
    ensures ncl == 1 ==> exists x :: 2 <= x < fs.g.nFatent && fs.fat[x] == 1 && Skipped(fs.fat, scl, x)
    ensures ncl >= 2 ==> ncl < fs.g.nFatent && fs.fat[ncl] == 0 && Skipped(fs.fat, scl, ncl)
  {
    hide FatFs.Valid, InBytes;
    ncl := scl;
    ghost var wrapped := false;
    while true
      invariant fs.Valid() && (ncl == scl || InFat(fs.g, fs.winsect))
      invariant if wrapped then 2 <= ncl < scl else scl <= ncl < fs.g.nFatent
      invariant Passed(fs.fat, scl, ncl, wrapped)
      decreases !wrapped, fs.g.nFatent - ncl
    {
      ncl := ncl + 1;
      if ncl >= fs.g.nFatent {
        ncl := 2;
        wrapped := true;
        if ncl > scl {
          return 0;
        }
      }
      var cs := GetFat(fs, ncl);
      if cs == 0 {
        return ncl;
      }
      if cs == 1 {
        return 1;
      }
      if ncl == scl {
        return 0;
      }
    }
  }

  /** Where create_chain's search begins. */
  function StartPoint(n: nat, last: nat, clst: nat): nat {
    if clst == 0 then (if last == 0 || last >= n then 1 else last)
    else if 2 <= last < n then last
    else clst
  }

  /** The cluster after `c`, around the end of the volume. */
  function Successor(n: nat, c: nat): nat {
    if c + 1 >= n then 2 else c + 1
  }

  /** Which free cluster create_chain must take: the neighbour if it is free, else the first one
      found from the start point. */
  ghost predicate Chosen(fat: seq<nat>, last: nat, clst: nat, r: nat)
    requires |fat| >= 3 && clst < |fat|
  {
    && 2 <= r < |fat| && fat[r] == 0
    && if clst != 0 && fat[Successor(|fat|, clst)] == 0
       then r == Successor(|fat|, clst)
       else Skipped(fat, StartPoint(|fat|, last, clst), r)
  }

  ghost predicate SomeInvalid(fat: seq<nat>) {
    exists x :: 2 <= x < |fat| && fat[x] == 1
  }

  /** create_chain may refuse: the count says so, or no entry is free. */
  ghost predicate Full(fs: FatFs)
    reads fs`fat, fs`freeClst
  {
    fs.freeClst == 0 || AllUsed(fs.fat)
  }

  /** The part of create_chain that finds a cluster. */
  method Choose(fs: FatFs, clst: nat) returns (ncl: nat)
    requires fs.Valid() && (clst == 0 || 2 <= clst < fs.g.nFatent)
    modifies fs`disk, fs`wflag, fs`winsect, fs.win
    ensures fs.Valid() && InFat(fs.g, fs.winsect)
    ensures ncl == 0 ==> AllUsed(fs.fat)
    ensures ncl == 1 ==> SomeInvalid(fs.fat)
    ensures ncl >= 2 ==> Chosen(fs.fat, fs.lastClst, clst, ncl)
  {
    hide FatFs.Valid, InBytes;
    var scl := clst;
    if clst == 0 {
      scl := if fs.lastClst == 0 || fs.lastClst >= fs.g.nFatent then 1 else fs.lastClst;
    } else {
      ncl := if scl + 1 >= fs.g.nFatent then 2 else scl + 1;
      var cs := GetFat(fs, ncl);
      if cs == 1 {
        return 1;
      }
      if cs == 0 {
        return ncl;
      }
      cs := fs.lastClst;
      if 2 <= cs < fs.g.nFatent {
        scl := cs;
      }
    }
    ncl := FindFree(fs, scl);
  }

  /** The table after cluster `ncl` was taken and linked behind `clst` (0: a new chain). */
  ghost function Grown(g: Layout, fat: seq<nat>, clst: nat, ncl: nat): seq<nat>
    requires clst < |fat| && ncl < |fat|
  {
    if clst == 0 then fat[ncl := EndMark(g)] else fat[ncl := EndMark(g)][clst := ncl]
  }

  /** The part of create_chain that takes the cluster. */
  method Take(fs: FatFs, clst: nat, ncl: nat)
    requires fs.Valid() && (clst == 0 || 2 <= clst < fs.g.nFatent)
    requires 2 <= ncl < fs.g.nFatent && fs.fat[ncl] == 0 && (clst != 0 ==> fs.fat[clst] != 0)
    requires fs.freeClst > 0
    modifies fs`disk, fs`wflag, fs`winsect, fs`img, fs`fat, fs`freeClst, fs`lastClst, fs`fsiFlag, fs.win
    ensures fs.Valid() && InFat(fs.g, fs.winsect)
    ensures SameOutsideFat(fs.g, old(fs.img), fs.img)
    ensures fs.fat == Grown(fs.g, old(fs.fat), clst, ncl)
    ensures fs.lastClst == ncl && fs.fsiFlag
    ensures fs.freeClst == if old(fs.freeClst) <= fs.g.nFatent - 2 then old(fs.freeClst) - 1 else old(fs.freeClst)
    ensures FreeCount(fs.fat) == FreeCount(old(fs.fat)) - 1
  {
    hide FatFs.Valid;
    SetEntry(fs, ncl, 0xFFFF_FFFF);
    if clst != 0 {
      SetEntry(fs, clst, ncl);
    }
    fs.lastClst := ncl;
    if fs.freeClst <= fs.g.nFatent - 2 {
      fs.freeClst := fs.freeClst - 1;
    }
    fs.fsiFlag := true;
  }

  /** create_chain: 0 no free cluster, 1 internal error, else the next or the new cluster. */
  method CreateChain(fs: FatFs, clst: nat) returns (r: nat)
    requires fs.Valid()
    modifies fs`disk, fs`wflag, fs`winsect, fs`img, fs`fat, fs`freeClst, fs`lastClst, fs`fsiFlag, fs.win
    ensures fs.Valid()
    ensures InFat(fs.g, fs.winsect) || fs.winsect == old(fs.winsect)
    ensures 2 <= clst < fs.g.nFatent || r >= 2 ==> InFat(fs.g, fs.winsect)
    ensures SameOutsideFat(fs.g, old(fs.img), fs.img)
    // a cluster outside the table, a free one or an invalid entry cannot be stretched
    ensures clst != 0 && (clst < 2 || clst >= fs.g.nFatent || old(fs.fat)[clst] < 2) ==> r == 1
    // a linked cluster is only followed
    ensures 2 <= clst < fs.g.nFatent && 2 <= old(fs.fat)[clst] < fs.g.nFatent ==> r == old(fs.fat)[clst]
    ensures Growing(fs.g, old(fs.fat), clst) ==>
              && (r == 0 ==> Full(fs))
              && (r == 1 ==> SomeInvalid(fs.fat))
              && (r >= 2 ==>
                    && old(fs.freeClst) != 0
                    && Chosen(old(fs.fat), old(fs.lastClst), clst, r)
                    && fs.fat == Grown(fs.g, old(fs.fat), clst, r)
                    && fs.lastClst == r && fs.fsiFlag)
    ensures !Growing(fs.g, old(fs.fat), clst) || r < 2 ==>
              fs.fat == old(fs.fat) && fs.img == old(fs.img) && fs.freeClst == old(fs.freeClst) &&
                fs.lastClst == old(fs.lastClst)
    ensures old(FreeKnown(fs)) ==> FreeKnown(fs)
  {
    hide FatFs.Valid, InBytes;
    if clst != 0 {
      var cs := GetFat(fs, clst);
      if cs < 2 {
        return 1;
      }
      if cs < fs.g.nFatent {
        return cs;
      }
    }
    if fs.freeClst == 0 {
      return 0;
    }
    r := Choose(fs, clst);
    if r >= 2 {
      Take(fs, clst, r);
    }
  }

  /** create_chain has to find a free cluster: a new chain, or the last cluster of one. */
  ghost predicate Growing(g: Layout, fat: seq<nat>, clst: nat) {
    clst == 0 || (2 <= clst < |fat| && fat[clst] >= |fat|)
  }

  /** Offset of entry `k` in its sector. */
  function OffsetIn(t: FsType, k: nat): nat {
    if t == FAT16 then 2 * (k % 256) else 4 * (k % 128)
  }

  /** Sector of entry `k`, counted from the start of the table. */
  function SectorOf(t: FsType, k: nat): nat {
    if t == FAT16 then k / 256 else k / 128
  }

  /** f_getfree, 12-bit table: ask for every entry; false on an invalid one. */
  method CountByEntry(fs: FatFs) returns (ok: bool, nfree: nat)
    requires fs.Valid()
    modifies fs`disk, fs`wflag, fs`winsect, fs.win
    ensures fs.Valid()
    ensures ok <==> !SomeInvalid(fs.fat)
    ensures ok ==> nfree == FreeCount(fs.fat)
  {
    hide FatFs.Valid, InBytes;
    nfree := 0;
    var clst := 2;
    while clst < fs.g.nFatent
      invariant fs.Valid() && 2 <= clst <= fs.g.nFatent
      invariant nfree == FreeIn(fs.fat, 2, clst)
      invariant forall x :: 2 <= x < clst ==> fs.fat[x] != 1
    {
      var stat := GetFat(fs, clst);
      if stat == 1 {
        return false, 0;
      }
      if stat == 0 {
        nfree := nfree + 1;
      }
      clst := clst + 1;
    }
    ok := true;
  }

  lemma NextOffset(t: FsType, k: nat)
    requires t != FAT12
    ensures OffsetIn(t, k + 1) == (OffsetIn(t, k) + EntryWidth(t)) % SS
    ensures SectorOf(t, k + 1) == SectorOf(t, k) + if OffsetIn(t, k + 1) == 0 then 1 else 0
  {
    match t
    case FAT16 => NextOffset16(k);
    case FAT32 => NextOffset32(k);
  }

  lemma NextOffset16(k: nat)
    ensures 2 * ((k + 1) % 256) == (2 * (k % 256) + 2) % SS
    ensures (k + 1) / 256 == k / 256 + if 2 * ((k + 1) % 256) == 0 then 1 else 0
  {
    var q, r := k / 256, k % 256;
    if r < 255 {
      At256(k + 1, q, r + 1);
    } else {
      At256(k + 1, q + 1, 0);
    }
  }

  lemma NextOffset32(k: nat)
    ensures 4 * ((k + 1) % 128) == (4 * (k % 128) + 4) % SS
    ensures (k + 1) / 128 == k / 128 + if 4 * ((k + 1) % 128) == 0 then 1 else 0
  {
    var q, r := k / 128, k % 128;
    if r < 127 {
      At128(k + 1, q, r + 1);
    } else {
      At128(k + 1, q + 1, 0);
    }
  }

  lemma At256(x: nat, q: nat, r: nat)
    requires x == 256 * q + r && r < 256
    ensures x / 256 == q && x % 256 == r
  {
  }

  lemma At128(x: nat, q: nat, r: nat)
    requires x == 128 * q + r && r < 128
    ensures x / 128 == q && x % 128 == r
  {
  }

  /** The sector scan of f_getfree stands before entry `k`. */
  ghost predicate Scanning(fs: FatFs, k: nat, sect: nat, i: nat)
    reads fs
  {
    var q := fs.g.fatbase + SectorOf(fs.g.fsType, k);
    && i == OffsetIn(fs.g.fsType, k)
    && if i == 0 then sect == q else sect == q + 1 && fs.winsect == q
  }

  /** One turn of the scan. */
  method ScanEntry(fs: FatFs, ghost k: nat, sect0: nat, i0: nat) returns (free: bool, sect: nat, i: nat)
    requires fs.Valid() && fs.g.fsType != FAT12 && k < fs.g.nFatent && Scanning(fs, k, sect0, i0)
    modifies fs`disk, fs`wflag, fs`winsect, fs.win
    ensures fs.Valid()
    ensures free <==> fs.fat[k] == 0
    ensures Scanning(fs, k + 1, sect, i)
  {
    sect, i := sect0, i0;
    NextOffset(fs.g.fsType, k);
    if i == 0 {
      fs.MoveWindow(sect);
      sect := sect + 1;
    }
    if fs.g.fsType == FAT16 {
      free := LdWord(fs.win[..], i) == 0;
      i := i + 2;
    } else {
      free := LdDword(fs.win[..], i) % 0x1000_0000 == 0;
      i := i + 4;
    }
    i := i % SS;
  }

  /** f_getfree, 16- and 28-bit tables: go through the sectors of the table. */
  method CountBySector(fs: FatFs) returns (nfree: nat)
    requires fs.Valid() && fs.g.fsType != FAT12
    modifies fs`disk, fs`wflag, fs`winsect, fs.win
    ensures fs.Valid()
    ensures nfree == FreeIn(fs.fat, 0, |fs.fat|)
  {
    hide FatFs.Valid;
    nfree := 0;
    var clst, sect, i := fs.g.nFatent, fs.g.fatbase, 0;
    ghost var k := 0;
    while clst > 0
      invariant fs.Valid()
      invariant k + clst == fs.g.nFatent == |fs.fat|
      invariant nfree == FreeIn(fs.fat, 0, k)
      invariant Scanning(fs, k, sect, i)
    {
      var free;
      free, sect, i := ScanEntry(fs, k, sect, i);
      k := k + 1;
      if free {
        nfree := nfree + 1;
      }
      clst := clst - 1;
    }
  }

  /** f_getfree */
  method GetFree(fs: FatFs) returns (res: FResult, nclst: nat)
    requires fs.Valid()
    modifies fs`disk, fs`wflag, fs`winsect, fs`freeClst, fs`fsiFlag, fs.win
    ensures fs.Valid()
    ensures old(fs.freeClst) <= fs.g.nFatent - 2 ==>
              res == FR_OK && nclst == old(fs.freeClst) == fs.freeClst
    ensures old(fs.freeClst) > fs.g.nFatent - 2 && res == FR_OK ==>
              && nclst == fs.freeClst && fs.fsiFlag
              && nclst == if fs.g.fsType == FAT12 then FreeCount(fs.fat) else FreeIn(fs.fat, 0, |fs.fat|)
    ensures res == FR_OK || (res == FR_INT_ERR && fs.g.fsType == FAT12 && SomeInvalid(fs.fat)
                             && fs.freeClst == old(fs.freeClst))
  {
    hide FatFs.Valid;
    if fs.freeClst <= fs.g.nFatent - 2 {
      return FR_OK, fs.freeClst;
    }
    if fs.g.fsType == FAT12 {
      var ok;
      ok, nclst := CountByEntry(fs);
      if !ok {
        return FR_INT_ERR, 0;
      }
    } else {
      nclst := CountBySector(fs);
    }
    fs.freeClst := nclst;
    fs.fsiFlag := true;
    res := FR_OK;
  }
}
