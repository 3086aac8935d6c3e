/** The filesystem object: one sector window, written back lazily, over a drive. */
module Volume {
  import opened Bytes
  import opened Geometry
  import opened FatEntries
  import opened FileData

  datatype FResult = FR_OK | FR_INT_ERR | FR_DENIED | FR_NO_FILE | FR_INVALID_NAME

  class FatFs {
    const g: Layout
    const total: nat             // sectors of the drive
    const win: array<Byte>       // win[]: the sector window
    var disk: seq<Sector>        // the sectors of the drive behind disk_read / disk_write
    var winsect: nat             // sector appearing in win
    var wflag: bool              // the window is dirty
    var lastClst: nat            // last_clst
    var freeClst: nat            // free_clst
    var fsiFlag: bool            // bit 0 of fsi_flag

    ghost const mounted: seq<Sector>  // the sectors at mount time
    ghost var img: seq<Sector>   // the volume as seen through the window
    ghost var fat: seq<nat>      // the allocation table, decoded

    /** The end of mount_volume: the boot sector in the window, and nothing known about free clusters. */
    constructor (g: Layout, disk: seq<Sector>, bsect: nat)
      requires Sound(g, |disk|) && bsect < |disk| && !InMirror(g, bsect)
      ensures Valid() && fresh(win) && this.g == g && total == |disk|
      ensures img == this.disk == disk && winsect == bsect && !wflag
      ensures lastClst == freeClst == 0xFFFF_FFFF && !fsiFlag
      ensures mounted == disk
    {
      this.g, this.total, this.disk := g, |disk|, disk;
      win := new Byte[SS](k requires 0 <= k < SS && bsect < |disk| => disk[bsect][k]);
      winsect, wflag := bsect, false;
      lastClst, freeClst, fsiFlag := 0xFFFF_FFFF, 0xFFFF_FFFF, false;
      img, fat, mounted := disk, Table(g, disk), disk;
    }

    ghost predicate Valid()
      reads this`disk, this`winsect, this`wflag, this`img, this`fat, win
      ensures Valid() ==> Sound(g, total) && |disk| == |img| == total && |fat| == g.nFatent && winsect < total
    {
      && Sound(g, total)
      && win.Length == SS
      && |disk| == |img| == |mounted| == total
      && winsect < total && !InMirror(g, winsect)
      && win[..] == img[winsect]
      && Mirrored(g, img, mounted)
      && (wflag && InFat(g, winsect) && g.nFats == 2 ==> img[winsect + g.fsize] == img[winsect])
      && (forall s :: 0 <= s < |disk| ==> disk[s] == img[s] || Pending(s))
      && fat == Table(g, img)
    }

    /** Sector `s` of the drive lags behind the dirty window. */
    ghost predicate Pending(s: int)
      reads this`wflag, this`winsect
    {
      wflag && (s == winsect || (InMirror(g, s) && s == winsect + g.fsize))
    }

    /** The window is where it was, or over the table. */
    twostate predicate WindowStays()
      reads this`winsect
    {
      winsect == old(winsect) || InFat(g, winsect)
    }

    /** sync_window */
    method SyncWindow()
      requires Valid()
      modifies this`disk, this`wflag
      ensures Valid()
      ensures !wflag && disk == img
    {
      if wflag {
        disk := disk[winsect := win[..]];
        wflag := false;
        Sub32Window(winsect, g.fatbase, g.fsize);
        assert InFat(g, winsect) || !InFat(g, winsect);
        if Sub32(winsect, g.fatbase) < g.fsize {
          if g.nFats == 2 {
            disk := disk[winsect + g.fsize := win[..]];
          }
        }
      }
    }

    /** move_window */
    method MoveWindow(sect: nat)
      requires Valid()
      requires sect < |disk| && !InMirror(g, sect)
      modifies this`disk, this`wflag, this`winsect, win
      ensures Valid()
      ensures winsect == sect
      ensures old(winsect) == sect ==> disk == old(disk) && wflag == old(wflag)
      ensures old(winsect) != sect ==> disk == img && !wflag
    {
      if sect != winsect {
        SyncWindow();
        forall k | 0 <= k < SS { win[k] := disk[sect][k]; }
        winsect := sect;
      }
    }

    /** disk_read of `n` sectors into the caller's memory. */
    method ReadDisk(sect: nat, n: nat) returns (d: seq<Byte>)
      requires sect + n <= |disk|
      ensures |d| == SS * n
      ensures forall k :: 0 <= k < SS * n ==> d[k] == disk[sect + k / SS][k % SS]
    {
      d := [];
      for i := 0 to n
        invariant |d| == SS * i
        invariant forall k :: 0 <= k < SS * i ==> d[k] == disk[sect + k / SS][k % SS]
      {
        d := d + disk[sect + i];
      }
    }

    /** disk_read from the data area, past the window. */
    method ReadData(sect: nat, n: nat) returns (d: seq<Byte>)
      requires Valid()
      requires g.database <= sect && sect + n <= total && !(sect <= winsect < sect + n)
      ensures |d| == SS * n
      ensures forall k :: 0 <= k < SS * n ==> d[k] == img[sect + k / SS][k % SS]
    {
      assert forall s :: sect <= s < sect + n ==> disk[s] == img[s];
      d := ReadDisk(sect, n);
    }

    /** disk_write of `n` sectors from the caller's memory. */
    method DiskWrite(sect: nat, n: nat, d: seq<Byte>)
      requires sect + n <= |disk| && |d| == SS * n
      modifies this`disk
      ensures disk == PutSectors(old(disk), sect, n, d)
    {
      for i := 0 to n
        invariant disk == PutSectors(old(disk), sect, i, d[..SS * i])
      {
        assert d[..SS * (i + 1)][..SS * i] == d[..SS * i];
        assert d[..SS * (i + 1)][SS * i..] == d[SS * i..SS * i + SS];
        disk := disk[sect + i := d[SS * i..SS * i + SS]];
      }
      assert d[..SS * n] == d;
    }

    /** disk_write into the data area, past the window. */
    method WriteData(sect: nat, n: nat, d: seq<Byte>)
      requires Valid() && |d| == SS * n
      requires g.database <= sect && sect + n <= |disk| && !(sect <= winsect < sect + n)
      modifies this`disk, this`img
      ensures Valid()
      ensures |disk| == old(|disk|)
      ensures img == PutSectors(old(img), sect, n, d)
    {
      DiskWrite(sect, n, d);
      ghost var img' := PutSectors(img, sect, n, d);
      DataFrame(g, img, img', mounted);
      img := img';
    }

    /** A store into the window followed by `wflag = 1`. */
    method StoreWin(off: nat, d: seq<Byte>)
      requires Valid() && off + |d| <= SS
      modifies this`wflag, this`img, this`fat, win
      ensures Valid() && wflag
      ensures img == WithSector(g, old(img), winsect, Splice(old(img)[winsect], off, d))
    {
      forall k | 0 <= k < |d| { win[off + k] := d[k]; }
      wflag := true;
      assert win[..] == Splice(old(win[..]), off, d);
      StoreMirrored(g, img, winsect, win[..], mounted);
      img := WithSector(g, img, winsect, win[..]);
      fat := Table(g, img);
    }
  }

  /** Every sector of the second table equals the first one's, unless both are what they were at mount time and differed
      then; and on the drive too, but for the one that is dirty in the window. */
  lemma CopiesAgree(fs: FatFs, s: nat)
    requires fs.Valid() && fs.g.nFats == 2 && InFat(fs.g, s)
    ensures s + fs.g.fsize < fs.total
    ensures fs.img[s + fs.g.fsize] != fs.img[s] ==>
      !fs.Pending(s) && fs.img[s] == fs.mounted[s] && fs.img[s + fs.g.fsize] == fs.mounted[s + fs.g.fsize]
    ensures !fs.Pending(s) ==> fs.disk[s + fs.g.fsize] == fs.img[s + fs.g.fsize] && fs.disk[s] == fs.img[s]
  {
    assert !InMirror(fs.g, s) && !InFat(fs.g, s + fs.g.fsize);
  }

  /** A store through the window makes both copies of a table sector equal, and no other ones differ. */
  lemma StoreMirrored(g: Layout, img: seq<Sector>, s: nat, d: Sector, mounted: seq<Sector>)
    requires Sound(g, |img|) && s < |img| == |mounted| && !InMirror(g, s) && Mirrored(g, img, mounted)
    ensures Mirrored(g, WithSector(g, img, s, d), mounted)
    ensures InFat(g, s) && g.nFats == 2 ==> s + g.fsize < |img| && WithSector(g, img, s, d)[s + g.fsize] == d
  {
    assert forall i: nat :: InFat(g, i) ==> !InMirror(g, i);
  }

  lemma Merge12(c: nat, b0: Byte, b1: Byte)
    ensures Decode12(c, b0, b1) ==
            if c % 2 == 1 then (b0 as nat + 256 * (b1 as nat)) / 16 else (b0 as nat + 256 * (b1 as nat)) % 0x1000
  {
  }

  /** get_fat on a 12-bit table: the two bytes may lie in two sectors. */
  method GetFat12(fs: FatFs, clst: nat) returns (val: nat)
    requires fs.Valid() && fs.g.fsType == FAT12 && 2 <= clst < fs.g.nFatent
    modifies fs`disk, fs`wflag, fs`winsect, fs.win
    ensures fs.Valid() && InFat(fs.g, fs.winsect)
    ensures val == fs.fat[clst]
  {
    var bc := clst + clst / 2;
    fs.MoveWindow(fs.g.fatbase + bc / SS);
    var wc: nat := fs.win[bc % SS];
    assert wc == FatByte(fs.g, fs.img, bc);
    bc := bc + 1;
    fs.MoveWindow(fs.g.fatbase + bc / SS);
    assert fs.win[bc % SS] == FatByte(fs.g, fs.img, bc);
    Merge12(clst, wc, fs.win[bc % SS]);
    wc := wc + 256 * (fs.win[bc % SS] as nat);
    val := if clst % 2 == 1 then wc / 16 else wc % 0x1000;
  }

  method GetFat16(fs: FatFs, clst: nat) returns (val: nat)
    requires fs.Valid() && fs.g.fsType == FAT16 && 2 <= clst < fs.g.nFatent
    modifies fs`disk, fs`wflag, fs`winsect, fs.win
    ensures fs.Valid() && InFat(fs.g, fs.winsect)
    ensures val == fs.fat[clst]
  {
    fs.MoveWindow(fs.g.fatbase + clst / (SS / 2));
    val := LdWord(fs.win[..], 2 * (clst % (SS / 2)));
  }

  method GetFat32(fs: FatFs, clst: nat) returns (val: nat)
    requires fs.Valid() && fs.g.fsType == FAT32 && 2 <= clst < fs.g.nFatent
    modifies fs`disk, fs`wflag, fs`winsect, fs.win
    ensures fs.Valid() && InFat(fs.g, fs.winsect)
    ensures val == fs.fat[clst]
  {
    fs.MoveWindow(fs.g.fatbase + clst / (SS / 4));
    val := LdDword(fs.win[..], 4 * (clst % (SS / 4))) % 0x1000_0000;
  }

  /** get_fat: 1 for a number outside the table. */
  method GetFat(fs: FatFs, clst: nat) returns (val: nat)
    requires fs.Valid()
    modifies fs`disk, fs`wflag, fs`winsect, fs.win
    ensures fs.Valid()
    ensures val == if 2 <= clst < fs.g.nFatent then fs.fat[clst] else 1
    ensures 2 <= clst < fs.g.nFatent ==> InBytes(fs.g, fs.img, clst, val)
    ensures if 2 <= clst < fs.g.nFatent then InFat(fs.g, fs.winsect) else fs.winsect == old(fs.winsect)
  {
    if clst < 2 || clst >= fs.g.nFatent {
      return 1;
    }
    match fs.g.fsType {
      case FAT12 => val := GetFat12(fs, clst);
      case FAT16 => val := GetFat16(fs, clst);
      case FAT32 => val := GetFat32(fs, clst);
    }
    EntryInBytes(fs.g, fs.img, clst);
  }

  /** One of the two byte updates of a 12-bit entry. */
  method PutByte12(fs: FatFs, bc: nat, clst: nat, val: nat, first: bool)
    requires fs.Valid() && bc < fs.g.fsize * SS
    modifies fs`disk, fs`wflag, fs`winsect, fs`img, fs`fat, fs.win
    ensures fs.Valid() && InFat(fs.g, fs.winsect)
    ensures Flat(fs.g, fs.img) == var t := old(Flat(fs.g, fs.img));
            t[bc := if first then First12(clst, val, t[bc]) else Second12(clst, val, t[bc])]
    ensures SameOutsideFat(fs.g, old(fs.img), fs.img)
  {
    hide Mirrored, Table;
    fs.MoveWindow(fs.g.fatbase + bc / SS);
    var p := fs.win[bc % SS];
    var b := if first then First12(clst, val, p) else Second12(clst, val, p);
    StoredByteFlat(fs.g, fs.img, bc, b);
    fs.StoreWin(bc % SS, [b]);
  }

  /** put_fat on a 12-bit table: half of one of the two bytes belongs to a neighbour. */
  method PutFat12(fs: FatFs, clst: nat, val: nat)
    requires fs.Valid() && fs.g.fsType == FAT12 && 2 <= clst < fs.g.nFatent
    modifies fs`disk, fs`wflag, fs`winsect, fs`img, fs`fat, fs.win
    ensures fs.Valid() && InFat(fs.g, fs.winsect)
    ensures fs.fat == old(fs.fat)[clst := val % 0x1000]
    ensures SameOutsideFat(fs.g, old(fs.img), fs.img) && OnlyEntry(fs.g, old(fs.img), fs.img, clst)
  {
    ghost var img0 := fs.img;
    var bc := clst + clst / 2;
    PutByte12(fs, bc, clst, val, true);
    bc := bc + 1;
    PutByte12(fs, bc, clst, val, false);
    Put12(fs.g, img0, fs.img, clst, val);
  }

  method PutFat16(fs: FatFs, clst: nat, val: nat)
    requires fs.Valid() && fs.g.fsType == FAT16 && 2 <= clst < fs.g.nFatent
    modifies fs`disk, fs`wflag, fs`winsect, fs`img, fs`fat, fs.win
    ensures fs.Valid() && InFat(fs.g, fs.winsect)
    ensures fs.fat == old(fs.fat)[clst := val % 0x1_0000]
    ensures SameOutsideFat(fs.g, old(fs.img), fs.img) && OnlyEntry(fs.g, old(fs.img), fs.img, clst)
  {
    hide Mirrored, Table, OnlyEntry, WordBytes;
    Put16(fs.g, fs.img, clst, val);
    fs.MoveWindow(fs.g.fatbase + clst / (SS / 2));
    fs.StoreWin(2 * (clst % (SS / 2)), WordBytes(val % 0x1_0000));
  }

  method PutFat32(fs: FatFs, clst: nat, val: nat)
    requires fs.Valid() && fs.g.fsType == FAT32 && 2 <= clst < fs.g.nFatent
    modifies fs`disk, fs`wflag, fs`winsect, fs`img, fs`fat, fs.win
    ensures fs.Valid() && InFat(fs.g, fs.winsect)
    ensures fs.fat == old(fs.fat)[clst := val % 0x1000_0000]
    ensures SameOutsideFat(fs.g, old(fs.img), fs.img) && OnlyEntry(fs.g, old(fs.img), fs.img, clst)
  {
    hide Mirrored, Table, OnlyEntry, DwordBytes, LdDword, Keep28;
    Put32(fs.g, fs.img, clst, val);
    fs.MoveWindow(fs.g.fatbase + clst / (SS / 4));
    var k := 4 * (clst % (SS / 4));
    fs.StoreWin(k, DwordBytes(Keep28(val, LdDword(fs.win[..], k))));
  }

  /** put_fat: FR_INT_ERR (false) for a number outside the table. */
  method PutFat(fs: FatFs, clst: nat, val: nat) returns (ok: bool)
    requires fs.Valid()
    modifies fs`disk, fs`wflag, fs`winsect, fs`img, fs`fat, fs.win
    ensures fs.Valid()
    ensures ok <==> 2 <= clst < fs.g.nFatent
    ensures fs.fat == if ok then old(fs.fat)[clst := Cut(fs.g.fsType, val)] else old(fs.fat)
    ensures SameOutsideFat(fs.g, old(fs.img), fs.img)
    ensures if ok then InFat(fs.g, fs.winsect) else fs.img == old(fs.img) && fs.winsect == old(fs.winsect)
    ensures ok ==> InBytes(fs.g, fs.img, clst, Cut(fs.g.fsType, val)) && OnlyEntry(fs.g, old(fs.img), fs.img, clst)
  {
    if 2 <= clst < fs.g.nFatent {
      match fs.g.fsType {
        case FAT12 => PutFat12(fs, clst, val);
        case FAT16 => PutFat16(fs, clst, val);
        case FAT32 => PutFat32(fs, clst, val);
      }
      EntryInBytes(fs.g, fs.img, clst);
      return true;
    }
    return false;
  }
}
