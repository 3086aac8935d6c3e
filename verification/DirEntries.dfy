/** Names in a directory on the volume: the entries behind the window, read, found and registered. */
module DirEntries {
  import opened Bytes
  import opened Geometry
  import opened FatEntries
  import opened Volume
  import opened Chains
  import opened ClusterMap
  import opened Allocator
  import opened DirWalk
  import opened LongName
  import opened NameTable
  import OpenFile

  /** Entry number e of a directory. */
  ghost function EntryAt(g: Layout, fat: seq<nat>, img: seq<Sector>, sclust: nat, e: nat): Entry
    requires g.csize > 0
  {
    match Place(g, fat, sclust, e / 16)
    case Nowhere => seq(32, _ => 0)
    case Spot(_, s) => if s < |img| then img[s][SZDIRE * (e % 16)..SZDIRE * (e % 16) + 32] else seq(32, _ => 0)
  }

  /** All entries of a directory, in the order of the walk. */
  ghost predicate IsTable(g: Layout, fat: seq<nat>, img: seq<Sector>, sclust: nat, t: seq<Entry>)
    requires g.csize > 0
  {
    && SZDIRE * |t| <= MAX_DIR
    && (forall e :: 0 <= e < |t| ==> Place(g, fat, sclust, e / 16).Spot? && t[e] == EntryAt(g, fat, img, sclust, e))
    && (SZDIRE * |t| < MAX_DIR ==> Place(g, fat, sclust, |t| / 16) == Nowhere)
  }

  /** The object stands in the table at entry number e. */
  ghost predicate Standing(d: DirObj, t: seq<Entry>, e: nat)
    reads d, d.fs`fat, d.fs`img
  {
    && d.Here() && IsTable(d.fs.g, d.fs.fat, d.fs.img, d.sclust, t)
    && e < |t| && d.dptr == SZDIRE * e
  }

  /** A directory on a valid volume. */
  ghost predicate Usable(d: DirObj)
    reads d.fs, d.fs.win
  {
    d.fs.Valid() && RootPlaced(d.fs.g) && WordSized(d.fs.g, d.sclust) && Roomy(d.fs.g, d.fs.total)
  }

  /** move_window and the entry at dp->dir. */
  method ReadHere(d: DirObj, ghost t: seq<Entry>, ghost e: nat) returns (dir: Entry)
    requires Usable(d) && Standing(d, t, e)
    modifies d.fs`disk, d.fs`wflag, d.fs`winsect, d.fs.win
    ensures Usable(d) && Standing(d, t, e) && dir == t[e]
    ensures Spared(d.fs.g, old(SnapOf(d.fs)), SnapOf(d.fs), d.sclust)
  {
    LookSpares(d);
    EntryHere(d, t, e);
    hide Spared, RootPlaced, Roomy, WordSized, Place, EntryAt, Mirrored, Table, Sound;
    d.fs.MoveWindow(d.sect);
    dir := d.fs.win[d.dptr % SS..d.dptr % SS + 32];
  }

  /** The entry is in the sector of the object. */
  lemma EntryHere(d: DirObj, t: seq<Entry>, e: nat)
    requires Usable(d) && Standing(d, t, e)
    ensures d.sect < |d.fs.disk| && !InMirror(d.fs.g, d.sect) && d.dptr % SS + 32 <= SS
    ensures t[e] == d.fs.img[d.sect][d.dptr % SS..d.dptr % SS + 32]
  {
    ValidFacts(d.fs);
    DirSector(d.fs.g, d.fs.fat, d.sclust, d.dptr / SS, d.fs.total);
    EntryPlace(d.dptr);
    hide Mirrored, Table, RootPlaced, Roomy;
  }

  /** To look at the entry changes nothing. */
  lemma LookSpares(d: DirObj)
    requires Usable(d) && d.Here()
    ensures Spared(d.fs.g, SnapOf(d.fs), SnapOf(d.fs).(win := d.sect), d.sclust)
  {
    hide Spared, Place;
    SparedWrite(d.fs.g, SnapOf(d.fs), SnapOf(d.fs).(win := d.sect), d.sclust, d.dptr / SS);
  }

  /** So does a move of the window to the tables. */
  twostate lemma QuietSpares(d: DirObj)
    requires old(Usable(d)) && d.TableKept()
    ensures Spared(d.fs.g, old(SnapOf(d.fs)), SnapOf(d.fs), d.sclust)
  {
    SparedQuiet(d.fs.g, old(SnapOf(d.fs)), SnapOf(d.fs), d.sclust);
  }

  /** dir_next without stretching: the next entry of the table, or its end. */
  method NextHere(d: DirObj, ghost t: seq<Entry>, ghost e: nat) returns (res: FResult)
    requires Usable(d) && Standing(d, t, e)
    modifies d, d.fs`disk, d.fs`wflag, d.fs`winsect, d.fs`img, d.fs`fat, d.fs`freeClst, d.fs`lastClst, d.fs`fsiFlag
    modifies d.fs.win
    ensures NextAnswer(res, false)
    ensures Usable(d) && d.fs.fat == old(d.fs.fat) && d.fs.img == old(d.fs.img)
    ensures res == FR_OK <==> e + 1 < |t|
    ensures res == FR_OK ==> Standing(d, t, e + 1)
    ensures res == FR_INT_ERR ==> !DirChain(d.fs.g, d.fs.fat, d.sclust)
    ensures Spared(d.fs.g, old(SnapOf(d.fs)), SnapOf(d.fs), d.sclust)
  {
    hide FatFs.Valid, RootPlaced, Place, Roomy, EntryAt, Spared, FatFs.WindowStays, DirChain, Usable, WordSized,
      IsTable, Standing, DirObj.Stretched, OpenFile.Honest, Full, SomeInvalid, SnapOf;
    BeforeNext(d, t, e);
    res := d.DirNext(false);
    QuietSpares(d);
    UsableFrom(d);
    if res == FR_OK { NowStanding(d, t, e); }
  }

  lemma BeforeNext(d: DirObj, t: seq<Entry>, e: nat)
    requires Usable(d) && Standing(d, t, e)
    ensures d.fs.Valid() && RootPlaced(d.fs.g) && WordSized(d.fs.g, d.sclust) && Roomy(d.fs.g, d.fs.total)
    ensures d.Here() && d.sect != 0 && d.fs.g.csize > 0 && IsTable(d.fs.g, d.fs.fat, d.fs.img, d.sclust, t)
    ensures d.dptr == SZDIRE * e && SZDIRE * (e + 1) == d.dptr + SZDIRE
    ensures e + 1 < |t| <==>
      d.dptr + SZDIRE < MAX_DIR && Place(d.fs.g, d.fs.fat, d.sclust, (d.dptr + SZDIRE) / SS).Spot?
    ensures d.dptr + SZDIRE >= MAX_DIR ==> e + 1 >= |t|
    ensures 2 <= d.clust < |d.fs.fat| && d.fs.fat[d.clust] < 2 ==> !DirChain(d.fs.g, d.fs.fat, d.sclust)
  {
    d.HereSector();
    NextInTable(d.fs.g, d.fs.fat, d.fs.img, d.sclust, t, e);
    if 2 <= d.clust < |d.fs.fat| && d.fs.fat[d.clust] < 2 {
      ChainBroken(d.fs.g, d.fs.fat, d.sclust, d.dptr / SS);
    }
    hide *;
  }

  lemma UsableFrom(d: DirObj)
    requires d.fs.Valid() && RootPlaced(d.fs.g) && WordSized(d.fs.g, d.sclust) && Roomy(d.fs.g, d.fs.total)
    ensures Usable(d)
  {
  }

  lemma NowStanding(d: DirObj, t: seq<Entry>, e: nat)
    requires d.Here() && d.dptr == SZDIRE * (e + 1) && IsTable(d.fs.g, d.fs.fat, d.fs.img, d.sclust, t) && e + 1 < |t|
    ensures Standing(d, t, e + 1)
  {
  }

  lemma NextInTable(g: Layout, fat: seq<nat>, img: seq<Sector>, sclust: nat, t: seq<Entry>, e: nat)
    requires g.csize > 0 && IsTable(g, fat, img, sclust, t) && e < |t|
    ensures e + 1 < |t| <==> SZDIRE * e + SZDIRE < MAX_DIR && Place(g, fat, sclust, (SZDIRE * e + SZDIRE) / SS).Spot?
  {
    assert (SZDIRE * e + SZDIRE) / SS == (e + 1) / 16;
  }

  lemma StandsAt(d: DirObj, t: seq<Entry>, e: nat)
    requires Standing(d, t, e)
    ensures e < |t| && EntryNumber(d.dptr) == e
  {
  }

  /** The state of dir_read before entry number `at`. */
  ghost predicate Reading(t: seq<Entry>, f: nat, name: seq<Wchar>, vol: bool, start: nat, at: nat,
                          ord: nat, sum: Byte, blk: nat, buf: seq<Wchar>) {
    && at < |t| && Unshown(t, vol, start, at) && Collected(t, start, at, ord, sum, blk, buf)
    && (!vol && start <= f && Registered(t, f, name) ==> Collecting(t, f, name, at, ord, sum, blk, buf))
  }

  /** One entry of dir_read: the end of the table, an object, or neither. */
  method ReadNext(lfnbuf: array<Wchar>, e: Entry, vol: bool, j: nat, ord0: nat, sum0: Byte, blk0: nat,
                  ghost t: seq<Entry>, ghost f: nat, ghost name: seq<Wchar>, ghost start: nat)
    returns (end: bool, shown: bool, ord: nat, sum: Byte, blk: nat)
    requires lfnbuf.Length == MAX_LFN + 1 && j < |t| && e == t[j]
    requires Reading(t, f, name, vol, start, j, ord0, sum0, blk0, lfnbuf[..])
    modifies lfnbuf
    ensures end ==> !shown
    ensures end || shown ==> ReadAnswer(t, f, name, vol, start, j, shown, blk, lfnbuf[..])
    ensures !end && !shown && j + 1 < |t| ==> Reading(t, f, name, vol, start, j + 1, ord, sum, blk, lfnbuf[..])
    ensures !end && !shown && j + 1 == |t| ==> ReadAnswer(t, f, name, vol, start, j + 1, false, blk, lfnbuf[..])
  {
    hide IsPart, Holds, Registered, Collecting, PartCount, Shown, Collected, PartRun, Checksum;
    end, shown, ord, sum, blk := e[0] == 0, false, ord0, sum0, blk0;
    if !end {
      ghost var tracked := !vol && start <= f && Registered(t, f, name);
      shown, ord, sum, blk := ReadOne(lfnbuf, e, vol, j, ord, sum, blk, t, start, f, name, tracked);
    }
  }

  /** Since `start` the directory has only been looked at. */
  ghost predicate Looked(d: DirObj, start: Snap)
    reads d.fs, d.fs.win
  {
    Usable(d) && d.fs.fat == start.fat && d.fs.img == start.img && Spared(d.fs.g, start, SnapOf(d.fs), d.sclust)
  }

  /** dir_read: `blk` is the number of the first entry of the long name (blk_ofs / 32), or NO_LFN. */
  method DirRead(d: DirObj, vol: bool, lfnbuf: array<Wchar>, blk0: nat,
                 ghost t: seq<Entry>, ghost start: nat, ghost f: nat, ghost name: seq<Wchar>)
    returns (res: FResult, blk: nat, ghost at: nat)
    requires Usable(d) && lfnbuf.Length == MAX_LFN + 1 && Standing(d, t, start)
    modifies d, d.fs`disk, d.fs`wflag, d.fs`winsect, d.fs`img, d.fs`fat, d.fs`freeClst, d.fs`lastClst, d.fs`fsiFlag
    modifies d.fs.win, lfnbuf
    ensures Looked(d, old(SnapOf(d.fs)))
    ensures res == FR_OK ==> Standing(d, t, at)
    ensures NextAnswer(res, false) && (res != FR_OK ==> d.sect == 0)
    ensures ReadAnswer(t, f, name, vol, start, at, res == FR_OK, blk, lfnbuf[..])
    ensures res == FR_INT_ERR ==> !DirChain(d.fs.g, d.fs.fat, d.sclust)
  {
    hide *;
    var c := Collect(0xFF, 0xFF, blk0);
    at := start;
    ReadStarts(d, t, f, name, vol, start, blk0, lfnbuf[..]);
    var done := false;
    while true
      invariant Looked(d, old(SnapOf(d.fs))) && Standing(d, t, at) && at < |t|
      invariant Reading(t, f, name, vol, start, at, c.ord, c.sum, c.blk, lfnbuf[..])
      decreases |t| - at
    {
      res, done, c, at := ReadTurn(d, vol, lfnbuf, c, t, start, f, name, at, old(SnapOf(d.fs)));
      if done { break; }
    }
    blk := c.blk;
    LookedIs(d);
    if res != FR_OK { d.sect := 0; }
  }

  /** The variables of dir_read's loop. */
  datatype Collect = Collect(ord: nat, sum: Byte, blk: nat)

  lemma ReadStarts(d: DirObj, t: seq<Entry>, f: nat, name: seq<Wchar>, vol: bool, start: nat, blk: nat, buf: seq<Wchar>)
    requires Usable(d) && Standing(d, t, start)
    ensures Looked(d, SnapOf(d.fs)) && start < |t| && Reading(t, f, name, vol, start, start, 0xFF, 0xFF, blk, buf)
  {
    SparedQuiet(d.fs.g, SnapOf(d.fs), SnapOf(d.fs), d.sclust);
    BeforeStart(t, f, name, start, 0xFF, 0xFF, blk, buf);
  }

  twostate lemma LookedIs(d: DirObj)
    requires Looked(d, old(SnapOf(d.fs)))
    ensures Usable(d) && d.fs.fat == old(d.fs.fat) && d.fs.img == old(d.fs.img)
    ensures Spared(d.fs.g, old(SnapOf(d.fs)), SnapOf(d.fs), d.sclust)
  {
  }

  lemma LookedSince(d: DirObj, start: Snap)
    requires Looked(d, start)
    ensures Usable(d) && d.fs.fat == start.fat && d.fs.img == start.img && Spared(d.fs.g, start, SnapOf(d.fs), d.sclust)
  {
  }

  /** One turn of dir_read's loop. */
  method ReadTurn(d: DirObj, vol: bool, lfnbuf: array<Wchar>, c0: Collect, ghost t: seq<Entry>, ghost start: nat,
                  ghost f: nat, ghost name: seq<Wchar>, ghost at0: nat, ghost before: Snap)
    returns (res: FResult, done: bool, c: Collect, ghost at: nat)
    requires Looked(d, before) && lfnbuf.Length == MAX_LFN + 1 && Standing(d, t, at0)
    requires at0 < |t| && Reading(t, f, name, vol, start, at0, c0.ord, c0.sum, c0.blk, lfnbuf[..])
    modifies d, d.fs`disk, d.fs`wflag, d.fs`winsect, d.fs`img, d.fs`fat, d.fs`freeClst, d.fs`lastClst, d.fs`fsiFlag
    modifies d.fs.win, lfnbuf
    ensures Looked(d, before) && NextAnswer(res, false)
    ensures res == FR_INT_ERR ==> !DirChain(d.fs.g, before.fat, d.sclust)
    ensures done ==> ReadAnswer(t, f, name, vol, start, at, res == FR_OK, c.blk, lfnbuf[..])
    ensures res == FR_OK ==> Standing(d, t, at)
    ensures !done ==>
      res == FR_OK && at0 < at < |t| && Reading(t, f, name, vol, start, at, c.ord, c.sum, c.blk, lfnbuf[..])
  {
    hide *;
    var dir := LookAt(d, t, at0, before);
    StandsAt(d, t, at0);
    var end, shown, ord, sum, blk :=
      ReadNext(lfnbuf, dir, vol, EntryNumber(d.dptr), c0.ord, c0.sum, c0.blk, t, f, name, start);
    c := Collect(ord, sum, blk);
    if shown { return Answered(), true, c, at0; }
    if end { return Ended(), true, c, at0; }
    res := MoveOn(d, t, at0, before);
    return res, res != FR_OK, c, at0 + 1;
  }

  function Answered(): (r: FResult)
    ensures r == FR_OK && NextAnswer(r, false)
  {
    FR_OK
  }

  function Ended(): (r: FResult)
    ensures r == FR_NO_FILE && NextAnswer(r, false)
  {
    FR_NO_FILE
  }

  method LookAt(d: DirObj, ghost t: seq<Entry>, ghost e: nat, ghost before: Snap) returns (dir: Entry)
    requires Looked(d, before) && Standing(d, t, e)
    modifies d.fs`disk, d.fs`wflag, d.fs`winsect, d.fs.win
    ensures Looked(d, before) && Standing(d, t, e) && dir == t[e]
  {
    ghost var mid := SnapOf(d.fs);
    hide Usable, Standing, Spared;
    dir := ReadHere(d, t, e);
    SparedTrans(d.fs.g, before, mid, SnapOf(d.fs), d.sclust);
  }

  method MoveOn(d: DirObj, ghost t: seq<Entry>, ghost e: nat, ghost before: Snap) returns (res: FResult)
    requires Looked(d, before) && Standing(d, t, e)
    modifies d, d.fs`disk, d.fs`wflag, d.fs`winsect, d.fs`img, d.fs`fat, d.fs`freeClst, d.fs`lastClst, d.fs`fsiFlag
    modifies d.fs.win
    ensures Looked(d, before) && NextAnswer(res, false)
    ensures if res == FR_OK then e + 1 < |t| && Standing(d, t, e + 1) else e + 1 == |t|
    ensures res == FR_INT_ERR ==> !DirChain(d.fs.g, before.fat, d.sclust)
  {
    StandsAt(d, t, e);
    ghost var mid := SnapOf(d.fs);
    hide Usable, Standing, Spared, NextAnswer, DirChain;
    res := NextHere(d, t, e);
    SparedTrans(d.fs.g, before, mid, SnapOf(d.fs), d.sclust);
  }

  /** The state of the search before entry number `at`. */
  ghost predicate Finding(t: seq<Entry>, w: Wanted, up: Wchar -> Wchar, at: nat, m: Match)
    requires Proper(w)
  {
    at < |t| && NotBefore(t, w, up, at) && m == MatchAt(t, w, up, at)
  }

  /** One entry of the search: the end of the table, a hit, or neither. */
  method FindHere(e: Entry, w: Wanted, up: Wchar -> Wchar, j: nat, m0: Match, ghost t: seq<Entry>)
    returns (end: bool, hit: bool, m: Match)
    requires Proper(w) && j < |t| && e == t[j] && Finding(t, w, up, j, m0)
    ensures end ==> !hit
    ensures end || hit ==> FoundAt(t, w, up, j, hit) && m == MatchAt(t, w, up, j)
    ensures !end && !hit && j + 1 < |t| ==> Finding(t, w, up, j + 1, m)
    ensures !end && !hit && j + 1 == |t| ==> FoundAt(t, w, up, j + 1, false)
  {
    hide Hit, MatchStep;
    end, hit, m := e[0] == 0, false, m0;
    if !end {
      hit, m := FindOne(w, e, up, j, m);
    }
  }

  /** dir_find: `blk` is the number of the first entry of the long name (blk_ofs / 32), or NO_LFN. */
  method DirFind(d: DirObj, w: Wanted, up: Wchar -> Wchar, ghost t: seq<Entry>)
    returns (res: FResult, blk: nat, ghost at: nat)
    requires Usable(d) && d.fs.g.csize > 0 && IsTable(d.fs.g, d.fs.fat, d.fs.img, d.sclust, t) && Proper(w)
    modifies d, d.fs`disk, d.fs`wflag, d.fs`winsect, d.fs`img, d.fs`fat, d.fs`freeClst, d.fs`lastClst, d.fs`fsiFlag
    modifies d.fs.win
    ensures Looked(d, old(SnapOf(d.fs)))
    ensures res == FR_OK ==> Standing(d, t, at) && blk == MatchAt(t, w, up, at).blk
    ensures FoundAt(t, w, up, at, res == FR_OK) && NextAnswer(res, false)
    ensures res == FR_INT_ERR ==> t == [] || !DirChain(d.fs.g, d.fs.fat, d.sclust)
  {
    hide *;
    var m := NoMatch(0xFF);
    at := 0;
    SnapIs(d.fs);
    res := Rewound(d, t);
    FindStart(t, w, up);
    if res != FR_OK { return res, m.blk, at; }
    var done := false;
    while true
      invariant Looked(d, old(SnapOf(d.fs))) && Standing(d, t, at) && at < |t| && Finding(t, w, up, at, m)
      decreases |t| - at
    {
      res, done, m, at := FindTurn(d, w, up, m, t, at, old(SnapOf(d.fs)));
      if done { break; }
    }
    blk := m.blk;
    LookedIs(d);
  }

  /** dir_sdi(0) */
  method Rewound(d: DirObj, ghost t: seq<Entry>) returns (res: FResult)
    requires Usable(d) && d.fs.g.csize > 0 && IsTable(d.fs.g, d.fs.fat, d.fs.img, d.sclust, t)
    modifies d, d.fs`disk, d.fs`wflag, d.fs`winsect, d.fs.win
    ensures Looked(d, old(SnapOf(d.fs))) && NextAnswer(res, false)
    ensures if res == FR_OK then t != [] && Standing(d, t, 0) else t == []
  {
    FirstEntry(d.fs.g, d.fs.fat, d.fs.img, d.sclust, t);
    hide FatFs.Valid, RootPlaced, Roomy, Place, IsTable, Spared, FatFs.WindowStays, Standing;
    res := d.DirSdi(0);
    QuietSpares(d);
    if res == FR_OK { FromStart(d, t); }
  }

  /** One turn of dir_find's loop. */
  method FindTurn(d: DirObj, w: Wanted, up: Wchar -> Wchar, m0: Match, ghost t: seq<Entry>, ghost at0: nat,
                  ghost before: Snap)
    returns (res: FResult, done: bool, m: Match, ghost at: nat)
    requires Proper(w) && Looked(d, before) && Standing(d, t, at0) && at0 < |t| && Finding(t, w, up, at0, m0)
    modifies d, d.fs`disk, d.fs`wflag, d.fs`winsect, d.fs`img, d.fs`fat, d.fs`freeClst, d.fs`lastClst, d.fs`fsiFlag
    modifies d.fs.win
    ensures Looked(d, before) && NextAnswer(res, false)
    ensures res == FR_INT_ERR ==> !DirChain(d.fs.g, before.fat, d.sclust)
    ensures res == FR_OK ==> Standing(d, t, at)
    ensures done ==> FoundAt(t, w, up, at, res == FR_OK) && (res == FR_OK ==> m == MatchAt(t, w, up, at))
    ensures !done ==> res == FR_OK && at0 < at < |t| && Finding(t, w, up, at, m)
  {
    hide *;
    var dir := LookAt(d, t, at0, before);
    StandsAt(d, t, at0);
    var end, hit;
    end, hit, m := FindHere(dir, w, up, EntryNumber(d.dptr), m0, t);
    if end { return Ended(), true, m, at0; }
    if hit { return Answered(), true, m, at0; }
    res := MoveOn(d, t, at0, before);
    return res, res != FR_OK, m, at0 + 1;
  }

  lemma FindStart(t: seq<Entry>, w: Wanted, up: Wchar -> Wchar)
    requires Proper(w)
    ensures if t != [] then Finding(t, w, up, 0, NoMatch(0xFF)) else FoundAt(t, w, up, 0, false)
  {
  }

  lemma FirstEntry(g: Layout, fat: seq<nat>, img: seq<Sector>, sclust: nat, t: seq<Entry>)
    requires g.csize > 0 && IsTable(g, fat, img, sclust, t)
    ensures 0 < MAX_DIR && 0 % SZDIRE == 0 && (Place(g, fat, sclust, 0 / SS).Spot? <==> t != [])
  {
    assert 0 / SS == 0 / 16;
  }

  lemma FromStart(d: DirObj, t: seq<Entry>)
    requires d.Here() && d.dptr == 0 && IsTable(d.fs.g, d.fs.fat, d.fs.img, d.sclust, t)
    ensures t != [] && Standing(d, t, 0)
  {
    assert 0 / SS == 0 / 16;
  }
}
