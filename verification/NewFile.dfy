/** A new object from its path to its listing: create_name, dir_register, dir_read and get_fileinfo together. */
module NewFile {
  import opened Bytes
  import opened Geometry
  import opened Volume
  import opened LongName
  import opened NameTable
  import opened DirWalk
  import opened DirEntries
  import opened Directory
  import opened DirRegister
  import opened Allocator
  import OpenFile
  import Utf8
  import ShortName
  import FileName
  import Listing

  /** The status byte as dir_register takes it. */
  function Flags(st: ShortName.Status): NameFlags {
    NameFlags(st.dot, st.loss, st.lfn, (if st.body then 0x08 else 0) + (if st.ext then 0x10 else 0))
  }

  /** Extended characters of the code page are no spaces and no dots. */
  predicate Letters(oem: Wchar -> Byte) {
    forall c: Wchar {:trigger oem(c)} :: c >= 0x80 ==> !ShortName.Dropped(oem(c))
  }

  lemma {:induction false} KeptStays(s: seq<Wchar>)
    ensures forall i :: 0 <= i < |ShortName.Kept(s)| ==> !ShortName.Dropped(ShortName.Kept(s)[i])
  {
    if s != [] { KeptStays(s[..|s| - 1]); }
  }

  /** The first byte of a short name marks no free entry, no deleted one and no dot entry. */
  lemma FirstByte(t: seq<Wchar>, oem: Wchar -> Byte)
    requires Letters(oem)
    ensures var b := ShortName.Basis(t, oem)[0]; b != 0 && b != DDEM && b != 0x2E
  {
    var body := ShortName.BodyOf(t);
    var k := ShortName.Kept(body);
    KeptStays(body);
    if k != [] {
      assert ShortName.Slot(body, 8, oem)[0] == ShortName.Short(k[0], oem);
    }
    hide ShortName.BodyOf, ShortName.Kept;
  }

  /** What create_name makes is what dir_register takes. */
  lemma MadeName(t: seq<Wchar>, r: FileName.Created, oem: Wchar -> Byte, buf: seq<Wchar>)
    requires FileName.MadeFrom(t, r, oem) && Listing.Sound(t) && Storable(t) && Letters(oem) && Holds(buf, t)
    ensures Created(r.fn, Flags(r.st), buf, t)
  {
    FirstByte(t, oem);
    hide ShortName.Basis, ShortName.Lossy, ShortName.Fits83, ShortName.HasLower, ShortName.BodyOf, ShortName.ExtOf,
      FileName.TextOf, ShortName.Trim, Letters, Storable;
  }

  /** The long name goes to the buffer. */
  method Fill(lfnbuf: array<Wchar>, lfn: seq<Wchar>)
    requires lfnbuf.Length == MAX_LFN + 1 && |lfn| <= MAX_LFN
    modifies lfnbuf
    ensures Holds(lfnbuf[..], lfn)
  {
    forall k | 0 <= k < |lfn| { lfnbuf[k] := lfn[k]; }
    lfnbuf[|lfn|] := 0;
    assert lfnbuf[..][..|lfn|] == lfn;
  }

  /** The name of the path can be stored. */
  ghost predicate StorablePath(str: seq<Byte>, p0: nat)
    requires FileName.Terminated(str) && p0 < |str|
  {
    FileName.Scan(str, p0).Scanned? ==> Storable(ShortName.Trim(FileName.Scan(str, p0).name))
  }

  /** A short name of full length, and a long one. */
  ghost predicate Named(r: FileName.Created)
    requires r.Created?
  {
    |r.fn| == 11 && IsName(r.lfn)
  }

  lemma NamedIs(r: FileName.Created)
    requires r.Created? && |r.fn| == 11 && IsName(r.lfn)
    ensures Named(r)
  {
  }

  /** An object made under a path, and read again: it is listed under its name, if that has a text that fits. */
  method CreateAndList(d: DirObj, str: seq<Byte>, p0: nat, lfnbuf: array<Wchar>, oem: Wchar -> Byte,
                       uni: Byte -> Wchar, up: Wchar -> Wchar, ghost t: seq<Entry>)
    returns (res: FResult, r: FileName.Created, fname: seq<Byte>, ghost t': seq<Entry>)
    requires InOrder(d, t) && lfnbuf.Length == MAX_LFN + 1
    requires FileName.Terminated(str) && p0 < |str| && FileName.CodePage(uni) && Letters(oem)
    requires StorablePath(str, p0)
    modifies d, d.fs`disk, d.fs`wflag, d.fs`winsect, d.fs`img, d.fs`fat, d.fs`freeClst, d.fs`lastClst, d.fs`fsiFlag
    modifies d.fs.win, lfnbuf
    ensures Usable(d) && Spared(d.fs.g, old(SnapOf(d.fs)), SnapOf(d.fs), d.sclust)
    ensures r == FileName.Invalid <==> FileName.NoName(FileName.Scan(str, p0))
    ensures r.Created? ==> FileName.NamedAs(FileName.Scan(str, p0).name, r, oem)
    ensures res == FR_INVALID_NAME <==> r == FileName.Invalid || r.st.dot
    ensures res != FR_OK ==> res == FR_INVALID_NAME || res == FR_DENIED || res == FR_INT_ERR
    ensures res == FR_DENIED ==> r.Created? && Named(r) && Refused(d, t, t', r.fn, Flags(r.st), r.lfn)
    ensures res == FR_INT_ERR ==> SomeInvalid(d.fs.fat) || t == []
    ensures old(OpenFile.Honest(d.fs)) ==> OpenFile.Honest(d.fs)
    ensures res == FR_OK ==> FileName.TextOf(r.lfn).Text?
    ensures res == FR_OK && (r.st.lfn ==> |FileName.TextOf(r.lfn).b| <= FileName.MAX_TEXT) ==>
      fname == FileName.TextOf(r.lfn).b
  {
    hide *;
    InOrderIs(d, t);
    d.AsBefore();
    QuietSpares(d);
    fname, t' := [], t;
    var p;
    r, p := FileName.CreateName(str, p0, oem);
    if r.Invalid? || r.st.dot {
      return FR_INVALID_NAME, r, fname, t';
    }
    Listing.NamedMeans(str, p0, r, oem);
    PathName(str, p0, r, oem);
    Fill(lfnbuf, r.lfn);
    MadeName(r.lfn, r, oem, lfnbuf[..]);
    var blk, dir;
    ghost var f;
    res, blk, dir, t', f := RegisterThenRead(d, r.fn, Flags(r.st), lfnbuf, up, t, r.lfn);
    NamedIs(r);
    if res == FR_OK {
      fname := ListNew(r, blk, dir, lfnbuf[..], oem, uni, t', f);
    }
  }

  lemma PathName(str: seq<Byte>, p0: nat, r: FileName.Created, oem: Wchar -> Byte)
    requires FileName.Terminated(str) && p0 < |str| && StorablePath(str, p0) && r.Created? && !r.st.dot
    requires !FileName.NoName(FileName.Scan(str, p0)) && FileName.NamedAs(FileName.Scan(str, p0).name, r, oem)
    requires Listing.Sound(r.lfn)
    ensures |r.lfn| <= MAX_LFN && Storable(r.lfn) && FileName.TextOf(r.lfn).Text?
  {
    hide FileName.Scan, FileName.TextOf, ShortName.Basis, ShortName.Lossy, ShortName.Fits83, ShortName.HasLower,
      ShortName.BodyOf, ShortName.ExtOf, Storable, ShortName.Trim;
  }

  /** get_fileinfo of the new entry. */
  method ListNew(r: FileName.Created, blk: nat, dir: Entry, buf: seq<Wchar>, ghost oem: Wchar -> Byte,
                 uni: Byte -> Wchar, ghost t': seq<Entry>, ghost f: nat)
    returns (fname: seq<Byte>)
    requires r.Created? && FileName.MadeFrom(r.lfn, r, oem) && Listing.Sound(r.lfn) && |r.fn| == 11
    requires FileName.CodePage(uni)
    requires ReadBack(t', f, r.lfn, r.fn, Flags(r.st), blk, dir, buf)
    ensures FileName.TextOf(r.lfn).Text?
    ensures (r.st.lfn ==> |FileName.TextOf(r.lfn).b| <= FileName.MAX_TEXT) ==> fname == FileName.TextOf(r.lfn).b
  {
    hide *;
    Listing.SoundText(r.lfn);
    BackAgain(r, oem, t', f, blk, dir, buf);
    NtFlags(r.st);
    var body, ext := dir[12] / 0x08 % 2 == 1, dir[12] / 0x10 % 2 == 1;
    fname := FileName.GetFileInfo(buf, blk, dir[..11], body, ext, uni, r.lfn);
    if r.st.lfn ==> |FileName.TextOf(r.lfn).b| <= FileName.MAX_TEXT {
      Listing.ShownAs(r.lfn, r, oem, uni);
      ListedLong(r.lfn, FileName.Fitting(FileName.PageText(FileName.AltBytes(dir[..11]), uni), FileName.MAX_ALT),
                 FileName.Fitting(FileName.PageText(FileName.AltBytes(r.fn), uni), FileName.MAX_ALT), body, ext, r.st);
    }
  }

  /** What is read of the new object is what create_name made. */
  lemma BackAgain(r: FileName.Created, oem: Wchar -> Byte, t': seq<Entry>, f: nat, blk: nat, dir: Entry,
                  buf: seq<Wchar>)
    requires r.Created? && FileName.MadeFrom(r.lfn, r, oem) && Listing.Sound(r.lfn) && |r.fn| == 11
    requires ReadBack(t', f, r.lfn, r.fn, Flags(r.st), blk, dir, buf)
    ensures (blk != NO_LFN ==> r.st.lfn) && (r.st.lfn ==> FileName.InBuffer(buf, r.lfn))
    ensures r.st.lfn || (blk == NO_LFN && dir[..11] == r.fn)
    ensures r.st.lfn ==> blk != NO_LFN
    ensures dir[12] == Flags(r.st).nt && (r.st.lfn ==> !r.st.body && !r.st.ext)
  {
    hide ShortName.Basis, ShortName.Lossy, ShortName.Fits83, ShortName.HasLower, ShortName.BodyOf, ShortName.ExtOf,
      FileName.TextOf, ShortName.Trim, Registered;
  }

  lemma NtFlags(st: ShortName.Status)
    ensures Flags(st).nt / 0x08 % 2 == (if st.body then 1 else 0) && Flags(st).nt / 0x10 % 2 == if st.ext then 1 else 0
  {
  }

  /** A long name is listed whatever the short one is. */
  lemma ListedLong(t: seq<Wchar>, short: seq<Byte>, made: seq<Byte>, body: bool, ext: bool, st: ShortName.Status)
    requires t != [] && FileName.TextOf(t).Text? && body == st.body && ext == st.ext
    requires if st.lfn then |FileName.TextOf(t).b| <= FileName.MAX_TEXT else short == made
    ensures var long := if st.lfn then FileName.Fitting(FileName.TextOf(t), FileName.MAX_TEXT) else [];
      FileName.Listed(long, short, body, ext) == FileName.Listed(long, made, st.body, st.ext)
  {
    Listing.TextThere(t);
    hide FileName.TextOf, FileName.Cased;
  }
}
