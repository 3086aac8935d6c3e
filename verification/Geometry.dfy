/** The layout of a mounted FAT volume and the meaning of its allocation table. */
module Geometry {
  import opened Bytes

  datatype FsType = FAT12 | FAT16 | FAT32

  /** The layout fields of the filesystem object, as the mount fills them in. */
  datatype Layout = Layout(
    fsType: FsType,    // fs_type
    nFats: nat,        // n_fats
    csize: nat,        // csize: sectors per cluster
    nRootdir: nat,     // n_rootdir
    nFatent: nat,      // n_fatent: number of clusters + 2
    fsize: nat,        // fsize: sectors per FAT
    volbase: nat,
    fatbase: nat,
    dirbase: nat,
    database: nat)

  /** The cluster sizes a BPB byte can name: the powers of two. */
  predicate IsPowerOfTwo(n: int) {
    n == 1 || n == 2 || n == 4 || n == 8 || n == 16 || n == 32 || n == 64 || n == 128
  }

  /** One past the largest entry number of each table width (MAX_FAT12, MAX_FAT16, MAX_FAT32). */
  function MaxEntries(t: FsType): nat {
    match t
    case FAT12 => 0xFF5 + 2
    case FAT16 => 0xFFF5 + 2
    case FAT32 => 0x0FFF_FFF5 + 2
  }

  /** One more than the largest value an entry can hold. */
  function EntryLimit(t: FsType): nat {
    match t
    case FAT12 => 0x1000
    case FAT16 => 0x1_0000
    case FAT32 => 0x1000_0000
  }

  /** A value cut to the width of an entry. */
  function Cut(t: FsType, v: nat): (r: nat)
    ensures r < EntryLimit(t)
    ensures v < EntryLimit(t) ==> r == v
  {
    match t
    case FAT12 => v % 0x1000
    case FAT16 => v % 0x1_0000
    case FAT32 => v % 0x1000_0000
  }

  /** Byte offset of entry `c` in the table. */
  function EntryOffset(t: FsType, c: nat): nat {
    match t
    case FAT12 => c + c / 2
    case FAT16 => 2 * c
    case FAT32 => 4 * c
  }

  /** Number of bytes an entry touches. */
  function EntryWidth(t: FsType): nat {
    match t
    case FAT12 => 2
    case FAT16 => 2
    case FAT32 => 4
  }

  /** The sector after the last copy of the table. */
  function FatEnd(g: Layout): nat {
    if g.nFats == 2 then g.fatbase + 2 * g.fsize else g.fatbase + g.fsize
  }

  /** The layout is usable on a drive of `total` sectors. */
  ghost predicate Sound(g: Layout, total: nat) {
    && 1 <= g.nFats <= 2
    && IsPowerOfTwo(g.csize)
    && 3 <= g.nFatent <= MaxEntries(g.fsType)
    && 0 < g.fatbase
    && 0 < g.fsize
    && EntryOffset(g.fsType, g.nFatent - 1) + EntryWidth(g.fsType) <= g.fsize * SS
    && FatEnd(g) <= g.database
    && g.database <= total <= TWO32
  }

  /** The fixed root directory of a 12- or 16-bit volume lies between the tables and the data. */
  ghost predicate RootPlaced(g: Layout) {
    && g.nRootdir % 16 == 0
    && (if g.fsType == FAT32 then g.nRootdir == 0
        else FatEnd(g) <= g.dirbase && g.dirbase + g.nRootdir / 16 <= g.database)
  }

  /** Is sector `s` in the first copy of the table? */
  predicate InFat(g: Layout, s: int) {
    g.fatbase <= s < g.fatbase + g.fsize
  }

  /** Is sector `s` in the second copy of the table? */
  predicate InMirror(g: Layout, s: int) {
    g.nFats == 2 && g.fatbase + g.fsize <= s < g.fatbase + 2 * g.fsize
  }

  /** Both copies of the table agree, but for sectors of which both are as they were in `mounted`. */
  ghost predicate Mirrored(g: Layout, img: seq<Sector>, mounted: seq<Sector>)
    requires Sound(g, |img|) && |mounted| == |img|
  {
    g.nFats == 2 ==> forall s: nat {:trigger InFat(g, s)} :: InFat(g, s) ==>
      img[s + g.fsize] == img[s] || (img[s] == mounted[s] && img[s + g.fsize] == mounted[s + g.fsize])
  }

  /** The table bytes of a volume image. */
  function FatByte(g: Layout, img: seq<Sector>, k: nat): Byte
    requires Sound(g, |img|) && k < g.fsize * SS
  {
    img[g.fatbase + k / SS][k % SS]
  }

  /** The value of table entry `c` in a volume image. */
  function Entry(g: Layout, img: seq<Sector>, c: nat): (v: nat)
    requires Sound(g, |img|) && c < g.nFatent
    ensures v < EntryLimit(g.fsType)
  {
    match g.fsType
    case FAT12 =>
      Decode12(c, FatByte(g, img, c + c / 2), FatByte(g, img, c + c / 2 + 1))
    case FAT16 =>
      LdWord(img[g.fatbase + c / 256], 2 * (c % 256))
    case FAT32 =>
      LdDword(img[g.fatbase + c / 128], 4 * (c % 128)) % 0x1000_0000
  }

  /** The value `v` of entry `c`, byte by byte, the lowest one first. Of the two bytes of a 12-bit entry an odd one has
      the upper half of the first, an even one the lower half of the second; the upper half of the fourth byte is no
      part of a 28-bit entry. */
  ghost predicate InBytes(g: Layout, img: seq<Sector>, c: nat, v: nat)
    requires Sound(g, |img|) && c < g.nFatent
  {
    match g.fsType
    case FAT12 =>
      var b0, b1 := FatByte(g, img, c + c / 2), FatByte(g, img, c + c / 2 + 1);
      if c % 2 == 1 then v % 16 == b0 / 16 && v / 16 == b1 else v % 256 == b0 && v / 256 == b1 % 16
    case FAT16 =>
      v % 256 == FatByte(g, img, 2 * c) && v / 256 == FatByte(g, img, 2 * c + 1)
    case FAT32 =>
      && v % 256 == FatByte(g, img, 4 * c) && v / 256 % 256 == FatByte(g, img, 4 * c + 1)
      && v / 256 / 256 % 256 == FatByte(g, img, 4 * c + 2) && v / 256 / 256 / 256 == FatByte(g, img, 4 * c + 3) % 16
  }

  lemma EntryInBytes(g: Layout, img: seq<Sector>, c: nat)
    requires Sound(g, |img|) && c < g.nFatent
    ensures InBytes(g, img, c, Entry(g, img, c))
  {
    match g.fsType
    case FAT12 =>
    case FAT16 => WordInBytes(g, img, c);
    case FAT32 => DoubleInBytes(g, img, c);
  }

  lemma ByteAt(g: Layout, img: seq<Sector>, k: nat, q: nat, r: nat)
    requires Sound(g, |img|) && k < g.fsize * SS && k == SS * q + r && r < SS
    ensures g.fatbase + q < |img| && FatByte(g, img, k) == img[g.fatbase + q][r]
  {
    InSector(k, q, r);
  }

  lemma WordInBytes(g: Layout, img: seq<Sector>, c: nat)
    requires Sound(g, |img|) && c < g.nFatent && g.fsType == FAT16
    ensures InBytes(g, img, c, Entry(g, img, c))
  {
    ByteAt(g, img, 2 * c, c / 256, 2 * (c % 256));
    ByteAt(g, img, 2 * c + 1, c / 256, 2 * (c % 256) + 1);
  }

  lemma DoubleInBytes(g: Layout, img: seq<Sector>, c: nat)
    requires Sound(g, |img|) && c < g.nFatent && g.fsType == FAT32
    ensures InBytes(g, img, c, Entry(g, img, c))
  {
    var s, k := img[g.fatbase + c / 128], 4 * (c % 128);
    ByteAt(g, img, 4 * c, c / 128, k);
    ByteAt(g, img, 4 * c + 1, c / 128, k + 1);
    ByteAt(g, img, 4 * c + 2, c / 128, k + 2);
    ByteAt(g, img, 4 * c + 3, c / 128, k + 3);
    DwordInBytes(s, k);
    Low28(LdDword(s, k));
    hide FatByte, LdDword;
  }

  /** What cutting a double word to 28 bits leaves of its bytes. */
  lemma Low28(v: nat)
    requires v < TWO32
    ensures var w := v % 0x1000_0000;
      && w % 256 == v % 256 && w / 256 % 256 == v / 256 % 256 && w / 256 / 256 % 256 == v / 256 / 256 % 256
      && w / 256 / 256 / 256 == v / 256 / 256 / 256 % 16
  {
    var q, w := v / 0x1000_0000, v % 0x1000_0000;
    assert v == w + 0x1000_0000 * q;
    assert v / 256 == w / 256 + 0x10_0000 * q;
    assert v / 256 / 256 == w / 256 / 256 + 0x1000 * q;
    assert v / 256 / 256 / 256 == w / 256 / 256 / 256 + 16 * q;
  }

  /** A 12-bit entry: one and a half of the two bytes it touches. */
  function Decode12(c: nat, b0: Byte, b1: Byte): (v: nat)
    ensures v < 0x1000
  {
    if c % 2 == 1 then b0 as nat / 16 + 16 * (b1 as nat) else b0 as nat + 256 * (b1 as nat % 16)
  }

  /** The whole table of a volume image. */
  ghost function Table(g: Layout, img: seq<Sector>): (t: seq<nat>)
    requires Sound(g, |img|)
    ensures |t| == g.nFatent
    ensures forall c :: 0 <= c < |t| ==> t[c] == Entry(g, img, c)
  {
    seq(g.nFatent, c requires 0 <= c < g.nFatent => Entry(g, img, c))
  }

  /** The image after sector `s` takes new data; a table sector takes it in both copies. */
  ghost function WithSector(g: Layout, img: seq<Sector>, s: nat, d: Sector): (r: seq<Sector>)
    requires Sound(g, |img|) && s < |img| && !InMirror(g, s)
    ensures |r| == |img| && r[s] == d
    ensures forall i :: 0 <= i < |img| && i != s && !InMirror(g, i) ==> r[i] == img[i]
    ensures !InFat(g, s) ==> r == img[s := d]
    ensures InFat(g, s) && g.nFats == 2 ==> r == img[s := d][s + g.fsize := d]
  {
    if InFat(g, s) && g.nFats == 2 then img[s := d][s + g.fsize := d] else img[s := d]
  }
}
