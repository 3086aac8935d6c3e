/** The FAT part of mount_volume: which boot sectors are accepted, and what layout they give. */
module Mount {
  import opened Bytes
  import opened Geometry
  import opened ClusterMap

  /** The fields of a boot sector that the mount reads. */
  datatype Bpb = Bpb(
    bytsPerSec: nat, secPerClus: Byte, rsvdSecCnt: nat, numFats: Byte, rootEntCnt: nat,
    totSec16: nat, fatSz16: nat, totSec32: nat, fatSz32: nat, fsVer32: nat, rootClus32: nat)
  {
    /** WORDs and DWORDs. */
    predicate InRange() {
      && bytsPerSec < 0x1_0000 && rsvdSecCnt < 0x1_0000 && rootEntCnt < 0x1_0000 && totSec16 < 0x1_0000
      && fatSz16 < 0x1_0000 && fsVer32 < 0x1_0000 && totSec32 < TWO32 && fatSz32 < TWO32 && rootClus32 < TWO32
    }

    function TableSectors(): nat { if fatSz16 == 0 then fatSz32 else fatSz16 }

    function VolumeSectors(): nat { if totSec16 == 0 then totSec32 else totSec16 }

    function TableArea(): nat { if numFats == 2 then 2 * TableSectors() else TableSectors() }

    function RootSectors(): nat { rootEntCnt / 16 }

    /** Sectors in front of the data area, counted without overflow. */
    function SystemSectors(): nat { rsvdSecCnt + TableArea() + RootSectors() }

    /** The same sum as a DWORD. */
    function SystemWord(): nat { SystemSectors() % TWO32 }

    /** Number of clusters, for a volume that is large enough. */
    function ClusterCount(): nat {
      if secPerClus > 0 && SystemWord() <= VolumeSectors()
      then (VolumeSectors() - SystemWord()) / secPerClus
      else 0
    }

    /** All checks of the mount. */
    predicate Accepted() {
      && InRange()
      && bytsPerSec == SS
      && (numFats == 1 || numFats == 2)
      && IsPowerOfTwo(secPerClus)
      && rootEntCnt % 16 == 0
      && rsvdSecCnt != 0
      && SystemWord() <= VolumeSectors()
      && 0 < ClusterCount() <= 0x0FFF_FFF5
      && (TypeFor(ClusterCount()) == FAT32 ==> fsVer32 == 0)
      && (TypeFor(ClusterCount()) == FAT32 <==> rootEntCnt == 0)
      && LastEntryFits(TypeFor(ClusterCount()), ClusterCount() + 2, TableSectors())
    }

    /** The layout that comes with an accepted boot sector at `bsect`; sector numbers are DWORDs. */
    function LayoutAt(bsect: nat): Layout {
      var t := TypeFor(ClusterCount());
      Layout(t, numFats, secPerClus, rootEntCnt, ClusterCount() + 2, TableSectors(), bsect,
             (bsect + rsvdSecCnt) % TWO32,
             if t == FAT32 then rootClus32 else (bsect + rsvdSecCnt + TableArea()) % TWO32,
             (bsect + SystemSectors()) % TWO32)
    }
  }

  /** The bytes of a boot sector that hold its fields, low bytes first. */
  predicate StoredAt(win: Sector, b: Bpb) {
    && b.bytsPerSec % 256 == win[11] && b.bytsPerSec / 256 == win[12]
    && b.secPerClus == win[13]
    && b.rsvdSecCnt % 256 == win[14] && b.rsvdSecCnt / 256 == win[15]
    && b.numFats == win[16]
    && b.rootEntCnt % 256 == win[17] && b.rootEntCnt / 256 == win[18]
    && b.totSec16 % 256 == win[19] && b.totSec16 / 256 == win[20]
    && b.fatSz16 % 256 == win[22] && b.fatSz16 / 256 == win[23]
    && FourBytes(b.totSec32, win, 32) && FourBytes(b.fatSz32, win, 36)
    && b.fsVer32 % 256 == win[42] && b.fsVer32 / 256 == win[43]
    && FourBytes(b.rootClus32, win, 44)
  }

  /** The bytes from `k` on are those of `v`, the lowest one first. */
  predicate FourBytes(v: nat, s: seq<Byte>, k: nat)
    requires k + 4 <= |s|
  {
    v % 256 == s[k] && v / 256 % 256 == s[k + 1] && v / 256 / 256 % 256 == s[k + 2] && v / 256 / 256 / 256 == s[k + 3]
  }

  /** ld_word and ld_dword of the BIOS parameter block. */
  function ReadBpb(win: Sector): (b: Bpb)
    ensures b.InRange() && StoredAt(win, b)
  {
    FieldBytes(win);
    Bpb(LdWord(win, 11), win[13], LdWord(win, 14), win[16], LdWord(win, 17), LdWord(win, 19), LdWord(win, 22),
        LdDword(win, 32), LdDword(win, 36), LdWord(win, 42), LdDword(win, 44))
  }

  lemma FieldBytes(s: Sector)
    ensures forall k: nat :: k + 2 <= SS ==> LdWord(s, k) % 256 == s[k] && LdWord(s, k) / 256 == s[k + 1]
    ensures forall k: nat :: k + 4 <= SS ==> FourBytes(LdDword(s, k), s, k)
  {
    forall k: nat | k + 4 <= SS ensures FourBytes(LdDword(s, k), s, k) {
      DwordInBytes(s, k);
    }
  }

  /** Table width by the number of clusters. */
  function TypeFor(nclst: nat): FsType {
    if nclst <= 0xFF5 then FAT12 else if nclst <= 0xFFF5 then FAT16 else FAT32
  }

  /** Every byte of the last one of `n` entries lies in the first `fsize` sectors. */
  predicate LastEntryFits(t: FsType, n: nat, fsize: nat) {
    n > 0 && EntryOffset(t, n - 1) + EntryWidth(t) <= fsize * SS
  }

  /** `csize == 0 || (csize & (csize - 1))` is the refusal. */
  method OneBit(csize: Byte) returns (r: bool)
    ensures r == IsPowerOfTwo(csize) && (r ==> csize > 0)
  {
    var b := csize as bv8;
    r := !(b == 0 || b & (b - 1) != 0);
    BitTrick(b);
    assert b as int == csize;
  }

  lemma BitTrick(b: bv8)
    ensures b != 0 && b & (b - 1) == 0 <==> IsPowerOfTwo(b as int)
  {
  }

  /** What the mount answers: no file system (FR_NO_FILESYSTEM), or the layout. */
  datatype Mounted = NoVolume | Volume(g: Layout)

  /** The FAT branch of mount_volume, with the boot sector in the window. */
  method MountVolume(win: Sector, bsect: nat) returns (v: Mounted)
    requires bsect < TWO32
    ensures StoredAt(win, ReadBpb(win))
    ensures v == if ReadBpb(win).Accepted() then Volume(ReadBpb(win).LayoutAt(bsect)) else NoVolume
  {
    var b := ReadBpb(win);
    hide ReadBpb, LdWord, LdDword, StoredAt, IsPowerOfTwo, LastEntryFits;
    if b.bytsPerSec != SS { return NoVolume; }
    var fsize := b.fatSz16;
    if fsize == 0 { fsize := b.fatSz32; }
    var nFats := b.numFats;
    if nFats != 1 && nFats != 2 { return NoVolume; }
    var fasize := if nFats == 2 then fsize * 2 % TWO32 else fsize;
    var csize := b.secPerClus;
    var power := OneBit(csize);
    if !power { return NoVolume; }
    var nRootdir := b.rootEntCnt;
    if nRootdir % 16 != 0 { return NoVolume; }
    var tsect := b.totSec16;
    if tsect == 0 { tsect := b.totSec32; }
    var nrsv := b.rsvdSecCnt;
    if nrsv == 0 { return NoVolume; }
    var sysect := (nrsv + fasize + nRootdir / 16) % TWO32;
    AddMod(nrsv + nRootdir / 16, b.TableArea());
    assert fasize == b.TableArea() % TWO32;
    hide Bpb.TableArea;
    assert sysect == b.SystemWord();
    if tsect < sysect { return NoVolume; }
    var nclst := (tsect - sysect) / csize;
    assert nclst == b.ClusterCount();
    if nclst == 0 { return NoVolume; }
    if nclst > 0x0FFF_FFF5 { return NoVolume; }
    v := Boundaries(b, bsect, fsize, fasize, nclst, sysect);
  }

  /** Boundaries and limits. */
  method Boundaries(b: Bpb, bsect: nat, fsize: nat, fasize: nat, nclst: nat, sysect: nat) returns (v: Mounted)
    requires b.InRange() && bsect < TWO32 && fsize == b.TableSectors() && fasize == b.TableArea() % TWO32
    requires nclst == b.ClusterCount() && sysect == b.SystemWord()
    requires b.bytsPerSec == SS && (b.numFats == 1 || b.numFats == 2) && IsPowerOfTwo(b.secPerClus)
    requires b.rootEntCnt % 16 == 0 && b.rsvdSecCnt != 0 && sysect <= b.VolumeSectors() && 0 < nclst <= 0x0FFF_FFF5
    ensures v == if b.Accepted() then Volume(b.LayoutAt(bsect)) else NoVolume
  {
    AddMod(bsect, b.SystemSectors());
    AddMod2(bsect + b.rsvdSecCnt, b.TableArea());
    assert bsect + b.rsvdSecCnt + b.TableArea() == (bsect + b.rsvdSecCnt) + b.TableArea();
    TableNeeds(nclst + 2, fsize);
    hide IsPowerOfTwo, Bpb.ClusterCount, LastEntryFits, Bpb.SystemSectors, Bpb.TableArea, Bpb.VolumeSectors;
    var t := FAT32;
    if nclst <= 0xFFF5 { t := FAT16; }
    if nclst <= 0xFF5 { t := FAT12; }
    var nFatent := nclst + 2;
    var szbfat: nat;
    var fatbase := (bsect + b.rsvdSecCnt) % TWO32;
    var database := (bsect + sysect) % TWO32;
    var dirbase: nat;
    if t == FAT32 {
      if b.fsVer32 != 0 { return NoVolume; }
      if b.rootEntCnt != 0 { return NoVolume; }
      dirbase := b.rootClus32;
      szbfat := nFatent * 4;
    } else {
      if b.rootEntCnt == 0 { return NoVolume; }
      dirbase := (fatbase + fasize) % TWO32;
      szbfat := if t == FAT16 then nFatent * 2 else nFatent * 3 / 2 + nFatent % 2;
    }
    if fsize < (szbfat + SS - 1) / SS { return NoVolume; }
    v := Volume(Layout(t, b.numFats, b.secPerClus, b.rootEntCnt, nFatent, fsize, bsect, fatbase, dirbase, database));
  }

  lemma AddMod(a: nat, x: nat)
    ensures (a + x % TWO32) % TWO32 == (a + x) % TWO32
  {
  }

  lemma AddMod2(a: nat, x: nat)
    ensures (a % TWO32 + x % TWO32) % TWO32 == (a + x) % TWO32
  {
  }

  // What every accepted volume promises.

  /** Each byte of each table entry lies in the first `fsize` sectors of the table. */
  lemma TableFits(b: Bpb, bsect: nat, c: nat)
    requires b.Accepted() && c < b.LayoutAt(bsect).nFatent
    ensures var g := b.LayoutAt(bsect); EntryOffset(g.fsType, c) + EntryWidth(g.fsType) <= g.fsize * SS
  {
    hide IsPowerOfTwo;
  }

  /** The sectors that the code counts for a table are enough exactly when the last entry lies in them. */
  lemma TableNeeds(n: nat, fsize: nat)
    requires n > 0
    ensures (n * 4 + SS - 1) / SS <= fsize <==> LastEntryFits(FAT32, n, fsize)
    ensures (n * 2 + SS - 1) / SS <= fsize <==> LastEntryFits(FAT16, n, fsize)
    ensures (n * 3 / 2 + n % 2 + SS - 1) / SS <= fsize <==> LastEntryFits(FAT12, n, fsize)
  {
    RoundedUp(n * 4, fsize);
    RoundedUp(n * 2, fsize);
    RoundedUp(n * 3 / 2 + n % 2, fsize);
    HalfAgain(n);
  }

  lemma RoundedUp(bytes: nat, fsize: nat)
    ensures (bytes + SS - 1) / SS <= fsize <==> bytes <= fsize * SS
  {
  }

  lemma HalfAgain(n: nat)
    requires n > 0
    ensures n - 1 + (n - 1) / 2 + 2 == n * 3 / 2 + n % 2
  {
  }

  /** Entries are as narrow as they can be with every cluster number below the reserved values, which begin with the
      one for a bad cluster, nine below the end of the range. */
  lemma NarrowestType(b: Bpb, bsect: nat)
    requires b.Accepted()
    ensures var g := b.LayoutAt(bsect);
      var last := g.nFatent - 1;
      && (last < 0xFF7 <==> g.fsType == FAT12)
      && (0xFF7 <= last < 0xFFF7 <==> g.fsType == FAT16)
      && (0xFFF7 <= last < 0x0FFF_FFF7 <==> g.fsType == FAT32)
  {
    hide IsPowerOfTwo, Bpb.ClusterCount, LastEntryFits;
  }

  /** clst2sect, as a DWORD, and a sector of that cluster. */
  function SectorOf(g: Layout, c: nat, i: nat): nat
    requires c >= 2
  {
    (g.database + g.csize * (c - 2) + i) % TWO32
  }

  /** Every sector of every cluster is within the volume: its distance from the volume start is below the volume
      size. */
  lemma ClusterInVolume(b: Bpb, bsect: nat, c: nat, i: nat)
    requires b.Accepted() && bsect < TWO32
    requires 2 <= c < b.LayoutAt(bsect).nFatent && i < b.LayoutAt(bsect).csize
    ensures var g := b.LayoutAt(bsect);
      Sub32(SectorOf(g, c, i), bsect) == b.SystemWord() + g.csize * (c - 2) + i < b.VolumeSectors()
  {
    var m, n, csize := b.ClusterCount(), b.VolumeSectors() - b.SystemWord(), b.secPerClus as nat;
    InsideClusters(n, csize, c - 2, i);
    Distance(bsect, b.SystemSectors(), csize * (c - 2) + i);
  }

  lemma InsideClusters(n: nat, csize: nat, k: nat, i: nat)
    requires csize > 0 && k < n / csize && i < csize
    ensures csize * k + i < n
  {
    MulStep(k, n / csize, csize);
    assert n == (n / csize) * csize + n % csize;
  }

  lemma Distance(bsect: nat, sys: nat, x: nat)
    requires sys % TWO32 + x < TWO32 && bsect < TWO32
    ensures Sub32(((bsect + sys) % TWO32 + x) % TWO32, bsect) == sys % TWO32 + x
  {
  }

  /** Distinct clusters own disjoint sector ranges. */
  lemma ClustersApart(b: Bpb, bsect: nat, c: nat, i: nat, d: nat, j: nat)
    requires b.Accepted() && bsect < TWO32
    requires 2 <= c < d < b.LayoutAt(bsect).nFatent && i < b.LayoutAt(bsect).csize && j < b.LayoutAt(bsect).csize
    ensures SectorOf(b.LayoutAt(bsect), c, i) != SectorOf(b.LayoutAt(bsect), d, j)
  {
    ClusterInVolume(b, bsect, c, i);
    ClusterInVolume(b, bsect, d, j);
    OffsetsApart(b.secPerClus, c - 2, i, d - 2, j);
    hide *;
  }

  lemma OffsetsApart(m: nat, c: nat, i: nat, d: nat, j: nat)
    requires c < d && i < m
    ensures m * c + i < m * d + j
  {
    MulStep(c, d, m);
  }

  /** The data area starts behind the reserved sectors, the tables and the root directory just when their sum fits a
      DWORD; when it does not, the data area starts inside the tables. */
  lemma DataBehindTables(b: Bpb)
    requires b.Accepted()
    ensures b.SystemSectors() < TWO32 <==> b.SystemWord() == b.SystemSectors()
    ensures b.SystemSectors() < TWO32 <==> b.SystemWord() >= b.rsvdSecCnt + b.TableArea()
  {
    assert b.SystemSectors() < 3 * TWO32;
  }

  /** A boot sector that is accepted although the sum overflows: two tables of 2^31 sectors. */
  lemma OverflowAccepted()
    ensures var b := Bpb(SS, 1, 1, 2, 16, 100, 0, 0, 0x8000_0000, 0, 0);
      b.Accepted() && b.SystemSectors() >= TWO32 && b.SystemWord() == 2
  {
  }

  /** When the sum fits and the volume lies on the drive, the layout is what the table and file code rely on. */
  lemma MountIsSound(b: Bpb, bsect: nat, total: nat)
    requires b.Accepted() && b.SystemSectors() < TWO32 && bsect + b.VolumeSectors() <= total <= TWO32
    ensures Sound(b.LayoutAt(bsect), total) && Roomy(b.LayoutAt(bsect), total)
  {
    TableFits(b, bsect, b.LayoutAt(bsect).nFatent - 1);
    NoWrap(b, bsect);
    MaxType(b.ClusterCount());
    RoomForClusters(b, bsect);
    hide IsPowerOfTwo, LastEntryFits, Bpb.ClusterCount, ClusterBase, EntryOffset, EntryWidth, MaxEntries, TypeFor;
  }

  /** The fixed root directory then lies between the tables and the data. */
  lemma MountPlacesRoot(b: Bpb, bsect: nat)
    requires b.Accepted() && b.SystemSectors() < TWO32 && bsect + b.VolumeSectors() <= TWO32
    ensures RootPlaced(b.LayoutAt(bsect))
  {
    NoWrap(b, bsect);
    Quotient(b.VolumeSectors() - b.SystemWord(), b.secPerClus);
    hide IsPowerOfTwo, LastEntryFits;
  }

  lemma RoomForClusters(b: Bpb, bsect: nat)
    requires b.Accepted() && b.SystemSectors() < TWO32 && bsect + b.VolumeSectors() <= TWO32
    ensures ClusterBase(b.LayoutAt(bsect), b.LayoutAt(bsect).nFatent) <= bsect + b.VolumeSectors()
  {
    NoWrap(b, bsect);
    ClustersFit(b);
    hide Bpb.Accepted, Bpb.ClusterCount, Bpb.SystemWord, Bpb.SystemSectors, Bpb.VolumeSectors, ClusterBase;
    RoomFor(b.LayoutAt(bsect), b.ClusterCount(), b.VolumeSectors() - b.SystemSectors());
  }

  lemma ClustersFit(b: Bpb)
    requires b.Accepted()
    ensures b.secPerClus * b.ClusterCount() <= b.VolumeSectors() - b.SystemWord()
  {
    Quotient(b.VolumeSectors() - b.SystemWord(), b.secPerClus);
  }

  lemma RoomFor(g: Layout, clusters: nat, n: nat)
    requires g.nFatent == clusters + 2 && g.csize * clusters <= n
    ensures ClusterBase(g, g.nFatent) <= g.database + n
  {
    ClusterBaseIs(g, g.nFatent);
  }

  lemma Quotient(n: nat, csize: nat)
    requires csize > 0
    ensures csize * (n / csize) <= n && (n / csize > 0 ==> n > 0)
  {
  }

  lemma MaxType(nclst: nat)
    requires nclst <= 0x0FFF_FFF5
    ensures nclst + 2 <= MaxEntries(TypeFor(nclst))
  {
  }

  lemma NoWrap(b: Bpb, bsect: nat)
    requires b.Accepted() && b.SystemSectors() < TWO32 && bsect + b.VolumeSectors() <= TWO32
    ensures var g := b.LayoutAt(bsect);
      g.fatbase == bsect + b.rsvdSecCnt && FatEnd(g) == bsect + b.rsvdSecCnt + b.TableArea()
      && g.database == bsect + b.SystemSectors()
  {
    Quotient(b.VolumeSectors() - b.SystemWord(), b.secPerClus);
    hide IsPowerOfTwo, LastEntryFits;
  }
}
