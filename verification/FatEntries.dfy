/** What a store into the allocation table does to its entries, for the three entry widths. */
module FatEntries {
  import opened Bytes
  import opened Geometry

  ghost predicate SameOutsideFat(g: Layout, a: seq<Sector>, b: seq<Sector>) {
    && |a| == |b|
    && forall s :: 0 <= s < |a| && !InFat(g, s) && !InMirror(g, s) ==> b[s] == a[s]
  }

  /** An entry depends on the sectors of the first copy only. */
  lemma EntryFrame(g: Layout, img: seq<Sector>, img': seq<Sector>, c: nat)
    requires Sound(g, |img|) && |img'| == |img| && c < g.nFatent
    requires forall s :: InFat(g, s) ==> img'[s] == img[s]
    ensures Entry(g, img', c) == Entry(g, img, c)
  {
    match g.fsType
    case FAT12 =>
      assert InFat(g, g.fatbase + (c + c / 2) / SS) && InFat(g, g.fatbase + (c + c / 2 + 1) / SS);
    case FAT16 =>
      assert InFat(g, g.fatbase + c / 256);
    case FAT32 =>
      assert InFat(g, g.fatbase + c / 128);
  }

  lemma DataFrame(g: Layout, img: seq<Sector>, img': seq<Sector>, mounted: seq<Sector>)
    requires Sound(g, |img|) && |img'| == |img| == |mounted| && Mirrored(g, img, mounted)
    requires forall s :: 0 <= s < g.database ==> img'[s] == img[s]
    ensures Mirrored(g, img', mounted)
    ensures Table(g, img') == Table(g, img)
  {
    forall c | 0 <= c < g.nFatent ensures Entry(g, img', c) == Entry(g, img, c) {
      EntryFrame(g, img, img', c);
    }
  }

  /** Of the bytes of the table only those of entry `c` differ, and of these not the half that is no part of it. */
  ghost predicate OnlyEntry(g: Layout, img: seq<Sector>, img': seq<Sector>, c: nat)
    requires Sound(g, |img|) && |img'| == |img| && c < g.nFatent
  {
    var k := EntryOffset(g.fsType, c);
    && (forall j: nat :: j < g.fsize * SS && !(k <= j < k + EntryWidth(g.fsType)) ==>
          FatByte(g, img', j) == FatByte(g, img, j))
    && match g.fsType
       case FAT12 =>
         if c % 2 == 1 then FatByte(g, img', k) % 16 == FatByte(g, img, k) % 16
         else FatByte(g, img', k + 1) / 16 == FatByte(g, img, k + 1) / 16
       case FAT16 => true
       case FAT32 => FatByte(g, img', k + 3) / 16 == FatByte(g, img, k + 3) / 16
  }

  /** The bytes of the table after a store into sector `q` of it. */
  lemma SplicedAt(g: Layout, img: seq<Sector>, q: nat, off: nat, d: seq<Byte>, j: nat)
    requires Sound(g, |img|) && q < g.fsize && off + |d| <= SS && j < g.fsize * SS
    ensures FatByte(g, WithSector(g, img, g.fatbase + q, Splice(img[g.fatbase + q], off, d)), j) ==
      var k := SS * q + off; if k <= j < k + |d| then d[j - k] else FatByte(g, img, j)
  {
    assert j == SS * (j / SS) + j % SS;
  }

  /** put_fat's store into a 16-bit table. */
  ghost function Stored16(g: Layout, img: seq<Sector>, c: nat, val: nat): seq<Sector>
    requires Sound(g, |img|) && g.fsType == FAT16 && c < g.nFatent && InFat(g, g.fatbase + c / 256)
  {
    var s := g.fatbase + c / 256;
    WithSector(g, img, s, Splice(img[s], 2 * (c % 256), WordBytes(val % 0x1_0000)))
  }

  lemma Put16At(g: Layout, img: seq<Sector>, c: nat, val: nat, d: nat)
    requires Sound(g, |img|) && g.fsType == FAT16 && c < g.nFatent && d < g.nFatent
    requires InFat(g, g.fatbase + c / 256)
    ensures Entry(g, Stored16(g, img, c, val), d) == if d == c then val % 0x1_0000 else Entry(g, img, d)
  {
    var s := g.fatbase + c / 256;
    if d / 256 == c / 256 {
      LoadStoreWord(img[s], 2 * (c % 256), val % 0x1_0000, 2 * (d % 256));
    }
  }

  lemma Put16(g: Layout, img: seq<Sector>, c: nat, val: nat)
    requires Sound(g, |img|) && g.fsType == FAT16 && c < g.nFatent
    requires InFat(g, g.fatbase + c / 256)
    ensures Table(g, Stored16(g, img, c, val)) == Table(g, img)[c := val % 0x1_0000]
    ensures OnlyEntry(g, img, Stored16(g, img, c, val), c)
  {
    forall j: nat | j < g.fsize * SS && !(2 * c <= j < 2 * c + 2)
      ensures FatByte(g, Stored16(g, img, c, val), j) == FatByte(g, img, j)
    {
      SplicedAt(g, img, c / 256, 2 * (c % 256), WordBytes(val % 0x1_0000), j);
    }
    forall d | 0 <= d < g.nFatent
      ensures Entry(g, Stored16(g, img, c, val), d) == if d == c then val % 0x1_0000 else Entry(g, img, d)
    {
      Put16At(g, img, c, val, d);
    }
  }

  /** put_fat's store into a 28-bit table: the top four bits of the double word stay. */
  ghost function Stored32(g: Layout, img: seq<Sector>, c: nat, val: nat): seq<Sector>
    requires Sound(g, |img|) && g.fsType == FAT32 && c < g.nFatent && InFat(g, g.fatbase + c / 128)
  {
    var s := g.fatbase + c / 128;
    var k := 4 * (c % 128);
    WithSector(g, img, s, Splice(img[s], k, DwordBytes(Keep28(val, LdDword(img[s], k)))))
  }

  /** `(val & 0x0FFFFFFF) | (old & 0xF0000000)` */
  function Keep28(val: nat, old32: nat): (r: nat)
    requires old32 < TWO32
    ensures r < TWO32
    ensures r % 0x1000_0000 == val % 0x1000_0000 && r / 0x1000_0000 == old32 / 0x1000_0000
  {
    val % 0x1000_0000 + old32 / 0x1000_0000 * 0x1000_0000
  }

  lemma Keep28At(s: Sector, c: nat, val: nat, d: nat)
    requires c / 128 == d / 128
    ensures var k, j := 4 * (c % 128), 4 * (d % 128);
            LdDword(Splice(s, k, DwordBytes(Keep28(val, LdDword(s, k)))), j) % 0x1000_0000 ==
            if d == c then val % 0x1000_0000 else LdDword(s, j) % 0x1000_0000
  {
    var k := 4 * (c % 128);
    LoadStoreDword(s, k, Keep28(val, LdDword(s, k)), 4 * (d % 128));
  }

  lemma Put32At(g: Layout, img: seq<Sector>, c: nat, val: nat, d: nat)
    requires Sound(g, |img|) && g.fsType == FAT32 && c < g.nFatent && d < g.nFatent
    requires InFat(g, g.fatbase + c / 128)
    ensures Entry(g, Stored32(g, img, c, val), d) == if d == c then val % 0x1000_0000 else Entry(g, img, d)
  {
    if c / 128 == d / 128 {
      Keep28At(img[g.fatbase + c / 128], c, val, d);
    }
  }

  lemma Put32(g: Layout, img: seq<Sector>, c: nat, val: nat)
    requires Sound(g, |img|) && g.fsType == FAT32 && c < g.nFatent
    requires InFat(g, g.fatbase + c / 128)
    ensures Table(g, Stored32(g, img, c, val)) == Table(g, img)[c := val % 0x1000_0000]
    ensures OnlyEntry(g, img, Stored32(g, img, c, val), c)
  {
    TopHalf(g, img, c, val);
    forall d | 0 <= d < g.nFatent
      ensures Entry(g, Stored32(g, img, c, val), d) == if d == c then val % 0x1000_0000 else Entry(g, img, d)
    {
      Put32At(g, img, c, val, d);
    }
  }

  lemma TopHalf(g: Layout, img: seq<Sector>, c: nat, val: nat)
    requires Sound(g, |img|) && g.fsType == FAT32 && c < g.nFatent && InFat(g, g.fatbase + c / 128)
    ensures OnlyEntry(g, img, Stored32(g, img, c, val), c)
  {
    var img', s, k := Stored32(g, img, c, val), img[g.fatbase + c / 128], 4 * (c % 128);
    var v := Keep28(val, LdDword(s, k));
    forall j: nat | j < g.fsize * SS
      ensures FatByte(g, img', j) == if 4 * c <= j < 4 * c + 4 then DwordBytes(v)[j - 4 * c] else FatByte(g, img, j)
    {
      SplicedAt(g, img, c / 128, k, DwordBytes(v), j);
    }
    ByteAt(g, img, 4 * c + 3, c / 128, k + 3);
    hide FatByte, Splice, WithSector, Keep28;
    DwordInBytes(s, k);
    TopOf(v);
    TopOf(LdDword(s, k));
  }

  lemma TopOf(v: nat)
    requires v < TWO32
    ensures v / 256 / 256 / 256 % 256 / 16 == v / 0x1000_0000
  {
  }

  /** put_fat's first byte of a 12-bit entry; `p` is the byte found there. */
  function First12(c: nat, val: nat, p: Byte): Byte {
    if c % 2 == 1 then p % 16 + val % 16 * 16 else val % 256
  }

  /** put_fat's second byte of a 12-bit entry. */
  function Second12(c: nat, val: nat, p: Byte): Byte {
    if c % 2 == 1 then val / 16 % 256 else p / 16 * 16 + val / 256 % 16
  }

  /** The first copy of the table as one run of bytes. */
  ghost function Flat(g: Layout, img: seq<Sector>): (t: seq<Byte>)
    requires Sound(g, |img|)
    ensures |t| == g.fsize * SS
    ensures forall k :: 0 <= k < |t| ==> t[k] == FatByte(g, img, k)
  {
    seq(g.fsize * SS, k requires 0 <= k < g.fsize * SS => FatByte(g, img, k))
  }

  /** The image with byte `k` of the table replaced. */
  ghost function StoredByte(g: Layout, img: seq<Sector>, k: nat, b: Byte): (r: seq<Sector>)
    requires Sound(g, |img|) && k < g.fsize * SS
    ensures |r| == |img|
  {
    var s := g.fatbase + k / SS;
    WithSector(g, img, s, Splice(img[s], k % SS, [b]))
  }

  lemma StoredByteFlat(g: Layout, img: seq<Sector>, k: nat, b: Byte)
    requires Sound(g, |img|) && k < g.fsize * SS
    ensures Flat(g, StoredByte(g, img, k, b)) == Flat(g, img)[k := b]
  {
    forall j | 0 <= j < g.fsize * SS
      ensures FatByte(g, StoredByte(g, img, k, b), j) == if j == k then b else FatByte(g, img, j)
    {
      SplicedAt(g, img, k / SS, k % SS, [b], j);
    }
  }

  /** Both byte stores of a 12-bit entry, on the run of bytes. */
  function Stored12(t: seq<Byte>, c: nat, val: nat): (r: seq<Byte>)
    requires c + c / 2 + 1 < |t|
    ensures |r| == |t|
  {
    var k := c + c / 2;
    t[k := First12(c, val, t[k])][k + 1 := Second12(c, val, t[k + 1])]
  }

  lemma Rest12(x: nat, q: nat, r: nat)
    requires x == 0x1000 * q + r && r < 0x1000
    ensures x % 0x1000 == r
  {
  }

  lemma Low12(val: nat)
    ensures val % 0x1000 == val % 16 + 16 * (val / 16 % 256)
    ensures val % 0x1000 == val % 256 + 256 * (val / 256 % 16)
  {
    var m := val / 16;
    Rest12(val, m / 256, 16 * (m % 256) + val % 16);
    var h := val / 256;
    Rest12(val, h / 16, 256 * (h % 16) + val % 256);
  }

  /** The two bytes decode to the value, and each keeps the nibble that belongs to a neighbour. */
  lemma Nibbles(c: nat, val: nat, p: Byte, q: Byte)
    ensures Decode12(c, First12(c, val, p), Second12(c, val, q)) == val % 0x1000
    ensures c % 2 == 1 ==> First12(c, val, p) % 16 == p % 16
    ensures c % 2 == 0 ==> Second12(c, val, q) / 16 == q / 16
  {
    Low12(val);
    if c % 2 == 1 {
      var x := p % 16 + val % 16 * 16;
      assert x / 16 == val % 16 && x % 16 == p % 16;
    } else {
      var x := q / 16 * 16 + val / 256 % 16;
      assert x % 16 == val / 256 % 16 && x / 16 == q / 16;
    }
  }

  lemma Put12At(t: seq<Byte>, c: nat, val: nat, d: nat)
    requires c + c / 2 + 1 < |t| && d + d / 2 + 1 < |t|
    ensures var t' := Stored12(t, c, val);
            Decode12(d, t'[d + d / 2], t'[d + d / 2 + 1]) ==
            if d == c then val % 0x1000 else Decode12(d, t[d + d / 2], t[d + d / 2 + 1])
  {
    var k := c + c / 2;
    Nibbles(c, val, t[k], t[k + 1]);
    if d < c {
      assert d + d / 2 + 1 < k || (d + d / 2 + 1 == k && d % 2 == 0 && c % 2 == 1);
    } else if d > c {
      assert d + d / 2 > k + 1 || (d + d / 2 == k + 1 && d % 2 == 1 && c % 2 == 0);
    }
  }

  lemma OtherHalf(g: Layout, img: seq<Sector>, img': seq<Sector>, c: nat, val: nat)
    requires Sound(g, |img|) && |img'| == |img| && g.fsType == FAT12 && c < g.nFatent
    requires Flat(g, img') == Stored12(Flat(g, img), c, val)
    ensures OnlyEntry(g, img, img', c)
  {
    var t, k := Flat(g, img), c + c / 2;
    Nibbles(c, val, t[k], t[k + 1]);
    forall j: nat | j < g.fsize * SS
      ensures FatByte(g, img', j) == Stored12(t, c, val)[j]
    {
      assert Flat(g, img')[j] == FatByte(g, img', j);
    }
    hide FatByte, First12, Second12, Decode12;
  }

  lemma Put12(g: Layout, img: seq<Sector>, img': seq<Sector>, c: nat, val: nat)
    requires Sound(g, |img|) && |img'| == |img| && g.fsType == FAT12 && c < g.nFatent
    requires Flat(g, img') == Stored12(Flat(g, img), c, val)
    ensures Table(g, img') == Table(g, img)[c := val % 0x1000]
    ensures OnlyEntry(g, img, img', c)
  {
    OtherHalf(g, img, img', c, val);
    forall d | 0 <= d < g.nFatent
      ensures Entry(g, img', d) == if d == c then val % 0x1000 else Entry(g, img, d)
    {
      Put12At(Flat(g, img), c, val, d);
    }
  }
}
