/** The bytes of an open file: sectors on the volume, one of them possibly newer in the file's buffer. */
module FileData {
  import opened Bytes

  /** A byte of a file, or one that no one has written since the file was stretched over it. */
  datatype Cell = Known(b: Byte) | Unknown

  function Cells(d: seq<Byte>): (c: seq<Cell>)
    ensures |c| == |d| && forall i :: 0 <= i < |c| ==> c[i] == Known(d[i])
  {
    seq(|d|, i requires 0 <= i < |d| => Known(d[i]))
  }

  /** Bytes that are the known ones wherever they are known. */
  ghost predicate Fits(d: seq<Byte>, c: seq<Cell>) {
    |d| == |c| && forall i :: 0 <= i < |d| && c[i].Known? ==> d[i] == c[i].b
  }

  /** `n` bytes never written. */
  function Gap(n: nat): (c: seq<Cell>)
    ensures |c| == n && forall i :: 0 <= i < n ==> c[i] == Unknown
  {
    seq(n, _ => Unknown)
  }

  /** The contents stretched to a length, if they are shorter. */
  function Padded(data: seq<Cell>, n: nat): (r: seq<Cell>)
    ensures |r| == if n > |data| then n else |data|
    ensures r[..|data|] == data && (n <= |data| ==> r == data)
  {
    data + Gap(if n > |data| then n - |data| else 0)
  }

  /** A volume image, a list of sectors, and a buffer standing for sector number `bj` of the list
      (-1: for none), show the bytes `data`. A clean buffer repeats what the volume holds. */
  ghost predicate Shows(data: seq<Cell>, sects: seq<nat>, img: seq<Sector>, bj: int, buf: seq<Byte>, dirty: bool) {
    && |data| <= SS * |sects|
    && |buf| == SS
    && -1 <= bj < |sects|
    && (dirty ==> bj >= 0)
    && (forall j :: 0 <= j < |sects| ==> sects[j] < |img|)
    && (forall k {:trigger data[k]} :: 0 <= k < |data| && data[k].Known? ==>
          data[k].b == ByteOf(sects, img, bj, buf, k))
    && (!dirty ==> forall k {:trigger data[k]} :: 0 <= k < |data| && data[k].Known? && k / SS == bj ==>
          data[k].b == img[sects[bj]][k % SS])
  }

  lemma ShownNumber(data: seq<Cell>, sects: seq<nat>, img: seq<Sector>, bj: int, buf: seq<Byte>, dirty: bool)
    requires Shows(data, sects, img, bj, buf, dirty)
    ensures -1 <= bj < |sects|
  {
  }

  /** Byte `k` as the file sees it. */
  ghost function ByteOf(sects: seq<nat>, img: seq<Sector>, bj: int, buf: seq<Byte>, k: nat): Byte
    requires k / SS < |sects| && |buf| == SS
    requires forall j :: 0 <= j < |sects| ==> sects[j] < |img|
  {
    if k / SS == bj then buf[k % SS] else img[sects[k / SS]][k % SS]
  }

  ghost predicate AllDifferent(sects: seq<nat>) {
    forall i, j :: 0 <= i < j < |sects| ==> sects[i] != sects[j]
  }

  /** Writing the buffer back changes nothing the file shows. */
  lemma FlushShows(data: seq<Cell>, sects: seq<nat>, img: seq<Sector>, bj: int, buf: seq<Byte>)
    requires Shows(data, sects, img, bj, buf, true) && AllDifferent(sects)
    ensures Shows(data, sects, img[sects[bj] := buf], bj, buf, false)
  {
  }

  /** Dropping a clean buffer, or loading it with another sector, changes nothing either. */
  lemma LoadShows(data: seq<Cell>, sects: seq<nat>, img: seq<Sector>, bj: int, buf: seq<Byte>, j: int, buf': seq<Byte>)
    requires Shows(data, sects, img, bj, buf, false)
    requires -1 <= j < |sects| && |buf'| == SS && (j >= 0 ==> buf' == img[sects[j]])
    ensures Shows(data, sects, img, j, buf', false)
  {
  }

  /** Up to `n` bytes of `data` from position `p`. */
  ghost function Piece(data: seq<Cell>, p: nat, n: nat): seq<Cell> {
    if p > |data| then [] else if n < |data| - p then data[p..p + n] else data[p..]
  }

  lemma PieceStep(data: seq<Cell>, p: nat, a: nat, n: nat)
    requires p + a <= |data|
    ensures Piece(data, p, a + n) == Piece(data, p, a) + Piece(data, p + a, n)
  {
  }

  /** `d` is what a read of `n` bytes gives from position `p` on: that many, or all there are; a byte never written may
      be anything. */
  ghost predicate ReadFrom(data: seq<Cell>, p: nat, n: nat, d: seq<Byte>) {
    && p <= |data| && |d| == (if n <= |data| - p then n else |data| - p)
    && forall k :: 0 <= k < |d| && data[p + k].Known? ==> d[k] == data[p + k].b
  }

  lemma PieceRead(data: seq<Cell>, p: nat, n: nat, d: seq<Byte>)
    requires p <= |data| && |d| == (if n > |data| - p then |data| - p else n) && Fits(d, Piece(data, p, |d|))
    ensures ReadFrom(data, p, n, d)
  {
  }

  /** The bytes after `d` is written at `pos` (possibly beyond the old end). */
  ghost function Overwrite(data: seq<Cell>, pos: nat, d: seq<Byte>): (r: seq<Cell>)
    requires pos <= |data|
    ensures |r| == if pos + |d| > |data| then pos + |d| else |data|
    ensures forall k :: 0 <= k < |r| ==> r[k] == if pos <= k < pos + |d| then Known(d[k - pos]) else data[k]
  {
    data[..pos] + Cells(d) + if pos + |d| < |data| then data[pos + |d|..] else []
  }

  lemma OverwriteStep(data: seq<Cell>, pos: nat, a: seq<Byte>, b: seq<Byte>)
    requires pos <= |data|
    ensures Overwrite(Overwrite(data, pos, a), pos + |a|, b) == Overwrite(data, pos, a + b)
  {
  }

  /** A store into the buffered sector. */
  lemma StoreShows(data: seq<Cell>, sects: seq<nat>, img: seq<Sector>, bj: int, buf: seq<Byte>, dirty: bool, pos: nat,
                   d: seq<Byte>)
    requires Shows(data, sects, img, bj, buf, dirty)
    requires pos <= |data| && pos / SS == bj && pos % SS + |d| <= SS
    ensures Shows(Overwrite(data, pos, d), sects, img, bj, Splice(buf, pos % SS, d), true)
  {
  }

  /** The image after a transfer of consecutive sectors to the drive. */
  ghost function PutSectors(img: seq<Sector>, s: nat, n: nat, d: seq<Byte>): (r: seq<Sector>)
    requires s + n <= |img| && |d| == SS * n
    ensures |r| == |img|
    ensures forall i :: 0 <= i < |img| ==>
              r[i] == if s <= i < s + n then d[SS * (i - s)..SS * (i - s) + SS] else img[i]
    decreases n
  {
    if n == 0 then img
    else PutSectors(img, s, n - 1, d[..SS * (n - 1)])[s + n - 1 := d[SS * (n - 1)..]]
  }

  /** `n` sectors of the list from number `j` on lie next to each other. */
  ghost predicate Adjacent(sects: seq<nat>, j: nat, n: nat) {
    j + n <= |sects| && forall i :: j <= i < j + n ==> sects[i] == sects[j] + (i - j)
  }

  /** The buffer after the code has refreshed it from a direct transfer. */
  ghost function Refreshed(bj: int, buf: seq<Byte>, j: nat, n: nat, d: seq<Byte>): (r: seq<Byte>)
    requires |d| == SS * n && |buf| == SS
    ensures |r| == SS
  {
    if j <= bj < j + n then d[SS * (bj - j)..SS * (bj - j) + SS] else buf
  }

  /** A direct transfer of whole sectors, past the buffer. */
  lemma DirectShows(data: seq<Cell>, sects: seq<nat>, img: seq<Sector>, bj: int, buf: seq<Byte>, j: nat, n: nat,
                    d: seq<Byte>)
    requires Shows(data, sects, img, bj, buf, false) && AllDifferent(sects)
    requires 0 < n && Adjacent(sects, j, n) && sects[j] + n <= |img|
    requires |d| == SS * n && SS * j <= |data|
    ensures Shows(Overwrite(data, SS * j, d), sects, PutSectors(img, sects[j], n, d), bj,
      Refreshed(bj, buf, j, n, d), false)
  {
    var data', img', buf' := Overwrite(data, SS * j, d), PutSectors(img, sects[j], n, d), Refreshed(bj, buf, j, n, d);
    forall k | 0 <= k < |data'|
      ensures data'[k].Known? ==> data'[k].b == ByteOf(sects, img', bj, buf', k)
      ensures data'[k].Known? && k / SS == bj ==> data'[k].b == img'[sects[bj]][k % SS]
    {
      DirectByte(data, sects, img, bj, buf, j, n, d, k);
    }
  }

  lemma DirectByte(data: seq<Cell>, sects: seq<nat>, img: seq<Sector>, bj: int, buf: seq<Byte>, j: nat, n: nat,
                   d: seq<Byte>, k: nat)
    requires Shows(data, sects, img, bj, buf, false) && AllDifferent(sects)
    requires 0 < n && Adjacent(sects, j, n) && sects[j] + n <= |img|
    requires |d| == SS * n && SS * j <= |data| && k < |Overwrite(data, SS * j, d)|
    ensures var img', c := PutSectors(img, sects[j], n, d), Overwrite(data, SS * j, d)[k];
            && (c.Known? ==> c.b == ByteOf(sects, img', bj, Refreshed(bj, buf, j, n, d), k))
            && (c.Known? && k / SS == bj ==> c.b == img'[sects[bj]][k % SS])
  {
    if j <= k / SS < j + n {
      InRun(data, sects, img, bj, buf, j, n, d, k);
    } else {
      BesideRun(data, sects, img, bj, buf, j, n, d, k);
    }
    hide Overwrite, PutSectors, Refreshed, Adjacent, AllDifferent;
  }

  /** A byte of the transfer. */
  lemma InRun(data: seq<Cell>, sects: seq<nat>, img: seq<Sector>, bj: int, buf: seq<Byte>, j: nat, n: nat,
              d: seq<Byte>, k: nat)
    requires |buf| == SS && 0 < n && Adjacent(sects, j, n) && sects[j] + n <= |img|
    requires |d| == SS * n && SS * j <= |data| && k < |Overwrite(data, SS * j, d)| && j <= k / SS < j + n
    ensures 0 <= k - SS * j < |d| && Overwrite(data, SS * j, d)[k] == Known(d[k - SS * j])
    ensures sects[k / SS] < |img| && PutSectors(img, sects[j], n, d)[sects[k / SS]][k % SS] == d[k - SS * j]
    ensures k / SS == bj ==> Refreshed(bj, buf, j, n, d)[k % SS] == d[k - SS * j]
  {
    RunByte(d, j, n, k);
    hide Overwrite;
  }

  /** A byte outside the transfer. */
  lemma BesideRun(data: seq<Cell>, sects: seq<nat>, img: seq<Sector>, bj: int, buf: seq<Byte>, j: nat, n: nat,
                  d: seq<Byte>, k: nat)
    requires Shows(data, sects, img, bj, buf, false) && AllDifferent(sects)
    requires 0 < n && Adjacent(sects, j, n) && sects[j] + n <= |img|
    requires |d| == SS * n && SS * j <= |data| && k < |Overwrite(data, SS * j, d)| && !(j <= k / SS < j + n)
    ensures k < |data| && Overwrite(data, SS * j, d)[k] == data[k]
    ensures PutSectors(img, sects[j], n, d)[sects[k / SS]] == img[sects[k / SS]]
    ensures k / SS == bj ==> Refreshed(bj, buf, j, n, d) == buf
  {
    assert !(SS * j <= k < SS * j + |d|);
    var q := k / SS;
    if sects[j] <= sects[q] < sects[j] + n {
      InsideRun(sects, j, n, q);
    }
  }

  /** Byte `k` of the file inside a transfer that starts at sector `j`. */
  lemma RunByte(d: seq<Byte>, j: nat, n: nat, k: nat)
    requires |d| == SS * n && j <= k / SS < j + n
    ensures SS * j <= k < SS * j + |d|
    ensures d[SS * (k / SS - j)..SS * (k / SS - j) + SS][k % SS] == d[k - SS * j]
  {
  }

  /** A number in the range of a run of neighbours is one of their sectors. */
  lemma RunMember(sects: seq<nat>, j: nat, n: nat, x: nat)
    requires 0 < n && Adjacent(sects, j, n) && sects[j] <= x < sects[j] + n
    ensures sects[j + (x - sects[j])] == x
  {
  }

  /** A sector of the list that lies in a run of neighbours is one of the run. */
  lemma InsideRun(sects: seq<nat>, j: nat, n: nat, q: nat)
    requires AllDifferent(sects) && 0 < n && Adjacent(sects, j, n) && q < |sects|
    requires sects[j] <= sects[q] < sects[j] + n
    ensures q == j + (sects[q] - sects[j])
  {
    var i := j + (sects[q] - sects[j]);
    assert sects[i] == sects[q];
  }

  /** A direct read of whole sectors, patched from a dirty buffer, is what the file shows. */
  lemma DirectRead(data: seq<Cell>, sects: seq<nat>, img: seq<Sector>, bj: int, buf: seq<Byte>, dirty: bool, j: nat,
                   n: nat, k: nat)
    requires Shows(data, sects, img, bj, buf, dirty)
    requires Adjacent(sects, j, n) && k < SS * n && SS * j + k < |data| && n > 0 && sects[j] + n <= |img|
    ensures data[SS * j + k].Known? ==>
      data[SS * j + k].b == if dirty && j + k / SS == bj then buf[k % SS] else img[sects[j] + k / SS][k % SS]
  {
    InSector(SS * j + k, j + k / SS, k % SS);
  }

  /** The same for the whole transfer, with the patch as one copy. */
  lemma DirectReadAll(data: seq<Cell>, sects: seq<nat>, img: seq<Sector>, bj: int, buf: seq<Byte>, dirty: bool, j: nat,
                      n: nat, raw: seq<Byte>)
    requires Shows(data, sects, img, bj, buf, dirty)
    requires Adjacent(sects, j, n) && 0 < n && sects[j] + n <= |img| && SS * (j + n) <= |data|
    requires |raw| == SS * n && forall k :: 0 <= k < SS * n ==> raw[k] == img[sects[j] + k / SS][k % SS]
    ensures Fits(if dirty && j <= bj < j + n then Splice(raw, SS * (bj - j), buf) else raw,
                 data[SS * j..SS * (j + n)])
  {
    var d := if dirty && j <= bj < j + n then Splice(raw, SS * (bj - j), buf) else raw;
    forall k | 0 <= k < SS * n ensures data[SS * j + k].Known? ==> data[SS * j + k].b == d[k] {
      DirectRead(data, sects, img, bj, buf, dirty, j, n, k);
    }
  }

  /** Part of the buffered sector is what the file shows there. */
  lemma BufferedBytes(data: seq<Cell>, sects: seq<nat>, img: seq<Sector>, bj: int, buf: seq<Byte>, dirty: bool, j: nat,
                      o: nat, n: nat)
    requires Shows(data, sects, img, bj, buf, dirty)
    requires bj == j && o + n <= SS && SS * j + o + n <= |data|
    ensures Fits(buf[o..o + n], Piece(data, SS * j + o, n))
  {
    forall i | o <= i < o + n ensures data[SS * j + i].Known? ==> data[SS * j + i].b == buf[i] {
      InSector(SS * j + i, j, i);
    }
  }

  /** At the growing edge the buffer may stand for a new sector without being loaded. */
  lemma EdgeShows(data: seq<Cell>, sects: seq<nat>, img: seq<Sector>, bj: int, buf: seq<Byte>, j: nat)
    requires Shows(data, sects, img, bj, buf, false)
    requires j < |sects| && |data| <= SS * j
    ensures Shows(data, sects, img, j, buf, false)
  {
  }

  /** More sectors behind the old ones, and changes elsewhere on the volume, do not show. */
  lemma GrowShows(data: seq<Cell>, sects: seq<nat>, img: seq<Sector>, bj: int, buf: seq<Byte>, dirty: bool,
                  sects': seq<nat>, img': seq<Sector>, bj': int)
    requires Shows(data, sects, img, bj, buf, dirty)
    requires sects <= sects' && |img'| == |img|
    requires forall j :: 0 <= j < |sects'| ==> sects'[j] < |img|
    requires forall j :: 0 <= j < |sects| ==> img'[sects[j]] == img[sects[j]]
    requires if bj >= 0 then bj' == bj else bj' == -1 || |sects| <= bj' < |sects'|
    ensures Shows(data, sects', img', bj', buf, dirty)
  {
  }

  /** A stretch without contents shows whatever there is. */
  lemma StretchShows(data: seq<Cell>, sects: seq<nat>, img: seq<Sector>, bj: int, buf: seq<Byte>, dirty: bool, n: nat)
    requires Shows(data, sects, img, bj, buf, dirty) && n <= SS * |sects|
    ensures Shows(Padded(data, n), sects, img, bj, buf, dirty)
  {
  }

  lemma FitsBoth(d: seq<Byte>, c: seq<Cell>, d': seq<Byte>, c': seq<Cell>)
    requires Fits(d, c) && Fits(d', c')
    ensures Fits(d + d', c + c')
  {
  }

  /** Cutting the end off. */
  lemma ShrinkShows(data: seq<Cell>, sects: seq<nat>, img: seq<Sector>, bj: int, buf: seq<Byte>, n: nat, m: nat)
    requires Shows(data, sects, img, bj, buf, false)
    requires n <= |data| && m <= |sects| && n <= SS * m
    ensures Shows(data[..n], sects[..m], img, if bj < m then bj else -1, buf, false)
  {
  }

  /** The first `n` bytes stored in a list of sectors. */
  ghost function Stored(img: seq<Sector>, sects: seq<nat>, n: nat): (data: seq<Cell>)
    requires n <= SS * |sects|
    requires forall j :: 0 <= j < |sects| ==> sects[j] < |img|
    ensures |data| == n
    ensures forall k :: 0 <= k < n ==> data[k] == Known(img[sects[k / SS]][k % SS])
  {
    seq(n, k requires 0 <= k < n => Known(img[sects[k / SS]][k % SS]))
  }
}
