/** Bytes, sectors and the little-endian words that the drivers build from them. */
module Bytes {
  type Byte = b: int | 0 <= b < 256

  const SS := 512                    // bytes per sector (FF_MIN_SS == FF_MAX_SS == 512)
  const TWO32 := 0x1_0000_0000       // number of values of a DWORD

  type Sector = s: seq<Byte> | |s| == SS witness seq(SS, _ => 0)

  /** Unsigned 32-bit subtraction, with its wrap-around. */
  function Sub32(a: int, b: int): int {
    (a - b) % TWO32
  }

  lemma Sub32Window(a: nat, base: nat, size: nat)
    requires a < TWO32 && base + size <= TWO32
    ensures Sub32(a, base) < size <==> base <= a < base + size
  {
  }

  /** Quotient and remainder by the sector size, from a decomposition. */
  lemma InSector(x: int, q: int, r: int)
    requires x == SS * q + r && 0 <= r < SS
    ensures x / SS == q && x % SS == r
  {
  }

  /** `s` with the bytes from `off` on replaced by `d` (what memcpy into a buffer leaves behind). */
  function Splice(s: seq<Byte>, off: nat, d: seq<Byte>): (r: seq<Byte>)
    requires off + |d| <= |s|
    ensures |r| == |s|
    ensures forall k :: 0 <= k < |s| ==> r[k] == if off <= k < off + |d| then d[k - off] else s[k]
  {
    s[..off] + d + s[off + |d|..]
  }

  /** The two bytes st_word stores. */
  function WordBytes(v: nat): (r: seq<Byte>)
    ensures |r| == 2
  {
    [v % 256, v / 256 % 256]
  }

  /** The four bytes st_dword stores. */
  function DwordBytes(v: nat): (r: seq<Byte>)
    ensures |r| == 4
  {
    [v % 256, v / 256 % 256, v / 256 / 256 % 256, v / 256 / 256 / 256 % 256]
  }

  function LdWord(s: seq<Byte>, k: nat): (v: nat)
    requires k + 2 <= |s|
    ensures v < 0x1_0000
  {
    s[k] as nat + 256 * (s[k + 1] as nat)
  }

  function LdDword(s: seq<Byte>, k: nat): (v: nat)
    requires k + 4 <= |s|
    ensures v < TWO32
  {
    s[k] as nat + 256 * (s[k + 1] as nat) + 0x1_0000 * (s[k + 2] as nat) + 0x100_0000 * (s[k + 3] as nat)
  }

  /** What ld_dword loads, byte by byte. */
  lemma DwordInBytes(s: seq<Byte>, k: nat)
    requires k + 4 <= |s|
    ensures var v := LdDword(s, k);
      v % 256 == s[k] && v / 256 % 256 == s[k + 1] && v / 256 / 256 % 256 == s[k + 2] && v / 256 / 256 / 256 == s[k + 3]
  {
    var v := LdDword(s, k);
    assert v / 256 == s[k + 1] as nat + 256 * (s[k + 2] as nat) + 0x1_0000 * (s[k + 3] as nat);
    assert v / 256 / 256 == s[k + 2] as nat + 256 * (s[k + 3] as nat);
  }

  lemma WordRoundTrip(v: nat)
    ensures v % 256 + 256 * (v / 256 % 256) == v % 0x1_0000
  {
    var a := v / 256;
    assert v == 0x1_0000 * (a / 256) + (256 * (a % 256) + v % 256);
  }

  /** st_word, then ld_word. */
  lemma LoadStoreWord(s: seq<Byte>, k: nat, v: nat, j: nat)
    requires k + 2 <= |s| && j + 2 <= |s| && (j == k || j + 2 <= k || k + 2 <= j)
    ensures LdWord(Splice(s, k, WordBytes(v)), j) == if j == k then v % 0x1_0000 else LdWord(s, j)
  {
    if j == k {
      WordRoundTrip(v);
    }
  }

  lemma DwordRoundTrip(v: nat)
    ensures v % 256 + 256 * (v / 256 % 256) + 0x1_0000 * (v / 256 / 256 % 256) +
      0x100_0000 * (v / 256 / 256 / 256 % 256) == v % TWO32
  {
    WordRoundTrip(v);
    WordRoundTrip(v / 256 / 256);
    var m := v / 256 / 256;
    assert v == 0x1_0000 * m + v % 0x1_0000;
    assert v == TWO32 * (m / 0x1_0000) + (0x1_0000 * (m % 0x1_0000) + v % 0x1_0000);
  }

  /** st_dword, then ld_dword. */
  lemma LoadStoreDword(s: seq<Byte>, k: nat, v: nat, j: nat)
    requires k + 4 <= |s| && j + 4 <= |s| && (j == k || j + 4 <= k || k + 4 <= j)
    ensures LdDword(Splice(s, k, DwordBytes(v)), j) == if j == k then v % TWO32 else LdDword(s, j)
  {
    if j == k {
      DwordRoundTrip(v);
    }
  }
}
