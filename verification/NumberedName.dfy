/** Short names with a numeric tail, for names that do not fit 8.3. */
module NumberedName {
  import opened Bytes
  import opened LongName

  const TILDE: Byte := 0x7E
  const BLANK: Byte := 0x20

  /** A bit of a 16-bit word turned over (an exclusive or with 1, 0x20 or 0x1000). */
  function Toggle(x: nat, p: nat): (r: nat)
    requires x < 0x1_0000 && (p == 1 || p == 0x20 || p == 0x1000)
    ensures r < 0x1_0000
  {
    if p == 1 then (if x % 2 == 1 then x - 1 else x + 1)
    else if p == 0x20 then (if x / 0x20 % 2 == 1 then x - 0x20 else x + 0x20)
    else (if x / 0x1000 % 2 == 1 then x - 0x1000 else x + 0x1000)
  }

  /** One bit into the hash: shift, and reduce by 0x11021. */
  function MixBit(r: nat, b: nat): (s: nat)
    requires r < 0x1_0000 && b < 2
    ensures s < 0x1_0000
  {
    var x := 2 * r + b;
    if x >= 0x1_0000 then Toggle(Toggle(Toggle(x - 0x1_0000, 0x1000), 0x20), 1) else x
  }

  /** Every word is made up of bit 15, bits 12 to 14, bit 11, bits 5 to 10, bit 4, and bits 0 to 3. */
  lemma Split(r: nat)
    ensures var a := r / 16; var b := a / 2; var c := b / 64; var d := c / 2;
      r == 0x8000 * (d / 8) + 0x1000 * (d % 8) + 0x800 * (c % 2) + 0x20 * (b % 64) + 0x10 * (a % 2) + r % 16
  {
    var a := r / 16;
    var b := a / 2;
    var c := b / 64;
    assert r == 16 * a + r % 16 && a == 2 * b + a % 2 && b == 64 * c + b % 64 && c == 2 * (c / 2) + c % 2;
  }

  /** One bit goes into the hash: all bits move up by one and the new one comes in below; the one that falls out on top
      turns over bits 12, 5 and 0 (those of 0x1021). */
  lemma MixedBits(top: nat, c: nat, e: nat, m: nat, f: nat, l: nat, b: nat)
    requires top < 2 && c < 8 && e < 2 && m < 64 && f < 2 && l < 16 && b < 2
    ensures MixBit(0x8000 * top + 0x1000 * c + 0x800 * e + 0x20 * m + 0x10 * f + l, b) ==
      0x2000 * c + 0x1000 * ((e + top) % 2) + 0x40 * m + 0x20 * ((f + top) % 2) + 2 * l + (b + top) % 2
  {
    if top == 1 {
      var y := 0x2000 * c + 0x1000 * e + 0x40 * m + 0x20 * f + 2 * l + b;
      assert y / 0x1000 == 2 * c + e;
      var y1 := 0x2000 * c + 0x1000 * (1 - e) + 0x40 * m + 0x20 * f + 2 * l + b;
      assert Toggle(y, 0x1000) == y1;
      assert y1 / 0x20 == 0x100 * c + 0x80 * (1 - e) + 2 * m + f;
      var y2 := 0x2000 * c + 0x1000 * (1 - e) + 0x40 * m + 0x20 * (1 - f) + 2 * l + b;
      assert Toggle(y1, 0x20) == y2;
      assert y2 % 2 == b;
    }
  }

  /** The lowest `n` bits of a character into the hash, from the least significant one on. */
  function MixUnit(r: nat, wc: nat, n: nat): (s: nat)
    requires r < 0x1_0000
    ensures s < 0x1_0000
    decreases n
  {
    if n == 0 then r else MixUnit(MixBit(r, wc % 2), wc / 2, n - 1)
  }

  function Hash(r: nat, name: seq<Wchar>): (s: nat)
    requires r < 0x1_0000
    ensures s < 0x1_0000
  {
    if name == [] then r else MixUnit(Hash(r, name[..|name| - 1]), name[|name| - 1], 16)
  }

  /** The number a name gets at the n-th try: the first five in sequence, the others hashed. */
  function NumberFor(name: seq<Wchar>, n: nat): (v: nat)
    requires n < 0x1_0000
    ensures v < 0x1_0000
  {
    if n > 5 then Hash(n, name) else n
  }

  function HexDigit(n: nat): (b: Byte)
    requires n < 16
  {
    if n < 10 then 0x30 + n else 0x37 + n
  }

  predicate IsHexDigit(b: Byte) {
    0x30 <= b <= 0x39 || 0x41 <= b <= 0x46
  }

  /** A number in hexadecimal, without leading zeros. */
  function Digits(v: nat): (d: seq<Byte>)
    ensures |d| > 0 && forall i :: 0 <= i < |d| ==> IsHexDigit(d[i])
  {
    if v < 16 then [HexDigit(v)] else Digits(v / 16) + [HexDigit(v % 16)]
  }

  /** The numbered names of NOTE    TXT: the first, and one with four digits. */
  lemma NumberedNote()
    ensures var src := [0x4E, 0x4F, 0x54, 0x45, 0x20, 0x20, 0x20, 0x20, 0x54, 0x58, 0x54];
      && Numbered(src, 1) == [0x4E, 0x4F, 0x54, 0x45, 0x7E, 0x31, 0x20, 0x20, 0x54, 0x58, 0x54]
      && Numbered(src, 0x1A2F) == [0x4E, 0x4F, 0x54, 0x7E, 0x31, 0x41, 0x32, 0x46, 0x54, 0x58, 0x54]
  {
    var src := [0x4E, 0x4F, 0x54, 0x45, 0x20, 0x20, 0x20, 0x20, 0x54, 0x58, 0x54];
    Tails();
    assert src[4] == BLANK && BodyEnd(src, 0, 6) == 4 && BodyEnd(src, 0, 3) == 3;
    hide Tail, BodyEnd;
    assert src[..4] + [0x7E, 0x31] + Blanks(2) + src[8..] ==
      [0x4E, 0x4F, 0x54, 0x45, 0x7E, 0x31, 0x20, 0x20, 0x54, 0x58, 0x54];
  }

  lemma Tails()
    ensures Tail(1) == [0x7E, 0x31] && Tail(0x1A2F) == [0x7E, 0x31, 0x41, 0x32, 0x46]
  {
    assert Digits(0x1A2F) == Digits(0x1A2) + [0x46] && Digits(0x1A2) == Digits(0x1A) + [0x32];
  }

  lemma DigitCount(v: nat)
    requires v < 0x1_0000
    ensures |Digits(v)| <= 4
  {
    if v >= 16 {
      assert |Digits(v)| == |Digits(v / 16)| + 1;
      if v >= 256 {
        assert |Digits(v / 16)| == |Digits(v / 16 / 16)| + 1;
        assert v / 16 / 16 >= 16 ==> |Digits(v / 16 / 16)| == |Digits(v / 16 / 16 / 16)| + 1;
      }
    }
  }

  lemma OneDigit(v: nat)
    ensures |Digits(v)| == 1 <==> v < 16
  {
    assert v >= 16 ==> |Digits(v)| == |Digits(v / 16)| + 1;
  }

  lemma {:induction false} DigitsInjective(v: nat, w: nat)
    requires Digits(v) == Digits(w)
    ensures v == w
    decreases v
  {
    var a, b := Digits(v), Digits(w);
    OneDigit(v);
    OneDigit(w);
    assert a[|a| - 1] == HexDigit(v % 16) && b[|b| - 1] == HexDigit(w % 16);
    if v >= 16 {
      assert a[..|a| - 1] == Digits(v / 16) && b[..|b| - 1] == Digits(w / 16);
      DigitsInjective(v / 16, w / 16);
    }
  }

  /** The tail: a tilde and the digits. */
  function Tail(v: nat): (t: seq<Byte>)
    requires v < 0x1_0000
    ensures 2 <= |t| <= 5 && t[0] == TILDE && forall i :: 1 <= i < |t| ==> IsHexDigit(t[i])
  {
    DigitCount(v);
    [TILDE] + Digits(v)
  }

  /** Where the body ends: at its first space, or at `hi`. */
  function BodyEnd(src: seq<Byte>, lo: nat, hi: nat): (k: nat)
    requires lo <= hi <= |src|
    ensures lo <= k <= hi && (k < hi ==> src[k] == BLANK) && forall i :: lo <= i < k ==> src[i] != BLANK
    decreases hi - lo
  {
    if lo == hi || src[lo] == BLANK then lo else BodyEnd(src, lo + 1, hi)
  }

  function Blanks(n: nat): (s: seq<Byte>)
    ensures |s| == n && forall i :: 0 <= i < n ==> s[i] == BLANK
  {
    seq(n, _ => BLANK)
  }

  /** A short name with number v: as much of the body as leaves room, the tail, and the extension as it was. */
  function Numbered(src: seq<Byte>, v: nat): (dst: seq<Byte>)
    requires |src| == 11 && v < 0x1_0000
    ensures |dst| == 11
  {
    var tail := Tail(v);
    var k := BodyEnd(src, 0, 8 - |tail|);
    src[..k] + tail + Blanks(8 - k - |tail|) + src[8..]
  }

  /** Different numbers give different names. */
  lemma NumberedInjective(src: seq<Byte>, v: nat, w: nat)
    requires |src| == 11 && v < 0x1_0000 && w < 0x1_0000 && Numbered(src, v) == Numbered(src, w)
    ensures v == w
  {
    var a, b := Tail(v), Tail(w);
    var k, l := BodyEnd(src, 0, 8 - |a|), BodyEnd(src, 0, 8 - |b|);
    TailPlaces(src, v);
    TailPlaces(src, w);
    SameTail(Numbered(src, v), src, a, b, k, l);
    assert a[1..] == Digits(v) && b[1..] == Digits(w);
    DigitsInjective(v, w);
  }

  lemma TailPlaces(src: seq<Byte>, v: nat)
    requires |src| == 11 && v < 0x1_0000
    ensures var d, a := Numbered(src, v), Tail(v);
      var k := BodyEnd(src, 0, 8 - |a|);
      && (forall i :: k <= i < k + |a| ==> d[i] == a[i - k])
      && (forall i :: k + |a| <= i < 8 ==> d[i] == BLANK)
  {
    hide Tail, BodyEnd;
  }

  /** In one name there is one tail. */
  lemma SameTail(d: seq<Byte>, src: seq<Byte>, a: seq<Byte>, b: seq<Byte>, k: nat, l: nat)
    requires |d| == |src| == 11 && 2 <= |a| <= 5 && 2 <= |b| <= 5 && a[0] == b[0] == TILDE
    requires (forall i :: 1 <= i < |a| ==> IsHexDigit(a[i])) && forall i :: 1 <= i < |b| ==> IsHexDigit(b[i])
    requires k == BodyEnd(src, 0, 8 - |a|) && l == BodyEnd(src, 0, 8 - |b|)
    requires (forall i :: k <= i < k + |a| ==> d[i] == a[i - k]) && forall i :: k + |a| <= i < 8 ==> d[i] == BLANK
    requires (forall i :: l <= i < l + |b| ==> d[i] == b[i - l]) && forall i :: l + |b| <= i < 8 ==> d[i] == BLANK
    ensures a == b
  {
    hide BodyEnd;
    assert d[k] == TILDE && d[l] == TILDE;
    assert IsHexDigit(d[k + |a| - 1]) && IsHexDigit(d[l + |b| - 1]);
    assert k == l && |a| == |b|;
    forall i | 0 <= i < |a| ensures a[i] == b[i] { assert d[k + i] == a[i]; }
  }

  /** The extension stays, and the name begins as before or with the tail. */
  lemma NumberedKeeps(src: seq<Byte>, v: nat)
    requires |src| == 11 && v < 0x1_0000
    ensures Numbered(src, v)[8..] == src[8..]
    ensures Numbered(src, v)[0] == if src[0] == BLANK then TILDE else src[0]
  {
    var k := BodyEnd(src, 0, 8 - |Tail(v)|);
    hide Tail;
    assert k == 0 <==> src[0] == BLANK;
  }

  /** The CRC loop over the long name. */
  method HashLoop(lfn: seq<Wchar>, n: nat, ghost name: seq<Wchar>) returns (sreg: nat)
    requires IsName(name) && Holds(lfn, name) && n < 0x1_0000
    ensures sreg == Hash(n, name)
  {
    sreg := n;
    var p := 0;
    HeldAt(lfn, name);
    hide Holds, IsName, MixUnit;
    while lfn[p] != 0
      invariant 0 <= p <= |name| && sreg == Hash(n, name[..p]) && sreg < 0x1_0000
      decreases |name| - p
    {
      sreg := UnitLoop(sreg, lfn[p]);
      assert name[..p + 1][..p] == name[..p];
      p := p + 1;
    }
    assert name[..p] == name;
  }

  lemma HeldAt(lfn: seq<Wchar>, name: seq<Wchar>)
    requires IsName(name) && Holds(lfn, name)
    ensures |name| < |lfn| && lfn[|name|] == 0 && forall i :: 0 <= i < |name| ==> lfn[i] == name[i] && name[i] != 0
  {
    forall i | 0 <= i < |name| ensures lfn[i] == name[i] { assert lfn[..|name|][i] == lfn[i]; }
  }

  /** The bits of one character. */
  method UnitLoop(sreg0: nat, unit: Wchar) returns (sreg: nat)
    requires sreg0 < 0x1_0000
    ensures sreg == MixUnit(sreg0, unit, 16) < 0x1_0000
  {
    hide MixBit;
    sreg := sreg0;
    var wc: nat := unit;
    var i := 0;
    while i < 16
      invariant 0 <= i <= 16 && sreg < 0x1_0000 && MixUnit(sreg, wc, 16 - i) == MixUnit(sreg0, unit, 16)
    {
      sreg := MixBit(sreg, wc % 2);
      wc := wc / 2;
      i := i + 1;
    }
  }

  lemma NumberIs(name: seq<Wchar>, n: nat)
    requires n < 0x1_0000
    ensures NumberFor(name, n) == if n > 5 then Hash(n, name) else n
  {
    hide Hash;
  }

  /** gen_numname */
  method GenNumname(src: seq<Byte>, lfn: seq<Wchar>, n: nat, ghost name: seq<Wchar>) returns (dst: seq<Byte>)
    requires |src| == 11 && IsName(name) && Holds(lfn, name) && n < 0x1_0000
    ensures dst == Numbered(src, NumberFor(name, n))
  {
    hide *;
    NumberIs(name, n);
    var v := n;
    if n > 5 {
      v := HashLoop(lfn, n, name);
    }
    var ns, i := MakeTail(v);
    ghost var tail := Tail(v);
    dst := src;
    var j := FindEnd(dst, i);
    ghost var k := j;
    AppendStarts(src, ns, i, k, tail, v);
    while true
      invariant Appending(src, dst, ns, i, j, k, tail)
      decreases 8 as int - j
    {
      AppendOk(src, dst, ns, i, j, k, tail);
      dst := PutTail(src, dst, ns, i, j, k, tail);
      if i < 8 { i := i + 1; }
      j := j + 1;
      AppendNext(src, dst, ns, i, j, k, tail);
      if j >= 8 { break; }
    }
    AppendEnds(src, v, k, tail, dst);
  }

  /** The loop that appends the suffix: the next character of ns[], or a space, goes to place j. */
  ghost predicate Appending(src: seq<Byte>, dst: seq<Byte>, ns: seq<Byte>, i: nat, j: nat, k: nat, tail: seq<Byte>) {
    && |src| == 11 && |dst| == 11 && |ns| == 8 && 2 <= |tail| <= 5 && k + |tail| <= 8 && ns[8 - |tail|..] == tail
    && k <= j < 8 && i == (if j - k < |tail| then 8 - |tail| + (j - k) else 8)
    && dst == src[..k] + (tail + Blanks(8 - k - |tail|))[..j - k] + src[j..]
  }

  lemma AppendStarts(src: seq<Byte>, ns: seq<Byte>, i: nat, k: nat, tail: seq<Byte>, v: nat)
    requires |src| == 11 && |ns| == 8 && v < 0x1_0000 && tail == Tail(v) && i == 8 - |tail| && ns[i..] == tail
    requires k == BodyEnd(src, 0, i)
    ensures Appending(src, src, ns, i, k, k, tail)
  {
    hide Tail, BodyEnd;
  }

  lemma AppendOk(src: seq<Byte>, dst: seq<Byte>, ns: seq<Byte>, i: nat, j: nat, k: nat, tail: seq<Byte>)
    requires Appending(src, dst, ns, i, j, k, tail)
    ensures |src| == 11 && |ns| == 8 && 2 <= |tail| <= 5 && k + |tail| <= 8 && k <= j < 8
    ensures ns[8 - |tail|..] == tail && i == if j - k < |tail| then 8 - |tail| + (j - k) else 8
    ensures |dst| == 11 && dst == src[..k] + (tail + Blanks(8 - k - |tail|))[..j - k] + src[j..]
  {
  }

  lemma AppendNext(src: seq<Byte>, dst: seq<Byte>, ns: seq<Byte>, i: nat, j: nat, k: nat, tail: seq<Byte>)
    requires |src| == 11 && |ns| == 8 && 2 <= |tail| <= 5 && k + |tail| <= 8 && k < j <= 8 && ns[8 - |tail|..] == tail
    requires i == if j - k < |tail| then 8 - |tail| + (j - k) else 8
    requires |dst| == 11 && dst == src[..k] + (tail + Blanks(8 - k - |tail|))[..j - k] + src[j..]
    ensures j < 8 ==> Appending(src, dst, ns, i, j, k, tail)
    ensures j >= 8 ==> dst == src[..k] + (tail + Blanks(8 - k - |tail|)) + src[8..]
  {
    assert j >= 8 ==> (tail + Blanks(8 - k - |tail|))[..j - k] == tail + Blanks(8 - k - |tail|);
  }

  lemma AppendEnds(src: seq<Byte>, v: nat, k: nat, tail: seq<Byte>, dst: seq<Byte>)
    requires |src| == 11 && v < 0x1_0000 && tail == Tail(v) && k == BodyEnd(src, 0, 8 - |tail|) && k + |tail| <= 8
    requires dst == src[..k] + (tail + Blanks(8 - k - |tail|)) + src[8..]
    ensures dst == Numbered(src, v)
  {
    hide Tail, BodyEnd;
  }

  /** Find the offset to append. */
  method FindEnd(dst: seq<Byte>, i: nat) returns (j: nat)
    requires i <= |dst|
    ensures j == BodyEnd(dst, 0, i)
  {
    j := 0;
    while j < i && dst[j] != BLANK
      invariant 0 <= j <= i && BodyEnd(dst, 0, i) == BodyEnd(dst, j, i)
    {
      j := j + 1;
    }
  }

  /** One character of the tail, or a space behind it. */
  method PutTail(src: seq<Byte>, dst0: seq<Byte>, ns: seq<Byte>, i: nat, j: nat, ghost k: nat, ghost tail: seq<Byte>)
    returns (dst: seq<Byte>)
    requires |src| == 11 && |ns| == 8 && 2 <= |tail| <= 5 && k + |tail| <= 8 && k <= j < 8
    requires ns[8 - |tail|..] == tail && i == if j - k < |tail| then 8 - |tail| + (j - k) else 8
    requires |dst0| == 11 && dst0 == src[..k] + (tail + Blanks(8 - k - |tail|))[..j - k] + src[j..]
    ensures |dst| == 11 && dst == src[..k] + (tail + Blanks(8 - k - |tail|))[..j + 1 - k] + src[j + 1..]
  {
    var c := if i < 8 then ns[i] else BLANK;
    dst := dst0[j := c];
    ghost var s := tail + Blanks(8 - k - |tail|);
    assert i < 8 ==> ns[i] == ns[8 - |tail|..][i - (8 - |tail|)];
    assert s[j - k] == c;
    assert s[..j + 1 - k] == s[..j - k] + [c];
  }

  /** The suffix: its characters fill the end of ns[], from place i on. */
  method MakeTail(v: nat) returns (ns: seq<Byte>, i: nat)
    requires v < 0x1_0000
    ensures |ns| == 8 && i == 8 - |Tail(v)| && ns[i..] == Tail(v)
  {
    DigitCount(v);
    ns := Blanks(8);
    i := 7;
    var q := v;
    while true
      invariant 0 < i <= 7 && |ns| == 8 && |Digits(q)| + 7 - i <= 4 && Digits(q) + ns[i + 1..] == Digits(v)
      decreases i
    {
      var c := q % 16 + 0x30;
      ghost var q0 := q;
      q := q / 16;
      if c > 0x39 { c := c + 7; }
      ns := ns[i := c];
      i := i - 1;
      assert ns[i + 1..] == [HexDigit(q0 % 16)] + ns[i + 2..];
      if i == 0 || q == 0 { break; }
    }
    ns := ns[i := TILDE];
  }
}
