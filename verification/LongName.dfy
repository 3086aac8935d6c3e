/** Long file names in directory entries: written, read back and compared in pieces of 13 characters. */
module LongName {
  import opened Bytes

  type Wchar = c: nat | c < 0x1_0000
  type Entry = e: seq<Byte> | |e| == 32 witness seq(32, _ => 0)

  const MAX_LFN: nat := 255     // FF_MAX_LFN
  const LLEF: nat := 0x40       // last long entry flag
  const AM_LFN: nat := 0x0F
  const DDEM: nat := 0xE5       // deleted entry
  const FILLER: Wchar := 0xFFFF

  /** LfnOfs[] */
  function LfnOfs(s: nat): (k: nat)
    requires s < 13
    ensures 1 <= k <= 30 && k != 11 && k != 12 && k != 13 && k != 10 && (k <= 9 || 14 <= k <= 24 || 28 <= k)
  {
    if s < 5 then 1 + 2 * s else if s < 11 then 4 + 2 * s else 6 + 2 * s
  }

  /** The characters of an entry stand in the order of the name, and fill all of it but the byte for the number, three
      bytes after the tenth and the word after the twenty-fifth. */
  lemma OffsetsAscend(s: nat, t: nat)
    requires s < t < 13
    ensures LfnOfs(s) + 2 <= LfnOfs(t)
  {
  }

  lemma OffsetsFill(k: nat)
    requires k < 32
    ensures (exists s :: 0 <= s < 13 && LfnOfs(s) <= k < LfnOfs(s) + 2) <==> k !in [0, 11, 12, 13, 26, 27]
  {
    if k !in [0, 11, 12, 13, 26, 27] {
      var s := if k < 11 then (k - 1) / 2 else if k < 26 then 5 + (k - 14) / 2 else 11 + (k - 28) / 2;
      assert LfnOfs(s) <= k < LfnOfs(s) + 2;
    }
  }

  /** Of a byte made up of bit 7, bit 6 and the six bits below, bit 6 marks the last part, and the others are the
      number. */
  lemma MarkBit(top: nat, mark: nat, low: nat)
    requires top < 2 && mark < 2 && low < 64
    ensures var b := 128 * top + 64 * mark + low; (Last(b) <==> mark == 1) && OrdOf(b) == 128 * top + low
  {
    assert (128 * top + 64 * mark + low) / 64 == 2 * top + mark;
  }

  /** The s-th character of an LFN entry. */
  function Unit(e: Entry, s: nat): Wchar
    requires s < 13
  {
    LdWord(e, LfnOfs(s))
  }

  /** A name as the entries hold it: the characters, a terminator, fillers. */
  function Padded(name: seq<Wchar>, p: nat): Wchar {
    if p < |name| then name[p] else if p == |name| then 0 else FILLER
  }

  /** A name for the entries. */
  ghost predicate Characters(name: seq<Wchar>) {
    1 <= |name| <= MAX_LFN && forall i :: 0 <= i < |name| ==> name[i] != 0
  }

  /** The value of the fillers is no character of it, but for some at the end that fill up its last part. */
  ghost predicate Storable(name: seq<Wchar>) {
    forall i :: 0 <= i < |name| && name[i] == FILLER ==>
      |name| % 13 == 0 && i >= |name| - 13 && forall p :: i <= p < |name| ==> name[p] == FILLER
  }

  /** A name a directory can hold. */
  ghost predicate IsName(name: seq<Wchar>) {
    Characters(name) && Storable(name)
  }

  lemma NameParts(name: seq<Wchar>)
    requires IsName(name)
    ensures Characters(name) && Storable(name)
  {
  }

  /** The working buffer holds the name. */
  ghost predicate Holds(buf: seq<Wchar>, name: seq<Wchar>) {
    |buf| == MAX_LFN + 1 && |name| <= MAX_LFN && buf[..|name|] == name && buf[|name|] == 0
  }

  /** LFN entries a name takes. */
  function PartCount(name: seq<Wchar>): nat {
    (|name| + 12) / 13
  }

  /** Entry number `ord` of a long name. */
  ghost predicate IsPart(e: Entry, name: seq<Wchar>, ord: nat, sum: Byte) {
    && 1 <= ord <= PartCount(name)
    && e[0] == ord + (if ord == PartCount(name) then LLEF else 0)
    && e[11] == AM_LFN && e[12] == 0 && e[13] == sum && LdWord(e, 26) == 0
    && forall s :: 0 <= s < 13 ==> Unit(e, s) == Padded(name, 13 * (ord - 1) + s)
  }

  /** A part byte by byte: the number, with the mark in the last part; the characters, low byte first; the attributes,
      the checksum, and zeros. */
  lemma PartInBytes(e: Entry, name: seq<Wchar>, ord: nat, sum: Byte)
    requires IsPart(e, name, ord, sum)
    ensures e[0] == if 13 * ord >= |name| then 0x40 + ord else ord
    ensures e[11] == 0x0F && e[12] == 0 && e[13] == sum && e[26] == 0 && e[27] == 0
    ensures forall s {:trigger LfnOfs(s)} :: 0 <= s < 13 ==>
      var p := 13 * (ord - 1) + s;
      var c := if p < |name| then name[p] else if p == |name| then 0 else 0xFFFF;
      e[LfnOfs(s)] == c % 256 && e[LfnOfs(s) + 1] == c / 256
  {
    forall s | 0 <= s < 13 ensures Unit(e, s) % 256 == e[LfnOfs(s)] && Unit(e, s) / 256 == e[LfnOfs(s) + 1] {
    }
    hide LfnOfs;
  }

  lemma StoreUnit(e: Entry, s: nat, wc: Wchar, t: nat)
    requires s < 13 && t < 13
    ensures Unit(Splice(e, LfnOfs(s), WordBytes(wc)), t) == if t == s then wc else Unit(e, t)
  {
    LoadStoreWord(e, LfnOfs(s), wc, LfnOfs(t));
  }

  /** The bytes of an entry that hold no characters. */
  predicate SameFrame(a: Entry, b: Entry) {
    a[0] == b[0] && a[11] == b[11] && a[12] == b[12] && a[13] == b[13] && LdWord(a, 26) == LdWord(b, 26)
  }

  lemma StoreFrame(e: Entry, s: nat, wc: Wchar)
    requires s < 13
    ensures SameFrame(Splice(e, LfnOfs(s), WordBytes(wc)), e)
  {
    LoadStoreWord(e, LfnOfs(s), wc, 26);
  }

  /** Some character of the name from place `lo` on and before `hi` looks like a filler. */
  ghost predicate Filling(name: seq<Wchar>, lo: nat, hi: nat) {
    exists q :: lo <= q < hi && q < |name| && name[q] == FILLER
  }

  /** What put_lfn makes of any name: from such a character on it takes the part for finished, and the last. */
  ghost predicate Written(e: Entry, name: seq<Wchar>, ord: nat, sum: Byte) {
    && 1 <= ord <= PartCount(name)
    && e[0] == ord + (if ord == PartCount(name) || Filling(name, 13 * (ord - 1), 13 * ord) then LLEF else 0)
    && e[11] == AM_LFN && e[12] == 0 && e[13] == sum && LdWord(e, 26) == 0
    && forall s :: 0 <= s < 13 ==> Unit(e, s) == Laid(name, 13 * (ord - 1), s)
  }

  ghost function Laid(name: seq<Wchar>, base: nat, s: nat): Wchar {
    if Filling(name, base, base + s) then FILLER else Padded(name, base + s)
  }

  /** put_lfn: one entry of the name in the buffer. */
  method PutLfn(lfn: seq<Wchar>, dir0: Entry, ord: nat, sum: Byte, ghost name: seq<Wchar>) returns (dir: Entry)
    requires Characters(name) && Holds(lfn, name) && 1 <= ord <= PartCount(name)
    ensures Written(dir, name, ord, sum)
    ensures Storable(name) ==> IsPart(dir, name, ord, sum)
  {
    dir := dir0[13 := sum][11 := AM_LFN][12 := 0];
    dir := Splice(dir, 26, WordBytes(0));
    var base := 13 * (ord - 1);
    var i, s, wc: Wchar := base, 0, 0;
    PutStart(dir0, sum);
    ghost var dir1 := dir;
    hide Filling;
    while s < 13
      invariant 0 <= s <= 13 && SameFrame(dir, dir1)
      invariant wc == FILLER <==> base + s > |name| || Filling(name, base, base + s)
      invariant wc != FILLER ==> i == base + s
      invariant forall t :: 0 <= t < s ==> Unit(dir, t) == Laid(name, base, t)
    {
      FillingNext(name, base, base + s);
      if wc != FILLER {
        wc := lfn[i];
        i := i + 1;
      }
      StoreFrame(dir, s, wc);
      forall t | 0 <= t <= s
        ensures Unit(Splice(dir, LfnOfs(s), WordBytes(wc)), t) == if t == s then wc else Unit(dir, t)
      {
        StoreUnit(dir, s, wc, t);
      }
      dir := Splice(dir, LfnOfs(s), WordBytes(wc));
      if wc == 0 {
        wc := FILLER;
      }
      s := s + 1;
    }
    dir := PutOrd(dir, if wc == FILLER || lfn[i] == 0 then ord + LLEF else ord);
    if Storable(name) {
      StoredPart(dir, name, ord, sum);
    }
  }

  lemma FillingNext(name: seq<Wchar>, lo: nat, hi: nat)
    requires lo <= hi
    ensures !Filling(name, lo, lo)
    ensures Filling(name, lo, hi + 1) <==> Filling(name, lo, hi) || (hi < |name| && name[hi] == FILLER)
  {
  }

  /** What is written of a storable name is its part. */
  lemma StoredPart(e: Entry, name: seq<Wchar>, ord: nat, sum: Byte)
    requires Storable(name) && Written(e, name, ord, sum)
    ensures IsPart(e, name, ord, sum)
  {
    var base := 13 * (ord - 1);
    forall s | 0 <= s < 13 ensures Laid(name, base, s) == Padded(name, base + s) {
    }
  }

  /** A character that looks like a filler, and not one of those that fill up the last part, has something else behind
      it in its part, or a part behind its own. */
  lemma SomethingBehind(name: seq<Wchar>, i: nat, end: nat)
    requires i < |name| && name[i] == FILLER && end == 13 * (i / 13 + 1)
    requires !(|name| % 13 == 0 && i >= |name| - 13 && forall p :: i <= p < |name| ==> name[p] == FILLER)
    ensures |name| > end || exists p :: i < p < end && Padded(name, p) != FILLER
  {
    if |name| < end {
      assert Padded(name, |name|) == 0;
    } else if |name| == end {
      assert |name| % 13 == 0 && i >= |name| - 13;
      var p :| i <= p < |name| && name[p] != FILLER;
      assert Padded(name, p) == name[p];
    }
  }

  /** A part that a character in the name ends too early. */
  lemma WrongPart(e: Entry, name: seq<Wchar>, i: nat, sum: Byte)
    requires i < |name| && name[i] == FILLER && Written(e, name, i / 13 + 1, sum)
    requires !(|name| % 13 == 0 && i >= |name| - 13 && forall p :: i <= p < |name| ==> name[p] == FILLER)
    ensures !IsPart(e, name, i / 13 + 1, sum)
  {
    var ord := i / 13 + 1;
    var base := 13 * (ord - 1);
    SomethingBehind(name, i, 13 * ord);
    assert Filling(name, base, 13 * ord);
    if |name| <= 13 * ord {
      var p :| i < p < 13 * ord && Padded(name, p) != FILLER;
      var s := p - base;
      assert Filling(name, base, base + s) && 0 <= s < 13;
      assert Unit(e, s) == Laid(name, base, s) == FILLER != Padded(name, base + s);
    }
  }

  /** The parts written are those of the name exactly when it is storable. */
  lemma StoredExactly(name: seq<Wchar>, es: seq<Entry>, sum: Byte)
    requires Characters(name) && |es| == PartCount(name)
    requires forall k :: 0 <= k < |es| ==> Written(es[k], name, k + 1, sum)
    ensures (forall k :: 0 <= k < |es| ==> IsPart(es[k], name, k + 1, sum)) <==> Storable(name)
  {
    if Storable(name) {
      forall k | 0 <= k < |es| ensures IsPart(es[k], name, k + 1, sum) {
        StoredPart(es[k], name, k + 1, sum);
      }
    } else {
      var i :| 0 <= i < |name| && name[i] == FILLER &&
        !(|name| % 13 == 0 && i >= |name| - 13 && forall p :: i <= p < |name| ==> name[p] == FILLER);
      WrongPart(es[i / 13], name, i, sum);
      assert !IsPart(es[i / 13], name, i / 13 + 1, sum);
    }
  }

  /** The place of the first character that looks like a filler. */
  function FirstFiller(name: seq<Wchar>): (i: nat)
    ensures i <= |name| && (forall p :: 0 <= p < i ==> name[p] != FILLER) && (i < |name| ==> name[i] == FILLER)
  {
    if name == [] || name[0] == FILLER then 0 else 1 + FirstFiller(name[1..])
  }

  /** What the entries written of a name hold: from the first such character on, fillers to the end of its part. */
  function StoredAs(name: seq<Wchar>): seq<Wchar> {
    var i := FirstFiller(name);
    if i == |name| then name else name[..i] + seq(13 * (i / 13 + 1) - i, _ => FILLER)
  }

  /** That is the name itself exactly when it is storable. */
  lemma StoredAsSame(name: seq<Wchar>)
    ensures StoredAs(name) == name <==> Storable(name)
  {
    var i, t := FirstFiller(name), StoredAs(name);
    hide FirstFiller;
    var q := i / 13;
    assert 13 * q <= i < 13 * q + 13;
    if i < |name| {
      assert |t| == 13 * (q + 1) && forall p :: i <= p < |t| ==> t[p] == FILLER;
      if t == name {
        FilledUp(name, i, q);
      }
      if Storable(name) {
        assert name[i] == FILLER;
        LastPart(|name|, i, q);
        assert t == name;
      }
    }
  }

  lemma FilledUp(name: seq<Wchar>, i: nat, q: nat)
    requires |name| == 13 * (q + 1) && 13 * q <= i && forall p :: 0 <= p < |name| ==> (name[p] == FILLER <==> i <= p)
    ensures Storable(name)
  {
    assert |name| % 13 == 0;
  }

  lemma LastPart(n: nat, i: nat, q: nat)
    requires n % 13 == 0 && n - 13 <= i < n && 13 * q <= i < 13 * q + 13
    ensures n == 13 * (q + 1)
  {
  }

  /** The entries written of any name are those of what it is stored as, as far as there are any. */
  lemma StoredAsPart(e: Entry, name: seq<Wchar>, ord: nat, sum: Byte)
    requires Characters(name) && Written(e, name, ord, sum) && ord <= PartCount(StoredAs(name))
    ensures IsPart(e, StoredAs(name), ord, sum)
  {
    var i, t, base := FirstFiller(name), StoredAs(name), 13 * (ord - 1);
    FillingFrom(name, base, 13 * ord);
    forall s | 0 <= s < 13 ensures Laid(name, base, s) == Padded(t, base + s) {
      FillingFrom(name, base, base + s);
    }
  }

  /** Up to the part it is in, the first such character tells. */
  lemma FillingFrom(name: seq<Wchar>, lo: nat, hi: nat)
    requires FirstFiller(name) == |name| || lo <= FirstFiller(name)
    ensures Filling(name, lo, hi) <==> FirstFiller(name) < |name| && FirstFiller(name) < hi
  {
  }

  /** What a name is stored as is a name, unless it is too long. */
  lemma StoredAsName(name: seq<Wchar>)
    requires Characters(name)
    ensures 1 <= PartCount(StoredAs(name)) <= PartCount(name)
    ensures |StoredAs(name)| <= MAX_LFN ==> IsName(StoredAs(name))
    ensures |StoredAs(name)| > MAX_LFN ==> PartCount(StoredAs(name)) == PartCount(name) == 20 && |StoredAs(name)| == 260
  {
    var i, t := FirstFiller(name), StoredAs(name);
    if i < |name| {
      assert |t| == 13 * (i / 13 + 1) && PartCount(t) == i / 13 + 1;
      forall p | 0 <= p < |t| ensures t[p] != 0 && (t[p] == FILLER ==> p >= i) {
        if p < i { assert t[p] == name[p]; }
      }
    }
  }

  /** A name that loses its end: "a", U+FFFF, "b" is stored as "a" and twelve times U+FFFF. */
  lemma FillerLost()
    ensures var name := [0x61, FILLER, 0x62];
      Characters(name) && !Storable(name) && StoredAs(name) == [0x61] + seq(12, _ => FILLER)
  {
    var name := [0x61, FILLER, 0x62];
    var i := FirstFiller(name);
    assert i == 1 by {
      assert name[0] != FILLER && name[1] == FILLER;
    }
    assert name[..1] == [0x61];
    assert |name| % 13 == 3;
    assert name[1] == FILLER;
  }

  lemma PutStart(dir0: Entry, sum: Byte)
    ensures var d := Splice(dir0[13 := sum][11 := AM_LFN][12 := 0], 26, WordBytes(0));
      d[11] == AM_LFN && d[12] == 0 && d[13] == sum && LdWord(d, 26) == 0
  {
  }

  function PutOrd(dir: Entry, ord: Byte): (r: Entry)
    ensures r[0] == ord && r[1..] == dir[1..]
    ensures forall s :: 0 <= s < 13 ==> Unit(r, s) == Unit(dir, s)
  {
    dir[0 := ord]
  }

  // Reading a part back.

  /** Characters of an entry before its terminator. */
  function Stop(e: Entry, s: nat): (n: nat)
    requires s <= 13
    ensures s <= n <= 13 && (n < 13 ==> Unit(e, n) == 0) && forall t :: s <= t < n ==> Unit(e, t) != 0
    decreases 13 - s
  {
    if s == 13 || Unit(e, s) == 0 then s else Stop(e, s + 1)
  }

  /** Only fillers follow the terminator. */
  predicate FillersOk(e: Entry) {
    forall t :: Stop(e, 0) < t < 13 ==> Unit(e, t) == FILLER
  }

  /** The characters of an entry with its terminator. */
  function Held(e: Entry): (n: nat)
    ensures n <= 13
  {
    if Stop(e, 0) == 13 then 13 else Stop(e, 0) + 1
  }

  function OrdOf(b: Byte): nat {
    if b / 64 % 2 == 1 then b - 64 else b
  }

  predicate Last(b: Byte) {
    b / 64 % 2 == 1
  }

  /** The place of an entry is within the buffer. */
  predicate Fits(e: Entry) {
    13 * (OrdOf(e[0]) - 1) + Held(e) + (if Last(e[0]) && Stop(e, 0) == 13 then 1 else 0) <= MAX_LFN + 1
  }

  /** What an entry leaves at a place of the buffer that held `was`. */
  function Picked(e: Entry, p: nat, was: Wchar): Wchar {
    var base := 13 * (OrdOf(e[0]) - 1);
    if base <= p < base + Held(e) then Unit(e, p - base)
    else if Last(e[0]) && p == base + 13 && Stop(e, 0) == 13 then 0
    else was
  }

  /** pick_lfn: the characters of an entry go to their place in the buffer. */
  method PickLfn(lfnbuf: array<Wchar>, e: Entry) returns (ok: bool)
    requires lfnbuf.Length == MAX_LFN + 1
    modifies lfnbuf
    ensures ok <==> (LdWord(e, 26) == 0 && OrdOf(e[0]) >= 1 && FillersOk(e) && Fits(e))
    ensures ok ==> (forall p :: 0 <= p < lfnbuf.Length ==> lfnbuf[p] == Picked(e, p, old(lfnbuf[p])))
  {
    hide Unit, LdWord, LfnOfs, Stop;
    if LdWord(e, 26) != 0 { return false; }
    if OrdOf(e[0]) == 0 { return false; }     // the offset wraps to far behind the buffer
    var base := 13 * (OrdOf(e[0]) - 1);
    var i, wc, s := base, 1, 0;
    while s < 13
      invariant 0 <= s <= 13
      invariant if s <= Stop(e, 0) then i == base + s && wc != 0 else i == base + Held(e) && wc == 0
      invariant s > 0 ==> i <= MAX_LFN + 1
      invariant forall t :: Stop(e, 0) < t < s ==> Unit(e, t) == FILLER
      invariant forall p :: 0 <= p < lfnbuf.Length ==>
        lfnbuf[p] == if base <= p < i then Unit(e, p - base) else old(lfnbuf[p])
    {
      var uc := Unit(e, s);
      if wc != 0 {
        if i >= MAX_LFN + 1 { return false; }
        wc := uc;
        lfnbuf[i] := uc;
        i := i + 1;
      } else {
        if uc != FILLER { return false; }
      }
      s := s + 1;
    }
    if Last(e[0]) && wc != 0 {
      if i >= MAX_LFN + 1 { return false; }
      lfnbuf[i] := 0;
    }
    return true;
  }

  /** cmp_lfn: an entry against its place in the buffer. */
  method CmpLfn(lfnbuf: seq<Wchar>, e: Entry, up: Wchar -> Wchar) returns (r: bool)
    requires |lfnbuf| == MAX_LFN + 1
    ensures r <==> PartMatches(lfnbuf, e, up)
  {
    hide Unit, LdWord, LfnOfs, Stop;
    if LdWord(e, 26) != 0 { return false; }
    var ord: nat := e[0] % 64;
    if ord == 0 { return false; }            // the offset wraps to far behind the buffer
    var base := 13 * (ord - 1);
    var i, wc, s := base, 1, 0;
    while s < 13
      invariant 0 <= s <= 13
      invariant if s <= Stop(e, 0) then i == base + s && wc != 0 else wc == 0
      invariant s > 0 ==> i <= MAX_LFN + 1
      invariant UnitsAgree(lfnbuf, e, base, s, up)
      invariant forall t :: Stop(e, 0) < t < s ==> Unit(e, t) == FILLER
    {
      var uc := Unit(e, s);
      if wc != 0 {
        if i >= MAX_LFN + 1 || up(uc) != up(lfnbuf[i]) { return false; }
        i := i + 1;
        wc := uc;
      } else {
        if uc != FILLER { return false; }
      }
      s := s + 1;
    }
    if Last(e[0]) && wc != 0 {
      if lfnbuf[i] != 0 { return false; }
    }
    return true;
  }

  /** The first `k` characters of an entry, up to its terminator, agree with the buffer from `base` on. */
  ghost predicate UnitsAgree(buf: seq<Wchar>, e: Entry, base: nat, k: nat, up: Wchar -> Wchar)
    requires |buf| == MAX_LFN + 1 && k <= 13
  {
    forall t :: 0 <= t < k && t < Held(e) ==> base + t <= MAX_LFN && up(Unit(e, t)) == up(buf[base + t])
  }

  /** What cmp_lfn accepts. */
  ghost predicate PartMatches(buf: seq<Wchar>, e: Entry, up: Wchar -> Wchar)
    requires |buf| == MAX_LFN + 1
  {
    var ord: int := e[0] % 64;
    && LdWord(e, 26) == 0 && ord >= 1 && FillersOk(e)
    && UnitsAgree(buf, e, 13 * (ord - 1), 13, up)
    && (Last(e[0]) && Stop(e, 0) == 13 && 13 * ord <= MAX_LFN ==> buf[13 * ord] == 0)
  }

  // An entry of a registered name.

  /** The s-th place of part `ord`, up to the terminator. */
  predicate InPart(name: seq<Wchar>, ord: nat, p: nat) {
    13 * (ord as int - 1) <= p < 13 * ord && p <= |name|
  }

  lemma PartShape(e: Entry, name: seq<Wchar>, ord: nat, sum: Byte)
    requires IsName(name) && IsPart(e, name, ord, sum)
    ensures OrdOf(e[0]) == ord && e[0] % 64 == ord && (Last(e[0]) <==> ord == PartCount(name))
    ensures Stop(e, 0) == if 13 * ord <= |name| then 13 else |name| - 13 * (ord - 1)
    ensures FillersOk(e) && Fits(e)
  {
    var base := 13 * (ord - 1);
    assert base < |name|;
    var k := if 13 * ord <= |name| then 13 else |name| - base;
    forall t | 0 <= t < 13 ensures Unit(e, t) == 0 <==> t == k {
      assert Unit(e, t) == Padded(name, base + t);
    }
    hide Unit, LdWord;
    assert Stop(e, 0) == k;
  }

  /** What pick_lfn of a part leaves in the buffer. */
  lemma PartPicked(e: Entry, name: seq<Wchar>, ord: nat, sum: Byte, was: seq<Wchar>, buf: seq<Wchar>)
    requires IsName(name) && IsPart(e, name, ord, sum) && |was| == |buf| == MAX_LFN + 1
    requires forall p :: 0 <= p < |buf| ==> buf[p] == Picked(e, p, was[p])
    requires ord < PartCount(name) ==> forall p :: 13 * ord <= p <= |name| ==> was[p] == Padded(name, p)
    ensures forall p :: 13 * (ord - 1) <= p <= |name| ==> buf[p] == Padded(name, p)
  {
    PartShape(e, name, ord, sum);
    forall p | 13 * (ord - 1) <= p <= |name| ensures buf[p] == Padded(name, p) {
      if p < 13 * ord { assert Unit(e, p - 13 * (ord - 1)) == Padded(name, p); }
    }
  }

  /** Only the terminator is upper-cased to it. */
  ghost predicate KeepsEnd(up: Wchar -> Wchar) {
    forall c :: up(c) == 0 <==> c == 0
  }

  /** cmp_lfn of a part compares its characters and, in the last part, the length. */
  lemma PartCompared(e: Entry, name: seq<Wchar>, ord: nat, sum: Byte, buf: seq<Wchar>, up: Wchar -> Wchar)
    requires IsName(name) && IsPart(e, name, ord, sum) && |buf| == MAX_LFN + 1 && KeepsEnd(up)
    ensures PartMatches(buf, e, up) <==> PartAgrees(buf, name, ord, up)
  {
    hide Stop, Unit, LdWord, IsPart, FillersOk, UnitsAgree, Fits, Held, Padded, InPart, KeepsEnd, IsName, Last, OrdOf;
    PartShape(e, name, ord, sum);
    PartHeld(e, name, ord, sum);
    UnitsCompared(e, name, ord, buf, up);
    if UnitsAgree(buf, e, 13 * (ord - 1), 13, up) && ord == PartCount(name) && |name| < 13 * ord {
      PartEnd(buf, name, ord, up);
    }
  }

  lemma PartHeld(e: Entry, name: seq<Wchar>, ord: nat, sum: Byte)
    requires IsName(name) && IsPart(e, name, ord, sum)
    ensures 1 <= ord <= PartCount(name) && 1 <= |name| <= MAX_LFN && 13 * (ord - 1) < |name| && LdWord(e, 26) == 0
    ensures Held(e) == if 13 * ord <= |name| then 13 else |name| + 1 - 13 * (ord - 1)
    ensures forall t :: 0 <= t < Held(e) ==> Unit(e, t) == Padded(name, 13 * (ord - 1) + t)
  {
    PartShape(e, name, ord, sum);
    hide Stop, Unit, LdWord, Padded, FillersOk, Fits, Last, OrdOf, Storable;
  }

  lemma UnitsCompared(e: Entry, name: seq<Wchar>, ord: nat, buf: seq<Wchar>, up: Wchar -> Wchar)
    requires ord >= 1 && |buf| == MAX_LFN + 1 && |name| <= MAX_LFN && 13 * (ord - 1) < |name|
    requires Held(e) == if 13 * ord <= |name| then 13 else |name| + 1 - 13 * (ord - 1)
    requires forall t :: 0 <= t < Held(e) ==> Unit(e, t) == Padded(name, 13 * (ord - 1) + t)
    ensures UnitsAgree(buf, e, 13 * (ord - 1), 13, up) <==>
      forall p: nat :: InPart(name, ord, p) ==> up(Padded(name, p)) == up(buf[p])
  {
    hide Held, Unit, Padded;
    var base := 13 * (ord - 1);
    if UnitsAgree(buf, e, base, 13, up) {
      forall p: nat | InPart(name, ord, p) ensures up(Padded(name, p)) == up(buf[p]) {
        assert up(Unit(e, p - base)) == up(buf[base + (p - base)]);
      }
    }
    if forall p: nat :: InPart(name, ord, p) ==> up(Padded(name, p)) == up(buf[p]) {
      forall t | 0 <= t < Held(e) ensures base + t <= MAX_LFN && up(Unit(e, t)) == up(buf[base + t]) {
        assert InPart(name, ord, base + t);
      }
    }
  }

  /** The buffer agrees with the name in one part. */
  ghost predicate PartAgrees(buf: seq<Wchar>, name: seq<Wchar>, ord: nat, up: Wchar -> Wchar)
    requires |buf| == MAX_LFN + 1 && |name| <= MAX_LFN
  {
    (forall p: nat :: InPart(name, ord, p) ==> up(Padded(name, p)) == up(buf[p]))
    && (ord == PartCount(name) ==> buf[|name|] == 0)
  }

  /** A terminator in the last part has been compared with a terminator. */
  lemma PartEnd(buf: seq<Wchar>, name: seq<Wchar>, ord: nat, up: Wchar -> Wchar)
    requires |buf| == MAX_LFN + 1 && 1 <= |name| <= MAX_LFN && KeepsEnd(up) && ord == PartCount(name) &&
      |name| < 13 * ord
    requires forall p: nat :: InPart(name, ord, p) ==> up(Padded(name, p)) == up(buf[p])
    ensures buf[|name|] == 0
  {
    assert InPart(name, ord, |name|);
  }
}
