/** Names in a directory table: registered with their long form, read back, and found again. */
module NameTable {
  import opened Bytes
  import opened LongName

  const NO_LFN: nat := 0xFFFF_FFFF   // blk_ofs of an object without a long name

  /** A byte turned right by one bit: the lowest bit becomes the highest. */
  function TurnedRight(x: Byte): (r: Byte)
    ensures r % 128 == x / 2 && r / 128 == x % 2
  {
    x / 2 + 128 * (x % 2)
  }

  /** One step of the checksum: turn right, add. */
  function SumStep(sum: Byte, b: Byte): Byte {
    (TurnedRight(sum) + b) % 256
  }

  function Checksum(s: seq<Byte>): Byte {
    if s == [] then 0 else SumStep(Checksum(s[..|s| - 1]), s[|s| - 1])
  }

  /** The sum of one byte more: the sum turned right by one bit, and the byte. */
  lemma {:induction false} ChecksumNext(s: seq<Byte>, b: Byte)
    ensures Checksum(s + [b]) == SumStep(Checksum(s), b) == (TurnedRight(Checksum(s)) + b) % 256
  {
    hide TurnedRight;
    assert (s + [b])[..|s|] == s;
  }

  /** The sum of THEQUI~1FOX, step by step. */
  lemma SumOfFox()
    ensures Checksum([0x54, 0x48, 0x45, 0x51, 0x55, 0x49, 0x7E, 0x31, 0x46, 0x4F, 0x58]) == 0x07
  {
    var s := [0x54, 0x48, 0x45, 0x51, 0x55, 0x49, 0x7E, 0x31, 0x46, 0x4F, 0x58];
    var sums := [0x00, 0x54, 0x72, 0x7E, 0x90, 0x9D, 0x17, 0x09, 0xB5, 0x20, 0x5F, 0x07];
    SumsOf(s, sums, 11);
    assert s[..11] == s;
  }

  lemma NoSum()
    ensures Checksum([]) == 0
  {
  }

  lemma {:induction false} SumsOf(s: seq<Byte>, sums: seq<Byte>, n: nat)
    requires n <= |s| < |sums| && sums[0] == 0
    requires forall k :: 0 <= k < |s| ==> sums[k + 1] == SumStep(sums[k], s[k])
    ensures Checksum(s[..n]) == sums[n]
  {
    if n > 0 {
      SumsOf(s, sums, n - 1);
      assert s[..n] == s[..n - 1] + [s[n - 1]];
      ChecksumNext(s[..n - 1], s[n - 1]);
    }
  }

  /** Both shifts of the code, cut to a byte. */
  lemma ShiftedSum(sum: Byte, b: Byte)
    ensures (sum / 2 + sum * 128 + b) % 256 == SumStep(sum, b)
  {
    var x, q := sum / 2 + 128 * (sum % 2) + b, sum / 2;
    assert sum / 2 + sum * 128 + b == x + 256 * q;
  }

  /** sum_sfn */
  method SumSfn(dir: Entry) returns (sum: Byte)
    ensures sum == Checksum(dir[..11])
  {
    hide SumStep, Checksum;
    sum := 0;
    var n := 0;
    NoSum();
    while n < 11
      invariant 0 <= n <= 11 && sum == Checksum(dir[..n])
    {
      assert dir[..n + 1] == dir[..n] + [dir[n]];
      ChecksumNext(dir[..n], dir[n]);
      ShiftedSum(sum, dir[n]);
      sum := (sum / 2 + sum * 128 + dir[n]) % 256;
      n := n + 1;
    }
  }

  /** Attribute bits of an entry. */
  function Attr(e: Entry): nat {
    e[11] % 64
  }

  /** An entry with a short name that is in use. */
  predicate Live(e: Entry) {
    e[0] != 0 && e[0] != DDEM && e[0] != 0x2E && e[11] / 8 % 2 == 0
  }

  /** The same in the bits of the attributes: no volume label (0x08). */
  lemma LiveIs(e: Entry)
    ensures Live(e) <==> e[0] !in [0, 0xE5, 0x2E] && (e[11] as bv8) & 0x08 == 0
  {
  }

  /** The first parts of a long name, from the last one down. */
  ghost predicate Parts(s: seq<Entry>, name: seq<Wchar>, sum: Byte) {
    |s| <= PartCount(name) && forall k :: 0 <= k < |s| ==> IsPart(s[k], name, PartCount(name) - k, sum)
  }

  /** The long name `name` stands in the table from place f on: its parts, last part first, and the short entry. */
  ghost predicate Registered(table: seq<Entry>, f: nat, name: seq<Wchar>) {
    var n := PartCount(name);
    && IsName(name) && f + n < |table| && Live(table[f + n])
    && Parts(table[f..f + n], name, Checksum(table[f + n][..11]))
  }

  /** What put_lfn wrote of any name stands in the table from place f on, last part first, with the short entry. */
  ghost predicate Stands(table: seq<Entry>, f: nat, name: seq<Wchar>) {
    var n := PartCount(name);
    && Characters(name) && f + n < |table| && Live(table[f + n])
    && forall j :: f <= j < f + n ==> Written(table[j], name, n - (j - f), Checksum(table[f + n][..11]))
  }

  /** Where in it the name begins that is read. */
  function StoredFrom(f: nat, name: seq<Wchar>): int {
    f + PartCount(name) - PartCount(StoredAs(name))
  }

  /** It registers the name it is stored as, if that is not too long. */
  lemma StandsAs(table: seq<Entry>, f: nat, name: seq<Wchar>)
    requires Stands(table, f, name) && |StoredAs(name)| <= MAX_LFN
    ensures StoredFrom(f, name) >= f && Registered(table, StoredFrom(f, name), StoredAs(name))
  {
    StandsFacts(table, f, name);
    hide StoredAs, Checksum, IsPart, Written, Characters, IsName, Live, PartCount, Stands;
    StoredAsName(name);
    var from, end := StoredFrom(f, name), f + PartCount(name);
    forall j | from <= j < end ensures IsPart(table[j], StoredAs(name), end - j, Checksum(table[end][..11])) {
      StoredAsPart(table[j], name, end - j, Checksum(table[end][..11]));
    }
    RegisteredFrom(table, from, StoredAs(name));
  }

  lemma StandsFacts(table: seq<Entry>, f: nat, name: seq<Wchar>)
    requires Stands(table, f, name)
    ensures var end := f + PartCount(name);
      && Characters(name) && end < |table| && Live(table[end])
      && forall j :: f <= j < end ==> Written(table[j], name, end - j, Checksum(table[end][..11]))
  {
    hide Checksum, Written, Characters, Live, PartCount;
  }

  lemma RegisteredFrom(table: seq<Entry>, f: nat, name: seq<Wchar>)
    requires IsName(name) && f + PartCount(name) < |table| && Live(table[f + PartCount(name)])
    requires var end := f + PartCount(name);
      forall j :: f <= j < end ==> IsPart(table[j], name, end - j, Checksum(table[end][..11]))
    ensures Registered(table, f, name)
  {
    hide Checksum, IsPart, IsName, Live, PartCount;
  }

  /** A part that is too long is not taken, and no other one is marked as the last: no run of parts ends at the short
      entry. */
  lemma TooLongRun(table: seq<Entry>, f: nat, name: seq<Wchar>, lo: nat, b: nat, sum: Byte, buf: seq<Wchar>)
    requires Stands(table, f, name) && |StoredAs(name)| > MAX_LFN
    ensures !PartRun(table, lo, b, f + PartCount(name), 0, sum, buf)
  {
    StoredAsName(name);
    var j := f + 20;
    var s0 := Checksum(table[j][..11]);
    hide StoredAs, Checksum, InPlace, Live, Accepted, Written, Characters, Last;
    TooLongPart(table[f], name, s0, sum);
    if f < b < j { NotMarked(table[b], name, j - b, s0); }
  }

  lemma TooLongPart(e: Entry, name: seq<Wchar>, sum: Byte, any: Byte)
    requires Characters(name) && |StoredAs(name)| > MAX_LFN && Written(e, name, 20, sum)
    ensures !Accepted(e, 20, any)
  {
    StoredAsName(name);
    StoredAsPart(e, name, 20, sum);
    StoredNoZero(name);
    hide StoredAs, Written, LdWord;
    assert Stop(e, 0) == 13 by {
      forall s | 0 <= s < 13 ensures Unit(e, s) != 0 {
        assert Unit(e, s) == Padded(StoredAs(name), 247 + s);
      }
      hide Unit;
    }
    hide Unit;
  }

  lemma StoredNoZero(name: seq<Wchar>)
    requires Characters(name)
    ensures forall p :: 0 <= p < |StoredAs(name)| ==> StoredAs(name)[p] != 0
  {
    var i := FirstFiller(name);
    assert forall p :: 0 <= p < i ==> name[..i][p] == name[p];
  }

  lemma NotMarked(e: Entry, name: seq<Wchar>, ord: nat, sum: Byte)
    requires Characters(name) && |StoredAs(name)| > MAX_LFN && Written(e, name, ord, sum) && ord < 20
    ensures !Last(e[0])
  {
    StoredAsName(name);
    StoredAsPart(e, name, ord, sum);
    hide StoredAs, Written, Unit, LdWord;
  }

  /** A cleaned entry with the short name and the case flags. */
  function ShortEntry(fn: seq<Byte>, nt: Byte): (e: Entry)
    requires |fn| == 11
    ensures e[..11] == fn && e[0] == fn[0] && e[11] == 0 && e[12] == nt && forall k :: 13 <= k < 32 ==> e[k] == 0
  {
    fn + [0, nt] + seq(19, _ => 0)
  }

  /** Get lfn length. */
  method Length(lfnbuf: seq<Wchar>, ghost name: seq<Wchar>) returns (len: nat)
    requires IsName(name) && Holds(lfnbuf, name)
    ensures len == |name|
  {
    len := 0;
    assert forall i :: 0 <= i < |name| ==> lfnbuf[..|name|][i] == name[i];
    while lfnbuf[len] != 0
      invariant len <= |name|
      decreases |name| - len
    {
      len := len + 1;
    }
  }

  /** What dir_read shows: entries in use that are labels or not, as asked for. */
  predicate Shown(e: Entry, vol: bool) {
    e[0] != 0 && e[0] != DDEM && e[0] != 0x2E && (Attr(e) % 32 == 8) == vol && Attr(e) != AM_LFN
  }

  /** In numbers: neither free nor a dot entry; of the attributes, the archive bit (0x20) aside, a label is 0x08 and a
      part of a long name 0x0F. */
  lemma ShownIs(e: Entry)
    ensures Shown(e, false) <==> e[0] !in [0, 0xE5, 0x2E] && e[11] % 64 !in [0x08, 0x28, 0x0F]
    ensures Shown(e, true) <==> e[0] !in [0, 0xE5, 0x2E] && e[11] % 64 in [0x08, 0x28]
  {
  }

  /** The state of a long name that is being collected. */
  ghost predicate Collecting(table: seq<Entry>, f: nat, name: seq<Wchar>, j: nat, ord: nat, sum: Byte, blk: nat,
                             buf: seq<Wchar>)
    requires Registered(table, f, name)
  {
    var n := PartCount(name);
    f < j <= f + n ==>
      && ord == n - (j - f) && sum == Checksum(table[f + n][..11]) && blk == f
      && |buf| == MAX_LFN + 1 && forall p :: 13 * ord <= p <= |name| ==> buf[p] == Padded(name, p)
  }

  /** An LFN entry dir_read accepts as part `ord` with the given checksum. */
  ghost predicate Accepted(e: Entry, ord: nat, sum: Byte) {
    && e[0] != 0 && e[0] != DDEM && Attr(e) == AM_LFN && e[13] == sum && OrdOf(e[0]) == ord >= 1
    && LdWord(e, 26) == 0 && FillersOk(e) && Fits(e)
  }

  /** Its characters are at their place in the buffer, and behind a full last part there is the terminator. */
  ghost predicate InPlace(e: Entry, buf: seq<Wchar>) {
    var base := 13 * (OrdOf(e[0]) as int - 1);
    && (forall s {:trigger Unit(e, s)} :: 0 <= s < Held(e) ==> 0 <= base + s < |buf| && buf[base + s] == Unit(e, s))
    && (Last(e[0]) && Stop(e, 0) == 13 ==> 0 <= base + 13 < |buf| && buf[base + 13] == 0)
  }

  /** The entries b..j-1, none before `lo`, are the parts of one name from the last one down, those below number
      ord + 1 missing; their characters are in the buffer. */
  ghost predicate PartRun(t: seq<Entry>, lo: nat, b: nat, j: nat, ord: nat, sum: Byte, buf: seq<Wchar>) {
    lo <= b < j <= |t| && forall k :: b <= k < j ==>
      Accepted(t[k], ord + (j - k), sum) && (Last(t[k][0]) <==> k == b) && InPlace(t[k], buf)
  }

  /** What dir_read has collected before place j, if anything, since place `lo`. */
  ghost predicate Collected(t: seq<Entry>, lo: nat, j: nat, ord: nat, sum: Byte, blk: nat, buf: seq<Wchar>) {
    ord != 0xFF ==> PartRun(t, lo, blk, j, ord, sum, buf)
  }

  /** One more part. */
  lemma CollectOne(t: seq<Entry>, lo: nat, j: nat, ord: nat, sum: Byte, blk: nat, was: seq<Wchar>, buf: seq<Wchar>)
    requires lo <= j < |t| && Accepted(t[j], ord, sum) && |was| == |buf| == MAX_LFN + 1
    requires forall p :: 0 <= p < |buf| ==> buf[p] == Picked(t[j], p, was[p])
    requires if Last(t[j][0]) then blk == j else ord != 0xFF && Collected(t, lo, j, ord, sum, blk, was)
    ensures PartRun(t, lo, blk, j + 1, ord - 1, sum, buf)
  {
    hide Unit, LdWord, FillersOk, Attr, OrdOf, Last, Held, Stop;
    PickedInPlace(t[j], was, buf);
    forall k | blk <= k < j
      ensures Accepted(t[k], ord - 1 + (j + 1 - k), sum) && (Last(t[k][0]) <==> k == blk) && InPlace(t[k], buf)
    {
      StaysInPlace(t[k], t[j], was, buf);
    }
  }

  lemma PickedInPlace(e: Entry, was: seq<Wchar>, buf: seq<Wchar>)
    requires OrdOf(e[0]) >= 1 && Fits(e) && |was| == |buf| == MAX_LFN + 1
    requires forall p :: 0 <= p < |buf| ==> buf[p] == Picked(e, p, was[p])
    ensures InPlace(e, buf)
  {
    hide Unit, Stop, OrdOf, Last;
    var base := 13 * (OrdOf(e[0]) - 1);
    forall s | 0 <= s < Held(e) ensures base + s < |buf| && buf[base + s] == Unit(e, s) {
      assert buf[base + s] == Picked(e, base + s, was[base + s]);
    }
  }

  /** A part with a smaller number is written below this one. */
  lemma StaysInPlace(d: Entry, e: Entry, was: seq<Wchar>, buf: seq<Wchar>)
    requires InPlace(d, was) && 1 <= OrdOf(e[0]) < OrdOf(d[0]) && !Last(e[0]) && |was| == |buf| == MAX_LFN + 1
    requires forall p :: 0 <= p < |buf| ==> buf[p] == Picked(e, p, was[p])
    ensures InPlace(d, buf)
  {
    AbovePart(e, OrdOf(d[0]), was, buf);
    hide Unit, Stop, OrdOf, Last, Picked, Held;
    var base := 13 * (OrdOf(d[0]) - 1);
    forall s | 0 <= s < Held(d) ensures 0 <= base + s < |buf| && buf[base + s] == Unit(d, s) {
      assert was[base + s] == Unit(d, s);
    }
  }

  lemma AbovePart(e: Entry, ord: nat, was: seq<Wchar>, buf: seq<Wchar>)
    requires 1 <= OrdOf(e[0]) < ord && !Last(e[0]) && |was| == |buf|
    requires forall p :: 0 <= p < |buf| ==> buf[p] == Picked(e, p, was[p])
    ensures forall p :: 13 * (ord - 1) <= p < |buf| ==> buf[p] == was[p]
  {
    hide Unit, Stop, OrdOf, Last;
  }

  /** The entry is the next part of the name, or the first one to come. */
  ghost predicate Picking(e: Entry, ord: nat, sum: Byte, ok: bool) {
    ok <==> OrdOf(e[0]) == ord && sum == e[13] && LdWord(e, 26) == 0 && OrdOf(e[0]) >= 1 && FillersOk(e) && Fits(e)
  }

  /** What pick_lfn leaves in the buffer. */
  ghost predicate PickedFrom(e: Entry, was: seq<Wchar>, buf: seq<Wchar>) {
    |was| == |buf| == MAX_LFN + 1 && forall p :: 0 <= p < |buf| ==> buf[p] == Picked(e, p, was[p])
  }

  lemma CollectedAfter(t: seq<Entry>, lo: nat, j: nat, ord0: nat, sum0: Byte, blk0: nat, was: seq<Wchar>,
                       buf: seq<Wchar>, ok: bool)
    requires lo <= j < |t| && t[j][0] != 0 && t[j][0] != DDEM && Attr(t[j]) == AM_LFN &&
      Collected(t, lo, j, ord0, sum0, blk0, was)
    requires var first := Last(t[j][0]);
      Picking(t[j], if first then OrdOf(t[j][0]) else ord0, if first then t[j][13] else sum0, ok)
    requires ok ==> PickedFrom(t[j], was, buf)
    ensures var first := Last(t[j][0]);
      Collected(t, lo, j + 1, if ok then OrdOf(t[j][0]) - 1 else 0xFF, if first then t[j][13] else sum0,
        if first then j else blk0, buf)
  {
    hide PartRun, FillersOk, Fits, Attr, Picked, LdWord;
    if ok {
      assert Last(t[j][0]) || t[j][0] != 0xFF;
      CollectOne(t, lo, j, OrdOf(t[j][0]), t[j][13], if Last(t[j][0]) then j else blk0, was, buf);
    }
  }

  lemma CollectingAfter(t: seq<Entry>, f: nat, name: seq<Wchar>, j: nat, ord0: nat, sum0: Byte, blk0: nat,
                        was: seq<Wchar>, buf: seq<Wchar>, ok: bool)
    requires j < |t| && Registered(t, f, name) && Collecting(t, f, name, j, ord0, sum0, blk0, was)
    requires var first := Last(t[j][0]);
      Picking(t[j], if first then OrdOf(t[j][0]) else ord0, if first then t[j][13] else sum0, ok)
    requires ok ==> PickedFrom(t[j], was, buf)
    ensures var first := Last(t[j][0]);
      Collecting(t, f, name, j + 1, if ok then OrdOf(t[j][0]) - 1 else 0xFF, if first then t[j][13] else sum0,
                 if first then j else blk0, buf)
  {
    if f <= j < f + PartCount(name) {
      var o := PartCount(name) - (j - f);
      PartAt(t, f, name, j);
      PartShape(t[j], name, o, t[j][13]);
      PartTaken(t, f, name, j, ord0, sum0, blk0, was, buf, ok, o);
    }
  }

  lemma PartTaken(t: seq<Entry>, f: nat, name: seq<Wchar>, j: nat, ord0: nat, sum0: Byte, blk0: nat,
                  was: seq<Wchar>, buf: seq<Wchar>, ok: bool, o: nat)
    requires j < |t| && Registered(t, f, name) && Collecting(t, f, name, j, ord0, sum0, blk0, was)
    requires f <= j < f + PartCount(name) && o == PartCount(name) - (j - f)
    requires IsName(name) && IsPart(t[j], name, o, Checksum(t[f + PartCount(name)][..11]))
    requires OrdOf(t[j][0]) == o && (Last(t[j][0]) <==> o == PartCount(name)) && FillersOk(t[j]) && Fits(t[j])
    requires var first := Last(t[j][0]);
      Picking(t[j], if first then OrdOf(t[j][0]) else ord0, if first then t[j][13] else sum0, ok)
    requires ok ==> PickedFrom(t[j], was, buf)
    ensures var first := Last(t[j][0]);
      ok && Collecting(t, f, name, j + 1, o - 1, if first then t[j][13] else sum0, if first then j else blk0, buf)
  {
    var sum := Checksum(t[f + PartCount(name)][..11]);
    assert t[j][13] == sum && LdWord(t[j], 26) == 0 && OrdOf(t[j][0]) == o;
    assert ok;
    hide Registered, IsName, FillersOk, Fits, Last, OrdOf, LdWord, Checksum, Picked, IsPart, PartCount, Padded;
    PartPicked(t[j], name, o, sum, was, buf);
  }

  /** The LFN branch of dir_read: validity of an LFN entry, and its characters. */
  method CollectPart(lfnbuf: array<Wchar>, e: Entry, j: nat, ord0: nat, sum0: Byte, blk0: nat,
                     ghost table: seq<Entry>, ghost lo: nat, ghost f: nat, ghost name: seq<Wchar>, ghost tracked: bool)
    returns (ord: nat, sum: Byte, blk: nat)
    requires lfnbuf.Length == MAX_LFN + 1 && lo <= j < |table| && e == table[j] && Attr(e) == AM_LFN
    requires tracked ==> Registered(table, f, name) && Collecting(table, f, name, j, ord0, sum0, blk0, lfnbuf[..])
    requires e[0] != 0 && e[0] != DDEM && Collected(table, lo, j, ord0, sum0, blk0, lfnbuf[..])
    modifies lfnbuf
    ensures Collected(table, lo, j + 1, ord, sum, blk, lfnbuf[..])
    ensures tracked ==> Collecting(table, f, name, j + 1, ord, sum, blk, lfnbuf[..])
  {
    hide Registered, Collecting, Collected, Attr, LdWord, OrdOf, FillersOk, Fits, Picked, Last;
    ord, sum, blk := ord0, sum0, blk0;
    var b := OrdOf(e[0]);
    if Last(e[0]) {
      sum := e[13];
      ord := b;
      blk := j;
    }
    ghost var was := lfnbuf[..];
    var ok := false;
    if b == ord && sum == e[13] {
      ok := PickLfn(lfnbuf, e);
    }
    CollectedAfter(table, lo, j, ord0, sum0, blk0, was, lfnbuf[..], ok);
    if tracked { CollectingAfter(table, f, name, j, ord0, sum0, blk0, was, lfnbuf[..], ok); }
    ord := if ok then b - 1 else 0xFF;
  }

  /** What dir_read does with one entry: is the object complete, and what becomes of the long name. */
  method ReadOne(lfnbuf: array<Wchar>, e: Entry, vol: bool, j: nat, ord0: nat, sum0: Byte, blk0: nat,
                 ghost t: seq<Entry>, ghost lo: nat, ghost f: nat, ghost name: seq<Wchar>, ghost tracked: bool)
    returns (shown: bool, ord: nat, sum: Byte, blk: nat)
    requires lfnbuf.Length == MAX_LFN + 1 && lo <= j < |t| && e == t[j] && e[0] != 0
    requires tracked ==> !vol && Registered(t, f, name) && Collecting(t, f, name, j, ord0, sum0, blk0, lfnbuf[..])
    requires Collected(t, lo, j, ord0, sum0, blk0, lfnbuf[..])
    modifies lfnbuf
    ensures !shown ==> Collected(t, lo, j + 1, ord, sum, blk, lfnbuf[..])
    ensures shown && blk != NO_LFN ==> PartRun(t, lo, blk, j, 0, Checksum(e[..11]), lfnbuf[..])
    ensures shown <==> Shown(e, vol)
    ensures tracked && !shown ==> Collecting(t, f, name, j + 1, ord, sum, blk, lfnbuf[..])
    ensures tracked && shown && j == f + PartCount(name) ==> blk == f && Holds(lfnbuf[..], name)
  {
    hide PartRun, IsPart, Holds, IsName, Live, Parts, Registered, Collecting, Checksum, PartCount;
    shown, ord, sum, blk := false, ord0, sum0, blk0;
    if e[0] == DDEM || e[0] == 0x2E || (Attr(e) % 32 == 8) != vol {
      ord := 0xFF;
      if tracked { Skipped(t, f, name, j, ord, sum, blk, lfnbuf[..]); }
    } else if Attr(e) == AM_LFN {
      ord, sum, blk := CollectPart(lfnbuf, e, j, ord, sum, blk, t, lo, f, name, tracked);
    } else {
      var s := SumSfn(e);
      if tracked && j == f + PartCount(name) {
        NameCollected(t, f, name, j, ord, sum, blk, lfnbuf[..]);
      }
      if ord != 0 || sum != s {
        blk := NO_LFN;
      }
      shown := true;
    }
  }

  lemma BeforeStart(table: seq<Entry>, f: nat, name: seq<Wchar>, j: nat, ord: nat, sum: Byte, blk: nat, buf: seq<Wchar>)
    ensures j <= f && Registered(table, f, name) ==> Collecting(table, f, name, j, ord, sum, blk, buf)
  {
  }

  /** Every entry of a registered name before the short one is an LFN entry. */
  lemma PartAt(table: seq<Entry>, f: nat, name: seq<Wchar>, j: nat)
    requires Registered(table, f, name) && f <= j < f + PartCount(name)
    ensures var e := table[j]; e[0] != 0 && e[0] != DDEM && e[0] != 0x2E && Attr(e) == AM_LFN
    ensures IsPart(table[j], name, PartCount(name) - (j - f), Checksum(table[f + PartCount(name)][..11]))
  {
    assert table[f..f + PartCount(name)][j - f] == table[j];
  }

  /** An entry without data, or a label, is not a part of a registered name. */
  lemma Skipped(table: seq<Entry>, f: nat, name: seq<Wchar>, j: nat, ord: nat, sum: Byte, blk: nat, buf: seq<Wchar>)
    requires j < |table| && Registered(table, f, name)
    requires var e := table[j]; e[0] == DDEM || e[0] == 0x2E || Attr(e) != AM_LFN
    ensures Collecting(table, f, name, j + 1, ord, sum, blk, buf)
  {
    if f <= j < f + PartCount(name) {
      PartAt(table, f, name, j);
    }
  }

  /** When the short entry is reached the whole name has been collected. */
  lemma NameCollected(table: seq<Entry>, f: nat, name: seq<Wchar>, j: nat, ord: nat, sum: Byte, blk: nat,
                      buf: seq<Wchar>)
    requires Registered(table, f, name) && j == f + PartCount(name)
    requires Collecting(table, f, name, j, ord, sum, blk, buf)
    ensures ord == 0 && sum == Checksum(table[j][..11]) && blk == f && Holds(buf, name)
  {
    assert buf[..|name|] == name by {
      forall p | 0 <= p < |name| ensures buf[p] == name[p] { assert buf[p] == Padded(name, p); }
    }
  }

  /** Nothing before place `at` is shown, and the table goes on. */
  ghost predicate Unshown(t: seq<Entry>, vol: bool, start: nat, at: nat) {
    start <= at && forall k :: start <= k < at ==> k < |t| && !Shown(t[k], vol) && t[k][0] != 0
  }

  /** dir_read's answer at place `at`: the next object shown, with the long name registered before it in the buffer. */
  ghost predicate ReadAnswer(t: seq<Entry>, f: nat, name: seq<Wchar>, vol: bool, start: nat, at: nat, ok: bool,
                             blk: nat, buf: seq<Wchar>) {
    && Unshown(t, vol, start, at)
    && (if ok then at < |t| && Shown(t[at], vol) else at == |t| || (at < |t| && t[at][0] == 0))
    && (ok && !vol && start <= f && Registered(t, f, name) && at == f + PartCount(name) ==>
      blk == f && Holds(buf, name))
    && (ok && blk != NO_LFN ==> PartRun(t, start, blk, at, 0, Checksum(t[at][..11]), buf))
  }

  // Finding a name.

  /** The name in the buffer is this one, without regard to case. */
  ghost predicate SameName(buf: seq<Wchar>, name: seq<Wchar>, up: Wchar -> Wchar)
    requires |buf| == MAX_LFN + 1
  {
    |name| <= MAX_LFN && buf[|name|] == 0 && forall p :: 0 <= p < |name| ==> up(name[p]) == up(buf[p])
  }

  /** The parts above number m agree with the buffer. */
  ghost predicate AgreesAbove(buf: seq<Wchar>, name: seq<Wchar>, m: nat, up: Wchar -> Wchar)
    requires |buf| == MAX_LFN + 1 && |name| <= MAX_LFN
  {
    forall ord :: m < ord <= PartCount(name) ==> PartAgrees(buf, name, ord, up)
  }

  /** All parts agree exactly when the whole names do. */
  lemma AllPartsAgree(buf: seq<Wchar>, name: seq<Wchar>, up: Wchar -> Wchar)
    requires |buf| == MAX_LFN + 1 && IsName(name) && KeepsEnd(up)
    ensures AgreesAbove(buf, name, 0, up) <==> SameName(buf, name, up)
  {
    if AgreesAbove(buf, name, 0, up) {
      assert PartAgrees(buf, name, PartCount(name), up);
      forall p | 0 <= p < |name| ensures up(name[p]) == up(buf[p]) {
        var ord := p / 13 + 1;
        assert PartAgrees(buf, name, ord, up) && InPart(name, ord, p);
        assert up(Padded(name, p)) == up(buf[p]);
      }
    }
  }

  /** An entry dir_find looks at by its short name. */
  predicate Candidate(e: Entry) {
    e[0] != 0 && e[0] != DDEM && e[11] / 8 % 2 == 0
  }

  lemma CandidateIs(e: Entry)
    ensures Candidate(e) <==> e[0] !in [0, 0xE5] && (e[11] as bv8) & 0x08 == 0
  {
  }

  /** Its short name is the one looked for; a lossy one is not looked for. */
  predicate ShortMatch(e: Entry, fn: seq<Byte>, lossy: bool) {
    !lossy && e[..11] == fn
  }

  /** What is looked for: the long name in the buffer, the short name, and which of them count. */
  datatype Wanted = Wanted(lfn: seq<Wchar>, fn: seq<Byte>, noLfn: bool, lossy: bool)

  predicate Proper(w: Wanted) {
    |w.lfn| == MAX_LFN + 1 && |w.fn| == 11
  }

  /** How far a long name has been recognized before an entry: parts still to come (0xFF: no name), its checksum, and
      where it starts. */
  datatype Match = Match(ord: nat, sum: Byte, blk: nat)

  function NoMatch(sum: Byte): Match {
    Match(0xFF, sum, NO_LFN)
  }

  /** The effect of an LFN entry at place j. */
  ghost function MatchPart(w: Wanted, e: Entry, j: nat, m: Match, up: Wchar -> Wchar): Match
    requires Proper(w)
  {
    var c: nat := if Last(e[0]) then e[0] - LLEF else e[0];
    var m0 := if Last(e[0]) then Match(c, e[13], j) else m;
    m0.(ord := if c == m0.ord && m0.sum == e[13] && PartMatches(w.lfn, e, up) then c - 1 else 0xFF)
  }

  /** The effect of any entry that is not the object looked for. */
  ghost function MatchStep(w: Wanted, e: Entry, j: nat, m: Match, up: Wchar -> Wchar): Match
    requires Proper(w)
  {
    if e[0] != DDEM && Attr(e) == AM_LFN then (if w.noLfn then m else MatchPart(w, e, j, m, up)) else NoMatch(m.sum)
  }

  /** The state before the entry at place j. */
  ghost function MatchAt(t: seq<Entry>, w: Wanted, up: Wchar -> Wchar, j: nat): Match
    requires Proper(w) && j <= |t|
  {
    if j == 0 then NoMatch(0xFF) else MatchStep(w, t[j - 1], j - 1, MatchAt(t, w, up, j - 1), up)
  }

  /** An entry is the object looked for: by the long name that ends before it, or by its short name. */
  ghost predicate Hit(w: Wanted, e: Entry, m: Match) {
    Candidate(e) && ((m.ord == 0 && m.sum == Checksum(e[..11])) || ShortMatch(e, w.fn, w.lossy))
  }

  ghost predicate HitAt(t: seq<Entry>, w: Wanted, up: Wchar -> Wchar, k: nat)
    requires Proper(w)
  {
    k < |t| && Hit(w, t[k], MatchAt(t, w, up, k))
  }

  /** Neither the object nor the end of the table comes before place `at`. */
  ghost predicate NotBefore(t: seq<Entry>, w: Wanted, up: Wchar -> Wchar, at: nat)
    requires Proper(w)
  {
    at <= |t| && forall k :: 0 <= k < at ==> t[k][0] != 0 && !HitAt(t, w, up, k)
  }

  /** The outcome of a search: the first hit at place `at`, or the end of the table there and no hit. */
  ghost predicate FoundAt(t: seq<Entry>, w: Wanted, up: Wchar -> Wchar, at: nat, ok: bool)
    requires Proper(w)
  {
    NotBefore(t, w, up, at) && if ok then HitAt(t, w, up, at) else at == |t| || t[at][0] == 0
  }

  /** What dir_find does with one entry. */
  method FindOne(w: Wanted, e: Entry, up: Wchar -> Wchar, j: nat, m0: Match) returns (hit: bool, m: Match)
    requires Proper(w) && e[0] != 0
    ensures hit <==> Hit(w, e, m0)
    ensures if hit then m == m0 else m == MatchStep(w, e, j, m0, up)
  {
    hide PartMatches, Checksum;
    hit, m := false, m0;
    if e[0] == DDEM || (e[11] / 8 % 2 == 1 && Attr(e) != AM_LFN) {
      m := NoMatch(m.sum);
    } else if Attr(e) == AM_LFN {
      if !w.noLfn {
        m := FindPart(w, e, up, j, m);
      }
    } else {
      var s := SumSfn(e);
      if (m.ord == 0 && m.sum == s) || (!w.lossy && e[..11] == w.fn) {
        hit := true;
      } else {
        m := NoMatch(m.sum);
      }
    }
  }

  /** The LFN branch of dir_find. */
  method FindPart(w: Wanted, e: Entry, up: Wchar -> Wchar, j: nat, m0: Match) returns (m: Match)
    requires Proper(w)
    ensures m == MatchPart(w, e, j, m0, up)
  {
    m := m0;
    var c: nat := e[0];
    if Last(c) {
      c := c - LLEF;
      m := Match(c, e[13], j);
    }
    var ok := false;
    if c == m.ord && m.sum == e[13] {
      ok := CmpLfn(w.lfn, e, up);
    }
    m := m.(ord := if ok then c - 1 else 0xFF);
  }

  /** The state of the comparison with a registered name. */
  ghost predicate Comparing(t: seq<Entry>, f: nat, name: seq<Wchar>, w: Wanted, up: Wchar -> Wchar, j: nat, m: Match)
    requires Registered(t, f, name) && Proper(w) && f <= j <= f + PartCount(name)
  {
    var left := PartCount(name) - (j - f);
    j > f ==>
      && m.sum == Checksum(t[f + PartCount(name)][..11])
      && if AgreesAbove(w.lfn, name, left, up) then m.ord == left && m.blk == f else m.ord == 0xFF
  }

  lemma FitsIn(t: seq<Entry>, f: nat, name: seq<Wchar>)
    requires Registered(t, f, name)
    ensures f + PartCount(name) < |t|
  {
  }

  /** Every part of a registered name is compared with its piece of the wanted one. */
  lemma {:induction false} Compared(t: seq<Entry>, f: nat, name: seq<Wchar>, w: Wanted, up: Wchar -> Wchar, j: nat)
    requires Registered(t, f, name) && Proper(w) && !w.noLfn && KeepsEnd(up) && f <= j <= f + PartCount(name)
    ensures Comparing(t, f, name, w, up, j, MatchAt(t, w, up, j))
    decreases j
  {
    hide *;
    FitsIn(t, f, name);
    if j == f {
      ComparingStarts(t, f, name, w, up, MatchAt(t, w, up, j));
    } else {
      Compared(t, f, name, w, up, j - 1);
      ComparedNext(t, f, name, w, up, j - 1);
    }
  }

  lemma ComparedNext(t: seq<Entry>, f: nat, name: seq<Wchar>, w: Wanted, up: Wchar -> Wchar, j: nat)
    requires Registered(t, f, name) && Proper(w) && !w.noLfn && KeepsEnd(up) && f <= j < f + PartCount(name)
    requires Comparing(t, f, name, w, up, j, MatchAt(t, w, up, j))
    ensures Comparing(t, f, name, w, up, j + 1, MatchAt(t, w, up, j + 1))
  {
    hide *;
    FitsIn(t, f, name);
    ComparedPart(t, f, name, w, up, j, MatchAt(t, w, up, j));
    MatchNext(t, w, up, j);
  }

  lemma MatchNext(t: seq<Entry>, w: Wanted, up: Wchar -> Wchar, j: nat)
    requires Proper(w) && j < |t|
    ensures MatchAt(t, w, up, j + 1) == MatchStep(w, t[j], j, MatchAt(t, w, up, j), up)
  {
  }

  lemma ComparingStarts(t: seq<Entry>, f: nat, name: seq<Wchar>, w: Wanted, up: Wchar -> Wchar, m: Match)
    requires Registered(t, f, name) && Proper(w)
    ensures Comparing(t, f, name, w, up, f, m)
  {
  }

  /** One part of a registered name, seen by the comparison. */
  lemma PartSeen(t: seq<Entry>, f: nat, name: seq<Wchar>, w: Wanted, up: Wchar -> Wchar, j: nat)
    requires Registered(t, f, name) && Proper(w) && KeepsEnd(up) && f <= j < f + PartCount(name)
    ensures var e, o := t[j], PartCount(name) - (j - f);
      && e[0] != DDEM && Attr(e) == AM_LFN && e[13] == Checksum(t[f + PartCount(name)][..11])
      && (Last(e[0]) <==> j == f) && e[0] == (if j == f then o + LLEF else o)
      && (AgreesAbove(w.lfn, name, o - 1, up) <==> AgreesAbove(w.lfn, name, o, up) && PartMatches(w.lfn, e, up))
      && (j == f ==> AgreesAbove(w.lfn, name, o, up))
  {
    var o := PartCount(name) - (j - f);
    PartAt(t, f, name, j);
    PartShape(t[j], name, o, t[j][13]);
    PartCompared(t[j], name, o, t[j][13], w.lfn, up);
    AgreesMore(w.lfn, name, o, up);
    hide PartAgrees, PartMatches, Registered, Unit, LdWord, Stop, Held, FillersOk, Fits, Checksum, AgreesAbove;
  }

  lemma AgreesMore(buf: seq<Wchar>, name: seq<Wchar>, o: nat, up: Wchar -> Wchar)
    requires |buf| == MAX_LFN + 1 && |name| <= MAX_LFN && 1 <= o <= PartCount(name)
    ensures AgreesAbove(buf, name, o - 1, up) <==> AgreesAbove(buf, name, o, up) && PartAgrees(buf, name, o, up)
    ensures o == PartCount(name) ==> AgreesAbove(buf, name, o, up)
  {
    hide PartAgrees;
  }

  /** How one part of a registered name changes the state of the comparison. */
  lemma ComparedPart(t: seq<Entry>, f: nat, name: seq<Wchar>, w: Wanted, up: Wchar -> Wchar, j: nat, m: Match)
    requires Registered(t, f, name) && Proper(w) && !w.noLfn && KeepsEnd(up) && f <= j < f + PartCount(name)
    requires Comparing(t, f, name, w, up, j, m)
    ensures Comparing(t, f, name, w, up, j + 1, MatchStep(w, t[j], j, m, up))
  {
    PartSeen(t, f, name, w, up, j);
    assert PartCount(name) <= 20;
    hide Registered, AgreesAbove, PartMatches, KeepsEnd, Checksum, Attr, Last, PartCount;
  }

  /** A registered name is hit by its long form exactly when it is the wanted one up to case, and by nothing earlier in
      it. */
  lemma NamedHit(t: seq<Entry>, f: nat, name: seq<Wchar>, w: Wanted, up: Wchar -> Wchar)
    requires Registered(t, f, name) && Proper(w) && !w.noLfn && KeepsEnd(up)
    ensures var at := f + PartCount(name);
      && (HitAt(t, w, up, at) <==> SameName(w.lfn, name, up) || ShortMatch(t[at], w.fn, w.lossy))
      && (SameName(w.lfn, name, up) ==> MatchAt(t, w, up, at).blk == f)
      && forall k :: f <= k < at ==> t[k][0] != 0 && !HitAt(t, w, up, k)
  {
    hide *;
    FitsIn(t, f, name);
    forall k | f <= k < f + PartCount(name) ensures t[k][0] != 0 && !HitAt(t, w, up, k) {
      PartNoHit(t, f, name, w, up, k);
    }
    Compared(t, f, name, w, up, f + PartCount(name));
    ShortDecides(t, f, name, w, up);
  }

  lemma PartNoHit(t: seq<Entry>, f: nat, name: seq<Wchar>, w: Wanted, up: Wchar -> Wchar, k: nat)
    requires Registered(t, f, name) && Proper(w) && f <= k < f + PartCount(name)
    ensures k < |t| && t[k][0] != 0 && !HitAt(t, w, up, k)
  {
    PartAt(t, f, name, k);
  }

  /** At the short entry the comparison is decided. */
  lemma ShortDecides(t: seq<Entry>, f: nat, name: seq<Wchar>, w: Wanted, up: Wchar -> Wchar)
    requires Registered(t, f, name) && Proper(w) && KeepsEnd(up)
    requires Comparing(t, f, name, w, up, f + PartCount(name), MatchAt(t, w, up, f + PartCount(name)))
    ensures var at := f + PartCount(name);
      && (HitAt(t, w, up, at) <==> SameName(w.lfn, name, up) || ShortMatch(t[at], w.fn, w.lossy))
      && (SameName(w.lfn, name, up) ==> MatchAt(t, w, up, at).blk == f)
  {
    AllPartsAgree(w.lfn, name, up);
    assert PartCount(name) > 0 && Candidate(t[f + PartCount(name)]);
    hide Parts, AgreesAbove, SameName, KeepsEnd, Checksum, IsName, PartCount, MatchAt, Live, Candidate, Registered;
  }

  /** The state depends on the entries before it only. */
  lemma {:induction false} MatchPrefix(t: seq<Entry>, t': seq<Entry>, w: Wanted, up: Wchar -> Wchar, j: nat)
    requires Proper(w) && j <= |t| && j <= |t'| && forall k :: 0 <= k < j ==> t'[k] == t[k]
    ensures MatchAt(t', w, up, j) == MatchAt(t, w, up, j)
  {
    if j > 0 {
      MatchPrefix(t, t', w, up, j - 1);
    }
  }
}
