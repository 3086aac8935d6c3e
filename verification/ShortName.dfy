/** Short names: made from a long one, and turned back into text with their case flags. */
module ShortName {
  import opened Bytes
  import opened LongName

  const SP: nat := 0x20
  const DOT: nat := 0x2E
  const RDDEM: Byte := 0x05   // stands for a first byte that looks like a deleted entry

  /** The name status byte, flag by flag. */
  datatype Status = Status(loss: bool, lfn: bool, last: bool, body: bool, ext: bool, dot: bool)

  predicate IsUpper(c: nat) { 0x41 <= c <= 0x5A }

  predicate IsLower(c: nat) { 0x61 <= c <= 0x7A }

  function Up(c: nat): nat { if IsLower(c) then c - 0x20 else c }

  predicate IsSeparator(c: nat) { c == 0x2F || c == 0x5C }

  /** Characters of a segment: no control character and no separator. */
  predicate SegmentChar(c: nat) {
    0x20 <= c && !IsSeparator(c)
  }

  predicate Segment(s: seq<Wchar>) {
    forall i :: 0 <= i < |s| ==> SegmentChar(s[i])
  }

  /** Legal in a long name only: + , ; = [ ] */
  predicate LongOnly(c: nat) {
    c == 0x2B || c == 0x2C || c == 0x3B || c == 0x3D || c == 0x5B || c == 0x5D
  }

  /** Spaces and dots have no place in a field of a short name. */
  predicate Dropped(c: nat) {
    c == SP || c == DOT
  }

  /** A character in the code page, extended ones in upper case; 0 when there is none. */
  function InPage(c: Wchar, oem: Wchar -> Byte): nat {
    if c >= 0x80 then oem(c) else c
  }

  predicate Replaced(c: Wchar, oem: Wchar -> Byte) {
    InPage(c, oem) == 0 || LongOnly(InPage(c, oem))
  }

  /** The byte a character becomes. */
  function Short(c: Wchar, oem: Wchar -> Byte): Byte {
    if Replaced(c, oem) then 0x5F else Up(InPage(c, oem))
  }

  /** The segment without trailing spaces and dots. */
  function Trim(s: seq<Wchar>): (t: seq<Wchar>)
    ensures |t| <= |s| && t == s[..|t|]
    ensures t == [] || !Dropped(t[|t| - 1])
  {
    if s == [] || !Dropped(s[|s| - 1]) then s else Trim(s[..|s| - 1])
  }

  /** The dot names, that are not trimmed away. */
  predicate DotName(s: seq<Wchar>) {
    s == [DOT] || s == [DOT, DOT]
  }

  function Spaces(n: nat): (s: seq<Byte>)
    ensures |s| == n && forall i :: 0 <= i < n ==> s[i] == SP
  {
    seq(n, _ => SP)
  }

  /** The place behind the last dot; 0 when there is none. */
  function BehindDot(t: seq<Wchar>): (d: nat)
    ensures d <= |t| && (d > 0 ==> t[d - 1] == DOT) && forall i :: d <= i < |t| ==> t[i] != DOT
  {
    if t == [] || t[|t| - 1] == DOT then |t| else BehindDot(t[..|t| - 1])
  }

  /** Body and extension of a name. */
  function BodyOf(t: seq<Wchar>): seq<Wchar> {
    if BehindDot(t) == 0 then t else t[..BehindDot(t) - 1]
  }

  function ExtOf(t: seq<Wchar>): seq<Wchar> {
    if BehindDot(t) == 0 then [] else t[BehindDot(t)..]
  }

  // The short name of a long one.

  function Kept(s: seq<Wchar>): (k: seq<Wchar>)
    ensures |k| <= |s|
  {
    if s == [] then []
    else Kept(s[..|s| - 1]) + if Dropped(s[|s| - 1]) then [] else [s[|s| - 1]]
  }

  function Shorts(k: seq<Wchar>, oem: Wchar -> Byte): (b: seq<Byte>)
    ensures |b| == |k| && forall i :: 0 <= i < |k| ==> b[i] == Short(k[i], oem)
  {
    seq(|k|, i requires 0 <= i < |k| => Short(k[i], oem))
  }

  /** A field of `n` bytes: the first characters that have a place in it, and spaces. */
  function Slot(s: seq<Wchar>, n: nat, oem: Wchar -> Byte): (b: seq<Byte>)
    ensures |b| == n
  {
    var b := Shorts(Kept(s), oem);
    if |b| >= n then b[..n] else b + Spaces(n - |b|)
  }

  /** The 11 bytes. */
  function Basis(t: seq<Wchar>, oem: Wchar -> Byte): (fn: seq<Byte>)
    ensures |fn| == 11
  {
    var fn := Slot(BodyOf(t), 8, oem) + Slot(ExtOf(t), 3, oem);
    if fn[0] == DDEM then fn[0 := RDDEM] else fn
  }

  /** The field does not show all of its part of the name. */
  /** The byte of a character: a small letter becomes the capital, six characters and those without one in the code page
      become an underscore, all others stay. */
  lemma ShortIs(c: Wchar, oem: Wchar -> Byte)
    ensures c < 0x80 && Short(c, oem) != c ==>
      || (0x61 <= c <= 0x7A && Short(c, oem) == c - 0x20)
      || (c in [0, 0x2B, 0x2C, 0x3B, 0x3D, 0x5B, 0x5D] && Short(c, oem) == 0x5F)
    ensures Short(c, oem) !in [0, 0x2B, 0x2C, 0x3B, 0x3D, 0x5B, 0x5D] && !(0x61 <= Short(c, oem) <= 0x7A)
  {
  }

  /** No short name holds a small letter. */
  lemma BasisCapitals(t: seq<Wchar>, oem: Wchar -> Byte)
    ensures forall i :: 0 <= i < 11 ==> !(0x61 <= Basis(t, oem)[i] <= 0x7A)
  {
    SlotCapitals(BodyOf(t), 8, oem);
    SlotCapitals(ExtOf(t), 3, oem);
    hide Slot;
  }

  lemma SlotCapitals(s: seq<Wchar>, n: nat, oem: Wchar -> Byte)
    ensures forall i :: 0 <= i < n ==> !(0x61 <= Slot(s, n, oem)[i] <= 0x7A)
  {
  }

  /** A first byte that would mark a deleted entry is kept as 0x05. */
  lemma FirstByte(t: seq<Wchar>, oem: Wchar -> Byte)
    ensures var b := (Slot(BodyOf(t), 8, oem) + Slot(ExtOf(t), 3, oem))[0];
      Basis(t, oem)[0] == (if b == 0xE5 then 0x05 else b) != 0xE5
  {
    hide Slot;
  }

  /** A field with small letters and no capitals. */
  predicate SmallOnly(s: seq<Wchar>) {
    && (exists i :: 0 <= i < |s| && 0x61 <= s[i] <= 0x7A)
    && forall i :: 0 <= i < |s| ==> !(0x41 <= s[i] <= 0x5A)
  }

  /** That is what the case flags of a name without a long form say. */
  lemma FieldCase(t: seq<Wchar>)
    ensures Fits83(t) ==> (SmallOnly(BodyOf(t)) <==> HasLower(BodyOf(t)))
    ensures Fits83(t) ==> (SmallOnly(ExtOf(t)) <==> HasLower(ExtOf(t)))
  {
    hide BodyOf, ExtOf;
  }

  predicate Losing(s: seq<Wchar>, n: nat, oem: Wchar -> Byte) {
    (exists i :: 0 <= i < |s| && (Dropped(s[i]) || Replaced(s[i], oem))) || |Kept(s)| > n
  }

  predicate Lossy(t: seq<Wchar>, oem: Wchar -> Byte) {
    Losing(BodyOf(t), 8, oem) || Losing(ExtOf(t), 3, oem) || (t != [] && t[0] == DOT)
  }

  // Names that need no long one.

  predicate HasUpper(s: seq<Wchar>) { exists i :: 0 <= i < |s| && IsUpper(s[i]) }

  predicate HasLower(s: seq<Wchar>) { exists i :: 0 <= i < |s| && IsLower(s[i]) }

  function Upped(s: seq<Wchar>): (r: seq<Wchar>)
    ensures |r| == |s| && forall i :: 0 <= i < |s| ==> r[i] == Up(s[i])
  {
    seq(|s|, i requires 0 <= i < |s| => Up(s[i]))
  }

  /** A field of a short name: no space, no dot, nothing that needs a long name, one case only. */
  predicate Field(s: seq<Wchar>) {
    (forall i :: 0 <= i < |s| ==> SegmentChar(s[i]) && s[i] < 0x80 && !Dropped(s[i]) && !LongOnly(s[i]))
    && !(HasUpper(s) && HasLower(s))
  }

  /** A name that fits 8.3 and one case in each field. */
  predicate Fits83(t: seq<Wchar>) {
    Field(BodyOf(t)) && Field(ExtOf(t)) && 1 <= |BodyOf(t)| <= 8 && |ExtOf(t)| <= 3
  }

  /** The 11 bytes of such a name. */
  function Packed(t: seq<Wchar>): seq<nat>
    requires Fits83(t)
  {
    Upped(BodyOf(t)) + Spaces(8 - |BodyOf(t)|) + Upped(ExtOf(t)) + Spaces(3 - |ExtOf(t)|)
  }

  lemma {:induction false} KeptAll(s: seq<Wchar>)
    requires forall i :: 0 <= i < |s| ==> !Dropped(s[i])
    ensures Kept(s) == s
  {
    if s != [] {
      KeptAll(s[..|s| - 1]);
      assert s == s[..|s| - 1] + [s[|s| - 1]];
    }
  }

  /** Nothing is lost of a name that fits, and it is only put in capitals. */
  lemma BasisPacked(t: seq<Wchar>, oem: Wchar -> Byte)
    requires Fits83(t)
    ensures Basis(t, oem) == Packed(t) && !Lossy(t, oem)
  {
    var b, e := BodyOf(t), ExtOf(t);
    SlotPacked(b, 8, oem);
    SlotPacked(e, 3, oem);
    NoLeadingDot(t);
    hide Slot, Losing, Field, BodyOf, ExtOf, Upped;
  }

  lemma SlotPacked(s: seq<Wchar>, n: nat, oem: Wchar -> Byte)
    requires Field(s) && |s| <= n
    ensures Slot(s, n, oem) == Upped(s) + Spaces(n - |s|) && !Losing(s, n, oem)
    ensures s != [] ==> Slot(s, n, oem)[0] < 0x80
  {
    KeptAll(s);
  }

  lemma NoLeadingDot(t: seq<Wchar>)
    requires Fits83(t)
    ensures t != [] && t[0] != DOT
  {
    assert BodyOf(t)[0] == t[0];
  }

  // The loop of create_name.

  /** What has been seen of a field so far. */
  datatype Traits = Traits(lossy: bool, extended: bool, upper: bool, lower: bool)

  function Seen(s: seq<Wchar>, oem: Wchar -> Byte): Traits {
    if s == [] then Traits(false, false, false, false)
    else
      var v, c := Seen(s[..|s| - 1], oem), s[|s| - 1];
      Traits(v.lossy || Dropped(c) || Replaced(c, oem), v.extended || c >= 0x80, v.upper || IsUpper(c),
             v.lower || IsLower(c))
  }

  lemma Pushed(t: seq<Wchar>, lo: nat, si: nat, oem: Wchar -> Byte)
    requires lo <= si < |t|
    ensures var v, c := Seen(t[lo..si], oem), t[si];
      Seen(t[lo..si + 1], oem) ==
        Traits(v.lossy || Dropped(c) || Replaced(c, oem), v.extended || c >= 0x80, v.upper || IsUpper(c),
               v.lower || IsLower(c))
    ensures Kept(t[lo..si + 1]) == Kept(t[lo..si]) + if Dropped(t[si]) then [] else [t[si]]
  {
    assert t[lo..si + 1][..si - lo] == t[lo..si];
  }

  lemma PushedBody(t: seq<Wchar>, si: nat, oem: Wchar -> Byte)
    requires si < |t|
    ensures var v, c := Seen(t[..si], oem), t[si];
      Seen(t[..si + 1], oem) ==
        Traits(v.lossy || Dropped(c) || Replaced(c, oem), v.extended || c >= 0x80, v.upper || IsUpper(c),
               v.lower || IsLower(c))
    ensures Kept(t[..si + 1]) == Kept(t[..si]) + if Dropped(t[si]) then [] else [t[si]]
  {
    assert t[..si + 1][..si] == t[..si];
  }

  /** The marks of a field are those of its characters. */
  lemma {:induction false} SeenIs(s: seq<Wchar>, oem: Wchar -> Byte)
    ensures var v := Seen(s, oem);
      && (v.lossy <==> exists i :: 0 <= i < |s| && (Dropped(s[i]) || Replaced(s[i], oem)))
      && (v.extended <==> exists i :: 0 <= i < |s| && s[i] >= 0x80)
      && (v.upper <==> HasUpper(s)) && (v.lower <==> HasLower(s))
  {
    if s != [] {
      var s', c := s[..|s| - 1], s[|s| - 1];
      SeenIs(s', oem);
      assert s == s' + [c];
      var v, v' := Seen(s, oem), Seen(s', oem);
      assert v == Traits(v'.lossy || Dropped(c) || Replaced(c, oem), v'.extended || c >= 0x80, v'.upper || IsUpper(c),
                         v'.lower || IsLower(c));
      assert forall i :: 0 <= i < |s'| ==> s[i] == s'[i];
      hide Seen, Dropped, Replaced, IsUpper, IsLower;
    }
  }

  lemma {:induction false} KeptPrefix(s: seq<Wchar>, k: nat)
    requires k <= |s|
    ensures |Kept(s[..k])| <= |Kept(s)| && Kept(s)[..|Kept(s[..k])|] == Kept(s[..k])
    ensures k < |s| && !Dropped(s[k]) ==> |Kept(s[..k])| < |Kept(s)|
  {
    if k < |s| {
      var r := s[..|s| - 1];
      if k < |s| - 1 {
        KeptPrefix(r, k);
        assert r[..k] == s[..k];
      }
    } else {
      assert s[..k] == s;
    }
  }

  /** The upper and lower case seen in a field (two bits of `b`). */
  datatype Caps = Caps(upper: bool, lower: bool)

  /** The variables of the loop; `prev` are the bits of the body once the extension has begun. */
  datatype Sfn = Sfn(si: nat, i: nat, ni: nat, fn: seq<Byte>, prev: Caps, cur: Caps, loss: bool, lfn: bool)
  {
    function BodyCaps(): Caps { if ni == 8 then cur else prev }
    function ExtCaps(): Caps { if ni == 8 then Caps(false, false) else cur }
  }

  /** Behind the bytes `done` stand the characters `k` of a field. */
  ghost predicate Filled(done: seq<Byte>, k: seq<Wchar>, i: nat, fn: seq<Byte>, oem: Wchar -> Byte) {
    i == |done| + |k| <= 11 && fn == done + Shorts(k, oem) + Spaces(11 - i)
  }

  /** The flags tell what has been seen. */
  ghost predicate Marked(s: Sfn, lossy: bool, extended: bool, v: Traits) {
    && (s.loss <==> lossy || v.lossy) && (s.lfn <==> s.loss || extended || v.extended)
    && (!s.lfn ==> s.cur == Caps(v.upper, v.lower))
  }

  ghost predicate InBody(t: seq<Wchar>, s: Sfn, oem: Wchar -> Byte) {
    && t != [] && s.si <= |t| && s.ni == 8 && s.i <= 8 && (BehindDot(t) > 0 ==> s.si < BehindDot(t))
    && Filled([], Kept(t[..s.si]), s.i, s.fn, oem)
    && Marked(s, t[0] == DOT, false, Seen(t[..s.si], oem))
  }

  /** The body has lost something. */
  ghost predicate BodyLost(t: seq<Wchar>, b: seq<Wchar>, oem: Wchar -> Byte)
    requires t != []
  {
    Seen(b, oem).lossy || |Kept(b)| > 8 || t[0] == DOT
  }

  ghost predicate InExt(t: seq<Wchar>, s: Sfn, oem: Wchar -> Byte) {
    var di := BehindDot(t);
    && t != [] && 0 < di <= s.si <= |t| && s.ni == 11
    && Filled(Slot(t[..di - 1], 8, oem), Kept(t[di..s.si]), s.i, s.fn, oem)
    && var b := Seen(t[..di - 1], oem);
       && Marked(s, BodyLost(t, t[..di - 1], oem), b.extended, Seen(t[di..s.si], oem))
       && (!s.lfn ==> s.prev == Caps(b.upper, b.lower))
  }

  ghost predicate Done(t: seq<Wchar>, s: Sfn, oem: Wchar -> Byte) {
    var b, e := Seen(BodyOf(t), oem), Seen(ExtOf(t), oem);
    && s.fn == Slot(BodyOf(t), 8, oem) + Slot(ExtOf(t), 3, oem)
    && (s.loss <==> Lossy(t, oem)) && (s.lfn <==> s.loss || b.extended || e.extended)
    && (!s.lfn ==> s.BodyCaps() == Caps(b.upper, b.lower) && s.ExtCaps() == Caps(e.upper, e.lower))
  }

  lemma BodyParts(t: seq<Wchar>, s: Sfn, oem: Wchar -> Byte)
    ensures InBody(t, s, oem) <==>
      && t != [] && s.si <= |t| && s.ni == 8 && s.i <= 8 && (BehindDot(t) > 0 ==> s.si < BehindDot(t))
      && Filled([], Kept(t[..s.si]), s.i, s.fn, oem) && Marked(s, t[0] == DOT, false, Seen(t[..s.si], oem))
  {
    hide Filled, Kept, Marked, Seen, BehindDot;
  }

  lemma ExtParts(t: seq<Wchar>, s: Sfn, oem: Wchar -> Byte)
    ensures InExt(t, s, oem) <==> var di := BehindDot(t);
      && t != [] && 0 < di <= s.si <= |t| && s.ni == 11
      && Filled(Slot(t[..di - 1], 8, oem), Kept(t[di..s.si]), s.i, s.fn, oem)
      && Marked(s, BodyLost(t, t[..di - 1], oem), Seen(t[..di - 1], oem).extended, Seen(t[di..s.si], oem))
      && (!s.lfn ==> s.prev == Caps(Seen(t[..di - 1], oem).upper, Seen(t[..di - 1], oem).lower))
  {
    hide Filled, Kept, Marked, Seen, BehindDot, Slot, BodyLost;
  }

  /** Lossy, field by field. */
  lemma LossyIs(t: seq<Wchar>, oem: Wchar -> Byte)
    requires t != []
    ensures Lossy(t, oem) <==>
      Seen(BodyOf(t), oem).lossy || |Kept(BodyOf(t))| > 8 || Seen(ExtOf(t), oem).lossy || |Kept(ExtOf(t))| > 3 ||
        t[0] == DOT
  {
    SeenIs(BodyOf(t), oem);
    SeenIs(ExtOf(t), oem);
    hide Seen, Kept, BodyOf, ExtOf, Dropped, Replaced, HasUpper, HasLower;
  }

  // One round.

  /** A space, or a dot that is not the last one. */
  function Skipped(s: Sfn): Sfn {
    s.(si := s.si + 1, loss := true, lfn := true)
  }

  lemma MarksSkip(s: Sfn, lossy: bool, extended: bool, v: Traits, v': Traits)
    requires Marked(s, lossy, extended, v) && v'.lossy
    ensures Marked(Skipped(s), lossy, extended, v')
  {
  }

  lemma SkippedIs(s: Sfn)
    ensures var r := Skipped(s);
      r.si == s.si + 1 && r.i == s.i && r.ni == s.ni && r.fn == s.fn && r.prev == s.prev && r.loss && r.lfn
  {
  }

  lemma BodySkip(t: seq<Wchar>, s: Sfn, oem: Wchar -> Byte)
    requires InBody(t, s, oem) && s.si < |t| && Dropped(t[s.si]) && s.si + 1 != BehindDot(t)
    ensures InBody(t, Skipped(s), oem)
  {
    hide *;
    BodyParts(t, s, oem);
    PushedBody(t, s.si, oem);
    SkippedIs(s);
    MarksSkip(s, t[0] == DOT, false, Seen(t[..s.si], oem), Seen(t[..s.si + 1], oem));
    KeptSame(Kept(t[..s.si]));
    BodyParts(t, Skipped(s), oem);
  }

  lemma KeptSame(k: seq<Wchar>)
    ensures k + [] == k
  {
  }

  lemma ExtSkip(t: seq<Wchar>, s: Sfn, oem: Wchar -> Byte)
    requires InExt(t, s, oem) && s.si < |t| && Dropped(t[s.si])
    ensures InExt(t, Skipped(s), oem)
  {
    hide *;
    ExtParts(t, s, oem);
    var di := BehindDot(t);
    Pushed(t, di, s.si, oem);
    SkippedIs(s);
    MarksSkip(s, BodyLost(t, t[..di - 1], oem), Seen(t[..di - 1], oem).extended, Seen(t[di..s.si], oem),
              Seen(t[di..s.si + 1], oem));
    KeptSame(Kept(t[di..s.si]));
    ExtParts(t, Skipped(s), oem);
  }

  /** A character that has a place. */
  function Put(s: Sfn, c: Wchar, oem: Wchar -> Byte): Sfn
    requires s.i < |s.fn|
  {
    var wc, lost := InPage(c, oem), Replaced(c, oem);
    Sfn(s.si + 1, s.i + 1, s.ni, s.fn[s.i := Short(c, oem)], s.prev,
        if lost then s.cur else Caps(s.cur.upper || IsUpper(wc), s.cur.lower || IsLower(wc)), s.loss || lost,
        s.lfn || lost || c >= 0x80)
  }

  lemma PutBytes(done: seq<Byte>, k: seq<Wchar>, i: nat, fn: seq<Byte>, c: Wchar, oem: Wchar -> Byte)
    requires Filled(done, k, i, fn, oem) && i < 11
    ensures |fn| == 11 && Filled(done, k + [c], i + 1, fn[i := Short(c, oem)], oem)
  {
    assert Shorts(k + [c], oem) == Shorts(k, oem) + [Short(c, oem)];
    hide Shorts, Short;
  }

  /** A replaced character is a loss, an extended one needs a long name, and others count for the case. */
  lemma PutMarks(s: Sfn, lossy: bool, extended: bool, v: Traits, c: Wchar, oem: Wchar -> Byte)
    requires Marked(s, lossy, extended, v) && !Dropped(c) && s.i < |s.fn|
    ensures Marked(Put(s, c, oem), lossy, extended,
                   Traits(v.lossy || Dropped(c) || Replaced(c, oem), v.extended || c >= 0x80, v.upper || IsUpper(c),
                          v.lower || IsLower(c)))
  {
    hide Replaced, Dropped, Short, IsUpper, IsLower;
  }

  lemma PutIs(s: Sfn, c: Wchar, oem: Wchar -> Byte)
    requires s.i < |s.fn|
    ensures var r := Put(s, c, oem);
      && r.si == s.si + 1 && r.i == s.i + 1 && r.ni == s.ni && r.fn == s.fn[s.i := Short(c, oem)] && r.prev == s.prev
      && (s.lfn ==> r.lfn)
  {
  }

  lemma BodyPut(t: seq<Wchar>, s: Sfn, oem: Wchar -> Byte)
    requires InBody(t, s, oem) && s.si < |t| && !Dropped(t[s.si]) && s.si + 1 != BehindDot(t) && s.i < 8
    ensures |s.fn| == 11 && InBody(t, Put(s, t[s.si], oem), oem)
  {
    hide *;
    BodyParts(t, s, oem);
    PushedBody(t, s.si, oem);
    PutBytes([], Kept(t[..s.si]), s.i, s.fn, t[s.si], oem);
    PutIs(s, t[s.si], oem);
    PutMarks(s, t[0] == DOT, false, Seen(t[..s.si], oem), t[s.si], oem);
    BodyParts(t, Put(s, t[s.si], oem), oem);
  }

  lemma ExtPut(t: seq<Wchar>, s: Sfn, oem: Wchar -> Byte)
    requires InExt(t, s, oem) && s.si < |t| && !Dropped(t[s.si]) && s.i < 11
    ensures |s.fn| == 11 && InExt(t, Put(s, t[s.si], oem), oem)
  {
    hide *;
    ExtParts(t, s, oem);
    var di := BehindDot(t);
    Pushed(t, di, s.si, oem);
    PutBytes(Slot(t[..di - 1], 8, oem), Kept(t[di..s.si]), s.i, s.fn, t[s.si], oem);
    PutIs(s, t[s.si], oem);
    PutMarks(s, BodyLost(t, t[..di - 1], oem), Seen(t[..di - 1], oem).extended, Seen(t[di..s.si], oem), t[s.si], oem);
    ExtParts(t, Put(s, t[s.si], oem), oem);
  }

  /** The extension begins: at the last dot, or after an overflow of the body. */
  function Entered(s: Sfn, di: nat, over: bool): Sfn {
    Sfn(di, 8, 11, s.fn, s.cur, Caps(false, false), s.loss || over, s.lfn || over)
  }

  /** What a full or finished field shows: `k` of its characters are done. */
  lemma SlotDone(field: seq<Wchar>, k: nat, n: nat, oem: Wchar -> Byte)
    requires k <= |field| && |Kept(field[..k])| <= n
    requires k < |field| ==> |Kept(field[..k])| == n && !Dropped(field[k])
    ensures Slot(field, n, oem) == Shorts(Kept(field[..k]), oem) + Spaces(n - |Kept(field[..k])|)
    ensures |Kept(field)| > n <==> k < |field|
  {
    KeptPrefix(field, k);
    var some, all := Kept(field[..k]), Kept(field);
    assert Shorts(all, oem)[..|some|] == Shorts(some, oem);
    if k == |field| {
      assert field[..k] == field;
    }
    hide Kept, Short, Dropped;
  }

  lemma NothingSeen(oem: Wchar -> Byte)
    ensures Kept([]) == [] && Seen([], oem) == Traits(false, false, false, false)
    ensures Slot([], 3, oem) == Spaces(3)
  {
  }

  /** What the flags say of a body that is left for the extension. */
  lemma EnterMarks(t: seq<Wchar>, s: Sfn, b: seq<Wchar>, v: Traits, di: nat, over: bool, oem: Wchar -> Byte)
    requires t != [] && Marked(s, t[0] == DOT, false, v)
    requires if over then |Kept(b)| > 8 else v == Seen(b, oem) && |Kept(b)| <= 8
    ensures var r := Entered(s, di, over);
      && Marked(r, BodyLost(t, b, oem), Seen(b, oem).extended, Traits(false, false, false, false))
      && (!r.lfn ==> r.prev == Caps(Seen(b, oem).upper, Seen(b, oem).lower))
      && r.si == di && r.i == 8 && r.ni == 11 && r.fn == s.fn
  {
    hide Kept, Seen;
  }

  lemma ToExt(t: seq<Wchar>, s: Sfn, oem: Wchar -> Byte)
    requires InBody(t, s, oem) && s.si < |t| && BehindDot(t) > 0
    requires s.si + 1 == BehindDot(t) || (s.i == 8 && !Dropped(t[s.si]))
    ensures InExt(t, Entered(s, BehindDot(t), s.si + 1 != BehindDot(t)), oem)
  {
    hide *;
    BodyParts(t, s, oem);
    var di := BehindDot(t);
    var b := t[..di - 1];
    assert b[..s.si] == t[..s.si] && t[di..di] == [];
    FilledIs([], Kept(t[..s.si]), s.i, s.fn, oem);
    SlotDone(b, s.si, 8, oem);
    ExtBytes(Slot(b, 8, oem), Kept(t[..s.si]), s.i, s.fn, oem);
    assert s.si == |b| ==> b == t[..s.si];
    EnterMarks(t, s, b, Seen(t[..s.si], oem), di, s.si + 1 != di, oem);
    NothingSeen(oem);
    ExtParts(t, Entered(s, di, s.si + 1 != di), oem);
  }

  lemma FilledIs(done: seq<Byte>, k: seq<Wchar>, i: nat, fn: seq<Byte>, oem: Wchar -> Byte)
    requires Filled(done, k, i, fn, oem)
    ensures i == |done| + |k|
  {
  }

  lemma ExtBytes(slot: seq<Byte>, k: seq<Wchar>, i: nat, fn: seq<Byte>, oem: Wchar -> Byte)
    requires Filled([], k, i, fn, oem) && i <= 8 && slot == Shorts(k, oem) + Spaces(8 - |k|)
    ensures Filled(slot, [], 8, fn, oem) && fn == slot + Spaces(3)
  {
    hide Shorts;
  }

  /** The end of the conversion: what it says of body and extension. */
  lemma MakeDone(t: seq<Wchar>, s: Sfn, b: seq<Wchar>, e: seq<Wchar>, oem: Wchar -> Byte)
    requires t != [] && b == BodyOf(t) && e == ExtOf(t)
    requires s.fn == Slot(b, 8, oem) + Slot(e, 3, oem)
    requires s.loss <==> BodyLost(t, b, oem) || Seen(e, oem).lossy || |Kept(e)| > 3
    requires s.lfn <==> s.loss || Seen(b, oem).extended || Seen(e, oem).extended
    requires !s.lfn ==> s.BodyCaps() == Caps(Seen(b, oem).upper, Seen(b, oem).lower)
    requires !s.lfn ==> s.ExtCaps() == Caps(Seen(e, oem).upper, Seen(e, oem).lower)
    ensures Done(t, s, oem)
  {
    LossyIs(t, oem);
    hide Lossy, Seen, Kept, Slot, BodyOf, ExtOf;
  }

  lemma FlagsOf(s: Sfn, lossy: bool, extended: bool, v: Traits)
    requires Marked(s, lossy, extended, v)
    ensures (s.loss <==> lossy || v.lossy) && (s.lfn <==> s.loss || extended || v.extended)
    ensures !s.lfn ==> s.cur == Caps(v.upper, v.lower)
  {
  }

  lemma BodyLostIs(t: seq<Wchar>, b: seq<Wchar>, oem: Wchar -> Byte)
    requires t != []
    ensures BodyLost(t, b, oem) <==> Seen(b, oem).lossy || |Kept(b)| > 8 || t[0] == DOT
  {
    hide Seen, Kept;
  }

  lemma CapsAre(s: Sfn)
    ensures s.BodyCaps() == if s.ni == 8 then s.cur else s.prev
    ensures s.ExtCaps() == if s.ni == 8 then Caps(false, false) else s.cur
  {
  }

  lemma NoDot(t: seq<Wchar>)
    ensures BehindDot(t) == 0 ==> BodyOf(t) == t && ExtOf(t) == []
    ensures BehindDot(t) > 0 ==> BodyOf(t) == t[..BehindDot(t) - 1] && ExtOf(t) == t[BehindDot(t)..]
  {
    hide BehindDot;
  }

  /** The body overflows and there is no extension, or the name ends. */
  lemma BodyEnds(t: seq<Wchar>, s: Sfn, oem: Wchar -> Byte)
    requires InBody(t, s, oem) && BehindDot(t) == 0
    requires s.si < |t| ==> s.i == 8 && !Dropped(t[s.si])
    ensures Done(t, if s.si < |t| then Skipped(s) else s, oem)
  {
    hide *;
    BodyParts(t, s, oem);
    FilledIs([], Kept(t[..s.si]), s.i, s.fn, oem);
    SlotDone(t, s.si, 8, oem);
    ExtBytes(Slot(t, 8, oem), Kept(t[..s.si]), s.i, s.fn, oem);
    FlagsOf(s, t[0] == DOT, false, Seen(t[..s.si], oem));
    BodyLostIs(t, t, oem);
    NothingSeen(oem);
    SkippedIs(s);
    CapsAre(s);
    NoDot(t);
    assert s.si == |t| ==> t[..s.si] == t;
    MakeDone(t, if s.si < |t| then Skipped(s) else s, t, [], oem);
  }

  /** The extension overflows, or the name ends. */
  lemma ExtEnds(t: seq<Wchar>, s: Sfn, oem: Wchar -> Byte)
    requires InExt(t, s, oem) && (s.si < |t| ==> s.i == 11 && !Dropped(t[s.si]))
    ensures Done(t, if s.si < |t| then Skipped(s) else s, oem)
  {
    hide *;
    ExtParts(t, s, oem);
    NoDot(t);
    var di := BehindDot(t);
    var b, e := t[..di - 1], t[di..];
    assert e[..s.si - di] == t[di..s.si];
    ExtDone(Slot(b, 8, oem), Kept(t[di..s.si]), s.i, s.fn, oem);
    SlotDone(e, s.si - di, 3, oem);
    FlagsOf(s, BodyLost(t, b, oem), Seen(b, oem).extended, Seen(t[di..s.si], oem));
    SkippedIs(s);
    CapsAre(s);
    assert s.si == |t| ==> t[di..s.si] == e;
    MakeDone(t, if s.si < |t| then Skipped(s) else s, b, e, oem);
  }

  lemma ExtDone(slot: seq<Byte>, k: seq<Wchar>, i: nat, fn: seq<Byte>, oem: Wchar -> Byte)
    requires Filled(slot, k, i, fn, oem) && |slot| == 8
    ensures |k| <= 3 && i == 8 + |k| && fn == slot + (Shorts(k, oem) + Spaces(3 - |k|))
  {
    hide Shorts;
  }

  // The loop.

  lemma {:induction false} AllSpaces(s: seq<Wchar>, oem: Wchar -> Byte)
    requires forall i :: 0 <= i < |s| ==> s[i] == SP
    ensures Kept(s) == [] && Seen(s, oem) == Traits(s != [], false, false, false)
  {
    if s != [] {
      AllSpaces(s[..|s| - 1], oem);
    }
  }

  function Start(si: nat, loss: bool): Sfn {
    Sfn(si, 0, 8, Spaces(11), Caps(false, false), Caps(false, false), loss, loss)
  }

  lemma BuildStart(t: seq<Wchar>, si: nat, oem: Wchar -> Byte)
    requires si < |t| && t[si] != SP && forall i :: 0 <= i < si ==> t[i] == SP
    ensures InBody(t, Start(si, si > 0 || t[si] == DOT), oem)
  {
    AllSpaces(t[..si], oem);
    assert BehindDot(t) > 0 ==> si < BehindDot(t);
  }

  /** The loop of create_name that builds the short name. */
  method BuildSfn(t: seq<Wchar>, si0: nat, loss0: bool, oem: Wchar -> Byte) returns (s: Sfn)
    requires si0 < |t| && t[si0] != SP && forall i :: 0 <= i < si0 ==> t[i] == SP
    requires loss0 == (si0 > 0 || t[si0] == DOT) && t[|t| - 1] != DOT
    ensures Done(t, s, oem)
  {
    s := Sfn(si0, 0, 8, Spaces(11), Caps(false, false), Caps(false, false), loss0, loss0);
    BuildStart(t, si0, oem);
    var stop := false;
    hide Done, InBody, InExt, Spaces;
    while s.si < |t| && !stop
      invariant if stop then Done(t, s, oem) else InBody(t, s, oem) || InExt(t, s, oem)
      decreases |t| - s.si, !stop
    {
      s, stop := NextChar(t, s, oem);
    }
    if !stop {
      AllRead(t, s, oem);
    }
  }

  lemma AllRead(t: seq<Wchar>, s: Sfn, oem: Wchar -> Byte)
    requires t != [] && s.si >= |t| && (InBody(t, s, oem) || InExt(t, s, oem))
    ensures Done(t, s, oem)
  {
    BodyParts(t, s, oem);
    ExtParts(t, s, oem);
    hide *;
    if InBody(t, s, oem) { BodyEnds(t, s, oem); } else { ExtEnds(t, s, oem); }
  }

  /** One round of the loop; `stop` is its break. */
  method NextChar(t: seq<Wchar>, s0: Sfn, oem: Wchar -> Byte) returns (s: Sfn, stop: bool)
    requires s0.si < |t| && (InBody(t, s0, oem) || InExt(t, s0, oem))
    ensures s.si > s0.si && if stop then Done(t, s, oem) else InBody(t, s, oem) || InExt(t, s, oem)
  {
    var di, wc := BehindDot(t), t[s0.si];
    stop := false;
    Where(t, s0, oem);
    hide InBody, InExt, Done, BehindDot;
    if wc == SP || (wc == DOT && s0.si + 1 != di) {
      s := s0.(si := s0.si + 1, loss := true, lfn := true);
      if s0.ni == 8 { BodySkip(t, s0, oem); } else { ExtSkip(t, s0, oem); }
    } else if s0.i >= s0.ni || s0.si + 1 == di {
      s, stop := EndOfField(t, s0, oem);
    } else {
      s := PutChar(t, s0, oem);
    }
  }

  lemma Where(t: seq<Wchar>, s: Sfn, oem: Wchar -> Byte)
    requires s.si < |t| && (InBody(t, s, oem) || InExt(t, s, oem))
    ensures |s.fn| == 11 && (InBody(t, s, oem) <==> s.ni == 8) && (InExt(t, s, oem) <==> s.ni == 11)
    ensures s.ni == 8 ==> s.i <= 8 && (BehindDot(t) > 0 ==> s.si < BehindDot(t))
    ensures s.ni == 11 ==> 0 < BehindDot(t) <= s.si && s.i <= 11 && t[s.si] != DOT
  {
    BodyParts(t, s, oem);
    ExtParts(t, s, oem);
    hide InBody, InExt, Kept, Seen, Shorts, Slot, Marked, BodyLost;
  }

  /** One character put into its field. */
  method PutChar(t: seq<Wchar>, s0: Sfn, oem: Wchar -> Byte) returns (s: Sfn)
    requires s0.si < |t| && (InBody(t, s0, oem) || InExt(t, s0, oem))
    requires !Dropped(t[s0.si]) && s0.si + 1 != BehindDot(t) && s0.i < s0.ni
    ensures s.si == s0.si + 1 && (InBody(t, s, oem) || InExt(t, s, oem))
  {
    Where(t, s0, oem);
    if s0.ni == 8 { BodyPut(t, s0, oem); } else { ExtPut(t, s0, oem); }
    hide InBody, InExt, BehindDot, Put;
    PutIs(s0, t[s0.si], oem);
    s := PutByte(s0, t[s0.si], oem);
  }

  /** Its byte; characters that have no place in the code page or a short name are replaced. */
  method PutByte(s0: Sfn, c: Wchar, oem: Wchar -> Byte) returns (s: Sfn)
    requires s0.i < |s0.fn|
    ensures s == Put(s0, c, oem)
  {
    var wc: nat, loss, lfn, cur := c, s0.loss, s0.lfn, s0.cur;
    if wc >= 0x80 {
      lfn := true;
      wc := oem(c);
    }
    if wc == 0 || wc in [0x2B, 0x2C, 0x3B, 0x3D, 0x5B, 0x5D] {
      wc := 0x5F;
      loss, lfn := true, true;
    } else if 0x41 <= wc <= 0x5A {
      cur := cur.(upper := true);
    } else if 0x61 <= wc <= 0x7A {
      cur := cur.(lower := true);
      wc := wc - 0x20;
    }
    s := Sfn(s0.si + 1, s0.i + 1, s0.ni, s0.fn[s0.i := wc], s0.prev, cur, loss, lfn);
  }

  /** The end of a field: the conversion stops behind an overflowing extension or a body without one; otherwise the
      extension is entered. Overflow asks for a long name. */
  method EndOfField(t: seq<Wchar>, s0: Sfn, oem: Wchar -> Byte) returns (s: Sfn, stop: bool)
    requires s0.si < |t| && (InBody(t, s0, oem) || InExt(t, s0, oem))
    requires (s0.i >= s0.ni && !Dropped(t[s0.si])) || s0.si + 1 == BehindDot(t)
    ensures s.si > s0.si && if stop then Done(t, s, oem) else InExt(t, s, oem)
  {
    Where(t, s0, oem);
    hide InBody, InExt, Done, BehindDot;
    var di, si, loss, lfn := BehindDot(t), s0.si + 1, s0.loss, s0.lfn;
    if s0.ni == 11 {
      ExtEnds(t, s0, oem);
      return s0.(si := si, loss := true, lfn := true), true;
    }
    if si != di {
      loss, lfn := true, true;
    }
    if si > di {
      BodyEnds(t, s0, oem);
      return s0.(si := si, loss := loss, lfn := lfn), true;
    }
    ToExt(t, s0, oem);
    return Sfn(di, 8, 11, s0.fn, s0.cur, Caps(false, false), loss, lfn), false;
  }

  /** Remove leading spaces. */
  method SkipSpaces(t: seq<Wchar>) returns (si: nat)
    requires t != [] && !Dropped(t[|t| - 1])
    ensures si < |t| && t[si] != SP && forall i :: 0 <= i < si ==> t[i] == SP
  {
    si := 0;
    while t[si] == SP
      invariant 0 <= si < |t| && forall i :: 0 <= i < si ==> t[i] == SP
      decreases |t| - si
    {
      si := si + 1;
    }
  }

  /** The part of create_name behind the long name. */
  method ShortOf(t: seq<Wchar>, last: bool, oem: Wchar -> Byte) returns (fn: seq<Byte>, st: Status)
    requires t != [] && !Dropped(t[|t| - 1]) && Segment(t)
    ensures fn == Basis(t, oem) && st.last == last && !st.dot
    ensures (st.loss <==> Lossy(t, oem)) && (st.lfn <==> !Fits83(t)) && (st.loss ==> st.lfn)
    ensures st.body <==> !st.lfn && SmallOnly(BodyOf(t))
    ensures st.ext <==> !st.lfn && SmallOnly(ExtOf(t))
    ensures forall i :: 0 <= i < 11 ==> !(0x61 <= fn[i] <= 0x7A)
  {
    BasisCapitals(t, oem);
    FieldCase(t);
    hide Basis, Fits83, BodyOf, ExtOf, HasLower, SmallOnly, Lossy, Done, Segment;
    var si := SkipSpaces(t);
    var s := BuildSfn(t, si, si > 0 || t[si] == DOT, oem);
    DoneMeans(t, s, oem);
    fn := s.fn;
    if fn[0] == DDEM {
      fn := fn[0 := RDDEM];
    }
    var body, ext := if s.ni == 8 then s.cur else s.prev, if s.ni == 8 then Caps(false, false) else s.cur;
    var lfn := s.lfn || (body.upper && body.lower) || (ext.upper && ext.lower);
    st := Status(s.loss, lfn, last, !lfn && body.lower, !lfn && ext.lower, false);
  }

  /** What the finished conversion says. */
  lemma DoneMeans(t: seq<Wchar>, s: Sfn, oem: Wchar -> Byte)
    requires t != [] && !Dropped(t[|t| - 1]) && Segment(t) && Done(t, s, oem)
    ensures |s.fn| == 11 && Basis(t, oem) == if s.fn[0] == DDEM then s.fn[0 := RDDEM] else s.fn
    ensures (s.loss <==> Lossy(t, oem)) && (s.loss ==> s.lfn)
    ensures var b, e := s.BodyCaps(), s.ExtCaps();
      && (Fits83(t) <==> !(s.lfn || (b.upper && b.lower) || (e.upper && e.lower)))
      && (!s.lfn ==> (b.lower <==> HasLower(BodyOf(t))) && (e.lower <==> HasLower(ExtOf(t))))
  {
    SeenIs(BodyOf(t), oem);
    SeenIs(ExtOf(t), oem);
    FitsWhen(t, oem);
    hide Seen, Lossy, Fits83, BodyOf, ExtOf, HasUpper, HasLower, Slot, Segment, Dropped, Replaced;
  }

  /** A name fits when nothing is lost, nothing is extended, and no field has both cases. */
  lemma FitsWhen(t: seq<Wchar>, oem: Wchar -> Byte)
    requires t != [] && !Dropped(t[|t| - 1]) && Segment(t)
    ensures var b, e := Seen(BodyOf(t), oem), Seen(ExtOf(t), oem);
      Fits83(t) <==> !Lossy(t, oem) && !b.extended && !e.extended && !(b.upper && b.lower) && !(e.upper && e.lower)
  {
    var b, e := BodyOf(t), ExtOf(t);
    assert Segment(b) && Segment(e);
    FieldWhen(b, 8, oem);
    FieldWhen(e, 3, oem);
    assert t[0] != DOT ==> b != [];
    if Fits83(t) { NoLeadingDot(t); }
    hide Field, Losing, Seen, BodyOf, ExtOf, Segment, Dropped;
  }

  lemma FieldWhen(s: seq<Wchar>, n: nat, oem: Wchar -> Byte)
    requires Segment(s)
    ensures var v := Seen(s, oem);
      Field(s) && |s| <= n <==> !Losing(s, n, oem) && !v.extended && !(v.upper && v.lower)
  {
    SeenIs(s, oem);
    if !Seen(s, oem).lossy || Field(s) {
      KeptAll(s);
    }
    hide Seen, HasUpper, HasLower, Kept;
  }
}
