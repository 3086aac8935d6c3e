/** The way round: a name as a listing shows it is the name it was made from. */
module Listing {
  import opened Bytes
  import opened LongName
  import opened NameTable
  import opened Utf8
  import opened ShortName
  import opened FileName

  // Long names.

  lemma DecodeByte(s: seq<Byte>)
    requires s != [] && s[0] < 0x80
    ensures Decode(s) == Code(s[0], 1)
  {
  }

  /** One round of the scan over a character of the text. */
  lemma ScanChar(str: seq<Byte>, p: nat, c: nat)
    requires Terminated(str) && Scalar(c) && !Stops(c) && !Illegal(c)
    requires p + |Encoded(c)| < |str| && str[p..p + |Encoded(c)|] == Encoded(c)
    ensures Scan(str, p) == Join(Units(c), Scan(str, p + |Encoded(c)|))
  {
    hide Decode, Encoded, Units, Join, Stops, Illegal;
    var n := |Encoded(c)|;
    assert str[p..] == Encoded(c) + str[p + n..];
    DecodeEncoded(c, str[p + n..]);
  }

  lemma ScanEnd(str: seq<Byte>, p: nat)
    requires Terminated(str) && p < |str| && str[p] < 0x80 && Stops(str[p])
    ensures Scan(str, p) == Scanned([], p + 1)
  {
    DecodeByte(str[p..]);
    hide Decode;
  }

  lemma NoText()
    ensures TextOf([]) == Text([])
  {
  }

  /** The text of a name, read again, is the name. */
  lemma {:induction false} ScanText(u: seq<Wchar>, str: seq<Byte>, p: nat)
    requires Terminated(str) && TextOf(u).Text? && forall i :: 0 <= i < |u| ==> Legal(u[i])
    requires p + |TextOf(u).b| < |str| && str[p..p + |TextOf(u).b|] == TextOf(u).b
    requires str[p + |TextOf(u).b|] < 0x80 && Stops(str[p + |TextOf(u).b|])
    ensures Scan(str, p) == Scanned(u, p + |TextOf(u).b| + 1)
    decreases |u|
  {
    hide *;
    NoText();
    if u == [] {
      ScanEnd(str, p);
    } else {
      var k := if IsSurrogate(u[0]) then 2 else 1;
      FirstChar(u, k);
      var c := ScalarOf(u[..k]);
      var n, b := |Encoded(c)|, TextOf(u[k..]).b;
      ThenIs(Encoded(c), TextOf(u[k..]));
      Pieces(str, p, Encoded(c), b);
      ScanChar(str, p, c);
      ScanText(u[k..], str, p + n);
      JoinIs(u[..k], Scan(str, p + n));
      assert u == u[..k] + u[k..];
    }
  }

  lemma ThenIs(b: seq<Byte>, r: Text)
    requires r.Text?
    ensures Then(b, r) == Text(b + r.b)
  {
  }

  lemma JoinIs(u: seq<Wchar>, r: Scanned)
    requires r.Scanned?
    ensures Join(u, r) == Scanned(u + r.name, r.p)
  {
  }

  lemma Pieces(str: seq<Byte>, p: nat, a: seq<Byte>, b: seq<Byte>)
    requires p + |a + b| <= |str| && str[p..p + |a + b|] == a + b
    ensures str[p..p + |a|] == a && str[p + |a|..p + |a| + |b|] == b
  {
    assert str[p..p + |a|] == str[p..p + |a + b|][..|a|];
    assert str[p + |a|..p + |a| + |b|] == str[p..p + |a + b|][|a|..];
  }

  /** The first character of a name with a text. */
  lemma FirstChar(u: seq<Wchar>, k: nat)
    requires u != [] && TextOf(u).Text? && k == if IsSurrogate(u[0]) then 2 else 1
    requires Legal(u[0])
    ensures k <= |u| && IsChar(u[..k]) && Units(ScalarOf(u[..k])) == u[..k]
    ensures !Stops(ScalarOf(u[..k])) && !Illegal(ScalarOf(u[..k]))
    ensures TextOf(u) == Then(Encoded(ScalarOf(u[..k])), TextOf(u[k..])) && TextOf(u[k..]).Text?
  {
    hide *;
    TextParts(u);
    if k == 1 {
      assert u[..1] == [u[0]];
      OneUnit(u[0]);
    } else {
      PairHigh(u[..2]);
    }
    ThenText(Encoded(ScalarOf(u[..k])), TextOf(u[k..]));
  }

  lemma ThenText(b: seq<Byte>, r: Text)
    ensures Then(b, r).Text? <==> r.Text?
  {
  }

  /** A text begins with a unit of its own, or with a pair. */
  lemma TextParts(u: seq<Wchar>)
    requires u != [] && TextOf(u).Text?
    ensures !IsSurrogate(u[0]) ==> TextOf(u) == Then(Encoded(u[0]), TextOf(u[1..]))
    ensures IsSurrogate(u[0]) ==>
      |u| >= 2 && IsChar(u[..2]) && TextOf(u) == Then(Encoded(ScalarOf(u[..2])), TextOf(u[2..]))
  {
    hide Encoded, ScalarOf, Then;
  }

  lemma OneUnit(c: Wchar)
    requires !IsSurrogate(c) && Legal(c)
    ensures IsChar([c]) && ScalarOf([c]) == c && Units(c) == [c] && !Stops(c) && !Illegal(c)
  {
  }

  lemma PairHigh(u: seq<Wchar>)
    requires |u| == 2 && IsChar(u)
    ensures Units(ScalarOf(u)) == u && !Stops(ScalarOf(u)) && !Illegal(ScalarOf(u))
  {
    ScalarOfUnits(u);
  }

  /** What is scanned has a text. */
  lemma {:induction false} ScanPaired(str: seq<Byte>, p: nat)
    requires Terminated(str) && p < |str|
    ensures Scan(str, p).Scanned? ==> TextOf(Scan(str, p).name).Text?
    decreases |str| - p
  {
    hide Decode, TextOf, Units, Stops, Illegal;
    EmptyText();
    var r := Decode(str[p..]);
    if r.Code? && !Stops(r.c) && !Illegal(r.c) {
      NotAtEnd(str, p);
      ScanPaired(str, p + r.n);
      var rest := Scan(str, p + r.n);
      if rest.Scanned? {
        PairFirst(r.c, rest.name);
      }
    }
  }

  lemma EmptyText()
    ensures TextOf([]).Text?
  {
  }

  lemma PairFirst(c: nat, u: seq<Wchar>)
    requires Scalar(c) && TextOf(u).Text?
    ensures TextOf(Units(c) + u).Text?
  {
    var all := Units(c) + u;
    UnitsOfScalar(c);
    if c < 0x1_0000 {
      assert all[1..] == u;
    } else {
      assert all[..2] == Units(c) && all[2..] == u;
    }
    hide Encoded;
  }

  /** A text can lose its last character if that is a unit of its own. */
  lemma {:induction false} TextCut(u: seq<Wchar>)
    requires u != [] && TextOf(u).Text? && !IsSurrogate(u[|u| - 1])
    ensures TextOf(u[..|u| - 1]).Text?
    decreases |u|
  {
    var t := u[..|u| - 1];
    var k := if IsSurrogate(u[0]) then 2 else 1;
    if |u| > k {
      TextCut(u[k..]);
      assert u[k..][..|u[k..]| - 1] == t[k..] && t[..k] == u[..k];
    }
    hide Encoded;
  }

  lemma {:induction false} TrimPaired(u: seq<Wchar>)
    requires TextOf(u).Text?
    ensures TextOf(Trim(u)).Text?
    decreases |u|
  {
    if u != [] && Dropped(u[|u| - 1]) {
      TextCut(u);
      TrimPaired(u[..|u| - 1]);
    }
    hide TextOf;
  }

  // Short names.

  lemma {:induction false} NoSpacesPad(s: seq<Byte>, n: nat)
    requires SP !in s
    ensures NoSpaces(s + Spaces(n)) == s
    decreases n, |s|
  {
    var all := s + Spaces(n);
    if n > 0 {
      assert all[..|all| - 1] == s + Spaces(n - 1);
      NoSpacesPad(s, n - 1);
    } else if s != [] {
      assert all == s && s[..|s| - 1] + Spaces(0) == s[..|s| - 1];
      NoSpacesPad(s[..|s| - 1], 0);
      assert s == s[..|s| - 1] + [s[|s| - 1]];
    }
  }

  /** The bytes of a field in capitals. */
  function Capitals(s: seq<Wchar>): (b: seq<Byte>)
    requires forall i :: 0 <= i < |s| ==> s[i] < 0x80
    ensures |b| == |s| && forall i :: 0 <= i < |s| ==> b[i] == Up(s[i])
  {
    seq(|s|, i requires 0 <= i < |s| => Up(s[i]))
  }

  predicate Plain(s: seq<Wchar>) {
    forall i :: 0 <= i < |s| ==> 0x20 < s[i] < 0x80 && s[i] != DOT
  }

  lemma FieldPlain(s: seq<Wchar>)
    requires Field(s)
    ensures Plain(s) && SP !in Capitals(s) && RDDEM !in Capitals(s)
  {
  }

  lemma PackedFields(t: seq<Wchar>)
    requires Fits83(t) && Plain(BodyOf(t)) && Plain(ExtOf(t))
    ensures |BodyOf(t)| <= 8 && |ExtOf(t)| <= 3 && |Packed(t)| == 11
    ensures Packed(t)[..8] == Capitals(BodyOf(t)) + Spaces(8 - |BodyOf(t)|)
    ensures Packed(t)[8..] == Capitals(ExtOf(t)) + Spaces(3 - |ExtOf(t)|)
  {
    hide BodyOf, ExtOf, Field;
  }

  /** What a packed name comes out as: body, dot, extension, in capitals. */
  lemma AltPacked(t: seq<Wchar>, fn: seq<Byte>)
    requires Fits83(t) && fn == Packed(t)
    ensures Plain(BodyOf(t)) && Plain(ExtOf(t)) && |fn| == 11
    ensures AltBytes(fn) == Capitals(BodyOf(t)) + (if ExtOf(t) == [] then [] else [DOT]) + Capitals(ExtOf(t))
  {
    var b, e := BodyOf(t), ExtOf(t);
    FieldPlain(b);
    FieldPlain(e);
    PackedFields(t);
    hide Plain, BodyOf, ExtOf, NoSpaces, Field, Fits83, Packed, Upped, Spaces, Capitals;
    NoSpacesPad(Capitals(b), 8 - |b|);
    NoSpacesPad(Capitals(e), 3 - |e|);
    assert fn[8] == fn[8..][0];
    if e != [] { assert fn[8] == Capitals(e)[0]; }
  }

  /** ASCII bytes are their own text. */
  lemma {:induction false} PageAscii(s: seq<Byte>, uni: Byte -> Wchar)
    requires CodePage(uni) && forall i :: 0 <= i < |s| ==> 0x20 <= s[i] < 0x80
    ensures PageText(s, uni) == Text(s)
  {
    if s != [] {
      PageAscii(s[..|s| - 1], uni);
      assert s == s[..|s| - 1] + [s[|s| - 1]];
    }
  }

  lemma {:induction false} TextAscii(u: seq<Wchar>, b: seq<Byte>)
    requires u == b && forall i :: 0 <= i < |u| ==> u[i] < 0x80
    ensures TextOf(u) == Text(b)
  {
    if u != [] {
      TextAscii(u[1..], b[1..]);
      assert b == [b[0]] + b[1..];
    }
  }

  /** A field in capitals, lower-cased by its flag, is the field again. */
  lemma {:induction false} CasedField(s: seq<Wchar>, rest: seq<Byte>, low: bool, ext: bool)
    requires Plain(s) && forall i :: 0 <= i < |s| ==> if low then !IsUpper(s[i]) else !IsLower(s[i])
    ensures Cased(Capitals(s) + rest, low, ext) == s + Cased(rest, low, ext)
  {
    if s == [] {
      assert Capitals(s) + rest == rest;
    } else {
      var all := Capitals(s) + rest;
      assert all[0] == Up(s[0]) && all[1..] == Capitals(s[1..]) + rest;
      CasedField(s[1..], rest, low, ext);
      CasedFirst(s[0], all, low, ext);
      hide *;
      assert s == [s[0]] + s[1..];
    }
  }

  lemma CasedFirst(c: Wchar, all: seq<Byte>, low: bool, ext: bool)
    requires all != [] && c < 0x80 && c != DOT && all[0] == Up(c) && if low then !IsUpper(c) else !IsLower(c)
    ensures Cased(all, low, ext) == [c] + Cased(all[1..], low, ext)
  {
  }

  lemma FieldBack(s: seq<Wchar>, rest: seq<Byte>, ext: bool)
    requires Field(s)
    ensures Plain(s) && Cased(Capitals(s) + rest, HasLower(s), ext) == s + Cased(rest, HasLower(s), ext)
  {
    FieldPlain(s);
    CasedField(s, rest, HasLower(s), ext);
  }

  lemma SplitName(t: seq<Wchar>)
    requires t == [] || t[|t| - 1] != DOT
    ensures t == if ExtOf(t) == [] then BodyOf(t) else BodyOf(t) + ([DOT] + ExtOf(t))
  {
    var d := BehindDot(t);
    if d > 0 {
      assert t == t[..d - 1] + [t[d - 1]] + t[d..];
    }
  }

  /** A packed name, with its case flags, is the name again. */
  lemma CasedBack(b: seq<Wchar>, e: seq<Wchar>)
    requires Field(b) && Field(e)
    ensures Plain(b) && Plain(e)
    ensures Cased(Capitals(b) + (if e == [] then [] else [DOT]) + Capitals(e), HasLower(b), HasLower(e)) ==
      if e == [] then b else b + ([DOT] + e)
  {
    FieldPlain(b);
    FieldPlain(e);
    var rest := (if e == [] then [] else [DOT]) + Capitals(e);
    assert Capitals(b) + (if e == [] then [] else [DOT]) + Capitals(e) == Capitals(b) + rest;
    FieldBack(b, rest, HasLower(e));
    ExtBack(e, rest, HasLower(b));
    hide *;
  }

  lemma ExtBack(e: seq<Wchar>, rest: seq<Byte>, low: bool)
    requires Field(e) && Plain(e) && rest == (if e == [] then [] else [DOT]) + Capitals(e)
    ensures Cased(rest, low, HasLower(e)) == if e == [] then [] else [DOT] + e
  {
    if e != [] {
      assert rest[1..] == Capitals(e) + [] && e + [] == e;
      FieldBack(e, [], HasLower(e));
    }
    hide Field, HasLower, Capitals, Plain;
  }

  /** The bytes of a name that needs no long one, with its flags, are listed as the name. */
  lemma ShortBack(t: seq<Wchar>, fn: seq<Byte>, uni: Byte -> Wchar)
    requires t != [] && !Dropped(t[|t| - 1]) && Fits83(t) && CodePage(uni) && fn == Packed(t)
    ensures |fn| == 11 && TextOf(t) == Text(Listed([], Fitting(PageText(AltBytes(fn), uni), MAX_ALT),
                                                   HasLower(BodyOf(t)), HasLower(ExtOf(t))))
  {
    FieldsOf(t);
    SplitName(t);
    AltPacked(t, fn);
    hide *;
    var b, e, alt := BodyOf(t), ExtOf(t), AltBytes(fn);
    CasedBack(b, e);
    AltAscii(b, e, alt);
    PageAscii(alt, uni);
    NameAscii(b, e, t);
    ShownShort(alt, uni, HasLower(b), HasLower(e));
    TextAscii(t, Cased(alt, HasLower(b), HasLower(e)));
  }

  lemma FieldsOf(t: seq<Wchar>)
    requires t != [] && !Dropped(t[|t| - 1]) && Fits83(t)
    ensures Field(BodyOf(t)) && Field(ExtOf(t)) && 1 <= |BodyOf(t)| <= 8 && |ExtOf(t)| <= 3 && t[|t| - 1] != DOT
  {
  }

  lemma AltAscii(b: seq<Wchar>, e: seq<Wchar>, alt: seq<Byte>)
    requires Plain(b) && Plain(e) && 1 <= |b| <= 8 && |e| <= 3
    requires alt == Capitals(b) + (if e == [] then [] else [DOT]) + Capitals(e)
    ensures 0 < |alt| <= MAX_ALT && forall i :: 0 <= i < |alt| ==> 0x20 <= alt[i] < 0x80
  {
  }

  lemma NameAscii(b: seq<Wchar>, e: seq<Wchar>, t: seq<Wchar>)
    requires Plain(b) && Plain(e) && t == if e == [] then b else b + ([DOT] + e)
    ensures forall i :: 0 <= i < |t| ==> t[i] < 0x80
  {
  }

  lemma ShownShort(alt: seq<Byte>, uni: Byte -> Wchar, body: bool, ext: bool)
    requires 0 < |alt| <= MAX_ALT && PageText(alt, uni) == Text(alt)
    ensures Listed([], Fitting(PageText(alt, uni), MAX_ALT), body, ext) == Cased(alt, body, ext)
  {
  }

  // The way round.

  lemma {:induction false} TrimTrim(u: seq<Wchar>)
    ensures Trim(Trim(u)) == Trim(u)
  {
    if u != [] && Dropped(u[|u| - 1]) { TrimTrim(u[..|u| - 1]); }
  }

  /** A name a listing can show. */
  ghost predicate Sound(t: seq<Wchar>) {
    && t != [] && !Dropped(t[|t| - 1]) && Trim(t) == t && !DotName(t) && |t| <= MAX_LFN
    && TextOf(t).Text? && forall i :: 0 <= i < |t| ==> Legal(t[i])
  }

  lemma NamedMeans(str: seq<Byte>, p0: nat, r: Created, oem: Wchar -> Byte)
    requires Terminated(str) && p0 < |str| && !NoName(Scan(str, p0)) && NamedAs(Scan(str, p0).name, r, oem)
    requires r.Created? && !r.st.dot
    ensures MadeFrom(r.lfn, r, oem) && Sound(r.lfn) && InBuffer(r.lfn + [0], r.lfn) && |r.fn| == 11
  {
    hide *;
    ScanPaired(str, p0);
    Accepted(Scan(str, p0));
    NotDot(Scan(str, p0).name, r, oem);
    SoundTrim(Scan(str, p0).name);
    NoZero(r.lfn);
  }

  lemma Accepted(s: Scanned)
    requires !NoName(s)
    ensures s.Scanned? && |s.name| <= MAX_LFN && (!DotName(s.name) ==> Trim(s.name) != [])
  {
  }

  lemma NotDot(u: seq<Wchar>, r: Created, oem: Wchar -> Byte)
    requires NamedAs(u, r, oem) && r.Created? && !r.st.dot
    ensures !DotName(u) && r.lfn == Trim(u) && MadeFrom(r.lfn, r, oem) && |r.fn| == 11
  {
    hide Basis, Lossy, Fits83, HasLower, BodyOf, ExtOf, Trim;
  }

  lemma SoundTrim(u: seq<Wchar>)
    requires TextOf(u).Text? && Trim(u) != [] && |u| <= MAX_LFN && forall i :: 0 <= i < |u| ==> Legal(u[i])
    ensures Sound(Trim(u)) && forall i :: 0 <= i < |Trim(u)| ==> Legal(Trim(u)[i])
  {
    TrimPaired(u);
    TrimTrim(u);
    hide TextOf, Legal, Trim;
  }

  lemma NoZero(t: seq<Wchar>)
    requires forall i :: 0 <= i < |t| ==> Legal(t[i])
    ensures InBuffer(t + [0], t)
  {
  }

  /** What a listing shows of it. */
  lemma ShownAs(t: seq<Wchar>, r: Created, oem: Wchar -> Byte, uni: Byte -> Wchar)
    requires Sound(t) && MadeFrom(t, r, oem) && CodePage(uni) && |r.fn| == 11
    requires r.st.lfn ==> |TextOf(t).b| <= MAX_TEXT
    ensures TextOf(t).b == Listed(if r.st.lfn then Fitting(TextOf(t), MAX_TEXT) else [],
                                  Fitting(PageText(AltBytes(r.fn), uni), MAX_ALT), r.st.body, r.st.ext)
  {
    if r.st.lfn {
      TextThere(t);
    } else {
      BasisPacked(t, oem);
      ShortBack(t, r.fn, uni);
    }
    hide PageText, AltBytes, TextOf, Fits83, Basis, Lossy, BodyOf, ExtOf, HasLower, Packed;
  }

  lemma TextThere(t: seq<Wchar>)
    requires t != [] && TextOf(t).Text?
    ensures TextOf(t).b != []
  {
  }

  /** The text, taken as a path, gives the name again. */
  lemma NamedAgain(t: seq<Wchar>, r: Created, oem: Wchar -> Byte, again: Created, p: nat)
    requires Sound(t) && MadeFrom(t, r, oem)
    requires var str := TextOf(t).b + [0];
      && (again == Invalid <==> NoName(Scan(str, 0)))
      && (again.Created? ==> NamedAs(Scan(str, 0).name, again, oem) && GoesOn(str, Scan(str, 0).p, again.st.last, p))
    ensures again == r.(st := r.st.(last := true))
  {
    var b := TextOf(t).b;
    assert (b + [0])[0..|b|] == b;
    ScanText(t, b + [0], 0);
    hide Scan, TextOf, Basis, Lossy, Fits83, HasLower, BodyOf, ExtOf;
  }

  /** A name made from a path, listed, and taken as a path again. */
  method NameStays(str: seq<Byte>, p0: nat, oem: Wchar -> Byte, uni: Byte -> Wchar)
    returns (r: Created, fname: seq<Byte>, again: Created)
    requires Terminated(str) && p0 < |str| && CodePage(uni)
    ensures r.Created? && !r.st.dot ==> TextOf(r.lfn).Text?
    ensures r.Created? && !r.st.dot && (r.st.lfn ==> |TextOf(r.lfn).b| <= MAX_TEXT) ==>
      fname == TextOf(r.lfn).b && again == r.(st := r.st.(last := true))
  {
    hide *;
    var p;
    r, p := CreateName(str, p0, oem);
    fname, again := [], Invalid;
    if r.Created? && !r.st.dot {
      NamedMeans(str, p0, r, oem);
      SoundText(r.lfn);
      fname := GetFileInfo(r.lfn + [0], if r.st.lfn then 0 else NO_LFN, r.fn, r.st.body, r.st.ext, uni, r.lfn);
      Ended(fname);
      again, p := CreateName(fname + [0], 0, oem);
      if r.st.lfn ==> |TextOf(r.lfn).b| <= MAX_TEXT {
        ShownAs(r.lfn, r, oem, uni);
        NamedAgain(r.lfn, r, oem, again, p);
      }
    }
  }

  lemma SoundText(t: seq<Wchar>)
    requires Sound(t)
    ensures t != [] && TextOf(t).Text? && 0 != NO_LFN
  {
  }

  lemma Ended(b: seq<Byte>)
    ensures Terminated(b + [0]) && |b + [0]| > 0
  {
  }
}
