/** Names between the text of the API and a directory entry: create_name and get_fileinfo. */
module FileName {
  import opened Bytes
  import opened LongName
  import opened NameTable
  import opened Utf8
  import opened ShortName

  const MAX_TEXT: nat := 255   // FF_LFN_BUF
  const MAX_ALT: nat := 12     // FF_SFN_BUF

  /** What create_name answers: FR_INVALID_NAME, or the long name, the 11 bytes and the status. */
  datatype Created = Invalid | Created(lfn: seq<Wchar>, fn: seq<Byte>, st: Status)

  /** Illegal in a long name: * : < > | " ? and DEL. */
  predicate Illegal(c: nat) {
    c == 0x2A || c == 0x3A || c == 0x3C || c == 0x3E || c == 0x7C || c == 0x22 || c == 0x3F || c == 0x7F
  }

  predicate Stops(c: nat) {
    c < 0x20 || IsSeparator(c)
  }

  /** A character of a long name. */
  predicate Legal(c: nat) {
    !Stops(c) && !Illegal(c)
  }

  lemma LegalIs(c: nat)
    ensures Stops(c) <==> c < 0x20 || c == 0x2F || c == 0x5C
    ensures Illegal(c) <==> c in [0x2A, 0x3A, 0x3C, 0x3E, 0x7C, 0x22, 0x3F, 0x7F]
  {
  }

  // The long name of a path segment.

  /** The string ends with its terminator. */
  predicate Terminated(str: seq<Byte>) {
    str != [] && str[|str| - 1] == 0
  }

  /** The characters before the first one that stops, and the place behind that one; or a wrong or illegal one. */
  datatype Scanned = Rejected | Scanned(name: seq<Wchar>, p: nat)

  /** What is read, and then the rest. */
  function Join(u: seq<Wchar>, r: Scanned): Scanned {
    if r.Rejected? then Rejected else Scanned(u + r.name, r.p)
  }

  function Scan(str: seq<Byte>, p: nat): (r: Scanned)
    requires Terminated(str) && p < |str|
    ensures r.Scanned? ==> p < r.p <= |str| && forall i :: 0 <= i < |r.name| ==> Legal(r.name[i])
    decreases |str| - p
  {
    match Decode(str[p..])
    case Wrong => Rejected
    case Code(c, n) =>
      if Stops(c) then Scanned([], p + n)
      else if Illegal(c) then Rejected
      else
        NotAtEnd(str, p);
        Join(Units(c), Scan(str, p + n))
  }

  /** A character that does not stop is not the terminator. */
  lemma NotAtEnd(str: seq<Byte>, p: nat)
    requires Terminated(str) && p < |str| && Decode(str[p..]).Code? && !Stops(Decode(str[p..]).c)
    ensures p + Decode(str[p..]).n < |str|
  {
    var s := str[p..];
    Shape(s);
    assert s[Decode(s).n - 1] == str[p + Decode(s).n - 1];
  }

  lemma JoinStep(str: seq<Byte>, p: nat, u: seq<Wchar>)
    requires Terminated(str) && p < |str| && Decode(str[p..]).Code?
    ensures var r := Decode(str[p..]);
      && (Stops(r.c) ==> Join(u, Scan(str, p)) == Scanned(u, p + r.n))
      && (!Stops(r.c) && Illegal(r.c) ==> Join(u, Scan(str, p)) == Rejected)
      && (!Stops(r.c) ==> p + r.n < |str|)
      && (!Stops(r.c) && !Illegal(r.c) ==> Join(u, Scan(str, p)) == Join(u + Units(r.c), Scan(str, p + r.n)))
  {
    var r := Decode(str[p..]);
    if !Stops(r.c) {
      NotAtEnd(str, p);
      if !Illegal(r.c) {
        JoinMore(u, Units(r.c), Scan(str, p + r.n));
      }
    }
    hide Decode, Stops, Illegal, Units;
    assert u + [] == u;
  }

  lemma WrongScan(str: seq<Byte>, p: nat, u: seq<Wchar>)
    requires Terminated(str) && p < |str|
    ensures Decode(str[p..]).Wrong? ==> Join(u, Scan(str, p)) == Rejected
  {
    hide Decode;
  }

  lemma EndByte(str: seq<Byte>)
    requires Terminated(str)
    ensures str != [] && str[|str| - 1] == 0
  {
  }

  lemma JoinMore(u: seq<Wchar>, c: seq<Wchar>, r: Scanned)
    ensures Join(u, Join(c, r)) == Join(u + c, r)
  {
    if r.Scanned? { assert u + (c + r.name) == u + c + r.name; }
  }

  /** The units of a character, as they come in one double word. */
  lemma UnitBounds(c: nat)
    requires Scalar(c)
    ensures var uc := Dword(Units(c));
      && (uc < 0x1_0000 ==> Units(c) == [uc] && uc == c)
      && (uc >= 0x1_0000 ==> uc / 0x1_0000 < 0x1_0000 && Units(c) == [uc / 0x1_0000, uc % 0x1_0000])
      && (uc >= 0x1_0000 ==> !Stops(uc % 0x1_0000) && !Illegal(uc % 0x1_0000) && !Stops(c) && !Illegal(c))
  {
  }

  /** A character that stops is a single byte. */
  lemma StopByte(s: seq<Byte>)
    requires s != [] && Decode(s).Code? && Stops(Decode(s).c)
    ensures Decode(s).n == 1 && s[0] == Decode(s).c
  {
    Shape(s);
    hide Decode;
  }

  lemma TooLong(r: Scanned, u: seq<Wchar>, rest: Scanned)
    requires r == Join(u, rest) && |u| > MAX_LFN
    ensures r.Scanned? ==> |r.name| > MAX_LFN
  {
  }

  /** The loop of create_name that takes the long name; `stop` is the character that ended it. */
  method TakeLong(str: seq<Byte>, p0: nat) returns (ok: bool, lfn: seq<Wchar>, p: nat, stop: nat)
    requires Terminated(str) && p0 < |str|
    ensures ok <==> Scan(str, p0).Scanned? && |Scan(str, p0).name| <= 255
    ensures ok ==> lfn == Scan(str, p0).name && p == Scan(str, p0).p && p0 < p <= |str|
    ensures ok ==> Stops(stop) && str[p - 1] == stop
  {
    lfn, p, stop := [], p0, 0x20;
    JoinNone(Scan(str, p0));
    hide *;
    ok := true;
    var more := true;
    while more
      invariant p0 <= p && (more ==> p < |str|) && |lfn| <= MAX_LFN
      invariant more ==> ok && Scan(str, p0) == Join(lfn, Scan(str, p))
      invariant !more ==> (ok <==> Scan(str, p0).Scanned? && |Scan(str, p0).name| <= MAX_LFN)
      invariant !more && ok ==> Scan(str, p0) == Scanned(lfn, p) && p0 < p <= |str| && Stops(stop) && str[p - 1] == stop
      decreases |str| - p, more
    {
      ok, lfn, p, stop, more := TakeChar(str, p0, lfn, p);
    }
  }

  lemma JoinNone(r: Scanned)
    ensures Join([], r) == r
  {
  }

  /** One round of it. */
  method TakeChar(str: seq<Byte>, ghost p0: nat, lfn0: seq<Wchar>, p: nat)
    returns (ok: bool, lfn: seq<Wchar>, q: nat, stop: nat, more: bool)
    requires Terminated(str) && p0 <= p < |str| && |lfn0| <= MAX_LFN && Scan(str, p0) == Join(lfn0, Scan(str, p))
    ensures more ==> ok && p < q < |str| && |lfn| <= MAX_LFN && Scan(str, p0) == Join(lfn, Scan(str, q))
    ensures !more ==> p <= q && |lfn| <= MAX_LFN
    ensures !more ==> (ok <==> Scan(str, p0).Scanned? && |Scan(str, p0).name| <= MAX_LFN)
    ensures !more && ok ==> Scan(str, p0) == Scanned(lfn, q) && p < q <= |str| && Stops(stop) && str[q - 1] == stop
  {
    hide *;
    EndByte(str);
    WrongScan(str, p, lfn0);
    lfn, stop, more := lfn0, 0x20, false;
    var uc;
    ok, uc, q := Tchar2Uni(str, p);
    if !ok {
      return false, lfn, p, stop, false;
    }
    JoinStep(str, p, lfn0);
    UnitBounds(Decode(str[p..]).c);
    var u := if uc >= 0x1_0000 then lfn + [uc / 0x1_0000] else lfn;
    var wc := uc % 0x1_0000;
    LegalIs(wc);
    if wc < 0x20 || wc == 0x2F || wc == 0x5C {
      StopByte(str[p..]);
      return true, lfn, q, wc, false;
    }
    if wc in [0x2A, 0x3A, 0x3C, 0x3E, 0x7C, 0x22, 0x3F, 0x7F] {
      return false, lfn, p, stop, false;
    }
    assert u + [wc] == lfn0 + Units(Decode(str[p..]).c);
    if |u| >= MAX_LFN {
      TooLong(Scan(str, p0), u + [wc], Scan(str, q));
      return false, lfn, p, stop, false;
    }
    return true, u + [wc], q, stop, true;
  }

  // create_name.

  /** Where the next segment begins, behind a separator. */
  method SkipSeparators(str: seq<Byte>, p0: nat) returns (p: nat)
    requires Terminated(str) && p0 < |str|
    ensures p0 <= p < |str| && !IsSeparator(str[p]) && forall i :: p0 <= i < p ==> IsSeparator(str[i])
  {
    p := p0;
    while IsSeparator(str[p])
      invariant p0 <= p < |str| && forall i :: p0 <= i < p ==> IsSeparator(str[i])
      decreases |str| - p
    {
      p := p + 1;
    }
  }

  /** The name is refused. */
  predicate NoName(r: Scanned) {
    r.Rejected? || |r.name| > 255 || (!DotName(r.name) && Trim(r.name) == [])
  }

  /** What create_name makes of a name without trailing spaces and dots. */
  ghost predicate MadeFrom(t: seq<Wchar>, r: Created, oem: Wchar -> Byte) {
    && r.Created? && r.lfn == t && r.fn == Basis(t, oem) && !r.st.dot
    && (r.st.loss <==> Lossy(t, oem)) && (r.st.lfn <==> !Fits83(t)) && (r.st.loss ==> r.st.lfn)
    && (r.st.body <==> !r.st.lfn && SmallOnly(BodyOf(t))) && (r.st.ext <==> !r.st.lfn && SmallOnly(ExtOf(t)))
  }

  /** What it makes of the characters of a segment. */
  ghost predicate NamedAs(u: seq<Wchar>, r: Created, oem: Wchar -> Byte) {
    if DotName(u) then
      && r.Created? && r.lfn == u && r.fn == u + Spaces(11 - |u|)
      && r.st == Status(false, false, r.st.last, false, false, true)
    else MadeFrom(Trim(u), r, oem)
  }

  /** The path goes on behind the separators of a segment; a last segment may end with some. */
  ghost predicate GoesOn(str: seq<Byte>, q: nat, last: bool, p: nat) {
    && 0 < q <= p <= |str|
    && if IsSeparator(str[q - 1]) then
         p < |str| && !IsSeparator(str[p]) && last == (str[p] < 0x20) && forall i :: q <= i < p ==> IsSeparator(str[i])
       else p == q && last
  }

  /** create_name: the top segment of a path, and the place of the next one. */
  method CreateName(str: seq<Byte>, p0: nat, oem: Wchar -> Byte) returns (r: Created, p: nat)
    requires Terminated(str) && p0 < |str|
    ensures r == Invalid <==> NoName(Scan(str, p0))
    ensures r.Created? ==> NamedAs(Scan(str, p0).name, r, oem) && GoesOn(str, Scan(str, p0).p, r.st.last, p)
    ensures r.Created? ==> |r.fn| == 11 && forall i :: 0 <= i < 11 ==> !(0x61 <= r.fn[i] <= 0x7A)
  {
    hide Basis, Lossy, Fits83, SmallOnly, BodyOf, ExtOf, Scan;
    var ok, u, stop;
    ok, u, p, stop := TakeLong(str, p0);
    if !ok { return Invalid, p; }
    var last := true;
    if stop >= 0x20 {
      p := SkipSeparators(str, p);
      last := str[p] < 0x20;
    }
    var di := |u|;
    if (di == 1 && u[0] == DOT) || (di == 2 && u[1] == DOT && u[0] == DOT) {
      return Created(u, u + Spaces(11 - di), Status(false, false, last, false, false, true)), p;
    }
    di := Trimmed(u);
    if di == 0 { return Invalid, p; }
    var t := u[..di];
    var fn, st := ShortOf(t, last, oem);
    r := Created(t, fn, st);
  }

  /** Snip off trailing spaces and dots. */
  method Trimmed(u: seq<Wchar>) returns (di: nat)
    ensures di <= |u| && u[..di] == Trim(u)
  {
    di := |u|;
    assert u[..|u|] == u;
    while di > 0 && (u[di - 1] == SP || u[di - 1] == DOT)
      invariant 0 <= di <= |u| && Trim(u) == Trim(u[..di])
    {
      assert u[..di][..di - 1] == u[..di - 1];
      di := di - 1;
    }
  }

  // The text of a name.

  datatype Text = Bad | Text(b: seq<Byte>)

  function Then(b: seq<Byte>, r: Text): Text {
    if r.Bad? then Bad else Text(b + r.b)
  }

  /** A long name as text; none for a surrogate without its partner. */
  function TextOf(u: seq<Wchar>): Text {
    if u == [] then Text([])
    else if !IsSurrogate(u[0]) then Then(Encoded(u[0]), TextOf(u[1..]))
    else if |u| >= 2 && IsChar(u[..2]) then Then(Encoded(ScalarOf(u[..2])), TextOf(u[2..]))
    else Bad
  }

  /** The text, if it fits a buffer. */
  function Fitting(r: Text, n: nat): (b: seq<Byte>)
    ensures |b| <= n
  {
    if r.Text? && |r.b| <= n then r.b else []
  }

  lemma ThenThen(a: seq<Byte>, b: seq<Byte>, r: Text)
    ensures Then(a, Then(b, r)) == Then(a + b, r)
  {
    if r.Text? { assert a + (b + r.b) == a + b + r.b; }
  }

  /** One character of a long name to the text. */
  lemma TextStep(b: seq<Byte>, u: seq<Wchar>)
    requires u != []
    ensures !IsSurrogate(u[0]) ==> Then(b, TextOf(u)) == Then(b + Encoded(u[0]), TextOf(u[1..]))
    ensures IsSurrogate(u[0]) && |u| >= 2 && IsChar([u[0], u[1]]) ==>
      Then(b, TextOf(u)) == Then(b + Encoded(ScalarOf([u[0], u[1]])), TextOf(u[2..]))
    ensures IsSurrogate(u[0]) && (|u| < 2 || !IsChar([u[0], u[1]])) ==> TextOf(u) == Bad
  {
    if !IsSurrogate(u[0]) {
      ThenThen(b, Encoded(u[0]), TextOf(u[1..]));
    } else if |u| >= 2 {
      assert u[..2] == [u[0], u[1]];
      if IsChar(u[..2]) {
        ThenThen(b, Encoded(ScalarOf(u[..2])), TextOf(u[2..]));
      }
    }
  }

  // get_fileinfo.

  /** A long name in the buffer: no character of it ends it. */
  ghost predicate InBuffer(lfnbuf: seq<Wchar>, name: seq<Wchar>) {
    |name| < |lfnbuf| && lfnbuf[..|name|] == name && lfnbuf[|name|] == 0 && 0 !in name
  }

  /** The text of the long name in the buffer; none if it is wrong or does not fit. */
  method LongText(lfnbuf: seq<Wchar>, ghost name: seq<Wchar>) returns (fname: seq<Byte>)
    requires InBuffer(lfnbuf, name)
    ensures fname == Fitting(TextOf(name), 255)
  {
    fname := [];
    var si, hs: Wchar := 0, 0;
    hide TextOf, Then, Encoded, Fitting;
    TextStart(name);
    while lfnbuf[si] != 0
      invariant 0 <= si <= |name| && |fname| <= MAX_TEXT && (hs != 0 ==> IsSurrogate(hs))
      invariant TextOf(name) == Then(fname, TextOf(Pending(hs) + name[si..]))
      decreases |lfnbuf| - si
    {
      var wc := lfnbuf[si];
      assert name[si..] == [wc] + name[si + 1..];
      si := si + 1;
      if hs == 0 && 0xD800 <= wc <= 0xDFFF {
        hs := wc;
        assert [] + ([wc] + name[si..]) == Pending(hs) + name[si..];
        continue;
      }
      ghost var u := Pending(hs) + [wc];
      TextNext(fname, hs, wc, name[si..]);
      var out := PutUtf(hs as nat * 0x1_0000 + wc, MAX_TEXT - |fname|, u);
      if out == [] {
        FitsNot(name, fname, u, name[si..]);
        return [];
      }
      fname := fname + out;
      hs := 0;
      assert Pending(hs) + name[si..] == name[si..];
    }
    fname := Closed(fname, hs, name, si);
  }

  /** The high surrogate that waits for its partner. */
  function Pending(hs: Wchar): seq<Wchar> {
    if hs == 0 then [] else [hs]
  }

  /** The end of the name: a surrogate that is left over spoils it. */
  method Closed(fname0: seq<Byte>, hs: Wchar, ghost name: seq<Wchar>, ghost si: nat) returns (fname: seq<Byte>)
    requires si == |name| && |fname0| <= MAX_TEXT && (hs != 0 ==> IsSurrogate(hs))
    requires TextOf(name) == Then(fname0, TextOf(Pending(hs) + name[si..]))
    ensures fname == Fitting(TextOf(name), MAX_TEXT)
  {
    assert name[si..] == [] && Pending(hs) + [] == Pending(hs);
    fname := fname0;
    if hs != 0 {
      fname := [];
    }
    assert fname0 + [] == fname0;
  }

  lemma TextStart(name: seq<Wchar>)
    ensures TextOf(name) == Then([], TextOf(Pending(0) + name[0..]))
  {
    assert Pending(0) + name[0..] == name;
    if TextOf(name).Text? { assert [] + TextOf(name).b == TextOf(name).b; }
  }

  /** One character, or one pair, more. */
  lemma TextNext(b: seq<Byte>, hs: Wchar, wc: Wchar, rest: seq<Wchar>)
    requires wc != 0 && (hs != 0 ==> IsSurrogate(hs)) && (hs == 0 ==> !IsSurrogate(wc))
    ensures var u := Pending(hs) + [wc];
      && 1 <= |u| <= 2 && Dword(u) == hs as nat * 0x1_0000 + wc && (|u| == 2 ==> u[0] > 0)
      && Then(b, TextOf(Pending(hs) + ([wc] + rest))) ==
           if IsChar(u) then Then(b + Encoded(ScalarOf(u)), TextOf(rest)) else Bad
  {
    var u := Pending(hs) + ([wc] + rest);
    TextStep(b, u);
    if hs == 0 {
      assert u == [wc] + rest && u[1..] == rest;
    } else {
      assert u == [hs, wc] + rest && u[2..] == rest;
    }
    hide TextOf, Encoded;
  }

  /** put_utf gave nothing: the name is wrong or too long. */
  lemma FitsNot(name: seq<Wchar>, b: seq<Byte>, u: seq<Wchar>, rest: seq<Wchar>)
    requires 1 <= |u| <= 2 && |b| <= MAX_TEXT
    requires TextOf(name) == if IsChar(u) then Then(b + Encoded(ScalarOf(u)), TextOf(rest)) else Bad
    requires !(IsChar(u) && |Encoded(ScalarOf(u))| <= MAX_TEXT - |b|)
    ensures Fitting(TextOf(name), MAX_TEXT) == []
  {
    hide Encoded, TextOf;
  }

  // The short name.

  function NoSpaces(s: seq<Byte>): (r: seq<Byte>)
    ensures |r| <= |s|
  {
    if s == [] then []
    else NoSpaces(s[..|s| - 1]) + if s[|s| - 1] == SP then [] else [s[|s| - 1]]
  }

  /** The characters of a short entry: body, dot, extension. The dot is there when the extension begins with a
      character. */
  function AltBytes(fn: seq<Byte>): seq<Byte>
    requires |fn| == 11
  {
    NoSpaces(fn[..8]) + (if fn[8] == SP then [] else [DOT]) + NoSpaces(fn[8..])
  }

  function Restored(b: Byte): Byte {
    if b == RDDEM then DDEM else b
  }

  /** Bytes of the code page as text; none for a byte without a character. */
  function PageText(s: seq<Byte>, uni: Byte -> Wchar): Text {
    if s == [] then Text([])
    else
      var c := uni(Restored(s[|s| - 1]));
      match PageText(s[..|s| - 1], uni)
      case Bad => Bad
      case Text(b) => if c == 0 || IsSurrogate(c) then Bad else Text(b + Encoded(c))
  }

  predicate CodePage(uni: Byte -> Wchar) {
    forall b: Byte :: b < 0x80 ==> uni(b) == b
  }

  /** The first n bytes of a short entry as they come out. */
  function AltUpTo(fn: seq<Byte>, n: nat): (s: seq<Byte>)
    requires n <= |fn| == 11
  {
    if n == 0 then []
    else AltUpTo(fn, n - 1) + if fn[n - 1] == SP then [] else (if n == 9 then [DOT] else []) + [fn[n - 1]]
  }

  lemma {:induction false} AltIs(fn: seq<Byte>, n: nat)
    requires n <= |fn| == 11
    ensures AltUpTo(fn, n) ==
      if n <= 8 then NoSpaces(fn[..n])
      else NoSpaces(fn[..8]) + (if fn[8] == SP then [] else [DOT]) + NoSpaces(fn[8..n])
  {
    if 0 < n {
      AltIs(fn, n - 1);
      if n <= 8 {
        assert fn[..n][..n - 1] == fn[..n - 1];
      } else {
        assert fn[8..n][..n - 9] == fn[8..n - 1];
      }
    }
    if n == 9 {
      assert fn[8..8] == [] && NoSpaces([]) == [];
    }
  }

  lemma PageStep(s: seq<Byte>, b: Byte, uni: Byte -> Wchar)
    ensures PageText(s + [b], uni) ==
      match PageText(s, uni)
      case Bad => Bad
      case Text(t) =>
        var c := uni(Restored(b));
        if c == 0 || IsSurrogate(c) then Bad else Text(t + Encoded(c))
  {
    assert (s + [b])[..|s|] == s;
  }

  /** More bytes give more text. */
  lemma {:induction false} PageGrows(fn: seq<Byte>, n: nat, uni: Byte -> Wchar)
    requires n <= |fn| == 11
    ensures match PageText(AltUpTo(fn, n), uni)
      case Bad => PageText(AltUpTo(fn, 11), uni) == Bad
      case Text(t) => PageText(AltUpTo(fn, 11), uni).Text? ==> |PageText(AltUpTo(fn, 11), uni).b| >= |t|
    decreases 11 - n
  {
    if n < 11 {
      PageGrows(fn, n + 1, uni);
      var s := AltUpTo(fn, n);
      assert AltUpTo(fn, n + 1) == s + if fn[n] == SP then [] else (if n == 8 then [DOT] else []) + [fn[n]];
      if fn[n] != SP {
        var s' := if n == 8 then s + [DOT] else s;
        PageStep(s, DOT, uni);
        PageStep(s', fn[n], uni);
        assert AltUpTo(fn, n + 1) == s' + [fn[n]];
      } else {
        assert s + [] == s;
      }
    }
  }

  /** Get SFN from SFN entry: none if it has a wrong byte or does not fit. */
  method AltName(fn: seq<Byte>, uni: Byte -> Wchar) returns (alt: seq<Byte>)
    requires |fn| == 11 && CodePage(uni)
    ensures alt == Fitting(PageText(AltBytes(fn), uni), 12)
  {
    AltIs(fn, 11);
    assert fn[8..11] == fn[8..];
    alt := [];
    var si := 0;
    hide AltBytes, PageText, Encoded, Fitting, CodePage;
    Nothing(fn, uni);
    while si < 11
      invariant 0 <= si <= 11 && |alt| <= MAX_ALT && PageText(AltUpTo(fn, si), uni) == Text(alt)
    {
      var wc := fn[si];
      ghost var s := AltUpTo(fn, si);
      si := si + 1;
      if wc == SP {
        assert s + [] == s;
        continue;
      }
      ghost var text := alt;
      var b := if wc == RDDEM then DDEM else wc;
      if si == 9 && |alt| < MAX_ALT {
        alt := alt + [DOT];
      }
      var c := uni(b);
      var out := [];
      if c != 0 {
        out := PutUtf(c, MAX_ALT - |alt|, [c]);
      }
      AltStep(fn, si, text, uni);
      if out == [] {
        PageGrows(fn, si, uni);
        NotFitting(PageText(AltUpTo(fn, si), uni), PageText(AltUpTo(fn, 11), uni));
        return [];
      }
      alt := alt + out;
    }
    Fits(alt);
  }

  lemma Nothing(fn: seq<Byte>, uni: Byte -> Wchar)
    requires |fn| == 11
    ensures PageText(AltUpTo(fn, 0), uni) == Text([])
  {
  }

  /** One byte more, with the dot before the extension. */
  lemma AltStep(fn: seq<Byte>, n: nat, text: seq<Byte>, uni: Byte -> Wchar)
    requires 0 < n <= |fn| == 11 && CodePage(uni) && fn[n - 1] != SP && PageText(AltUpTo(fn, n - 1), uni) == Text(text)
    ensures var c := uni(if fn[n - 1] == RDDEM then DDEM else fn[n - 1]);
      PageText(AltUpTo(fn, n), uni) ==
        if c == 0 || IsSurrogate(c) then Bad
        else Text((if n == 9 then text + [DOT] else text) + Encoded(c))
  {
    var s := AltUpTo(fn, n - 1);
    var s' := if n == 9 then s + [DOT] else s;
    PageStep(s, DOT, uni);
    PageStep(s', fn[n - 1], uni);
    assert AltUpTo(fn, n) == s' + [fn[n - 1]];
    hide PageText;
  }

  lemma NotFitting(r: Text, all: Text)
    requires r.Bad? ==> all.Bad?
    requires r.Text? ==> |r.b| > MAX_ALT && (all.Text? ==> |all.b| >= |r.b|)
    ensures Fitting(all, MAX_ALT) == []
  {
  }

  lemma Fits(b: seq<Byte>)
    ensures |b| <= MAX_ALT ==> Fitting(Text(b), MAX_ALT) == b
  {
  }

  /** Lower-cased where the flag of the field asks for it; the extension starts at the first dot. */
  function Cased(alt: seq<Byte>, body: bool, ext: bool): (r: seq<Byte>)
    ensures |r| == |alt|
  {
    if alt == [] then []
    else if alt[0] == DOT then [DOT] + Cased(alt[1..], ext, ext)
    else [if IsUpper(alt[0]) && body then alt[0] + 0x20 else alt[0]] + Cased(alt[1..], body, ext)
  }

  lemma CasedStep(alt: seq<Byte>, k: nat, low: bool, ext: bool)
    requires k < |alt|
    ensures var low' := if alt[k] == DOT then ext else low;
      Cased(alt[k..], low, ext) ==
        [if IsUpper(alt[k]) && low' then alt[k] + 0x20 else alt[k]] + Cased(alt[k + 1..], low', ext)
  {
    assert alt[k..][1..] == alt[k + 1..];
  }

  /** The text a listing shows for an entry. */
  function Listed(long: seq<Byte>, short: seq<Byte>, body: bool, ext: bool): seq<Byte> {
    if long != [] then long else if short != [] then Cased(short, body, ext) else [0x3F]
  }

  /** get_fileinfo, the name: the long one, else the short one in its case, else a question mark. */
  method GetFileInfo(lfnbuf: seq<Wchar>, blk: nat, fn: seq<Byte>, body: bool, ext: bool, uni: Byte -> Wchar,
                     ghost name: seq<Wchar>)
    returns (fname: seq<Byte>)
    requires |fn| == 11 && CodePage(uni) && (blk != NO_LFN ==> InBuffer(lfnbuf, name))
    ensures fname == Listed(if blk != NO_LFN then Fitting(TextOf(name), MAX_TEXT) else [],
                            Fitting(PageText(AltBytes(fn), uni), MAX_ALT), body, ext)
  {
    hide TextOf, PageText, AltBytes, Fitting, CodePage;
    fname := [];
    if blk != NO_LFN {
      fname := LongText(lfnbuf, name);
    }
    var alt := AltName(fn, uni);
    if fname == [] {
      if alt == [] {
        fname := [0x3F];
      } else {
        fname := CaseOf(alt, body, ext);
      }
    }
  }

  /** Copy the short name with its case. */
  method CaseOf(alt: seq<Byte>, body: bool, ext: bool) returns (fname: seq<Byte>)
    ensures fname == Cased(alt, body, ext)
  {
    hide Cased, IsUpper;
    fname := [];
    var lcf := body;
    var si := 0;
    assert alt[0..] == alt;
    while si < |alt|
      invariant 0 <= si <= |alt| && fname + Cased(alt[si..], lcf, ext) == Cased(alt, body, ext)
    {
      var wc := alt[si];
      CasedStep(alt, si, lcf, ext);
      if wc == DOT { lcf := ext; }
      if IsUpper(wc) && lcf { wc := Lowered(wc); }
      Assoc(fname, [wc], Cased(alt[si + 1..], lcf, ext));
      fname := fname + [wc];
      si := si + 1;
    }
    NoneCased(lcf, ext);
    assert alt[|alt|..] == [];
  }

  function Lowered(c: Byte): (r: Byte)
    requires IsUpper(c)
    ensures r == c + 0x20
  {
    c + 0x20
  }

  lemma NoneCased(low: bool, ext: bool)
    ensures Cased([], low, ext) == []
  {
  }

  lemma Assoc(a: seq<Byte>, b: seq<Byte>, c: seq<Byte>)
    ensures a + (b + c) == a + b + c
  {
  }
}
