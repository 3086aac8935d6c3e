/** Characters of the API, UTF-8, and of long names, UTF-16. */
module Utf8 {
  import opened Bytes
  import opened LongName

  predicate IsSurrogate(c: nat) { 0xD800 <= c <= 0xDFFF }

  /** A Unicode scalar value. */
  predicate Scalar(c: nat) { c < 0x11_0000 && !IsSurrogate(c) }

  /** Its UTF-8 form: the table of section 3 of RFC 3629. */
  function Encoded(c: nat): (s: seq<Byte>)
    requires Scalar(c)
    ensures 1 <= |s| <= 4
  {
    if c < 0x80 then [c]
    else if c < 0x800 then [0xC0 + c / 64, 0x80 + c % 64]
    else if c < 0x1_0000 then [0xE0 + c / 64 / 64, 0x80 + c / 64 % 64, 0x80 + c % 64]
    else [0xF0 + c / 64 / 64 / 64, 0x80 + c / 64 / 64 % 64, 0x80 + c / 64 % 64, 0x80 + c % 64]
  }

  /** Its UTF-16 form. */
  function Units(c: nat): (u: seq<Wchar>)
    requires Scalar(c)
    ensures 1 <= |u| <= 2
  {
    if c < 0x1_0000 then [c] else [0xD800 + (c - 0x1_0000) / 0x400, 0xDC00 + (c - 0x1_0000) % 0x400]
  }

  /** One or two units in one double word, as the code hands them on. */
  function Dword(u: seq<Wchar>): nat
    requires 1 <= |u| <= 2
  {
    if |u| == 1 then u[0] else (u[0] as nat) * 0x1_0000 + u[1]
  }

  /** One or two units that make a character. */
  predicate IsChar(u: seq<Wchar>) {
    if |u| == 1 then !IsSurrogate(u[0])
    else |u| == 2 && 0xD800 <= u[0] < 0xDC00 && 0xDC00 <= u[1] < 0xE000
  }

  function ScalarOf(u: seq<Wchar>): (c: nat)
    requires IsChar(u)
    ensures Scalar(c)
  {
    if |u| == 1 then u[0] else 0x1_0000 + (u[0] as int - 0xD800) * 0x400 + (u[1] as int - 0xDC00)
  }

  /** The two forms of a character give each other. */
  lemma UnitsOfScalar(c: nat)
    requires Scalar(c)
    ensures IsChar(Units(c)) && ScalarOf(Units(c)) == c
  {
  }

  lemma ScalarOfUnits(u: seq<Wchar>)
    requires IsChar(u)
    ensures Units(ScalarOf(u)) == u
  {
  }

  // Decoding.

  /** A character and the number of bytes it takes, or a wrong sequence. */
  datatype Code = Wrong | Code(c: nat, n: nat)

  predicate Trailing(b: Byte) { 0x80 <= b < 0xC0 }

  /** The value of `nf` trailing bytes behind the bits `uc`. */
  function Tail(s: seq<Byte>, k: nat, uc: nat, nf: nat): Code
    decreases nf
  {
    if nf == 0 then Code(uc, k)
    else if k < |s| && Trailing(s[k]) then Tail(s, k + 1, uc * 64 + (s[k] - 0x80), nf - 1)
    else Wrong
  }

  /** The sequence at the start of a string, before any check of its value. */
  function Loose(s: seq<Byte>): Code
    requires s != []
  {
    if s[0] < 0x80 then Code(s[0], 1)
    else if 0xC0 <= s[0] < 0xE0 then Tail(s, 1, s[0] - 0xC0, 1)
    else if 0xE0 <= s[0] < 0xF0 then Tail(s, 1, s[0] - 0xE0, 2)
    else if 0xF0 <= s[0] < 0xF8 then Tail(s, 1, s[0] - 0xF0, 3)
    else Wrong
  }

  /** The character at the start of a string. */
  function Decode(s: seq<Byte>): (r: Code)
    requires s != []
    ensures r.Code? ==> Scalar(r.c) && 1 <= r.n <= 4 && r.n <= |s|
  {
    match Loose(s)
    case Wrong => Wrong
    case Code(c, n) =>
      TailBounds(s);
      if n > 1 && (c < 0x80 || !Scalar(c)) then Wrong else Code(c, n)
  }

  lemma TailBounds(s: seq<Byte>)
    requires s != []
    ensures Loose(s).Code? ==> 1 <= Loose(s).n <= 4 && Loose(s).n <= |s|
  {
  }

  /** tchar2uni: the units in one double word, and the place behind them. */
  method Tchar2Uni(str: seq<Byte>, p0: nat) returns (ok: bool, uc: nat, p: nat)
    requires p0 < |str| && str[|str| - 1] == 0
    ensures ok <==> Decode(str[p0..]).Code?
    ensures ok ==> uc == Dword(Units(Decode(str[p0..]).c)) && p == p0 + Decode(str[p0..]).n <= |str|
  {
    ghost var s := str[p0..];
    uc := str[p0];
    p := p0 + 1;
    if uc >= 0x80 {
      var nf;
      if 0xC0 <= uc < 0xE0 {
        uc, nf := uc - 0xC0, 1;
      } else if 0xE0 <= uc < 0xF0 {
        uc, nf := uc - 0xE0, 2;
      } else if 0xF0 <= uc < 0xF8 {
        uc, nf := uc - 0xF0, 3;
      } else {
        return false, uc, p;
      }
      while nf != 0
        invariant 0 <= nf <= 3 && p0 < p <= |str| && Tail(s, p - p0, uc, nf) == Loose(s) && str[p - 1] != 0
        decreases nf
      {
        var b := str[p];
        p := p + 1;
        if !(0x80 <= b < 0xC0) { return false, uc, p; }
        uc := uc * 64 + (b - 0x80);
        nf := nf - 1;
      }
      if uc < 0x80 || 0xD800 <= uc <= 0xDFFF || uc >= 0x11_0000 { return false, uc, p; }
      if uc >= 0x1_0000 {
        uc := (0xD800 + (uc - 0x1_0000) / 0x400) * 0x1_0000 + (0xDC00 + uc % 0x400);
      }
    }
    ok := true;
  }

  /** What is encoded is decoded. */
  lemma DecodeEncoded(c: nat, rest: seq<Byte>)
    requires Scalar(c)
    ensures Decode(Encoded(c) + rest) == Code(c, |Encoded(c)|)
  {
  }

  /** What is decoded was encoded so, exactly when it takes no more bytes than it needs. */
  lemma DecodeCanonical(s: seq<Byte>)
    requires s != [] && Decode(s).Code?
    ensures var r := Decode(s);
      |Encoded(r.c)| <= r.n && (s[..r.n] == Encoded(r.c) <==> r.n == |Encoded(r.c)|)
  {
    var r := Decode(s);
    Shape(s);
    hide Decode, Loose, Tail;
    if r.n == 2 {
      Digits(Low(s[0], 0xC0), Low(s[1], 0x80));
      assert s[..2] == [s[0], s[1]];
    } else if r.n == 3 {
      var hi := Low(s[0], 0xE0) * 64 + Low(s[1], 0x80);
      Digits(Low(s[0], 0xE0), Low(s[1], 0x80));
      Digits(hi, Low(s[2], 0x80));
      assert s[..3] == [s[0], s[1], s[2]];
    } else if r.n == 4 {
      var top := Low(s[0], 0xF0) * 64 + Low(s[1], 0x80);
      var hi := top * 64 + Low(s[2], 0x80);
      Digits(Low(s[0], 0xF0), Low(s[1], 0x80));
      Digits(top, Low(s[2], 0x80));
      Digits(hi, Low(s[3], 0x80));
      assert s[..4] == [s[0], s[1], s[2], s[3]];
    }
  }

  lemma Digits(hi: nat, lo: nat)
    requires lo < 64
    ensures (hi * 64 + lo) / 64 == hi && (hi * 64 + lo) % 64 == lo
  {
  }

  /** The bits of a byte under its mark. */
  function Low(b: Byte, mark: nat): nat {
    if mark <= b then b - mark else 0
  }

  /** The bytes of a sequence. */
  lemma Shape(s: seq<Byte>)
    requires s != [] && Decode(s).Code?
    ensures var r := Decode(s);
      && (forall i :: 1 <= i < r.n ==> Trailing(s[i]))
      && (r.n == 1 ==> s[0] == r.c < 0x80)
      && (r.n == 2 ==> 0xC0 <= s[0] < 0xE0 && r.c == Low(s[0], 0xC0) * 64 + Low(s[1], 0x80))
      && (r.n == 3 ==> 0xE0 <= s[0] < 0xF0 && r.c == (Low(s[0], 0xE0) * 64 + Low(s[1], 0x80)) * 64 + Low(s[2], 0x80))
      && (r.n == 4 ==> 0xF0 <= s[0] < 0xF8)
      && (r.n == 4 ==>
            r.c == ((Low(s[0], 0xF0) * 64 + Low(s[1], 0x80)) * 64 + Low(s[2], 0x80)) * 64 + Low(s[3], 0x80))
      && (r.n > 1 ==> r.c >= 0x80)
  {
  }

  /** A form that is too long is accepted: three bytes for a character of two. */
  lemma OverlongAccepted()
    ensures Decode([0xE0, 0x82, 0x80]) == Code(0x80, 3) && Decode(Encoded(0x80)) == Code(0x80, 2)
  {
  }

  // Encoding.

  /** put_utf, into a buffer with room for `szb` bytes: nothing for a wrong character or a lack of room. `u` are the
      units in `chr`. */
  method PutUtf(chr: nat, szb: nat, ghost u: seq<Wchar>) returns (out: seq<Byte>)
    requires 1 <= |u| <= 2 && chr == Dword(u) && (|u| == 2 ==> u[0] > 0)
    ensures out == if IsChar(u) && |Encoded(ScalarOf(u))| <= szb then Encoded(ScalarOf(u)) else []
  {
    if chr < 0x80 {
      if szb < 1 { return []; }
      return [chr];
    }
    if chr < 0x800 {
      if szb < 2 { return []; }
      return [0xC0 + chr / 64, 0x80 + chr % 64];
    }
    if chr < 0x1_0000 {
      if szb < 3 || 0xD800 <= chr <= 0xDFFF { return []; }
      return [0xE0 + chr / 64 / 64, 0x80 + chr / 64 % 64, 0x80 + chr % 64];
    }
    if szb < 4 { return []; }
    Halves(u);
    var hc := Sub32(chr - chr % 0x1_0000, 0xD800_0000) / 64;
    var lc := Sub32(chr % 0x1_0000, 0xDC00);
    if hc >= 0x10_0000 || lc >= 0x400 { return []; }
    var c := hc + lc + 0x1_0000;
    return [0xF0 + c / 64 / 64 / 64, 0x80 + c / 64 / 64 % 64, 0x80 + c / 64 % 64, 0x80 + c % 64];
  }

  /** The high and the low bits of a pair of units. */
  lemma Halves(u: seq<Wchar>)
    requires |u| == 2 && u[0] > 0
    ensures var hc, lc := Sub32(Dword(u) - Dword(u) % 0x1_0000, 0xD800_0000) / 64, Sub32(Dword(u) % 0x1_0000, 0xDC00);
      && (hc < 0x10_0000 <==> 0xD800 <= u[0] < 0xDC00) && (lc < 0x400 <==> 0xDC00 <= u[1] < 0xE000)
      && (IsChar(u) ==> hc + lc + 0x1_0000 == ScalarOf(u))
  {
    var d := Dword(u);
    assert d % 0x1_0000 == u[1] && d - d % 0x1_0000 == u[0] as nat * 0x1_0000;
    hide Dword;
    HighHalf(u[0]);
    LowHalf(u[1]);
  }

  lemma HighHalf(a: Wchar)
    ensures var hc := Sub32(a as nat * 0x1_0000, 0xD800_0000) / 64;
      && (hc < 0x10_0000 <==> 0xD800 <= a < 0xDC00)
      && (0xD800 <= a < 0xDC00 ==> hc == (a as int - 0xD800) * 0x400)
  {
  }

  lemma LowHalf(a: Wchar)
    ensures var lc := Sub32(a, 0xDC00);
      (lc < 0x400 <==> 0xDC00 <= a < 0xE000) && (0xDC00 <= a < 0xE000 ==> lc == a as int - 0xDC00)
  {
  }
}
