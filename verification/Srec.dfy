/** S-records: the text of a record, and the byte stores it stands for. */
module Srec {
  import opened Bytes

  predicate IsHex(c: char) {
    '0' <= c <= '9' || 'a' <= c <= 'f' || 'A' <= c <= 'F'
  }

  /** The value of a hex digit; any other character adds nothing. */
  function Digit(c: char): (d: nat)
    ensures d < 16
  {
    if '0' <= c <= '9' then c as int - '0' as int
    else if 'A' <= c <= 'F' then c as int - 'A' as int + 10
    else if 'a' <= c <= 'f' then c as int - 'a' as int + 10
    else 0
  }

  predicate AllHex(s: string) {
    forall i :: 0 <= i < |s| ==> IsHex(s[i])
  }

  /** The number a string of hex digits stands for. */
  function HexVal(s: string): nat {
    if s == [] then 0 else 16 * HexVal(s[..|s| - 1]) + Digit(s[|s| - 1])
  }

  function Power16(n: nat): nat {
    if n == 0 then 1 else 16 * Power16(n - 1)
  }

  lemma {:induction false} HexBound(s: string)
    ensures HexVal(s) < Power16(|s|)
    decreases |s|
  {
    if s != [] {
      HexBound(s[..|s| - 1]);
    }
  }

  lemma HexByte(s: string)
    requires |s| == 2
    ensures HexVal(s) == 16 * Digit(s[0]) + Digit(s[1]) < 256
  {
    assert s[..1] == [s[0]];
    assert HexVal(s[..1]) == 16 * HexVal([]) + Digit(s[0]);
  }

  /** One byte stored at one address. */
  datatype Store = Store(addr: nat, value: Byte)

  predicate IsData(l: string) {
    |l| >= 2 && l[0] == 'S' && '1' <= l[1] <= '3'
  }

  predicate IsStart(l: string) {
    |l| >= 2 && l[0] == 'S' && '7' <= l[1] <= '9'
  }

  /** Bytes of the address field of an S1, S2 or S3 record. */
  function AddrBytes(l: string): (n: nat)
    requires IsData(l)
    ensures 2 <= n <= 4
  {
    l[1] as int - '0' as int + 1
  }

  /** Hex digits of the address field of an S7, S8 or S9 record: as many as in the S3, S2 or S1 records it ends. */
  function StartDigits(l: string): (n: nat)
    requires IsStart(l)
    ensures n == 4 || n == 6 || n == 8
  {
    2 * ('9' as int - l[1] as int + 2)
  }

  predicate HexFrom(l: string, lo: nat, hi: nat) {
    hi <= |l| && forall i :: lo <= i < hi ==> IsHex(l[i])
  }

  /** A line of a well-formed file: a data record with all its digits (address, data, check byte), an end record with
      its address, or any other record. Anything may follow up to the end of the line. */
  predicate WellFormed(l: string) {
    && '\n' !in l && |l| >= 2 && l[0] == 'S'
    && (IsData(l) ==>
          && HexFrom(l, 2, 4) && HexVal(l[2..4]) >= AddrBytes(l) + 1 && HexFrom(l, 4, 4 + 2 * HexVal(l[2..4])))
    && (IsStart(l) ==> HexFrom(l, 2, 4 + StartDigits(l)))
  }

  /** Number of data bytes. */
  function DataCount(l: string): nat
    requires WellFormed(l) && IsData(l)
  {
    HexVal(l[2..4]) - AddrBytes(l) - 1
  }

  /** Where the data field starts. */
  function DataAt(l: string): nat
    requires IsData(l)
  {
    4 + 2 * AddrBytes(l)
  }

  function Address(l: string): nat
    requires WellFormed(l) && IsData(l)
  {
    HexVal(l[4..DataAt(l)])
  }

  function DataByte(l: string, i: nat): (b: Byte)
    requires WellFormed(l) && IsData(l) && i < DataCount(l)
  {
    HexByte(l[DataAt(l) + 2 * i..DataAt(l) + 2 * i + 2]);
    HexVal(l[DataAt(l) + 2 * i..DataAt(l) + 2 * i + 2])
  }

  /** The first `n` stores of a line. */
  function LineStores(l: string, n: nat): (s: seq<Store>)
    requires WellFormed(l) && IsData(l) && n <= DataCount(l)
    ensures |s| == n
  {
    if n == 0 then [] else LineStores(l, n - 1) + [Store(Address(l) + n - 1, DataByte(l, n - 1))]
  }

  /** All stores of a line. */
  function Stores(l: string): seq<Store>
    requires WellFormed(l)
  {
    if IsData(l) then LineStores(l, DataCount(l)) else []
  }

  /** All stores of a file, in order. */
  function FileStores(ls: seq<string>): seq<Store>
    requires forall l :: l in ls ==> WellFormed(l)
  {
    if ls == [] then [] else FileStores(ls[..|ls| - 1]) + Stores(ls[|ls| - 1])
  }

  /** What is at address `a` after the stores, when `was` was there before: the last store wins. */
  function Last(s: seq<Store>, a: nat, was: Byte): Byte {
    if s == [] then was
    else if s[|s| - 1].addr == a then s[|s| - 1].value
    else Last(s[..|s| - 1], a, was)
  }

  lemma {:induction false} LastJoin(s: seq<Store>, t: seq<Store>, a: nat, was: Byte)
    ensures Last(s + t, a, was) == Last(t, a, Last(s, a, was))
    decreases |t|
  {
    if t == [] {
      assert s + t == s;
    } else {
      assert (s + t)[..|s + t| - 1] == s + t[..|t| - 1];
      LastJoin(s, t[..|t| - 1], a, was);
    }
  }

  lemma LastPush(s: seq<Store>, x: Store)
    ensures forall a, was :: Last(s + [x], a, was) == if x.addr == a then x.value else Last(s, a, was)
  {
    assert (s + [x])[..|s|] == s;
  }

  /** A stored address holds what was stored, whatever was there. */
  lemma {:induction false} LastLoaded(s: seq<Store>, a: nat, was: Byte, other: Byte)
    requires exists i :: 0 <= i < |s| && s[i].addr == a
    ensures Last(s, a, was) == Last(s, a, other)
    decreases |s|
  {
    var k := |s| - 1;
    if s[k].addr != a {
      var i :| 0 <= i < |s| && s[i].addr == a;
      assert s[..k][i].addr == a;
      LastLoaded(s[..k], a, was, other);
    }
  }

  function Word32(a: nat): (w: nat)
    ensures w < TWO32
  {
    a % TWO32
  }

  lemma NextWord32(a: nat)
    ensures (Word32(a) + 1) % TWO32 == Word32(a + 1)
  {
  }

  /** Addresses as 32-bit words: a record that runs over the top of the address space goes on at 0. */
  function Wrapped(s: seq<Store>): (r: seq<Store>)
    ensures |r| == |s| && forall i :: 0 <= i < |s| ==> r[i] == Store(Word32(s[i].addr), s[i].value)
  {
    seq(|s|, i requires 0 <= i < |s| => Store(Word32(s[i].addr), s[i].value))
  }

  lemma WrappedPush(s: seq<Store>, t: seq<Store>)
    ensures Wrapped(s + t) == Wrapped(s) + Wrapped(t)
  {
  }

  /** Addresses in a range of 2^32 stay different as words: a stored address holds the same either way. */
  lemma {:induction false} LastWrapped(s: seq<Store>, lo: nat, a: nat, was: Byte, other: Byte)
    requires forall i :: 0 <= i < |s| ==> lo <= s[i].addr < lo + TWO32
    requires exists i :: 0 <= i < |s| && s[i].addr == a
    ensures Last(Wrapped(s), Word32(a), was) == Last(s, a, other)
    decreases |s|
  {
    var k := |s| - 1;
    assert Wrapped(s)[..k] == Wrapped(s[..k]);
    if s[k].addr != a {
      var i :| 0 <= i < |s| && s[i].addr == a;
      assert s[..k][i].addr == a;
      WordsApart(lo, a, s[k].addr);
      LastWrapped(s[..k], lo, a, was, other);
    }
  }

  lemma WordsApart(lo: nat, a: nat, b: nat)
    requires lo <= a < lo + TWO32 && lo <= b < lo + TWO32 && a != b
    ensures Word32(a) != Word32(b)
  {
  }

  /** The text of a file. */
  function FileText(ls: seq<string>): string {
    if ls == [] then [] else ls[0] + ['\n'] + FileText(ls[1..])
  }

  /** The start address after the end records of a file, when it was `was` before. */
  function StartOf(ls: seq<string>, was: nat): nat
    requires forall l :: l in ls ==> WellFormed(l)
  {
    if ls == [] then was else LineStart(ls[|ls| - 1], StartOf(ls[..|ls| - 1], was))
  }

  function LineStart(l: string, was: nat): nat
    requires WellFormed(l)
  {
    if IsStart(l) then HexVal(l[4..4 + StartDigits(l)]) else was
  }

  lemma HexPush(s: string, t: string)
    requires |t| == |s| + 2 && t[..|s|] == s
    ensures HexVal(t) == 256 * HexVal(s) + 16 * Digit(t[|s|]) + Digit(t[|s| + 1])
  {
    assert t[..|s| + 1][..|s|] == s;
  }

  lemma StartIs(l: string, was: nat, n: nat, digits: string)
    requires WellFormed(l) && IsStart(l) && StartDigits(l) == n && l[4..4 + n] == digits
    ensures LineStart(l, was) == HexVal(digits)
  {
  }

  lemma EndOfS3(was: nat)
    ensures WellFormed("S705800000007A") && LineStart("S705800000007A", was) == 0x8000_0000
  {
    HexPush("", "80");
    HexPush("80", "8000");
    HexPush("8000", "800000");
    HexPush("800000", "80000000");
    assert "S705800000007A"[4..12] == "80000000";
    StartIs("S705800000007A", was, 8, "80000000");
    hide HexVal;
  }

  lemma EndOfS2(was: nat)
    ensures WellFormed("S80401234592") && LineStart("S80401234592", was) == 0x01_2345
  {
    HexPush("", "01");
    HexPush("01", "0123");
    HexPush("0123", "012345");
    assert "S80401234592"[4..10] == "012345";
    StartIs("S80401234592", was, 6, "012345");
    hide HexVal;
  }

  lemma EndOfS1(was: nat)
    ensures WellFormed("S9031234B6") && LineStart("S9031234B6", was) == 0x1234
  {
    HexPush("", "12");
    HexPush("12", "1234");
    assert "S9031234B6"[4..8] == "1234";
    StartIs("S9031234B6", was, 4, "1234");
    hide HexVal;
  }

  /** One end record of each type: the address is all of the record between its count and its check byte. */
  lemma EndRecords(was: nat)
    ensures WellFormed("S705800000007A") && LineStart("S705800000007A", was) == 0x8000_0000
    ensures WellFormed("S80401234592") && LineStart("S80401234592", was) == 0x01_2345
    ensures WellFormed("S9031234B6") && LineStart("S9031234B6", was) == 0x1234
  {
    hide *;
    EndOfS3(was);
    EndOfS2(was);
    EndOfS1(was);
  }

  /** One more store of a line, with its address as a word. */
  lemma NextStore(l: string, i: nat)
    requires WellFormed(l) && IsData(l) && i < DataCount(l)
    ensures Wrapped(LineStores(l, i + 1)) == Wrapped(LineStores(l, i)) + [Store(Word32(Address(l) + i), DataByte(l, i))]
  {
    WrappedPush(LineStores(l, i), [Store(Address(l) + i, DataByte(l, i))]);
  }

  /** Where the digits of a data byte are. */
  lemma ByteDigits(l: string, i: nat, tail: string)
    requires WellFormed(l) && IsData(l) && i < DataCount(l)
    ensures var at := DataAt(l) + 2 * i;
      at + 2 <= |l| && AllHex(l[at..at + 2]) && HexVal(l[at..at + 2]) == DataByte(l, i)
      && (l[at..] + tail)[..2] == l[at..at + 2] && (l[at..] + tail)[2..] == l[at + 2..] + tail
  {
  }

  /** The count and address fields of a data record, and what follows. */
  lemma DataFields(l: string, rest: string)
    requires WellFormed(l) && IsData(l)
    ensures AllHex(l[2..4]) && AllHex(l[4..DataAt(l)]) && HexVal(l[2..4]) == DataCount(l) + AddrBytes(l) + 1
    ensures (l[2..] + rest)[..2] == l[2..4] && (l[2..] + rest)[2..] == l[4..] + rest
    ensures (l[4..] + rest)[..2 * AddrBytes(l)] == l[4..DataAt(l)] &&
      (l[4..] + rest)[2 * AddrBytes(l)..] == l[DataAt(l)..] + rest
    ensures DataAt(l) + 2 * DataCount(l) <= |l|
  {
  }

  /** The fields of an end record. */
  lemma StartFields(l: string, rest: string)
    requires WellFormed(l) && IsStart(l)
    ensures AllHex(l[2..4]) && AllHex(l[4..4 + StartDigits(l)])
    ensures (l[2..] + rest)[..2] == l[2..4] && (l[2..] + rest)[2..] == l[4..] + rest
    ensures (l[4..] + rest)[..StartDigits(l)] == l[4..4 + StartDigits(l)]
    ensures (l[4..] + rest)[StartDigits(l)..] == l[4 + StartDigits(l)..] + rest
  {
  }

  lemma TailClean(l: string, k: nat)
    requires WellFormed(l) && k <= |l|
    ensures '\n' !in l[k..]
  {
  }

  lemma FilePush(ls: seq<string>, k: nat)
    requires k < |ls| && forall l :: l in ls ==> WellFormed(l)
    ensures ls[k] in ls && FileStores(ls[..k + 1]) == FileStores(ls[..k]) + Stores(ls[k])
  {
    assert ls[..k + 1][..k] == ls[..k];
  }
}
