/** The S-record converter: an independent reader that fills a table of bytes. */
module Srec2Vhdl {
  import opened Bytes
  import opened Srec

  const LEN_BUFFER: nat := 1000
  const LEN_CODE: nat := 10_000_000

  /** The characters of `buffer` from place `from` on are still those of the line. */
  ghost predicate Unread(buffer: array<char>, l: string, from: nat)
    reads buffer
  {
    |l| <= buffer.Length && forall j :: from <= j < |l| ==> buffer[j] == l[j]
  }

  function ToUpper(c: char): char {
    if 'a' <= c <= 'z' then c - 'a' + 'A' else c
  }

  /** hex2: two characters, upper-cased in place. */
  method Hex2(buffer: array<char>, k: nat, ghost l: string) returns (val: Byte)
    requires k + 2 <= |l| && AllHex(l[k..k + 2]) && Unread(buffer, l, k)
    modifies buffer
    ensures val == HexVal(l[k..k + 2]) && Unread(buffer, l, k + 2)
  {
    assert l[k..k + 2][0] == buffer[k] && l[k..k + 2][1] == buffer[k + 1];
    HexByte(l[k..k + 2]);
    buffer[k] := ToUpper(buffer[k]);
    buffer[k + 1] := ToUpper(buffer[k + 1]);
    var efkes := if buffer[k] >= 'A' then 'A' as int - 10 else '0' as int;
    var v := (buffer[k] as int - efkes) * 16;
    efkes := if buffer[k + 1] >= 'A' then 'A' as int - 10 else '0' as int;
    val := v + buffer[k + 1] as int - efkes;
  }

  /** Two digits more. */
  lemma HexJoin(s: string, t: string)
    requires AllHex(s) && AllHex(t) && |t| == 2
    ensures AllHex(s + t) && HexVal(s + t) == 256 * HexVal(s) + HexVal(t)
  {
    assert (s + t)[..|s| + 1] == s + [t[0]] && (s + [t[0]])[..|s|] == s;
    HexByte(t);
  }

  lemma JoinSlices(l: string, a: nat, b: nat, c: nat)
    requires a <= b <= c <= |l|
    ensures l[a..b] + l[b..c] == l[a..c]
  {
  }

  /** hex4, hex6, hex8: n bytes. */
  method HexN(buffer: array<char>, k: nat, n: nat, ghost l: string) returns (val: nat)
    requires 2 <= n <= 4 && k + 2 * n <= |l| && HexFrom(l, k, k + 2 * n) && Unread(buffer, l, k)
    modifies buffer
    ensures val == HexVal(l[k..k + 2 * n]) && Unread(buffer, l, k + 2 * n)
  {
    hide HexVal;
    val := Hex2(buffer, k, l);
    var i := 1;
    while i < n
      invariant 1 <= i <= n && val == HexVal(l[k..k + 2 * i]) && Unread(buffer, l, k + 2 * i)
    {
      var b := Hex2(buffer, k + 2 * i, l);
      HexJoin(l[k..k + 2 * i], l[k + 2 * i..k + 2 * i + 2]);
      JoinSlices(l, k, k + 2 * i, k + 2 * (i + 1));
      val := val * 256 + b;
      i := i + 1;
    }
  }

  /** `now` is the table after the stores into `was`, the first address at place 0. */
  ghost predicate Coded(now: seq<Byte>, was: seq<Byte>, s: seq<Store>, offset: nat) {
    |now| == |was| && forall k :: 0 <= k < |now| ==> now[k] == Last(s, offset + k, was[k])
  }

  lemma CodedNone(code: seq<Byte>, offset: nat)
    ensures Coded(code, code, [], offset)
  {
  }

  lemma CodedOne(now: seq<Byte>, was: seq<Byte>, s: seq<Store>, offset: nat, x: Store)
    requires Coded(now, was, s, offset) && offset <= x.addr < offset + |now|
    ensures Coded(now[x.addr - offset := x.value], was, s + [x], offset)
  {
    LastPush(s, x);
  }

  lemma CodedThen(c0: seq<Byte>, c1: seq<Byte>, c2: seq<Byte>, s: seq<Store>, t: seq<Store>, offset: nat)
    requires Coded(c1, c0, s, offset) && Coded(c2, c1, t, offset)
    ensures Coded(c2, c0, s + t, offset)
  {
    forall k | 0 <= k < |c2| ensures c2[k] == Last(s + t, offset + k, c0[k]) {
      LastJoin(s, t, offset + k, c0[k]);
    }
  }

  /** The record's bytes have their place in the table. */
  predicate InTable(l: string, offset: nat)
    requires WellFormed(l)
  {
    IsData(l) && DataCount(l) > 0 ==> offset <= Address(l) && Address(l) + DataCount(l) <= offset + 10_000_000
  }

  /** The data bytes of a record. */
  method DataBytes(buffer: array<char>, code: array<Byte>, address0: nat, offset: nat, val: nat, at: nat,
                   ghost l: string)
    requires WellFormed(l) && IsData(l) && InTable(l, offset) && code.Length == LEN_CODE
    requires address0 == Address(l) && val == DataCount(l) && at == DataAt(l) && Unread(buffer, l, at)
    modifies buffer, code
    ensures Coded(code[..], old(code[..]), Stores(l), offset)
  {
    var address := address0;
    var i := 0;
    CodedNone(code[..], offset);
    hide WellFormed, Coded, AllHex, HexVal, IsHex;
    while i < val
      invariant 0 <= i <= val && address == address0 + i && Unread(buffer, l, at + 2 * i)
      invariant Coded(code[..], old(code[..]), LineStores(l, i), offset)
    {
      ByteDigits(l, i, []);
      var byte := Hex2(buffer, at + 2 * i, l);
      ghost var now := code[..];
      CodedOne(now, old(code[..]), LineStores(l, i), offset, Store(address, byte));
      code[address - offset] := byte;
      assert code[..] == now[address - offset := byte];
      address, i := address + 1, i + 1;
    }
  }

  /** fgets of a line that fits the buffer, with its newline and terminator. */
  method Fgets(buffer: array<char>, l: string)
    requires buffer.Length == LEN_BUFFER && |l| + 2 <= LEN_BUFFER
    modifies buffer
    ensures Unread(buffer, l, 0)
  {
    forall j | 0 <= j < |l| { buffer[j] := l[j]; }
    buffer[|l|] := '\n';
    buffer[|l| + 1] := '\0';
  }

  /** One line of the file: `first` until a data record has set the offset. */
  method ConvertLine(buffer: array<char>, code: array<Byte>, first0: bool, offset0: nat, ghost l: string,
                     ghost base: nat)
    returns (first: bool, offset: nat)
    requires WellFormed(l) && Unread(buffer, l, 0) && code.Length == LEN_CODE
    requires IsData(l) ==> InTable(l, base) && base == if first0 then Address(l) else offset0
    modifies buffer, code
    ensures first == (first0 && !IsData(l)) && offset == if first0 && IsData(l) then Address(l) else offset0
    ensures Coded(code[..], old(code[..]), Stores(l), base)
  {
    first, offset := first0, offset0;
    if buffer[0] != 'S' { return; }
    if buffer[1] == '1' || buffer[1] == '2' || buffer[1] == '3' {
      var n := if buffer[1] == '1' then 2 else if buffer[1] == '2' then 3 else 4;
      DataFields(l, []);
      var val: nat := Hex2(buffer, 2, l);
      val := val - (n + 1);
      var address := HexN(buffer, 4, n, l);
      if first {
        offset := address;
        first := false;
      }
      DataBytes(buffer, code, address, offset, val, 4 + 2 * n, l);
    } else {
      CodedNone(code[..], base);
    }
  }

  /** The address of the first data record. */
  function FirstAddress(ls: seq<string>): nat
    requires forall l :: l in ls ==> WellFormed(l)
  {
    if ls == [] then 0 else if IsData(ls[0]) then Address(ls[0]) else FirstAddress(ls[1..])
  }

  lemma {:induction false} FirstIs(ls: seq<string>, k: nat)
    requires k < |ls| && (forall l :: l in ls ==> WellFormed(l))
    requires IsData(ls[k]) && forall i :: 0 <= i < k ==> !IsData(ls[i])
    ensures FirstAddress(ls) == Address(ls[k])
    decreases k
  {
    if k > 0 {
      FirstIs(ls[1..], k - 1);
    }
  }

  /** After k lines. */
  ghost predicate Converted(ls: seq<string>, k: nat, first: bool, offset: nat, now: seq<Byte>, was: seq<Byte>)
    requires k <= |ls| && forall l :: l in ls ==> WellFormed(l)
  {
    && (first <==> forall i :: 0 <= i < k ==> !IsData(ls[i]))
    && (!first ==> offset == FirstAddress(ls))
    && Coded(now, was, FileStores(ls[..k]), FirstAddress(ls))
  }

  lemma ConvertedNone(ls: seq<string>, offset: nat, code: seq<Byte>)
    requires forall l :: l in ls ==> WellFormed(l)
    ensures Converted(ls, 0, true, offset, code, code)
  {
    CodedNone(code, FirstAddress(ls));
    assert FileStores(ls[..0]) == [];
  }

  /** The offset a data record is stored with is the first record's address. */
  lemma OffsetNow(ls: seq<string>, k: nat, first: bool, offset: nat, now: seq<Byte>, was: seq<Byte>)
    requires k < |ls| && (forall l :: l in ls ==> WellFormed(l)) && Converted(ls, k, first, offset, now, was)
    ensures IsData(ls[k]) ==> (if first then Address(ls[k]) else offset) == FirstAddress(ls)
  {
    if first && IsData(ls[k]) { FirstIs(ls, k); }
  }

  lemma ConvertedNext(ls: seq<string>, k: nat, first: bool, offset: nat, first': bool, offset': nat,
                      now: seq<Byte>, now': seq<Byte>, was: seq<Byte>)
    requires k < |ls| && (forall l :: l in ls ==> WellFormed(l)) && WellFormed(ls[k])
    requires Converted(ls, k, first, offset, now, was)
    requires first' == (first && !IsData(ls[k])) && offset' == if first && IsData(ls[k]) then Address(ls[k]) else offset
    requires Coded(now', now, Stores(ls[k]), FirstAddress(ls))
    ensures Converted(ls, k + 1, first', offset', now', was)
  {
    OffsetNow(ls, k, first, offset, now, was);
    FilePush(ls, k);
    hide FileStores, FirstAddress;
    CodedThen(was, now, now', FileStores(ls[..k]), Stores(ls[k]), FirstAddress(ls));
    hide Coded, Stores, WellFormed, Address;
  }

  /** The whole file into the table: place k holds what storing the record bytes one by one leaves at offset + k. */
  method Convert(ls: seq<string>, code: array<Byte>) returns (offset: nat)
    requires code.Length == LEN_CODE && forall l :: l in ls ==> WellFormed(l) && |l| + 2 <= LEN_BUFFER
    requires forall l :: l in ls ==> InTable(l, FirstAddress(ls))
    modifies code
    ensures (exists k :: 0 <= k < |ls| && IsData(ls[k])) ==> offset == FirstAddress(ls)
    ensures Coded(code[..], old(code[..]), FileStores(ls), FirstAddress(ls))
  {
    var buffer := new char[LEN_BUFFER];
    var first := true;
    offset := 0;
    ghost var was := code[..];
    ConvertedNone(ls, offset, was);
    hide Coded, InTable, FileStores, Unread, FirstAddress, Stores, Converted, Address, WellFormed;
    for k := 0 to |ls|
      invariant Converted(ls, k, first, offset, code[..], was)
    {
      ghost var now, first0, offset0 := code[..], first, offset;
      OffsetNow(ls, k, first, offset, now, was);
      Fgets(buffer, ls[k]);
      first, offset := ConvertLine(buffer, code, first, offset, ls[k], FirstAddress(ls));
      ConvertedNext(ls, k, first0, offset0, first, offset, now, code[..], was);
    }
    AllConverted(ls, first, offset, code[..], was);
  }

  lemma AllConverted(ls: seq<string>, first: bool, offset: nat, now: seq<Byte>, was: seq<Byte>)
    requires (forall l :: l in ls ==> WellFormed(l)) && Converted(ls, |ls|, first, offset, now, was)
    ensures (exists k :: 0 <= k < |ls| && IsData(ls[k])) ==> offset == FirstAddress(ls)
    ensures Coded(now, was, FileStores(ls), FirstAddress(ls))
  {
    assert ls[..|ls|] == ls;
  }
}
