/** The S-record upload of the bootloader: characters from UART1, bytes patched into the words of memory. */
module Bootloader {
  import opened Bytes
  import opened Srec

  const WORDS: nat := 0x4000_0000      // words in the 32-bit address space

  type Word = w: nat | w < TWO32

  /** UART1 with the characters that are still to come. */
  class Uart {
    const input: string
    var pos: nat
    constructor (input: string)
      ensures this.input == input && pos == 0
    {
      this.input, pos := input, 0;
    }

    /** The characters still to come. */
    function Rest(): string
      reads this
      requires pos <= |input|
    {
      input[pos..]
    }

    /** uart1_getc */
    method Getc() returns (c: char)
      requires pos < |input|
      modifies this
      ensures c == old(Rest())[0] && pos == old(pos) + 1 && Rest() == old(Rest())[1..]
    {
      c := input[pos];
      pos := pos + 1;
    }

    /** gethex: the n characters as hex digits, as a 32-bit word. */
    method GetHex(n: nat) returns (v: nat)
      requires pos <= |input| && n <= |Rest()|
      modifies this
      ensures v == HexVal(old(Rest())[..n]) % TWO32
      ensures n <= 8 ==> v == HexVal(old(Rest())[..n])
      ensures pos == old(pos) + n && Rest() == old(Rest())[n..]
    {
      hide HexVal;
      v := 0;
      ghost var s := Rest()[..n];
      NoDigits(s);
      for i := 0 to n
        invariant pos == old(pos) + i <= |input|
        invariant v == HexVal(s[..i]) % TWO32
      {
        assert s[i] == input[pos];
        var c := Getc();
        NextDigit(s, i, v);
        v := v * 16 % TWO32;
        if '0' <= c <= '9' {
          v := v + (c as int - '0' as int);
        } else if IsHex(c) {
          v := v + (if 'A' <= c <= 'F' then c as int - 'A' as int else c as int - 'a' as int) + 10;
        }
      }
      assert s[..n] == s;
      if n <= 8 { SmallEnough(s); }
    }
  }

  /** The value of one character more. */
  lemma NextDigit(s: string, i: nat, v: nat)
    requires i < |s| && v == HexVal(s[..i]) % TWO32
    ensures v * 16 % TWO32 + Digit(s[i]) == HexVal(s[..i + 1]) % TWO32
  {
    assert s[..i + 1][..i] == s[..i];
    ShiftIn(HexVal(s[..i]), Digit(s[i]));
  }

  /** v <<= 4 and a digit in its place, in 32 bits. */
  lemma ShiftIn(v: nat, d: nat)
    requires d < 16
    ensures v % TWO32 * 16 % TWO32 + d == (16 * v + d) % TWO32
  {
    var q, r := v / TWO32, v % TWO32;
    var c, e := 16 * r / TWO32, 16 * r % TWO32;
    assert 16 * v + d == TWO32 * (16 * q + c) + (e + d);
    assert e % 16 == 0 && e + d < TWO32;
    Remainder(16 * v + d, 16 * q + c, e + d);
  }

  lemma Remainder(x: nat, q: nat, r: nat)
    requires x == TWO32 * q + r && r < TWO32
    ensures x % TWO32 == r
  {
  }

  lemma NoDigits(s: string)
    ensures HexVal(s[..0]) == 0
  {
  }

  lemma SmallEnough(s: string)
    requires |s| <= 8
    ensures HexVal(s) < TWO32
  {
    HexBound(s);
    Power8(|s|);
  }

  lemma Power8(n: nat)
    requires n <= 8
    ensures Power16(n) <= TWO32
  {
    assert Power16(1) == 16 && Power16(2) == 256;
    assert Power16(4) == 0x1_0000;
    assert Power16(6) == 0x100_0000;
  }

  /** Byte k of a little-endian word. */
  function ByteOf(w: Word, k: nat): Byte
    requires k < 4
  {
    match k
    case 0 => w % 256
    case 1 => w / 256 % 256
    case 2 => w / 0x1_0000 % 256
    case 3 => w / 0x100_0000
  }

  /** Byte 0 is the lowest: the bytes make up the word. */
  lemma WordOfBytes(w: Word)
    ensures w == ByteOf(w, 0) as nat + 256 * (ByteOf(w, 1) as nat) + 0x1_0000 * (ByteOf(w, 2) as nat) +
      0x100_0000 * (ByteOf(w, 3) as nat)
  {
    var a, b := w / 256, w / 0x1_0000;
    assert w == 256 * a + w % 256 && a == 256 * (a / 256) + a % 256 && b == a / 256;
    assert b == 256 * (b / 256) + b % 256 && w / 0x100_0000 == b / 256;
  }

  /** The word with one byte patched: the byte masked out, the new one shifted in. */
  function Patched(w: Word, k: nat, b: Byte): Word
    requires k < 4
  {
    match k
    case 0 => w / 256 * 256 + b
    case 1 => w / 0x1_0000 * 0x1_0000 + b * 256 + w % 256
    case 2 => w / 0x100_0000 * 0x100_0000 + b * 0x1_0000 + w % 0x1_0000
    case 3 => b * 0x100_0000 + w % 0x100_0000
  }

  /** A patch changes its own byte only. */
  lemma PatchedBytes(w: Word, k: nat, b: Byte, j: nat)
    requires k < 4 && j < 4
    ensures ByteOf(Patched(w, k, b), j) == if j == k then b else ByteOf(w, j)
  {
    Digits256(w);
    match k {
      case 0 => Compose(b, ByteOf(w, 1), ByteOf(w, 2), ByteOf(w, 3));
      case 1 => Compose(ByteOf(w, 0), b, ByteOf(w, 2), ByteOf(w, 3));
      case 2 => Compose(ByteOf(w, 0), ByteOf(w, 1), b, ByteOf(w, 3));
      case 3 => Compose(ByteOf(w, 0), ByteOf(w, 1), ByteOf(w, 2), b);
    }
  }

  lemma Low(x: nat, q: nat, r: nat)
    requires x == 256 * q + r && r < 256
    ensures x / 256 == q && x % 256 == r
  {
  }

  lemma Shift(w: nat)
    ensures w / 0x1_0000 == w / 256 / 256 && w / 0x100_0000 == w / 256 / 256 / 256
  {
    Twice(w);
    Twice(w / 256);
    assert w / 0x100_0000 == w / 0x1_0000 / 256;
  }

  lemma Twice(w: nat)
    ensures w / 0x1_0000 == w / 256 / 256
  {
  }

  /** A word in terms of its bytes. */
  lemma Digits256(w: Word)
    ensures w == ByteOf(w, 0) + 256 * ByteOf(w, 1) + 0x1_0000 * ByteOf(w, 2) + 0x100_0000 * ByteOf(w, 3)
    ensures w % 0x1_0000 == ByteOf(w, 0) + 256 * ByteOf(w, 1)
    ensures w % 0x100_0000 == ByteOf(w, 0) + 256 * ByteOf(w, 1) + 0x1_0000 * ByteOf(w, 2)
  {
    Shift(w);
    var w1 := w / 256;
    var w2 := w1 / 256;
    var b0, b1, b2, b3 := ByteOf(w, 0), ByteOf(w, 1), ByteOf(w, 2), ByteOf(w, 3);
    assert b0 == w % 256 && b1 == w1 % 256 && b2 == w2 % 256 && b3 == w2 / 256;
    hide ByteOf;
    assert w == 256 * w1 + b0 && w1 == 256 * w2 + b1 && w2 == 256 * b3 + b2;
    Rest(w, w2, 256 * b1 + b0, 0x1_0000);
    Rest(w, b3, 0x1_0000 * b2 + 256 * b1 + b0, 0x100_0000);
  }

  lemma Rest(w: nat, q: nat, r: nat, m: nat)
    requires (m == 0x1_0000 || m == 0x100_0000) && w == m * q + r && r < m
    ensures w % m == r
  {
    if m == 0x1_0000 {
      assert w == 0x1_0000 * q + r;
    } else {
      assert w == 0x100_0000 * q + r;
    }
  }

  lemma Compose(b0: Byte, b1: Byte, b2: Byte, b3: Byte)
    ensures var w := b0 + 256 * b1 + 0x1_0000 * b2 + 0x100_0000 * b3;
      w < TWO32 && ByteOf(w, 0) == b0 && ByteOf(w, 1) == b1 && ByteOf(w, 2) == b2 && ByteOf(w, 3) == b3
  {
    var w2 := b2 + 256 * b3;
    var w1 := b1 + 256 * w2;
    var w: Word := b0 + 256 * w1;
    Low(w, w1, b0);
    Low(w1, w2, b1);
    Low(w2, b3, b2);
    Shift(w);
  }

  /** The byte of memory at an address. */
  function MemByte(mem: seq<Word>, a: nat): Byte
    requires |mem| == WORDS && a < TWO32
  {
    ByteOf(mem[a / 4], a % 4)
  }

  /** Memory with the byte at one address patched. */
  function PatchedMem(mem: seq<Word>, v: nat, byte: Byte): (r: seq<Word>)
    requires |mem| == WORDS && v < TWO32
    ensures |r| == WORDS
  {
    mem[v / 4 := Patched(mem[v / 4], v % 4, byte)]
  }

  lemma PatchedMemByte(mem: seq<Word>, v: nat, byte: Byte, a: nat)
    requires |mem| == WORDS && v < TWO32 && a < TWO32
    ensures MemByte(PatchedMem(mem, v, byte), a) == if a == v then byte else MemByte(mem, a)
  {
    PatchedBytes(mem[v / 4], v % 4, byte, a % 4);
  }

  /** The address split into word and byte, the byte patched, the word written back. */
  method PatchByte(words: array<Word>, v: nat, byte: Byte)
    requires words.Length == WORDS && v < TWO32
    modifies words
    ensures words[..] == PatchedMem(old(words[..]), v, byte)
  {
    hide Patched;
    var word := words[v / 4];
    words[v / 4] := Patched(word, v % 4, byte);
  }

  /** `now` is the memory after the stores, one byte at a time, into `was`. */
  ghost predicate Stored(now: seq<Word>, was: seq<Word>, s: seq<Store>) {
    |now| == WORDS && |was| == WORDS && forall a: nat :: a < TWO32 ==> MemByte(now, a) == Last(s, a, MemByte(was, a))
  }

  lemma StoredNone(mem: seq<Word>)
    requires |mem| == WORDS
    ensures Stored(mem, mem, [])
  {
  }

  lemma StoredOne(now: seq<Word>, was: seq<Word>, s: seq<Store>, v: nat, byte: Byte)
    requires Stored(now, was, s) && v < TWO32
    ensures Stored(PatchedMem(now, v, byte), was, s + [Store(v, byte)])
  {
    LastPush(s, Store(v, byte));
    forall a: nat | a < TWO32
      ensures MemByte(PatchedMem(now, v, byte), a) == Last(s + [Store(v, byte)], a, MemByte(was, a))
    {
      PatchedMemByte(now, v, byte, a);
    }
  }

  lemma StoredThen(m0: seq<Word>, m1: seq<Word>, m2: seq<Word>, s: seq<Store>, t: seq<Store>)
    requires Stored(m1, m0, s) && Stored(m2, m1, t)
    ensures Stored(m2, m0, s + t)
  {
    forall a: nat | a < TWO32 ensures MemByte(m2, a) == Last(s + t, a, MemByte(m0, a)) {
      LastJoin(s, t, a, MemByte(m0, a));
    }
  }

  /** Read in rest of line. */
  method SkipLine(uart: Uart, ghost t: string, ghost rest: string)
    requires uart.pos <= |uart.input| && uart.Rest() == t + ['\n'] + rest && '\n' !in t
    modifies uart
    ensures uart.pos <= |uart.input| && uart.Rest() == rest
  {
    ghost var k := 0;
    ghost var all := uart.Rest();
    while true
      invariant 0 <= k <= |t| && uart.pos <= |uart.input| && uart.Rest() == all[k..]
      decreases |t| - k
    {
      var c := uart.Getc();
      if c == '\n' {
        assert c == all[k];
        assert all[k + 1..] == rest;
        return;
      }
      k := k + 1;
    }
  }

  /** In a data record, before data byte i goes to address v; memory was `was` before the record. */
  ghost predicate AtByte(uart: Uart, words: array<Word>, was: seq<Word>, l: string, tail: string, i: nat, v: nat)
    requires WellFormed(l) && IsData(l) && i <= DataCount(l)
    reads uart, words
  {
    && words.Length == WORDS && uart.pos <= |uart.input|
    && DataAt(l) + 2 * i <= |l| && uart.Rest() == l[DataAt(l) + 2 * i..] + tail
    && v == Word32(Address(l) + i)
    && Stored(words[..], was, Wrapped(LineStores(l, i)))
  }

  /** One data byte: read, patched into its word, and the address counted up. */
  method DataByteIn(uart: Uart, words: array<Word>, v0: nat, ghost was: seq<Word>, ghost l: string, ghost tail: string,
                    ghost i: nat)
    returns (v: nat)
    requires WellFormed(l) && IsData(l) && i < DataCount(l) && AtByte(uart, words, was, l, tail, i, v0)
    modifies uart, words
    ensures AtByte(uart, words, was, l, tail, i + 1, v)
  {
    ghost var at, mem := DataAt(l) + 2 * i, words[..];
    ByteDigits(l, i, tail);
    NextStore(l, i);
    NextWord32(Address(l) + i);
    StoredOne(mem, was, Wrapped(LineStores(l, i)), v0, DataByte(l, i));
    hide WellFormed, HexVal, AllHex, DataByte, PatchedMem, IsHex, Stored, LineStores, Wrapped, Word32;
    var byte := uart.GetHex(2);
    PatchByte(words, v0, byte);
    v := (v0 + 1) % TWO32;
  }

  /** The bytes of a data record, from its digits to the check byte. */
  method DataBytes(uart: Uart, words: array<Word>, v0: nat, count: nat, ghost l: string, ghost tail: string)
    requires words.Length == WORDS && WellFormed(l) && IsData(l)
    requires v0 == Address(l) < TWO32 && count == DataCount(l)
    requires uart.pos <= |uart.input| && uart.Rest() == l[DataAt(l)..] + tail
    modifies uart, words
    ensures uart.pos <= |uart.input| && uart.Rest() == l[DataAt(l) + 2 * count..] + tail
    ensures Stored(words[..], old(words[..]), Wrapped(Stores(l)))
  {
    var v := v0;
    ghost var was := words[..];
    StoredNone(was);
    assert Wrapped(LineStores(l, 0)) == [];
    assert AtByte(uart, words, was, l, tail, 0, v);
    var i := 0;
    while i < count
      invariant 0 <= i <= count && AtByte(uart, words, was, l, tail, i, v)
    {
      v := DataByteIn(uart, words, v, was, l, tail, i);
      i := i + 1;
    }
  }

  /** A data record behind its type character. */
  method DataRecord(uart: Uart, words: array<Word>, c: char, ghost l: string, ghost rest: string)
    requires words.Length == WORDS && WellFormed(l) && IsData(l) && c == l[1]
    requires uart.pos <= |uart.input| && uart.Rest() == l[2..] + (['\n'] + rest)
    modifies uart, words
    ensures uart.pos <= |uart.input| && uart.Rest() == rest
    ensures Stored(words[..], old(words[..]), Wrapped(Stores(l)))
  {
    ghost var tail := ['\n'] + rest;
    DataFields(l, tail);
    SmallEnough(l[4..DataAt(l)]);
    TailClean(l, DataAt(l) + 2 * DataCount(l));
    hide WellFormed, HexVal, AllHex, Stores, Stored, IsHex;
    var count := uart.GetHex(2);
    var v: nat;
    if c == '1' {
      count := count - 3;
      v := uart.GetHex(4);
    } else if c == '2' {
      count := count - 4;
      v := uart.GetHex(6);
    } else {
      count := count - 5;
      v := uart.GetHex(8);
    }
    DataBytes(uart, words, v, count, l, tail);
    SkipLine(uart, l[DataAt(l) + 2 * count..], rest);
  }

  /** An end record behind its type character: the start address. */
  method EndRecord(uart: Uart, c: char, ghost l: string, ghost rest: string) returns (v: nat)
    requires WellFormed(l) && IsStart(l) && c == l[1]
    requires uart.pos <= |uart.input| && uart.Rest() == l[2..] + (['\n'] + rest)
    modifies uart
    ensures uart.pos <= |uart.input| && uart.Rest() == rest
    ensures v == LineStart(l, 0)
  {
    ghost var tail := ['\n'] + rest;
    StartFields(l, tail);
    TailClean(l, 4 + StartDigits(l));
    assert LineStart(l, 0) == HexVal(l[4..4 + StartDigits(l)]);
    hide WellFormed, HexVal, AllHex, LineStart, IsHex;
    v := uart.GetHex(2);
    if c == '7' {
      v := uart.GetHex(8);
    } else if c == '8' {
      v := uart.GetHex(6);
    } else {
      v := uart.GetHex(4);
    }
    SkipLine(uart, l[4 + StartDigits(l)..], rest);
  }

  /** One line of the upload, its 'S' read already. */
  method Line(uart: Uart, words: array<Word>, start0: nat, ghost l: string, ghost rest: string) returns (start: nat)
    requires words.Length == WORDS && WellFormed(l)
    requires uart.pos <= |uart.input| && uart.Rest() == l[1..] + (['\n'] + rest)
    modifies uart, words
    ensures uart.pos <= |uart.input| && uart.Rest() == rest
    ensures Stored(words[..], old(words[..]), Wrapped(Stores(l))) && start == LineStart(l, start0)
  {
    ghost var tail := ['\n'] + rest;
    assert (l[1..] + tail)[0] == l[1] && (l[1..] + tail)[1..] == l[2..] + tail;
    start := start0;
    StoredNone(words[..]);
    TailClean(l, 2);
    var c := uart.Getc();
    if c == '1' || c == '2' || c == '3' {
      DataRecord(uart, words, c, l, rest);
    } else {
      assert Wrapped(Stores(l)) == [];
      if c == '7' || c == '8' || c == '9' {
        start := EndRecord(uart, c, l, rest);
      } else {
        SkipLine(uart, l[2..], rest);
      }
    }
  }

  /** The upload: lines until 'J' (start the application) or '#' (back to the monitor). Memory then holds what storing
      the record bytes one by one would leave, the last one at each address winning. */
  method Upload(uart: Uart, words: array<Word>, start0: nat, ghost ls: seq<string>, ghost more: string)
    returns (start: nat, run: bool)
    requires words.Length == WORDS && forall l :: l in ls ==> WellFormed(l)
    requires more != [] && (more[0] == 'J' || more[0] == '#')
    requires uart.pos <= |uart.input| && uart.Rest() == FileText(ls) + more
    modifies uart, words
    ensures Stored(words[..], old(words[..]), Wrapped(FileStores(ls)))
    ensures start == StartOf(ls, start0) && run == (more[0] == 'J')
  {
    start := start0;
    ghost var k := 0;
    assert ls[0..] == ls && FileStores(ls[..0]) == [];
    StoredNone(words[..]);
    while true
      invariant 0 <= k <= |ls| && uart.pos <= |uart.input| && uart.Rest() == FileText(ls[k..]) + more
      invariant Stored(words[..], old(words[..]), Wrapped(FileStores(ls[..k])))
      invariant start == StartOf(ls[..k], start0)
      decreases |ls| - k
    {
      NextLine(ls, k, more);
      ghost var mem := words[..];
      var c := uart.Getc();
      if c == 'S' {
        start := Line(uart, words, start, ls[k], FileText(ls[k + 1..]) + more);
        StoredThen(old(words[..]), mem, words[..], Wrapped(FileStores(ls[..k])), Wrapped(Stores(ls[k])));
        WrappedPush(FileStores(ls[..k]), Stores(ls[k]));
        k := k + 1;
      } else if c == 'J' {
        assert ls[..k] == ls;
        return start, true;
      } else if c == '#' {
        assert ls[..k] == ls;
        return start, false;
      }
    }
  }

  lemma NextLine(ls: seq<string>, k: nat, more: string)
    requires k <= |ls| && (forall l :: l in ls ==> WellFormed(l)) && more != []
    ensures k == |ls| ==> FileText(ls[k..]) + more == more
    ensures k < |ls| ==> |ls[k]| >= 2 && WellFormed(ls[k])
    ensures k < |ls| ==> FileText(ls[k..]) + more == ['S'] + (ls[k][1..] + (['\n'] + (FileText(ls[k + 1..]) + more)))
    ensures k < |ls| ==> FileStores(ls[..k + 1]) == FileStores(ls[..k]) + Stores(ls[k])
    ensures k < |ls| ==> forall was :: StartOf(ls[..k + 1], was) == LineStart(ls[k], StartOf(ls[..k], was))
  {
    if k < |ls| {
      assert ls[k..][1..] == ls[k + 1..] && ls[..k + 1][..k] == ls[..k];
      assert ls[k] in ls;
      assert ls[k] == ['S'] + ls[k][1..];
    }
  }
}
