/** The two S-record readers build the same memory image. */
module SrecLoaders {
  import opened Bytes
  import opened Srec
  import Bootloader
  import Srec2Vhdl

  /** At every loaded address the bootloader's memory and the converter's table hold the same byte. An address of a
      record that runs over the top of the address space is an address modulo 2^32 for the bootloader. */
  lemma SameImage(ls: seq<string>, now: seq<Bootloader.Word>, was: seq<Bootloader.Word>,
                  code: seq<Byte>, zero: seq<Byte>, offset: nat, i: nat)
    requires forall l :: l in ls ==> WellFormed(l)
    requires Bootloader.Stored(now, was, Wrapped(FileStores(ls))) && Srec2Vhdl.Coded(code, zero, FileStores(ls), offset)
    requires i < |FileStores(ls)| && |code| <= TWO32
    requires forall k :: 0 <= k < |FileStores(ls)| ==> offset <= FileStores(ls)[k].addr < offset + |code|
    ensures var a := FileStores(ls)[i].addr; Bootloader.MemByte(now, Word32(a)) == code[a - offset]
  {
    var s := FileStores(ls);
    var a := s[i].addr;
    LastWrapped(s, offset, a, Bootloader.MemByte(was, Word32(a)), zero[a - offset]);
  }

  /** Both programs on one file. */
  method LoadBoth(ls: seq<string>, more: string, words: array<Bootloader.Word>, code: array<Byte>)
    returns (start: nat, offset: nat)
    requires words.Length == Bootloader.WORDS && code.Length == Srec2Vhdl.LEN_CODE
    requires more != [] && (more[0] == 'J' || more[0] == '#')
    requires forall l :: l in ls ==> WellFormed(l) && |l| + 2 <= Srec2Vhdl.LEN_BUFFER
    requires forall l :: l in ls ==> Srec2Vhdl.InTable(l, Srec2Vhdl.FirstAddress(ls))
    modifies words, code
    ensures forall i :: 0 <= i < |FileStores(ls)| ==>
      var a := FileStores(ls)[i].addr;
      0 <= a - Srec2Vhdl.FirstAddress(ls) < code.Length
      && Bootloader.MemByte(words[..], Word32(a)) == code[a - Srec2Vhdl.FirstAddress(ls)]
  {
    hide Bootloader.Stored, Bootloader.MemByte, Srec2Vhdl.Coded, FileStores, Wrapped, FileText;
    var uart := new Bootloader.Uart(FileText(ls) + more);
    ghost var was, zero := words[..], code[..];
    assert uart.Rest() == FileText(ls) + more;
    var run: bool;
    start, run := Bootloader.Upload(uart, words, 0, ls, more);
    ghost var now := words[..];
    offset := Srec2Vhdl.Convert(ls, code);
    forall i | 0 <= i < |FileStores(ls)|
      ensures Srec2Vhdl.FirstAddress(ls) <= FileStores(ls)[i].addr < Srec2Vhdl.FirstAddress(ls) + Srec2Vhdl.LEN_CODE
    {
      InTableStore(ls, Srec2Vhdl.FirstAddress(ls), i);
    }
    forall i | 0 <= i < |FileStores(ls)|
      ensures var a := FileStores(ls)[i].addr;
        0 <= a - Srec2Vhdl.FirstAddress(ls) < code.Length
        && Bootloader.MemByte(words[..], Word32(a)) == code[a - Srec2Vhdl.FirstAddress(ls)]
    {
      SameImage(ls, now, was, code[..], zero, Srec2Vhdl.FirstAddress(ls), i);
    }
  }

  lemma {:induction false} InTableStore(ls: seq<string>, offset: nat, i: nat)
    requires forall l :: l in ls ==> WellFormed(l) && Srec2Vhdl.InTable(l, offset)
    requires i < |FileStores(ls)|
    ensures offset <= FileStores(ls)[i].addr < offset + Srec2Vhdl.LEN_CODE
    decreases |ls|
  {
    var k := |ls| - 1;
    assert ls[k] in ls;
    if i < |FileStores(ls[..k])| {
      InTableStore(ls[..k], offset, i);
    } else {
      InLine(ls[k], DataCount(ls[k]), i - |FileStores(ls[..k])|);
    }
  }

  lemma {:induction false} InLine(l: string, n: nat, i: nat)
    requires WellFormed(l) && IsData(l) && n <= DataCount(l) && i < n
    ensures LineStores(l, n)[i].addr == Address(l) + i
    decreases n
  {
    if i < n - 1 {
      InLine(l, n - 1, i);
    }
  }
}
