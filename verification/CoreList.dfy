/** The linked list of CoreMark: nodes and data items rewritten in place. */
module CoreList {
  import opened SortSpec

  /** list_data: data16 as its 16-bit pattern. */
  class Info {
    var data16: nat
    var idx: int
    constructor (data16: nat, idx: int)
      ensures this.data16 == data16 && this.idx == idx
    {
      this.data16, this.idx := data16, idx;
    }
  }

  /** list_head */
  class Node {
    var next: Node?
    var info: Info
    constructor (info: Info)
      ensures this.info == info && next == null
    {
      this.info, next := info, null;
    }
  }

  /** The two comparison functions handed to the sort. */
  datatype Cmp = ByIdx | ByValue

  /** What the comparison has left behind in an item it has seen. */
  predicate Seen(c: Cmp, d: nat) {
    match c
    case ByIdx => d % 256 == d / 256 % 256
    case ByValue => d / 128 % 2 == 1
  }

  /** The key of an item once it has been seen. */
  function KeyOf(c: Cmp, d: nat, idx: int): int {
    match c
    case ByIdx => idx
    case ByValue => d % 128
  }

  /** calc_func: the 7-bit value, from the cache or computed and cached. The two benchmark kernels
      may compute any 16-bit value. */
  method CalcFunc(p: Info) returns (v: nat)
    requires p.data16 < 0x1_0000
    modifies p`data16
    ensures p.data16 < 0x1_0000 && p.data16 / 256 == old(p.data16) / 256
    ensures Seen(ByValue, p.data16) && v == p.data16 % 128
    ensures Seen(ByValue, old(p.data16)) ==> p.data16 == old(p.data16)
    ensures old(p.data16) / 128 % 2 == 0 && old(p.data16) % 8 >= 2 ==> v == old(p.data16) % 128
  {
    var data := p.data16;
    if data / 128 % 2 == 1 {
      return data % 128;
    }
    var retval: nat;
    if data % 8 < 2 {
      retval :| 0 <= retval < 0x1_0000;
    } else {
      retval := data;
    }
    v := retval % 128;
    LowByte(data / 256, 128 + v);
    p.data16 := data / 256 * 256 + 128 + v;
  }

  lemma LowByte(h: nat, b: nat)
    requires b < 256
    ensures (h * 256 + b) / 256 == h && (h * 256 + b) / 128 % 2 == b / 128 && (h * 256 + b) % 128 == b % 128
  {
    Quotient128(h * 256 + b, 2 * h + b / 128, b % 128);
  }

  lemma Quotient128(x: nat, q: nat, r: nat)
    requires x == 128 * q + r && r < 128
    ensures x / 128 == q && x % 128 == r && x / 256 == q / 2
  {
  }

  /** The low byte taken from the backup in the high byte. */
  function Restored(d: nat): (r: nat)
    requires d < 0x1_0000
    ensures Marked(ByIdx, d, r)
  {
    Halves(d / 256);
    d / 256 * 256 + d / 256
  }

  lemma Halves(h: nat)
    requires h < 256
    ensures (h * 256 + h) / 256 == h && (h * 256 + h) % 256 == h
  {
  }

  /** cmp_complex or cmp_idx (with `res == NULL`): the difference of the keys. */
  method Compare(c: Cmp, a: Info, b: Info) returns (d: int)
    requires a.data16 < 0x1_0000 && b.data16 < 0x1_0000
    modifies a`data16, b`data16
    ensures d == KeyOf(c, a.data16, a.idx) - KeyOf(c, b.data16, b.idx)
    ensures Marked(c, old(a.data16), a.data16) && Marked(c, old(b.data16), b.data16)
  {
    match c {
      case ByIdx =>
        a.data16 := Restored(a.data16);
        b.data16 := Restored(b.data16);
        d := a.idx - b.idx;
      case ByValue =>
        var v1 := CalcFunc(a);
        var v2 := CalcFunc(b);
        d := v1 as int - v2 as int;
    }
  }

  /** The value of an item does not hang on a kernel: it is cached, or the item's own seven bits. */
  predicate Determined(d: nat) {
    d / 128 % 2 == 1 || d % 8 >= 2
  }

  /** By the low byte: the cache flag on top of it, or a type that is not one of the two with a kernel. */
  lemma DeterminedIs(d: nat)
    ensures Determined(d) <==> d % 256 >= 0x80 || d % 8 !in [0, 1]
  {
    var m := d % 256;
    Quotient128(d, 2 * (d / 256) + m / 128, m % 128);
    assert m / 128 == 1 <==> m >= 0x80;
  }

  /** A data word before and after a comparison: seen, the backup byte kept, the value the item's own if it is
      determined, and not changed again. */
  predicate Marked(c: Cmp, d0: nat, d: nat) {
    && d < 0x1_0000 && Seen(c, d) && d / 256 == d0 / 256
    && (c == ByValue && Determined(d0) ==> d % 128 == d0 % 128)
    && (Seen(c, d0) ==> d == d0)
  }

  /** The nodes of `s` are linked in order; the last one may point anywhere. */
  ghost predicate Seg(s: seq<Node>)
    reads s`next
  {
    forall i :: 0 <= i < |s| - 1 ==> s[i].next == s[i + 1]
  }

  /** `p` is the head of a null-terminated list with the nodes of `s`. */
  ghost predicate List(p: Node?, s: seq<Node>)
    reads s`next
  {
    && Seg(s)
    && p == Head(s)
    && (s != [] ==> s[|s| - 1].next == null)
  }

  ghost function Head(s: seq<Node>): Node? {
    if s == [] then null else s[0]
  }

  ghost function Last(s: seq<Node>): Node? {
    if s == [] then null else s[|s| - 1]
  }

  ghost predicate Distinct(s: seq<Node>) {
    forall i, j :: 0 <= i < j < |s| ==> s[i] != s[j]
  }

  /** Each node has a data item of its own among `infos`. */
  ghost predicate Items(nodes: set<Node>, infos: set<Info>)
    reads nodes`info
  {
    && (forall n :: n in nodes ==> n.info in infos)
    && (forall a, b :: a in nodes && b in nodes && a != b ==> a.info != b.info)
  }

  /** The backup byte of every data word is the one recorded in `kept`. */
  ghost predicate Backups(infos: set<Info>, kept: map<Info, nat>)
    reads infos`data16
  {
    forall i :: i in infos ==> i.data16 < 0x1_0000 && i in kept && i.data16 / 256 == kept[i]
  }

  /** Every data word is the one recorded in `was`, or what a comparison has made of that. */
  ghost predicate Words(c: Cmp, infos: set<Info>, was: map<Info, nat>)
    reads infos`data16
  {
    forall i :: i in infos ==>
      i.data16 < 0x1_0000 && i in was && (i.data16 == was[i] || Marked(c, was[i], i.data16))
  }

  /** The keys recorded in `o` are those of the items that have been seen. */
  ghost predicate Agrees(c: Cmp, o: Order<Node>, nodes: set<Node>, infos: set<Info>)
    requires Items(nodes, infos)
    reads nodes`info, infos`data16, infos`idx
  {
    forall n :: n in o.key && n in nodes ==>
      Seen(c, n.info.data16) && o.key[n] == KeyOf(c, n.info.data16, n.info.idx)
  }

  /** A comparison in the sort; both keys are known afterwards, and no known key changes. */
  method CompareNodes(c: Cmp, a: Node, b: Node, ghost nodes: set<Node>, ghost infos: set<Info>,
                      ghost was: map<Info, nat>, ghost o: Order<Node>)
    returns (d: int, ghost o': Order<Node>)
    requires a in nodes && b in nodes && Items(nodes, infos) && Agrees(c, o, nodes, infos) && Words(c, infos, was)
    modifies infos`data16
    ensures Agrees(c, o', nodes, infos) && Extends(o, o')
    ensures a in o'.key && b in o'.key && d == o'.key[a] - o'.key[b]
    ensures Words(c, infos, was)
  {
    d := Compare(c, a.info, b.info);
    ghost var ka := KeyOf(c, a.info.data16, a.info.idx);
    ghost var kb := KeyOf(c, b.info.data16, b.info.idx);
    o' := Order(o.key[a := ka][b := kb], o.rank);
  }

  /** The nodes of a pass: already merged, left in the first run, and from the second run on. */
  ghost predicate Parts(out: seq<Node>, ps: seq<Node>, qs: seq<Node>) {
    && Distinct(out) && Distinct(ps) && Distinct(qs)
    && (forall x :: x in out ==> x !in ps && x !in qs)
    && (forall x :: x in ps ==> x !in qs)
  }

  /** Together they are the nodes of the list. */
  ghost predicate Cover(nodes: set<Node>, out: seq<Node>, ps: seq<Node>, qs: seq<Node>) {
    && (forall x :: x in nodes ==> x in out || x in ps || x in qs)
    && (forall x :: x in out ==> x in nodes)
    && (forall x :: x in ps ==> x in nodes)
    && (forall x :: x in qs ==> x in nodes)
  }

  lemma PartsFromLeft(out: seq<Node>, ps: seq<Node>, qs: seq<Node>)
    requires Parts(out, ps, qs) && ps != []
    ensures Parts(out + [ps[0]], ps[1..], qs)
  {
    assert ps[0] in ps;
    forall x | x in ps[1..] ensures x in ps && x != ps[0] {
      var j :| 0 <= j < |ps[1..]| && ps[1..][j] == x;
      assert ps[j + 1] == x;
    }
  }

  lemma PartsFromRight(out: seq<Node>, ps: seq<Node>, qs: seq<Node>)
    requires Parts(out, ps, qs) && qs != []
    ensures Parts(out + [qs[0]], ps, qs[1..]) && forall x :: x in qs[1..] ==> x in qs
  {
    assert qs[0] in qs;
    forall x | x in qs[1..] ensures x in qs && x != qs[0] {
      var j :| 0 <= j < |qs[1..]| && qs[1..][j] == x;
      assert qs[j + 1] == x;
    }
  }

  lemma CoverFromLeft(nodes: set<Node>, out: seq<Node>, ps: seq<Node>, qs: seq<Node>)
    requires Cover(nodes, out, ps, qs) && ps != []
    ensures Cover(nodes, out + [ps[0]], ps[1..], qs) && ps[0] in nodes
  {
    assert ps == [ps[0]] + ps[1..];
  }

  lemma CoverFromRight(nodes: set<Node>, out: seq<Node>, ps: seq<Node>, qs: seq<Node>)
    requires Cover(nodes, out, ps, qs) && qs != []
    ensures Cover(nodes, out + [qs[0]], ps, qs[1..]) && qs[0] in nodes
  {
    assert qs == [qs[0]] + qs[1..];
  }

  /** The shape of the list in the middle of a pass. */
  ghost predicate Shape(list: Node?, tail: Node?, p: Node?, q: Node?, out: seq<Node>, ps: seq<Node>, qs: seq<Node>)
    reads out`next, ps`next, qs`next
  {
    && Parts(out, ps, qs)
    && Seg(out) && list == Head(out) && tail == Last(out)
    && Seg(ps) && (ps != [] ==> p == ps[0])
    && List(q, qs)
  }

  lemma ListTail(p: Node, s: seq<Node>)
    requires List(p, s)
    ensures s != [] && p == s[0] && List(p.next, s[1..])
  {
    forall i | 0 <= i < |s[1..]| - 1 ensures s[1..][i].next == s[1..][i + 1] {
      assert s[i + 1].next == s[i + 2];
    }
  }

  /** Hang the head of the first run behind what is merged so far. */
  method TakeP(list0: Node?, tail: Node?, p0: Node, q: Node?, ghost out: seq<Node>, ghost ps: seq<Node>,
               ghost qs: seq<Node>)
    returns (list: Node?, p: Node?)
    requires Shape(list0, tail, p0, q, out, ps, qs) && ps != []
    modifies out`next
    ensures Shape(list, p0, p, q, out + [p0], ps[1..], qs)
  {
    PartsFromLeft(out, ps, qs);
    p := p0.next;
    list := Append(list0, tail, p0, p, q, out, ps[1..], qs);
  }

  method TakeQ(list0: Node?, tail: Node?, p: Node?, q0: Node, ghost out: seq<Node>, ghost ps: seq<Node>,
               ghost qs: seq<Node>)
    returns (list: Node?, q: Node?)
    requires Shape(list0, tail, p, q0, out, ps, qs)
    modifies out`next
    ensures qs != [] && Shape(list, q0, p, q, out + [q0], ps, qs[1..])
  {
    ListTail(q0, qs);
    PartsFromRight(out, ps, qs);
    q := q0.next;
    list := Append(list0, tail, q0, p, q, out, ps, qs[1..]);
  }

  /** tail->next = e, or list = e when there is no tail. */
  method Append(list0: Node?, tail: Node?, e: Node, ghost p: Node?, ghost q: Node?,
                ghost out: seq<Node>, ghost ps: seq<Node>, ghost qs: seq<Node>)
    returns (list: Node?)
    requires Seg(out) && list0 == Head(out) && tail == Last(out)
    requires Seg(ps) && (ps != [] ==> p == ps[0]) && List(q, qs)
    requires Parts(out + [e], ps, qs)
    modifies out`next
    ensures Shape(list, e, p, q, out + [e], ps, qs)
  {
    list := list0;
    if tail != null {
      assert tail == (out + [e])[|out| - 1];
      assert tail !in ps && tail !in qs;
      tail.next := e;
      assert forall i :: 0 <= i < |ps| ==> ps[i] != tail;
      assert forall i :: 0 <= i < |qs| ==> qs[i] != tail;
    } else {
      list := e;
    }
    assert forall i :: 0 <= i < |out| ==> (out + [e])[i] == out[i];
  }

  /** A merge under way: what was out before, what this merge has put out, what is left of the first run,
      the list from the second run on, and all the nodes this merge is about. */
  datatype Pass = Pass(out: seq<Node>, m: seq<Node>, ps: seq<Node>, qs: seq<Node>, all: seq<Node>)

  ghost predicate Within(all: seq<Node>, s: seq<Node>) {
    forall x :: x in s ==> x in all
  }

  /** What a merge keeps about the order. */
  ghost predicate Midway(a: Pass, o: Order<Node>, qsize: nat) {
    && Merging(o, a.m, a.ps, Take(a.qs, qsize))
    && Within(a.all, a.m) && Within(a.all, a.ps) && Within(a.all, Take(a.qs, qsize))
    && |a.m| + |a.ps| + |Take(a.qs, qsize)| == |a.all|
  }

  /** What a merge keeps about the links. */
  ghost predicate Linked(a: Pass, nodes: set<Node>, list: Node?, tail: Node?, p: Node?, q: Node?)
    reads nodes`next
  {
    && Cover(nodes, a.out + a.m, a.ps, a.qs)
    && Shape(list, tail, p, q, a.out + a.m, a.ps, a.qs)
  }

  function FromP(a: Pass): Pass
    requires a.ps != []
  {
    a.(m := a.m + [a.ps[0]], ps := a.ps[1..])
  }

  function FromQ(a: Pass): Pass
    requires a.qs != []
  {
    a.(m := a.m + [a.qs[0]], qs := a.qs[1..])
  }

  lemma MidwayFromP(a: Pass, o: Order<Node>, qsize: nat)
    requires Midway(a, o, qsize) && a.ps != []
    requires Take(a.qs, qsize) == []
          || (a.ps[0] in o.key && a.qs[0] in o.key && o.key[a.ps[0]] <= o.key[a.qs[0]])
    ensures Midway(FromP(a), o, qsize)
  {
    FromLeft(o, a.m, a.ps, a.qs, qsize);
  }

  lemma MidwayFromQ(a: Pass, o: Order<Node>, qsize: nat)
    requires Midway(a, o, qsize) && a.qs != [] && qsize > 0
    requires a.ps == [] || (a.ps[0] in o.key && a.qs[0] in o.key && o.key[a.ps[0]] > o.key[a.qs[0]])
    ensures Midway(FromQ(a), o, qsize - 1)
  {
    FromRight(o, a.m, a.ps, a.qs, qsize);
    TakeDrop(a.qs, qsize);
  }

  /** Decide whether the next element comes from p. */
  method Choose(c: Cmp, p: Node?, q: Node?, psize: nat, qsize: nat, ghost a: Pass,
                ghost nodes: set<Node>, ghost infos: set<Info>, ghost was: map<Info, nat>, ghost o: Order<Node>)
    returns (left: bool, ghost o': Order<Node>)
    requires psize > 0 || (qsize > 0 && q != null)
    requires psize == |a.ps| && (a.ps != [] ==> p == a.ps[0] && a.ps[0] in nodes)
    requires q == Head(a.qs) && (a.qs != [] ==> a.qs[0] in nodes)
    requires Items(nodes, infos) && Agrees(c, o, nodes, infos) && Words(c, infos, was) && Midway(a, o, qsize)
    modifies infos`data16
    ensures Agrees(c, o', nodes, infos) && Words(c, infos, was) && Extends(o, o') && Midway(a, o', qsize)
    ensures left ==> a.ps != [] && Midway(FromP(a), o', qsize)
    ensures !left ==> a.qs != [] && qsize > 0 && Midway(FromQ(a), o', qsize - 1)
  {
    o' := o;
    if psize == 0 {
      left := false;
      MidwayFromQ(a, o', qsize);
    } else if qsize == 0 || q == null {
      left := true;
      MidwayFromP(a, o', qsize);
    } else {
      var d: int;
      d, o' := CompareNodes(c, p, q, nodes, infos, was, o);
      left := d <= 0;
      MergingExtends(o, o', a.m, a.ps, Take(a.qs, qsize));
      if left {
        MidwayFromP(a, o', qsize);
      } else {
        MidwayFromQ(a, o', qsize);
      }
    }
  }

  method StepP(list0: Node?, tail: Node?, p0: Node, q: Node?, ghost a: Pass, ghost nodes: set<Node>)
    returns (list: Node?, p: Node?)
    requires Linked(a, nodes, list0, tail, p0, q) && a.ps != []
    modifies nodes`next
    ensures Linked(FromP(a), nodes, list, p0, p, q)
  {
    CoverFromLeft(nodes, a.out + a.m, a.ps, a.qs);
    assert a.out + FromP(a).m == a.out + a.m + [p0];
    list, p := TakeP(list0, tail, p0, q, a.out + a.m, a.ps, a.qs);
  }

  method StepQ(list0: Node?, tail: Node?, p: Node?, q0: Node, ghost a: Pass, ghost nodes: set<Node>)
    returns (list: Node?, q: Node?)
    requires Linked(a, nodes, list0, tail, p, q0)
    modifies nodes`next
    ensures a.qs != [] && Linked(FromQ(a), nodes, list, q0, p, q)
  {
    assert a.qs != [];
    CoverFromRight(nodes, a.out + a.m, a.ps, a.qs);
    assert a.out + FromQ(a).m == a.out + a.m + [q0];
    list, q := TakeQ(list0, tail, p, q0, a.out + a.m, a.ps, a.qs);
  }

  lemma HeadsIn(a: Pass, nodes: set<Node>, list: Node?, tail: Node?, p: Node?, q: Node?)
    requires Linked(a, nodes, list, tail, p, q)
    ensures a.ps != [] ==> p == a.ps[0] && a.ps[0] in nodes
    ensures q == Head(a.qs) && (a.qs != [] ==> a.qs[0] in nodes)
    ensures a.ps == [] ==> Linked(a, nodes, list, tail, q, q)
  {
  }

  /** Everything a merge keeps. */
  ghost predicate MergeInv(c: Cmp, nodes: set<Node>, infos: set<Info>, was: map<Info, nat>, a: Pass, o: Order<Node>,
                           list: Node?, tail: Node?, p: Node?, q: Node?, psize: nat, qsize: nat)
    reads nodes`next, nodes`info, infos`data16, infos`idx
  {
    && Linked(a, nodes, list, tail, p, q) && psize == |a.ps| && q == Head(a.qs)
    && Items(nodes, infos) && Agrees(c, o, nodes, infos) && Words(c, infos, was)
    && Midway(a, o, qsize)
  }

  /** What does not change in a merge. */
  ghost predicate SameMerge(a: Pass, o: Order<Node>, qsize: nat, a': Pass, o': Order<Node>, qsize': nat) {
    && a'.out == a.out && a'.all == a.all && Drop(a'.qs, qsize') == Drop(a.qs, qsize)
    && Extends(o, o')
  }

  lemma SameMergeTrans(a: Pass, o: Order<Node>, k: nat, a1: Pass, o1: Order<Node>, k1: nat, a2: Pass, o2: Order<Node>,
                       k2: nat)
    requires SameMerge(a, o, k, a1, o1, k1) && SameMerge(a1, o1, k1, a2, o2, k2)
    ensures SameMerge(a, o, k, a2, o2, k2)
  {
  }

  /** One element moves to the merged list. */
  method MergeStep(c: Cmp, list0: Node?, tail0: Node?, p0: Node?, q0: Node?, psize0: nat, qsize0: nat, ghost a0: Pass,
                   ghost nodes: set<Node>, ghost infos: set<Info>, ghost was: map<Info, nat>, ghost o0: Order<Node>)
    returns (list: Node?, tail: Node?, p: Node?, q: Node?, psize: nat, qsize: nat, ghost a: Pass, ghost o: Order<Node>)
    requires MergeInv(c, nodes, infos, was, a0, o0, list0, tail0, p0, q0, psize0, qsize0)
    requires psize0 > 0 || (qsize0 > 0 && q0 != null)
    modifies nodes`next, infos`data16
    ensures MergeInv(c, nodes, infos, was, a, o, list, tail, p, q, psize, qsize)
    ensures SameMerge(a0, o0, qsize0, a, o, qsize) && psize + qsize < psize0 + qsize0
  {
    hide Linked, Midway, Run, Within, Drop, Words, Agrees, Items, Extends;
    list, tail, p, q, psize, qsize, a := list0, tail0, p0, q0, psize0, qsize0, a0;
    HeadsIn(a, nodes, list, tail, p, q);
    var left: bool;
    left, o := Choose(c, p, q, psize, qsize, a, nodes, infos, was, o0);
    if left {
      var e := p;
      list, p := StepP(list, tail, p, q, a, nodes);
      tail, psize := e, psize - 1;
      a := FromP(a);
    } else {
      TakeDrop(a.qs, qsize);
      var e := q;
      list, q := StepQ(list, tail, p, q, a, nodes);
      tail, qsize := e, qsize - 1;
      a := FromQ(a);
    }
    HeadsIn(a, nodes, list, tail, p, q);
  }

  /** Merge two runs behind what is out already. */
  method Merge(c: Cmp, list0: Node?, tail0: Node?, p0: Node, q0: Node?, psize0: nat, insize: nat, ghost a0: Pass,
               ghost nodes: set<Node>, ghost infos: set<Info>, ghost was: map<Info, nat>, ghost o0: Order<Node>)
    returns (list: Node?, tail: Node?, q: Node?, ghost a: Pass, ghost o: Order<Node>)
    requires MergeInv(c, nodes, infos, was, a0, o0, list0, tail0, p0, q0, psize0, insize)
    modifies nodes`next, infos`data16
    ensures a.ps == [] && a.out == a0.out && a.all == a0.all && a.qs == Drop(a0.qs, insize)
    ensures MergeInv(c, nodes, infos, was, a, o, list, tail, q, q, 0, 0)
    ensures Run(o, a.m) && Within(a.all, a.m) && |a.m| == |a.all| && Extends(o0, o)
  {
    assert SameMerge(a0, o0, insize, a0, o0, insize);
    hide MergeInv, SameMerge;
    var psize, qsize := psize0, insize;
    var p: Node? := p0;
    list, tail, q, a, o := list0, tail0, q0, a0, o0;
    while psize > 0 || (qsize > 0 && q != null)
      invariant MergeInv(c, nodes, infos, was, a, o, list, tail, p, q, psize, qsize)
      invariant SameMerge(a0, o0, insize, a, o, qsize)
      decreases psize + qsize
    {
      ghost var a1, o1, k1 := a, o, qsize;
      list, tail, p, q, psize, qsize, a, o := MergeStep(c, list, tail, p, q, psize, qsize, a, nodes, infos, was, o);
      SameMergeTrans(a0, o0, insize, a1, o1, k1, a, o, qsize);
    }
    MergeOver(c, nodes, infos, was, a, o, list, tail, p, q, psize, qsize, a0, o0, insize);
  }

  lemma MergeOver(c: Cmp, nodes: set<Node>, infos: set<Info>, was: map<Info, nat>, a: Pass, o: Order<Node>,
                  list: Node?, tail: Node?, p: Node?, q: Node?, psize: nat, qsize: nat, a0: Pass, o0: Order<Node>,
                  k0: nat)
    requires MergeInv(c, nodes, infos, was, a, o, list, tail, p, q, psize, qsize) && SameMerge(a0, o0, k0, a, o, qsize)
    requires psize == 0 && (qsize == 0 || q == null)
    ensures a.ps == [] && a.out == a0.out && a.all == a0.all && a.qs == Drop(a0.qs, k0)
    ensures MergeInv(c, nodes, infos, was, a, o, list, tail, q, q, 0, 0)
    ensures Run(o, a.m) && Within(a.all, a.m) && |a.m| == |a.all| && Extends(o0, o)
  {
    HeadsIn(a, nodes, list, tail, p, q);
  }

  /** Step `insize` places along from p. */
  method StepAlong(p: Node, insize: nat, ghost s: seq<Node>) returns (q: Node?, psize: nat)
    requires List(p, s) && insize > 0
    ensures psize == |Take(s, insize)| && q == Head(Drop(s, insize))
  {
    q, psize := p, 0;
    var i := 0;
    while i < insize && q != null
      invariant 0 <= i <= insize && psize == i <= |s|
      invariant q == Head(s[i..])
    {
      psize, i := psize + 1, i + 1;
      q := q.next;
    }
  }

  /** Between two merges of a pass. */
  ghost predicate PassInv(c: Cmp, nodes: set<Node>, infos: set<Info>, was: map<Info, nat>, w: nat, o: Order<Node>,
                          out: seq<Node>, s: seq<Node>, list: Node?, tail: Node?, p: Node?, nmerges: nat)
    requires w > 0
    reads nodes`next, nodes`info, infos`data16, infos`idx
  {
    && Linked(Pass(out, [], [], s, []), nodes, list, tail, p, p)
    && Items(nodes, infos) && Agrees(c, o, nodes, infos) && Words(c, infos, was)
    && PassOrder(o, out, s, w)
    && (nmerges == 0 <==> out == []) && (nmerges == 1 ==> |out| <= w + w) && (nmerges >= 2 ==> |out| > w + w)
  }

  /** One merge of a pass. */
  method PassStep(c: Cmp, list0: Node?, tail0: Node?, p0: Node, insize: nat, nmerges0: nat,
                  ghost out0: seq<Node>, ghost s0: seq<Node>, ghost nodes: set<Node>, ghost infos: set<Info>,
                  ghost was: map<Info, nat>, ghost o0: Order<Node>)
    returns (list: Node?, tail: Node?, p: Node?, nmerges: nat, ghost out: seq<Node>, ghost s: seq<Node>,
      ghost o: Order<Node>)
    requires insize > 0 && PassInv(c, nodes, infos, was, insize, o0, out0, s0, list0, tail0, p0, nmerges0)
    modifies nodes`next, infos`data16
    ensures PassInv(c, nodes, infos, was, insize, o, out, s, list, tail, p, nmerges)
    ensures |s| < |s0| && o.rank == o0.rank && p == Head(s)
  {
    nmerges := nmerges0 + 1;
    var q, psize := StepAlong(p0, insize, s0);
    ghost var a0 := Pass(out0, [], Take(s0, insize), Drop(s0, insize), Take(s0, insize + insize));
    MergeStart(c, nodes, infos, was, insize, o0, out0, s0, list0, tail0, p0, nmerges0, q, psize, a0);
    ghost var a: Pass;
    list, tail, p, a, o := Merge(c, list0, tail0, p0, q, psize, insize, a0, nodes, infos, was, o0);
    out, s := a.out + a.m, a.qs;
    MergeEnd(c, nodes, infos, was, insize, o0, out0, s0, nmerges0, o, a, list, tail, p);
  }

  lemma MergeStart(c: Cmp, nodes: set<Node>, infos: set<Info>, was: map<Info, nat>, w: nat, o: Order<Node>,
                   out: seq<Node>, s: seq<Node>, list: Node?, tail: Node?, p: Node, nmerges: nat,
                   q: Node?, psize: nat, a: Pass)
    requires w > 0 && PassInv(c, nodes, infos, was, w, o, out, s, list, tail, p, nmerges)
    requires psize == |Take(s, w)| && q == Head(Drop(s, w))
    requires a == Pass(out, [], Take(s, w), Drop(s, w), Take(s, w + w))
    ensures MergeInv(c, nodes, infos, was, a, o, list, tail, p, q, psize, w)
  {
    hide *;
    PassParts(c, nodes, infos, was, w, o, out, s, list, tail, p, nmerges);
    TakeTwice(s, w);
    TakeDrop(s, w);
    ReadyToMerge(o, s, w);
    LinkedSplit(nodes, out, s, a, list, tail, p, q);
    MidwayStart(o, s, w, a);
    MergeStarts(c, nodes, infos, was, a, o, list, tail, p, q, psize, w);
  }

  lemma PassParts(c: Cmp, nodes: set<Node>, infos: set<Info>, was: map<Info, nat>, w: nat, o: Order<Node>,
                  out: seq<Node>, s: seq<Node>, list: Node?, tail: Node?, p: Node, nmerges: nat)
    requires w > 0 && PassInv(c, nodes, infos, was, w, o, out, s, list, tail, p, nmerges)
    ensures s != [] && Linked(Pass(out, [], [], s, []), nodes, list, tail, p, p) && Blocks(o, s, w)
    ensures Items(nodes, infos) && Agrees(c, o, nodes, infos) && Words(c, infos, was)
  {
    hide Items, Agrees, Words, Blocks, FullBlocks, Earlier;
  }

  lemma MidwayStart(o: Order<Node>, s: seq<Node>, w: nat, a: Pass)
    requires w > 0 && a.m == [] && a.ps == Take(s, w) && a.qs == Drop(s, w) && a.all == Take(s, w) + Take(Drop(s, w), w)
    requires Merging(o, [], Take(s, w), Take(Drop(s, w), w))
    ensures Midway(a, o, w)
  {
    hide Merging, Take, Drop;
  }

  lemma MergeStarts(c: Cmp, nodes: set<Node>, infos: set<Info>, was: map<Info, nat>, a: Pass, o: Order<Node>,
                    list: Node?, tail: Node?, p: Node?, q: Node?, psize: nat, w: nat)
    requires Linked(a, nodes, list, tail, p, q) && psize == |a.ps| && q == Head(a.qs) && Midway(a, o, w)
    requires Items(nodes, infos) && Agrees(c, o, nodes, infos) && Words(c, infos, was)
    ensures MergeInv(c, nodes, infos, was, a, o, list, tail, p, q, psize, w)
  {
    hide Linked, Head, Midway, Items, Agrees, Words;
  }

  lemma LinkedSplit(nodes: set<Node>, out: seq<Node>, s: seq<Node>, a: Pass, list: Node?, tail: Node?, p: Node,
                    q: Node?)
    requires Linked(Pass(out, [], [], s, []), nodes, list, tail, p, p) && s == a.ps + a.qs && q == Head(a.qs)
    requires a.out == out && a.m == [] && a.ps != []
    ensures Linked(a, nodes, list, tail, p, q)
  {
    assert out + [] == out;
    assert s[0] == a.ps[0];
    PartsSplit(out, s, a.ps, a.qs);
    ListSplit(p, s, a.ps, a.qs);
    CoverSplit(nodes, out, s, a.ps, a.qs);
    hide Parts, List, Seg, Cover;
  }

  lemma CoverSplit(nodes: set<Node>, out: seq<Node>, s: seq<Node>, a: seq<Node>, b: seq<Node>)
    requires Cover(nodes, out, [], s) && s == a + b
    ensures Cover(nodes, out, a, b)
  {
  }

  lemma PartsSplit(out: seq<Node>, s: seq<Node>, a: seq<Node>, b: seq<Node>)
    requires Parts(out, [], s) && s == a + b
    ensures Parts(out, a, b)
  {
    assert forall i :: 0 <= i < |a| ==> s[i] == a[i];
    assert forall i :: 0 <= i < |b| ==> s[|a| + i] == b[i];
  }

  lemma ListSplit(p: Node?, s: seq<Node>, a: seq<Node>, b: seq<Node>)
    requires List(p, s) && s == a + b
    ensures Seg(a) && List(Head(b), b)
  {
    assert forall i :: 0 <= i < |a| ==> s[i] == a[i];
    assert forall i :: 0 <= i < |b| ==> s[|a| + i] == b[i];
    forall i | 0 <= i < |b| - 1 ensures b[i].next == b[i + 1] {
      assert s[|a| + i].next == s[|a| + i + 1];
    }
  }

  lemma MergeEnd(c: Cmp, nodes: set<Node>, infos: set<Info>, was: map<Info, nat>, w: nat, o0: Order<Node>,
                 out0: seq<Node>, s0: seq<Node>, nmerges0: nat, o: Order<Node>, a: Pass,
                 list: Node?, tail: Node?, p: Node?)
    requires w > 0 && s0 != [] && PassOrder(o0, out0, s0, w) && Extends(o0, o)
    requires (nmerges0 == 0 <==> out0 == []) && (nmerges0 == 1 ==> |out0| <= w + w) &&
      (nmerges0 >= 2 ==> |out0| > w + w)
    requires MergeInv(c, nodes, infos, was, a, o, list, tail, p, p, 0, 0)
    requires a.ps == [] && a.out == out0 && a.all == Take(s0, w + w) && a.qs == Drop(Drop(s0, w), w)
    requires Run(o, a.m) && Within(a.all, a.m) && |a.m| == |a.all|
    ensures PassInv(c, nodes, infos, was, w, o, a.out + a.m, a.qs, list, tail, p, nmerges0 + 1)
    ensures |a.qs| < |s0|
  {
    TakeTwice(s0, w);
    PassOrderExtends(o0, o, out0, s0, w);
    Merged(o, out0, s0, a.m, w);
    assert a.out + a.m == a.out + a.m + [];
  }

  /** Between two passes: a list of all the nodes, in runs of `w`. */
  ghost predicate SortInv(c: Cmp, nodes: set<Node>, infos: set<Info>, was: map<Info, nat>, w: nat, o: Order<Node>,
                          s: seq<Node>, list: Node?)
    requires w > 0
    reads nodes`next, nodes`info, infos`data16, infos`idx
  {
    && Cover(nodes, [], [], s) && Distinct(s) && List(list, s)
    && Items(nodes, infos) && Agrees(c, o, nodes, infos) && Words(c, infos, was)
    && Blocks(o, s, w)
  }

  /** Merge after merge until the list is used up. */
  method Merges(c: Cmp, list0: Node, insize: nat, ghost s0: seq<Node>, ghost nodes: set<Node>, ghost infos: set<Info>,
                ghost was: map<Info, nat>, ghost o0: Order<Node>)
    returns (list: Node?, tail: Node?, nmerges: nat, ghost out: seq<Node>, ghost o: Order<Node>)
    requires insize > 0 && PassInv(c, nodes, infos, was, insize, o0, [], s0, null, null, list0, 0) && list0 == Head(s0)
    modifies nodes`next, infos`data16
    ensures PassInv(c, nodes, infos, was, insize, o, out, [], list, tail, null, nmerges) && o.rank == o0.rank
  {
    hide PassInv;
    var p: Node? := list0;
    list, tail, nmerges, out, o := null, null, 0, [], o0;
    ghost var rest := s0;
    while p != null
      invariant PassInv(c, nodes, infos, was, insize, o, out, rest, list, tail, p, nmerges)
      invariant o.rank == o0.rank && p == Head(rest)
      decreases |rest|
    {
      list, tail, p, nmerges, out, rest, o :=
        PassStep(c, list, tail, p, insize, nmerges, out, rest, nodes, infos, was, o);
    }
  }

  /** One pass: all pairs of runs merged, and the list closed. */
  method SortPass(c: Cmp, list0: Node, insize: nat, ghost s0: seq<Node>, ghost nodes: set<Node>, ghost infos: set<Info>,
                  ghost was: map<Info, nat>, ghost o0: Order<Node>)
    returns (list: Node, nmerges: nat, ghost s: seq<Node>, ghost o: Order<Node>)
    requires insize > 0 && SortInv(c, nodes, infos, was, insize, o0, s0, list0)
    modifies nodes`next, infos`data16
    ensures SortInv(c, nodes, infos, was, insize + insize, o, s, list)
    ensures o.rank == o0.rank && (nmerges <= 1 <==> |s| <= insize + insize) && |s| == |nodes|
  {
    hide *;
    PassStart(c, nodes, infos, was, insize, o0, s0, list0);
    var list1: Node?, tail: Node?;
    list1, tail, nmerges, s, o := Merges(c, list0, insize, s0, nodes, infos, was, o0);
    PassOver(c, nodes, infos, was, insize, o, s, list1, tail, nmerges);
    list := list1;
    CloseList(c, nodes, infos, was, insize + insize, o, s, list, tail);
  }

  lemma PassStart(c: Cmp, nodes: set<Node>, infos: set<Info>, was: map<Info, nat>, w: nat, o: Order<Node>,
                  s: seq<Node>, list: Node)
    requires w > 0 && SortInv(c, nodes, infos, was, w, o, s, list)
    ensures PassInv(c, nodes, infos, was, w, o, [], s, null, null, list, 0) && list == Head(s) && list in nodes
  {
    assert [] + [] == Pass([], [], [], s, []).out;
  }

  /** What is left to do at the end of a pass is to end the list at its tail. */
  lemma PassOver(c: Cmp, nodes: set<Node>, infos: set<Info>, was: map<Info, nat>, w: nat, o: Order<Node>,
                 out: seq<Node>, list: Node?, tail: Node?, nmerges: nat)
    requires w > 0 && PassInv(c, nodes, infos, was, w, o, out, [], list, tail, null, nmerges) && nodes != {}
    ensures OpenEnd(c, nodes, infos, was, w + w, o, out, list, tail) && list != null && tail != null && tail in nodes
    ensures (nmerges <= 1 <==> |out| <= w + w) && |out| == |nodes|
  {
    assert out + [] == out;
    Count(nodes, out);
  }

  /** A list that still has to be ended at its tail. */
  ghost predicate OpenEnd(c: Cmp, nodes: set<Node>, infos: set<Info>, was: map<Info, nat>, w: nat, o: Order<Node>,
                          s: seq<Node>, list: Node?, tail: Node?)
    requires w > 0
    reads nodes`next, nodes`info, infos`data16, infos`idx
  {
    && s != [] && list == s[0] && tail == s[|s| - 1]
    && Cover(nodes, [], [], s) && Distinct(s) && Seg(s)
    && Items(nodes, infos) && Agrees(c, o, nodes, infos) && Words(c, infos, was)
    && Blocks(o, s, w)
  }

  /** tail->next = NULL */
  method CloseList(c: Cmp, ghost nodes: set<Node>, ghost infos: set<Info>, ghost was: map<Info, nat>, ghost w: nat,
                   ghost o: Order<Node>, ghost s: seq<Node>, ghost list: Node, tail: Node)
    requires w > 0 && OpenEnd(c, nodes, infos, was, w, o, s, list, tail)
    modifies tail`next
    ensures SortInv(c, nodes, infos, was, w, o, s, list)
  {
    hide Blocks, Words, Agrees, Items, Cover;
    tail.next := null;
  }

  lemma {:induction false} Count(nodes: set<Node>, s: seq<Node>)
    requires Cover(nodes, [], [], s) && Distinct(s)
    ensures |s| == |nodes|
    decreases |s|
  {
    if s == [] {
      assert nodes == {};
    } else {
      var k := |s| - 1;
      forall x | x in nodes - {s[k]} ensures x in s[..k] { }
      Count(nodes - {s[k]}, s[..k]);
    }
  }

  /** The places of the nodes in a list. */
  ghost function Places(s: seq<Node>): map<Node, int>
    requires Distinct(s)
  {
    map i | 0 <= i < |s| :: s[i] := i
  }

  /** The list in place, with data items of its own and their backup bytes. */
  ghost predicate ListOf(list: Node?, s: seq<Node>, infos: set<Info>, kept: map<Info, nat>)
    reads s`next, s`info, infos`data16
  {
    List(list, s) && Distinct(s) && Items((set n | n in s), infos) && Backups(infos, kept)
  }

  /** The key an item has once seen. */
  ghost function Key(c: Cmp, n: Node): int
    reads n`info, n.info`data16, n.info`idx
  {
    KeyOf(c, n.info.data16, n.info.idx)
  }

  /** `s` is `s0` sorted by the keys, and equal keys stay in the order they had. */
  ghost predicate StablySorted(c: Cmp, s0: seq<Node>, s: seq<Node>)
    requires Distinct(s0) && multiset(s) == multiset(s0)
    reads set n | n in s, set n | n in s :: n.info
  {
    forall i, j :: 0 <= i < j < |s| ==>
      Key(c, s[i]) < Key(c, s[j]) || (Key(c, s[i]) == Key(c, s[j]) && Place(s0, s[i]) < Place(s0, s[j]))
  }

  ghost function Place(s: seq<Node>, n: Node): (i: nat)
    requires Distinct(s)
    ensures n in s ==> i < |s| && s[i] == n
  {
    if n in s then (var i :| 0 <= i < |s| && s[i] == n; i) else 0
  }

  lemma {:induction false} OnceEach(s: seq<Node>, n: Node)
    requires Distinct(s)
    ensures multiset(s)[n] == if n in s then 1 else 0
    decreases |s|
  {
    if s != [] {
      var k := |s| - 1;
      OnceEach(s[..k], n);
      assert s == s[..k] + [s[k]];
    }
  }

  lemma SameNodes(nodes: set<Node>, a: seq<Node>, b: seq<Node>)
    requires Distinct(a) && Distinct(b) && Cover(nodes, [], [], a) && Cover(nodes, [], [], b)
    ensures multiset(a) == multiset(b)
  {
    forall n | n in a || n in b ensures multiset(a)[n] == multiset(b)[n] {
      OnceEach(a, n);
      OnceEach(b, n);
    }
  }

  lemma SortStart(c: Cmp, nodes: set<Node>, infos: set<Info>, kept: map<Info, nat>, was: map<Info, nat>, s: seq<Node>,
                  list: Node)
    requires ListOf(list, s, infos, kept) && nodes == (set n | n in s) && was == map i | i in infos :: i.data16
    ensures Sorting(c, nodes, infos, was, 1, Order(map[], Places(s)), s, s, list)
  {
    Singles(Order(map[], Places(s)), s);
  }

  /** When one run is left the list is sorted. */
  lemma SortOver(c: Cmp, nodes: set<Node>, infos: set<Info>, kept: map<Info, nat>, was: map<Info, nat>, w: nat,
                 o: Order<Node>, s0: seq<Node>, s: seq<Node>, list: Node)
    requires w > 0 && Sorting(c, nodes, infos, was, w, o, s0, s, list) && |s| <= w
    requires forall i :: i in infos ==> i in was && i in kept && was[i] / 256 == kept[i]
    ensures ListOf(list, s, infos, kept) && multiset(s) == multiset(s0)
    ensures |s| >= 2 ==> AllMarked(c, s0, was) && StablySorted(c, s0, s)
  {
    SameNodes(nodes, s0, s);
    OneBlock(o, s, w);
    assert nodes == set n | n in s;
    assert Backups(infos, kept);
    if |s| >= 2 {
      AllSeen(c, nodes, infos, o, s);
      SeenMarked(c, nodes, infos, was, s0);
      SortedByKey(c, nodes, infos, o, s0, s);
    }
  }

  lemma AllSeen(c: Cmp, nodes: set<Node>, infos: set<Info>, o: Order<Node>, s: seq<Node>)
    requires Items(nodes, infos) && Agrees(c, o, nodes, infos) && Known(o, s) && forall n :: n in s ==> n in nodes
    ensures forall n :: n in s ==> Seen(c, n.info.data16) && o.key[n] == Key(c, n)
  {
  }

  /** The comparison has been at every item. */
  ghost predicate AllMarked(c: Cmp, s: seq<Node>, was: map<Info, nat>)
    reads s`info, (set n | n in s :: n.info)`data16
  {
    forall n :: n in s ==> n.info in was && Marked(c, was[n.info], n.info.data16)
  }

  lemma SeenMarked(c: Cmp, nodes: set<Node>, infos: set<Info>, was: map<Info, nat>, s: seq<Node>)
    requires Items(nodes, infos) && Words(c, infos, was)
    requires forall n :: n in s ==> n in nodes && Seen(c, n.info.data16)
    ensures AllMarked(c, s, was)
  {
  }

  lemma SortedByKey(c: Cmp, nodes: set<Node>, infos: set<Info>, o: Order<Node>, s0: seq<Node>, s: seq<Node>)
    requires Distinct(s0) && multiset(s) == multiset(s0) && o.rank == Places(s0) && Sorted(o, s)
    requires Items(nodes, infos) && Agrees(c, o, nodes, infos) && Known(o, s) && forall n :: n in s ==> n in nodes
    ensures StablySorted(c, s0, s)
  {
    AllSeen(c, nodes, infos, o, s);
    forall i, j | 0 <= i < j < |s|
      ensures Key(c, s[i]) < Key(c, s[j]) || (Key(c, s[i]) == Key(c, s[j]) && Place(s0, s[i]) < Place(s0, s[j]))
    {
      assert s[i] in multiset(s) && s[j] in multiset(s);
      assert Less(o, s[i], s[j]);
      assert Places(s0)[s[i]] == Place(s0, s[i]) && Places(s0)[s[j]] == Place(s0, s[j]);
    }
  }

  /** The list on its way from `s0` to sorted. */
  ghost predicate Sorting(c: Cmp, nodes: set<Node>, infos: set<Info>, was: map<Info, nat>, w: nat, o: Order<Node>,
                          s0: seq<Node>, s: seq<Node>, list: Node)
    requires w > 0
    reads nodes`next, nodes`info, infos`data16, infos`idx
  {
    && SortInv(c, nodes, infos, was, w, o, s, list)
    && OldOrder(nodes, s0, o.rank)
  }

  ghost predicate OldOrder(nodes: set<Node>, s0: seq<Node>, rank: map<Node, int>) {
    Distinct(s0) && Cover(nodes, [], [], s0) && rank == Places(s0)
  }

  /** core_list_mergesort on a list with a first node: the nodes in place, in stable order, and (two nodes or more)
      every item marked by the comparison, so that a determined value is the item's own. */
  method Sort(c: Cmp, list0: Node, ghost s0: seq<Node>, ghost infos: set<Info>, ghost kept: map<Info, nat>)
    returns (list: Node, ghost s: seq<Node>)
    requires ListOf(list0, s0, infos, kept)
    modifies (set n | n in s0)`next, infos`data16
    ensures ListOf(list, s, infos, kept) && multiset(s) == multiset(s0)
    ensures |s| >= 2 ==> StablySorted(c, s0, s)
    ensures |s| >= 2 ==> forall n :: n in s0 ==> Marked(c, old(n.info.data16), n.info.data16)
  {
    ghost var nodes := set n | n in s0;
    ghost var was := map i | i in infos :: i.data16;
    SortStart(c, nodes, infos, kept, was, s0, list0);
    assert forall n :: n in s0 ==> n.info in was && was[n.info] == old(n.info.data16);
    assert forall i :: i in infos ==> i in was && i in kept && was[i] / 256 == kept[i];
    ghost var o: Order<Node>;
    var insize: nat;
    list, insize, s, o := Passes(c, list0, s0, nodes, infos, was, Order(map[], Places(s0)));
    SortOver(c, nodes, infos, kept, was, insize, o, s0, s, list);
  }

  /** Passes with run lengths 1, 2, 4, ... until one merge does it all. */
  method Passes(c: Cmp, list0: Node, ghost s0: seq<Node>, ghost nodes: set<Node>, ghost infos: set<Info>,
                ghost was: map<Info, nat>, ghost o0: Order<Node>)
    returns (list: Node, width: nat, ghost s: seq<Node>, ghost o: Order<Node>)
    requires Sorting(c, nodes, infos, was, 1, o0, s0, s0, list0)
    modifies nodes`next, infos`data16
    ensures width > 0 && Sorting(c, nodes, infos, was, width, o, s0, s, list) && |s| <= width
  {
    o := o0;
    list, s := list0, s0;
    hide SortInv, OldOrder;
    var insize := 1;
    while true
      invariant insize > 0 && SortInv(c, nodes, infos, was, insize, o, s, list)
      invariant o.rank == o0.rank && OldOrder(nodes, s0, o0.rank)
      decreases |nodes| - insize
    {
      var nmerges: nat;
      list, nmerges, s, o := SortPass(c, list, insize, s, nodes, infos, was, o);
      insize := insize * 2;
      if nmerges <= 1 {
        return list, insize, s, o;
      }
    }
  }
}
