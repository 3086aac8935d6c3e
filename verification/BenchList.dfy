/** The list benchmark of CoreMark: searches, splices, sorts and a removal that leave no trace. */
module BenchList {
  import opened SortSpec
  import opened CoreList

  function Reversed<T>(s: seq<T>): (r: seq<T>)
    ensures |r| == |s|
  {
    if s == [] then [] else Reversed(s[1..]) + [s[0]]
  }

  lemma {:induction false} ReversedSame<T>(s: seq<T>)
    ensures multiset(Reversed(s)) == multiset(s)
  {
    if s != [] {
      ReversedSame(s[1..]);
      assert s == [s[0]] + s[1..];
    }
  }

  lemma {:induction false} ReversedTail<T>(s: seq<T>, k: nat)
    requires k < |s|
    ensures Reversed(s[..k + 1]) == [s[k]] + Reversed(s[..k])
    decreases k
  {
    if k > 0 {
      ReversedTail(s[1..], k - 1);
      assert s[..k + 1][1..] == s[1..][..k] && s[..k][1..] == s[1..][..k - 1];
    }
  }

  lemma ReversedMember<T>(s: seq<T>, x: T)
    ensures x in Reversed(s) <==> x in s
  {
    ReversedSame(s);
    assert x in s <==> x in multiset(s);
    assert x in Reversed(s) <==> x in multiset(Reversed(s));
  }

  /** One link turned round: `p` goes from the front of `rest` to the front of `done`. */
  method TurnLink(p: Node, next: Node?, ghost rest: seq<Node>, ghost done: seq<Node>) returns (tmp: Node?)
    requires List(p, [p] + rest) && List(next, done) && p !in rest && p !in done
    modifies p`next
    ensures List(tmp, rest) && List(p, [p] + done)
  {
    ListTail(p, [p] + rest);
    assert ([p] + rest)[1..] == rest;
    tmp := p.next;
    p.next := next;
    assert forall i :: 0 <= i < |rest| ==> rest[i] != p;
    assert forall i :: 0 <= i < |done| ==> done[i] != p;
  }

  lemma TurnReady(s: seq<Node>, k: nat, p: Node)
    requires Distinct(s) && k <= |s| && List(p, s[k..])
    ensures k < |s| && p == s[k] && s[k..] == [p] + s[k + 1..] && Reversed(s[..k + 1]) == [p] + Reversed(s[..k])
    ensures p !in s[k + 1..] && p !in Reversed(s[..k])
  {
    ReversedTail(s, k);
    ReversedMember(s[..k], p);
  }

  /** core_list_reverse: the nodes in reverse order, re-linked in place. */
  method Reverse(list0: Node?, ghost s: seq<Node>) returns (list: Node?)
    requires List(list0, s) && Distinct(s)
    modifies (set n | n in s)`next
    ensures List(list, Reversed(s))
  {
    var p, next: Node? := list0, null;
    ghost var k := 0;
    assert s[0..] == s && Reversed(s[..0]) == [];
    hide Reversed, Distinct;
    while p != null
      invariant 0 <= k <= |s| && List(p, s[k..]) && List(next, Reversed(s[..k]))
      decreases |s| - k
    {
      TurnReady(s, k, p);
      var tmp := TurnLink(p, next, s[k + 1..], Reversed(s[..k]));
      next, p := p, tmp;
      k := k + 1;
    }
    assert s[..k] == s;
    return next;
  }

  /** What core_list_find looks for: the idx, or the low data byte when that is negative. */
  ghost predicate Matches(n: Node, idx: int, data16: int)
    reads n`info, n.info`idx, n.info`data16
  {
    if idx >= 0 then n.info.idx == idx else n.info.data16 % 256 == data16
  }

  /** core_list_find: the first node that matches, or null. */
  method Find(list: Node?, idx: int, data16: int, ghost s: seq<Node>) returns (p: Node?, ghost k: nat)
    requires List(list, s)
    ensures k <= |s| && (forall i :: 0 <= i < k ==> !Matches(s[i], idx, data16))
    ensures if k < |s| then p == s[k] && Matches(s[k], idx, data16) else p == null
    ensures p == null <==> forall n :: n in s ==> !Matches(n, idx, data16)
    ensures p != null ==> p in s && Matches(p, idx, data16)
  {
    p, k := list, 0;
    if idx >= 0 {
      while p != null && p.info.idx != idx
        invariant 0 <= k <= |s| && p == Head(s[k..])
        invariant forall i :: 0 <= i < k ==> !Matches(s[i], idx, data16)
        decreases |s| - k
      {
        p, k := p.next, k + 1;
      }
    } else {
      while p != null && p.info.data16 % 256 != data16
        invariant 0 <= k <= |s| && p == Head(s[k..])
        invariant forall i :: 0 <= i < k ==> !Matches(s[i], idx, data16)
        decreases |s| - k
      {
        p, k := p.next, k + 1;
      }
    }
    NoneMatches(s, k, idx, data16);
  }

  lemma NoneMatches(s: seq<Node>, k: nat, idx: int, data16: int)
    requires k <= |s| && (forall i :: 0 <= i < k ==> !Matches(s[i], idx, data16)) &&
      (k < |s| ==> Matches(s[k], idx, data16))
    ensures k == |s| <==> forall n :: n in s ==> !Matches(n, idx, data16)
  {
    if k < |s| { assert s[k] in s; }
  }

  /** The node behind place k moved behind the head. */
  function Moved<T>(s: seq<T>, k: nat): (r: seq<T>)
    requires k + 1 < |s|
    ensures |r| == |s|
  {
    [s[0], s[k + 1]] + s[1..k + 1] + s[k + 2..]
  }

  lemma MovedSame<T>(s: seq<T>, k: nat)
    requires k + 1 < |s|
    ensures multiset(Moved(s, k)) == multiset(s)
  {
    assert s == [s[0]] + s[1..k + 1] + [s[k + 1]] + s[k + 2..];
  }

  /** Cache the next item at the head of the list. */
  method MoveToHead(list: Node, found: Node, ghost s: seq<Node>, ghost k: nat)
    requires List(list, s) && Distinct(s) && k < |s| && found == s[k]
    modifies (set n | n in s)`next
    ensures List(list, if k + 1 < |s| then Moved(s, k) else s)
  {
    if found.next != null {
      var finder := found.next;
      assert finder == s[k + 1];
      found.next := finder.next;
      finder.next := list.next;
      list.next := finder;
      MovedList(list, s, k);
    }
  }

  lemma MovedList(list: Node, s: seq<Node>, k: nat)
    requires k + 1 < |s| && list == s[0] && Distinct(s)
    requires s[0].next == s[k + 1]
    requires s[k + 1].next == (if k == 0 then Head(s[2..]) else s[1])
    requires k > 0 ==> s[k].next == Head(s[k + 2..])
    requires forall i :: 0 < i < k ==> s[i].next == s[i + 1]
    requires forall i :: k + 2 <= i < |s| ==> s[i].next == Head(s[i + 1..])
    ensures List(list, Moved(s, k))
  {
    var m := Moved(s, k);
    forall i | 0 <= i < |m| - 1 ensures m[i].next == m[i + 1] {
      if i >= k + 2 { assert m[i] == s[i]; } else if 2 <= i { assert m[i] == s[i - 1]; }
    }
  }

  /** Links, data pointers, data words and idx of the nodes at some moment. */
  datatype Past = Past(nexts: map<Node, Node?>, infos: map<Node, Info>, words: map<Node, nat>, idx: map<Node, int>)

  /** Idx and data words are as recorded. */
  ghost predicate Data(s: seq<Node>, past: Past)
    reads s`info, (set n | n in s :: n.info)`idx, (set n | n in s :: n.info)`data16
  {
    forall n :: n in s ==>
      n in past.idx && past.idx[n] == n.info.idx && n in past.words && past.words[n] == n.info.data16
  }

  /** The place of the first node that matches, by the record. */
  ghost function FirstIn(s: seq<Node>, idx: int, data16: int, past: Past): (k: nat)
    ensures k <= |s|
  {
    if s == [] || MatchesIn(s[0], idx, data16, past) then 0 else 1 + FirstIn(s[1..], idx, data16, past)
  }

  ghost predicate MatchesIn(n: Node, idx: int, data16: int, past: Past) {
    if idx >= 0 then n in past.idx && past.idx[n] == idx else n in past.words && past.words[n] % 256 == data16
  }

  lemma {:induction false} FirstIs(s: seq<Node>, k: nat, idx: int, data16: int, past: Past)
    requires Data(s, past) && k <= |s| && (forall i :: 0 <= i < k ==> !Matches(s[i], idx, data16))
    requires k < |s| ==> Matches(s[k], idx, data16)
    ensures k == FirstIn(s, idx, data16, past)
  {
    if k > 0 {
      assert s[0] in s && !Matches(s[0], idx, data16);
      FirstIs(s[1..], k - 1, idx, data16, past);
    } else if s != [] {
      assert s[0] in s;
    }
  }

  /** What one find makes of the order of the nodes: turned over, and the node behind the found one moved up. */
  ghost function Turned(s: seq<Node>, idx: int, data16: int, past: Past): seq<Node> {
    var r, k := Reversed(s), FirstIn(s, idx, data16, past);
    if 0 < k < |s| then Moved(r, |s| - 1 - k) else r
  }

  /** One find: the list is reversed, and what stands behind a found node moves to the head. */
  method FindAndTurn(list0: Node, idx: int, data16: int, ghost s0: seq<Node>, ghost past: Past)
    returns (list: Node, ghost s: seq<Node>)
    requires List(list0, s0) && Distinct(s0) && |s0| >= 2 && Data(s0, past)
    modifies (set n | n in s0)`next
    ensures List(list, s) && Distinct(s) && multiset(s) == multiset(s0) && s == Turned(s0, idx, data16, past)
    ensures old(forall n :: n in s0 ==> !Matches(n, idx, data16)) ==> s == Reversed(s0)
  {
    hide *;
    var thisFind;
    ghost var k0;
    thisFind, k0 := Find(list0, idx, data16, s0);
    FirstIs(s0, k0, idx, data16, past);
    TurnedIs(s0, idx, data16, past);
    var reversed := Reverse(list0, s0);
    s := Reversed(s0);
    ReversedNodes(s0);
    Front(reversed, s);
    list := reversed;
    if thisFind != null {
      ghost var k := |s0| - 1 - k0;
      ReversedPlace(s0, k0);
      MoveToHead(list, thisFind, s, k);
      if k + 1 < |s| {
        MovedNodes(s, k);
        s := Moved(s, k);
      }
    }
  }

  lemma Front(list: Node?, s: seq<Node>)
    requires List(list, s) && s != []
    ensures list == s[0]
  {
  }

  lemma TurnedIs(s: seq<Node>, idx: int, data16: int, past: Past)
    ensures var k := FirstIn(s, idx, data16, past);
      Turned(s, idx, data16, past) == if 0 < k < |s| then Moved(Reversed(s), |s| - 1 - k) else Reversed(s)
  {
    hide FirstIn, Moved, Reversed;
  }

  lemma ReversedNodes(s: seq<Node>)
    requires Distinct(s)
    ensures Distinct(Reversed(s)) && multiset(Reversed(s)) == multiset(s)
    ensures forall n :: n in Reversed(s) ==> n in s
  {
    ReversedSame(s);
    SameDistinct(s, Reversed(s));
    SameLength(s, Reversed(s));
  }

  lemma MovedNodes(s: seq<Node>, k: nat)
    requires Distinct(s) && k + 1 < |s|
    ensures Distinct(Moved(s, k)) && multiset(Moved(s, k)) == multiset(s)
  {
    MovedSame(s, k);
    SameDistinct(s, Moved(s, k));
  }

  lemma {:induction false} ReversedPlace<T>(s: seq<T>, i: nat)
    requires i < |s|
    ensures Reversed(s)[|s| - 1 - i] == s[i]
  {
    if i > 0 {
      ReversedPlace(s[1..], i - 1);
    }
  }

  lemma SameDistinct(a: seq<Node>, b: seq<Node>)
    requires Distinct(a) && multiset(a) == multiset(b)
    ensures Distinct(b)
  {
    forall i, j | 0 <= i < j < |b| ensures b[i] != b[j] {
      OnceEach(a, b[i]);
      if b[i] == b[j] { TwiceIn(b, i, j); }
    }
  }

  lemma TwiceIn(b: seq<Node>, i: nat, j: nat)
    requires i < j < |b| && b[i] == b[j]
    ensures multiset(b)[b[i]] >= 2
  {
    assert b == b[..i] + [b[i]] + b[i + 1..j] + [b[j]] + b[j + 1..];
  }

  /** The idx search number `i` looks for: one more each time, in 16 bits; a negative one, which stands for a search by
      value, stays. */
  function SearchIdx(finderIdx: int, i: nat): int {
    if finderIdx < 0 then finderIdx
    else if finderIdx <= 0x7FFF < finderIdx + i then -0x8000
    else finderIdx + i
  }

  /** It is counted up in 16 bits, with their wrap-around, until it is negative. */
  lemma SearchNext(finderIdx: int, i: nat)
    requires -0x8000 <= finderIdx < 0x8000
    ensures SearchIdx(finderIdx, 0) == finderIdx && -0x8000 <= SearchIdx(finderIdx, i) < 0x8000
    ensures SearchIdx(finderIdx, i + 1) == var x := SearchIdx(finderIdx, i);
      if x < 0 then x else (x + 1 + 0x8000) % 0x1_0000 - 0x8000
  {
  }

  /** The first find of a run finds nothing. */
  ghost predicate Missed(s: seq<Node>, idx: int)
    reads s`info, (set n | n in s :: n.info)`idx, (set n | n in s :: n.info)`data16
  {
    forall n :: n in s ==> !Matches(n, idx, 0)
  }

  /** What the finds from number `i` on make of the order. */
  ghost function Found(s: seq<Node>, finderIdx: int, i: nat, findNum: int, past: Past): seq<Node>
    decreases findNum - i
  {
    if i >= findNum then s
    else Found(Turned(s, SearchIdx(finderIdx, i), i % 256, past), finderIdx, i + 1, findNum, past)
  }

  /** All the finds; `data16` is what the search key holds before the first. */
  method Finds(list0: Node, finderIdx: int, findNum: int, key: int, ghost s0: seq<Node>, ghost past: Past)
    returns (list: Node, idx: int, data16: int, ghost s: seq<Node>)
    requires List(list0, s0) && Distinct(s0) && |s0| >= 2 && Data(s0, past)
    modifies (set n | n in s0)`next
    ensures List(list, s) && Distinct(s) && multiset(s) == multiset(s0)
    ensures s == Found(s0, finderIdx, 0, findNum, past)
    ensures findNum <= 0 ==> s == s0
    ensures findNum == 1 && old(Missed(s0, finderIdx)) ==> s == Reversed(s0)
  {
    list, idx, data16, s := list0, finderIdx, key, s0;
    var i := 0;
    hide Matches, Turned, List, Distinct, Reversed;
    while i < findNum
      invariant 0 <= i && (i == 0 ==> s == s0 && idx == finderIdx) && (i == 0 || i <= findNum)
      invariant List(list, s) && Distinct(s) && multiset(s) == multiset(s0)
      invariant idx == SearchIdx(finderIdx, i)
      invariant Data(s0, past) && Found(s0, finderIdx, 0, findNum, past) == Found(s, finderIdx, i, findNum, past)
      invariant i == 1 && old(Missed(s0, finderIdx)) ==> s == Reversed(s0)
      invariant old(Missed(s0, finderIdx)) ==> Missed(s0, finderIdx)
    {
      data16 := i % 256;
      SameLength(s0, s);
      list, s := FindAndTurn(list, idx, data16, s, past);
      if idx >= 0 {
        idx := if idx == 0x7FFF then -0x8000 else idx + 1;
      }
      i := i + 1;
    }
  }

  lemma SameLength(a: seq<Node>, b: seq<Node>)
    requires multiset(a) == multiset(b)
    ensures |a| == |b| && (forall n :: n in b ==> n in a) && (forall n :: n in a ==> n in b)
  {
    assert |multiset(a)| == |a| && |multiset(b)| == |b|;
    forall n | n in a ensures n in b { assert n in multiset(a); }
    forall n | n in b ensures n in a { assert n in multiset(b); }
  }

  /** core_list_remove: the data of the next node is taken over, and that node unlinked. */
  method Remove(item: Node) returns (ret: Node)
    requires item.next != null && item.next != item
    modifies item, item.next
    ensures ret == old(item.next) && ret.next == null && ret.info == old(item.info)
    ensures item.info == old(item.next.info) && item.next == old(item.next.next)
  {
    ret := item.next;
    var tmp := item.info;
    item.info := ret.info;
    ret.info := tmp;
    item.next := item.next.next;
    ret.next := null;
  }

  /** core_list_undo_remove */
  method UndoRemove(removed: Node, modified: Node)
    requires removed != modified
    modifies removed, modified
    ensures modified.next == removed && modified.info == old(removed.info)
    ensures removed.next == old(modified.next) && removed.info == old(modified.info)
  {
    var tmp := removed.info;
    removed.info := modified.info;
    modified.info := tmp;
    removed.next := modified.next;
    modified.next := removed;
  }

  /** The loop over the rest of the list: one crc16 call for each node from p on. */
  method Walk(p0: Node?, ghost s: seq<Node>) returns (calls: nat)
    requires List(p0, s)
    ensures calls == |s|
  {
    var p := p0;
    calls := 0;
    while p != null
      invariant calls <= |s| && p == Head(s[calls..])
      decreases |s| - calls
    {
      p, calls := p.next, calls + 1;
    }
  }

  lemma ShortList(list: Node, s: seq<Node>)
    requires List(list, s) && |s| >= 3
    ensures list == s[0] && list.next == s[1] && s[1].next == s[2] && s[2].next == Head(s[3..])
  {
    assert |s| > 3 ==> s[2].next == s[3];
  }

  /** The node at place 2 removed, the list searched and walked, and the removal undone. */
  method RemoveAndBack(list: Node, idx: int, data16: int, ghost s: seq<Node>)
    requires List(list, s) && Distinct(s) && |s| >= 3
    modifies set n | n in s
    ensures forall n :: n in s ==> n.next == old(n.next) && n.info == old(n.info)
  {
    ShortList(list, s);
    var remover := Remove(list.next);
    ghost var short := [s[0], s[1]] + s[3..];
    assert List(list, short) by { Unlinked(list, s); }
    var finder, k := Find(list, idx, data16, short);
    if finder == null {
      finder, k := list.next, 1;
    }
    SuffixList(list, short, k);
    var _ := Walk(finder, short[k..]);
    UndoRemove(remover, list.next);
  }

  lemma SuffixList(list: Node, s: seq<Node>, k: nat)
    requires List(list, s) && k < |s|
    ensures List(s[k], s[k..])
  {
    forall i | 0 <= i < |s[k..]| - 1 ensures s[k..][i].next == s[k..][i + 1] {
      assert s[k + i].next == s[k + i + 1];
    }
  }

  lemma Unlinked(list: Node, s: seq<Node>)
    requires |s| >= 3 && list == s[0] && s[0].next == s[1] && s[1].next == Head(s[3..])
    requires forall i :: 3 <= i < |s| ==> s[i].next == Head(s[i + 1..])
    ensures List(list, [s[0], s[1]] + s[3..])
  {
    var m := [s[0], s[1]] + s[3..];
    forall i | 0 <= i < |m| - 1 ensures m[i].next == m[i + 1] {
      if i >= 2 { assert m[i] == s[i + 1]; }
    }
  }

  /** Sorted by distinct idx. */
  ghost predicate IdxSorted(s: seq<Node>)
    reads s`info, (set n | n in s :: n.info)`idx
  {
    forall i, j :: 0 <= i < j < |s| ==> s[i].info.idx < s[j].info.idx
  }

  /** Sorted by idx, equal ones allowed. */
  ghost predicate IdxAscending(s: seq<Node>)
    reads s`info, (set n | n in s :: n.info)`idx
  {
    forall i, j :: 0 <= i < j < |s| ==> s[i].info.idx <= s[j].info.idx
  }

  /** Sorting by idx brings a list back exactly when it was sorted by idx and nodes of one idx were left in order. */
  lemma BackByIdx(s0: seq<Node>, s1: seq<Node>, s: seq<Node>, idx: map<Node, int>)
    requires Distinct(s0) && Distinct(s1) && multiset(s1) == multiset(s0) && multiset(s) == multiset(s0)
    requires StablySorted(ByIdx, s1, s) && forall n :: n in s0 ==> n in idx && idx[n] == n.info.idx
    ensures s == s0 <==> IdxAscending(s0) && TiesKept(s0, s1, idx)
  {
    InList(s0);
    assert forall n :: Key(ByIdx, n) == n.info.idx;
    if IdxAscending(s0) && TiesKept(s0, s1, idx) {
      SameLength(s0, s);
      var o := Order(map n | n in s0 :: n.info.idx, map n | n in s0 :: Place(s1, n));
      forall i, j | 0 <= i < j < |s| ensures Less(o, s[i], s[j]) {
        assert s[i] in s0 && s[j] in s0;
      }
      forall i, j | 0 <= i < j < |s0| ensures Less(o, s0[i], s0[j]) {
        assert s0[i] in s0 && s0[j] in s0;
      }
      SortUnique(o, s, s0);
    }
  }

  /** Distinct idx have no ties, and an order that was left alone keeps them. */
  lemma NoTies(s0: seq<Node>, s1: seq<Node>, idx: map<Node, int>)
    requires Distinct(s0) && Distinct(s1) && forall n :: n in s0 ==> n in idx && idx[n] == n.info.idx
    requires s1 == s0 || IdxSorted(s0)
    ensures TiesKept(s0, s1, idx)
  {
    InList(s0);
    forall i, j | 0 <= i < j < |s0| && idx[s0[i]] == idx[s0[j]] ensures Place(s1, s0[i]) < Place(s1, s0[j]) {
      assert s0[i] in s0 && s0[j] in s0;
      if s1 == s0 {
        PlaceAt(s0, i);
        PlaceAt(s0, j);
      }
    }
  }

  lemma PlaceAt(s: seq<Node>, i: nat)
    requires Distinct(s) && i < |s|
    ensures Place(s, s[i]) == i
  {
    assert s[i] in s;
    assert s[Place(s, s[i])] == s[i];
  }

  /** A list that was turned over comes back only if its idx are distinct. */
  lemma TurnedBack(s0: seq<Node>, i: nat, j: nat)
    requires Distinct(s0) && Distinct(Reversed(s0)) && multiset(s0) == multiset(Reversed(s0))
    requires StablySorted(ByIdx, Reversed(s0), s0) && i < j < |s0|
    ensures s0[i].info.idx < s0[j].info.idx
  {
    ReversedPlace(s0, i);
    ReversedPlace(s0, j);
    PlaceAt(Reversed(s0), |s0| - 1 - i);
    PlaceAt(Reversed(s0), |s0| - 1 - j);
    assert Key(ByIdx, s0[i]) == s0[i].info.idx && Key(ByIdx, s0[j]) == s0[j].info.idx;
  }

  /** The low data byte equals the backup in the high byte. */
  ghost predicate BackedUp(s: seq<Node>)
    reads s`info, (set n | n in s :: n.info)`data16
  {
    forall n :: n in s ==> n.info.data16 < 0x1_0000 && n.info.data16 % 256 == n.info.data16 / 256
  }

  lemma SameItems(a: seq<Node>, b: seq<Node>, infos: set<Info>)
    requires multiset(a) == multiset(b) && Items((set n | n in a), infos)
    ensures Items((set n | n in b), infos)
  {
    SameLength(a, b);
  }

  /** `r` is `s` sorted by the values, and equal values stay in the order they had. */
  ghost predicate StableBy(vals: map<Node, int>, s: seq<Node>, r: seq<Node>)
    requires Distinct(s)
  {
    && (forall n :: n in r ==> n in vals)
    && forall i, j :: 0 <= i < j < |r| ==>
         vals[r[i]] < vals[r[j]] || (vals[r[i]] == vals[r[j]] && Place(s, r[i]) < Place(s, r[j]))
  }

  /** The value of an item is in `vals`, and its own if no kernel has to compute it. */
  ghost predicate ValueOf(n: Node, vals: map<Node, int>, words: map<Node, nat>) {
    n in vals && n in words && (Determined(words[n]) ==> vals[n] == words[n] % 128)
  }

  /** The order the searches leave, and the sort by value if it is asked for, `vals` being the values compared: those
      recorded in the data words, but for the items whose value a kernel computes. */
  ghost predicate Shuffled(s0: seq<Node>, finderIdx: int, findNum: int, past: Past, vals: map<Node, int>,
                           s1: seq<Node>) {
    var f := Found(s0, finderIdx, 0, findNum, past);
    && Distinct(f) && multiset(f) == multiset(s0) && Distinct(s1) && multiset(s1) == multiset(s0)
    && if finderIdx > 0 then StableBy(vals, f, s1) && forall n :: n in s0 ==> ValueOf(n, vals, past.words) else s1 == f
  }

  /** Everything up to the removal: the finds, and the sort by value if it is asked for. */
  method Shuffle(list0: Node, finderIdx: int, findNum: int, key: int, ghost s0: seq<Node>, ghost infos: set<Info>,
                 ghost kept: map<Info, nat>, ghost past: Past)
    returns (list: Node, idx: int, data16: int, ghost s: seq<Node>, ghost vals: map<Node, int>)
    requires ListOf(list0, s0, infos, kept) && |s0| >= 2 && Data(s0, past)
    modifies (set n | n in s0)`next, infos`data16
    ensures ListOf(list, s, infos, kept) && Shuffled(s0, finderIdx, findNum, past, vals, s)
    ensures finderIdx <= 0 && findNum <= 0 ==> s == s0
    ensures finderIdx <= 0 && findNum == 1 && old(Missed(s0, finderIdx)) ==> s == Reversed(s0)
  {
    hide StablySorted, Items, Backups, Found, Missed;
    vals := map[];
    list, idx, data16, s := Finds(list0, finderIdx, findNum, key, s0, past);
    SameItems(s0, s, infos);
    if finderIdx > 0 {
      SameLength(s0, s);
      ghost var f := s;
      list, s := Sort(ByValue, list, s, infos, kept);
      vals := map n | n in s :: Key(ByValue, n);
      SameLength(f, s);
      ValuesSorted(f, s, vals);
      ValuesOwn(s0, s, vals, past);
    }
  }

  lemma ValuesSorted(f: seq<Node>, s: seq<Node>, vals: map<Node, int>)
    requires Distinct(f) && multiset(s) == multiset(f) && StablySorted(ByValue, f, s)
    requires vals == map n | n in s :: Key(ByValue, n)
    ensures StableBy(vals, f, s)
  {
    InList(s);
    hide Key;
  }

  lemma ValuesOwn(s0: seq<Node>, s: seq<Node>, vals: map<Node, int>, past: Past)
    requires vals == map n | n in s :: Key(ByValue, n)
    requires forall n :: n in s0 ==> n in s && n in past.words && Marked(ByValue, past.words[n], n.info.data16)
    ensures forall n :: n in s0 ==> ValueOf(n, vals, past.words)
  {
  }

  lemma NextOf(list: Node?, s: seq<Node>)
    requires List(list, s)
    ensures forall i {:trigger s[i]} :: 0 <= i < |s| ==> s[i].next == Head(s[i + 1..])
  {
  }

  /** The links of a list say what its nodes are. */
  lemma {:induction false} SameList(list: Node?, a: seq<Node>, b: seq<Node>)
    requires List(list, a) && List(list, b)
    ensures a == b
    decreases |a|
  {
    if a != [] && b != [] {
      ListTail(list, a);
      ListTail(list, b);
      SameList(a[0].next, a[1..], b[1..]);
      assert a == [a[0]] + a[1..] && b == [b[0]] + b[1..];
    }
  }

  /** The removal and its undoing, with the data left alone. */
  method Removal(list: Node, idx: int, data16: int, ghost s: seq<Node>, ghost infos: set<Info>,
                 ghost kept: map<Info, nat>)
    requires ListOf(list, s, infos, kept) && |s| >= 3
    modifies set n | n in s
    ensures ListOf(list, s, infos, kept) && forall n :: n in s ==> n.info == old(n.info)
  {
    RemoveAndBack(list, idx, data16, s);
    assert Items((set n | n in s), infos);
    assert forall i :: 0 <= i < |s| ==> s[i] in s;
  }

  /** The steps of the benchmark: `s1` is the order before the last sort, `s` the one after it. */
  method BenchSteps(list0: Node, finderIdx: int, findNum: int, key: int, ghost s0: seq<Node>, ghost infos: set<Info>,
                    ghost kept: map<Info, nat>, ghost past: Past)
    returns (list: Node, ghost s1: seq<Node>, ghost s: seq<Node>, ghost vals: map<Node, int>)
    requires ListOf(list0, s0, infos, kept) && |s0| >= 3 && Data(s0, past)
    modifies (set n | n in s0), infos`data16
    ensures Shuffled(s0, finderIdx, findNum, past, vals, s1)
    ensures ListOf(list, s, infos, kept) && Distinct(s1) && multiset(s1) == multiset(s0) && multiset(s) == multiset(s0)
    ensures StablySorted(ByIdx, s1, s)
    ensures forall n :: n in s0 ==> Seen(ByIdx, n.info.data16) && n.info == old(n.info)
    ensures finderIdx <= 0 && findNum <= 0 ==> s1 == s0
    ensures finderIdx <= 0 && findNum == 1 && old(Missed(s0, finderIdx)) ==> s1 == Reversed(s0)
  {
    hide Seen, Matches, Items, Backups, List, StablySorted, Missed, Shuffled;
    var idx: int, data16: int;
    list, idx, data16, s1, vals := Shuffle(list0, finderIdx, findNum, key, s0, infos, kept, past);
    ShuffledSame(s0, finderIdx, findNum, past, vals, s1);
    SameLength(s0, s1);
    Removal(list, idx, data16, s1, infos, kept);
    list, s := Sort(ByIdx, list, s1, infos, kept);
    SameLength(s0, s);
  }

  lemma ShuffledSame(s0: seq<Node>, finderIdx: int, findNum: int, past: Past, vals: map<Node, int>, s1: seq<Node>)
    requires Shuffled(s0, finderIdx, findNum, past, vals, s1)
    ensures Distinct(s1) && multiset(s1) == multiset(s0)
  {
  }

  /** core_bench_list, on any list of three or more nodes with data items of their own: the same nodes with the same
      items, in stable order of idx, and every low byte taken from its backup. */
  method BenchAny(list0: Node, finderIdx: int, findNum: int, key: int, ghost s0: seq<Node>, ghost past: Past)
    returns (list: Node, ghost s1: seq<Node>, ghost s: seq<Node>, ghost vals: map<Node, int>)
    requires List(list0, s0) && Distinct(s0) && |s0| >= 3 && Data(s0, past)
    requires Items((set n | n in s0), (set n | n in s0 :: n.info)) && forall n :: n in s0 ==> n.info.data16 < 0x1_0000
    modifies (set n | n in s0), (set n | n in s0 :: n.info)`data16
    ensures List(list, s) && multiset(s) == multiset(s0) && IdxAscending(s)
    ensures forall n :: n in s0 ==> n.info == old(n.info) && n.info.data16 == Restored(old(n.info.data16))
    ensures Distinct(s1) && multiset(s1) == multiset(s0) && StablySorted(ByIdx, s1, s)
    ensures Shuffled(s0, finderIdx, findNum, past, vals, s1)
    ensures finderIdx <= 0 && findNum <= 0 ==> s1 == s0
    ensures finderIdx <= 0 && findNum == 1 && old(Missed(s0, finderIdx)) ==> s1 == Reversed(s0)
  {
    ghost var infos := set n | n in s0 :: n.info;
    ghost var kept := map i | i in infos :: i.data16 / 256;
    BenchReady(list0, s0, infos, kept, past);
    hide *;
    list, s1, s, vals := BenchSteps(list0, finderIdx, findNum, key, s0, infos, kept, past);
    SameLength(s0, s);
    BenchDone(list, s0, s1, s, infos, kept, past);
  }

  lemma BenchReady(list0: Node, s0: seq<Node>, infos: set<Info>, kept: map<Info, nat>, past: Past)
    requires List(list0, s0) && Distinct(s0) && Items((set n | n in s0), infos) && Data(s0, past)
    requires infos == (set n | n in s0 :: n.info) && kept == map i | i in infos :: i.data16 / 256
    requires forall n :: n in s0 ==> n.info.data16 < 0x1_0000
    ensures ListOf(list0, s0, infos, kept)
    ensures forall n :: n in s0 ==>
      && n in past.words && past.words[n] == n.info.data16 < 0x1_0000
      && n.info in kept && kept[n.info] == past.words[n] / 256
  {
    hide List, Distinct, Items;
  }

  /** The idx ascend, and the low bytes are taken from their backups. */
  lemma BenchDone(list: Node, s0: seq<Node>, s1: seq<Node>, s: seq<Node>, infos: set<Info>, kept: map<Info, nat>,
                  past: Past)
    requires ListOf(list, s, infos, kept) && Distinct(s1) && multiset(s) == multiset(s1) && StablySorted(ByIdx, s1, s)
    requires forall n :: n in s0 ==> n in s && Seen(ByIdx, n.info.data16)
    requires forall n :: n in s0 ==>
      n in past.words && past.words[n] < 0x1_0000 && n.info in kept && kept[n.info] == past.words[n] / 256
    ensures List(list, s) && IdxAscending(s)
    ensures forall n :: n in s0 ==> n.info.data16 == Restored(past.words[n])
  {
    hide List, Distinct, Seen, Restored;
    forall n | n in s0 ensures n.info.data16 == Restored(past.words[n]) {
      SameByte(past.words[n], n.info.data16);
    }
  }

  lemma SameByte(d0: nat, d: nat)
    requires d0 < 0x1_0000 && d < 0x1_0000 && d / 256 == d0 / 256 && Seen(ByIdx, d)
    ensures d == Restored(d0)
  {
  }

  /** The list is as it was. */
  twostate predicate Untouched(s: seq<Node>)
    reads s, (set n | n in s :: n.info)
  {
    forall n :: n in s ==> n.next == old(n.next) && n.info == old(n.info) && n.info.data16 == old(n.info.data16)
  }

  /** Nodes of one idx keep their order from `s` to `r`. */
  ghost predicate TiesKept(s: seq<Node>, r: seq<Node>, idx: map<Node, int>) {
    && Distinct(r)
    && forall i, j :: 0 <= i < j < |s| && s[i] in idx && s[j] in idx && idx[s[i]] == idx[s[j]] ==>
         Place(r, s[i]) < Place(r, s[j])
  }

  /** Two nodes of one idx. */
  ghost predicate Tied(a: Node, b: Node, idx: map<Node, int>) {
    a in idx && b in idx && idx[a] == idx[b]
  }

  /** No kernel has to compute the value of a node that shares its idx. */
  ghost predicate TiesDetermined(s: seq<Node>, past: Past) {
    forall i, j :: 0 <= i < j < |s| && Tied(s[i], s[j], past.idx) ==>
      && s[i] in past.words && Determined(past.words[s[i]])
      && s[j] in past.words && Determined(past.words[s[j]])
  }

  /** `a` comes before `b`: by the low seven bits recorded, if the list is sorted by value and they differ, or else by
      the order `f` the searches leave. */
  ghost predicate Ahead(a: Node, b: Node, byValue: bool, f: seq<Node>, past: Past)
    requires a in past.words && b in past.words && Distinct(f)
  {
    var va, vb := past.words[a] % 128, past.words[b] % 128;
    if byValue && va != vb then va < vb else Place(f, a) < Place(f, b)
  }

  /** What was recorded before the benchmark says that nodes of one idx stay in order. */
  ghost predicate TiesForeseen(s: seq<Node>, finderIdx: int, findNum: int, past: Past) {
    var f := Found(s, finderIdx, 0, findNum, past);
    && Distinct(f)
    && forall i, j :: 0 <= i < j < |s| && Tied(s[i], s[j], past.idx) ==>
         s[i] in past.words && s[j] in past.words && Ahead(s[i], s[j], finderIdx > 0, f, past)
  }

  lemma PairOrder(a: Node, b: Node, finderIdx: int, f: seq<Node>, s1: seq<Node>, vals: map<Node, int>, past: Past)
    requires Distinct(f) && Distinct(s1) && a in s1 && b in s1 && a != b && a in past.words && b in past.words
    requires if finderIdx > 0 then StableBy(vals, f, s1) else s1 == f
    requires finderIdx > 0 ==>
      a in vals && vals[a] == past.words[a] % 128 && b in vals && vals[b] == past.words[b] % 128
    ensures Place(s1, a) < Place(s1, b) <==> Ahead(a, b, finderIdx > 0, f, past)
  {
    var i, j := Place(s1, a), Place(s1, b);
    assert s1[i] == a && s1[j] == b;
  }

  /** Without a sort by value, or with determined values, the order of tied nodes can be foreseen. */
  lemma TiesAre(s0: seq<Node>, finderIdx: int, findNum: int, past: Past, vals: map<Node, int>, s1: seq<Node>)
    requires Shuffled(s0, finderIdx, findNum, past, vals, s1) && Distinct(s0)
    requires forall n :: n in s0 ==> n in past.words
    requires finderIdx <= 0 || TiesDetermined(s0, past)
    ensures TiesKept(s0, s1, past.idx) <==> TiesForeseen(s0, finderIdx, findNum, past)
  {
    hide Found, Ahead, Determined, StableBy;
    var f := Found(s0, finderIdx, 0, findNum, past);
    SameLength(s0, s1);
    InList(s0);
    forall i, j | 0 <= i < j < |s0| && Tied(s0[i], s0[j], past.idx)
      ensures Place(s1, s0[i]) < Place(s1, s0[j]) <==> Ahead(s0[i], s0[j], finderIdx > 0, f, past)
    {
      PairOrder(s0[i], s0[j], finderIdx, f, s1, vals, past);
    }
  }

  /** core_bench_list and its promise to leave the list as it was. It is kept exactly when the idx ascend, the low data
      bytes equal their backups, and the searches and the sort by value leave nodes of one idx in order. The last can
      be told from the list and the arguments alone if no value of such a node has to be computed by a kernel. It is
      no condition when the idx are distinct, or nothing is looked for or sorted by value; after a single search in
      vain no two nodes may have one idx. */
  method Bench(list0: Node, finderIdx: int, findNum: int, key: int, ghost s0: seq<Node>)
    returns (list: Node, ghost same: bool, ghost past: Past, ghost vals: map<Node, int>, ghost s1: seq<Node>)
    requires List(list0, s0) && Distinct(s0) && |s0| >= 3
    requires Items((set n | n in s0), (set n | n in s0 :: n.info)) && forall n :: n in s0 ==> n.info.data16 < 0x1_0000
    modifies (set n | n in s0), (set n | n in s0 :: n.info)`data16
    ensures same <==> list == list0 && Untouched(s0)
    ensures forall n :: n in s0 ==> n in past.idx && past.idx[n] == old(n.info.idx)
    ensures forall n :: n in s0 ==> n in past.words && past.words[n] == old(n.info.data16)
    ensures Shuffled(s0, finderIdx, findNum, past, vals, s1)
    ensures same <==> old(IdxAscending(s0) && BackedUp(s0)) && TiesKept(s0, s1, past.idx)
    ensures finderIdx <= 0 || TiesDetermined(s0, past) ==>
      (same <==> old(IdxAscending(s0) && BackedUp(s0)) && TiesForeseen(s0, finderIdx, findNum, past))
    ensures old(IdxSorted(s0) && BackedUp(s0)) ==> same
    ensures finderIdx <= 0 && findNum <= 0 ==> (same <==> old(IdxAscending(s0) && BackedUp(s0)))
    ensures finderIdx <= 0 && findNum == 1 && old(Missed(s0, finderIdx)) ==>
      (same <==> old(IdxSorted(s0) && BackedUp(s0)))
  {
    hide *;
    past := Now(s0);
    RecordedAll(s0, past);
    Recorded(list0, s0, past);
    ghost var s;
    list, s1, s, vals := BenchPast(list0, finderIdx, findNum, key, s0, past);
    Outcome(list0, list, s0, s1, s, past);
    if finderIdx <= 0 || TiesDetermined(s0, past) {
      TiesAre(s0, finderIdx, findNum, past, vals, s1);
    }
    same := list == list0 && SameIn(s0, past);
    UntouchedIs(s0, past);
  }

  /** The record is of the present. */
  ghost predicate Present(s: seq<Node>, past: Past)
    reads s, (set n | n in s :: n.info)
  {
    forall n :: n in s ==>
      && n in past.nexts && past.nexts[n] == n.next && n in past.infos && past.infos[n] == n.info
      && n in past.words && past.words[n] == n.info.data16 && n in past.idx && past.idx[n] == n.info.idx
  }

  /** A record of the present. */
  ghost function Now(s: seq<Node>): (past: Past)
    reads s, (set n | n in s :: n.info)
    ensures Data(s, past) && Present(s, past)
  {
    Past(map n | n in s :: n.next, map n | n in s :: n.info, map n | n in s :: n.info.data16,
         map n | n in s :: n.info.idx)
  }

  lemma RecordedAll(s: seq<Node>, past: Past)
    requires Present(s, past)
    ensures forall n :: n in s ==>
      && n in past.nexts && past.nexts[n] == n.next && n in past.infos && past.infos[n] == n.info
      && n in past.words && past.words[n] == n.info.data16
    ensures forall n :: n in s ==> n in past.idx && past.idx[n] == n.info.idx
  {
  }

  ghost predicate WasList(list: Node, s: seq<Node>, past: Past) {
    s != [] && list == s[0] && forall i :: 0 <= i < |s| ==> s[i] in past.nexts && past.nexts[s[i]] == Head(s[i + 1..])
  }

  /** Data pointers and idx are as recorded, and the low bytes taken from their backups. */
  ghost predicate ItemsBack(s: seq<Node>, past: Past)
    reads s, (set n | n in s :: n.info)
  {
    forall n :: n in s ==>
      && n in past.infos && past.infos[n] == n.info && n in past.idx && past.idx[n] == n.info.idx
      && n in past.words && past.words[n] < 0x1_0000 && n.info.data16 == Restored(past.words[n])
  }

  ghost predicate SameIn(s: seq<Node>, past: Past)
    reads s, (set n | n in s :: n.info)
  {
    forall n :: n in s ==>
      && n in past.nexts && past.nexts[n] == n.next && n in past.infos && past.infos[n] == n.info
      && n in past.words && past.words[n] == n.info.data16
  }

  twostate lemma UntouchedIs(s: seq<Node>, new past: Past)
    requires forall n :: n in s ==>
      && n in past.nexts && past.nexts[n] == old(n.next) && n in past.infos && past.infos[n] == old(n.info)
      && n in past.words && past.words[n] == old(n.info.data16)
    ensures Untouched(s) == SameIn(s, past)
  {
  }

  /** The benchmark, with a record of what was before. */
  method BenchPast(list0: Node, finderIdx: int, findNum: int, key: int, ghost s0: seq<Node>, ghost past: Past)
    returns (list: Node, ghost s1: seq<Node>, ghost s: seq<Node>, ghost vals: map<Node, int>)
    requires List(list0, s0) && Distinct(s0) && |s0| >= 3 && Present(s0, past)
    requires Items((set n | n in s0), (set n | n in s0 :: n.info)) && forall n :: n in s0 ==> n.info.data16 < 0x1_0000
    modifies (set n | n in s0), (set n | n in s0 :: n.info)`data16
    ensures Ordered(list, s0, s1, s) && ItemsBack(s0, past) && Shuffled(s0, finderIdx, findNum, past, vals, s1)
    ensures finderIdx <= 0 && findNum <= 0 ==> s1 == s0
    ensures finderIdx <= 0 && findNum == 1 && old(Missed(s0, finderIdx)) ==> s1 == Reversed(s0)
  {
    hide Items, Missed, Restored, List, StablySorted, IdxAscending, Shuffled;
    list, s1, s, vals := BenchAny(list0, finderIdx, findNum, key, s0, past);
  }

  /** The list `s`, sorted by idx from the order `s1` of the nodes of `s0`. */
  ghost predicate Ordered(list: Node, s0: seq<Node>, s1: seq<Node>, s: seq<Node>)
    reads s, set n | n in s :: n.info
  {
    && List(list, s) && Distinct(s0) && Distinct(s1) && multiset(s1) == multiset(s0) && multiset(s) == multiset(s0)
    && StablySorted(ByIdx, s1, s) && IdxAscending(s)
  }

  /** Sorted by the idx recorded. */
  ghost predicate IdxIn(s: seq<Node>, idx: map<Node, int>, strict: bool) {
    forall i, j :: 0 <= i < j < |s| ==>
      s[i] in idx && s[j] in idx && (idx[s[i]] < idx[s[j]] || (!strict && idx[s[i]] == idx[s[j]]))
  }

  /** The record describes the present. */
  lemma Recorded(list: Node, s: seq<Node>, past: Past)
    requires List(list, s) && s != [] && Present(s, past) && forall n :: n in s ==> n.info.data16 < 0x1_0000
    ensures BackedUp(s) == BackedUpIn(s, past.words)
    ensures IdxSorted(s) == IdxIn(s, past.idx, true) && IdxAscending(s) == IdxIn(s, past.idx, false)
    ensures WasList(list, s, past) && Present(s, past)
  {
    RecordedIdx(s, past);
    RecordedLinks(list, s, past);
    hide List, IdxSorted, IdxAscending, IdxIn, WasList;
  }

  lemma RecordedIdx(s: seq<Node>, past: Past)
    requires Present(s, past)
    ensures IdxSorted(s) == IdxIn(s, past.idx, true) && IdxAscending(s) == IdxIn(s, past.idx, false)
  {
    InList(s);
  }

  lemma RecordedLinks(list: Node, s: seq<Node>, past: Past)
    requires List(list, s) && s != [] && Present(s, past)
    ensures WasList(list, s, past)
  {
    InList(s);
    NextOf(list, s);
  }

  lemma InList<T>(s: seq<T>)
    ensures forall i :: 0 <= i < |s| ==> s[i] in s
  {
  }

  /** BackedUp, by the data words recorded. */
  ghost predicate BackedUpIn(s: seq<Node>, words: map<Node, nat>) {
    forall n :: n in s ==> n in words && words[n] < 0x1_0000 && words[n] % 256 == words[n] / 256
  }

  /** When the list is as it was, by the order before the last sort. */
  lemma Outcome(list0: Node, list: Node, s0: seq<Node>, s1: seq<Node>, s: seq<Node>, past: Past)
    requires WasList(list0, s0, past) && Ordered(list, s0, s1, s) && ItemsBack(s0, past)
    ensures list == list0 && SameIn(s0, past) <==> s == s0 && BackedUpIn(s0, past.words)
    ensures s == s0 <==> IdxIn(s0, past.idx, false) && TiesKept(s0, s1, past.idx)
    ensures IdxIn(s0, past.idx, true) || (s1 == s0 && IdxIn(s0, past.idx, false)) ==> s == s0
    ensures s1 == Reversed(s0) && s == s0 ==> IdxIn(s0, past.idx, true)
    ensures IdxIn(s0, past.idx, true) ==> IdxIn(s0, past.idx, false)
  {
    assert Distinct(s0);
    hide *;
    OrderedIs(list, s0, s1, s);
    SameResult(list0, list, s0, s, past);
    IdxNow(s0, past);
    BackByIdx(s0, s1, s, past.idx);
    if IdxSorted(s0) || (s1 == s0 && IdxAscending(s0)) {
      NoTies(s0, s1, past.idx);
    }
    if s1 == Reversed(s0) && s == s0 {
      TurnedSorted(s0);
    }
  }

  lemma OrderedIs(list: Node, s0: seq<Node>, s1: seq<Node>, s: seq<Node>)
    requires Ordered(list, s0, s1, s)
    ensures List(list, s) && Distinct(s0) && Distinct(s1) && multiset(s1) == multiset(s0) && multiset(s) == multiset(s0)
    ensures StablySorted(ByIdx, s1, s) && IdxAscending(s)
  {
    hide List, StablySorted, IdxAscending;
  }

  lemma TurnedSorted(s: seq<Node>)
    requires Distinct(s) && Distinct(Reversed(s)) && multiset(s) == multiset(Reversed(s))
    requires StablySorted(ByIdx, Reversed(s), s)
    ensures IdxSorted(s)
  {
    hide StablySorted, Distinct, Reversed;
    forall i, j | 0 <= i < j < |s| ensures s[i].info.idx < s[j].info.idx { TurnedBack(s, i, j); }
  }

  lemma IdxNow(s: seq<Node>, past: Past)
    requires ItemsBack(s, past)
    ensures IdxSorted(s) == IdxIn(s, past.idx, true) && IdxAscending(s) == IdxIn(s, past.idx, false)
    ensures IdxSorted(s) ==> IdxAscending(s)
    ensures forall n :: n in s ==> n in past.idx && past.idx[n] == n.info.idx
  {
    InList(s);
  }

  lemma SameResult(list0: Node, list: Node, s0: seq<Node>, s: seq<Node>, past: Past)
    requires WasList(list0, s0, past) && List(list, s) && ItemsBack(s0, past)
    ensures list == list0 && SameIn(s0, past) <==> s == s0 && BackedUpIn(s0, past.words)
  {
    LinksSame(list0, list, s0, s, past.nexts);
    BytesSame(s0, past.words);
    hide BackedUpIn, List, Restored, WasList;
  }

  /** The links are the ones recorded exactly when the nodes are in the order recorded. */
  lemma LinksSame(list0: Node, list: Node, s0: seq<Node>, s: seq<Node>, nexts: map<Node, Node?>)
    requires s0 != [] && list0 == s0[0] && forall i :: 0 <= i < |s0| ==>
      s0[i] in nexts && nexts[s0[i]] == Head(s0[i + 1..])
    requires List(list, s)
    ensures list == list0 && (forall n :: n in s0 ==> n in nexts && n.next == nexts[n]) <==> s == s0
  {
    if list == list0 && forall n :: n in s0 ==> n in nexts && n.next == nexts[n] {
      InList(s0);
      forall i | 0 <= i < |s0| - 1 ensures s0[i].next == s0[i + 1] { assert s0[i + 1..][0] == s0[i + 1]; }
      assert List(list, s0);
      SameList(list, s, s0);
    }
    if s == s0 {
      NextOf(list, s0);
      forall n | n in s0 ensures n in nexts && n.next == nexts[n] {
        var i :| 0 <= i < |s0| && s0[i] == n;
      }
    }
  }

  lemma BytesSame(s: seq<Node>, words: map<Node, nat>)
    requires forall n :: n in s ==> n in words && words[n] < 0x1_0000 && n.info.data16 == Restored(words[n])
    ensures (forall n :: n in s ==> n.info.data16 == words[n]) <==> BackedUpIn(s, words)
  {
    forall n | n in s ensures Restored(words[n]) == words[n] <==> words[n] % 256 == words[n] / 256 {
      Halves(words[n] / 256);
    }
  }

  // Lists on which the promise is broken.

  /** Three linked nodes with new items. */
  method Three(d0: nat, d1: nat, d2: nat, i0: int, i1: int, i2: int) returns (a: Node, b: Node, c: Node)
    requires d0 < 0x1_0000 && d1 < 0x1_0000 && d2 < 0x1_0000
    ensures fresh(a) && fresh(b) && fresh(c) && fresh(a.info) && fresh(b.info) && fresh(c.info)
    ensures List(a, [a, b, c]) && a != b && b != c && a != c && a.info != b.info && b.info != c.info && a.info != c.info
    ensures a.info.data16 == d0 && b.info.data16 == d1 && c.info.data16 == d2
    ensures a.info.idx == i0 && b.info.idx == i1 && c.info.idx == i2
  {
    var x := new Info(d0, i0);
    var y := new Info(d1, i1);
    var z := new Info(d2, i2);
    a := new Node(x);
    b := new Node(y);
    c := new Node(z);
    a.next, b.next := b, c;
  }

  /** A low byte that differs from its backup is lost, whatever the benchmark looks for. */
  method StaleByte(finderIdx: int, findNum: int, key: int) returns (before: nat, after: nat)
    ensures before == 0x0100 && after == 0x0101
  {
    hide *;
    var a, b, c := Three(0x0100, 0x0202, 0x0303, 1, 2, 3);
    before := a.info.data16;
    ghost var s0, s1, s, vals := [a, b, c], [], [], map[];
    ThreeReady(a, b, c);
    var list;
    list, s1, s, vals := BenchAny(a, finderIdx, findNum, key, s0, Now(s0));
    after := a.info.data16;
    FromBackup(before);
  }

  lemma FromBackup(d: nat)
    requires d == 0x0100
    ensures Restored(d) == 0x0101
  {
  }

  lemma ThreeItems(a: Node, b: Node, c: Node)
    requires a.info != b.info && b.info != c.info && a.info != c.info
    ensures var s := [a, b, c]; Items((set n | n in s), (set n | n in s :: n.info))
  {
  }

  /** Two items of one idx change places in a run with one find in vain. */
  method SameIdx(key: int) returns (a: Node, b: Node, c: Node, list: Node)
    ensures list != a
  {
    hide *;
    a, b, c := Three(0x0101, 0x0202, 0x0303, 1, 1, 2);
    ghost var s0, s1, s, vals := [a, b, c], [], [], map[];
    ThreeReady(a, b, c);
    list, s1, s, vals := BenchAny(a, 0, 1, key, s0, Now(s0));
    NotBack(a, b, c, list, s1, s);
  }

  lemma ThreeReady(a: Node, b: Node, c: Node)
    requires a != b && b != c && a != c && a.info != b.info && b.info != c.info && a.info != c.info
    requires a.info.idx > 0 && b.info.idx > 0 && c.info.idx > 0
    requires a.info.data16 < 0x1_0000 && b.info.data16 < 0x1_0000 && c.info.data16 < 0x1_0000
    ensures var s := [a, b, c];
      && Distinct(s) && a in s && b in s && c in s && Missed(s, 0) && (forall n :: n in s ==> n.info.data16 < 0x1_0000)
      && Items((set n | n in s), (set n | n in s :: n.info))
  {
    ThreeItems(a, b, c);
  }

  lemma NotBack(a: Node, b: Node, c: Node, list: Node, s1: seq<Node>, s: seq<Node>)
    requires a != b && b != c && a != c && a.info.idx == b.info.idx && s1 == Reversed([a, b, c])
    requires Distinct(s1) && List(list, s) && multiset(s1) == multiset([a, b, c]) && multiset(s) == multiset([a, b, c])
    requires StablySorted(ByIdx, s1, s)
    ensures list != a
  {
    assert b in multiset(s);
    PlaceAt(s1, 1);
    PlaceAt(s1, 2);
  }

  // With a sort by value, on values that need no kernel.

  /** Two items of one idx: equal cached values leave the list alone, descending ones do not. */
  method ValueTies(key: int) returns (ghost equal: bool, ghost descending: bool)
    ensures equal && !descending
  {
    equal := TiesRun(0x8181, 0x8181, key);
    descending := TiesRun(0x8282, 0x8181, key);
  }

  /** Three backed up items with cached values, the first two of one idx, sorted by value and nothing looked for. */
  method TiesRun(d0: nat, d1: nat, key: int) returns (ghost same: bool)
    requires d0 in {0x8181, 0x8282} && d1 in {0x8181, 0x8282}
    ensures same <==> d0 <= d1
  {
    var a, b, c := Three(d0, d1, 0x8181, 1, 1, 2);
    TiesReady(a, b, c);
    hide *;
    ghost var s := [a, b, c];
    var list;
    ghost var past, vals, s1;
    list, same, past, vals, s1 := Bench(a, 1, 0, key, s);
    TiesOutcome(a, b, c, past, d0, d1);
  }

  lemma TiesReady(a: Node, b: Node, c: Node)
    requires a != b && b != c && a != c && a.info != b.info && b.info != c.info && a.info != c.info
    requires a.info.idx == b.info.idx < c.info.idx
    requires forall n :: n in [a, b, c] ==> n.info.data16 in {0x8181, 0x8282}
    ensures var s := [a, b, c];
      && Distinct(s) && a in s && b in s && c in s && (forall n :: n in s ==> n.info.data16 < 0x1_0000)
      && Items((set n | n in s), (set n | n in s :: n.info)) && IdxAscending(s) && BackedUp(s)
  {
    ThreeItems(a, b, c);
  }

  lemma TiesOutcome(a: Node, b: Node, c: Node, past: Past, d0: nat, d1: nat)
    requires a != b && b != c && a != c && d0 in {0x8181, 0x8282} && d1 in {0x8181, 0x8282}
    requires a in past.idx && b in past.idx && c in past.idx && past.idx[a] == past.idx[b] < past.idx[c]
    requires a in past.words && b in past.words && past.words[a] == d0 && past.words[b] == d1
    ensures TiesDetermined([a, b, c], past) && (TiesForeseen([a, b, c], 1, 0, past) <==> d0 <= d1)
  {
    var s := [a, b, c];
    assert Found(s, 1, 0, 0, past) == s && Distinct(s);
    PlaceAt(s, 0);
    PlaceAt(s, 1);
    assert Tied(s[0], s[1], past.idx);
    assert Ahead(s[0], s[1], true, s, past) <==> d0 <= d1;
    hide Found, Ahead, Place, Determined;
    assert forall i, j :: 0 <= i < j < |s| && Tied(s[i], s[j], past.idx) ==> i == 0 && j == 1;
  }
}
