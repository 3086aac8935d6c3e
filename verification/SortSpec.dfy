/** What it means for a sort to be stable, and why runs merge: on sequences of things with keys. */
module SortSpec {
  /** Keys found so far, and the place each thing had at the start. */
  datatype Order<T(==)> = Order(key: map<T, int>, rank: map<T, int>)

  /** `a` belongs before `b`: by key, and by its old place among equals. */
  ghost predicate Less<T>(o: Order<T>, a: T, b: T) {
    && a in o.key && b in o.key && a in o.rank && b in o.rank
    && (o.key[a] < o.key[b] || (o.key[a] == o.key[b] && o.rank[a] < o.rank[b]))
  }

  ghost predicate Sorted<T>(o: Order<T>, s: seq<T>) {
    forall i, j :: 0 <= i < j < |s| ==> Less(o, s[i], s[j])
  }

  /** All of `a` belongs before all of `b`. */
  ghost predicate Below<T>(o: Order<T>, a: seq<T>, b: seq<T>) {
    forall x, y :: x in a && y in b ==> Less(o, x, y)
  }

  /** A run: sorted, and every key known unless it is a single thing. */
  ghost predicate Run<T>(o: Order<T>, s: seq<T>) {
    Sorted(o, s) && (|s| >= 2 ==> Known(o, s))
  }

  ghost predicate Known<T>(o: Order<T>, s: seq<T>) {
    forall x :: x in s ==> x in o.key
  }

  /** The old places of `a` come before those of `b`. */
  ghost predicate Earlier<T>(o: Order<T>, a: seq<T>, b: seq<T>) {
    forall x, y :: x in a && y in b ==> x in o.rank && y in o.rank && o.rank[x] < o.rank[y]
  }

  /** More keys are known, and none has changed. */
  ghost predicate Extends<T>(o: Order<T>, o': Order<T>) {
    o'.rank == o.rank && forall x :: x in o.key ==> x in o'.key && o'.key[x] == o.key[x]
  }

  lemma RunExtends<T>(o: Order<T>, o': Order<T>, s: seq<T>)
    requires Run(o, s) && Extends(o, o')
    ensures Run(o', s)
  {
    forall i, j | 0 <= i < j < |s| ensures Less(o', s[i], s[j]) {
      assert Less(o, s[i], s[j]);
    }
  }

  /** State of a merge: `m` is merged, `p` and `q` are left. */
  ghost predicate Merging<T>(o: Order<T>, m: seq<T>, p: seq<T>, q: seq<T>) {
    && Run(o, p) && Run(o, q) && Earlier(o, p, q)
    && Sorted(o, m)
    && (m != [] && (p != [] || q != []) ==> Known(o, m) && Known(o, p) && Known(o, q))
    && (|m| >= 2 ==> Known(o, m))
    && Below(o, m, p) && Below(o, m, q)
  }

  /** One thing goes from the front of a part to the end of the merged part. */
  lemma Push<T>(o: Order<T>, m: seq<T>, x: T)
    requires Sorted(o, m) && forall y :: y in m ==> Less(o, y, x)
    ensures Sorted(o, m + [x])
  {
  }

  /** The head of a run comes before its tail. */
  lemma HeadBelow<T>(o: Order<T>, s: seq<T>)
    requires Sorted(o, s) && s != []
    ensures Below(o, [s[0]], s[1..]) && Sorted(o, s[1..])
  {
    forall y | y in s[1..] ensures Less(o, s[0], y) {
      var j :| 0 <= j < |s[1..]| && s[1..][j] == y;
      assert s[j + 1] == y;
    }
  }

  lemma LessTrans<T>(o: Order<T>, a: T, b: T, c: T)
    requires Less(o, a, b) && Less(o, b, c)
    ensures Less(o, a, c)
  {
  }

  /** Taking the head of `p` when `q` is exhausted, or of `q` when `p` is. */
  lemma TakeOnly<T>(o: Order<T>, m: seq<T>, p: seq<T>)
    requires p != [] && (Merging(o, m, p, []) || Merging(o, m, [], p))
    ensures Merging(o, m + [p[0]], p[1..], []) && Merging(o, m + [p[0]], [], p[1..])
  {
    HeadBelow(o, p);
    assert p[0] in p;
    Push(o, m, p[0]);
    TailOfRun(o, p);
    BelowPush(o, m, p[0], p[1..]);
  }

  lemma TailOfRun<T>(o: Order<T>, p: seq<T>)
    requires Run(o, p) && p != []
    ensures Run(o, p[1..]) && forall x :: x in p[1..] ==> x in p
  {
    HeadBelow(o, p);
  }

  lemma BelowPush<T>(o: Order<T>, m: seq<T>, x: T, r: seq<T>)
    requires Below(o, m, r) && Below(o, [x], r)
    ensures Below(o, m + [x], r)
  {
    assert x in [x];
  }

  /** Taking the head of `p` when it does not compare above the head of `q`. */
  lemma TakeLeft<T>(o: Order<T>, m: seq<T>, p: seq<T>, q: seq<T>)
    requires Merging(o, m, p, q) && p != [] && q != []
    requires Known(o, m) && Known(o, p) && Known(o, q) && o.key[p[0]] <= o.key[q[0]]
    ensures Merging(o, m + [p[0]], p[1..], q)
  {
    HeadBelow(o, p);
    HeadBelow(o, q);
    TailOfRun(o, p);
    assert p[0] in p && q[0] in q;
    Push(o, m, p[0]);
    assert Less(o, p[0], q[0]);
    forall y | y in q ensures Less(o, p[0], y) {
      if y != q[0] {
        assert y in q[1..] by { var j :| 0 <= j < |q| && q[j] == y; assert q[1..][j - 1] == y; }
        assert q[0] in [q[0]];
        LessTrans(o, p[0], q[0], y);
      }
    }
    BelowPush(o, m, p[0], p[1..]);
    BelowPush(o, m, p[0], q);
  }

  /** Taking the head of `q` when the head of `p` compares above it. */
  lemma TakeRight<T>(o: Order<T>, m: seq<T>, p: seq<T>, q: seq<T>)
    requires Merging(o, m, p, q) && p != [] && q != []
    requires Known(o, m) && Known(o, p) && Known(o, q) && o.key[p[0]] > o.key[q[0]]
    ensures Merging(o, m + [q[0]], p, q[1..])
  {
    HeadBelow(o, p);
    HeadBelow(o, q);
    TailOfRun(o, q);
    assert p[0] in p && q[0] in q;
    Push(o, m, q[0]);
    RanksOf(o, p, q);
    assert Less(o, q[0], p[0]);
    forall y | y in p ensures Less(o, q[0], y) {
      if y != p[0] {
        assert y in p[1..] by { var j :| 0 <= j < |p| && p[j] == y; assert p[1..][j - 1] == y; }
        assert p[0] in [p[0]];
        LessTrans(o, q[0], p[0], y);
      }
    }
    BelowPush(o, m, q[0], p);
    BelowPush(o, m, q[0], q[1..]);
  }

  lemma RanksOf<T>(o: Order<T>, p: seq<T>, q: seq<T>)
    requires Earlier(o, p, q) && p != [] && q != []
    ensures p[0] in o.rank && q[0] in o.rank
  {
    assert p[0] in p && q[0] in q;
  }

  lemma MergingExtends<T>(o: Order<T>, o': Order<T>, m: seq<T>, p: seq<T>, q: seq<T>)
    requires Merging(o, m, p, q) && Extends(o, o')
    ensures Merging(o', m, p, q)
  {
    RunExtends(o, o', p);
    RunExtends(o, o', q);
    forall i, j | 0 <= i < j < |m| ensures Less(o', m[i], m[j]) {
      assert Less(o, m[i], m[j]);
    }
    forall x, y | x in m && (y in p || y in q) ensures Less(o', x, y) {
      assert Less(o, x, y);
    }
  }

  /** All keys of a run are known when the key of its head is. */
  lemma KnownByHead<T>(o: Order<T>, s: seq<T>)
    requires Run(o, s) && s != [] && s[0] in o.key
    ensures Known(o, s)
  {
  }

  /** At most `k` things from the front of `s`. */
  function Take<T>(s: seq<T>, k: nat): seq<T> {
    if k <= |s| then s[..k] else s
  }

  function Drop<T>(s: seq<T>, k: nat): seq<T> {
    if k <= |s| then s[k..] else []
  }

  lemma TakeDrop<T>(s: seq<T>, k: nat)
    ensures Take(s, k) + Drop(s, k) == s
    ensures k > 0 && s != [] ==> Take(s, k) == [s[0]] + Take(s[1..], k - 1) && Drop(s, k) == Drop(s[1..], k - 1)
  {
  }

  /** The merge takes the head of the first run. */
  lemma FromLeft<T>(o: Order<T>, m: seq<T>, p: seq<T>, qs: seq<T>, k: nat)
    requires Merging(o, m, p, Take(qs, k)) && p != []
    requires Take(qs, k) == [] || (p[0] in o.key && qs[0] in o.key && o.key[p[0]] <= o.key[qs[0]])
    ensures Merging(o, m + [p[0]], p[1..], Take(qs, k))
  {
    if Take(qs, k) == [] {
      TakeOnly(o, m, p);
    } else {
      KnownByHead(o, p);
      KnownByHead(o, Take(qs, k));
      TakeLeft(o, m, p, Take(qs, k));
    }
  }

  /** The merge takes the head of the second run. */
  lemma FromRight<T>(o: Order<T>, m: seq<T>, p: seq<T>, qs: seq<T>, k: nat)
    requires Merging(o, m, p, Take(qs, k)) && qs != [] && k > 0
    requires p == [] || (p[0] in o.key && qs[0] in o.key && o.key[p[0]] > o.key[qs[0]])
    ensures Merging(o, m + [qs[0]], p, Take(qs[1..], k - 1))
  {
    TakeDrop(qs, k);
    assert Take(qs, k)[1..] == Take(qs[1..], k - 1);
    if p == [] {
      TakeOnly(o, m, Take(qs, k));
    } else {
      KnownByHead(o, p);
      KnownByHead(o, Take(qs, k));
      TakeRight(o, m, p, Take(qs, k));
    }
  }

  /** Runs of `w` things one after the other, the last perhaps shorter. */
  ghost predicate Blocks<T>(o: Order<T>, s: seq<T>, w: nat)
    requires w > 0
    decreases |s|
  {
    s == [] || (Run(o, Take(s, w)) && Earlier(o, Take(s, w), Drop(s, w)) && Blocks(o, Drop(s, w), w))
  }

  /** Runs of exactly `w` things. */
  ghost predicate FullBlocks<T>(o: Order<T>, s: seq<T>, w: nat)
    requires w > 0
    decreases |s|
  {
    s == [] || (|s| >= w && Run(o, s[..w]) && Earlier(o, s[..w], s[w..]) && FullBlocks(o, s[w..], w))
  }

  lemma {:induction false} BlocksExtend<T>(o: Order<T>, o': Order<T>, s: seq<T>, w: nat)
    requires w > 0 && Blocks(o, s, w) && Extends(o, o')
    ensures Blocks(o', s, w)
    decreases |s|
  {
    if s != [] {
      RunExtends(o, o', Take(s, w));
      BlocksExtend(o, o', Drop(s, w), w);
    }
  }

  lemma {:induction false} FullExtend<T>(o: Order<T>, o': Order<T>, s: seq<T>, w: nat)
    requires w > 0 && FullBlocks(o, s, w) && Extends(o, o')
    ensures FullBlocks(o', s, w)
    decreases |s|
  {
    if s != [] {
      RunExtends(o, o', s[..w]);
      FullExtend(o, o', s[w..], w);
    }
  }

  /** A run after full runs: full runs again, or the end of the list. */
  lemma {:induction false} AddBlock<T>(o: Order<T>, s: seq<T>, m: seq<T>, w: nat)
    requires w > 0 && FullBlocks(o, s, w) && Run(o, m) && 0 < |m| <= w && Earlier(o, s, m)
    ensures Blocks(o, s + m, w)
    ensures |m| == w ==> FullBlocks(o, s + m, w)
    decreases |s|
  {
    if s == [] {
      assert s + m == m && Take(m, w) == m && Drop(m, w) == [];
      assert |m| == w ==> m[..w] == m && m[w..] == [];
    } else {
      assert Earlier(o, s[w..], m);
      AddBlock(o, s[w..], m, w);
      assert (s + m)[..w] == s[..w] && (s + m)[w..] == s[w..] + m;
      assert s == s[..w] + s[w..];
      EarlierJoin(o, s[..w], s[w..], m);
    }
  }

  lemma EarlierJoin<T>(o: Order<T>, a: seq<T>, b: seq<T>, m: seq<T>)
    requires Earlier(o, a, b) && Earlier(o, a + b, m)
    ensures Earlier(o, a, b + m)
  {
  }

  lemma TakeTwice<T>(s: seq<T>, w: nat)
    ensures Take(s, w) + Take(Drop(s, w), w) == Take(s, w + w)
    ensures Drop(Drop(s, w), w) == Drop(s, w + w)
  {
  }

  /** Two runs at the front of the list are ready to be merged. */
  lemma ReadyToMerge<T>(o: Order<T>, s: seq<T>, w: nat)
    requires w > 0 && Blocks(o, s, w) && s != []
    ensures Merging(o, [], Take(s, w), Take(Drop(s, w), w))
  {
  }

  /** Once merged they are a run of double width, and the rest keeps its old place behind it. */
  lemma Merged<T>(o: Order<T>, out: seq<T>, s: seq<T>, m: seq<T>, w: nat)
    requires w > 0 && FullBlocks(o, out, w + w) && Blocks(o, s, w) && Earlier(o, out, s) && s != []
    requires Run(o, m) && (forall x :: x in m ==> x in Take(s, w + w)) && |m| == |Take(s, w + w)|
    ensures PassOrder(o, out + m, Drop(s, w + w), w)
  {
    hide FullBlocks, Blocks, Run, Earlier;
    TakeDrop(s, w + w);
    Rest(o, s, w);
    EarlierRest(o, out, m, s, Take(s, w + w), Drop(s, w + w));
    AddBlock(o, out, m, w + w);
  }

  lemma Rest<T>(o: Order<T>, s: seq<T>, w: nat)
    requires w > 0 && Blocks(o, s, w) && s != []
    ensures Blocks(o, Drop(s, w + w), w) && Earlier(o, Take(s, w + w), Drop(s, w + w))
  {
    TakeTwice(s, w);
    var d := Drop(s, w);
    assert Blocks(o, Drop(d, w), w);
    TakeDrop(d, w);
    EarlierParts(o, Take(s, w), d, Take(d, w), Drop(d, w));
  }

  lemma EarlierParts<T>(o: Order<T>, a: seq<T>, d: seq<T>, b: seq<T>, e: seq<T>)
    requires d == b + e && Earlier(o, a, d) && Earlier(o, b, e)
    ensures Earlier(o, a + b, e)
  {
    forall x | x in e ensures x in d { }
  }

  /** The old places of a list that is put together again. */
  lemma EarlierRest<T>(o: Order<T>, out: seq<T>, m: seq<T>, s: seq<T>, t: seq<T>, d: seq<T>)
    requires s == t + d && Earlier(o, out, s) && Earlier(o, t, d) && forall x :: x in m ==> x in t
    ensures Earlier(o, out, m) && Earlier(o, out + m, d)
  {
    forall x | x in d ensures x in s { }
    forall x | x in m ensures x in s { }
  }

  /** Between two merges of a pass: what is out has runs of double width. */
  ghost predicate PassOrder<T>(o: Order<T>, out: seq<T>, s: seq<T>, w: nat)
    requires w > 0
  {
    if s == [] then Blocks(o, out, w + w) else FullBlocks(o, out, w + w) && Blocks(o, s, w) && Earlier(o, out, s)
  }

  lemma PassOrderExtends<T>(o: Order<T>, o': Order<T>, out: seq<T>, s: seq<T>, w: nat)
    requires w > 0 && PassOrder(o, out, s, w) && Extends(o, o')
    ensures PassOrder(o', out, s, w)
  {
    hide Blocks, FullBlocks;
    if s == [] {
      BlocksExtend(o, o', out, w + w);
    } else {
      FullExtend(o, o', out, w + w);
      BlocksExtend(o, o', s, w);
    }
  }

  /** A single block is a sorted list. */
  lemma OneBlock<T>(o: Order<T>, s: seq<T>, w: nat)
    requires w > 0 && Blocks(o, s, w) && |s| <= w
    ensures Run(o, s)
  {
    assert s != [] ==> Take(s, w) == s;
  }

  /** Blocks of one thing need no key. */
  lemma {:induction false} Singles<T>(o: Order<T>, s: seq<T>)
    requires forall x :: x in s ==> x in o.rank
    requires forall i, j :: 0 <= i < j < |s| ==> o.rank[s[i]] < o.rank[s[j]]
    ensures Blocks(o, s, 1)
    decreases |s|
  {
    if s != [] {
      assert Take(s, 1) == [s[0]];
      forall y | y in s[1..] ensures o.rank[s[0]] < o.rank[y] {
        var j :| 0 <= j < |s[1..]| && s[1..][j] == y;
        assert s[j + 1] == y;
      }
      Singles(o, s[1..]);
    }
  }

  lemma HeadLess<T>(o: Order<T>, s: seq<T>, x: T)
    requires Sorted(o, s) && x in s
    ensures x == s[0] || Less(o, s[0], x)
  {
    var i :| 0 <= i < |s| && s[i] == x;
    assert i > 0 ==> Less(o, s[0], s[i]);
  }

  /** Two sorted lists of the same things start with the same thing. */
  lemma HeadsAgree<T>(o: Order<T>, a: seq<T>, b: seq<T>)
    requires Sorted(o, a) && Sorted(o, b) && multiset(a) == multiset(b) && a != []
    ensures b != [] && a[0] == b[0]
  {
    assert a[0] in multiset(b);
    assert b[0] in multiset(a);
    HeadLess(o, b, a[0]);
    HeadLess(o, a, b[0]);
  }

  /** A strict order leaves one way to sort. */
  lemma {:induction false} SortUnique<T>(o: Order<T>, a: seq<T>, b: seq<T>)
    requires Sorted(o, a) && Sorted(o, b) && multiset(a) == multiset(b)
    ensures a == b
    decreases |a|
  {
    hide Less, Sorted, Below;
    if a == [] {
      assert |multiset(a)| == 0 && |multiset(b)| == |b|;
    } else {
      HeadsAgree(o, a, b);
      assert a == [a[0]] + a[1..] && b == [b[0]] + b[1..];
      assert multiset(a[1..]) == multiset(a) - multiset{a[0]};
      assert multiset(b[1..]) == multiset(b) - multiset{b[0]};
      HeadBelow(o, a);
      HeadBelow(o, b);
      SortUnique(o, a[1..], b[1..]);
    }
  }
}
