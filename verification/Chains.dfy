/** Cluster chains of an allocation table, independently of how the table is stored. Entry values: 0 free, 1 invalid,
    2..|fat|-1 a link, |fat| and above the end of a chain. */
module Chains {
  /** `ch` lists the clusters of a chain in order. */
  ghost predicate IsChain(fat: seq<nat>, ch: seq<nat>) {
    && |ch| > 0
    && (forall i :: 0 <= i < |ch| ==> 2 <= ch[i] < |fat|)
    && (forall i :: 0 <= i < |ch| - 1 ==> fat[ch[i]] == ch[i + 1])
    && fat[ch[|ch| - 1]] >= |fat|
  }

  /** A chain is acyclic. */
  lemma {:induction false} ChainDistinct(fat: seq<nat>, ch: seq<nat>, i: nat, j: nat)
    requires IsChain(fat, ch) && i < j < |ch|
    ensures ch[i] != ch[j]
    decreases |ch| - j
  {
    assert fat[ch[i]] == ch[i + 1];
    if j < |ch| - 1 {
      assert fat[ch[j]] == ch[j + 1];
      ChainDistinct(fat, ch, i + 1, j + 1);
    }
  }

  /** Two chains that share a cluster agree from there on. */
  lemma {:induction false} ChainsMerge(fat: seq<nat>, a: seq<nat>, b: seq<nat>, i: nat, j: nat)
    requires IsChain(fat, a) && IsChain(fat, b) && i < |a| && j < |b| && a[i] == b[j]
    ensures a[i..] == b[j..]
    decreases |a| - i
  {
    assert i < |a| - 1 ==> fat[a[i]] == a[i + 1];
    assert j < |b| - 1 ==> fat[b[j]] == b[j + 1];
    if i < |a| - 1 {
      ChainsMerge(fat, a, b, i + 1, j + 1);
      assert a[i..] == [a[i]] + a[i + 1..] && b[j..] == [b[j]] + b[j + 1..];
    } else {
      assert j == |b| - 1;
    }
  }

  /** Number of free entries among lo..hi-1. */
  ghost function FreeIn(fat: seq<nat>, lo: nat, hi: nat): (n: nat)
    requires hi <= |fat|
    ensures n <= if lo < hi then hi - lo else 0
    decreases hi
  {
    if hi <= lo then 0 else FreeIn(fat, lo, hi - 1) + if fat[hi - 1] == 0 then 1 else 0
  }

  /** Number of free clusters. */
  ghost function FreeCount(fat: seq<nat>): nat {
    FreeIn(fat, 2, |fat|)
  }

  lemma {:induction false} FreeInUpdate(fat: seq<nat>, lo: nat, hi: nat, c: nat, v: nat)
    requires lo <= c < |fat| && hi <= |fat|
    ensures FreeIn(fat[c := v], lo, hi) == FreeIn(fat, lo, hi)
              + (if c < hi && v == 0 then 1 else 0) - (if c < hi && fat[c] == 0 then 1 else 0)
    decreases hi
  {
    if lo < hi {
      FreeInUpdate(fat, lo, hi - 1, c, v);
    }
  }

  lemma {:induction false} FreeInZero(fat: seq<nat>, lo: nat, hi: nat)
    requires hi <= |fat|
    ensures FreeIn(fat, lo, hi) == 0 <==> forall c :: lo <= c < hi ==> fat[c] != 0
    decreases hi
  {
    if lo < hi {
      FreeInZero(fat, lo, hi - 1);
    }
  }

  /** Clusters that are taken are counted off. */
  lemma {:induction false} TakenCount(fat: seq<nat>, fat': seq<nat>, taken: seq<nat>)
    requires |fat'| == |fat|
    requires forall i :: 0 <= i < |taken| ==> 2 <= taken[i] < |fat| && fat[taken[i]] == 0 && fat'[taken[i]] != 0
    requires forall i, j :: 0 <= i < j < |taken| ==> taken[i] != taken[j]
    requires forall c :: 2 <= c < |fat| && c !in taken ==> (fat[c] == 0 <==> fat'[c] == 0)
    ensures FreeCount(fat) == FreeCount(fat') + |taken|
    decreases |taken|
  {
    if taken == [] {
      SameCount(fat, fat', 2, |fat|);
    } else {
      var k := |taken| - 1;
      FreeInUpdate(fat, 2, |fat|, taken[k], 1);
      assert taken == taken[..k] + [taken[k]];
      TakenCount(fat[taken[k] := 1], fat', taken[..k]);
    }
  }

  lemma {:induction false} SameCount(fat: seq<nat>, fat': seq<nat>, lo: nat, hi: nat)
    requires |fat'| == |fat| && hi <= |fat| && forall c :: lo <= c < hi ==> (fat[c] == 0 <==> fat'[c] == 0)
    ensures FreeIn(fat, lo, hi) == FreeIn(fat', lo, hi)
    decreases hi
  {
    if lo < hi { SameCount(fat, fat', lo, hi - 1); }
  }

  /** What remove_chain does to any table: the new table, and whether it met no invalid entry. */
  ghost function Freed(fat: seq<nat>, c: nat): (r: (seq<nat>, bool))
    requires 2 <= c < |fat|
    ensures |r.0| == |fat|
    decreases |fat| - FreeCount(fat)
  {
    if fat[c] == 0 then (fat, true)
    else if fat[c] == 1 then (fat, false)
    else
      var fat' := fat[c := 0];
      FreeInUpdate(fat, 2, |fat|, c, 0);
      if fat[c] < |fat| then Freed(fat', fat[c]) else (fat', true)
  }

  /** The table after the chain `ch` is cut before its cluster number `k`. */
  ghost function CutAt(fat: seq<nat>, ch: seq<nat>, k: nat, eoc: nat): (r: seq<nat>)
    requires k <= |ch|
    ensures |r| == |fat|
    ensures forall c :: 0 <= c < |fat| ==>
              r[c] == if c in ch[k..] then 0 else if k > 0 && c == ch[k - 1] then eoc else fat[c]
  {
    seq(|fat|, c requires 0 <= c < |fat| =>
      if c in ch[k..] then 0 else if k > 0 && c == ch[k - 1] then eoc else fat[c])
  }

  /** On a proper chain, exactly the clusters from the given one on become free. */
  lemma {:induction false} FreedChain(fat: seq<nat>, ch: seq<nat>)
    requires IsChain(fat, ch)
    ensures Freed(fat, ch[0]) == (CutAt(fat, ch, 0, 0), true)
    decreases |ch|
  {
    var fat' := fat[ch[0] := 0];
    if |ch| == 1 {
      assert Freed(fat, ch[0]).0 == CutAt(fat, ch, 0, 0);
    } else {
      var rest := ch[1..];
      forall i | 0 <= i < |rest| ensures fat'[rest[i]] == fat[rest[i]] {
        ChainDistinct(fat, ch, 0, i + 1);
      }
      FreedChain(fat', rest);
      assert ch == [ch[0]] + rest;
      assert CutAt(fat', rest, 0, 0) == CutAt(fat, ch, 0, 0);
    }
  }

  /** The same for a tail of a chain whose predecessor has just been made the end. */
  lemma FreedTail(fat: seq<nat>, ch: seq<nat>, k: nat, eoc: nat)
    requires IsChain(fat, ch) && 0 < k < |ch| && eoc >= |fat|
    ensures Freed(fat[ch[k - 1] := eoc], ch[k]) == (CutAt(fat, ch, k, eoc), true)
  {
    var fat', tail := fat[ch[k - 1] := eoc], ch[k..];
    forall i | 0 <= i < |tail| ensures fat'[tail[i]] == fat[tail[i]] {
      ChainDistinct(fat, ch, k - 1, k + i);
    }
    FreedChain(fat', tail);
    hide Freed;
    CutBehind(fat, ch, k, eoc);
  }

  lemma CutBehind(fat: seq<nat>, ch: seq<nat>, k: nat, eoc: nat)
    requires IsChain(fat, ch) && 0 < k < |ch|
    ensures CutAt(fat[ch[k - 1] := eoc], ch[k..], 0, 0) == CutAt(fat, ch, k, eoc)
  {
    var tail := ch[k..];
    assert tail[0..] == tail;
    forall c | c in tail ensures c != ch[k - 1] {
      var i :| 0 <= i < |tail| && tail[i] == c;
      ChainDistinct(fat, ch, k - 1, k + i);
    }
    hide IsChain;
  }

  /** The table is exactly the disjoint chains `chains`; everything else is free. */
  ghost predicate Partition(fat: seq<nat>, chains: set<seq<nat>>) {
    && (forall ch :: ch in chains ==> IsChain(fat, ch))
    && AllDisjoint(chains)
    && Covered(fat, chains)
  }

  ghost predicate AllDisjoint(chains: set<seq<nat>>) {
    forall a, b :: a in chains && b in chains && a != b ==> Disjoint(a, b)
  }

  ghost predicate Covered(fat: seq<nat>, chains: set<seq<nat>>) {
    forall c :: 2 <= c < |fat| && fat[c] != 0 ==> OnSome(chains, c)
  }

  ghost predicate OnSome(chains: set<seq<nat>>, c: nat) {
    exists ch :: ch in chains && c in ch
  }

  ghost predicate Disjoint(a: seq<nat>, b: seq<nat>) {
    forall c :: c in a ==> c !in b
  }

  /** On a partitioned table no chain holds a free or an invalid entry. */
  lemma OnChain(fat: seq<nat>, ch: seq<nat>, c: nat)
    requires IsChain(fat, ch) && c in ch
    ensures 2 <= c < |fat| && fat[c] >= 2
  {
    var i :| 0 <= i < |ch| && ch[i] == c;
    assert i < |ch| - 1 ==> fat[ch[i]] == ch[i + 1];
  }

  /** Chains do not notice changes to other entries. */
  lemma ChainFrame(fat: seq<nat>, fat': seq<nat>, ch: seq<nat>)
    requires IsChain(fat, ch) && |fat'| == |fat|
    requires forall c :: c in ch ==> fat'[c] == fat[c]
    ensures IsChain(fat', ch)
  {
  }

  /** create_chain(0) on a partitioned table: one more chain, of one cluster. */
  lemma PartitionNew(fat: seq<nat>, chains: set<seq<nat>>, ncl: nat, eoc: nat)
    requires Partition(fat, chains) && 2 <= ncl < |fat| && fat[ncl] == 0 && eoc >= |fat|
    ensures Partition(fat[ncl := eoc], chains + {[ncl]})
  {
    var fat' := fat[ncl := eoc];
    forall ch | ch in chains ensures ncl !in ch && IsChain(fat', ch) {
      if ncl in ch { OnChain(fat, ch, ncl); }
      ChainFrame(fat, fat', ch);
    }
    forall c | 2 <= c < |fat'| && fat'[c] != 0 ensures OnSome(chains + {[ncl]}, c) {
      if c == ncl {
        assert [ncl] in chains + {[ncl]} && c in [ncl];
      } else {
        var ch :| ch in chains && c in ch;
        assert ch in chains + {[ncl]};
      }
    }
  }

  lemma BesideNew(fat: seq<nat>, fat': seq<nat>, d: seq<nat>, ch: seq<nat>)
    requires IsChain(fat, d) && |fat'| == |fat|
    requires forall c :: c in ch ==> c < |fat| && fat[c] == 0
    requires forall c :: 2 <= c < |fat| && fat'[c] != fat[c] ==> c in ch
    ensures IsChain(fat', d) && Disjoint(d, ch) && Disjoint(ch, d)
  {
    forall c | c in d ensures 2 <= c < |fat| && fat[c] >= 2 { OnChain(fat, d, c); }
    ChainFrame(fat, fat', d);
  }

  /** A new chain over clusters that were free. */
  lemma PartitionAdd(fat: seq<nat>, fat': seq<nat>, chains: set<seq<nat>>, ch: seq<nat>)
    requires Partition(fat, chains) && IsChain(fat', ch) && |fat'| == |fat|
    requires forall c :: c in ch ==> c < |fat| && fat[c] == 0
    requires forall c :: 2 <= c < |fat| && fat'[c] != fat[c] ==> c in ch
    ensures Partition(fat', chains + {ch})
  {
    forall d | d in chains ensures IsChain(fat', d) && Disjoint(d, ch) && Disjoint(ch, d) {
      BesideNew(fat, fat', d, ch);
    }
    hide IsChain;
    forall c | 2 <= c < |fat'| && fat'[c] != 0 ensures OnSome(chains + {ch}, c) {
      if c in ch {
        assert ch in chains + {ch};
      } else {
        var d :| d in chains && c in d;
        assert d in chains + {ch};
      }
    }
  }

  /** Only clusters of `ch` and free clusters change. */
  ghost predicate Local(fat: seq<nat>, fat': seq<nat>, ch: seq<nat>) {
    |fat'| == |fat| && forall c :: 2 <= c < |fat| && fat'[c] != fat[c] ==> c in ch || fat[c] == 0
  }

  /** A local change leaves the other chains alone. */
  lemma OthersStay(fat: seq<nat>, fat': seq<nat>, chains: set<seq<nat>>, ch: seq<nat>, d: seq<nat>)
    requires Partition(fat, chains) && ch in chains && d in chains && d != ch && Local(fat, fat', ch)
    ensures IsChain(fat', d)
    ensures forall c :: c in d ==> 2 <= c < |fat| && c !in ch && fat[c] >= 2
  {
    assert Disjoint(d, ch);
    forall c | c in d ensures 2 <= c < |fat| && c !in ch && fat[c] >= 2 {
      OnChain(fat, d, c);
    }
    ChainFrame(fat, fat', d);
  }

  lemma CoveredWithout(fat: seq<nat>, fat': seq<nat>, chains: set<seq<nat>>, ch: seq<nat>, c: nat)
    requires Partition(fat, chains) && ch in chains && Local(fat, fat', ch)
    requires 2 <= c < |fat| && fat'[c] != 0 && c !in ch && fat[c] != 0
    ensures OnSome(chains - {ch}, c)
  {
    var d :| d in chains && c in d;
    assert d in chains - {ch};
  }

  /** Dropping one chain whose clusters all became free. */
  lemma PartitionDrop(fat: seq<nat>, fat': seq<nat>, chains: set<seq<nat>>, ch: seq<nat>)
    requires Partition(fat, chains) && ch in chains && Local(fat, fat', ch)
    requires forall c :: 2 <= c < |fat| && fat'[c] != 0 ==> c !in ch && fat[c] != 0
    ensures Partition(fat', chains - {ch})
  {
    forall d | d in chains - {ch} ensures IsChain(fat', d) {
      OthersStay(fat, fat', chains, ch, d);
    }
    forall c | 2 <= c < |fat'| && fat'[c] != 0 ensures OnSome(chains - {ch}, c) {
      CoveredWithout(fat, fat', chains, ch, c);
    }
  }

  lemma DisjointAfter(chains: set<seq<nat>>, ch: seq<nat>, ch': seq<nat>)
    requires AllDisjoint(chains)
    requires forall d :: d in chains && d != ch ==> Disjoint(d, ch') && Disjoint(ch', d)
    ensures AllDisjoint(chains - {ch} + {ch'})
  {
    var chains' := chains - {ch} + {ch'};
    forall a, b | a in chains' && b in chains' && a != b ensures Disjoint(a, b) {
      if a == ch' {
        assert b in chains && b != ch;
      } else {
        assert a in chains && a != ch;
      }
    }
  }

  /** `ch'` uses clusters of `ch` and free ones, and all of them that are now in use. */
  ghost predicate Successor(fat: seq<nat>, fat': seq<nat>, ch: seq<nat>, ch': seq<nat>) {
    && IsChain(fat', ch')
    && |fat'| == |fat|
    && (forall c :: c in ch' ==> 2 <= c < |fat| && (c in ch || fat[c] == 0))
    && (forall c :: 2 <= c < |fat| && fat'[c] != 0 && (c in ch || fat[c] == 0) ==> c in ch')
  }

  lemma DisjointFromSuccessor(fat: seq<nat>, fat': seq<nat>, chains: set<seq<nat>>, ch: seq<nat>, ch': seq<nat>,
                              d: seq<nat>)
    requires Partition(fat, chains) && ch in chains && d in chains && d != ch && Local(fat, fat', ch)
    requires Successor(fat, fat', ch, ch')
    ensures Disjoint(d, ch') && Disjoint(ch', d)
  {
    OthersStay(fat, fat', chains, ch, d);
  }

  lemma CoverAfter(fat: seq<nat>, fat': seq<nat>, chains: set<seq<nat>>, ch: seq<nat>, ch': seq<nat>, c: nat)
    requires Partition(fat, chains) && ch in chains && Local(fat, fat', ch)
    requires Successor(fat, fat', ch, ch')
    requires 2 <= c < |fat| && fat'[c] != 0
    ensures OnSome(chains - {ch} + {ch'}, c)
  {
    var chains' := chains - {ch} + {ch'};
    if c in ch || fat[c] == 0 {
      assert ch' in chains';
    } else {
      CoveredWithout(fat, fat', chains, ch, c);
      var d :| d in chains - {ch} && c in d;
      assert d in chains';
    }
  }

  lemma ReplacedDisjoint(fat: seq<nat>, fat': seq<nat>, chains: set<seq<nat>>, ch: seq<nat>, ch': seq<nat>)
    requires Partition(fat, chains) && ch in chains && Local(fat, fat', ch)
    requires Successor(fat, fat', ch, ch')
    ensures AllDisjoint(chains - {ch} + {ch'})
  {
    forall d | d in chains && d != ch ensures Disjoint(d, ch') && Disjoint(ch', d) {
      DisjointFromSuccessor(fat, fat', chains, ch, ch', d);
    }
    DisjointAfter(chains, ch, ch');
  }

  lemma ReplacedCovered(fat: seq<nat>, fat': seq<nat>, chains: set<seq<nat>>, ch: seq<nat>, ch': seq<nat>)
    requires Partition(fat, chains) && ch in chains && Local(fat, fat', ch)
    requires Successor(fat, fat', ch, ch')
    ensures Covered(fat', chains - {ch} + {ch'})
  {
    forall c | 2 <= c < |fat'| && fat'[c] != 0 ensures OnSome(chains - {ch} + {ch'}, c) {
      CoverAfter(fat, fat', chains, ch, ch', c);
    }
  }

  lemma ReplacedChains(fat: seq<nat>, fat': seq<nat>, chains: set<seq<nat>>, ch: seq<nat>, ch': seq<nat>)
    requires Partition(fat, chains) && ch in chains && Local(fat, fat', ch)
    requires Successor(fat, fat', ch, ch')
    ensures forall d :: d in chains - {ch} + {ch'} ==> IsChain(fat', d)
  {
    hide *;
    forall d | d in chains - {ch} + {ch'} ensures IsChain(fat', d) {
      ReplacedChain(fat, fat', chains, ch, ch', d);
    }
  }

  lemma ReplacedChain(fat: seq<nat>, fat': seq<nat>, chains: set<seq<nat>>, ch: seq<nat>, ch': seq<nat>, d: seq<nat>)
    requires Partition(fat, chains) && ch in chains && Local(fat, fat', ch)
    requires Successor(fat, fat', ch, ch') && d in chains - {ch} + {ch'}
    ensures IsChain(fat', d)
  {
    assert IsChain(fat', ch');
    hide *;
    if d != ch' {
      assert d in chains && d != ch;
      OthersStay(fat, fat', chains, ch, d);
    }
  }

  /** Replacing one chain of a partition by another over its own and free clusters. */
  lemma PartitionReplace(fat: seq<nat>, fat': seq<nat>, chains: set<seq<nat>>, ch: seq<nat>, ch': seq<nat>)
    requires Partition(fat, chains) && ch in chains && Local(fat, fat', ch)
    requires Successor(fat, fat', ch, ch')
    ensures Partition(fat', chains - {ch} + {ch'})
  {
    ReplacedChains(fat, fat', chains, ch, ch');
    ReplacedDisjoint(fat, fat', chains, ch, ch');
    ReplacedCovered(fat, fat', chains, ch, ch');
  }

  /** create_chain(last of ch): the chain gets one cluster longer, the others stay. */
  lemma PartitionStretch(fat: seq<nat>, chains: set<seq<nat>>, ch: seq<nat>, ncl: nat, eoc: nat)
    requires Partition(fat, chains) && ch in chains
    requires 2 <= ncl < |fat| && fat[ncl] == 0 && eoc >= |fat|
    ensures Partition(fat[ncl := eoc][ch[|ch| - 1] := ncl], chains - {ch} + {ch + [ncl]})
  {
    var fat' := fat[ncl := eoc][ch[|ch| - 1] := ncl];
    StretchIsChain(fat, ch, ncl, eoc);
    forall c | c in ch ensures 2 <= c < |fat| { OnChain(fat, ch, c); }
    PartitionReplace(fat, fat', chains, ch, ch + [ncl]);
  }

  lemma StretchIsChain(fat: seq<nat>, ch: seq<nat>, ncl: nat, eoc: nat)
    requires IsChain(fat, ch) && 2 <= ncl < |fat| && fat[ncl] == 0 && eoc >= |fat|
    ensures IsChain(fat[ncl := eoc][ch[|ch| - 1] := ncl], ch + [ncl])
  {
    if ncl in ch { OnChain(fat, ch, ncl); }
    forall i | 0 <= i < |ch| - 1 ensures ch[i] != ch[|ch| - 1] {
      ChainDistinct(fat, ch, i, |ch| - 1);
    }
  }

  /** remove_chain at cluster number `k` of one chain: the prefix stays, properly ended. */
  lemma PartitionCut(fat: seq<nat>, chains: set<seq<nat>>, ch: seq<nat>, k: nat, eoc: nat)
    requires Partition(fat, chains) && ch in chains && k < |ch| && eoc >= |fat|
    ensures Partition(CutAt(fat, ch, k, eoc), chains - {ch} + if k == 0 then {} else {ch[..k]})
  {
    var fat' := CutAt(fat, ch, k, eoc);
    CutLocal(fat, ch, k, eoc);
    hide *;
    if k > 0 {
      PartitionReplace(fat, fat', chains, ch, ch[..k]);
    } else {
      PartitionDrop(fat, fat', chains, ch);
      assert chains - {ch} + {} == chains - {ch};
    }
  }

  lemma CutLocal(fat: seq<nat>, ch: seq<nat>, k: nat, eoc: nat)
    requires IsChain(fat, ch) && k < |ch| && eoc >= |fat|
    ensures var fat' := CutAt(fat, ch, k, eoc);
            && Local(fat, fat', ch)
            && (k > 0 ==> Successor(fat, fat', ch, ch[..k]))
            && (k == 0 ==> forall c :: 2 <= c < |fat| && fat'[c] != 0 ==> c !in ch && fat[c] != 0)
  {
    assert ch == ch[..k] + ch[k..];
    forall c | c in ch ensures 2 <= c < |fat| && fat[c] >= 2 { OnChain(fat, ch, c); }
    if k > 0 {
      CutIsChain(fat, ch, k, eoc);
    }
  }

  lemma CutIsChain(fat: seq<nat>, ch: seq<nat>, k: nat, eoc: nat)
    requires IsChain(fat, ch) && 0 < k <= |ch| && eoc >= |fat|
    ensures IsChain(CutAt(fat, ch, k, eoc), ch[..k])
  {
    forall i, j | 0 <= i < j < |ch| ensures ch[i] != ch[j] {
      ChainDistinct(fat, ch, i, j);
    }
  }
}
