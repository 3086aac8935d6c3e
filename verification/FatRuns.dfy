/** Whole runs of the allocator: the table stays a set of disjoint chains, and the free count stays exact. */
module FatRuns {
  import opened Bytes
  import opened Geometry
  import opened FatEntries
  import opened Volume
  import opened Chains
  import opened Allocator

  /** What the callers of remove_chain hand over: the head of a chain, or a cluster with the one that links to it. */
  ghost predicate Removable(fat: seq<nat>, clst: nat, pclst: nat) {
    && 2 <= clst < |fat| && fat[clst] != 0
    && if pclst == 0 then forall c :: 2 <= c < |fat| ==> fat[c] != clst
       else 2 <= pclst < |fat| && fat[pclst] == clst
  }

  /** A used cluster is on a chain. */
  lemma ChainOf(fat: seq<nat>, chains: set<seq<nat>>, c: nat) returns (ch: seq<nat>, k: nat)
    requires Partition(fat, chains) && 2 <= c < |fat| && fat[c] != 0
    ensures ch in chains && k < |ch| && ch[k] == c
  {
    assert OnSome(chains, c);
    ch :| ch in chains && c in ch;
    k :| 0 <= k < |ch| && ch[k] == c;
  }

  /** create_chain on a partitioned table: one chain more, or one chain longer. */
  lemma CreateKeeps(g: Layout, fat: seq<nat>, chains: set<seq<nat>>, clst: nat, r: nat)
    returns (chains': set<seq<nat>>, ch: seq<nat>)
    requires Partition(fat, chains) && |fat| == g.nFatent <= MaxEntries(g.fsType)
    requires Growing(g, fat, clst) && clst < |fat| && 2 <= r < |fat| && fat[r] == 0
    ensures Partition(Grown(g, fat, clst, r), chains')
    ensures clst == 0 ==> chains' == chains + {[r]}
    ensures clst != 0 ==> ch in chains && ch[|ch| - 1] == clst && chains' == chains - {ch} + {ch + [r]}
  {
    if clst == 0 {
      ch := [r];
      chains' := chains + {[r]};
      PartitionNew(fat, chains, r, EndMark(g));
    } else {
      var k: nat;
      ch, k := ChainOf(fat, chains, clst);
      if k < |ch| - 1 { LinkOf(fat, ch, k); }
      chains' := chains - {ch} + {ch + [r]};
      PartitionStretch(fat, chains, ch, r, EndMark(g));
    }
  }

  /** remove_chain on a partitioned table: exactly the clusters from the given one on become free, the part before it is
      properly ended, and the other chains stay. */
  lemma RemoveKeeps(g: Layout, fat: seq<nat>, chains: set<seq<nat>>, clst: nat, pclst: nat)
    returns (chains': set<seq<nat>>, ch: seq<nat>, k: nat)
    requires Partition(fat, chains) && |fat| == g.nFatent <= MaxEntries(g.fsType) && Removable(fat, clst, pclst)
    ensures ch in chains && k < |ch| && ch[k] == clst && (k == 0 <==> pclst == 0)
    ensures Freed(Ended(g, fat, pclst), clst) == (CutAt(fat, ch, k, EndMark(g)), true)
    ensures chains' == chains - {ch} + (if k == 0 then {} else {ch[..k]})
    ensures Partition(CutAt(fat, ch, k, EndMark(g)), chains')
  {
    hide Partition, Removable, CutAt, IsChain;
    if pclst == 0 {
      ch, k := HeadOf(fat, chains, clst);
      FreedChain(fat, ch);
      CutAtHead(fat, ch, 0, EndMark(g));
    } else {
      ch, k := LinkedFrom(fat, chains, clst, pclst);
      FreedTail(fat, ch, k, EndMark(g));
    }
    chains' := chains - {ch} + if k == 0 then {} else {ch[..k]};
    PartitionCut(fat, chains, ch, k, EndMark(g));
  }

  lemma CutAtHead(fat: seq<nat>, ch: seq<nat>, a: nat, b: nat)
    ensures CutAt(fat, ch, 0, a) == CutAt(fat, ch, 0, b)
  {
  }

  lemma LinkOf(fat: seq<nat>, ch: seq<nat>, k: nat)
    requires IsChain(fat, ch) && k < |ch| - 1
    ensures 2 <= ch[k] < |fat| && fat[ch[k]] == ch[k + 1] < |fat|
  {
  }

  /** A cluster that nothing links to is the head of its chain. */
  lemma HeadOf(fat: seq<nat>, chains: set<seq<nat>>, clst: nat) returns (ch: seq<nat>, k: nat)
    requires Partition(fat, chains) && Removable(fat, clst, 0)
    ensures ch in chains && IsChain(fat, ch) && k == 0 && ch[0] == clst
  {
    ch, k := ChainOf(fat, chains, clst);
    if k > 0 { LinkOf(fat, ch, k - 1); }
  }

  lemma LinkedFrom(fat: seq<nat>, chains: set<seq<nat>>, clst: nat, pclst: nat) returns (ch: seq<nat>, k: nat)
    requires Partition(fat, chains) && pclst != 0 && Removable(fat, clst, pclst)
    ensures ch in chains && IsChain(fat, ch) && 0 < k < |ch| && ch[k] == clst && ch[k - 1] == pclst
  {
    ch, k := ChainOf(fat, chains, pclst);
    if k < |ch| - 1 { LinkOf(fat, ch, k); }
    k := k + 1;
  }

  /** A successful call of the allocator. */
  datatype Call = Create(clst: nat, r: nat) | Remove(clst: nat, pclst: nat)

  ghost predicate Allowed(g: Layout, fat: seq<nat>, c: Call) {
    match c
    case Create(clst, r) => Growing(g, fat, clst) && 2 <= r < |fat| && fat[r] == 0
    case Remove(clst, pclst) => Removable(fat, clst, pclst)
  }

  ghost function Effect(g: Layout, fat: seq<nat>, c: Call): seq<nat>
    requires |fat| >= 2 && Allowed(g, fat, c)
  {
    match c
    case Create(clst, r) => Grown(g, fat, clst, r)
    case Remove(clst, pclst) => Freed(Ended(g, fat, pclst), clst).0
  }

  ghost predicate IsRun(g: Layout, fats: seq<seq<nat>>, calls: seq<Call>) {
    && |fats| == |calls| + 1
    && (forall i :: 0 <= i < |fats| ==> |fats[i]| == g.nFatent)
    && 3 <= g.nFatent <= MaxEntries(g.fsType)
    && (forall i :: 0 <= i < |calls| ==> Allowed(g, fats[i], calls[i]) && fats[i + 1] == Effect(g, fats[i], calls[i]))
  }

  /** Whatever the callers do, in whatever order: the table stays a set of disjoint acyclic chains. */
  lemma {:induction false} RunKeepsChains(g: Layout, fats: seq<seq<nat>>, calls: seq<Call>, chains: set<seq<nat>>)
    returns (chains': set<seq<nat>>)
    requires IsRun(g, fats, calls) && Partition(fats[0], chains)
    ensures Partition(fats[|calls|], chains')
    decreases |calls|
  {
    if calls == [] {
      chains' := chains;
    } else {
      var m := |calls| - 1;
      RunPrefix(g, fats, calls);
      var before := RunKeepsChains(g, fats[..m + 1], calls[..m], chains);
      assert Partition(fats[m], before);
      match calls[m] {
        case Create(clst, r) =>
          var ch;
          chains', ch := CreateKeeps(g, fats[m], before, clst, r);
        case Remove(clst, pclst) =>
          var ch, k;
          chains', ch, k := RemoveKeeps(g, fats[m], before, clst, pclst);
      }
    }
  }

  lemma RunPrefix(g: Layout, fats: seq<seq<nat>>, calls: seq<Call>)
    requires IsRun(g, fats, calls) && calls != []
    ensures IsRun(g, fats[..|calls|], calls[..|calls| - 1])
    ensures Allowed(g, fats[|calls| - 1], calls[|calls| - 1])
    ensures fats[|calls|] == Effect(g, fats[|calls| - 1], calls[|calls| - 1])
  {
    var m := |calls| - 1;
    assert fats[m + 1] == Effect(g, fats[m], calls[m]);
  }

  /** No chain holds an invalid entry. */
  lemma NoneInvalid(fat: seq<nat>, chains: set<seq<nat>>)
    requires Partition(fat, chains)
    ensures !SomeInvalid(fat)
  {
    forall x | 2 <= x < |fat| && fat[x] != 0 ensures fat[x] != 1 {
      var ch, k := ChainOf(fat, chains, x);
      OnChain(fat, ch, x);
    }
  }

  /** create_chain with an honest free count: it fails exactly when no cluster is free, wherever the search starts, and
      otherwise the table is partitioned again. */
  method CreateOn(fs: FatFs, clst: nat, ghost chains: set<seq<nat>>) returns (r: nat, ghost chains': set<seq<nat>>)
    requires fs.Valid() && FreeKnown(fs) && Partition(fs.fat, chains) && Growing(fs.g, fs.fat, clst)
    modifies fs`disk, fs`wflag, fs`winsect, fs`img, fs`fat, fs`freeClst, fs`lastClst, fs`fsiFlag, fs.win
    ensures fs.Valid() && FreeKnown(fs) && Partition(fs.fat, chains')
    ensures r == 0 <==> FreeCount(old(fs.fat)) == 0
    ensures r == 0 ==> fs.fat == old(fs.fat) && chains' == chains
    ensures r != 0 ==> 2 <= r < fs.g.nFatent && old(fs.fat)[r] == 0 && fs.fat == Grown(fs.g, old(fs.fat), clst, r)
  {
    ghost var fat := fs.fat;
    NoneInvalid(fat, chains);
    FreeInZero(fat, 2, |fat|);
    assert fs.g.nFatent == |fat| && 3 <= fs.g.nFatent <= MaxEntries(fs.g.fsType);
    hide FatFs.Valid, Partition;
    r := CreateChain(fs, clst);
    chains' := chains;
    if r >= 2 {
      ghost var ch;
      chains', ch := CreateKeeps(fs.g, fat, chains, clst, r);
    }
  }

  /** remove_chain for a well-behaved caller. */
  method RemoveOn(fs: FatFs, clst: nat, pclst: nat, ghost chains: set<seq<nat>>)
    returns (res: FResult, ghost chains': set<seq<nat>>, ghost ch: seq<nat>, ghost k: nat)
    requires fs.Valid() && FreeKnown(fs) && Partition(fs.fat, chains) && Removable(fs.fat, clst, pclst)
    modifies fs`disk, fs`wflag, fs`winsect, fs`img, fs`fat, fs`freeClst, fs`fsiFlag, fs.win
    ensures fs.Valid() && FreeKnown(fs) && Partition(fs.fat, chains') && res == FR_OK
    ensures ch in chains && k < |ch| && ch[k] == clst && chains' == chains - {ch} + (if k == 0 then {} else {ch[..k]})
    ensures forall c :: 2 <= c < fs.g.nFatent ==> (fs.fat[c] == 0 <==> old(fs.fat)[c] == 0 || c in ch[k..])
  {
    assert fs.g.nFatent == |fs.fat| <= MaxEntries(fs.g.fsType);
    chains', ch, k := RemoveKeeps(fs.g, fs.fat, chains, clst, pclst);
    EndMarkPositive(fs.g);
    hide FatFs.Valid, Partition, IsChain;
    res := RemoveChain(fs, clst, pclst);
  }

  lemma EndMarkPositive(g: Layout)
    ensures EndMark(g) > 0
  {
  }

  /** f_getfree counts the sectors of a 16- or 28-bit table from entry 0 on: it is exact just when entries 0 and 1 are
      in use, as the media and the format leave them. */
  lemma SectorCountExact(fat: seq<nat>)
    requires |fat| >= 2
    ensures FreeIn(fat, 0, |fat|) == FreeCount(fat) <==> fat[0] != 0 && fat[1] != 0
  {
    FreeInSplit(fat, |fat|);
  }

  /** A table of one used cluster whose entry 0 is free: one is counted, though none is free. */
  lemma CountedOneMore()
    ensures var fat := [0, 0xFFFF, 0xFFFF]; FreeIn(fat, 0, 3) == 1 && FreeCount(fat) == 0
  {
    var fat: seq<nat> := [0, 0xFFFF, 0xFFFF];
    FreeInSplit(fat, 3);
    FreeInZero(fat, 2, 3);
  }

  lemma {:induction false} FreeInSplit(fat: seq<nat>, hi: nat)
    requires 2 <= hi <= |fat|
    ensures FreeIn(fat, 0, hi) == FreeIn(fat, 2, hi) + (if fat[0] == 0 then 1 else 0) + (if fat[1] == 0 then 1 else 0)
    decreases hi
  {
    if hi > 2 {
      FreeInSplit(fat, hi - 1);
    } else {
      assert FreeIn(fat, 0, 1) == FreeIn(fat, 0, 0) + if fat[0] == 0 then 1 else 0;
    }
  }

  /** f_getfree on a partitioned table whose entries 0 and 1 are in use: it succeeds with the exact count, and the count
      is known from then on. */
  method CountOn(fs: FatFs, ghost chains: set<seq<nat>>) returns (res: FResult, nclst: nat)
    requires fs.Valid() && FreeKnown(fs) && Partition(fs.fat, chains) && fs.fat[0] != 0 && fs.fat[1] != 0
    modifies fs`disk, fs`wflag, fs`winsect, fs`freeClst, fs`fsiFlag, fs.win
    ensures fs.Valid() && FreeKnown(fs) && res == FR_OK
    ensures nclst == FreeCount(fs.fat) == fs.freeClst
  {
    NoneInvalid(fs.fat, chains);
    SectorCountExact(fs.fat);
    assert fs.g.nFatent == |fs.fat| >= 3;
    hide FatFs.Valid, Partition;
    res, nclst := GetFree(fs);
  }
}
