/** Whole runs on open files: a file is a byte sequence with a cursor, and files do not disturb each other. */
module Sessions {
  import opened Bytes
  import opened Geometry
  import opened Volume
  import opened Chains
  import opened ClusterMap
  import opened FileData
  import opened Allocator
  import opened OpenFile
  import FatRuns

  /** The plain thing an open file behaves like: bytes, a cursor, and what the file was opened for. Bytes that were
      only sought past are unknown until they are written. */
  datatype Plain = Plain(data: seq<Cell>, pos: nat, mayRead: bool, mayWrite: bool)

  datatype Op = OpRead(n: nat) | OpWrite(d: seq<Byte>) | OpSeek(p: nat) | OpTruncate

  /** What a caller may ask: lengths and offsets are 32 bits wide. */
  predicate Askable(op: Op) {
    match op
    case OpRead(_) => true
    case OpWrite(d) => |d| < TWO32
    case OpSeek(p) => p < TWO32
    case OpTruncate => true
  }

  /** What the caller gets back: the bytes read, the number of bytes written, the place reached, or a refusal. A write
      that fails has written some bytes before, a seek that fails leaves the cursor somewhere. */
  datatype Reply =
    | Got(d: seq<Byte>) | Wrote(n: nat) | Stopped(n: nat) | Reached(p: nat) | Failed(p: nat) | Done | Denied

  /** An internal error. */
  predicate Broken(reply: Reply) {
    reply.Stopped? || reply.Failed?
  }

  /** The place a seek is for: a file that may not be written clips it. */
  ghost function GoalOf(s: Plain, p: nat): nat {
    if p > |s.data| && !s.mayWrite then |s.data| else p
  }

  /** The reply is one the plain thing gives; the length of a write and of a stretch, and bytes never written, are left
      open. */
  ghost predicate Answers(s: Plain, op: Op, reply: Reply) {
    match op
    case OpRead(n) =>
      if s.mayRead then reply.Got? && ReadFrom(s.data, s.pos, n, reply.d) else reply == Denied
    case OpWrite(d) =>
      if s.mayWrite then (reply.Wrote? || reply.Stopped?) && reply.n <= |d| && s.pos + reply.n < TWO32
      else reply == Denied
    case OpSeek(p) =>
      var goal := GoalOf(s, p);
      if goal <= |s.data| then reply == Reached(goal)
      else (reply.Reached? && |s.data| <= reply.p <= goal) || reply.Failed?
    case OpTruncate => reply == if s.mayWrite then Done else Denied
  }

  /** A write that stopped before its end, and before the 4 GiB - 1 a file can have, or a stretch that stopped before
      its goal. */
  ghost predicate Short(s: Plain, op: Op, reply: Reply) {
    match op
    case OpRead(_) => false
    case OpWrite(d) => reply.Wrote? && reply.n < |d| && s.pos + reply.n != 0xFFFF_FFFF
    case OpSeek(p) => reply.Reached? && reply.p < GoalOf(s, p)
    case OpTruncate => false
  }

  /** The plain thing after an operation. */
  ghost function After(s: Plain, op: Op, reply: Reply): Plain
    requires s.pos <= |s.data| && Answers(s, op, reply)
  {
    match op
    case OpRead(n) => if s.mayRead then s.(pos := s.pos + |reply.d|) else s
    case OpWrite(d) =>
      if s.mayWrite then s.(data := Overwrite(s.data, s.pos, d[..reply.n]), pos := s.pos + reply.n) else s
    case OpSeek(p) => if reply.Reached? then s.(data := Padded(s.data, reply.p), pos := reply.p) else s.(pos := reply.p)
    case OpTruncate => if s.mayWrite then s.(data := s.data[..s.pos]) else s
  }

  ghost predicate NoneFree(fat: seq<nat>) {
    forall c :: 2 <= c < |fat| ==> fat[c] != 0
  }

  /** The allocation table, and the file's chain in it. */
  datatype Store = Store(fat: seq<nat>, chain: seq<nat>)

  /** A table of the volume's size with a proper chain in it. */
  ghost predicate Sized(g: Layout, v: Store) {
    3 <= |v.fat| == g.nFatent <= MaxEntries(g.fsType) && (v.chain == [] || IsChain(v.fat, v.chain))
  }

  /** The chain has room for the contents. */
  ghost predicate Housed(g: Layout, s: Plain, v: Store) {
    |s.data| <= SS * SectorCount(g, |v.chain|)
  }

  /** The chain took up free clusters, and no other entry of the table changed. */
  ghost predicate Longer(v: Store, v': Store) {
    Grew(v.fat, v.chain, v'.fat, v'.chain) && (v'.chain == [] || IsChain(v'.fat, v'.chain))
  }

  /** The chain was cut to the clusters that `n` bytes take, the rest of it is free, and no other entry changed. */
  ghost predicate Shorter(g: Layout, v: Store, v': Store, n: nat) {
    && v'.chain <= v.chain && v'.fat == Trimmed(g, v.fat, v.chain, |v'.chain|)
    && (n == 0 <==> v'.chain == [])
    && (n > 0 ==> SS * SectorCount(g, |v'.chain| - 1) < n <= SS * SectorCount(g, |v'.chain|))
  }

  /** What an operation does to the allocation table. The chain of a write or a stretch that does not fail grows by no
      more clusters than its bytes take. */
  ghost predicate TableStep(g: Layout, s: Plain, v: Store, op: Op, reply: Reply, s': Plain, v': Store) {
    && Housed(g, s', v')
    && match op
       case OpRead(_) => v' == v
       case OpSeek(p) =>
         if GoalOf(s, p) <= |s.data| then v' == v
         else Longer(v, v') && (reply.Reached? ==> Snug(g, |v.chain|, |v'.chain|, |s'.data|))
       case OpWrite(_) =>
         if s.mayWrite then Longer(v, v') && Snug(g, |v.chain|, |v'.chain|, |s'.data|) else v' == v
       case OpTruncate => if s.mayWrite && s.pos < |s.data| then Shorter(g, v, v', s.pos) else v' == v
  }

  /** One operation: the plain thing takes its step, and the table its own, from `v` to `v'`. With an honest free count
      a write or a stretch is short only if no cluster is free afterwards, and the last one is used up; and an operation
      fails only if there was an invalid entry before. */
  ghost predicate Step(g: Layout, s: Plain, v: Store, op: Op, reply: Reply, s': Plain, v': Store, honest: bool) {
    && s.pos <= |s.data| && Answers(s, op, reply) && s' == After(s, op, reply) && TableStep(g, s, v, op, reply, s', v')
    && (honest && Short(s, op, reply) ==> NoneFree(v'.fat) && s'.pos == SS * SectorCount(g, |v'.chain|))
    && (Broken(reply) ==> SomeInvalid(v.fat))
  }

  /** A run of the plain thing, with the table between the operations. */
  ghost predicate IsRun(g: Layout, trace: seq<Plain>, vols: seq<Store>, ops: seq<Op>, replies: seq<Reply>, honest: bool)
  {
    && |replies| <= |ops| && |trace| == |vols| == |replies| + 1
    && (forall i :: 0 <= i < |replies| ==>
          Step(g, trace[i], vols[i], ops[i], replies[i], trace[i + 1], vols[i + 1], honest))
  }

  // What holds over every run.

  /** A step leaves a proper chain, and makes no entry invalid. */
  lemma StepSound(g: Layout, s: Plain, v: Store, op: Op, reply: Reply, s': Plain, v': Store)
    requires Sized(g, v) && TableStep(g, s, v, op, reply, s', v')
    ensures Sized(g, v') && (SomeInvalid(v'.fat) ==> SomeInvalid(v.fat))
  {
    hide SomeInvalid, Snug, GoalOf, SectorCount;
    if v' != v {
      if op.OpTruncate? {
        ShorterSound(g, v, v', s.pos);
      } else {
        GrewValid(v.fat, v.chain, v'.fat, v'.chain);
        hide IsChain;
      }
    }
  }

  lemma ShorterSound(g: Layout, v: Store, v': Store, n: nat)
    requires Sized(g, v) && Shorter(g, v, v', n)
    ensures Sized(g, v') && (SomeInvalid(v'.fat) ==> SomeInvalid(v.fat))
  {
    var k := |v'.chain|;
    assert v'.chain == v.chain[..k];
    hide SectorCount;
    if v.chain != [] {
      TrimmedChain(g, v.fat, v.chain, k);
      hide IsChain;
      if SomeInvalid(v'.fat) {
        var x :| 2 <= x < |v'.fat| && v'.fat[x] == 1;
        assert v.fat[x] == 1;
      }
    }
  }

  /** Over a whole run no entry becomes invalid, so that on a table without one no operation fails. */
  lemma {:induction false} RunSound(g: Layout, trace: seq<Plain>, vols: seq<Store>, ops: seq<Op>, replies: seq<Reply>,
                                    honest: bool, i: nat)
    requires IsRun(g, trace, vols, ops, replies, honest) && Sized(g, vols[0]) && i <= |replies|
    ensures Sized(g, vols[i]) && (SomeInvalid(vols[i].fat) ==> SomeInvalid(vols[0].fat))
    ensures i < |replies| && Broken(replies[i]) ==> SomeInvalid(vols[0].fat)
    decreases i
  {
    hide Sized, SomeInvalid, Step, Broken, TableStep;
    if i > 0 {
      RunSound(g, trace, vols, ops, replies, honest, i - 1);
      StepTable(g, trace[i - 1], vols[i - 1], ops[i - 1], replies[i - 1], trace[i], vols[i], honest);
      StepSound(g, trace[i - 1], vols[i - 1], ops[i - 1], replies[i - 1], trace[i], vols[i]);
    }
    if i < |replies| {
      StepTable(g, trace[i], vols[i], ops[i], replies[i], trace[i + 1], vols[i + 1], honest);
    }
  }

  lemma StepTable(g: Layout, s: Plain, v: Store, op: Op, reply: Reply, s': Plain, v': Store, honest: bool)
    requires Step(g, s, v, op, reply, s', v', honest)
    ensures TableStep(g, s, v, op, reply, s', v') && (Broken(reply) ==> SomeInvalid(v.fat))
  {
    hide TableStep, Broken, SomeInvalid, Answers, After, Short;
  }

  // How far a write or a stretch gets.

  /** A write or a seek that is not refused. */
  ghost predicate Aimed(s: Plain, op: Op) {
    op.OpSeek? || (op.OpWrite? && s.mayWrite)
  }

  /** The place it is for. */
  ghost function Aim(s: Plain, op: Op): nat
    requires Aimed(s, op)
  {
    match op
    case OpWrite(d) => if s.pos + |d| < TWO32 then s.pos + |d| else 0xFFFF_FFFF
    case OpSeek(p) => GoalOf(s, p)
  }

  /** How far the file reaches with all the clusters that are free. */
  ghost function Reach(g: Layout, v: Store): nat {
    SS * SectorCount(g, |v.chain| + FreeCount(v.fat))
  }

  /** A write or a seek gets as far as it is for, or as far as the free clusters reach. */
  ghost predicate Exact(g: Layout, s: Plain, v: Store, op: Op, s': Plain) {
    Aimed(s, op) ==> s'.pos == if Aim(s, op) <= Reach(g, v) then Aim(s, op) else Reach(g, v)
  }

  /** With an honest count the outcome of an operation that does not fail is determined. */
  lemma ReachExactly(g: Layout, s: Plain, v: Store, op: Op, reply: Reply, s': Plain, v': Store)
    requires Sized(g, v) && Housed(g, s, v) && Step(g, s, v, op, reply, s', v', true) && !Broken(reply)
    ensures Exact(g, s, v, op, s')
    ensures op.OpWrite? && s.mayWrite && reply.n < |op.d| ==> s'.pos == 0xFFFF_FFFF || s'.pos == Reach(g, v)
  {
    if Aimed(s, op) {
      LengthenedCount(g, s, v, op, reply, s', v');
      FreeInZero(v'.fat, 2, |v'.fat|);
      ClusterOrder(g, |v'.chain|, |v.chain| + FreeCount(v.fat));
      ReachedWithin(s, op, reply, s');
      StepTable(g, s, v, op, reply, s', v', true);
      hide SectorCount, SomeInvalid, Overwrite, FileData.Padded, Longer, Snug, Shorter, Answers, After;
    }
  }

  /** Every write and seek of a run, on a table without an invalid entry. */
  lemma RunReaches(g: Layout, trace: seq<Plain>, vols: seq<Store>, ops: seq<Op>, replies: seq<Reply>, i: nat)
    requires IsRun(g, trace, vols, ops, replies, true) && i < |replies|
    requires Sized(g, vols[0]) && Housed(g, trace[0], vols[0]) && !SomeInvalid(vols[0].fat)
    ensures Exact(g, trace[i], vols[i], ops[i], trace[i + 1])
  {
    RunSound(g, trace, vols, ops, replies, true, i);
    hide Sized, SomeInvalid, Broken, Step, Exact;
    if i > 0 {
      StepTable(g, trace[i - 1], vols[i - 1], ops[i - 1], replies[i - 1], trace[i], vols[i], true);
    }
    ReachExactly(g, trace[i], vols[i], ops[i], replies[i], trace[i + 1], vols[i + 1]);
  }

  lemma LengthenedCount(g: Layout, s: Plain, v: Store, op: Op, reply: Reply, s': Plain, v': Store)
    requires Sized(g, v) && TableStep(g, s, v, op, reply, s', v') && Aimed(s, op)
    ensures FreeCount(v.fat) + |v.chain| == FreeCount(v'.fat) + |v'.chain|
  {
    hide Snug, GoalOf, SectorCount, Longer;
    if v' != v { LongerCount(v, v'); }
  }

  lemma LongerCount(v: Store, v': Store)
    requires Longer(v, v') && (v.chain == [] || IsChain(v.fat, v.chain))
    ensures FreeCount(v.fat) + |v.chain| == FreeCount(v'.fat) + |v'.chain|
  {
    var n := |v.chain|;
    var taken := v'.chain[n..];
    TakenOnes(v, v');
    OthersAlike(v, v');
    hide Longer, IsChain;
    TakenCount(v.fat, v'.fat, taken);
  }

  /** The clusters behind the old end were free, are in use, and are all different. */
  lemma TakenOnes(v: Store, v': Store)
    requires Longer(v, v')
    ensures |v'.fat| == |v.fat| && |v'.chain| >= |v.chain|
    ensures var taken := v'.chain[|v.chain|..];
      && (forall i :: 0 <= i < |taken| ==> 2 <= taken[i] < |v.fat| && v.fat[taken[i]] == 0 && v'.fat[taken[i]] != 0)
      && forall i, j :: 0 <= i < j < |taken| ==> taken[i] != taken[j]
  {
    var n := |v.chain|;
    var taken := v'.chain[n..];
    forall i | 0 <= i < |taken| ensures 2 <= taken[i] < |v.fat| && v.fat[taken[i]] == 0 && v'.fat[taken[i]] != 0 {
      assert v'.chain[n + i] in v'.chain;
      OnChain(v'.fat, v'.chain, v'.chain[n + i]);
    }
    forall i, j | 0 <= i < j < |taken| ensures taken[i] != taken[j] {
      ChainDistinct(v'.fat, v'.chain, n + i, n + j);
    }
  }

  lemma OthersAlike(v: Store, v': Store)
    requires Longer(v, v') && (v.chain == [] || IsChain(v.fat, v.chain))
    ensures |v'.chain| >= |v.chain| && |v'.fat| == |v.fat|
    ensures forall c :: 2 <= c < |v.fat| && c !in v'.chain[|v.chain|..] ==> (v.fat[c] == 0 <==> v'.fat[c] == 0)
  {
    assert v'.chain == v.chain + v'.chain[|v.chain|..];
    forall c | c in v.chain ensures 2 <= c < |v.fat| && v.fat[c] >= 2 && c < |v'.fat| && v'.fat[c] >= 2 {
      OnChain(v.fat, v.chain, c);
      OnChain(v'.fat, v'.chain, c);
    }
    hide IsChain;
  }

  lemma ReachedWithin(s: Plain, op: Op, reply: Reply, s': Plain)
    requires s.pos <= |s.data| && Answers(s, op, reply) && s' == After(s, op, reply) && !Broken(reply)
    requires Aimed(s, op)
    ensures s'.pos <= |s'.data| && if Short(s, op, reply) then s'.pos < Aim(s, op) else s'.pos == Aim(s, op)
  {
  }

  /** A file's chain, as a set of chains: none for a file without clusters. */
  ghost function Own(ch: seq<nat>): set<seq<nat>> {
    if ch == [] then {} else {ch}
  }

  /** The table is exactly the disjoint chains of this file and of the others. */
  ghost predicate Parted(v: Store, others: set<seq<nat>>) {
    Partition(v.fat, others + Own(v.chain)) && v.chain !in others
  }

  /** A step keeps the table a set of disjoint chains, the others staying what they are. */
  lemma StepParted(g: Layout, s: Plain, v: Store, op: Op, reply: Reply, s': Plain, v': Store, others: set<seq<nat>>)
    requires Sized(g, v) && TableStep(g, s, v, op, reply, s', v') && Parted(v, others)
    ensures Parted(v', others)
  {
    hide Parted, Longer, Shorter, Snug, GoalOf, SectorCount, Sized;
    if v' != v {
      if op.OpTruncate? {
        ShorterParted(g, v, v', s.pos, others);
      } else {
        LongerParted(v, v', others);
      }
    }
  }

  lemma LongerParted(v: Store, v': Store, others: set<seq<nat>>)
    requires Longer(v, v') && Parted(v, others)
    ensures Parted(v', others)
  {
    hide Longer, Partition, IsChain, Chains.Successor, Local;
    if |v'.chain| <= |v.chain| {
      NotLonger(v, v');
    } else {
      var chains := others + Own(v.chain);
      LongerFacts(v, v');
      NotAmong(v.fat, chains, v'.chain);
      if v.chain == [] {
        PartitionAdd(v.fat, v'.fat, chains, v'.chain);
        assert chains + {v'.chain} == others + Own(v'.chain);
      } else {
        PartitionReplace(v.fat, v'.fat, chains, v.chain, v'.chain);
        assert chains - {v.chain} + {v'.chain} == others + Own(v'.chain);
      }
    }
  }

  /** A longer chain is the old one and clusters that were free. */
  lemma LongerMembers(v: Store, v': Store)
    requires Longer(v, v')
    ensures forall c :: c in v'.chain ==> c in v.chain || (c < |v.fat| && v.fat[c] == 0)
  {
    var n := |v.chain|;
    forall c | c in v'.chain ensures c in v.chain || (c < |v.fat| && v.fat[c] == 0) {
      var i :| 0 <= i < |v'.chain| && v'.chain[i] == c;
      if i < n { assert v'.chain[..n][i] == c; }
    }
  }

  lemma LongerFacts(v: Store, v': Store)
    requires Longer(v, v') && |v'.chain| > |v.chain|
    ensures IsChain(v'.fat, v'.chain) && |v'.fat| == |v.fat| && v'.chain != []
    ensures exists c :: c in v'.chain && c < |v.fat| && v.fat[c] == 0
    ensures Local(v.fat, v'.fat, v.chain) && Chains.Successor(v.fat, v'.fat, v.chain, v'.chain)
    ensures forall c :: 2 <= c < |v.fat| && v'.fat[c] != v.fat[c] ==> c in v'.chain
    ensures v.chain == [] ==> forall c :: c in v'.chain ==> c < |v.fat| && v.fat[c] == 0
  {
    var n := |v.chain|;
    assert v'.chain == v.chain + v'.chain[n..];
    assert v'.chain[n] in v'.chain;
    LongerMembers(v, v');
    forall c | c in v'.chain ensures 2 <= c < |v.fat| { OnChain(v'.fat, v'.chain, c); }
  }

  lemma NotLonger(v: Store, v': Store)
    requires Longer(v, v') && |v'.chain| <= |v.chain|
    ensures v' == v
  {
    hide IsChain;
  }

  /** A list with a free cluster is no chain of the table. */
  lemma NotAmong(fat: seq<nat>, chains: set<seq<nat>>, ch: seq<nat>)
    requires Partition(fat, chains) && exists c :: c in ch && c < |fat| && fat[c] == 0
    ensures ch !in chains
  {
    var c :| c in ch && c < |fat| && fat[c] == 0;
    if ch in chains { OnChain(fat, ch, c); }
  }

  lemma ShorterParted(g: Layout, v: Store, v': Store, n: nat, others: set<seq<nat>>)
    requires Sized(g, v) && Shorter(g, v, v', n) && Parted(v, others)
    ensures Parted(v', others)
  {
    var k, chains := |v'.chain|, others + Own(v.chain);
    assert v'.chain == v.chain[..k];
    if k == |v.chain| {
      assert v'.chain == v.chain;
    } else {
      assert v'.fat == CutAt(v.fat, v.chain, k, EndMark(g));
      PrefixApart(v.fat, others, v.chain, k);
      hide Partition, IsChain, CutAt, SectorCount;
      PartitionCut(v.fat, chains, v.chain, k, EndMark(g));
      assert chains - {v.chain} + (if k == 0 then {} else {v.chain[..k]}) == others + Own(v'.chain);
    }
  }

  lemma PrefixApart(fat: seq<nat>, others: set<seq<nat>>, ch: seq<nat>, k: nat)
    requires Partition(fat, others + Own(ch)) && ch !in others && k < |ch|
    ensures ch[..k] !in others
  {
    hide Partition, IsChain, Disjoint;
    var p := ch[..k];
    assert k > 0 ==> ch[0] == p[0] && ch[0] in p;
    assert ch[0] in ch;
    if p in others { TwoChains(fat, others + Own(ch), p, ch); }
  }

  lemma TwoChains(fat: seq<nat>, chains: set<seq<nat>>, a: seq<nat>, b: seq<nat>)
    requires Partition(fat, chains) && a in chains && b in chains && a != b
    ensures a != [] && forall c :: c in a ==> c !in b
  {
    assert IsChain(fat, a);
  }

  /** Over a whole run the table stays a set of disjoint chains, and the chains of the other files stay. */
  lemma {:induction false} RunParted(g: Layout, trace: seq<Plain>, vols: seq<Store>, ops: seq<Op>, replies: seq<Reply>,
                                     honest: bool, others: set<seq<nat>>, i: nat)
    requires IsRun(g, trace, vols, ops, replies, honest) && Sized(g, vols[0]) && i <= |replies|
    requires Parted(vols[0], others)
    ensures Parted(vols[i], others)
    decreases i
  {
    hide Sized, Parted, SomeInvalid, Step, TableStep;
    if i > 0 {
      RunParted(g, trace, vols, ops, replies, honest, others, i - 1);
      RunSound(g, trace, vols, ops, replies, honest, i - 1);
      StepTable(g, trace[i - 1], vols[i - 1], ops[i - 1], replies[i - 1], trace[i], vols[i], honest);
      StepParted(g, trace[i - 1], vols[i - 1], ops[i - 1], replies[i - 1], trace[i], vols[i], others);
    }
  }

  lemma PartedValid(v: Store, others: set<seq<nat>>)
    requires Parted(v, others)
    ensures !SomeInvalid(v.fat)
  {
    FatRuns.NoneInvalid(v.fat, others + Own(v.chain));
  }

  // The operations, one by one.

  ghost function View(f: FileObj): Plain
    reads f
  {
    Plain(f.data, f.fptr, f.canRead, f.canWrite)
  }

  ghost function StoreOf(f: FileObj): Store
    reads f, f.fs`fat
  {
    Store(f.fs.fat, f.chain)
  }

  lemma ViewIs(f: FileObj)
    ensures var s := View(f); s.data == f.data && s.pos == f.fptr && s.mayRead == f.canRead && s.mayWrite == f.canWrite
    ensures StoreOf(f) == Store(f.fs.fat, f.chain)
  {
  }

  /** f_write as one step of the plain thing. */
  method PerformWrite(f: FileObj, d: seq<Byte>) returns (reply: Reply)
    requires f.Valid() && f.err == FR_OK && |d| < TWO32
    modifies f, f.buf, f.fs, f.fs.win
    ensures f.Valid() && (f.err == FR_OK <==> !Broken(reply))
    ensures Step(f.fs.g, old(View(f)), old(StoreOf(f)), OpWrite(d), reply, View(f), StoreOf(f), old(Honest(f.fs)))
    ensures old(Honest(f.fs)) ==> Honest(f.fs)
    ensures f.OnlyOwn()
  {
    hide *;
    InRange(f);
    ViewIs(f);
    ghost var s, v, honest := View(f), StoreOf(f), Honest(f.fs);
    var res, bw := f.Write(d);
    f.StoreFacts();
    f.MineIsOwn();
    f.MineIs();
    f.KeptIs();
    ViewIs(f);
    reply := if !f.canWrite then Denied else if res == FR_OK then Wrote(bw) else Stopped(bw);
    FullMeansNoneFree(f.fs);
    f.AtEndIs();
    BrokenIs(reply);
    WriteIsStep(f.fs.g, s, v, d, bw, reply, View(f), StoreOf(f), honest);
  }

  lemma BrokenIs(reply: Reply)
    ensures Broken(reply) <==> reply.Stopped? || reply.Failed?
  {
  }

  lemma WriteIsStep(g: Layout, s: Plain, v: Store, d: seq<Byte>, bw: nat, reply: Reply, s': Plain, v': Store,
                    honest: bool)
    requires s.pos <= |s.data| && bw <= |d| && s.pos + bw < TWO32 && s'.mayRead == s.mayRead &&
      s'.mayWrite == s.mayWrite
    requires s'.pos == s.pos + bw && s'.data == Overwrite(s.data, s.pos, d[..bw])
    requires if s.mayWrite then reply == Wrote(bw) || reply == Stopped(bw) else reply == Denied && bw == 0 && v' == v
    requires honest && reply.Wrote? && bw < |d| && s.pos + bw != 0xFFFF_FFFF ==>
      NoneFree(v'.fat) && s'.pos == SS * SectorCount(g, |v'.chain|)
    requires reply.Stopped? ==> SomeInvalid(v.fat)
    requires Grew(v.fat, v.chain, v'.fat, v'.chain) && (v'.chain == [] || IsChain(v'.fat, v'.chain))
    requires Snug(g, |v.chain|, |v'.chain|, |s'.data|) && |s'.data| <= SS * SectorCount(g, |v'.chain|)
    ensures Step(g, s, v, OpWrite(d), reply, s', v', honest)
  {
    assert bw == 0 ==> Overwrite(s.data, s.pos, d[..bw]) == s.data;
    hide Grew, SomeInvalid, NoneFree, Overwrite, IsChain, Padded, Snug, SectorCount;
  }

  /** f_truncate as one step of the plain thing. */
  method PerformTruncate(f: FileObj) returns (reply: Reply)
    requires f.Valid() && f.err == FR_OK
    modifies f, f.fs, f.fs.win
    ensures f.Valid() && f.err == FR_OK && !Broken(reply)
    ensures Step(f.fs.g, old(View(f)), old(StoreOf(f)), OpTruncate, reply, View(f), StoreOf(f), old(Honest(f.fs)))
    ensures old(Honest(f.fs)) ==> Honest(f.fs)
    ensures f.OnlyOwn()
  {
    hide *;
    InRange(f);
    ViewIs(f);
    HonestIs(f.fs);
    ghost var s, v, honest := View(f), StoreOf(f), Honest(f.fs);
    var res := f.Truncate();
    InRange(f);
    f.StoreFacts();
    ViewIs(f);
    HonestIs(f.fs);
    f.CutIsOwn();
    reply := if res == FR_OK then Done else Denied;
    BrokenIs(reply);
    NotCut(f, v.fat, v.chain);
    if res == FR_OK && s.pos < |s.data| {
      f.OpenFacts();
      f.CutPlace();
    }
    TruncateIsStep(f.fs.g, s, v, reply, View(f), StoreOf(f), honest);
  }

  lemma NotCut(f: FileObj, fat: seq<nat>, ch: seq<nat>)
    ensures Trimmed(f.fs.g, fat, ch, |ch|) == fat
  {
  }

  lemma HonestIs(fs: FatFs)
    ensures Honest(fs) <==> |fs.fat| >= 2 && FreeKnown(fs)
  {
    hide FreeKnown;
  }

  lemma TruncateIsStep(g: Layout, s: Plain, v: Store, reply: Reply, s': Plain, v': Store, honest: bool)
    requires s.pos <= |s.data| && s'.pos == s.pos && s'.mayRead == s.mayRead && s'.mayWrite == s.mayWrite
    requires s'.data == if s.mayWrite then s.data[..s.pos] else s.data
    requires reply == if s.mayWrite then Done else Denied
    requires |s'.data| <= SS * SectorCount(g, |v'.chain|)
    requires v'.chain <= v.chain && v'.fat == Trimmed(g, v.fat, v.chain, |v'.chain|)
    requires if s.mayWrite && s.pos < |s.data| then
        && (s.pos == 0 <==> v'.chain == [])
        && (s.pos > 0 ==> SS * SectorCount(g, |v'.chain| - 1) < s.pos <= SS * SectorCount(g, |v'.chain|))
      else v' == v
    ensures Step(g, s, v, OpTruncate, reply, s', v', honest)
  {
    hide NoneFree, SomeInvalid, Trimmed, SectorCount;
  }

  /** f_lseek as one step of the plain thing. */
  method PerformSeek(f: FileObj, p: nat) returns (reply: Reply)
    requires f.Valid() && f.err == FR_OK && p < TWO32
    modifies f, f.buf, f.fs, f.fs.win
    ensures f.Valid() && (f.err == FR_OK <==> !Broken(reply))
    ensures Step(f.fs.g, old(View(f)), old(StoreOf(f)), OpSeek(p), reply, View(f), StoreOf(f), old(Honest(f.fs)))
    ensures old(Honest(f.fs)) ==> Honest(f.fs)
    ensures f.OnlyOwn()
  {
    hide *;
    InRange(f);
    ViewIs(f);
    SameGoal(f, p);
    ghost var s, v, honest := View(f), StoreOf(f), Honest(f.fs);
    var res := f.Seek(p);
    f.StoreFacts();
    f.MineIsOwn();
    f.MineIs();
    ViewIs(f);
    reply := if res == FR_OK then Reached(f.fptr) else Failed(f.fptr);
    FullMeansNoneFree(f.fs);
    f.AtEndIs();
    f.KeptIs();
    BrokenIs(reply);
    SeekIsStep(f.fs.g, s, v, p, reply, View(f), StoreOf(f), honest);
  }

  lemma SameGoal(f: FileObj, p: nat)
    requires f.objsize == |f.data|
    ensures GoalOf(View(f), p) == f.Goal(f.objsize, p)
  {
  }

  lemma SeekIsStep(g: Layout, s: Plain, v: Store, p: nat, reply: Reply, s': Plain, v': Store, honest: bool)
    requires s.pos <= |s.data| && s'.mayRead == s.mayRead && s'.mayWrite == s.mayWrite
    requires (reply.Reached? || reply.Failed?) && s'.pos == reply.p
    requires s'.data == if reply.Reached? then Padded(s.data, reply.p) else s.data
    requires reply.Reached? ==> reply.p == GoalOf(s, p) || |s.data| <= reply.p < GoalOf(s, p)
    requires GoalOf(s, p) <= |s.data| ==> reply == Reached(GoalOf(s, p)) && v' == v
    requires honest && reply.Reached? && reply.p < GoalOf(s, p) ==>
      NoneFree(v'.fat) && s'.pos == SS * SectorCount(g, |v'.chain|)
    requires reply.Failed? ==> SomeInvalid(v.fat)
    requires Grew(v.fat, v.chain, v'.fat, v'.chain) && (v'.chain == [] || IsChain(v'.fat, v'.chain))
    requires reply.Reached? ==> Snug(g, |v.chain|, |v'.chain|, |s'.data|)
    requires |s'.data| <= SS * SectorCount(g, |v'.chain|)
    ensures Step(g, s, v, OpSeek(p), reply, s', v', honest)
  {
    hide Grew, SomeInvalid, NoneFree, Padded, IsChain, GoalOf, Snug, SectorCount;
  }

  /** f_read as one step of the plain thing. */
  method PerformRead(f: FileObj, n: nat) returns (reply: Reply)
    requires f.Valid() && f.err == FR_OK
    modifies f, f.buf, f.fs, f.fs.win
    ensures f.Valid() && f.err == FR_OK && !Broken(reply)
    ensures Step(f.fs.g, old(View(f)), old(StoreOf(f)), OpRead(n), reply, View(f), StoreOf(f), old(Honest(f.fs)))
    ensures old(Honest(f.fs)) ==> Honest(f.fs)
    ensures f.OnlyOwn()
  {
    hide *;
    InRange(f);
    ViewIs(f);
    ghost var s, v, honest := View(f), StoreOf(f), Honest(f.fs);
    var res, d := f.Read(n);
    InRange(f);
    f.StoreFacts();
    ViewIs(f);
    f.QuietIsOwn();
    f.QuietHonest();
    reply := if res == FR_OK then Got(d) else Denied;
    BrokenIs(reply);
    ReadIsStep(f.fs.g, s, v, n, d, reply, View(f), honest);
  }

  lemma ReadIsStep(g: Layout, s: Plain, v: Store, n: nat, d: seq<Byte>, reply: Reply, s': Plain, honest: bool)
    requires s.pos <= |s.data| && s'.data == s.data && s'.mayRead == s.mayRead && s'.mayWrite == s.mayWrite
    requires if s.mayRead then ReadFrom(s.data, s.pos, n, d) else d == []
    requires reply == (if s.mayRead then Got(d) else Denied) && s'.pos == s.pos + |d|
    requires |s'.data| <= SS * SectorCount(g, |v.chain|)
    ensures Step(g, s, v, OpRead(n), reply, s', v, honest)
  {
    hide NoneFree, SomeInvalid, ReadFrom, SectorCount;
  }

  /** One operation on an open file, chosen by value. */
  method Perform(f: FileObj, op: Op) returns (reply: Reply)
    requires f.Valid() && f.err == FR_OK
    requires Askable(op)
    modifies f, f.buf, f.fs, f.fs.win
    ensures f.Valid() && (f.err == FR_OK <==> !Broken(reply))
    ensures Step(f.fs.g, old(View(f)), old(StoreOf(f)), op, reply, View(f), StoreOf(f), old(Honest(f.fs)))
    ensures old(Honest(f.fs)) ==> Honest(f.fs)
    ensures f.OnlyOwn()
  {
    hide FileObj.Valid, Honest, FileObj.OnlyOwn, Step, Broken, StoreOf, View;
    match op
    case OpRead(n) => reply := PerformRead(f, n);
    case OpWrite(d) => reply := PerformWrite(f, d);
    case OpSeek(p) => reply := PerformSeek(f, p);
    case OpTruncate => reply := PerformTruncate(f);
  }

  /** With an honest count, a refusal of create_chain means that no cluster is free. */
  lemma FullMeansNoneFree(fs: FatFs)
    ensures Full(fs) && Honest(fs) ==> NoneFree(fs.fat)
  {
    FreeInZero(fs.fat, 2, |fs.fat|);
  }

  lemma InRange(f: FileObj)
    requires f.Valid() && f.err == FR_OK
    ensures f.fptr <= |f.data| == f.objsize
  {
  }

  /** Any sequence of reads, writes, seeks and truncations behaves like the same sequence on plain bytes with a cursor,
      for a file opened for reading, for writing, or for both. Nothing of it makes a table entry invalid, and on a table
      without an invalid entry it runs to its end without an error and, with an honest count, every write and stretch
      gets as far as there are clusters. A table that is the chains of this file and of `others` stays so. */
  method Session(f: FileObj, ops: seq<Op>, ghost others: set<seq<nat>>)
    returns (replies: seq<Reply>, ghost trace: seq<Plain>, ghost vols: seq<Store>)
    requires f.Valid() && f.err == FR_OK
    requires forall i :: 0 <= i < |ops| ==> Askable(ops[i])
    modifies f, f.buf, f.fs, f.fs.win
    ensures f.Valid()
    ensures IsRun(f.fs.g, trace, vols, ops, replies, old(Honest(f.fs)))
    ensures trace[0] == old(View(f)) && trace[|replies|] == View(f)
    ensures vols[0] == old(StoreOf(f)) && vols[|replies|] == StoreOf(f)
    ensures |replies| == |ops| || f.err != FR_OK
    ensures f.err != FR_OK || SomeInvalid(f.fs.fat) ==> old(SomeInvalid(f.fs.fat))
    ensures old(Parted(StoreOf(f), others)) ==> Parted(StoreOf(f), others) && |replies| == |ops| && f.err == FR_OK
    ensures old(Honest(f.fs) && !SomeInvalid(f.fs.fat)) ==> AllExact(f.fs.g, trace, vols, ops, |replies|)
    ensures old(Honest(f.fs)) ==> Honest(f.fs)
  {
    hide *;
    f.StoreFacts();
    ViewIs(f);
    SizedIs(f);
    replies, trace, vols := [], [View(f)], [StoreOf(f)];
    RunStarts(f.fs.g, View(f), StoreOf(f), ops, Honest(f.fs));
    while |replies| < |ops| && f.err == FR_OK
      invariant f.Valid() && RunTo(f.fs.g, trace, vols, ops, replies, old(Honest(f.fs)), View(f), StoreOf(f))
      invariant trace != [] && trace[0] == old(View(f)) && vols != [] && vols[0] == old(StoreOf(f))
      invariant |replies| <= |ops| && (f.err == FR_OK || LastBroken(replies))
      invariant old(Honest(f.fs)) ==> Honest(f.fs)
      decreases |ops| - |replies|
    {
      ghost var s, v, known := View(f), StoreOf(f), Honest(f.fs);
      var reply := Perform(f, ops[|replies|]);
      LessHonest(f.fs.g, s, v, ops[|replies|], reply, View(f), StoreOf(f), known, old(Honest(f.fs)));
      RunGrows(f.fs.g, trace, vols, ops, replies, old(Honest(f.fs)), s, v, reply, View(f), StoreOf(f));
      trace, vols := trace + [View(f)], vols + [StoreOf(f)];
      LastIs(replies, reply);
      replies := replies + [reply];
    }
    RunIs(f.fs.g, trace, vols, ops, replies, old(Honest(f.fs)), View(f), StoreOf(f));
    RunEnds(f.fs.g, trace, vols, ops, replies, old(Honest(f.fs)), others);
    ViewIs(f);
  }

  /** The first n operations of a run got as far as they could. */
  ghost predicate AllExact(g: Layout, trace: seq<Plain>, vols: seq<Store>, ops: seq<Op>, n: nat)
    requires n <= |ops| && n < |trace| && n < |vols|
  {
    forall i :: 0 <= i < n ==> Exact(g, trace[i], vols[i], ops[i], trace[i + 1])
  }

  /** The last reply was an internal error. */
  ghost predicate LastBroken(replies: seq<Reply>) {
    replies != [] && Broken(replies[|replies| - 1])
  }

  lemma LastIs(replies: seq<Reply>, reply: Reply)
    ensures LastBroken(replies + [reply]) <==> Broken(reply)
  {
    hide Broken;
  }

  lemma SizedIs(f: FileObj)
    requires f.Valid()
    ensures Sized(f.fs.g, StoreOf(f)) && Housed(f.fs.g, View(f), StoreOf(f))
  {
    f.StoreFacts();
    hide FileObj.Valid, IsChain;
  }

  /** What a whole run leaves. */
  lemma RunEnds(g: Layout, trace: seq<Plain>, vols: seq<Store>, ops: seq<Op>, replies: seq<Reply>, honest: bool,
                others: set<seq<nat>>)
    requires IsRun(g, trace, vols, ops, replies, honest) && |trace| == |vols| == |replies| + 1 && |replies| <= |ops|
    requires Sized(g, vols[0]) && Housed(g, trace[0], vols[0])
    ensures LastBroken(replies) || SomeInvalid(vols[|replies|].fat) ==> SomeInvalid(vols[0].fat)
    ensures Parted(vols[0], others) ==> Parted(vols[|replies|], others) && !SomeInvalid(vols[0].fat)
    ensures honest && !SomeInvalid(vols[0].fat) ==> AllExact(g, trace, vols, ops, |replies|)
  {
    hide IsRun, Sized, Parted, SomeInvalid, Broken, Housed, Exact;
    if honest && !SomeInvalid(vols[0].fat) {
      forall i | 0 <= i < |replies| ensures Exact(g, trace[i], vols[i], ops[i], trace[i + 1]) {
        RunReaches(g, trace, vols, ops, replies, i);
      }
    }
    RunSound(g, trace, vols, ops, replies, honest, |replies|);
    if replies != [] { RunSound(g, trace, vols, ops, replies, honest, |replies| - 1); }
    if Parted(vols[0], others) {
      PartedValid(vols[0], others);
      RunParted(g, trace, vols, ops, replies, honest, others, |replies|);
    }
  }

  /** A run that has come to a certain state. */
  ghost predicate RunTo(g: Layout, trace: seq<Plain>, vols: seq<Store>, ops: seq<Op>, replies: seq<Reply>, honest: bool,
                        s: Plain, v: Store) {
    IsRun(g, trace, vols, ops, replies, honest) && trace[|replies|] == s && vols[|replies|] == v
  }

  lemma RunIs(g: Layout, trace: seq<Plain>, vols: seq<Store>, ops: seq<Op>, replies: seq<Reply>, honest: bool, s: Plain,
              v: Store)
    requires RunTo(g, trace, vols, ops, replies, honest, s, v)
    ensures IsRun(g, trace, vols, ops, replies, honest) && |trace| == |vols| == |replies| + 1 && |replies| <= |ops|
    ensures trace[|replies|] == s && vols[|replies|] == v
  {
    hide Step;
  }

  lemma RunStarts(g: Layout, s: Plain, v: Store, ops: seq<Op>, honest: bool)
    ensures RunTo(g, [s], [v], ops, [], honest, s, v)
  {
    hide Step;
  }

  lemma RunGrows(g: Layout, trace: seq<Plain>, vols: seq<Store>, ops: seq<Op>, replies: seq<Reply>, honest: bool,
                 s: Plain, v: Store, reply: Reply, s': Plain, v': Store)
    requires RunTo(g, trace, vols, ops, replies, honest, s, v) && |replies| < |ops|
    requires Step(g, s, v, ops[|replies|], reply, s', v', honest)
    ensures RunTo(g, trace + [s'], vols + [v'], ops, replies + [reply], honest, s', v')
  {
    hide Step;
  }

  lemma LessHonest(g: Layout, s: Plain, v: Store, op: Op, reply: Reply, s': Plain, v': Store, honest: bool, less: bool)
    requires Step(g, s, v, op, reply, s', v', honest) && (less ==> honest)
    ensures Step(g, s, v, op, reply, s', v', less)
  {
    hide TableStep, After, Answers, NoneFree, SomeInvalid;
  }

  /** Two open files on one volume with no cluster in common. */
  ghost predicate Apart(f: FileObj, g: FileObj)
    reads f, g
  {
    f != g && f.fs == g.fs && f.buf != g.buf && Disjoint(f.chain, g.chain)
  }

  lemma ApartSectors(g: Layout, fat: seq<nat>, a: seq<nat>, b: seq<nat>)
    requires (a == [] || IsChain(fat, a)) && (forall c :: c in b ==> 2 <= c) && Disjoint(a, b)
    ensures Disjoint(Sectors(g, a), Sectors(g, b))
  {
    forall s | s in Sectors(g, a) ensures s !in Sectors(g, b) {
      if s in Sectors(g, b) {
        var i :| 0 <= i < |Sectors(g, a)| && Sectors(g, a)[i] == s;
        var j :| 0 <= j < |Sectors(g, b)| && Sectors(g, b)[j] == s;
        SectorsDisjoint(g, fat, a, b, i, j);
      }
    }
  }

  /** New clusters of one file were free, so they are none of another's. */
  lemma StillApart(fat0: seq<nat>, ch0: seq<nat>, ch: seq<nat>, other: seq<nat>)
    requires Disjoint(ch0, other) && (other == [] || IsChain(fat0, other))
    requires forall c :: c in ch && c < |fat0| ==> c in ch0 || fat0[c] == 0
    ensures Disjoint(ch, other)
    ensures forall c :: c in other ==> 2 <= c
  {
    forall c | c in other ensures 2 <= c && c !in ch {
      OnChain(fat0, other, c);
    }
  }

  /** An operation on one file leaves every other open file as it is. */
  method PerformBeside(f: FileObj, g: FileObj, op: Op) returns (reply: Reply)
    requires f.Valid() && g.Valid() && Apart(f, g) && f.err == FR_OK
    requires Askable(op)
    modifies f, f.buf, f.fs, f.fs.win
    ensures f.Valid() && g.Valid() && Apart(f, g) && (f.err == FR_OK <==> !Broken(reply))
    ensures Step(f.fs.g, old(View(f)), old(StoreOf(f)), op, reply, View(f), StoreOf(f), old(Honest(f.fs)))
    ensures View(g) == old(View(g)) && g.err == old(g.err) && g.chain == old(g.chain)
    ensures old(Honest(f.fs)) ==> Honest(f.fs)
  {
    f.KnownChain();
    g.KnownChain();
    ghost var fat0 := f.fs.fat;
    hide Step, StoreOf, Honest;
    reply := Perform(f, op);
    f.KnownChain();
    StillApart(fat0, old(f.chain), f.chain, g.chain);
    ApartSectors(f.fs.g, fat0, old(f.chain), g.chain);
    ApartSectors(f.fs.g, f.fs.fat, f.chain, g.chain);
    g.Undisturbed(f);
  }

  // Two files on one volume, in turns.

  datatype Two = Two(first: Plain, second: Plain)

  /** The allocation table, and the chains of both files. */
  datatype Stores = Stores(fat: seq<nat>, first: seq<nat>, second: seq<nat>)

  /** An operation on the first file or on the second. */
  datatype Turn = Turn(onSecond: bool, op: Op)

  /** What a turn works on. */
  ghost function Target(s: Two, t: Turn): Plain {
    if t.onSecond then s.second else s.first
  }

  ghost function TargetStore(v: Stores, t: Turn): Store {
    Store(v.fat, if t.onSecond then v.second else v.first)
  }

  /** One turn: the chosen file takes the step, the other one stays. */
  ghost predicate TurnStep(g: Layout, s: Two, v: Stores, t: Turn, reply: Reply, s': Two, v': Stores, honest: bool) {
    && Step(g, Target(s, t), TargetStore(v, t), t.op, reply, Target(s', t), TargetStore(v', t), honest)
    && if t.onSecond then s'.first == s.first && v'.first == v.first else s'.second == s.second && v'.second == v.second
  }

  /** A run of two plain things that know nothing of each other. */
  ghost predicate IsRunOfTwo(g: Layout, trace: seq<Two>, vols: seq<Stores>, turns: seq<Turn>, replies: seq<Reply>,
                             honest: bool) {
    && |replies| <= |turns| && |trace| == |vols| == |replies| + 1
    && (forall i :: 0 <= i < |replies| ==>
          TurnStep(g, trace[i], vols[i], turns[i], replies[i], trace[i + 1], vols[i + 1], honest))
  }

  /** Both chains are proper ones with no cluster in common, and have room for the contents. */
  ghost predicate SizedTwo(g: Layout, s: Two, v: Stores) {
    && Sized(g, Store(v.fat, v.first)) && Sized(g, Store(v.fat, v.second)) && Disjoint(v.first, v.second)
    && Housed(g, s.first, Store(v.fat, v.first)) && Housed(g, s.second, Store(v.fat, v.second))
  }

  /** The table is exactly the disjoint chains of both files and of the others. */
  ghost predicate PartedTwo(v: Stores, others: set<seq<nat>>) {
    Parted(Store(v.fat, v.first), others + Own(v.second)) && Parted(Store(v.fat, v.second), others + Own(v.first))
  }

  /** A step of one file leaves the other file's chain alone. */
  lemma StepBeside(g: Layout, s: Plain, v: Store, op: Op, reply: Reply, s': Plain, v': Store, ch: seq<nat>)
    requires Sized(g, v) && Sized(g, Store(v.fat, ch)) && Disjoint(v.chain, ch)
    requires TableStep(g, s, v, op, reply, s', v')
    ensures Sized(g, Store(v'.fat, ch)) && Disjoint(v'.chain, ch)
  {
    hide Snug, GoalOf, SectorCount;
    if v' != v && ch != [] {
      if op.OpTruncate? {
        TrimmedBeside(g, v, v', s.pos, ch);
      } else {
        GrownBeside(v, v', ch);
      }
    }
  }

  lemma TrimmedBeside(g: Layout, v: Store, v': Store, n: nat, ch: seq<nat>)
    requires Sized(g, v) && IsChain(v.fat, ch) && Disjoint(v.chain, ch) && Shorter(g, v, v', n)
    ensures |v'.fat| == |v.fat| && IsChain(v'.fat, ch) && Disjoint(v'.chain, ch)
  {
    hide SectorCount;
    if v.chain != [] {
      TrimmedChain(g, v.fat, v.chain, |v'.chain|);
      forall c | c in ch ensures 2 <= c < |v.fat| && c !in v.chain { OnChain(v.fat, ch, c); }
      ChainFrame(v.fat, v'.fat, ch);
    }
  }

  lemma GrownBeside(v: Store, v': Store, ch: seq<nat>)
    requires Longer(v, v') && IsChain(v.fat, ch) && Disjoint(v.chain, ch)
    ensures |v'.fat| == |v.fat| && IsChain(v'.fat, ch) && Disjoint(v'.chain, ch)
  {
    LongerMembers(v, v');
    forall c | c in ch ensures 2 <= c < |v.fat| && c !in v.chain && c !in v'.chain {
      OnChain(v.fat, ch, c);
    }
    ChainFrame(v.fat, v'.fat, ch);
  }

  /** A turn keeps both chains proper and apart, and the table without a new invalid entry. */
  lemma TurnSound(g: Layout, s: Two, v: Stores, t: Turn, reply: Reply, s': Two, v': Stores, honest: bool)
    requires SizedTwo(g, s, v) && TurnStep(g, s, v, t, reply, s', v', honest)
    ensures SizedTwo(g, s', v') && (SomeInvalid(v'.fat) ==> SomeInvalid(v.fat))
    ensures Broken(reply) ==> SomeInvalid(v.fat)
  {
    var w, w' := TargetStore(v, t), TargetStore(v', t);
    hide Sized, TableStep, Answers, After, Short, SomeInvalid, SectorCount;
    StepHouses(g, Target(s, t), w, t.op, reply, Target(s', t), w');
    StepSound(g, Target(s, t), w, t.op, reply, Target(s', t), w');
    StepBeside(g, Target(s, t), w, t.op, reply, Target(s', t), w', if t.onSecond then v.first else v.second);
  }

  lemma StepHouses(g: Layout, s: Plain, v: Store, op: Op, reply: Reply, s': Plain, v': Store)
    requires TableStep(g, s, v, op, reply, s', v')
    ensures Housed(g, s', v')
  {
    hide Housed;
  }

  /** The outcome of a turn is determined, too. */
  ghost predicate ExactTurn(g: Layout, s: Two, v: Stores, t: Turn, s': Two) {
    Exact(g, Target(s, t), TargetStore(v, t), t.op, Target(s', t))
  }

  lemma TurnReaches(g: Layout, s: Two, v: Stores, t: Turn, reply: Reply, s': Two, v': Stores)
    requires SizedTwo(g, s, v) && TurnStep(g, s, v, t, reply, s', v', true) && !Broken(reply)
    ensures ExactTurn(g, s, v, t, s')
  {
    hide Sized, Step, Housed, Exact, Broken;
    ReachExactly(g, Target(s, t), TargetStore(v, t), t.op, reply, Target(s', t), TargetStore(v', t));
  }

  lemma TurnParted(g: Layout, s: Two, v: Stores, t: Turn, reply: Reply, s': Two, v': Stores, honest: bool,
                   others: set<seq<nat>>)
    requires SizedTwo(g, s, v) && TurnStep(g, s, v, t, reply, s', v', honest) && PartedTwo(v, others)
    ensures PartedTwo(v', others)
  {
    var w, w' := TargetStore(v, t), TargetStore(v', t);
    var ch := if t.onSecond then v.first else v.second;
    hide Sized, TableStep, Answers, After, Short, SomeInvalid, Parted;
    StepParted(g, Target(s, t), w, t.op, reply, Target(s', t), w', others + Own(ch));
    OtherSide(w, w', ch, others);
  }

  /** Seen from the other file. */
  lemma OtherSide(w: Store, w': Store, ch: seq<nat>, others: set<seq<nat>>)
    requires Parted(Store(w.fat, ch), others + Own(w.chain)) && Parted(w', others + Own(ch))
    ensures Parted(Store(w'.fat, ch), others + Own(w'.chain))
  {
    assert others + Own(ch) + Own(w'.chain) == others + Own(w'.chain) + Own(ch);
    hide Partition;
  }

  lemma {:induction false} RunOfTwoSound(g: Layout, trace: seq<Two>, vols: seq<Stores>, turns: seq<Turn>,
                                         replies: seq<Reply>, honest: bool, i: nat)
    requires IsRunOfTwo(g, trace, vols, turns, replies, honest) && SizedTwo(g, trace[0], vols[0]) && i <= |replies|
    ensures SizedTwo(g, trace[i], vols[i]) && (SomeInvalid(vols[i].fat) ==> SomeInvalid(vols[0].fat))
    ensures i < |replies| && Broken(replies[i]) ==> SomeInvalid(vols[0].fat)
    decreases i
  {
    hide SizedTwo, TurnStep, SomeInvalid, Broken;
    if i > 0 {
      RunOfTwoSound(g, trace, vols, turns, replies, honest, i - 1);
      TurnSound(g, trace[i - 1], vols[i - 1], turns[i - 1], replies[i - 1], trace[i], vols[i], honest);
    }
    if i < |replies| {
      TurnSound(g, trace[i], vols[i], turns[i], replies[i], trace[i + 1], vols[i + 1], honest);
    }
  }

  /** Over a whole interleaving the table stays a set of disjoint chains, and the chains of the other files stay. */
  lemma {:induction false} RunOfTwoParted(g: Layout, trace: seq<Two>, vols: seq<Stores>, turns: seq<Turn>,
                                          replies: seq<Reply>, honest: bool, others: set<seq<nat>>, i: nat)
    requires IsRunOfTwo(g, trace, vols, turns, replies, honest) && SizedTwo(g, trace[0], vols[0]) && i <= |replies|
    requires PartedTwo(vols[0], others)
    ensures PartedTwo(vols[i], others)
    decreases i
  {
    hide SizedTwo, TurnStep, PartedTwo;
    if i > 0 {
      RunOfTwoParted(g, trace, vols, turns, replies, honest, others, i - 1);
      RunOfTwoSound(g, trace, vols, turns, replies, honest, i - 1);
      TurnParted(g, trace[i - 1], vols[i - 1], turns[i - 1], replies[i - 1], trace[i], vols[i], honest, others);
    }
  }

  lemma RunOfTwoReaches(g: Layout, trace: seq<Two>, vols: seq<Stores>, turns: seq<Turn>, replies: seq<Reply>, i: nat)
    requires IsRunOfTwo(g, trace, vols, turns, replies, true) && i < |replies|
    requires SizedTwo(g, trace[0], vols[0]) && !SomeInvalid(vols[0].fat)
    ensures ExactTurn(g, trace[i], vols[i], turns[i], trace[i + 1])
  {
    RunOfTwoSound(g, trace, vols, turns, replies, true, i);
    hide SizedTwo, SomeInvalid, Broken, TurnStep, ExactTurn;
    TurnReaches(g, trace[i], vols[i], turns[i], replies[i], trace[i + 1], vols[i + 1]);
  }

  /** The first n turns of a run got as far as they could. */
  ghost predicate AllTurnsExact(g: Layout, trace: seq<Two>, vols: seq<Stores>, turns: seq<Turn>, n: nat)
    requires n <= |turns| && n < |trace| && n < |vols|
  {
    forall i :: 0 <= i < n ==> ExactTurn(g, trace[i], vols[i], turns[i], trace[i + 1])
  }

  lemma RunOfTwoEnds(g: Layout, trace: seq<Two>, vols: seq<Stores>, turns: seq<Turn>, replies: seq<Reply>, honest: bool,
                     others: set<seq<nat>>)
    requires IsRunOfTwo(g, trace, vols, turns, replies, honest) && |trace| == |vols| == |replies| + 1
    requires |replies| <= |turns| && SizedTwo(g, trace[0], vols[0])
    ensures LastBroken(replies) || SomeInvalid(vols[|replies|].fat) ==> SomeInvalid(vols[0].fat)
    ensures PartedTwo(vols[0], others) ==> PartedTwo(vols[|replies|], others) && !SomeInvalid(vols[0].fat)
    ensures honest && !SomeInvalid(vols[0].fat) ==> AllTurnsExact(g, trace, vols, turns, |replies|)
  {
    hide IsRunOfTwo, SizedTwo, Parted, SomeInvalid, Broken, ExactTurn;
    if honest && !SomeInvalid(vols[0].fat) {
      forall i | 0 <= i < |replies| ensures ExactTurn(g, trace[i], vols[i], turns[i], trace[i + 1]) {
        RunOfTwoReaches(g, trace, vols, turns, replies, i);
      }
    }
    RunOfTwoSound(g, trace, vols, turns, replies, honest, |replies|);
    if replies != [] { RunOfTwoSound(g, trace, vols, turns, replies, honest, |replies| - 1); }
    if PartedTwo(vols[0], others) {
      PartedValid(Store(vols[0].fat, vols[0].first), others + Own(vols[0].second));
      RunOfTwoParted(g, trace, vols, turns, replies, honest, others, |replies|);
    }
  }

  ghost function ViewTwo(f: FileObj, g: FileObj): Two
    reads f, g
  {
    Two(View(f), View(g))
  }

  ghost function StoresOf(f: FileObj, g: FileObj): Stores
    reads f, g, f.fs`fat
  {
    Stores(f.fs.fat, f.chain, g.chain)
  }

  /** Both files are open and have no cluster in common. */
  ghost predicate Ready(f: FileObj, g: FileObj)
    reads f, g, f.buf, g.buf, f.fs, f.fs.win, g.fs, g.fs.win
  {
    f.Valid() && g.Valid() && Apart(f, g)
  }

  method TakeTurn(f: FileObj, g: FileObj, t: Turn) returns (reply: Reply)
    requires Ready(f, g) && f.err == FR_OK && g.err == FR_OK
    requires Askable(t.op)
    modifies f, g, f.buf, g.buf, f.fs, f.fs.win
    ensures Ready(f, g) && (f.err == FR_OK && g.err == FR_OK <==> !Broken(reply))
    ensures TurnStep(f.fs.g, old(ViewTwo(f, g)), old(StoresOf(f, g)), t, reply, ViewTwo(f, g), StoresOf(f, g),
      old(Honest(f.fs)))
    ensures old(Honest(f.fs)) ==> Honest(f.fs)
  {
    hide FileObj.Valid, Step, SomeInvalid, Honest, Broken;
    if t.onSecond {
      ApartBack(f, g);
      reply := PerformBeside(g, f, t.op);
      ApartBack(g, f);
    } else {
      reply := PerformBeside(f, g, t.op);
    }
  }

  lemma ApartBack(f: FileObj, g: FileObj)
    requires Apart(f, g)
    ensures Apart(g, f)
  {
  }

  /** Any interleaving of operations on two open files with separate chains behaves like the same operations on two
      plain byte sequences. On a table without an invalid entry it runs to its end without an error and, with an honest
      count, every write and stretch gets as far as there are clusters. A table that is the chains of both files and of
      `others` stays so. */
  method Interleaved(f: FileObj, g: FileObj, turns: seq<Turn>, ghost others: set<seq<nat>>)
    returns (replies: seq<Reply>, ghost trace: seq<Two>, ghost vols: seq<Stores>)
    requires Ready(f, g) && f.err == FR_OK && g.err == FR_OK
    requires forall i :: 0 <= i < |turns| ==> Askable(turns[i].op)
    modifies f, g, f.buf, g.buf, f.fs, f.fs.win
    ensures Ready(f, g) && IsRunOfTwo(f.fs.g, trace, vols, turns, replies, old(Honest(f.fs)))
    ensures trace[0] == old(ViewTwo(f, g)) && trace[|replies|] == ViewTwo(f, g)
    ensures vols[0] == old(StoresOf(f, g)) && vols[|replies|] == StoresOf(f, g)
    ensures |replies| == |turns| || f.err != FR_OK || g.err != FR_OK
    ensures f.err != FR_OK || g.err != FR_OK || SomeInvalid(f.fs.fat) ==> old(SomeInvalid(f.fs.fat))
    ensures old(PartedTwo(StoresOf(f, g), others)) ==>
      PartedTwo(StoresOf(f, g), others) && |replies| == |turns| && f.err == FR_OK && g.err == FR_OK
    ensures old(Honest(f.fs) && !SomeInvalid(f.fs.fat)) ==> AllTurnsExact(f.fs.g, trace, vols, turns, |replies|)
    ensures old(Honest(f.fs)) ==> Honest(f.fs)
  {
    hide *;
    SizedTwoIs(f, g);
    StoresIs(f, g);
    replies, trace, vols := [], [ViewTwo(f, g)], [StoresOf(f, g)];
    TwoStart(f.fs.g, ViewTwo(f, g), StoresOf(f, g), turns, Honest(f.fs));
    while |replies| < |turns| && f.err == FR_OK && g.err == FR_OK
      invariant Ready(f, g)
      invariant TwoTo(f.fs.g, trace, vols, turns, replies, old(Honest(f.fs)), ViewTwo(f, g), StoresOf(f, g))
      invariant trace != [] && trace[0] == old(ViewTwo(f, g)) && vols != [] && vols[0] == old(StoresOf(f, g))
      invariant |replies| <= |turns| && ((f.err == FR_OK && g.err == FR_OK) || LastBroken(replies))
      invariant old(Honest(f.fs)) ==> Honest(f.fs)
      decreases |turns| - |replies|
    {
      ghost var s, v, known := ViewTwo(f, g), StoresOf(f, g), Honest(f.fs);
      var reply := TakeTurn(f, g, turns[|replies|]);
      LessHonestTurn(f.fs.g, s, v, turns[|replies|], reply, ViewTwo(f, g), StoresOf(f, g), known, old(Honest(f.fs)));
      TwoGrow(f.fs.g, trace, vols, turns, replies, old(Honest(f.fs)), s, v, reply, ViewTwo(f, g), StoresOf(f, g));
      trace, vols := trace + [ViewTwo(f, g)], vols + [StoresOf(f, g)];
      LastIs(replies, reply);
      replies := replies + [reply];
    }
    TwoIs(f.fs.g, trace, vols, turns, replies, old(Honest(f.fs)), ViewTwo(f, g), StoresOf(f, g));
    RunOfTwoEnds(f.fs.g, trace, vols, turns, replies, old(Honest(f.fs)), others);
    StoresIs(f, g);
  }

  lemma StoresIs(f: FileObj, g: FileObj)
    ensures StoresOf(f, g) == Stores(f.fs.fat, f.chain, g.chain)
  {
  }

  lemma SizedTwoIs(f: FileObj, g: FileObj)
    requires Ready(f, g)
    ensures SizedTwo(f.fs.g, ViewTwo(f, g), StoresOf(f, g))
  {
    f.StoreFacts();
    g.StoreFacts();
    hide FileObj.Valid, IsChain;
  }

  ghost predicate TwoTo(g: Layout, trace: seq<Two>, vols: seq<Stores>, turns: seq<Turn>, replies: seq<Reply>,
                        honest: bool, s: Two, v: Stores) {
    IsRunOfTwo(g, trace, vols, turns, replies, honest) && trace[|replies|] == s && vols[|replies|] == v
  }

  lemma TwoIs(g: Layout, trace: seq<Two>, vols: seq<Stores>, turns: seq<Turn>, replies: seq<Reply>, honest: bool,
              s: Two, v: Stores)
    requires TwoTo(g, trace, vols, turns, replies, honest, s, v)
    ensures IsRunOfTwo(g, trace, vols, turns, replies, honest) && |trace| == |vols| == |replies| + 1
    ensures |replies| <= |turns| && trace[|replies|] == s && vols[|replies|] == v
  {
    hide TurnStep;
  }

  lemma TwoStart(g: Layout, s: Two, v: Stores, turns: seq<Turn>, honest: bool)
    ensures TwoTo(g, [s], [v], turns, [], honest, s, v)
  {
    hide TurnStep;
  }

  lemma TwoGrow(g: Layout, trace: seq<Two>, vols: seq<Stores>, turns: seq<Turn>, replies: seq<Reply>, honest: bool,
                s: Two, v: Stores, reply: Reply, s': Two, v': Stores)
    requires TwoTo(g, trace, vols, turns, replies, honest, s, v) && |replies| < |turns|
    requires TurnStep(g, s, v, turns[|replies|], reply, s', v', honest)
    ensures TwoTo(g, trace + [s'], vols + [v'], turns, replies + [reply], honest, s', v')
  {
    hide TurnStep;
  }

  lemma LessHonestTurn(g: Layout, s: Two, v: Stores, t: Turn, reply: Reply, s': Two, v': Stores, honest: bool,
                       less: bool)
    requires TurnStep(g, s, v, t, reply, s', v', honest) && (less ==> honest)
    ensures TurnStep(g, s, v, t, reply, s', v', less)
  {
    hide TableStep, After, Answers, NoneFree, SomeInvalid;
  }
}
