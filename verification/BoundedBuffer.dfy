/** The bounded buffer demo: producers and consumers over two counting semaphores, a mutex and a ring,
    as a machine that runs one statement of one task at a time. */
module BoundedBuffer {
  const SIZE := 8

  datatype Producing = Count | TakeEmpty | TakeMutex | Write | Advance | GiveMutex | GiveFull
  datatype Consuming = TakeFull | LockMutex | Read | Step | FreeMutex | GiveEmpty

  datatype Task = Producer(p: Producing, item: int) | Consumer(c: Consuming, item: int)

  /** An item with the task that produced it. */
  datatype Item = Item(task: nat, value: int)

  /** The shared variables, the tasks, and the history: all items that entered and left the ring so far. */
  datatype State = State(buffer: seq<int>, inp: int, out: int, empty: nat, full: nat, holder: int,
                         tasks: seq<Task>, entered: seq<Item>, left: seq<int>)

  /** xSemaphoreGive on a counting semaphore: refused at the maximum count. */
  function Give(count: nat): nat {
    if count < SIZE then count + 1 else count
  }

  /** Task `t` is not blocked. */
  predicate Enabled(s: State, t: nat) {
    t < |s.tasks| && match s.tasks[t]
      case Producer(TakeEmpty, _) => s.empty > 0
      case Producer(TakeMutex, _) => s.holder == -1
      case Consumer(TakeFull, _) => s.full > 0
      case Consumer(LockMutex, _) => s.holder == -1
      case _ => true
  }

  /** Task `t` runs its next statement. */
  function Next(s: State, t: nat): State
    requires Enabled(s, t) && |s.buffer| == SIZE && 0 <= s.inp < SIZE && 0 <= s.out < SIZE
  {
    match s.tasks[t]
    case Producer(p, item) => (
      match p
      case Count => At(s, t, Producer(TakeEmpty, item + 1))
      case TakeEmpty => At(s, t, Producer(TakeMutex, item)).(empty := s.empty - 1)
      case TakeMutex => At(s, t, Producer(Write, item)).(holder := t)
      case Write =>
        At(s, t, Producer(Advance, item)).(buffer := s.buffer[s.inp := item], entered := s.entered + [Item(t, item)])
      case Advance => At(s, t, Producer(GiveMutex, item)).(inp := (s.inp + 1) % SIZE)
      case GiveMutex => At(s, t, Producer(GiveFull, item)).(holder := -1)
      case GiveFull => At(s, t, Producer(Count, item)).(full := Give(s.full)))
    case Consumer(c, item) => (
      match c
      case TakeFull => At(s, t, Consumer(LockMutex, item)).(full := s.full - 1)
      case LockMutex => At(s, t, Consumer(Read, item)).(holder := t)
      case Read => At(s, t, Consumer(Step, s.buffer[s.out])).(left := s.left + [s.buffer[s.out]])
      case Step => At(s, t, Consumer(FreeMutex, item)).(out := (s.out + 1) % SIZE)
      case FreeMutex => At(s, t, Consumer(GiveEmpty, item)).(holder := -1)
      case GiveEmpty => At(s, t, Consumer(TakeFull, item)).(empty := Give(s.empty)))
  }

  function At(s: State, t: nat, task: Task): State
    requires t < |s.tasks|
  {
    s.(tasks := s.tasks[t := task])
  }

  predicate Init(s: State) {
    && |s.buffer| == SIZE && s.inp == 0 && s.out == 0
    && s.empty == 8 && s.full == 0 && s.holder == -1
    && s.entered == [] && s.left == []
    && forall t :: 0 <= t < |s.tasks| ==>
      s.tasks[t] == Producer(Count, 0) || (s.tasks[t].Consumer? && s.tasks[t].c == TakeFull)
  }

  predicate Wellformed(s: State) {
    |s.buffer| == SIZE && 0 <= s.inp < SIZE && 0 <= s.out < SIZE
  }

  /** Some task that is not blocked runs its next statement. */
  ghost predicate OneStep(s: State, s': State) {
    exists t :: Enabled(s, t) && Wellformed(s) && s' == Next(s, t)
  }

  /** Any interleaving from the start. */
  ghost predicate Behaviour(b: seq<State>) {
    b != [] && Init(b[0]) && forall i :: 0 <= i < |b| - 1 ==> OneStep(b[i], b[i + 1])
  }

  // Weights of a task: the slots it has taken that are still free, or filled, or being emptied.

  /** 1 for a task that holds a slot with nothing unread in it. */
  function FreeSlot(t: Task): nat {
    match t
    case Producer(TakeMutex, _) => 1
    case Producer(Write, _) => 1
    case Consumer(Step, _) => 1
    case Consumer(FreeMutex, _) => 1
    case Consumer(GiveEmpty, _) => 1
    case _ => 0
  }

  /** 1 for a task that holds a slot with an unread item. */
  function UsedSlot(t: Task): nat {
    match t
    case Producer(Advance, _) => 1
    case Producer(GiveMutex, _) => 1
    case Producer(GiveFull, _) => 1
    case Consumer(LockMutex, _) => 1
    case Consumer(Read, _) => 1
    case _ => 0
  }

  predicate Critical(t: Task) {
    if t.Producer? then t.p in {Write, Advance, GiveMutex} else t.c in {Read, Step, FreeMutex}
  }

  function Sum(ts: seq<Task>, f: Task -> nat): nat {
    if ts == [] then 0 else f(ts[0]) + Sum(ts[1..], f)
  }

  lemma {:induction false} SumUpdate(ts: seq<Task>, f: Task -> nat, t: nat, x: Task)
    requires t < |ts|
    ensures Sum(ts[t := x], f) == Sum(ts, f) - f(ts[t]) + f(x) && Sum(ts, f) >= f(ts[t])
    decreases |ts|
  {
    if t > 0 {
      SumUpdate(ts[1..], f, t - 1, x);
      assert ts[t := x][1..] == ts[1..][t - 1 := x];
    }
  }

  lemma {:induction false} SumZero(ts: seq<Task>, f: Task -> nat)
    requires forall t :: 0 <= t < |ts| ==> f(ts[t]) == 0
    ensures Sum(ts, f) == 0
  {
    if ts != [] {
      SumZero(ts[1..], f);
    }
  }

  function Unread(s: State): int {
    |s.entered| - |s.left|
  }

  /** 1 while a producer is between its write and the advance of `in`. */
  function InLag(s: State): int {
    if 0 <= s.holder < |s.tasks| && s.tasks[s.holder].Producer? && s.tasks[s.holder].p == Advance then 1 else 0
  }

  function OutLag(s: State): int {
    if 0 <= s.holder < |s.tasks| && s.tasks[s.holder].Consumer? && s.tasks[s.holder].c == Step then 1 else 0
  }

  ghost predicate Slots(s: State) {
    && s.full + Sum(s.tasks, UsedSlot) == Unread(s)
    && s.empty + Sum(s.tasks, FreeSlot) == SIZE - Unread(s)
  }

  ghost predicate Exclusion(s: State) {
    && -1 <= s.holder < |s.tasks|
    && forall t :: 0 <= t < |s.tasks| ==> (Critical(s.tasks[t]) <==> s.holder == t)
  }

  /** The ring holds the unread items, and the indices are where the history says. */
  ghost predicate Ring(s: State) {
    && |s.buffer| == SIZE && 0 <= Unread(s) <= SIZE
    && 0 <= s.inp < SIZE && 0 <= s.out < SIZE
    && s.inp == (|s.entered| - InLag(s)) % SIZE && s.out == (|s.left| - OutLag(s)) % SIZE
    && (forall k :: |s.left| <= k < |s.entered| ==> s.buffer[k % SIZE] == s.entered[k].value)
  }

  /** First in, first out. */
  ghost predicate Fifo(s: State) {
    |s.left| <= |s.entered| && forall k :: 0 <= k < |s.left| ==> s.left[k] == s.entered[k].value
  }

  function From(e: seq<Item>, t: nat): nat {
    if e == [] then 0 else From(e[..|e| - 1], t) + if e[|e| - 1].task == t then 1 else 0
  }

  /** A producer that has counted but not yet written. */
  function Ahead(t: Task): nat {
    if t.Producer? && t.p in {TakeEmpty, TakeMutex, Write} then 1 else 0
  }

  /** The items of each producer are 1, 2, 3, ... in the order they entered. */
  ghost predicate Numbered(s: State) {
    && (forall k :: 0 <= k < |s.entered| ==> s.entered[k].value == From(s.entered[..k], s.entered[k].task) + 1)
    && (forall k :: 0 <= k < |s.entered| ==> s.entered[k].task < |s.tasks| && s.tasks[s.entered[k].task].Producer?)
    && (forall t :: 0 <= t < |s.tasks| && s.tasks[t].Producer? ==>
        s.tasks[t].item == From(s.entered, t) + Ahead(s.tasks[t]))
  }

  ghost predicate Inv(s: State) {
    Slots(s) && Exclusion(s) && Ring(s) && Fifo(s) && Numbered(s)
  }

  lemma InitInv(s: State)
    requires Init(s)
    ensures Inv(s)
  {
    SumZero(s.tasks, FreeSlot);
    SumZero(s.tasks, UsedSlot);
  }

  /** A give is never refused. */
  lemma GiveAdds(s: State, t: nat)
    requires Slots(s) && t < |s.tasks|
    ensures s.tasks[t].Producer? && s.tasks[t].p == GiveFull ==> s.full < SIZE
    ensures s.tasks[t].Consumer? && s.tasks[t].c == GiveEmpty ==> s.empty < SIZE
  {
    SumUpdate(s.tasks, FreeSlot, t, s.tasks[t]);
    SumUpdate(s.tasks, UsedSlot, t, s.tasks[t]);
  }

  /** A step changes the task that takes it, and no other; a producer stays one. */
  lemma OwnStep(s: State, t: nat)
    requires Enabled(s, t) && Wellformed(s)
    ensures |Next(s, t).tasks| == |s.tasks| && Next(s, t).tasks == s.tasks[t := Next(s, t).tasks[t]]
    ensures Next(s, t).tasks[t].Producer? == s.tasks[t].Producer?
  {
  }

  lemma UsedKept(s: State, t: nat)
    requires Slots(s) && Enabled(s, t) && Wellformed(s)
    ensures var s' := Next(s, t); s'.full + Sum(s'.tasks, UsedSlot) == Unread(s')
  {
    hide Sum;
    GiveAdds(s, t);
    OwnStep(s, t);
    SumUpdate(s.tasks, UsedSlot, t, Next(s, t).tasks[t]);
  }

  lemma FreeKept(s: State, t: nat)
    requires Slots(s) && Enabled(s, t) && Wellformed(s)
    ensures var s' := Next(s, t); s'.empty + Sum(s'.tasks, FreeSlot) == SIZE - Unread(s')
  {
    hide Sum;
    GiveAdds(s, t);
    OwnStep(s, t);
    SumUpdate(s.tasks, FreeSlot, t, Next(s, t).tasks[t]);
  }

  lemma SlotsKept(s: State, t: nat)
    requires Inv(s) && Enabled(s, t)
    ensures Slots(Next(s, t))
  {
    UsedKept(s, t);
    FreeKept(s, t);
    hide Sum, Exclusion, Fifo, Numbered;
  }

  lemma ExclusionKept(s: State, t: nat)
    requires Inv(s) && Enabled(s, t)
    ensures Exclusion(Next(s, t))
  {
    OwnStep(s, t);
    MutexStep(s, t);
    hide Slots, Ring, Fifo, Numbered, Next, Enabled, Critical;
  }

  /** The mutex is taken on the way into the critical section, when it is free, and given on the way out. */
  lemma MutexStep(s: State, t: nat)
    requires Enabled(s, t) && Wellformed(s)
    ensures var s', before, after := Next(s, t), Critical(s.tasks[t]), Critical(Next(s, t).tasks[t]);
      || (s'.holder == s.holder && after == before)
      || (s.holder == -1 && s'.holder == t && !before && after)
      || (s'.holder == -1 && before && !after)
  {
  }

  /** The slot a producer writes is no unread slot, and the slot a consumer reads is the oldest unread one. */
  lemma SlotInUse(s: State, t: nat)
    requires Inv(s) && t < |s.tasks|
    ensures s.tasks[t].Producer? && s.tasks[t].p == Write ==> s.inp == |s.entered| % SIZE && Unread(s) < SIZE
    ensures s.tasks[t].Consumer? && s.tasks[t].c == Read ==> s.out == |s.left| % SIZE && Unread(s) > 0
  {
    SumUpdate(s.tasks, FreeSlot, t, s.tasks[t]);
    SumUpdate(s.tasks, UsedSlot, t, s.tasks[t]);
  }

  /** The ring and its history change in two statements only. */
  lemma RingStep(s: State, t: nat)
    requires Enabled(s, t) && Wellformed(s)
    ensures var s', task := Next(s, t), s.tasks[t];
      if task.Producer? && task.p == Write then
        s'.buffer == s.buffer[s.inp := task.item] && s'.entered == s.entered + [Item(t, task.item)] && s'.left == s.left
      else if task.Consumer? && task.c == Read then
        s'.buffer == s.buffer && s'.entered == s.entered && s'.left == s.left + [s.buffer[s.out]]
      else
        s'.buffer == s.buffer && s'.entered == s.entered && s'.left == s.left
  {
  }

  /** How the indices lag behind the history. */
  lemma LagKept(s: State, t: nat)
    requires Exclusion(s) && Enabled(s, t) && Wellformed(s)
    ensures InLag(Next(s, t)) == match s.tasks[t]
      case Producer(Write, _) => 1
      case Producer(Advance, _) => 0
      case _ => InLag(s)
    ensures OutLag(Next(s, t)) == match s.tasks[t]
      case Consumer(Read, _) => 1
      case Consumer(Step, _) => 0
      case _ => OutLag(s)
  {
    var s' := Next(s, t);
    if Critical(s.tasks[t]) {
      assert s.holder == t;
    } else if s.holder >= 0 {
      assert s.holder != t && s'.tasks[s.holder] == s.tasks[s.holder];
    }
  }

  lemma LagNow(s: State, t: nat)
    requires Exclusion(s) && t < |s.tasks|
    ensures s.tasks[t].Producer? && s.tasks[t].p == Write ==> InLag(s) == 0
    ensures s.tasks[t].Producer? && s.tasks[t].p == Advance ==> InLag(s) == 1
    ensures s.tasks[t].Consumer? && s.tasks[t].c == Read ==> OutLag(s) == 0
    ensures s.tasks[t].Consumer? && s.tasks[t].c == Step ==> OutLag(s) == 1
  {
    assert Critical(s.tasks[t]) ==> s.holder == t;
  }

  /** The indices move on in one statement each. */
  lemma IndexStep(s: State, t: nat)
    requires Enabled(s, t) && Wellformed(s)
    ensures Next(s, t).inp == if s.tasks[t].Producer? && s.tasks[t].p == Advance then (s.inp + 1) % SIZE else s.inp
    ensures Next(s, t).out == if s.tasks[t].Consumer? && s.tasks[t].c == Step then (s.out + 1) % SIZE else s.out
  {
  }

  lemma IndicesKept(s: State, t: nat)
    requires Exclusion(s) && Ring(s) && Enabled(s, t)
    ensures var s' := Next(s, t);
      0 <= s'.inp < SIZE && 0 <= s'.out < SIZE
      && s'.inp == (|s'.entered| - InLag(s')) % SIZE && s'.out == (|s'.left| - OutLag(s')) % SIZE
  {
    LagKept(s, t);
    LagNow(s, t);
    RingStep(s, t);
    IndexStep(s, t);
    NextIndex(|s.entered| - InLag(s));
    NextIndex(|s.left| - OutLag(s));
    InBounds(s, t);
    hide *;
  }

  lemma NextIndex(x: int)
    ensures (x % SIZE + 1) % SIZE == (x + 1) % SIZE
  {
  }

  lemma InBounds(s: State, t: nat)
    requires Ring(s) && Enabled(s, t)
    ensures 0 <= s.inp < SIZE && 0 <= s.out < SIZE && 0 <= (s.inp + 1) % SIZE < SIZE && 0 <= (s.out + 1) % SIZE < SIZE
    ensures s.inp == (|s.entered| - InLag(s)) % SIZE && s.out == (|s.left| - OutLag(s)) % SIZE
  {
    hide InLag, OutLag;
  }

  lemma OtherSlot(k: nat, e: nat)
    requires e - SIZE < k < e
    ensures k % SIZE != e % SIZE
  {
  }

  lemma ContentsKept(s: State, t: nat)
    requires Inv(s) && Enabled(s, t)
    ensures var s' := Next(s, t);
      0 <= Unread(s') <= SIZE
      && (forall k :: |s'.left| <= k < |s'.entered| ==> s'.buffer[k % SIZE] == s'.entered[k].value)
  {
    SlotInUse(s, t);
    RingStep(s, t);
    hide InLag, OutLag, Slots, Exclusion, Numbered, Next, Enabled, Fifo;
    var s' := Next(s, t);
    forall k | |s'.left| <= k < |s'.entered| ensures s'.buffer[k % SIZE] == s'.entered[k].value {
      if k < |s.entered| && |s'.entered| > |s.entered| {
        OtherSlot(k, |s.entered|);
      }
    }
  }

  lemma FifoKept(s: State, t: nat)
    requires Inv(s) && Enabled(s, t)
    ensures Fifo(Next(s, t))
  {
    SlotInUse(s, t);
    RingStep(s, t);
    hide InLag, OutLag, Slots, Exclusion, Numbered, Next, Enabled;
  }

  lemma RingKept(s: State, t: nat)
    requires Inv(s) && Enabled(s, t)
    ensures Ring(Next(s, t)) && Fifo(Next(s, t))
  {
    IndicesKept(s, t);
    ContentsKept(s, t);
    FifoKept(s, t);
    hide InLag, OutLag, Slots, Exclusion, Numbered, Fifo;
  }

  lemma NumberedKept(s: State, t: nat)
    requires Numbered(s) && Enabled(s, t) && Wellformed(s)
    ensures Numbered(Next(s, t))
  {
    CountsKept(s, t);
    RingStep(s, t);
    OwnStep(s, t);
    hide Next, Enabled, From;
    var s' := Next(s, t);
    forall k | 0 <= k < |s'.entered|
      ensures s'.entered[k].value == From(s'.entered[..k], s'.entered[k].task) + 1
      ensures s'.entered[k].task < |s'.tasks| && s'.tasks[s'.entered[k].task].Producer?
    {
      assert k <= |s.entered| && s'.entered[..k] == s.entered[..k];
      assert k == |s.entered| ==> s.entered[..k] == s.entered;
    }
  }

  lemma FromPush(e: seq<Item>, x: Item, u: nat)
    ensures From(e + [x], u) == From(e, u) + if x.task == u then 1 else 0
  {
    assert (e + [x])[..|e|] == e;
  }

  /** A producer counts one item, and then is ahead until it writes it. */
  lemma OwnItem(s: State, t: nat)
    requires Enabled(s, t) && Wellformed(s) && s.tasks[t].Producer?
    ensures var task, task' := s.tasks[t], Next(s, t).tasks[t];
      task'.Producer? && task'.item - Ahead(task') == task.item - Ahead(task) + if task.p == Write then 1 else 0
  {
  }

  lemma CountsKept(s: State, t: nat)
    requires Numbered(s) && Enabled(s, t) && Wellformed(s)
    ensures var s' := Next(s, t);
      forall u :: 0 <= u < |s'.tasks| && s'.tasks[u].Producer? ==>
        s'.tasks[u].item == From(s'.entered, u) + Ahead(s'.tasks[u])
  {
    var s' := Next(s, t);
    RingStep(s, t);
    OwnStep(s, t);
    if s.tasks[t].Producer? { OwnItem(s, t); }
    hide Next, Enabled, Ahead, From;
    forall u | 0 <= u < |s'.tasks| && s'.tasks[u].Producer?
      ensures s'.tasks[u].item == From(s'.entered, u) + Ahead(s'.tasks[u])
    {
      if s'.entered != s.entered { FromPush(s.entered, Item(t, s.tasks[t].item), u); }
    }
  }

  lemma NextInv(s: State, t: nat)
    requires Inv(s) && Enabled(s, t)
    ensures Inv(Next(s, t))
  {
    SlotsKept(s, t);
    ExclusionKept(s, t);
    RingKept(s, t);
    NumberedKept(s, t);
  }

  // Whole runs.

  lemma StepInv(s: State, s': State)
    requires Inv(s) && OneStep(s, s')
    ensures Inv(s')
  {
    hide Inv, Next, Enabled;
    var t: nat :| Enabled(s, t) && s' == Next(s, t);
    NextInv(s, t);
  }

  lemma {:induction false} RunInv(b: seq<State>, i: nat)
    requires Behaviour(b) && i < |b|
    ensures Inv(b[i])
  {
    hide Inv, OneStep, Init;
    if i == 0 {
      InitInv(b[0]);
    } else {
      RunInv(b, i - 1);
      assert OneStep(b[i - 1], b[i]);
      StepInv(b[i - 1], b[i]);
    }
  }

  /** In every interleaving of any number of tasks: at most 8 items are outstanding, items leave in the order they
      entered, a write never hits an unread slot, and a read takes the oldest unread item. */
  lemma RunSafe(b: seq<State>, i: nat, t: nat)
    requires Behaviour(b) && i < |b| && t < |b[i].tasks|
    ensures |b[i].left| <= |b[i].entered| <= |b[i].left| + 8
    ensures forall k :: 0 <= k < |b[i].left| ==> b[i].left[k] == b[i].entered[k].value
    ensures b[i].tasks[t].Producer? && b[i].tasks[t].p == Write ==>
      forall k :: |b[i].left| <= k < |b[i].entered| ==> k % SIZE != b[i].inp
    ensures b[i].tasks[t].Consumer? && b[i].tasks[t].c == Read ==>
      |b[i].left| < |b[i].entered| && Wellformed(b[i]) && b[i].buffer[b[i].out] == b[i].entered[|b[i].left|].value
  {
    RunInv(b, i);
    SlotInUse(b[i], t);
    forall k | b[i].tasks[t].Producer? && b[i].tasks[t].p == Write && |b[i].left| <= k < |b[i].entered|
      ensures k % SIZE != b[i].inp
    {
      OtherSlot(k, |b[i].entered|);
    }
  }

  lemma {:induction false} FromOne(e: seq<Item>, t: nat)
    requires forall k :: 0 <= k < |e| ==> e[k].task == t
    ensures From(e, t) == |e|
    decreases |e|
  {
    if e != [] {
      FromOne(e[..|e| - 1], t);
    }
  }

  /** With one producer the items that leave are 1, 2, 3, ... */
  lemma OneProducer(b: seq<State>, i: nat, t: nat, k: nat)
    requires Behaviour(b) && i < |b|
    requires forall u :: 0 <= u < |b[i].tasks| && b[i].tasks[u].Producer? ==> u == t
    requires k < |b[i].left|
    ensures b[i].left[k] == k + 1
  {
    RunInv(b, i);
    FromOne(b[i].entered[..k], t);
  }

  /** Some task can step. */
  ghost predicate Live(s: State) {
    exists t :: Enabled(s, t)
  }

  /** No interleaving deadlocks when there is a producer and a consumer. */
  lemma NoDeadlock(b: seq<State>, i: nat, p: nat, c: nat)
    requires Behaviour(b) && i < |b|
    requires p < |b[i].tasks| && b[i].tasks[p].Producer? && c < |b[i].tasks| && b[i].tasks[c].Consumer?
    ensures Live(b[i])
  {
    var s := b[i];
    RunInv(b, i);
    if !Live(s) {
      assert !Enabled(s, p) && !Enabled(s, c);
      Stuck(s);
      SumZero(s.tasks, FreeSlot);
      SumZero(s.tasks, UsedSlot);
    }
  }

  /** Where the tasks are when none can step. */
  lemma Stuck(s: State)
    requires Exclusion(s) && !Live(s)
    ensures s.holder == -1
    ensures forall t :: 0 <= t < |s.tasks| ==> FreeSlot(s.tasks[t]) == 0 && UsedSlot(s.tasks[t]) == 0
    ensures forall t :: 0 <= t < |s.tasks| && s.tasks[t].Producer? ==> s.tasks[t].p == TakeEmpty && s.empty == 0
    ensures forall t :: 0 <= t < |s.tasks| && s.tasks[t].Consumer? ==> s.tasks[t].c == TakeFull && s.full == 0
  {
    if s.holder >= 0 {
      assert Critical(s.tasks[s.holder]);
      assert Enabled(s, s.holder);
    }
    forall t | 0 <= t < |s.tasks|
      ensures FreeSlot(s.tasks[t]) == 0 && UsedSlot(s.tasks[t]) == 0
      ensures s.tasks[t].Producer? ==> s.tasks[t].p == TakeEmpty && s.empty == 0
      ensures s.tasks[t].Consumer? ==> s.tasks[t].c == TakeFull && s.full == 0
    {
      assert !Enabled(s, t);
    }
  }

  ghost predicate HasProducer(s: State) {
    exists t :: 0 <= t < |s.tasks| && s.tasks[t].Producer?
  }

  ghost predicate HasConsumer(s: State) {
    exists t :: 0 <= t < |s.tasks| && s.tasks[t].Consumer?
  }

  /** Statements left before the task waits for a slot again. */
  function Rank(t: Task): nat {
    match t
    case Producer(TakeEmpty, _) => 0
    case Producer(Count, _) => 1
    case Producer(GiveFull, _) => 2
    case Producer(GiveMutex, _) => 3
    case Producer(Advance, _) => 4
    case Producer(Write, _) => 5
    case Producer(TakeMutex, _) => 6
    case Consumer(TakeFull, _) => 0
    case Consumer(GiveEmpty, _) => 1
    case Consumer(FreeMutex, _) => 2
    case Consumer(Step, _) => 3
    case Consumer(Read, _) => 4
    case Consumer(LockMutex, _) => 5
  }

  ghost function Budget(s: State): nat {
    Sum(s.tasks, Rank) + 7 * if HasConsumer(s) then s.full else s.empty
  }

  lemma KindsKept(s: State, t: nat)
    requires Enabled(s, t) && Wellformed(s)
    ensures HasProducer(s) <==> HasProducer(Next(s, t))
    ensures HasConsumer(s) <==> HasConsumer(Next(s, t))
  {
    var s' := Next(s, t);
    assert forall u :: 0 <= u < |s.tasks| ==> (s'.tasks[u].Producer? <==> s.tasks[u].Producer?);
  }

  lemma BudgetDrops(s: State, t: nat)
    requires Enabled(s, t) && Wellformed(s) && !(HasProducer(s) && HasConsumer(s))
    ensures Budget(Next(s, t)) < Budget(s)
  {
    KindsKept(s, t);
    SumUpdate(s.tasks, Rank, t, Next(s, t).tasks[t]);
    assert Next(s, t).tasks == s.tasks[t := Next(s, t).tasks[t]];
    assert s.tasks[t].Producer? ==> HasProducer(s);
    assert s.tasks[t].Consumer? ==> HasConsumer(s);
    hide Sum, HasProducer, HasConsumer;
  }

  /** Without a producer or without a consumer every step uses up some of the budget. */
  lemma {:induction false} EndsSoon(b: seq<State>, b': seq<State>)
    requires Behaviour(b) && Behaviour(b') && b <= b'
    requires !(HasProducer(b[|b| - 1]) && HasConsumer(b[|b| - 1]))
    ensures var s, s' := b[|b| - 1], b'[|b'| - 1];
      !(HasProducer(s') && HasConsumer(s')) && |b'| - |b| + Budget(s') <= Budget(s)
    decreases |b'|
  {
    if |b'| > |b| {
      var m := |b'| - 1;
      Shorter(b');
      assert OneStep(b'[m - 1], b'[m]) && |b| > 0 && b <= b'[..m] && b'[..m][m - 1] == b'[m - 1];
      hide *;
      EndsSoon(b, b'[..m]);
      StepBudget(b'[m - 1], b'[m]);
    } else {
      assert b == b';
    }
  }

  lemma StepBudget(s: State, s': State)
    requires OneStep(s, s') && !(HasProducer(s) && HasConsumer(s))
    ensures !(HasProducer(s') && HasConsumer(s')) && Budget(s') < Budget(s)
  {
    hide Budget, HasProducer, HasConsumer;
    var t: nat :| Enabled(s, t) && Wellformed(s) && s' == Next(s, t);
    KindsKept(s, t);
    BudgetDrops(s, t);
  }

  lemma Shorter(b: seq<State>)
    requires Behaviour(b) && |b| > 1
    ensures Behaviour(b[..|b| - 1])
  {
    hide OneStep, Init;
    var c := b[..|b| - 1];
    forall i | 0 <= i < |c| - 1 ensures OneStep(c[i], c[i + 1]) {
      assert OneStep(b[i], b[i + 1]);
    }
  }

  /** Without a producer or without a consumer no run goes on for long, and every one that cannot go on is in a
      deadlock, to which it can always be led: the condition of NoDeadlock is exact. */
  lemma {:induction false} DeadlockAhead(b: seq<State>) returns (b': seq<State>)
    requires Behaviour(b) && !(HasProducer(b[|b| - 1]) && HasConsumer(b[|b| - 1]))
    ensures Behaviour(b') && b <= b' && !Live(b'[|b'| - 1])
    ensures forall c {:trigger Behaviour(c)} :: Behaviour(c) && b <= c ==> |c| <= |b| + Budget(b[|b| - 1])
    decreases Budget(b[|b| - 1])
  {
    var s := b[|b| - 1];
    forall c | Behaviour(c) && b <= c ensures |c| <= |b| + Budget(s) {
      EndsSoon(b, c);
    }
    if Live(s) {
      var t: nat :| Enabled(s, t);
      RunInv(b, |b| - 1);
      assert Wellformed(s);
      KindsKept(s, t);
      BudgetDrops(s, t);
      assert OneStep(s, Next(s, t));
      Longer(b, Next(s, t));
      b' := DeadlockAhead(b + [Next(s, t)]);
    } else {
      b' := b;
    }
  }

  lemma Longer(b: seq<State>, s: State)
    requires Behaviour(b) && OneStep(b[|b| - 1], s)
    ensures Behaviour(b + [s])
  {
    hide OneStep, Init;
    var b' := b + [s];
    forall i | 0 <= i < |b'| - 1 ensures OneStep(b'[i], b'[i + 1]) {
      assert b'[i] == b[i];
    }
  }
}
