/** What registering a name makes of a directory: the laws of the table, apart from how it is stored. */
module Directory {
  import opened Bytes
  import opened LongName
  import opened NameTable

  /** A cleared entry. */
  function Blank(): Entry {
    seq(32, _ => 0)
  }

  /** A free entry. */
  predicate Vacant(e: Entry) {
    e[0] == 0 || e[0] == DDEM
  }

  /** Nothing stands behind the end mark. */
  ghost predicate Tidy(t: seq<Entry>) {
    forall i, j :: 0 <= i < j < |t| && t[i][0] == 0 ==> t[j][0] == 0
  }

  /** No two objects have the same short name. */
  ghost predicate ShortDistinct(t: seq<Entry>) {
    forall i, j :: 0 <= i < j < |t| && Candidate(t[i]) && Candidate(t[j]) ==> t[i][..11] != t[j][..11]
  }

  /** No object has this short name. */
  ghost predicate FreeName(t: seq<Entry>, fn: seq<Byte>) {
    forall i :: 0 <= i < |t| && Candidate(t[i]) ==> t[i][..11] != fn
  }

  /** Entry number i, blank behind the end of the table. */
  function Old(t: seq<Entry>, i: nat): Entry {
    if i < |t| then t[i] else Blank()
  }

  /** The table, with blank entries added at the end. */
  ghost predicate Extended(t: seq<Entry>, t': seq<Entry>) {
    |t| <= |t'| && forall i :: 0 <= i < |t'| ==> t'[i] == Old(t, i)
  }

  /** The m entries from place f on are free. */
  ghost predicate VacantRun(t: seq<Entry>, f: nat, m: nat) {
    f + m <= |t| && forall i :: f <= i < f + m ==> Vacant(t[i])
  }

  /** The m entries from place f on are free, they start behind a used one, and they are the first m in a row. */
  ghost predicate Block(t: seq<Entry>, f: nat, m: nat) {
    && f + m <= |t|
    && (forall i :: f <= i < f + m ==> Vacant(t[i]))
    && (f == 0 || !Vacant(t[f - 1]))
    && (forall f2: nat :: f2 < f ==> !VacantRun(t, f2, m))
  }

  /** There are no m free entries in a row. */
  ghost predicate NoGap(t: seq<Entry>, m: nat) {
    forall f: nat :: !VacantRun(t, f, m)
  }

  /** Entry number f and the n behind it are free, the table going on in blank entries. */
  ghost predicate OldRun(t: seq<Entry>, f: nat, n: nat) {
    forall i :: f <= i <= f + n ==> Vacant(Old(t, i))
  }

  /** The table after registering: the free entries from place f on, the first so many in a row, hold n parts of the
      long name and the short entry. */
  ghost predicate Entered(t: seq<Entry>, t': seq<Entry>, f: nat, n: nat, name: seq<Wchar>, short: Entry) {
    && |t| <= |t'| && f + n < |t'|
    && (forall i :: 0 <= i < |t'| && !(f <= i <= f + n) ==> t'[i] == Old(t, i))
    && (forall i :: f <= i <= f + n ==> Vacant(Old(t, i)))
    && (f == 0 || !Vacant(Old(t, f - 1)))
    && (forall f2: nat :: f2 < f ==> !OldRun(t, f2, n))
    && Parts(t'[f..f + n], name, Checksum(short[..11]))
    && t'[f + n] == short
  }

  lemma EnteredIs(t: seq<Entry>, t1: seq<Entry>, t': seq<Entry>, f: nat, n: nat, name: seq<Wchar>, short: Entry)
    requires Extended(t, t1) && Block(t1, f, n + 1) && |t'| == |t1|
    requires forall i :: 0 <= i < |t'| && !(f <= i <= f + n) ==> t'[i] == t1[i]
    requires Parts(t'[f..f + n], name, Checksum(short[..11])) && t'[f + n] == short
    ensures Entered(t, t', f, n, name, short)
  {
    hide Parts, Checksum;
    forall i | f <= i <= f + n ensures Vacant(Old(t, i)) { assert t1[i] == Old(t, i); }
    if f > 0 { assert t1[f - 1] == Old(t, f - 1); }
    forall f2: nat | f2 < f ensures !OldRun(t, f2, n) { RunIn(t, t1, f2, n); }
  }

  lemma RunIn(t: seq<Entry>, t1: seq<Entry>, f: nat, n: nat)
    requires Extended(t, t1) && f + n < |t1|
    ensures OldRun(t, f, n) ==> VacantRun(t1, f, n + 1)
  {
  }

  /** No end mark comes before the new name. */
  lemma NoEndBefore(t: seq<Entry>, t': seq<Entry>, f: nat, n: nat, name: seq<Wchar>, short: Entry)
    requires Entered(t, t', f, n, name, short) && Tidy(t)
    ensures f <= |t| && forall i :: 0 <= i < f ==> t'[i] == t[i] && t[i][0] != 0
  {
    if f > 0 {
      assert f - 1 < |t| && t[f - 1][0] != 0;
    }
  }

  lemma PartsInUse(s: seq<Entry>, name: seq<Wchar>, sum: Byte, k: nat)
    requires Parts(s, name, sum) && |name| <= MAX_LFN && k < |s|
    ensures !Vacant(s[k]) && !Candidate(s[k])
  {
    assert IsPart(s[k], name, PartCount(name) - k, sum);
  }

  lemma NewInUse(t: seq<Entry>, t': seq<Entry>, f: nat, n: nat, name: seq<Wchar>, short: Entry, i: nat)
    requires Entered(t, t', f, n, name, short) && |name| <= MAX_LFN && f <= i < f + n
    ensures !Vacant(t'[i]) && !Candidate(t'[i])
  {
    assert t'[i] == t'[f..f + n][i - f];
    PartsInUse(t'[f..f + n], name, Checksum(short[..11]), i - f);
  }

  /** Registering keeps the end mark at the end. */
  lemma TidyKept(t: seq<Entry>, t': seq<Entry>, f: nat, n: nat, name: seq<Wchar>, short: Entry)
    requires Entered(t, t', f, n, name, short) && Tidy(t) && |name| <= MAX_LFN && Live(short)
    ensures Tidy(t')
  {
    NoEndBefore(t, t', f, n, name, short);
    forall i, j | 0 <= i < j < |t'| && t'[i][0] == 0 ensures t'[j][0] == 0 {
      if f <= i < f + n { NewInUse(t, t', f, n, name, short, i); }
      assert i > f + n && t'[i] == Old(t, i) && t'[j] == Old(t, j);
    }
  }

  /** A short name that was free keeps short names distinct. */
  lemma DistinctKept(t: seq<Entry>, t': seq<Entry>, f: nat, n: nat, name: seq<Wchar>, short: Entry)
    requires Entered(t, t', f, n, name, short) && ShortDistinct(t) && FreeName(t, short[..11]) && |name| <= MAX_LFN
    ensures ShortDistinct(t')
  {
    forall i, j | 0 <= i < j < |t'| && Candidate(t'[i]) && Candidate(t'[j]) ensures t'[i][..11] != t'[j][..11] {
      if f <= i < f + n { NewInUse(t, t', f, n, name, short, i); }
      if f <= j < f + n { NewInUse(t, t', f, n, name, short, j); }
      if i != f + n { assert t'[i] == Old(t, i) && i < |t|; }
      if j != f + n { assert t'[j] == Old(t, j) && j < |t|; }
    }
  }

  /** A search by short name alone that ends without a hit shows that the name is free. */
  lemma NotTaken(t: seq<Entry>, w: Wanted, up: Wchar -> Wchar, at: nat)
    requires Proper(w) && !w.lossy && Tidy(t) && FoundAt(t, w, up, at, false)
    ensures FreeName(t, w.fn)
  {
    forall i | 0 <= i < |t| && Candidate(t[i]) ensures t[i][..11] != w.fn {
      assert i < at && !HitAt(t, w, up, i);
    }
  }

  lemma RegisteredInUse(t: seq<Entry>, f: nat, name: seq<Wchar>, i: nat)
    requires Registered(t, f, name) && f <= i <= f + PartCount(name)
    ensures i < |t| && !Vacant(t[i])
  {
    if i < f + PartCount(name) { PartAt(t, f, name, i); }
  }

  /** A used entry is not among those of the new name. */
  lemma UsedStays(t: seq<Entry>, t': seq<Entry>, f: nat, n: nat, name: seq<Wchar>, short: Entry, i: nat)
    requires Entered(t, t', f, n, name, short) && i < |t| && !Vacant(t[i])
    ensures i < |t'| && t'[i] == t[i]
  {
    hide Parts, Checksum;
    assert f <= i <= f + n ==> Vacant(Old(t, i));
  }

  lemma CopyRegistered(t: seq<Entry>, t': seq<Entry>, f: nat, name: seq<Wchar>)
    requires Registered(t, f, name) && |t| <= |t'| && f + PartCount(name) < |t|
    requires forall i :: f <= i <= f + PartCount(name) ==> t'[i] == t[i]
    ensures Registered(t', f, name)
  {
    hide Parts, Checksum, IsName, Live, PartCount;
    assert t'[f..f + PartCount(name)] == t[f..f + PartCount(name)];
  }

  /** A name registered before stays registered. */
  lemma StaysRegistered(t: seq<Entry>, t': seq<Entry>, f: nat, n: nat, name: seq<Wchar>, short: Entry, f2: nat,
                        name2: seq<Wchar>)
    requires Entered(t, t', f, n, name, short) && Registered(t, f2, name2)
    ensures Registered(t', f2, name2)
  {
    assert |t| <= |t'| && f2 + PartCount(name2) < |t|;
    hide *;
    forall i | f2 <= i <= f2 + PartCount(name2) ensures t'[i] == t[i] {
      RegisteredInUse(t, f2, name2, i);
      UsedStays(t, t', f, n, name, short, i);
    }
    CopyRegistered(t, t', f2, name2);
  }

  /** The new long name is registered. */
  lemma NowRegistered(t: seq<Entry>, t': seq<Entry>, f: nat, name: seq<Wchar>, short: Entry)
    requires Entered(t, t', f, PartCount(name), name, short) && IsName(name) && Live(short)
    ensures Registered(t', f, name)
  {
  }

  /** A search that found nothing finds the name after it has been registered: by its long form, which may differ in
      case, or by its short one. */
  lemma NewNameFound(t: seq<Entry>, t': seq<Entry>, f: nat, name: seq<Wchar>, short: Entry, w: Wanted,
                     up: Wchar -> Wchar, at: nat)
    requires Entered(t, t', f, PartCount(name), name, short) && Tidy(t) && IsName(name) && Live(short)
    requires Proper(w) && !w.noLfn && KeepsEnd(up) && FoundAt(t, w, up, at, false)
    requires SameName(w.lfn, name, up) || ShortMatch(short, w.fn, w.lossy)
    ensures FoundAt(t', w, up, f + PartCount(name), true)
    ensures SameName(w.lfn, name, up) ==> MatchAt(t', w, up, f + PartCount(name)).blk == f
  {
    hide *;
    NewTail(t, t', f, name, short, w, up);
    NoEndBefore(t, t', f, PartCount(name), name, short);
    PassedBefore(t, t', f, w, up, at);
    FoundThere(t', w, up, f, f + PartCount(name));
  }

  /** The new name itself: hit at its short entry and not before. */
  lemma NewTail(t: seq<Entry>, t': seq<Entry>, f: nat, name: seq<Wchar>, short: Entry, w: Wanted, up: Wchar -> Wchar)
    requires Entered(t, t', f, PartCount(name), name, short) && IsName(name) && Live(short)
    requires Proper(w) && !w.noLfn && KeepsEnd(up) && (SameName(w.lfn, name, up) || ShortMatch(short, w.fn, w.lossy))
    ensures f + PartCount(name) < |t'| && HitAt(t', w, up, f + PartCount(name))
    ensures forall k :: f <= k < f + PartCount(name) ==> t'[k][0] != 0 && !HitAt(t', w, up, k)
    ensures SameName(w.lfn, name, up) ==> MatchAt(t', w, up, f + PartCount(name)).blk == f
  {
    NowRegistered(t, t', f, name, short);
    NamedHit(t', f, name, w, up);
    hide Registered, SameName, Parts, IsName, Live, KeepsEnd, PartCount, HitAt, MatchAt, Checksum;
  }

  lemma PassedBefore(t: seq<Entry>, t': seq<Entry>, f: nat, w: Wanted, up: Wchar -> Wchar, at: nat)
    requires Proper(w) && FoundAt(t, w, up, at, false) && f <= |t| && f <= |t'|
    requires forall i :: 0 <= i < f ==> t'[i] == t[i] && t[i][0] != 0
    ensures forall k :: 0 <= k < f ==> !HitAt(t', w, up, k) && t'[k][0] != 0
  {
    hide Hit, MatchAt;
    forall k | 0 <= k < f ensures !HitAt(t', w, up, k) && t'[k][0] != 0 {
      MatchPrefix(t, t', w, up, k);
      assert k < at && !HitAt(t, w, up, k);
    }
  }

  lemma FoundThere(t: seq<Entry>, w: Wanted, up: Wchar -> Wchar, f: nat, at: nat)
    requires Proper(w) && f <= at < |t| && HitAt(t, w, up, at)
    requires forall k :: 0 <= k < f ==> !HitAt(t, w, up, k) && t[k][0] != 0
    requires forall k :: f <= k < at ==> t[k][0] != 0 && !HitAt(t, w, up, k)
    ensures FoundAt(t, w, up, at, true)
  {
    hide HitAt;
  }

  /** An object without a long name is found the same way by its short one. */
  lemma NewShortFound(t: seq<Entry>, t': seq<Entry>, f: nat, name: seq<Wchar>, short: Entry, w: Wanted,
                      up: Wchar -> Wchar, at: nat)
    requires Entered(t, t', f, 0, name, short) && Tidy(t) && Live(short)
    requires Proper(w) && FoundAt(t, w, up, at, false) && ShortMatch(short, w.fn, w.lossy)
    ensures FoundAt(t', w, up, f, true)
  {
    NoEndBefore(t, t', f, 0, name, short);
    hide Parts, MatchAt;
    forall k | 0 <= k < f ensures !HitAt(t', w, up, k) && t'[k][0] != 0 {
      MatchPrefix(t, t', w, up, k);
      assert k < at && !HitAt(t, w, up, k);
    }
  }

  // Searches for other names.

  /** Two states that no entry can tell apart. */
  ghost predicate Alike(m: Match, m': Match) {
    m'.ord == m.ord && m'.blk == m.blk && (m.ord == 0xFF || m'.sum == m.sum)
  }

  lemma AlikeStep(w: Wanted, e: Entry, j: nat, m: Match, m': Match, up: Wchar -> Wchar)
    requires Proper(w) && Alike(m, m')
    ensures Hit(w, e, m) <==> Hit(w, e, m')
    ensures Alike(MatchStep(w, e, j, m, up), MatchStep(w, e, j, m', up))
  {
    hide PartMatches, Checksum;
    assert !Last(e[0]) ==> e[0] != 0xFF;
  }

  /** A free entry, or the new short one, ends what was recognized. */
  lemma AlikeAfter(w: Wanted, e: Entry, e': Entry, j: nat, m: Match, m': Match, up: Wchar -> Wchar)
    requires Proper(w) && e[0] == DDEM && Live(e')
    ensures Alike(MatchStep(w, e, j, m, up), MatchStep(w, e', j, m', up))
  {
    hide MatchPart;
  }

  lemma BlockPassed(t: seq<Entry>, t': seq<Entry>, f: nat, n: nat, name: seq<Wchar>, short: Entry)
    requires Entered(t, t', f, n, name, short) && f + n < |t| && t[f + n][0] != 0
    ensures t[f + n][0] == DDEM && t'[f + n] == short
  {
    hide Parts, Checksum;
    assert Vacant(Old(t, f + n));
  }

  lemma OldBehind(t: seq<Entry>, t': seq<Entry>, f: nat, n: nat, name: seq<Wchar>, short: Entry, k: nat)
    requires Entered(t, t', f, n, name, short) && f + n < k < |t|
    ensures k < |t'| && t'[k] == t[k]
  {
    hide Parts, Checksum;
    assert t'[k] == Old(t, k);
  }

  /** Behind the new name the search is where it was without it. */
  lemma {:induction false} AlikeBehind(t: seq<Entry>, t': seq<Entry>, f: nat, n: nat, name: seq<Wchar>, short: Entry,
                                       w: Wanted, up: Wchar -> Wchar, j: nat)
    requires Entered(t, t', f, n, name, short) && Live(short) && Proper(w) && f + n < j <= |t|
    requires forall i :: 0 <= i < j ==> t[i][0] != 0
    ensures j <= |t'| && Alike(MatchAt(t, w, up, j), MatchAt(t', w, up, j))
    decreases j
  {
    assert |t| <= |t'|;
    hide *;
    MatchNext(t, w, up, j - 1);
    MatchNext(t', w, up, j - 1);
    if j == f + n + 1 {
      BlockPassed(t, t', f, n, name, short);
      AlikeAfter(w, t[j - 1], t'[j - 1], j - 1, MatchAt(t, w, up, j - 1), MatchAt(t', w, up, j - 1), up);
    } else {
      AlikeBehind(t, t', f, n, name, short, w, up, j - 1);
      OldBehind(t, t', f, n, name, short, j - 1);
      AlikeStep(w, t[j - 1], j - 1, MatchAt(t, w, up, j - 1), MatchAt(t', w, up, j - 1), up);
    }
  }

  /** A search the new name does not answer passes the same places without a hit. */
  lemma OthersPassed(t: seq<Entry>, t': seq<Entry>, f: nat, n: nat, name: seq<Wchar>, short: Entry,
                     w: Wanted, up: Wchar -> Wchar, k: nat)
    requires Entered(t, t', f, n, name, short) && Tidy(t) && |name| <= MAX_LFN && Live(short) && Proper(w)
    requires !HitAt(t', w, up, f + n) && k < |t'| && t'[k][0] != 0
    ensures HitAt(t', w, up, k) <==> HitAt(t, w, up, k)
  {
    NoEndBefore(t, t', f, n, name, short);
    if k < f {
      MatchPrefix(t, t', w, up, k);
    } else if k <= f + n {
      assert Vacant(Old(t, k));
      if k < f + n { NewInUse(t, t', f, n, name, short, k); }
    } else {
      assert t'[k] == Old(t, k) && k < |t|;
      AlikeBehind(t, t', f, n, name, short, w, up, k);
      AlikeStep(w, t[k], k, MatchAt(t, w, up, k), MatchAt(t', w, up, k), up);
    }
  }

  /** Every object that was found is found in the same place, unless the new name is what is looked for. */
  lemma OthersFound(t: seq<Entry>, t': seq<Entry>, f: nat, n: nat, name: seq<Wchar>, short: Entry,
                    w: Wanted, up: Wchar -> Wchar, at: nat)
    requires Entered(t, t', f, n, name, short) && Tidy(t) && |name| <= MAX_LFN && Live(short) && Proper(w)
    requires !HitAt(t', w, up, f + n) && FoundAt(t, w, up, at, true)
    ensures FoundAt(t', w, up, at, true)
  {
    NoEndBefore(t, t', f, n, name, short);
    hide Hit, Parts, Live, Checksum;
    forall k | 0 <= k < at ensures t'[k][0] != 0 && !HitAt(t', w, up, k) {
      StillInUse(t, t', f, n, name, short, k);
      OthersPassed(t, t', f, n, name, short, w, up, k);
      assert !HitAt(t, w, up, k);
    }
    HitInUse(t, w, up, at);
    StillInUse(t, t', f, n, name, short, at);
    OthersPassed(t, t', f, n, name, short, w, up, at);
  }

  lemma HitInUse(t: seq<Entry>, w: Wanted, up: Wchar -> Wchar, k: nat)
    requires Proper(w) && HitAt(t, w, up, k)
    ensures t[k][0] != 0
  {
  }

  lemma StillInUse(t: seq<Entry>, t': seq<Entry>, f: nat, n: nat, name: seq<Wchar>, short: Entry, k: nat)
    requires Entered(t, t', f, n, name, short) && |name| <= MAX_LFN && Live(short) && k < |t| && t[k][0] != 0
    ensures t'[k][0] != 0
  {
    if f <= k < f + n {
      NewInUse(t, t', f, n, name, short, k);
    } else if k != f + n {
      assert t'[k] == Old(t, k);
    }
  }

  /** What was not found still is not. */
  lemma OthersNotFound(t: seq<Entry>, t': seq<Entry>, f: nat, n: nat, name: seq<Wchar>, short: Entry,
                       w: Wanted, up: Wchar -> Wchar, at: nat, at': nat, ok: bool)
    requires Entered(t, t', f, n, name, short) && Tidy(t) && |name| <= MAX_LFN && Live(short) && Proper(w)
    requires !HitAt(t', w, up, f + n) && FoundAt(t, w, up, at, false) && FoundAt(t', w, up, at', ok)
    ensures !ok
  {
    if ok {
      HitInUse(t', w, up, at');
      OthersPassed(t, t', f, n, name, short, w, up, at');
      HitInUse(t, w, up, at');
    }
  }

  lemma ExtendedKeeps(t: seq<Entry>, t': seq<Entry>)
    requires Extended(t, t')
    ensures (Tidy(t) ==> Tidy(t')) && (ShortDistinct(t) ==> ShortDistinct(t'))
  {
    assert forall i :: 0 <= i < |t'| && Candidate(t'[i]) ==> i < |t| && t'[i] == t[i];
  }

  /** The buffer's own name is the same name. */
  lemma OwnName(buf: seq<Wchar>, name: seq<Wchar>, up: Wchar -> Wchar)
    requires Holds(buf, name)
    ensures SameName(buf, name, up)
  {
    assert forall p :: 0 <= p < |name| ==> buf[..|name|][p] == buf[p];
  }

  lemma PartNotShown(t: seq<Entry>, f: nat, name: seq<Wchar>, k: nat)
    requires Registered(t, f, name) && f <= k < f + PartCount(name)
    ensures k < |t| && t[k][0] != 0 && !Shown(t[k], false)
  {
    PartAt(t, f, name, k);
  }

  lemma ShortShown(t: seq<Entry>, f: nat, name: seq<Wchar>)
    requires Registered(t, f, name)
    ensures f + PartCount(name) < |t| && t[f + PartCount(name)][0] != 0 && Shown(t[f + PartCount(name)], false)
  {
    hide Parts, IsName, Checksum, PartCount;
  }

  /** From anywhere before a registered name with no object in between, dir_read's answer is that object, with its
      name. */
  lemma ReadsBack(t: seq<Entry>, f: nat, name: seq<Wchar>, start: nat, at: nat, ok: bool, blk: nat, buf: seq<Wchar>)
    requires Registered(t, f, name) && start <= f < |t|
    requires forall k :: start <= k < f ==> t[k][0] != 0 && !Shown(t[k], false)
    requires ReadAnswer(t, f, name, false, start, at, ok, blk, buf)
    ensures ok && at == f + PartCount(name) && blk == f && Holds(buf, name)
  {
    hide Registered, Holds, Shown, PartCount, Checksum;
    ShortShown(t, f, name);
    if at < f + PartCount(name) && f <= at { PartNotShown(t, f, name, at); }
  }

  /** What dir_read makes of the parts of any name, storable or not: it gives the name they are stored as, from the part
      on in which that ends; or none, if that is too long. */
  lemma ReadsStored(t: seq<Entry>, f: nat, name: seq<Wchar>, start: nat, at: nat, ok: bool, blk: nat, buf: seq<Wchar>)
    requires Stands(t, f, name) && start <= f && StoredFrom(f, name) >= 0
    requires forall k :: start <= k < f ==> t[k][0] != 0 && !Shown(t[k], false)
    requires ReadAnswer(t, StoredFrom(f, name), StoredAs(name), false, start, at, ok, blk, buf)
    ensures ok && at == f + PartCount(name)
    ensures if |StoredAs(name)| <= MAX_LFN then blk == StoredFrom(f, name) && Holds(buf, StoredAs(name))
            else blk == NO_LFN
  {
    StoredAsName(name);
    PartsUnshown(t, f, name);
    hide Written, StoredAs, Checksum, Characters, Shown, Holds, PartRun;
    if |StoredAs(name)| <= MAX_LFN {
      StandsAs(t, f, name);
      hide Registered, PartCount, Stands;
      ReadsBack(t, StoredFrom(f, name), StoredAs(name), start, at, ok, blk, buf);
    } else {
      assert at == f + PartCount(name);
      TooLongRun(t, f, name, start, blk, Checksum(t[at][..11]), buf);
    }
  }

  /** The parts are no objects, the short entry is one. */
  lemma PartsUnshown(t: seq<Entry>, f: nat, name: seq<Wchar>)
    requires Stands(t, f, name)
    ensures forall k :: f <= k < f + PartCount(name) ==> t[k][0] != 0 && !Shown(t[k], false)
    ensures f + PartCount(name) < |t| && t[f + PartCount(name)][0] != 0 && Shown(t[f + PartCount(name)], false)
  {
    hide Checksum, Characters, PartCount, Laid, Filling, Unit, LdWord;
  }

  /** A name that has just been registered is read back, from anywhere before it with no object in between. */
  lemma NewNameRead(t: seq<Entry>, t': seq<Entry>, f: nat, name: seq<Wchar>, short: Entry,
                    start: nat, at: nat, ok: bool, blk: nat, buf: seq<Wchar>)
    requires Entered(t, t', f, PartCount(name), name, short) && IsName(name) && Live(short) && Tidy(t)
    requires start <= f && forall k :: start <= k < f ==> !Shown(Old(t, k), false)
    requires ReadAnswer(t', f, name, false, start, at, ok, blk, buf)
    ensures ok && at == f + PartCount(name) && blk == f && Holds(buf, name)
  {
    NoEndBefore(t, t', f, PartCount(name), name, short);
    NowRegistered(t, t', f, name, short);
    hide Entered, Parts, Checksum, Registered, ReadAnswer, Holds, IsName, Live, Tidy;
    ReadsBack(t', f, name, start, at, ok, blk, buf);
  }
}
