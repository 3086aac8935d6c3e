/** f_findfirst's pattern matching, on decoded characters, against the meaning of `?` and `*`. */
module Glob {
  const QUEST: nat := 63
  const STAR: nat := 42

  /** FIND_RECURS */
  const MAX_TERMS: nat := 4

  predicate Wild(c: nat) {
    c == QUEST || c == STAR
  }

  /** What a pattern means: `?` any character, `*` any characters, anything else itself without regard to case. */
  ghost predicate Matches(pat: seq<nat>, nam: seq<nat>, up: nat -> nat)
    decreases |pat|
  {
    if pat == [] then nam == []
    else if pat[0] == STAR then exists k :: 0 <= k <= |nam| && Matches(pat[1..], nam[k..], up)
    else if pat[0] == QUEST then nam != [] && Matches(pat[1..], nam[1..], up)
    else nam != [] && up(pat[0]) == up(nam[0]) && Matches(pat[1..], nam[1..], up)
  }

  /** What the wildcards mean, each by itself: `*` every name, `?` every name of one character. */
  lemma Wildcards(nam: seq<nat>, up: nat -> nat)
    ensures Matches([0x2A], nam, up) && (Matches([0x3F], nam, up) <==> |nam| == 1)
  {
    var none: seq<nat> := [];
    assert nam[|nam|..] == none && Matches(none, nam[|nam|..], up);
    if nam != [] { assert Matches(none, nam[1..], up) <==> nam[1..] == none; }
  }

  // The wildcard term at the front of a pattern.

  function TermLength(pat: seq<nat>): (n: nat)
    ensures n <= |pat| && (n < |pat| ==> !Wild(pat[n])) && (n == 0 <==> pat == [] || !Wild(pat[0]))
  {
    if pat == [] || !Wild(pat[0]) then 0 else 1 + TermLength(pat[1..])
  }

  function Quests(pat: seq<nat>): nat {
    if pat == [] || !Wild(pat[0]) then 0 else Quests(pat[1..]) + if pat[0] == QUEST then 1 else 0
  }

  predicate HasStar(pat: seq<nat>) {
    pat != [] && Wild(pat[0]) && (pat[0] == STAR || HasStar(pat[1..]))
  }

  /** Wildcard terms in the whole pattern. */
  function Terms(pat: seq<nat>): nat
    decreases |pat|
  {
    if pat == [] then 0
    else if Wild(pat[0]) then 1 + Terms(pat[TermLength(pat)..])
    else Terms(pat[1..])
  }

  /** Every wildcard term has fewer than 256 `?`. */
  predicate ShortTerms(pat: seq<nat>)
    decreases |pat|
  {
    if pat == [] then true
    else if Wild(pat[0]) then Quests(pat) < 256 && ShortTerms(pat[TermLength(pat)..])
    else ShortTerms(pat[1..])
  }

  /** sk |= 0x100 */
  function OrStar(sk: nat): nat {
    if sk / 256 % 2 == 1 then sk else sk + 256
  }

  /** The skip word the code builds from a term: the count in the low byte, anything above it for "or more". */
  function SkipWord(pat: seq<nat>, sk: nat): nat {
    if pat == [] || !Wild(pat[0]) then sk
    else SkipWord(pat[1..], if pat[0] == QUEST then sk + 1 else OrStar(sk))
  }

  lemma {:induction false} SkipMeaning(pat: seq<nat>, sk: nat)
    ensures SkipWord(pat, sk) % 256 == (sk + Quests(pat)) % 256
    ensures SkipWord(pat, sk) >= 256 <==> HasStar(pat) || sk + Quests(pat) >= 256
    decreases |pat|
  {
    OrStarMeaning(sk);
    hide OrStar;
    if pat != [] && Wild(pat[0]) {
      var sk' := if pat[0] == QUEST then sk + 1 else OrStar(sk);
      SkipMeaning(pat[1..], sk');
      SameLow(sk', if pat[0] == QUEST then sk + 1 else sk, Quests(pat[1..]));
    }
  }

  lemma OrStarMeaning(sk: nat)
    ensures OrStar(sk) % 256 == sk % 256 && OrStar(sk) >= 256
    ensures OrStar(sk) >= sk
  {
  }

  lemma SameLow(a: nat, b: nat, q: nat)
    requires a % 256 == b % 256
    ensures (a + q) % 256 == (b + q) % 256
  {
  }

  // What the code accepts, whatever the pattern.

  ghost predicate Accepts(pat: seq<nat>, nam: seq<nat>, skip: nat, recur: nat, up: nat -> nat)
    decreases |pat|, 1
  {
    exists k :: skip % 256 <= k <= |nam| && (skip < 256 ==> k == skip) && FromHere(pat, nam[k..], recur, up)
  }

  ghost predicate FromHere(pat: seq<nat>, nam: seq<nat>, recur: nat, up: nat -> nat)
    decreases |pat|, 0
  {
    if pat == [] then nam == []
    else if Wild(pat[0]) then recur > 0 && Accepts(pat[TermLength(pat)..], nam, SkipWord(pat, 0), recur - 1, up)
    else nam != [] && up(pat[0]) == up(nam[0]) && FromHere(pat[1..], nam[1..], recur, up)
  }

  /** Only the terminator is upper-cased to it. */
  ghost predicate KeepsEnd(up: nat -> nat) {
    forall c :: up(c) == 0 <==> c == 0
  }

  ghost predicate NoEnd(s: seq<nat>) {
    forall i :: 0 <= i < |s| ==> s[i] != 0
  }

  /** get_achar: the character at a place, upper-cased; the terminator behind the last one. */
  function AChar(s: seq<nat>, i: nat, up: nat -> nat): nat {
    if i < |s| then up(s[i]) else up(0)
  }

  /** Literals match in step with the name. */
  lemma {:induction false} InStep(pat: seq<nat>, nam: seq<nat>, l: nat, recur: nat, up: nat -> nat)
    requires l <= |pat| && l <= |nam|
    requires forall i :: 0 <= i < l ==> !Wild(pat[i]) && up(pat[i]) == up(nam[i])
    ensures FromHere(pat, nam, recur, up) <==> FromHere(pat[l..], nam[l..], recur, up)
    decreases l
  {
    if l == 0 {
      assert pat[0..] == pat && nam[0..] == nam;
    } else {
      InStep(pat[1..], nam[1..], l - 1, recur, up);
      assert pat[1..][l - 1..] == pat[l..] && nam[1..][l - 1..] == nam[l..];
    }
  }

  /** A name shorter than the literals in front cannot match. */
  lemma {:induction false} TooShort(pat: seq<nat>, nam: seq<nat>, l: nat, recur: nat, up: nat -> nat)
    requires |nam| < l <= |pat| && forall i :: 0 <= i < l ==> !Wild(pat[i])
    ensures !FromHere(pat, nam, recur, up)
    decreases l
  {
    if nam != [] {
      TooShort(pat[1..], nam[1..], l - 1, recur, up);
    }
  }

  /** The inner loop: match from here. Also tells whether the name ended in it, after which no later start can match. */
  method MatchHere(pat: seq<nat>, nam: seq<nat>, recur: nat, up: nat -> nat) returns (r: bool, ended: bool)
    requires KeepsEnd(up) && NoEnd(pat) && NoEnd(nam)
    ensures r <==> FromHere(pat, nam, recur, up)
    ensures nam == [] ==> r || ended
    ensures !r && ended ==> forall k :: 0 < k <= |nam| ==> !FromHere(pat, nam[k..], recur, up)
    decreases |pat|, 0
  {
    var l := 0;
    while true
      invariant l <= |pat| && l <= |nam|
      invariant forall i :: 0 <= i < l ==> !Wild(pat[i]) && up(pat[i]) == up(nam[i])
      decreases |nam| - l
    {
      InStep(pat, nam, l, recur, up);
      if l < |pat| && Wild(pat[l]) {
        if recur == 0 {
          NoTermLeft(pat, nam, l, up);
          return false, true;
        }
        var n, sk := ReadTerm(pat[l..]);
        r := PatternMatch(pat[l + n..], nam[l..], sk, recur - 1, up);
        assert pat[l..][n..] == pat[l + n..];
        ended := l == |nam|;
        if ended { LaterStarts(pat, nam, l, recur, up); }
        return;
      }
      var pchr, nchr := AChar(pat, l, up), AChar(nam, l, up);
      if pchr != nchr {
        r, ended := false, nchr == 0;
        if ended { LaterStarts(pat, nam, l + 1, recur, up); }
        return;
      }
      if pchr == 0 {
        return true, true;
      }
      l := l + 1;
    }
  }

  lemma {:induction false} TooManyTerms(pat: seq<nat>, nam: seq<nat>, l: nat, up: nat -> nat)
    requires l < |pat| && Wild(pat[l])
    ensures !FromHere(pat, nam, 0, up)
    decreases l
  {
    if l > 0 && nam != [] {
      TooManyTerms(pat[1..], nam[1..], l - 1, up);
    }
  }

  lemma NoTermLeft(pat: seq<nat>, nam: seq<nat>, l: nat, up: nat -> nat)
    requires l < |pat| && Wild(pat[l])
    ensures !FromHere(pat, nam, 0, up) && forall k :: 0 < k <= |nam| ==> !FromHere(pat, nam[k..], 0, up)
  {
    TooManyTerms(pat, nam, l, up);
    forall k | 0 < k <= |nam| ensures !FromHere(pat, nam[k..], 0, up) {
      TooManyTerms(pat, nam[k..], l, up);
    }
  }

  lemma LaterStarts(pat: seq<nat>, nam: seq<nat>, l: nat, recur: nat, up: nat -> nat)
    requires |nam| <= l <= |pat| && forall i :: 0 <= i < l ==> !Wild(pat[i])
    ensures forall k :: 0 < k <= |nam| ==> !FromHere(pat, nam[k..], recur, up)
  {
    forall k | 0 < k <= |nam| ensures !FromHere(pat, nam[k..], recur, up) {
      TooShort(pat, nam[k..], l, recur, up);
    }
  }

  /** Analyze the wildcard term. */
  method ReadTerm(pat: seq<nat>) returns (n: nat, sk: nat)
    requires pat != [] && Wild(pat[0])
    ensures n == TermLength(pat) && sk == SkipWord(pat, 0)
  {
    n, sk := 0, 0;
    while n < |pat| && Wild(pat[n])
      invariant n <= |pat| && TermLength(pat) == n + TermLength(pat[n..])
      invariant SkipWord(pat, 0) == SkipWord(pat[n..], sk)
    {
      if pat[n] == QUEST {
        sk := sk + 1;
      } else {
        sk := OrStar(sk);
      }
      n := n + 1;
    }
  }

  /** pattern_match */
  method PatternMatch(pat: seq<nat>, nam0: seq<nat>, skip0: nat, recur: nat, up: nat -> nat) returns (r: bool)
    requires KeepsEnd(up) && NoEnd(pat) && NoEnd(nam0)
    ensures r <==> Accepts(pat, nam0, skip0, recur, up)
    decreases |pat|, 1
  {
    var j, skip := 0, skip0;
    while skip % 256 != 0
      invariant 0 <= j <= |nam0| && skip + j == skip0 && j <= skip0 % 256 && skip % 256 == skip0 % 256 - j
    {
      if AChar(nam0, j, up) == 0 {
        return false;
      }
      j, skip := j + 1, skip - 1;
    }
    if pat == [] && skip != 0 {
      assert FromHere(pat, nam0[|nam0|..], recur, up);
      return true;
    }
    ghost var first := j;
    while true
      invariant first <= j <= |nam0| && (skip == 0 ==> j == first)
      invariant forall k :: first <= k < j ==> !FromHere(pat, nam0[k..], recur, up)
      decreases |nam0| - j
    {
      var ended: bool;
      r, ended := MatchHere(pat, nam0[j..], recur, up);
      if r { return; }
      if skip == 0 || ended {
        forall k | j < k <= |nam0| && ended ensures !FromHere(pat, nam0[k..], recur, up) {
          assert nam0[j..][k - j..] == nam0[k..];
        }
        return false;
      }
      j := j + 1;
    }
  }

  // The code against the meaning.

  lemma {:induction false} QuestsInTerm(pat: seq<nat>)
    ensures Quests(pat) <= TermLength(pat)
    ensures pat != [] && Wild(pat[0]) && !HasStar(pat) ==> Quests(pat) > 0
  {
    if pat != [] && Wild(pat[0]) {
      QuestsInTerm(pat[1..]);
    }
  }

  /** A whole wildcard term means: so many characters, or (with a star) more. */
  lemma {:induction false} TermMeaning(pat: seq<nat>, nam: seq<nat>, up: nat -> nat)
    ensures Matches(pat, nam, up) <==>
      exists k :: Quests(pat) <= k <= |nam| && (!HasStar(pat) ==> k == Quests(pat))
        && Matches(pat[TermLength(pat)..], nam[k..], up)
    decreases |pat|
  {
    var rest := pat[TermLength(pat)..];
    if pat == [] || !Wild(pat[0]) {
      assert rest == pat && nam[0..] == nam;
    } else {
      assert pat[1..][TermLength(pat[1..])..] == rest;
      if pat[0] == QUEST {
        QuestMeaning(pat, nam, up);
      } else {
        StarMeaning(pat, nam, up);
      }
    }
  }

  lemma QuestMeaning(pat: seq<nat>, nam: seq<nat>, up: nat -> nat)
    requires pat != [] && pat[0] == QUEST
    ensures Matches(pat, nam, up) <==>
      exists k :: Quests(pat) <= k <= |nam| && (!HasStar(pat) ==> k == Quests(pat))
        && Matches(pat[TermLength(pat)..], nam[k..], up)
    decreases |pat|, 0
  {
    var rest := pat[TermLength(pat)..];
    assert pat[1..][TermLength(pat[1..])..] == rest;
    if nam != [] {
      TermMeaning(pat[1..], nam[1..], up);
      forall k: nat | k <= |nam[1..]| ensures nam[1..][k..] == nam[k + 1..] { }
      if Matches(pat, nam, up) {
        var k :| Quests(pat[1..]) <= k <= |nam[1..]| && (!HasStar(pat[1..]) ==> k == Quests(pat[1..]))
          && Matches(rest, nam[1..][k..], up);
        assert Matches(rest, nam[k + 1..], up);
      }
      forall k | Quests(pat) <= k <= |nam| && (!HasStar(pat) ==> k == Quests(pat)) && Matches(rest, nam[k..], up)
        ensures Matches(pat, nam, up)
      {
        assert nam[1..][k - 1..] == nam[k..];
      }
    }
  }

  lemma StarMeaning(pat: seq<nat>, nam: seq<nat>, up: nat -> nat)
    requires pat != [] && pat[0] == STAR
    ensures Matches(pat, nam, up) <==>
      exists k :: Quests(pat) <= k <= |nam| && (!HasStar(pat) ==> k == Quests(pat))
        && Matches(pat[TermLength(pat)..], nam[k..], up)
    decreases |pat|, 0
  {
    var rest := pat[TermLength(pat)..];
    assert pat[1..][TermLength(pat[1..])..] == rest;
    if Matches(pat, nam, up) {
      var j :| 0 <= j <= |nam| && Matches(pat[1..], nam[j..], up);
      TermMeaning(pat[1..], nam[j..], up);
      var k :| Quests(pat[1..]) <= k <= |nam[j..]| && (!HasStar(pat[1..]) ==> k == Quests(pat[1..]))
        && Matches(rest, nam[j..][k..], up);
      assert nam[j..][k..] == nam[j + k..];
    }
    forall k | Quests(pat) <= k <= |nam| && Matches(rest, nam[k..], up)
      ensures Matches(pat, nam, up)
    {
      var j := k - Quests(pat);
      TermMeaning(pat[1..], nam[j..], up);
      assert nam[j..][k - j..] == nam[k..];
      assert Matches(pat[1..], nam[j..], up);
    }
  }

  lemma {:induction false} HereMeaning(pat: seq<nat>, nam: seq<nat>, recur: nat, up: nat -> nat)
    requires ShortTerms(pat)
    ensures FromHere(pat, nam, recur, up) <==> Matches(pat, nam, up) && Terms(pat) <= recur
    decreases |pat|
  {
    if pat == [] {
    } else if Wild(pat[0]) {
      if recur > 0 {
        TermHere(pat, nam, recur, up);
      }
    } else if nam != [] {
      HereMeaning(pat[1..], nam[1..], recur, up);
    }
  }

  lemma TermHere(pat: seq<nat>, nam: seq<nat>, recur: nat, up: nat -> nat)
    requires ShortTerms(pat) && pat != [] && Wild(pat[0]) && recur > 0
    ensures FromHere(pat, nam, recur, up) <==> Matches(pat, nam, up) && Terms(pat) <= recur
    decreases |pat|, 0
  {
    var rest := pat[TermLength(pat)..];
    SkipMeaning(pat, 0);
    TermMeaning(pat, nam, up);
    forall k | 0 <= k <= |nam|
      ensures FromHere(rest, nam[k..], recur - 1, up) <==> Matches(rest, nam[k..], up) && Terms(rest) <= recur - 1
    {
      HereMeaning(rest, nam[k..], recur - 1, up);
    }
  }

  /** Every accepted pattern has few enough terms. */
  lemma {:induction false} FewTerms(pat: seq<nat>, nam: seq<nat>, recur: nat, up: nat -> nat)
    requires FromHere(pat, nam, recur, up)
    ensures Terms(pat) <= recur
    decreases |pat|
  {
    if pat != [] {
      if Wild(pat[0]) {
        var rest, skip := pat[TermLength(pat)..], SkipWord(pat, 0);
        var k :| skip % 256 <= k <= |nam| && FromHere(rest, nam[k..], recur - 1, up);
        FewTerms(rest, nam[k..], recur - 1, up);
      } else {
        FewTerms(pat[1..], nam[1..], recur, up);
      }
    }
  }

  /** The shortest name the code takes for a pattern: a count of `?` is taken modulo 256. */
  function Shortest(pat: seq<nat>): seq<nat>
    decreases |pat|
  {
    if pat == [] then []
    else if Wild(pat[0]) then seq(Quests(pat) % 256, _ => 1) + Shortest(pat[TermLength(pat)..])
    else [pat[0]] + Shortest(pat[1..])
  }

  /** The characters a name needs by the meaning of the pattern. */
  function Needed(pat: seq<nat>): nat
    decreases |pat|
  {
    if pat == [] then 0
    else if Wild(pat[0]) then Quests(pat) + Needed(pat[TermLength(pat)..])
    else 1 + Needed(pat[1..])
  }

  lemma AfterTerm(pat: seq<nat>, nam: seq<nat>, k: nat, recur: nat, up: nat -> nat)
    requires pat != [] && Wild(pat[0]) && recur > 0 && k == Quests(pat) % 256 && k <= |nam|
    requires FromHere(pat[TermLength(pat)..], nam[k..], recur - 1, up)
    ensures FromHere(pat, nam, recur, up)
  {
    SkipMeaning(pat, 0);
    assert Accepts(pat[TermLength(pat)..], nam, SkipWord(pat, 0), recur - 1, up);
  }

  lemma {:induction false} ShortestAccepted(pat: seq<nat>, recur: nat, up: nat -> nat)
    requires Terms(pat) <= recur && NoEnd(pat)
    ensures FromHere(pat, Shortest(pat), recur, up) && NoEnd(Shortest(pat))
    decreases |pat|
  {
    if pat != [] {
      if Wild(pat[0]) {
        var rest, q := pat[TermLength(pat)..], Quests(pat) % 256;
        ShortestAccepted(rest, recur - 1, up);
        assert Shortest(pat)[q..] == Shortest(rest);
        AfterTerm(pat, Shortest(pat), q, recur, up);
      } else {
        ShortestAccepted(pat[1..], recur, up);
        assert Shortest(pat)[1..] == Shortest(pat[1..]);
      }
    }
  }

  lemma {:induction false} ShortestLength(pat: seq<nat>)
    ensures |Shortest(pat)| <= Needed(pat) && (!ShortTerms(pat) ==> |Shortest(pat)| < Needed(pat))
    decreases |pat|
  {
    if pat != [] {
      if Wild(pat[0]) {
        ShortestLength(pat[TermLength(pat)..]);
      } else {
        ShortestLength(pat[1..]);
      }
    }
  }

  lemma {:induction false} LongEnough(pat: seq<nat>, nam: seq<nat>, up: nat -> nat)
    requires Matches(pat, nam, up)
    ensures |nam| >= Needed(pat)
    decreases |pat|
  {
    if pat != [] {
      if Wild(pat[0]) {
        var rest := pat[TermLength(pat)..];
        TermMeaning(pat, nam, up);
        var k :| Quests(pat) <= k <= |nam| && Matches(rest, nam[k..], up);
        LongEnough(rest, nam[k..], up);
      } else {
        LongEnough(pat[1..], nam[1..], up);
      }
    }
  }

  /** The code is right about a pattern. */
  ghost predicate RightAbout(pat: seq<nat>, up: nat -> nat) {
    forall nam :: NoEnd(nam) ==>
      (Accepts(pat, nam, 0, MAX_TERMS, up) <==> Matches(pat, nam, up) && Terms(pat) <= 4)
  }

  /** The code accepts exactly the names the pattern means, when the terms are few enough: just for the patterns
      whose terms have fewer than 256 `?` (or that have too many terms, and are refused). */
  lemma MatchIsMeaning(pat: seq<nat>, up: nat -> nat)
    requires NoEnd(pat)
    ensures RightAbout(pat, up) <==> ShortTerms(pat) || Terms(pat) > MAX_TERMS
  {
    if ShortTerms(pat) {
      forall nam: seq<nat> | NoEnd(nam)
        ensures Accepts(pat, nam, 0, MAX_TERMS, up) <==> Matches(pat, nam, up) && Terms(pat) <= MAX_TERMS
      {
        HereMeaning(pat, nam, MAX_TERMS, up);
        assert nam[0..] == nam;
      }
    } else if Terms(pat) > MAX_TERMS {
      forall nam: seq<nat> | NoEnd(nam) ensures !Accepts(pat, nam, 0, MAX_TERMS, up) {
        if FromHere(pat, nam[0..], MAX_TERMS, up) { FewTerms(pat, nam[0..], MAX_TERMS, up); }
      }
    } else {
      var nam := Shortest(pat);
      ShortestAccepted(pat, MAX_TERMS, up);
      ShortestLength(pat);
      assert nam[0..] == nam;
      if Matches(pat, nam, up) { LongEnough(pat, nam, up); }
    }
  }

  /** A pattern of n question marks. */
  function AllQuests(n: nat): (p: seq<nat>)
    ensures |p| == n && forall i :: 0 <= i < n ==> p[i] == QUEST
  {
    seq(n, _ => QUEST)
  }

  lemma {:induction false} QuestsCounted(n: nat)
    ensures Quests(AllQuests(n)) == n && TermLength(AllQuests(n)) == n
  {
    if n > 0 {
      assert AllQuests(n)[1..] == AllQuests(n - 1);
      QuestsCounted(n - 1);
    }
  }

  /** 256 question marks match the empty name in the code, though they mean 256 characters. */
  lemma ManyQuests(up: nat -> nat)
    ensures Accepts(AllQuests(256), [], 0, MAX_TERMS, up) && !Matches(AllQuests(256), [], up)
    ensures !RightAbout(AllQuests(256), up)
  {
    var pat: seq<nat> := AllQuests(256);
    QuestsCounted(256);
    assert pat[TermLength(pat)..] == [];
    ShortestAccepted(pat, MAX_TERMS, up);
    var none: seq<nat> := [];
    assert Shortest(pat) == none && none[0..] == none;
  }
}
