/**
 * Rows created in one transaction share their creation time, and a cut by age may then take either.
 * What every such choice has in common, and what some choice can do, for the cut of a retirement, for
 * that of a surge and for the two cuts behind a promotion.
 */
module TieBreaks {
  import opened Instances

  // ---- choosing the oldest rows ------------------------------------------------------------------

  /** A choice of the `n` oldest rows; rows of one age go either way. */
  ghost predicate OldestOf(t: Table, ids: set<Id>, n: nat, chosen: set<Id>) {
    chosen <= ids && |chosen| == n && NotNewer(t, chosen, ids - chosen)
  }

  /** The rows that are no newer than `x`, with `x` itself. */
  function AsOld(t: Table, ids: set<Id>, x: Id): set<Id> {
    set y | y in ids && y in t && x in t && t[y].created <= t[x].created
  }

  /** The rows in every choice of the `n` oldest. */
  function Sure(t: Table, ids: set<Id>, n: nat): set<Id> {
    set x | x in ids && |AsOld(t, ids, x)| <= n
  }

  /** The rows in some choice of the `n` oldest. */
  function Eligible(t: Table, ids: set<Id>, n: nat): set<Id> {
    set x | x in ids && |OlderThan(t, ids, x)| < n
  }

  /** The rows in some choice but not in every one: they share one age. */
  function Contested(t: Table, ids: set<Id>, n: nat): set<Id> {
    Eligible(t, ids, n) - Sure(t, ids, n)
  }

  lemma ContestedShareAge(t: Table, ids: set<Id>, n: nat, x: Id, y: Id)
    requires ids <= t.Keys && x in Contested(t, ids, n) && y in Contested(t, ids, n)
    ensures t[x].created == t[y].created
  {
    if t[x].created < t[y].created {
      CardSub(AsOld(t, ids, x), OlderThan(t, ids, y));
    } else if t[y].created < t[x].created {
      CardSub(AsOld(t, ids, y), OlderThan(t, ids, x));
    }
  }

  lemma SureIsEligible(t: Table, ids: set<Id>, n: nat)
    requires ids <= t.Keys
    ensures Sure(t, ids, n) <= Eligible(t, ids, n)
  {
    forall x | x in Sure(t, ids, n) ensures x in Eligible(t, ids, n) {
      CardMinus(AsOld(t, ids, x), {x});
      CardSub(OlderThan(t, ids, x), AsOld(t, ids, x) - {x});
    }
  }

  lemma ChosenIsEligible(t: Table, ids: set<Id>, n: nat, chosen: set<Id>, x: Id)
    requires ids <= t.Keys && OldestOf(t, ids, n, chosen) && x in chosen
    ensures x in Eligible(t, ids, n)
  {
    forall y | y in OlderThan(t, ids, x) ensures y in chosen - {x} {
      assert Older(t, x, y) <==> t[x].created <= t[y].created;
    }
    CardMinus(chosen, {x});
    CardSub(OlderThan(t, ids, x), chosen - {x});
  }

  lemma SureIsChosen(t: Table, ids: set<Id>, n: nat, chosen: set<Id>, x: Id)
    requires ids <= t.Keys && OldestOf(t, ids, n, chosen) && x in Sure(t, ids, n)
    ensures x in chosen
  {
    if x !in chosen {
      forall y | y in chosen ensures y in AsOld(t, ids, x) {
        assert Older(t, y, x);
      }
      CardPlus(chosen, {x});
      CardSub(chosen + {x}, AsOld(t, ids, x));
    }
  }

  lemma BetweenIsNotNewer(t: Table, ids: set<Id>, n: nat, chosen: set<Id>, a: Id, b: Id)
    requires ids <= t.Keys && Sure(t, ids, n) <= chosen <= Eligible(t, ids, n)
    requires a in chosen && b in ids - chosen
    ensures Older(t, a, b)
  {
    if t[b].created < t[a].created {
      CardSub(AsOld(t, ids, b), OlderThan(t, ids, a));
    }
  }

  /** The choices of the `n` oldest rows are the sets of that size with every sure row and no ineligible one. */
  lemma OldestIff(t: Table, ids: set<Id>, n: nat, chosen: set<Id>)
    requires ids <= t.Keys && |chosen| == n
    ensures OldestOf(t, ids, n, chosen) <==> Sure(t, ids, n) <= chosen <= Eligible(t, ids, n)
  {
    if OldestOf(t, ids, n, chosen) {
      forall x | x in chosen ensures x in Eligible(t, ids, n) {
        ChosenIsEligible(t, ids, n, chosen, x);
      }
      forall x | x in Sure(t, ids, n) ensures x in chosen {
        SureIsChosen(t, ids, n, chosen, x);
      }
    }
    if Sure(t, ids, n) <= chosen <= Eligible(t, ids, n) {
      forall a, b | a in chosen && b in ids - chosen ensures Older(t, a, b) {
        BetweenIsNotNewer(t, ids, n, chosen, a, b);
      }
    }
  }

  // ---- there is such a choice --------------------------------------------------------------------

  lemma {:induction false} Extremes(t: Table, ids: set<Id>) returns (first: Id, last: Id)
    requires {} < ids <= t.Keys
    ensures first in ids && last in ids
    ensures forall x :: x in ids ==> t[first].created <= t[x].created <= t[last].created
  {
    var x :| x in ids;
    first, last := x, x;
    if ids != {x} {
      var a, b := Extremes(t, ids - {x});
      first := if t[a].created < t[x].created then a else x;
      last := if t[b].created > t[x].created then b else x;
    }
  }

  lemma SureFew(t: Table, ids: set<Id>, n: nat)
    requires ids <= t.Keys
    ensures |Sure(t, ids, n)| <= n
  {
    if Sure(t, ids, n) != {} {
      var _, last := Extremes(t, Sure(t, ids, n));
      CardSub(Sure(t, ids, n), AsOld(t, ids, last));
    }
  }

  lemma EligibleMany(t: Table, ids: set<Id>, n: nat)
    requires n <= |ids| && ids <= t.Keys
    ensures n <= |Eligible(t, ids, n)|
  {
    var rest := ids - Eligible(t, ids, n);
    CardMinus(ids, Eligible(t, ids, n));
    if rest != {} {
      var first, _ := Extremes(t, rest);
      CardSub(OlderThan(t, ids, first), Eligible(t, ids, n));
    }
  }

  lemma {:induction false} Some(all: set<Id>, n: nat) returns (some: set<Id>)
    requires n <= |all|
    ensures some <= all && |some| == n
  {
    some := {};
    if n > 0 {
      var x :| x in all;
      CardMinus(all, {x});
      some := Some(all - {x}, n - 1);
      CardPlus(some, {x});
      some := some + {x};
    }
  }

  /** `n` of the elements, with as few of `shunned` as possible. */
  lemma SomeBut(all: set<Id>, n: nat, shunned: set<Id>) returns (some: set<Id>)
    requires n <= |all|
    ensures some <= all && |some| == n && |some * shunned| == Max(0, n - |all - shunned|)
  {
    if n <= |all - shunned| {
      some := Some(all - shunned, n);
      assert some * shunned == {};
    } else {
      assert all == (all - shunned) + (all * shunned);
      CardPlus(all - shunned, all * shunned);
      var more := Some(all * shunned, n - |all - shunned|);
      CardPlus(all - shunned, more);
      some := (all - shunned) + more;
      assert some * shunned == more;
    }
  }

  /** Of `shunned`, a choice cannot leave out the sure rows and those that the others cannot replace. */
  function Forced(t: Table, ids: set<Id>, n: nat, shunned: set<Id>): int {
    |Sure(t, ids, n) * shunned| + Max(0, n - |Sure(t, ids, n)| - |Contested(t, ids, n) - shunned|)
  }

  lemma SplitChoice(sure: set<Id>, some: set<Id>, shunned: set<Id>)
    requires sure !! some
    ensures |sure + some| == |sure| + |some|
    ensures |(sure + some) * shunned| == |sure * shunned| + |some * shunned|
  {
    CardPlus(sure, some);
    CardPlus(sure * shunned, some * shunned);
    assert (sure + some) * shunned == sure * shunned + some * shunned;
  }

  lemma FewOutside(some: set<Id>, contested: set<Id>, shunned: set<Id>)
    requires some <= contested
    ensures |some * shunned| >= |some| - |contested - shunned|
  {
    CardPlus(some * shunned, some - shunned);
    assert some * shunned + (some - shunned) == some;
    CardSub(some - shunned, contested - shunned);
  }

  lemma HoldsAtLeast(sure: set<Id>, contested: set<Id>, chosen: set<Id>, shunned: set<Id>)
    requires sure <= chosen && chosen - sure <= contested
    ensures |chosen * shunned| >= |sure * shunned| + Max(0, |chosen| - |sure| - |contested - shunned|)
  {
    var some := chosen - sure;
    assert sure + some == chosen;
    SplitChoice(sure, some, shunned);
    FewOutside(some, contested, shunned);
  }

  lemma EveryChoiceHolds(t: Table, ids: set<Id>, n: nat, chosen: set<Id>, shunned: set<Id>)
    requires ids <= t.Keys && OldestOf(t, ids, n, chosen)
    ensures |chosen * shunned| >= Forced(t, ids, n, shunned)
  {
    OldestIff(t, ids, n, chosen);
    assert chosen - Sure(t, ids, n) <= Contested(t, ids, n);
    HoldsAtLeast(Sure(t, ids, n), Contested(t, ids, n), chosen, shunned);
  }

  /** With any rows of the contested ones, as many as are missing, the sure rows make a choice. */
  lemma MakesChoice(t: Table, ids: set<Id>, n: nat, some: set<Id>)
    requires ids <= t.Keys && some <= Contested(t, ids, n) && |Sure(t, ids, n)| + |some| == n
    ensures OldestOf(t, ids, n, Sure(t, ids, n) + some)
  {
    SureIsEligible(t, ids, n);
    CardPlus(Sure(t, ids, n), some);
    OldestIff(t, ids, n, Sure(t, ids, n) + some);
  }

  lemma EnoughContested(t: Table, ids: set<Id>, n: nat)
    requires n <= |ids| && ids <= t.Keys
    ensures |Sure(t, ids, n)| <= n <= |Sure(t, ids, n)| + |Contested(t, ids, n)|
  {
    SureFew(t, ids, n);
    EligibleMany(t, ids, n);
    SureIsEligible(t, ids, n);
    CardMinus(Eligible(t, ids, n), Sure(t, ids, n));
  }

  lemma SomeChoiceHolds(t: Table, ids: set<Id>, n: nat, shunned: set<Id>) returns (chosen: set<Id>)
    requires n <= |ids| && ids <= t.Keys
    ensures OldestOf(t, ids, n, chosen) && |chosen * shunned| == Forced(t, ids, n, shunned)
  {
    EnoughContested(t, ids, n);
    var some := SomeBut(Contested(t, ids, n), n - |Sure(t, ids, n)|, shunned);
    MakesChoice(t, ids, n, some);
    SplitChoice(Sure(t, ids, n), some, shunned);
    chosen := Sure(t, ids, n) + some;
  }

  /** An eligible row is in some choice. */
  lemma SomeChoiceWith(t: Table, ids: set<Id>, n: nat, x: Id) returns (chosen: set<Id>)
    requires n <= |ids| && ids <= t.Keys && x in Eligible(t, ids, n)
    ensures OldestOf(t, ids, n, chosen) && x in chosen
  {
    EnoughContested(t, ids, n);
    var sure, contested := Sure(t, ids, n), Contested(t, ids, n);
    var some;
    if x in sure {
      some := Some(contested, n - |sure|);
    } else {
      ContestedMeansRoom(t, ids, n, x);
      CardMinus(contested, {x});
      some := Some(contested - {x}, n - |sure| - 1);
      CardPlus(some, {x});
      some := some + {x};
    }
    MakesChoice(t, ids, n, some);
    chosen := sure + some;
  }

  /** A row that is not sure is left out of some choice. */
  lemma SomeChoiceWithout(t: Table, ids: set<Id>, n: nat, x: Id) returns (chosen: set<Id>)
    requires n <= |ids| && ids <= t.Keys && x in ids - Sure(t, ids, n)
    ensures OldestOf(t, ids, n, chosen) && x !in chosen
  {
    EnoughContested(t, ids, n);
    var sure, contested := Sure(t, ids, n), Contested(t, ids, n);
    if x in contested {
      MoreEligible(t, ids, n, x);
      SureIsEligible(t, ids, n);
      CardMinus(Eligible(t, ids, n), sure);
      CardMinus(contested, {x});
    }
    assert x !in contested ==> contested - {x} == contested;
    var some := Some(contested - {x}, n - |sure|);
    MakesChoice(t, ids, n, some);
    chosen := sure + some;
  }

  lemma MoreEligible(t: Table, ids: set<Id>, n: nat, x: Id)
    requires ids <= t.Keys && x in Contested(t, ids, n)
    ensures |Eligible(t, ids, n)| > n
  {
    forall y | y in AsOld(t, ids, x) ensures y in Eligible(t, ids, n) {
      CardSub(OlderThan(t, ids, y), OlderThan(t, ids, x));
    }
    CardSub(AsOld(t, ids, x), Eligible(t, ids, n));
  }

  lemma ContestedMeansRoom(t: Table, ids: set<Id>, n: nat, x: Id)
    requires ids <= t.Keys && x in Contested(t, ids, n)
    ensures |Sure(t, ids, n)| < n
  {
    forall y | y in Sure(t, ids, n) ensures y in OlderThan(t, ids, x) {
      if t[x].created <= t[y].created {
        CardSub(AsOld(t, ids, x), AsOld(t, ids, y));
      }
    }
    CardSub(Sure(t, ids, n), OlderThan(t, ids, x));
  }

  // ---- retirement --------------------------------------------------------------------------------

  lemma SomePruning(env: Env, t: Table) returns (pruned: set<Id>)
    ensures OldestOf(t, WarmIds(t), Max(0, |WarmIds(t)| - env.budget), pruned)
  {
    pruned := SomeChoiceHolds(t, WarmIds(t), Max(0, |WarmIds(t)| - env.budget), {});
  }

  /** A cut may spare any choice of the oldest rows. */
  lemma CutSparing(env: Env, t: Table, target: nat, spared: set<Id>) returns (cut: Cut)
    requires spared <= OffIds(env, t) && NotNewer(t, spared, OffIds(env, t) - spared)
    requires |OffIds(env, t)| - |spared| == Max(0, |ActiveIds(t)| - target)
    ensures CutTo(env, t, target, cut) && cut.victims == OffIds(env, t) - spared
  {
    var victims := OffIds(env, t) - spared;
    CardMinus(OffIds(env, t), spared);
    assert OffIds(env, t) - victims == spared;
    var pruned := SomePruning(env, Trim(env, t, victims));
    cut := Cut(victims, pruned);
  }

  lemma OldestElsewhere(t: Table, u: Table, ids: set<Id>, n: nat, chosen: set<Id>)
    requires ids <= t.Keys && ids <= u.Keys && (forall x :: x in ids ==> t[x].created == u[x].created)
    requires OldestOf(t, ids, n, chosen)
    ensures OldestOf(u, ids, n, chosen)
  {
    forall a, b | a in chosen && b in ids - chosen ensures Older(u, a, b) {
      assert Older(t, a, b);
    }
  }

  lemma RetirementSparing(env: Env, desired: nat, t: Table, spared: set<Id>) returns (r: Retirement)
    requires |ReadyOffIds(env, t)| >= desired && |OffIds(env, t)| > desired
    requires OldestOf(t, OffIds(env, t), desired, spared)
    ensures Retires(env, desired, t, r) && r.cut.victims == OffIds(env, t) - spared
  {
    WithoutDraining(env, t);
    var left := t - DrainingIds(env, t);
    assert OffIds(env, left) == OffIds(env, t);
    OldestElsewhere(t, left, OffIds(env, t), desired, spared);
    var cut := CutSparing(env, left, desired, spared);
    r := Retirement(DrainingIds(env, t), cut);
  }

  lemma RetirementSparesOldest(env: Env, desired: nat, t: Table, r: Retirement)
    requires Retires(env, desired, t, r) && |ReadyOffIds(env, t)| >= desired
    requires |OffIds(env, t)| > desired
    ensures OldestOf(t, OffIds(env, t), desired, OffIds(env, t) - r.cut.victims)
  {
    WithoutDraining(env, t);
    RetirementLeaves(env, desired, t, r);
    var left, off := t - r.retired, OffIds(env, t);
    var spared := off - r.cut.victims;
    assert off - spared == r.cut.victims;
    assert OffIds(env, left) == off;
    assert OldestOf(left, off, desired, spared);
    OldestElsewhere(left, t, off, desired, spared);
  }

  /**
   * Retirement is sure to leave the wanted number of ready rows exactly when every row off the draining
   * servers with fewer than that many strictly older ones is ready.
   */
  lemma RetirementKeepsReadyIff(env: Env, desired: nat, t: Table)
    requires |ReadyOffIds(env, t)| >= desired
    ensures (forall r :: Retires(env, desired, t, r) ==> |ReadyOffIds(env, RetireTable(env, t, r))| >= desired)
            <==> forall x :: x in OffIds(env, t) && |OlderThan(t, OffIds(env, t), x)| < desired ==>
                               x in ReadyOffIds(env, t)
  {
    if Eligible(t, OffIds(env, t), desired) <= ReadyOffIds(env, t) {
      forall r | Retires(env, desired, t, r)
        ensures |ReadyOffIds(env, RetireTable(env, t, r))| >= desired
      {
        OldestReadyStay(env, desired, t, r);
      }
    } else {
      var x :| x in Eligible(t, OffIds(env, t), desired) && x !in ReadyOffIds(env, t);
      var r := UnreadyRowStays(env, desired, t, x);
    }
    assert forall x :: x in Eligible(t, OffIds(env, t), desired)
                       <==> x in OffIds(env, t) && |OlderThan(t, OffIds(env, t), x)| < desired;
  }

  lemma OldestReadyStay(env: Env, desired: nat, t: Table, r: Retirement)
    requires Retires(env, desired, t, r) && |ReadyOffIds(env, t)| >= desired
    requires Eligible(t, OffIds(env, t), desired) <= ReadyOffIds(env, t)
    ensures |ReadyOffIds(env, RetireTable(env, t, r))| >= desired
  {
    var off := OffIds(env, t);
    StrengthKeptIff(env, desired, t, r);
    if |off| > desired {
      RetirementSparesOldest(env, desired, t, r);
      OldestIff(t, off, desired, off - r.cut.victims);
    } else {
      forall x | x in off ensures x in Eligible(t, off, desired) {
        RankBelow(t, off, x);
      }
    }
  }

  lemma UnreadyRowStays(env: Env, desired: nat, t: Table, x: Id) returns (r: Retirement)
    requires |ReadyOffIds(env, t)| >= desired
    requires x in Eligible(t, OffIds(env, t), desired) - ReadyOffIds(env, t)
    ensures Retires(env, desired, t, r) && |ReadyOffIds(env, RetireTable(env, t, r))| < desired
  {
    var off := OffIds(env, t);
    WithoutDraining(env, t);
    CardMinus(off, {x});
    CardSub(ReadyOffIds(env, t), off - {x});
    var spared := SomeChoiceWith(t, off, desired, x);
    r := RetirementSparing(env, desired, t, spared);
    StrengthKeptIff(env, desired, t, r);
    assert x in off - r.cut.victims;
  }

  /**
   * Whatever rows of one age it takes, a pass that is not deferred is sure to end with the wanted number
   * ready off the draining servers exactly when that many were ready there before retirement and each of
   * the oldest rows there was.
   */
  lemma PassKeepsReadyIff(p: Pass, desired: nat, t: Table)
    requires Passes(p, desired, t) && !p.deferred
    ensures (forall r :: Retires(p.env, desired, p.settled, r) ==>
                           && Passes(p.(retirement := r), desired, t)
                           && |ReadyOffIds(p.env, PassTable(p.(retirement := r)))| >= desired)
            <==> && |ReadyOffIds(p.env, p.settled)| >= desired
                 && forall x :: x in OffIds(p.env, p.settled)
                                && |OlderThan(p.settled, OffIds(p.env, p.settled), x)| < desired ==>
                                  x in ReadyOffIds(p.env, p.settled)
  {
    var env, u := p.env, p.settled;
    forall r | Retires(env, desired, u, r)
      ensures Passes(p.(retirement := r), desired, t) && PassTable(p.(retirement := r)) == RetireTable(env, u, r)
    {
    }
    if |ReadyOffIds(env, u)| >= desired {
      RetirementKeepsReadyIff(env, desired, u);
    } else {
      ShortStaysShort(env, desired, u, p.retirement);
      assert p.(retirement := p.retirement) == p;
    }
  }

  lemma ShortStaysShort(env: Env, desired: nat, t: Table, r: Retirement)
    requires Retires(env, desired, t, r) && |ReadyOffIds(env, t)| < desired
    ensures |ReadyOffIds(env, RetireTable(env, t, r))| < desired
  {
    if DrainingIds(env, t) == {} {
      ReadyAfter(env, desired, t, r);
      CardSub(ReadyOffIds(env, t) - r.cut.victims, ReadyOffIds(env, t));
    } else {
      RetirementWaits(env, desired, t, r);
    }
  }

  // ---- the surge ---------------------------------------------------------------------------------

  lemma SurgeSparing(env: Env, desired: nat, t: Table, clock: nat, spared: set<Id>) returns (s: Surge)
    requires |OffIds(env, t)| > desired && OldestOf(t, OffIds(env, t), desired, spared)
    ensures Surges(env, desired, t, clock, s) && s.cut.victims == OffIds(env, t) - spared && s.promoted == {}
  {
    OffCount(env, t);
    var cut := CutSparing(env, t, desired + |DrainingIds(env, t)|, spared);
    CutIsSurge(env, desired, t, clock, cut);
    s := Surge(cut, {}, {});
  }

  lemma SurgeSparesOldest(env: Env, desired: nat, t: Table, clock: nat, s: Surge)
    requires Surges(env, desired, t, clock, s) && |OffIds(env, t)| > desired
    ensures OldestOf(t, OffIds(env, t), desired, OffIds(env, t) - s.cut.victims)
  {
    OffCount(env, t);
    CardMinus(OffIds(env, t), s.cut.victims);
    assert OffIds(env, t) - (OffIds(env, t) - s.cut.victims) == s.cut.victims;
  }

  /** The ready rows that a cut leaves: those on draining servers and the spared ones. */
  lemma ReadyLeft(env: Env, t: Table, spared: set<Id>)
    requires spared <= OffIds(env, t)
    ensures |ReadyIds(env, t) - (OffIds(env, t) - spared)|
            == |ReadyIds(env, t) * DrainingIds(env, t)| + |spared * ReadyIds(env, t)|
  {
    var ready, draining := ReadyIds(env, t), DrainingIds(env, t);
    assert ready <= ActiveIds(t);
    assert ready - (OffIds(env, t) - spared) == ready * draining + spared * ready;
    CardPlus(ready * draining, spared * ready);
  }

  /** The ready rows that no surge can cut, counting those of one age as a whole. */
  function ReadyThroughout(env: Env, desired: nat, t: Table): int {
    |ReadyIds(env, t) * DrainingIds(env, t)| + Forced(t, OffIds(env, t), desired, ReadyIds(env, t))
  }

  /**
   * A surge is sure to keep the wanted number of rows ready exactly when that many are ready on draining
   * servers, among the rows off them that every cut spares, and among those of the age at which the cut
   * falls once the unready ones of that age are spared first.
   */
  lemma SurgeKeepsReadyIff(env: Env, desired: nat, t: Table, clock: nat)
    requires |ReadyIds(env, t)| >= desired
    ensures (forall s :: Surges(env, desired, t, clock, s) ==>
                           |ReadyIds(env, SurgeTable(env, t, clock, s))| >= desired)
            <==> ReadyThroughout(env, desired, t) >= desired
  {
    if ReadyThroughout(env, desired, t) >= desired {
      forall s | Surges(env, desired, t, clock, s)
        ensures |ReadyIds(env, SurgeTable(env, t, clock, s))| >= desired
      {
        EnoughStayReady(env, desired, t, clock, s);
      }
    } else {
      var s := TooFewStayReady(env, desired, t, clock);
    }
  }

  lemma NoVictims(env: Env, desired: nat, t: Table, clock: nat, s: Surge)
    requires Surges(env, desired, t, clock, s) && |OffIds(env, t)| <= desired
    ensures s.cut.victims == {}
  {
    OffCount(env, t);
    CardZero(s.cut.victims);
  }

  lemma SparedHold(env: Env, desired: nat, t: Table, clock: nat, s: Surge)
    requires Surges(env, desired, t, clock, s) && |OffIds(env, t)| > desired
    ensures |ReadyIds(env, t) - s.cut.victims| >= ReadyThroughout(env, desired, t)
  {
    var off := OffIds(env, t);
    var spared := off - s.cut.victims;
    assert off - spared == s.cut.victims;
    SurgeSparesOldest(env, desired, t, clock, s);
    EveryChoiceHolds(t, off, desired, spared, ReadyIds(env, t));
    ReadyLeft(env, t, spared);
  }

  lemma EnoughStayReady(env: Env, desired: nat, t: Table, clock: nat, s: Surge)
    requires Surges(env, desired, t, clock, s) && |ReadyIds(env, t)| >= desired
    requires ReadyThroughout(env, desired, t) >= desired
    ensures |ReadyIds(env, SurgeTable(env, t, clock, s))| >= desired
  {
    var ready := ReadyIds(env, t);
    if |OffIds(env, t)| > desired {
      SparedHold(env, desired, t, clock, s);
    } else {
      NoVictims(env, desired, t, clock, s);
      assert ready - {} == ready;
    }
    ReadyThroughSurge(env, desired, t, clock, s);
    CardSub(ready - s.cut.victims, ReadyIds(env, SurgeTable(env, t, clock, s)));
  }

  lemma AllSure(t: Table, ids: set<Id>, n: nat)
    requires |ids| <= n
    ensures Sure(t, ids, n) == ids
  {
    forall x | x in ids ensures x in Sure(t, ids, n) {
      CardSub(AsOld(t, ids, x), ids);
    }
  }

  lemma FewAreAllKept(env: Env, desired: nat, t: Table)
    requires |OffIds(env, t)| <= desired
    ensures ReadyThroughout(env, desired, t) >= |ReadyIds(env, t)|
  {
    var off, ready := OffIds(env, t), ReadyIds(env, t);
    AllSure(t, off, desired);
    ReadyLeft(env, t, off);
    assert ready - (off - off) == ready;
  }

  lemma TooFewStayReady(env: Env, desired: nat, t: Table, clock: nat) returns (s: Surge)
    requires |ReadyIds(env, t)| >= desired && ReadyThroughout(env, desired, t) < desired
    ensures Surges(env, desired, t, clock, s) && |ReadyIds(env, SurgeTable(env, t, clock, s))| < desired
  {
    var ready, off := ReadyIds(env, t), OffIds(env, t);
    if |off| <= desired {
      FewAreAllKept(env, desired, t);
    }
    var spared := SomeChoiceHolds(t, off, desired, ready);
    s := SurgeSparing(env, desired, t, clock, spared);
    ReadyThroughSurge(env, desired, t, clock, s);
    ReadyLeft(env, t, spared);
  }

  // ---- promotion ---------------------------------------------------------------------------------

  /** The rows that are no older than `x`, with `x` itself. */
  function AsNew(t: Table, ids: set<Id>, x: Id): set<Id> {
    set y | y in ids && y in t && x in t && t[y].created >= t[x].created
  }

  /**
   * The warm rows that some surge promotes: pruning may keep them, and among the kept rows fewer are
   * strictly older than active rows are missing.
   */
  function Promotable(env: Env, desired: nat, t: Table): set<Id> {
    set x | x in WarmIds(t)
            && |NewerThan(t, WarmIds(t), x)| < env.budget
            && Min(|WarmIds(t)|, env.budget) - |AsNew(t, WarmIds(t), x)| < desired - |ActiveIds(t)|
  }

  lemma AgeSplit(t: Table, ids: set<Id>, x: Id)
    requires ids <= t.Keys && x in ids
    ensures |OlderThan(t, ids, x)| == |ids| - |AsNew(t, ids, x)|
    ensures |AsOld(t, ids, x)| == |ids| - |NewerThan(t, ids, x)|
  {
    assert OlderThan(t, ids, x) == ids - AsNew(t, ids, x);
    assert AsOld(t, ids, x) == ids - NewerThan(t, ids, x);
    CardMinus(ids, AsNew(t, ids, x));
    CardMinus(ids, NewerThan(t, ids, x));
  }

  /** How many warm rows a surge prunes when it has no active row to cut, and how many it promotes. */
  function Excess(env: Env, t: Table): nat { Max(0, |WarmIds(t)| - env.budget) }

  function Missing(env: Env, desired: nat, t: Table): nat {
    var warm, target := Min(|WarmIds(t)|, env.budget), desired + |DrainingIds(env, t)|;
    Min(warm, Max(0, desired - Max(|ActiveIds(t)|, target - warm)))
  }

  lemma {:induction false} Above(used: set<Id>) returns (bound: Id)
    ensures forall x :: x in used ==> x < bound
  {
    bound := 0;
    if used != {} {
      var x :| x in used;
      var rest := Above(used - {x});
      bound := Max(rest, x + 1);
      assert forall y :: y in used ==> y == x || y in used - {x};
    }
  }

  lemma {:induction false} Unused(used: set<Id>, n: nat) returns (ids: set<Id>)
    ensures ids !! used && |ids| == n
    decreases n
  {
    ids := {};
    if n > 0 {
      var x := Above(used);
      ids := Unused(used + {x}, n - 1);
      CardPlus(ids, {x});
      ids := ids + {x};
    }
  }

  lemma PrunedIsCut(env: Env, target: nat, t: Table, pruned: set<Id>)
    requires |ActiveIds(t)| <= target && OldestOf(t, WarmIds(t), Excess(env, t), pruned)
    ensures CutTo(env, t, target, Cut({}, pruned))
    ensures CutTable(env, t, Cut({}, pruned)) == t - pruned
  {
    TrimNone(env, t);
  }

  lemma PrunedCounts(env: Env, t: Table, pruned: set<Id>)
    requires OldestOf(t, WarmIds(t), Excess(env, t), pruned)
    ensures WarmIds(t - pruned) == WarmIds(t) - pruned && ActiveIds(t - pruned) == ActiveIds(t)
    ensures |WarmIds(t) - pruned| == Min(|WarmIds(t)|, env.budget)
  {
    PruneSets(env, t, pruned);
    CardMinus(WarmIds(t), pruned);
  }

  lemma WarmAsBefore(t: Table, pruned: set<Id>, added: set<Id>, clock: nat, n: nat, chosen: set<Id>)
    requires pruned <= WarmIds(t) && added !! t.Keys
    ensures var grown, kept := Create(t - pruned, added, clock), WarmIds(t) - pruned;
            && (forall x :: x in kept ==> x in grown && grown[x] == t[x])
            && (OldestOf(t, kept, n, chosen) <==> OldestOf(grown, kept, n, chosen))
  {
    var grown, kept := Create(t - pruned, added, clock), WarmIds(t) - pruned;
    assert forall x :: x in kept ==> x in grown && grown[x] == t[x];
    if OldestOf(t, kept, n, chosen) {
      OldestElsewhere(t, grown, kept, n, chosen);
    }
    if OldestOf(grown, kept, n, chosen) {
      OldestElsewhere(grown, t, kept, n, chosen);
    }
  }

  lemma GrowthCounts(env: Env, desired: nat, t: Table, clock: nat, pruned: set<Id>, added: set<Id>)
    requires OldestOf(t, WarmIds(t), Excess(env, t), pruned) && added !! t.Keys
    requires |ActiveIds(t)| < desired + |DrainingIds(env, t)|
    requires |added| == Max(0, desired + |DrainingIds(env, t)| - |ActiveIds(t)| - |WarmIds(t) - pruned|)
    ensures var grown := Create(t - pruned, added, clock);
            && WarmIds(grown) == WarmIds(t) - pruned
            && Min(|WarmIds(grown)|, Max(0, desired - |ActiveIds(grown)|)) == Missing(env, desired, t)
  {
    PrunedCounts(env, t, pruned);
    CreateSets(t - pruned, added, clock);
    CreateCounts(t - pruned, added, clock);
  }

  lemma PromotingIsSurge(env: Env, desired: nat, t: Table, clock: nat, s: Surge, grown: Table)
    requires |ActiveIds(t)| < desired + |DrainingIds(env, t)| && s.cut.victims == {} && s.added !! t.Keys
    requires OldestOf(t, WarmIds(t), Excess(env, t), s.cut.pruned)
    requires |s.added|
             == Max(0, desired + |DrainingIds(env, t)| - |ActiveIds(t)| - |WarmIds(t) - s.cut.pruned|)
    requires grown == Create(t - s.cut.pruned, s.added, clock)
    requires OldestOf(grown, WarmIds(grown), Min(|WarmIds(grown)|, Max(0, desired - |ActiveIds(grown)|)), s.promoted)
    ensures Surges(env, desired, t, clock, s)
  {
    PrunedIsCut(env, desired + |DrainingIds(env, t)|, t, s.cut.pruned);
    PrunedCounts(env, t, s.cut.pruned);
    assert s.cut == Cut({}, s.cut.pruned);
    assert Grown(env, t, clock, s) == grown;
  }

  /** Any pruning and promotion by age make a surge when no active row is in excess. */
  lemma SurgePromoting(env: Env, desired: nat, t: Table, clock: nat, pruned: set<Id>, promoted: set<Id>)
    returns (s: Surge)
    requires |ActiveIds(t)| < desired + |DrainingIds(env, t)|
    requires OldestOf(t, WarmIds(t), Excess(env, t), pruned)
    requires OldestOf(t, WarmIds(t) - pruned, Missing(env, desired, t), promoted)
    ensures Surges(env, desired, t, clock, s) && s.promoted == promoted
  {
    var n := Max(0, desired + |DrainingIds(env, t)| - |ActiveIds(t)| - |WarmIds(t) - pruned|);
    var added := Unused(t.Keys, n);
    GrowthCounts(env, desired, t, clock, pruned, added);
    WarmAsBefore(t, pruned, added, clock, Missing(env, desired, t), promoted);
    s := Surge(Cut({}, pruned), added, promoted);
    PromotingIsSurge(env, desired, t, clock, s, Create(t - pruned, added, clock));
  }

  lemma CutPrunes(env: Env, target: nat, t: Table, cut: Cut)
    requires CutTo(env, t, target, cut) && |ActiveIds(t)| <= target
    ensures cut.victims == {} && CutTable(env, t, cut) == t - cut.pruned
    ensures OldestOf(t, WarmIds(t), Excess(env, t), cut.pruned)
  {
    CardZero(cut.victims);
    TrimNone(env, t);
  }

  /** Such a surge does just that. */
  lemma SurgePromotes(env: Env, desired: nat, t: Table, clock: nat, s: Surge)
    requires Surges(env, desired, t, clock, s) && |ActiveIds(t)| < desired + |DrainingIds(env, t)|
    ensures OldestOf(t, WarmIds(t), Excess(env, t), s.cut.pruned)
    ensures OldestOf(t, WarmIds(t) - s.cut.pruned, Missing(env, desired, t), s.promoted)
    ensures forall x :: x in s.promoted ==> x in t && x in Grown(env, t, clock, s) && Grown(env, t, clock, s)[x] == t[x]
  {
    var pruned := s.cut.pruned;
    CutPrunes(env, desired + |DrainingIds(env, t)|, t, s.cut);
    PrunedCounts(env, t, pruned);
    GrowthCounts(env, desired, t, clock, pruned, s.added);
    WarmAsBefore(t, pruned, s.added, clock, Missing(env, desired, t), s.promoted);
  }

  lemma PromotedArePromotable(env: Env, desired: nat, t: Table, pruned: set<Id>, promoted: set<Id>, x: Id)
    requires DrainingIds(env, t) == {} && |ActiveIds(t)| < desired
    requires OldestOf(t, WarmIds(t), Excess(env, t), pruned)
    requires OldestOf(t, WarmIds(t) - pruned, Missing(env, desired, t), promoted) && x in promoted
    ensures x in Promotable(env, desired, t)
  {
    var warm, kept := WarmIds(t), WarmIds(t) - pruned;
    CardMinus(warm, pruned);
    OldestIff(t, warm, Excess(env, t), pruned);
    AgeSplit(t, warm, x);
    ChosenIsEligible(t, kept, Missing(env, desired, t), promoted, x);
    AgeSplit(t, kept, x);
    CardSub(AsNew(t, kept, x), AsNew(t, warm, x));
  }

  /** A promotable row that pruning keeps is among the oldest kept. */
  lemma PromotableIsEligible(env: Env, desired: nat, t: Table, pruned: set<Id>, x: Id)
    requires DrainingIds(env, t) == {} && |ActiveIds(t)| < desired
    requires OldestOf(t, WarmIds(t), Excess(env, t), pruned)
    requires x in Promotable(env, desired, t) && x !in pruned
    ensures x in Eligible(t, WarmIds(t) - pruned, Missing(env, desired, t))
  {
    var warm, kept := WarmIds(t), WarmIds(t) - pruned;
    CardMinus(warm, pruned);
    RankBelow(t, kept, x);
    if OlderThan(t, kept, x) != {} {
      var y :| y in OlderThan(t, kept, x);
      forall z | z in AsNew(t, warm, x) ensures z in kept {
        assert Older(t, z, y) <==> t[z].created <= t[y].created;
      }
      assert AsNew(t, kept, x) == AsNew(t, warm, x);
      AgeSplit(t, kept, x);
    }
  }

  lemma SomeSurgePromotes(env: Env, desired: nat, t: Table, clock: nat, x: Id) returns (s: Surge)
    requires DrainingIds(env, t) == {} && |ActiveIds(t)| < desired && x in Promotable(env, desired, t)
    ensures Surges(env, desired, t, clock, s) && x in s.promoted
  {
    var warm := WarmIds(t);
    AgeSplit(t, warm, x);
    CardSub({x}, warm);
    RankBelow(t, warm, x);
    var pruned := SomeChoiceWithout(t, warm, Excess(env, t), x);
    CardMinus(warm, pruned);
    PromotableIsEligible(env, desired, t, pruned, x);
    var promoted := SomeChoiceWith(t, warm - pruned, Missing(env, desired, t), x);
    s := SurgePromoting(env, desired, t, clock, pruned, promoted);
  }

  lemma SurgeExists(env: Env, desired: nat, t: Table, clock: nat) returns (s: Surge)
    requires |ActiveIds(t)| < desired + |DrainingIds(env, t)|
    ensures Surges(env, desired, t, clock, s)
  {
    var pruned := SomeChoiceHolds(t, WarmIds(t), Excess(env, t), {});
    PrunedCounts(env, t, pruned);
    var promoted := SomeChoiceHolds(t, WarmIds(t) - pruned, Missing(env, desired, t), {});
    s := SurgePromoting(env, desired, t, clock, pruned, promoted);
  }

  /** The promoted rows on draining servers are promotable ones there. */
  lemma PromotedOnDrainingIn(env: Env, desired: nat, t: Table, clock: nat, s: Surge)
    requires Surges(env, desired, t, clock, s) && DrainingIds(env, t) == {} && |ActiveIds(t)| < desired
    ensures PromotedOnDraining(env, t, clock, s) == OnDrainingOf(env, t, s.promoted)
    ensures s.promoted <= Promotable(env, desired, t)
  {
    SurgePromotes(env, desired, t, clock, s);
    forall x | x in s.promoted ensures x in Promotable(env, desired, t) {
      PromotedArePromotable(env, desired, t, s.cut.pruned, s.promoted, x);
    }
  }

  /** The tables that every surge leaves with the wanted number of active rows off the draining servers. */
  ghost predicate AlwaysCovers(env: Env, desired: nat, t: Table, clock: nat) {
    forall s :: Surges(env, desired, t, clock, s) ==> |OffIds(env, SurgeTable(env, t, clock, s))| >= desired
  }

  /**
   * A surge is sure to leave the wanted number of active rows off the draining servers exactly when
   * there were enough active rows to begin with, or no warm row could be counted in their place, or no
   * active row was on a draining server and no promotable one is.
   */
  lemma AlwaysCoversIff(env: Env, desired: nat, t: Table, clock: nat)
    ensures AlwaysCovers(env, desired, t, clock)
            <==> || |ActiveIds(t)| >= desired + |DrainingIds(env, t)|
                 || Min(|WarmIds(t)|, env.budget) == 0
                 || (DrainingIds(env, t) == {} && OnDrainingOf(env, t, Promotable(env, desired, t)) == {})
  {
    if |ActiveIds(t)| < desired + |DrainingIds(env, t)| && Min(|WarmIds(t)|, env.budget) > 0 {
      CoversByPromotable(env, desired, t, clock);
    } else {
      forall s | Surges(env, desired, t, clock, s)
        ensures |OffIds(env, SurgeTable(env, t, clock, s))| >= desired
      {
        SurgeCoversByPromotion(env, desired, t, clock, s);
      }
    }
  }

  lemma CoversByPromotable(env: Env, desired: nat, t: Table, clock: nat)
    requires |ActiveIds(t)| < desired + |DrainingIds(env, t)| && Min(|WarmIds(t)|, env.budget) > 0
    ensures AlwaysCovers(env, desired, t, clock)
            <==> DrainingIds(env, t) == {} && OnDrainingOf(env, t, Promotable(env, desired, t)) == {}
  {
    if DrainingIds(env, t) != {} {
      var s := SurgeExists(env, desired, t, clock);
      SurgeCoversByPromotion(env, desired, t, clock, s);
    } else if OnDrainingOf(env, t, Promotable(env, desired, t)) == {} {
      forall s | Surges(env, desired, t, clock, s)
        ensures |OffIds(env, SurgeTable(env, t, clock, s))| >= desired
      {
        PromotedOnDrainingIn(env, desired, t, clock, s);
        SurgeCoversByPromotion(env, desired, t, clock, s);
      }
    } else {
      var x :| x in OnDrainingOf(env, t, Promotable(env, desired, t));
      var s := SomeSurgePromotes(env, desired, t, clock, x);
      PromotedOnDrainingIn(env, desired, t, clock, s);
      SurgeCoversByPromotion(env, desired, t, clock, s);
      assert x in PromotedOnDraining(env, t, clock, s);
    }
  }
}
