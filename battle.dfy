/** The predictor of a fight to the death (prediction/Battle.java).

    `Dist` is the distribution `predict` returns, written as the pure
    recursion on (a, d) that the memoised code computes: one round of dice
    decides how many armies each side loses, every split of those losses is
    a smaller battle, and the smaller battles' distributions are scaled by
    the round's probability and merged. The class `Predictor` is the
    memoising code itself, proved to return exactly `Dist`. */
module Battles {
  import opened Arith
  import opened Results
  import opened Rationals
  import opened Dice
  import opened Outcomes
  import opened OutcomeSets

  /** The attacker rolls one die per army beyond the one that stays home,
      at most three. */
  function ADice(a: int): int {
    Min(a - 1, MAX_A_DICE)
  }

  /** The defender rolls one die per army, at most two. */
  function DDice(d: int): int {
    Min(d, MAX_D_DICE)
  }

  /** The armies lost in one round, between the two sides. */
  function Loss(a: int, d: int): int {
    Min(ADice(a), DDice(d))
  }

  /** The pairs predict answers for: a battle still to fight or one that is
      over. */
  predicate Reachable(a: int, d: int) {
    Fighting(a, d) || IsFinal(a, d)
  }

  /** One round of a battle that is still being fought: both sides roll at
      least one die, at least one army is lost, and the battle left after
      the defender loses i of the armies is reachable, smaller, within the
      starting armies and never the pair (1, 0). */
  lemma SubBattle(a: int, d: int, i: int)
    requires Fighting(a, d) && 0 <= i <= Loss(a, d)
    ensures 1 <= ADice(a) <= MAX_A_DICE && 1 <= DDice(d) <= MAX_D_DICE
    ensures 1 <= Loss(a, d) && ValidRoll(ADice(a), DDice(d), i)
    ensures Reachable(a - Loss(a, d) + i, d - i)
    ensures !(a - Loss(a, d) + i == 1 && d - i == 0)
    ensures (a - Loss(a, d) + i) + (d - i) < a + d
    ensures 1 <= a - Loss(a, d) + i <= a && 0 <= d - i <= d
  {
  }

  /** The outcomes predict(a, d) returns, in list order. */
  ghost function Dist(a: int, d: int): (r: seq<Outcome>)
    requires Reachable(a, d)
    ensures AllValid(r)
    decreases a + d, 1
  {
    if Fighting(a, d) then Splits(a, d, Loss(a, d) + 1)
    else [Outcome(a, d, Frac(1, 1))]
  }

  /** What calcPredict's merger holds after the splits i = 0 .. k-1: the
      battle left by each split, scaled by the probability of that split,
      merged in order. */
  ghost function Splits(a: int, d: int, k: int): (r: seq<Outcome>)
    requires Fighting(a, d) && 0 <= k <= Loss(a, d) + 1
    ensures AllValid(r)
    decreases a + d, 0, k
  {
    if k == 0 then []
    else MergeAll(Splits(a, d, k - 1), ScaleAll(After(a, d, k - 1), Odds(a, d, k - 1)))
  }

  /** The distribution of the battle left when the defender loses i of the
      round's armies and the attacker the rest. */
  ghost function After(a: int, d: int, i: int): (r: seq<Outcome>)
    requires Fighting(a, d) && 0 <= i <= Loss(a, d)
    ensures AllValid(r)
    decreases a + d, 0, i, 0
  {
    SubBattle(a, d, i);
    Dist(a - Loss(a, d) + i, d - i)
  }

  /** The probability that the round ends with the defender losing i
      armies. */
  ghost function Odds(a: int, d: int, i: int): (r: Frac)
    requires Fighting(a, d) && 0 <= i <= Loss(a, d)
    ensures r.Valid()
  {
    SubBattle(a, d, i);
    RoundProbability(ADice(a), DDice(d), i)
  }

  // -----------------------------------------------------------------------
  // What the distribution satisfies

  /** The probabilities of all the ends of a battle add up to exactly one. */
  lemma {:induction false} DistTotal(a: int, d: int)
    requires Reachable(a, d)
    ensures Total(Dist(a, d)) == 1.0
    decreases a + d
  {
    if Fighting(a, d) {
      forall i | 0 <= i <= Loss(a, d) ensures Total(After(a, d, i)) == 1.0 {
        SubBattle(a, d, i);
        var a', d' := a - Loss(a, d) + i, d - i;
        DistTotal(a', d');
        assert After(a, d, i) == Dist(a', d');
      }
      assert Total(Dist(a, d)) == ProbabilitySum(ADice(a), DDice(d), Loss(a, d) + 1) by {
        SplitsTotal(a, d, Loss(a, d) + 1);
      }
      RoundProbabilitiesSumToOne(ADice(a), DDice(d));
    } else {
      var o := Outcome(a, d, Frac(1, 1));
      TotalAppend([], o);
      assert [] + [o] == Dist(a, d);
    }
  }

  /** One more split: the merger after k splits is the merger after k - 1
      with the battle the last split leaves, scaled, merged in. */
  lemma SplitsStep(a: int, d: int, k: int)
    requires Fighting(a, d) && 1 <= k <= Loss(a, d) + 1
    ensures Splits(a, d, k) == MergeAll(Splits(a, d, k - 1), ScaleAll(After(a, d, k - 1), Odds(a, d, k - 1)))
  {
  }

  /** After k splits, when every battle a split leaves has total one, the
      merger's total is the probability that the round ends in one of those
      k splits. */
  lemma {:induction false} SplitsTotal(a: int, d: int, k: int)
    requires Fighting(a, d) && 0 <= k <= Loss(a, d) + 1
    requires forall i :: 0 <= i <= Loss(a, d) ==> Total(After(a, d, i)) == 1.0
    ensures 1 <= ADice(a) <= MAX_A_DICE && 1 <= DDice(d) <= MAX_D_DICE
    ensures Total(Splits(a, d, k)) == ProbabilitySum(ADice(a), DDice(d), k)
  {
    SubBattle(a, d, 0);
    if k > 0 {
      SplitsTotal(a, d, k - 1);
      SplitsStep(a, d, k);
      MergeScaledTotal(Splits(a, d, k - 1), After(a, d, k - 1), Odds(a, d, k - 1));
      SubBattle(a, d, k - 1);
    }
  }

  /** No two ends of a battle have the same armies. */
  lemma DistUnique(a: int, d: int)
    requires Reachable(a, d)
    ensures UniqueKeys(Dist(a, d))
  {
    if Fighting(a, d) {
      SplitsUnique(a, d, Loss(a, d) + 1);
    }
  }

  lemma {:induction false} SplitsUnique(a: int, d: int, k: int)
    requires Fighting(a, d) && 0 <= k <= Loss(a, d) + 1
    ensures UniqueKeys(Splits(a, d, k))
  {
    if k > 0 {
      var s, t := Splits(a, d, k - 1), ScaleAll(After(a, d, k - 1), Odds(a, d, k - 1));
      assert UniqueKeys(s) by {
        SplitsUnique(a, d, k - 1);
      }
      assert UniqueKeys(MergeAll(s, t)) by {
        MergeAllUnique(s, t);
      }
      SplitsStep(a, d, k);
    }
  }

  /** No end of a battle leaves more armies on either side than the battle
      started with. */
  lemma {:induction false} DistBounded(a: int, d: int)
    requires Reachable(a, d)
    ensures Bounded(Dist(a, d), a, d)
    decreases a + d
  {
    if Fighting(a, d) {
      forall i | 0 <= i <= Loss(a, d) ensures Bounded(After(a, d, i), a, d) {
        SubBattle(a, d, i);
        var a', d' := a - Loss(a, d) + i, d - i;
        DistBounded(a', d');
        assert After(a, d, i) == Dist(a', d');
      }
      assert Bounded(Dist(a, d), a, d) by {
        SplitsBounded(a, d, Loss(a, d) + 1);
      }
    }
  }

  /** The merger stays within the starting armies when every battle a split
      leaves does. */
  lemma {:induction false} SplitsBounded(a: int, d: int, k: int)
    requires Fighting(a, d) && 0 <= k <= Loss(a, d) + 1
    requires forall i :: 0 <= i <= Loss(a, d) ==> Bounded(After(a, d, i), a, d)
    ensures Bounded(Splits(a, d, k), a, d)
  {
    if k > 0 {
      var sub, p := After(a, d, k - 1), Odds(a, d, k - 1);
      var s, t := Splits(a, d, k - 1), ScaleAll(sub, p);
      assert Bounded(MergeAll(s, t), a, d) by {
        SplitsBounded(a, d, k - 1);
        ScaleAllBounded(sub, p, a, d);
        MergeAllBounded(s, t, a, d);
      }
      SplitsStep(a, d, k);
    }
  }

  /** Scaling keeps the armies, so it keeps any bound on them. */
  lemma ScaleAllBounded(s: seq<Outcome>, f: Frac, a: int, d: int)
    requires AllValid(s) && f.Valid() && Bounded(s, a, d)
    ensures Bounded(ScaleAll(s, f), a, d)
  {
    var r := ScaleAll(s, f);
    forall i | 0 <= i < |r| ensures r[i].attackers <= a && r[i].defenders <= d {
      assert SameArmies(r[i], s[i]);
    }
  }

  /** Two armies against one: one die each; the attacker is left alone with
      probability 7/12 and wins with probability 5/12, in that order. */
  lemma TwoAgainstOne(a: int, d: int)
    requires a == 2 && d == 1
    ensures Dist(a, d) == [Outcome(1, 1, Frac(7, 12)), Outcome(2, 0, Frac(5, 12))]
  {
    var one := Frac(1, 1);
    var u, v := Outcome(1, 1, one), Outcome(2, 0, one);
    assert Fighting(a, d) && Loss(a, d) == 1;
    var p0, p1 := Odds(a, d, 0), Odds(a, d, 1);
    assert Dist(a, d) == [ScaleOutcome(u, p0), ScaleOutcome(v, p1)] by {
      assert After(a, d, 0) == [u];
      assert After(a, d, 1) == [v];
      SplitsStep(a, d, 1);
      SplitsStep(a, d, 2);
      MergeTwoEnds(u, v, p0, p1);
    }
    assert ADice(a) == 1 && DDice(d) == 1;
    assert p0 == Frac(7, 12) by {
      OneOnOne(0);
    }
    assert p1 == Frac(5, 12) by {
      OneOnOne(1);
    }
  }

  /** Merging two single-end predictions with different ends into an empty
      merger lists both scaled ends, in merge order. */
  lemma MergeTwoEnds(u: Outcome, v: Outcome, p0: Frac, p1: Frac)
    requires u.Valid() && v.Valid() && p0.Valid() && p1.Valid() && !SameArmies(u, v)
    ensures MergeAll(MergeAll([], ScaleAll([u], p0)), ScaleAll([v], p1)) == [ScaleOutcome(u, p0), ScaleOutcome(v, p1)]
  {
    var x, y := ScaleOutcome(u, p0), ScaleOutcome(v, p1);
    assert ScaleAll([u], p0) == [x] by {
      assert ScaleAll([u], p0) == ScaleAll([], p0) + [x];
    }
    assert ScaleAll([v], p1) == [y] by {
      assert ScaleAll([v], p1) == ScaleAll([], p1) + [y];
    }
    MergeNew([], x);
    assert [] + [x] == [x];
    MergeNew([x], y);
    assert [x] + [y] == [x, y];
  }

  // -----------------------------------------------------------------------
  // The memoising predictor

  /** Battle's static state: the table of finished predictions and the dice
      table it draws round probabilities from. The table only grows, and a
      stored prediction is never changed: every later use of it takes a
      scaled copy. */
  class Predictor {
    var memo: map<(int, int), seq<Outcome>>
    const dice: DiceCache

    ghost predicate Valid()
      reads this, dice, dice.cache
    {
      dice.Valid() &&
      forall k :: k in memo ==> Fighting(k.0, k.1) && memo[k] == Dist(k.0, k.1)
    }

    constructor ()
      ensures Valid() && memo == map[] && fresh(dice) && fresh(dice.cache)
      ensures forall i, j, k :: 0 <= i < MAX_A_DICE && 0 <= j < MAX_D_DICE && 0 <= k < dice.cache.Length2 ==>
        dice.cache[i, j, k] == None
    {
      memo := map[];
      dice := new DiceCache();
    }

    /** predict: null for a pair no battle reaches, a one-entry set with
        probability 1/1 for a battle that is over, and otherwise the stored
        prediction for (a, d), computed and stored on the first request. */
    method Predict(a: int, d: int) returns (r: OutcomeSet?)
      requires Valid()
      modifies this, dice.cache
      ensures Valid()
      ensures r != null <==> Reachable(a, d)
      ensures r != null ==> fresh(r) && r.Valid() && r.entries == Dist(a, d)
      ensures Fighting(a, d) ==> (a, d) in memo
      ensures !Fighting(a, d) ==> memo == old(memo)
      ensures forall k :: k in old(memo) ==> k in memo && memo[k] == old(memo[k])
      decreases a + d, 2
    {
      if a > 1 && d > 0 {
        if (a, d) !in memo {
          var s := CalcPredict(a, d);
          memo := memo[(a, d) := s.entries];
        }
        r := new OutcomeSet.FromParts(memo[(a, d)], |memo[(a, d)]|);
      } else if IsFinal(a, d) {
        r := new OutcomeSet();
        var o := NewOutcome(a, d);
        r.Append(o.value);
        assert r.entries == [Outcome(a, d, Frac(1, 1))];
      } else {
        r := null;
      }
    }

    /** calcPredict: for every split i = 0 .. loss of the round's losses,
        the prediction for the battle that is left, scaled by the
        probability of that split, is merged into a fresh set. */
    method CalcPredict(a: int, d: int) returns (merger: OutcomeSet)
      requires Valid() && Fighting(a, d)
      modifies this, dice.cache
      ensures Valid() && fresh(merger)
      ensures merger.Valid() && merger.entries == Dist(a, d)
      ensures forall k :: k in old(memo) ==> k in memo && memo[k] == old(memo[k])
      decreases a + d, 1
    {
      merger := new OutcomeSet();
      var adice := Min(a - 1, MAX_A_DICE);
      var ddice := Min(d, MAX_D_DICE);
      var loss := Min(adice, ddice);
      for i := 0 to loss + 1
        invariant Valid() && fresh(merger)
        invariant merger.Valid() && merger.entries == Splits(a, d, i)
        invariant forall k :: k in old(memo) ==> k in memo && memo[k] == old(memo[k])
      {
        AddSplit(merger, a, d, i);
      }
    }

    /** One pass of calcPredict's loop: the scaled prediction for the split
        with i defender losses is merged into the running set. */
    method AddSplit(merger: OutcomeSet, a: int, d: int, i: int)
      requires Valid() && Fighting(a, d) && 0 <= i <= Loss(a, d)
      requires merger.Valid() && merger.entries == Splits(a, d, i)
      modifies this, dice.cache, merger
      ensures Valid() && merger.Valid() && merger.entries == Splits(a, d, i + 1)
      ensures forall k :: k in old(memo) ==> k in memo && memo[k] == old(memo[k])
      decreases a + d, 0, 1
    {
      var clone := ScaledAfter(a, d, i);
      merger.MergeSet(clone);
      SplitsStep(a, d, i + 1);
    }

    /** The term calcPredict merges for the split with i defender losses:
        the prediction for the battle that is left, cloned and scaled by the
        probability of that split. */
    method ScaledAfter(a: int, d: int, i: int) returns (clone: OutcomeSet)
      requires Valid() && Fighting(a, d) && 0 <= i <= Loss(a, d)
      modifies this, dice.cache
      ensures Valid() && fresh(clone)
      ensures clone.Valid() && clone.entries == ScaleAll(After(a, d, i), Odds(a, d, i))
      ensures forall k :: k in old(memo) ==> k in memo && memo[k] == old(memo[k])
      decreases a + d, 0, 0
    {
      SubBattle(a, d, i);
      var adice := Min(a - 1, MAX_A_DICE);
      var ddice := Min(d, MAX_D_DICE);
      var loss := Min(adice, ddice);
      assert loss == Loss(a, d);
      var sub := Predict(a - loss + i, d - i);
      ghost var rest := sub.entries;
      assert rest == After(a, d, i);
      var p := dice.Probability(adice, ddice, i);
      assert p.value == Odds(a, d, i);
      clone := sub.CloneMultiply(p.value);
    }
  }
}
