/** A list of battle outcomes (prediction/BattleOutcomeSet.java).

    The source keeps a singly linked list with head, tail and a count; the
    model keeps the outcomes in list order as `entries` next to the `count`
    field. The functions below specify what the in-place methods of the
    class `OutcomeSet` do to the entries; the lemmas state what those
    operations preserve. */
module OutcomeSets {
  import opened Arith
  import opened Results
  import opened Rationals
  import opened Outcomes

  predicate AllValid(s: seq<Outcome>) {
    forall i :: 0 <= i < |s| ==> s[i].Valid()
  }

  /** No two entries are equal in the sense of BattleOutcome.equals. */
  predicate UniqueKeys(s: seq<Outcome>) {
    forall i, j :: 0 <= i < j < |s| ==> !SameArmies(s[i], s[j])
  }

  /** Every entry leaves at most a attackers and d defenders. */
  predicate Bounded(s: seq<Outcome>, a: int, d: int) {
    forall i :: 0 <= i < |s| ==> s[i].attackers <= a && s[i].defenders <= d
  }

  /** The sum of the probabilities, as a real number. */
  ghost function Total(s: seq<Outcome>): real
    requires AllValid(s)
  {
    if s == [] then 0.0 else Total(s[..|s| - 1]) + s[|s| - 1].prob.Value()
  }

  // -----------------------------------------------------------------------
  // The operations, specified

  /** The position of the first entry equal to o, if there is one. */
  function FindKey(s: seq<Outcome>, o: Outcome): (r: Option<nat>)
    ensures r.Some? ==> r.value < |s| && SameArmies(s[r.value], o)
    ensures r.Some? ==> forall j :: 0 <= j < r.value ==> !SameArmies(s[j], o)
    ensures r.None? ==> forall j :: 0 <= j < |s| ==> !SameArmies(s[j], o)
  {
    if s == [] then None
    else if SameArmies(s[0], o) then Some(0)
    else match FindKey(s[1..], o)
      case None => None
      case Some(k) => Some(k + 1)
  }

  /** BattleOutcomeSet.merge(BattleOutcome): the probability of o is added
      into the first entry equal to it, or o is appended when there is
      none. */
  function MergeOne(s: seq<Outcome>, o: Outcome): (r: seq<Outcome>)
    requires AllValid(s) && o.Valid()
    ensures AllValid(r)
  {
    match FindKey(s, o)
    case Some(i) => s[i := s[i].(prob := Sum(s[i].prob, o.prob))]
    case None => s + [o]
  }

  /** BattleOutcomeSet.merge(BattleOutcomeSet): the entries of t merged in
      one at a time, in list order. */
  function MergeAll(s: seq<Outcome>, t: seq<Outcome>): (r: seq<Outcome>)
    requires AllValid(s) && AllValid(t)
    ensures AllValid(r)
    decreases |t|
  {
    if t == [] then s else MergeOne(MergeAll(s, t[..|t| - 1]), t[|t| - 1])
  }

  /** BattleOutcomeSet.cloneMultiply: every entry scaled by f, in order. */
  function ScaleAll(s: seq<Outcome>, f: Frac): (r: seq<Outcome>)
    requires AllValid(s) && f.Valid()
    ensures AllValid(r) && |r| == |s|
    ensures forall i :: 0 <= i < |s| ==> SameArmies(r[i], s[i]) && r[i].prob == Product(s[i].prob, f)
  {
    if s == [] then [] else ScaleAll(s[..|s| - 1], f) + [ScaleOutcome(s[|s| - 1], f)]
  }

  /** The running sum of probVictory's loop: the probabilities of the
      victories in s added up, starting from 0/1. */
  function VictorySum(s: seq<Outcome>, n: int): (r: Frac)
    requires AllValid(s)
    ensures r.Valid()
  {
    if s == [] then Frac(0, 1)
    else
      var p := VictorySum(s[..|s| - 1], n);
      if Victory(s[|s| - 1], n) then Sum(p, s[|s| - 1].prob) else p
  }

  /** BattleOutcomeSet.probVictory: 0/1 for an empty set, otherwise the
      reduced sum over the victories. */
  function ProbVictoryOf(s: seq<Outcome>, n: int): (r: Frac)
    requires AllValid(s)
    ensures r.Valid() && Gcd(r.num, r.den) == 1
  {
    if s == [] then Frac(0, 1) else Reduced(VictorySum(s, n))
  }

  /** The exact probability of the victories in s, as a real number. */
  ghost function VictoryTotal(s: seq<Outcome>, n: int): real
    requires AllValid(s)
  {
    if s == [] then 0.0
    else VictoryTotal(s[..|s| - 1], n) + (if Victory(s[|s| - 1], n) then s[|s| - 1].prob.Value() else 0.0)
  }

  // -----------------------------------------------------------------------
  // What the operations preserve

  /** Replacing one entry changes the total by the difference. */
  lemma {:induction false} TotalUpdate(s: seq<Outcome>, i: nat, x: Outcome)
    requires AllValid(s) && i < |s| && x.Valid()
    ensures AllValid(s[i := x])
    ensures Total(s[i := x]) == Total(s) - s[i].prob.Value() + x.prob.Value()
    decreases |s|
  {
    var n := |s| - 1;
    var t := s[i := x];
    assert AllValid(t);
    if i == n {
      assert t[..n] == s[..n];
    } else {
      assert t[..n] == s[..n][i := x];
      TotalUpdate(s[..n], i, x);
    }
  }

  lemma TotalAppend(s: seq<Outcome>, o: Outcome)
    requires AllValid(s) && o.Valid()
    ensures AllValid(s + [o]) && Total(s + [o]) == Total(s) + o.prob.Value()
  {
    assert (s + [o])[..|s|] == s;
  }

  /** Merging one outcome adds its probability to the total. */
  lemma MergeOneTotal(s: seq<Outcome>, o: Outcome)
    requires AllValid(s) && o.Valid()
    ensures Total(MergeOne(s, o)) == Total(s) + o.prob.Value()
  {
    match FindKey(s, o)
    case Some(i) =>
      TotalUpdate(s, i, s[i].(prob := Sum(s[i].prob, o.prob)));
    case None =>
      TotalAppend(s, o);
  }

  /** Merging one outcome keeps the entries pairwise distinct. */
  lemma MergeOneUnique(s: seq<Outcome>, o: Outcome)
    requires AllValid(s) && o.Valid() && UniqueKeys(s)
    ensures UniqueKeys(MergeOne(s, o))
  {
    var r := MergeOne(s, o);
    match FindKey(s, o)
    case Some(i) =>
      forall j, k | 0 <= j < k < |r| ensures !SameArmies(r[j], r[k]) {
        assert SameArmies(r[j], s[j]) && SameArmies(r[k], s[k]);
      }
    case None =>
      forall j, k | 0 <= j < k < |r| ensures !SameArmies(r[j], r[k]) {
        if k < |s| {
          assert r[j] == s[j] && r[k] == s[k];
        } else {
          assert r[j] == s[j] && r[k] == o;
        }
      }
  }

  /** Merging one outcome either adds o's probability into the first entry
      equal to o and changes no other entry, or, when no entry is equal to
      o, appends o. */
  lemma MergeOneShape(s: seq<Outcome>, o: Outcome)
    requires AllValid(s) && o.Valid()
    ensures var r := MergeOne(s, o);
      (exists j :: 0 <= j < |s| && SameArmies(s[j], o)) ==> |r| == |s|
    ensures var r := MergeOne(s, o);
      (forall j :: 0 <= j < |s| ==> !SameArmies(s[j], o)) ==> r == s + [o]
    ensures var r := MergeOne(s, o);
      forall j :: 0 <= j < |s| ==> SameArmies(r[j], s[j]) && (r[j] == s[j] || SameArmies(s[j], o))
    ensures var r := MergeOne(s, o);
      forall i :: 0 <= i < |s| && SameArmies(s[i], o) && (forall j :: 0 <= j < i ==> !SameArmies(s[j], o)) ==>
        |r| == |s| && r[i].prob == Sum(s[i].prob, o.prob) &&
        forall j :: 0 <= j < |s| && j != i ==> r[j] == s[j]
    ensures exists j :: 0 <= j < |MergeOne(s, o)| && SameArmies(MergeOne(s, o)[j], o)
  {
    var r := MergeOne(s, o);
    match FindKey(s, o)
    case Some(i) =>
      assert SameArmies(r[i], o);
      forall i' | 0 <= i' < |s| && SameArmies(s[i'], o) && (forall j :: 0 <= j < i' ==> !SameArmies(s[j], o))
        ensures i' == i
      {
        if i' != i {
          assert false;
        }
      }
    case None =>
      assert r[|s|] == o;
  }

  /** Merging a one-entry list is merging its entry. */
  lemma MergeAllSingle(s: seq<Outcome>, o: Outcome)
    requires AllValid(s) && o.Valid()
    ensures MergeAll(s, [o]) == MergeOne(s, o)
  {
    assert [o][..0] == [];
  }

  /** Merging a one-entry list whose armies are new appends the entry. */
  lemma MergeNew(s: seq<Outcome>, o: Outcome)
    requires AllValid(s) && o.Valid()
    requires forall j :: 0 <= j < |s| ==> !SameArmies(s[j], o)
    ensures MergeAll(s, [o]) == s + [o]
  {
    MergeAllSingle(s, o);
  }

  /** Merging one outcome that fits the bounds keeps them. */
  lemma MergeOneBounded(s: seq<Outcome>, o: Outcome, a: int, d: int)
    requires AllValid(s) && o.Valid() && Bounded(s, a, d) && o.attackers <= a && o.defenders <= d
    ensures Bounded(MergeOne(s, o), a, d)
  {
    MergeOneShape(s, o);
    var r := MergeOne(s, o);
    if r != s + [o] {
      assert |r| == |s|;
    }
  }

  /** Merging a whole set adds its total. */
  lemma {:induction false} MergeAllTotal(s: seq<Outcome>, t: seq<Outcome>)
    requires AllValid(s) && AllValid(t)
    ensures Total(MergeAll(s, t)) == Total(s) + Total(t)
    decreases |t|
  {
    if t != [] {
      var n := |t| - 1;
      MergeAllTotal(s, t[..n]);
      MergeOneTotal(MergeAll(s, t[..n]), t[n]);
    }
  }

  /** Merging a whole set keeps the entries pairwise distinct. */
  lemma {:induction false} MergeAllUnique(s: seq<Outcome>, t: seq<Outcome>)
    requires AllValid(s) && AllValid(t) && UniqueKeys(s)
    ensures UniqueKeys(MergeAll(s, t))
    decreases |t|
  {
    if t != [] {
      var n := |t| - 1;
      MergeAllUnique(s, t[..n]);
      MergeOneUnique(MergeAll(s, t[..n]), t[n]);
    }
  }

  /** Merging a set within the bounds keeps them. */
  lemma {:induction false} MergeAllBounded(s: seq<Outcome>, t: seq<Outcome>, a: int, d: int)
    requires AllValid(s) && AllValid(t) && Bounded(s, a, d) && Bounded(t, a, d)
    ensures Bounded(MergeAll(s, t), a, d)
    decreases |t|
  {
    if t != [] {
      var n := |t| - 1;
      MergeAllBounded(s, t[..n], a, d);
      MergeOneBounded(MergeAll(s, t[..n]), t[n], a, d);
    }
  }

  /** Scaling every entry scales the total. */
  lemma ScaleAllTotal(s: seq<Outcome>, f: Frac)
    requires AllValid(s) && f.Valid()
    ensures Total(ScaleAll(s, f)) == Total(s) * f.Value()
  {
    TotalScaled(ScaleAll(s, f), s, f);
  }

  /** Merging in a distribution of total one scaled by f adds f's value to
      the total. */
  lemma MergeScaledTotal(s: seq<Outcome>, t: seq<Outcome>, f: Frac)
    requires AllValid(s) && AllValid(t) && f.Valid() && Total(t) == 1.0
    ensures Total(MergeAll(s, ScaleAll(t, f))) == Total(s) + f.Value()
  {
    var scaled := ScaleAll(t, f);
    assert Total(scaled) == f.Value() by {
      TotalScaled(scaled, t, f);
      assert Mul(Total(t), f.Value()) == Mul(1.0, f.Value());
    }
    MergeAllTotal(s, scaled);
  }

  /** The product of two reals under a name of its own, so that the
      inductive steps below compare products as terms. */
  ghost function Mul(x: real, y: real): real {
    x * y
  }

  /** Two lists whose probabilities are, entry by entry, the other's times
      f have totals that differ by the factor f. */
  lemma {:induction false} TotalScaled(r: seq<Outcome>, s: seq<Outcome>, f: Frac)
    requires AllValid(r) && AllValid(s) && f.Valid() && |r| == |s|
    requires forall i :: 0 <= i < |s| ==> r[i].prob == Product(s[i].prob, f)
    ensures Total(r) == Mul(Total(s), f.Value())
    decreases |s|
  {
    if s != [] {
      var n := |s| - 1;
      TotalScaled(r[..n], s[..n], f);
      ProductIsProduct(s[n].prob, f);
      ScaleStep(Total(r), Total(r[..n]), r[n].prob.Value(), Total(s), Total(s[..n]), s[n].prob.Value(), f.Value());
    }
  }

  lemma ScaleStep(total: real, prefix: real, final: real, whole: real, before: real, last: real, k: real)
    requires total == prefix + final && prefix == Mul(before, k) && final == last * k
    requires whole == before + last
    ensures total == Mul(whole, k)
  {
  }

  /** The running sum of probVictory denotes the probability of the
      victories. */
  lemma {:induction false} VictorySumValue(s: seq<Outcome>, n: int)
    requires AllValid(s)
    ensures VictorySum(s, n).Value() == VictoryTotal(s, n)
    decreases |s|
  {
    if s != [] {
      VictorySumValue(s[..|s| - 1], n);
    }
  }

  /** probVictory is that probability in lowest terms. */
  lemma ProbVictoryValue(s: seq<Outcome>, n: int)
    requires AllValid(s)
    ensures ProbVictoryOf(s, n).Value() == VictoryTotal(s, n)
  {
    VictorySumValue(s, n);
  }

  // -----------------------------------------------------------------------
  // The list object

  /** prediction/BattleOutcomeSet.java: the outcomes in list order and the
      count the source keeps beside them. */
  class OutcomeSet {
    var entries: seq<Outcome>
    var count: int

    ghost predicate Valid()
      reads this
    {
      count == |entries| && AllValid(entries)
    }

    /** The default constructor: an empty set. */
    constructor ()
      ensures Valid() && entries == []
    {
      entries := [];
      count := 0;
    }

    /** The private constructor from a ready list and its count. */
    constructor FromParts(es: seq<Outcome>, c: int)
      ensures entries == es && count == c
    {
      entries := es;
      count := c;
    }

    /** append: adds b at the end without looking for an equal entry. */
    method Append(b: Outcome)
      requires Valid() && b.Valid()
      modifies this
      ensures Valid() && entries == old(entries) + [b]
    {
      if entries == [] {
        entries := [b];
        count := 1;
      } else {
        entries := entries + [b];
        count := count + 1;
      }
    }

    /** merge(BattleOutcome): walks the list for the first entry equal to b
        and adds b's probability into it in place; appends b when there is
        none. */
    method Merge(b: Outcome)
      requires Valid() && b.Valid()
      modifies this
      ensures Valid() && entries == MergeOne(old(entries), b)
    {
      if entries != [] {
        var p := 0;
        while p < |entries|
          invariant p <= |entries| && entries == old(entries) && Valid()
          invariant forall j :: 0 <= j < p ==> !SameArmies(entries[j], b)
        {
          if SameArmies(entries[p], b) {
            assert FindKey(entries, b) == Some(p);
            entries := entries[p := entries[p].(prob := Sum(entries[p].prob, b.prob))];
            return;
          }
          p := p + 1;
        }
      }
      assert FindKey(entries, b) == None;
      Append(b);
    }

    /** merge(BattleOutcomeSet): merges b's entries in list order. */
    method MergeSet(b: OutcomeSet)
      requires Valid() && b.Valid() && b != this
      modifies this
      ensures Valid() && entries == MergeAll(old(entries), b.entries)
    {
      if b.entries != [] {
        var p := 0;
        while p < |b.entries|
          invariant p <= |b.entries| && Valid()
          invariant entries == MergeAll(old(entries), b.entries[..p])
        {
          assert b.entries[..p + 1][..p] == b.entries[..p];
          Merge(b.entries[p]);
          p := p + 1;
        }
        assert b.entries[..p] == b.entries;
      }
    }

    /** cloneMultiply: a new set holding every entry scaled by f, in the
        same order; this set is left as it was. */
    method CloneMultiply(f: Frac) returns (r: OutcomeSet)
      requires Valid() && f.Valid()
      ensures fresh(r) && r.Valid() && r.entries == ScaleAll(entries, f)
    {
      if entries == [] {
        r := new OutcomeSet();
        return;
      }
      var p := 0;
      var scaled := [ScaleOutcome(entries[0], f)];
      var c := 1;
      assert entries[..1] == [entries[0]];
      while p + 1 < |entries|
        invariant p < |entries| && c == p + 1
        invariant scaled == ScaleAll(entries[..p + 1], f)
      {
        p := p + 1;
        assert entries[..p + 1][..p] == entries[..p];
        scaled := scaled + [ScaleOutcome(entries[p], f)];
        c := c + 1;
      }
      assert entries[..p + 1] == entries;
      r := new OutcomeSet.FromParts(scaled, c);
    }

    /** probVictory: adds up the probabilities of the victories with at
        least n attackers left and reduces the sum; an empty set gives
        0/1. */
    method ProbVictory(n: int) returns (r: Frac)
      requires Valid()
      ensures r == ProbVictoryOf(entries, n)
    {
      if entries == [] {
        return Frac(0, 1);
      }
      var f := Frac(0, 1);
      var p := 0;
      while p < |entries|
        invariant p <= |entries| && f == VictorySum(entries[..p], n)
      {
        assert entries[..p + 1][..p] == entries[..p];
        if Victory(entries[p], n) {
          f := Sum(f, entries[p].prob);
        }
        p := p + 1;
      }
      assert entries[..p] == entries;
      r := Reduced(f);
    }

    /** count: the number of entries. */
    method Count() returns (c: int)
      requires Valid()
      ensures c == |entries|
    {
      c := count;
    }
  }
}
