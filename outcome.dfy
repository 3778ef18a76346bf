/** One end state of a battle (prediction/BattleOutcome.java): the armies
    left on each side, tagged with the exact probability of ending there.

    The source keeps the probability in a mutable Fraction object; every
    outcome that reaches a set is a fresh clone, so the model holds the
    probability as a `Frac` value and the in-place operations become
    functions that return the updated outcome. */
module Outcomes {
  import opened Arith
  import opened Results
  import opened Rationals

  datatype Outcome = Outcome(attackers: int, defenders: int, prob: Frac) {

    /** What the constructors guarantee: a final pair and a fraction with a
        positive denominator. */
    predicate Valid() {
      IsFinal(attackers, defenders) && prob.Valid()
    }
  }

  /** BattleOutcome.isFinal: the attacker is down to the one army that must
      stay behind, or the defender has none left. */
  predicate IsFinal(a: int, d: int) {
    (a == 1 && d >= 1) || (a > 1 && d == 0)
  }

  /** A battle that can still be fought: the attacker can spare an army and
      the defender has one. */
  predicate Fighting(a: int, d: int) {
    a > 1 && d > 0
  }

  /** Every pair of army counts with at least one attacker is fighting,
      final, or the one pair (1, 0) that no battle reaches; the three cases
      exclude each other. */
  lemma StatesPartition(a: int, d: int)
    requires a >= 1 && d >= 0
    ensures Fighting(a, d) || IsFinal(a, d) || (a == 1 && d == 0)
    ensures !(Fighting(a, d) && IsFinal(a, d))
    ensures a == 1 && d == 0 ==> !Fighting(a, d) && !IsFinal(a, d)
  {
  }

  /** BattleOutcome(int, int): a final pair with probability 1/1; any other
      pair is rejected. */
  function NewOutcome(a: int, d: int): (r: Result<Outcome>)
    ensures r.Ok? <==> IsFinal(a, d)
    ensures r.Err? ==> r.error == InvalidArgument
    ensures r.Ok? ==> r.value.Valid() && r.value.prob == Frac(1, 1) && r.value.prob.Value() == 1.0
    ensures r.Ok? ==> r.value.attackers == a && r.value.defenders == d
  {
    if !IsFinal(a, d) then Err(InvalidArgument) else Ok(Outcome(a, d, Frac(1, 1)))
  }

  /** BattleOutcome(int, int, Fraction): a final pair with the given
      probability; any other pair is rejected. */
  function NewOutcomeWith(a: int, d: int, f: Frac): (r: Result<Outcome>)
    requires f.Valid()
    ensures r.Ok? <==> IsFinal(a, d)
    ensures r.Err? ==> r.error == InvalidArgument
    ensures r.Ok? ==> r.value.Valid() && r.value.prob == f
    ensures r.Ok? ==> r.value.attackers == a && r.value.defenders == d
  {
    if !IsFinal(a, d) then Err(InvalidArgument) else Ok(Outcome(a, d, f))
  }

  /** BattleOutcome.equals: two outcomes are equal when their army counts
      are, whatever their probabilities. */
  predicate SameArmies(x: Outcome, y: Outcome) {
    x.attackers == y.attackers && x.defenders == y.defenders
  }

  /** BattleOutcome.cloneMultiply: a copy whose probability is multiplied by
      f; the receiver, a value here, is untouched. */
  function ScaleOutcome(o: Outcome, f: Frac): (r: Outcome)
    requires o.Valid() && f.Valid()
    ensures r.Valid() && SameArmies(r, o) && r.prob == Product(o.prob, f)
  {
    Outcome(o.attackers, o.defenders, Product(o.prob, f))
  }

  /** The clone's probability is the product of the two values. */
  lemma ScaleOutcomeValue(o: Outcome, f: Frac)
    requires o.Valid() && f.Valid()
    ensures ScaleOutcome(o, f).prob.Value() == o.prob.Value() * f.Value()
  {
    ProductIsProduct(o.prob, f);
  }

  /** BattleOutcome.reduce: the probability in lowest terms, with the same
      value. */
  function ReduceOutcome(o: Outcome): (r: Outcome)
    requires o.Valid()
    ensures r.Valid() && SameArmies(r, o)
    ensures r.prob.Value() == o.prob.Value() && Gcd(r.prob.num, r.prob.den) == 1
  {
    o.(prob := Reduced(o.prob))
  }

  /** BattleOutcome.victory: the defender is wiped out and the attacker has
      at least n armies left. */
  predicate Victory(o: Outcome, n: int) {
    o.defenders == 0 && o.attackers >= n
  }

  /** Equality and victory ignore the probability: scaling or reducing an
      outcome leaves it equal to the original, and so does replacing its
      probability by any other. */
  lemma SameArmiesIgnoresProbability(o: Outcome, f: Frac, g: Frac, n: int)
    requires o.Valid() && f.Valid()
    ensures SameArmies(o, ScaleOutcome(o, f)) && SameArmies(o, ReduceOutcome(o))
    ensures SameArmies(o, o.(prob := g))
    ensures Victory(o, n) == Victory(o.(prob := g), n)
  {
  }

  /** Reducing twice gives what reducing once does. */
  lemma ReduceOutcomeIdempotent(o: Outcome)
    requires o.Valid()
    ensures ReduceOutcome(ReduceOutcome(o)) == ReduceOutcome(o)
  {
    ReducedIdempotent(o.prob);
  }
}
