# riskrisk prediction engine, modelled in Dafny

riskrisk predicts how a Risk battle fought to the death ends. `predict(a, d)`
gives every end state (attackers left, defenders left) together with its exact
probability, as a fraction. The engine has four parts:

- `Fraction` (`fraction.dfy`, module `Rationals`): a mutable exact rational.
  - It is a numerator and a strictly positive denominator.
  - `add`, `multiply`, `invert` and `reduce` update it in place.
- `DiceOutcome` (`dice.dfy`, module `Dice`): the probability that one round of
  dice ends with exactly `awin` attacker wins.
  - It decodes each of the 6^(adice+ddice) face assignments into base-6 digits.
  - It bubble-sorts each side's dice in place.
  - It counts the top pairs that the attacker wins strictly.
  - Each answer is memoised in a 3-D table.
- `BattleOutcome` and `BattleOutcomeSet` (`outcome.dfy` and `outcome_set.dfy`,
  modules `Outcomes` and `OutcomeSets`): an end state tagged with a probability,
  and the list of such end states. The list supports:
  - append;
  - merge by armies, which adds the probabilities;
  - a scaled copy;
  - the probability of victory.
- `Battle` (`battle.dfy`, module `Battles`): the memoised recursive predictor.
  - It splits the armies one round loses in every possible way.
  - It recurses on the smaller battles.
  - It scales each distribution by the probability of its split, and merges
    them.

`arith.dfy` (module `Arith`) models Java's integer arithmetic: truncating `/`
and `%`, `BigInteger.gcd`, and powers. `results.dfy` (module `Results`) turns
the engine's runtime exceptions into error values.

Each part has two layers:

- **Specification functions** (`Sum`, `Reduced`, `RoundProbability`, `MergeOne`,
  `ScaleAll`, `Dist`, …). These state what each operation computes.
- **Imperative code** (the class `Fraction`, the methods `Pow`,
  `DiceDemultiplex`, `BubbleSort` and `CalcProbability`, the classes
  `DiceCache`, `OutcomeSet` and `Predictor`). It keeps the source's loops and
  in-place updates, and is proved to compute those functions.

The main results:

- The probabilities of one dice round add up to exactly 1.
- Every prediction:
  - sums to exactly 1;
  - has no two entries with the same armies;
  - never leaves more armies than the battle started with.
- The memoised `predict` returns exactly the pure recursion `Dist`.
- `predict(2, 1)` is [(1,1): 7/12, (2,0): 5/12].

## Model

| member | source | states |
|---|---|---|
| Rationals.Sum | fraction/Fraction.java:112-116 | the pair add builds: its denominator is lcm(d1, d2), that is, a positive common multiple of both denominators whose product with gcd(d1, d2) is d1*d2; its value is exactly the sum of the two values |
| Rationals.Product | fraction/Fraction.java:122-125 | numerators and denominators multiply, unreduced; the denominator stays positive |
| Rationals.ProductIsProduct | fraction/Fraction.java:122-125 | the value of the product is the product of the values |
| Rationals.Reciprocal | fraction/Fraction.java:95-106 | fails exactly when the numerator is 0; otherwise the denominator is positive, the value is the reciprocal (the product of the two values is 1), and the parts are swapped, with the sign moved to the numerator |
| Rationals.ReciprocalInvolution | fraction/Fraction.java:95-106 | inverting twice gives back the same pair |
| Rationals.Reduced | fraction/Fraction.java:131-135 | dividing both parts by the gcd keeps the value and a positive denominator, leaves coprime parts, and turns zero into 0/1 |
| Rationals.ReducedIdempotent | fraction/Fraction.java:131-135 | reducing twice is the same as reducing once |
| Rationals.FractionText | fraction/Fraction.java:149-158 | definition: "0" for a zero numerator, the bare numerator when the denominator is 1, "n/d" otherwise; FractionTextRoundTrip states what it preserves |
| Rationals.IntTextRoundTrip | fraction/Fraction.java:154 | BigInteger's decimal rendering reads back as the same integer and contains no '/' |
| Rationals.FractionTextRoundTrip | fraction/Fraction.java:149-158 | the fraction-mode text ("0", the bare numerator when the denominator is 1, "n/d" otherwise) reads back as the same pair; zero reads back as 0/1 |
| Rationals.Fraction.constructor | fraction/Fraction.java:31-35 | a fraction with the given parts, once the denominator check has passed |
| Rationals.Fraction.Create | fraction/Fraction.java:31-35 | a denominator below 1 is rejected; otherwise a fresh fraction n/d |
| Rationals.Fraction.Copy | fraction/Fraction.java:41-44 | the copy holds the same numerator and denominator |
| Rationals.Fraction.SetNumerator | fraction/Fraction.java:66-68 | replaces the numerator and keeps the denominator |
| Rationals.Fraction.SetDenominator | fraction/Fraction.java:75-81 | a value below 1 is rejected and leaves the fraction unchanged; otherwise it replaces the denominator |
| Rationals.Fraction.Invert | fraction/Fraction.java:95-106 | a zero numerator is an error and leaves the fraction unchanged; otherwise the new state is the Reciprocal of the old one |
| Rationals.Fraction.Add | fraction/Fraction.java:112-116 | the new state is Sum(old, f), even when f is this object |
| Rationals.Fraction.Multiply | fraction/Fraction.java:122-125 | the new state is Product(old, f), even when f is this object |
| Rationals.Fraction.Reduce | fraction/Fraction.java:131-135 | the new state is Reduced(old) |
| Rationals.Fraction.ToString | fraction/Fraction.java:148-168 | display types 1, 2 and 3 succeed and any other is an error; the fraction-mode text reads back as the held pair; "both" mode is that text followed by the decimal in parentheses |
| Dice.Pow | prediction/DiceOutcome.java:28-34 | the loop's product is a^b for b >= 0, and 1 for a negative exponent |
| Dice.ValidRoll | prediction/DiceOutcome.java:48 | definition: the rolls probability accepts, 1 <= adice <= 3, 1 <= ddice <= 2 and 0 <= awin <= min(adice, ddice); DiceCache.Probability fails exactly outside it |
| Dice.Digits | prediction/DiceOutcome.java:140-150 | k digits, each in 0..5 |
| Dice.DigitsRoundTrip | prediction/DiceOutcome.java:140-150 | for n < 6^k, the k digits rebuild n |
| Dice.FromDigitsRoundTrip | prediction/DiceOutcome.java:140-150 | every sequence of k digits in 0..5 is the decoding of exactly one number below 6^k |
| Dice.CellIsDigit | prediction/DiceOutcome.java:146 | the cell formula (n % 6^(d+1) - n % 6^d) / 6^d, with Java's operators, is the d-th base-6 digit of n |
| Dice.DiceDemultiplex | prediction/DiceOutcome.java:140-150 | a fresh array of `dies` cells holding the base-6 digits of n, least significant first |
| Dice.Step | prediction/DiceOutcome.java:119-126 | one comparison of the inner loop, specified: an out-of-order pair is swapped and the swap noted; the length is kept; StepRaisesWeight and StepPermutes state its effect |
| Dice.Pass | prediction/DiceOutcome.java:116-127 | one pass of the inner loop, specified: the comparisons (0, 1), ..., (i - 1, i) in turn; the length is kept; PassOutcome states its effect |
| Dice.BubblePass | prediction/DiceOutcome.java:116-127 | one pass of the inner loop leaves the slice as the specified pass Pass leaves it, reports whether it swapped, and changes no cell outside [start, end] |
| Dice.StepRaisesWeight | prediction/DiceOutcome.java:119-126 | a comparison that swaps an out-of-order pair raises the weight Σ j*s[j] by at least 1 and sets the swap flag; one that does not swap changes nothing; so the weight plus the flag never falls |
| Dice.PassRaisesWeight | prediction/DiceOutcome.java:117-127 | a pass that swaps raises the weight by at least 1; a pass that does not swap never lowers it |
| Dice.PassPermutes | prediction/DiceOutcome.java:117-127 | a pass only rearranges the slice |
| Dice.PassWithoutSwap | prediction/DiceOutcome.java:114-127 | a pass that swaps nothing leaves the slice unchanged, and each adjacent pair it compared is in order |
| Dice.PassOutcome | prediction/DiceOutcome.java:114-128 | after a pass the slice is a permutation with the same sum of magnitudes and a weight at most its length times that sum; the weight is higher if the pass swapped, and the slice is sorted if it did not |
| Dice.BubbleSort | prediction/DiceOutcome.java:109-130 | when end > start, arr[start..end] ends sorted ascending and is a permutation of its old contents; cells outside are unchanged; an empty or one-cell range changes nothing |
| Dice.SortSeq | prediction/DiceOutcome.java:109-130 | the reference sort: sorted, a permutation, the same length |
| Dice.SortedUnique | prediction/DiceOutcome.java:109-130 | there is only one sorted permutation, so any correct sort gives SortSeq |
| Dice.AttackSorted | prediction/DiceOutcome.java:82 | when the first sort ends sorted, a permutation, and with the other cells unchanged, the attacker's dice are SortSeq of their faces and the defender's dice are untouched |
| Dice.DefenceSorted | prediction/DiceOutcome.java:84 | when the second sort ends sorted, a permutation, and with the other cells unchanged, the defender's dice are SortSeq of what they held and the attacker's dice are untouched |
| Dice.PairWins | prediction/DiceOutcome.java:87-89 | at most one win per compared pair |
| Dice.RoundWins | prediction/DiceOutcome.java:86-89 | an assignment gives at most min(adice, ddice) attacker wins |
| Dice.SortedRound | prediction/DiceOutcome.java:79-89 | after decoding and the two sorts, the pairs the loop compares give RoundWins of the assignment |
| Dice.CountTopWins | prediction/DiceOutcome.java:87-89 | counts, over the top min(adice, ddice) dice of each sorted side paired in order, the pairs where the attacker is strictly higher (ties go to the defender) |
| Dice.CountAttackerWins | prediction/DiceOutcome.java:77-89 | one iteration of the assignment loop yields RoundWins(adice, ddice, o) |
| Dice.CalcProbability | prediction/DiceOutcome.java:65-101 | the counted matches over 6^(adice+ddice), reduced, equal RoundProbability |
| Dice.RoundProbability | prediction/DiceOutcome.java:97-100 | the probability of a round is a valid fraction in lowest terms |
| Dice.RoundProbabilityBounds | prediction/DiceOutcome.java:65-101 | every round probability lies between 0 and 1 |
| Dice.RoundProbabilityIsShare | prediction/DiceOutcome.java:65-101 | the value of a round probability is the share of assignments with exactly awin wins |
| Dice.WinTableBounded | prediction/DiceOutcome.java:86-89 | no assignment gives more than min(adice, ddice) wins |
| Dice.ProbabilitySumIsCount | prediction/DiceOutcome.java:75-95 | the probabilities for awin = 0 .. k-1 add up to the share of assignments with fewer than k wins |
| Dice.RoundProbabilitiesSumToOne | prediction/DiceOutcome.java:75-95 | for a fixed number of dice on each side, the probabilities for awin = 0 .. min(adice, ddice) add up to exactly 1 |
| Dice.OneOnOneCounts | prediction/DiceOutcome.java:86-94 | with one die each, 15 of the 36 assignments are attacker wins and 21 are not |
| Dice.ReducedTwelfths | prediction/DiceOutcome.java:98-99 | 15/36 reduces to 5/12 and 21/36 to 7/12 |
| Dice.OneOnOne | prediction/DiceOutcome.java:65-101 | probability(1, 1, 1) = 5/12 and probability(1, 1, 0) = 7/12 |
| Dice.DiceCache.constructor | prediction/DiceOutcome.java:20 | a 3 x 2 x 3 table with every cell empty |
| Dice.DiceCache.Probability | prediction/DiceOutcome.java:46-57 | rejects a roll unless 1 <= adice <= 3, 1 <= ddice <= 2 and 0 <= awin <= min(adice, ddice); otherwise returns RoundProbability and the requested cell holds that answer afterwards; writes only the requested cell and only while it is empty, so every cell either is empty or holds its RoundProbability |
| Outcomes.IsFinal | prediction/BattleOutcome.java:41-43 | definition: one attacker against at least one defender, or several attackers against none; StatesPartition relates it to Fighting |
| Outcomes.SameArmies | prediction/BattleOutcome.java:27-32 | definition: equal attackers and equal defenders, the probability ignored; SameArmiesIgnoresProbability states what it ignores |
| Outcomes.Victory | prediction/BattleOutcome.java:115-117 | definition: no defender left and at least n attackers; ProbVictoryValue sums the probabilities of these entries |
| Outcomes.Fighting | prediction/Battle.java:30 | definition: a battle still to fight, a > 1 and d > 0, the branch in which predict computes and stores; StatesPartition relates it to IsFinal |
| Outcomes.StatesPartition | prediction/BattleOutcome.java:41-43 | a pair with at least one attacker is exactly one of: still fighting, final, or (1, 0) |
| Outcomes.NewOutcome | prediction/BattleOutcome.java:53-61 | a pair that is not final is rejected; otherwise the outcome has the armies given and the probability 1/1 |
| Outcomes.NewOutcomeWith | prediction/BattleOutcome.java:72-80 | a pair that is not final is rejected; otherwise the outcome has the given probability |
| Outcomes.ScaleOutcome | prediction/BattleOutcome.java:99-103 | a clone with the same armies and probability old*f |
| Outcomes.ScaleOutcomeValue | prediction/BattleOutcome.java:99-103 | the clone's probability has value old*f |
| Outcomes.ReduceOutcome | prediction/BattleOutcome.java:108-110 | the same armies and the same value, in lowest terms |
| Outcomes.ReduceOutcomeIdempotent | prediction/BattleOutcome.java:108-110 | reducing an outcome twice is the same as reducing it once |
| Outcomes.SameArmiesIgnoresProbability | prediction/BattleOutcome.java:27-32 | equality and victory depend only on the armies: a scaled, reduced or re-weighted outcome equals the original |
| OutcomeSets.FindKey | prediction/BattleOutcomeSet.java:53-63 | the index of the first entry equal to o, or none when no entry is equal |
| OutcomeSets.MergeOne | prediction/BattleOutcomeSet.java:51-66 | merge(outcome), specified: keeps every entry valid; MergeOneShape, MergeOneTotal, MergeOneUnique and MergeOneBounded state its effect |
| OutcomeSets.MergeOneShape | prediction/BattleOutcomeSet.java:51-66 | when some entry equals o, the length is kept, the first such entry's probability becomes its old one plus o's, and every other entry is unchanged; without one, o is appended; afterwards some entry equals o |
| OutcomeSets.MergeOneTotal | prediction/BattleOutcomeSet.java:51-66 | merging adds o's probability to the total |
| OutcomeSets.MergeOneUnique | prediction/BattleOutcomeSet.java:51-66 | merging keeps the entries pairwise unequal |
| OutcomeSets.MergeOneBounded | prediction/BattleOutcomeSet.java:51-66 | merging keeps a bound on the armies |
| OutcomeSets.TotalUpdate | prediction/BattleOutcomeSet.java:58 | replacing one entry's probability changes the total by the difference |
| OutcomeSets.TotalAppend | prediction/BattleOutcomeSet.java:34-44 | appending adds the new probability to the total |
| OutcomeSets.MergeAll | prediction/BattleOutcomeSet.java:185-195 | merge(set), specified as the other set's entries merged one at a time in list order; keeps every entry valid; MergeAllTotal, MergeAllUnique and MergeAllBounded state its effect |
| OutcomeSets.MergeAllSingle | prediction/BattleOutcomeSet.java:185-195 | merging a one-entry set merges its entry |
| OutcomeSets.MergeNew | prediction/BattleOutcomeSet.java:185-195 | merging an entry that equals nothing in the list appends it |
| OutcomeSets.MergeAllTotal | prediction/BattleOutcomeSet.java:185-195 | after merge(set), the total is the old total plus the other set's total |
| OutcomeSets.MergeAllUnique | prediction/BattleOutcomeSet.java:185-195 | merge(set) keeps the entries pairwise unequal |
| OutcomeSets.MergeAllBounded | prediction/BattleOutcomeSet.java:185-195 | merge(set) keeps a bound on the armies |
| OutcomeSets.ScaleAll | prediction/BattleOutcomeSet.java:154-179 | the same length and the same armies in the same order, each probability multiplied by f |
| OutcomeSets.ScaleAllTotal | prediction/BattleOutcomeSet.java:154-179 | the clone's total is the old total times f |
| OutcomeSets.TotalScaled | prediction/BattleOutcomeSet.java:154-179 | two lists whose entries are, pointwise, the other's times f have totals that differ by the factor f |
| OutcomeSets.MergeScaledTotal | prediction/BattleOutcomeSet.java:185-195 | merging in a distribution of total 1 scaled by f adds f to the total |
| OutcomeSets.VictorySum | prediction/BattleOutcomeSet.java:94-101 | the running sum is a valid fraction |
| OutcomeSets.VictorySumValue | prediction/BattleOutcomeSet.java:94-101 | the running sum of probVictory's loop has value equal to the exact sum of the victories' probabilities |
| OutcomeSets.ProbVictoryOf | prediction/BattleOutcomeSet.java:90-104 | the result is a valid fraction in lowest terms |
| OutcomeSets.ProbVictoryValue | prediction/BattleOutcomeSet.java:90-104 | probVictory's value is the exact sum of the probabilities of the entries with no defender left and at least n attackers; an empty set gives 0 |
| OutcomeSets.OutcomeSet.constructor | prediction/BattleOutcomeSet.java:23-27 | an empty set with count 0 |
| OutcomeSets.OutcomeSet.FromParts | prediction/BattleOutcomeSet.java:113-117 | a set with the given list and count |
| OutcomeSets.OutcomeSet.Append | prediction/BattleOutcomeSet.java:34-44 | b is added at the end; the earlier entries are unchanged; the count goes up by one |
| OutcomeSets.OutcomeSet.Merge | prediction/BattleOutcomeSet.java:51-66 | the new list is MergeOne(old, b): the first equal entry gets the summed probability, otherwise b is appended |
| OutcomeSets.OutcomeSet.MergeSet | prediction/BattleOutcomeSet.java:185-195 | the new list is MergeAll(old, b): b's entries merged one at a time, in order |
| OutcomeSets.OutcomeSet.CloneMultiply | prediction/BattleOutcomeSet.java:154-179 | a fresh set holding ScaleAll(entries, f); the receiver is unchanged |
| OutcomeSets.OutcomeSet.ProbVictory | prediction/BattleOutcomeSet.java:90-104 | the loop's result is ProbVictoryOf(entries, n) |
| OutcomeSets.OutcomeSet.Count | prediction/BattleOutcomeSet.java:145-147 | the stored count equals the number of entries |
| Battles.ADice | prediction/Battle.java:79 | definition: the attacker rolls one die per army beyond the first, at most three |
| Battles.DDice | prediction/Battle.java:81 | definition: the defender rolls one die per army, at most two |
| Battles.Loss | prediction/Battle.java:83 | definition: the armies one round removes, min(adice, ddice); SubBattle states that it is at least 1 for a fighting pair |
| Battles.Reachable | prediction/Battle.java:30-58 | definition: the pairs predict answers, fighting (line 30) or final (line 58); Predictor.Predict returns null exactly outside it |
| Battles.SubBattle | prediction/Battle.java:79-102 | for a > 1 and d > 0: loss >= 1; every split i in 0..loss is a valid roll; the battle left is reachable, smaller in a+d, within the starting armies, and never (1, 0) |
| Battles.Dist | prediction/Battle.java:29-106 | every entry of a prediction is a valid outcome: a final pair with a positive denominator |
| Battles.Splits | prediction/Battle.java:85-103 | the running merger of calcPredict holds valid outcomes |
| Battles.After | prediction/Battle.java:102 | the prediction for the battle a split leaves holds valid outcomes |
| Battles.Odds | prediction/Battle.java:102 | the probability of a split is a valid fraction |
| Battles.DistTotal | prediction/Battle.java:75-106 | the probabilities of every prediction add up to exactly 1 |
| Battles.SplitsTotal | prediction/Battle.java:85-103 | after k splits, the merger's total is the probability that the round ends in one of those k splits |
| Battles.DistUnique | prediction/Battle.java:75-106 | no two entries of a prediction have the same armies |
| Battles.SplitsUnique | prediction/Battle.java:85-103 | the merger never holds two entries with the same armies |
| Battles.DistBounded | prediction/Battle.java:75-106 | no end of a battle leaves more than a attackers or more than d defenders |
| Battles.SplitsBounded | prediction/Battle.java:85-103 | the merger stays within the starting armies |
| Battles.ScaleAllBounded | prediction/BattleOutcomeSet.java:154-179 | scaling keeps any bound on the armies |
| Battles.TwoAgainstOne | prediction/Battle.java:85-102 | predict(2, 1) is [(1,1): 7/12, (2,0): 5/12], in that order |
| Battles.MergeTwoEnds | prediction/BattleOutcomeSet.java:185-195 | merging two one-entry sets with different armies into an empty set lists both scaled entries, in merge order |
| Battles.Predictor.constructor | prediction/Battle.java:14-19 | an empty prediction table and a fresh dice table with every cell empty |
| Battles.Predictor.Predict | prediction/Battle.java:29-67 | null exactly for pairs that are neither fighting nor final; otherwise a fresh set equal to Dist(a, d) (for a final pair the one entry (a, d): 1/1); a fighting pair is stored in the table; stored entries are never lost or changed |
| Battles.Predictor.CalcPredict | prediction/Battle.java:75-106 | returns a fresh set equal to Dist(a, d), and keeps every stored entry |
| Battles.Predictor.AddSplit | prediction/Battle.java:85-103 | one pass of calcPredict's loop advances the merger from Splits(a, d, i) to Splits(a, d, i + 1) |
| Battles.Predictor.ScaledAfter | prediction/Battle.java:102 | the argument calcPredict merges is a fresh set equal to the sub-prediction scaled by the split's probability |

## Left out

- Decimal output is not modelled. `Fraction.toDouble`, `Fraction.toBigDecimal` and the decimal half of `toString` use floating point and BigDecimal division. `ToString` takes the decimal text as a parameter instead.
- `Fraction.default_print` and the zero-argument `toString` methods are not modelled. The model passes the display type explicitly.
- `getNumerator` and `getDenominator` are not modelled. They narrow to `long` with truncation; the model reads the parts directly (`Fraction.Get`).
- Integer widths are not modelled. BigInteger is modelled as unbounded `int`. The `long` counters of `calcProbability` and `pow` are also unbounded; their values are at most 6^5 = 7776.
- `BattleOutcome.toString` and `BattleOutcomeSet.toString` are not modelled. They only build display text.
- The copy constructor `BattleOutcome(BattleOutcome)` is not modelled. Outcomes are values here, so a copy is the outcome itself.
- The copy constructor `BattleOutcomeSet(BattleOutcomeSet)` is not modelled. It is never called, and it copies only the first node deeply.
- `BattleOutcomeNode` is not modelled as heap nodes. A set's list is a `seq<Outcome>` field that the methods reassign, so the head, tail and next links are not modelled.
- Outcome probabilities are `Frac` values, not shared Fraction objects.
  - `merge` adds into the stored entry and `append` stores the caller's outcome by reference. The model has no aliasing between a set and its caller.
  - This is faithful for the engine, because `calcPredict` only merges fresh clones.
- OutcomeSets.OutcomeSet.MergeSet: requires the other set to be a different object, because no call site merges a set into itself. In Java such a self-merge would find each entry itself (or an earlier equal entry), append nothing, and, with pairwise unequal entries, double every probability through the shared Fraction; the model does not capture that aliasing.
- The prediction table grows by array resizing (prediction/Battle.java:31-48). Here it is a `map<(int, int), seq<Outcome>>`: only "grows and never loses or changes an entry" is modelled.
  - Battles.Predictor.Predict: returns a fresh set built from the stored entries, not the stored object itself. Every reader of the returned set only reads it: `cloneMultiply` in calcPredict (prediction/Battle.java:102), and the printing of the set and `probVictory` in the front end (RiskRisk.java:38, 54, 61). None of them changes it, so the contents the caller sees are the same.
- Battles.Predictor.CalcPredict: requires a fighting pair (a > 1 and d > 0), which `predict`, its only caller, guarantees. The Java method, called directly, returns an empty set when a <= 0 or d < 0, and throws from `DiceOutcome.probability` for every other pair that is not fighting, (1, 0) included, since that call's arguments are evaluated before the null that `predict(1, 0)` returns is used; those paths are not modelled.
- Static state becomes objects. The dice table and the prediction table are static in the source. Here they are a `DiceCache` object and a `Predictor` object that the methods receive.
- Some inline loops are extracted as methods, each with its own contract:
  - `Dice.CountAttackerWins` and `Dice.CountTopWins`: the body of calcProbability's assignment loop and its counting loop;
  - `Dice.BubblePass`: bubbleSort's inner loop;
  - `Battles.Predictor.AddSplit` and `Battles.Predictor.ScaledAfter`: calcPredict's loop body and its merge argument.
- The interactive front end (RiskRisk.java) is not part of this model.
