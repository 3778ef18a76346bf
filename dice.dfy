/** The probability of one round of dice (prediction/DiceOutcome.java).

    A round with `adice` attacking and `ddice` defending dice is decided by
    enumerating all 6^(adice+ddice) equally likely face assignments: the
    assignment number o is split into base-6 digits, each side's dice are
    sorted, the top min(adice, ddice) dice are paired largest with largest,
    and the attacker wins a pair only with a strictly higher die. */
module Dice {
  import opened Arith
  import opened Results
  import opened Rationals

  const DIE_SIDES := 6
  const MAX_A_DICE := 3
  const MAX_D_DICE := 2

  function Min(a: int, b: int): int {
    if a < b then a else b
  }

  /** The argument checks of DiceOutcome.probability. */
  predicate ValidRoll(adice: int, ddice: int, awin: int) {
    1 <= adice <= MAX_A_DICE && 1 <= ddice <= MAX_D_DICE && 0 <= awin <= Min(adice, ddice)
  }

  // -----------------------------------------------------------------------
  // Face assignments as base-6 numbers

  /** The k base-6 digits of n, least significant first. */
  function Digits(n: nat, k: nat): (r: seq<int>)
    ensures |r| == k
    ensures forall i :: 0 <= i < k ==> 0 <= r[i] < DIE_SIDES
  {
    if k == 0 then [] else [n % DIE_SIDES] + Digits(n / DIE_SIDES, k - 1)
  }

  /** The number whose base-6 digits, least significant first, are s. */
  function FromDigits(s: seq<int>): int {
    if s == [] then 0 else s[0] + DIE_SIDES * FromDigits(s[1..])
  }

  /** Every number below 6^k is recovered from its k digits ... */
  lemma {:induction false} DigitsRoundTrip(n: nat, k: nat)
    requires n < Power(DIE_SIDES, k)
    ensures FromDigits(Digits(n, k)) == n
  {
    if k > 0 {
      assert n / DIE_SIDES < Power(DIE_SIDES, k - 1) by {
        DivModUnique(n, DIE_SIDES, n / DIE_SIDES, n % DIE_SIDES);
      }
      DigitsRoundTrip(n / DIE_SIDES, k - 1);
      assert Digits(n, k)[1..] == Digits(n / DIE_SIDES, k - 1);
    }
  }

  /** ... and every sequence of k faces is the digit sequence of a number
      below 6^k, so the numbers 0 .. 6^k - 1 enumerate each assignment of
      faces to k dice exactly once. */
  lemma {:induction false} FromDigitsRoundTrip(s: seq<int>)
    requires forall i :: 0 <= i < |s| ==> 0 <= s[i] < DIE_SIDES
    ensures 0 <= FromDigits(s) < Power(DIE_SIDES, |s|)
    ensures Digits(FromDigits(s), |s|) == s
  {
    if s != [] {
      var rest := FromDigits(s[1..]);
      FromDigitsRoundTrip(s[1..]);
      var n := s[0] + DIE_SIDES * rest;
      DivModUnique(n, DIE_SIDES, rest, s[0]);
      assert n < Power(DIE_SIDES, |s|) by {
        assert rest <= Power(DIE_SIDES, |s| - 1) - 1;
        MulMono(DIE_SIDES, rest, Power(DIE_SIDES, |s| - 1) - 1);
      }
      assert Digits(n, |s|) == [s[0]] + s[1..];
    }
  }

  /** Digit d is the d-th base-6 digit: (n / 6^d) mod 6. */
  lemma {:induction false} DigitAt(n: nat, k: nat, d: nat)
    requires d < k
    ensures Power(DIE_SIDES, d) > 0
    ensures Digits(n, k)[d] == (n / Power(DIE_SIDES, d)) % DIE_SIDES
  {
    PowerPositive(DIE_SIDES, d);
    if d > 0 {
      DigitAt(n / DIE_SIDES, k - 1, d - 1);
      PowerPositive(DIE_SIDES, d - 1);
      DivDiv(n, DIE_SIDES, Power(DIE_SIDES, d - 1));
    }
  }

  /** n mod 6p splits into the digit above p and n mod p. */
  lemma ModSplit(n: nat, p: int)
    requires p > 0
    ensures n % (DIE_SIDES * p) == ((n / p) % DIE_SIDES) * p + n % p
  {
    var q, r := n / p, n % p;
    var q2, t := q / DIE_SIDES, q % DIE_SIDES;
    assert n == q2 * (DIE_SIDES * p) + (t * p + r) by {
      assert n == q * p + r;
      assert q == q2 * DIE_SIDES + t;
    }
    assert t * p <= (DIE_SIDES - 1) * p by { MulMono(p, t, DIE_SIDES - 1); }
    DivModUnique(n, DIE_SIDES * p, q2, t * p + r);
  }

  /** The cell diceDemultiplex computes with Java's `%` and `/` is the digit. */
  lemma CellIsDigit(n: nat, k: nat, d: nat)
    requires d < k
    ensures Power(DIE_SIDES, d) > 0
    ensures JavaDiv(JavaRem(n, Power(DIE_SIDES, d + 1)) - JavaRem(n, Power(DIE_SIDES, d)),
                    Power(DIE_SIDES, d)) == Digits(n, k)[d]
  {
    var p := Power(DIE_SIDES, d);
    PowerPositive(DIE_SIDES, d);
    assert Power(DIE_SIDES, d + 1) == DIE_SIDES * p;
    JavaDivNonNegative(n, p);
    JavaDivNonNegative(n, DIE_SIDES * p);
    ModSplit(n, p);
    var t := (n / p) % DIE_SIDES;
    assert n % (DIE_SIDES * p) - n % p == t * p;
    JavaDivExact(t, p);
    DigitAt(n, k, d);
  }

  // -----------------------------------------------------------------------
  // Sorting, specified

  predicate Sorted(s: seq<int>) {
    forall i, j :: 0 <= i < j < |s| ==> s[i] <= s[j]
  }

  /** Places x before the first element of s not below it. */
  function Insert(x: int, s: seq<int>): (r: seq<int>)
    ensures |r| == |s| + 1
  {
    if s == [] then [x]
    else if x <= s[0] then [x] + s
    else [s[0]] + Insert(x, s[1..])
  }

  /** Inserting adds x to the elements. */
  lemma {:induction false} InsertMultiset(x: int, s: seq<int>)
    ensures multiset(Insert(x, s)) == multiset(s) + multiset{x}
  {
    if s == [] {
      assert Insert(x, s) == [x];
    } else if x <= s[0] {
      assert Insert(x, s) == [x] + s;
    } else {
      var t := s[1..];
      InsertMultiset(x, t);
      var r := Insert(x, t);
      assert Insert(x, s) == [s[0]] + r;
      assert multiset([s[0]] + r) == multiset{s[0]} + multiset(r);
      assert s == [s[0]] + t;
      assert multiset(s) == multiset{s[0]} + multiset(t);
    }
  }

  /** A lower bound of x and of s bounds what inserting gives. */
  lemma {:induction false} InsertAbove(x: int, s: seq<int>, lo: int)
    requires lo <= x && forall i :: 0 <= i < |s| ==> lo <= s[i]
    ensures forall i :: 0 <= i < |Insert(x, s)| ==> lo <= Insert(x, s)[i]
  {
    if s != [] && x > s[0] {
      InsertAbove(x, s[1..], lo);
    }
  }

  lemma SortedCons(h: int, r: seq<int>)
    requires Sorted(r) && forall i :: 0 <= i < |r| ==> h <= r[i]
    ensures Sorted([h] + r)
  {
  }

  /** Inserting into a sorted sequence keeps it sorted. */
  lemma {:induction false} InsertSorted(x: int, s: seq<int>)
    requires Sorted(s)
    ensures Sorted(Insert(x, s))
  {
    if s != [] {
      if x <= s[0] {
        SortedCons(x, s);
      } else {
        SortedTail(s);
        InsertSorted(x, s[1..]);
        InsertAbove(x, s[1..], s[0]);
        SortedCons(s[0], Insert(x, s[1..]));
      }
    }
  }

  /** The ascending arrangement of s (insertion sort). */
  function SortSeq(s: seq<int>): (r: seq<int>)
    ensures Sorted(r) && multiset(r) == multiset(s) && |r| == |s|
  {
    if s == [] then []
    else
      InsertSorted(s[0], SortSeq(s[1..]));
      InsertMultiset(s[0], SortSeq(s[1..]));
      assert s == [s[0]] + s[1..];
      Insert(s[0], SortSeq(s[1..]))
  }

  /** Two sorted arrangements of the same multiset start with the same
      element: each first element is at most the other. */
  lemma SameHead(s: seq<int>, t: seq<int>)
    requires s != [] && Sorted(s) && Sorted(t) && multiset(s) == multiset(t)
    ensures t != [] && s[0] == t[0]
  {
    assert s[0] in multiset(t);
    assert t != [];
    assert t[0] in multiset(s);
    var j :| 0 <= j < |t| && t[j] == s[0];
    var i :| 0 <= i < |s| && s[i] == t[0];
    assert t[0] <= t[j] && s[0] <= s[i];
  }

  lemma TailMultiset(s: seq<int>)
    requires s != []
    ensures multiset(s[1..]) == multiset(s) - multiset{s[0]}
  {
    assert s == [s[0]] + s[1..];
    assert multiset(s) == multiset{s[0]} + multiset(s[1..]);
  }

  lemma SortedTail(s: seq<int>)
    requires s != [] && Sorted(s)
    ensures Sorted(s[1..])
  {
    forall i, j | 0 <= i < j < |s| - 1 ensures s[1..][i] <= s[1..][j] {
      assert s[1..][i] == s[i + 1] && s[1..][j] == s[j + 1];
    }
  }

  /** A sorted arrangement of a multiset is unique. */
  lemma {:induction false} SortedUnique(s: seq<int>, t: seq<int>)
    requires Sorted(s) && Sorted(t) && multiset(s) == multiset(t)
    ensures s == t
    decreases |s|
  {
    if s == [] {
      assert |t| == |multiset(t)| == 0;
    } else {
      SameHead(s, t);
      TailMultiset(s);
      TailMultiset(t);
      assert multiset(s[1..]) == multiset(t[1..]);
      SortedTail(s);
      SortedTail(t);
      SortedUnique(s[1..], t[1..]);
      assert s == [s[0]] + s[1..] && t == [t[0]] + t[1..];
    }
  }

  /** Adjacent pairs in order make the whole sequence sorted. */
  lemma {:induction false} AdjacentSorted(s: seq<int>)
    requires forall k :: 0 <= k < |s| - 1 ==> s[k] <= s[k + 1]
    ensures Sorted(s)
    decreases |s|
  {
    if |s| > 1 {
      AdjacentSorted(s[1..]);
      assert forall j :: 1 <= j < |s| ==> s[0] <= s[j] by {
        forall j | 1 <= j < |s| ensures s[0] <= s[j] {
          assert s[1..][0] == s[1] && s[1..][j - 1] == s[j];
        }
      }
    }
  }

  // -----------------------------------------------------------------------
  // What a round is worth, specified

  /** Of the first i of the m top pairs, matched in ascending position, the
      number the attacker wins with a strictly higher die. */
  function PairWins(att: seq<int>, def: seq<int>, m: nat, i: nat): (r: nat)
    requires m <= |att| && m <= |def| && i <= m
    ensures r <= i
  {
    if i == 0 then 0
    else PairWins(att, def, m, i - 1)
         + (if att[|att| - m + i - 1] > def[|def| - m + i - 1] then 1 else 0)
  }

  /** The attacker's wins for face assignment o: the first adice digits are
      the attacker's dice, the rest the defender's. */
  function RoundWins(adice: nat, ddice: nat, o: nat): (r: nat)
    ensures r <= Min(adice, ddice)
  {
    var faces := Digits(o, adice + ddice);
    var m := Min(adice, ddice);
    PairWins(SortSeq(faces[..adice]), SortSeq(faces[adice..]), m, m)
  }

  /** ws lists the attacker's wins for each of the assignments 0 .. m-1.
      The quantifier is only instantiated where a proof names RoundWins of a
      particular assignment. */
  ghost predicate IsWinTable(adice: nat, ddice: nat, m: nat, ws: seq<nat>) {
    |ws| == m &&
    forall o {:trigger RoundWins(adice, ddice, o)} :: 0 <= o < m ==> ws[o] == RoundWins(adice, ddice, o)
  }

  /** The table of the attacker's wins over the assignments 0 .. m-1. */
  ghost function WinTable(adice: nat, ddice: nat, m: nat): (r: seq<nat>)
    ensures IsWinTable(adice, ddice, m, r)
  {
    var table := seq(m, o requires 0 <= o => RoundWins(adice, ddice, o));
    assert IsWinTable(adice, ddice, m, table);
    var ws :| IsWinTable(adice, ddice, m, ws);
    ws
  }

  /** How many entries of ws equal v. */
  function CountOf(ws: seq<nat>, v: int): (r: nat)
    ensures r <= |ws|
  {
    if ws == [] then 0 else CountOf(ws[..|ws| - 1], v) + (if ws[|ws| - 1] == v then 1 else 0)
  }

  /** How many of the assignments 0 .. m-1 give the attacker exactly awin. */
  ghost function Matches(adice: nat, ddice: nat, awin: int, m: nat): nat {
    CountOf(WinTable(adice, ddice, m), awin)
  }

  /** The probability of exactly awin attacker wins: the matching assignments
      over all of them, reduced. */
  ghost function RoundProbability(adice: int, ddice: int, awin: int): (r: Frac)
    requires ValidRoll(adice, ddice, awin)
    ensures r.Valid() && Gcd(r.num, r.den) == 1
  {
    var total := Power(DIE_SIDES, adice + ddice);
    PowerPositive(DIE_SIDES, adice + ddice);
    Reduced(Frac(Matches(adice, ddice, awin, total), total))
  }

  /** Every round outcome has a probability between 0 and 1. */
  lemma RoundProbabilityBounds(adice: int, ddice: int, awin: int)
    requires ValidRoll(adice, ddice, awin)
    ensures 0.0 <= RoundProbability(adice, ddice, awin).Value() <= 1.0
  {
    var total := Power(DIE_SIDES, adice + ddice);
    PowerPositive(DIE_SIDES, adice + ddice);
    ShareBounds(Matches(adice, ddice, awin, total), total, RoundProbability(adice, ddice, awin));
  }

  lemma ShareBounds(k: nat, total: int, r: Frac)
    requires k <= total && total >= 1 && r.Valid()
    requires r.Value() == Frac(k, total).Value()
    ensures 0.0 <= r.Value() <= 1.0
  {
  }

  /** a out of n, as a real number. */
  ghost function Share(a: int, n: int): real
    requires n > 0
  {
    a as real / n as real
  }

  /** The probability is the share of the assignments that give awin. */
  lemma RoundProbabilityIsShare(adice: int, ddice: int, awin: int)
    requires ValidRoll(adice, ddice, awin)
    ensures Power(DIE_SIDES, adice + ddice) > 0
    ensures RoundProbability(adice, ddice, awin).Value()
         == Share(Matches(adice, ddice, awin, Power(DIE_SIDES, adice + ddice)), Power(DIE_SIDES, adice + ddice))
  {
    PowerPositive(DIE_SIDES, adice + ddice);
  }

  /** The last step of calcProbability: the count over the total, reduced. */
  lemma CountedProbability(adice: int, ddice: int, awin: int, count: int, total: int)
    requires ValidRoll(adice, ddice, awin) && total >= 1
    requires total == Power(DIE_SIDES, adice + ddice)
    requires count == Matches(adice, ddice, awin, total)
    ensures RoundProbability(adice, ddice, awin) == Reduced(Frac(count, total))
  {
  }

  // -----------------------------------------------------------------------
  // The probabilities of one roll add up to one

  lemma CountOfPrefix(ws: seq<nat>, i: nat, v: int)
    requires i < |ws|
    ensures CountOf(ws[..i + 1], v) == CountOf(ws[..i], v) + (if ws[i] == v then 1 else 0)
  {
    assert ws[..i + 1][..i] == ws[..i];
  }

  /** The number of entries of ws below k. */
  function CountBelow(ws: seq<nat>, k: nat): nat {
    if k == 0 then 0 else CountBelow(ws, k - 1) + CountOf(ws, k - 1)
  }

  lemma {:induction false} CountBelowStep(ws: seq<nat>, k: nat)
    requires ws != []
    ensures CountBelow(ws, k)
         == CountBelow(ws[..|ws| - 1], k) + (if ws[|ws| - 1] < k then 1 else 0)
  {
    if k > 0 {
      CountBelowStep(ws, k - 1);
    }
  }

  /** When no entry exceeds bound, the counts of 0 .. bound cover every
      entry exactly once. */
  lemma {:induction false} EveryEntryCounted(ws: seq<nat>, bound: nat)
    requires forall i :: 0 <= i < |ws| ==> ws[i] <= bound
    ensures CountBelow(ws, bound + 1) == |ws|
  {
    if ws != [] {
      var init := ws[..|ws| - 1];
      assert forall i :: 0 <= i < |init| ==> init[i] <= bound by {
        forall i | 0 <= i < |init| ensures init[i] <= bound {
          assert init[i] == ws[i];
        }
      }
      EveryEntryCounted(init, bound);
      CountBelowStep(ws, bound + 1);
    } else {
      NothingCounted(ws, bound + 1);
    }
  }

  lemma {:induction false} NothingCounted(ws: seq<nat>, k: nat)
    requires ws == []
    ensures CountBelow(ws, k) == 0
  {
    if k > 0 {
      NothingCounted(ws, k - 1);
    }
  }

  lemma WinTableBounded(adice: nat, ddice: nat, m: nat)
    ensures forall i :: 0 <= i < m ==> WinTable(adice, ddice, m)[i] <= Min(adice, ddice)
  {
    var ws := WinTable(adice, ddice, m);
    forall i | 0 <= i < m ensures ws[i] <= Min(adice, ddice) {
      assert ws[i] == RoundWins(adice, ddice, i);
    }
  }

  ghost function ProbabilitySum(adice: int, ddice: int, k: nat): real
    requires 1 <= adice <= MAX_A_DICE && 1 <= ddice <= MAX_D_DICE && k <= Min(adice, ddice) + 1
  {
    if k == 0 then 0.0
    else ProbabilitySum(adice, ddice, k - 1) + RoundProbability(adice, ddice, k - 1).Value()
  }

  lemma {:induction false} ProbabilitySumIsCount(adice: int, ddice: int, k: nat)
    requires 1 <= adice <= MAX_A_DICE && 1 <= ddice <= MAX_D_DICE && k <= Min(adice, ddice) + 1
    ensures Power(DIE_SIDES, adice + ddice) > 0
    ensures ProbabilitySum(adice, ddice, k)
         == Share(CountBelow(WinTable(adice, ddice, Power(DIE_SIDES, adice + ddice)), k), Power(DIE_SIDES, adice + ddice))
  {
    PowerPositive(DIE_SIDES, adice + ddice);
    if k > 0 {
      var total := Power(DIE_SIDES, adice + ddice);
      var table := WinTable(adice, ddice, total);
      ProbabilitySumIsCount(adice, ddice, k - 1);
      RoundProbabilityIsShare(adice, ddice, k - 1);
      var prev, p := ProbabilitySum(adice, ddice, k - 1), RoundProbability(adice, ddice, k - 1).Value();
      var below, at := CountBelow(table, k - 1), CountOf(table, k - 1);
      assert ProbabilitySum(adice, ddice, k) == prev + p;
      assert CountBelow(table, k) == below + at;
      assert Matches(adice, ddice, k - 1, total) == at;
      AddShares(prev, p, below, at, CountBelow(table, k), total);
    }
  }

  lemma AddShares(x: real, y: real, a: int, b: int, c: int, n: int)
    requires n > 0 && x == Share(a, n) && y == Share(b, n) && c == a + b
    ensures x + y == Share(c, n)
  {
  }

  /** For fixed dice counts the probabilities of awin = 0 .. min(adice, ddice)
      sum to exactly one. */
  lemma RoundProbabilitiesSumToOne(adice: int, ddice: int)
    requires 1 <= adice <= MAX_A_DICE && 1 <= ddice <= MAX_D_DICE
    ensures ProbabilitySum(adice, ddice, Min(adice, ddice) + 1) == 1.0
  {
    var total := Power(DIE_SIDES, adice + ddice);
    ProbabilitySumIsCount(adice, ddice, Min(adice, ddice) + 1);
    var table := WinTable(adice, ddice, total);
    WinTableBounded(adice, ddice, total);
    EveryEntryCounted(table, Min(adice, ddice));
    assert CountBelow(table, Min(adice, ddice) + 1) == total;
    WholeShare(total);
  }

  lemma WholeShare(n: int)
    requires n > 0
    ensures Share(n, n) == 1.0
  {
  }

  // -----------------------------------------------------------------------
  // One die against one

  /** Assignment o pits attacking face o mod 6 against defending face
      (o / 6) mod 6. */
  function OneOnOneWin(o: nat): nat {
    if o % DIE_SIDES > (o / DIE_SIDES) % DIE_SIDES then 1 else 0
  }

  lemma OneOnOneWins(o: nat)
    ensures RoundWins(1, 1, o) == OneOnOneWin(o)
  {
    var faces := Digits(o, 2);
    assert Digits(o / DIE_SIDES, 1) == [(o / DIE_SIDES) % DIE_SIDES];
    assert faces[..1] == [o % DIE_SIDES];
    assert faces[1..] == [(o / DIE_SIDES) % DIE_SIDES];
  }

  /** The attacker's winning pairs of faces with the defending face below b. */
  function PairsBelow(b: nat): int {
    if b == 0 then 0 else PairsBelow(b - 1) + (DIE_SIDES - b)
  }

  /** Assignment o = 6c + j pits attacking face j against defending face c. */
  lemma OneOnOneStep(ws: seq<nat>, o: nat, c: nat, j: nat)
    requires c < DIE_SIDES && j < DIE_SIDES && o == DIE_SIDES * c + j && o < |ws|
    requires forall o :: 0 <= o < |ws| ==> ws[o] == OneOnOneWin(o)
    ensures CountOf(ws[..o + 1], 1) == CountOf(ws[..o], 1) + (if j > c then 1 else 0)
  {
    DivModUnique(o, DIE_SIDES, c, j);
    DivModUnique(c, DIE_SIDES, 0, c);
    CountOfPrefix(ws, o, 1);
  }

  /** The six assignments with defending face c: the attacker wins 5 - c. */
  lemma OneOnOneBlock(ws: seq<nat>, c: nat)
    requires c < DIE_SIDES && DIE_SIDES * c + DIE_SIDES <= |ws|
    requires forall o :: 0 <= o < |ws| ==> ws[o] == OneOnOneWin(o)
    ensures CountOf(ws[..DIE_SIDES * c + DIE_SIDES], 1) == CountOf(ws[..DIE_SIDES * c], 1) + (DIE_SIDES - 1 - c)
  {
    var base := DIE_SIDES * c;
    OneOnOneStep(ws, base, c, 0);
    OneOnOneStep(ws, base + 1, c, 1);
    OneOnOneStep(ws, base + 2, c, 2);
    OneOnOneStep(ws, base + 3, c, 3);
    OneOnOneStep(ws, base + 4, c, 4);
    OneOnOneStep(ws, base + 5, c, 5);
    assert base + 5 + 1 == DIE_SIDES * c + DIE_SIDES;
    assert (if 0 > c then 1 else 0) + (if 1 > c then 1 else 0) + (if 2 > c then 1 else 0)
         + (if 3 > c then 1 else 0) + (if 4 > c then 1 else 0) + (if 5 > c then 1 else 0) == DIE_SIDES - 1 - c;
  }

  /** Counting block by block of six assignments, one block per defending
      face. */
  lemma {:induction false} OneOnOneBlocks(ws: seq<nat>, b: nat)
    requires b <= DIE_SIDES && DIE_SIDES * b <= |ws|
    requires forall o :: 0 <= o < |ws| ==> ws[o] == OneOnOneWin(o)
    ensures CountOf(ws[..DIE_SIDES * b], 1) == PairsBelow(b)
  {
    if b == 0 {
      assert ws[..0] == [];
    } else {
      OneOnOneBlocks(ws, b - 1);
      OneOnOneBlock(ws, b - 1);
      assert DIE_SIDES * b == DIE_SIDES * (b - 1) + DIE_SIDES;
    }
  }

  /** Of the 36 assignments of one die against one, the attacker wins 15
      and loses 21. */
  lemma OneOnOneCounts(total: nat)
    requires total == DIE_SIDES * DIE_SIDES
    ensures CountOf(WinTable(1, 1, total), 1) == 15
    ensures CountOf(WinTable(1, 1, total), 0) == 21
  {
    var ws := WinTable(1, 1, total);
    forall o | 0 <= o < |ws| ensures ws[o] == OneOnOneWin(o) {
      OneOnOneWins(o);
      assert ws[o] == RoundWins(1, 1, o);
    }
    OneOnOneBlocks(ws, DIE_SIDES);
    assert ws[..DIE_SIDES * DIE_SIDES] == ws;
    assert PairsBelow(DIE_SIDES) == 15 by {
      assert PairsBelow(0) == 0;
      assert PairsBelow(1) == 5;
      assert PairsBelow(2) == 9;
      assert PairsBelow(3) == 12;
      assert PairsBelow(4) == 14;
      assert PairsBelow(5) == 15;
    }
    WinTableBounded(1, 1, total);
    EveryEntryCounted(ws, 1);
    assert CountBelow(ws, 1) == CountOf(ws, 0);
    assert CountBelow(ws, 2) == CountOf(ws, 0) + CountOf(ws, 1);
  }

  lemma ReducedTwelfths()
    ensures Reduced(Frac(15, 36)) == Frac(5, 12)
    ensures Reduced(Frac(21, 36)) == Frac(7, 12)
  {
    assert Gcd(15, 36) == 3 by {
      assert NatGcd(15, 36) == NatGcd(36, 15) == NatGcd(15, 6) == NatGcd(6, 3) == NatGcd(3, 0) == 3;
    }
    assert Gcd(21, 36) == 3 by {
      assert NatGcd(21, 36) == NatGcd(36, 21) == NatGcd(21, 15) == NatGcd(15, 6);
      assert NatGcd(15, 6) == NatGcd(6, 3) == NatGcd(3, 0) == 3;
    }
    assert JavaDiv(15, 3) == 5 && JavaDiv(21, 3) == 7 && JavaDiv(36, 3) == 12;
  }

  /** One die against one: the attacker wins with probability 15/36 = 5/12
      and loses with probability 21/36 = 7/12. */
  lemma OneOnOne(awin: int)
    requires 0 <= awin <= 1
    ensures RoundProbability(1, 1, awin) == if awin == 1 then Frac(5, 12) else Frac(7, 12)
  {
    var total := Power(DIE_SIDES, 2);
    assert total == DIE_SIDES * DIE_SIDES;
    OneOnOneCounts(total);
    ReducedTwelfths();
    if awin == 1 {
      CountedProbability(1, 1, 1, 15, total);
    } else {
      CountedProbability(1, 1, 0, 21, total);
    }
  }

  // -----------------------------------------------------------------------
  // The imperative helpers of DiceOutcome

  /** DiceOutcome.pow: repeated multiplication; a negative exponent gives 1. */
  method Pow(a: int, b: int) returns (r: int)
    ensures b >= 0 ==> r == Power(a, b)
    ensures b < 0 ==> r == 1
  {
    r := 1;
    var i := 0;
    while i < b
      invariant b >= 0 ==> 0 <= i <= b
      invariant b < 0 ==> i == 0
      invariant r == Power(a, i)
    {
      r := r * a;
      i := i + 1;
    }
  }

  /** DiceOutcome.diceDemultiplex: the base-6 digits of n, least significant
      first, each computed as (n mod 6^(d+1) - n mod 6^d) / 6^d. */
  method DiceDemultiplex(n: int, dies: int) returns (temp: array<int>)
    requires dies >= 0
    ensures fresh(temp) && temp.Length == dies
    ensures n >= 0 ==> temp[..] == Digits(n, dies)
  {
    temp := new int[dies];
    var d := 0;
    while d < dies
      invariant 0 <= d <= dies
      invariant n >= 0 ==> temp[..d] == Digits(n, dies)[..d]
    {
      var high := Pow(DIE_SIDES, d + 1);
      var low := Pow(DIE_SIDES, d);
      var unit := Pow(DIE_SIDES, d);
      PowerPositive(DIE_SIDES, d);
      PowerPositive(DIE_SIDES, d + 1);
      temp[d] := JavaDiv(JavaRem(n, high) - JavaRem(n, low), unit);
      if n >= 0 {
        CellIsDigit(n, dies, d);
      }
      d := d + 1;
    }
  }

  /** Σ j * s[j]; swapping an adjacent pair that is out of order raises it. */
  ghost function Weight(s: seq<int>): int {
    if s == [] then 0 else Weight(s[..|s| - 1]) + (|s| - 1) * s[|s| - 1]
  }

  /** Σ |s[j]|, which bounds the weight and is not changed by swaps. */
  ghost function AbsSum(s: seq<int>): nat {
    if s == [] then 0 else AbsSum(s[..|s| - 1]) + Abs(s[|s| - 1])
  }

  lemma {:induction false} WeightUpdate(s: seq<int>, j: nat, v: int)
    requires j < |s|
    ensures Weight(s[j := v]) == Weight(s) + j * (v - s[j])
  {
    var n := |s|;
    if j == n - 1 {
      assert s[j := v][..n - 1] == s[..n - 1];
    } else {
      assert s[j := v][..n - 1] == s[..n - 1][j := v];
      WeightUpdate(s[..n - 1], j, v);
    }
  }

  lemma {:induction false} WeightBound(s: seq<int>)
    ensures Weight(s) <= |s| * AbsSum(s)
  {
    if s != [] {
      var m := |s| - 1;
      WeightBound(s[..m]);
      BoundStep(Weight(s[..m]), m, s[m], AbsSum(s[..m]));
    }
  }

  lemma BoundStep(w: int, m: nat, x: int, t: nat)
    requires w <= m * t
    ensures w + m * x <= (m + 1) * (t + Abs(x))
  {
    MulMono(m, x, Abs(x));
    assert m * t + m * Abs(x) == m * (t + Abs(x));
    assert m * (t + Abs(x)) + (t + Abs(x)) == (m + 1) * (t + Abs(x));
  }

  lemma SwapWeight(s: seq<int>, j: nat)
    requires j + 1 < |s|
    ensures Weight(s[j := s[j + 1]][j + 1 := s[j]]) == Weight(s) + s[j] - s[j + 1]
  {
    var x, y := s[j], s[j + 1];
    WeightUpdate(s, j, y);
    WeightUpdate(s[j := y], j + 1, x);
    assert j * (y - x) + (j + 1) * (x - y) == x - y;
  }

  /** The sum of magnitudes depends only on the multiset of values. */
  lemma {:induction false} AbsSumPermutation(s: seq<int>, t: seq<int>)
    requires multiset(s) == multiset(t)
    ensures AbsSum(s) == AbsSum(t)
    decreases |s|
  {
    if s == [] {
      assert |t| == |multiset(t)| == 0;
    } else {
      var n := |s| - 1;
      var x := s[n];
      assert x in multiset(t) by {
        assert s == s[..n] + [x];
      }
      var j :| 0 <= j < |t| && t[j] == x;
      var rest := t[..j] + t[j + 1..];
      AbsSumRemove(t, j);
      MultisetRemove(s, n);
      MultisetRemove(t, j);
      assert s[..n] + s[n + 1..] == s[..n];
      AbsSumPermutation(s[..n], rest);
    }
  }

  lemma MultisetRemove(t: seq<int>, j: nat)
    requires j < |t|
    ensures multiset(t[..j] + t[j + 1..]) == multiset(t) - multiset{t[j]}
  {
    assert t == t[..j] + [t[j]] + t[j + 1..];
    assert multiset(t) == multiset(t[..j]) + multiset{t[j]} + multiset(t[j + 1..]);
  }

  /** Taking out the cell at j takes its magnitude off the sum. */
  lemma {:induction false} AbsSumRemove(t: seq<int>, j: nat)
    requires j < |t|
    ensures AbsSum(t) == AbsSum(t[..j] + t[j + 1..]) + Abs(t[j])
    decreases |t|
  {
    var n := |t| - 1;
    if j == n {
      assert t[..j] + t[j + 1..] == t[..n];
    } else {
      var init := t[..n];
      AbsSumRemove(init, j);
      var rest := t[..j] + t[j + 1..];
      assert rest[..|rest| - 1] == init[..j] + init[j + 1..];
      assert rest[|rest| - 1] == t[n];
    }
  }

  /** The state of one pass of bubbleSort over s after the first i adjacent
      pairs have been compared: the cells so far and whether any pair was
      swapped. */
  datatype PassState = PassState(cells: seq<int>, swapped: bool)

  /** One comparison of bubbleSort's inner loop: swaps the pair (j, j + 1)
      when it is out of order and records the swap. */
  function Step(p: PassState, j: nat): (r: PassState)
    requires j + 1 < |p.cells|
    ensures |r.cells| == |p.cells|
  {
    var c := p.cells;
    if c[j] > c[j + 1] then PassState(c[j := c[j + 1]][j + 1 := c[j]], true) else p
  }

  /** One pass of bubbleSort's inner loop, specified: compares pairs
      (0, 1), (1, 2), ..., (i - 1, i) in turn and swaps each one found out
      of order. */
  function Pass(s: seq<int>, i: nat): (r: PassState)
    requires i < |s|
    ensures |r.cells| == |s|
  {
    if i == 0 then PassState(s, false) else Step(Pass(s, i - 1), i - 1)
  }

  /** A comparison only rearranges the cells. */
  lemma StepPermutes(p: PassState, j: nat)
    requires j + 1 < |p.cells|
    ensures multiset(Step(p, j).cells) == multiset(p.cells)
  {
    if p.cells[j] > p.cells[j + 1] {
      SwapMultiset(p.cells, j);
    }
  }

  /** A pass only rearranges the cells. */
  lemma {:induction false} PassPermutes(s: seq<int>, i: nat)
    requires i < |s|
    ensures multiset(Pass(s, i).cells) == multiset(s)
  {
    if i > 0 {
      PassPermutes(s, i - 1);
      StepPermutes(Pass(s, i - 1), i - 1);
    }
  }

  lemma SwapMultiset(s: seq<int>, j: nat)
    requires j + 1 < |s|
    ensures multiset(s[j := s[j + 1]][j + 1 := s[j]]) == multiset(s)
  {
  }

  /** A comparison that swaps raises the weight by at least 1 and sets the
      flag; one that does not swap changes nothing. Together: the weight
      plus the flag never falls. */
  lemma StepRaisesWeight(p: PassState, j: nat)
    requires j + 1 < |p.cells|
    ensures p.cells[j] > p.cells[j + 1] ==> Step(p, j).swapped && Weight(Step(p, j).cells) >= Weight(p.cells) + 1
    ensures !(p.cells[j] > p.cells[j + 1]) ==> Step(p, j) == p
    ensures Weight(Step(p, j).cells) + (if p.swapped then 1 else 0) >= Weight(p.cells) + (if Step(p, j).swapped then 1 else 0)
  {
    if p.cells[j] > p.cells[j + 1] {
      SwapWeight(p.cells, j);
    }
  }

  /** A pass that swaps raises the weight; one that does not leaves it. */
  lemma {:induction false} PassRaisesWeight(s: seq<int>, i: nat)
    requires i < |s|
    ensures Weight(Pass(s, i).cells) >= Weight(s) + (if Pass(s, i).swapped then 1 else 0)
  {
    if i > 0 {
      var p := Pass(s, i - 1);
      var q := Step(p, i - 1);
      assert Pass(s, i) == q;
      var sp, sq := if p.swapped then 1 else 0, if q.swapped then 1 else 0;
      assert Weight(p.cells) >= Weight(s) + sp by {
        PassRaisesWeight(s, i - 1);
      }
      assert Weight(q.cells) + sp >= Weight(p.cells) + sq by {
        StepRaisesWeight(p, i - 1);
      }
    }
  }

  /** A pass that swaps nothing changes nothing, and has seen every compared
      pair in order. */
  lemma {:induction false} PassWithoutSwap(s: seq<int>, i: nat)
    requires i < |s| && !Pass(s, i).swapped
    ensures Pass(s, i).cells == s
    ensures forall k :: 0 <= k < i ==> s[k] <= s[k + 1]
  {
    if i > 0 {
      PassWithoutSwap(s, i - 1);
    }
  }

  /** What a whole pass achieves: a rearrangement with the same sum of
      magnitudes and a higher weight if it swapped, a sorted sequence if it
      did not. */
  lemma PassOutcome(before: seq<int>, after: seq<int>, change: bool, i: nat)
    requires i + 1 == |before|
    requires after == Pass(before, i).cells && change == Pass(before, i).swapped
    ensures multiset(after) == multiset(before)
    ensures AbsSum(after) == AbsSum(before)
    ensures Weight(after) >= Weight(before) + (if change then 1 else 0)
    ensures Weight(after) <= |after| * AbsSum(after)
    ensures !change ==> Sorted(after)
  {
    PassPermutes(before, i);
    AbsSumPermutation(after, before);
    PassRaisesWeight(before, i);
    WeightBound(after);
    if !change {
      PassWithoutSwap(before, i);
      AdjacentSorted(after);
    }
  }

  /** DiceOutcome.bubbleSort: sorts a[start..end] (end inclusive) in place by
      passes of adjacent swaps until a pass makes none; a range of fewer than
      two cells is left alone. */
  method BubbleSort(a: array<int>, start: int, end: int)
    requires end - start > 0 ==> 0 <= start && end < a.Length
    modifies a
    ensures end - start > 0 ==> Sorted(a[start..end + 1])
    ensures end - start > 0 ==> multiset(a[start..end + 1]) == multiset(old(a[start..end + 1]))
    ensures forall k :: 0 <= k < a.Length && (k < start || end < k || end - start <= 0) ==> a[k] == old(a[k])
  {
    if end - start > 0 {
      ghost var cur := a[start..end + 1];
      ghost var total := AbsSum(cur);
      ghost var bound := |cur| * total;
      WeightBound(cur);
      var change := true;
      while change
        invariant cur == a[start..end + 1]
        invariant multiset(cur) == multiset(old(a[start..end + 1]))
        invariant forall k :: 0 <= k < a.Length && (k < start || end < k) ==> a[k] == old(a[k])
        invariant AbsSum(cur) == total && |cur| * total == bound
        invariant Weight(cur) <= bound
        invariant !change ==> Sorted(cur)
        decreases bound - Weight(cur) + (if change then 1 else 0)
      {
        ghost var before := cur;
        change := BubblePass(a, start, end);
        cur := a[start..end + 1];
        PassOutcome(before, cur, change, end - start);
      }
    }
  }

  /** One pass of bubbleSort's outer loop over a[start..end]: the inner
      loop, which swaps every adjacent pair found out of order and records
      whether it swapped any. */
  method BubblePass(a: array<int>, start: int, end: int) returns (change: bool)
    requires 0 <= start < end < a.Length
    modifies a
    ensures a[start..end + 1] == Pass(old(a[start..end + 1]), end - start).cells
    ensures change == Pass(old(a[start..end + 1]), end - start).swapped
    ensures forall k :: 0 <= k < a.Length && (k < start || end < k) ==> a[k] == old(a[k])
  {
    ghost var pass := a[start..end + 1];
    ghost var s := pass;
    change := false;
    var t: int;
    for i := start to end
      invariant PassState(s, change) == Pass(pass, i - start)
      invariant forall k :: 0 <= k < a.Length ==> a[k] == if start <= k <= end then s[k - start] else old(a[k])
    {
      assert a[i] == s[i - start] && a[i + 1] == s[i - start + 1];
      assert Pass(pass, i - start + 1) == Step(PassState(s, change), i - start);
      if a[i] > a[i + 1] {
        s := s[i - start := s[i - start + 1]][i - start + 1 := s[i - start]];
        t := a[i];
        a[i] := a[i + 1];
        a[i + 1] := t;
        change := true;
      }
    }
    assert a[start..end + 1] == s;
  }

  /** DiceOutcome.calcProbability: counts the assignments that give exactly
      awin attacker wins, and returns that count over 6^(adice+ddice),
      reduced. */
  method CalcProbability(adice: int, ddice: int, awin: int) returns (prob: Frac)
    requires ValidRoll(adice, ddice, awin)
    ensures prob == RoundProbability(adice, ddice, awin)
  {
    var resultMatches := 0;
    var outcomes := Pow(DIE_SIDES, adice + ddice);
    PowerPositive(DIE_SIDES, adice + ddice);
    ghost var table := WinTable(adice, ddice, outcomes);
    for o := 0 to outcomes
      invariant resultMatches == CountOf(table[..o], awin)
    {
      CountOfPrefix(table, o, awin);
      var attackerWins := CountAttackerWins(adice, ddice, o);
      assert table[o] == RoundWins(adice, ddice, o);
      if attackerWins == awin {
        resultMatches := resultMatches + 1;
      }
    }
    assert table[..outcomes] == table;
    CountedProbability(adice, ddice, awin, resultMatches, outcomes);
    var f := new Fraction(resultMatches, outcomes);
    f.Reduce();
    prob := f.Get();
  }

  /** What a call BubbleSort(a, start, end) promises, on the array's
      contents before and after: a non-empty range ends sorted and a
      permutation of what it held, and every other cell is unchanged. */
  ghost predicate SortsRange(before: seq<int>, after: seq<int>, start: int, end: int) {
    |after| == |before| &&
    (end - start > 0 ==>
       0 <= start && end < |before| &&
       Sorted(after[start..end + 1]) && multiset(after[start..end + 1]) == multiset(before[start..end + 1])) &&
    forall k :: 0 <= k < |after| && (k < start || end < k || end - start <= 0) ==> after[k] == before[k]
  }

  /** A sort of the cells lo..hi-1 (at least one), read off as whole slices:
      the range is sorted and a permutation of what it held, and the cells
      on either side are unchanged. */
  lemma SortedSlice(before: seq<int>, after: seq<int>, lo: int, hi: int)
    requires 0 <= lo < hi <= |before| && SortsRange(before, after, lo, hi - 1)
    ensures Sorted(after[lo..hi]) && multiset(after[lo..hi]) == multiset(before[lo..hi])
    ensures after[..lo] == before[..lo] && after[hi..] == before[hi..]
  {
    assert after[lo..hi - 1 + 1] == after[lo..hi];
    assert before[lo..hi - 1 + 1] == before[lo..hi];
    if hi - 1 - lo <= 0 {
      assert after[lo..hi] == before[lo..hi];
    }
  }

  /** After the first sort of calcProbability the attacker's dice are
      SortSeq of their faces and the defender's dice are untouched. */
  lemma AttackSorted(faces: seq<int>, attackSorted: seq<int>, adice: nat, ddice: nat)
    requires 1 <= adice && 1 <= ddice && |faces| == adice + ddice
    requires SortsRange(faces, attackSorted, 0, adice - 1)
    ensures attackSorted[..adice] == SortSeq(faces[..adice])
    ensures attackSorted[adice..] == faces[adice..]
  {
    SortedSlice(faces, attackSorted, 0, adice);
    assert attackSorted[0..adice] == attackSorted[..adice] && faces[0..adice] == faces[..adice];
    SortedUnique(attackSorted[..adice], SortSeq(faces[..adice]));
  }

  /** After the second sort the defender's dice are SortSeq of what they
      held and the attacker's dice are untouched. */
  lemma DefenceSorted(attackSorted: seq<int>, bothSorted: seq<int>, adice: nat, ddice: nat)
    requires 1 <= adice && 1 <= ddice && |attackSorted| == adice + ddice
    requires SortsRange(attackSorted, bothSorted, adice, adice + ddice - 1)
    ensures bothSorted[..adice] == attackSorted[..adice]
    ensures bothSorted[adice..] == SortSeq(attackSorted[adice..])
  {
    SortedSlice(attackSorted, bothSorted, adice, adice + ddice);
    assert bothSorted[adice..adice + ddice] == bothSorted[adice..];
    assert attackSorted[adice..adice + ddice] == attackSorted[adice..];
    SortedUnique(bothSorted[adice..], SortSeq(attackSorted[adice..]));
  }

  /** RoundWins of an assignment, given the two sorted sides of its faces. */
  lemma RoundWinsOf(adice: nat, ddice: nat, o: nat, faces: seq<int>, att: seq<int>, def: seq<int>)
    requires faces == Digits(o, adice + ddice)
    requires att == SortSeq(faces[..adice]) && def == SortSeq(faces[adice..])
    ensures RoundWins(adice, ddice, o) == PairWins(att, def, Min(adice, ddice), Min(adice, ddice))
  {
  }

  /** After decoding an assignment and the two sorts, the top pairs of the
      array are the ones RoundWins compares. */
  lemma SortedRound(o: nat, adice: nat, ddice: nat, faces: seq<int>, attackSorted: seq<int>, bothSorted: seq<int>)
    requires 1 <= adice && 1 <= ddice && faces == Digits(o, adice + ddice)
    requires SortsRange(faces, attackSorted, 0, adice - 1)
    requires SortsRange(attackSorted, bothSorted, adice, adice + ddice - 1)
    ensures Min(adice, ddice) <= adice && Min(adice, ddice) <= ddice
    ensures RoundWins(adice, ddice, o) == PairWins(bothSorted[..adice], bothSorted[adice..], Min(adice, ddice), Min(adice, ddice))
  {
    AttackSorted(faces, attackSorted, adice, ddice);
    DefenceSorted(attackSorted, bothSorted, adice, ddice);
    RoundWinsOf(adice, ddice, o, faces, bothSorted[..adice], bothSorted[adice..]);
  }

  /** The body of calcProbability's loop for one assignment o: decode, sort
      both sides, and count the top pairs the attacker wins. */
  method CountAttackerWins(adice: int, ddice: int, o: nat) returns (attackerWins: int)
    requires 1 <= adice <= MAX_A_DICE && 1 <= ddice <= MAX_D_DICE
    ensures attackerWins == RoundWins(adice, ddice, o)
  {
    var diceOutcome := DiceDemultiplex(o, adice + ddice);
    ghost var faces := diceOutcome[..];
    BubbleSort(diceOutcome, 0, adice - 1);
    ghost var attackSorted := diceOutcome[..];
    assert SortsRange(faces, attackSorted, 0, adice - 1);
    BubbleSort(diceOutcome, adice, adice + ddice - 1);
    ghost var bothSorted := diceOutcome[..];
    assert SortsRange(attackSorted, bothSorted, adice, adice + ddice - 1);
    SortedRound(o, adice, ddice, faces, attackSorted, bothSorted);
    attackerWins := CountTopWins(diceOutcome, adice, ddice);
  }

  /** The counting loop of calcProbability: over the top min(adice, ddice)
      dice of each sorted side, paired in order, the number of pairs where
      the attacker's die is strictly higher. */
  method CountTopWins(diceOutcome: array<int>, adice: int, ddice: int) returns (attackerWins: int)
    requires 1 <= adice && 1 <= ddice && diceOutcome.Length == adice + ddice
    ensures Min(adice, ddice) <= adice && Min(adice, ddice) <= ddice
    ensures attackerWins == PairWins(diceOutcome[..adice], diceOutcome[adice..], Min(adice, ddice), Min(adice, ddice))
  {
    ghost var att := diceOutcome[..adice];
    ghost var def := diceOutcome[adice..];
    var m := Min(adice, ddice);
    attackerWins := 0;
    for i := 0 to m
      invariant attackerWins == PairWins(att, def, m, i)
    {
      assert diceOutcome[adice - m + i] == att[adice - m + i];
      assert diceOutcome[adice + ddice - m + i] == def[ddice - m + i];
      if diceOutcome[adice - m + i] > diceOutcome[adice + ddice - m + i] {
        attackerWins := attackerWins + 1;
      }
    }
  }

  // -----------------------------------------------------------------------
  // The memo table

  /** DiceOutcome's static cache: one cell per (adice, ddice, awin), filled on
      first use and never overwritten. */
  class DiceCache {
    const cache: array3<Option<Frac>>

    ghost predicate Valid()
      reads this, cache
    {
      cache.Length0 == MAX_A_DICE && cache.Length1 == MAX_D_DICE &&
      cache.Length2 == Min(MAX_A_DICE, MAX_D_DICE) + 1 &&
      forall i, j, k :: (0 <= i < MAX_A_DICE && 0 <= j < MAX_D_DICE && 0 <= k < cache.Length2 &&
        cache[i, j, k].Some?) ==>
          ValidRoll(i + 1, j + 1, k) && cache[i, j, k].value == RoundProbability(i + 1, j + 1, k)
    }

    constructor ()
      ensures Valid() && fresh(cache)
      ensures forall i, j, k :: 0 <= i < MAX_A_DICE && 0 <= j < MAX_D_DICE && 0 <= k < cache.Length2 ==>
        cache[i, j, k] == None
    {
      cache := new Option<Frac>[MAX_A_DICE, MAX_D_DICE, Min(MAX_A_DICE, MAX_D_DICE) + 1]((i, j, k) => None);
    }

    /** DiceOutcome.probability: rejects impossible rolls, computes and
        stores the answer on a miss, and answers from the table. */
    method Probability(adice: int, ddice: int, awin: int) returns (r: Result<Frac>)
      requires Valid()
      modifies cache
      ensures Valid()
      ensures r.Ok? <==> ValidRoll(adice, ddice, awin)
      ensures r.Err? ==> r.error == InvalidArgument
      ensures r.Ok? ==> r.value == RoundProbability(adice, ddice, awin)
      ensures r.Ok? ==> cache[adice - 1, ddice - 1, awin] == Some(r.value)
      ensures forall i, j, k :: 0 <= i < MAX_A_DICE && 0 <= j < MAX_D_DICE && 0 <= k < cache.Length2 ==>
        (old(cache[i, j, k]).Some? || i != adice - 1 || j != ddice - 1 || k != awin) ==>
          cache[i, j, k] == old(cache[i, j, k])
    {
      if adice > MAX_A_DICE || ddice > MAX_D_DICE || adice < 1 || ddice < 1 || awin < 0 || awin > Min(adice, ddice) {
        return Err(InvalidArgument);
      }
      if cache[adice - 1, ddice - 1, awin] == None {
        var p := CalcProbability(adice, ddice, awin);
        cache[adice - 1, ddice - 1, awin] := Some(p);
        forall i, j, k | 0 <= i < MAX_A_DICE && 0 <= j < MAX_D_DICE && 0 <= k < cache.Length2 && cache[i, j, k].Some?
          ensures ValidRoll(i + 1, j + 1, k) && cache[i, j, k].value == RoundProbability(i + 1, j + 1, k)
        {
          if i != adice - 1 || j != ddice - 1 || k != awin {
            assert cache[i, j, k] == old(cache[i, j, k]);
          }
        }
      }
      r := Ok(cache[adice - 1, ddice - 1, awin].value);
    }
  }
}
