/** The completion screen's percentage: the score over the catalog size,
    times one hundred, rounded to the nearest integer with halves rounded up
    (JavaScript's `Math.round` on non-negative values). */
module Score {
  import opened Catalog
  import opened Session

  /** `correct` out of `total` as a whole percentage. The result is the integer
      nearest to 100 * correct / total, a tie going to the larger one. */
  function Percentage(correct: nat, total: nat): (r: int)
    requires total > 0
    ensures 2 * total * r - total <= 200 * correct < 2 * total * r + total
  {
    (200 * correct + total) / (2 * total)
  }

  /** A non-zero multiple of a positive number is at least that number away from zero. */
  lemma MulAwayFromZero(m: int, d: int)
    requires m > 0
    ensures d >= 1 ==> m * d >= m
    ensures d <= -1 ==> m * d <= -m
  {
  }

  /** Euclidean division is the only integer quotient: a quotient candidate whose
      multiples bracket `a` is `a / m`. */
  lemma DivUnique(a: int, m: int, p: int)
    requires m > 0
    requires m * p <= a < m * p + m
    ensures a / m == p
  {
    var q := a / m;
    assert m * q <= a < m * q + m;
    MulAwayFromZero(m, q - p);
    assert m * (q - p) == m * q - m * p;
  }

  /** The rounding brackets pin the percentage down: any integer within half a
      point of 100 * correct / total, ties upward, is the percentage. */
  lemma PercentageUnique(correct: nat, total: nat, p: int)
    requires total > 0
    requires 2 * total * p - total <= 200 * correct < 2 * total * p + total
    ensures p == Percentage(correct, total)
  {
    DivUnique(200 * correct + total, 2 * total, p);
  }

  /** The percentage of a whole quiz lies between 0 and 100; it is 100 exactly when
      the misses are at most half a point, and 0 exactly when the hits are. */
  lemma PercentageBounds(correct: nat, total: nat)
    requires 0 < total && correct <= total
    ensures 0 <= Percentage(correct, total) <= 100
    ensures Percentage(correct, total) == 100 <==> 200 * (total - correct) <= total
    ensures Percentage(correct, total) == 0 <==> 200 * correct < total
  {
    if 200 * (total - correct) <= total {
      PercentageUnique(correct, total, 100);
    }
    if 200 * correct < total {
      PercentageUnique(correct, total, 0);
    }
  }

  /** With twelve challenges no score lies exactly half-way between two whole
      percentages, so the rounding direction of ties never matters. */
  lemma NoTiesOutOfTwelve(correct: nat)
    ensures forall p :: 2 * 12 * p - 12 != 200 * correct
  {
    forall p ensures 2 * 12 * p - 12 != 200 * correct {
      assert (24 * p - 12) % 8 == 4;
      assert (200 * correct) % 8 == 0;
    }
  }

  /** The completion screen's figure for a session. */
  function Completion(cat: seq<Challenge>, s: State): (pct: int)
    requires |cat| > 0
    requires Valid(cat, s)
    ensures 0 <= pct <= 100
    ensures pct == 100 <==> 200 * (|cat| - CorrectCount(cat, s.answers)) <= |cat|
  {
    CountBounds(cat, s);
    PercentageBounds(CorrectCount(cat, s.answers), |cat|);
    Percentage(CorrectCount(cat, s.answers), |cat|)
  }

  /** A session over the shipped catalog with nine correct answers shows 75%. */
  lemma NineOfTwelve(s: State)
    requires Valid(Challenges(), s)
    requires CorrectCount(Challenges(), s.answers) == 9
    ensures Completion(Challenges(), s) == 75
  {
  }
}
