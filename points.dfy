/** Loyalty points credited when a customer returns a container.

    The points decay linearly from 1000 for an immediate return to 0 after a
    week (168 hours) and stay at 0 for longer holds. The source computes the
    base as a floating-point quotient and truncates it with `int`; the base is
    never negative there, so truncation is the floor of the exact rational
    quotient, which is what Dafny's `/` gives on a non-negative numerator.
    An uncleaned return halves the base before truncating. */
module Points {

  /** One week, in hours: from this many hours on a return earns nothing. */
  const WeekHours: nat := 168

  /** The points earned by a return after zero hours of use. */
  const MaxPoints: nat := 1000

  /** calc_points(hours, clean): floor((168 - hours) * 1000 / 168) for a clean
      return, floor of half of that rational for an unclean one, and 0 once
      hours reaches a week. */
  function CalcPoints(hours: int, clean: bool): (r: int)
    ensures r >= 0
    ensures hours >= WeekHours ==> r == 0
  {
    if hours >= WeekHours then 0
    else if clean then (WeekHours - hours) * MaxPoints / WeekHours
    else (WeekHours - hours) * MaxPoints / (2 * WeekHours)
  }

  /** The result is the floor of the exact rational base: it is the unique
      integer r with r * 168 <= (168 - hours) * 1000 < (r + 1) * 168 (and the
      same with 336 for an unclean return). */
  lemma PointsIsFloorOfBase(hours: int, clean: bool)
    requires hours < WeekHours
    ensures var d := if clean then WeekHours else 2 * WeekHours;
            var r := CalcPoints(hours, clean);
            r * d <= (WeekHours - hours) * MaxPoints < (r + 1) * d
  {
    var n := (WeekHours - hours) * MaxPoints;
    var d := if clean then WeekHours else 2 * WeekHours;
    assert n == d * (n / d) + n % d;
  }

  /** For any non-negative number of hours the credit lies in [0, 1000]. */
  lemma PointsBounded(hours: int, clean: bool)
    requires hours >= 0
    ensures 0 <= CalcPoints(hours, clean) <= MaxPoints
  {
    if hours < WeekHours {
      var n := (WeekHours - hours) * MaxPoints;
      assert n <= WeekHours * MaxPoints;
      DivMonotone(n, WeekHours * MaxPoints, if clean then WeekHours else 2 * WeekHours);
      assert WeekHours * MaxPoints / WeekHours == MaxPoints;
    }
  }

  /** A longer hold never earns more points. */
  lemma PointsAntitone(h1: int, h2: int, clean: bool)
    requires h1 <= h2
    ensures CalcPoints(h2, clean) <= CalcPoints(h1, clean)
  {
    if h2 < WeekHours {
      var d := if clean then WeekHours else 2 * WeekHours;
      var n1 := (WeekHours - h1) * MaxPoints;
      var n2 := (WeekHours - h2) * MaxPoints;
      assert n2 <= n1 by {
        assert n1 - n2 == (h2 - h1) * MaxPoints;
      }
      DivMonotone(n2, n1, d);
    }
  }

  /** The unclean credit is the floor of half the clean credit: halving the
      rational before truncation equals truncating twice. */
  lemma UncleanIsHalfOfClean(hours: int)
    ensures CalcPoints(hours, false) == CalcPoints(hours, true) / 2
  {
    if hours < WeekHours {
      var n := (WeekHours - hours) * MaxPoints;
      DivDiv(n, WeekHours, 2);
    }
  }

  /** The landmark values: 1000 at 0 hours, 500 at 84, 0 at 168 and at 200,
      and 250 for an unclean return after 84 hours. */
  lemma PointsLandmarks()
    ensures CalcPoints(0, true) == 1000
    ensures CalcPoints(84, true) == 500
    ensures CalcPoints(168, true) == 0
    ensures CalcPoints(200, true) == 0
    ensures CalcPoints(84, false) == 250
  {
  }

  lemma DivMonotone(a: int, b: int, d: int)
    requires 0 <= a <= b && d > 0
    ensures a / d <= b / d
  {
    var qa, qb := a / d, b / d;
    if qa > qb {
      var k := qa - qb;
      Distribute(d, qb, k);
      MulAtLeast(d, k);
      assert false;
    }
  }

  lemma DivDiv(n: int, d1: int, d2: int)
    requires n >= 0 && d1 > 0 && d2 > 0
    ensures n / d1 / d2 == n / (d1 * d2)
  {
    var q1, r1 := n / d1, n % d1;
    var q2, r2 := q1 / d2, q1 % d2;
    assert n == d1 * q1 + r1;
    assert q1 == d2 * q2 + r2;
    Distribute(d1, d2 * q2, r2);
    Associate(d1, d2, q2);
    assert n == (d1 * d2) * q2 + (d1 * r2 + r1);
    Distribute(d1, r2, d2 - 1 - r2);
    Distribute(d1, d2 - 1, 1);
    NonNegative(d1, d2 - 1 - r2);
    NonNegative(d1, r2);
    assert 0 <= d1 * r2 + r1 < d1 * d2;
    DivUnique(n, d1 * d2, q2, d1 * r2 + r1);
  }

  lemma DivUnique(n: int, d: int, q: int, r: int)
    requires d > 0 && 0 <= r < d && n == d * q + r
    ensures n / d == q
  {
    var q' := n / d;
    if q' < q {
      Distribute(d, q', q - q');
      MulAtLeast(d, q - q');
      assert false;
    } else if q' > q {
      Distribute(d, q, q' - q);
      MulAtLeast(d, q' - q);
      assert false;
    }
  }

  lemma Distribute(a: int, b: int, c: int)
    ensures a * (b + c) == a * b + a * c
  {
  }

  lemma Associate(a: int, b: int, c: int)
    ensures a * (b * c) == (a * b) * c
  {
  }

  lemma NonNegative(a: int, b: int)
    requires a >= 0 && b >= 0
    ensures a * b >= 0
  {
  }

  lemma MulAtLeast(d: int, k: int)
    requires d >= 0 && k >= 1
    ensures d * k >= d
  {
    Distribute(d, k - 1, 1);
    NonNegative(d, k - 1);
  }
}
