/**
 * The attendance engine shared by assets/js/app.js and script.js: clamping of
 * the two counters and the figures derived from them against the fixed 75%
 * attendance floor.
 *
 * The functions follow the source formulas literally over exact reals
 * (`attended / 0.75 - total`, `ceil(deficit / 0.25)`); 0.75 and 0.25 are exact
 * binary fractions, so for counters of realistic size the browser computes the
 * same values. The contracts and lemmas then characterise those values as the
 * maximum and minimum they are meant to be.
 */
module Engine {
  import opened JsNumber

  /** The counters of one student: classes held so far and classes attended. */
  datatype Counters = Counters(total: nat, attended: nat) {
    /** The record invariant: nobody attends more classes than were held. */
    predicate Valid() {
      attended <= total
    }
  }

  /** Smallest integer not below `x`. */
  function Ceil(x: real): (r: int)
    ensures r as real - 1.0 < x <= r as real
  {
    -((-x).Floor)
  }

  /** One input field as `sanitizeAttendance` reads it: finite values are floored and raised to 0, anything else is 0. */
  function ClampCount(x: Num): (r: nat)
    ensures x.Finite? && x.value >= 0.0 ==> r as real <= x.value < r as real + 1.0
    ensures !x.Finite? || x.value < 1.0 ==> r == 0
  {
    match x
    case Finite(v) => if v.Floor < 0 then 0 else v.Floor
    case _ => 0
  }

  /** Turns two raw form numbers into counters that satisfy the record invariant. */
  function SanitizeAttendance(total: Num, attended: Num): (r: Counters)
    ensures r.Valid()
    ensures r.total == ClampCount(total)
    ensures r.attended <= ClampCount(attended)
    ensures r.attended == ClampCount(attended) || r.attended == r.total
  {
    var safeTotal := ClampCount(total);
    var safeAttended := ClampCount(attended);
    Counters(safeTotal, if safeAttended < safeTotal then safeAttended else safeTotal)
  }

  /** The counters written back as form numbers. */
  function AsInput(c: Counters): (Num, Num) {
    (Finite(c.total as real), Finite(c.attended as real))
  }

  /** Sanitizing already-sanitized counters changes nothing. */
  lemma SanitizeIdempotent(total: Num, attended: Num)
    ensures var c := SanitizeAttendance(total, attended);
            SanitizeAttendance(AsInput(c).0, AsInput(c).1) == c
  {
  }

  /** Exactly the counters that satisfy the invariant pass through sanitizing unchanged. */
  lemma SanitizeFixedPoints(c: Counters)
    ensures SanitizeAttendance(AsInput(c).0, AsInput(c).1) == c <==> c.Valid()
  {
  }

  /** Attendance as a percentage; a student with no classes held is at 0%. */
  function CalculatePercentage(total: int, attended: int): (r: real)
    ensures total == 0 ==> r == 0.0
    ensures total != 0 ==> r * total as real == 100.0 * attended as real
    ensures 0 <= attended <= total ==> 0.0 <= r <= 100.0
    ensures total > 0 ==> (r >= 75.0 <==> 4 * attended >= 3 * total)
  {
    if total == 0 then 0.0
    else
      var p := (attended as real / total as real) * 100.0;
      PercentFacts(total as real, attended as real, p);
      p
  }

  /** The facts about `a / t * 100` that `CalculatePercentage` promises, one multiplication at a time. */
  lemma PercentFacts(t: real, a: real, p: real)
    requires t != 0.0 && p == (a / t) * 100.0
    ensures p * t == 100.0 * a
    ensures 0.0 <= a <= t ==> 0.0 <= p <= 100.0
    ensures t > 0.0 ==> (p >= 75.0 <==> 4.0 * a >= 3.0 * t)
  {
    var q := a / t;
    assert q * t == a;
    assert p * t == 100.0 * (q * t);
    if t > 0.0 {
      ScaleCompare(p, 75.0, t);
      assert p >= 75.0 <==> 100.0 * a >= 75.0 * t;
      ScaleCompare(p, 0.0, t);
      ScaleCompare(100.0, p, t);
    }
  }

  /** Multiplying both sides by a positive number keeps the order. */
  lemma ScaleCompare(x: real, y: real, t: real)
    requires t > 0.0
    ensures x >= y <==> x * t >= y * t
  {
    assert x * t - y * t == (x - y) * t;
  }

  /** Width of a progress bar for a percentage: `Math.min(percent, 100)`. */
  function BarWidth(percent: real): (r: real)
    ensures r <= 100.0 && r <= percent
    ensures r == 100.0 || r == percent
  {
    if percent < 100.0 then percent else 100.0
  }

  /**
   * How many more classes can be missed while staying at or above 75%.
   * Negative when the student is already below the floor.
   */
  function ClassesCanMiss(total: int, attended: int): (r: int)
    ensures total == 0 ==> r == 0
    ensures total != 0 ==> 3 * r <= 4 * attended - 3 * total < 3 * r + 3
  {
    if total == 0 then 0 else (attended as real / 0.75 - total as real).Floor
  }

  /** How many consecutive presents bring attendance back to 75%. */
  function ClassesNeededToRecover(total: int, attended: int): (r: nat)
    ensures r == 0 <==> 4 * attended >= 3 * total
    ensures r > 0 ==> r == 3 * total - 4 * attended
  {
    var deficit := 0.75 * total as real - attended as real;
    if deficit <= 0.0 then 0 else Ceil(deficit / 0.25)
  }

  /** The closed form of the safe-miss count: `floor((4a - 3t) / 3)`. */
  lemma CanMissClosedForm(total: int, attended: int)
    requires total != 0
    ensures ClassesCanMiss(total, attended) == (4 * attended - 3 * total) / 3
  {
  }

  /**
   * After `k` further absences attendance is still at least 75% exactly when
   * `k` does not exceed the safe-miss count: the count is the largest such `k`.
   */
  lemma CanMissIsLargest(total: int, attended: int, k: nat)
    requires total > 0
    ensures CalculatePercentage(total + k, attended) >= 75.0 <==> k <= ClassesCanMiss(total, attended)
  {
  }

  /** The closed form of the recovery count: `max(0, 3t - 4a)`. */
  lemma RecoverClosedForm(total: int, attended: int)
    ensures ClassesNeededToRecover(total, attended) == if 3 * total - 4 * attended > 0 then 3 * total - 4 * attended else 0
  {
  }

  /**
   * After `n` consecutive presents attendance is at least 75% exactly when `n`
   * reaches the recovery count: the count is the smallest such `n`.
   */
  lemma RecoverIsSmallest(total: int, attended: int, n: nat)
    requires total + n > 0
    ensures CalculatePercentage(total + n, attended + n) >= 75.0 <==> n >= ClassesNeededToRecover(total, attended)
  {
  }

  /** Attending more never makes the recovery count larger. */
  lemma RecoverMonotone(total: int, attended: int, attended': int)
    requires attended <= attended'
    ensures ClassesNeededToRecover(total, attended') <= ClassesNeededToRecover(total, attended)
  {
  }

  /**
   * The two figures agree on which side of the floor a student is: the
   * safe-miss count is negative exactly when some presents are needed.
   */
  lemma BelowFloorAgreement(total: nat, attended: nat)
    requires attended <= total
    ensures ClassesCanMiss(total, attended) < 0 <==> ClassesNeededToRecover(total, attended) > 0
  {
  }
}
