/**
 * app.py, the `/what_if` route: given the current hours and hours present
 * and a number of future classes of which some are attended, it reports the
 * new attendance percentage, the current one, and either how many classes
 * must still be attended or how many may be bunked against a 75% threshold.
 *
 * The route computes with Python floats; here the same formulas are computed
 * on exact reals, and the counts are shown to be whole-number expressions.
 * As written, the classes-to-attend formula multiplies the threshold as a
 * percentage (75) by the hours but divides by the threshold as a fraction
 * (1 - 75/100); WhatIfIntendedOf is the count the formula evidently means.
 */
module App {
  import PyMath

  /** `threshold = 75`, a percentage. */
  const THRESHOLD: int := 75

  /** The `status` key with the count that goes with it. */
  datatype Advice = NeedAttend(classesToAttend: int) | CanBunk(classesToBunk: int)

  /** The JSON object the route returns (percentages exact, not rounded to two places). */
  datatype WhatIfResult = WhatIfResult(advice: Advice, newPercentage: real, currentPercentage: real)

  /** `(present / hours) * 100` when there are hours, else 0. */
  function Percentage(present: int, hours: int): (p: real)
    ensures hours <= 0 ==> p == 0.0
    ensures hours > 0 ==> p * hours as real == present as real * 100.0
  {
    if hours > 0 then (present as real / hours as real) * 100.0 else 0.0
  }

  /** With some hours, a percentage is at most 75 exactly when 4 * present <= 3 * hours, and at least 75 exactly when 4 * present >= 3 * hours. */
  lemma PercentageAgainstThreshold(present: int, hours: int)
    requires hours > 0
    ensures Percentage(present, hours) <= THRESHOLD as real <==> 4 * present <= 3 * hours
    ensures Percentage(present, hours) >= THRESHOLD as real <==> 4 * present >= 3 * hours
  {
    var p := Percentage(present, hours);
    var h := hours as real;
    assert p * h == present as real * 100.0;
    if p <= 75.0 {
      assert p * h <= 75.0 * h;
    } else {
      assert p * h > 75.0 * h;
    }
    if p >= 75.0 {
      assert p * h >= 75.0 * h;
    } else {
      assert p * h < 75.0 * h;
    }
  }

  /**
   * The route's answer as written, in whole numbers: with H = hours after the
   * future classes and P = hours present after them, `need_attend` with
   * 300H - 4P classes when the new percentage is at most 75, otherwise
   * `can_bunk` with floor((4P - 3H) / 3) classes. WhatIf shows the route's
   * real-number formulas come to exactly this.
   */
  function WhatIfOf(currentHours: int, currentPresent: int, futureClasses: int, futureAttended: int): WhatIfResult
  {
    var h := currentHours + futureClasses;
    var p := currentPresent + futureAttended;
    var advice := if h <= 0 || 4 * p <= 3 * h then NeedAttend(300 * h - 4 * p) else CanBunk((4 * p - 3 * h) / 3);
    WhatIfResult(advice, Percentage(p, h), Percentage(currentPresent, currentHours))
  }

  /** The route with the attend count the formula evidently means: ceil((0.75H - P) / 0.25) = 3H - 4P. */
  function WhatIfIntendedOf(currentHours: int, currentPresent: int, futureClasses: int, futureAttended: int): WhatIfResult
  {
    var h := currentHours + futureClasses;
    var p := currentPresent + futureAttended;
    var advice := if h <= 0 || 4 * p <= 3 * h then NeedAttend(3 * h - 4 * p) else CanBunk((4 * p - 3 * h) / 3);
    WhatIfResult(advice, Percentage(p, h), Percentage(currentPresent, currentHours))
  }

  /** `math.ceil((75 * H - P) / (1 - 75 / 100))` is exactly 300H - 4P. */
  lemma AttendFormulaAsWritten(h: int, p: int)
    ensures PyMath.Ceil((THRESHOLD as real * h as real - p as real) / (1.0 - THRESHOLD as real / 100.0))
         == 300 * h - 4 * p
  {
    var x := (THRESHOLD as real * h as real - p as real) / (1.0 - THRESHOLD as real / 100.0);
    assert x == (300 * h - 4 * p) as real;
  }

  /** `math.floor((P - 75 / 100 * H) / (75 / 100))` is floor((4P - 3H) / 3). */
  lemma BunkFormula(h: int, p: int)
    ensures PyMath.Floor((p as real - THRESHOLD as real / 100.0 * h as real) / (THRESHOLD as real / 100.0))
         == (4 * p - 3 * h) / 3
  {
    var d := 4 * p - 3 * h;
    var x := (p as real - THRESHOLD as real / 100.0 * h as real) / (THRESHOLD as real / 100.0);
    assert x == d as real / 3.0;
    var q := d / 3;
    assert d == 3 * q + d % 3 && 0 <= d % 3 < 3;
    assert q as real <= x < (q + 1) as real;
  }

  /** what_if after reading the four numbers from the request. */
  method WhatIf(currentHours: int, currentPresent: int, futureClasses: int, futureAttended: int)
    returns (result: WhatIfResult)
    ensures result == WhatIfOf(currentHours, currentPresent, futureClasses, futureAttended)
  {
    var threshold := THRESHOLD as real;
    var newTotalHours := currentHours + futureClasses;
    var newTotalPresent := currentPresent + futureAttended;
    var newPercentage := 0.0;
    if newTotalHours > 0 {
      newPercentage := (newTotalPresent as real / newTotalHours as real) * 100.0;
      PercentageAgainstThreshold(newTotalPresent, newTotalHours);
    }
    var currentPercentage := if currentHours > 0 then (currentPresent as real / currentHours as real) * 100.0 else 0.0;
    var advice;
    if newPercentage <= threshold {
      var classesToAttend := PyMath.Ceil((threshold * newTotalHours as real - newTotalPresent as real) / (1.0 - threshold / 100.0));
      AttendFormulaAsWritten(newTotalHours, newTotalPresent);
      advice := NeedAttend(classesToAttend);
    } else {
      var classesToBunk := PyMath.Floor((newTotalPresent as real - threshold / 100.0 * newTotalHours as real) / (threshold / 100.0));
      BunkFormula(newTotalHours, newTotalPresent);
      advice := CanBunk(classesToBunk);
    }
    result := WhatIfResult(advice, newPercentage, currentPercentage);
  }

  /** The status is `need_attend` exactly when the new percentage is at most 75. */
  lemma WhatIfStatusFollowsPercentage(currentHours: int, currentPresent: int, futureClasses: int, futureAttended: int)
    ensures var r := WhatIfOf(currentHours, currentPresent, futureClasses, futureAttended);
      r.advice.NeedAttend? <==> r.newPercentage <= THRESHOLD as real
    ensures var r := WhatIfIntendedOf(currentHours, currentPresent, futureClasses, futureAttended);
      r.advice.NeedAttend? <==> r.newPercentage <= THRESHOLD as real
  {
    var h := currentHours + futureClasses;
    var p := currentPresent + futureAttended;
    if h > 0 {
      PercentageAgainstThreshold(p, h);
    }
  }

  /**
   * `can_bunk` with n classes: missing n more classes keeps the percentage at
   * least 75, and missing n + 1 would take it below.
   */
  lemma WhatIfBunkIsGreatest(currentHours: int, currentPresent: int, futureClasses: int, futureAttended: int)
    requires WhatIfOf(currentHours, currentPresent, futureClasses, futureAttended).advice.CanBunk?
    ensures var h, p := currentHours + futureClasses, currentPresent + futureAttended;
      var n := WhatIfOf(currentHours, currentPresent, futureClasses, futureAttended).advice.classesToBunk;
      n >= 0 && Percentage(p, h + n) >= THRESHOLD as real && Percentage(p, h + n + 1) < THRESHOLD as real
  {
    var h, p := currentHours + futureClasses, currentPresent + futureAttended;
    var d := 4 * p - 3 * h;
    var n := d / 3;
    assert d == 3 * n + d % 3 && 0 <= d % 3 < 3;
    PercentageAgainstThreshold(p, h + n);
    PercentageAgainstThreshold(p, h + n + 1);
  }

  /**
   * With the intended count, `need_attend` with n classes (when there are
   * hours): attending n more classes brings the percentage to at least 75,
   * and when n > 0, attending one fewer would not.
   */
  lemma WhatIfIntendedAttendIsLeast(currentHours: int, currentPresent: int, futureClasses: int, futureAttended: int)
    requires currentHours + futureClasses > 0
    requires WhatIfIntendedOf(currentHours, currentPresent, futureClasses, futureAttended).advice.NeedAttend?
    ensures var h, p := currentHours + futureClasses, currentPresent + futureAttended;
      var n := WhatIfIntendedOf(currentHours, currentPresent, futureClasses, futureAttended).advice.classesToAttend;
      n >= 0 && Percentage(p + n, h + n) >= THRESHOLD as real &&
      (n > 0 ==> Percentage(p + n - 1, h + n - 1) < THRESHOLD as real)
  {
    var h, p := currentHours + futureClasses, currentPresent + futureAttended;
    var n := 3 * h - 4 * p;
    PercentageAgainstThreshold(p + n, h + n);
    if n > 0 {
      PercentageAgainstThreshold(p + n - 1, h + n - 1);
    }
  }

  /**
   * As written, a `need_attend` count with some hours exceeds the intended
   * (least) count by 297 classes per hour held: the threshold is used as 75
   * in the numerator and as 0.75 in the denominator.
   */
  lemma WhatIfAttendOvershoots(currentHours: int, currentPresent: int, futureClasses: int, futureAttended: int)
    requires currentHours + futureClasses > 0
    requires WhatIfOf(currentHours, currentPresent, futureClasses, futureAttended).advice.NeedAttend?
    ensures WhatIfIntendedOf(currentHours, currentPresent, futureClasses, futureAttended).advice.NeedAttend?
    ensures WhatIfOf(currentHours, currentPresent, futureClasses, futureAttended).advice.classesToAttend
         == WhatIfIntendedOf(currentHours, currentPresent, futureClasses, futureAttended).advice.classesToAttend
            + 297 * (currentHours + futureClasses)
  {
  }

  /**
   * 40 hours with 30 present, then 10 classes of which 5 attended: 35 of 50
   * is 70%, and 10 more attended classes reach 75% (45 of 60), but the route
   * answers 14860.
   */
  lemma WhatIfOvershootExample()
    ensures WhatIfOf(40, 30, 10, 5).advice == NeedAttend(14860)
    ensures WhatIfIntendedOf(40, 30, 10, 5).advice == NeedAttend(10)
    ensures Percentage(35 + 10, 50 + 10) == THRESHOLD as real
  {
  }

  /** Bunk counts and both percentages are the same as written and as intended. */
  lemma WhatIfIntendedKeepsTheRest(currentHours: int, currentPresent: int, futureClasses: int, futureAttended: int)
    ensures var r, s := WhatIfOf(currentHours, currentPresent, futureClasses, futureAttended),
                        WhatIfIntendedOf(currentHours, currentPresent, futureClasses, futureAttended);
      r.newPercentage == s.newPercentage && r.currentPercentage == s.currentPercentage &&
      r.advice.CanBunk? == s.advice.CanBunk? && (r.advice.CanBunk? ==> r.advice == s.advice)
  {
  }
}
