/**
 * The arithmetic of the player's time display and seek bar, on exact reals
 * (the browser's doubles are not modelled): `Math.floor`, JavaScript's `%`,
 * the minute/second split, the fill percentage and the click-to-time
 * translation.
 */
module TimeMath {

  /** A `{ minute, second }` pair as the player shows it. */
  datatype Clock = Clock(minute: int, second: int)

  /** The `time` record: the position and the length of the current track. */
  datatype Time = Time(currentTime: Clock, totalTime: Clock)

  /** The display before the first time update. */
  const ZeroTime := Time(Clock(0, 0), Clock(0, 0))

  /** A clock a non-negative number of seconds can produce. */
  predicate ClockWellFormed(c: Clock) {
    c.minute >= 0 && 0 <= c.second <= 59
  }

  predicate TimeWellFormed(t: Time) {
    ClockWellFormed(t.currentTime) && ClockWellFormed(t.totalTime)
  }

  lemma MulLe(a: real, b: real, m: real)
    requires a <= b && m >= 0.0
    ensures a * m <= b * m
  {
  }

  lemma MulLt(a: real, b: real, m: real)
    requires a < b && m > 0.0
    ensures a * m < b * m
  {
  }

  /** Dividing by a positive number keeps the sign and can be undone. */
  lemma Quotient(x: real, m: real)
    requires m > 0.0
    ensures x == (x / m) * m
    ensures x >= 0.0 <==> x / m >= 0.0
    ensures (-x) / m == -(x / m)
  {
    if x / m < 0.0 {
      MulLt(x / m, 0.0, m);
    }
    if x < 0.0 && x / m >= 0.0 {
      MulLe(0.0, x / m, m);
    }
  }

  /** Scaling by a positive number and dividing by it again is the identity. */
  lemma Cancel(y: real, m: real)
    requires m > 0.0
    ensures (y * m) / m == y
  {
    var x := y * m;
    var g := x / m;
    Quotient(x, m);
    assert g * m == y * m;
    if g < y {
      MulLt(g, y, m);
    }
    if y < g {
      MulLt(y, g, m);
    }
  }

  /** A part `x` of a whole `m`, written as `y * m`, has `y` between 0 and 1, and 1 exactly for the whole. */
  lemma UnitFraction(x: real, y: real, m: real)
    requires m > 0.0 && x == y * m && 0.0 <= x <= m
    ensures 0.0 <= y <= 1.0
    ensures y == 1.0 <==> x == m
  {
    var gap := 1.0 - y;
    assert m - x == gap * m;
    if gap < 0.0 {
      MulLt(gap, 0.0, m);
    }
    if gap > 0.0 {
      MulLt(0.0, gap, m);
    }
    if y < 0.0 {
      MulLt(y, 0.0, m);
    }
  }

  /** Scaling the unit interval above `q` by a positive `m`. */
  lemma ScaleAbove(x: real, y: real, q: real, m: real)
    requires x == y * m && q <= y < q + 1.0 && m > 0.0
    ensures q * m <= x < q * m + m
  {
    var below, above := y - q, q + 1.0 - y;
    assert x - q * m == below * m;
    assert q * m + m - x == above * m;
    assert below * m >= 0.0;
    assert above * m > 0.0;
  }

  /** `x / m` rounded down, scaled back by `m`, is within `m` below `x`. */
  lemma FloorQuotient(x: real, m: real)
    requires m > 0.0
    ensures (x / m).Floor as real * m <= x < (x / m).Floor as real * m + m
  {
    Quotient(x, m);
    ScaleAbove(x, x / m, (x / m).Floor as real, m);
  }

  /** Rounding toward zero: within one of `x`, on the side of zero. */
  function Trunc(x: real): (r: int)
    ensures x >= 0.0 ==> r as real <= x < r as real + 1.0
    ensures x < 0.0 ==> r as real - 1.0 < x <= r as real
  {
    if x >= 0.0 then x.Floor else -((-x).Floor)
  }

  /**
   * JavaScript's `x % m` for a positive modulus: the remainder of the
   * quotient truncated toward zero, so its sign follows `x`. For a
   * non-negative dividend it is the floored remainder.
   */
  function JsRem(x: real, m: real): (r: real)
    requires m > 0.0
    ensures x >= 0.0 ==> 0.0 <= r < m && r == x - (x / m).Floor as real * m
    ensures x < 0.0 ==> -m < r <= 0.0
  {
    Quotient(x, m);
    if x >= 0.0 then
      FloorQuotient(x, m);
      x - Trunc(x / m) as real * m
    else
      FloorQuotient(-x, m);
      x - Trunc(x / m) as real * m
  }

  /**
   * `{ second: Math.floor(t % 60), minute: Math.floor(t / 60) }`. For a
   * non-negative time the pair is a proper minutes-and-seconds
   * decomposition of the whole seconds elapsed.
   */
  function ClockOf(t: real): (c: Clock)
    ensures t >= 0.0 ==> ClockWellFormed(c) && c.minute == (t / 60.0).Floor
    ensures t >= 0.0 ==> c.minute * 60 + c.second == t.Floor
  {
    var q := (t / 60.0).Floor;
    var s := JsRem(t, 60.0).Floor;
    Quotient(t, 60.0);
    assert t >= 0.0 ==> (q * 60 + s) as real <= t < (q * 60 + s) as real + 1.0;
    Clock(q, s)
  }

  /**
   * The display formula applied to a position in (-60, 0) gives a negative
   * pair. The audio element clamps its position to [0, duration], so the
   * player itself never samples such a position; this records what the
   * formula alone would show.
   */
  lemma ClockOfNegative(t: real)
    requires -60.0 < t < 0.0
    ensures ClockOf(t).minute == -1
    ensures ClockOf(t).second == t.Floor && -60 <= ClockOf(t).second <= -1
  {
    var y := t / 60.0;
    Quotient(t, 60.0);
    if y <= -1.0 {
      MulLe(y, -1.0, 60.0);
    }
    assert -1.0 < y < 0.0;
    assert (-y).Floor == 0;
    assert Trunc(y) == 0;
    assert JsRem(t, 60.0) == t;
  }

  /**
   * `Math.floor((currentTime / duration) * 100)`: the seek bar's width in
   * percent. Within the track the bar is between empty and full, and full
   * exactly at the end.
   */
  function FillPercent(cur: real, dur: real): (p: int)
    requires dur > 0.0
    ensures 0.0 <= cur <= dur ==> 0 <= p <= 100 && (p == 100 <==> cur == dur)
  {
    Quotient(cur, dur);
    if 0.0 <= cur <= dur then
      UnitFraction(cur, cur / dur, dur);
      (cur / dur * 100.0).Floor
    else
      (cur / dur * 100.0).Floor
  }

  /**
   * `(offsetX / offsetWidth) * duration`: the time a click on the track bar
   * asks for, in proportion to where it was. A click inside the bar lands
   * inside the track; its edges seek to the start and to the end.
   */
  function SeekTarget(offsetX: real, width: real, dur: real): (r: real)
    requires width > 0.0
    ensures r * width == offsetX * dur
    ensures dur >= 0.0 && 0.0 <= offsetX <= width ==> 0.0 <= r <= dur
    ensures offsetX == 0.0 ==> r == 0.0
    ensures offsetX == width ==> r == dur
  {
    var f := offsetX / width;
    Quotient(offsetX, width);
    if dur >= 0.0 && 0.0 <= offsetX <= width then
      UnitFraction(offsetX, f, width);
      MulLe(0.0, f, dur);
      MulLe(f, 1.0, dur);
      f * dur
    else
      f * dur
  }

  /** Nothing in `seekTo` clamps: an `offsetX` beyond the width would ask for a time past the end. */
  lemma SeekTargetOvershoots(offsetX: real, width: real, dur: real)
    requires width > 0.0 && dur > 0.0 && offsetX > width
    ensures SeekTarget(offsetX, width, dur) > dur
  {
    var f := offsetX / width;
    Quotient(offsetX, width);
    if f <= 1.0 {
      MulLe(f, 1.0, width);
    }
    MulLt(1.0, f, dur);
  }

  /**
   * Seeking and then sampling agree: after a click at `offsetX` the next
   * time update draws the bar at the clicked fraction of its width.
   */
  lemma SeekThenFill(offsetX: real, width: real, dur: real)
    requires width > 0.0 && dur > 0.0
    ensures FillPercent(SeekTarget(offsetX, width, dur), dur) == (offsetX / width * 100.0).Floor
  {
    var f := offsetX / width;
    assert SeekTarget(offsetX, width, dur) == f * dur;
    Cancel(f, dur);
  }
}
