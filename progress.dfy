/**
 * The terminal progress bar of src/util/progress.rs: a step counter that
 * turns into a whole percentage, the estimate of the time remaining, and the
 * arithmetic that lays out one status line.
 *
 * The counters are `f64` in the source and `real` here. The clock
 * (`Instant::now`, `elapsed`) and the terminal (`terminal_size`, the writes
 * to stdout) are not modelled: the elapsed time and the terminal width are
 * parameters of the functions that use them.
 */
module Progress {
  import Options
  import Float

  /** `MessageType`. */
  datatype MessageType = Info | Error

  /** `get_message`: a bracketed tag, distinct for the two kinds. */
  function GetMessage(t: MessageType): (s: string)
    ensures |s| == if t == Info then 8 else 9
    ensures s[..2] == "[ " && s[|s| - 2..] == " ]"
  {
    match t
    case Info => "[ INFO ]"
    case Error => "[ ERROR ]"
  }

  /**
   * The number of whole `update_at_count` steps that `update_by` takes off a
   * step count of `x`, one percent each: none when `x` is below the step,
   * and otherwise the `k` with `k` steps fitting into `x` and `k + 1` not.
   * The source recurses forever when the step is not positive and is
   * reached, so that case is excluded.
   */
  function Rounds(x: real, at: real): (k: nat)
    requires at > 0.0 || x < at
    ensures x < at ==> k == 0
    ensures x >= at ==> k >= 1 && (k as real) * at <= x < (k as real + 1.0) * at
    decreases if x < at then 0 else (x / at).Floor
  {
    if x < at then 0
    else
      FloorStep(x, at);
      RoundsStep(x, at, Rounds(x - at, at));
      1 + Rounds(x - at, at)
  }

  lemma FloorStep(x: real, at: real)
    requires at > 0.0 && x >= at
    ensures (x / at).Floor >= 1
    ensures ((x - at) / at).Floor == (x / at).Floor - 1
  {
    var y := x / at;
    assert y * at == x;
    assert (y - 1.0) * at == x - at;
    QuotientOf(x - at, at, y - 1.0);
    assert y >= 1.0;
  }

  lemma QuotientOf(n: real, d: real, q: real)
    requires d > 0.0 && q * d == n
    ensures n / d == q
  {
    var z := n / d;
    assert z * d == n;
    assert (z - q) * d == 0.0;
  }

  lemma RoundsStep(x: real, at: real, k: nat)
    requires at > 0.0 && x >= at
    requires x - at < at ==> k == 0
    requires x - at >= at ==> (k as real) * at <= x - at < (k as real + 1.0) * at
    ensures ((k + 1) as real) * at <= x < ((k + 1) as real + 1.0) * at
  {
    assert ((k + 1) as real) * at == (k as real) * at + at;
    assert ((k + 1) as real + 1.0) * at == (k as real + 1.0) * at + at;
  }

  /**
   * When `update_at_count` is not positive and the step count has reached
   * it, subtracting it leaves the count at or above it again: the
   * recursion of `update_by` never stops.
   */
  lemma NonPositiveStepDiverges(x: real, at: real)
    requires at <= 0.0 && x >= at
    ensures x - at >= at
  {
  }

  /**
   * As written, a bar over a goal of at most 1 (the "Sending jobs" bar of a
   * one-row image, or the "Rendering pixels" bar of a one-pixel image) has
   * `update_at_count = (goal - 1) / 100 <= 0`. Its first `update()` reaches
   * that step, and after every subtraction the count has reached it
   * again, so `update_by` recurses forever. The guard under which
   * `ProgressBar.Update` is specified fails for its fresh counters.
   */
  lemma SmallGoalDiverges(goal: real)
    requires goal <= 1.0
    ensures var at := (goal - 1.0) / 100.0;
      at <= 0.0 && 0.0 + 1.0 >= at && !(at > 0.0 || 0.0 + 1.0 < at)
    ensures var at := (goal - 1.0) / 100.0;
      (0.0 + 1.0) - at >= at && ((0.0 + 1.0) - at) - at >= at
  {
    var at := (goal - 1.0) / 100.0;
    NonPositiveStepDiverges(1.0, at);
    NonPositiveStepDiverges(1.0 - at, at);
  }

  /**
   * The step evidently intended: one percent of the goal. It is positive for
   * every goal above 0, so `update_by` always stops, and `goal` single
   * updates make exactly 100 rounds.
   */
  function IntendedStep(goal: real): (at: real)
    requires goal > 0.0
    ensures at > 0.0
    ensures Rounds(goal, at) == 100
  {
    var at := goal / 100.0;
    FullBar(goal, at, Rounds(goal, at));
    at
  }

  /** With a step of `goal / 100`, the `k` steps fitting into `goal` with `k + 1` not are 100. */
  lemma FullBar(goal: real, at: real, k: nat)
    requires goal > 0.0 && at == goal / 100.0
    requires (k as real) * at <= goal < (k as real + 1.0) * at
    ensures k == 100
  {
    var kr := k as real;
    assert 100.0 * at == goal && at > 0.0;
    CancelLe(kr, 100.0, at);
    CancelLt(100.0, kr + 1.0, at);
  }

  /** Dividing both sides of `a c <= b c` by a positive `c`. */
  lemma CancelLe(a: real, b: real, c: real)
    requires c > 0.0 && a * c <= b * c
    ensures a <= b
  {
    if a > b {
      Float.MulPos(a - b, c);
    }
  }

  /** Dividing both sides of `a c < b c` by a positive `c`. */
  lemma CancelLt(a: real, b: real, c: real)
    requires c > 0.0 && a * c < b * c
    ensures a < b
  {
    if a > b {
      Float.MulPos(a - b, c);
    }
  }

  /** A count that has reached the step takes one round more than the count with one step taken off. */
  lemma PeelRound(x: real, at: real)
    requires at > 0.0 && x >= at
    ensures Rounds(x, at) == 1 + Rounds(x - at, at)
    ensures Rounds(x, at) as real * at == Rounds(x - at, at) as real * at + at
  {
    var k := Rounds(x - at, at);
    assert (1 + k) as real * at == k as real * at + at;
  }

  lemma NoRound(x: real, at: real)
    requires x < at
    ensures Rounds(x, at) == 0 && Rounds(x, at) as real * at == 0.0
  {
  }

  /** `ProgressBar`: the counters that `update_by` updates in place, and the fixed message. */
  class ProgressBar {
    var stepCount: real
    var updateAtCount: real
    var percent: nat
    const message: string
    const messageType: MessageType

    /**
     * `ProgressBar::new`: nothing counted yet, and one percent every
     * `(goal - 1) / 100` steps.
     */
    constructor (messageType: MessageType, message: string, goal: real)
      ensures this.messageType == messageType && this.message == message
      ensures stepCount == 0.0 && percent == 0
      ensures updateAtCount == (goal - 1.0) / 100.0
    {
      this.messageType := messageType;
      this.message := message;
      stepCount := 0.0;
      updateAtCount := (goal - 1.0) / 100.0;
      percent := 0;
    }

    /**
     * `update_by(by)`: adds `by` (here `amount`) to the step count, then takes off
     * `update_at_count` (one percent more each time) as long as the
     * count has reached it.
     */
    method UpdateBy(amount: real)
      requires updateAtCount > 0.0 || stepCount + amount < updateAtCount
      modifies this
      ensures updateAtCount == old(updateAtCount)
      ensures percent == old(percent) + Rounds(old(stepCount) + amount, updateAtCount)
      ensures stepCount == old(stepCount) + amount - Rounds(old(stepCount) + amount, updateAtCount) as real * updateAtCount
      decreases Rounds(stepCount + amount, updateAtCount)
    {
      ghost var x := stepCount + amount;
      stepCount := stepCount + amount;
      if stepCount >= updateAtCount {
        stepCount := stepCount - updateAtCount;
        percent := percent + 1;
        PeelRound(x, updateAtCount);
        if stepCount >= updateAtCount {
          UpdateBy(0.0);
        } else {
          NoRound(stepCount, updateAtCount);
        }
      } else {
        NoRound(x, updateAtCount);
      }
    }

    /** `update()`: one step. */
    method Update()
      requires updateAtCount > 0.0 || stepCount + 1.0 < updateAtCount
      modifies this
      ensures updateAtCount == old(updateAtCount)
      ensures percent == old(percent) + Rounds(old(stepCount) + 1.0, updateAtCount)
      ensures stepCount == old(stepCount) + 1.0 - Rounds(old(stepCount) + 1.0, updateAtCount) as real * updateAtCount
    {
      UpdateBy(1.0);
    }
  }

  /**
   * After an update that moved the percentage, the step count left over is
   * at least 0 and below one step.
   */
  lemma LeftoverBelowStep(x: real, at: real)
    requires at > 0.0 && x >= at
    ensures 0.0 <= x - Rounds(x, at) as real * at < at
  {
    var k := Rounds(x, at) as real;
    assert k * at <= x < (k + 1.0) * at;
    assert (k + 1.0) * at == k * at + at;
  }

  /**
   * The estimated time remaining, in nanoseconds, at `percent` percent done
   * after `elapsed` nanoseconds: the elapsed time per percent (counting the
   * current one) times the percentages left, and 0 once at 100 percent.
   * The estimate never exceeds the exact proportional estimate and falls
   * short of it by less than one nanosecond per percent left.
   */
  function Eta(percent: nat, elapsed: nat): (eta: nat)
    ensures percent >= 100 ==> eta == 0
    ensures percent < 100 ==> eta * (percent + 1) <= elapsed * (100 - percent)
    ensures percent < 100 ==> elapsed * (100 - percent) < (eta + 100 - percent) * (percent + 1)
  {
    if percent >= 100 then 0
    else
      var done, left := percent + 1, 100 - percent;
      var perPercent := elapsed / done;
      var eta := perPercent * left;
      EtaBounds(elapsed, done, left, perPercent, eta);
      eta
  }

  lemma EtaBounds(elapsed: nat, d: nat, left: nat, q: nat, eta: nat)
    requires d > 0 && left > 0 && q == elapsed / d && eta == q * left
    ensures eta * d <= elapsed * left
    ensures elapsed * left < (eta + left) * d
  {
    var r := elapsed % d;
    var a := q * d;
    assert elapsed == a + r && r < d;
    assert elapsed * left == a * left + r * left by {
      Distribute(a, r, left);
    }
    assert q * left * d == a * left by {
      Rotate(q, left, d);
    }
    assert (q * left + left) * d == a * left + d * left by {
      Distribute(q * left, left, d);
      Rotate(q, left, d);
    }
    assert r * left < d * left by {
      MulStrict(r, d, left);
    }
  }

  lemma Distribute(a: nat, b: nat, c: nat)
    ensures (a + b) * c == a * c + b * c
  {
  }

  lemma Rotate(a: nat, b: nat, c: nat)
    ensures a * b * c == a * c * b
  {
  }

  lemma MulMonotone(a: nat, b: nat, c: nat)
    requires a <= b
    ensures a * c <= b * c
  {
  }

  lemma MulStrict(a: nat, b: nat, c: nat)
    requires a < b && c > 0
    ensures a * c < b * c
  {
  }

  /** `as_millis`: whole milliseconds of a time in nanoseconds. */
  function AsMillis(nanos: nat): nat {
    nanos / 1_000_000
  }

  /** The fields of the ETA text `hh:mm:ss:mmm`. */
  datatype Clock = Clock(hours: nat, minutes: nat, seconds: nat, millis: nat)

  /**
   * The split of a time in milliseconds into hours, minutes, seconds and
   * milliseconds: the parts add back up to the time, and each part below
   * hours stays below its unit's size.
   */
  function Split(eta: nat): (c: Clock)
    ensures c.hours * 3_600_000 + c.minutes * 60_000 + c.seconds * 1000 + c.millis == eta
    ensures c.millis < 1000 && c.seconds < 60 && c.minutes < 60
  {
    var milis := eta % 1000;
    var seconds := (eta / 1_000) % 60;
    var minutes := (eta / 60_000) % 60;
    var hours := eta / 3_600_000;
    SplitSums(eta);
    Clock(hours, minutes, seconds, milis)
  }

  lemma SplitSums(eta: nat)
    ensures (eta / 3_600_000) * 3_600_000 + ((eta / 60_000) % 60) * 60_000
            + ((eta / 1_000) % 60) * 1000 + eta % 1000 == eta
  {
    var s := eta / 1000;
    var m := s / 60;
    var h := m / 60;
    assert eta == s * 1000 + eta % 1000;
    assert s == m * 60 + s % 60;
    assert m == h * 60 + m % 60;
    assert eta / 60_000 == m by {
      SecondsToMinutes(eta);
    }
    assert eta / 3_600_000 == h by {
      SecondsToMinutes(eta);
      MinutesToHours(eta);
    }
  }

  /** Whole milliseconds to whole seconds to whole minutes is whole milliseconds to whole minutes. */
  lemma SecondsToMinutes(n: nat)
    ensures n / 1000 / 60 == n / 60_000
  {
    var s := n / 1000;
    DivUnique(n, 60_000, s / 60, (s % 60) * 1000 + n % 1000);
  }

  lemma MinutesToHours(n: nat)
    ensures n / 60_000 / 60 == n / 3_600_000
  {
    var m := n / 60_000;
    DivUnique(n, 3_600_000, m / 60, (m % 60) * 60_000 + n % 60_000);
  }

  lemma DivUnique(n: nat, d: nat, q: nat, r: nat)
    requires d > 0 && n == q * d + r && r < d
    ensures n / d == q
  {
    var q' := n / d;
    var r' := n % d;
    if q' < q {
      MulMonotone(q' + 1, q, d);
    } else if q' > q {
      MulMonotone(q + 1, q', d);
    }
  }

  /** The remaining time of the status line: no time left once the bar is full. */
  function EtaClock(percent: nat, elapsed: nat): (c: Clock)
    ensures percent >= 100 ==> c == Clock(0, 0, 0, 0)
    ensures c.hours * 3_600_000 + c.minutes * 60_000 + c.seconds * 1000 + c.millis == AsMillis(Eta(percent, elapsed))
  {
    Split(AsMillis(Eta(percent, elapsed)))
  }

  /** The left part of the status line: the tag and the message, each followed by a space. */
  function LeftSide(t: MessageType, message: string): (s: string)
    ensures |s| == |GetMessage(t)| + |message| + 2
    ensures s[..|GetMessage(t)|] == GetMessage(t)
  {
    GetMessage(t) + " " + message + " "
  }

  /**
   * The number of padding glyphs between the two sides of the line: with a
   * terminal of `width` columns, the columns the sides leave free; without
   * one, 1. `None` is the `usize` subtraction going below zero, which is
   * exactly when the two sides do not fit.
   */
  function PaddingAmount(width: Options.Option<nat>, leftLen: nat, rightLen: nat): (p: Options.Option<nat>)
    ensures p.None? <==> width.Some? && width.value < leftLen + rightLen
    ensures p.Some? && width.None? ==> p.value == 1
    ensures p.Some? && width.Some? ==> leftLen + p.value + rightLen == width.value
  {
    match width
    case None => Options.Some(1)
    case Some(w) =>
      if w < leftLen then Options.None
      else if w - leftLen < rightLen then Options.None
      else Options.Some(w - leftLen - rightLen)
  }

  /** `glyph` repeated `n` times. */
  function Repeat(glyph: string, n: nat): (s: string)
    ensures |s| == n * |glyph|
    ensures forall i :: 0 <= i < n * |glyph| ==> s[i] == glyph[i % |glyph|]
    decreases n
  {
    if n == 0 then ""
    else
      var s := Repeat(glyph, n - 1) + glyph;
      assert forall i :: (n - 1) * |glyph| <= i < n * |glyph| ==> i % |glyph| == i - (n - 1) * |glyph| by {
        forall i | (n - 1) * |glyph| <= i < n * |glyph|
          ensures i % |glyph| == i - (n - 1) * |glyph|
        {
          DivUnique(i, |glyph|, n - 1, i - (n - 1) * |glyph|);
        }
      }
      s
  }

  /**
   * The padding string as written in the source text: the bytes of a
   * middle dot in UTF-8 read once more as Latin-1, which gives the two
   * characters `Â` and `·`.
   */
  const PADDING_AS_WRITTEN: string := "\U{00C2}\U{00B7}"

  /** The padding glyph the layout counts on: one middle dot per free column. */
  const PADDING: string := "\U{00B7}"

  /** The status line: the left side, `pad` padding glyphs, the right side. */
  function Line(glyph: string, left: string, pad: nat, right: string): (line: string)
    ensures |line| == |left| + pad * |glyph| + |right|
    ensures line[..|left|] == left && line[|line| - |right|..] == right
  {
    left + Repeat(glyph, pad) + right
  }

  /**
   * As written, a line laid out for a terminal of `w` columns with `p`
   * free columns is `p` characters longer than the terminal whenever it
   * needs padding at all.
   */
  lemma LineOverflowsAsWritten(w: nat, left: string, right: string)
    requires PaddingAmount(Options.Some(w), |left|, |right|).Some?
    ensures var p := PaddingAmount(Options.Some(w), |left|, |right|).value;
      |Line(PADDING_AS_WRITTEN, left, p, right)| == w + p
  {
  }

  /** A concrete case: a 20-column terminal, an 8-character left side and a 2-character right side. */
  lemma LineOverflowsExample()
    ensures PaddingAmount(Options.Some(20), 8, 2) == Options.Some(10)
    ensures |Line(PADDING_AS_WRITTEN, "[ INFO ]", 10, "ok")| == 30
  {
  }

  /** With a one-character glyph the line is exactly as wide as the terminal. */
  lemma LineFitsTerminal(w: nat, left: string, right: string)
    requires PaddingAmount(Options.Some(w), |left|, |right|).Some?
    ensures |Line(PADDING, left, PaddingAmount(Options.Some(w), |left|, |right|).value, right)| == w
  {
  }
}
