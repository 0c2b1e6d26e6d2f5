/**
 * Single steps of the effects in bin/effects.py (class `EffectLoop`):
 * the fade level sequences, the eye positions of `halloweenEyes`, the
 * scanning eye of `cylon`/`drawEye`, and one frame of `meteorRain`. Each
 * effect writes through the display's `set_leds` and renders with `show`;
 * random draws are parameters. The `while True` loops, sleeps and the
 * cancellation checks are not modelled.
 */
module Effects {
  import opened Wrappers
  import opened Colors
  import opened ControlMqtt
  import opened Arith

  // ---------------------------------------------------------------------
  // Python's range and round

  /** `list(range(start, stop, step))`. */
  function PyRange(start: int, stop: int, step: int): seq<int>
    requires step != 0
    decreases if step > 0 then stop - start else start - stop
  {
    if (step > 0 && start < stop) || (step < 0 && stop < start) then [start] + PyRange(start + step, stop, step)
    else []
  }

  /** An ascending range: `start, start+step, ...`, strictly increasing, all in [start, stop). */
  lemma {:induction false} PyRangeUp(start: int, stop: int, step: int)
    requires step > 0
    ensures var r := PyRange(start, stop, step);
      && (|r| > 0 <==> start < stop)
      && (forall k :: 0 <= k < |r| ==> r[k] == start + k * step && start <= r[k] < stop)
      && (forall i, j :: 0 <= i < j < |r| ==> r[i] < r[j])
      && (|r| > 0 ==> r[|r| - 1] + step >= stop)
    decreases stop - start
  {
    if start < stop {
      PyRangeUp(start + step, stop, step);
      var r := PyRange(start, stop, step);
      var t := PyRange(start + step, stop, step);
      assert r == [start] + t;
      forall k | 1 <= k < |r| ensures r[k] == start + k * step {
        assert r[k] == t[k - 1] == start + step + (k - 1) * step;
      }
    }
  }

  /** A descending range: `start, start+step, ...`, strictly decreasing, all in (stop, start]. */
  lemma {:induction false} PyRangeDown(start: int, stop: int, step: int)
    requires step < 0
    ensures var r := PyRange(start, stop, step);
      && (|r| > 0 <==> stop < start)
      && (forall k :: 0 <= k < |r| ==> r[k] == start + k * step && stop < r[k] <= start)
      && (forall i, j :: 0 <= i < j < |r| ==> r[i] > r[j])
      && (|r| > 0 ==> r[|r| - 1] + step <= stop)
    decreases start - stop
  {
    if stop < start {
      PyRangeDown(start + step, stop, step);
      var r := PyRange(start, stop, step);
      var t := PyRange(start + step, stop, step);
      assert r == [start] + t;
      forall k | 1 <= k < |r| ensures r[k] == start + k * step {
        assert r[k] == t[k - 1] == start + step + (k - 1) * step;
      }
    }
  }

  /** `round(n / d)` for `d > 0`: the nearest integer, ties to even. */
  function RoundHalfEven(n: int, d: int): int
    requires d > 0
  {
    var q := n / d;
    var r := n % d;
    if 2 * r < d then q
    else if 2 * r > d then q + 1
    else if q % 2 == 0 then q else q + 1
  }

  /** `int(round(n / d))` for any nonzero `d`. */
  function PyRoundDiv(n: int, d: int): int
    requires d != 0
  {
    if d > 0 then RoundHalfEven(n, d) else RoundHalfEven(-n, -d)
  }

  /** RoundHalfEven is within half of `n / d`, and even on a tie. */
  lemma RoundHalfEvenNearest(n: int, d: int)
    requires d > 0
    ensures var q := RoundHalfEven(n, d);
      && 2 * (n - d * q) <= d && 2 * (d * q - n) <= d
      && (2 * (n - d * q) == d || 2 * (d * q - n) == d ==> q % 2 == 0)
  {
    var q, r := n / d, n % d;
    assert n == d * q + r && 0 <= r < d;
    assert d * (q + 1) == d * q + d;
  }

  /** RoundHalfEven from any quotient and remainder of `n` by `d`. */
  lemma RoundHalfEvenFrom(n: int, d: int, q: int, r: int)
    requires d > 0 && n == d * q + r && 0 <= r < d
    ensures RoundHalfEven(n, d) == if 2 * r < d then q else if 2 * r > d then q + 1 else if q % 2 == 0 then q else q + 1
  {
    DivModUnique(n, d, q, r);
  }

  /** Python's rounding is symmetric: `round(-x) == -round(x)`. */
  lemma RoundHalfEvenNegate(n: int, d: int)
    requires d > 0
    ensures RoundHalfEven(-n, d) == -RoundHalfEven(n, d)
  {
    var q, r := n / d, n % d;
    RoundHalfEvenFrom(n, d, q, r);
    if r == 0 {
      RoundHalfEvenFrom(-n, d, -q, 0);
    } else {
      assert -n == d * (-q - 1) + (d - r);
      RoundHalfEvenFrom(-n, d, -q - 1, d - r);
      if 2 * r == d {
        assert (-q - 1) % 2 == 0 <==> q % 2 != 0;
      }
    }
  }

  // ---------------------------------------------------------------------
  // fadeIn / fadeOut

  /** The step of `fadeIn`'s range: `int(round(255.0/steps))`. */
  function FadeInStep(steps: int): int
    requires steps != 0
  {
    PyRoundDiv(255, steps)
  }

  /** The step of `fadeOut`'s range: `int(round(-1*255.0/steps))`. */
  function FadeOutStep(steps: int): int
    requires steps != 0
  {
    PyRoundDiv(-255, steps)
  }

  /** `fadeOut` steps by exactly the negation of `fadeIn`'s step. */
  lemma FadeStepsOpposite(steps: int)
    requires steps != 0
    ensures FadeOutStep(steps) == -FadeInStep(steps)
  {
    if steps > 0 {
      RoundHalfEvenNegate(255, steps);
    } else {
      RoundHalfEvenNegate(-255, -steps);
    }
  }

  /** With the default 128 steps the fades move by 2; with 50 (the eyes) by 5; 510 steps round to 0. */
  lemma FadeStepExamples()
    ensures FadeInStep(128) == 2 && FadeOutStep(128) == -2
    ensures FadeOutStep(50) == -5
    ensures FadeInStep(510) == 0
  {
  }

  /** `fadeIn`'s range raises unless `steps` is nonzero and its step rounds to a nonzero value. */
  predicate FadeInRuns(steps: int)
  {
    steps != 0 && FadeInStep(steps) != 0
  }

  predicate FadeOutRuns(steps: int)
  {
    steps != 0 && FadeOutStep(steps) != 0
  }

  /** `range(0, 256, step)`. */
  function FadeInLevels(steps: int): seq<int>
    requires FadeInRuns(steps)
  {
    PyRange(0, 256, FadeInStep(steps))
  }

  /** `range(255, -1, step)`. */
  function FadeOutLevels(steps: int): seq<int>
    requires FadeOutRuns(steps)
  {
    PyRange(255, -1, FadeOutStep(steps))
  }

  /** `range(0, 256, s)` for `s > 0`: `0, s, 2s, ...`, increasing, within [0, 255]. */
  lemma AscendingLevels(s: int)
    requires s > 0
    ensures var xs := PyRange(0, 256, s);
      && |xs| > 0 && xs[0] == 0
      && (forall k :: 0 <= k < |xs| ==> xs[k] == k * s && 0 <= xs[k] <= 255)
      && (forall i, j :: 0 <= i < j < |xs| ==> xs[i] < xs[j])
      && xs[|xs| - 1] + s > 255
  {
    PyRangeUp(0, 256, s);
  }

  /** `range(255, -1, -s)` for `s > 0`: `255, 255-s, ...`, decreasing, within [0, 255]. */
  lemma DescendingLevels(s: int)
    requires s > 0
    ensures var xs := PyRange(255, -1, -s);
      && |xs| > 0 && xs[0] == 255
      && (forall k :: 0 <= k < |xs| ==> xs[k] == 255 - k * s && 0 <= xs[k] <= 255)
      && (forall i, j :: 0 <= i < j < |xs| ==> xs[i] > xs[j])
      && xs[|xs| - 1] - s < 0
  {
    PyRangeDown(255, -1, -s);
    var xs := PyRange(255, -1, -s);
    forall k | 0 <= k < |xs| ensures xs[k] == 255 - k * s {
      assert xs[k] == 255 + k * (-s);
      assert k * (-s) == -(k * s);
    }
  }

  /** For positive `steps` the fade step is positive, and `fadeOut` uses its negation. */
  lemma FadeStepPositive(steps: int)
    requires steps > 0
    ensures FadeInStep(steps) >= 0
    ensures FadeOutStep(steps) == -FadeInStep(steps)
  {
    assert 255 / steps >= 0;
    FadeStepsOpposite(steps);
  }

  /**
   * For positive `steps`, `fadeIn`'s levels are `0, s, 2s, ...`, strictly
   * increasing and within [0, 255], stopping before the next would pass 255.
   */
  lemma FadeInLevelsShape(steps: int)
    requires steps > 0 && FadeInRuns(steps)
    ensures var xs := FadeInLevels(steps); var s := FadeInStep(steps);
      && s > 0 && |xs| > 0 && xs[0] == 0
      && (forall k :: 0 <= k < |xs| ==> xs[k] == k * s && 0 <= xs[k] <= 255)
      && (forall i, j :: 0 <= i < j < |xs| ==> xs[i] < xs[j])
      && xs[|xs| - 1] + s > 255
  {
    FadeStepPositive(steps);
    AscendingLevels(FadeInStep(steps));
  }

  /**
   * For positive `steps`, `fadeOut`'s levels are `255, 255-s, ...`, strictly
   * decreasing and within [0, 255], stopping before the next would drop below 0.
   */
  lemma FadeOutLevelsShape(steps: int)
    requires steps > 0 && FadeOutRuns(steps)
    ensures var xs := FadeOutLevels(steps); var s := FadeInStep(steps);
      && s > 0 && |xs| > 0 && xs[0] == 255
      && (forall k :: 0 <= k < |xs| ==> xs[k] == 255 - k * s && 0 <= xs[k] <= 255)
      && (forall i, j :: 0 <= i < j < |xs| ==> xs[i] > xs[j])
      && xs[|xs| - 1] - s < 0
  {
    FadeStepPositive(steps);
    DescendingLevels(FadeInStep(steps));
  }

  /** A channel at fade level `x`: `x/255.0 * c`, truncated by `int()`. */
  function Level(x: int, c: int): int
  {
    x * c / 255
  }

  /** A faded channel never exceeds the full channel; level 255 is the full channel. */
  lemma LevelBounded(x: int, c: int)
    requires 0 <= x <= 255 && 0 <= c
    ensures 0 <= Level(x, c) <= c
    ensures x == 255 ==> Level(x, c) == c
  {
    assert 0 <= x * c;
    assert x * c <= 255 * c by {
      assert (255 - x) * c >= 0;
    }
  }

  /** The packed colour written at fade level `x`. */
  function LevelColor(x: int, r: int, g: int, b: int): int
  {
    RgbToHex(Level(x, r), Level(x, g), Level(x, b))
  }

  /** The frames a fade renders: the pixels of `t` at each level, the rest as in `s`. */
  function LevelFrames(s: seq<int>, t: Target, xs: seq<int>, r: int, g: int, b: int): (fs: seq<seq<int>>)
    ensures |fs| == |xs|
  {
    seq(|xs|, k requires 0 <= k < |xs| => Painted(s, t, LevelColor(xs[k], r, g, b)))
  }

  lemma LevelFramesSnoc(s: seq<int>, t: Target, xs: seq<int>, k: nat, r: int, g: int, b: int)
    requires k < |xs|
    ensures LevelFrames(s, t, xs[..k + 1], r, g, b)
         == LevelFrames(s, t, xs[..k], r, g, b) + [Painted(s, t, LevelColor(xs[k], r, g, b))]
  {
  }

  /** The loop shared by `fadeIn` and `fadeOut`: paint and render each level in turn. */
  method ShowLevels(disp: Control, red: int, green: int, blue: int, leds: Target, levels: seq<int>)
    requires |disp.strip| == disp.numLeds
    modifies disp`strip, disp`frames
    ensures |disp.strip| == disp.numLeds
    ensures disp.frames == old(disp.frames) + LevelFrames(old(disp.strip), leds, levels, red, green, blue)
    ensures disp.strip == LastLevel(old(disp.strip), leds, levels, red, green, blue)
  {
    ghost var s0 := disp.strip;
    ghost var f0 := disp.frames;
    for k := 0 to |levels|
      invariant |disp.strip| == disp.numLeds
      invariant disp.frames == f0 + LevelFrames(s0, leds, levels[..k], red, green, blue)
      invariant disp.strip == if k == 0 then s0
                              else Painted(s0, leds, LevelColor(levels[k - 1], red, green, blue))
    {
      var x := levels[k];
      disp.SetLeds(leds, Level(x, red), Level(x, green), Level(x, blue), None);
      if k > 0 {
        PaintedTwice(s0, leds, LevelColor(levels[k - 1], red, green, blue), LevelColor(x, red, green, blue));
      }
      disp.Show();
      LevelFramesSnoc(s0, leds, levels, k, red, green, blue);
    }
    assert levels[..|levels|] == levels;
  }

  /** The buffer a fade leaves: the targets at the last level's colour, or `s` when there are no levels. */
  function LastLevel(s: seq<int>, t: Target, xs: seq<int>, r: int, g: int, b: int): (p: seq<int>)
    ensures |p| == |s|
  {
    if xs == [] then s else Painted(s, t, LevelColor(xs[|xs| - 1], r, g, b))
  }

  /** After a fade with at least one level, the buffer is the last frame rendered. */
  lemma LastLevelIsLastFrame(s: seq<int>, t: Target, xs: seq<int>, r: int, g: int, b: int)
    requires xs != []
    ensures LastLevel(s, t, xs, r, g, b) == LevelFrames(s, t, xs, r, g, b)[|xs| - 1]
  {
  }

  /**
   * `fadeIn`: render the targeted pixels at each level of `range(0, 256, s)`.
   * Returns false when the step computation raises: ZeroDivisionError for
   * zero `steps`, or ValueError from `range` when the step rounds to zero;
   * nothing is then written.
   */
  method FadeIn(disp: Control, red: int, green: int, blue: int, leds: Target, steps: int) returns (ok: bool)
    requires |disp.strip| == disp.numLeds
    modifies disp`strip, disp`frames
    ensures |disp.strip| == disp.numLeds
    ensures ok <==> FadeInRuns(steps)
    ensures !ok ==> disp.strip == old(disp.strip) && disp.frames == old(disp.frames)
    ensures ok ==> disp.frames == old(disp.frames) + LevelFrames(old(disp.strip), leds, FadeInLevels(steps), red, green, blue)
    ensures ok ==> disp.strip == LastLevel(old(disp.strip), leds, FadeInLevels(steps), red, green, blue)
  {
    if steps == 0 || FadeInStep(steps) == 0 {
      return false;
    }
    ShowLevels(disp, red, green, blue, leds, FadeInLevels(steps));
    ok := true;
  }

  /** `fadeOut`: as `fadeIn`, over `range(255, -1, -s)`. */
  method FadeOut(disp: Control, red: int, green: int, blue: int, leds: Target, steps: int) returns (ok: bool)
    requires |disp.strip| == disp.numLeds
    modifies disp`strip, disp`frames
    ensures |disp.strip| == disp.numLeds
    ensures ok <==> FadeOutRuns(steps)
    ensures !ok ==> disp.strip == old(disp.strip) && disp.frames == old(disp.frames)
    ensures ok ==> disp.frames == old(disp.frames) + LevelFrames(old(disp.strip), leds, FadeOutLevels(steps), red, green, blue)
    ensures ok ==> disp.strip == LastLevel(old(disp.strip), leds, FadeOutLevels(steps), red, green, blue)
  {
    if steps == 0 || FadeOutStep(steps) == 0 {
      return false;
    }
    ShowLevels(disp, red, green, blue, leds, FadeOutLevels(steps));
    ok := true;
  }

  /**
   * Running the levels `ys` after the levels `xs` renders the frames of
   * `xs + ys` over the original buffer: a fade repaints every target, so
   * the colour the first fade left there no longer shows.
   */
  lemma {:induction false} LevelFramesCompose(s: seq<int>, t: Target, xs: seq<int>, ys: seq<int>, r: int, g: int, b: int)
    ensures LevelFrames(s, t, xs, r, g, b) + LevelFrames(LastLevel(s, t, xs, r, g, b), t, ys, r, g, b)
         == LevelFrames(s, t, xs + ys, r, g, b)
  {
    var front := LevelFrames(s, t, xs, r, g, b);
    var back := LevelFrames(LastLevel(s, t, xs, r, g, b), t, ys, r, g, b);
    var whole := LevelFrames(s, t, xs + ys, r, g, b);
    forall k | 0 <= k < |whole|
      ensures (front + back)[k] == whole[k]
    {
      if k < |xs| {
        assert (xs + ys)[k] == xs[k];
      } else {
        var j := k - |xs|;
        assert (xs + ys)[k] == ys[j];
        if xs != [] {
          PaintedTwice(s, t, LevelColor(xs[|xs| - 1], r, g, b), LevelColor(ys[j], r, g, b));
        }
      }
    }
    assert front + back == whole;
  }

  /**
   * One pass of `fadeInOut`'s loop: fade in, then fade out over the buffer
   * the fade-in left. Both fades run exactly when the fade-in's step
   * computation does not raise, since the fade-out's step is its negation.
   * By LevelFramesCompose the frames are those of the fade-in levels
   * followed by the fade-out levels over the original buffer.
   */
  method FadeInOut(disp: Control, r: int, g: int, b: int, leds: Target, steps: int) returns (ok: bool)
    requires |disp.strip| == disp.numLeds
    modifies disp`strip, disp`frames
    ensures |disp.strip| == disp.numLeds
    ensures ok <==> FadeInRuns(steps)
    ensures !ok ==> disp.strip == old(disp.strip) && disp.frames == old(disp.frames)
    ensures ok ==> FadeOutRuns(steps)
    ensures ok ==> disp.frames == old(disp.frames)
                   + LevelFrames(old(disp.strip), leds, FadeInLevels(steps), r, g, b)
                   + LevelFrames(LastLevel(old(disp.strip), leds, FadeInLevels(steps), r, g, b), leds, FadeOutLevels(steps), r, g, b)
    ensures ok ==> disp.strip == LastLevel(LastLevel(old(disp.strip), leds, FadeInLevels(steps), r, g, b),
                                           leds, FadeOutLevels(steps), r, g, b)
  {
    ok := FadeIn(disp, r, g, b, leds, steps);
    if !ok {
      return;
    }
    FadeStepsOpposite(steps);
    ok := FadeOut(disp, r, g, b, leds, steps);
  }

  // ---------------------------------------------------------------------
  // halloweenEyes

  /**
   * The eye pixel list: entry `2x` is `eyeOne + x` and entry `2x+1` is
   * `eyeTwo + x`, where `eyeTwo = eyeOne + eyeWidth + eyeSpace`.
   */
  ghost predicate EyeLayout(pixels: seq<int>, eyeOne: int, eyeWidth: int, eyeSpace: int)
  {
    && |pixels| == 2 * Max(0, eyeWidth)
    && forall k :: 0 <= k < |pixels| ==>
         pixels[k] == (if k % 2 == 0 then eyeOne else eyeOne + eyeWidth + eyeSpace) + k / 2
  }

  /** The append loop of `halloweenEyes` that lists both eyes' pixels. */
  method EyePixels(eyeOne: int, eyeWidth: int, eyeSpace: int) returns (pixels: seq<int>)
    ensures EyeLayout(pixels, eyeOne, eyeWidth, eyeSpace)
  {
    var eyeTwo := eyeOne + eyeWidth + eyeSpace;
    pixels := [];
    var x := 0;
    while x < eyeWidth
      invariant 0 <= x <= Max(0, eyeWidth)
      invariant |pixels| == 2 * x
      invariant forall k :: 0 <= k < |pixels| ==> pixels[k] == (if k % 2 == 0 then eyeOne else eyeTwo) + k / 2
    {
      pixels := pixels + [eyeOne + x];
      pixels := pixels + [eyeTwo + x];
      x := x + 1;
    }
  }

  /**
   * For a left eye drawn from `randint(0, N - 2*eyeWidth - eyeSpace)`, the
   * list has `2*eyeWidth` distinct pixels, all on the strip, and each right
   * eye pixel is `eyeWidth + eyeSpace` right of its left partner.
   */
  lemma EyeLayoutOnStrip(pixels: seq<int>, eyeOne: int, eyeWidth: int, eyeSpace: int, n: int)
    requires EyeLayout(pixels, eyeOne, eyeWidth, eyeSpace)
    requires 0 <= eyeWidth && 0 <= eyeSpace
    requires 0 <= eyeOne <= n - 2 * eyeWidth - eyeSpace
    ensures |pixels| == 2 * eyeWidth
    ensures forall k :: 0 <= k < |pixels| ==> 0 <= pixels[k] < n
    ensures forall i, j :: 0 <= i < j < |pixels| ==> pixels[i] != pixels[j]
    ensures forall x :: 0 <= x < eyeWidth ==> pixels[2 * x + 1] - pixels[2 * x] == eyeWidth + eyeSpace
  {
    forall x | 0 <= x < eyeWidth
      ensures pixels[2 * x + 1] - pixels[2 * x] == eyeWidth + eyeSpace
    {
      assert (2 * x) % 2 == 0 && (2 * x) / 2 == x;
      assert (2 * x + 1) % 2 == 1 && (2 * x + 1) / 2 == x;
    }
  }

  /**
   * One pass of `halloweenEyes`' loop with left eye `eyeOne`: light both
   * eyes and render, fade them out if asked, then switch everything off
   * (which also clears the mask). Returns false when the fade-out's range
   * raises; the lit eyes then stay as rendered.
   */
  method HalloweenEyesStep(disp: Control, r: int, g: int, b: int, eyeOne: int, eyeWidth: int,
                           eyeSpace: int, fade: bool, steps: int) returns (pixels: seq<int>, ok: bool)
    requires |disp.strip| == disp.numLeds
    requires 0 <= eyeOne <= disp.numLeds - 2 * eyeWidth - eyeSpace
    modifies disp`strip, disp`frames, disp`leds
    ensures EyeLayout(pixels, eyeOne, eyeWidth, eyeSpace)
    ensures ok <==> !fade || FadeOutRuns(steps)
    ensures var lit := Painted(old(disp.strip), Pixels(pixels), RgbToHex(r, g, b));
      ok ==>
        && disp.frames == old(disp.frames) + [lit]
                          + (if fade then LevelFrames(lit, Pixels(pixels), FadeOutLevels(steps), r, g, b) else [])
                          + [Blank(disp.numLeds)]
        && disp.strip == Blank(disp.numLeds) && disp.leds == Blank(disp.numLeds)
    ensures var lit := Painted(old(disp.strip), Pixels(pixels), RgbToHex(r, g, b));
      !ok ==> disp.frames == old(disp.frames) + [lit] && disp.strip == lit && disp.leds == old(disp.leds)
  {
    pixels := EyePixels(eyeOne, eyeWidth, eyeSpace);
    disp.SetLeds(Pixels(pixels), r, g, b, None);
    disp.Show();
    ghost var shown := disp.frames;
    ok := true;
    if fade {
      ok := FadeOut(disp, r, g, b, Pixels(pixels), steps);
      if !ok {
        return;
      }
    }
    assert !fade ==> disp.frames == shown;
    disp.AllOff();
  }

  // ---------------------------------------------------------------------
  // cylon / drawEye

  /** The pixels `curLed+1 .. curLed+eyeSize` of the eye, built by `drawEye`'s append loop. */
  method EyeWindow(curLed: int, eyeSize: int) returns (pixels: seq<int>)
    requires eyeSize >= 0
    ensures |pixels| == eyeSize
    ensures forall k :: 0 <= k < eyeSize ==> pixels[k] == curLed + 1 + k
  {
    pixels := [];
    for i := 1 to eyeSize + 1
      invariant |pixels| == i - 1
      invariant forall k :: 0 <= k < i - 1 ==> pixels[k] == curLed + 1 + k
    {
      pixels := pixels + [curLed + i];
    }
  }

  /**
   * The frame `drawEye(x, ...)` renders on `n` LEDs: full colour on
   * `x+1 .. x+eyeSize`, a tenth of each channel on `x` and `x+eyeSize+1`,
   * black elsewhere.
   */
  function EyeFrame(n: nat, x: int, eyeSize: int, r: int, g: int, b: int): (f: seq<int>)
    ensures |f| == n
  {
    seq(n, j => if x < j <= x + eyeSize then RgbToHex(r, g, b)
                else if j == x || j == x + eyeSize + 1 then RgbToHex(r / 10, g / 10, b / 10)
                else 0)
  }

  /**
   * `drawEye(curLed, r, b, g, eyeSize)`: blank the strip, draw the two dim
   * halo pixels, then the full-colour window, and render. Python's `r/10`
   * truncated by `int()` and then clamped equals Dafny's floor `r / 10`
   * clamped, for every integer `r`.
   */
  method DrawEye(disp: Control, curLed: int, r: int, b: int, g: int, eyeSize: int)
    requires |disp.strip| == disp.numLeds
    requires eyeSize >= 0
    modifies disp`strip, disp`frames
    ensures disp.strip == EyeFrame(disp.numLeds, curLed, eyeSize, r, g, b)
    ensures disp.frames == old(disp.frames) + [disp.strip]
  {
    disp.SetLeds(AllPixels, 0, 0, 0, None);
    var halo := [curLed, curLed + eyeSize + 1];
    disp.SetLeds(Pixels(halo), r / 10, g / 10, b / 10, None);
    var window := EyeWindow(curLed, eyeSize);
    disp.SetLeds(Pixels(window), r, g, b, None);
    forall j | 0 <= j < disp.numLeds
      ensures disp.strip[j] == EyeFrame(disp.numLeds, curLed, eyeSize, r, g, b)[j]
    {
      if curLed < j <= curLed + eyeSize {
        assert window[j - curLed - 1] == j;
      } else {
        assert j !in window;
      }
    }
    assert disp.strip == EyeFrame(disp.numLeds, curLed, eyeSize, r, g, b);
    disp.Show();
  }

  /** The eye positions of one `cylon` cycle: left to right, then right to left. */
  function CylonPositions(n: int, eyeSize: int): seq<int>
  {
    PyRange(0, n - eyeSize - 2 + 1, 1) + PyRange(n - eyeSize - 2, -1, -1)
  }

  /**
   * The sweep visits `0 .. n-eyeSize-2` and back; at every position the
   * whole eye, halo included, lies on the strip.
   */
  lemma CylonPositionsShape(n: int, eyeSize: int)
    requires eyeSize >= 0
    ensures var fwd := PyRange(0, n - eyeSize - 1, 1);
            var bwd := PyRange(n - eyeSize - 2, -1, -1);
      && |fwd| == |bwd| == Max(0, n - eyeSize - 1)
      && (forall k :: 0 <= k < |fwd| ==> fwd[k] == k && bwd[k] == n - eyeSize - 2 - k)
    ensures forall x :: x in CylonPositions(n, eyeSize) ==> 0 <= x && x + eyeSize + 1 < n
  {
    var fwd := PyRange(0, n - eyeSize - 1, 1);
    var bwd := PyRange(n - eyeSize - 2, -1, -1);
    PyRangeUp(0, n - eyeSize - 1, 1);
    PyRangeDown(n - eyeSize - 2, -1, -1);
    assert |fwd| == Max(0, n - eyeSize - 1) by {
      if |fwd| > 0 {
        assert fwd[|fwd| - 1] == |fwd| - 1;
      }
    }
    assert |bwd| == Max(0, n - eyeSize - 1) by {
      if |bwd| > 0 {
        assert bwd[|bwd| - 1] == n - eyeSize - 2 - (|bwd| - 1);
      }
    }
  }

  /** The frames drawn at a sequence of eye positions. */
  function EyeFrames(n: nat, xs: seq<int>, eyeSize: int, r: int, g: int, b: int): (fs: seq<seq<int>>)
    ensures |fs| == |xs|
  {
    seq(|xs|, k requires 0 <= k < |xs| => EyeFrame(n, xs[k], eyeSize, r, g, b))
  }

  /** Draw the eye at each position in turn. */
  method SweepEye(disp: Control, xs: seq<int>, r: int, g: int, b: int, eyeSize: int)
    requires |disp.strip| == disp.numLeds
    requires eyeSize >= 0
    modifies disp`strip, disp`frames
    ensures |disp.strip| == disp.numLeds
    ensures disp.frames == old(disp.frames) + EyeFrames(disp.numLeds, xs, eyeSize, r, g, b)
    ensures xs == [] ==> disp.strip == old(disp.strip)
    ensures xs != [] ==> disp.strip == EyeFrame(disp.numLeds, xs[|xs| - 1], eyeSize, r, g, b)
  {
    for k := 0 to |xs|
      invariant |disp.strip| == disp.numLeds
      invariant disp.frames == old(disp.frames) + EyeFrames(disp.numLeds, xs[..k], eyeSize, r, g, b)
      invariant k == 0 ==> disp.strip == old(disp.strip)
      invariant k > 0 ==> disp.strip == EyeFrame(disp.numLeds, xs[k - 1], eyeSize, r, g, b)
    {
      DrawEye(disp, xs[k], r, b, g, eyeSize);
      assert xs[..k + 1] == xs[..k] + [xs[k]];
    }
    assert xs[..|xs|] == xs;
  }

  /**
   * One cycle of `cylon`'s loop: switch everything off (one blank frame),
   * sweep the eye right and then back left, one rendered frame per
   * position; the buffer ends at the last position's frame.
   */
  method Cylon(disp: Control, r: int, g: int, b: int, eyeSize: int)
    requires |disp.strip| == disp.numLeds
    requires eyeSize >= 0
    modifies disp`strip, disp`frames, disp`leds
    ensures |disp.strip| == disp.numLeds
    ensures disp.leds == Blank(disp.numLeds)
    ensures disp.frames == old(disp.frames) + [Blank(disp.numLeds)]
                           + EyeFrames(disp.numLeds, CylonPositions(disp.numLeds, eyeSize), eyeSize, r, g, b)
    ensures var xs := CylonPositions(disp.numLeds, eyeSize);
      disp.strip == if xs == [] then Blank(disp.numLeds) else EyeFrame(disp.numLeds, xs[|xs| - 1], eyeSize, r, g, b)
  {
    disp.AllOff();
    var n := disp.numLeds;
    var fwd := PyRange(0, n - eyeSize - 2 + 1, 1);
    var bwd := PyRange(n - eyeSize - 2, -1, -1);
    SweepEye(disp, fwd, r, g, b, eyeSize);
    SweepEye(disp, bwd, r, g, b, eyeSize);
    assert CylonPositions(n, eyeSize) == fwd + bwd;
  }

  // ---------------------------------------------------------------------
  // meteorRain

  /** `int(trailDecay/255.0 * v)`, taken as the integer floor of `trailDecay * v / 255`. */
  function Decay(v: int, trailDecay: int): int
  {
    trailDecay * v / 255
  }

  function Decayed(c: Rgb, trailDecay: int): Rgb
  {
    Rgb(Decay(c.r, trailDecay), Decay(c.g, trailDecay), Decay(c.b, trailDecay))
  }

  /** Decay never brightens a channel and never makes it negative. */
  lemma DecayBounded(v: int, trailDecay: int)
    requires 0 <= v && 0 <= trailDecay <= 255
    ensures 0 <= Decay(v, trailDecay) <= v
  {
    assert 0 <= trailDecay * v;
    assert trailDecay * v <= 255 * v by {
      assert (255 - trailDecay) * v >= 0;
    }
  }

  /** Pixel `j` is under the meteor head at position `i`: `j == i - k` for some `k < mSize`. */
  predicate InHead(j: int, i: int, mSize: int)
  {
    i - mSize < j <= i
  }

  /** Pixel `j` decays this step: decay is on and its `randint(0, 10)` draw exceeds 5 (5 of the 11 values). */
  predicate Decays(j: int, mDecay: bool, coins: seq<int>)
    requires 0 <= j < |coins|
  {
    mDecay && coins[j] > 5
  }

  /** The trail buffer after one step. */
  function MeteorPixels(p: seq<Rgb>, i: int, mSize: int, c: Rgb, trailDecay: int,
                        mDecay: bool, coins: seq<int>): (q: seq<Rgb>)
    requires |coins| == |p|
    ensures |q| == |p|
  {
    seq(|p|, j requires 0 <= j < |p| =>
      if InHead(j, i, mSize) then c
      else if Decays(j, mDecay, coins) then Decayed(p[j], trailDecay)
      else p[j])
  }

  /** The strip after one step: written pixels show the trail buffer, the rest are unchanged. */
  function MeteorStrip(s: seq<int>, p: seq<Rgb>, i: int, mSize: int, c: Rgb, trailDecay: int,
                       mDecay: bool, coins: seq<int>): (t: seq<int>)
    requires |coins| == |p| == |s|
    ensures |t| == |s|
  {
    var q := MeteorPixels(p, i, mSize, c, trailDecay, mDecay, coins);
    seq(|s|, j requires 0 <= j < |s| =>
      if InHead(j, i, mSize) || Decays(j, mDecay, coins) then RgbToHex(q[j].r, q[j].g, q[j].b) else s[j])
  }

  /**
   * After a step at position `i`, every on-strip head pixel in
   * `max(0, i-mSize+1) .. min(N-1, i)` holds the meteor colour; every other
   * pixel is either unchanged or decayed channel-wise to between 0 and its
   * old value (a trail pixel that does not decay may still hold the colour).
   */
  lemma MeteorPixelsShape(p: seq<Rgb>, i: int, mSize: int, c: Rgb, trailDecay: int,
                          mDecay: bool, coins: seq<int>)
    requires |coins| == |p|
    requires 0 <= trailDecay <= 255
    requires forall j :: 0 <= j < |p| ==> p[j].r >= 0 && p[j].g >= 0 && p[j].b >= 0
    ensures var q := MeteorPixels(p, i, mSize, c, trailDecay, mDecay, coins);
      forall j :: 0 <= j < |p| ==>
        && (Max(0, i - mSize + 1) <= j <= Min(|p| - 1, i) ==> q[j] == c)
        && (!InHead(j, i, mSize) ==>
              q[j] == p[j]
              || (0 <= q[j].r <= p[j].r && 0 <= q[j].g <= p[j].g && 0 <= q[j].b <= p[j].b))
  {
    forall j | 0 <= j < |p| && !InHead(j, i, mSize) && Decays(j, mDecay, coins)
      ensures var d := Decayed(p[j], trailDecay);
        0 <= d.r <= p[j].r && 0 <= d.g <= p[j].g && 0 <= d.b <= p[j].b
    {
      DecayBounded(p[j].r, trailDecay);
      DecayBounded(p[j].g, trailDecay);
      DecayBounded(p[j].b, trailDecay);
    }
  }

  /** The decay loop of `meteorRain`: dim each pixel whose draw says so and write it to the strip. */
  method DecayTrail(disp: Control, pixels: array<Rgb>, trailDecay: int, mDecay: bool, coins: seq<int>)
    requires |disp.strip| == disp.numLeds == pixels.Length
    requires |coins| == pixels.Length
    requires forall j :: 0 <= j < |coins| ==> 0 <= coins[j] <= 10
    modifies pixels, disp`strip
    ensures |disp.strip| == disp.numLeds
    ensures forall k :: 0 <= k < pixels.Length ==>
              pixels[k] == (if Decays(k, mDecay, coins) then Decayed(old(pixels[k]), trailDecay) else old(pixels[k]))
    ensures forall k :: 0 <= k < pixels.Length ==>
              disp.strip[k] == (if Decays(k, mDecay, coins) then RgbToHex(pixels[k].r, pixels[k].g, pixels[k].b)
                                else old(disp.strip)[k])
  {
    for j := 0 to pixels.Length
      invariant |disp.strip| == disp.numLeds
      invariant forall k :: 0 <= k < pixels.Length ==>
                  pixels[k] == (if k < j && Decays(k, mDecay, coins) then Decayed(old(pixels[k]), trailDecay) else old(pixels[k]))
      invariant forall k :: 0 <= k < pixels.Length ==>
                  disp.strip[k] == (if k < j && Decays(k, mDecay, coins)
                                    then RgbToHex(pixels[k].r, pixels[k].g, pixels[k].b) else old(disp.strip)[k])
    {
      if mDecay && coins[j] > 5 {
        pixels[j] := Decayed(pixels[j], trailDecay);
        disp.SetLeds(Pixel(j), pixels[j].r, pixels[j].g, pixels[j].b, None);
      }
    }
  }

  /** The head loop of `meteorRain`: pixels `i - j` for `j < mSize`, skipping those off the strip. */
  method DrawMeteor(disp: Control, pixels: array<Rgb>, i: int, r: int, g: int, b: int, mSize: int)
    requires |disp.strip| == disp.numLeds == pixels.Length
    modifies pixels, disp`strip
    ensures |disp.strip| == disp.numLeds
    ensures forall k :: 0 <= k < pixels.Length ==>
              pixels[k] == (if InHead(k, i, mSize) then Rgb(r, g, b) else old(pixels[k]))
    ensures forall k :: 0 <= k < pixels.Length ==>
              disp.strip[k] == (if InHead(k, i, mSize) then RgbToHex(r, g, b) else old(disp.strip)[k])
  {
    var j := 0;
    while j < mSize
      invariant 0 <= j <= Max(0, mSize)
      invariant |disp.strip| == disp.numLeds
      invariant forall k :: 0 <= k < pixels.Length ==> pixels[k] == (if i - j < k <= i then Rgb(r, g, b) else old(pixels[k]))
      invariant forall k :: 0 <= k < pixels.Length ==>
                  disp.strip[k] == (if i - j < k <= i then RgbToHex(r, g, b) else old(disp.strip)[k])
    {
      var mPix := i - j;
      if mPix > -1 && mPix < pixels.Length {
        pixels[mPix] := Rgb(r, g, b);
        disp.SetLeds(Pixel(mPix), r, g, b, None);
      }
      j := j + 1;
    }
  }

  /**
   * One frame of `meteorRain` at position `i`: decay the trail pixels whose
   * draw says so, draw the `mSize`-pixel head clipped to the strip, render.
   * `coins[j]` is the `randint(0, 10)` draw for pixel `j`.
   */
  method MeteorStep(disp: Control, pixels: array<Rgb>, i: int, r: int, g: int, b: int,
                    mSize: int, trailDecay: int, mDecay: bool, coins: seq<int>)
    requires |disp.strip| == disp.numLeds == pixels.Length
    requires |coins| == pixels.Length
    requires forall j :: 0 <= j < |coins| ==> 0 <= coins[j] <= 10
    modifies pixels, disp`strip, disp`frames
    ensures pixels[..] == MeteorPixels(old(pixels[..]), i, mSize, Rgb(r, g, b), trailDecay, mDecay, coins)
    ensures disp.strip == MeteorStrip(old(disp.strip), old(pixels[..]), i, mSize, Rgb(r, g, b), trailDecay, mDecay, coins)
    ensures disp.frames == old(disp.frames) + [disp.strip]
  {
    ghost var p0 := pixels[..];
    ghost var s0 := disp.strip;
    DecayTrail(disp, pixels, trailDecay, mDecay, coins);
    DrawMeteor(disp, pixels, i, r, g, b, mSize);
    ghost var q := MeteorPixels(p0, i, mSize, Rgb(r, g, b), trailDecay, mDecay, coins);
    forall k | 0 <= k < pixels.Length
      ensures pixels[..][k] == q[k]
      ensures disp.strip[k] == MeteorStrip(s0, p0, i, mSize, Rgb(r, g, b), trailDecay, mDecay, coins)[k]
    {
    }
    assert pixels[..] == q;
    assert disp.strip == MeteorStrip(s0, p0, i, mSize, Rgb(r, g, b), trailDecay, mDecay, coins);
    disp.Show();
  }
}
