/**
 * One iteration of the fire effect of bin/effects.py (`fire` and
 * `_set_pixel_heat_color`): cool every cell, diffuse heat upward, maybe
 * ignite a spark near the bottom, then colour the strip from the heat.
 * The random draws are parameters, each within the range its `randint`
 * call returns.
 */
module Fire {
  import opened Wrappers
  import opened Colors
  import opened ControlMqtt

  // ---------------------------------------------------------------------
  // Heat to colour

  /**
   * `int(round((temp / 255.0) * 191))`: 191*temp/255 is never exactly
   * halfway between two integers, so the nearest integer is exact.
   */
  function ScaleHeat(temp: int): int
  {
    (382 * temp + 255) / 510
  }

  /** ScaleHeat is the integer strictly nearest to 191*temp/255. */
  lemma ScaleHeatNearest(temp: int)
    ensures -255 < 510 * ScaleHeat(temp) - 382 * temp < 255
  {
    var t := ScaleHeat(temp);
    var n := 382 * temp + 255;
    assert n == 510 * t + n % 510 && 0 <= n % 510 < 510;
    var e := 255 * t - 191 * temp;
    assert 510 * t - 382 * temp == 2 * e;
    // 2*e lies in (-255, 255]; being even it cannot be 255
    assert -255 < 2 * e <= 255;
  }

  /** Heat in [0, 255] scales into [0, 191], and the scaling is monotone. */
  lemma ScaleHeatRange(a: int, b: int)
    requires 0 <= a <= b
    ensures 0 <= ScaleHeat(a) <= ScaleHeat(b)
    ensures b <= 255 ==> ScaleHeat(b) <= 191
  {
    assert 382 * a + 255 <= 382 * b + 255;
  }

  /**
   * `(t & 0x3F) << 2`: on Python's integers `t & 0x3F` is `t % 64` (see
   * MaskShiftIsArithmetic for the bit-level identity) and `<< 2` is `* 4`.
   */
  function HeatRamp(t: int): (ramp: int)
    ensures 0 <= ramp <= 252 && ramp % 4 == 0
  {
    (t % 64) * 4
  }

  /**
   * On a 32-bit word, masking with 0x3F and shifting left by two is
   * `(x % 64) * 4`. Heat has no upper bound in the source (each spark adds
   * up to 255), so the identity is stated for every scaled heat below 2^32
   * rather than only for bytes.
   */
  lemma MaskShiftIsArithmetic(x: bv32)
    ensures (x & 0x3F) << 2 == (x % 64) * 4
  {
  }

  /**
   * `_set_pixel_heat_color`'s colour: white-hot above 0x80 (full red and
   * green, ramped blue), full red with ramped green above 0x40, ramped red
   * otherwise.
   */
  function HeatColor(temp: int): (c: Rgb)
    ensures 0 <= c.r <= 255 && 0 <= c.g <= 255 && 0 <= c.b <= 255
    ensures ScaleHeat(temp) > 0x80 ==> c == Rgb(255, 255, HeatRamp(ScaleHeat(temp)))
    ensures 0x40 < ScaleHeat(temp) <= 0x80 ==> c == Rgb(255, HeatRamp(ScaleHeat(temp)), 0)
    ensures ScaleHeat(temp) <= 0x40 ==> c == Rgb(HeatRamp(ScaleHeat(temp)), 0, 0)
  {
    var t := ScaleHeat(temp);
    var heatramp := HeatRamp(t);
    if t > 0x80 then Rgb(255, 255, heatramp)
    else if t > 0x40 then Rgb(255, heatramp, 0)
    else Rgb(heatramp, 0, 0)
  }

  /** Hotter never means less red, and never less green once past the coolest band. */
  lemma HeatColorOrdered(a: int, b: int)
    requires 0 <= a <= b
    requires ScaleHeat(a) > 0x40
    ensures HeatColor(a).r == HeatColor(b).r == 255
    ensures ScaleHeat(a) > 0x80 ==> HeatColor(b).g == 255
  {
    ScaleHeatRange(a, b);
  }

  /** `_set_pixel_heat_color(pixel, temp)`: write the heat colour to one pixel. */
  method SetPixelHeatColor(disp: Control, pixel: int, temp: int)
    requires |disp.strip| == disp.numLeds
    modifies disp`strip
    ensures disp.strip == Painted(old(disp.strip), Pixel(pixel), RgbToHex(HeatColor(temp).r, HeatColor(temp).g, HeatColor(temp).b))
  {
    var c := HeatColor(temp);
    disp.SetLeds(Pixel(pixel), c.r, c.g, c.b, None);
  }

  /** The packed colour shown for heat `h`. */
  function HeatPixel(h: int): int
  {
    RgbToHex(HeatColor(h).r, HeatColor(h).g, HeatColor(h).b)
  }

  /** The frame step 4 renders: every pixel coloured from its own heat. */
  function HeatFrame(heat: seq<int>): (f: seq<int>)
    ensures |f| == |heat|
  {
    seq(|heat|, i requires 0 <= i < |heat| => HeatPixel(heat[i]))
  }

  // ---------------------------------------------------------------------
  // Step 1: cooling

  /**
   * The upper bound of the cooldown draw, `(cooling * 10) / NUM_LEDS + 2`,
   * with the integer division of the Arduino (C++) sketch the effect comes from.
   */
  function CoolBound(cooling: int, n: int): int
    requires n > 0
  {
    cooling * 10 / n + 2
  }

  /** Each cell loses its cooldown, floored at zero. */
  function Cooled(heat: seq<int>, cooldowns: seq<int>): (r: seq<int>)
    requires |cooldowns| == |heat|
    ensures |r| == |heat|
  {
    seq(|heat|, i requires 0 <= i < |heat| => if cooldowns[i] > heat[i] then 0 else heat[i] - cooldowns[i])
  }

  /** Cooling gives `max(0, heat[i] - cooldown[i])`: never negative, never hotter. */
  lemma CooledBounds(heat: seq<int>, cooldowns: seq<int>)
    requires |cooldowns| == |heat|
    requires forall i :: 0 <= i < |cooldowns| ==> cooldowns[i] >= 0
    ensures forall i :: 0 <= i < |heat| ==>
              Cooled(heat, cooldowns)[i] == Max(0, heat[i] - cooldowns[i])
              && 0 <= Cooled(heat, cooldowns)[i]
              && (heat[i] >= 0 ==> Cooled(heat, cooldowns)[i] <= heat[i])
  {
  }

  method Cool(heat: array<int>, cooldowns: seq<int>)
    requires |cooldowns| == heat.Length
    modifies heat
    ensures heat[..] == Cooled(old(heat[..]), cooldowns)
  {
    for i := 0 to heat.Length
      invariant forall j :: 0 <= j < heat.Length ==>
                  heat[j] == if j < i then Cooled(old(heat[..]), cooldowns)[j] else old(heat[j])
    {
      var cooldown := cooldowns[i];
      if cooldown > heat[i] {
        heat[i] := 0;
      } else {
        heat[i] := heat[i] - cooldown;
      }
    }
  }

  // ---------------------------------------------------------------------
  // Step 2: diffusion

  /** The simultaneous update: each cell from 2 up takes the weighted mean of the two below. */
  function Diffused(h: seq<int>): (r: seq<int>)
    ensures |r| == |h|
  {
    seq(|h|, k requires 0 <= k < |h| => if k < 2 then h[k] else (h[k - 1] + h[k - 2] + h[k - 2]) / 3)
  }

  /** Diffusion keeps every cell within any bounds [0, H] the old cells had. */
  lemma DiffusedBounds(h: seq<int>, bound: int)
    requires forall i :: 0 <= i < |h| ==> 0 <= h[i] <= bound
    ensures forall i :: 0 <= i < |h| ==> 0 <= Diffused(h)[i] <= bound
  {
    forall k | 2 <= k < |h|
      ensures 0 <= Diffused(h)[k] <= bound
    {
      assert 0 <= h[k - 1] + h[k - 2] + h[k - 2] <= 3 * bound;
    }
  }

  /**
   * The source's in-place loop from the top cell down to cell 2: because it
   * runs high to low, every cell reads pre-step values, so the loop equals
   * the simultaneous update.
   */
  method Diffuse(heat: array<int>)
    modifies heat
    ensures heat[..] == Diffused(old(heat[..]))
  {
    var k := heat.Length - 1;
    while k > 1
      invariant -1 <= k < heat.Length
      invariant forall j :: k < j < heat.Length ==> heat[j] == Diffused(old(heat[..]))[j]
      invariant forall j :: 0 <= j <= k ==> heat[j] == old(heat[j])
    {
      heat[k] := (heat[k - 1] + heat[k - 2] + heat[k - 2]) / 3;
      k := k - 1;
    }
  }

  // ---------------------------------------------------------------------
  // Step 3: sparking

  /** A spark fires when the roll is below `sparking`. */
  predicate Fires(sparking: int, roll: int)
  {
    roll < sparking
  }

  /** The heat after a spark of `amount` at cell `y` (when it fires and `y` exists). */
  function Sparked(h: seq<int>, sparking: int, roll: int, y: int, amount: int): (r: seq<int>)
    ensures |r| == |h|
  {
    if Fires(sparking, roll) && 0 <= y < |h| then h[y := h[y] + amount] else h
  }

  /**
   * A spark changes at most one cell, one of the bottom six, and raises it
   * by 160 to 255; no other cell changes.
   */
  lemma SparkedChangesOne(h: seq<int>, sparking: int, roll: int, y: int, amount: int)
    requires 0 <= y <= 5 && 160 <= amount <= 255
    ensures forall i :: 0 <= i < |h| && i != y ==> Sparked(h, sparking, roll, y, amount)[i] == h[i]
    ensures y < |h| ==>
              var d := Sparked(h, sparking, roll, y, amount)[y] - h[y];
              d == 0 || (160 <= d <= 255 && Fires(sparking, roll))
  {
  }

  /**
   * `if random.randint(0, 255) < sparking: heat[y] += random.randint(160, 255)`.
   * Returns false when the spark fires at a cell the strip does not have
   * (IndexError, possible only on strips shorter than six LEDs).
   */
  method Spark(heat: array<int>, sparking: int, roll: int, y: int, amount: int) returns (ok: bool)
    requires 0 <= y <= 5
    modifies heat
    ensures ok <==> !(Fires(sparking, roll) && y >= heat.Length)
    ensures heat[..] == Sparked(old(heat[..]), sparking, roll, y, amount)
  {
    ok := true;
    if roll < sparking {
      if y >= heat.Length {
        return false;
      }
      heat[y] := heat[y] + amount;
    }
  }

  // ---------------------------------------------------------------------
  // Step 4 and the whole iteration

  /** Step 4: colour every pixel from its heat. */
  method Colorize(disp: Control, heat: array<int>)
    requires |disp.strip| == disp.numLeds == heat.Length
    modifies disp`strip
    ensures disp.strip == HeatFrame(heat[..])
  {
    for x := 0 to heat.Length
      invariant |disp.strip| == disp.numLeds
      invariant forall j :: 0 <= j < heat.Length ==>
                  disp.strip[j] == if j < x then HeatPixel(heat[j]) else old(disp.strip)[j]
    {
      SetPixelHeatColor(disp, x, heat[x]);
    }
  }

  /** The heat after one iteration's cooling, diffusion and spark. */
  function FireHeat(h: seq<int>, cooldowns: seq<int>, sparking: int, roll: int, y: int, amount: int): seq<int>
    requires |cooldowns| == |h|
  {
    Sparked(Diffused(Cooled(h, cooldowns)), sparking, roll, y, amount)
  }

  /** Heat never goes negative: cells start at zero and every step keeps them non-negative. */
  lemma FireHeatNonNegative(h: seq<int>, cooldowns: seq<int>, sparking: int, roll: int, y: int, amount: int)
    requires |cooldowns| == |h|
    requires forall i :: 0 <= i < |cooldowns| ==> cooldowns[i] >= 0
    requires 0 <= y <= 5 && 160 <= amount <= 255
    ensures forall i :: 0 <= i < |h| ==> FireHeat(h, cooldowns, sparking, roll, y, amount)[i] >= 0
  {
    var c := Cooled(h, cooldowns);
    var hi := 0;
    for i := 0 to |c|
      invariant forall j :: 0 <= j < i ==> c[j] <= hi
      invariant hi >= 0
    {
      if c[i] > hi { hi := c[i]; }
    }
    DiffusedBounds(c, hi);
  }

  /**
   * One iteration of `fire`'s loop with the random draws as parameters:
   * `cooldowns[i]` from `randint(0, CoolBound(cooling, N))`, `roll` from
   * `randint(0, 255)`, `y` from `randint(0, 5)`, `amount` from
   * `randint(160, 255)`. Returns false when the spark raises IndexError;
   * the strip is then neither recoloured nor rendered.
   */
  method FireStep(disp: Control, heat: array<int>, cooling: int, sparking: int,
                  cooldowns: seq<int>, roll: int, y: int, amount: int) returns (ok: bool)
    requires |disp.strip| == disp.numLeds == heat.Length
    requires |cooldowns| == heat.Length
    requires forall i :: 0 <= i < |cooldowns| ==> 0 <= cooldowns[i] <= CoolBound(cooling, heat.Length)
    requires 0 <= roll <= 255 && 0 <= y <= 5 && 160 <= amount <= 255
    modifies heat, disp`strip, disp`frames
    ensures ok <==> !(Fires(sparking, roll) && y >= heat.Length)
    ensures heat[..] == FireHeat(old(heat[..]), cooldowns, sparking, roll, y, amount)
    ensures ok ==> disp.strip == HeatFrame(heat[..]) && disp.frames == old(disp.frames) + [disp.strip]
    ensures !ok ==> disp.strip == old(disp.strip) && disp.frames == old(disp.frames)
  {
    Cool(heat, cooldowns);
    Diffuse(heat);
    ok := Spark(heat, sparking, roll, y, amount);
    if !ok {
      return;
    }
    Colorize(disp, heat);
    disp.Show();
  }

  // ---------------------------------------------------------------------
  // The cooldown bound as written

  /** `(cooling * 10) / NUM_LEDS + 2` as Python 3 evaluates it: true division. */
  function CoolBoundAsWritten(cooling: int, n: int): real
    requires n != 0
  {
    (cooling * 10) as real / n as real + 2.0
  }

  /** `random.randint(a, b)` only accepts integral bounds with `a <= b`. */
  predicate RandintAccepts(a: real, b: real)
  {
    a.Floor as real == a && b.Floor as real == b && a <= b
  }

  /**
   * With `cooling = 150`, the value the effect dispatcher passes, on an 8-LED strip the bound is 189.5,
   * which `randint` rejects, so the first cooling draw raises.
   */
  lemma CoolBoundAsWrittenRejected()
    ensures CoolBoundAsWritten(150, 8) == 189.5
    ensures !RandintAccepts(0.0, CoolBoundAsWritten(150, 8))
  {
    assert (189.5).Floor == 189;
  }

  /**
   * With integer division the bound is always a valid `randint` bound: the
   * integer part of the true quotient plus two.
   */
  lemma CoolBoundAccepted(cooling: int, n: int)
    requires n > 0 && cooling >= 0
    ensures RandintAccepts(0.0, CoolBound(cooling, n) as real)
    ensures CoolBound(cooling, n) as real <= CoolBoundAsWritten(cooling, n) < CoolBound(cooling, n) as real + 1.0
  {
    var q := cooling * 10 / n;
    var m := cooling * 10 % n;
    assert cooling * 10 == q * n + m && 0 <= m < n;
    assert (cooling * 10) as real == q as real * n as real + m as real;
    assert (cooling * 10) as real / n as real == q as real + m as real / n as real;
  }
}
