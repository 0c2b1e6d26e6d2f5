/**
 * The device state and command handling of bin/control-mqtt.py (class
 * `Control`). The strip driver's pixel buffer is the field `strip`, one
 * packed colour per LED; every `strip.show()` appends the buffer to `frames`.
 * The driver is assumed to ignore writes to pixels outside [0, numLeds),
 * and its `clear_strip` to blank the buffer and render it.
 * The effect thread is abstracted to the ghost flag `effectRunning`.
 */
module ControlMqtt {
  import opened Wrappers
  import opened Colors

  /** The aggregate `state` string, "ON" or "OFF". */
  datatype Power = On | Off

  /** A decoded command; an absent key is None. */
  datatype Command = Command(
    effect: Option<string>,
    brightness: Option<int>,
    color: Option<Rgb>,
    led: Option<int>,
    state: Option<string>)

  /** The status report sent back after every command. */
  datatype Status = Status(brightness: int, color: Rgb, effect: Option<string>, state: Power)

  /** The `pixel` argument of `set_leds`: None (all), a list, or one index. */
  datatype Target = AllPixels | Pixels(indices: seq<int>) | Pixel(index: int)

  /** Whether `set_leds` with target `t` writes pixel `i`. */
  predicate Targets(t: Target, i: int)
  {
    match t
    case AllPixels => true
    case Pixels(indices) => i in indices
    case Pixel(index) => i == index
  }

  /** The buffer `s` after colour `c` is written to the pixels `t` names. */
  function Painted(s: seq<int>, t: Target, c: int): (p: seq<int>)
    ensures |p| == |s|
  {
    seq(|s|, i requires 0 <= i < |s| => if Targets(t, i) then c else s[i])
  }

  /** An all-zero buffer or mask of length `n`. */
  function Blank(n: nat): (s: seq<int>)
  {
    seq(n, i => 0)
  }

  /** The colour `set_leds` writes: `hex` if given, else `rgbtohex(r, g, b)`. */
  function PaintColor(r: int, g: int, b: int, hex: Option<int>): int
  {
    if hex.Some? then hex.value else RgbToHex(r, g, b)
  }

  /** Painting the same pixels twice leaves only the second colour. */
  lemma PaintedTwice(s: seq<int>, t: Target, c1: int, c2: int)
    ensures Painted(Painted(s, t, c1), t, c2) == Painted(s, t, c2)
  {
  }

  /** Writing one more list entry extends the list painted so far. */
  lemma PaintedExtend(s: seq<int>, indices: seq<int>, k: nat, c: int)
    requires k < |indices|
    ensures Painted(Painted(s, Pixels(indices[..k]), c), Pixel(indices[k]), c)
         == Painted(s, Pixels(indices[..k + 1]), c)
  {
    assert indices[..k + 1] == indices[..k] + [indices[k]];
  }

  /** `LEDS[p]` is a valid Python index: negative indices count from the end. */
  predicate InList(p: int, n: int)
  {
    -n <= p < n
  }

  /** The list position `LEDS[p]` refers to. */
  function ListIndex(p: int, n: int): (k: int)
    requires InList(p, n)
    ensures 0 <= k < n
    ensures p >= 0 ==> k == p
    ensures p < 0 ==> k - n == p
  {
    if p < 0 then n + p else p
  }

  /** `[i for i, e in enumerate(mask) if e]`. */
  function LitIndices(mask: seq<int>): seq<int>
    decreases |mask|
  {
    if |mask| == 0 then []
    else LitIndices(mask[..|mask| - 1]) + (if mask[|mask| - 1] != 0 then [|mask| - 1] else [])
  }

  /** The indices listed are exactly the nonzero entries of the mask. */
  lemma {:induction false} LitIndicesExact(mask: seq<int>)
    ensures forall i :: i in LitIndices(mask) <==> 0 <= i < |mask| && mask[i] != 0
    decreases |mask|
  {
    if |mask| > 0 {
      var front := mask[..|mask| - 1];
      LitIndicesExact(front);
      forall i | 0 <= i < |front| ensures front[i] == mask[i] { }
    }
  }

  /** `len(LitIndices(mask))` is nonzero iff some entry is nonzero. */
  lemma AnyLit(mask: seq<int>)
    ensures |LitIndices(mask)| > 0 <==> exists i :: 0 <= i < |mask| && mask[i] != 0
  {
    LitIndicesExact(mask);
    if |LitIndices(mask)| > 0 {
      assert LitIndices(mask)[0] in LitIndices(mask);
    }
  }

  /**
   * Turning one LED off leaves some LED lit iff some OTHER entry of the old
   * mask was lit.
   */
  lemma LitAfterClear(mask: seq<int>, k: int)
    requires 0 <= k < |mask|
    ensures |LitIndices(mask[k := 0])| > 0 <==> exists j :: 0 <= j < |mask| && j != k && mask[j] != 0
  {
    AnyLit(mask[k := 0]);
    if exists j :: 0 <= j < |mask| && j != k && mask[j] != 0 {
      var j :| 0 <= j < |mask| && j != k && mask[j] != 0;
      assert mask[k := 0][j] != 0;
    }
  }

  class Control {
    var state: Power
    var effect: Option<string>
    var brightness: int
    var red: int
    var green: int
    var blue: int
    const numLeds: nat
    /** `LEDS`: 1 for each LED switched on individually, else 0. */
    var leds: seq<int>
    /** The driver's pixel buffer, one packed colour per LED. */
    var strip: seq<int>
    /** Every buffer rendered by `strip.show()`, oldest first. */
    var frames: seq<seq<int>>
    /** An effect task was started and has not been stopped since. */
    ghost var effectRunning: bool

    /**
     * The invariant every command keeps: mask and buffer have one entry per
     * LED, the mask holds only 0 and 1, brightness and colour are clamped,
     * and `state` is ON whenever some LED is marked on.
     */
    ghost predicate Valid()
      reads this
    {
      && |leds| == numLeds
      && |strip| == numLeds
      && (forall i :: 0 <= i < |leds| ==> leds[i] == 0 || leds[i] == 1)
      && 0 <= brightness <= 31
      && 0 <= red <= 255 && 0 <= green <= 255 && 0 <= blue <= 255
      && (state == Off ==> forall i :: 0 <= i < |leds| ==> leds[i] == 0)
    }

    /** `__init__`: state OFF, no effect, brightness 15, white, all off (one blank render). */
    constructor (n: nat)
      ensures Valid() && numLeds == n
      ensures state == Off && effect == None && brightness == 15
      ensures red == 255 && green == 255 && blue == 255
      ensures leds == Blank(n) && strip == Blank(n) && frames == [Blank(n)]
      ensures !effectRunning
    {
      state := Off;
      effect := None;
      brightness := 15;
      red, green, blue := 255, 255, 255;
      numLeds := n;
      leds := Blank(n);
      strip := Blank(n);
      frames := [];
      effectRunning := false;
      new;
      AllOff();
    }

    /** The driver's `set_pixel_rgb`: writes one in-range pixel, ignores others. */
    method SetPixel(index: int, color: int)
      modifies this`strip
      ensures strip == Painted(old(strip), Pixel(index), color)
    {
      if 0 <= index < |strip| {
        strip := strip[index := color];
      }
    }

    /** The driver's `show`: render the buffer. */
    method Show()
      modifies this`frames
      ensures frames == old(frames) + [strip]
    {
      frames := frames + [strip];
    }

    /**
     * `set_leds(pixel, r, g, b, hex)`: write one colour (`hex` if given, else
     * the packed clamped r, g, b) to every pixel, to the listed pixels, or to
     * one pixel; nothing is rendered and the mask is untouched.
     */
    method SetLeds(pixel: Target, r: int, g: int, b: int, hex: Option<int>)
      requires |strip| == numLeds
      modifies this`strip
      ensures strip == Painted(old(strip), pixel, PaintColor(r, g, b, hex))
    {
      var hexcolor := PaintColor(r, g, b, hex);
      match pixel
      case AllPixels =>
        for x := 0 to numLeds
          invariant |strip| == numLeds
          invariant forall i :: 0 <= i < numLeds ==> strip[i] == if i < x then hexcolor else old(strip)[i]
        {
          SetPixel(x, hexcolor);
        }
        assert strip == Painted(old(strip), pixel, hexcolor);
      case Pixels(indices) =>
        for k := 0 to |indices|
          invariant strip == Painted(old(strip), Pixels(indices[..k]), hexcolor)
        {
          SetPixel(indices[k], hexcolor);
          PaintedExtend(old(strip), indices, k, hexcolor);
        }
        assert indices[..|indices|] == indices;
      case Pixel(index) =>
        SetPixel(index, hexcolor);
    }

    /** `all_off`: blank the buffer and render it (`clear_strip`), then clear the mask. */
    method AllOff()
      modifies this`strip, this`leds, this`frames
      ensures strip == Blank(numLeds) && leds == Blank(numLeds)
      ensures frames == old(frames) + [Blank(numLeds)]
    {
      strip := Blank(numLeds);
      Show();
      leds := Blank(numLeds);
    }

    /** `all_on`: paint every pixel the current colour and render; the mask is untouched. */
    method AllOn()
      requires |strip| == numLeds
      modifies this`strip, this`frames
      ensures strip == Painted(old(strip), AllPixels, RgbToHex(red, green, blue))
      ensures frames == old(frames) + [strip]
    {
      SetLeds(AllPixels, red, green, blue, None);
      Show();
    }

    /** `stop_effect`: signal the running effect, wait for it, clear the signal. */
    method StopEffect()
      modifies this`effectRunning
      ensures !effectRunning
    {
      effectRunning := false;
    }

    /** `start_effect`: only ever called once no effect is running. */
    method StartEffect()
      requires !effectRunning
      modifies this`effectRunning
      ensures effectRunning
    {
      effectRunning := true;
    }

    /**
     * The first part of `on_message`: stop any effect, then apply the
     * effect, brightness and colour fields that are present.
     */
    method ApplySettings(cmd: Command)
      requires Valid()
      modifies this`effect, this`effectRunning, this`brightness, this`red, this`green, this`blue
      ensures Valid()
      ensures effectRunning <==> cmd.effect.Some?
      ensures effect == if cmd.color.Some? then None else if cmd.effect.Some? then cmd.effect else Some("")
      ensures brightness == if cmd.brightness.Some? then Clamp(cmd.brightness.value, 0, 31) else old(brightness)
      ensures cmd.color.Some? ==>
                red == Channel(cmd.color.value.r) && green == Channel(cmd.color.value.g)
                && blue == Channel(cmd.color.value.b)
      ensures cmd.color.None? ==> red == old(red) && green == old(green) && blue == old(blue)
    {
      StopEffect();
      effect := Some("");

      if cmd.effect.Some? {
        effect := cmd.effect;
        StartEffect();
      }

      if cmd.brightness.Some? {
        brightness := Clamp(cmd.brightness.value, 0, 31);
      }

      if cmd.color.Some? {
        effect := None;
        red := Channel(cmd.color.value.r);
        green := Channel(cmd.color.value.g);
        blue := Channel(cmd.color.value.b);
      }
    }

    /**
     * The `state` handling of `on_message` for the `led` value `pixel`.
     * Returns false when `LEDS[pixel]` raises IndexError.
     */
    method ApplyState(power: string, pixel: Option<int>) returns (ok: bool)
      requires Valid()
      modifies this`state, this`leds, this`strip, this`frames
      ensures Valid()
      ensures ok <==> pixel.None? || InList(pixel.value, numLeds)
      ensures !ok ==>
                && state == (if power == "ON" then On else old(state))
                && leds == old(leds) && strip == old(strip) && frames == old(frames)
      ensures ok && power == "ON" && pixel.Some? ==>
                && state == On
                && leds == old(leds)[ListIndex(pixel.value, numLeds) := 1]
                && strip == Painted(old(strip), Pixel(pixel.value), RgbToHex(red, green, blue))
                && frames == old(frames) + [strip]
      ensures power == "ON" && pixel.None? ==>
                && state == On && leds == old(leds)
                && strip == Painted(old(strip), AllPixels, RgbToHex(red, green, blue))
                && frames == old(frames) + [strip]
      ensures ok && power != "ON" && pixel.Some? ==>
                && leds == old(leds)[ListIndex(pixel.value, numLeds) := 0]
                && strip == Painted(old(strip), Pixel(pixel.value), 0)
                && (state == On <==> |LitIndices(leds)| > 0)
                && frames == old(frames) + [strip]
      ensures power != "ON" && pixel.None? ==>
                && state == Off && leds == Blank(numLeds) && strip == Blank(numLeds)
                && frames == old(frames) + [strip]
    {
      ok := true;
      if power == "ON" {
        state := On;
        if pixel.Some? {
          if !InList(pixel.value, numLeds) {
            return false;
          }
          leds := leds[ListIndex(pixel.value, numLeds) := 1];
          SetLeds(Pixel(pixel.value), red, green, blue, None);
          Show();
        } else {
          AllOn();
        }
      } else {
        if pixel.Some? {
          if !InList(pixel.value, numLeds) {
            return false;
          }
          leds := leds[ListIndex(pixel.value, numLeds) := 0];
          SetLeds(Pixel(pixel.value), 0, 0, 0, Some(0));
          if |LitIndices(leds)| > 0 {
            state := On;
          } else {
            state := Off;
            AnyLit(leds);
          }
          Show();
        } else {
          state := Off;
          AllOff();
        }
      }
    }

    /**
     * `on_message`: apply one command. Returns the status report, or None
     * when `LEDS[led]` raises IndexError; the field updates made before the
     * failing line are kept.
     */
    method OnMessage(cmd: Command) returns (status: Option<Status>)
      requires Valid()
      modifies this
      ensures Valid()
      // effect task: restarted iff the command names an effect
      ensures effectRunning <==> cmd.effect.Some?
      // resolved effect
      ensures cmd.color.Some? ==> effect == None
      ensures cmd.color.None? && cmd.effect.Some? ==> effect == cmd.effect
      ensures cmd.color.None? && cmd.effect.None? ==> effect == Some("")
      // brightness and colour
      ensures brightness == if cmd.brightness.Some? then Clamp(cmd.brightness.value, 0, 31) else old(brightness)
      ensures cmd.color.Some? ==>
                red == Channel(cmd.color.value.r) && green == Channel(cmd.color.value.g)
                && blue == Channel(cmd.color.value.b)
      ensures cmd.color.None? ==> red == old(red) && green == old(green) && blue == old(blue)
      // no state: mask, state and buffer unchanged (`led` alone is ignored), one render
      ensures cmd.state.None? ==>
                && status.Some?
                && state == old(state) && leds == old(leds) && strip == old(strip)
                && frames == old(frames) + [strip]
      // a bad `led` index raises before the mask, buffer or renders change
      ensures cmd.state.Some? && cmd.led.Some? && !InList(cmd.led.value, numLeds) ==>
                && status == None
                && state == (if cmd.state.value == "ON" then On else old(state))
                && leds == old(leds) && strip == old(strip) && frames == old(frames)
      // ON one LED: mark it, paint it the current colour
      ensures cmd.state == Some("ON") && cmd.led.Some? && InList(cmd.led.value, numLeds) ==>
                && status.Some? && state == On
                && leds == old(leds)[ListIndex(cmd.led.value, numLeds) := 1]
                && strip == Painted(old(strip), Pixel(cmd.led.value), RgbToHex(red, green, blue))
                && frames == old(frames) + [strip, strip]
      // ON the whole strip: paint every pixel, mask unchanged
      ensures cmd.state == Some("ON") && cmd.led.None? ==>
                && status.Some? && state == On && leds == old(leds)
                && strip == Painted(old(strip), AllPixels, RgbToHex(red, green, blue))
                && frames == old(frames) + [strip, strip]
      // OFF one LED: unmark it, black it, recompute the state from the mask
      ensures cmd.state.Some? && cmd.state != Some("ON") && cmd.led.Some? && InList(cmd.led.value, numLeds) ==>
                && status.Some?
                && leds == old(leds)[ListIndex(cmd.led.value, numLeds) := 0]
                && strip == Painted(old(strip), Pixel(cmd.led.value), 0)
                && (state == On <==> |LitIndices(leds)| > 0)
                && frames == old(frames) + [strip, strip]
      // OFF the whole strip: everything off, rendered by `clear_strip` and again at the end
      ensures cmd.state.Some? && cmd.state != Some("ON") && cmd.led.None? ==>
                && status.Some? && state == Off
                && leds == Blank(numLeds) && strip == Blank(numLeds)
                && frames == old(frames) + [strip, strip]
      // the report is the resolved state
      ensures status.Some? ==> status.value == Status(brightness, Rgb(red, green, blue), effect, state)
    {
      ApplySettings(cmd);
      var pixel := cmd.led;

      if cmd.state.None? {
        Show();
        return Some(Status(brightness, Rgb(red, green, blue), effect, state));
      }

      var ok := ApplyState(cmd.state.value, pixel);
      if !ok {
        return None;
      }

      Show();
      status := Some(Status(brightness, Rgb(red, green, blue), effect, state));
    }
  }

  /** Scenario: `{"state": "ON"}` on a fresh device lights every LED white. */
  method FreshDeviceOn(n: nat) returns (status: Option<Status>, lit: seq<int>)
    ensures status == Some(Status(15, Rgb(255, 255, 255), Some(""), On))
    ensures lit == seq(n, i => 0xFFFFFF)
  {
    var c := new Control(n);
    status := c.OnMessage(Command(None, None, None, None, Some("ON")));
    lit := c.strip;
  }

  /** Scenario: switching off the only lit LED turns the whole device OFF. */
  method LastLedOff() returns (status: Option<Status>, mask: seq<int>)
    ensures status.Some? && status.value.state == Off
    ensures mask == [0, 0, 0, 0, 0, 0, 0, 0]
  {
    var c := new Control(8);
    var s1 := c.OnMessage(Command(None, None, None, Some(2), Some("ON")));
    assert c.state == On && c.leds[2] == 1;
    status := c.OnMessage(Command(None, None, None, Some(2), Some("OFF")));
    mask := c.leds;
    AnyLit(mask);
  }

  /**
   * Scenario: a colour command after `{"effect": "fire"}` stops the fire
   * task, clears the effect and reports the new colour.
   */
  method ColorStopsEffect() returns (status: Option<Status>, ghost running: bool)
    ensures status.Some? && status.value.effect == None && status.value.color == Rgb(0, 0, 255)
    ensures !running
  {
    var c := new Control(8);
    var s1 := c.OnMessage(Command(Some("fire"), None, None, None, None));
    assert c.effectRunning && c.effect == Some("fire");
    status := c.OnMessage(Command(None, None, Some(Rgb(0, 0, 255)), None, None));
    running := c.effectRunning;
  }
}
