# led-strips in Dafny

This project models the core of `led-strips`: a Raspberry Pi daemon that
drives an APA102 LED strip and takes JSON commands over MQTT. The model
covers two parts:

- **The device controller** (`bin/control-mqtt.py`, class `Control`): its
  single state, the per-LED `LEDS` mask, the pixel buffer and the
  `on_message` command handler.
- **The light effects** (`bin/effects.py`, class `EffectLoop`). The model
  covers the fade level sequences, the eye positions of `halloweenEyes`, the
  scanning eye of `cylon`/`drawEye`, one iteration of `fire`, and one frame
  of `meteorRain`.

Files:

- `Wrappers.dfy`: `Option`.
- `Arith.dfy`: three lemmas about multiplication, division and remainder.
- `Colors.dfy`: `clamp` and `rgbtohex`. `rgbtohex` is modelled through the
  hex string it formats and the `int(s, 16)` parse it performs. It is proved
  equal to plain 24-bit packing.
- `Control.dfy`: the `Control` class. The driver's pixel buffer is the field
  `strip`. Every `strip.show()` appends the buffer to `frames`, so what is
  rendered can be observed. The effect thread is the ghost flag
  `effectRunning`.
- `Fire.dfy`: one iteration of `fire`, on an `array` of heat values updated
  in place, as the source does.
- `Effects.dfy`: fades, eyes, cylon and meteor.

The effects' random draws are method parameters. Each is restricted by a
precondition to the range its `randint` call can return.

## Model

| member | source | states |
|---|---|---|
| Colors.Clamp | bin/control-mqtt.py:8-10 | the result is `max(smallest, min(n, largest))`: inside the range when the range is non-empty, `n` itself when `n` lies in the range, the nearer bound otherwise, and `smallest` when the range is empty |
| Colors.Channel | bin/control-mqtt.py:8-10 | with the default bounds 0 and 255 every result is a valid channel, and valid channels pass through unchanged |
| Colors.ClampIdempotent | bin/control-mqtt.py:8-10 | clamping twice gives the same result as clamping once |
| Colors.PackedStringParses | bin/control-mqtt.py:14-15 | the string `"0x" + RR + GG + BB` (two lower-case hex digits per channel) parses in base 16 to `r*65536 + g*256 + b` |
| Colors.RgbToHex | bin/control-mqtt.py:12-15 | the value is the 24-bit packing of the three clamped channels, with red highest, and lies in [0, 0xFFFFFF] |
| Colors.UnpackRgbToHex | bin/control-mqtt.py:12-15 | splitting a packed colour back into its three bytes gives the clamped channels |
| Colors.RgbToHexInjective | bin/control-mqtt.py:12-15 | colours pack to equal values only when their clamped channels are equal |
| ControlMqtt.PaintedTwice | bin/control-mqtt.py:36-57 | writing the same pixels twice leaves only the second colour |
| ControlMqtt.ListIndex | bin/control-mqtt.py:108 | `LEDS[p]` refers to position `p` when `p >= 0` and to `N + p` when `p` is negative, always within [0, N) |
| ControlMqtt.LitIndicesExact | bin/control-mqtt.py:118 | the list comprehension holds exactly the indices of the nonzero mask entries |
| ControlMqtt.AnyLit | bin/control-mqtt.py:118 | the comprehension is non-empty iff some mask entry is nonzero |
| ControlMqtt.LitAfterClear | bin/control-mqtt.py:115-121 | after one LED is switched off, some LED is still lit iff some other LED was lit before |
| ControlMqtt.Control.constructor | bin/control-mqtt.py:144-163 | a new device is OFF with no effect, brightness 15 and colour white, an all-zero mask and buffer, one blank frame rendered by `all_off`, and the invariant `Valid()` holds |
| ControlMqtt.Control.SetLeds | bin/control-mqtt.py:36-57 | the buffer afterwards equals the old buffer with one colour on every pixel, on the listed pixels or on one pixel; the colour is `hex` when given, else `rgbtohex(r, g, b)`; nothing is rendered |
| ControlMqtt.Control.AllOff | bin/control-mqtt.py:24-28 | the buffer and the mask are both all zero, and `clear_strip` renders the blank buffer once |
| ControlMqtt.Control.AllOn | bin/control-mqtt.py:30-34 | every pixel shows the current colour, exactly that buffer is rendered once, and the mask is unchanged |
| ControlMqtt.Control.StopEffect | bin/control-mqtt.py:59-67 | afterwards no effect is running |
| ControlMqtt.Control.StartEffect | bin/control-mqtt.py:69-75 | afterwards an effect is running |
| ControlMqtt.Control.ApplySettings | bin/control-mqtt.py:84-99 | an effect runs iff the command names one; the effect becomes None if a colour is given, else the named effect, else `""`; brightness is clamped to [0, 31]; the colour channels are clamped to [0, 255]; fields the command omits keep their old values; `Valid()` is preserved |
| ControlMqtt.Control.ApplyState | bin/control-mqtt.py:104-126 | for each of the five cases (ON/OFF × one LED/all, plus a bad index) it gives the new state, mask, buffer and frames; an LED index outside [-N, N) fails after ON has been recorded but before the mask changes; switching one LED off leaves the device ON iff some LED is still marked on; `Valid()` is preserved |
| ControlMqtt.Control.OnMessage | bin/control-mqtt.py:77-142 | states the whole command: the effect, brightness and colour updates, and every `state` case with its mask, buffer and two renders (for OFF of the whole strip, the blank render of `clear_strip` and then the final one); a bad `led` index gives no report; without `state`, only the extra render happens and `led` is ignored; the report equals the resulting fields |
| ControlMqtt.FreshDeviceOn | bin/control-mqtt.py:104-113 | `{"state": "ON"}` on a new device reports brightness 15, white, effect `""`, ON, with every pixel 0xFFFFFF |
| ControlMqtt.LastLedOff | bin/control-mqtt.py:115-122 | switching on LED 2 and then off again leaves the device OFF with an all-zero mask |
| ControlMqtt.ColorStopsEffect | bin/control-mqtt.py:84-99 | a colour command after an effect command stops the effect, reports effect None and reports the new colour |
| Fire.ScaleHeatNearest | bin/effects.py:291 | the scaled heat is the integer strictly nearest to `temp*191/255`, so Python's `round` never meets a tie here |
| Fire.ScaleHeatRange | bin/effects.py:290-291 | scaling is monotone and takes heat in [0, 255] into [0, 191] |
| Fire.HeatRamp | bin/effects.py:293-295 | the ramp is a multiple of 4 in [0, 252] |
| Fire.MaskShiftIsArithmetic | bin/effects.py:294-295 | on any 32-bit word, `(x & 0x3F) << 2` equals `(x % 64) * 4`; scaled heat is not capped at 255, so a byte would not be enough |
| Fire.HeatColor | bin/effects.py:297-303 | the colour is white-hot with a blue ramp above 0x80, red with a green ramp above 0x40, and a red ramp otherwise; all channels are in [0, 255] |
| Fire.HeatColorOrdered | bin/effects.py:297-303 | once past the coolest band, a hotter cell keeps full red, and keeps full green above 0x80 |
| Fire.SetPixelHeatColor | bin/effects.py:288-305 | exactly one pixel changes, to the packed heat colour |
| Fire.CooledBounds | bin/effects.py:314-319 | each cell becomes `max(0, heat - cooldown)`: never negative, and never hotter than before |
| Fire.Cool | bin/effects.py:314-319 | the in-place loop leaves the array equal to `Cooled` of its old contents |
| Fire.DiffusedBounds | bin/effects.py:322-323 | diffusion keeps every cell inside any bound [0, H] that held before |
| Fire.Diffuse | bin/effects.py:322-323 | the in-place loop runs from the top cell down, so it equals the simultaneous update: cells 0 and 1 are kept, and each higher cell becomes the weighted mean of the two cells below |
| Fire.SparkedChangesOne | bin/effects.py:326-328 | a spark changes at most cell `y`, one of the bottom six; when it fires there it adds 160 to 255 heat |
| Fire.Spark | bin/effects.py:326-328 | the array equals the sparked heat; it fails (IndexError) iff the spark fires at a cell the strip does not have |
| Fire.Colorize | bin/effects.py:331-332 | every pixel shows the packed heat colour of its own cell |
| Fire.FireHeatNonNegative | bin/effects.py:313-328 | cooling, diffusion and sparking never make any cell negative |
| Fire.FireStep | bin/effects.py:313-334 | the heat equals cool, then diffuse, then spark of the old heat; when no IndexError occurs, the strip is the heat frame and is rendered once; an IndexError leaves the strip and frames unchanged |
| Fire.CoolBoundAsWrittenRejected | bin/effects.py:315 | with `cooling = 150` on 8 LEDs the bound expression is 189.5, which `randint` does not accept |
| Fire.CoolBoundAccepted | bin/effects.py:315 | the integer-division bound is always an integer that `randint` accepts, and it is the integer part of the true quotient plus 2 |
| Effects.PyRangeUp | bin/effects.py:97 | `range(start, stop, step)` with a positive step lists `start + k*step`, strictly increasing and inside [start, stop); it is non-empty iff start < stop; one more step would reach `stop` |
| Effects.PyRangeDown | bin/effects.py:107 | with a negative step the range lists `start + k*step`, strictly decreasing and inside (stop, start]; it is non-empty iff stop < start |
| Effects.RoundHalfEvenNearest | bin/effects.py:97 | `round(n/d)` is within one half of `n/d`, and on a tie it is even |
| Effects.RoundHalfEvenNegate | bin/effects.py:107 | `round(-x) == -round(x)` |
| Effects.FadeStepsOpposite | bin/effects.py:95-113 | the fade-out step is exactly the negation of the fade-in step, for every nonzero `steps` |
| Effects.FadeStepExamples | bin/effects.py:95-113 | 128 steps move the levels by 2 (fade-out by -2), 50 steps move fade-out by -5, and 510 steps round to a zero step |
| Effects.FadeStepPositive | bin/effects.py:95-113 | for positive `steps` the fade-in step is non-negative and the fade-out step is its negation |
| Effects.AscendingLevels | bin/effects.py:97 | `range(0, 256, s)` is `0, s, 2s, ...`, increasing, in [0, 255], and stops before passing 255 |
| Effects.DescendingLevels | bin/effects.py:107 | `range(255, -1, -s)` is `255, 255-s, ...`, decreasing, in [0, 255], and stops before dropping below 0 |
| Effects.FadeInLevelsShape | bin/effects.py:97 | for positive `steps`, the fade-in levels start at 0, strictly increase by the step, and stay in [0, 255] |
| Effects.FadeOutLevelsShape | bin/effects.py:107 | for positive `steps`, the fade-out levels start at 255, strictly decrease by the step, and stay in [0, 255] |
| Effects.LevelBounded | bin/effects.py:98-100 | a faded channel lies between 0 and the full channel, and equals the full channel at level 255 |
| Effects.ShowLevels | bin/effects.py:97-102 | one frame is rendered per level, each showing the targeted pixels at that level's colour; the buffer ends at the last level's colour |
| Effects.LastLevelIsLastFrame | bin/effects.py:97-102 | after a fade with at least one level, the buffer equals the last frame rendered |
| Effects.FadeIn | bin/effects.py:95-103 | it fails iff the step computation raises, and then nothing is written. That is ZeroDivisionError at `255.0/steps` for zero `steps`, or ValueError from `range` when the step rounds to 0. Otherwise it renders the frames for `range(0, 256, step)`, and the buffer ends at the last level's colour on the targets, with its length kept |
| Effects.FadeOut | bin/effects.py:105-113 | the same as FadeIn, over `range(255, -1, step)` |
| Effects.LevelFramesCompose | bin/effects.py:118-120 | the frames of one fade followed by a second fade, run over the buffer the first one left, are the frames of both level sequences back to back over the original buffer |
| Effects.FadeInOut | bin/effects.py:115-121 | one pass of the loop runs both fades exactly when the fade-in's step computation does not raise; it renders the fade-in frames, then the fade-out frames over the buffer the fade-in left; the buffer ends at the fade-out's last level on the targets and keeps its length |
| Effects.EyePixels | bin/effects.py:131-134 | the list alternates left-eye pixel `eyeOne + x` and right-eye pixel `eyeTwo + x`, and has `2*eyeWidth` entries |
| Effects.EyeLayoutOnStrip | bin/effects.py:128-134 | for a left eye drawn from the `randint` range, all eye pixels are distinct and on the strip, and each right-eye pixel is `eyeWidth + eyeSpace` to the right of its left partner |
| Effects.HalloweenEyesStep | bin/effects.py:127-143 | lights both eyes and renders once, then renders the fade-out frames when fading; `all_off` then renders one blank frame, and afterwards the buffer and mask are all zero; a failing fade-out range leaves the lit eyes as rendered |
| Effects.EyeWindow | bin/effects.py:156-158 | the list is `curLed+1 .. curLed+eyeSize` |
| Effects.DrawEye | bin/effects.py:146-161 | the rendered frame has full colour on `curLed+1 .. curLed+eyeSize`, a tenth of each channel on `curLed` and `curLed+eyeSize+1`, and black everywhere else |
| Effects.CylonPositionsShape | bin/effects.py:168-175 | the sweep visits `0 .. N-eyeSize-2` and back, both legs have the same length, and at every position the whole eye, halo included, fits on the strip |
| Effects.SweepEye | bin/effects.py:168-171 | each position renders exactly one eye frame, in order, and the buffer ends at the last position's frame |
| Effects.Cylon | bin/effects.py:165-178 | one cycle clears the mask and renders one blank frame, then renders exactly the eye frames of the forward sweep and then of the backward sweep; the buffer ends at the last position's frame (blank when there are no positions) and keeps its length |
| Effects.DecayBounded | bin/effects.py:419-421 | decay never brightens a channel and never makes it negative |
| Effects.MeteorPixelsShape | bin/effects.py:417-431 | after a step, every on-strip head pixel `max(0, i-mSize+1) .. min(N-1, i)` holds the meteor colour; every other pixel is unchanged or decayed per channel to between 0 and its old value |
| Effects.DecayTrail | bin/effects.py:417-422 | with every draw in [0, 10], exactly the pixels whose draw exceeds 5, when decay is on, are decayed and written to the strip |
| Effects.DrawMeteor | bin/effects.py:425-431 | exactly the head pixels that lie on the strip take the meteor colour |
| Effects.MeteorStep | bin/effects.py:416-433 | the trail buffer and the strip equal the specified step (decay, then head on top), and the strip is rendered once |

## Left out

- Threads and timing are not modelled. This covers `threading`, the `done`
  event, `is_main_thread_active`, `exitIfDone`, `time.sleep` and the delay
  parameters. Starting and stopping an effect is the ghost flag
  `effectRunning`, and stopping is taken to wait for the effect to finish.
- Each effect's `while True` loop is modelled as one iteration (one
  `halloweenEyes` pass, one `cylon` cycle, one `fire` iteration, one
  `meteorRain` frame). `EffectLoop.loop`, the dispatcher that maps the
  effect name to a call, is not modelled.
- These effects are outside the modelled core: `twinkle`, `snow`, `colorWipe`,
  `wipe`, `rainbowCycle`, `marquee`, `marqueeRainbow`, `running` and
  `bouncing` (floating-point physics).
- JSON decoding, MQTT, the configuration file and `main` are not modelled.
  A command is a `Command` value whose absent keys are None, with `led`,
  `brightness` and the colour channels already integers. `int()` of a JSON
  string or float is not modelled. Sending the report is the `Status` value
  that `OnMessage` returns.
- The APA102 driver is not part of this model. Its `set_pixel_rgb` is taken
  to ignore pixels outside [0, N). Its `clear_strip` is taken to blank the
  buffer and render it once, as the APA102_Pi library linked from the
  header of `bin/effects.py` does. The per-pixel brightness argument and the global
  brightness are not recorded in the buffer.
- A negative `led` index marks its mask entry through Python's wrap-around.
  The pixel write itself is dropped by the driver, and the model keeps this
  behaviour.
- Effects.Level: `x/255.0 * c` is computed in floating point before `int()`
  truncates it. The model uses the exact integer floor `x*c/255`, which can
  differ when rounding error lands just below an integer.
- Effects.Decay: `int(trailDecay/255.0 * v)` is modelled the same way, as
  `trailDecay*v/255`, with the same floating-point caveat.
- Fire.Diffused: line 323 of `bin/effects.py` uses `/`, which in Python 3
  gives a float heat. The model uses floor division.
- Fire.CoolBound: the model uses integer division. The finding below shows
  what the true division as written does.
- The meteor decay draw `randint(0, 10) > 5` holds for 6..10, so it fires
  with probability 5/11.
  The model follows the code; randomness itself is modelled only as the
  parameters `coins`.
- Effects.HalloweenEyesStep: its precondition is the range of the `randint`
  call that chooses the left eye. A strip too short for that range makes
  `randint` raise, and that case is not modelled.

## Findings

| source | as written | input that shows it | evidently intended | confidence | as-written member | corrected member |
|---|---|---|---|---|---|---|
| bin/effects.py:315 | `randint(0, ((cooling * 10) / NUM_LEDS) + 2)` uses Python 3 true division, so the bound is a float | `cooling = 150` (the value `EffectLoop.loop` passes at bin/effects.py:79) on 8 LEDs gives 189.5, which `randint` rejects (ValueError, or TypeError on newer Python versions), so `fire` fails on its first cooling draw | integer division `//`, as in the Arduino sketch the module header credits: bound `cooling*10 // N + 2` | not executed | Fire.CoolBoundAsWrittenRejected | Fire.CoolBoundAccepted |
