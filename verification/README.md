# lumen: string hash and colour conversions in Dafny

`lumen` is a small terminal tool. It turns a string into a colour and renders
gradients between colours. This project models the computational core of
`src/lumen.c` and proves properties of it. The core has two parts.

- **String-to-colour hash** (`reverse`, `hash`). The hash is a djb2-inspired
  fold over the bytes of a NUL-terminated string, with three `uint8_t`
  accumulators seeded with 251, 241 and 239. Each byte is first bit-reversed.
  Then red mixes the old green, green mixes the old blue, and blue mixes the
  red just computed. Each mix is `((x << 5) + x) ^ c`. The colour is each
  accumulator divided by 255. The accumulators are modelled exactly:
  - bytes are `bv8`, so arithmetic wraps modulo 256 as the C narrowing does;
  - the string is a `seq<bv8>`, and the walk stops at the first zero byte.

  The final division by 255 is over the reals; the source rounds it to a
  `double`.
- **RGB/HSV conversions** (`rgb2hsv`, `hsv2rgb`). These are modelled over
  Dafny's `real`, as an abstraction of `double`. The model keeps:
  - the achromatic cut-off 0.00001;
  - the branch for a maximum that is not positive, whose NaN hue is modelled
    as `Hue.Undefined`;
  - the red, then green, then blue tie-break;
  - the negative-hue wrap (adding 360 once);
  - the single-comparison fold of a hue of 360 or more to 0;
  - the C cast `(long)hh`, as truncation toward zero;
  - the six-row sector table with its `default` row.

Modules:

| file | module | contents |
|---|---|---|
| `colour.dfy` | `Colour` | the `rgb` and `hsv` structs, the channel maximum and minimum |
| `bit_reverse.dfy` | `BitReverse` | `reverse` and its bit-level characterisation |
| `string_hash.dfy` | `StringHash` | the step, the fold, the NUL-terminated walk, `hash` and its loop |
| `colour_space.dfy` | `ColourSpace` | `rgb2hsv`, `hsv2rgb`, the sector table and their properties |
| `colour_round_trip.dfy` | `ColourRoundTrip` | the two conversions as mutual inverses over the reals |

## Model

| member | source | states |
|---|---|---|
| BitReverse.Reverse | src/lumen.c:133-138 | the three masked swaps; no contract of its own, characterised by `ReverseReversesBits` and `ReverseInvolution` |
| BitReverse.ReverseReversesBits | src/lumen.c:133-138 | bit k of `reverse(b)` is bit 7-k of b, for every byte and every k in 0..7 |
| BitReverse.ReverseInvolution | src/lumen.c:133-138 | reversing a byte twice gives the byte back |
| BitReverse.ReverseInjective | src/lumen.c:133-138 | distinct bytes reverse to distinct bytes |
| BitReverse.ReverseExamples | src/lumen.c:133-138 | `reverse(1) == 128`, `reverse(0x0F) == 0xF0`, `reverse('a') == 0x86`; 0 and 0xFF are fixed |
| StringHash.Times33Mod256 | src/lumen.c:149-151 | the wrapping 8-bit product by 33 is the integer product reduced modulo 256 |
| StringHash.MixIsTimes33 | src/lumen.c:149-151 | `(x << 5) + x` in 8 bits multiplies by 33 modulo 256 before the XOR |
| StringHash.MixIsNarrowedIntArithmetic | src/lumen.c:149-151 | evaluating a mix at C's promoted 32-bit width and keeping the low byte gives the same byte |
| StringHash.Mix | src/lumen.c:149-151 | one assignment `((x << 5) + x) ^ c` in 8 bits; no contract of its own, characterised by `MixIsTimes33` and `MixIsNarrowedIntArithmetic` |
| StringHash.Step | src/lumen.c:148-151 | one iteration: with c' = reverse(c), r := 33·g ^ c', g := 33·b ^ c', b := 33·r_new ^ c' modulo 256, where b uses the new r |
| StringHash.BlueUsesNewRed | src/lumen.c:149-151 | on the seeds and byte 'a', blue computed from the new red differs from blue computed from the old red |
| StringHash.UntilNul | src/lumen.c:147 | the bytes the loop visits form a prefix without zeros, ended by a zero byte or the end of the string |
| StringHash.UntilNulUnique | src/lumen.c:147 | any prefix that has no zero and is followed by a zero byte or the end is the visited prefix |
| StringHash.Fold | src/lumen.c:147-152 | the loop as a left fold of `Step`; no contract of its own, characterised by `FoldSnoc` and `FoldAppend`, and equal to the loop by `HashLoop` |
| StringHash.HashState | src/lumen.c:143-152 | the fold from the seeds over the visited bytes; no contract of its own, characterised by `HashStateSnoc`, `HashStateIgnoresTail` and `HashEmpty` |
| StringHash.FoldSnoc | src/lumen.c:147-152 | folding over one more byte applies one more step, so the fold runs left to right |
| StringHash.FoldAppend | src/lumen.c:147-152 | folding over a concatenation folds the first part, then the second |
| StringHash.HashStateSnoc | src/lumen.c:147-152 | for a string without zeros, appending a nonzero byte c gives `state(s + [c]) == step(state(s), c)` |
| StringHash.HashStateIgnoresTail | src/lumen.c:147 | bytes after the first zero byte do not affect the accumulators |
| StringHash.HashEmpty | src/lumen.c:143-147 | the empty string, or one starting with NUL, leaves the seeds (251, 241, 239); the colour is (251/255, 241/255, 239/255) |
| StringHash.OrderMatters | src/lumen.c:147-152 | "ab" and "ba" give different accumulators |
| StringHash.Hash | src/lumen.c:154-158 | every channel lies in [0, 1], and channel·255 is the accumulator |
| StringHash.HashLoop | src/lumen.c:140-161 | the in-place loop with three mutable accumulators computes exactly the fold over the bytes before the first NUL |
| Colour.MaxChannel | src/lumen.c:30-31 | the two conditional expressions pick a channel that bounds all three from above |
| Colour.MinChannel | src/lumen.c:27-28 | the two conditional expressions pick a channel that bounds all three from below |
| ColourSpace.NearlyGreyIsSmallSpread | src/lumen.c:34-35 | the cut-off `max - min < 0.00001` holds exactly when every pair of channels differs by less than 0.00001 |
| ColourSpace.DominantChannel | src/lumen.c:49-54 | the chosen channel holds the maximum; green is chosen only when red is below it, and blue only when red and green are |
| ColourSpace.WrapNegative | src/lumen.c:58-59 | a degree value in [-360, 360) lands in [0, 360), and it is changed by at most one addition of 360 |
| ColourSpace.HueSixths | src/lumen.c:49-54 | the three hue formulas in sixths; no contract of its own, characterised by `HueSixthsBounds`, `TiedFormulaValues` and `TieBreakImmaterial` |
| ColourSpace.HueSixthsBounds | src/lumen.c:49-54 | the formula of any channel at the maximum lies in [-1, 5] sixths |
| ColourSpace.RgbToHsv | src/lumen.c:23-62 | v is a channel and the maximum; a near-grey input gives s = 0 and h = 0 and nothing else does; the hue is undefined exactly when the input is not grey and max ≤ 0, and then s = 0; non-negative channels never give an undefined hue; a defined hue lies in [0, 360); for a chromatic input s·v = max - min and s > 0; with non-negative channels s ≤ 1 |
| ColourSpace.ChromaticHsv | src/lumen.c:33-59 | for a non-grey colour with a positive maximum: v = max, s = (max - min)/max, and h is the dominant channel's formula in degrees, wrapped once |
| ColourSpace.TiedFormulaValues | src/lumen.c:49-54 | where two channels tie at the maximum, both formulas give the sector boundary between them (1 and 1, 3 and 3, 5 and -1 sixths) |
| ColourSpace.TiedFormulasAgree | src/lumen.c:49-59 | any two channels at the maximum give the same hue after the wrap |
| ColourSpace.TieBreakImmaterial | src/lumen.c:49-59 | the hue equals the formula of any channel at the maximum, so the red-green-blue test order only breaks ties that do not matter |
| ColourSpace.Trunc | src/lumen.c:79 | the cast rounds toward zero: down for non-negative values, up for negative ones |
| ColourSpace.FoldHue | src/lumen.c:75-77 | a hue below 360 is kept, and a non-negative hue ends up in [0, 360) |
| ColourSpace.HsvToRgb | src/lumen.c:64-120 | s ≤ 0 gives (v, v, v) whatever the hue; for s in (0, 1], v ≥ 0 and a non-negative hue, the largest channel is v and the smallest is v(1 - s) |
| ColourSpace.SectorColour | src/lumen.c:85-118 | the `switch` on the sector, `default` sharing row 5; no contract of its own, characterised by `SectorColourExtremes`, `SectorOrder` and `SectorChannels` |
| ColourSpace.SectorColourExtremes | src/lumen.c:85-118 | for p ≤ q ≤ v and p ≤ t ≤ v, every table row, the default included, has maximum v and minimum p |
| ColourSpace.SectorBounds | src/lumen.c:81-83 | for v ≥ 0, s in (0, 1] and ff in [0, 1), p ≤ q ≤ v, p ≤ t ≤ v and p ≥ 0 |
| ColourSpace.SectorChannels | src/lumen.c:75-118 | for a hue in [0, 360): the sector is the whole number of sixths (0..5), ff is the fraction left over, and the output is that sector's row with p = v - vs, q = v - vs·ff, t = v - vs + vs·ff |
| ColourSpace.SectorOrder | src/lumen.c:85-118 | each of the six rows orders the channels: r≥g≥b, g≥r≥b, g≥b≥r, b≥g≥r, b≥r≥g, r≥b≥g |
| ColourSpace.HueBandOrder | src/lumen.c:75-118 | in each 60-degree band of hue, the output channels come in that band's fixed order |
| ColourSpace.HueAtOrAbove360IsRed | src/lumen.c:75-77 | with positive saturation, a hue of 360 or more renders as hue 0: (v, p, p) |
| ColourSpace.HueIsNotReducedModulo360 | src/lumen.c:75-77 | 370 degrees does not render like 10 degrees |
| ColourRoundTrip.TableToHsv | src/lumen.c:23-62 | reading back a table row of sector k, fraction ff, value v and spread d ≥ 0.00001 gives hue 60(k + ff), saturation d/v and value v |
| ColourRoundTrip.HsvRoundTrip | src/lumen.c:23-120 | for a hue in [0, 360), s > 0 and v·s ≥ 0.00001, converting to RGB and back returns the same h, s and v |
| ColourRoundTrip.DominantRow | src/lumen.c:49-118 | the table row picked by the dominant channel's hue, with the colour's max and spread, is the colour itself |
| ColourRoundTrip.RgbRoundTrip | src/lumen.c:23-120 | for a colour that is not near-grey and has a positive maximum, converting to HSV and back returns the same colour |

The round-trip lemmas are facts about the real-number model only. Nothing is
claimed about the `double` computation, whose branch at the grey cut-off can
differ: a spread just above 0.00001 over the reals can round to just below it.

## Left out

- `main`'s option parsing (`getopt_long`) and `uint8str`: these are process glue around libc `strtol`, `errno` and `exit`.
- The gradient and render loop in `main`: it is floating-point `fmod`, double-to-int truncation and terminal output.
- `print_rgb`, `print_hsv` and `print_help`: they only produce output, or are empty.
- IEEE-754 behaviour: rounding, NaN propagation and infinities. Doubles are modelled as reals, and the NaN hue as `Hue.Undefined`.
- ColourSpace.HsvToRgb: requires a defined hue when s > 0. With a NaN hue the source casts NaN to `long`, which C leaves undefined.
- ColourSpace.Trunc: the overflow of `(long)hh` for huge hues is not modelled; the cast is truncation toward zero on unbounded integers.
- StringHash.UntilNul: a sequence with no zero byte is treated as terminated at its end. A C string always carries its terminator.
