# Colour picker model

A Dafny model of the logic in `app/page.tsx` of a single-page colour picker.
The page has three RGB sliders, eight preset solid colours, four preset
gradients, a Randomize button and a Reset button. It paints its background and
chooses black or white text. The model has four parts:

- `Hex`: `rgbToHex`, built on `Number.prototype.toString(16)` and zero-padding
  one-digit channels. Also its inverse, the decoder inlined in
  `applyPresetColor`. That decoder removes the `#` with `String.replace`,
  cuts the string into pairs with `substr`, and reads each pair with
  `parseInt(_, 16)`, so it accepts upper-case digits.
- `Luma`: `calculatorBrightness` (ITU-R BT.601 weights
  `(299r + 587g + 114b) / 1000`) and the text rule of the reconcile effect.
  The rule is black text when the brightness is above 128, otherwise white.
- `Catalog`: the eight presets, the four gradients and the sentinel string
  `グラデーション` that `applyGradient` stores as background.
- `ColorEngine`: the component state `{red, green, blue, backgroundColor,
  textColor, isGradient, currentGradient}` and a pure `Step(state, event)`.
  The events are Slider, Randomize, Reset, ApplyPreset and ApplyGradient.
  A step first applies the handler's updates (`Handle`). The `useEffect` body
  (`Effect`) then runs only if red, green, blue or isGradient differ from
  before the event, which is the effect's dependency list. `Mount` runs the
  effect once on the `useState` initial values. `Run` folds a sequence of
  events.
- `EngineProperties`: lemmas about single steps, pairs of steps and runs of
  any length.

The dependency gating is modelled literally, and some of its consequences
are easy to miss:

- Applying a preset is not idempotent in general. The Green preset `#10B981`
  on the freshly mounted page changes the channels. The effect then writes
  `#10b981` with black text, because `299·16 + 587·185 + 114·129 = 128085`
  is above `128000`. A second click changes no dependency, so the catalog's
  `#10B981` and `#FFFFFF` stay (`GreenPresetTwice`).
  `PresetIdempotentIff` gives the exact condition.
- Reset re-derives the background only if a dependency changed. After a
  second click on Blue, Reset keeps the catalog's upper-case `#3B82F6`
  (`ResetStep`). After a single click from another colour the effect has
  already written `#3b82f6`, and Reset keeps that.
- The initial background literal `#3b82f6` is the colour of Reset's channels
  (59, 130, 246), not of the initial ones (50, 139, 246). The effect on mount
  replaces it with `#328bf6` (`MountState`). The brightness of the initial
  channels is 124.587, so the text is white.
- Sliders and Randomize do not leave gradient mode. There the channels move
  while the background, text colour and gradient stay as they are
  (`SliderStep`, `RandomizeStep`). The comment above the effect's early
  return (app/page.tsx:70) says that moving a slider disables the gradient,
  but the code at line 71 only returns early in gradient mode and never
  clears `isGradient`; the model follows the code.

The brightness is an exact rational (`real`). JavaScript divides an integer
of at most 255000 by 1000 in binary floating point. The result is exactly
128 only for 128000, and for 128001 it is far more than one rounding step
above 128. So comparing the float with 128 decides the same way as
`299r + 587g + 114b > 128000`, which is what `TextColorFor` states.

## Model

| member | source | states |
|---|---|---|
| Hex.HexDigit | app/page.tsx:8 | the digit written for a value below 16 is a lower-case hex digit that reads back as that value |
| Hex.DigitValue | app/page.tsx:116-118 | a hex digit of either case is worth between 0 and 15 |
| Hex.HexDigitOfValue | app/page.tsx:116-118 | reading a digit and writing its value again lower-cases the digit |
| Hex.ToHexString | app/page.tsx:8 | `n.toString(16)` is non-empty, all lower-case hex digits, has no leading zero except for 0, is one digit exactly below 16 and at most two below 256 |
| Hex.ParseHex | app/page.tsx:116-118 | `parseInt(s, 16)` of k hex digits is below 16^k |
| Hex.ParsePair | app/page.tsx:116-118 | a two-digit string parses to 16 times its first digit plus its second |
| Hex.ParseToHexString | app/page.tsx:8 | `parseInt(n.toString(16), 16) == n` for every natural n |
| Hex.ByteHex | app/page.tsx:7-10 | each channel in [0,255] becomes two lower-case hex digits that parse back to it, with a leading `0` exactly for 0..15 |
| Hex.RgbToHex | app/page.tsx:6-11 | `rgbToHex` gives 7 characters, `#` then six lower-case hex digits, with a leading `0` in a pair exactly when that channel is below 16 |
| Hex.RemoveFirst | app/page.tsx:115 | `replace('#', '')` removes one `#` if present and leaves the string alone otherwise; a leading `#` is the one removed |
| Hex.Substr | app/page.tsx:116-118 | `substr(start, len)` inside the string is the slice of `len` characters at `start` |
| Hex.DecodeHex | app/page.tsx:115-118 | the inline decoder gives channels in [0,255], each 16 times its first digit plus its second, in either case |
| Hex.DecodeRgbToHex | app/page.tsx:6-11 | decoding `rgbToHex(r, g, b)` gives back exactly (r, g, b) |
| Hex.ByteHexOfPair | app/page.tsx:115-118 | re-encoding the channel read from a digit pair gives the pair lower-cased |
| Hex.RgbToHexOfDecode | app/page.tsx:115-118 | `rgbToHex` of a decoded colour string is that string lower-cased |
| Hex.CanonicalHexIff | app/page.tsx:115-118 | a colour string is what `rgbToHex` writes for its decoded channels exactly when it has no upper-case digit |
| Hex.UpperCaseColour | app/page.tsx:115-118 | a colour string with an upper-case digit is not what `rgbToHex` writes, only its lower-case form |
| Luma.Brightness | app/page.tsx:14-16 | the brightness is the weighted sum divided by 1000 and lies in [0,255] for channels in range |
| Luma.BrightnessMonotone | app/page.tsx:14-16 | brightness does not decrease when any channel grows |
| Luma.TextColorFor | app/page.tsx:78-79 | the text is `#000000` exactly when `299r + 587g + 114b > 128000`, otherwise `#FFFFFF` |
| Luma.TextColorMonotone | app/page.tsx:78-79 | once a colour gets black text, every brighter colour does too |
| Catalog.PresetsDecode | app/page.tsx:48-57 | every preset background decodes to channels in range whose `rgbToHex` is the background lower-cased and never the background itself |
| Catalog.PresetDecodesTo | app/page.tsx:48-57 | the inline decoder reads the eight preset backgrounds as (59,130,246), (16,185,129), (239,68,68), (139,92,246), (236,72,153), (245,158,11), (99,102,241) and (20,184,166) |
| Catalog.PresetTextAgreement | app/page.tsx:48-57 | the catalog text agrees with the brightness rule for Blue, Red, Purple, Yellow and Indigo only |
| ColorEngine.Effect | app/page.tsx:68-80 | the effect leaves gradient mode untouched; in solid mode it writes a lower-case background that decodes to the channels (so, by `CanonicalHexIff`, exactly `rgbToHex` of them), black text exactly above the threshold and white text exactly at or below it, and changes nothing else |
| ColorEngine.DepsChanged | app/page.tsx:81 | the effect watches exactly the three channels and the mode: it is not triggered when only background, text colour or gradient differ, and a triggered change is a real change of state |
| ColorEngine.Handle | app/page.tsx:84-212 | the handlers (Randomize, Reset, preset, gradient and the three slider `onChange`s at lines 180, 196, 212) keep the channels in [0,255] |
| ColorEngine.Step | app/page.tsx:81 | a step keeps the channels in [0,255] |
| ColorEngine.Mount | app/page.tsx:33-81 | the first render runs the effect on the initial values: solid mode, no gradient, channels (50, 139, 246), a background that decodes to them and white text |
| ColorEngine.Run | app/page.tsx:81 | any run of events keeps the channels in [0,255] |
| EngineProperties.HexLiteral | app/page.tsx:6-11 | a lower-case colour string is `rgbToHex` of the channels it decodes to |
| EngineProperties.ResetHex | app/page.tsx:100-102 | Reset's channels encode to `#3b82f6` |
| EngineProperties.InitialChannelsHex | app/page.tsx:35-39 | the initial channels encode to `#328bf6` |
| EngineProperties.GreenHex | app/page.tsx:50 | the Green preset's channels encode to `#10b981` |
| EngineProperties.EffectGating | app/page.tsx:68-81 | after a handler, the effect rewrites background and text from the channels exactly when a dependency changed and the page is in solid mode; otherwise the handler's values stay; channels and mode are always the handler's |
| EngineProperties.SliderStep | app/page.tsx:175-214 | a slider sets only its channel; in gradient mode, or with an unchanged value, background, text and gradient stay; otherwise they follow the new channels |
| EngineProperties.RandomizeStep | app/page.tsx:84-92 | Randomize sets the three channels and not the mode; in gradient mode background and text stay |
| EngineProperties.ResetStep | app/page.tsx:95-103 | Reset always gives (59, 130, 246) in solid mode with no gradient; background `#3b82f6` with white text unless no dependency changed, in which case the previous background and text stay |
| EngineProperties.ResetIdempotent | app/page.tsx:95-103 | two Resets give the same state as one |
| EngineProperties.PresetStep | app/page.tsx:106-123 | a preset always gives solid mode, no gradient and the decoded channels; if a dependency changed, the lower-cased background and the threshold text; otherwise the catalog's background and text verbatim |
| EngineProperties.PresetSecondApplication | app/page.tsx:106-123 | a second click on a preset restores its catalog background and text, and further clicks change nothing |
| EngineProperties.PresetIdempotentIff | app/page.tsx:106-123 | a preset twice equals once exactly when the first click changed no dependency, or the preset is lower case with threshold-agreeing text |
| EngineProperties.CatalogPresetIdempotentIff | app/page.tsx:48-57 | for the catalog, twice equals once exactly when the page already showed that preset's channels in solid mode |
| EngineProperties.GreenPresetTwice | app/page.tsx:50 | from the mounted page the Green preset gives `#10b981` with black text, and a second click gives `#10B981` with white text |
| EngineProperties.GradientStep | app/page.tsx:125-136 | a gradient always gives channels 0, the sentinel background, white text, gradient mode and the preset's gradient, whatever the state; applying it twice equals once |
| EngineProperties.MountState | app/page.tsx:33-45 | the mounted page shows (50, 139, 246) as `#328bf6` with white text, and the initial literal `#3b82f6` is Reset's colour instead |
| EngineProperties.ConsistentPreserved | app/page.tsx:68-81 | every event except a preset click that changes no dependency keeps the background equal to `rgbToHex` of the channels and the text on the threshold in solid mode |
| EngineProperties.PresetBreaksConsistency | app/page.tsx:106-123 | the mounted page is consistent, and the second Green click breaks consistency |
| EngineProperties.CatalogTextBlackOrWhite | app/page.tsx:48-57 | every catalog text colour is `#000000` or `#FFFFFF` |
| EngineProperties.EffectCoherent | app/page.tsx:68-80 | the effect in solid mode leaves a coherent state |
| EngineProperties.EffectConsistent | app/page.tsx:68-80 | the effect in solid mode leaves a consistent state |
| EngineProperties.PresetCoherent | app/page.tsx:106-123 | a catalog preset keeps the state coherent |
| EngineProperties.GradientCoherent | app/page.tsx:125-136 | a catalog gradient keeps the state coherent |
| EngineProperties.ResetCoherent | app/page.tsx:95-103 | Reset keeps the state coherent |
| EngineProperties.GradientChannelsCoherent | app/page.tsx:71 | in gradient mode, moving the channels with background, text and gradient unchanged keeps the state coherent |
| EngineProperties.ChannelMoveCoherent | app/page.tsx:68-92 | changing only the channels and then running the gated effect keeps the state coherent |
| EngineProperties.ChannelsCoherent | app/page.tsx:84-92 | sliders and Randomize keep the state coherent |
| EngineProperties.StepPreservesCoherent | app/page.tsx:68-136 | every catalog event keeps the state coherent: in solid mode no gradient and a background decoding to the channels; in gradient mode the sentinel, white text and a catalog gradient; text always black or white |
| EngineProperties.KeepsShownColour | app/page.tsx:68-81 | a solid page that keeps its channels, background and text stays consistent or keeps showing the same catalog preset |
| EngineProperties.PresetShown | app/page.tsx:106-123 | after a catalog preset the page is consistent (effect ran) or shows that preset's background and text verbatim (effect skipped) |
| EngineProperties.ResetShown | app/page.tsx:95-103 | Reset leaves a solid page consistent or showing a catalog preset verbatim |
| EngineProperties.ChannelsShown | app/page.tsx:84-92 | sliders and Randomize leave a solid page consistent or showing a catalog preset verbatim |
| EngineProperties.StepPreservesSolidShown | app/page.tsx:68-136 | every catalog event keeps a solid page either consistent or showing a catalog preset's background and text verbatim |
| EngineProperties.MountCoherent | app/page.tsx:33-45 | the mounted page is coherent, and in solid mode consistent or showing a preset verbatim |
| EngineProperties.RunPreservesCoherent | app/page.tsx:68-136 | any run of catalog events keeps the state coherent |
| EngineProperties.RunPreservesSolidShown | app/page.tsx:68-136 | any run of catalog events keeps a solid page consistent or showing a catalog preset verbatim |
| EngineProperties.CoherentShows | app/page.tsx:68-81 | in a coherent solid state, `rgbToHex` of the channels is the background lower-cased; in gradient mode the page shows the sentinel and white text |
| EngineProperties.Reachable | app/page.tsx:33-136 | on every page reached from the first render by catalog events, the solid background equals `rgbToHex` of the sliders up to letter case, and it either equals it exactly with threshold text or is a catalog preset's background and text as listed; text is black or white, and gradient mode shows white text |

## Left out

- Rendering: the JSX, the Tailwind classes and the `lucide-react` icon (app/page.tsx:138-276) are presentation only.
- `Math.random`: Randomize carries three arbitrary channel values in [0, 255], the range that `Math.floor(Math.random() * 256)` covers.
- `Number(e.target.value)`: slider events carry integers in [0, 255], the range set by the inputs' `min` and `max`.
- React scheduling: the model only has "the handler's batched updates, then the effect if a dependency changed". Each event is processed to completion before the next.
- Floating point: the brightness is an exact rational. This is equivalent for the threshold decision, as explained above.
- Gradient CSS strings and Japanese display names are opaque strings.
- `rgbToHex` outside [0, 255] and `parseInt` on malformed strings: the code does not guard either, so both are preconditions. They are `IsChannel` and `WellFormedHex`.
- Hex.ParseHex: the empty string gives 0 rather than `NaN`; the decoder only ever passes two-digit strings.
- Hex.RemoveFirst: states the result's length and the leading-`#` case, not the full position of the removed character; colour strings only have a leading `#`.
