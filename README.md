# Better Cursor Finder: a Dafny model of its core logic

`cursor_ring.cpp` is a Win32 tray program that helps the user find the mouse
cursor. Tap Ctrl on its own and a ring is drawn at the cursor. The ring
shrinks from 88 pixels along a quintic ease-out and fades in, then out. It
stops early if the cursor moves or another key goes down. A settings window
lets the user pick the ring and outline colours in a small HSV dialog. That
dialog has a saturation/value square, a hue bar and a six-digit hex box.

This project models the logic underneath the drawing and window code. The
logic is in four parts, which run in one polling loop.

* **The Ctrl-tap detector** (`gesture.dfy`, `keys.dfy`).
  * `g_ctrlWas`, `g_comboDetected` and the 256-entry `g_preExisting` table
    are the fields of the `CtrlTapDetector` class.
  * Its `Tick` method clears and fills the table with a `forall` statement
    and a loop, and runs the combo scan loop.
  * `Tick` is proved to agree with the pure transition `Gesture.Step`.
* **The animation controller** (`animation.dfy`).
  * `StartAnimation`, `CancelAnimation`, `CheckCancel` (with the scan loop
    `AnyNewKeyPressed`), `GetDuration` and `EaseOutQuint` are modelled.
  * So are the progress computation and the radius, end and opacity logic
    of `RenderFrame`.
  * They appear both as functions on an `Anim` record and as methods of the
    `Animator` class, each proved to agree with its function.
* **One pass of the main loop** (`main_loop.dfy`): the gesture, then
  `CheckCancel`, then the frame, as `LoopStep` and `App.Tick`.
* **The colour picker** (`color_picker.dfy`, `settings.dfy`).
  * The session state `g_cp` becomes the `Picker` record and the
    `PickerWindow` class.
  * `OpenColorPicker`, `CP_UpdateHexEdit`, `CP_UpdateSV` and `CP_UpdateHue`
    are modelled, with every state-changing message of `ColorPickerProc`.
  * The settings record `AppSettings` is a value.
  * The colour being edited is a selector (`Ring` or `Outline`) into it.
  * `SaveSettings` appends the settings it writes to a ghost log.
* **Hex text and the colour model** (`hex_text.dfy`, `color_model.dfy`,
  `numeric.dfy`).
  * `sprintf("%02X%02X%02X")` is modelled.
  * So is the parse path: six characters, then base-16 `strtoul`, then
    three bytes.
  * It follows section 7.22.1.4 of ISO C: leading white space, an optional
    sign, an optional `0x` prefix, the longest run of hex digits, and
    clamping to `ULONG_MAX` (32 bits on Windows).
  * `Clamp01`, `HSVtoRGB` and `RGBtoHSV` are modelled over exact reals.
    Truncating casts, `fmodf` and the byte narrowing of the `RGB` macro are
    written out explicitly.

Environment reads are inputs to the model.
* The keyboard is a set of virtual-key codes that are down.
* The cursor position is a point.
* `GetTickCount` is a 32-bit tick value.
* The drawing is the sequence of operations on the overlay window
  (`Show`, `Clear`, `Draw(at, radius, alpha)`).

Three behaviours of the code are worth stating outright:

* **Restart in place.** `StartAnimation` has no guard. A tap during a running
  animation restarts it at the current cursor without clearing first
  (`MainLoop.TapRestarts`).
* **Cancel keys.** `AnyNewKeyPressed` compares against `g_preExisting`, the
  keys held at the last Ctrl press. One consequence: a key pressed on the
  very tick that releases Ctrl lets the animation start, and the same tick
  cancels it (`MainLoop.ReleaseWithNewKey`).
* **Hue range.** `CP_UpdateHue` clamps to [0,1] and multiplies by 360, so the
  right end of the hue bar gives exactly 360 (`ColorPicker.HueFromX`).

## Model

| member | source | states |
|---|---|---|
| Numeric.Clamp01 | cursor_ring.cpp:89 | result in [0,1]; unchanged inside [0,1]; 0 at or below 0, 1 at or above 1 |
| Numeric.Clamp01Monotone | cursor_ring.cpp:89 | clamping preserves order |
| Numeric.Trunc | cursor_ring.cpp:95 | the `(int)` cast truncates toward zero: floor for non-negative, ceiling for negative |
| Numeric.ToByte | cursor_ring.cpp:103 | the BYTE narrowing of `RGB`: identity on 0..255, congruent modulo 256 |
| Numeric.Channel | cursor_ring.cpp:103 | `(int)(x*255+.5)`; range, order and inverse of k/255 in `ChannelInRange`, `ChannelMonotone` and `ChannelOfByte` |
| Numeric.ChannelInRange | cursor_ring.cpp:103 | `(int)(x*255+.5)` lies in 0..255 for x in [0,1] |
| Numeric.ChannelMonotone | cursor_ring.cpp:103 | that rounding preserves order on [0,1] |
| Numeric.ChannelOfByte | cursor_ring.cpp:103 | rounding k/255 back gives k for every byte k |
| Numeric.Max3 | cursor_ring.cpp:109 | `std::max` of three: one of them, and at least each |
| Numeric.Min3 | cursor_ring.cpp:109 | `std::min` of three: one of them, and at most each |
| ColorModel.MakeRgb | cursor_ring.cpp:103 | the `RGB` macro keeps channels that are already bytes |
| ColorModel.MaxChannel | cursor_ring.cpp:109 | the largest of the three bytes |
| ColorModel.MinChannel | cursor_ring.cpp:109 | the smallest of the three bytes |
| ColorModel.FMod | cursor_ring.cpp:94 | `fmodf` by a positive divisor: strictly inside (-y,y), with the sign of x |
| ColorModel.WrapHue | cursor_ring.cpp:94 | fmod then add 360 if negative: always in [0,360) |
| ColorModel.WrapHueIsFloorMod | cursor_ring.cpp:94 | that wrap equals h minus 360 times floor(h/360) |
| ColorModel.WrapHueIdentity | cursor_ring.cpp:94 | hues already in [0,360) are unchanged |
| ColorModel.SectorIntensity | cursor_ring.cpp:94-96 | the unrounded p, q, t of a hue; bounds in `SectorIntensities`, values in `IntensitiesOfSpread` |
| ColorModel.Intensities | cursor_ring.cpp:96 | p = v(1-s), q = v(1-sf), t = v(1-s(1-f)); ordering in `SectorIntensities` |
| ColorModel.Sector | cursor_ring.cpp:98-102 | the per-sector channel selection; largest and smallest in `SectorExtremes`, inverse of RGBtoHSV in `ChromaticSector` |
| ColorModel.HueSector | cursor_ring.cpp:94-95 | sector index in 0..5 and fraction in [0,1) |
| ColorModel.HsvToRgb | cursor_ring.cpp:93 | for s <= 0 all three channels are the narrowed `(int)(v*255+.5)` |
| ColorModel.HsvGrayIgnoresHue | cursor_ring.cpp:93 | for s <= 0 the hue does not matter, and for v in [0,1] the grey is round(255 v) |
| ColorModel.HsvBlackAtZeroValue | cursor_ring.cpp:91-104 | value 0 gives black for every hue and saturation |
| ColorModel.SectorIntensities | cursor_ring.cpp:96 | 0 <= p <= q <= v and p <= t <= v |
| ColorModel.SectorExtremes | cursor_ring.cpp:96-101 | in every sector the channels are, as a multiset, v, p and t (sectors 0, 2, 4) or q (1, 3 and the default); v is the largest and p = v(1-s) the smallest |
| ColorModel.ChannelExtremes | cursor_ring.cpp:103 | rounding keeps the largest and the smallest channel in place |
| ColorModel.HsvToRgbExtremes | cursor_ring.cpp:91-104 | for s, v in [0,1] the largest channel is round(255 v), the smallest round(255 v (1-s)) |
| ColorModel.Hue | cursor_ring.cpp:113-114 | the three-branch hue with the +360 wrap; its range in `HueRange`, its sector in `RedSector`, `GreenSector` and `BlueSector` |
| ColorModel.RgbToHsv | cursor_ring.cpp:106-115 | RGBtoHSV; ranges in `RgbToHsvRanges`, greys in `RgbToHsvAchromatic`, and HSVtoRGB undoes it (`RgbHsvRgbRoundTrip`) |
| ColorModel.HueRange | cursor_ring.cpp:112-113 | the hue of a chromatic colour lies in [0,360) |
| ColorModel.ScaledExtremes | cursor_ring.cpp:108-109 | max and min of the scaled channels are the scaled largest and smallest bytes |
| ColorModel.RgbToHsvRanges | cursor_ring.cpp:106-115 | v = largest channel/255; s in [0,1] and equal to (max-min)/max when max > 0; h in [0,360) |
| ColorModel.RgbToHsvAchromatic | cursor_ring.cpp:110-111 | s < 1e-6 exactly for greys, and a grey gives (0, 0, r/255) |
| ColorModel.SpreadRatio | cursor_ring.cpp:110 | s = d/mx equals (max-min)/max on the bytes |
| ColorModel.IntensitiesOfSpread | cursor_ring.cpp:96 | with s = d/v the intensities are v-d, v-d f, v-d (1-f) |
| ColorModel.HueSectorOf | cursor_ring.cpp:94-95 | a hue of 60 (i+f) falls in sector i with fraction f |
| ColorModel.RedSector | cursor_ring.cpp:112-113 | red largest: the hue's sector and fraction rebuild (r,g,b) |
| ColorModel.GreenSector | cursor_ring.cpp:112 | green largest: the hue's sector and fraction rebuild (r,g,b) |
| ColorModel.BlueSector | cursor_ring.cpp:112 | blue largest: the hue's sector and fraction rebuild (r,g,b) |
| ColorModel.ChromaticSector | cursor_ring.cpp:94-113 | on a chromatic colour HSVtoRGB's intensities before rounding are exactly r, g, b |
| ColorModel.RgbToHsvChromatic | cursor_ring.cpp:106-114 | for a non-grey colour RGBtoHSV takes the chromatic branch: (hue, d/mx, mx) |
| ColorModel.GrayRoundTrip | cursor_ring.cpp:93-111 | greys survive RGBtoHSV then HSVtoRGB |
| ColorModel.ChromaticRoundTrip | cursor_ring.cpp:91-115 | chromatic colours survive RGBtoHSV then HSVtoRGB, over exact reals |
| ColorModel.RgbHsvRgbRoundTrip | cursor_ring.cpp:91-115 | HSVtoRGB(RGBtoHSV(c)) == c for every colour, over exact reals |
| HexText.Hex2 | cursor_ring.cpp:265 | one `%02X`; read back as the byte by `Hex2Value`, and every uppercase pair is one by `Hex2OfPair` |
| HexText.IsHexDigit | cursor_ring.cpp:471 | strtoul's base-16 digit class: 0-9, A-F, a-f; `LeadingDigitsLongest` stops the run at the first character outside it |
| HexText.DigitValue | cursor_ring.cpp:471 | a hex digit's value is below 16 |
| HexText.UpperDigit | cursor_ring.cpp:265 | `%X` writes an uppercase digit whose value is the nibble |
| HexText.FormatHex | cursor_ring.cpp:265 | `%02X%02X%02X`: exactly six uppercase hex digits |
| HexText.Hex2Value | cursor_ring.cpp:265 | the two digits of a byte read back as that byte |
| HexText.Hex2OfPair | cursor_ring.cpp:265 | two uppercase digits are the `%02X` of their value |
| HexText.LeadingDigits | cursor_ring.cpp:471 | `strtoul` consumes only hex digits |
| HexText.LeadingDigitsLongest | cursor_ring.cpp:471 | the digit run is a prefix and is followed by a non-digit or the end |
| HexText.LeadingDigitsAll | cursor_ring.cpp:471 | an all-digit text is consumed whole |
| HexText.IsSpace | cursor_ring.cpp:471 | isspace in the C locale: space and tab through carriage return; `SkipSpaceSuffix` drops exactly these |
| HexText.SkipSpace | cursor_ring.cpp:471 | strtoul's white-space skip; exactly the leading spaces are dropped (`SkipSpaceSuffix`) |
| HexText.Value | cursor_ring.cpp:471 | the positional base-16 value of a digit run; `ValueAppend`, `ValuePair` and `SixDigitValue` state how it reads |
| HexText.SkipSpaceSuffix | cursor_ring.cpp:471 | `strtoul` skips exactly the leading white space |
| HexText.Subject | cursor_ring.cpp:471 | the subject sequence is all hex digits |
| HexText.SubjectOfDigits | cursor_ring.cpp:471 | hex digits without an `x` in second place are their own unsigned subject |
| HexText.Convert | cursor_ring.cpp:471 | the result is at most ULONG_MAX; a representable unsigned value is kept; a negative one is negated modulo 2^32; overflow gives ULONG_MAX |
| HexText.StrToUL16 | cursor_ring.cpp:471 | the conversion never exceeds ULONG_MAX |
| HexText.ValueAppend | cursor_ring.cpp:471 | digits read positionally: value(a+b) = value(a)·16^|b| + value(b) |
| HexText.ValuePair | cursor_ring.cpp:471 | two digits read as 16 d0 + d1, below 256 |
| HexText.SixDigitValue | cursor_ring.cpp:471 | six digits read as the three pairs packed 16 bits, 8 bits, 0 bits |
| HexText.SplitRgb | cursor_ring.cpp:472 | the three channels are bytes and together are the low 24 bits of the value (red bits 16-23, green 8-15, blue 0-7); any top byte, such as a negated text wrapping to 2^32 - m, is dropped |
| HexText.SplitLow24 | cursor_ring.cpp:472 | the fields `(hex>>16)&0xFF`, `(hex>>8)&0xFF` and `hex&0xFF` put back together are `hex` modulo 2^24 |
| HexText.SplitPacked | cursor_ring.cpp:472 | packing three bytes and splitting gives them back |
| HexText.ParseHex | cursor_ring.cpp:470-472 | text is parsed exactly when it has six characters |
| HexText.SixDigitsParse | cursor_ring.cpp:470-472 | six hex digits parse to the colour of their three pairs |
| HexText.FormatParseRoundTrip | cursor_ring.cpp:470-472 | parsing the formatted text of a colour gives that colour |
| HexText.ParseFormatRoundTrip | cursor_ring.cpp:470-472 | six uppercase digits parse to a colour whose text is the same six digits |
| HexText.LongestPrefixExample | cursor_ring.cpp:470-472 | "12G456" is parsed by its prefix "12", giving red 0, green 0, blue 0x12 |
| HexText.NegativeTextExample | cursor_ring.cpp:470-472 | "-00001" wraps to ULONG_MAX and gives white |
| Settings.Get | cursor_ring.cpp:449 | the colour `*target` names; `Set` writes exactly that one |
| Settings.Set | cursor_ring.cpp:449 | writing the target sets that colour and leaves the other colour and every other setting alone |
| Settings.Store.constructor | cursor_ring.cpp:28-35 | the settings start at the member initialisers, and nothing has been saved yet |
| Settings.Store.Save | cursor_ring.cpp:129-138 | saving changes no setting and records the settings written |
| Keys.IsCtrlCode | cursor_ring.cpp:727 | VK_CONTROL, VK_LCONTROL or VK_RCONTROL; such codes never affect a scan (`OnlyOrdinaryCodesCount`) |
| Keys.CtrlDown | cursor_ring.cpp:899 | Ctrl is down when VK_CONTROL is; drives the transitions stated in `Gesture.TriggerRule`, `PressTick`, `HeldTick` and `IdleTick` |
| Keys.NewKeyDown | cursor_ring.cpp:725-731 | some code 1..255, not a Ctrl code and not held at the press, is down; computed by the loop `AnyNewKeyPressed`, with `SnapshotExempt`, `OnlyOrdinaryCodesCount` and `FreshKeyCounts` |
| Keys.Snapshot | cursor_ring.cpp:903-904 | after memset and the fill loop, entry vk (1..255) is set exactly when vk is down; entry 0 stays clear |
| Keys.AnyNewKeyPressed | cursor_ring.cpp:725-732 | the scan returns true exactly when some code in 1..255 that is not a Ctrl code and was not held at the press is down |
| Keys.SnapshotExempt | cursor_ring.cpp:903-910 | keys held at the press, or any subset of them, never count as new |
| Keys.OnlyOrdinaryCodesCount | cursor_ring.cpp:726-727 | Ctrl codes and codes outside 1..255 never change the outcome of a scan |
| Keys.FreshKeyCounts | cursor_ring.cpp:726-729 | an ordinary code not held at the press that is down is found |
| Gesture.Step | cursor_ring.cpp:899-917 | the table stays 256 entries and `g_ctrlWas` becomes the Ctrl state of the tick |
| Gesture.Run | cursor_ring.cpp:889-917 | a run yields one trigger flag per tick |
| Gesture.TriggerRule | cursor_ring.cpp:913-916 | a tick triggers exactly when Ctrl goes from down to up with no combo seen, and the combo flag is then clear |
| Gesture.PressTick | cursor_ring.cpp:901-911 | the press tick records the held keys, clears the flag and does not trigger |
| Gesture.HeldTick | cursor_ring.cpp:906-912 | while Ctrl is held the table is unchanged, the flag becomes old flag or new key (sticky), and nothing triggers |
| Gesture.IdleTick | cursor_ring.cpp:899-917 | with Ctrl up and not just released nothing changes |
| Gesture.HeldRun | cursor_ring.cpp:906-912 | held ticks keep the table, accumulate the flag and never trigger |
| Gesture.PressCycle | cursor_ring.cpp:899-917 | a press, held ticks, release cycle triggers at most once, on the release, exactly when no held tick had a new key; it ends with Ctrl up and the flag clear |
| Gesture.RunAppend | cursor_ring.cpp:889-917 | running two stretches of ticks in turn is running them joined |
| Gesture.CtrlTapDetector.constructor | cursor_ring.cpp:42-47 | the globals start zeroed |
| Gesture.CtrlTapDetector.Tick | cursor_ring.cpp:899-917 | the in-place tick (memset, fill loop, scan) agrees with `Step` |
| Animation.Duration | cursor_ring.cpp:151 | slow 1600 ms, fast 560 ms, every other speed 1050 ms |
| Animation.DurationOrder | cursor_ring.cpp:151 | slow > normal > fast > 0, and unknown speeds behave as normal |
| Animation.Elapsed | cursor_ring.cpp:921 | DWORD subtraction: now-start, plus 2^32 when the counter wrapped |
| Animation.ElapsedAcrossWrap | cursor_ring.cpp:921 | t ms after any start the elapsed time is t, across the wrap |
| Animation.Progress | cursor_ring.cpp:922 | progress in [0,1]; 1 once the duration is reached, elapsed/duration before |
| Animation.Pow | cursor_ring.cpp:150 | the fifth power of `powf`; bounded and monotone by `PowBounds` and `PowMonotone` |
| Animation.PowBounds | cursor_ring.cpp:150 | powers of a number in [0,1] stay in [0,1] |
| Animation.PowMonotone | cursor_ring.cpp:150 | powers preserve order on non-negative numbers |
| Animation.EaseOutQuint | cursor_ring.cpp:150 | the eased value lies in [0,1] |
| Animation.Radius | cursor_ring.cpp:744 | the radius lies in [0,88] |
| Animation.RadiusShrinks | cursor_ring.cpp:744 | the radius never grows with progress, is 88 at the start and 0 from p = 1 |
| Animation.Alpha | cursor_ring.cpp:746-750 | opacity lies in [0,1] |
| Animation.AlphaEnvelope | cursor_ring.cpp:746-750 | fade in p/0.06, full until 0.72, fade out 1-(p-0.72)/0.28, transparent from p = 1 |
| Animation.DrawnFramesBeforeHalf | cursor_ring.cpp:744-750 | a radius of at least 3 needs p < 1/2, so a drawn frame never uses the fade-out branch |
| Animation.StartOfEnvelope | cursor_ring.cpp:744-750 | at p = 0 the radius is 88 and the opacity 0 |
| Animation.StartStep | cursor_ring.cpp:718-724 | StartAnimation; runs from now at the cursor whatever came before (`StartRestarts`) |
| Animation.CancelStep | cursor_ring.cpp:716 | CancelAnimation; stops and clears once, idempotent (`CancelEffect`) |
| Animation.Moved | cursor_ring.cpp:737-738 | dx²+dy² > 16; small moves never count (`SmallMoveIgnored`) |
| Animation.CheckCancelStep | cursor_ring.cpp:733-741 | CheckCancel; cancels exactly on a move or a new key (`CheckCancelRule`, `MoveCancelOff`) |
| Animation.FrameStep | cursor_ring.cpp:742-750 | RenderFrame; ends exactly below radius 3, draws a ring in [3,88] × [0,1] (`FrameRule`) |
| Animation.RenderStep | cursor_ring.cpp:920-925 | the animating block; first frame in `FirstFrame`, end in `EndsAtDuration` |
| Animation.CancelEffect | cursor_ring.cpp:716 | cancel stops a running animation and clears once where it was shown; otherwise nothing; a second cancel does nothing |
| Animation.CheckCancelRule | cursor_ring.cpp:733-741 | a running animation is cancelled exactly when (with move-cancel) dx²+dy² > 16 or a new non-Ctrl key is down; otherwise nothing changes |
| Animation.MoveCancelOff | cursor_ring.cpp:735-739 | without move-cancel the cursor position is irrelevant |
| Animation.SmallMoveIgnored | cursor_ring.cpp:736-738 | moves of at most 2 pixels in each axis never cancel |
| Animation.StartRestarts | cursor_ring.cpp:718-724 | start runs from now at the cursor whatever the previous state |
| Animation.FrameRule | cursor_ring.cpp:742-750 | a frame ends the animation exactly when the radius is below 3; a drawn ring has radius in [3,88] and opacity in [0,1]; at p >= 1 it always ends |
| Animation.FirstFrame | cursor_ring.cpp:920-924 | the tick that starts an animation draws radius 88 at opacity 0 |
| Animation.ZeroProgress | cursor_ring.cpp:922 | zero elapsed time is zero progress |
| Animation.EndsAtDuration | cursor_ring.cpp:920-925 | once the elapsed time reaches the duration the animation ends and clears on that tick |
| Animation.Animator.constructor | cursor_ring.cpp:41-46 | the animation globals start zeroed |
| Animation.Animator.Start | cursor_ring.cpp:718-724 | in-place StartAnimation agrees with `StartStep` |
| Animation.Animator.Cancel | cursor_ring.cpp:716 | in-place CancelAnimation agrees with `CancelStep` |
| Animation.Animator.CheckCancel | cursor_ring.cpp:733-741 | in-place CheckCancel, calling the scan loop, agrees with `CheckCancelStep` |
| Animation.Animator.RenderFrame | cursor_ring.cpp:742-750 | in-place RenderFrame agrees with `FrameStep` |
| Animation.Animator.Render | cursor_ring.cpp:920-925 | the loop's animating block agrees with `RenderStep` |
| MainLoop.LoopStep | cursor_ring.cpp:899-925 | one pass keeps the detector well formed |
| MainLoop.TapShowsRing | cursor_ring.cpp:913-924 | a clean tap shows the overlay at the cursor and draws radius 88, opacity 0, and the animation runs from now |
| MainLoop.ReleaseWithNewKey | cursor_ring.cpp:913-919 | a new key on the release tick gives show then clear on the same tick, and nothing runs |
| MainLoop.TapRestarts | cursor_ring.cpp:718-724 | a tap during an animation emits no clear first; the pass behaves as from idle |
| MainLoop.QuietPass | cursor_ring.cpp:913-925 | no tap and no animation: nothing changes on screen |
| MainLoop.PassEndsAtDuration | cursor_ring.cpp:919-925 | a running animation whose time is up ends with a single clear |
| MainLoop.OverlayFollowsState | cursor_ring.cpp:913-925 | after a pass a running animation has just drawn a ring of radius in [3,88] at the cursor, and a pass that stops it ends with a clear |
| MainLoop.DrawnRingsEarly | cursor_ring.cpp:744-750 | every ring drawn lies before p = 1/2 and uses the fade-in or full branch |
| MainLoop.App.constructor | cursor_ring.cpp:28-47 | the program starts idle with default settings |
| MainLoop.App.Tick | cursor_ring.cpp:899-925 | the in-place pass agrees with `LoopStep` |
| ColorPicker.SatFromX | cursor_ring.cpp:268-271 | saturation in [0,1]; 0 at the left edge, 1 from x = 289 |
| ColorPicker.ValFromY | cursor_ring.cpp:268-272 | value in [0,1], inverted: 1 at the top, 0 from y = 197 |
| ColorPicker.HueFromX | cursor_ring.cpp:275-277 | hue in [0,360]; 0 at the left edge, 360 from x = 289 |
| ColorPicker.PtInRect | cursor_ring.cpp:446 | Win32 PtInRect: left and top edges inside, right and bottom outside; used by `OkButtonCommits` and `DismissEffect` |
| ColorPicker.EditChanged | cursor_ring.cpp:467-476 | EN_CHANGE; ignored under the guard or off length 6 (`EditIgnored`), six digits load RGBtoHSV of their pairs (`EditSixDigits`), typed hex shows its colour (`EditTypedColour`) |
| ColorPicker.UpdateHexEditStep | cursor_ring.cpp:262-267 | CP_UpdateHexEdit with its suppressed notification; equal to `HexShown` (`UpdateHexEditNoFeedback`) |
| ColorPicker.HexShown | cursor_ring.cpp:264-266 | the box shows the colour's hex text and the guard is down; HSV and drags untouched |
| ColorPicker.UpdateSVStep | cursor_ring.cpp:268-274 | CP_UpdateSV; corners in `SquareCorners`, order in `DragMonotone`, ranges in `DragKeepsRange` |
| ColorPicker.UpdateHueStep | cursor_ring.cpp:275-279 | CP_UpdateHue; hue in [0,360] rising with x (`HueFromX`, `DragMonotone`) |
| ColorPicker.LoadStep | cursor_ring.cpp:500-502 | the target, its colour and its HSV are recorded and drags cleared; stated in `OpenEffect` |
| ColorPicker.OpenStep | cursor_ring.cpp:497-515 | OpenColorPicker; refocus only when open, otherwise load, show and disable the owner (`OpenEffect`, `OpenKeepsRange`) |
| ColorPicker.DismissStep | cursor_ring.cpp:453-455 | DestroyWindow and EnableWindow; settings and HSV kept (`DismissEffect`) |
| ColorPicker.CommitStep | cursor_ring.cpp:449 | `*target = HSVtoRGB(...)`; only the target changes (`CommitEffect`) |
| ColorPicker.LButtonDownStep | cursor_ring.cpp:444-457 | WM_LBUTTONDOWN; OK commits (`OkButtonCommits`), Cancel dismisses (`DismissEffect`), ranges kept (`PressKeepsRange`) |
| ColorPicker.MouseMoveStep | cursor_ring.cpp:458-463 | WM_MOUSEMOVE; follows only active drags (`ButtonUpEndsDrags`, `DragKeepsRange`) |
| ColorPicker.LButtonUpStep | cursor_ring.cpp:464-465 | WM_LBUTTONUP; both drags end (`ButtonUpEndsDrags`) |
| ColorPicker.KeyDownStep | cursor_ring.cpp:478-487 | WM_KEYDOWN; Enter commits (`CommitEffect`), Escape dismisses (`DismissEffect`) |
| ColorPicker.CloseStep | cursor_ring.cpp:488-491 | WM_CLOSE; dismisses without saving (`DismissEffect`) |
| ColorPicker.UpdateHexEditNoFeedback | cursor_ring.cpp:262-267 | the programmatic update keeps the colour, shows its hex text, and leaves the guard down |
| ColorPicker.EditIgnored | cursor_ring.cpp:468-470 | with the guard up, or text not six long, only the text changes |
| ColorPicker.EditTypedColour | cursor_ring.cpp:468-474 | typing a colour's hex text makes the dialog show that colour |
| ColorPicker.EditSixDigits | cursor_ring.cpp:468-474 | six digits set HSV to RGBtoHSV of the three pairs |
| ColorPicker.OpenEffect | cursor_ring.cpp:497-512 | opening an open dialog changes nothing; a fresh open records target, orig and HSV, clears drags, shows the colour and its hex text, disables the settings window |
| ColorPicker.OpenThenOkKeepsSettings | cursor_ring.cpp:448-452 | opening and pressing OK at once saves the same settings |
| ColorPicker.CommitEffect | cursor_ring.cpp:448-452 | OK or Enter write HSVtoRGB(hsv) to the target, keep the other settings, save, close and re-enable |
| ColorPicker.OkButtonCommits | cursor_ring.cpp:448-452 | any press on the OK button commits, saves and closes |
| ColorPicker.DismissEffect | cursor_ring.cpp:453-490 | Cancel, Escape and Close change no setting, save nothing, keep orig, target and HSV, and close |
| ColorPicker.ButtonUpEndsDrags | cursor_ring.cpp:458-465 | button-up clears both drags, after which moves change nothing |
| ColorPicker.SquareCorners | cursor_ring.cpp:268-273 | the top-left of the square is white, and every point on or below the bottom edge is black, for every hue |
| ColorPicker.DragMonotone | cursor_ring.cpp:268-279 | moving right raises saturation and hue; moving down lowers value |
| ColorPicker.OpenKeepsRange | cursor_ring.cpp:497-502 | opening keeps hue in [0,360] and s, v in [0,1] |
| ColorPicker.EditKeepsRange | cursor_ring.cpp:468-474 | typing keeps the ranges |
| ColorPicker.PressKeepsRange | cursor_ring.cpp:444-457 | a button press keeps the ranges |
| ColorPicker.DragKeepsRange | cursor_ring.cpp:458-463 | dragging keeps the ranges |
| ColorPicker.OtherMessagesKeepRange | cursor_ring.cpp:464-490 | button-up, keys and close keep the ranges |
| ColorPicker.InitialInRange | cursor_ring.cpp:73-85 | the initial session is in range, closed, with the settings window enabled |
| ColorPicker.PickerWindow.constructor | cursor_ring.cpp:73-85 | the session starts at the CPState initialisers |
| ColorPicker.PickerWindow.EditTextChanged | cursor_ring.cpp:467-476 | in-place EN_CHANGE handling agrees with `EditChanged` |
| ColorPicker.PickerWindow.UpdateHexEdit | cursor_ring.cpp:262-267 | in place: the text shows the colour and the guard ends down |
| ColorPicker.PickerWindow.UpdateSV | cursor_ring.cpp:268-274 | agrees with `UpdateSVStep` |
| ColorPicker.PickerWindow.UpdateHue | cursor_ring.cpp:275-279 | agrees with `UpdateHueStep` |
| ColorPicker.PickerWindow.Open | cursor_ring.cpp:497-515 | agrees with `OpenStep` |
| ColorPicker.PickerWindow.Load | cursor_ring.cpp:500-502 | in place: the target, its colour and its HSV are recorded and both drags cleared, as `LoadStep` |
| ColorPicker.PickerWindow.Dismiss | cursor_ring.cpp:489-491 | the dialog is closed and the settings window enabled |
| ColorPicker.PickerWindow.Commit | cursor_ring.cpp:449-450 | the target gets the dialog's colour and one save is recorded |
| ColorPicker.PickerWindow.LButtonDown | cursor_ring.cpp:444-457 | agrees with `LButtonDownStep`, saving exactly when it commits |
| ColorPicker.PickerWindow.MouseMove | cursor_ring.cpp:458-463 | agrees with `MouseMoveStep` |
| ColorPicker.PickerWindow.LButtonUp | cursor_ring.cpp:464-465 | both drags end |
| ColorPicker.PickerWindow.KeyDown | cursor_ring.cpp:478-487 | agrees with `KeyDownStep`, saving exactly on Enter |
| ColorPicker.PickerWindow.Close | cursor_ring.cpp:488-491 | agrees with `CloseStep` |

## Left out

* All drawing is left out.
  * Pens, ellipses, GDI+ and the layered-window update are reduced to
    `Show`, `Clear` and `Draw` operations.
  * The byte scaling of the opacity and the ring colours in `RenderFrame`
    (cursor_ring.cpp:752-778) is left out.
  * `RenderCP` and `DrawSettings` are left out.
* The registry is left out: `LoadSettings`, `ApplyStartup`, and
  `SaveSettings`'s writes. A save is a ghost log entry.
* Window, tray and shell plumbing is left out: the message pump,
  `SetForegroundWindow`, `SetCapture`, `InvalidateRect`, window creation and
  placement, the single-instance mutex and `Sleep(6)`.
* Single-precision floats are not modelled. `HSVtoRGB`, `RGBtoHSV`, `powf`
  and `fmodf` are over exact reals.
  * The RGB→HSV→RGB round trip (`ColorModel.RgbHsvRgbRoundTrip`) is a fact
    about that real model. It says nothing about float rounding.
* Each tick reads the keyboard, the cursor and the tick counter once. The
  C code calls `GetAsyncKeyState`, `GetCursorPos` and `GetTickCount` several
  times per tick.
* The settings-window hit-testing and toggles (cursor_ring.cpp:674-687) are
  left out. Only their two calls of `OpenColorPicker` are kept, as the
  `Target` argument of `Open`.
* `WM_DESTROY` clearing `g_cp.hwnd` is merged into closing the dialog.
* Animation.Moved: `dx*dx+dy*dy` is over unbounded integers. The source's
  32-bit `int` would overflow for jumps above about 46,000 pixels.
* ColorPicker.EditChanged: the edit control's text is an input.
  * `ES_UPPERCASE` and the 6-character limit of `EM_SETLIMITTEXT` are not
    modelled, so any string can arrive.
  * The text is taken as characters. `strlen` on the ANSI buffer filled by
    `GetWindowTextA` counts bytes, which differ from characters only under a
    multibyte code page.
  * `GetWindowTextA` truncating to 15 characters is not modelled; it cannot
    change a text of length 6.
* ColorPicker.Initial: the session starts with a null target, which the model
  takes as `Ring`. Every open sets the target before it is used.
* Animation.Progress: the elapsed time is converted to a real exactly. The
  source's `(float)` is exact only below 2^24 ms. Any larger elapsed time
  exceeds every duration, so the progress is 1 either way.
