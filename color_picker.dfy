/** The colour picker dialog of cursor_ring.cpp: the session state g_cp, the
    helpers CP_UpdateHexEdit, CP_UpdateSV and CP_UpdateHue, OpenColorPicker,
    and the state-changing messages of ColorPickerProc. Each transition is a
    function on the session record; the PickerWindow class performs it in
    place and is proved to agree with it. */
module ColorPicker {
  import opened Numeric
  import opened ColorModel
  import opened HexText
  import opened Settings

  /** A Win32 RECT; PtInRect includes the left and top edges only. */
  datatype Rect = Rect(left: int, top: int, right: int, bottom: int)

  predicate PtInRect(rc: Rect, x: int, y: int) {
    rc.left <= x < rc.right && rc.top <= y < rc.bottom
  }

  // The rectangles WM_CREATE lays out.
  const RcSV := Rect(10, 10, 290, 198)
  const RcHue := Rect(10, 208, 290, 230)
  const RcOK := Rect(156, 345, 290, 373)
  const RcCancel := Rect(10, 345, 144, 373)

  const VkReturn := 0x0D
  const VkEscape := 0x1B

  /** g_cp: whether the dialog exists, the colour being edited as HSV, the
      colour it started from, which setting it edits, the drag flags, the
      feedback guard, the text of the hex box, and whether the settings
      window is enabled (it is disabled while the dialog is up). */
  datatype Picker = Picker(open: bool, hue: real, sat: real, val: real, orig: Rgb,
                           target: Target, draggingSV: bool, draggingHue: bool,
                           suppressEdit: bool, editText: string, ownerEnabled: bool)

  /** The member initialisers of CPState (the null target is taken as Ring). */
  const Initial := Picker(false, 0.0, 1.0, 1.0, Black, Ring, false, false, false, "", true)

  /** The colour the dialog currently shows. */
  function Colour(p: Picker): Rgb {
    HsvToRgb(p.hue, p.sat, p.val)
  }

  /** The ranges the picker keeps its HSV in. */
  predicate InRange(p: Picker) {
    0.0 <= p.hue <= 360.0 && 0.0 <= p.sat <= 1.0 && 0.0 <= p.val <= 1.0
  }

  // ---------------------------------------------------------------------
  // Drag mappings (the square is 280 x 188 pixels, the hue bar 280 wide)

  /** Saturation from the x position in the square, clamped. */
  function SatFromX(x: int): (s: real)
    ensures 0.0 <= s <= 1.0
    ensures x <= 10 ==> s == 0.0
    ensures x >= 289 ==> s == 1.0
  {
    Clamp01((x - RcSV.left) as real / (RcSV.right - RcSV.left - 1) as real)
  }

  /** Value from the y position in the square, clamped and inverted (top is
      brightest). */
  function ValFromY(y: int): (v: real)
    ensures 0.0 <= v <= 1.0
    ensures y <= 10 ==> v == 1.0
    ensures y >= 197 ==> v == 0.0
  {
    1.0 - Clamp01((y - RcSV.top) as real / (RcSV.bottom - RcSV.top - 1) as real)
  }

  /** Hue from the x position on the bar, clamped to [0,360]. */
  function HueFromX(x: int): (h: real)
    ensures 0.0 <= h <= 360.0
    ensures x <= 10 ==> h == 0.0
    ensures x >= 289 ==> h == 360.0
  {
    Clamp01((x - RcHue.left) as real / (RcHue.right - RcHue.left - 1) as real) * 360.0
  }

  // ---------------------------------------------------------------------
  // Transitions

  /** The hex box's text became `text` (EN_CHANGE): unless the change is the
      dialog's own, text of exactly six characters is parsed and replaces the
      HSV. */
  function EditChanged(p: Picker, text: string): Picker {
    var q := p.(editText := text);
    if p.suppressEdit then q
    else match ParseHex(text)
      case None => q
      case Some(c) =>
        var hsv := RgbToHsv(c);
        q.(hue := hsv.h, sat := hsv.s, val := hsv.v)
  }

  /** CP_UpdateHexEdit: writes the current colour's hex text with the guard
      raised, so the resulting notification is ignored, then lowers it. */
  function UpdateHexEditStep(p: Picker): Picker {
    EditChanged(p.(suppressEdit := true), FormatHex(Colour(p))).(suppressEdit := false)
  }

  /** What CP_UpdateHexEdit amounts to (UpdateHexEditNoFeedback): the box
      shows the current colour and the guard is down. */
  function HexShown(p: Picker): Picker {
    p.(editText := FormatHex(Colour(p)), suppressEdit := false)
  }

  /** CP_UpdateSV. */
  function UpdateSVStep(p: Picker, x: int, y: int): Picker {
    HexShown(p.(sat := SatFromX(x), val := ValFromY(y)))
  }

  /** CP_UpdateHue. */
  function UpdateHueStep(p: Picker, x: int): Picker {
    HexShown(p.(hue := HueFromX(x)))
  }

  /** OpenColorPicker: refocuses an open dialog; otherwise records the target
      and its colour, converts it to HSV, clears the drag flags, creates the
      dialog (whose WM_CREATE fills the hex box) and disables the settings
      window. */
  function OpenStep(p: Picker, cfg: Config, t: Target): Picker {
    if p.open then p
    else HexShown(LoadStep(p, t, Get(cfg, t))).(open := true, ownerEnabled := false)
  }

  /** The part of OpenColorPicker before the dialog is created: the target,
      its colour as the original and as HSV, and no drag. */
  function LoadStep(p: Picker, t: Target, c: Rgb): Picker {
    var hsv := RgbToHsv(c);
    p.(target := t, orig := c, hue := hsv.h, sat := hsv.s, val := hsv.v,
       draggingSV := false, draggingHue := false)
  }

  /** DestroyWindow (WM_DESTROY clears the handle) and EnableWindow on the
      settings window. */
  function DismissStep(p: Picker): Picker {
    p.(open := false, ownerEnabled := true)
  }

  /** `*g_cp.target = HSVtoRGB(hue, sat, val)`. */
  function CommitStep(p: Picker, cfg: Config): Config {
    Set(cfg, p.target, Colour(p))
  }

  /** The picker after a message, the settings after it, and whether the
      settings were saved. */
  datatype Outcome = Outcome(picker: Picker, cfg: Config, saved: bool)

  /** WM_LBUTTONDOWN: start a drag in the square or on the bar, or press OK
      (commit, save, close) or Cancel (close). */
  function LButtonDownStep(p: Picker, cfg: Config, x: int, y: int): Outcome {
    if PtInRect(RcSV, x, y) then Outcome(UpdateSVStep(p.(draggingSV := true), x, y), cfg, false)
    else if PtInRect(RcHue, x, y) then Outcome(UpdateHueStep(p.(draggingHue := true), x), cfg, false)
    else if PtInRect(RcOK, x, y) then Outcome(DismissStep(p), CommitStep(p, cfg), true)
    else if PtInRect(RcCancel, x, y) then Outcome(DismissStep(p), cfg, false)
    else Outcome(p, cfg, false)
  }

  /** WM_MOUSEMOVE: follows whichever drags are active, square first. */
  function MouseMoveStep(p: Picker, x: int, y: int): Picker {
    var q := if p.draggingSV then UpdateSVStep(p, x, y) else p;
    if q.draggingHue then UpdateHueStep(q, x) else q
  }

  /** WM_LBUTTONUP. */
  function LButtonUpStep(p: Picker): Picker {
    p.(draggingSV := false, draggingHue := false)
  }

  /** WM_KEYDOWN: Enter commits, saves and closes; Escape closes. */
  function KeyDownStep(p: Picker, cfg: Config, vk: int): Outcome {
    if vk == VkReturn then Outcome(DismissStep(p), CommitStep(p, cfg), true)
    else if vk == VkEscape then Outcome(DismissStep(p), cfg, false)
    else Outcome(p, cfg, false)
  }

  /** WM_CLOSE. */
  function CloseStep(p: Picker): Picker {
    DismissStep(p)
  }

  // ---------------------------------------------------------------------
  // Properties

  /** The programmatic update never feeds back: the HSV and the drag state
      are kept, the box shows the current colour, and the guard is down
      afterwards. */
  lemma UpdateHexEditNoFeedback(p: Picker)
    ensures UpdateHexEditStep(p) == HexShown(p)
  {
  }

  /** Notifications are ignored while the guard is up, and text that is not
      six characters long leaves the colour alone. */
  lemma EditIgnored(p: Picker, text: string)
    requires p.suppressEdit || |text| != 6
    ensures EditChanged(p, text) == p.(editText := text)
  {
  }

  /** Typing the hex text of a colour makes the dialog show exactly that
      colour, and its hex text is what was typed. */
  lemma {:induction false} EditTypedColour(p: Picker, c: Rgb)
    requires !p.suppressEdit
    ensures Colour(EditChanged(p, FormatHex(c))) == c
    ensures FormatHex(Colour(EditChanged(p, FormatHex(c)))) == FormatHex(c)
  {
    FormatParseRoundTrip(c);
    RgbHsvRgbRoundTrip(c);
  }

  /** Typing six hex digits reads the three digit pairs as red, green and
      blue. */
  lemma EditSixDigits(p: Picker, text: string)
    requires !p.suppressEdit && |text| == 6 && AllHex(text)
    ensures AllHex(text[0..2]) && AllHex(text[2..4]) && AllHex(text[4..6])
    ensures Value(text[0..2]) < 256 && Value(text[2..4]) < 256 && Value(text[4..6]) < 256
    ensures var c := Rgb(Value(text[0..2]), Value(text[2..4]), Value(text[4..6]));
      var hsv := RgbToHsv(c);
      EditChanged(p, text) == p.(editText := text, hue := hsv.h, sat := hsv.s, val := hsv.v)
  {
    SixDigitsParse(text);
  }

  /** Opening an open dialog only refocuses it; a fresh open snapshots the
      target's colour and its HSV, clears the drags, shows the colour's hex
      text and disables the settings window. */
  lemma {:induction false} OpenEffect(p: Picker, cfg: Config, t: Target)
    ensures p.open ==> OpenStep(p, cfg, t) == p
    ensures !p.open ==>
      var r := OpenStep(p, cfg, t);
      var hsv := RgbToHsv(Get(cfg, t));
      && r.open && r.target == t && r.orig == Get(cfg, t)
      && r.hue == hsv.h && r.sat == hsv.s && r.val == hsv.v
      && !r.draggingSV && !r.draggingHue && !r.suppressEdit && !r.ownerEnabled
      && Colour(r) == Get(cfg, t)
      && r.editText == FormatHex(Get(cfg, t))
  {
    if !p.open {
      RgbHsvRgbRoundTrip(Get(cfg, t));
    }
  }

  /** Opening the dialog and pressing OK straight away writes back the same
      colour: the settings are unchanged (though saved). */
  lemma {:induction false} OpenThenOkKeepsSettings(p: Picker, cfg: Config, t: Target)
    requires !p.open
    ensures var o := LButtonDownStep(OpenStep(p, cfg, t), cfg, 200, 360);
      o.cfg == cfg && o.saved && !o.picker.open
  {
    OpenEffect(p, cfg, t);
    var q := OpenStep(p, cfg, t);
    assert PtInRect(RcOK, 200, 360) && !PtInRect(RcSV, 200, 360) && !PtInRect(RcHue, 200, 360);
    assert Colour(q) == Get(cfg, t);
    match t
    case Ring =>
    case Outline =>
  }

  /** OK and Enter write the dialog's colour to the target, leave every other
      setting alone, save, close the dialog and re-enable the settings
      window. */
  lemma CommitEffect(p: Picker, cfg: Config, o: Outcome)
    requires o == LButtonDownStep(p, cfg, 200, 360) || o == KeyDownStep(p, cfg, VkReturn)
    ensures Get(o.cfg, p.target) == Colour(p)
    ensures forall u: Target :: u != p.target ==> Get(o.cfg, u) == Get(cfg, u)
    ensures o.cfg.speed == cfg.speed && o.cfg.moveCancel == cfg.moveCancel
    ensures o.cfg.darkMode == cfg.darkMode && o.cfg.startOnBoot == cfg.startOnBoot
    ensures o.saved && !o.picker.open && o.picker.ownerEnabled
    ensures o.picker.orig == p.orig && o.picker.target == p.target
  {
    assert PtInRect(RcOK, 200, 360) && !PtInRect(RcSV, 200, 360) && !PtInRect(RcHue, 200, 360);
  }

  /** Pressing OK anywhere on the button commits. */
  lemma OkButtonCommits(p: Picker, cfg: Config, x: int, y: int)
    requires PtInRect(RcOK, x, y)
    ensures LButtonDownStep(p, cfg, x, y) == Outcome(DismissStep(p), CommitStep(p, cfg), true)
  {
  }

  /** Cancel, Escape and Close leave the settings, the original colour and the
      target alone, save nothing and close the dialog. */
  lemma DismissEffect(p: Picker, cfg: Config, o: Outcome, x: int, y: int)
    requires (PtInRect(RcCancel, x, y) && o == LButtonDownStep(p, cfg, x, y))
      || o == KeyDownStep(p, cfg, VkEscape) || o == Outcome(CloseStep(p), cfg, false)
    ensures o.cfg == cfg && !o.saved
    ensures !o.picker.open && o.picker.ownerEnabled
    ensures o.picker.orig == p.orig && o.picker.target == p.target
    ensures o.picker.hue == p.hue && o.picker.sat == p.sat && o.picker.val == p.val
  {
  }

  /** Button-up ends both drags, after which the mouse changes nothing. */
  lemma ButtonUpEndsDrags(p: Picker, x: int, y: int)
    ensures !LButtonUpStep(p).draggingSV && !LButtonUpStep(p).draggingHue
    ensures MouseMoveStep(LButtonUpStep(p), x, y) == LButtonUpStep(p)
  {
  }

  /** The top-left corner of the square is white and the bottom edge black,
      whatever the hue. */
  lemma SquareCorners(p: Picker, x: int, y: int)
    requires y >= 197
    ensures Colour(UpdateSVStep(p, 10, 10)) == White
    ensures Colour(UpdateSVStep(p, x, y)) == Black
  {
    HsvBlackAtZeroValue(p.hue, SatFromX(x));
    assert Channel(1.0) == 255;
  }

  /** Moving right raises saturation and hue; moving down lowers value. */
  lemma DragMonotone(x1: int, x2: int, y1: int, y2: int)
    requires x1 <= x2 && y1 <= y2
    ensures SatFromX(x1) <= SatFromX(x2)
    ensures HueFromX(x1) <= HueFromX(x2)
    ensures ValFromY(y1) >= ValFromY(y2)
  {
    Clamp01Monotone((x1 - 10) as real / 279.0, (x2 - 10) as real / 279.0);
    Clamp01Monotone((y1 - 10) as real / 187.0, (y2 - 10) as real / 187.0);
  }

  /** Every transition keeps hue in [0,360] and saturation and value in
      [0,1]: opening converts a colour, ... */
  lemma OpenKeepsRange(p: Picker, cfg: Config, t: Target)
    requires InRange(p)
    ensures InRange(OpenStep(p, cfg, t))
  {
    RgbToHsvRanges(Get(cfg, t));
  }

  /** ... so does typing in the hex box, ... */
  lemma EditKeepsRange(p: Picker, text: string)
    requires InRange(p)
    ensures InRange(EditChanged(p, text))
  {
    if |text| == 6 {
      RgbToHsvRanges(SplitRgb(StrToUL16(text)));
    }
  }

  /** ... pressing and dragging clamp, ... */
  lemma PressKeepsRange(p: Picker, cfg: Config, x: int, y: int)
    requires InRange(p)
    ensures InRange(LButtonDownStep(p, cfg, x, y).picker)
  {
  }

  lemma DragKeepsRange(p: Picker, x: int, y: int)
    requires InRange(p)
    ensures InRange(MouseMoveStep(p, x, y))
  {
  }

  /** ... and the other messages leave the HSV alone. */
  lemma OtherMessagesKeepRange(p: Picker, cfg: Config, vk: int)
    requires InRange(p)
    ensures InRange(LButtonUpStep(p))
    ensures InRange(KeyDownStep(p, cfg, vk).picker)
    ensures InRange(CloseStep(p))
  {
  }

  lemma InitialInRange()
    ensures InRange(Initial) && !Initial.open && Initial.ownerEnabled
  {
  }

  // ---------------------------------------------------------------------
  // The dialog as an object

  class PickerWindow {
    var open: bool
    var hue: real
    var sat: real
    var val: real
    var orig: Rgb
    var target: Target
    var draggingSV: bool
    var draggingHue: bool
    var suppressEdit: bool
    var editText: string
    var ownerEnabled: bool
    const store: Store

    function Model(): Picker
      reads this
    {
      Picker(open, hue, sat, val, orig, target, draggingSV, draggingHue,
             suppressEdit, editText, ownerEnabled)
    }

    constructor (s: Store)
      ensures Model() == Initial && store == s
    {
      open, hue, sat, val, orig, target := false, 0.0, 1.0, 1.0, Black, Ring;
      draggingSV, draggingHue, suppressEdit, editText, ownerEnabled := false, false, false, "", true;
      store := s;
    }

    /** EN_CHANGE from the hex box after its text became `text`. */
    method EditTextChanged(text: string)
      modifies this
      ensures Model() == EditChanged(old(Model()), text)
    {
      editText := text;
      if !suppressEdit {
        match ParseHex(text)
        case None =>
        case Some(c) =>
          var hsv := RgbToHsv(c);
          hue, sat, val := hsv.h, hsv.s, hsv.v;
      }
    }

    /** CP_UpdateHexEdit: SetWindowTextA raises EN_CHANGE while the guard is
        up. */
    method UpdateHexEdit()
      modifies this
      ensures Model() == HexShown(old(Model()))
    {
      ghost var p := Model();
      var text := FormatHex(HsvToRgb(hue, sat, val));
      suppressEdit := true;
      EditTextChanged(text);
      suppressEdit := false;
      assert Model() == UpdateHexEditStep(p);
      UpdateHexEditNoFeedback(p);
    }

    method UpdateSV(x: int, y: int)
      modifies this
      ensures Model() == UpdateSVStep(old(Model()), x, y)
    {
      sat := SatFromX(x);
      val := ValFromY(y);
      UpdateHexEdit();
    }

    method UpdateHue(x: int)
      modifies this
      ensures Model() == UpdateHueStep(old(Model()), x)
    {
      hue := HueFromX(x);
      UpdateHexEdit();
    }

    /** OpenColorPicker(&g_cfg.ringColor) or (&g_cfg.outlineColor). */
    method Open(t: Target)
      modifies this
      ensures Model() == OpenStep(old(Model()), store.cfg, t)
    {
      if open {
        return;
      }
      Load(t, Get(store.cfg, t));
      UpdateHexEdit();
      open := true;
      ownerEnabled := false;
    }

    method Load(t: Target, c: Rgb)
      modifies this
      ensures Model() == LoadStep(old(Model()), t, c)
    {
      var hsv := RgbToHsv(c);
      target, orig := t, c;
      hue, sat, val := hsv.h, hsv.s, hsv.v;
      draggingSV, draggingHue := false, false;
    }

    method Dismiss()
      modifies this
      ensures Model() == DismissStep(old(Model()))
    {
      open := false;
      ownerEnabled := true;
    }

    /** Writes the colour to the target and saves the settings. */
    method Commit()
      modifies store
      ensures store.cfg == CommitStep(Model(), old(store.cfg))
      ensures store.saved == old(store.saved) + [store.cfg]
    {
      store.cfg := Set(store.cfg, target, HsvToRgb(hue, sat, val));
      store.Save();
    }

    method LButtonDown(x: int, y: int)
      modifies this, store
      ensures var o := LButtonDownStep(old(Model()), old(store.cfg), x, y);
        && Model() == o.picker && store.cfg == o.cfg
        && store.saved == old(store.saved) + (if o.saved then [o.cfg] else [])
    {
      if PtInRect(RcSV, x, y) {
        draggingSV := true;
        UpdateSV(x, y);
      } else if PtInRect(RcHue, x, y) {
        draggingHue := true;
        UpdateHue(x);
      } else if PtInRect(RcOK, x, y) {
        Commit();
        Dismiss();
      } else if PtInRect(RcCancel, x, y) {
        Dismiss();
      }
    }

    method MouseMove(x: int, y: int)
      modifies this
      ensures Model() == MouseMoveStep(old(Model()), x, y)
    {
      if draggingSV {
        UpdateSV(x, y);
      }
      if draggingHue {
        UpdateHue(x);
      }
    }

    method LButtonUp()
      modifies this
      ensures Model() == LButtonUpStep(old(Model()))
    {
      draggingSV, draggingHue := false, false;
    }

    method KeyDown(vk: int)
      modifies this, store
      ensures var o := KeyDownStep(old(Model()), old(store.cfg), vk);
        && Model() == o.picker && store.cfg == o.cfg
        && store.saved == old(store.saved) + (if o.saved then [o.cfg] else [])
    {
      if vk == VkEscape || vk == VkReturn {
        if vk == VkReturn {
          Commit();
        }
        Dismiss();
      }
    }

    method Close()
      modifies this
      ensures Model() == CloseStep(old(Model()))
    {
      Dismiss();
    }
  }
}
