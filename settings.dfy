/** The application settings of cursor_ring.cpp (AppSettings, g_cfg) and the
    registry store they are written to. */
module Settings {
  import opened Numeric
  import opened ColorModel

  /** AppSettings: ring and outline colours, speed (0 slow, 1 normal, 2 fast),
      move-to-cancel, dark mode and start on boot. */
  datatype Config = Config(ringColor: Rgb, outlineColor: Rgb, speed: int,
                           moveCancel: bool, darkMode: bool, startOnBoot: bool)

  const Black := Rgb(0, 0, 0)

  /** The member initialisers of AppSettings. */
  const Defaults := Config(White, Black, 1, true, true, false)

  /** Which colour the picker edits: the settings window passes
      &g_cfg.ringColor or &g_cfg.outlineColor. */
  datatype Target = Ring | Outline

  function Get(cfg: Config, t: Target): Rgb {
    match t
    case Ring => cfg.ringColor
    case Outline => cfg.outlineColor
  }

  /** `*target = c`: the selected colour becomes c and nothing else changes. */
  function Set(cfg: Config, t: Target, c: Rgb): (r: Config)
    ensures Get(r, t) == c
    ensures forall u: Target :: u != t ==> Get(r, u) == Get(cfg, u)
    ensures r.speed == cfg.speed && r.moveCancel == cfg.moveCancel
    ensures r.darkMode == cfg.darkMode && r.startOnBoot == cfg.startOnBoot
  {
    match t
    case Ring => cfg.(ringColor := c)
    case Outline => cfg.(outlineColor := c)
  }

  /** The live settings (g_cfg) together with the registry writes made so far
      (each SaveSettings call records the settings it wrote). */
  class Store {
    var cfg: Config
    ghost var saved: seq<Config>

    constructor ()
      ensures cfg == Defaults && saved == []
    {
      cfg := Defaults;
      saved := [];
    }

    /** SaveSettings: writes every field to the registry and changes nothing
        in memory. */
    method Save()
      modifies this
      ensures cfg == old(cfg)
      ensures saved == old(saved) + [cfg]
    {
      saved := saved + [cfg];
    }
  }
}
