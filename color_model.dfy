/** The HSV/RGB colour model of cursor_ring.cpp (HSVtoRGB, RGBtoHSV), over
    exact reals in place of single-precision floats. */
module ColorModel {
  import opened Numeric

  /** A COLORREF: three 8-bit channels (GetRValue, GetGValue, GetBValue). */
  datatype Rgb = Rgb(r: Byte, g: Byte, b: Byte)

  /** Hue in degrees, saturation and value in [0,1] when produced by RgbToHsv. */
  datatype Hsv = Hsv(h: real, s: real, v: real)

  const White := Rgb(255, 255, 255)

  /** The RGB macro: every argument is narrowed to a BYTE. */
  function MakeRgb(r: int, g: int, b: int): (c: Rgb)
    ensures 0 <= r < 256 && 0 <= g < 256 && 0 <= b < 256 ==> c == Rgb(r, g, b)
  {
    Rgb(ToByte(r), ToByte(g), ToByte(b))
  }

  function MaxChannel(c: Rgb): (m: Byte)
    ensures m == c.r || m == c.g || m == c.b
    ensures c.r <= m && c.g <= m && c.b <= m
  {
    if c.r >= c.g && c.r >= c.b then c.r else if c.g >= c.b then c.g else c.b
  }

  function MinChannel(c: Rgb): (m: Byte)
    ensures m == c.r || m == c.g || m == c.b
    ensures m <= c.r && m <= c.g && m <= c.b
  {
    if c.r <= c.g && c.r <= c.b then c.r else if c.g <= c.b then c.g else c.b
  }

  /** C fmod for a positive divisor: x minus the multiple of y obtained by
      truncating x/y, so the remainder keeps the sign of x. */
  function FMod(x: real, y: real): (m: real)
    requires y > 0.0
    ensures -y < m < y
    ensures x >= 0.0 ==> m >= 0.0
    ensures x < 0.0 ==> m <= 0.0
  {
    FModBounds(x, y);
    x - y * (Trunc(x / y) as real)
  }

  lemma FModBounds(x: real, y: real)
    requires y > 0.0
    ensures var m := x - y * (Trunc(x / y) as real);
      -y < m < y && (x >= 0.0 ==> m >= 0.0) && (x < 0.0 ==> m <= 0.0)
  {
    var q := x / y;
    var t := Trunc(q) as real;
    assert q * y == x;
    RemainderBounds(x, y, q, t);
  }

  lemma RemainderBounds(x: real, y: real, q: real, t: real)
    requires y > 0.0 && q * y == x
    requires q >= 0.0 ==> 0.0 <= q - t < 1.0
    requires q < 0.0 ==> -1.0 < q - t <= 0.0
    ensures var m := x - y * t;
      -y < m < y && (x >= 0.0 ==> m >= 0.0) && (x < 0.0 ==> m <= 0.0)
  {
    assert x - y * t == (q - t) * y;
    ScaleBounds(q - t, y, x - y * t);
    assert x >= 0.0 <==> q >= 0.0;
  }

  /** Multiplying a number in (-1,1) by a positive y keeps it in (-y,y), with
      its sign. */
  lemma ScaleBounds(e: real, y: real, m: real)
    requires -1.0 < e < 1.0 && y > 0.0 && m == e * y
    ensures -y < m < y
    ensures e >= 0.0 ==> m >= 0.0
    ensures e <= 0.0 ==> m <= 0.0
  {
  }

  /** Dividing by a positive d keeps bounds expressed as multiples of d. */
  lemma QuotientBounds(a: real, d: real, lo: real, hi: real)
    requires d > 0.0 && lo * d <= a <= hi * d
    ensures lo <= a / d <= hi
  {
    assert a == (a / d) * d;
  }

  /** `h=fmodf(h,360.0f); if(h<0)h+=360.0f;`: the hue brought into [0,360). */
  function WrapHue(h: real): (w: real)
    ensures 0.0 <= w < 360.0
  {
    var m := FMod(h, 360.0);
    if m < 0.0 then m + 360.0 else m
  }

  /** The hue normalisation agrees with the floored remainder, whatever the
      sign of the hue. */
  lemma WrapHueIsFloorMod(h: real)
    ensures WrapHue(h) == h - 360.0 * ((h / 360.0).Floor as real)
  {
    var q := h / 360.0;
    var fl := q.Floor;
    if q < 0.0 && fl as real != q {
      assert (-q).Floor == -fl - 1;
    } else if q < 0.0 {
      assert (-q).Floor == -fl;
    }
  }

  /** HSVtoRGB: the six-sector conversion; a saturation of 0 or less yields
      the gray of the value. */
  function HsvToRgb(h: real, s: real, v: real): (c: Rgb)
    ensures s <= 0.0 ==> c.r == c.g == c.b == ToByte(Channel(v))
  {
    if s <= 0.0 then
      var k := Channel(v);
      MakeRgb(k, k, k)
    else
      var rgb := SectorIntensity(h, s, v);
      MakeRgb(Channel(rgb.0), Channel(rgb.1), Channel(rgb.2))
  }

  /** The chromatic branch of HSVtoRGB before rounding: the sector of the hue
      orders v, p = v(1-s), q = v(1-sf) and t = v(1-s(1-f)). */
  function SectorIntensity(h: real, s: real, v: real): (real, real, real)
  {
    var sf := HueSector(h);
    var pqt := Intensities(s, v, sf.1);
    Sector(sf.0, v, pqt.0, pqt.1, pqt.2)
  }

  /** `p=v*(1-s), q=v*(1-s*f), t=v*(1-s*(1-f))`. */
  function Intensities(s: real, v: real, f: real): (real, real, real)
  {
    (v * (1.0 - s), v * (1.0 - s * f), v * (1.0 - s * (1.0 - f)))
  }

  /** `h/=60.0f; int i=(int)h; float f=h-i;` on the normalised hue: the sector
      index and the fraction within it. */
  function HueSector(h: real): (sf: (int, real))
    ensures 0 <= sf.0 < 6 && 0.0 <= sf.1 < 1.0
  {
    var h6 := WrapHue(h) / 60.0;
    var i := Trunc(h6);
    (i, h6 - i as real)
  }

  lemma SectorIntensityUnfold(h: real, s: real, v: real, i: int, f: real, p: real, q: real, t: real)
    requires (i, f) == HueSector(h)
    requires (p, q, t) == Intensities(s, v, f)
    ensures SectorIntensity(h, s, v) == Sector(i, v, p, q, t)
  {
  }

  /** The `switch(i)` of HSVtoRGB; every index above 4 takes the default
      case. */
  function Sector(i: int, v: real, p: real, q: real, t: real): (real, real, real)
  {
    if i == 0 then (v, t, p)
    else if i == 1 then (q, v, p)
    else if i == 2 then (p, v, t)
    else if i == 3 then (p, q, v)
    else if i == 4 then (t, p, v)
    else (v, p, q)
  }

  /** The threshold `1e-6f` below which RGBtoHSV treats a value or a
      saturation as zero. */
  const Epsilon: real := 0.000001

  /** RGBtoHSV: value is the largest channel, saturation the spread relative to
      it, hue zero for an (almost) achromatic colour and otherwise measured
      from the largest channel with the 0/120/240-degree offsets. */
  function RgbToHsv(c: Rgb): (hsv: Hsv)
  {
    var r := c.r as real / 255.0;
    var g := c.g as real / 255.0;
    var b := c.b as real / 255.0;
    var mx := Max3(r, g, b);
    var d := mx - Min3(r, g, b);
    var s := if mx < Epsilon then 0.0 else d / mx;
    if s < Epsilon then Hsv(0.0, s, mx) else Hsv(Hue(r, g, b, mx, d), s, mx)
  }

  /** The hue branch of RGBtoHSV, measured from the channel that equals the
      maximum (red first, then green) and moved into [0,360) when negative. */
  function Hue(r: real, g: real, b: real, mx: real, d: real): real
    requires d != 0.0
  {
    var h :=
      if mx == r then 60.0 * (g - b) / d
      else if mx == g then 60.0 * (b - r) / d + 120.0
      else 60.0 * (r - g) / d + 240.0;
    if h < 0.0 then h + 360.0 else h
  }

  lemma HueRange(r: real, g: real, b: real, mx: real, d: real)
    requires mx == Max3(r, g, b) && d == mx - Min3(r, g, b) && d > 0.0
    ensures 0.0 <= Hue(r, g, b, mx, d) < 360.0
  {
    if mx == r {
      QuotientBounds(60.0 * (g - b), d, -60.0, 60.0);
    } else if mx == g {
      QuotientBounds(60.0 * (b - r), d, -60.0, 60.0);
    } else {
      QuotientBounds(60.0 * (r - g), d, -60.0, 60.0);
    }
  }

  /** The channel intensities c/255 have the largest and smallest channel of
      the colour as their maximum and minimum. */
  lemma ScaledExtremes(c: Rgb)
    ensures Max3(c.r as real / 255.0, c.g as real / 255.0, c.b as real / 255.0) == MaxChannel(c) as real / 255.0
    ensures Min3(c.r as real / 255.0, c.g as real / 255.0, c.b as real / 255.0) == MinChannel(c) as real / 255.0
  {
  }

  /** RGBtoHSV gives v = largest channel / 255, s = spread / largest channel
      (0 for black), and a hue in [0,360). */
  lemma RgbToHsvRanges(c: Rgb)
    ensures RgbToHsv(c).v == MaxChannel(c) as real / 255.0
    ensures 0.0 <= RgbToHsv(c).v <= 1.0
    ensures 0.0 <= RgbToHsv(c).s <= 1.0
    ensures MaxChannel(c) > 0 ==>
      RgbToHsv(c).s == (MaxChannel(c) - MinChannel(c)) as real / MaxChannel(c) as real
    ensures 0.0 <= RgbToHsv(c).h < 360.0
  {
    var r, g, b := c.r as real / 255.0, c.g as real / 255.0, c.b as real / 255.0;
    ScaledExtremes(c);
    var mx := Max3(r, g, b);
    var d := mx - Min3(r, g, b);
    var hi, lo := MaxChannel(c) as real, MinChannel(c) as real;
    if MaxChannel(c) > 0 {
      assert mx >= Epsilon;
      SpreadRatio(hi, lo, mx, d);
      QuotientBounds(hi - lo, hi, 0.0, 1.0);
    }
    var s := if mx < Epsilon then 0.0 else d / mx;
    if s >= Epsilon {
      assert d > 0.0;
      HueRange(r, g, b, mx, d);
    }
  }

  lemma SpreadRatio(hi: real, lo: real, mx: real, d: real)
    requires hi > 0.0 && mx == hi / 255.0 && d == mx - lo / 255.0
    ensures d / mx == (hi - lo) / hi
  {
    assert d == (hi - lo) / 255.0;
  }

  /** RGBtoHSV's saturation test is exact on 8-bit colours: the saturation is
      below 1e-6 (and then 0, with hue 0) exactly when the three channels are
      equal. */
  lemma {:induction false} RgbToHsvAchromatic(c: Rgb)
    ensures RgbToHsv(c).s < Epsilon <==> c.r == c.g == c.b
    ensures c.r == c.g == c.b ==> RgbToHsv(c) == Hsv(0.0, 0.0, c.r as real / 255.0)
  {
    RgbToHsvRanges(c);
    var hi, lo := MaxChannel(c) as real, MinChannel(c) as real;
    if hi > lo {
      assert hi >= 1.0 && hi - lo >= 1.0;
      QuotientBounds(hi - lo, hi, 1.0 / 255.0, 1.0);
    }
  }

  /** With zero saturation the hue is ignored: every hue gives the same gray. */
  lemma HsvGrayIgnoresHue(h1: real, h2: real, s: real, v: real)
    requires s <= 0.0
    ensures HsvToRgb(h1, s, v) == HsvToRgb(h2, s, v)
    ensures 0.0 <= v <= 1.0 ==> HsvToRgb(h1, s, v) == Rgb(Channel(v), Channel(v), Channel(v))
  {
  }

  /** A value of 0 is black whatever the hue and saturation. */
  lemma HsvBlackAtZeroValue(h: real, s: real)
    ensures HsvToRgb(h, s, 0.0) == Rgb(0, 0, 0)
  {
    if s > 0.0 {
      var sf := HueSector(h);
      var pqt := Intensities(s, 0.0, sf.1);
      SectorIntensityUnfold(h, s, 0.0, sf.0, sf.1, pqt.0, pqt.1, pqt.2);
    }
  }

  // One step of real arithmetic, stated apart so the proofs that use it stay cheap for the solver.
  lemma MulMonotone(v: real, a: real, b: real)
    requires v >= 0.0 && a <= b
    ensures v * a <= v * b
  {
  }

  /** The three intermediate intensities p, q, t of HSVtoRGB lie between
      v(1-s) and v. */
  lemma SectorIntensities(s: real, v: real, f: real, p: real, q: real, t: real)
    requires 0.0 < s <= 1.0 && 0.0 <= v <= 1.0 && 0.0 <= f < 1.0
    requires p == v * (1.0 - s) && q == v * (1.0 - s * f) && t == v * (1.0 - s * (1.0 - f))
    ensures 0.0 <= p <= q <= v && p <= t <= v
  {
    MulMonotone(s, f, 1.0);
    MulMonotone(s, 1.0 - f, 1.0);
    MulMonotone(s, 0.0, f);
    MulMonotone(s, 0.0, 1.0 - f);
    MulMonotone(v, 0.0, 1.0 - s);
    MulMonotone(v, 1.0 - s, 1.0 - s * f);
    MulMonotone(v, 1.0 - s * f, 1.0);
    MulMonotone(v, 1.0 - s, 1.0 - s * (1.0 - f));
    MulMonotone(v, 1.0 - s * (1.0 - f), 1.0);
  }

  /** Every sector puts v in one channel and p = v(1-s) in another; the third
      is t in the even sectors 0, 2, 4 and q in the odd ones (5 being the
      default of the switch), and lies between them. */
  lemma SectorExtremes(i: int, f: real, s: real, v: real)
    requires 0.0 < s <= 1.0 && 0.0 <= v <= 1.0 && 0.0 <= f < 1.0
    ensures var pqt := Intensities(s, v, f);
      var rgb := Sector(i, v, pqt.0, pqt.1, pqt.2);
      && Max3(rgb.0, rgb.1, rgb.2) == v && Min3(rgb.0, rgb.1, rgb.2) == v * (1.0 - s)
      && 0.0 <= Min3(rgb.0, rgb.1, rgb.2)
    ensures var pqt := Intensities(s, v, f);
      var rgb := Sector(i, v, pqt.0, pqt.1, pqt.2);
      multiset{rgb.0, rgb.1, rgb.2}
        == multiset{v, pqt.0, if i == 0 || i == 2 || i == 4 then pqt.2 else pqt.1}
  {
    SectorIntensities(s, v, f, v * (1.0 - s), v * (1.0 - s * f), v * (1.0 - s * (1.0 - f)));
  }

  /** Rounding three intensities in [0,1] to channels keeps which is largest
      and smallest. */
  lemma ChannelExtremes(a: real, b: real, c: real)
    requires 0.0 <= a <= 1.0 && 0.0 <= b <= 1.0 && 0.0 <= c <= 1.0
    ensures var rgb := MakeRgb(Channel(a), Channel(b), Channel(c));
      MaxChannel(rgb) == Channel(Max3(a, b, c)) && MinChannel(rgb) == Channel(Min3(a, b, c))
  {
    ChannelInRange(a);
    ChannelInRange(b);
    ChannelInRange(c);
    ChannelMonotone(Min3(a, b, c), a);
    ChannelMonotone(Min3(a, b, c), b);
    ChannelMonotone(Min3(a, b, c), c);
    ChannelMonotone(a, Max3(a, b, c));
    ChannelMonotone(b, Max3(a, b, c));
    ChannelMonotone(c, Max3(a, b, c));
  }

  /** For s and v in [0,1], HSVtoRGB's largest channel is round(255 v) and its
      smallest round(255 v (1-s)): the value is the largest channel, as
      RGBtoHSV reads it back. */
  lemma {:induction false} HsvToRgbExtremes(h: real, s: real, v: real)
    requires 0.0 <= s <= 1.0 && 0.0 <= v <= 1.0
    ensures MaxChannel(HsvToRgb(h, s, v)) == Channel(v)
    ensures MinChannel(HsvToRgb(h, s, v)) == Channel(v * (1.0 - s))
  {
    ChannelInRange(v);
    if s > 0.0 {
      var sf := HueSector(h);
      var i, f := sf.0, sf.1;
      var pqt := Intensities(s, v, f);
      var p, q, t := pqt.0, pqt.1, pqt.2;
      SectorIntensityUnfold(h, s, v, i, f, p, q, t);
      SectorExtremes(i, f, s, v);
      var rgb := Sector(i, v, p, q, t);
      ChannelExtremes(rgb.0, rgb.1, rgb.2);
    }
  }

  /** A hue already in [0,360) is left alone by the normalisation. */
  lemma WrapHueIdentity(h: real)
    requires 0.0 <= h < 360.0
    ensures WrapHue(h) == h
  {
    assert Trunc(h / 360.0) == 0;
  }

  // One step of real arithmetic, stated apart so the proofs that use it stay cheap for the solver.
  lemma QuotientTimes(a: real, d: real)
    requires d != 0.0
    ensures d * (a / d) == a
    ensures 60.0 * a / d == 60.0 * (a / d)
  {
  }

  /** HSVtoRGB inverts RGBtoHSV exactly on the chromatic branch: the sector and
      fraction that RGBtoHSV's hue encodes lead back to the three intensities. */
  lemma {:induction false} ChromaticSector(r: real, g: real, b: real)
    requires 0.0 <= r && 0.0 <= g && 0.0 <= b
    requires Max3(r, g, b) > Min3(r, g, b)
    ensures var mx := Max3(r, g, b);
      var d := mx - Min3(r, g, b);
      SectorIntensity(Hue(r, g, b, mx, d), d / mx, mx) == (r, g, b)
  {
    var mx := Max3(r, g, b);
    var mn := Min3(r, g, b);
    var d := mx - mn;
    var h := Hue(r, g, b, mx, d);
    HueRange(r, g, b, mx, d);
    var sf := HueSector(h);
    var i, f := sf.0, sf.1;
    var s := d / mx;
    var pqt := Intensities(s, mx, f);
    var p, q, t := pqt.0, pqt.1, pqt.2;
    SectorIntensityUnfold(h, s, mx, i, f, p, q, t);
    IntensitiesOfSpread(mx, d, f);
    if mx == r {
      RedSector(r, g, b, mx, mn, d, i, f, q, t);
    } else if mx == g {
      GreenSector(r, g, b, mx, mn, d, i, f, q, t);
    } else {
      BlueSector(r, g, b, mx, mn, d, i, f, q, t);
    }
  }

  /** d f = a + d k when f is a/d shifted by k; a one-step helper that keeps
      the sector proofs cheap for the solver. */
  lemma ScaledFraction(a: real, d: real, f: real, k: real)
    requires d > 0.0 && f == a / d + k
    ensures d * f == a + d * k
  {
    assert d * (a / d) == a;
  }

  // One step of real arithmetic, stated apart so the proofs that use it stay cheap for the solver.
  lemma Distribute(d: real, u: real)
    ensures d * (u + 1.0) == d * u + d
    ensures d * (1.0 - u) == d - d * u
  {
  }

  // One step of real arithmetic, stated apart so the proofs that use it stay cheap for the solver.
  lemma SignOfQuotient(a: real, d: real)
    requires d > 0.0
    ensures a / d < 0.0 <==> a < 0.0
  {
    assert a == d * (a / d);
  }

  /** With s = d/v, the intensities p, q, t of HSVtoRGB are v - d, v - d f and
      v - d (1-f). */
  lemma IntensitiesOfSpread(v: real, d: real, f: real)
    requires v > 0.0
    ensures Intensities(d / v, v, f) == (v - d, v - d * f, v - d * (1.0 - f))
  {
    assert v * (d / v) == d;
    assert v * ((d / v) * f) == d * f;
    assert v * ((d / v) * (1.0 - f)) == d * (1.0 - f);
  }

  /** The sector picked for a normalised hue h6 = i + f with 0 <= f < 1. */
  lemma HueSectorOf(h: real, i: int, f: real)
    requires 0.0 <= h < 360.0 && 0.0 <= f < 1.0 && h / 60.0 == i as real + f
    ensures HueSector(h) == (i, f)
  {
    WrapHueIdentity(h);
  }

  /** Red is the largest channel: the hue 60(g-b)/d, moved up by 360 when
      negative, falls in sector 0 or 5 (or 1 at g = r). */
  lemma RedSector(r: real, g: real, b: real, mx: real, mn: real, d: real, i: int, f: real, q: real, t: real)
    requires mx == r && r >= g && r >= b && mn == Min3(r, g, b) && mn >= 0.0
    requires d == mx - mn && d > 0.0
    requires 0.0 <= Hue(r, g, b, mx, d) < 360.0
    requires (i, f) == HueSector(Hue(r, g, b, mx, d))
    requires q == mx - d * f && t == mx - d * (1.0 - f)
    ensures Sector(i, mx, mx - d, q, t) == (r, g, b)
  {
    var u := (g - b) / d;
    QuotientTimes(g - b, d);
    QuotientProduct(g - b, d, u);
    QuotientBounds(g - b, d, -1.0, 1.0);
    SignOfQuotient(g - b, d);
    var h := Hue(r, g, b, mx, d);
    if u >= 0.0 {
      assert g >= b && mn == b;
      assert h == 60.0 * u;
      RedUpper(r, g, b, mx, d, u, h, i, f, q, t);
    } else {
      assert b > g && mn == g;
      assert h == 60.0 * u + 360.0;
      RedLower(r, g, b, mx, d, u, h, i, f, q, t);
    }
  }

  // One step of real arithmetic, stated apart so the proofs that use it stay cheap for the solver.
  lemma QuotientProduct(a: real, d: real, u: real)
    requires d != 0.0 && u == a / d
    ensures d * u == a
  {
  }

  /** Sector 0 (or 1 at g = r): green at or above blue. */
  lemma RedUpper(r: real, g: real, b: real, mx: real, d: real, u: real, h: real, i: int, f: real, q: real, t: real)
    requires r >= g >= b && d == r - b && d > 0.0
    requires d * u == g - b && 0.0 <= u <= 1.0
    requires h == 60.0 * u && (i, f) == HueSector(h)
    requires mx == r && q == mx - d * f && t == mx - d * (1.0 - f)
    ensures Sector(i, mx, mx - d, q, t) == (r, g, b)
  {
    if u == 1.0 {
      HueSectorOf(h, 1, 0.0);
    } else {
      HueSectorOf(h, 0, u);
      Distribute(d, u);
    }
  }

  /** Sector 5: blue above green. */
  lemma RedLower(r: real, g: real, b: real, mx: real, d: real, u: real, h: real, i: int, f: real, q: real, t: real)
    requires r >= b > g && d == r - g && d > 0.0
    requires d * u == g - b && -1.0 <= u < 0.0
    requires h == 60.0 * u + 360.0 && (i, f) == HueSector(h)
    requires mx == r && q == mx - d * f && t == mx - d * (1.0 - f)
    ensures Sector(i, mx, mx - d, q, t) == (r, g, b)
  {
    if u == -1.0 {
      HueSectorOf(h, 5, 0.0);
    } else {
      HueSectorOf(h, 5, u + 1.0);
      Distribute(d, u);
      assert d * f == d * u + d;
      assert i == 5 && q == b && r - d == g;
    }
  }

  /** Green is the largest channel (red is not): the hue 60(b-r)/d + 120 falls
      in sector 1 or 2 (or 3 at b = g). */
  lemma GreenSector(r: real, g: real, b: real, mx: real, mn: real, d: real, i: int, f: real, q: real, t: real)
    requires mx == g && mx != r && g >= r && g >= b && mn == Min3(r, g, b) && mn >= 0.0
    requires d == mx - mn && d > 0.0
    requires 0.0 <= Hue(r, g, b, mx, d) < 360.0
    requires (i, f) == HueSector(Hue(r, g, b, mx, d))
    requires q == mx - d * f && t == mx - d * (1.0 - f)
    ensures Sector(i, mx, mx - d, q, t) == (r, g, b)
  {
    var h := Hue(r, g, b, mx, d);
    var u := (b - r) / d;
    QuotientTimes(b - r, d);
    QuotientProduct(b - r, d, u);
    QuotientBounds(b - r, d, -1.0, 1.0);
    SignOfQuotient(b - r, d);
    Distribute(d, f);
    assert h == 60.0 * u + 120.0;
    if u == 1.0 {
      HueSectorOf(h, 3, 0.0);
    } else if u >= 0.0 {
      HueSectorOf(h, 2, u);
      ScaledFraction(b - r, d, f, 0.0);
    } else {
      assert u > -1.0;
      HueSectorOf(h, 1, u + 1.0);
      ScaledFraction(b - r, d, f, 1.0);
    }
  }

  /** Blue is the largest channel (red and green are not): the hue
      60(r-g)/d + 240 falls in sector 3 or 4. */
  lemma BlueSector(r: real, g: real, b: real, mx: real, mn: real, d: real, i: int, f: real, q: real, t: real)
    requires mx == b && mx != r && mx != g && b >= r && b >= g && mn == Min3(r, g, b) && mn >= 0.0
    requires d == mx - mn && d > 0.0
    requires 0.0 <= Hue(r, g, b, mx, d) < 360.0
    requires (i, f) == HueSector(Hue(r, g, b, mx, d))
    requires q == mx - d * f && t == mx - d * (1.0 - f)
    ensures Sector(i, mx, mx - d, q, t) == (r, g, b)
  {
    var h := Hue(r, g, b, mx, d);
    var u := (r - g) / d;
    QuotientTimes(r - g, d);
    QuotientProduct(r - g, d, u);
    QuotientBounds(r - g, d, -1.0, 1.0);
    SignOfQuotient(r - g, d);
    Distribute(d, f);
    assert h == 60.0 * u + 240.0;
    if u >= 0.0 {
      assert u < 1.0;
      HueSectorOf(h, 4, u);
      ScaledFraction(r - g, d, f, 0.0);
    } else if u == -1.0 {
      HueSectorOf(h, 3, 0.0);
    } else {
      HueSectorOf(h, 3, u + 1.0);
      ScaledFraction(r - g, d, f, 1.0);
    }
  }

  /** In exact arithmetic the picker's conversions lose nothing on 8-bit
      colours: RGBtoHSV followed by HSVtoRGB gives back the same COLORREF. */
  lemma {:induction false} RgbHsvRgbRoundTrip(c: Rgb)
    ensures var hsv := RgbToHsv(c); HsvToRgb(hsv.h, hsv.s, hsv.v) == c
  {
    if c.r == c.g == c.b {
      GrayRoundTrip(c);
    } else {
      ChromaticRoundTrip(c);
    }
  }

  lemma GrayRoundTrip(c: Rgb)
    requires c.r == c.g == c.b
    ensures var hsv := RgbToHsv(c); HsvToRgb(hsv.h, hsv.s, hsv.v) == c
  {
    RgbToHsvAchromatic(c);
    ChannelOfByte(c.r);
  }

  /** On a colour with distinct channels RGBtoHSV takes its chromatic branch. */
  lemma RgbToHsvChromatic(c: Rgb, r: real, g: real, b: real)
    requires !(c.r == c.g == c.b)
    requires r == c.r as real / 255.0 && g == c.g as real / 255.0 && b == c.b as real / 255.0
    ensures Max3(r, g, b) > Min3(r, g, b) >= 0.0
    ensures var mx := Max3(r, g, b);
      var d := mx - Min3(r, g, b);
      RgbToHsv(c) == Hsv(Hue(r, g, b, mx, d), d / mx, mx)
  {
    RgbToHsvAchromatic(c);
    RgbToHsvRanges(c);
    ScaledExtremes(c);
  }

  lemma {:induction false} ChromaticRoundTrip(c: Rgb)
    requires !(c.r == c.g == c.b)
    ensures var hsv := RgbToHsv(c); HsvToRgb(hsv.h, hsv.s, hsv.v) == c
  {
    var r, g, b := c.r as real / 255.0, c.g as real / 255.0, c.b as real / 255.0;
    RgbToHsvChromatic(c, r, g, b);
    var mx := Max3(r, g, b);
    var d := mx - Min3(r, g, b);
    var h, s := Hue(r, g, b, mx, d), d / mx;
    assert s > 0.0;
    ChromaticSector(r, g, b);
    assert SectorIntensity(h, s, mx) == (r, g, b);
    ChannelOfByte(c.r);
    ChannelOfByte(c.g);
    ChannelOfByte(c.b);
    assert HsvToRgb(h, s, mx) == MakeRgb(Channel(r), Channel(g), Channel(b));
  }
}
