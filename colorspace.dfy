/** RGB to HSL and back (colors.go: ToHSL, FromHSLf), over real numbers. */
module ColorSpace {
  import opened Colors

  /** An HSL triple: hue in degrees, saturation and lightness. */
  datatype Hsl = Hsl(h: real, s: real, l: real)

  function Max(x: real, y: real): real { if x >= y then x else y }

  function Min(x: real, y: real): real { if x <= y then x else y }

  function Abs(x: real): real { if x < 0.0 then -x else x }

  // ---------------------------------------------------------------------------
  // Real-number helpers
  // ---------------------------------------------------------------------------

  /** 0 <= a <= b with b > 0 gives a quotient in [0, 1]. */
  lemma QuotientInUnit(a: real, b: real)
    requires 0.0 <= a <= b && b > 0.0
    ensures 0.0 <= a / b <= 1.0
  {
    var q := a / b;
    assert q * b == a;
  }

  /** |a| <= d with d > 0 gives a quotient in [-1, 1] with the sign of a. */
  lemma QuotientBounds(a: real, d: real)
    requires d > 0.0 && -d <= a <= d
    ensures -1.0 <= a / d <= 1.0
    ensures a >= 0.0 ==> a / d >= 0.0
    ensures a < 0.0 ==> a / d < 0.0
  {
    var q := a / d;
    assert q * d == a;
  }

  lemma ProductInRange(c: real, k: real)
    requires c >= 0.0 && 0.0 <= k <= 1.0
    ensures 0.0 <= c * k <= c
  {
    assert c * (1.0 - k) >= 0.0;
  }

  // ---------------------------------------------------------------------------
  // ToHSL
  // ---------------------------------------------------------------------------

  /** ToHSL: lightness is the mean of the largest and smallest channel; an
      achromatic colour has hue and saturation 0; otherwise the hue is taken from
      the channel that is largest, trying R, then G, then B. */
  function ToHSL(c: Color): Hsl
  {
    var r, g, b := c.r as real / 255.0, c.g as real / 255.0, c.b as real / 255.0;
    var mx := Max(Max(r, g), b);
    var mn := Min(Min(r, g), b);
    var d := mx - mn;
    var l := (mx + mn) / 2.0;
    if d == 0.0 then Hsl(0.0, 0.0, l)
    else
      var s := if l < 0.5 then d / (mx + mn) else d / (2.0 - mx - mn);
      var h :=
        if mx == r then (g - b) / d + (if g < b then 6.0 else 0.0)
        else if mx == g then (b - r) / d + 2.0
        else (r - g) / d + 4.0;
      Hsl(h * 60.0, s, l)
  }

  predicate Achromatic(c: Color) { c.r == c.g == c.b }

  /** The ranges ToHSL promises: hue in [0, 360), saturation and lightness in
      [0, 1]; an achromatic colour (R = G = B) has hue 0 and saturation 0. */
  lemma ToHSLRange(c: Color)
    ensures var t := ToHSL(c); 0.0 <= t.h < 360.0 && 0.0 <= t.s <= 1.0 && 0.0 <= t.l <= 1.0
    ensures Achromatic(c) ==> ToHSL(c).h == 0.0 && ToHSL(c).s == 0.0
  {
    var r, g, b := c.r as real / 255.0, c.g as real / 255.0, c.b as real / 255.0;
    var mx := Max(Max(r, g), b);
    var mn := Min(Min(r, g), b);
    var d := mx - mn;
    var l := (mx + mn) / 2.0;
    if d != 0.0 {
      if l < 0.5 {
        QuotientInUnit(d, mx + mn);
      } else {
        QuotientInUnit(d, 2.0 - mx - mn);
      }
      if mx == r {
        QuotientBounds(g - b, d);
      } else if mx == g {
        QuotientBounds(b - r, d);
      } else {
        QuotientBounds(r - g, d);
      }
    }
  }

  /** The hue sector follows the dominant channel, with ties going to R before G
      before B: R largest gives a hue in [0, 60] (G >= B) or [300, 360) (G < B),
      G largest in [60, 180], B largest in [180, 300]. */
  lemma {:induction false} ToHSLSector(c: Color)
    requires !Achromatic(c)
    ensures c.r >= c.g && c.r >= c.b && c.g >= c.b ==> 0.0 <= ToHSL(c).h <= 60.0
    ensures c.r >= c.g && c.r >= c.b && c.g < c.b ==> 300.0 <= ToHSL(c).h < 360.0
    ensures c.g > c.r && c.g >= c.b ==> 60.0 <= ToHSL(c).h <= 180.0
    ensures c.b > c.r && c.b > c.g ==> 180.0 <= ToHSL(c).h <= 300.0
  {
    var r, g, b := c.r as real / 255.0, c.g as real / 255.0, c.b as real / 255.0;
    var mx := Max(Max(r, g), b);
    var mn := Min(Min(r, g), b);
    var d := mx - mn;
    assert d > 0.0;
    if mx == r {
      QuotientBounds(g - b, d);
    } else if mx == g {
      QuotientBounds(b - r, d);
    } else {
      QuotientBounds(r - g, d);
    }
  }

  // ---------------------------------------------------------------------------
  // Remainders
  // ---------------------------------------------------------------------------

  lemma ScaleUp(y: real, t: real)
    requires y > 0.0 && 0.0 <= t < 1.0
    ensures 0.0 <= y * t < y
  {
    assert y * (1.0 - t) > 0.0;
  }

  lemma ScaleDown(y: real, t: real)
    requires y > 0.0 && -1.0 < t <= 0.0
    ensures -y < y * t <= 0.0
  {
    assert y * (1.0 + t) > 0.0;
  }

  lemma SignOfQuotient(x: real, y: real, q: real)
    requires y > 0.0 && q * y == x
    ensures x >= 0.0 <==> q >= 0.0
  {
  }

  /** x - y * floor(x / y) lies in [0, y). */
  lemma FloorRemainder(x: real, y: real, q: real, k: int)
    requires y > 0.0 && q * y == x && k as real <= q < k as real + 1.0
    ensures 0.0 <= x - y * k as real < y
  {
    var t := q - k as real;
    assert x - y * k as real == y * t;
    ScaleUp(y, t);
  }

  /** x - y * ceiling(x / y) lies in (-y, 0]. */
  lemma CeilRemainder(x: real, y: real, q: real, k: int)
    requires y > 0.0 && q * y == x && k as real - 1.0 < q <= k as real
    ensures -y < x - y * k as real <= 0.0
  {
    var t := q - k as real;
    assert x - y * k as real == y * t;
    ScaleDown(y, t);
  }

  /** math.Mod(x, y) for y > 0: x minus y times the quotient truncated toward
      zero, so the result has the sign of x and magnitude below y. */
  function FMod(x: real, y: real): (r: real)
    requires y > 0.0
    ensures x >= 0.0 ==> 0.0 <= r < y
    ensures x < 0.0 ==> -y < r <= 0.0
  {
    var q := x / y;
    SignOfQuotient(x, y, q);
    if q >= 0.0 then
      FloorRemainder(x, y, q, q.Floor);
      x - y * q.Floor as real
    else
      CeilRemainder(x, y, q, -((-q).Floor));
      x - y * (-((-q).Floor)) as real
  }

  /** Remainder with the sign of the divisor: the wrap into [0, y) that a hue
      modulo 360 is meant to be. */
  function FloorMod(x: real, y: real): (r: real)
    requires y > 0.0
    ensures 0.0 <= r < y
  {
    var q := x / y;
    FloorRemainder(x, y, q, q.Floor);
    x - y * q.Floor as real
  }

  /** Reducing a hue in [0, 720) modulo 360 subtracts one turn at most. */
  lemma HueModSmall(x: real)
    requires 0.0 <= x < 720.0
    ensures FMod(x, 360.0) == FloorMod(x, 360.0) == (if x < 360.0 then x else x - 360.0)
  {
  }

  lemma ModAgreeNonNegative(x: real, y: real)
    requires y > 0.0 && x >= 0.0
    ensures FMod(x, y) == FloorMod(x, y)
  {
  }

  lemma HueFloorModPeriodic(x: real)
    ensures FloorMod(x + 360.0, 360.0) == FloorMod(x, 360.0)
  {
    var q := x / 360.0;
    assert (x + 360.0) / 360.0 == q + 1.0;
    assert (q + 1.0).Floor == q.Floor + 1;
    assert FloorMod(x + 360.0, 360.0) == x + 360.0 - 360.0 * (q.Floor + 1) as real;
  }

  // ---------------------------------------------------------------------------
  // FromHSLf
  // ---------------------------------------------------------------------------

  /** The body of FromHSLf after the hue has been reduced: chroma, the second
      largest component, the lightness offset, and the sector table. */
  function HslToColor(h: real, s: real, l: real, a: real): Color
  {
    var (rf, gf, bf) := Components(h, s, l);
    FromFloats(rf, gf, bf, a)
  }

  /** The red, green and blue floats, before conversion to bytes: chroma c, the
      second largest component x and the lightness offset m. */
  function Components(h: real, s: real, l: real): (real, real, real)
  {
    var c := Chroma(s, l);
    var m := l - c / 2.0;
    SectorTable(h, c, SecondComponent(h, c), m)
  }

  /** c = (1 - |2l - 1|) * s */
  function Chroma(s: real, l: real): real
  {
    (1.0 - Abs(2.0 * l - 1.0)) * s
  }

  /** x = c * (1 - |mod(h / 60, 2) - 1|) */
  function SecondComponent(h: real, c: real): real
  {
    c * SecondFactor(h)
  }

  function SecondFactor(h: real): real
  {
    1.0 - Abs(FMod(h / 60.0, 2.0) - 1.0)
  }

  /** The six-way switch on the hue, with the offset m added to each float. */
  function SectorTable(h: real, c: real, x: real, m: real): (real, real, real)
  {
    var (rf, gf, bf) :=
      if h < 60.0 then (c, x, 0.0)
      else if h < 120.0 then (x, c, 0.0)
      else if h < 180.0 then (0.0, c, x)
      else if h < 240.0 then (0.0, x, c)
      else if h < 300.0 then (x, 0.0, c)
      else (c, 0.0, x);
    (rf + m, gf + m, bf + m)
  }

  predicate SectorOrdered(h: real, t: (real, real, real))
  {
    var (rf, gf, bf) := t;
    && (h < 60.0 ==> rf >= gf >= bf)
    && (60.0 <= h < 120.0 ==> gf >= rf >= bf)
    && (120.0 <= h < 180.0 ==> gf >= bf >= rf)
    && (180.0 <= h < 240.0 ==> bf >= gf >= rf)
    && (240.0 <= h < 300.0 ==> bf >= rf >= gf)
    && (300.0 <= h ==> rf >= bf >= gf)
  }

  /** For saturation and lightness in [0, 1] the second component lies between
      zero and the chroma, so each sector orders the three floats. */
  lemma {:induction false} ComponentsSector(h: real, s: real, l: real)
    requires 0.0 <= h && 0.0 <= s <= 1.0 && 0.0 <= l <= 1.0
    ensures SectorOrdered(h, Components(h, s, l))
  {
    var c := Chroma(s, l);
    ChromaNonNegative(s, l);
    SecondComponentInRange(h, c);
    SectorTableOrdered(h, c, SecondComponent(h, c), l - c / 2.0);
  }

  lemma SecondComponentInRange(h: real, c: real)
    requires 0.0 <= h && 0.0 <= c
    ensures 0.0 <= SecondComponent(h, c) <= c
  {
    var k := SecondFactor(h);
    SecondFactorInUnit(h);
    ProductInRange(c, k);
    assert c * k <= c;
    assert SecondComponent(h, c) == c * k;
  }

  lemma ChromaNonNegative(s: real, l: real)
    requires 0.0 <= s <= 1.0 && 0.0 <= l <= 1.0
    ensures 0.0 <= Chroma(s, l)
  {
    ProductInRange(s, 1.0 - Abs(2.0 * l - 1.0));
  }

  lemma SecondFactorInUnit(h: real)
    requires 0.0 <= h
    ensures 0.0 <= SecondFactor(h) <= 1.0
  {
  }

  lemma SectorTableOrdered(h: real, c: real, x: real, m: real)
    requires 0.0 <= x <= c
    ensures SectorOrdered(h, SectorTable(h, c, x, m))
  {
  }

  /** FromHSLf as written: math.Mod keeps the sign of a negative hue, which then
      falls into the first sector. */
  function FromHSLfAsWritten(h: real, s: real, l: real, a: real): Color
  {
    HslToColor(FMod(h, 360.0), s, l, a)
  }

  /** FromHSLf with the hue wrapped into [0, 360). It coincides with the code as
      written on every non-negative hue, which is all the harmonies pass. */
  function FromHSLf(h: real, s: real, l: real, a: real): (c: Color)
    ensures c.a == FloatToByte(a)
  {
    HslToColor(FloorMod(h, 360.0), s, l, a)
  }

  lemma {:induction false} FromHSLfAgreesOnNonNegativeHues(h: real, s: real, l: real, a: real)
    requires h >= 0.0
    ensures FromHSLfAsWritten(h, s, l, a) == FromHSLf(h, s, l, a)
  {
    ModAgreeNonNegative(h, 360.0);
  }

  /** Adding a full turn does not change the colour. */
  lemma {:induction false} FromHSLfPeriodic(h: real, s: real, l: real, a: real)
    ensures FromHSLf(h + 360.0, s, l, a) == FromHSLf(h, s, l, a)
  {
    HueFloorModPeriodic(h);
  }

  /** With saturation 0 every channel is the lightness, as a byte. */
  lemma FromHSLfGrey(h: real, l: real, a: real)
    ensures var c := FromHSLf(h, 0.0, l, a); c.r == c.g == c.b == FloatToByte(l)
  {
  }

  /** For saturation and lightness in [0, 1], the hue sector fixes the order of
      the channels: the sector's primary is largest, and the secondary lies
      between it and the third. */
  lemma {:induction false} FromHSLfSector(h: real, s: real, l: real, a: real)
    requires 0.0 <= s <= 1.0 && 0.0 <= l <= 1.0
    ensures var hh, c := FloorMod(h, 360.0), FromHSLf(h, s, l, a);
      && (hh < 60.0 ==> c.r >= c.g >= c.b)
      && (60.0 <= hh < 120.0 ==> c.g >= c.r >= c.b)
      && (120.0 <= hh < 180.0 ==> c.g >= c.b >= c.r)
      && (180.0 <= hh < 240.0 ==> c.b >= c.g >= c.r)
      && (240.0 <= hh < 300.0 ==> c.b >= c.r >= c.g)
      && (300.0 <= hh ==> c.r >= c.b >= c.g)
  {
    var hh := FloorMod(h, 360.0);
    ComponentsSector(hh, s, l);
    assert SectorOrdered(hh, Components(hh, s, l));
    var (rf, gf, bf) := Components(hh, s, l);
    forall u, v | u in {rf, gf, bf} && v in {rf, gf, bf} && u <= v
      ensures FloatToByte(u) <= FloatToByte(v)
    {
      FloatToByteMonotone(u, v);
    }
  }

  /** The source's negative-hue case: -30 degrees should equal 330 degrees, but
      the code as written renders it without its blue component. */
  lemma NegativeHueAsWritten()
    ensures FromHSLfAsWritten(-30.0, 1.0, 0.5, 1.0) == Color(255, 0, 0, 255)
    ensures FromHSLfAsWritten(330.0, 1.0, 0.5, 1.0) == Color(255, 0, 127, 255)
    ensures FromHSLf(-30.0, 1.0, 0.5, 1.0) == FromHSLf(330.0, 1.0, 0.5, 1.0)
  {
    assert FMod(-30.0, 360.0) == -30.0;
    assert FMod(-30.0 / 60.0, 2.0) == -0.5;
    assert FMod(330.0, 360.0) == 330.0;
    assert FMod(330.0 / 60.0, 2.0) == 1.5;
    assert FloatToByte(0.5) == 127;
    FromHSLfPeriodic(-30.0, 1.0, 0.5, 1.0);
  }
}
