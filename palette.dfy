/** Palettes (palette.go): a list of colours that can be flattened to floats,
    sorted in place, and expanded into colour harmonies and shades. */
module Palettes {
  import opened Colors
  import opened ColorSpace
  import Sort

  // ---------------------------------------------------------------------------
  // Colour requests
  // ---------------------------------------------------------------------------

  /** The arguments of one FromHSLf call: hue in degrees, saturation, lightness
      and alpha, all as floats. */
  datatype Hsla = Hsla(h: real, s: real, l: real, a: real)

  /** A colour's own hue, saturation and lightness, with alpha A / 255: where
      every harmony starts. */
  function Base(c: Color): Hsla
  {
    var t := ToHSL(c);
    Hsla(t.h, t.s, t.l, c.a as real / 255.0)
  }

  /** The colour a request produces. */
  function Render(q: Hsla): Color
  {
    FromHSLf(q.h, q.s, q.l, q.a)
  }

  /** f applied to each element of s, in order. */
  function Map<A, B>(f: A -> B, s: seq<A>): (r: seq<B>)
    ensures |r| == |s|
  {
    if s == [] then [] else Map(f, s[..|s| - 1]) + [f(s[|s| - 1])]
  }

  lemma {:induction false} MapAt<A, B>(f: A -> B, s: seq<A>, i: int)
    requires 0 <= i < |s|
    ensures Map(f, s)[i] == f(s[i])
  {
    if i < |s| - 1 {
      MapAt(f, s[..|s| - 1], i);
    }
  }

  lemma {:induction false} MapAppend<A, B>(f: A -> B, x: seq<A>, y: seq<A>)
    ensures Map(f, x + y) == Map(f, x) + Map(f, y)
  {
    if y != [] {
      var y' := y[..|y| - 1];
      assert (x + y)[..|x + y| - 1] == x + y';
      assert (x + y)[|x + y| - 1] == y[|y| - 1];
      MapAppend(f, x, y');
      calc {
        Map(f, x + y);
        Map(f, x + y') + [f(y[|y| - 1])];
        Map(f, x) + Map(f, y') + [f(y[|y| - 1])];
        Map(f, x) + Map(f, y);
      }
    } else {
      assert x + y == x;
    }
  }

  /** The one, two or three colours a harmony appends for one colour. */
  lemma MapShort<A, B>(f: A -> B, a: A, b: A, c: A)
    ensures Map(f, [a]) == [f(a)]
    ensures Map(f, [a, b]) == [f(a), f(b)]
    ensures Map(f, [a, b, c]) == [f(a), f(b), f(c)]
  {
    assert [a, b][..1] == [a];
    assert [a, b, c][..2] == [a, b];
  }

  /** The colours a list of requests produces, in order. */
  function Renders(qs: seq<Hsla>): seq<Color>
  {
    Map(Render, qs)
  }

  /** The starting request of each colour of a list. */
  function Bases(cs: seq<Color>): (bs: seq<Hsla>)
    ensures |bs| == |cs|
  {
    if cs == [] then [] else Bases(cs[..|cs| - 1]) + [Base(cs[|cs| - 1])]
  }

  lemma BasesSnoc(cs: seq<Color>, c: Color)
    ensures Bases(cs + [c]) == Bases(cs) + [Base(c)]
  {
    assert (cs + [c])[..|cs|] == cs;
  }

  lemma {:induction false} BasesAt(cs: seq<Color>, i: int)
    requires 0 <= i < |cs|
    ensures Bases(cs)[i] == Base(cs[i])
  {
    if i < |cs| - 1 {
      BasesAt(cs[..|cs| - 1], i);
    }
  }

  /** The request with the hue turned by delta degrees, math.Mod(h + delta, 360). */
  function Turn(q: Hsla, delta: real): (t: Hsla)
    ensures t.s == q.s && t.l == q.l && t.a == q.a
    ensures q.h + delta >= 0.0 ==> 0.0 <= t.h < 360.0
  {
    q.(h := FMod(q.h + delta, 360.0))
  }

  /** Complementary: the hue + 180. */
  function ComplementaryOf(b: Hsla): seq<Hsla>
  {
    [Turn(b, 180.0)]
  }

  /** Triadic: the hues + 120 and + 240, in that order. */
  function TriadicOf(b: Hsla): seq<Hsla>
  {
    [Turn(b, 120.0), Turn(b, 240.0)]
  }

  /** Tetradic: the hues + 90, + 180 and + 270, in that order. */
  function TetradicOf(b: Hsla): seq<Hsla>
  {
    [Turn(b, 90.0), Turn(b, 180.0), Turn(b, 270.0)]
  }

  /** AnalogousAccent: with accent = hue + 180, the hues accent + 30, accent and
      accent - 30 + 360, in that order. */
  function AnalogousAccentOf(b: Hsla): seq<Hsla>
  {
    var acc := Turn(b, 180.0);
    [Turn(acc, 30.0), acc, Turn(acc, -30.0 + 360.0)]
  }

  /** Analogues: the hues + 30 and - 30 + 360, in that order. */
  function AnaloguesOf(b: Hsla): seq<Hsla>
  {
    [Turn(b, 30.0), Turn(b, -30.0 + 360.0)]
  }

  /** The lightness of shade i of steps: the shift strength * i / steps is
      added on odd steps and subtracted on even ones, then clamped. */
  function ShadeLightness(l0: real, strength: real, steps: int, i: int): real
    requires steps > 0
  {
    var shift := strength * i as real / steps as real;
    if i % 2 == 1 then Clamp(l0 + shift) else Clamp(l0 - shift)
  }

  /** Shades(n, strength) of one colour: the colour with its lightness clamped,
      then steps = n - 1 shades (none when n <= 1). */
  function ShadesOf(b: Hsla, n: int, strength: real): seq<Hsla>
  {
    var steps := n - 1;
    [b.(l := Clamp(b.l))]
      + if steps <= 0 then []
        else seq(steps, k requires 0 <= k < steps => b.(l := ShadeLightness(b.l, strength, steps, k + 1)))
  }

  /** The requests a harmony makes for a list of colours, given their starting
      requests: each colour's, one colour after the other. */
  function Expand(bs: seq<Hsla>, f: Hsla -> seq<Hsla>): seq<Hsla>
  {
    if bs == [] then [] else Expand(bs[..|bs| - 1], f) + f(bs[|bs| - 1])
  }

  lemma ExpandSnoc(bs: seq<Hsla>, b: Hsla, f: Hsla -> seq<Hsla>)
    ensures Expand(bs + [b], f) == Expand(bs, f) + f(b)
  {
    assert (bs + [b])[..|bs|] == bs;
  }

  /** When each colour yields k requests, the expansion has k requests per
      input colour ... */
  lemma {:induction false} ExpandLength(bs: seq<Hsla>, f: Hsla -> seq<Hsla>, k: nat)
    requires forall i | 0 <= i < |bs| :: |f(bs[i])| == k
    ensures |Expand(bs, f)| == k * |bs|
  {
    if bs != [] {
      var init := bs[..|bs| - 1];
      assert forall i | 0 <= i < |init| :: init[i] == bs[i];
      ExpandLength(init, f, k);
      assert k * |bs| == k * |init| + k;
    }
  }

  /** ... and the block of colour i starts at k * i, in request order. */
  lemma {:induction false} ExpandAt(bs: seq<Hsla>, f: Hsla -> seq<Hsla>, k: nat, i: int, j: int)
    requires forall i | 0 <= i < |bs| :: |f(bs[i])| == k
    requires 0 <= i < |bs| && 0 <= j < k
    ensures k * i + j < |Expand(bs, f)|
    ensures Expand(bs, f)[k * i + j] == f(bs[i])[j]
  {
    var init := bs[..|bs| - 1];
    forall i' | 0 <= i' < |init| ensures |f(init[i'])| == k {
      assert init[i'] == bs[i'];
    }
    ExpandLength(init, f, k);
    assert Expand(bs, f) == Expand(init, f) + f(bs[|bs| - 1]);
    if i < |init| {
      ExpandAt(init, f, k, i, j);
      BlockBefore(k, i, |init|);
      assert init[i] == bs[i];
    } else {
      assert k * i == k * |init|;
    }
  }

  /** A block of k that starts before n blocks ends within them. */
  lemma {:induction false} BlockBefore(k: nat, i: int, n: int)
    requires 0 <= i < n
    ensures k * i + k <= k * n
    decreases n - i
  {
    assert k * (i + 1) == k * i + k;
    if i + 1 < n {
      BlockBefore(k, i + 1, n);
    }
  }

  // ---------------------------------------------------------------------------
  // What the harmonies promise
  // ---------------------------------------------------------------------------

  /** A colour's own hue lies in [0, 360). */
  lemma BaseInRange(c: Color)
    ensures 0.0 <= Base(c).h < 360.0
  {
    ToHSLRange(c);
  }

  /** The request keeps the saturation, lightness and alpha of b and asks for a
      hue in [0, 360). */
  predicate TurnedFrom(q: Hsla, b: Hsla)
  {
    0.0 <= q.h < 360.0 && q.s == b.s && q.l == b.l && q.a == b.a
  }

  /** Every hue the harmonies pass to FromHSLf lies in [0, 360), so math.Mod and
      the wrapped hue of FromHSLf agree on it. */
  lemma HarmonyRequestsInRange(b: Hsla)
    requires 0.0 <= b.h < 360.0
    ensures forall q | q in ComplementaryOf(b) :: TurnedFrom(q, b)
    ensures forall q | q in TriadicOf(b) :: TurnedFrom(q, b)
    ensures forall q | q in TetradicOf(b) :: TurnedFrom(q, b)
    ensures forall q | q in AnalogousAccentOf(b) :: TurnedFrom(q, b)
    ensures forall q | q in AnaloguesOf(b) :: TurnedFrom(q, b)
  {
    var acc := Turn(b, 180.0);
    assert acc.h + 30.0 >= 0.0 && acc.h + 330.0 >= 0.0;
  }

  /** Rendering such a request is FromHSLf exactly as written. */
  lemma RenderAsWritten(q: Hsla)
    requires q.h >= 0.0
    ensures Render(q) == FromHSLfAsWritten(q.h, q.s, q.l, q.a)
  {
    FromHSLfAgreesOnNonNegativeHues(q.h, q.s, q.l, q.a);
  }

  /** Turning by 180 twice gives the hue back: the complement of the complement. */
  lemma ComplementInvolution(b: Hsla)
    requires 0.0 <= b.h < 360.0
    ensures Turn(ComplementaryOf(b)[0], 180.0) == b
  {
    HueModSmall(b.h + 180.0);
    HueModSmall(FMod(b.h + 180.0, 360.0) + 180.0);
  }

  /** The three triadic hues are a cycle: one more turn of 120 from each gives
      the next, and from the last the original. */
  lemma TriadicCycle(b: Hsla)
    requires 0.0 <= b.h < 360.0
    ensures Turn(TriadicOf(b)[0], 120.0) == TriadicOf(b)[1]
    ensures Turn(TriadicOf(b)[1], 120.0) == b
  {
    HueModSmall(b.h + 120.0);
    HueModSmall(b.h + 240.0);
    HueModSmall(FMod(b.h + 120.0, 360.0) + 120.0);
    HueModSmall(FMod(b.h + 240.0, 360.0) + 120.0);
  }

  /** The two analogues undo each other. */
  lemma AnaloguesInverse(b: Hsla)
    requires 0.0 <= b.h < 360.0
    ensures Turn(AnaloguesOf(b)[0], -30.0 + 360.0) == b
    ensures Turn(AnaloguesOf(b)[1], 30.0) == b
  {
    HueModSmall(b.h + 30.0);
    HueModSmall(b.h + 330.0);
    HueModSmall(FMod(b.h + 30.0, 360.0) + 330.0);
    HueModSmall(FMod(b.h + 330.0, 360.0) + 30.0);
  }

  /** AnalogousAccent is the complement flanked by the complement's analogues;
      the tetradic set holds the complement in its middle. */
  lemma AccentIsComplementWithAnalogues(b: Hsla)
    ensures AnalogousAccentOf(b)[1] == ComplementaryOf(b)[0] == TetradicOf(b)[1]
    ensures AnalogousAccentOf(b)[0] == AnaloguesOf(ComplementaryOf(b)[0])[0]
    ensures AnalogousAccentOf(b)[2] == AnaloguesOf(ComplementaryOf(b)[0])[1]
  {
  }

  /** Shades(n, strength) asks for max(n, 1) colours of the same hue, saturation
      and alpha, each with a lightness in [0, 1]; for a non-negative strength
      the odd steps are no darker and the even steps no lighter than the first. */
  lemma {:induction false} ShadesShape(b: Hsla, n: int, strength: real)
    ensures |ShadesOf(b, n, strength)| == if n >= 1 then n else 1
    ensures forall q | q in ShadesOf(b, n, strength) ::
      q.h == b.h && q.s == b.s && q.a == b.a && 0.0 <= q.l <= 1.0
    ensures ShadesOf(b, n, strength)[0].l == Clamp(b.l)
    ensures strength >= 0.0 ==> forall i | 1 <= i < |ShadesOf(b, n, strength)| ::
      var l := ShadesOf(b, n, strength)[i].l;
      if i % 2 == 1 then l >= Clamp(b.l) else l <= Clamp(b.l)
  {
    var qs := ShadesOf(b, n, strength);
    var steps := n - 1;
    if strength >= 0.0 && steps > 0 {
      forall i | 1 <= i < |qs|
        ensures if i % 2 == 1 then qs[i].l >= Clamp(b.l) else qs[i].l <= Clamp(b.l)
      {
        var shift := strength * i as real / steps as real;
        ShiftNonNegative(strength, i, steps);
        assert qs[i] == b.(l := ShadeLightness(b.l, strength, steps, i));
        ClampMonotone(b.l, b.l + shift);
        ClampMonotone(b.l - shift, b.l);
      }
    }
  }

  lemma ShiftNonNegative(strength: real, i: int, steps: int)
    requires strength >= 0.0 && i >= 0 && steps > 0
    ensures strength * i as real / steps as real >= 0.0
  {
    assert strength * i as real >= 0.0;
  }

  // ---------------------------------------------------------------------------
  // Whole palettes
  // ---------------------------------------------------------------------------

  /** Complementary on n requests (the palette's, Bases(cs)): n requests, the
      complement of request i at i. */
  lemma ComplementaryLayout(bs: seq<Hsla>)
    ensures var out := Expand(bs, ComplementaryOf);
      && |out| == |bs|
      && forall i | 0 <= i < |bs| :: out[i] == Turn(bs[i], 180.0)
  {
    ExpandLength(bs, ComplementaryOf, 1);
    forall i | 0 <= i < |bs| ensures Expand(bs, ComplementaryOf)[i] == Turn(bs[i], 180.0) {
      ExpandAt(bs, ComplementaryOf, 1, i, 0);
    }
  }

  /** Triadic: 2n requests, for each request i the hues + 120 and + 240 at 2i
      and 2i + 1. */
  lemma TriadicLayout(bs: seq<Hsla>)
    ensures var out := Expand(bs, TriadicOf);
      && |out| == 2 * |bs|
      && forall i | 0 <= i < |bs| ::
        && out[2 * i] == Turn(bs[i], 120.0)
        && out[2 * i + 1] == Turn(bs[i], 240.0)
  {
    ExpandLength(bs, TriadicOf, 2);
    var out := Expand(bs, TriadicOf);
    forall i | 0 <= i < |bs|
      ensures out[2 * i] == Turn(bs[i], 120.0)
      ensures out[2 * i + 1] == Turn(bs[i], 240.0)
    {
      ExpandAt(bs, TriadicOf, 2, i, 0);
      ExpandAt(bs, TriadicOf, 2, i, 1);
    }
  }

  /** Tetradic: 3n requests, for each request i the hues + 90, + 180 and + 270
      from 3i on. */
  lemma TetradicLayout(bs: seq<Hsla>)
    ensures var out := Expand(bs, TetradicOf);
      && |out| == 3 * |bs|
      && forall i | 0 <= i < |bs| ::
        && out[3 * i] == Turn(bs[i], 90.0)
        && out[3 * i + 1] == Turn(bs[i], 180.0)
        && out[3 * i + 2] == Turn(bs[i], 270.0)
  {
    ExpandLength(bs, TetradicOf, 3);
    var out := Expand(bs, TetradicOf);
    forall i | 0 <= i < |bs|
      ensures out[3 * i] == Turn(bs[i], 90.0)
      ensures out[3 * i + 1] == Turn(bs[i], 180.0)
      ensures out[3 * i + 2] == Turn(bs[i], 270.0)
    {
      ExpandAt(bs, TetradicOf, 3, i, 0);
      ExpandAt(bs, TetradicOf, 3, i, 1);
      ExpandAt(bs, TetradicOf, 3, i, 2);
    }
  }

  /** The accent's requests, with the last turn written as + 330. */
  lemma AccentRequests(b: Hsla)
    ensures AnalogousAccentOf(b) == [Turn(Turn(b, 180.0), 30.0), Turn(b, 180.0), Turn(Turn(b, 180.0), 330.0)]
  {
    assert -30.0 + 360.0 == 330.0;
  }

  /** AnalogousAccent: 3n requests, for each request i the hues accent + 30,
      accent and accent - 30 from 3i on. */
  lemma AnalogousAccentLayout(bs: seq<Hsla>)
    ensures var out := Expand(bs, AnalogousAccentOf);
      && |out| == 3 * |bs|
      && forall i | 0 <= i < |bs| ::
        && out[3 * i] == Turn(Turn(bs[i], 180.0), 30.0)
        && out[3 * i + 1] == Turn(bs[i], 180.0)
        && out[3 * i + 2] == Turn(Turn(bs[i], 180.0), 330.0)
  {
    ExpandLength(bs, AnalogousAccentOf, 3);
    var out := Expand(bs, AnalogousAccentOf);
    forall i | 0 <= i < |bs|
      ensures out[3 * i] == Turn(Turn(bs[i], 180.0), 30.0)
      ensures out[3 * i + 1] == Turn(bs[i], 180.0)
      ensures out[3 * i + 2] == Turn(Turn(bs[i], 180.0), 330.0)
    {
      AccentRequests(bs[i]);
      ExpandAt(bs, AnalogousAccentOf, 3, i, 0);
      ExpandAt(bs, AnalogousAccentOf, 3, i, 1);
      ExpandAt(bs, AnalogousAccentOf, 3, i, 2);
    }
  }

  /** Analogues, before sorting: 2n requests, the hues + 30 and - 30 of request
      i at 2i and 2i + 1. */
  lemma AnaloguesLayout(bs: seq<Hsla>)
    ensures var out := Expand(bs, AnaloguesOf);
      && |out| == 2 * |bs|
      && forall i | 0 <= i < |bs| ::
        && out[2 * i] == Turn(bs[i], 30.0)
        && out[2 * i + 1] == Turn(bs[i], 330.0)
  {
    ExpandLength(bs, AnaloguesOf, 2);
    var out := Expand(bs, AnaloguesOf);
    forall i | 0 <= i < |bs|
      ensures out[2 * i] == Turn(bs[i], 30.0)
      ensures out[2 * i + 1] == Turn(bs[i], 330.0)
    {
      ExpandAt(bs, AnaloguesOf, 2, i, 0);
      ExpandAt(bs, AnaloguesOf, 2, i, 1);
    }
  }

  /** Shades, before sorting: k = max(n, 1) requests for each request, the
      shades of request i from k * i on. */
  lemma ShadesLayout(bs: seq<Hsla>, n: int, strength: real)
    ensures var k := if n >= 1 then n else 1;
      var out := Expand(bs, b => ShadesOf(b, n, strength));
      && |out| == k * |bs|
      && forall i, j | 0 <= i < |bs| && 0 <= j < k ::
        k * i + j < |out| && out[k * i + j] == ShadesOf(bs[i], n, strength)[j]
  {
    ShadesLengths(bs, n, strength);
    ExpandLayout(bs, b => ShadesOf(b, n, strength), if n >= 1 then n else 1);
    ExpandLength(bs, b => ShadesOf(b, n, strength), if n >= 1 then n else 1);
  }

  lemma ShadesLengths(bs: seq<Hsla>, n: int, strength: real)
    ensures forall i | 0 <= i < |bs| :: |ShadesOf(bs[i], n, strength)| == if n >= 1 then n else 1
  {
    forall i | 0 <= i < |bs| ensures |ShadesOf(bs[i], n, strength)| == if n >= 1 then n else 1 {
      ShadesShape(bs[i], n, strength);
    }
  }

  /** ExpandLength and ExpandAt together, for every position. */
  lemma ExpandLayout(bs: seq<Hsla>, f: Hsla -> seq<Hsla>, k: nat)
    requires forall i | 0 <= i < |bs| :: |f(bs[i])| == k
    ensures forall i, j | 0 <= i < |bs| && 0 <= j < k ::
      k * i + j < |Expand(bs, f)| && Expand(bs, f)[k * i + j] == f(bs[i])[j]
  {
    forall i, j | 0 <= i < |bs| && 0 <= j < k
      ensures k * i + j < |Expand(bs, f)| && Expand(bs, f)[k * i + j] == f(bs[i])[j]
    {
      ExpandAt(bs, f, k, i, j);
    }
  }

  // ---------------------------------------------------------------------------
  // The palettes as the code is written
  // ---------------------------------------------------------------------------

  /** The colour a request produces with FromHSLf exactly as written. */
  function RenderWritten(q: Hsla): Color
  {
    FromHSLfAsWritten(q.h, q.s, q.l, q.a)
  }

  /** Requests with non-negative hues render the same under either FromHSLf. */
  lemma {:induction false} RendersAsWritten(qs: seq<Hsla>)
    requires forall i | 0 <= i < |qs| :: qs[i].h >= 0.0
    ensures Renders(qs) == Map(RenderWritten, qs)
  {
    if qs != [] {
      var init := qs[..|qs| - 1];
      assert forall i | 0 <= i < |init| :: init[i] == qs[i];
      RendersAsWritten(init);
      RenderAsWritten(qs[|qs| - 1]);
    }
  }

  /** Every request of an expansion is one of some colour's requests. */
  lemma {:induction false} ExpandFrom(bs: seq<Hsla>, f: Hsla -> seq<Hsla>, q: Hsla)
    requires q in Expand(bs, f)
    ensures exists i | 0 <= i < |bs| :: q in f(bs[i])
  {
    var init := bs[..|bs| - 1];
    if q in Expand(init, f) {
      ExpandFrom(init, f, q);
      var i :| 0 <= i < |init| && q in f(init[i]);
      assert init[i] == bs[i];
    } else {
      assert q in f(bs[|bs| - 1]);
    }
  }

  /** A harmony that asks only for non-negative hues for a colour whose hue is
      in [0, 360) renders the same list of colours under the code as written. */
  lemma HarmonyAsWritten(cs: seq<Color>, f: Hsla -> seq<Hsla>)
    requires forall b: Hsla, q: Hsla | 0.0 <= b.h < 360.0 && q in f(b) :: q.h >= 0.0
    ensures Renders(Expand(Bases(cs), f)) == Map(RenderWritten, Expand(Bases(cs), f))
  {
    var bs := Bases(cs);
    var qs := Expand(bs, f);
    forall k | 0 <= k < |qs| ensures qs[k].h >= 0.0 {
      ExpandFrom(bs, f, qs[k]);
      var i :| 0 <= i < |bs| && qs[k] in f(bs[i]);
      BasesAt(cs, i);
      BaseInRange(cs[i]);
    }
    RendersAsWritten(qs);
  }

  /** Every palette method renders the same colours with FromHSLf as written:
      the hue correction never changes what the palettes produce. */
  lemma PalettesAsWritten(cs: seq<Color>, n: int, strength: real)
    ensures Renders(Expand(Bases(cs), ComplementaryOf)) == Map(RenderWritten, Expand(Bases(cs), ComplementaryOf))
    ensures Renders(Expand(Bases(cs), TriadicOf)) == Map(RenderWritten, Expand(Bases(cs), TriadicOf))
    ensures Renders(Expand(Bases(cs), TetradicOf)) == Map(RenderWritten, Expand(Bases(cs), TetradicOf))
    ensures Renders(Expand(Bases(cs), AnalogousAccentOf)) == Map(RenderWritten, Expand(Bases(cs), AnalogousAccentOf))
    ensures Renders(Expand(Bases(cs), AnaloguesOf)) == Map(RenderWritten, Expand(Bases(cs), AnaloguesOf))
    ensures var f := b => ShadesOf(b, n, strength);
      Renders(Expand(Bases(cs), f)) == Map(RenderWritten, Expand(Bases(cs), f))
  {
    forall b: Hsla | 0.0 <= b.h < 360.0
      ensures forall q | q in ComplementaryOf(b) :: q.h >= 0.0
      ensures forall q | q in TriadicOf(b) :: q.h >= 0.0
      ensures forall q | q in TetradicOf(b) :: q.h >= 0.0
      ensures forall q | q in AnalogousAccentOf(b) :: q.h >= 0.0
      ensures forall q | q in AnaloguesOf(b) :: q.h >= 0.0
    {
      HarmonyRequestsInRange(b);
    }
    HarmonyAsWritten(cs, ComplementaryOf);
    HarmonyAsWritten(cs, TriadicOf);
    HarmonyAsWritten(cs, TetradicOf);
    HarmonyAsWritten(cs, AnalogousAccentOf);
    HarmonyAsWritten(cs, AnaloguesOf);
    var f := b => ShadesOf(b, n, strength);
    forall b: Hsla, q: Hsla | 0.0 <= b.h < 360.0 && q in f(b) ensures q.h >= 0.0 {
      ShadesShape(b, n, strength);
    }
    HarmonyAsWritten(cs, f);
  }

  /** Non-decreasing lightness: what SortByHSL(false, false, true) leaves. */
  ghost predicate LightnessSorted(cs: seq<Color>)
  {
    forall i, j | 0 <= i < j < |cs| :: ToHSL(cs[i]).l <= ToHSL(cs[j]).l
  }

  lemma LightnessOrder(cs: seq<Color>)
    requires forall i, j | 0 <= i < j < |cs| :: !Sort.ColorLess(false, false, true, cs[j], cs[i])
    ensures LightnessSorted(cs)
  {
    forall i, j | 0 <= i < j < |cs| ensures ToHSL(cs[i]).l <= ToHSL(cs[j]).l {
      Sort.HslLessLexicographic(false, false, true, ToHSL(cs[j]), ToHSL(cs[i]));
    }
  }

  // ---------------------------------------------------------------------------
  // The Palette type
  // ---------------------------------------------------------------------------

  /** The four floats Color.ToFloats returns. */
  datatype Floats = Floats(r: real, g: real, b: real, a: real)

  function Component(f: Floats, j: int): real
    requires 0 <= j < 4
  {
    if j == 0 then f.r else if j == 1 then f.g else if j == 2 then f.b else f.a
  }

  /** The loop body of Complementary for one colour c. */
  method ComplementOfColor(c: Color) returns (r: seq<Color>)
    ensures r == Renders(ComplementaryOf(Base(c)))
  {
    var t := ToHSL(c);
    var hComp := FMod(t.h + 180.0, 360.0);
    ghost var a := c.a as real / 255.0;
    ghost var q := Hsla(hComp, t.s, t.l, a);
    assert ComplementaryOf(Base(c)) == [q];
    r := [FromHSLf(hComp, t.s, t.l, c.a as real / 255.0)];
    MapShort(Render, q, q, q);
  }

  /** The loop body of Triadic for one colour c. */
  method TriadOfColor(c: Color) returns (r: seq<Color>)
    ensures r == Renders(TriadicOf(Base(c)))
  {
    var t := ToHSL(c);
    var h1 := FMod(t.h + 120.0, 360.0);
    var h2 := FMod(t.h + 240.0, 360.0);
    ghost var a := c.a as real / 255.0;
    ghost var q1, q2 := Hsla(h1, t.s, t.l, a), Hsla(h2, t.s, t.l, a);
    assert TriadicOf(Base(c)) == [q1, q2];
    r := [
      FromHSLf(h1, t.s, t.l, c.a as real / 255.0),
      FromHSLf(h2, t.s, t.l, c.a as real / 255.0)];
    MapShort(Render, q1, q2, q2);
  }

  /** The loop body of Tetradic for one colour c. */
  method TetradOfColor(c: Color) returns (r: seq<Color>)
    ensures r == Renders(TetradicOf(Base(c)))
  {
    var t := ToHSL(c);
    var h1 := FMod(t.h + 90.0, 360.0);
    var h2 := FMod(t.h + 180.0, 360.0);
    var h3 := FMod(t.h + 270.0, 360.0);
    ghost var a := c.a as real / 255.0;
    ghost var q1, q2, q3 := Hsla(h1, t.s, t.l, a), Hsla(h2, t.s, t.l, a), Hsla(h3, t.s, t.l, a);
    assert TetradicOf(Base(c)) == [q1, q2, q3];
    r := [
      FromHSLf(h1, t.s, t.l, c.a as real / 255.0),
      FromHSLf(h2, t.s, t.l, c.a as real / 255.0),
      FromHSLf(h3, t.s, t.l, c.a as real / 255.0)];
    MapShort(Render, q1, q2, q3);
  }

  /** The loop body of AnalogousAccent for one colour c. */
  method AccentOfColor(c: Color) returns (r: seq<Color>)
    ensures r == Renders(AnalogousAccentOf(Base(c)))
  {
    var t := ToHSL(c);
    var hAcc := FMod(t.h + 180.0, 360.0);
    var h1 := FMod(hAcc + 30.0, 360.0);
    var h2 := FMod(hAcc - 30.0 + 360.0, 360.0);
    ghost var a := c.a as real / 255.0;
    ghost var q1, q2, q3 := Hsla(h1, t.s, t.l, a), Hsla(hAcc, t.s, t.l, a), Hsla(h2, t.s, t.l, a);
    assert Turn(Base(c), 180.0) == q2;
    assert hAcc - 30.0 + 360.0 == hAcc + (-30.0 + 360.0);
    assert AnalogousAccentOf(Base(c)) == [q1, q2, q3];
    r := [
      FromHSLf(h1, t.s, t.l, c.a as real / 255.0),
      FromHSLf(hAcc, t.s, t.l, c.a as real / 255.0),
      FromHSLf(h2, t.s, t.l, c.a as real / 255.0)];
    MapShort(Render, q1, q2, q3);
  }

  /** The loop body of Analogues for one colour c. */
  method AnaloguesOfColor(c: Color) returns (r: seq<Color>)
    ensures r == Renders(AnaloguesOf(Base(c)))
  {
    var t := ToHSL(c);
    var h1 := FMod(t.h + 30.0, 360.0);
    var h2 := FMod(t.h - 30.0 + 360.0, 360.0);
    ghost var a := c.a as real / 255.0;
    ghost var q1, q2 := Hsla(h1, t.s, t.l, a), Hsla(h2, t.s, t.l, a);
    assert t.h - 30.0 + 360.0 == t.h + (-30.0 + 360.0);
    assert AnaloguesOf(Base(c)) == [q1, q2];
    r := [
      FromHSLf(h1, t.s, t.l, c.a as real / 255.0),
      FromHSLf(h2, t.s, t.l, c.a as real / 255.0)];
    MapShort(Render, q1, q2, q2);
  }

  /** acc holds the colours a harmony f produces for the first i colours of cs. */
  ghost predicate Expanded(cs: seq<Color>, i: int, f: Hsla -> seq<Hsla>, acc: seq<Color>)
    requires 0 <= i <= |cs|
  {
    acc == Renders(Expand(Bases(cs[..i]), f))
  }

  /** One more colour of a palette adds that colour's requests to the output. */
  lemma ExpandStep(cs: seq<Color>, i: int, f: Hsla -> seq<Hsla>, acc: seq<Color>, r: seq<Color>)
    requires 0 <= i < |cs|
    requires Expanded(cs, i, f, acc)
    requires r == Renders(f(Base(cs[i])))
    ensures Expanded(cs, i + 1, f, acc + r)
  {
    assert cs[..i + 1] == cs[..i] + [cs[i]];
    BasesSnoc(cs[..i], cs[i]);
    ExpandSnoc(Bases(cs[..i]), Base(cs[i]), f);
    MapAppend(Render, Expand(Bases(cs[..i]), f), f(Base(cs[i])));
  }

  /** One pass of Complementary's loop: colour i's results extend the output. */
  method ComplementStep(c: Color, ghost cs: seq<Color>, i: int, ghost acc: seq<Color>) returns (r: seq<Color>)
    requires 0 <= i < |cs| && c == cs[i]
    requires Expanded(cs, i, ComplementaryOf, acc)
    ensures Expanded(cs, i + 1, ComplementaryOf, acc + r)
  {
    r := ComplementOfColor(c);
    ExpandStep(cs, i, ComplementaryOf, acc, r);
  }

  /** One pass of Triadic's loop: colour i's results extend the output. */
  method TriadStep(c: Color, ghost cs: seq<Color>, i: int, ghost acc: seq<Color>) returns (r: seq<Color>)
    requires 0 <= i < |cs| && c == cs[i]
    requires Expanded(cs, i, TriadicOf, acc)
    ensures Expanded(cs, i + 1, TriadicOf, acc + r)
  {
    r := TriadOfColor(c);
    ExpandStep(cs, i, TriadicOf, acc, r);
  }

  /** One pass of Tetradic's loop: colour i's results extend the output. */
  method TetradStep(c: Color, ghost cs: seq<Color>, i: int, ghost acc: seq<Color>) returns (r: seq<Color>)
    requires 0 <= i < |cs| && c == cs[i]
    requires Expanded(cs, i, TetradicOf, acc)
    ensures Expanded(cs, i + 1, TetradicOf, acc + r)
  {
    r := TetradOfColor(c);
    ExpandStep(cs, i, TetradicOf, acc, r);
  }

  /** One pass of AnalogousAccent's loop: colour i's results extend the output. */
  method AccentStep(c: Color, ghost cs: seq<Color>, i: int, ghost acc: seq<Color>) returns (r: seq<Color>)
    requires 0 <= i < |cs| && c == cs[i]
    requires Expanded(cs, i, AnalogousAccentOf, acc)
    ensures Expanded(cs, i + 1, AnalogousAccentOf, acc + r)
  {
    r := AccentOfColor(c);
    ExpandStep(cs, i, AnalogousAccentOf, acc, r);
  }

  /** One pass of Analogues's loop: colour i's results extend the output. */
  method AnaloguesStep(c: Color, ghost cs: seq<Color>, i: int, ghost acc: seq<Color>) returns (r: seq<Color>)
    requires 0 <= i < |cs| && c == cs[i]
    requires Expanded(cs, i, AnaloguesOf, acc)
    ensures Expanded(cs, i + 1, AnaloguesOf, acc + r)
  {
    r := AnaloguesOfColor(c);
    ExpandStep(cs, i, AnaloguesOf, acc, r);
  }

  /** One pass of Shades's outer loop: colour i's shades extend the output. */
  method ShadesStep(c: Color, n: int, strength: real, ghost cs: seq<Color>, i: int, ghost acc: seq<Color>)
    returns (r: seq<Color>)
    requires 0 <= i < |cs| && c == cs[i]
    requires Expanded(cs, i, b => ShadesOf(b, n, strength), acc)
    ensures Expanded(cs, i + 1, b => ShadesOf(b, n, strength), acc + r)
  {
    r := ShadesOfColor(c, n, strength);
    ExpandStep(cs, i, b => ShadesOf(b, n, strength), acc, r);
  }

  /** r holds the colours of the first i requests of qs. */
  ghost predicate RendersPrefix(qs: seq<Hsla>, i: int, r: seq<Color>)
    requires 0 <= i <= |qs|
  {
    r == Renders(qs[..i])
  }

  lemma RendersPrefixStep(qs: seq<Hsla>, i: int, r: seq<Color>, next: Color)
    requires 0 <= i < |qs|
    requires RendersPrefix(qs, i, r)
    requires next == Render(qs[i])
    ensures RendersPrefix(qs, i + 1, r + [next])
  {
    assert qs[..i + 1] == qs[..i] + [qs[i]];
    MapAppend(Render, qs[..i], [qs[i]]);
    MapShort(Render, qs[i], qs[i], qs[i]);
  }

  /** Request i of ShadesOf, for 1 <= i <= steps. */
  lemma ShadesOfAt(b: Hsla, n: int, strength: real, i: int)
    requires 1 <= i < n
    ensures |ShadesOf(b, n, strength)| == n
    ensures ShadesOf(b, n, strength)[i] == b.(l := ShadeLightness(b.l, strength, n - 1, i))
  {
  }

  /** Shade i of steps: the lightness shifted by strength * i / steps, up on odd
      steps and down on even ones, then clamped. */
  method Shade(h: real, s: real, l0: real, a: real, strength: real, steps: int, i: int) returns (next: Color)
    requires steps > 0
    ensures next == Render(Hsla(h, s, ShadeLightness(l0, strength, steps, i), a))
  {
    var shift := strength * i as real / steps as real;
    if i % 2 == 1 {
      var lighter := Clamp(l0 + shift);
      next := FromHSLf(h, s, lighter, a);
    } else {
      var darker := Clamp(l0 - shift);
      next := FromHSLf(h, s, darker, a);
    }
  }

  /** The loop body of Shades for one colour c: the colour with its lightness
      clamped, then steps = n - 1 shades, lighter on odd steps and darker on
      even ones. */
  method ShadesOfColor(c: Color, n: int, strength: real) returns (r: seq<Color>)
    ensures r == Renders(ShadesOf(Base(c), n, strength))
  {
    var t := ToHSL(c);
    var h, s, l0 := t.h, t.s, t.l;
    ghost var b := Base(c);
    assert b == Hsla(h, s, l0, c.a as real / 255.0);
    ghost var qs := ShadesOf(b, n, strength);
    assert qs[0] == b.(l := Clamp(l0));
    r := [FromHSLf(h, s, Clamp(l0), c.a as real / 255.0)];
    RendersPrefixStep(qs, 0, [], r[0]);
    var steps := n - 1;
    if steps == 0 {
      assert qs[..1] == qs;
      return;
    }
    var i := 1;
    while i <= steps
      invariant 1 <= i
      invariant i <= steps + 1 || steps < 1
      invariant i <= |qs|
      invariant RendersPrefix(qs, i, r)
    {
      var next := Shade(h, s, l0, c.a as real / 255.0, strength, steps, i);
      ShadesOfAt(b, n, strength, i);
      RendersPrefixStep(qs, i, r, next);
      r := r + [next];
      i := i + 1;
    }
    assert qs[..i] == qs;
  }

  class Palette {
    /** The palette's colours. A Go slice: SortByHSL reorders it in place. */
    var colors: array<Color>

    /** NewPalette(colors...): the palette holds the caller's slice itself. */
    constructor NewPalette(cs: array<Color>)
      ensures colors == cs
    {
      colors := cs;
    }

    /** Palette{Colors: result} for a result built by append onto a nil
        slice, which never shares storage with the receiver's Colors. */
    constructor Of(cs: seq<Color>)
      ensures fresh(colors) && colors[..] == cs
    {
      colors := new Color[|cs|](i requires 0 <= i < |cs| => cs[i]);
    }

    /** ToFlatRGBFloats: R, G and B of each colour's ToFloats, three per colour. */
    method ToFlatRGBFloats(toFloats: Color -> Floats) returns (r: array<real>)
      ensures fresh(r)
      ensures r.Length == 3 * colors.Length
      ensures forall i, j | 0 <= i < colors.Length && 0 <= j < 3 ::
        r[3 * i + j] == Component(toFloats(colors[i]), j)
    {
      r := new real[colors.Length * 3];
      var idx := 0;
      for i := 0 to colors.Length
        invariant idx == 3 * i
        invariant forall i', j | 0 <= i' < i && 0 <= j < 3 ::
          r[3 * i' + j] == Component(toFloats(colors[i']), j)
      {
        var floats := toFloats(colors[i]);
        r[idx], r[idx + 1], r[idx + 2] := floats.r, floats.g, floats.b;
        idx := idx + 3;
      }
    }

    /** ToFlatRGBAFloats: all four floats of each colour, four per colour. */
    method ToFlatRGBAFloats(toFloats: Color -> Floats) returns (r: array<real>)
      ensures fresh(r)
      ensures r.Length == 4 * colors.Length
      ensures forall i, j | 0 <= i < colors.Length && 0 <= j < 4 ::
        r[4 * i + j] == Component(toFloats(colors[i]), j)
    {
      r := new real[colors.Length * 4];
      var idx := 0;
      for i := 0 to colors.Length
        invariant idx == 4 * i
        invariant forall i', j | 0 <= i' < i && 0 <= j < 4 ::
          r[4 * i' + j] == Component(toFloats(colors[i']), j)
      {
        var floats := toFloats(colors[i]);
        r[idx], r[idx + 1], r[idx + 2], r[idx + 3] := floats.r, floats.g, floats.b, floats.a;
        idx := idx + 4;
      }
    }

    /** SortByHSL on the palette's own slice. */
    method SortByHSL(byHue: bool, bySat: bool, byLight: bool)
      modifies colors
      ensures multiset(colors[..]) == old(multiset(colors[..]))
      ensures forall i, j | 0 <= i < j < colors.Length ::
        !Sort.ColorLess(byHue, bySat, byLight, colors[j], colors[i])
    {
      Sort.SortByHSL(colors, byHue, bySat, byLight);
    }

    /** Complementary: the colours, then one complement per colour. */
    method Complementary() returns (np: Palette)
      ensures fresh(np) && fresh(np.colors)
      ensures np.colors[..] == colors[..] + Renders(Expand(Bases(colors[..]), ComplementaryOf))
    {
      var result := colors[..];
      ghost var acc: seq<Color> := [];
      for i := 0 to colors.Length
        invariant result == colors[..] + acc
        invariant Expanded(colors[..], i, ComplementaryOf, acc)
      {
        var r := ComplementStep(colors[i], colors[..], i, acc);
        result := result + r;
        acc := acc + r;
      }
      assert colors[..colors.Length] == colors[..];
      np := new Palette.Of(result);
    }

    /** Triadic: the colours, then two more per colour. */
    method Triadic() returns (np: Palette)
      ensures fresh(np) && fresh(np.colors)
      ensures np.colors[..] == colors[..] + Renders(Expand(Bases(colors[..]), TriadicOf))
    {
      var result := colors[..];
      ghost var acc: seq<Color> := [];
      for i := 0 to colors.Length
        invariant result == colors[..] + acc
        invariant Expanded(colors[..], i, TriadicOf, acc)
      {
        var r := TriadStep(colors[i], colors[..], i, acc);
        result := result + r;
        acc := acc + r;
      }
      assert colors[..colors.Length] == colors[..];
      np := new Palette.Of(result);
    }

    /** Tetradic: the colours, then three more per colour. */
    method Tetradic() returns (np: Palette)
      ensures fresh(np) && fresh(np.colors)
      ensures np.colors[..] == colors[..] + Renders(Expand(Bases(colors[..]), TetradicOf))
    {
      var result := colors[..];
      ghost var acc: seq<Color> := [];
      for i := 0 to colors.Length
        invariant result == colors[..] + acc
        invariant Expanded(colors[..], i, TetradicOf, acc)
      {
        var r := TetradStep(colors[i], colors[..], i, acc);
        result := result + r;
        acc := acc + r;
      }
      assert colors[..colors.Length] == colors[..];
      np := new Palette.Of(result);
    }

    /** AnalogousAccent: the colours, then accent + 30, accent, accent - 30 per
      colour. */
    method AnalogousAccent() returns (np: Palette)
      ensures fresh(np) && fresh(np.colors)
      ensures np.colors[..] == colors[..] + Renders(Expand(Bases(colors[..]), AnalogousAccentOf))
    {
      var result := colors[..];
      ghost var acc: seq<Color> := [];
      for i := 0 to colors.Length
        invariant result == colors[..] + acc
        invariant Expanded(colors[..], i, AnalogousAccentOf, acc)
      {
        var r := AccentStep(colors[i], colors[..], i, acc);
        result := result + r;
        acc := acc + r;
      }
      assert colors[..colors.Length] == colors[..];
      np := new Palette.Of(result);
    }

    /** Analogues: the colours and two analogues per colour, then sorted by
      lightness. */
    method Analogues() returns (np: Palette)
      ensures fresh(np) && fresh(np.colors)
      ensures multiset(np.colors[..]) == multiset(colors[..] + Renders(Expand(Bases(colors[..]), AnaloguesOf)))
      ensures LightnessSorted(np.colors[..])
    {
      var result := AnaloguesUnsorted();
      np := new Palette.Of(result);
      np.SortByHSL(false, false, true);
      LightnessOrder(np.colors[..]);
    }

    /** The loop of Analogues: the colours, then the two analogues of each. */
    method AnaloguesUnsorted() returns (result: seq<Color>)
      ensures result == colors[..] + Renders(Expand(Bases(colors[..]), AnaloguesOf))
    {
      result := colors[..];
      ghost var acc: seq<Color> := [];
      for i := 0 to colors.Length
        invariant result == colors[..] + acc
        invariant Expanded(colors[..], i, AnaloguesOf, acc)
      {
        var r := AnaloguesStep(colors[i], colors[..], i, acc);
        result := result + r;
        acc := acc + r;
      }
      assert colors[..colors.Length] == colors[..];
    }

    /** Shades(n, strength): max(n, 1) shades per colour, then sorted by
      lightness. */
    method Shades(n: int, strength: real) returns (np: Palette)
      ensures fresh(np) && fresh(np.colors)
      ensures multiset(np.colors[..]) == multiset(Renders(Expand(Bases(colors[..]), b => ShadesOf(b, n, strength))))
      ensures LightnessSorted(np.colors[..])
    {
      var f := b => ShadesOf(b, n, strength);
      var result: seq<Color> := [];
      for i := 0 to colors.Length
        invariant Expanded(colors[..], i, f, result)
      {
        var shades := ShadesStep(colors[i], n, strength, colors[..], i, result);
        result := result + shades;
      }
      assert colors[..colors.Length] == colors[..];
      np := new Palette.Of(result);
      np.SortByHSL(false, false, true);
      LightnessOrder(np.colors[..]);
    }
  }
}
