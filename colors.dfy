/** Colour values and their byte-, text- and float-level conversions
    (colors.go, with the `Color`-typed copies in utils.go). */
module Colors {

  /** An 8-bit unsigned channel (Go's uint8). */
  type Byte = x: int | 0 <= x < 256

  /** A colour: four independent 8-bit channels, compared by value. */
  datatype Color = Color(r: Byte, g: Byte, b: Byte, a: Byte)

  /** The zero colour, FromHex's fallback for a string of the wrong length. */
  const Zero: Color := Color(0, 0, 0, 0)

  // ---------------------------------------------------------------------------
  // Hex output: "#%02X%02X%02X"
  // ---------------------------------------------------------------------------

  const UpperDigits: string := "0123456789ABCDEF"

  /** The upper-case hex digit for 0 <= d < 16. */
  function UpperDigit(d: int): (ch: char)
    requires 0 <= d < 16
    ensures IsHexDigit(ch) && DigitValue(ch) == d
    ensures ch in UpperDigits
  {
    UpperDigits[d]
  }

  /** "%02X" of one channel: exactly two upper-case digits, high nibble first. */
  function HexByte(v: Byte): (s: string)
    ensures |s| == 2 && AllHex(s)
    ensures s[0] in UpperDigits && s[1] in UpperDigits
    ensures 16 * DigitValue(s[0]) + DigitValue(s[1]) == v
  {
    [UpperDigit(v / 16), UpperDigit(v % 16)]
  }

  /** Color.Hex: '#' followed by six upper-case hex digits; alpha is not written. */
  function Hex(c: Color): (s: string)
    ensures |s| == 7 && s[0] == '#'
    ensures forall i | 1 <= i < 7 :: s[i] in UpperDigits
    ensures s[1..3] == HexByte(c.r) && s[3..5] == HexByte(c.g) && s[5..7] == HexByte(c.b)
  {
    var hr, hg, hb := HexByte(c.r), HexByte(c.g), HexByte(c.b);
    var s := "#" + hr + hg + hb;
    assert s[1..3] == hr && s[3..5] == hg && s[5..7] == hb;
    assert s[1] == hr[0] && s[2] == hr[1] && s[3] == hg[0] && s[4] == hg[1] && s[5] == hb[0] && s[6] == hb[1];
    s
  }

  // ---------------------------------------------------------------------------
  // Hex input: strconv.ParseUint(s, 16, 8) with the error discarded
  // ---------------------------------------------------------------------------

  predicate IsHexDigit(ch: char)
  {
    ('0' <= ch <= '9') || ('a' <= ch <= 'f') || ('A' <= ch <= 'F')
  }

  /** The value of one hex digit, in either case. */
  function DigitValue(ch: char): (d: nat)
    requires IsHexDigit(ch)
    ensures d < 16
  {
    if ch <= '9' then ch as int - '0' as int
    else if ch <= 'F' then ch as int - 'A' as int + 10
    else ch as int - 'a' as int + 10
  }

  predicate AllHex(s: string)
  {
    forall i | 0 <= i < |s| :: IsHexDigit(s[i])
  }

  /** The unbounded value of a string of hex digits, most significant first. */
  function HexValue(s: string): nat
    requires AllHex(s)
    decreases |s|
  {
    if |s| == 0 then 0 else 16 * HexValue(s[..|s| - 1]) + DigitValue(s[|s| - 1])
  }

  /** The length of the longest prefix of s made of hex digits. */
  function HexPrefixLength(s: string): (p: nat)
    ensures p <= |s| && AllHex(s[..p])
    ensures p < |s| ==> !IsHexDigit(s[p])
  {
    if s == [] || !IsHexDigit(s[0]) then 0
    else
      var q := HexPrefixLength(s[1..]);
      assert s[..q + 1] == [s[0]] + s[1..][..q];
      q + 1
  }

  /** parseHexByte: strconv.ParseUint(s, 16, 8) with the error dropped.
      ParseUint reads left to right: at the first character that is not a hex
      digit it stops with a syntax error and the value 0, and at the first digit
      that takes the value past 255 it stops with a range error and the value
      255, whichever comes first. The empty string is a syntax error. In terms of
      the longest prefix of hex digits: it overflows exactly when that prefix's
      value is over 255, else a trailing non-digit gives 0, else the value. */
  function ParseHexByte(s: string): (b: Byte)
    ensures var p := HexPrefixLength(s);
      && (|s| == 0 ==> b == 0)
      && (HexValue(s[..p]) > 255 ==> b == 255)
      && (HexValue(s[..p]) <= 255 && p < |s| ==> b == 0)
      && (|s| > 0 && AllHex(s) && HexValue(s) <= 255 ==> b == HexValue(s))
  {
    assert s[..0] == [];
    ScanSpec(s, 0);
    Scan(s, 0, 0)
  }

  /** The loop of ParseUint from position i on, with value n read so far. */
  function Scan(s: string, i: nat, n: nat): Byte
    requires i <= |s| && n <= 255
    decreases |s| - i
  {
    if i == |s| then n
    else if !IsHexDigit(s[i]) then 0
    else if 16 * n + DigitValue(s[i]) > 255 then 255
    else Scan(s, i + 1, 16 * n + DigitValue(s[i]))
  }

  /** Reading one more digit of a hex prefix multiplies by 16 and adds it. */
  lemma HexValueStep(s: string, i: nat)
    requires i < |s| && AllHex(s[..i + 1])
    ensures AllHex(s[..i])
    ensures HexValue(s[..i + 1]) == 16 * HexValue(s[..i]) + DigitValue(s[i])
  {
    assert s[..i + 1][..i] == s[..i];
    assert forall k | 0 <= k < i :: s[..i][k] == s[..i + 1][k];
  }

  /** The value of a hex prefix only grows as the prefix does. */
  lemma {:induction false} HexValueMonotone(s: string, i: nat, j: nat)
    requires i <= j <= |s| && AllHex(s[..j])
    ensures AllHex(s[..i]) && HexValue(s[..i]) <= HexValue(s[..j])
    decreases j - i
  {
    if i < j {
      HexValueStep(s, j - 1);
      HexValueMonotone(s, i, j - 1);
    }
  }

  /** From any point inside the hex prefix at which no overflow has happened,
      the scan ends as ParseHexByte's contract says. */
  lemma {:induction false} ScanSpec(s: string, i: nat)
    requires i <= HexPrefixLength(s)
    requires AllHex(s[..i]) && HexValue(s[..i]) <= 255
    ensures var p, b := HexPrefixLength(s), Scan(s, i, HexValue(s[..i]));
      && (HexValue(s[..p]) > 255 ==> b == 255)
      && (HexValue(s[..p]) <= 255 && p < |s| ==> b == 0)
      && (AllHex(s) && HexValue(s) <= 255 ==> b == HexValue(s))
    decreases |s| - i
  {
    var p, n := HexPrefixLength(s), HexValue(s[..i]);
    if i == |s| {
      assert s[..i] == s;
    } else if !IsHexDigit(s[i]) {
      assert i == p;
      assert !AllHex(s);
    } else {
      assert i < p;
      HexValueMonotone(s, i + 1, p);
      HexValueStep(s, i);
      if 16 * n + DigitValue(s[i]) <= 255 {
        ScanSpec(s, i + 1);
      } else if AllHex(s) {
        assert s[..|s|] == s;
        HexValueMonotone(s, p, |s|);
      }
    }
  }

  /** The overflow at the third digit of "FFFG" is reported before the G. */
  lemma OverflowBeforeSyntaxError()
    ensures ParseHexByte("FFFG") == 255
    ensures ParseHexByte("FG") == 0
    ensures ParseHexByte("") == 0
  {
    assert HexPrefixLength("FFFG") == 3;
    assert "FFFG"[..3] == "FFF";
    assert "FFF"[..2] == "FF" && "FF"[..1] == "F" && "F"[..0] == "";
    assert HexPrefixLength("FG") == 1;
    assert "FG"[..1] == "F";
  }

  /** Two hex digits, in either case, read as 16 * high + low. */
  lemma {:induction false} ParseHexByteTwoDigits(s: string)
    requires |s| == 2 && AllHex(s)
    ensures ParseHexByte(s) == 16 * DigitValue(s[0]) + DigitValue(s[1])
  {
    var p := s[..1];
    assert p[..0] == [] && p[0] == s[0] && AllHex(p);
    assert HexValue(p) == DigitValue(s[0]);
    assert HexValue(s) == 16 * HexValue(p) + DigitValue(s[1]);
  }

  /** strings.TrimPrefix(s, "#"): removes at most one leading '#'. */
  function TrimHash(s: string): (t: string)
    ensures if "#" <= s then s == "#" + t else t == s
  {
    if |s| > 0 && s[0] == '#' then s[1..] else s
  }

  /** FromHex. After one leading '#' is stripped, six characters are read as RGB
      with alpha 255, eight as RGBA, and any other length gives the zero colour. */
  function FromHex(hex: string): (c: Color)
    ensures var t := TrimHash(hex);
      && (|t| != 6 && |t| != 8 ==> c == Zero)
      && (|t| == 6 ==> c == Color(ParseHexByte(t[0..2]), ParseHexByte(t[2..4]), ParseHexByte(t[4..6]), 255))
      && (|t| == 8 ==> c == Color(ParseHexByte(t[0..2]), ParseHexByte(t[2..4]), ParseHexByte(t[4..6]), ParseHexByte(t[6..8])))
  {
    var t := TrimHash(hex);
    var full := if |t| == 6 then t + "FF" else t;
    if |full| != 8 then Zero
    else
      assert |t| == 6 ==>
        full[0..2] == t[0..2] && full[2..4] == t[2..4] && full[4..6] == t[4..6] && full[6..8] == "FF";
      ParseHexByteTwoDigits("FF");
      Color(ParseHexByte(full[0..2]), ParseHexByte(full[2..4]), ParseHexByte(full[4..6]), ParseHexByte(full[6..8]))
  }

  /** Reading back the two digits that Hex writes for a channel gives the channel. */
  lemma {:induction false} HexByteRoundTrip(v: Byte)
    ensures ParseHexByte(HexByte(v)) == v
  {
    ParseHexByteTwoDigits(HexByte(v));
  }

  /** FromHex(Hex(c)) keeps R, G and B exactly and sets alpha to 255. */
  lemma {:induction false} HexRoundTrip(c: Color)
    ensures FromHex(Hex(c)) == Color(c.r, c.g, c.b, 255)
  {
    var s := Hex(c);
    var t := TrimHash(s);
    assert t == s[1..];
    assert t[0..2] == HexByte(c.r) && t[2..4] == HexByte(c.g) && t[4..6] == HexByte(c.b);
    HexByteRoundTrip(c.r);
    HexByteRoundTrip(c.g);
    HexByteRoundTrip(c.b);
  }

  /** Appending the alpha's two digits to Hex(c) gives an eight-digit string that
      FromHex reads back as c itself. */
  lemma {:induction false} HexWithAlphaRoundTrip(c: Color)
    ensures FromHex(Hex(c) + HexByte(c.a)) == c
  {
    var h := Hex(c);
    var s := h + HexByte(c.a);
    var t := TrimHash(s);
    assert t == h[1..] + HexByte(c.a);
    assert |t| == 8;
    assert t[0..2] == h[1..3] && t[2..4] == h[3..5] && t[4..6] == h[5..7];
    assert t[6..8] == HexByte(c.a);
    HexByteRoundTrip(c.r);
    HexByteRoundTrip(c.g);
    HexByteRoundTrip(c.b);
    HexByteRoundTrip(c.a);
  }

  // ---------------------------------------------------------------------------
  // Floats to bytes
  // ---------------------------------------------------------------------------

  /** clamp: the nearest value in [0, 1]. */
  function Clamp(v: real): (r: real)
    ensures 0.0 <= r <= 1.0
    ensures 0.0 <= v <= 1.0 ==> r == v
    ensures v < 0.0 ==> r == 0.0
    ensures v > 1.0 ==> r == 1.0
  {
    if v < 0.0 then 0.0 else if v > 1.0 then 1.0 else v
  }

  lemma ClampIdempotent(v: real)
    ensures Clamp(Clamp(v)) == Clamp(v)
  {
  }

  lemma ClampMonotone(u: real, v: real)
    requires u <= v
    ensures Clamp(u) <= Clamp(v)
  {
  }

  /** uint8(clamp(v) * 255): clamping, scaling and truncation toward zero. */
  function FloatToByte(v: real): (b: Byte)
    ensures b as real <= Clamp(v) * 255.0 < b as real + 1.0
    ensures v >= 1.0 ==> b == 255
    ensures v <= 0.0 ==> b == 0
  {
    (Clamp(v) * 255.0).Floor
  }

  lemma FloatToByteMonotone(u: real, v: real)
    requires u <= v
    ensures FloatToByte(u) <= FloatToByte(v)
  {
    ClampMonotone(u, v);
  }

  /** FromFloats: each channel is the truncation of its clamped input times 255. */
  function FromFloats(fr: real, fg: real, fb: real, fa: real): (c: Color)
    ensures c.r as real <= Clamp(fr) * 255.0 < c.r as real + 1.0
    ensures c.g as real <= Clamp(fg) * 255.0 < c.g as real + 1.0
    ensures c.b as real <= Clamp(fb) * 255.0 < c.b as real + 1.0
    ensures c.a as real <= Clamp(fa) * 255.0 < c.a as real + 1.0
    ensures (fr >= 1.0 ==> c.r == 255) && (fr <= 0.0 ==> c.r == 0)
    ensures (fg >= 1.0 ==> c.g == 255) && (fg <= 0.0 ==> c.g == 0)
    ensures (fb >= 1.0 ==> c.b == 255) && (fb <= 0.0 ==> c.b == 0)
    ensures (fa >= 1.0 ==> c.a == 255) && (fa <= 0.0 ==> c.a == 0)
  {
    Color(FloatToByte(fr), FloatToByte(fg), FloatToByte(fb), FloatToByte(fa))
  }

  // ---------------------------------------------------------------------------
  // Distance
  // ---------------------------------------------------------------------------

  /** The square of ColorDistance: the red-mean weighted sum of squared channel
      differences. Alpha takes no part. */
  function DistanceSq(c1: Color, c2: Color): (d: real)
  {
    var r1, g1, b1 := c1.r as real, c1.g as real, c1.b as real;
    var r2, g2, b2 := c2.r as real, c2.g as real, c2.b as real;
    var rMean := (r1 + r2) / 2.0;
    (2.0 + rMean / 256.0) * (r1 - r2) * (r1 - r2)
      + 4.0 * (g1 - g2) * (g1 - g2)
      + (2.0 + (255.0 - rMean) / 256.0) * (b1 - b2) * (b1 - b2)
  }

  /** The distinctness threshold 100, squared. Two colours are distinct when their
      distance is at least 100, that is when DistanceSq is at least this. */
  const DistinctSq: real := 10000.0

  /** Every weight is positive, so the distance is never negative and is zero
      exactly when the RGB channels coincide. */
  lemma DistanceZeroIff(c1: Color, c2: Color)
    ensures DistanceSq(c1, c2) >= 0.0
    ensures DistanceSq(c1, c2) == 0.0 <==> (c1.r == c2.r && c1.g == c2.g && c1.b == c2.b)
  {
    var dr, dg, db := c1.r as real - c2.r as real, c1.g as real - c2.g as real, c1.b as real - c2.b as real;
    var rMean := (c1.r as real + c2.r as real) / 2.0;
    var wr, wb := 2.0 + rMean / 256.0, 2.0 + (255.0 - rMean) / 256.0;
    assert DistanceSq(c1, c2) == wr * dr * dr + 4.0 * dg * dg + wb * db * db;
    WeightedSquares(wr, dr, 4.0, dg, wb, db);
  }

  /** A sum of squares with positive weights is zero only when every term is. */
  lemma WeightedSquares(wr: real, dr: real, wg: real, dg: real, wb: real, db: real)
    requires wr > 0.0 && wg > 0.0 && wb > 0.0
    ensures wr * dr * dr + wg * dg * dg + wb * db * db >= 0.0
    ensures wr * dr * dr + wg * dg * dg + wb * db * db == 0.0 <==> dr == 0.0 && dg == 0.0 && db == 0.0
  {
    var x, y, z := wr * dr * dr, wg * dg * dg, wb * db * db;
    WeightedSquare(wr, dr);
    WeightedSquare(wg, dg);
    WeightedSquare(wb, db);
    assert x >= 0.0 && y >= 0.0 && z >= 0.0;
    assert x == 0.0 <==> dr == 0.0;
    assert y == 0.0 <==> dg == 0.0;
    assert z == 0.0 <==> db == 0.0;
  }

  lemma WeightedSquare(w: real, d: real)
    requires w > 0.0
    ensures w * d * d >= 0.0
    ensures w * d * d == 0.0 <==> d == 0.0
  {
    if d != 0.0 {
      assert d * d > 0.0;
      assert w * (d * d) > 0.0;
      assert w * d * d == w * (d * d);
    } else {
      assert w * d == 0.0;
    }
  }

  lemma DistanceSymmetric(c1: Color, c2: Color)
    ensures DistanceSq(c1, c2) == DistanceSq(c2, c1)
  {
    var dr, dg, db := c1.r as real - c2.r as real, c1.g as real - c2.g as real, c1.b as real - c2.b as real;
    assert (-dr) * (-dr) == dr * dr;
    assert (-dg) * (-dg) == dg * dg;
    assert (-db) * (-db) == db * db;
  }

  lemma DistanceIgnoresAlpha(c1: Color, c2: Color, a1: Byte, a2: Byte)
    ensures DistanceSq(c1.(a := a1), c2.(a := a2)) == DistanceSq(c1, c2)
  {
  }
}
