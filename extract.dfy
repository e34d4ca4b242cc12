/** Palette extraction from an image: countColors, isColorDistinct,
    filterDistinctColors and FromImage (colors.go, and the same helpers in
    utils.go). */
module Extract {
  import opened Colors
  import opened Sort

  // ---------------------------------------------------------------------------
  // The pixel source
  // ---------------------------------------------------------------------------

  /** A 16-bit channel, as returned by color.Color.RGBA (0 to 0xffff). */
  type Word = x: int | 0 <= x < 65536

  datatype Pixel = Pixel(r: Word, g: Word, b: Word, a: Word)

  /** An image: its bounds rectangle [minX, maxX) x [minY, maxY) and the colour
      at each point, as img.At(x, y).RGBA() reports it. */
  datatype Image = Image(minX: int, minY: int, maxX: int, maxY: int, at: (int, int) -> Pixel)

  /** The histogram key of a pixel: each channel shifted right by 8. */
  function Key(p: Pixel): Color
  {
    Color(p.r / 256, p.g / 256, p.b / 256, p.a / 256)
  }

  /** Each channel of the key is the high byte of the 16-bit channel: the
      channel lies in the key's block of 256 values. */
  lemma KeyHighByte(p: Pixel)
    ensures var c := Key(p);
      && 256 * c.r <= p.r < 256 * c.r + 256 && 256 * c.g <= p.g < 256 * c.g + 256
      && 256 * c.b <= p.b < 256 * c.b + 256 && 256 * c.a <= p.a < 256 * c.a + 256
  {
  }

  /** The pixels of row y with minX <= x < x1, left to right. */
  function RowPixels(img: Image, y: int, x1: int): seq<Pixel>
    decreases x1 - img.minX
  {
    if x1 <= img.minX then [] else RowPixels(img, y, x1 - 1) + [img.at(x1 - 1, y)]
  }

  /** The pixels of the rows minY <= y < y1, top to bottom. */
  function Rows(img: Image, y1: int): seq<Pixel>
    decreases y1 - img.minY
  {
    if y1 <= img.minY then [] else Rows(img, y1 - 1) + RowPixels(img, y1 - 1, img.maxX)
  }

  /** Every pixel inside the bounds, in the order countColors visits them. */
  function Scan(img: Image): seq<Pixel>
  {
    Rows(img, img.maxY)
  }

  // ---------------------------------------------------------------------------
  // The histogram
  // ---------------------------------------------------------------------------

  /** counts[c]++ for a pixel whose 16-bit alpha is not 0; a fully transparent
      pixel is skipped. */
  function Add(counts: map<Color, int>, p: Pixel): map<Color, int>
  {
    if p.a == 0 then counts
    else
      var c := Key(p);
      counts[c := (if c in counts then counts[c] else 0) + 1]
  }

  /** The histogram of a sequence of pixels, added one after the other. */
  function Tally(s: seq<Pixel>): map<Color, int>
  {
    if s == [] then map[] else Add(Tally(s[..|s| - 1]), s[|s| - 1])
  }

  /** The histogram countColors builds for an image. */
  function Histogram(img: Image): map<Color, int>
  {
    Tally(Scan(img))
  }

  /** The keys of the pixels that are not fully transparent, in order: the
      reference the histogram is checked against. */
  function VisibleKeys(s: seq<Pixel>): seq<Color>
  {
    if s == [] then []
    else VisibleKeys(s[..|s| - 1]) + (if s[|s| - 1].a == 0 then [] else [Key(s[|s| - 1])])
  }

  lemma TallySnoc(s: seq<Pixel>, p: Pixel)
    ensures Tally(s + [p]) == Add(Tally(s), p)
    ensures VisibleKeys(s + [p]) == VisibleKeys(s) + (if p.a == 0 then [] else [Key(p)])
  {
    assert (s + [p])[..|s|] == s;
  }

  /** countColors: a nested loop over the rows and then the columns of the
      bounds, counting every pixel that is not fully transparent. */
  method CountColors(img: Image) returns (counts: map<Color, int>)
    ensures counts == Histogram(img)
  {
    counts := map[];
    ghost var seen: seq<Pixel> := [];
    var y := img.minY;
    while y < img.maxY
      invariant img.minY <= y
      invariant y <= img.maxY || y == img.minY
      invariant seen == Rows(img, y)
      invariant counts == Tally(seen)
    {
      counts := CountRow(img, y, counts, seen);
      seen := seen + RowPixels(img, y, img.maxX);
      y := y + 1;
    }
  }

  /** The inner loop of countColors: the pixels of row y, left to right, added
      to the counts so far (ghost seen: the pixels those counts come from). */
  method CountRow(img: Image, y: int, counts0: map<Color, int>, ghost seen: seq<Pixel>)
    returns (counts: map<Color, int>)
    requires counts0 == Tally(seen)
    ensures counts == Tally(seen + RowPixels(img, y, img.maxX))
  {
    counts := counts0;
    var x := img.minX;
    assert seen + RowPixels(img, y, x) == seen;
    while x < img.maxX
      invariant img.minX <= x
      invariant x <= img.maxX || x == img.minX
      invariant RowCounted(img, y, x, seen, counts)
    {
      var p := img.at(x, y);
      RowCountedStep(img, y, x, seen, counts);
      if p.a == 0 {
        x := x + 1;
        continue;
      }
      var c := Key(p);
      counts := counts[c := (if c in counts then counts[c] else 0) + 1];
      x := x + 1;
    }
  }

  /** counts holds the pixels seen before row y and those of row y left of x. */
  ghost predicate RowCounted(img: Image, y: int, x: int, seen: seq<Pixel>, counts: map<Color, int>)
  {
    counts == Tally(seen + RowPixels(img, y, x))
  }

  /** Counting the pixel at x moves RowCounted one column on. */
  lemma RowCountedStep(img: Image, y: int, x: int, seen: seq<Pixel>, counts: map<Color, int>)
    requires img.minX <= x
    requires RowCounted(img, y, x, seen, counts)
    ensures RowCounted(img, y, x + 1, seen, Add(counts, img.at(x, y)))
  {
    var row, p := RowPixels(img, y, x), img.at(x, y);
    assert RowPixels(img, y, x + 1) == row + [p];
    assert seen + (row + [p]) == (seen + row) + [p];
    TallySnoc(seen + row, p);
  }

  /** Each count in the histogram is the number of visible pixels with that key,
      and only keys of visible pixels appear; so every stored count is at least 1. */
  lemma {:induction false} TallyCounts(s: seq<Pixel>)
    ensures forall c :: c in Tally(s) <==> c in multiset(VisibleKeys(s))
    ensures forall c | c in Tally(s) :: Tally(s)[c] == multiset(VisibleKeys(s))[c] >= 1
  {
    if s != [] {
      var t, p := s[..|s| - 1], s[|s| - 1];
      assert s == t + [p];
      TallyCounts(t);
      TallySnoc(t, p);
      var extra := if p.a == 0 then [] else [Key(p)];
      assert multiset(VisibleKeys(s)) == multiset(VisibleKeys(t)) + multiset(extra);
    }
  }

  /** A pixel whose 16-bit alpha is 0 leaves the histogram as it is. */
  lemma TransparentIgnored(s: seq<Pixel>, p: Pixel)
    requires p.a == 0
    ensures Tally(s + [p]) == Tally(s)
  {
    TallySnoc(s, p);
  }

  /** The skip test is on the 16-bit alpha: a pixel with alpha 1 to 255 is
      counted, under a key whose byte alpha is 0. */
  lemma LowAlphaCountedAsZero(s: seq<Pixel>, p: Pixel)
    requires 0 < p.a < 256
    ensures Key(p).a == 0
    ensures Key(p) in Tally(s + [p])
    ensures Tally(s + [p])[Key(p)] == (if Key(p) in Tally(s) then Tally(s)[Key(p)] else 0) + 1
  {
    TallySnoc(s, p);
  }

  /** The sum of the values of a map. */
  ghost function MapSum(m: map<Color, int>): int
    decreases |m|
  {
    if m == map[] then 0
    else
      var k :| k in m;
      assert |m - {k}| < |m| by { assert (m - {k}).Keys == m.Keys - {k}; }
      m[k] + MapSum(m - {k})
  }

  /** MapSum does not depend on which key is taken out first. */
  lemma {:induction false} MapSumRemove(m: map<Color, int>, k: Color)
    requires k in m
    ensures MapSum(m) == m[k] + MapSum(m - {k})
    decreases |m|
  {
    var j :| j in m && MapSum(m) == m[j] + MapSum(m - {j});
    if j != k {
      assert (m - {j}).Keys == m.Keys - {j};
      assert (m - {k}).Keys == m.Keys - {k};
      MapSumRemove(m - {j}, k);
      MapSumRemove(m - {k}, j);
      assert (m - {j}) - {k} == (m - {k}) - {j};
    }
  }

  /** The counts add up to the number of pixels that are not fully transparent. */
  lemma {:induction false} TallySum(s: seq<Pixel>)
    ensures MapSum(Tally(s)) == |VisibleKeys(s)|
  {
    if s != [] {
      var t, p := s[..|s| - 1], s[|s| - 1];
      assert s == t + [p];
      TallySum(t);
      TallySnoc(t, p);
      if p.a != 0 {
        var m, c := Tally(t), Key(p);
        var m' := Add(m, p);
        MapSumRemove(m', c);
        assert m' - {c} == m - {c};
        if c in m {
          MapSumRemove(m, c);
        } else {
          assert m - {c} == m;
        }
      }
    }
  }

  // ---------------------------------------------------------------------------
  // isColorDistinct
  // ---------------------------------------------------------------------------

  /** c is at distance 100 or more from every colour of existing. */
  predicate Distinct(c: Color, existing: seq<Color>)
  {
    forall k | 0 <= k < |existing| :: DistanceSq(c, existing[k]) >= DistinctSq
  }

  /** isColorDistinct: stops at the first existing colour closer than 100. */
  method IsColorDistinct(c: Color, existing: seq<Color>) returns (b: bool)
    ensures b <==> Distinct(c, existing)
  {
    for i := 0 to |existing|
      invariant forall k | 0 <= k < i :: DistanceSq(c, existing[k]) >= DistinctSq
    {
      if DistanceSq(c, existing[i]) < DistinctSq {
        return false;
      }
    }
    return true;
  }

  /** A distance of exactly 100 counts as distinct: black and (0, 50, 0) are
      4 * 50 * 50 = 10000 apart. */
  lemma ExactlyHundredIsDistinct()
    ensures DistanceSq(Color(0, 0, 0, 255), Color(0, 50, 0, 255)) == DistinctSq
    ensures Distinct(Color(0, 0, 0, 255), [Color(0, 50, 0, 255)])
  {
  }

  // ---------------------------------------------------------------------------
  // filterDistinctColors
  // ---------------------------------------------------------------------------

  /** The colours of the entries, in order. */
  function ColorsOf(s: seq<ColorFreq>): seq<Color>
  {
    seq(|s|, i requires 0 <= i < |s| => s[i].c)
  }

  /** idx picks the elements of x out of y at strictly increasing positions. */
  predicate Embedding(idx: seq<int>, x: seq<Color>, y: seq<Color>)
  {
    && |idx| == |x|
    && (forall k | 0 <= k < |idx| :: 0 <= idx[k] < |y| && y[idx[k]] == x[k])
    && (forall k | 0 < k < |idx| :: idx[k - 1] < idx[k])
  }

  /** x is y with some elements left out, in the same order. */
  ghost predicate IsSubsequence(x: seq<Color>, y: seq<Color>)
  {
    exists idx :: Embedding(idx, x, y)
  }

  /** Every pair of chosen colours is at least 100 apart (each later one from
      each earlier one, the direction in which they are compared). */
  predicate PairwiseDistinct(r: seq<Color>)
  {
    forall i, j | 0 <= i < j < |r| :: DistanceSq(r[j], r[i]) >= DistinctSq
  }

  /** c is closer than 100 to some chosen colour. */
  predicate Covered(c: Color, r: seq<Color>)
  {
    exists j | 0 <= j < |r| :: DistanceSq(c, r[j]) < DistinctSq
  }

  /** idx embeds r into the entries the way a first-fit scan picks: each entry
      passed over before the m-th pick was within 100 of one of the m colours
      picked before it. */
  predicate FirstFit(sorted: seq<ColorFreq>, idx: seq<int>, r: seq<Color>)
  {
    && Embedding(idx, r, ColorsOf(sorted))
    && forall m, k | 0 <= m < |idx| && 0 <= k && Before(idx, m) < k < idx[m] ::
         Covered(sorted[k].c, r[..m])
  }

  /** The position of the pick before the m-th one, or -1 for the first. */
  function Before(idx: seq<int>, m: int): int
    requires 0 <= m <= |idx|
  {
    if m == 0 then -1 else idx[m - 1]
  }

  /** r is what a first-fit scan over the entries picks, in order. */
  ghost predicate FirstFitPicks(sorted: seq<ColorFreq>, r: seq<Color>)
  {
    exists idx :: FirstFit(sorted, idx, r)
  }

  lemma CoveredGrows(c: Color, r: seq<Color>, d: Color)
    requires Covered(c, r)
    ensures Covered(c, r + [d])
  {
    var j :| 0 <= j < |r| && DistanceSq(c, r[j]) < DistinctSq;
    assert (r + [d])[j] == r[j];
  }

  lemma CoveredBySelf(c: Color, r: seq<Color>)
    ensures Covered(c, r + [c])
  {
    DistanceZeroIff(c, c);
    assert (r + [c])[|r|] == c;
  }

  /** filterDistinctColors(sortedColors, limit): the first colour is always
      kept; each later one is kept if it is at least 100 from all kept so far,
      and the scan stops as soon as limit colours are kept. */
  method FilterDistinctColors(sorted: seq<ColorFreq>, limit: int) returns (r: seq<Color>)
    ensures |sorted| == 0 ==> r == []
    ensures |sorted| > 0 ==> 1 <= |r| && r[0] == sorted[0].c
    ensures |r| <= 1 || |r| <= limit
    ensures |sorted| > 0 && limit <= 1 ==> r == [sorted[0].c]
    ensures IsSubsequence(r, ColorsOf(sorted))
    ensures FirstFitPicks(sorted, r)
    ensures PairwiseDistinct(r)
    ensures |r| < limit ==> forall k | 0 <= k < |sorted| :: Covered(sorted[k].c, r)
  {
    r := [];
    if |sorted| == 0 {
      assert FirstFit(sorted, [], r);
      return;
    }
    r := [sorted[0].c];
    CoveredBySelf(sorted[0].c, []);
    ghost var idx := [0];
    var i := 1;
    while i < |sorted|
      invariant 1 <= i <= |sorted|
      invariant 1 <= |r| && r[0] == sorted[0].c
      invariant |r| <= 1 || |r| <= limit
      invariant limit <= 1 ==> r == [sorted[0].c]
      invariant FirstFit(sorted, idx, r)
      invariant forall k | 0 <= k < |idx| :: idx[k] < i
      invariant PairwiseDistinct(r)
      invariant forall k | 0 <= k < i :: Covered(sorted[k].c, r)
    {
      if |r| >= limit {
        break;
      }
      var c := sorted[i].c;
      var ok := IsColorDistinct(c, r);
      if ok {
        KeepStep(sorted, i, idx, r);
        r := r + [c];
        idx := idx + [i];
      }
      i := i + 1;
    }
  }

  // ---------------------------------------------------------------------------
  // The filter's contract fixes its result
  // ---------------------------------------------------------------------------

  /** A pick of a pairwise distinct sequence is not within 100 of the picks
      before it. */
  lemma PickNotCovered(r: seq<Color>, m: int)
    requires PairwiseDistinct(r)
    ensures 0 <= m < |r| ==> !Covered(r[m], r[..m])
  {
    if 0 <= m < |r| {
      forall j | 0 <= j < m ensures DistanceSq(r[m], r[..m][j]) >= DistinctSq {
        assert r[..m][j] == r[j];
      }
    }
  }

  /** Two first-fit scans that agree on their first m picks agree on the next
      one: had B picked earlier than A, A would have passed over a colour B
      keeps as distinct from the same m picks. */
  lemma NextPick(sorted: seq<ColorFreq>, idxA: seq<int>, rA: seq<Color>, idxB: seq<int>, rB: seq<Color>, m: int)
    requires FirstFit(sorted, idxA, rA) && FirstFit(sorted, idxB, rB)
    requires PairwiseDistinct(rB)
    requires 0 <= m < |rA| && m < |rB|
    requires forall j | 0 <= j < m :: idxA[j] == idxB[j]
    ensures idxA[m] <= idxB[m]
  {
    forall j | 0 <= j < m ensures rA[..m][j] == rB[..m][j] {
      assert rA[j] == ColorsOf(sorted)[idxA[j]] && rB[j] == ColorsOf(sorted)[idxB[j]];
    }
    assert rA[..m] == rB[..m];
    PickNotCovered(rB, m);
    assert sorted[idxB[m]].c == rB[m];
    assert Before(idxA, m) == Before(idxB, m) < idxB[m];
  }

  lemma {:induction false} SamePicks(sorted: seq<ColorFreq>, idx1: seq<int>, r1: seq<Color>, idx2: seq<int>, r2: seq<Color>, n: int)
    requires FirstFit(sorted, idx1, r1) && FirstFit(sorted, idx2, r2)
    requires PairwiseDistinct(r1) && PairwiseDistinct(r2)
    requires 0 <= n <= |r1| && n <= |r2|
    ensures forall j | 0 <= j < n :: idx1[j] == idx2[j]
    decreases n
  {
    if n > 0 {
      SamePicks(sorted, idx1, r1, idx2, r2, n - 1);
      NextPick(sorted, idx1, r1, idx2, r2, n - 1);
      NextPick(sorted, idx2, r2, idx1, r1, n - 1);
    }
  }

  /** A first-fit scan A that goes on past the filter's result rB, agreeing
      with it so far, picks a colour rB covers, since rB stopped short of the
      limit. */
  lemma ExtraPick(sorted: seq<ColorFreq>, limit: int, idxA: seq<int>, rA: seq<Color>, rB: seq<Color>)
    requires |sorted| > 0
    requires Filtered(sorted, limit, rB)
    requires FirstFit(sorted, idxA, rA) && (|rA| <= 1 || |rA| <= limit)
    requires forall j | 0 <= j < |rA| && j < |rB| :: rA[j] == rB[j]
    ensures |rB| < |rA| ==> Covered(rA[|rB|], rA[..|rB|])
  {
    if |rB| < |rA| {
      var n := |rB|;
      assert rB == rA[..n];
      assert sorted[idxA[n]].c == rA[n];
      assert Covered(sorted[idxA[n]].c, rB);
    }
  }

  lemma LengthBound(sorted: seq<ColorFreq>, limit: int, idxA: seq<int>, rA: seq<Color>, rB: seq<Color>)
    requires |sorted| > 0
    requires Filtered(sorted, limit, rB)
    requires FirstFit(sorted, idxA, rA) && PairwiseDistinct(rA) && (|rA| <= 1 || |rA| <= limit)
    requires forall j | 0 <= j < |rA| && j < |rB| :: rA[j] == rB[j]
    ensures |rA| <= |rB|
  {
    PickNotCovered(rA, |rB|);
    ExtraPick(sorted, limit, idxA, rA, rB);
  }

  /** The filter's contract determines its result: two colour lists that both
      meet it for the same entries and limit are equal. */
  lemma FilterDeterminate(sorted: seq<ColorFreq>, limit: int, r1: seq<Color>, r2: seq<Color>)
    requires Filtered(sorted, limit, r1) && Filtered(sorted, limit, r2)
    ensures r1 == r2
  {
    if |sorted| > 0 {
      var idx1 :| FirstFit(sorted, idx1, r1);
      var idx2 :| FirstFit(sorted, idx2, r2);
      var n := if |r1| < |r2| then |r1| else |r2|;
      SamePicks(sorted, idx1, r1, idx2, r2, n);
      forall j | 0 <= j < n ensures r1[j] == r2[j] {
        assert r1[j] == ColorsOf(sorted)[idx1[j]] && r2[j] == ColorsOf(sorted)[idx2[j]];
      }
      LengthBound(sorted, limit, idx1, r1, r2);
      LengthBound(sorted, limit, idx2, r2, r1);
    }
  }

  const Red: Color := Color(255, 0, 0, 255)
  const Green: Color := Color(0, 255, 0, 255)
  const Blue: Color := Color(0, 0, 255, 255)

  /** Red, green and blue counted 5, 3 and 1 with a limit of 2: the filter
      keeps red, keeps green as far enough from it, and stops before blue. */
  lemma FirstFitExample(r: seq<Color>)
    requires Filtered([ColorFreq(Red, 5), ColorFreq(Green, 3), ColorFreq(Blue, 1)], 2, r)
    ensures r == [Red, Green]
  {
    var sorted := [ColorFreq(Red, 5), ColorFreq(Green, 3), ColorFreq(Blue, 1)];
    var picks := [Red, Green];
    assert DistanceSq(Green, Red) >= DistinctSq;
    assert FirstFit(sorted, [0, 1], picks);
    assert Filtered(sorted, 2, picks);
    FilterDeterminate(sorted, 2, r, picks);
  }

  /** For the same histogram, red and blue are not a selection of two: green
      is more frequent than blue and far from red, so it is picked first. */
  lemma FirstFitSelectionExample()
    ensures !Selection(map[Red := 5, Green := 3, Blue := 1], 2, [Red, Blue])
  {
    var hist, cs := map[Red := 5, Green := 3, Blue := 1], [Red, Blue];
    assert cs[..1] == [Red];
    assert DistanceSq(Green, Red) >= DistinctSq;
    assert !Covered(Green, cs[..1]);
    assert Green in hist && Green !in cs && hist[Green] > hist[cs[1]];
    assert !SkipsOnlyCovered(hist, cs);
  }

  /** Keeping sorted[i].c preserves the loop's invariants. */
  lemma KeepStep(sorted: seq<ColorFreq>, i: int, idx: seq<int>, r: seq<Color>)
    requires 0 <= i < |sorted|
    requires FirstFit(sorted, idx, r)
    requires forall k | 0 <= k < |idx| :: idx[k] < i
    requires PairwiseDistinct(r) && Distinct(sorted[i].c, r)
    requires forall k | 0 <= k < i :: Covered(sorted[k].c, r)
    ensures FirstFit(sorted, idx + [i], r + [sorted[i].c])
    ensures forall k | 0 <= k < |idx + [i]| :: (idx + [i])[k] < i + 1
    ensures PairwiseDistinct(r + [sorted[i].c])
    ensures forall k | 0 <= k < i + 1 :: Covered(sorted[k].c, r + [sorted[i].c])
  {
    KeepEmbedding(sorted, i, idx, r);
    KeepFirstFit(sorted, i, idx, r);
    KeepDistinct(r, sorted[i].c);
    KeepCovered(sorted, i, r);
  }

  lemma KeepEmbedding(sorted: seq<ColorFreq>, i: int, idx: seq<int>, r: seq<Color>)
    requires 0 <= i < |sorted|
    requires Embedding(idx, r, ColorsOf(sorted))
    requires forall k | 0 <= k < |idx| :: idx[k] < i
    ensures Embedding(idx + [i], r + [sorted[i].c], ColorsOf(sorted))
    ensures forall k | 0 <= k < |idx + [i]| :: (idx + [i])[k] < i + 1
  {
  }

  lemma KeepFirstFit(sorted: seq<ColorFreq>, i: int, idx: seq<int>, r: seq<Color>)
    requires 0 <= i < |sorted|
    requires FirstFit(sorted, idx, r)
    requires Embedding(idx + [i], r + [sorted[i].c], ColorsOf(sorted))
    requires forall k | 0 <= k < |idx| :: idx[k] < i
    requires forall k | 0 <= k < i :: Covered(sorted[k].c, r)
    ensures FirstFit(sorted, idx + [i], r + [sorted[i].c])
  {
    var idx', r' := idx + [i], r + [sorted[i].c];
    forall m, k | 0 <= m < |idx'| && 0 <= k && Before(idx', m) < k < idx'[m]
      ensures Covered(sorted[k].c, r'[..m])
    {
      if m < |idx| {
        assert r'[..m] == r[..m];
        assert idx'[m] == idx[m] && Before(idx', m) == Before(idx, m);
      } else {
        assert r'[..m] == r;
      }
    }
  }

  lemma KeepDistinct(r: seq<Color>, c: Color)
    requires PairwiseDistinct(r) && Distinct(c, r)
    ensures PairwiseDistinct(r + [c])
  {
    var r' := r + [c];
    forall i, j | 0 <= i < j < |r'| ensures DistanceSq(r'[j], r'[i]) >= DistinctSq {
      assert r'[i] == r[i];
      if j < |r| {
        assert r'[j] == r[j];
      }
    }
  }

  lemma KeepCovered(sorted: seq<ColorFreq>, i: int, r: seq<Color>)
    requires 0 <= i < |sorted|
    requires forall k | 0 <= k < i :: Covered(sorted[k].c, r)
    ensures forall k | 0 <= k < i + 1 :: Covered(sorted[k].c, r + [sorted[i].c])
  {
    var c := sorted[i].c;
    forall k | 0 <= k < i ensures Covered(sorted[k].c, r + [c]) {
      CoveredGrows(sorted[k].c, r, c);
    }
    CoveredBySelf(c, r);
  }

  // ---------------------------------------------------------------------------
  // FromImage
  // ---------------------------------------------------------------------------

  datatype Result<T> = Ok(value: T) | Err(message: string)

  const NumColorsError: string := "numColors must be > 0"

  /** What FromImage promises about its colours cs for a histogram and a
      requested number: they are ranked, they cover the histogram when there
      are fewer than asked, and a colour was left out only for being close to
      a more frequent chosen one. */
  ghost predicate Selection(hist: map<Color, int>, numColors: int, cs: seq<Color>)
  {
    Ranked(hist, numColors, cs) && CoversAll(hist, numColors, cs) && SkipsOnlyCovered(hist, cs)
  }

  /** A colour of the histogram that is not chosen but is strictly more
      frequent than the m-th choice is within 100 of one of the m choices
      before it: the choice is first fit, most frequent first. */
  ghost predicate SkipsOnlyCovered(hist: map<Color, int>, cs: seq<Color>)
    requires forall i | 0 <= i < |cs| :: cs[i] in hist
  {
    forall c, m | c in hist && c !in cs && 0 <= m < |cs| && hist[c] > hist[cs[m]] :: Covered(c, cs[..m])
  }

  /** At most numColors colours, none only when the histogram is empty, each a
      colour of the histogram, in non-increasing order of count starting with
      a most frequent one, and pairwise at least 100 apart. */
  ghost predicate Ranked(hist: map<Color, int>, numColors: int, cs: seq<Color>)
  {
    && |cs| <= numColors
    && (cs == [] <==> hist == map[])
    && (forall i | 0 <= i < |cs| :: cs[i] in hist)
    && (cs != [] ==> forall c | c in hist :: hist[cs[0]] >= hist[c])
    && (forall i, j | 0 <= i < j < |cs| :: hist[cs[i]] >= hist[cs[j]])
    && PairwiseDistinct(cs)
  }

  /** Fewer colours than asked for means every colour of the histogram is
      within 100 of one of them. */
  ghost predicate CoversAll(hist: map<Color, int>, numColors: int, cs: seq<Color>)
  {
    |cs| < numColors ==> forall c | c in hist :: Covered(c, cs)
  }

  /** The output of sortColorFrequencies(counts), as SortColorFrequencies
      promises it. */
  ghost predicate SortedFrequencies(counts: map<Color, int>, sorted: seq<ColorFreq>)
  {
    && |sorted| == |counts|
    && (forall e :: multiset(sorted)[e] == if IsEntry(counts, e) then 1 else 0)
    && (forall i, j | 0 <= i < j < |sorted| :: sorted[i].count >= sorted[j].count)
  }

  /** The output of filterDistinctColors(sorted, limit), as
      FilterDistinctColors promises it. */
  ghost predicate Filtered(sorted: seq<ColorFreq>, limit: int, r: seq<Color>)
  {
    && (|sorted| == 0 ==> r == [])
    && (|sorted| > 0 ==> 1 <= |r| && r[0] == sorted[0].c)
    && (|r| <= 1 || |r| <= limit)
    && IsSubsequence(r, ColorsOf(sorted))
    && FirstFitPicks(sorted, r)
    && PairwiseDistinct(r)
    && (|r| < limit ==> forall k | 0 <= k < |sorted| :: Covered(sorted[k].c, r))
  }

  /** FromImage(img, numColors): rejects a non-positive numColors; otherwise
      the histogram, sorted most frequent first, filtered for distinctness. */
  method FromImage(img: Image, numColors: int) returns (r: Result<seq<Color>>)
    ensures r.Err? <==> numColors <= 0
    ensures r.Err? ==> r.message == NumColorsError
    ensures r.Ok? ==> Selection(Histogram(img), numColors, r.value)
  {
    if numColors <= 0 {
      return Err(NumColorsError);
    }
    var freq := CountColors(img);
    var sorted := SortColorFrequencies(freq);
    assert SortedFrequencies(freq, sorted);
    var cs := FilterDistinctColors(sorted, numColors);
    assert Filtered(sorted, numColors, cs);
    PipelineSelection(freq, sorted, numColors, cs);
    return Ok(cs);
  }

  /** The three stages of FromImage together: from the sorted entries of
      counts, the filter makes a selection. */
  lemma PipelineSelection(counts: map<Color, int>, sorted: seq<ColorFreq>, numColors: int, cs: seq<Color>)
    requires numColors > 0
    requires SortedFrequencies(counts, sorted)
    requires Filtered(sorted, numColors, cs)
    ensures Selection(counts, numColors, cs)
  {
    PipelineRanked(counts, sorted, numColors, cs);
    CoveringKept(counts, sorted, numColors, cs);
    SkippingKept(counts, sorted, numColors, cs);
  }

  lemma PipelineRanked(counts: map<Color, int>, sorted: seq<ColorFreq>, numColors: int, cs: seq<Color>)
    requires numColors > 0
    requires SortedFrequencies(counts, sorted)
    requires Filtered(sorted, numColors, cs)
    ensures Ranked(counts, numColors, cs)
  {
    SortedEntries(counts, sorted);
    var idx :| Embedding(idx, cs, ColorsOf(sorted));
    RankingKept(counts, sorted, idx, cs);
    NothingOnlyForEmpty(counts, sorted, cs);
  }

  lemma NothingOnlyForEmpty(counts: map<Color, int>, sorted: seq<ColorFreq>, cs: seq<Color>)
    requires |sorted| == |counts|
    requires forall c | c in counts :: exists k | 0 <= k < |sorted| :: sorted[k].c == c
    requires |sorted| == 0 ==> cs == []
    requires |sorted| > 0 ==> 1 <= |cs|
    ensures cs == [] <==> counts == map[]
  {
    if counts != map[] {
      var c :| c in counts;
      var k :| 0 <= k < |sorted| && sorted[k].c == c;
    } else {
      assert |sorted| == 0;
    }
  }

  lemma CoveringKept(counts: map<Color, int>, sorted: seq<ColorFreq>, numColors: int, cs: seq<Color>)
    requires SortedFrequencies(counts, sorted)
    requires Filtered(sorted, numColors, cs)
    ensures CoversAll(counts, numColors, cs)
  {
    SortedEntries(counts, sorted);
    if |cs| < numColors {
      forall c | c in counts ensures Covered(c, cs) {
        var k :| 0 <= k < |sorted| && sorted[k].c == c;
      }
    }
  }

  /** A colour the filter passed over, more frequent than the m-th pick, lies
      in the gap before some pick g <= m, so the picks before g, and with them
      the picks before m, cover it. */
  lemma SkippingKept(counts: map<Color, int>, sorted: seq<ColorFreq>, numColors: int, cs: seq<Color>)
    requires SortedFrequencies(counts, sorted)
    requires Filtered(sorted, numColors, cs)
    requires forall i | 0 <= i < |cs| :: cs[i] in counts
    ensures SkipsOnlyCovered(counts, cs)
  {
    SortedEntries(counts, sorted);
    var idx :| FirstFit(sorted, idx, cs);
    forall c, m | c in counts && c !in cs && 0 <= m < |cs| && counts[c] > counts[cs[m]]
      ensures Covered(c, cs[..m])
    {
      SkippedColor(counts, sorted, idx, cs, c, m);
    }
  }

  lemma SkippedColor(counts: map<Color, int>, sorted: seq<ColorFreq>, idx: seq<int>, cs: seq<Color>, c: Color, m: int)
    requires forall k | 0 <= k < |sorted| :: IsEntry(counts, sorted[k])
    requires forall c | c in counts :: exists k | 0 <= k < |sorted| :: sorted[k].c == c
    requires forall i, j | 0 <= i < j < |sorted| :: sorted[i].count >= sorted[j].count
    requires FirstFit(sorted, idx, cs)
    requires c in counts && c !in cs && 0 <= m < |cs| && cs[m] in counts && counts[c] > counts[cs[m]]
    ensures Covered(c, cs[..m])
  {
    var k :| 0 <= k < |sorted| && sorted[k].c == c;
    assert cs[m] == sorted[idx[m]].c;
    assert IsEntry(counts, sorted[k]) && IsEntry(counts, sorted[idx[m]]);
    assert k < idx[m];
    forall j | 0 <= j < |idx| ensures idx[j] != k {
      assert cs[j] == sorted[idx[j]].c;
    }
    var g := GapOf(idx, k, m);
    FirstFitGap(sorted, idx, cs, g, k);
    CoveredPrefix(c, cs, g, m);
  }

  /** A position k below the m-th one of an increasing sequence, and none of
      its elements, lies strictly between two neighbours. */
  lemma {:induction false} GapOf(idx: seq<int>, k: int, m: int) returns (g: int)
    requires 0 <= m < |idx| && 0 <= k < idx[m]
    requires forall j | 0 <= j < |idx| :: idx[j] != k
    ensures 0 <= g <= m && Before(idx, g) < k < idx[g]
    decreases m
  {
    if m == 0 || idx[m - 1] < k {
      g := m;
    } else {
      g := GapOf(idx, k, m - 1);
    }
  }

  lemma FirstFitGap(sorted: seq<ColorFreq>, idx: seq<int>, r: seq<Color>, m: int, k: int)
    requires FirstFit(sorted, idx, r)
    requires 0 <= m < |idx| && 0 <= k && Before(idx, m) < k < idx[m]
    ensures Covered(sorted[k].c, r[..m])
  {
  }

  lemma CoveredPrefix(c: Color, r: seq<Color>, a: int, b: int)
    requires 0 <= a <= b <= |r|
    requires Covered(c, r[..a])
    ensures Covered(c, r[..b])
  {
    var j :| 0 <= j < a && DistanceSq(c, r[..a][j]) < DistinctSq;
    assert r[..b][j] == r[..a][j];
  }

  /** An embedding picks its positions in strictly increasing order, not only
      for neighbours. */
  lemma {:induction false} EmbeddingIncreasing(idx: seq<int>, x: seq<Color>, y: seq<Color>, i: int, j: int)
    requires Embedding(idx, x, y)
    requires 0 <= i < j < |idx|
    ensures idx[i] < idx[j]
    decreases j - i
  {
    if i < j - 1 {
      EmbeddingIncreasing(idx, x, y, i, j - 1);
    }
  }

  /** Colours picked in order out of entries sorted most frequent first keep
      that ranking. */
  lemma RankingKept(counts: map<Color, int>, sorted: seq<ColorFreq>, idx: seq<int>, cs: seq<Color>)
    requires forall k | 0 <= k < |sorted| :: IsEntry(counts, sorted[k])
    requires forall i, j | 0 <= i < j < |sorted| :: sorted[i].count >= sorted[j].count
    requires Embedding(idx, cs, ColorsOf(sorted))
    ensures forall i | 0 <= i < |cs| :: cs[i] in counts
    ensures forall i, j | 0 <= i < j < |cs| :: counts[cs[i]] >= counts[cs[j]]
  {
    forall i | 0 <= i < |cs| ensures cs[i] in counts && counts[cs[i]] == sorted[idx[i]].count {
      assert cs[i] == sorted[idx[i]].c;
    }
    forall i, j | 0 <= i < j < |cs| ensures counts[cs[i]] >= counts[cs[j]] {
      EmbeddingIncreasing(idx, cs, ColorsOf(sorted), i, j);
    }
  }

  /** What FromImage reads off the output of sortColorFrequencies: its entries
      are the histogram's, every key of the histogram has one, and the first
      entry has the largest count. */
  lemma SortedEntries(counts: map<Color, int>, sorted: seq<ColorFreq>)
    requires |sorted| == |counts|
    requires forall e :: multiset(sorted)[e] == if IsEntry(counts, e) then 1 else 0
    requires forall i, j | 0 <= i < j < |sorted| :: sorted[i].count >= sorted[j].count
    ensures forall k | 0 <= k < |sorted| :: IsEntry(counts, sorted[k])
    ensures forall c | c in counts :: exists k | 0 <= k < |sorted| :: sorted[k].c == c
    ensures sorted != [] ==> IsEntry(counts, sorted[0]) && forall c | c in counts :: counts[sorted[0].c] >= counts[c]
  {
    forall k | 0 <= k < |sorted| ensures IsEntry(counts, sorted[k]) {
      assert sorted[k] in multiset(sorted);
    }
    forall c | c in counts ensures exists k | 0 <= k < |sorted| :: sorted[k].c == c {
      assert ColorFreq(c, counts[c]) in multiset(sorted);
    }
    if sorted != [] {
      forall c | c in counts ensures counts[sorted[0].c] >= counts[c] {
        var k :| 0 <= k < |sorted| && sorted[k].c == c;
        assert IsEntry(counts, sorted[k]) && IsEntry(counts, sorted[0]);
      }
    }
  }
}
