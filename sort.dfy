/** In-place sorting: SortByHSL and sortColorFrequencies (sort.go), both built
    on sort.Slice, which is modelled here by an insertion sort over an array. */
module Sort {
  import opened Colors
  import opened ColorSpace

  /** A histogram entry: a colour and the number of pixels that have it. */
  datatype ColorFreq = ColorFreq(c: Color, count: int)

  // ---------------------------------------------------------------------------
  // sort.Slice
  // ---------------------------------------------------------------------------

  /** No two neighbours are out of order: the condition sort.Slice leaves behind. */
  ghost predicate AdjacentSorted<T>(s: seq<T>, less: (T, T) -> bool)
  {
    forall k | 0 < k < |s| :: !less(s[k], s[k - 1])
  }

  /** No element is less than one before it. */
  ghost predicate Sorted<T>(s: seq<T>, less: (T, T) -> bool)
  {
    forall i, j | 0 <= i < j < |s| :: !less(s[j], s[i])
  }

  ghost predicate Asymmetric<T(!new)>(less: (T, T) -> bool)
  {
    forall x, y :: less(x, y) ==> !less(y, x)
  }

  /** "Not less" is transitive: the part of a strict weak order that lets a
      locally sorted sequence be sorted throughout. */
  ghost predicate NegativelyTransitive<T(!new)>(less: (T, T) -> bool)
  {
    forall x, y, z :: !less(y, x) && !less(z, y) ==> !less(z, x)
  }

  /** sort.Slice(a, less): reorders a so that no neighbour is out of order
      under less, keeping the same elements. An insertion sort: each new
      element is swapped down while it is less than its left neighbour. */
  method SortSlice<T(!new)>(a: array<T>, less: (T, T) -> bool)
    requires Asymmetric(less)
    modifies a
    ensures AdjacentSorted(a[..], less)
    ensures multiset(a[..]) == old(multiset(a[..]))
  {
    if a.Length == 0 {
      return;
    }
    var i := 1;
    while i < a.Length
      invariant 1 <= i <= a.Length
      invariant AdjacentSorted(a[..i], less)
      invariant multiset(a[..]) == old(multiset(a[..]))
    {
      Insert(a, i, less);
      i := i + 1;
    }
    assert a[..i] == a[..];
  }

  /** One step of the insertion sort: a[i] is swapped down into the sorted
      prefix a[..i], leaving a[..i + 1] sorted. */
  method Insert<T(!new)>(a: array<T>, i: int, less: (T, T) -> bool)
    requires Asymmetric(less)
    requires 0 < i < a.Length
    requires AdjacentSorted(a[..i], less)
    modifies a
    ensures AdjacentSorted(a[..i + 1], less)
    ensures multiset(a[..]) == old(multiset(a[..]))
  {
    assert forall k | 0 < k < i :: !less(a[k], a[k - 1]) by {
      forall k | 0 < k < i ensures !less(a[k], a[k - 1]) {
        assert a[..i][k] == a[k] && a[..i][k - 1] == a[k - 1];
      }
    }
    var j := i;
    while 0 < j && less(a[j], a[j - 1])
      invariant 0 <= j <= i
      invariant forall k | 0 < k <= i && k != j :: !less(a[k], a[k - 1])
      invariant 0 < j < i ==> !less(a[j + 1], a[j - 1])
      invariant multiset(a[..]) == old(multiset(a[..]))
    {
      Swap(a, j - 1, j);
      j := j - 1;
    }
  }

  /** Exchanges a[i] and a[j]. */
  method Swap<T>(a: array<T>, i: int, j: int)
    requires 0 <= i < a.Length && 0 <= j < a.Length
    modifies a
    ensures a[i] == old(a[j]) && a[j] == old(a[i])
    ensures forall k | 0 <= k < a.Length && k != i && k != j :: a[k] == old(a[k])
    ensures multiset(a[..]) == old(multiset(a[..]))
  {
    a[i], a[j] := a[j], a[i];
  }

  /** Under a negatively transitive order, sorted neighbours make a sorted
      sequence. */
  lemma {:induction false} AdjacentSortedIsSorted<T(!new)>(s: seq<T>, less: (T, T) -> bool)
    requires NegativelyTransitive(less)
    requires AdjacentSorted(s, less)
    ensures Sorted(s, less)
  {
    if |s| > 1 {
      var t := s[..|s| - 1];
      assert AdjacentSorted(t, less) by {
        forall k | 0 < k < |t| ensures !less(t[k], t[k - 1]) {
          assert t[k] == s[k] && t[k - 1] == s[k - 1];
        }
      }
      AdjacentSortedIsSorted(t, less);
      forall i, j | 0 <= i < j < |s| ensures !less(s[j], s[i]) {
        if j < |s| - 1 {
          assert s[i] == t[i] && s[j] == t[j];
        } else if i < j - 1 {
          assert !less(s[j - 1], s[i]) by { assert s[i] == t[i] && s[j - 1] == t[j - 1]; }
          assert !less(s[j], s[j - 1]);
        }
      }
    }
  }

  // ---------------------------------------------------------------------------
  // The SortByHSL comparator
  // ---------------------------------------------------------------------------

  /** The comparator of SortByHSL on (h, s, l) triples: the first enabled key on
      which the two differ decides; if there is none, neither is less. */
  predicate HslLess(byHue: bool, bySat: bool, byLight: bool, p: Hsl, q: Hsl)
  {
    if byHue && p.h != q.h then p.h < q.h
    else if bySat && p.s != q.s then p.s < q.s
    else if byLight && p.l != q.l then p.l < q.l
    else false
  }

  /** The comparator on colours, through ToHSL. */
  predicate ColorLess(byHue: bool, bySat: bool, byLight: bool, x: Color, y: Color)
  {
    HslLess(byHue, bySat, byLight, ToHSL(x), ToHSL(y))
  }

  /** The comparator is the lexicographic order on the enabled keys, in priority
      hue, saturation, lightness: a key is consulted only when every enabled key
      before it is equal. */
  lemma HslLessLexicographic(byHue: bool, bySat: bool, byLight: bool, p: Hsl, q: Hsl)
    ensures HslLess(byHue, bySat, byLight, p, q) <==>
      || (byHue && p.h < q.h)
      || ((!byHue || p.h == q.h) && bySat && p.s < q.s)
      || ((!byHue || p.h == q.h) && (!bySat || p.s == q.s) && byLight && p.l < q.l)
  {
  }

  /** With every key disabled nothing is less than anything: the sort leaves
      any order as it is. */
  lemma HslLessAllOff(p: Hsl, q: Hsl)
    ensures !HslLess(false, false, false, p, q)
  {
  }

  lemma HslLessIrreflexive(byHue: bool, bySat: bool, byLight: bool, p: Hsl)
    ensures !HslLess(byHue, bySat, byLight, p, p)
  {
  }

  lemma HslLessAsymmetric(byHue: bool, bySat: bool, byLight: bool, p: Hsl, q: Hsl)
    requires HslLess(byHue, bySat, byLight, p, q)
    ensures !HslLess(byHue, bySat, byLight, q, p)
  {
  }

  lemma HslLessTransitive(byHue: bool, bySat: bool, byLight: bool, p: Hsl, q: Hsl, r: Hsl)
    requires HslLess(byHue, bySat, byLight, p, q) && HslLess(byHue, bySat, byLight, q, r)
    ensures HslLess(byHue, bySat, byLight, p, r)
  {
  }

  /** Incomparability is transitive too, so the comparator is a strict weak
      order for every choice of flags. */
  lemma HslLessNegativelyTransitive(byHue: bool, bySat: bool, byLight: bool, p: Hsl, q: Hsl, r: Hsl)
    requires !HslLess(byHue, bySat, byLight, q, p) && !HslLess(byHue, bySat, byLight, r, q)
    ensures !HslLess(byHue, bySat, byLight, r, p)
  {
  }

  lemma ColorLessStrictWeakOrder(byHue: bool, bySat: bool, byLight: bool)
    ensures Asymmetric((x, y) => ColorLess(byHue, bySat, byLight, x, y))
    ensures NegativelyTransitive((x, y) => ColorLess(byHue, bySat, byLight, x, y))
  {
    forall x: Color, y: Color | ColorLess(byHue, bySat, byLight, x, y)
      ensures !ColorLess(byHue, bySat, byLight, y, x)
    {
      HslLessAsymmetric(byHue, bySat, byLight, ToHSL(x), ToHSL(y));
    }
    forall x: Color, y: Color, z: Color |
        !ColorLess(byHue, bySat, byLight, y, x) && !ColorLess(byHue, bySat, byLight, z, y)
      ensures !ColorLess(byHue, bySat, byLight, z, x)
    {
      HslLessNegativelyTransitive(byHue, bySat, byLight, ToHSL(x), ToHSL(y), ToHSL(z));
    }
  }

  // ---------------------------------------------------------------------------
  // SortByHSL and sortColorFrequencies
  // ---------------------------------------------------------------------------

  /** SortByHSL(colors, sortHue, sortSaturation, sortLightness): permutes the
      slice in place until no colour is less than one before it. */
  method SortByHSL(colors: array<Color>, byHue: bool, bySat: bool, byLight: bool)
    modifies colors
    ensures multiset(colors[..]) == old(multiset(colors[..]))
    ensures forall i, j | 0 <= i < j < colors.Length ::
      !ColorLess(byHue, bySat, byLight, colors[j], colors[i])
  {
    var less := (x, y) => ColorLess(byHue, bySat, byLight, x, y);
    ColorLessStrictWeakOrder(byHue, bySat, byLight);
    SortSlice(colors, less);
    AdjacentSortedIsSorted(colors[..], less);
    assert forall i, j | 0 <= i < j < colors.Length :: colors[i] == colors[..][i] && colors[j] == colors[..][j];
  }

  /** Is e the entry "colour e.c occurs e.count times" of the histogram? */
  predicate IsEntry(counts: map<Color, int>, e: ColorFreq)
  {
    e.c in counts && counts[e.c] == e.count
  }

  /** sortColorFrequencies(counts): every entry of the map exactly once, most
      frequent first. The map is walked in an unspecified order (Go randomises
      it), and sort.Slice is not stable, so equal counts come in either order. */
  method SortColorFrequencies(counts: map<Color, int>) returns (freq: seq<ColorFreq>)
    ensures |freq| == |counts|
    ensures forall e :: multiset(freq)[e] == if IsEntry(counts, e) then 1 else 0
    ensures forall i, j | 0 <= i < j < |freq| :: freq[i].count >= freq[j].count
  {
    var entries: seq<ColorFreq> := [];
    var rest := counts.Keys;
    while rest != {}
      invariant rest <= counts.Keys
      invariant |entries| + |rest| == |counts|
      invariant forall e :: multiset(entries)[e] == if IsEntry(counts, e) && e.c !in rest then 1 else 0
      decreases |rest|
    {
      var c :| c in rest;
      entries := entries + [ColorFreq(c, counts[c])];
      rest := rest - {c};
    }
    var a := new ColorFreq[|entries|](i requires 0 <= i < |entries| => entries[i]);
    assert a[..] == entries;
    var more := (x: ColorFreq, y: ColorFreq) => x.count > y.count;
    SortSlice(a, more);
    AdjacentSortedIsSorted(a[..], more);
    freq := a[..];
  }
}
