# grapes colour library, modelled in Dafny

grapes is a small Go colour library. A `Color` is four bytes R, G, B and A. The library converts colours to and from `#RRGGBB` hex strings, floats and HSL (hue in degrees, saturation, lightness). It extracts a palette of distinct dominant colours from an image, and a `Palette` builds colour harmonies from its colours: complementary, triadic, tetradic, analogous, analogous-accent and shades. It also sorts a palette in place by hue, saturation and lightness.

The Dafny project has five modules:

- `Colors` (colors.dfy): the `Color` datatype, `Hex`, `parseHexByte`, `FromHex`, `clamp`, `FromFloats` and the colour distance.
- `ColorSpace` (colorspace.dfy): `ToHSL`, `math.Mod` on reals, and `FromHSLf`.
- `Sort` (sort.dfy): `sort.Slice` as an in-place insertion sort over an `array`. It also has the comparator of `SortByHSL`, the slice form of `SortByHSL`, and `sortColorFrequencies`.
- `Extract` (extract.dfy): the image as a grid of 16-bit RGBA pixels, `countColors`, `isColorDistinct`, `filterDistinctColors` and `FromImage`.
- `Palettes` (palette.dfy): the `Palette` class over an `array<Color>` and its methods.

Some places are written as loops in Go: `countColors`, `isColorDistinct`, `filterDistinctColors`, `sortColorFrequencies`, the float flattening and the palette harmonies. These are Dafny methods with loop invariants, proved against specification functions:

- `Histogram`, `Distinct` and `PairwiseDistinct` for the extraction loops;
- `Renders(Expand(Bases(colors), HarmonyOf))` for the palette loops. It reads: the colours of the requests that a harmony (`ComplementaryOf`, `TriadicOf`, ...) makes for each colour's own HSL values, in order.

The straight-line code is written as functions: `ToHSL`, `FromHSLf`, `FromHex`, `FromFloats`, the distance and `clamp`.

Some facts hold across the whole model:

- Floats are Dafny `real`s.
- `math.Mod` is the truncated remainder `FMod`, which keeps the sign of its first argument.
- A `uint8(x)` conversion of a non-negative float is the floor, `FloatToByte`.
- `ColorDistance(a, b) < 100` is stated as `DistanceSq(a, b) < 10000`.

The source declares `parseHexByte`, `countColors`, `filterDistinctColors`, `isColorDistinct`, `clamp`, `sortColorFrequencies` and `colorFreq` twice: once in colors.go over the type `color`, and once in utils.go and sort.go over `Color`. The copies are the same code. The model has one `Color` type and one copy of each helper, and the table cites one of the copies.

## Model

| member | source | states |
|---|---|---|
| Colors.HexByte | colors.go:18 | `%02X` of a byte: two upper-case hex digits whose value is the byte |
| Colors.Hex | colors.go:17-19 | `#` followed by six upper-case hex digits, two per channel R, G, B; alpha is not written |
| Colors.ParseHexByte | utils.go:9-12 | `strconv.ParseUint(s, 16, 8)` with the error dropped, read left to right: the empty string gives 0; if the longest prefix of hex digits (either case) is worth more than 255, the overflow is met first and gives 255; otherwise a following non-digit gives 0, and an all-digit string gives its value |
| Colors.ScanSpec | utils.go:9-12 | the left-to-right scan of ParseUint, started anywhere inside the hex prefix before an overflow, ends as the ParseHexByte contract says |
| Colors.HexValueMonotone | utils.go:9-12 | a longer hex prefix is worth at least as much, so the first overflow decides |
| Colors.OverflowBeforeSyntaxError | utils.go:9-12 | "FFFG" gives 255, because the third digit overflows before the G is read; "FG" and "" give 0 |
| Colors.ParseHexByteTwoDigits | colors.go:77-80 | two hex digits parse to 16 * hi + lo |
| Colors.TrimHash | colors.go:62 | `strings.TrimPrefix(hex, "#")`: a string that starts with `#` is `#` followed by the result, and any other string is its own result |
| Colors.FromHex | colors.go:61-75 | after the `#` is stripped, 6 characters give RGB with alpha 255, 8 give RGBA, any other length gives the zero colour |
| Colors.HexByteRoundTrip | colors.go:18 | reading back the two digits written for a channel gives the channel |
| Colors.HexRoundTrip | colors.go:17-19 | `FromHex(Hex(c))` has c's R, G and B with alpha 255 |
| Colors.HexWithAlphaRoundTrip | colors.go:61-75 | `FromHex` of `Hex(c)` followed by the alpha digits is c itself |
| Colors.Clamp | utils.go:58-66 | the result lies in [0, 1]; values in [0, 1] are unchanged, below 0 give 0, above 1 give 1 |
| Colors.ClampIdempotent | colors.go:195-203 | clamping twice is clamping once |
| Colors.ClampMonotone | colors.go:195-203 | clamp preserves order |
| Colors.FloatToByte | colors.go:84 | `uint8(clamp(v) * 255)` is the floor of clamp(v) * 255; inputs >= 1 give 255 and inputs <= 0 give 0 |
| Colors.FloatToByteMonotone | colors.go:84 | the conversion preserves order |
| Colors.FromFloats | colors.go:82-89 | each channel is the floor of its clamped float times 255; saturated at 0 and 255 |
| Colors.DistanceSq | colors.go:116-125 | the square of `ColorDistance`: the red-mean weighted sum of the squared channel differences; its properties are the next rows |
| Colors.DistanceZeroIff | colors.go:116-125 | the squared distance is non-negative, and zero exactly when R, G and B agree |
| Colors.DistanceSymmetric | colors.go:116-125 | the distance is symmetric, including the red-mean weights |
| Colors.DistanceIgnoresAlpha | colors.go:116-125 | alpha does not affect the distance |
| ColorSpace.ToHSL | colors.go:25-59 | the Go conversion step by step; its range and sector are the next two rows |
| ColorSpace.ToHSLRange | colors.go:25-59 | hue in [0, 360), saturation and lightness in [0, 1]; R = G = B gives hue and saturation 0 |
| ColorSpace.ToHSLSector | colors.go:44-55 | the hue sector follows the largest channel, with a tie for the maximum resolved to R before G |
| ColorSpace.FMod | colors.go:92 | `math.Mod(x, y)`: the remainder lies in [0, y) for x >= 0 and in (-y, 0] for x < 0 |
| ColorSpace.FloorMod | colors.go:92 | the floored remainder always lies in [0, y) |
| ColorSpace.HueModSmall | colors.go:92 | for 0 <= x < 720 both remainders by 360 are x, or x - 360 |
| ColorSpace.ModAgreeNonNegative | colors.go:92 | the truncated and floored remainders agree on non-negative arguments |
| ColorSpace.HueFloorModPeriodic | colors.go:92 | the floored hue is periodic in 360 |
| ColorSpace.ComponentsSector | colors.go:93-111 | for s and l in [0, 1], the sector table puts the sector's primary channel first and the secondary between it and the third |
| ColorSpace.SecondComponentInRange | colors.go:94 | the secondary component x lies in [0, c] |
| ColorSpace.FromHSLfAsWritten | colors.go:91-114 | `FromHSLf` exactly as written, with `math.Mod` on the hue; the as-written half of the finding below, linked to the corrected one by the next rows |
| ColorSpace.FromHSLf | colors.go:91-114 | the corrected half of the finding below: the hue wrapped into [0, 360); alpha is `uint8(clamp(a) * 255)` |
| ColorSpace.FromHSLfAgreesOnNonNegativeHues | colors.go:91-114 | on hues >= 0 the corrected FromHSLf equals the code as written |
| ColorSpace.FromHSLfPeriodic | colors.go:91-114 | the corrected FromHSLf gives the same colour for h and h + 360 |
| ColorSpace.FromHSLfGrey | colors.go:93-113 | saturation 0 gives a grey with every channel equal to `uint8(clamp(l) * 255)` |
| ColorSpace.FromHSLfSector | colors.go:98-113 | for s and l in [0, 1], each 60-degree hue sector fixes the order of the output channels |
| ColorSpace.NegativeHueAsWritten | colors.go:92-100 | as written, hue -30 renders as (255, 0, 0) while 330 renders as (255, 0, 127); the corrected FromHSLf gives both the same colour |
| Sort.SortSlice | sort.go:6 | `sort.Slice`: the array ends up a permutation of its contents with no neighbour out of order |
| Sort.AdjacentSortedIsSorted | sort.go:6-20 | under a negatively transitive comparator, ordered neighbours give an ordered sequence |
| Sort.HslLess | sort.go:10-19 | the comparator body on (h, s, l) triples: the first enabled key on which the two differ decides, and with none the result is false; its properties are the next rows |
| Sort.ColorLess | sort.go:6-9 | the comparator on two colours goes through `ToHSL` of each |
| Sort.HslLessLexicographic | sort.go:10-19 | the comparator is the lexicographic order on the enabled keys hue, saturation, lightness; a key counts only when every enabled key before it is equal |
| Sort.HslLessAllOff | sort.go:6-20 | with every flag off nothing is less than anything |
| Sort.HslLessIrreflexive | sort.go:6-20 | no colour is less than itself |
| Sort.HslLessAsymmetric | sort.go:6-20 | the comparator is asymmetric |
| Sort.HslLessTransitive | sort.go:6-20 | the comparator is transitive |
| Sort.HslLessNegativelyTransitive | sort.go:6-20 | incomparability is transitive, so the comparator is a strict weak order for every flag combination |
| Sort.ColorLessStrictWeakOrder | sort.go:6-20 | the comparator on colours through ToHSL meets the requirements of the sort |
| Sort.SortByHSL | sort.go:5-21 | the slice is permuted in place so that no colour is less than one before it |
| Sort.SortColorFrequencies | sort.go:23-32 | every entry of the map exactly once, as many entries as keys, counts non-increasing |
| Extract.KeyHighByte | utils.go:24 | each channel of the stored key is the high byte of its 16-bit channel: the channel lies in [256 * key, 256 * key + 256) |
| Extract.TallySnoc | utils.go:20-25 | one more pixel adds 1 to its key's count, unless its 16-bit alpha is 0 |
| Extract.CountColors | utils.go:15-29 | the nested loop over the bounds builds exactly the histogram of the image's pixels in row order |
| Extract.CountRow | utils.go:19-26 | the inner loop adds one row of pixels to the histogram |
| Extract.RowCountedStep | utils.go:20-25 | counting the pixel at x is adding it to the histogram of everything before it |
| Extract.TallyCounts | utils.go:15-29 | the keys are exactly the colours of the visible pixels, and each count is that colour's number of occurrences, at least 1 |
| Extract.TransparentIgnored | utils.go:21-23 | a pixel with 16-bit alpha 0 leaves the histogram unchanged |
| Extract.LowAlphaCountedAsZero | utils.go:20-25 | a pixel with 16-bit alpha in 1..255 is counted under byte alpha 0 |
| Extract.TallySum | utils.go:15-29 | the counts sum to the number of pixels with nonzero 16-bit alpha |
| Extract.IsColorDistinct | utils.go:49-56 | true exactly when every existing colour is at distance at least 100 |
| Extract.ExactlyHundredIsDistinct | utils.go:51 | two colours at distance exactly 100 count as distinct |
| Extract.FilterDistinctColors | utils.go:32-47 | empty input gives empty output; otherwise the output starts with the first colour and has length >= 1; at most `limit` colours unless `limit` < 1; an order-preserving subsequence of the input; pairwise at distance >= 100; a first-fit scan (`FirstFitPicks`): every entry passed over before the m-th kept colour is within distance 100 of one of the m colours kept before it; when fewer than `limit` are returned every input colour is within distance 100 of a selected one |
| Extract.FromImage | colors.go:127-135 | an error with the message "numColors must be > 0" exactly when numColors <= 0; otherwise a `Selection` of the histogram: at most numColors colours, none exactly when no pixel is visible, each a histogram key, in non-increasing order of count starting with a most frequent one, pairwise distinct, covering every colour when fewer than numColors, and first fit: a histogram colour left out that is strictly more frequent than the m-th chosen one is within distance 100 of one of the m chosen before it |
| Extract.PipelineSelection | colors.go:129-134 | what sortColorFrequencies and filterDistinctColors promise, put together, is such a selection |
| Extract.SkippingKept | colors.go:129-134 | a colour the filter passed over that is more frequent than the m-th pick comes earlier in the sorted entries, in the gap before some pick g <= m, so the picks before m cover it |
| Extract.FilterDeterminate | utils.go:32-47 | the filter's contract fixes its output: two colour lists that both meet it for the same entries and limit are equal |
| Extract.FirstFitExample | utils.go:37-46 | red, green and blue counted 5, 3 and 1 with limit 2 give exactly [red, green]: the scan stops at the limit before blue |
| Extract.FirstFitSelectionExample | colors.go:127-135 | for that histogram [red, blue] is not a selection of two, because green is more frequent than blue and far from red |
| Extract.RankingKept | colors.go:131-132 | colours picked in order out of entries sorted by count keep that ranking |
| Extract.EmbeddingIncreasing | utils.go:32-47 | the kept positions are strictly increasing across the whole output, not only between neighbours |
| Extract.SortedEntries | sort.go:23-32 | the sorted entries are the histogram's entries, each key has one, and the first has the largest count |
| Palettes.Turn | palette.go:135 | `math.Mod(h + delta, 360)` keeps s, l and alpha and lands in [0, 360) for a non-negative sum |
| Palettes.MapAt | palette.go:136-138 | the colours of a list of requests are those of each request, in order |
| Palettes.MapAppend | palette.go:136-138 | appending requests appends their colours |
| Palettes.BasesAt | palette.go:133-134 | the starting request of colour i is that colour's own |
| Palettes.ExpandLength | palette.go:133-139 | k requests per colour give k times as many requests |
| Palettes.ExpandAt | palette.go:133-139 | colour i's requests sit from k * i on, in request order |
| Palettes.BaseInRange | palette.go:134 | a colour's own hue lies in [0, 360) |
| Palettes.HarmonyRequestsInRange | palette.go:85-86 | every hue the harmonies pass to FromHSLf lies in [0, 360), with the colour's s, l and alpha; the same lines are palette.go:135, 149-150, 165-167 and 183-185 |
| Palettes.RenderAsWritten | palette.go:137 | on those hues FromHSLf is exactly the code as written |
| Palettes.ComplementInvolution | palette.go:135 | the complement of the complement is the original request |
| Palettes.TriadicCycle | palette.go:149-150 | +120, +240 and back: the triadic hues form a cycle |
| Palettes.AnaloguesInverse | palette.go:85-86 | the two analogues undo each other |
| Palettes.AccentIsComplementWithAnalogues | palette.go:183-189 | the accent is the complement (the middle tetradic hue) flanked by its own analogues, +30 first |
| Palettes.ShadesShape | palette.go:103-121 | max(n, 1) requests of the colour's hue, saturation and alpha, each lightness in [0, 1], the first the clamped l0; for strength >= 0 odd steps are no darker and even steps no lighter than the first |
| Palettes.ShadesOfAt | palette.go:111-120 | shade i has lightness clamp(l0 + strength * i / steps) on odd i and clamp(l0 - strength * i / steps) on even i |
| Palettes.ComplementaryLayout | palette.go:129-141 | on the requests of n colours (Bases, with BasesAt: request i is colour i's), n requests, the i-th being request i's hue + 180 |
| Palettes.TriadicLayout | palette.go:143-157 | on n requests, 2n requests, request i's hues + 120 and + 240 at 2i and 2i + 1 |
| Palettes.TetradicLayout | palette.go:159-175 | on n requests, 3n requests, request i's hues + 90, + 180 and + 270 from 3i on |
| Palettes.AccentRequests | palette.go:184-189 | the accent's three requests are accent + 30, the accent itself and accent + 330, that is accent - 30 + 360 |
| Palettes.AnalogousAccentLayout | palette.go:177-193 | on n requests, 3n requests, request i's accent + 30, accent and accent - 30 (taken as + 330) from 3i on |
| Palettes.AnaloguesLayout | palette.go:83-91 | on n requests, 2n requests, request i's hues + 30 and - 30 (taken as + 330) at 2i and 2i + 1 |
| Palettes.ShadesLayout | palette.go:102-121 | on n requests, max(n, 1) shades per request, request i's shades from max(n, 1) * i on |
| Palettes.LightnessOrder | palette.go:124 | what SortByHSL(false, false, true) leaves is ordered by non-decreasing lightness |
| Palettes.Shade | palette.go:112-119 | one step of the inner loop renders the shade with the shifted, clamped lightness |
| Palettes.ShadesOfColor | palette.go:103-121 | the loop body for one colour renders exactly that colour's shade requests |
| Palettes.ComplementOfColor | palette.go:134-138 | the loop body renders the complement request |
| Palettes.TriadOfColor | palette.go:148-154 | the loop body renders the two triadic requests |
| Palettes.TetradOfColor | palette.go:164-172 | the loop body renders the three tetradic requests |
| Palettes.AccentOfColor | palette.go:182-190 | the loop body renders accent + 30, accent, accent - 30 |
| Palettes.AnaloguesOfColor | palette.go:84-90 | the loop body renders the two analogues |
| Palettes.RendersAsWritten | palette.go:137 | requests with non-negative hues give the same colours under FromHSLf as written |
| Palettes.ExpandFrom | palette.go:133-139 | every request of a palette comes from one of its colours |
| Palettes.HarmonyAsWritten | palette.go:133-139 | a harmony that asks only for non-negative hues from in-range colours gives the same colours with FromHSLf as written |
| Palettes.PalettesAsWritten | palette.go:79-193 | all five harmonies and the shades produce, colour for colour, what the code as written produces, so the hue correction changes no palette |
| Palettes.ExpandStep | palette.go:133-139 | one more colour appends its own requests' colours |
| Palettes.ComplementStep | palette.go:133-139 | one pass of Complementary's loop extends the output by colour i's complement |
| Palettes.TriadStep | palette.go:147-155 | one pass of Triadic's loop extends the output by colour i's two triadic colours |
| Palettes.TetradStep | palette.go:163-173 | one pass of Tetradic's loop extends the output by colour i's three tetradic colours |
| Palettes.AccentStep | palette.go:181-191 | one pass of AnalogousAccent's loop extends the output by colour i's accent colours |
| Palettes.AnaloguesStep | palette.go:83-91 | one pass of Analogues's loop extends the output by colour i's two analogues |
| Palettes.ShadesStep | palette.go:102-121 | one pass of Shades's outer loop extends the output by colour i's shades |
| Palettes.Palette.NewPalette | palette.go:49-53 | the palette holds the caller's slice itself |
| Palettes.Palette.ToFlatRGBFloats | palette.go:27-36 | 3n floats, slot 3i + j is component j of colour i's floats |
| Palettes.Palette.ToFlatRGBAFloats | palette.go:38-47 | 4n floats, slot 4i + j is component j of colour i's floats |
| Palettes.Palette.SortByHSL | palette.go:61-77 | the palette's own array is permuted in place into comparator order |
| Palettes.Palette.Complementary | palette.go:129-141 | the original colours unchanged, then for each colour in order the colour of its complement request; a new palette over a new array |
| Palettes.Palette.Triadic | palette.go:143-157 | the originals, then for each colour its + 120 and + 240 colours; a new palette over a new array |
| Palettes.Palette.Tetradic | palette.go:159-175 | the originals, then for each colour its + 90, + 180 and + 270 colours; a new palette over a new array |
| Palettes.Palette.AnalogousAccent | palette.go:177-193 | the originals, then for each colour accent + 30, accent, accent - 30; a new palette over a new array |
| Palettes.Palette.AnaloguesUnsorted | palette.go:80-91 | the originals, then for each colour its + 30 and - 30 colours |
| Palettes.Palette.Analogues | palette.go:79-97 | a permutation of the originals and their analogues, ordered by non-decreasing lightness; a new palette over a new array |
| Palettes.Palette.Shades | palette.go:99-127 | a permutation of every colour's max(n, 1) shades, ordered by non-decreasing lightness; a new palette over a new array |

## Left out

- Image decoding and `image.Image` are not modelled. An image is its bounds plus a function from a point to the 16-bit RGBA tuple that `At(x, y).RGBA()` returns.
- Floats are reals. IEEE-754 rounding, NaN and infinities are not modelled, and neither are facts that depend on rounding, such as alpha surviving `A / 255 * 255`.
- `math.Sqrt` is not modelled. `ColorDistance(a, b) < 100` is stated as the squared sum being below 10000, which is the same test on reals.
- `Color.ToFloats` is not part of this model. The flattening methods take it as a parameter `toFloats`.
- `sort.Slice` is an insertion sort here, and the order of Go's map iteration is any order. The model states only "a permutation with no element less than one before it". The relative order of equal elements is left open, as in the source.
- Extract.FromImage: colours with equal counts can come out of `sortColorFrequencies` in either order, so `Selection` states the first-fit choice only against colours that are strictly more frequent. `FilterDistinctColors` states it exactly, for the order the sort produced, and `FilterDeterminate` shows that its contract leaves one result.
- `Palette.String` and `color.String` are `fmt` debug output, and `Unpack` returns the field. None of them is modelled.
- `NewPaletteFromImage`, palette.go:55-59, does not compile: it uses the two-result `FromImage` as a single value. It is not modelled.
- The demo mains test/test.go and cmd/test.go do file I/O and printing, and they call functions that are not in the core. They are not modelled.
- Go string lengths count bytes. Here strings are sequences of characters, so `FromHex` on non-ASCII input is not modelled byte for byte.
- Palettes.Palette.NewPalette: the model is the call `NewPalette(cs...)`, where the palette holds the caller's slice itself. A call with separate arguments, `NewPalette(c1, c2)`, builds a new slice; that is `Palette.Of` here.
- Structure only, no behaviour: the loop of `Analogues` that builds the unsorted list is its own method, `AnaloguesUnsorted`. For each harmony, the per-colour loop body is a module-level method such as `ComplementOfColor`, and one pass of the loop, that body together with the proof that it extends the output, is a method such as `ComplementStep`. The per-colour inner loop of `Shades` is the method `ShadesOfColor`, and one step of it is `Shade`.
- Three behaviours of the code that are easy to misread:
  - `Shades` with `n <= 0` emits one colour per input. At palette.go:106-111, `steps = n - 1` is not 0, so there is no `continue`, but the inner loop does not run.
  - `AnalogousAccent` emits accent + 30 before accent - 30, palette.go:184-189.
  - `Complementary` does not sort its result, palette.go:129-141.

## Findings

| source | as written | input that shows it | evidently intended | confidence | as-written member | corrected member |
|---|---|---|---|---|---|---|
| colors.go:92 | `h = math.Mod(h, 360)` keeps the sign of a negative hue. The sector switch then takes the `h < 60` branch with a negative secondary component. | `FromHSLf(-30, 1, 0.5, 1)` gives (255, 0, 0, 255), while `FromHSLf(330, 1, 0.5, 1)` gives (255, 0, 127, 255) | a hue is an angle, so -30 and 330 should give the same colour: wrap into [0, 360) with a floored remainder, which makes FromHSLf periodic in 360 (ColorSpace.FromHSLfPeriodic) | not executed | ColorSpace.NegativeHueAsWritten | ColorSpace.FromHSLf |
