# picPalette: the colour-histogram engine and the upload filter

picPalette is a small Flask service that reports the dominant colours of an
uploaded image. This project models its computational core in `main.py`:

- **Quantization** (`quantize.dfy`, module `Quantize`): `quantize_color`
  floors each channel to a multiple of the quantization step,
  `(channel // step) * step`. Python's `//` floors and Dafny's `/` is
  Euclidean; for a positive step they agree on every integer.
- **Histogram** (`histogram.dfy`, module `Histogram`): `Counter(quantized_pixels)`
  is a left fold over the quantized pixels into a sequence of
  (colour, count) buckets. A Python dictionary iterates in insertion order,
  so the buckets are in the order each colour first occurs. Counting one more
  colour raises its bucket's count in place or appends a new bucket.
- **Percentages and ranking** (`ranking.dfy`, module `Ranking`): the
  percentage comprehension `(count / total_pixels) * 100` over exact reals, then
  `sorted(..., key=percentage, reverse=True)[:10]`. Python's sort is stable,
  also with `reverse=True`, so the sort is modelled as a stable insertion sort.
  `SortDescUnique` proves that any sorted list keeping tied shares in input
  order is this one.
- **Hex formatting** (`hexcolor.dfy`, module `HexColor`): `f"#{r:02x}{g:02x}{b:02x}"`,
  with a parser `ParseHex` as its inverse.
- **The pipeline** (`palette.dfy`, module `Palette`): `DominantColors` chains
  these steps from the decoded pixels to the list of `(hex, percentage)`
  entries that `calculate_color_percentages` returns.
- **The upload filter** (`upload.dfy`, module `Upload`): `allowed_file` and
  `ALLOWED_EXTENSIONS`.
- `wrappers.dfy` holds the `Option` type.

The pixels are an input: the model starts from the flat sequence of RGB
triples that the image library produces after decoding and resizing.

`main.py` does not check `step`, and its only caller, `main.py:94`, always
passes the default 32. The model requires `step > 0`. A `step` of 0 fails
with a division error at `main.py:36`. Other steps are not rejected either,
and what happens to them depends on the NumPy version: under NumPy 1.x a
step of 256 or more puts every channel in bucket 0, as the model does, while
NumPy 2 raises an overflow error for a Python integer outside the `uint8`
range. Negative steps are left out; see "Left out". One might expect `step`
to be checked against (0, 256] and an empty raster to be rejected; `main.py`
has neither check, and the model follows the code. An empty pixel sequence
gives an empty result, since no division happens. In the service the
sequence is never empty, because every image is resized to 100 × 100.

One might expect a larger step never to yield more distinct buckets. That is
true when the finer step divides the coarser one (`CoarserStepFewerBuckets`).
It is false in general: `CoarserStepCanSplit` shows red channels 40 and 50
sharing one bucket at step 32 and falling into two buckets at step 48.

## Model

| member | source | states |
|---|---|---|
| Quantize.QuantizeChannel | main.py:36 | the bucket of a channel is a multiple of `step`, at most the channel and more than the channel minus `step`; it is non-negative for a non-negative channel |
| Quantize.QuantizeColor | main.py:35-36 | every channel of the result is quantized and within one step below the original; the bucket of an 8-bit pixel is an 8-bit pixel |
| Quantize.QuantizeAll | main.py:49 | one bucket per pixel, in pixel order, each the `quantize_color` of its pixel |
| Quantize.QuantizeChannelUnique | main.py:36 | the bucket is the only multiple of `step` in the window `(v - step, v]` |
| Quantize.QuantizeChannelIsFloor | main.py:36 | every multiple of `step` that is at most the channel is at most its bucket: the bucket is the floor |
| Quantize.QuantizeChannelIdempotent | main.py:36 | quantizing a bucket again leaves it unchanged |
| Quantize.QuantizeColorIdempotent | main.py:35-36 | `quantize_color` is idempotent |
| Quantize.QuantizeColorFixedPoints | main.py:35-36 | a colour is left unchanged by quantization exactly when all its channels are multiples of `step` |
| Quantize.QuantizeChannelCoarsen | main.py:36 | when the fine step divides the coarse one, quantizing finely then coarsely equals quantizing coarsely |
| Quantize.QuantizeColorCoarsen | main.py:35-36 | the same for whole colours |
| Quantize.DistinctBound | main.py:49-52 | a sequence of colours has no more distinct colours than elements |
| Quantize.Buckets | main.py:49-52 | the distinct buckets of an image, the keys `Counter` will hold, are never more numerous than its pixels |
| Quantize.CoarserStepFewerBuckets | main.py:35-36 | a coarser step that is a multiple of the finer one never yields more distinct buckets |
| Quantize.CoarserStepCanSplit | main.py:35-36 | without divisibility a coarser step can yield more buckets (step 32 versus 48 on red 40 and 50) |
| Quantize.QuantizeExample | main.py:24-36 | with the default step 32, pixel (200, 10, 5) lands in (192, 0, 0) and white in (224, 224, 224) |
| Histogram.Find | main.py:52 | the bucket lookup finds a position holding the colour, or reports that no bucket holds it |
| Histogram.Add | main.py:52 | counting one colour keeps keys unique, raises only that colour's count by one (appending a bucket for a new colour) and raises the total by one |
| Histogram.AddNew | main.py:52 | a colour without a bucket gets a new bucket with count 1 at the end |
| Histogram.AddExisting | main.py:52 | a colour with a bucket has that bucket's count raised by one, in place |
| Histogram.CountSnoc | main.py:52 | counting one more pixel at the end is one more `Add` on the histogram so far |
| Histogram.Count | main.py:52 | `Counter` produces unique keys |
| Histogram.CountTallies | main.py:49-55 | the `Counter` is the tally of the quantized pixels: unique keys, exactly the colours present, each count the multiplicity of its colour (so at least 1), counts summing to `len(quantized_pixels)`, one bucket per distinct colour |
| Histogram.AddTallies | main.py:52 | counting one more colour turns the tally of a sequence into the tally of the longer sequence |
| Histogram.TallyExtend | main.py:52 | raising the bucket of the new colour by one, or appending a bucket for it, turns the tally of a sequence into the tally of the longer sequence |
| Histogram.CountKeys | main.py:49-52 | a colour is a key of the `Counter` exactly when some pixel is quantized to it |
| Histogram.CountBucket | main.py:52 | each bucket's count is the number of pixels in that bucket, between 1 and the pixel count |
| Histogram.CountSum | main.py:52-55 | the counts add up to `total_pixels` |
| Histogram.CountLength | main.py:52 | there is one bucket per distinct quantized colour |
| Histogram.CountOrder | main.py:52 | the `Counter` iterates its colours in the order they first occur among the pixels (one order predicate over colour sequences, shared with the ranking) |
| Histogram.AddOrder | main.py:52 | counting one more colour preserves first-occurrence order |
| Histogram.OrderExtend | main.py:52 | keeping the colours in place, or appending a colour not seen before, keeps first-occurrence order |
| Ranking.Percent | main.py:59 | a percentage is never negative; its value is fixed by `PercentScaled`, and `PercentBounds` puts it in (0, 100] |
| Ranking.PercentScaled | main.py:59 | the percentage times `total_pixels` is 100 times the count |
| Ranking.PercentBounds | main.py:58-60 | a bucket with between 1 and `total_pixels` pixels has a percentage above 0 and at most 100 |
| Ranking.PercentMonotone | main.py:58-63 | over a fixed total, percentages compare and tie exactly as counts do, so ranking by percentage is ranking by count |
| Ranking.Shares | main.py:58-60 | one share per bucket, in `Counter` order, with its colour and `(count / total) * 100` |
| Ranking.PercentAdd | main.py:59 | the percentage of two counts together is the sum of their percentages |
| Ranking.PercentWhole | main.py:55-59 | a count equal to `total_pixels` is exactly 100 percent |
| Ranking.SumShares | main.py:55-60 | the percentages of the buckets add up to the percentage of all their counts together |
| Ranking.SharesSumTo100 | main.py:55-60 | percentages over the histogram's own total add up to exactly 100 |
| Ranking.PercentagesSumTo100 | main.py:49-60 | the untruncated percentages of a non-empty image add up to exactly 100 |
| Ranking.WithPercentMembers | main.py:63 | the shares of one percentage are shares of the list with that percentage |
| Ranking.Insert | main.py:63 | inserting into the sort adds exactly the one share |
| Ranking.InsertSorted | main.py:63 | inserting into a non-increasing list keeps it non-increasing |
| Ranking.SortDesc | main.py:63 | `sorted(reverse=True)` gives a permutation of its input in non-increasing order of percentage |
| Ranking.InsertStable | main.py:63 | insertion puts the new share before every share with the same percentage |
| Ranking.SortDescStable | main.py:63 | the sort is stable: the shares of each percentage keep their input order |
| Ranking.SortDescUnique | main.py:63 | any non-increasing list that keeps the input order within each percentage equals the sort, so the model agrees with every stable sort |
| Ranking.SortedFiltersDetermine | main.py:63 | two non-increasing lists with the same shares at each percentage are equal |
| Ranking.SortDescSum | main.py:63 | sorting does not change the sum of the percentages |
| Ranking.SortDescTies | main.py:52-63 | after the sort, tied shares keep the order of their colours in the input |
| Ranking.Top | main.py:63 | `[:10]` keeps the first `min(10, n)` shares |
| Ranking.TopSorted | main.py:63 | the kept prefix of a sorted list is sorted |
| Ranking.TopCutOff | main.py:63 | a share past the cut-off means ten were kept, each with at least its percentage |
| Ranking.RankEntry | main.py:49-63 | each kept share is a colour of the image with its exact percentage, above 0 and at most 100 |
| Ranking.SharesCutOff | main.py:58-63 | a bucket whose colour is not kept has at most the percentage of every kept share, and ten shares were kept |
| Ranking.RankSumAtMostShares | main.py:58-63 | the kept percentages add up to at most the sum of all percentages |
| Ranking.RankLength | main.py:52-63 | the ranking keeps `min(10, number of distinct quantized colours)` shares |
| Ranking.Rank | main.py:58-63 | the ranking keeps `min(10, number of buckets)` shares in non-increasing order of percentage; `RankEntry`, `RankCutOff` and `RankTies` give what they contain |
| Ranking.RankCutOff | main.py:49-63 | a colour of the image that is not kept was cut off because ten colours were kept, each at least as large |
| Ranking.SharesColors | main.py:58-60 | the percentage dictionary has the `Counter`'s colours, in the same order |
| Ranking.SharesInOrder | main.py:52-60 | the percentage dictionary iterates its colours in first-occurrence order |
| Ranking.RankTies | main.py:52-63 | of two kept colours with equal percentages, the one occurring first in the image is ranked first |
| Ranking.RankDistinct | main.py:52-63 | no colour is ranked twice |
| Ranking.RankSumAtMost100 | main.py:49-63 | the kept percentages add up to at most 100 |
| HexColor.HexDigit | main.py:67 | a value below 16 becomes a lower-case hex digit |
| HexColor.Hex2 | main.py:67 | `:02x` of a channel is exactly two lower-case hex digits |
| HexColor.FormatHex | main.py:66-69 | the text is 7 characters long: `#`, then six lower-case hex digits |
| HexColor.DigitValue | main.py:67 | a character has a value exactly when it is a lower-case hex digit, and that value writes back to it |
| HexColor.ParseHex | main.py:66-69 | whatever parses as `#rrggbb` is an 8-bit colour |
| HexColor.Hex2RoundTrip | main.py:67 | reading back the two digits of a channel gives the channel |
| HexColor.ParseFormat | main.py:66-69 | reading back a formatted colour gives the colour |
| HexColor.FormatParse | main.py:66-69 | every string that parses as a colour is that colour's formatting |
| HexColor.FormatHexInjective | main.py:66-69 | distinct colours are formatted differently |
| HexColor.FormatExample | main.py:66-69 | (192, 0, 0) is `#c00000`, (224, 224, 224) is `#e0e0e0`, black is `#000000` |
| Palette.BucketIsPixel | main.py:49 | every bucket of an 8-bit image is an 8-bit colour |
| Palette.RankedShareFacts | main.py:49-63 | a ranked bucket of an image is one of its buckets, with its exact percentage, above 0 and at most 100 |
| Palette.FormatEntries | main.py:66-69 | one entry per ranked share; each entry's text reads back as the share's colour and keeps its percentage |
| Palette.FormatEntriesSum | main.py:66-69 | formatting does not change the sum of the percentages |
| Palette.DominantColors | main.py:24-71 | the result has `min(10, number of distinct buckets)` entries in non-increasing order of percentage |
| Palette.DominantColorsFormats | main.py:63-71 | the entries are the ranked shares, written as `#rrggbb` |
| Palette.DominantColorsEntry | main.py:49-71 | each entry names a bucket of the image and gives the exact percentage of its pixels, above 0 and at most 100 |
| Palette.DominantColorsDistinct | main.py:52-71 | no hex colour is listed twice |
| Palette.DominantColorsCutOff | main.py:49-71 | a bucket that is not listed was cut off because ten entries were listed, each with at least its percentage |
| Palette.DominantColorsTies | main.py:52-71 | of two listed entries with equal percentages, the bucket of the earlier pixel comes first |
| Palette.DominantColorsSumAtMost100 | main.py:55-71 | the listed percentages add up to at most 100 |
| Palette.ResizedPercent | main.py:40-59 | for the 100 × 100 resized image, a percentage is the bucket's pixel count divided by 100 |
| Palette.CountConstant | main.py:52 | counting `n` copies of one colour gives one bucket holding `n` |
| Palette.SingleColorImage | main.py:24-71 | an image of one colour gives one entry, its bucket at 100% |
| Palette.CountPair | main.py:52 | two pixels of one colour are counted as one bucket of 2 |
| Palette.CountPairThenOther | main.py:52 | a new colour after two equal ones gets a second bucket, after the first |
| Palette.CountTwoColors | main.py:52 | two black and two white buckets are counted as two buckets of 2, black first |
| Palette.RankTwoColors | main.py:58-63 | two buckets at 50% each keep their `Counter` order |
| Palette.FormatTwoColors | main.py:66-69 | the two 50% shares of black and (224, 224, 224) are written `#000000` and `#e0e0e0` |
| Palette.TwoColorExample | main.py:24-71 | two black and two white pixels with step 32 give `#000000` at 50.0, then `#e0e0e0` at 50.0 |
| Upload.LowerChar | main.py:21 | upper-case ASCII letters become lower case; every other character is unchanged |
| Upload.Lower | main.py:21 | `lower()` maps every character and keeps the length |
| Upload.LastDot | main.py:21 | finds a dot with no dot after it, or reports that there is no dot |
| Upload.RSplitDot | main.py:21 | `rsplit('.', 1)` loses nothing: head, dot and extension rebuild the name, and the extension has no dot; `RSplitDotUnique` shows it is the only such split |
| Upload.RSplitDotUnique | main.py:21 | any split into a head and a dot-free extension is the `rsplit('.', 1)` split |
| Upload.AllowedFile | main.py:20-21 | an accepted name contains a dot and has at least four characters; `AllowedFileIff` states exactly which names are accepted |
| Upload.AllowedFileIff | main.py:12-21 | a name is accepted exactly when it is `head.ext` with a dot-free `ext` whose lower-case form is png, jpg, jpeg or gif |
| Upload.NoDotRefused | main.py:20-21 | a name without a dot is refused |
| Upload.LowerDots | main.py:21 | lower-casing keeps exactly the dots |
| Upload.AllowedFileIgnoresCase | main.py:12-21 | a name is accepted exactly when its lower-case form is |
| Upload.AllowedFilePrefix | main.py:20-21 | prefixing an accepted name keeps it accepted: only the last extension counts |
| Upload.AllowedFileUpperCase | main.py:12-21 | `photo.PNG` is accepted: the extension is compared in lower case |
| Upload.AllowedFileBareExtension | main.py:12-21 | `.gif` is accepted: the text before the dot may be empty |
| Upload.AllowedFileRefuses | main.py:12-21 | `archive.tar.gz`, `png` and `image.` are refused |

## Left out

- The Flask application, the `index` route, request and redirect handling, and template rendering: HTTP and UI glue.
- `os.makedirs`, `file.save`, `os.path.join` and the upload-folder configuration: file-system I/O.
- `secure_filename`: a Werkzeug call whose code is not part of this model.
- `Image.open(...).convert('RGB')` and `img.resize((100, 100))`: image decoding and resampling belong to the image library. The model takes the resized pixels as its input; `ResizedPixels` records their number.
- The NumPy array conversion and `reshape((-1, 3))`: these only flatten the raster, and the model's input is already flat.
- Ranking.Percent: percentages are exact reals, not IEEE doubles. With the 10,000 pixels of the resized image, `(count / 10000) * 100` in floating point is strictly increasing in `count`, so the floating-point sort orders and ties buckets as the exact values do. Only the printed digits can differ.
- Quantize.QuantizeChannel: the NumPy `uint8` channel type is not modelled. The bucket never exceeds the channel, so no wrap-around occurs for any positive step that NumPy accepts.
- Quantize.QuantizeChannel: requires `step > 0`, which `main.py` never checks. This leaves out step 0 (a division error), negative steps (under NumPy 1.x, `200 // -32 * -32` is 224 and channel 255 becomes 256, three hex digits; Dafny's Euclidean `/` would give 192 instead) and, under NumPy 2, steps outside the `uint8` range (an overflow error). The only call, at `main.py:94`, passes the default 32.
- Upload.Lower: only ASCII letters are lower-cased. Python's `str.lower` also maps other characters. None of them lower-cases to a single character of `png`, `jpg`, `jpeg` or `gif`, so the accepted names are the same.
