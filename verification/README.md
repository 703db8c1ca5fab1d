# Image2ASCII core, modelled in Dafny

Image2ASCII turns an image into lines of text. A decoded image is a single
brightness plane of samples in [0, 255]. `convertImage` runs four steps on it:

1. It optionally inverts the plane (`255 - v`).
2. It downsamples the plane by block averaging (`resizeImage`, `averageResize`). The result has one sample per character, and its height is set from the width, the image's aspect ratio and the character aspect.
3. It cuts the resized plane's brightness range `[min, max]` into one band per glyph (`mapCharacterDensity`). It stores each band's upper bound with its glyph in an ordered `std::map`.
4. It renders every sample as the glyph of the first key at or above it (`renderImage`). A sample above every key takes the glyph of the greatest key, and an empty glyph becomes a space.

The model is pure Dafny: planes are `seq<seq<int>>` indexed `p[y][x]`, and the map is a strictly ascending sequence of `(key, glyph)` entries. The source computes with `float` and `double` divisions. The model reads each of them as an exact rational and truncates it with floor division, which agrees with the source's `int(...)` casts because every operand is non-negative. The one possibly negative quotient, the output height, is truncated toward zero (`Floors.TruncDiv`). Glyphs are lines of the glyph file as byte strings, and one Dafny `char` stands for one C++ `char` (one byte). So "single-character glyph" and "`width` characters" count bytes: a UTF-8 glyph such as `█` is three `char`s.

Modules:
- `Floors`: floor-division facts.
- `Planes`: planes and inversion.
- `Resize`: block averaging and the output height.
- `GlyphMap`: `std::map::insert`, `lower_bound` and the render lookup.
- `Density`: the brightness range and the band keys.
- `Render`: `renderImage`.
- `Convert`: the pipeline.

Each lookup has an independent reference. `Density.CeilLevel` is the lowest level whose upper bound reaches a brightness. `Density.LookupFindsLevel` proves that the map built level by level, with `insert` keeping the first glyph under a repeated key, answers every brightness with that level's glyph.

A flat plane (every sample equal) with two or more glyphs has every level but the last keyed at `min - 1`. The last level is clamped to `max`, so the whole plane renders as the last glyph: a 2 by 2 plane of brightness 128 with glyphs `#` then `.` renders as `..` (`Convert.GraySquare`).

## Model

| member | source | states |
|---|---|---|
| Planes.Invert | src/image2ASCII.cpp:138-140 | every sample becomes `255 - v`, the shape is kept, samples stay in [0, 255], and a plane within [lo, hi] becomes one within [255 - hi, 255 - lo] |
| Planes.InvertInvolutive | src/image2ASCII.cpp:138-140 | inverting twice gives back the original plane |
| Planes.InvertWellFormed | src/image2ASCII.cpp:138-140 | the inverse of a decoded plane is a decoded plane of the same width and height |
| Resize.Edge | src/image2ASCII.cpp:36-39 | edge i of `src` cells cut into `out` strips, `int(i * scaleX)`, is the floor of i * src / out: `e * out <= i * src < (e + 1) * out` |
| Resize.StripsTile | src/image2ASCII.cpp:31-41 | the strip edges `floor(i * W / out)` run from 0 to W, every strip is non-empty and inside the axis, every source column lies in a strip, and in only one, so the blocks tile the source exactly |
| Resize.BlockBounds | src/image2ASCII.cpp:36-41 | with 1 ≤ out ≤ W on both axes, the crop rectangle of every output cell is non-empty and inside the image |
| Resize.Crop | src/image2ASCII.cpp:41 | the crop is a grid of the requested size whose sample (j, i) is source sample (x0 + j, y0 + i) |
| Resize.Block | src/image2ASCII.cpp:36-41 | the block of cell (x, y) has as many rows as edges y to y + 1 span and as many columns as edges x to x + 1 span, holds the source samples at those offsets, and is non-empty |
| Resize.Mean | src/image2ASCII.cpp:42 | the mean cast to `unsigned char` is the floor of total / size, and lies between any bounds of the block's samples |
| Resize.AverageResize | src/image2ASCII.cpp:28-47 | the result is outW by outH, every sample is the truncated mean of its block, samples stay within any bounds of the input, and the result is a decoded plane |
| Resize.SampleWithinBlock | src/image2ASCII.cpp:41-42 | each output sample lies between the least and greatest samples of its own block |
| Resize.ResizeIdentity | src/image2ASCII.cpp:31-42 | resizing a plane to its own width and height returns it unchanged |
| Resize.OutputHeight | src/image2ASCII.cpp:51-55 | `int(outW * (H / W) * charAspect)` is the floor of the exact product for a non-negative aspect, and never positive for a negative one |
| Resize.ResizeImage | src/image2ASCII.cpp:50-58 | the result is exactly outW wide and floor(outW * H * aspect / W) high, is a decoded plane, and keeps any bounds of the input |
| GlyphMap.Insert | src/image2ASCII.cpp:89 | `map::insert` keeps the keys strictly ascending |
| GlyphMap.InsertKeeps | src/image2ASCII.cpp:89 | inserting a key already present changes nothing, so the first glyph inserted under a key is kept |
| GlyphMap.InsertAdds | src/image2ASCII.cpp:89 | inserting a new key adds one entry and maps the key to the new glyph |
| GlyphMap.InsertMeaning | src/image2ASCII.cpp:89 | the key-to-glyph map after insert is unchanged if the key was present and otherwise gains exactly that key |
| GlyphMap.InsertAtEnd | src/image2ASCII.cpp:82-89 | inserting a key at or above the last key appends it, or changes nothing when it equals the last key |
| GlyphMap.LowerBound | src/image2ASCII.cpp:105 | `lower_bound(v)` is the first position whose key is at least v, or the end when there is none |
| GlyphMap.LowerBoundUnique | src/image2ASCII.cpp:105 | any position with those two properties is the lower bound |
| GlyphMap.Lookup | src/image2ASCII.cpp:105-112 | on a map with ascending keys, as a `std::map` always has: for v up to the greatest key, the glyph is that of the least key at least v; above every key it is the glyph of the greatest key; it is always some entry's glyph |
| Density.Observe | src/image2ASCII.cpp:66-72 | one scan step widens the running range just enough to hold the sample: the new minimum is the old minimum or the sample and is at most both, and likewise for the maximum |
| Density.ScanRow | src/image2ASCII.cpp:65-73 | scanning a row only lowers the minimum and raises the maximum, each new extreme is a sample of the row, and every sample lies between them |
| Density.ScanPlane | src/image2ASCII.cpp:65-73 | the same for the whole plane |
| Density.BrightnessRange | src/image2ASCII.cpp:62-74 | on a non-empty plane of 8-bit samples, min and max both occur in the plane, bound every sample, and satisfy 0 ≤ min ≤ max ≤ 255; on a plane with no sample (no rows, or only empty rows) they stay 255 and 0 |
| Density.LevelKeyFloor | src/image2ASCII.cpp:83-87 | a non-final level's key is `min + floor((max - min + 1) * (level + 1) / n) - 1`, stated as the floor bounds, and the last level's key is clamped to `max` |
| Density.NonFinalBelowMax | src/image2ASCII.cpp:83-87 | every level but the last has key at most max - 1, and the clamped last key is max |
| Density.KeysMonotone | src/image2ASCII.cpp:82-87 | keys never decrease from one level to the next |
| Density.KeysStrict | src/image2ASCII.cpp:78-87 | when max - min + 1 is at least the number of glyphs, keys strictly increase |
| Density.CeilLevel | src/image2ASCII.cpp:78-89 | the band of brightness v is a level below the glyph count, every earlier level has a key below v, its own key reaches v unless it is the last level, and for v up to max its key always reaches v |
| Density.CeilLevelBand | src/image2ASCII.cpp:78-87 | a brightness up to max is in band l exactly when it is above level l - 1's key and at most level l's key |
| Density.Levels | src/image2ASCII.cpp:81-90 | the map after inserting levels 0 to k - 1 in order keeps its keys strictly ascending |
| Density.LevelsSize | src/image2ASCII.cpp:81-90 | after k insertions the map has at most k entries, and at least one once a level has been inserted |
| Density.LevelsInvariant | src/image2ASCII.cpp:81-90 | after inserting levels 0 to k - 1 the map ends at level k - 1's key, and every brightness up to it finds the entry of its band |
| Density.LookupFindsLevel | src/image2ASCII.cpp:81-112 | every brightness renders as the glyph of its band; above max it falls back to the last glyph |
| Density.LookupBand | src/image2ASCII.cpp:82-112 | a brightness above level l - 1's key and up to level l's key renders as glyph l |
| Density.MappingEntries | src/image2ASCII.cpp:81-90 | every entry holds a level's key with the glyph of the lowest level having that key, and every level's key is present |
| Density.LevelsDistinct | src/image2ASCII.cpp:78-90 | when the range holds at least one value per glyph, the map has exactly one entry per glyph, in glyph order |
| Density.FlatRange | src/image2ASCII.cpp:83-89 | on a flat range with two or more glyphs the map is {min - 1: first glyph, max: last glyph}, and the one brightness renders as the last glyph |
| Density.LevelGlyphs | src/image2ASCII.cpp:89 | every glyph in the map is one of the given glyphs |
| Density.MapCharacterDensity | src/image2ASCII.cpp:60-93 | the map is non-empty with ascending keys, its greatest key is the plane's max, and its glyphs come from the glyph set |
| Render.Cell | src/image2ASCII.cpp:114-118 | a non-empty glyph is written as is, and an empty glyph becomes one space, so a cell is never empty |
| Render.RenderRow | src/image2ASCII.cpp:99-121 | a line is never shorter than its row |
| Render.RenderRowCells | src/image2ASCII.cpp:99-121 | a line is the concatenation, left to right, of the cells of the row's samples |
| Render.SingleColumnRow | src/image2ASCII.cpp:101-119 | with single-character glyphs, a line is as long as its row and column x is the cell of sample x |
| Render.RenderUniformRow | src/image2ASCII.cpp:101-119 | a row of one brightness renders as that brightness's cell repeated once per sample |
| Render.RenderImage | src/image2ASCII.cpp:95-125 | one line per row, top to bottom, line y being the concatenation of the cells of row y's samples; with single-character glyphs each line has the row's length and character (x, y) is the cell of sample (x, y) |
| Convert.Source | src/image2ASCII.cpp:138-140 | the plane after the optional invert is decoded and has the input's dimensions |
| Convert.Resized | src/image2ASCII.cpp:142 | the resized plane is decoded, `width` wide, and as high as the output height |
| Convert.ConvertImage | src/image2ASCII.cpp:138-146 | the text has one line per output row, and with single-character glyphs every line is exactly `width` characters |
| Convert.LevelCell | src/image2ASCII.cpp:144-146 | with single-character glyphs the map is single-column and a brightness's cell is its band's glyph |
| Convert.ConvertCell | src/image2ASCII.cpp:142-146 | with single-character glyphs, character (x, y) of the text is the glyph of the band that resized sample (x, y) falls in |
| Convert.UniformRender | src/image2ASCII.cpp:144-146 | a plane of one brightness renders every line as the last glyph's cell repeated across the row |
| Convert.UniformPlane | src/image2ASCII.cpp:138-146 | a plane of one brightness, inverted or not, converts to lines that each repeat the last glyph's cell `width` times |
| Convert.GraySquare | src/image2ASCII.cpp:138-146 | a 2 by 2 plane of brightness 128 with glyphs `#`, `.` at width 2 and aspect 1 converts to `..`, `..` |

## Left out

- `getCharacterSet` (src/image2ASCII.cpp:19-26) reads the glyph file line by line. That is file I/O, so the glyph set is a parameter.
- `main` (src/image2ASCII.cpp:149-217) is command-line parsing, the width 10..500 check and printing, which is I/O and plumbing.
- Image decoding and `RGBtoYCbCr().channel(0)` (src/image2ASCII.cpp:131-136) belong to the image library and use floating-point colour conversion, so the model starts from the decoded brightness plane.
- The non-three-channel `get_channels(0, 2)` path (src/image2ASCII.cpp:132-133) can keep several channels, which the library's crop and mean would then mix. The model covers single-channel planes only.
- Upsampling (`outputWidth > W` or output height > H) depends on the library's crop behaviour for reversed or out-of-range corners. An output height of 0 gives an empty image, whose loops never run, and so no lines at all. `Resize.Downsizes` and `Resize.ResizeDownsizes` require a downsampling to a plane with at least one row.
- The `scaleContrast = false` branch of `mapCharacterDensity` (src/image2ASCII.cpp:64) is never taken by `convertImage` (src/image2ASCII.cpp:144). It would keep min 255 and max 0.
- An empty glyph set divides by zero (src/image2ASCII.cpp:78), so a non-empty glyph set is required.
- Density.RawKey reads `intervalSize * (level + 1)` as the exact rational `(max - min + 1) * (level + 1) / n`. In binary `double` arithmetic the product can land just below an exact integer. For example, with a range of 30 and 22 glyphs, `30.0 / 22 * 11` rounds to 14.999999999999998, so when the minimum brightness is 0 or 1 the code's key for level 10 is one below the model's. For a minimum of 2 or more, the `double` sum rounds up to the exact value and the two agree. Modelling IEEE rounding is out of scope.
- Resize.Edge and Resize.OutputHeight likewise read `scaleX`, `scaleY`, `aspectRatio` and `charAspect` (single-precision `float`, and `0.4f` is not exactly 2/5) as exact rationals. At boundaries where the exact value is an integer, `float` rounding can move an edge or the output height by one.
- `averageResize`'s column-then-row loop order (src/image2ASCII.cpp:34-35) is not modelled as an order. Every output cell depends only on its own block, so the result is the same.
