/**
 The pipeline of `convertImage` after decoding: optionally invert, resize to
 one sample per character, build the brightness mapping from the resized
 plane, and render it.
 */
module Convert {
  import opened Planes
  import opened Resize
  import opened GlyphMap
  import opened Density
  import opened Render

  /** The conversion parameters: output width in characters, character aspect, invert flag. */
  datatype Options = Options(width: nat, aspect: Ratio, invert: bool)

  /** The decoded plane, after the invert step when it is asked for. */
  function Source(p: Plane, opts: Options): (s: Plane)
    requires WellFormed(p)
    ensures WellFormed(s) && Width(s) == Width(p) && Height(s) == Height(p)
  {
    InvertWellFormed(p);
    if opts.invert then Invert(p) else p
  }

  /** What the conversion asks of its inputs: a glyph set, and a downsampling resize. */
  predicate Accepts(p: Plane, glyphs: seq<string>, opts: Options)
  {
    0 < |glyphs| && ResizeDownsizes(p, opts.width, opts.aspect)
  }

  /** The plane the text is drawn from. */
  function Resized(p: Plane, opts: Options): (q: Plane)
    requires ResizeDownsizes(p, opts.width, opts.aspect)
    ensures WellFormed(q) && Width(q) == opts.width
    ensures Height(q) == OutputHeight(Width(p), Height(p), opts.width, opts.aspect)
  {
    ResizeImage(Source(p, opts), opts.width, opts.aspect)
  }

  /**
   `convertImage` on a decoded plane: one line per output row, and with
   single-character glyphs every line is exactly `width` characters.
   */
  function ConvertImage(p: Plane, glyphs: seq<string>, opts: Options): (lines: seq<string>)
    requires Accepts(p, glyphs, opts)
    ensures |lines| == OutputHeight(Width(p), Height(p), opts.width, opts.aspect)
    ensures (forall g :: g in glyphs ==> |g| <= 1) ==>
      forall y :: 0 <= y < |lines| ==> |lines[y]| == opts.width
  {
    var q := Resized(p, opts);
    var m := MapCharacterDensity(glyphs, q);
    var lines := RenderImage(q, m);
    assert (forall g :: g in glyphs ==> |g| <= 1) ==>
      forall y :: 0 <= y < |lines| ==> |lines[y]| == opts.width
    by {
      if forall g :: g in glyphs ==> |g| <= 1 {
        NarrowGlyphs(m, glyphs);
        FullWidth(q, m, opts.width);
      }
    }
    lines
  }

  /** A mapping whose glyphs all come from a set of single-character glyphs is single-column. */
  lemma NarrowGlyphs(m: Mapping, glyphs: seq<string>)
    requires forall i :: 0 <= i < |m| ==> m[i].glyph in glyphs
    requires forall g :: g in glyphs ==> |g| <= 1
    ensures SingleColumn(m)
  {
  }

  /** With single-column glyphs, a plane `w` samples wide renders lines `w` characters long. */
  lemma FullWidth(q: Plane, m: Mapping, w: nat)
    requires Sorted(m) && |m| > 0 && SingleColumn(m) && IsGrid(q, w, |q|)
    ensures forall y :: 0 <= y < |q| ==> |RenderImage(q, m)[y]| == w
  {
  }

  /** The text is the resized plane rendered through the levels built on its range. */
  lemma ConvertUnfold(p: Plane, glyphs: seq<string>, opts: Options)
    requires Accepts(p, glyphs, opts)
    ensures var q := Resized(p, opts);
      ConvertImage(p, glyphs, opts) == RenderImage(q, Levels(glyphs, BrightnessRange(q), |glyphs|))
  {
  }

  /** Looking a sample up in a single-column mapping built from single-character glyphs. */
  lemma LevelCell(glyphs: seq<string>, b: Range, v: int)
    requires 0 < |glyphs| && ValidRange(b)
    requires forall g :: g in glyphs ==> |g| <= 1
    ensures SingleColumn(Levels(glyphs, b, |glyphs|))
    ensures Cell(Lookup(Levels(glyphs, b, |glyphs|), v)) == Cell(glyphs[CeilLevel(b, |glyphs|, v)])
  {
    LevelGlyphs(glyphs, b);
    NarrowGlyphs(Levels(glyphs, b, |glyphs|), glyphs);
    LookupFindsLevel(glyphs, b, v);
  }

  /**
   With single-character glyphs, character (x, y) of the text is the glyph of
   the band resized sample (x, y) falls in, bands cut from the resized
   plane's own brightness range.
   */
  lemma ConvertCell(p: Plane, glyphs: seq<string>, opts: Options, y: nat, x: nat)
    requires Accepts(p, glyphs, opts)
    requires forall g :: g in glyphs ==> |g| <= 1
    requires y < Height(Resized(p, opts)) && x < opts.width
    ensures ConvertImage(p, glyphs, opts)[y][x] ==
      var q := Resized(p, opts);
      Cell(glyphs[CeilLevel(BrightnessRange(q), |glyphs|, q[y][x])])[0]
  {
    var q := Resized(p, opts);
    var b := BrightnessRange(q);
    ConvertUnfold(p, glyphs, opts);
    LevelCell(glyphs, b, q[y][x]);
  }

  /** A flat range puts its one brightness in the last band. */
  lemma FlatCeil(b: Range, n: nat)
    requires 0 < n && b.lo == b.hi
    ensures CeilLevel(b, n, b.lo) == n - 1
  {
    var c := CeilLevel(b, n, b.lo);
    if c < n - 1 {
      FlatKey(b, n, c);
    }
  }

  /** A plane of one brightness has that brightness as both minimum and maximum. */
  lemma UniformRange(q: Plane, c: int)
    requires WellFormed(q) && Within(q, c, c)
    ensures BrightnessRange(q) == Range(c, c)
  {
    var b := BrightnessRange(q);
    var y1, x1 :| 0 <= y1 < |q| && 0 <= x1 < |q[y1]| && q[y1][x1] == b.lo;
    var y2, x2 :| 0 <= y2 < |q| && 0 <= x2 < |q[y2]| && q[y2][x2] == b.hi;
  }

  /** Every line of a plane of one brightness repeats that brightness's cell. */
  lemma UniformLines(q: Plane, m: Mapping, v: int)
    requires Sorted(m) && |m| > 0 && Within(q, v, v)
    ensures forall y :: 0 <= y < |q| ==> RenderImage(q, m)[y] == Repeat(Cell(Lookup(m, v)), |q[y]|)
  {
    forall y | 0 <= y < |q|
      ensures RenderRow(q[y], m) == Repeat(Cell(Lookup(m, v)), |q[y]|)
    {
      RenderUniformRow(q[y], m, v);
    }
  }

  /** Rendering a plane of one brightness through the levels built on its own range. */
  lemma UniformRender(q: Plane, glyphs: seq<string>, v: int)
    requires 0 < |glyphs| && WellFormed(q) && Within(q, v, v)
    ensures forall y :: 0 <= y < |q| ==>
      RenderImage(q, Levels(glyphs, BrightnessRange(q), |glyphs|))[y] == Repeat(Cell(glyphs[|glyphs| - 1]), |q[y]|)
  {
    var b := BrightnessRange(q);
    assert b == Range(v, v) by {
      UniformRange(q, v);
    }
    var m := Levels(glyphs, b, |glyphs|);
    assert Lookup(m, v) == glyphs[|glyphs| - 1] by {
      FlatCeil(b, |glyphs|);
      LookupFindsLevel(glyphs, b, v);
    }
    UniformLines(q, m, v);
  }

  /**
   A plane of one brightness, inverted or not, renders every line as the
   last glyph (or a space, if it is empty) repeated `width` times: the
   first glyph's band ends below the brightness.
   */
  lemma UniformPlane(p: Plane, glyphs: seq<string>, opts: Options, c: int)
    requires Accepts(p, glyphs, opts) && Within(p, c, c)
    ensures forall y :: 0 <= y < |ConvertImage(p, glyphs, opts)| ==>
      ConvertImage(p, glyphs, opts)[y] == Repeat(Cell(glyphs[|glyphs| - 1]), opts.width)
  {
    var v := if opts.invert then 255 - c else c;
    assert Within(Source(p, opts), v, v);
    var q := Resized(p, opts);
    assert Within(q, v, v);
    ConvertUnfold(p, glyphs, opts);
    UniformRender(q, glyphs, v);
  }

  /**
   A 2 by 2 plane of brightness 128 with glyphs "#" then ".", at width 2 and
   aspect 1: both lines come out as "..", the last glyph.
   */
  lemma GraySquare()
    ensures ConvertImage([[128, 128], [128, 128]], ["#", "."], Options(2, Ratio(1, 1), false)) == ["..", ".."]
  {
    var p := [[128, 128], [128, 128]];
    var opts := Options(2, Ratio(1, 1), false);
    assert OutputHeight(2, 2, 2, Ratio(1, 1)) == 2;
    assert Accepts(p, ["#", "."], opts);
    UniformPlane(p, ["#", "."], opts, 128);
    assert Repeat(".", 2) == "..";
  }
}
