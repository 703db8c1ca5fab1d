/**
 The renderer (`renderImage`): one line of text per plane row, top to
 bottom, each the concatenation of its samples' glyphs, left to right.
 */
module Render {
  import opened Planes
  import opened GlyphMap

  /** The text drawn for a glyph: an empty glyph becomes a single space. */
  function Cell(g: string): (s: string)
    ensures |s| > 0
    ensures g != "" ==> s == g
    ensures g == "" ==> s == " "
  {
    if g == "" then " " else g
  }

  /** Every glyph is at most one character, so every sample takes one column. */
  predicate SingleColumn(m: Mapping)
  {
    forall i :: 0 <= i < |m| ==> |m[i].glyph| <= 1
  }

  /** `s` repeated `k` times. */
  function Repeat(s: string, k: nat): (r: string)
    ensures |r| == |s| * k
  {
    if k == 0 then "" else Repeat(s, k - 1) + s
  }

  /** The concatenation of `parts`, first to last. */
  function Flatten(parts: seq<string>): string
  {
    if |parts| == 0 then "" else parts[0] + Flatten(parts[1..])
  }

  lemma {:induction false} FlattenSnoc(parts: seq<string>, s: string)
    ensures Flatten(parts + [s]) == Flatten(parts) + s
  {
    if |parts| == 0 {
      assert [s][1..] == [];
    } else {
      assert (parts + [s])[1..] == parts[1..] + [s];
      FlattenSnoc(parts[1..], s);
    }
  }

  /** The cell of each sample of `row`, left to right. */
  function Cells(row: Row, m: Mapping): (cells: seq<string>)
    requires Sorted(m) && |m| > 0
  {
    seq(|row|, x requires 0 <= x < |row| => Cell(Lookup(m, row[x])))
  }

  lemma CellsSnoc(row: Row, m: Mapping)
    requires Sorted(m) && |m| > 0 && |row| > 0
    ensures Cells(row, m) == Cells(row[..|row| - 1], m) + [Cell(Lookup(m, row[|row| - 1]))]
  {
  }

  /** Under single-column glyphs every cell is one character. */
  lemma SingleCell(m: Mapping, v: int)
    requires Sorted(m) && |m| > 0 && SingleColumn(m)
    ensures |Cell(Lookup(m, v))| == 1
  {
    var i :| 0 <= i < |m| && Lookup(m, v) == m[i].glyph;
  }

  /**
   One output line: the row's cells left to right, each at least one
   character, so the line is never shorter than the row.
   */
  function RenderRow(row: Row, m: Mapping): (line: string)
    requires Sorted(m) && |m| > 0
    ensures |line| >= |row|
  {
    if |row| == 0 then ""
    else RenderRow(row[..|row| - 1], m) + Cell(Lookup(m, row[|row| - 1]))
  }

  /** The line is the concatenation of the cells of the row's samples, with nothing between them. */
  lemma {:induction false} RenderRowCells(row: Row, m: Mapping)
    requires Sorted(m) && |m| > 0
    ensures RenderRow(row, m) == Flatten(Cells(row, m))
  {
    if |row| > 0 {
      RenderRowCells(row[..|row| - 1], m);
      CellsSnoc(row, m);
      FlattenSnoc(Cells(row[..|row| - 1], m), Cell(Lookup(m, row[|row| - 1])));
    }
  }

  /** With single-column glyphs, column x of a line is the glyph looked up for sample x. */
  lemma {:induction false} SingleColumnRow(row: Row, m: Mapping)
    requires Sorted(m) && |m| > 0 && SingleColumn(m)
    ensures |RenderRow(row, m)| == |row|
    ensures forall x :: 0 <= x < |row| ==> RenderRow(row, m)[x] == Cell(Lookup(m, row[x]))[0]
  {
    if |row| > 0 {
      var init := row[..|row| - 1];
      SingleColumnRow(init, m);
      SingleCell(m, row[|row| - 1]);
      forall x | 0 <= x < |row| - 1
        ensures RenderRow(row, m)[x] == Cell(Lookup(m, row[x]))[0]
      {
        assert row[x] == init[x];
      }
    }
  }

  /** A row of one repeated brightness renders as that brightness's cell, once per column. */
  lemma {:induction false} RenderUniformRow(row: Row, m: Mapping, v: int)
    requires Sorted(m) && |m| > 0
    requires forall x :: 0 <= x < |row| ==> row[x] == v
    ensures RenderRow(row, m) == Repeat(Cell(Lookup(m, v)), |row|)
  {
    if |row| > 0 {
      RenderUniformRow(row[..|row| - 1], m, v);
    }
  }

  /**
   `renderImage`: as many lines as rows, line y rendering row y; with
   single-column glyphs the text is a grid the size of the plane whose
   character at (x, y) is the glyph looked up for sample (x, y).
   */
  function RenderImage(p: Plane, m: Mapping): (lines: seq<string>)
    requires Sorted(m) && |m| > 0
    ensures |lines| == |p|
    ensures forall y :: 0 <= y < |p| ==> |lines[y]| >= |p[y]|
    ensures SingleColumn(m) ==> forall y :: 0 <= y < |p| ==> |lines[y]| == |p[y]|
    ensures SingleColumn(m) ==> forall y, x :: 0 <= y < |p| && 0 <= x < |p[y]| ==>
      lines[y][x] == Cell(Lookup(m, p[y][x]))[0]
    ensures forall y :: 0 <= y < |p| ==> lines[y] == Flatten(Cells(p[y], m))
  {
    var lines := seq(|p|, y requires 0 <= y < |p| => RenderRow(p[y], m));
    assert forall y :: 0 <= y < |p| ==> lines[y] == Flatten(Cells(p[y], m)) by {
      forall y | 0 <= y < |p|
        ensures lines[y] == Flatten(Cells(p[y], m))
      {
        RenderRowCells(p[y], m);
      }
    }
    assert SingleColumn(m) ==> forall y :: 0 <= y < |p| ==>
      |lines[y]| == |p[y]| && forall x :: 0 <= x < |p[y]| ==> lines[y][x] == Cell(Lookup(m, p[y][x]))[0]
    by {
      if SingleColumn(m) {
        forall y | 0 <= y < |p|
          ensures |lines[y]| == |p[y]| && forall x :: 0 <= x < |p[y]| ==> lines[y][x] == Cell(Lookup(m, p[y][x]))[0]
        {
          SingleColumnRow(p[y], m);
        }
      }
    }
    lines
  }
}
