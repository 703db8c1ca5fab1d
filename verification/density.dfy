/**
 The density mapper (`mapCharacterDensity` with contrast scaling on). It
 scans the plane for its least and greatest sample, cuts [min, max] into one
 band per glyph, and inserts each band's upper bound with its glyph into an
 ordered map, level 0 first. The `double` interval size is read as the exact
 rational `(max - min + 1) / n`.
 */
module Density {
  import opened Floors
  import opened Planes
  import opened GlyphMap

  /** `minBrightness` and `maxBrightness`. */
  datatype Range = Range(lo: int, hi: int)

  /** One step of the scan: raise the maximum, lower the minimum. */
  function Observe(acc: Range, v: int): (r: Range)
    ensures r.lo <= acc.lo && r.lo <= v && (r.lo == acc.lo || r.lo == v)
    ensures acc.hi <= r.hi && v <= r.hi && (r.hi == acc.hi || r.hi == v)
  {
    Range(if v < acc.lo then v else acc.lo, if v > acc.hi then v else acc.hi)
  }

  /** The scan over one row, left to right. */
  function ScanRow(row: Row, acc: Range): (r: Range)
    ensures r.lo <= acc.lo && acc.hi <= r.hi
    ensures r.lo == acc.lo || r.lo in row
    ensures r.hi == acc.hi || r.hi in row
    ensures forall x :: 0 <= x < |row| ==> r.lo <= row[x] <= r.hi
  {
    if |row| == 0 then acc else ScanRow(row[1..], Observe(acc, row[0]))
  }

  lemma OccursInRow(p: Plane, y: nat, v: int)
    requires y < |p| && v in p[y]
    ensures Occurs(p, v)
  {
    var x :| 0 <= x < |p[y]| && p[y][x] == v;
  }

  lemma OccursInRest(p: Plane, v: int)
    requires |p| > 0 && Occurs(p[1..], v)
    ensures Occurs(p, v)
  {
    var y, x :| 0 <= y < |p[1..]| && 0 <= x < |p[1..][y]| && p[1..][y][x] == v;
    assert p[y + 1][x] == v;
  }

  /** The scan over the plane, top row first (`cimg_forXY`). */
  function ScanPlane(p: Plane, acc: Range): (r: Range)
    ensures r.lo <= acc.lo && acc.hi <= r.hi
    ensures r.lo == acc.lo || Occurs(p, r.lo)
    ensures r.hi == acc.hi || Occurs(p, r.hi)
    ensures Within(p, r.lo, r.hi)
  {
    if |p| == 0 then acc
    else
      var mid := ScanRow(p[0], acc);
      var r := ScanPlane(p[1..], mid);
      assert r.lo == acc.lo || Occurs(p, r.lo) by {
        if r.lo != acc.lo {
          if r.lo == mid.lo {
            OccursInRow(p, 0, r.lo);
          } else {
            OccursInRest(p, r.lo);
          }
        }
      }
      assert r.hi == acc.hi || Occurs(p, r.hi) by {
        if r.hi != acc.hi {
          if r.hi == mid.hi {
            OccursInRow(p, 0, r.hi);
          } else {
            OccursInRest(p, r.hi);
          }
        }
      }
      assert Within(p, r.lo, r.hi) by {
        forall y, x | 0 <= y < |p| && 0 <= x < |p[y]|
          ensures r.lo <= p[y][x] <= r.hi
        {
          if y > 0 {
            assert p[y] == p[1..][y - 1];
          }
        }
      }
      r
  }

  /** Rows without samples leave the running range as it was. */
  lemma {:induction false} ScanEmptyRows(p: Plane, acc: Range)
    requires forall y :: 0 <= y < |p| ==> |p[y]| == 0
    ensures ScanPlane(p, acc) == acc
  {
    if |p| > 0 {
      assert ScanRow(p[0], acc) == acc;
      assert forall y :: 0 <= y < |p[1..]| ==> |p[1..][y]| == 0 by {
        forall y | 0 <= y < |p[1..]|
          ensures |p[1..][y]| == 0
        {
          assert p[1..][y] == p[y + 1];
        }
      }
      ScanEmptyRows(p[1..], acc);
    }
  }

  /**
   The brightness range: the scan starting from minimum 255 and maximum 0. On
   a plane with at least one 8-bit sample these are its true least and
   greatest samples; with no sample at all the start values come back.
   */
  function BrightnessRange(p: Plane): (r: Range)
    ensures |p| > 0 && |p[0]| > 0 && Within(p, 0, 255) ==>
      Occurs(p, r.lo) && Occurs(p, r.hi) && Within(p, r.lo, r.hi) && 0 <= r.lo <= r.hi <= 255
    ensures (forall y :: 0 <= y < |p| ==> |p[y]| == 0) ==> r == Range(255, 0)
  {
    var r := ScanPlane(p, Range(255, 0));
    assert (forall y :: 0 <= y < |p| ==> |p[y]| == 0) ==> r == Range(255, 0) by {
      if forall y :: 0 <= y < |p| ==> |p[y]| == 0 {
        ScanEmptyRows(p, Range(255, 0));
      }
    }
    if |p| > 0 && |p[0]| > 0 && Within(p, 0, 255) then
      assert r.lo <= p[0][0] <= r.hi;
      assert Occurs(p, r.lo) by {
        if r.lo == 255 {
          assert p[0][0] == r.lo;
        }
      }
      assert Occurs(p, r.hi) by {
        if r.hi == 0 {
          assert p[0][0] == r.hi;
        }
      }
      r
    else
      r
  }

  /** A range some plane can have: the mapper's input. */
  predicate ValidRange(b: Range)
  {
    b.lo <= b.hi
  }

  /** `int(min + intervalSize * (level + 1)) - 1`, before the clamp of the last level. */
  function RawKey(b: Range, n: nat, level: nat): int
    requires n > 0 && ValidRange(b)
  {
    b.lo + (b.hi - b.lo + 1) * (level + 1) / n - 1
  }

  /** The upper bound stored for `level`: the last level's is clamped to the maximum. */
  function LevelKey(b: Range, n: nat, level: nat): int
    requires n > 0 && ValidRange(b) && level < n
  {
    if level == n - 1 then b.hi else RawKey(b, n, level)
  }

  /**
   The level key as a floor: one below the band's upper edge
   `min + (max - min + 1) * (level + 1) / n`, rounded down; the last level's
   key is the maximum itself.
   */
  lemma LevelKeyFloor(b: Range, n: nat, level: nat)
    requires n > 0 && ValidRange(b) && level < n
    ensures level == n - 1 ==> LevelKey(b, n, level) == b.hi
    ensures level < n - 1 ==>
      var key := LevelKey(b, n, level);
      (key - b.lo + 1) * n <= (b.hi - b.lo + 1) * (level + 1) < (key - b.lo + 2) * n
  {
    if level < n - 1 {
      var a := (b.hi - b.lo + 1) * (level + 1);
      var q := a / n;
      assert a == n * q + a % n;
      assert LevelKey(b, n, level) - b.lo + 1 == q;
    }
  }

  lemma RawKeyMonotone(b: Range, n: nat, i: nat, j: nat)
    requires n > 0 && ValidRange(b) && i <= j
    ensures RawKey(b, n, i) <= RawKey(b, n, j)
  {
    MulMonotone(i + 1, j + 1, b.hi - b.lo + 1);
    assert (b.hi - b.lo + 1) * (i + 1) == (i + 1) * (b.hi - b.lo + 1);
    assert (b.hi - b.lo + 1) * (j + 1) == (j + 1) * (b.hi - b.lo + 1);
    DivMonotone((b.hi - b.lo + 1) * (i + 1), (b.hi - b.lo + 1) * (j + 1), n);
  }

  /**
   Every level but the last has its upper bound below the maximum, so the
   clamped last key, the maximum itself, is the greatest key and never
   collides with an earlier one.
   */
  lemma NonFinalBelowMax(b: Range, n: nat, level: nat)
    requires n > 0 && ValidRange(b) && level < n - 1
    ensures LevelKey(b, n, level) <= b.hi - 1
    ensures LevelKey(b, n, n - 1) == b.hi
  {
    var range := b.hi - b.lo + 1;
    MulMonotone(level + 1, n - 1, range);
    assert range * (level + 1) < range * n by {
      assert range * (level + 1) == (level + 1) * range;
      assert range * n == (n - 1) * range + range;
    }
    DivBelow(range * (level + 1), range, n);
  }

  /** Upper bounds never decrease from one level to the next. */
  lemma KeysMonotone(b: Range, n: nat, i: nat, j: nat)
    requires n > 0 && ValidRange(b) && i <= j < n
    ensures LevelKey(b, n, i) <= LevelKey(b, n, j)
  {
    if j == n - 1 {
      if i < n - 1 {
        NonFinalBelowMax(b, n, i);
      }
    } else {
      RawKeyMonotone(b, n, i, j);
    }
  }

  /** When the range holds at least one value per glyph, upper bounds strictly increase. */
  lemma KeysStrict(b: Range, n: nat, i: nat, j: nat)
    requires n > 0 && ValidRange(b) && b.hi - b.lo + 1 >= n && i < j < n
    ensures LevelKey(b, n, i) < LevelKey(b, n, j)
  {
    var range := b.hi - b.lo + 1;
    if j == n - 1 {
      NonFinalBelowMax(b, n, i);
    } else {
      assert range * (i + 2) == range * (i + 1) + range;
      DivStep(range * (i + 1), range, n);
      RawKeyMonotone(b, n, i + 1, j);
    }
  }

  /**
   The first level, from `from` on, whose upper bound is at least `v`; the
   last level when there is none.
   */
  function CeilFrom(b: Range, n: nat, v: int, from: nat): (c: nat)
    requires n > 0 && ValidRange(b) && from < n
    ensures from <= c < n
    ensures c == n - 1 || v <= LevelKey(b, n, c)
    ensures forall j :: from <= j < c ==> LevelKey(b, n, j) < v
    decreases n - from
  {
    if from == n - 1 || v <= LevelKey(b, n, from) then from else CeilFrom(b, n, v, from + 1)
  }

  /** The band brightness `v` falls in: the lowest level whose upper bound is at least `v`. */
  function CeilLevel(b: Range, n: nat, v: int): (c: nat)
    requires n > 0 && ValidRange(b)
    ensures c < n
    ensures c == n - 1 || v <= LevelKey(b, n, c)
    ensures v <= b.hi ==> v <= LevelKey(b, n, c)
    ensures forall j :: 0 <= j < c ==> LevelKey(b, n, j) < v
  {
    CeilFrom(b, n, v, 0)
  }

  /**
   The bands partition everything up to the maximum: level `l` takes exactly
   the values above the previous level's upper bound and up to its own.
   */
  lemma CeilLevelBand(b: Range, n: nat, v: int, l: nat)
    requires n > 0 && ValidRange(b) && l < n && v <= b.hi
    ensures CeilLevel(b, n, v) == l <==>
      (l == 0 || LevelKey(b, n, l - 1) < v) && v <= LevelKey(b, n, l)
  {
    var c := CeilLevel(b, n, v);
    if c < l {
      KeysMonotone(b, n, c, l - 1);
    } else if l < c {
      assert LevelKey(b, n, l) < v;
    }
  }

  /** The mapping after inserting levels 0 to k - 1, in order. */
  function Levels(glyphs: seq<string>, b: Range, k: nat): (m: Mapping)
    requires 0 < |glyphs| && k <= |glyphs| && ValidRange(b)
    ensures Sorted(m)
  {
    if k == 0 then []
    else Insert(Levels(glyphs, b, k - 1), LevelKey(b, |glyphs|, k - 1), glyphs[k - 1])
  }

  /** Each insertion adds at most one entry, and the first always adds one. */
  lemma {:induction false} LevelsSize(glyphs: seq<string>, b: Range, k: nat)
    requires 0 < |glyphs| && k <= |glyphs| && ValidRange(b)
    ensures |Levels(glyphs, b, k)| <= k
    ensures k > 0 ==> |Levels(glyphs, b, k)| > 0
  {
    if k > 0 {
      LevelsSize(glyphs, b, k - 1);
      InsertMeaning(Levels(glyphs, b, k - 1), LevelKey(b, |glyphs|, k - 1), glyphs[k - 1]);
    }
  }

  /** The entry holding the lowest level among those whose key is at least `v`. */
  predicate HoldsCeiling(m: Mapping, glyphs: seq<string>, b: Range, v: int)
    requires 0 < |glyphs| && ValidRange(b)
  {
    var i := LowerBound(m, v);
    var c := CeilLevel(b, |glyphs|, v);
    i < |m| && m[i] == Entry(LevelKey(b, |glyphs|, c), glyphs[c])
  }

  /** Appending an entry keeps what a brightness at or below the old last key finds. */
  lemma AppendKeepsCeiling(prev: Mapping, e: Entry, glyphs: seq<string>, b: Range, v: int)
    requires 0 < |glyphs| && ValidRange(b)
    requires HoldsCeiling(prev, glyphs, b, v)
    ensures HoldsCeiling(prev + [e], glyphs, b, v)
  {
    var m := prev + [e];
    var i := LowerBound(prev, v);
    assert m[i] == prev[i];
    LowerBoundUnique(m, v, i);
  }

  /**
   A brightness above level k - 2's key and up to level k - 1's finds the
   entry appended for level k - 1.
   */
  lemma AppendNewCeiling(prev: Mapping, glyphs: seq<string>, b: Range, k: nat, v: int)
    requires 1 < k <= |glyphs| && ValidRange(b)
    requires Sorted(prev) && |prev| > 0 && prev[|prev| - 1].key == LevelKey(b, |glyphs|, k - 2)
    requires LevelKey(b, |glyphs|, k - 2) < v <= LevelKey(b, |glyphs|, k - 1)
    ensures HoldsCeiling(prev + [Entry(LevelKey(b, |glyphs|, k - 1), glyphs[k - 1])], glyphs, b, v)
  {
    var n := |glyphs|;
    var m := prev + [Entry(LevelKey(b, n, k - 1), glyphs[k - 1])];
    forall j | 0 <= j < |prev|
      ensures m[j].key < v
    {
      assert prev[j].key <= prev[|prev| - 1].key;
    }
    LowerBoundUnique(m, v, |prev|);
    KeysMonotone(b, n, k - 1, n - 1);
    var c := CeilLevel(b, n, v);
    if c < k - 1 {
      KeysMonotone(b, n, c, k - 2);
    }
    assert c == k - 1;
  }

  /** The first insertion into the empty map. */
  lemma LevelsFirst(glyphs: seq<string>, b: Range)
    requires 0 < |glyphs| && ValidRange(b)
    ensures Levels(glyphs, b, 1) == [Entry(LevelKey(b, |glyphs|, 0), glyphs[0])]
    ensures forall v :: v <= LevelKey(b, |glyphs|, 0) ==> HoldsCeiling(Levels(glyphs, b, 1), glyphs, b, v)
  {
    var n := |glyphs|;
    var m := [Entry(LevelKey(b, n, 0), glyphs[0])];
    assert Levels(glyphs, b, 0) == [];
    assert Levels(glyphs, b, 1) == Insert([], LevelKey(b, n, 0), glyphs[0]);
    forall v | v <= LevelKey(b, n, 0)
      ensures HoldsCeiling(m, glyphs, b, v)
    {
      assert CeilLevel(b, n, v) == 0;
      assert LowerBound(m, v) == 0;
    }
  }

  /** The mapping after levels 0 to k - 1 ends at level k - 1's key and answers every brightness up to it. */
  ghost predicate LevelsReady(m: Mapping, glyphs: seq<string>, b: Range, k: nat)
    requires 0 < k <= |glyphs| && ValidRange(b)
  {
    && Sorted(m)
    && |m| > 0
    && m[|m| - 1].key == LevelKey(b, |glyphs|, k - 1)
    && forall v :: v <= LevelKey(b, |glyphs|, k - 1) ==> HoldsCeiling(m, glyphs, b, v)
  }

  /** Level k - 1 has a new, greater key: its entry is appended. */
  lemma LevelsAppend(prev: Mapping, glyphs: seq<string>, b: Range, k: nat)
    requires 1 < k <= |glyphs| && ValidRange(b)
    requires LevelsReady(prev, glyphs, b, k - 1)
    requires LevelKey(b, |glyphs|, k - 2) < LevelKey(b, |glyphs|, k - 1)
    ensures LevelsReady(prev + [Entry(LevelKey(b, |glyphs|, k - 1), glyphs[k - 1])], glyphs, b, k)
  {
    var n := |glyphs|;
    var last, key := LevelKey(b, n, k - 2), LevelKey(b, n, k - 1);
    var m := prev + [Entry(key, glyphs[k - 1])];
    forall v | v <= key
      ensures HoldsCeiling(m, glyphs, b, v)
    {
      if v <= last {
        AppendKeepsCeiling(prev, Entry(key, glyphs[k - 1]), glyphs, b, v);
      } else {
        AppendNewCeiling(prev, glyphs, b, k, v);
      }
    }
  }

  /** Inserting level k - 1 keeps the mapping ready. */
  lemma LevelsStep(prev: Mapping, glyphs: seq<string>, b: Range, k: nat)
    requires 1 < k <= |glyphs| && ValidRange(b)
    requires LevelsReady(prev, glyphs, b, k - 1)
    ensures LevelsReady(Insert(prev, LevelKey(b, |glyphs|, k - 1), glyphs[k - 1]), glyphs, b, k)
  {
    var n := |glyphs|;
    var last, key := LevelKey(b, n, k - 2), LevelKey(b, n, k - 1);
    KeysMonotone(b, n, k - 2, k - 1);
    InsertAtEnd(prev, key, glyphs[k - 1]);
    if key != last {
      LevelsAppend(prev, glyphs, b, k);
    }
  }

  /**
   After levels 0 to k - 1 the mapping ends at level k - 1's key, and any
   brightness up to that key finds the entry of the first level whose key
   reaches it: a later level with the same key never displaced it.
   */
  lemma {:induction false} LevelsInvariant(glyphs: seq<string>, b: Range, k: nat)
    requires 0 < k <= |glyphs| && ValidRange(b)
    ensures LevelsReady(Levels(glyphs, b, k), glyphs, b, k)
  {
    if k == 1 {
      LevelsFirst(glyphs, b);
    } else {
      LevelsInvariant(glyphs, b, k - 1);
      LevelsStep(Levels(glyphs, b, k - 1), glyphs, b, k);
    }
  }

  lemma ReadyLookup(m: Mapping, glyphs: seq<string>, b: Range, v: int)
    requires 0 < |glyphs| && ValidRange(b) && LevelsReady(m, glyphs, b, |glyphs|)
    ensures Lookup(m, v) == glyphs[CeilLevel(b, |glyphs|, v)]
  {
    var n := |glyphs|;
    if v <= b.hi {
      assert HoldsCeiling(m, glyphs, b, v);
    } else {
      assert HoldsCeiling(m, glyphs, b, b.hi);
      LowerBoundUnique(m, b.hi, |m| - 1);
      var c := CeilLevel(b, n, b.hi);
      if c < n - 1 {
        NonFinalBelowMax(b, n, c);
      }
      assert CeilLevel(b, n, v) == n - 1;
    }
  }

  /**
   Every brightness finds the glyph of its band: the lowest level whose upper
   bound reaches it. A brightness above the maximum falls back to the entry
   with the greatest key, which is the last level's.
   */
  lemma LookupFindsLevel(glyphs: seq<string>, b: Range, v: int)
    requires 0 < |glyphs| && ValidRange(b)
    ensures Lookup(Levels(glyphs, b, |glyphs|), v) == glyphs[CeilLevel(b, |glyphs|, v)]
  {
    LevelsInvariant(glyphs, b, |glyphs|);
    ReadyLookup(Levels(glyphs, b, |glyphs|), glyphs, b, v);
  }

  /**
   A brightness above level l - 1's upper bound and up to level l's renders
   as glyph l; together with `CeilLevelBand` the bands cover everything up to
   the maximum with no gap.
   */
  lemma LookupBand(glyphs: seq<string>, b: Range, l: nat, v: int)
    requires 0 < |glyphs| && ValidRange(b) && l < |glyphs|
    requires l == 0 || LevelKey(b, |glyphs|, l - 1) < v
    requires v <= LevelKey(b, |glyphs|, l)
    ensures Lookup(Levels(glyphs, b, |glyphs|), v) == glyphs[l]
  {
    KeysMonotone(b, |glyphs|, l, |glyphs| - 1);
    CeilLevelBand(b, |glyphs|, v, l);
    LookupFindsLevel(glyphs, b, v);
  }

  /** Each entry of a ready mapping is a level's key with the lowest such level's glyph. */
  lemma ReadyEntry(m: Mapping, glyphs: seq<string>, b: Range, i: nat)
    requires 0 < |glyphs| && ValidRange(b) && LevelsReady(m, glyphs, b, |glyphs|) && i < |m|
    ensures m[i] == Entry(LevelKey(b, |glyphs|, CeilLevel(b, |glyphs|, m[i].key)), glyphs[CeilLevel(b, |glyphs|, m[i].key)])
  {
    assert m[i].key <= m[|m| - 1].key;
    LowerBoundUnique(m, m[i].key, i);
    assert HoldsCeiling(m, glyphs, b, m[i].key);
  }

  /** Every level's key is a key of a ready mapping. */
  lemma ReadyHasLevel(m: Mapping, glyphs: seq<string>, b: Range, l: nat)
    requires 0 < |glyphs| && ValidRange(b) && LevelsReady(m, glyphs, b, |glyphs|) && l < |glyphs|
    ensures exists i :: 0 <= i < |m| && m[i].key == LevelKey(b, |glyphs|, l)
  {
    var n := |glyphs|;
    var v := LevelKey(b, n, l);
    KeysMonotone(b, n, l, n - 1);
    assert HoldsCeiling(m, glyphs, b, v);
    var c := CeilLevel(b, n, v);
    KeysMonotone(b, n, c, l);
    assert m[LowerBound(m, v)].key == v;
  }

  /**
   The entries of the mapping: each holds a level's key with the glyph of the
   lowest level that has that key (`map::insert` kept the first), and every
   level's key is present.
   */
  lemma MappingEntries(glyphs: seq<string>, b: Range)
    requires 0 < |glyphs| && ValidRange(b)
    ensures forall i :: 0 <= i < |Levels(glyphs, b, |glyphs|)| ==>
      var e := Levels(glyphs, b, |glyphs|)[i];
      var c := CeilLevel(b, |glyphs|, e.key);
      e == Entry(LevelKey(b, |glyphs|, c), glyphs[c])
    ensures forall l :: 0 <= l < |glyphs| ==>
      exists i :: 0 <= i < |Levels(glyphs, b, |glyphs|)| && Levels(glyphs, b, |glyphs|)[i].key == LevelKey(b, |glyphs|, l)
  {
    var m := Levels(glyphs, b, |glyphs|);
    LevelsInvariant(glyphs, b, |glyphs|);
    forall i | 0 <= i < |m|
      ensures m[i] == Entry(LevelKey(b, |glyphs|, CeilLevel(b, |glyphs|, m[i].key)), glyphs[CeilLevel(b, |glyphs|, m[i].key)])
    {
      ReadyEntry(m, glyphs, b, i);
    }
    forall l | 0 <= l < |glyphs|
      ensures exists i :: 0 <= i < |m| && m[i].key == LevelKey(b, |glyphs|, l)
    {
      ReadyHasLevel(m, glyphs, b, l);
    }
  }

  /** The first k levels, each under its own key, in level order. */
  predicate OneEntryPerLevel(m: Mapping, glyphs: seq<string>, b: Range, k: nat)
    requires 0 < |glyphs| && ValidRange(b) && k <= |glyphs|
  {
    |m| == k && forall l :: 0 <= l < k ==> m[l] == Entry(LevelKey(b, |glyphs|, l), glyphs[l])
  }

  lemma DistinctStep(prev: Mapping, glyphs: seq<string>, b: Range, k: nat)
    requires 0 < |glyphs| && ValidRange(b) && b.hi - b.lo + 1 >= |glyphs| && 1 < k <= |glyphs|
    requires Sorted(prev) && OneEntryPerLevel(prev, glyphs, b, k - 1)
    ensures OneEntryPerLevel(Insert(prev, LevelKey(b, |glyphs|, k - 1), glyphs[k - 1]), glyphs, b, k)
  {
    var key := LevelKey(b, |glyphs|, k - 1);
    KeysStrict(b, |glyphs|, k - 2, k - 1);
    InsertAtEnd(prev, key, glyphs[k - 1]);
    var m := prev + [Entry(key, glyphs[k - 1])];
    forall l | 0 <= l < k
      ensures m[l] == Entry(LevelKey(b, |glyphs|, l), glyphs[l])
    {
      if l < k - 1 {
        assert m[l] == prev[l];
      }
    }
  }

  /**
   When the range holds at least one value per glyph no two levels share a
   key: the mapping has exactly one entry per glyph, in glyph order.
   */
  lemma {:induction false} LevelsDistinct(glyphs: seq<string>, b: Range, k: nat)
    requires 0 < |glyphs| && ValidRange(b) && b.hi - b.lo + 1 >= |glyphs| && k <= |glyphs|
    ensures |Levels(glyphs, b, k)| == k
    ensures forall l :: 0 <= l < k ==> Levels(glyphs, b, k)[l] == Entry(LevelKey(b, |glyphs|, l), glyphs[l])
  {
    if k == 1 {
      LevelsFirst(glyphs, b);
    } else if k > 1 {
      LevelsDistinct(glyphs, b, k - 1);
      DistinctStep(Levels(glyphs, b, k - 1), glyphs, b, k);
    }
  }

  /**
   A flat range (minimum equals maximum) with two or more glyphs: every level
   but the last gets key `min - 1`, the first of them is kept, and the last
   level takes `max`. The plane's one brightness therefore renders as the
   last glyph.
   */
  lemma FlatRange(glyphs: seq<string>, b: Range)
    requires 1 < |glyphs| && b.lo == b.hi
    ensures Levels(glyphs, b, |glyphs|) == [Entry(b.lo - 1, glyphs[0]), Entry(b.hi, glyphs[|glyphs| - 1])]
    ensures Lookup(Levels(glyphs, b, |glyphs|), b.lo) == glyphs[|glyphs| - 1]
  {
    var n := |glyphs|;
    FlatPrefix(glyphs, b, n - 1);
    InsertAtEnd(Levels(glyphs, b, n - 1), b.hi, glyphs[n - 1]);
    LookupFindsLevel(glyphs, b, b.lo);
    forall j | 0 <= j < n - 1
      ensures LevelKey(b, n, j) < b.lo
    {
      FlatKey(b, n, j);
    }
  }

  lemma FlatKey(b: Range, n: nat, l: nat)
    requires b.lo == b.hi && l < n - 1
    ensures LevelKey(b, n, l) == b.lo - 1
  {
    DivBelow(l + 1, 1, n);
  }

  lemma {:induction false} FlatPrefix(glyphs: seq<string>, b: Range, k: nat)
    requires 1 < |glyphs| && b.lo == b.hi && 0 < k < |glyphs|
    ensures Levels(glyphs, b, k) == [Entry(b.lo - 1, glyphs[0])]
  {
    FlatKey(b, |glyphs|, k - 1);
    if k == 1 {
      LevelsFirst(glyphs, b);
    } else {
      var prev := Levels(glyphs, b, k - 1);
      FlatPrefix(glyphs, b, k - 1);
      assert prev[|prev| - 1].key == b.lo - 1;
      InsertAtEnd(prev, b.lo - 1, glyphs[k - 1]);
      assert Levels(glyphs, b, k) == Insert(prev, b.lo - 1, glyphs[k - 1]);
    }
  }

  /** Every glyph in the mapping is one of the given glyphs. */
  lemma LevelGlyphs(glyphs: seq<string>, b: Range)
    requires 0 < |glyphs| && ValidRange(b)
    ensures forall i :: 0 <= i < |Levels(glyphs, b, |glyphs|)| ==> Levels(glyphs, b, |glyphs|)[i].glyph in glyphs
  {
    MappingEntries(glyphs, b);
  }

  /**
   `mapCharacterDensity` with contrast scaling on: the levels inserted in
   order over the plane's brightness range.
   */
  function MapCharacterDensity(glyphs: seq<string>, p: Plane): (m: Mapping)
    requires 0 < |glyphs| && WellFormed(p)
    ensures Sorted(m) && |m| > 0
    ensures m[|m| - 1].key == BrightnessRange(p).hi
    ensures forall i :: 0 <= i < |m| ==> m[i].glyph in glyphs
  {
    var b := BrightnessRange(p);
    LevelsInvariant(glyphs, b, |glyphs|);
    LevelGlyphs(glyphs, b);
    Levels(glyphs, b, |glyphs|)
  }
}
