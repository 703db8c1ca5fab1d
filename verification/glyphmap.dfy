/**
 The brightness-to-glyph mapping, a `std::map<int, string>`, held as its
 entries in ascending key order. `Insert` is `map::insert`, which leaves the
 map alone when the key is already present; `LowerBound` and `Lookup` are the
 ceiling query `renderImage` makes.
 */
module GlyphMap {

  datatype Entry = Entry(key: int, glyph: string)

  type Mapping = seq<Entry>

  /** Keys strictly ascending, as a `std::map` iterates them. */
  predicate Sorted(m: Mapping)
  {
    forall i, j :: 0 <= i < j < |m| ==> m[i].key < m[j].key
  }

  /** The key-to-glyph map the entry list stands for. */
  function AsMap(m: Mapping): map<int, string>
  {
    if |m| == 0 then map[] else AsMap(m[1..])[m[0].key := m[0].glyph]
  }

  /** Every key of `m` is above `k`. */
  predicate Above(m: Mapping, k: int)
  {
    forall i :: 0 <= i < |m| ==> k < m[i].key
  }

  lemma {:induction false} AsMapAbove(m: Mapping, k: int)
    requires Above(m, k)
    ensures k !in AsMap(m)
  {
    if |m| > 0 {
      AsMapAbove(m[1..], k);
    }
  }

  /** `map::insert({k, g})` on the entry list: the key goes in its ordered place unless it is already there. */
  function Insert(m: Mapping, k: int, g: string): (r: Mapping)
    requires Sorted(m)
    ensures Sorted(r)
    ensures |r| > 0 && (r[0].key == k || (|m| > 0 && r[0] == m[0]))
  {
    if |m| == 0 then
      [Entry(k, g)]
    else if k < m[0].key then
      var r := [Entry(k, g)] + m;
      assert r[1..] == m;
      r
    else if k == m[0].key then
      m
    else
      var rest := Insert(m[1..], k, g);
      var r := [m[0]] + rest;
      assert m[0].key < rest[0].key;
      assert r[1..] == rest;
      r
  }

  lemma ConsSnoc(m: Mapping, e: Entry)
    requires |m| > 0
    ensures [m[0]] + m[1..] == m
    ensures [m[0]] + (m[1..] + [e]) == m + [e]
  {
  }

  /** A key below every key goes in front and is new to the map. */
  lemma InsertFront(m: Mapping, k: int, g: string)
    requires Sorted(m) && |m| > 0 && k < m[0].key
    ensures k !in AsMap(m)
    ensures Insert(m, k, g) == [Entry(k, g)] + m
    ensures AsMap(Insert(m, k, g)) == AsMap(m)[k := g]
  {
    assert Above(m, k);
    AsMapAbove(m, k);
    assert ([Entry(k, g)] + m)[1..] == m;
  }

  /** A key above the first is inserted into the tail, and the first entry stays in front. */
  lemma InsertBehind(m: Mapping, k: int, g: string)
    requires Sorted(m) && |m| > 0 && m[0].key < k
    ensures Sorted(m[1..])
    ensures Insert(m, k, g) == [m[0]] + Insert(m[1..], k, g)
    ensures AsMap(Insert(m, k, g)) == AsMap(Insert(m[1..], k, g))[m[0].key := m[0].glyph]
    ensures (k in AsMap(m)) == (k in AsMap(m[1..]))
  {
    assert ([m[0]] + Insert(m[1..], k, g))[1..] == Insert(m[1..], k, g);
  }

  /** Inserting a key already present changes nothing: the first glyph under a key is kept. */
  lemma {:induction false} InsertKeeps(m: Mapping, k: int, g: string)
    requires Sorted(m) && k in AsMap(m)
    ensures Insert(m, k, g) == m
  {
    if k < m[0].key {
      InsertFront(m, k, g);
    } else if k > m[0].key {
      InsertBehind(m, k, g);
      InsertKeeps(m[1..], k, g);
      ConsSnoc(m, Entry(k, g));
    }
  }

  lemma UpdateSwap(f: map<int, string>, a: int, x: string, b: int, y: string)
    requires a != b
    ensures f[a := x][b := y] == f[b := y][a := x]
  {
  }

  /** Inserting a new key adds exactly one entry, holding `g` under `k`. */
  lemma {:induction false} InsertAdds(m: Mapping, k: int, g: string)
    requires Sorted(m) && k !in AsMap(m)
    ensures AsMap(Insert(m, k, g)) == AsMap(m)[k := g]
    ensures |Insert(m, k, g)| == |m| + 1
  {
    if |m| > 0 {
      if k < m[0].key {
        InsertFront(m, k, g);
      } else {
        InsertBehind(m, k, g);
        InsertAdds(m[1..], k, g);
        UpdateSwap(AsMap(m[1..]), k, g, m[0].key, m[0].glyph);
      }
    }
  }

  /**
   What `Insert` does to the map: when `k` is already a key nothing changes,
   so the first glyph inserted under a key is the one kept; otherwise `k`
   gains glyph `g` and the map grows by one entry.
   */
  lemma InsertMeaning(m: Mapping, k: int, g: string)
    requires Sorted(m)
    ensures AsMap(Insert(m, k, g)) == if k in AsMap(m) then AsMap(m) else AsMap(m)[k := g]
    ensures k in AsMap(m) ==> Insert(m, k, g) == m
    ensures k !in AsMap(m) ==> |Insert(m, k, g)| == |m| + 1
  {
    if k in AsMap(m) {
      InsertKeeps(m, k, g);
    } else {
      InsertAdds(m, k, g);
    }
  }

  /** Inserting a key at or above the last one appends it, or changes nothing when it equals the last. */
  lemma {:induction false} InsertAtEnd(m: Mapping, k: int, g: string)
    requires Sorted(m) && |m| > 0 && m[|m| - 1].key <= k
    ensures Insert(m, k, g) == if k == m[|m| - 1].key then m else m + [Entry(k, g)]
  {
    if |m| == 1 {
      assert m[1..] == [];
    } else {
      var tail := m[1..];
      assert tail[|tail| - 1] == m[|m| - 1];
      InsertAtEnd(tail, k, g);
      InsertBehind(m, k, g);
      ConsSnoc(m, Entry(k, g));
    }
  }

  /**
   `mapping.lower_bound(v)`: the position of the first entry whose key is at
   least `v`, or `|m|` (`end()`) when there is none.
   */
  function LowerBound(m: Mapping, v: int): (i: nat)
    ensures i <= |m|
    ensures forall j :: 0 <= j < i ==> m[j].key < v
    ensures i < |m| ==> v <= m[i].key
  {
    if |m| == 0 || v <= m[0].key then 0 else 1 + LowerBound(m[1..], v)
  }

  /** The lower bound is the only position with its two defining properties. */
  lemma LowerBoundUnique(m: Mapping, v: int, i: nat)
    requires i <= |m|
    requires forall j :: 0 <= j < i ==> m[j].key < v
    requires i < |m| ==> v <= m[i].key
    ensures LowerBound(m, v) == i
  {
  }

  /** Entry `i` holds the least key at least `v` (given ascending keys). */
  predicate IsCeiling(m: Mapping, v: int, i: int)
  {
    0 <= i < |m| && v <= m[i].key && (i == 0 || m[i - 1].key < v)
  }

  /**
   The glyph `renderImage` takes for brightness `v`: that of the least key at
   least `v`, or, when `v` is above every key, that of the greatest key.
   */
  function Lookup(m: Mapping, v: int): (g: string)
    requires Sorted(m) && |m| > 0
    ensures v <= m[|m| - 1].key ==>
      exists i :: IsCeiling(m, v, i) && g == m[i].glyph
    ensures (forall j :: 0 <= j < |m| ==> m[j].key < v) ==> g == m[|m| - 1].glyph
    ensures exists i :: 0 <= i < |m| && g == m[i].glyph
  {
    var i := LowerBound(m, v);
    if i < |m| then
      assert IsCeiling(m, v, i);
      m[i].glyph
    else
      m[|m| - 1].glyph
  }
}
