/** What a sparse set means: a map from entities to cells, kept in a dense list that a
    sparse index points into. */
module SparseSpec {
  import opened Arith
  import opened Entities
  import opened Ticks
  import opened Geometry
  import opened TableSpec

  /** The entities in dense order, and for each slot index the dense position plus one, or
      zero. */
  datatype Dense = Dense(sparse: seq<nat>, entities: seq<Handle>)

  predicate PointsAt(d: Dense, r: nat)
    requires r < |d.entities|
  {
    d.entities[r] != NULL && Index(d.entities[r]) < |d.sparse| && d.sparse[Index(d.entities[r])] == r + 1
  }

  predicate Filled(d: Dense, i: nat)
    requires i < |d.sparse|
  {
    d.sparse[i] == 0 || (d.sparse[i] <= |d.entities| && Index(d.entities[d.sparse[i] - 1]) == i)
  }

  /** Sparse and dense sides point at each other. */
  ghost predicate Linked(d: Dense)
  {
    && (forall r :: 0 <= r < |d.entities| ==> PointsAt(d, r))
    && (forall i :: 0 <= i < |d.sparse| ==> Filled(d, i))
  }

  predicate Has(d: Dense, e: Handle)
    requires Linked(d)
  {
    e != NULL && Index(e) < |d.sparse| && d.sparse[Index(e)] != 0 &&
      (assert Filled(d, Index(e)); d.entities[d.sparse[Index(e)] - 1] == e)
  }

  /** Another generation of the entity's slot is in the set. */
  predicate Older(d: Dense, e: Handle)
    requires Linked(d)
  {
    Index(e) < |d.sparse| && d.sparse[Index(e)] != 0 && !Has(d, e)
  }

  function RowOf(d: Dense, e: Handle): (r: nat)
    requires Linked(d) && Has(d, e)
    ensures r < |d.entities| && d.entities[r] == e
  {
    assert Filled(d, Index(e));
    d.sparse[Index(e)] - 1
  }

  lemma HasIffIn(d: Dense, e: Handle)
    requires Linked(d)
    ensures Has(d, e) <==> e in d.entities
  {
    if e in d.entities {
      var r :| 0 <= r < |d.entities| && d.entities[r] == e;
      assert PointsAt(d, r);
    }
    if Has(d, e) {
      assert d.entities[RowOf(d, e)] == e;
    }
  }

  lemma HasIffListed(d: Dense, e: Handle)
    requires Linked(d)
    ensures Has(d, e) <==> e in d.entities
    ensures Older(d, e) <==> exists f :: f in d.entities && f != e && Index(f) == Index(e)
  {
    HasIffIn(d, e);
    forall f | f in d.entities && f != e && Index(f) == Index(e)
      ensures Older(d, e)
    {
      var r :| 0 <= r < |d.entities| && d.entities[r] == f;
      assert PointsAt(d, r);
    }
    if Older(d, e) {
      assert Filled(d, Index(e));
      var f := d.entities[d.sparse[Index(e)] - 1];
      assert PointsAt(d, d.sparse[Index(e)] - 1);
      assert f in d.entities && f != e && Index(f) == Index(e);
    }
  }

  /** Dense entities are distinct, and so are their slots. */
  lemma Apart(d: Dense, r: nat, s: nat)
    requires Linked(d) && r < |d.entities| && s < |d.entities| && Index(d.entities[r]) == Index(d.entities[s])
    ensures r == s
  {
    assert PointsAt(d, r) && PointsAt(d, s);
  }

  function Grown(sparse: seq<nat>, n: nat): (s: seq<nat>)
    ensures |s| == Max(|sparse|, n)
    ensures forall i :: 0 <= i < |s| ==> s[i] == if i < |sparse| then sparse[i] else 0
  {
    if n <= |sparse| then sparse else sparse + seq(n - |sparse|, _ => 0)
  }

  /** The set with a new row for e, as Add makes it. */
  function Added(d: Dense, e: Handle): Dense
  {
    Dense(Grown(d.sparse, Index(e) + 1)[Index(e) := |d.entities| + 1], d.entities + [e])
  }

  function Removed(d: Dense, row: nat): Dense
    requires Linked(d) && row < |d.entities|
  {
    var last := |d.entities| - 1;
    assert PointsAt(d, row) && PointsAt(d, last);
    var sparse := if row != last then d.sparse[Index(d.entities[last]) := row + 1] else d.sparse;
    Dense(sparse[Index(d.entities[row]) := 0], SwapPop(d.entities, row))
  }

  /** Adding a new row keeps the two sides linked exactly when no other generation of the
      slot is in the set. */
  lemma AddKeepsLinkedIff(d: Dense, e: Handle)
    requires Linked(d) && e != NULL && !Has(d, e)
    ensures Linked(Added(d, e)) <==> !Older(d, e)
  {
    var t := Added(d, e);
    if Older(d, e) {
      var r := d.sparse[Index(e)] - 1;
      assert Filled(d, Index(e));
      assert t.entities[r] == d.entities[r] && !PointsAt(t, r);
    } else {
      forall r | 0 <= r < |t.entities| ensures PointsAt(t, r) {
        if r < |d.entities| {
          assert PointsAt(d, r);
        }
      }
      forall i | 0 <= i < |t.sparse| ensures Filled(t, i) {
        if i < |d.sparse| {
          assert Filled(d, i);
        }
      }
    }
  }

  /** What Has and Get find through the sparse side, linked or not. */
  predicate Found(d: Dense, e: Handle)
  {
    && e != NULL && Index(e) < |d.sparse| && 0 < d.sparse[Index(e)] <= |d.entities|
    && d.entities[d.sparse[Index(e)] - 1] == e
  }

  /** Otherwise that other generation keeps its row, so it is still iterated, but it is
      no longer found; every other entity is. */
  lemma OlderIsOrphaned(d: Dense, e: Handle, f: Handle)
    requires Linked(d) && e != NULL && f in d.entities && f != e && Index(f) == Index(e)
    ensures f in Added(d, e).entities && !Found(Added(d, e), f)
    ensures forall x :: x in Added(d, e).entities && x != f ==> Found(Added(d, e), x)
  {
    var t := Added(d, e);
    assert t.entities[|d.entities|] == e;
    forall x | x in t.entities && x != f
      ensures Found(t, x)
    {
      if x in d.entities {
        var r :| 0 <= r < |d.entities| && d.entities[r] == x;
        var s :| 0 <= s < |d.entities| && d.entities[s] == f;
        assert PointsAt(d, r) && PointsAt(d, s);
        if Index(x) == Index(e) {
          Apart(d, r, s);
        }
      }
    }
  }

  lemma RemoveKeepsLinked(d: Dense, row: nat)
    requires Linked(d) && row < |d.entities|
    ensures Linked(Removed(d, row))
    ensures forall e :: e in Removed(d, row).entities <==> e in d.entities && e != d.entities[row]
  {
    var t := Removed(d, row);
    var last := |d.entities| - 1;
    assert PointsAt(d, row) && PointsAt(d, last);
    assert |t.sparse| == |d.sparse|;
    forall r | 0 <= r < |t.entities|
      ensures PointsAt(t, r) && t.entities[r] != d.entities[row] && t.entities[r] in d.entities
    {
      var was := if r == row then last else r;
      assert PointsAt(d, was) && PointsAt(d, row) && PointsAt(d, last);
    }
    forall i | 0 <= i < |t.sparse| ensures Filled(t, i) {
      assert Filled(d, i) && PointsAt(d, row) && PointsAt(d, last);
    }
    forall e | e in d.entities && e != d.entities[row] ensures e in t.entities {
      var r :| 0 <= r < |d.entities| && d.entities[r] == e;
      assert t.entities[if r == last then row else r] == e;
    }
  }

  // ----- the map -----

  ghost function Model(d: Dense, cells: seq<Cell>): (m: map<Handle, Cell>)
    requires Linked(d) && |cells| == |d.entities|
    ensures forall e :: e in m <==> Has(d, e)
    ensures forall e :: e in m ==> m[e] == cells[RowOf(d, e)]
  {
    forall e ensures Has(d, e) <==> e in d.entities {
      HasIffIn(d, e);
    }
    map e | e in d.entities :: cells[RowOf(d, e)]
  }

  lemma RowIs(d: Dense, r: nat)
    requires Linked(d) && r < |d.entities|
    ensures Has(d, d.entities[r]) && RowOf(d, d.entities[r]) == r
  {
    assert PointsAt(d, r);
  }

  lemma AddModel(d: Dense, cells: seq<Cell>, e: Handle, c: Cell)
    requires Linked(d) && |cells| == |d.entities| && e != NULL && !Has(d, e) && !Older(d, e)
    ensures Linked(Added(d, e)) && Model(Added(d, e), cells + [c]) == Model(d, cells)[e := c]
  {
    AddKeepsLinkedIff(d, e);
    var t := Added(d, e);
    var m, m' := Model(d, cells)[e := c], Model(t, cells + [c]);
    forall f ensures (f in m' <==> f in m) && (f in m ==> m'[f] == m[f]) {
      HasIffListed(d, f);
      HasIffListed(t, f);
      RowIs(t, |d.entities|);
      if f in d.entities {
        RowIs(t, RowOf(d, f));
      }
    }
  }

  lemma SetModel(d: Dense, cells: seq<Cell>, row: nat, c: Cell)
    requires Linked(d) && |cells| == |d.entities| && row < |cells|
    ensures Model(d, cells[row := c]) == Model(d, cells)[d.entities[row] := c]
  {
    RowIs(d, row);
    var m, m' := Model(d, cells)[d.entities[row] := c], Model(d, cells[row := c]);
    forall f ensures (f in m' <==> f in m) && (f in m ==> m'[f] == m[f]) {
      if Has(d, f) && RowOf(d, f) == row {
        assert f == d.entities[row];
      }
    }
  }

  /** The rows of the entities that stay. */
  lemma RemovedRow(d: Dense, row: nat, f: Handle)
    requires Linked(d) && row < |d.entities| && Linked(Removed(d, row)) && Has(Removed(d, row), f)
    ensures var r := RowOf(Removed(d, row), f);
      Has(d, f) && RowOf(d, f) == if r == row then |d.entities| - 1 else r
  {
    var r := RowOf(Removed(d, row), f);
    RowIs(d, if r == row then |d.entities| - 1 else r);
  }

  lemma RemoveModel(d: Dense, cells: seq<Cell>, row: nat)
    requires Linked(d) && |cells| == |d.entities| && row < |cells|
    ensures Linked(Removed(d, row)) &&
      Model(Removed(d, row), SwapPop(cells, row)) == Model(d, cells) - {d.entities[row]}
  {
    RemoveKeepsLinked(d, row);
    var t := Removed(d, row);
    var m, m' := Model(d, cells) - {d.entities[row]}, Model(t, SwapPop(cells, row));
    forall f ensures (f in m' <==> f in m) && (f in m' ==> m'[f] == m[f]) {
      HasIffIn(d, f);
      HasIffIn(t, f);
      if Has(t, f) {
        RemovedRow(d, row, f);
      }
    }
  }

  // ----- the bytes -----

  function RowBytes(data: seq<Byte>, size: nat, r: nat): seq<Byte>
    requires Times(r, size) + size <= |data|
  {
    data[Times(r, size)..Times(r, size) + size]
  }

  ghost function CellsOf(data: seq<Byte>, size: nat, ticks: seq<ComponentTicks>): (cells: seq<Cell>)
    requires |data| == Times(|ticks|, size)
    ensures |cells| == |ticks|
    ensures forall r :: 0 <= r < |ticks| ==>
      Times(r, size) + size <= |data| && cells[r] == Cell(RowBytes(data, size, r), ticks[r])
  {
    forall r: nat | r < |ticks| ensures Times(r, size) + size <= |data| {
      TimesApart(r, |ticks|, size);
    }
    seq(|ticks|, r requires 0 <= r < |ticks| => Cell(RowBytes(data, size, r), ticks[r]))
  }

  function Spliced(data: seq<Byte>, at: nat, src: seq<Byte>): (s: seq<Byte>)
    requires at + |src| <= |data|
    ensures |s| == |data|
  {
    data[..at] + src + data[at + |src|..]
  }

  lemma SplicedReads(data: seq<Byte>, at: nat, src: seq<Byte>)
    requires at + |src| <= |data|
    ensures Spliced(data, at, src)[at..at + |src|] == src
  {
    SpliceReads(data, at, src);
  }

  lemma SplicedKeeps(data: seq<Byte>, at: nat, src: seq<Byte>, p: nat, n: nat)
    requires at + |src| <= |data| && p + n <= |data| && (p + n <= at || at + |src| <= p)
    ensures Spliced(data, at, src)[p..p + n] == data[p..p + n]
  {
    SpliceKeeps(data, at, src, p, n);
  }

  lemma RowsApart(r: nat, s: nat, size: nat)
    requires r != s
    ensures Times(r, size) + size <= Times(s, size) || Times(s, size) + size <= Times(r, size)
  {
    if r < s {
      TimesApart(r, s, size);
    } else {
      TimesApart(s, r, size);
    }
  }

  lemma RowInside(data: seq<Byte>, size: nat, n: nat, r: nat)
    requires |data| == Times(n, size) && r < n
    ensures Times(r, size) + size <= |data|
  {
    TimesApart(r, n, size);
  }

  lemma OtherRow(data: seq<Byte>, size: nat, row: nat, src: seq<Byte>, r: nat)
    requires Times(row, size) + size <= |data| && Times(r, size) + size <= |data| && |src| == size && r != row
    ensures RowBytes(Spliced(data, Times(row, size), src), size, r) == RowBytes(data, size, r)
  {
    RowsApart(r, row, size);
    SplicedKeeps(data, Times(row, size), src, Times(r, size), size);
  }

  /** Writing one row's bytes changes that cell's bytes only. */
  lemma SplicedCells(data: seq<Byte>, size: nat, ticks: seq<ComponentTicks>, row: nat, src: seq<Byte>)
    requires |data| == Times(|ticks|, size) && row < |ticks| && |src| == size
    ensures Times(row, size) + size <= |data|
    ensures CellsOf(Spliced(data, Times(row, size), src), size, ticks) ==
      CellsOf(data, size, ticks)[row := Cell(src, ticks[row])]
  {
    RowInside(data, size, |ticks|, row);
    var now := Spliced(data, Times(row, size), src);
    var cells, cells' := CellsOf(data, size, ticks)[row := Cell(src, ticks[row])], CellsOf(now, size, ticks);
    forall r: nat | r < |ticks|
      ensures cells'[r] == cells[r]
    {
      if r == row {
        SplicedReads(data, Times(row, size), src);
      } else {
        RowInside(data, size, |ticks|, r);
        OtherRow(data, size, row, src, r);
      }
    }
  }

  lemma AppendedCells(data: seq<Byte>, size: nat, ticks: seq<ComponentTicks>, src: seq<Byte>, ct: ComponentTicks)
    requires |data| == Times(|ticks|, size) && |src| == size
    ensures |data + src| == Times(|ticks + [ct]|, size)
    ensures CellsOf(data + src, size, ticks + [ct]) == CellsOf(data, size, ticks) + [Cell(src, ct)]
  {
    TimesNext(|ticks|, size);
    assert |ticks + [ct]| == |ticks| + 1;
    var cells, cells' := CellsOf(data, size, ticks) + [Cell(src, ct)], CellsOf(data + src, size, ticks + [ct]);
    forall r: nat | r < |cells'|
      ensures cells'[r] == cells[r]
    {
      if r < |ticks| {
        TimesApart(r, |ticks|, size);
        assert RowBytes(data + src, size, r) == RowBytes(data, size, r);
      } else {
        assert RowBytes(data + src, size, r) == src;
      }
    }
  }

  lemma RowOfPrefix(data: seq<Byte>, size: nat, n: nat, r: nat)
    requires r < n && Times(n, size) <= |data|
    ensures Times(r, size) + size <= Times(n, size)
    ensures RowBytes(data[..Times(n, size)], size, r) == RowBytes(data, size, r)
  {
    TimesApart(r, n, size);
  }

  lemma PoppedCells(data: seq<Byte>, size: nat, ticks: seq<ComponentTicks>)
    requires |data| == Times(|ticks|, size) && ticks != []
    ensures Times(|ticks| - 1, size) <= |data|
    ensures CellsOf(data[..Times(|ticks| - 1, size)], size, ticks[..|ticks| - 1]) ==
      CellsOf(data, size, ticks)[..|ticks| - 1]
  {
    var n := |ticks| - 1;
    forall r: nat | r < n
      ensures Times(r, size) + size <= Times(n, size) &&
        RowBytes(data[..Times(n, size)], size, r) == RowBytes(data, size, r)
    {
      RowOfPrefix(data, size, n, r);
    }
  }
}
