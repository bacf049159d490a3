/** Where each cell of a table lies: in which chunk, and at which bytes of it. */
module Geometry {
  import opened Arith
  import opened Layout
  import opened Ticks

  type Byte = b: int | 0 <= b < 256

  /** The contents of the chunks. */
  type Mem = seq<seq<Byte>>

  /** The columns in public order, the chunk offset of each, rows and bytes per chunk. */
  datatype Geometry = Geometry(cols: seq<ColumnSpec>, off: seq<nat>, rows: nat, size: nat)

  predicate Apart(g: Geometry, c: nat, d: nat)
    requires |g.off| == |g.cols| && c < |g.cols| && d < |g.cols|
  {
    || g.cols[c].size == 0 || g.cols[d].size == 0
    || g.off[c] + Times(g.rows, g.cols[c].size) <= g.off[d]
    || g.off[d] + Times(g.rows, g.cols[d].size) <= g.off[c]
  }

  /** Columns have disjoint regions inside the chunk. */
  ghost predicate Sound(g: Geometry)
  {
    && |g.off| == |g.cols| && g.rows >= 1
    && (forall c :: 0 <= c < |g.cols| ==> g.off[c] + Times(g.rows, g.cols[c].size) <= g.size || g.cols[c].size == 0)
    && (forall c, d :: 0 <= c < |g.cols| && 0 <= d < |g.cols| && c != d ==> Apart(g, c, d))
  }

  /** The first byte, in its chunk, of the cell in column c at row i of the chunk. */
  function CellAt(g: Geometry, c: nat, i: nat): nat
    requires |g.off| == |g.cols| && c < |g.cols|
  {
    g.off[c] + Times(i, g.cols[c].size)
  }

  /** A cell lies inside its column's region. */
  lemma CellInside(g: Geometry, c: nat, i: nat)
    requires Sound(g) && c < |g.cols| && i < g.rows
    ensures g.off[c] <= CellAt(g, c, i)
    ensures CellAt(g, c, i) + g.cols[c].size <= g.off[c] + Times(g.rows, g.cols[c].size)
    ensures g.cols[c].size > 0 ==> CellAt(g, c, i) + g.cols[c].size <= g.size
  {
    TimesApart(i, g.rows, g.cols[c].size);
  }

  /** The byte ranges of two different cells of a chunk do not meet. */
  lemma CellsDisjoint(g: Geometry, c: nat, i: nat, d: nat, j: nat)
    requires Sound(g) && c < |g.cols| && d < |g.cols| && i < g.rows && j < g.rows && (c, i) != (d, j)
    requires g.cols[c].size > 0 && g.cols[d].size > 0
    ensures CellAt(g, c, i) + g.cols[c].size <= CellAt(g, d, j) || CellAt(g, d, j) + g.cols[d].size <= CellAt(g, c, i)
  {
    if c == d {
      if i < j {
        TimesApart(i, j, g.cols[c].size);
      } else {
        TimesApart(j, i, g.cols[c].size);
      }
    } else {
      assert Apart(g, c, d);
      CellInside(g, c, i);
      CellInside(g, d, j);
    }
  }

  /** Every cell starts on a multiple of its column's alignment. */
  lemma CellAligned(g: Geometry, c: nat, i: nat)
    requires |g.off| == |g.cols| && c < |g.cols|
    requires Multiple(g.off[c], g.cols[c].align) && Multiple(g.cols[c].size, g.cols[c].align)
    ensures Multiple(CellAt(g, c, i), g.cols[c].align)
  {
    TimesIsMultiple(i, g.cols[c].size, g.cols[c].align);
    MultipleAdds(g.off[c], Times(i, g.cols[c].size), g.cols[c].align);
  }

  /** `place` sends each public column to its position among the sorted ones. */
  ghost predicate Sorts(cols: seq<ColumnSpec>, sorted: seq<ColumnSpec>, place: seq<nat>)
  {
    && |place| == |cols| == |sorted|
    && (forall c :: 0 <= c < |cols| ==> place[c] < |sorted| && sorted[place[c]] == cols[c])
    && (forall c, d :: 0 <= c < d < |cols| ==> place[c] != place[d])
  }

  lemma RegionEnds(sorted: seq<ColumnSpec>, rows: nat, i: nat, j: nat)
    requires i < j <= |sorted|
    ensures Times(rows, SumSize(sorted[..i])) + Times(rows, sorted[i].size) <= Times(rows, SumSize(sorted[..j]))
  {
    PrefixSums(sorted, i, j);
    TimesAdds(rows, SumSize(sorted[..i]), sorted[i].size);
    TimesMonotone(rows, SumSize(sorted[..i]) + sorted[i].size, SumSize(sorted[..j]));
  }

  /** The layout `ComputeLayout` finds for sorted Go columns keeps all cells apart,
      inside the chunk, and aligned. */
  lemma LayoutIsSound(g: Geometry, sorted: seq<ColumnSpec>, place: seq<nat>)
    requires GoColumns(sorted) && Sorts(g.cols, sorted, place) && |g.off| == |g.cols| && g.rows >= 1
    requires forall c :: 0 <= c < |g.cols| ==> g.off[c] == Times(g.rows, SumSize(sorted[..place[c]]))
    requires Times(g.rows, SumSize(sorted)) <= g.size
    ensures Sound(g)
    ensures forall c :: 0 <= c < |g.cols| ==> Multiple(g.off[c], g.cols[c].align)
  {
    forall c | 0 <= c < |g.cols|
      ensures g.off[c] + Times(g.rows, g.cols[c].size) <= g.size && Multiple(g.off[c], g.cols[c].align)
    {
      assert sorted[..|sorted|] == sorted;
      RegionEnds(sorted, g.rows, place[c], |sorted|);
      NoPadding(sorted, g.rows, place[c]);
    }
    forall c, d | 0 <= c < |g.cols| && 0 <= d < |g.cols| && c != d
      ensures Apart(g, c, d)
    {
      if place[c] < place[d] {
        RegionEnds(sorted, g.rows, place[c], place[d]);
      } else {
        RegionEnds(sorted, g.rows, place[d], place[c]);
      }
    }
  }

  // ----- reading and writing cells -----

  /** The chunks are whole, and column c has bytes at the given row. */
  predicate Reaches(g: Geometry, mem: Mem, c: nat, row: nat)
    requires c < |g.cols| && g.rows >= 1
  {
    (forall k :: 0 <= k < |mem| ==> |mem[k]| == g.size) && (g.cols[c].size > 0 ==> Quot(row, g.rows) < |mem|)
  }

  /** The bytes of the cell in column c at `row`. */
  function CellOf(g: Geometry, mem: Mem, c: nat, row: nat): (b: seq<Byte>)
    requires Sound(g) && c < |g.cols| && Reaches(g, mem, c, row)
    ensures |b| == g.cols[c].size
  {
    if g.cols[c].size == 0 then []
    else
      CellInside(g, c, Rem(row, g.rows));
      var at := CellAt(g, c, Rem(row, g.rows));
      mem[Quot(row, g.rows)][at..at + g.cols[c].size]
  }

  /** The chunks after `src` is stored in the cell in column c at `row`. */
  function Written(g: Geometry, mem: Mem, c: nat, row: nat, src: seq<Byte>): (m: Mem)
    requires Sound(g) && c < |g.cols| && Reaches(g, mem, c, row) && |src| == g.cols[c].size
    ensures |m| == |mem| && forall k :: 0 <= k < |m| ==> |m[k]| == g.size
  {
    if g.cols[c].size == 0 then mem
    else
      CellInside(g, c, Rem(row, g.rows));
      var at := CellAt(g, c, Rem(row, g.rows));
      var k := Quot(row, g.rows);
      mem[k := mem[k][..at] + src + mem[k][at + |src|..]]
  }

  /** Bytes outside a splice are as they were. */
  lemma SpliceKeeps(s: seq<Byte>, at: nat, src: seq<Byte>, p: nat, n: nat)
    requires at + |src| <= |s| && p + n <= |s| && (p + n <= at || at + |src| <= p)
    ensures (s[..at] + src + s[at + |src|..])[p..p + n] == s[p..p + n]
  {
  }

  lemma SpliceReads(s: seq<Byte>, at: nat, src: seq<Byte>)
    requires at + |src| <= |s|
    ensures (s[..at] + src + s[at + |src|..])[at..at + |src|] == src
  {
  }

  /** A store is read back by its own cell and by no other. */
  lemma WriteReads(g: Geometry, mem: Mem, c: nat, row: nat, src: seq<Byte>, d: nat, r: nat)
    requires Sound(g) && c < |g.cols| && Reaches(g, mem, c, row) && |src| == g.cols[c].size
    requires d < |g.cols| && Reaches(g, mem, d, r)
    ensures CellOf(g, Written(g, mem, c, row, src), d, r) == if (d, r) == (c, row) then src else CellOf(g, mem, d, r)
  {
    if g.cols[c].size > 0 && g.cols[d].size > 0 && Quot(row, g.rows) == Quot(r, g.rows) {
      var i, j := Rem(row, g.rows), Rem(r, g.rows);
      QuotRemIs(row, g.rows);
      QuotRemIs(r, g.rows);
      CellInside(g, c, i);
      CellInside(g, d, j);
      var chunk, at := mem[Quot(row, g.rows)], CellAt(g, c, i);
      if (c, i) == (d, j) {
        SpliceReads(chunk, at, src);
      } else {
        CellsDisjoint(g, c, i, d, j);
        SpliceKeeps(chunk, at, src, CellAt(g, d, j), g.cols[d].size);
      }
    }
  }
}
