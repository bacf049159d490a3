/** How a chunk is divided among columns: sorting by alignment, offsets, and the
    number of rows that fit. */
module Layout {
  import opened Arith
  import Bits
  import opened Perms

  /** One column: its component, the byte size and alignment of its type. */
  datatype ColumnSpec = ColumnSpec(typ: nat, align: nat, size: nat, id: nat)

  ghost predicate IsPow2(a: nat)
  {
    exists k: nat :: a == Bits.Pow2(k)
  }

  /** What is true of the size and alignment of a Go type. */
  ghost predicate GoAligned(c: ColumnSpec)
  {
    (c.align <= 1 || IsPow2(c.align)) && Multiple(c.size, c.align)
  }

  /** The least multiple of `align` that is at least `offset`. */
  function AlignUp(offset: nat, align: nat): nat
  {
    if align <= 1 then offset else Bits.AndNot(offset + align - 1, align - 1)
  }

  /** Clearing the low bits rounds down to a multiple of a power of two. */
  lemma ClearsLowBits(x: nat, align: nat)
    requires IsPow2(align)
    ensures Bits.AndNot(x, align - 1) == x - x % align
  {
    var k :| align == Bits.Pow2(k);
    Bits.AndNotSplits(x, align - 1);
    Bits.MaskIsMod(x, k);
  }

  lemma FloorIsLeast(offset: nat, align: nat, r: nat)
    requires align > 1 && r == offset + align - 1 - (offset + align - 1) % align
    ensures Multiple(r, align) && offset <= r
    ensures forall m: nat :: Multiple(m, align) && m >= offset ==> r <= m
  {
    var x := offset + align - 1;
    QuotientTimes(x, align);
    TimesIsMultiple(x / align, align, align);
    forall m: nat | Multiple(m, align) && m >= offset
      ensures r <= m
    {
      if m < r {
        MultiplesApart(m, r, align);
      }
    }
  }

  lemma AlignUpIsLeast(offset: nat, align: nat)
    requires align <= 1 || IsPow2(align)
    ensures var r := AlignUp(offset, align);
      && Multiple(r, align) && offset <= r
      && forall m: nat :: Multiple(m, align) && m >= offset ==> r <= m
  {
    if align > 1 {
      ClearsLowBits(offset + align - 1, align);
      FloorIsLeast(offset, align, AlignUp(offset, align));
    }
  }

  // ----- column order -----

  /** The comparison of `sortColumnsByAlignDesc`: alignment down, size down, ID up. */
  predicate Before(a: ColumnSpec, b: ColumnSpec)
  {
    if a.align != b.align then a.align > b.align
    else if a.size != b.size then a.size > b.size
    else a.id < b.id
  }

  predicate Ordered(s: seq<ColumnSpec>)
  {
    forall i, j :: 0 <= i < j < |s| ==> !Before(s[j], s[i])
  }

  predicate InOrder(a: (ColumnSpec, nat), b: (ColumnSpec, nat))
  {
    !Before(b.0, a.0) && (Before(a.0, b.0) || a.1 < b.1)
  }

  /** `tmp` is (column, original index) pairs in order, ties in original order. */
  predicate Arranged(tmp: seq<(ColumnSpec, nat)>)
  {
    forall i, j :: 0 <= i < j < |tmp| ==> InOrder(tmp[i], tmp[j])
  }

  ghost predicate Pairs(tmp: seq<(ColumnSpec, nat)>, cols: seq<ColumnSpec>, n: nat)
    requires n <= |cols|
  {
    && |tmp| == n
    && (forall i :: 0 <= i < n ==> tmp[i].1 < n && tmp[i].0 == cols[tmp[i].1])
    && (forall i, j :: 0 <= i < j < n ==> tmp[i].1 != tmp[j].1)
  }

  function Specs(tmp: seq<(ColumnSpec, nat)>): (s: seq<ColumnSpec>)
    ensures |s| == |tmp| && forall i :: 0 <= i < |s| ==> s[i] == tmp[i].0
  {
    seq(|tmp|, i requires 0 <= i < |tmp| => tmp[i].0)
  }

  lemma InsertAdds(tmp: seq<(ColumnSpec, nat)>, cols: seq<ColumnSpec>, n: nat, at: nat)
    requires n < |cols| && at <= n == |tmp| && multiset(Specs(tmp)) == multiset(cols[..n])
    ensures multiset(Specs(tmp[..at] + [(cols[n], n)] + tmp[at..])) == multiset(cols[..n + 1])
  {
    var s := Specs(tmp);
    assert Specs(tmp[..at] + [(cols[n], n)] + tmp[at..]) == s[..at] + [cols[n]] + s[at..];
    assert s == s[..at] + s[at..];
    assert cols[..n + 1] == cols[..n] + [cols[n]];
  }

  lemma InsertInOrder(tmp: seq<(ColumnSpec, nat)>, x: (ColumnSpec, nat), at: nat)
    requires at <= |tmp| && Arranged(tmp)
    requires forall j :: 0 <= j < |tmp| ==> tmp[j].1 < x.1
    requires forall j :: at <= j < |tmp| ==> Before(x.0, tmp[j].0)
    requires at > 0 ==> !Before(x.0, tmp[at - 1].0)
    ensures Arranged(tmp[..at] + [x] + tmp[at..])
  {
    var w := tmp[..at] + [x] + tmp[at..];
    forall i, j | 0 <= i < j < |w|
      ensures InOrder(w[i], w[j])
    {
      var a, b := if i < at then i else i - 1, if j < at then j else j - 1;
      if i == at {
        assert w[j] == tmp[b];
      } else if j == at {
        assert w[i] == tmp[a];
        if a < at - 1 {
          assert InOrder(tmp[a], tmp[at - 1]);
        }
      } else {
        assert w[i] == tmp[a] && w[j] == tmp[b] && InOrder(tmp[a], tmp[b]);
      }
    }
  }

  /** Putting column n before the columns that must follow it keeps the arrangement. */
  lemma InsertKeeps(tmp: seq<(ColumnSpec, nat)>, cols: seq<ColumnSpec>, n: nat, at: nat)
    requires n < |cols| && at <= n && Pairs(tmp, cols, n) && Arranged(tmp)
    requires forall j :: at <= j < n ==> Before(cols[n], tmp[j].0)
    requires at > 0 ==> !Before(cols[n], tmp[at - 1].0)
    ensures Pairs(tmp[..at] + [(cols[n], n)] + tmp[at..], cols, n + 1)
    ensures Arranged(tmp[..at] + [(cols[n], n)] + tmp[at..])
  {
    var x := (cols[n], n);
    var w := tmp[..at] + [x] + tmp[at..];
    forall i | 0 <= i < |w|
      ensures w[i].1 < n + 1 && w[i].0 == cols[w[i].1] && (i != at ==> w[i].1 < n)
    {
      assert i != at ==> w[i] == tmp[if i < at then i else i - 1];
    }
    forall i, j | 0 <= i < j < |w|
      ensures w[i].1 != w[j].1
    {
      var a, b := if i < at then i else i - 1, if j < at then j else j - 1;
      assert i != at ==> w[i] == tmp[a];
      assert j != at ==> w[j] == tmp[b];
    }
    InsertInOrder(tmp, x, at);
  }

  /** Stable sort of the columns. */
  method SortColumns(cols: seq<ColumnSpec>) returns (sorted: seq<ColumnSpec>, originalIndex: seq<nat>)
    ensures |sorted| == |cols| && Permutation(originalIndex, |cols|) && Ordered(sorted)
    ensures multiset(sorted) == multiset(cols)
    ensures forall i :: 0 <= i < |sorted| ==> sorted[i] == cols[originalIndex[i]]
    ensures forall i, j :: 0 <= i < j < |sorted| ==>
      var a, b := sorted[i], sorted[j];
      a.align > b.align || (a.align == b.align && (a.size > b.size || (a.size == b.size &&
        (a.id < b.id || (a.id == b.id && originalIndex[i] < originalIndex[j])))))
  {
    var tmp: seq<(ColumnSpec, nat)> := [];
    for n := 0 to |cols|
      invariant Pairs(tmp, cols, n) && Arranged(tmp)
      invariant multiset(Specs(tmp)) == multiset(cols[..n])
    {
      var at := n;
      while at > 0 && Before(cols[n], tmp[at - 1].0)
        invariant 0 <= at <= n
        invariant forall j :: at <= j < n ==> Before(cols[n], tmp[j].0)
      {
        at := at - 1;
      }
      InsertKeeps(tmp, cols, n, at);
      InsertAdds(tmp, cols, n, at);
      tmp := tmp[..at] + [(cols[n], n)] + tmp[at..];
    }
    assert cols[..|cols|] == cols;
    sorted := Specs(tmp);
    originalIndex := seq(|cols|, i requires 0 <= i < |tmp| => tmp[i].1);
  }

  /** The column that comes first does not depend on how the columns were listed. */
  lemma FirstIsSame(s: seq<ColumnSpec>, t: seq<ColumnSpec>)
    requires s != [] && t != [] && Ordered(s) && Ordered(t) && s[0] in t && t[0] in s
    requires forall a, b :: a in s && b in s && a.id == b.id ==> a == b
    ensures s[0] == t[0]
  {
    assert !Before(t[0], s[0]) && !Before(s[0], t[0]);
  }

  lemma RestIsSame(s: seq<ColumnSpec>, t: seq<ColumnSpec>)
    requires s != [] && t != [] && multiset(s) == multiset(t) && s[0] == t[0]
    ensures multiset(s[1..]) == multiset(t[1..])
  {
    assert s == [s[0]] + s[1..] && t == [t[0]] + t[1..];
    assert multiset(s[1..]) == multiset(s) - multiset{s[0]};
    assert multiset(t[1..]) == multiset(t) - multiset{t[0]};
  }

  /** Two orderings of the same columns, with distinct IDs, are the same: the layout
      does not depend on the order the columns were given in. */
  lemma {:induction false} OrderIsCanonical(s: seq<ColumnSpec>, t: seq<ColumnSpec>)
    requires Ordered(s) && Ordered(t) && multiset(s) == multiset(t)
    requires forall a, b :: a in s && b in s && a.id == b.id ==> a == b
    ensures s == t
  {
    assert |s| == |multiset(s)| == |multiset(t)| == |t|;
    if s != [] {
      assert s[0] in multiset(t) && t[0] in multiset(s);
      FirstIsSame(s, t);
      RestIsSame(s, t);
      OrderIsCanonical(s[1..], t[1..]);
      assert s == [s[0]] + s[1..] && t == [t[0]] + t[1..];
    }
  }

  // ----- offsets -----

  /** Columns as a table lays them out: Go types, sorted. */
  ghost predicate GoColumns(cols: seq<ColumnSpec>)
  {
    Ordered(cols) && forall c :: c in cols ==> GoAligned(c)
  }

  function SumSize(cols: seq<ColumnSpec>): nat
  {
    if cols == [] then 0 else SumSize(cols[..|cols| - 1]) + cols[|cols| - 1].size
  }

  /** Where the first i columns start, each padded up to its alignment, and the first
      byte after them. */
  function Offsets(cols: seq<ColumnSpec>, rows: nat, i: nat): (r: (seq<nat>, nat))
    requires i <= |cols|
    ensures |r.0| == i
  {
    if i == 0 then ([], 0)
    else
      var before := Offsets(cols, rows, i - 1);
      var off := AlignUp(before.1, cols[i - 1].align);
      (before.0 + [off], off + Times(rows, cols[i - 1].size))
  }

  method LayoutOffsets(cols: seq<ColumnSpec>, rows: nat) returns (offs: seq<nat>, off: nat)
    ensures (offs, off) == Offsets(cols, rows, |cols|)
  {
    offs, off := [], 0;
    for i := 0 to |cols|
      invariant (offs, off) == Offsets(cols, rows, i)
    {
      off := AlignUp(off, cols[i].align);
      offs := offs + [off];
      var width := Product(rows, cols[i].size);
      off := off + width;
    }
  }

  /** A multiple of a coarse alignment is a multiple of a finer one. */
  lemma MultipleCoarser(x: nat, a: nat, b: nat)
    requires Multiple(x, a) && b <= a && (b <= 1 || (IsPow2(a) && IsPow2(b)))
    ensures Multiple(x, b)
  {
    if b > 1 {
      var j: nat :| b == Bits.Pow2(j);
      var k: nat :| a == Bits.Pow2(k);
      if k < j {
        Bits.Pow2Monotone(k, j);
      } else {
        Bits.Pow2Divides(j, k);
        MultipleTransits(x, a, b);
      }
    }
  }

  lemma AlignedStays(x: nat, a: nat)
    requires (a <= 1 || IsPow2(a)) && Multiple(x, a)
    ensures AlignUp(x, a) == x
  {
    AlignUpIsLeast(x, a);
  }

  /** The bytes of a column end on a multiple of the alignment of any later column. */
  lemma StaysAligned(end: nat, rows: nat, c: ColumnSpec, d: ColumnSpec)
    requires GoAligned(c) && GoAligned(d) && d.align <= c.align && Multiple(end, d.align)
    ensures Multiple(end + Times(rows, c.size), d.align)
  {
    TimesIsMultiple(rows, c.size, c.align);
    MultipleCoarser(Times(rows, c.size), c.align, d.align);
    MultipleAdds(end, Times(rows, c.size), d.align);
  }

  /** The first i columns start right after one another, and what follows them suits
      every later column. */
  ghost predicate Packed(cols: seq<ColumnSpec>, i: nat, rows: nat, r: (seq<nat>, nat))
    requires i <= |cols|
  {
    && |r.0| == i && r.1 == Times(rows, SumSize(cols[..i]))
    && (forall j :: 0 <= j < i ==> r.0[j] == Times(rows, SumSize(cols[..j])))
    && (forall j :: i <= j < |cols| ==> Multiple(r.1, cols[j].align))
  }

  lemma PackedNext(cols: seq<ColumnSpec>, i: nat, rows: nat, r: (seq<nat>, nat))
    requires GoColumns(cols) && i < |cols| && Packed(cols, i, rows, r)
    ensures Packed(cols, i + 1, rows, (r.0 + [r.1], r.1 + Times(rows, cols[i].size)))
  {
    var c := cols[i];
    assert c in cols;
    assert cols[..i + 1][..i] == cols[..i];
    TimesAdds(rows, SumSize(cols[..i]), c.size);
    forall j | i + 1 <= j < |cols|
      ensures Multiple(r.1 + Times(rows, c.size), cols[j].align)
    {
      assert cols[j] in cols && !Before(cols[j], c);
      StaysAligned(r.1, rows, c, cols[j]);
    }
  }

  /** Columns in descending alignment need no padding. */
  lemma {:induction false} NoPadding(cols: seq<ColumnSpec>, rows: nat, i: nat)
    requires GoColumns(cols) && i <= |cols|
    ensures Packed(cols, i, rows, Offsets(cols, rows, i))
  {
    if i == 0 {
      assert cols[..0] == [];
      TimesZero(rows);
    } else {
      var r, c := Offsets(cols, rows, i - 1), cols[i - 1];
      NoPadding(cols, rows, i - 1);
      assert c in cols && GoAligned(c);
      AlignedStays(r.1, c.align);
      PackedNext(cols, i - 1, rows, r);
    }
  }

  /** The layout of a table, or which of the two panics ends the computation. */
  datatype Outcome =
    | Fits(rowStride: nat, chunkRows: nat, offsets: seq<nat>)
    | StrideExceedsChunk
    | NoFit

  const TAG_ROWS := 1024

  lemma GuessFits(chunkSize: nat, stride: nat)
    requires stride > 0
    ensures Times(chunkSize / stride, stride) <= chunkSize
    ensures chunkSize / stride >= 1 <==> stride <= chunkSize
  {
    QuotientTimes(chunkSize, stride);
    if chunkSize / stride > 1 {
      TimesApart(0, chunkSize / stride, stride);
    }
  }

  /** With no padding, the first guess fits and the offsets are running sums. */
  lemma FirstGuess(cols: seq<ColumnSpec>, chunkSize: nat, guess: nat)
    requires SumSize(cols) > 0 && guess == chunkSize / SumSize(cols)
    ensures GoColumns(cols) ==>
      && Offsets(cols, guess, |cols|).1 <= chunkSize
      && forall j :: 0 <= j < |cols| ==> Offsets(cols, guess, |cols|).0[j] == Times(guess, SumSize(cols[..j]))
  {
    if GoColumns(cols) {
      NoPadding(cols, guess, |cols|);
      assert cols[..|cols|] == cols;
      GuessFits(chunkSize, SumSize(cols));
    }
  }

  lemma {:induction false} PrefixSums(cols: seq<ColumnSpec>, i: nat, j: nat)
    requires i <= j <= |cols|
    ensures SumSize(cols[..i]) <= SumSize(cols[..j])
    ensures i < j ==> SumSize(cols[..i]) + cols[i].size <= SumSize(cols[..j])
  {
    if i < j {
      PrefixSums(cols, i, j - 1);
      assert cols[..j][..j - 1] == cols[..j - 1];
      if i == j - 1 {
      }
    }
  }

  lemma TagOffsets(cols: seq<ColumnSpec>)
    requires SumSize(cols) == 0
    ensures forall j :: 0 <= j < |cols| ==> Times(TAG_ROWS, SumSize(cols[..j])) == 0
  {
    forall j | 0 <= j < |cols|
      ensures Times(TAG_ROWS, SumSize(cols[..j])) == 0
    {
      PrefixSums(cols, j, |cols|);
      assert cols[..|cols|] == cols;
      TimesZero(TAG_ROWS);
    }
  }

  /** `computeLayout`. For columns sorted and aligned as Go types are, the first guess
      fits, so the rows per chunk are exactly chunkSize over the row stride and the
      second panic cannot happen. */
  method ComputeLayout(cols: seq<ColumnSpec>, chunkSize: nat) returns (r: Outcome)
    requires chunkSize > 0
    ensures r.StrideExceedsChunk? <==> SumSize(cols) > chunkSize
    ensures r.Fits? ==> r.rowStride == SumSize(cols) && r.chunkRows >= 1 && |r.offsets| == |cols|
    ensures r.Fits? && r.rowStride > 0 ==>
      r.offsets == Offsets(cols, r.chunkRows, |cols|).0 && Offsets(cols, r.chunkRows, |cols|).1 <= chunkSize
    ensures GoColumns(cols) && SumSize(cols) <= chunkSize ==>
      && r.Fits?
      && r.chunkRows == (if SumSize(cols) == 0 then 1024 else chunkSize / SumSize(cols))
      && forall j :: 0 <= j < |cols| ==> r.offsets[j] == Times(r.chunkRows, SumSize(cols[..j]))
  {
    var sumSize := 0;
    for i := 0 to |cols|
      invariant sumSize == SumSize(cols[..i])
    {
      assert cols[..i + 1][..i] == cols[..i];
      sumSize := sumSize + cols[i].size;
    }
    assert cols[..|cols|] == cols;
    if sumSize == 0 {
      TagOffsets(cols);
      return Fits(0, TAG_ROWS, seq(|cols|, _ => 0));
    }
    var guess := chunkSize / sumSize;
    GuessFits(chunkSize, sumSize);
    if guess < 1 {
      return StrideExceedsChunk;
    }
    FirstGuess(cols, chunkSize, guess);
    ghost var first := guess;
    while guess >= 1
      invariant 0 <= guess <= first
      invariant GoColumns(cols) ==> guess == first
    {
      var offsets, total := LayoutOffsets(cols, guess);
      if total <= chunkSize {
        return Fits(sumSize, guess, offsets);
      }
      guess := guess - 1;
    }
    return NoFit;
  }

  lemma {:induction false} SumSplits(s: seq<ColumnSpec>, i: nat)
    requires i < |s|
    ensures SumSize(s) == SumSize(s[..i] + s[i + 1..]) + s[i].size
  {
    var n := |s| - 1;
    if i < n {
      SumSplits(s[..n], i);
      assert s[..n][..i] + s[..n][i + 1..] == (s[..i] + s[i + 1..])[..n - 1];
    } else {
      assert s[..i] + s[i + 1..] == s[..n];
    }
  }

  /** The row stride does not depend on the order of the columns. */
  lemma {:induction false} SumOfSorted(s: seq<ColumnSpec>, t: seq<ColumnSpec>)
    requires multiset(s) == multiset(t)
    ensures SumSize(s) == SumSize(t)
  {
    assert |s| == |multiset(s)| == |multiset(t)| == |t|;
    if s != [] {
      var n := |s| - 1;
      assert s[n] in multiset(t);
      var i :| 0 <= i < |t| && t[i] == s[n];
      assert s == s[..n] + [s[n]];
      assert t == t[..i] + [t[i]] + t[i + 1..];
      assert multiset(t[..i] + t[i + 1..]) == multiset(t) - multiset{t[i]};
      assert multiset(s[..n]) == multiset(s) - multiset{s[n]};
      SumOfSorted(s[..n], t[..i] + t[i + 1..]);
      SumSplits(t, i);
    }
  }

  lemma {:induction false} SumIsZero(cols: seq<ColumnSpec>)
    ensures SumSize(cols) == 0 <==> forall c :: 0 <= c < |cols| ==> cols[c].size == 0
  {
    if cols != [] {
      SumIsZero(cols[..|cols| - 1]);
    }
  }
}
