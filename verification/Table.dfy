/** The column-oriented table: rows spread over fixed-size byte chunks, swap-and-pop
    removal, and change ticks beside the bytes. */
module Table {
  import opened Arith
  import opened Layout
  import opened Perms
  import opened Geometry
  import opened TableSpec
  import opened Ticks

  const DEFAULT_CHUNK_SIZE := 16 * 1024

  /** A value that may be stored in a column: tags take any. */
  predicate Suits(spec: ColumnSpec, v: Value)
  {
    spec.size == 0 || (v.typ == spec.typ && |v.bytes| == spec.size)
  }

  /** The last row starts a chunk, and there is a chunk with no live row: one too many. */
  lemma TrailingChunk(n: nat, len: nat, rows: nat)
    requires rows > 0 && Rem(n, rows) == 0 && Times(len, rows) > n
    ensures len > 0 && n <= Times(len - 1, rows)
  {
    QuotRemIs(n, rows);
    if len <= Quot(n, rows) {
      if len < Quot(n, rows) {
        TimesApart(len, Quot(n, rows), rows);
      }
    } else if Quot(n, rows) < len - 1 {
      TimesApart(Quot(n, rows), len - 1, rows);
    }
  }

  /** `len` chunks are no more than n rows need. */
  predicate Needed(len: nat, n: nat, rows: nat)
  {
    len == 0 || Times(len - 1, rows) < n
  }

  lemma {:induction false} RemOfTimes(q: nat, rows: nat, n: nat)
    requires rows > 0 && n == Times(q, rows)
    ensures Rem(n, rows) == 0
  {
    if q > 0 {
      RemOfTimes(q - 1, rows, n - rows);
    }
  }

  /** Chunks that were no more than needed are so again with one row and, by the program's
      test, perhaps one chunk less. */
  lemma NeededStays(len: nat, n: nat, rows: nat)
    requires rows > 0 && Needed(len, n + 1, rows)
    ensures Needed(if Rem(n, rows) == 0 && Times(len, rows) > n then len - 1 else len, n, rows)
  {
    if len > 0 {
      TimesApart(len - 1, len, rows);
      if Times(len - 1, rows) == n {
        RemOfTimes(len - 1, rows, n);
        if len > 1 {
          TimesApart(len - 2, len - 1, rows);
        }
      } else if len > 1 {
        TimesApart(len - 2, len - 1, rows);
      }
    }
  }

  lemma SortedIsGo(specs: seq<ColumnSpec>, sorted: seq<ColumnSpec>)
    requires Ordered(sorted) && multiset(sorted) == multiset(specs) && forall c :: c in specs ==> GoAligned(c)
    ensures GoColumns(sorted) && SumSize(sorted) == SumSize(specs)
  {
    forall c | c in sorted ensures GoAligned(c) {
      assert c in multiset(specs);
    }
    SumOfSorted(sorted, specs);
  }

  /** The chunk offset of each public column. */
  function PublicOffsets(offsets: seq<nat>, place: seq<nat>): (off: seq<nat>)
    requires |offsets| == |place| && forall c :: 0 <= c < |place| ==> place[c] < |offsets|
    ensures |off| == |place| && forall c :: 0 <= c < |off| ==> off[c] == offsets[place[c]]
  {
    seq(|place|, c requires 0 <= c < |place| => offsets[place[c]])
  }

  predicate Indexes(byID: map<nat, nat>, cols: seq<ColumnSpec>)
  {
    && (forall c {:trigger cols[c]} :: 0 <= c < |cols| ==> cols[c].id in byID && byID[cols[c].id] == c)
    && (forall id :: id in byID ==> byID[id] < |cols| && cols[byID[id]].id == id)
  }

  method IndexByID(specs: seq<ColumnSpec>) returns (byID: map<nat, nat>)
    requires forall c, d :: 0 <= c < d < |specs| ==> specs[c].id != specs[d].id
    ensures Indexes(byID, specs)
  {
    byID := map[];
    for i := 0 to |specs|
      invariant forall c {:trigger specs[c]} :: 0 <= c < i ==> specs[c].id in byID && byID[specs[c].id] == c
      invariant forall id :: id in byID ==> byID[id] < i && specs[byID[id]].id == id
    {
      byID := byID[specs[i].id := i];
    }
  }

  /** The columns in layout order, and where each public column comes in it. */
  method SortAndPlace(specs: seq<ColumnSpec>) returns (sorted: seq<ColumnSpec>, place: seq<nat>)
    requires forall c :: c in specs ==> GoAligned(c)
    ensures GoColumns(sorted) && SumSize(sorted) == SumSize(specs) && Sorts(specs, sorted, place)
  {
    var originalIndex;
    sorted, originalIndex := SortColumns(specs);
    place := Invert(originalIndex, |specs|);
    SortedIsGo(specs, sorted);
  }

  /** `sortAndIndex` and `computeLayout` together: a layout that keeps all cells apart. */
  method Arrange(specs: seq<ColumnSpec>, size: nat) returns (sorted: seq<ColumnSpec>, place: seq<nat>, r: Outcome)
    requires size > 0 && SumSize(specs) <= size && forall c :: c in specs ==> GoAligned(c)
    ensures r.Fits? && |place| == |specs| == |r.offsets| && (forall c :: 0 <= c < |place| ==> place[c] < |specs|)
    ensures r.rowStride == SumSize(specs)
    ensures r.chunkRows == (if SumSize(specs) == 0 then 1024 else size / SumSize(specs)) >= 1
    ensures Sound(Geometry(specs, PublicOffsets(r.offsets, place), r.chunkRows, size))
    ensures forall c {:trigger specs[c]} :: 0 <= c < |specs| ==> Multiple(r.offsets[place[c]], specs[c].align)
  {
    sorted, place := SortAndPlace(specs);
    r := ComputeLayout(sorted, size);
    if SumSize(specs) == 0 {
      TimesZero(r.chunkRows);
    } else {
      GuessFits(size, SumSize(specs));
    }
    var g := Geometry(specs, PublicOffsets(r.offsets, place), r.chunkRows, size);
    LayoutIsSound(g, sorted, place);
  }

  /** What the chunks hold. */
  ghost function ContentsOf(cs: seq<array<Byte>>): (m: Mem)
    reads cs
    ensures |m| == |cs| && forall k {:trigger m[k]} :: 0 <= k < |m| ==> m[k] == cs[k][..]
  {
    if cs == [] then [] else ContentsOf(cs[..|cs| - 1]) + [cs[|cs| - 1][..]]
  }

  /** `src` copied into `dst` from position `at` on. */
  method CopyBytes(dst: array<Byte>, at: nat, src: seq<Byte>)
    requires at + |src| <= dst.Length
    modifies dst
    ensures dst[..] == old(dst[..at]) + src + old(dst[at + |src|..])
  {
    for i := 0 to |src|
      invariant dst[..] == old(dst[..at]) + src[..i] + old(dst[at + i..])
    {
      dst[at + i] := src[i];
      assert src[..i + 1] == src[..i] + [src[i]];
    }
    assert src[..|src|] == src;
  }

  class Table {
    const cols: seq<ColumnSpec>
    const colByID: map<nat, nat>
    const sortedCols: seq<ColumnSpec>
    const sortedOffset: seq<nat>
    const publicToSorted: seq<nat>
    var chunks: seq<array<Byte>>
    ghost var slot: map<array<Byte>, nat>
    var ticks: seq<seq<ComponentTicks>>
    var colAgg: seq<ColumnTicks>
    const chunkSize: nat
    const chunkRows: nat
    const rowStride: nat
    var nRows: nat

    ghost predicate Shaped()
    {
      && |publicToSorted| == |cols| == |sortedOffset| && chunkRows >= 1
      && forall c :: 0 <= c < |cols| ==> publicToSorted[c] < |cols|
    }

    /** Where this table's cells lie. */
    ghost function Geo(): Geometry
      requires Shaped()
    {
      Geometry(cols, PublicOffsets(sortedOffset, publicToSorted), chunkRows, chunkSize)
    }

    /** What never changes after the table is made. */
    ghost predicate Fixed()
    {
      && Shaped() && Sound(Geo())
      && (rowStride == 0 <==> forall c :: 0 <= c < |cols| ==> cols[c].size == 0)
      && Indexes(colByID, cols)
    }

    /** The chunks have their size and are distinct: `slot` says where each one stands. */
    ghost predicate Chunked()
      reads `chunks, `slot
    {
      && (forall k :: 0 <= k < |chunks| ==> chunks[k].Length == chunkSize)
      && (forall k :: 0 <= k < |chunks| ==> chunks[k] in slot && slot[chunks[k]] == k)
    }

    /** The chunks have room for n rows. */
    ghost predicate Room(n: nat)
      reads `chunks
    {
      if rowStride == 0 then chunks == [] else n <= Times(|chunks|, chunkRows)
    }

    ghost predicate Ticked(n: nat)
      reads `ticks, `colAgg
    {
      && |ticks| == |cols| == |colAgg|
      && (forall c :: 0 <= c < |ticks| ==> |ticks[c]| == n && BoundsAll(colAgg[c], ticks[c]))
    }

    ghost predicate Valid()
      reads this
    {
      Fixed() && Chunked() && Room(nRows) && Ticked(nRows)
    }

    ghost function Bytes(): (m: Mem)
      reads `chunks, chunks
      ensures |m| == |chunks| && forall k {:trigger m[k]} :: 0 <= k < |m| ==> m[k] == chunks[k][..]
    {
      ContentsOf(chunks)
    }

    lemma RoomReaches(n: nat)
      requires Fixed() && Chunked() && Room(n)
      ensures forall c, r: nat {:trigger Reaches(Geo(), Bytes(), c, r)} :: 0 <= c < |cols| && r < n ==>
        Reaches(Geo(), Bytes(), c, r)
    {
      forall c, r: nat {:trigger Reaches(Geo(), Bytes(), c, r)} | 0 <= c < |cols| && r < n
        ensures Reaches(Geo(), Bytes(), c, r)
      {
        if rowStride != 0 {
          QuotBelow(r, |chunks|, chunkRows);
        }
      }
    }

    lemma HoldsRows()
      requires Valid()
      ensures Holds(Geo(), Bytes(), ticks, nRows) && Whole(Geo(), Bytes())
    {
      RoomReaches(nRows);
    }

    lemma ReachesRow(r: nat)
      requires Valid() && r < nRows
      ensures AllReach(Geo(), Bytes(), r)
    {
      RoomReaches(nRows);
    }

    /** The rows the table holds, oldest position first. */
    ghost function Rows(): (rows: seq<Row>)
      requires Valid()
      reads this, chunks
      ensures |rows| == nRows && forall r :: 0 <= r < nRows ==> |rows[r]| == |cols|
    {
      HoldsRows();
      RowsOf(Geo(), Bytes(), ticks, nRows)
    }

    /** NewTable. A chunk size of zero or less asks for the default; a row must fit in
        a chunk. */
    constructor (specs: seq<ColumnSpec>, requested: int)
      requires forall c :: c in specs ==> GoAligned(c)
      requires forall c, d :: 0 <= c < d < |specs| ==> specs[c].id != specs[d].id
      requires SumSize(specs) <= (if requested <= 0 then DEFAULT_CHUNK_SIZE else requested)
      ensures Valid() && Rows() == [] && cols == specs && chunks == []
      ensures rowStride == SumSize(specs)
      ensures chunkSize == if requested <= 0 then 16384 else requested
      ensures chunkRows == if SumSize(specs) == 0 then 1024 else chunkSize / SumSize(specs)
      ensures forall c {:trigger cols[c]} :: 0 <= c < |cols| ==> Multiple(Geo().off[c], cols[c].align)
    {
      var size: nat := if requested <= 0 then DEFAULT_CHUNK_SIZE else requested;
      var byID := IndexByID(specs);
      var sorted, place, layout := Arrange(specs, size);
      SumIsZero(specs);
      cols, colByID, sortedCols, publicToSorted := specs, byID, sorted, place;
      chunkSize, chunkRows, rowStride, sortedOffset := size, layout.chunkRows, layout.rowStride, layout.offsets;
      chunks, slot, nRows := [], map[], 0;
      ticks := seq(|specs|, _ => []);
      colAgg := seq(|specs|, _ => NO_TICKS);
    }

    /** `columnRowBytes` and the copy into it. */
    method Store(c: nat, row: nat, src: seq<Byte>)
      requires Fixed() && Chunked() && c < |cols| && |src| == cols[c].size
      requires Reaches(Geo(), Bytes(), c, row)
      modifies chunks
      ensures Bytes() == Written(Geo(), old(Bytes()), c, row, src)
    {
      if cols[c].size == 0 {
        assert Bytes() == old(Bytes());
        return;
      }
      var chunkIdx, rowInChunk := QuotRem(row, chunkRows);
      var offset := Product(rowInChunk, cols[c].size);
      var off := sortedOffset[publicToSorted[c]] + offset;
      CellInside(Geo(), c, rowInChunk);
      var chunk := chunks[chunkIdx];
      CopyBytes(chunk, off, src);
      ghost var want := Written(Geo(), old(Bytes()), c, row, src);
      forall k | 0 <= k < |chunks|
        ensures Bytes()[k] == want[k]
      {
        if k == chunkIdx {
          assert old(Bytes())[k] == old(chunk[..]);
        } else {
          assert chunks[k] != chunk;
          assert chunks[k][..] == old(chunks[k][..]) == old(Bytes())[k];
        }
      }
    }

    /** The bytes of a cell. */
    method Load(c: nat, row: nat) returns (b: seq<Byte>)
      requires Fixed() && Chunked() && c < |cols| && Reaches(Geo(), Bytes(), c, row)
      ensures b == CellOf(Geo(), Bytes(), c, row)
    {
      if cols[c].size == 0 {
        return [];
      }
      var chunkIdx, rowInChunk := QuotRem(row, chunkRows);
      var offset := Product(rowInChunk, cols[c].size);
      var off := sortedOffset[publicToSorted[c]] + offset;
      CellInside(Geo(), c, rowInChunk);
      b := chunks[chunkIdx][off..off + cols[c].size];
    }

    /** `allocChunk`: one more chunk of zero bytes, unless every column is a tag. */
    method AllocChunk()
      requires Fixed() && Chunked()
      modifies this`chunks, this`slot
      ensures Fixed() && Chunked() && old(chunks) <= chunks
      ensures forall k :: |old(chunks)| <= k < |chunks| ==> fresh(chunks[k])
      ensures if rowStride == 0 then chunks == old(chunks) else |chunks| == |old(chunks)| + 1
      ensures Bytes()[..|old(chunks)|] == old(Bytes())
    {
      if rowStride == 0 {
        assert Bytes()[..|chunks|] == Bytes();
        return;
      }
      var chunk := new Byte[chunkSize](_ => 0);
      slot := slot[chunk := |chunks|];
      chunks := chunks + [chunk];
    }

    /** The column of `id` exists and takes the value: tags take any, others their own type. */
    ghost predicate Takes(id: nat, v: Value)
      requires Fixed()
    {
      id in colByID && (cols[colByID[id]].size == 0 || v.typ == cols[colByID[id]].typ)
    }

    /** That is, some column has that ID and takes the value. */
    lemma TakesIff(id: nat, v: Value)
      requires Fixed()
      ensures Takes(id, v) <==>
        exists c :: 0 <= c < |cols| && cols[c].id == id && (cols[c].size == 0 || v.typ == cols[c].typ)
    {
      assert id in colByID ==> cols[colByID[id]].id == id;
    }

    /** A value of a column's type has as many bytes as the column's cells. */
    ghost predicate Typed(values: map<nat, Value>)
      requires Fixed()
    {
      forall id :: id in values && id in colByID && values[id].typ == cols[colByID[id]].typ ==>
        |values[id].bytes| == cols[colByID[id]].size
    }

    /** The values their columns take. */
    ghost function Accepted(values: map<nat, Value>): (good: map<nat, Value>)
      requires Fixed()
      ensures forall id :: id in good <==> id in values && Takes(id, values[id])
      ensures forall id :: id in good ==> good[id] == values[id]
      ensures Typed(values) ==> Fit(Geo(), colByID, good)
    {
      map id | id in values && Takes(id, values[id]) :: values[id]
    }

    /** What a panicking AddRow leaves: the row is counted and has bytes, but no tick
        slots; the n rows from before are as they were. */
    ghost predicate Unfinished(rows: seq<Row>, slots: seq<seq<ComponentTicks>>, values: map<nat, Value>)
      reads this, chunks
    {
      && Fixed() && Chunked() && Room(nRows) && ticks == slots && nRows == |rows| + 1
      && Holds(Geo(), Bytes(), ticks, |rows|) && RowsOf(Geo(), Bytes(), ticks, |rows|) == rows
      && PartRow(Geo(), Bytes(), |rows|, values)
    }

    lemma LeavesPart(mem0: Mem, mem1: Mem, n: nat, values: map<nat, Value>, done: seq<nat>)
      requires Fixed() && Chunked() && Room(nRows) && nRows == n + 1 && Holds(Geo(), mem0, ticks, n)
      requires |mem0| <= |mem1| && mem1[..|mem0|] == mem0
      requires FilledBytes(Geo(), mem1, Bytes(), n, colByID, Accepted(values), done)
      ensures Unfinished(RowsOf(Geo(), mem0, ticks, n), ticks, values)
    {
      RoomReaches(nRows);
      AddedIsPartRow(Geo(), mem0, mem1, Bytes(), ticks, n, colByID, values, Accepted(values), done);
    }

    lemma LeavesRow(mem0: Mem, mem1: Mem, ticks0: seq<seq<ComponentTicks>>, n: nat, values: map<nat, Value>,
                    done: seq<nat>)
      requires Valid() && nRows == n + 1 && Holds(Geo(), mem0, ticks0, n) && Whole(Geo(), mem0)
      requires |mem0| <= |mem1| && mem1[..|mem0|] == mem0
      requires Accepted(values) == values && forall id :: id in values ==> id in done
      requires FilledBytes(Geo(), mem1, Bytes(), n, colByID, values, done)
      requires forall c :: 0 <= c < |cols| ==> ticks[c] == ticks0[c] + [UNSTAMPED]
      ensures Rows() == RowsOf(Geo(), mem0, ticks0, n) + [NewRow(cols, values)]
    {
      HoldsRows();
      AddedIsNewRow(Geo(), mem0, mem1, Bytes(), ticks0, ticks, n, colByID, values, done);
    }

    lemma ShortTicks(n: nat)
      requires Fixed() && Chunked() && Room(nRows) && nRows == n + 1 && Ticked(n)
      ensures Valid() <==> cols == []
    {
      if cols != [] {
        assert |ticks[0]| != nRows;
      }
    }

    /** A chunk is added when the rows held fill those there are. */
    method GrowFor(row: nat)
      requires Fixed() && Chunked() && Room(row)
      modifies this`chunks, this`slot
      ensures Fixed() && Chunked() && Room(row + 1) && old(chunks) <= chunks
      ensures forall k :: 0 <= k < |chunks| ==> chunks[k] in old(chunks) || fresh(chunks[k])
      ensures forall k :: |old(chunks)| <= k < |chunks| ==> fresh(chunks[k])
      ensures if rowStride == 0 || Times(|old(chunks)|, chunkRows) > row then chunks == old(chunks)
        else |chunks| == |old(chunks)| + 1
      ensures |old(chunks)| <= |Bytes()| && Bytes()[..|old(chunks)|] == old(Bytes())
    {
      var capacity := Product(|chunks|, chunkRows);
      if row >= capacity {
        AllocChunk();
      } else {
        assert Bytes()[..|chunks|] == Bytes();
      }
    }

    /** One more row is counted, once there is room for it. */
    method CountRow() returns (ghost mem1: Mem)
      requires Valid()
      modifies this`nRows, this`chunks, this`slot
      ensures Fixed() && Chunked() && Room(nRows) && nRows == old(nRows) + 1 && AllReach(Geo(), Bytes(), old(nRows))
      ensures mem1 == Bytes() && |old(chunks)| <= |mem1| && mem1[..|old(chunks)|] == old(Bytes())
      ensures old(chunks) <= chunks && forall k :: |old(chunks)| <= k < |chunks| ==> fresh(chunks[k])
      ensures if rowStride == 0 || Times(|old(chunks)|, chunkRows) > old(nRows) then chunks == old(chunks)
        else |chunks| == |old(chunks)| + 1
    {
      GrowFor(nRows);
      mem1 := Bytes();
      nRows := nRows + 1;
      RoomReaches(nRows);
    }

    /** The bytes of the next column are zeroed at `row`; a tag has none. */
    method ZeroCell(ghost mem: Mem, c: nat, row: nat)
      requires Fixed() && Chunked() && c < |cols| && Whole(Geo(), mem) && AllReach(Geo(), mem, row)
      requires Bytes() == Zeroed(Geo(), mem, row, c)
      modifies chunks
      ensures Bytes() == Zeroed(Geo(), mem, row, c + 1)
    {
      ZeroedNext(Geo(), mem, Bytes(), row, c);
      if cols[c].size != 0 {
        Store(c, row, Zeros(cols[c].size));
      }
    }

    /** The bytes of every column are zeroed at `row`. */
    method FillZeros(row: nat)
      requires Fixed() && Chunked() && AllReach(Geo(), Bytes(), row)
      modifies chunks
      ensures Bytes() == Zeroed(Geo(), old(Bytes()), row, |cols|)
    {
      ghost var mem := Bytes();
      for i := 0 to |cols|
        invariant Bytes() == Zeroed(Geo(), mem, row, i)
      {
        ZeroCell(mem, i, row);
      }
    }

    /** The supplied values are stored, in the order of `done`, up to the first that no
        column takes. */
    method FillValues(row: nat, values: map<nat, Value>) returns (panicked: bool, ghost done: seq<nat>)
      requires Fixed() && Chunked() && AllReach(Geo(), Bytes(), row) && Typed(values)
      modifies chunks
      ensures panicked <==> exists id :: id in values && !Takes(id, values[id])
      ensures forall id :: id in done ==> id in Accepted(values)
      ensures Bytes() == Stored(Geo(), old(Bytes()), row, colByID, Accepted(values), done)
      ensures !panicked ==> Accepted(values) == values && forall id :: id in values ==> id in done
    {
      ghost var g, mem, good := Geo(), Bytes(), Accepted(values);
      var left := values.Keys;
      done := [];
      while left != {}
        invariant left <= values.Keys && (forall id :: id in done ==> id in good)
        invariant forall id :: id in values ==> id in left || id in done
        invariant Bytes() == Stored(g, mem, row, colByID, good, done)
        decreases left
      {
        var id :| id in left;
        if id !in colByID || (cols[colByID[id]].size != 0 && values[id].typ != cols[colByID[id]].typ) {
          assert !Takes(id, values[id]);
          return true, done;
        }
        assert id in good && Reaches(g, Bytes(), colByID[id], row);
        if cols[colByID[id]].size != 0 {
          Store(colByID[id], row, values[id].bytes);
        }
        assert (done + [id])[..|done|] == done;
        done := done + [id];
        left := left - {id};
      }
      panicked := false;
    }

    /** The new row's bytes: zeros first, then the supplied values on top. */
    method FillCells(row: nat, values: map<nat, Value>) returns (panicked: bool, ghost done: seq<nat>)
      requires Fixed() && Chunked() && AllReach(Geo(), Bytes(), row) && Typed(values)
      modifies chunks
      ensures panicked <==> exists id :: id in values && !Takes(id, values[id])
      ensures FilledBytes(Geo(), old(Bytes()), Bytes(), row, colByID, Accepted(values), done)
      ensures !panicked ==> Accepted(values) == values && forall id :: id in values ==> id in done
    {
      FillZeros(row);
      panicked, done := FillValues(row, values);
    }

    method AddTickSlots()
      requires Fixed() && |ticks| == |cols|
      modifies this`ticks
      ensures |ticks| == |cols| && forall c :: 0 <= c < |cols| ==> ticks[c] == old(ticks)[c] + [UNSTAMPED]
    {
      for col := 0 to |cols|
        invariant |ticks| == |cols|
        invariant forall c :: 0 <= c < |cols| ==>
          ticks[c] == if c < col then old(ticks)[c] + [UNSTAMPED] else old(ticks)[c]
      {
        ticks := ticks[col := ticks[col] + [UNSTAMPED]];
      }
    }

    /** AddRow, told in bytes and tick slots: `mem1` is the chunks with room made. */
    method AddCells(values: map<nat, Value>) returns (panicked: bool, ghost mem1: Mem, ghost done: seq<nat>)
      requires Valid() && Typed(values)
      modifies this`nRows, this`ticks, this`chunks, this`slot, chunks
      ensures panicked <==> exists id :: id in values && !Takes(id, values[id])
      ensures Fixed() && Chunked() && Room(nRows) && nRows == old(nRows) + 1
      ensures |old(chunks)| <= |mem1| && mem1[..|old(chunks)|] == old(Bytes())
      ensures FilledBytes(Geo(), mem1, Bytes(), old(nRows), colByID, Accepted(values), done)
      ensures !panicked ==> Valid() && Accepted(values) == values && forall id :: id in values ==> id in done
      ensures panicked ==> ticks == old(ticks)
      ensures !panicked ==> forall c :: 0 <= c < |cols| ==> ticks[c] == old(ticks)[c] + [UNSTAMPED]
      ensures old(chunks) <= chunks && forall k :: |old(chunks)| <= k < |chunks| ==> fresh(chunks[k])
      ensures if rowStride == 0 || Times(|old(chunks)|, chunkRows) > old(nRows) then chunks == old(chunks)
        else |chunks| == |old(chunks)| + 1
    {
      var row := nRows;
      mem1 := CountRow();
      panicked, done := FillCells(row, values);
      if !panicked {
        AddTickSlots();
      }
    }

    /** AddRow: the supplied values, zeros elsewhere, and an unstamped tick slot in
        every column. It panics exactly when it is given a value no column takes. */
    method AddRow(values: map<nat, Value>) returns (panicked: bool, row: nat)
      requires Valid() && Typed(values)
      modifies this, chunks
      ensures panicked <==> exists id :: id in values && !Takes(id, values[id])
      ensures !panicked ==> Valid() && row == |old(Rows())| && Rows() == old(Rows()) + [NewRow(cols, values)]
      ensures panicked ==> Unfinished(old(Rows()), old(ticks), values) && (Valid() <==> cols == [])
      ensures old(chunks) <= chunks && forall k :: |old(chunks)| <= k < |chunks| ==> fresh(chunks[k])
      ensures if rowStride == 0 || Times(|old(chunks)|, chunkRows) > old(nRows) then chunks == old(chunks)
        else |chunks| == |old(chunks)| + 1
      ensures Needed(|old(chunks)|, old(nRows), chunkRows) ==> Needed(|chunks|, nRows, chunkRows)
      ensures colAgg == old(colAgg)
    {
      row := nRows;
      ghost var mem0, ticks0 := Bytes(), ticks;
      HoldsRows();
      ghost var mem1, done;
      panicked, mem1, done := AddCells(values);
      if panicked {
        LeavesPart(mem0, mem1, row, values, done);
        ShortTicks(row);
      } else {
        LeavesRow(mem0, mem1, ticks0, row, values, done);
      }
    }

    /** SetCell: one cell's bytes change and nothing else does. */
    method SetCell(col: nat, row: nat, value: Value)
      requires Valid() && col < |cols| && row < nRows && Suits(cols[col], value)
      modifies chunks
      ensures Valid()
      ensures Rows() == if cols[col].size == 0 then old(Rows()) else SetBytes(old(Rows()), row, col, value.bytes)
    {
      RoomReaches(nRows);
      if cols[col].size == 0 {
        return;
      }
      assert Reaches(Geo(), Bytes(), col, row);
      WriteIsSetBytes(Geo(), Bytes(), ticks, nRows, row, col, value.bytes);
      Store(col, row, value.bytes);
    }

    /** The trailing chunk is released when it holds no live row. */
    method DropTrailing()
      requires Fixed() && Chunked() && Room(nRows)
      modifies this`chunks
      ensures Fixed() && Chunked() && Room(nRows)
      ensures chunks == if Rem(nRows, chunkRows) == 0 && Times(|old(chunks)|, chunkRows) > nRows
        then old(chunks)[..|old(chunks)| - 1] else old(chunks)
      ensures Bytes() <= old(Bytes())
    {
      var capacity := Product(|chunks|, chunkRows);
      var q, left := QuotRem(nRows, chunkRows);
      if left == 0 && capacity > nRows && |chunks| > 0 {
        TrailingChunk(nRows, |chunks|, chunkRows);
        chunks := chunks[..|chunks| - 1];
      }
    }

    /** The bytes at `last` have been copied over those at `row` in the first c columns. */
    ghost predicate Moved(mem: Mem, row: nat, last: nat, c: nat)
      reads this, chunks
    {
      && Fixed() && Chunked() && c <= |cols|
      && Whole(Geo(), mem) && AllReach(Geo(), mem, row) && AllReach(Geo(), mem, last)
      && Bytes() == Copied(Geo(), mem, row, last, c)
    }

    /** The next column's bytes at `last` are copied over those at `row`; a tag has none. */
    method MoveCell(ghost mem: Mem, row: nat, last: nat, c: nat)
      requires c < |cols| && Moved(mem, row, last, c)
      modifies chunks
      ensures Moved(mem, row, last, c + 1)
    {
      CopiedNext(Geo(), mem, Bytes(), row, last, c);
      if cols[c].size != 0 {
        var b := Load(c, last);
        Store(c, row, b);
      }
    }

    /** Every column's bytes at `last` are copied over those at `row`. */
    method MoveRow(ghost mem: Mem, row: nat, last: nat)
      requires Moved(mem, row, last, 0)
      modifies chunks
      ensures Moved(mem, row, last, |cols|)
    {
      for i := 0 to |cols|
        invariant Moved(mem, row, last, i)
      {
        MoveCell(mem, row, last, i);
      }
    }

    /** The last row goes over `row`, unless `row` is the last one. */
    method MoveLast(row: nat, last: nat) returns (movedFrom: int)
      requires Fixed() && Chunked() && AllReach(Geo(), Bytes(), row) && AllReach(Geo(), Bytes(), last)
      modifies chunks
      ensures movedFrom == if row == last then -1 else last
      ensures Bytes() == if row == last then old(Bytes()) else Copied(Geo(), old(Bytes()), row, last, |cols|)
    {
      if row == last {
        return -1;
      }
      MoveRow(Bytes(), row, last);
      return last;
    }

    method PopTicks(row: nat, last: nat)
      requires Fixed() && Ticked(last + 1) && row <= last
      modifies this`ticks
      ensures Ticked(last) && forall c :: 0 <= c < |cols| ==> ticks[c] == SwapPop(old(ticks)[c], row)
    {
      for col := 0 to |cols|
        invariant |ticks| == |cols|
        invariant forall c :: 0 <= c < |cols| ==>
          ticks[c] == if c < col then SwapPop(old(ticks)[c], row) else old(ticks)[c]
      {
        var tk := ticks[col];
        if row != last {
          tk := tk[row := tk[last]];
        }
        ticks := ticks[col := tk[..last]];
      }
    }

    /** The last row is no longer counted, nor has it tick slots. */
    method DropRow(row: nat)
      requires Valid() && row < nRows
      modifies this`nRows, this`ticks, this`chunks
      ensures Valid() && nRows == old(nRows) - 1 && Bytes() <= old(Bytes())
      ensures forall c :: 0 <= c < |cols| ==> ticks[c] == SwapPop(old(ticks)[c], row)
      ensures chunks == if Rem(nRows, chunkRows) == 0 && Times(|old(chunks)|, chunkRows) > nRows
        then old(chunks)[..|old(chunks)| - 1] else old(chunks)
    {
      PopTicks(row, nRows - 1);
      nRows := nRows - 1;
      DropTrailing();
    }

    /** RemoveRow, told in bytes and tick slots. */
    method RemoveCells(row: nat) returns (movedFrom: int)
      requires Valid() && row < nRows && Whole(Geo(), Bytes())
      requires AllReach(Geo(), Bytes(), row) && AllReach(Geo(), Bytes(), nRows - 1)
      modifies this`nRows, this`ticks, this`chunks, chunks
      ensures Valid() && nRows == old(nRows) - 1
      ensures movedFrom == if row == nRows then -1 else nRows
      ensures RemovedBytes(Geo(), old(Bytes()), Bytes(), old(nRows), row)
      ensures forall c :: 0 <= c < |cols| ==> ticks[c] == SwapPop(old(ticks)[c], row)
      ensures chunks == if Rem(nRows, chunkRows) == 0 && Times(|old(chunks)|, chunkRows) > nRows
        then old(chunks)[..|old(chunks)| - 1] else old(chunks)
    {
      movedFrom := MoveLast(row, nRows - 1);
      DropRow(row);
    }

    lemma LeavesPopped(mem0: Mem, ticks0: seq<seq<ComponentTicks>>, n: nat, row: nat)
      requires Valid() && nRows == n - 1 && row < n && Holds(Geo(), mem0, ticks0, n)
      requires RemovedBytes(Geo(), mem0, Bytes(), n, row)
      requires forall c :: 0 <= c < |cols| ==> ticks[c] == SwapPop(ticks0[c], row)
      ensures Rows() == SwapPop(RowsOf(Geo(), mem0, ticks0, n), row)
    {
      HoldsRows();
      RemovedIsSwapPop(Geo(), mem0, Bytes(), ticks0, ticks, n, row);
    }

    /** RemoveRow: swap-and-pop of bytes and ticks, then release of a trailing chunk
        that holds no live row. The result is the index the moved row came from. */
    method RemoveRow(row: nat) returns (movedFrom: int)
      requires Valid() && row < nRows
      modifies this, chunks
      ensures Valid() && colAgg == old(colAgg)
      ensures Rows() == SwapPop(old(Rows()), row)
      ensures movedFrom == if row == old(nRows) - 1 then -1 else old(nRows) - 1
      ensures Needed(|old(chunks)|, old(nRows), chunkRows) ==> Needed(|chunks|, nRows, chunkRows)
      ensures chunks == if Rem(nRows, chunkRows) == 0 && Times(|old(chunks)|, chunkRows) > nRows
        then old(chunks)[..|old(chunks)| - 1] else old(chunks)
    {
      ghost var mem0, ticks0, n, len := Bytes(), ticks, nRows, |chunks|;
      HoldsRows();
      ReachesRow(row);
      ReachesRow(n - 1);
      movedFrom := RemoveCells(row);
      LeavesPopped(mem0, ticks0, n, row);
      if Needed(len, n, chunkRows) {
        NeededStays(len, nRows, chunkRows);
      }
    }

    /** Reset: no rows and fresh aggregates, every chunk retained. */
    method Reset()
      requires Valid()
      modifies this`nRows, this`ticks, this`colAgg
      ensures Valid() && Rows() == []
      ensures forall c :: 0 <= c < |cols| ==> colAgg[c] == NO_TICKS
    {
      nRows := 0;
      for col := 0 to |cols|
        invariant |ticks| == |cols| == |colAgg| && nRows == 0
        invariant forall c :: 0 <= c < col ==> ticks[c] == [] && colAgg[c] == NO_TICKS
      {
        ticks := ticks[col := ticks[col][..0]];
        colAgg := colAgg[col := NO_TICKS];
      }
    }

    /** The three stamping operations overwrite one tick slot and fold it into the
        column's aggregate. */
    method Stamp(col: nat, row: nat, ct: ComponentTicks)
      requires Valid() && col < |cols| && row < nRows
      modifies this`ticks, this`colAgg
      ensures Valid() && Rows() == SetTicks(old(Rows()), row, col, ct)
      ensures colAgg == old(colAgg)[col := old(colAgg)[col].Observe(ct)]
    {
      RoomReaches(nRows);
      StampIsSetTicks(Geo(), Bytes(), ticks, nRows, row, col, ct);
      ticks := ticks[col := ticks[col][row := ct]];
      colAgg := colAgg[col := colAgg[col].Observe(ct)];
      assert Bytes() == old(Bytes());
    }

    method StampAddedByID(id: nat, row: nat, tick: Tick) returns (ok: bool)
      requires Valid() && (id in colByID ==> row < nRows)
      modifies this`ticks, this`colAgg
      ensures Valid() && ok == (id in colByID)
      ensures Rows() == if ok then SetTicks(old(Rows()), row, colByID[id], NewTicks(tick)) else old(Rows())
      ensures ok ==> var t := Rows()[row][colByID[id]].ticks;
        && t.added == tick && t.changed == tick
        && forall last: Tick :: (t.IsAdded(last) <==> last < tick) && (t.IsChanged(last) <==> last < tick)
    {
      if id !in colByID {
        return false;
      }
      Stamp(colByID[id], row, NewTicks(tick));
      return true;
    }

    method StampChangedByID(id: nat, row: nat, tick: Tick) returns (ok: bool)
      requires Valid() && (id in colByID ==> row < nRows)
      modifies this`ticks, this`colAgg
      ensures Valid() && ok == (id in colByID)
      ensures Rows() ==
        if ok then SetTicks(old(Rows()), row, colByID[id], old(Rows())[row][colByID[id]].ticks.SetChanged(tick))
        else old(Rows())
      ensures ok ==> var was, t := old(Rows())[row][colByID[id]].ticks, Rows()[row][colByID[id]].ticks;
        && t.added == was.added && t.changed == tick
        && forall last: Tick :: (t.IsAdded(last) <==> was.IsAdded(last)) && (t.IsChanged(last) <==> last < tick)
    {
      if id !in colByID {
        return false;
      }
      RoomReaches(nRows);
      var col := colByID[id];
      Stamp(col, row, ticks[col][row].SetChanged(tick));
      return true;
    }

    method SetTicksByID(id: nat, row: nat, ct: ComponentTicks) returns (ok: bool)
      requires Valid() && (id in colByID ==> row < nRows)
      modifies this`ticks, this`colAgg
      ensures Valid() && ok == (id in colByID)
      ensures Rows() == if ok then SetTicks(old(Rows()), row, colByID[id], ct) else old(Rows())
    {
      if id !in colByID {
        return false;
      }
      Stamp(colByID[id], row, ct);
      return true;
    }

    /** The aggregate lets a query skip a column without missing a row. */
    lemma SkipColumn(c: nat, last: Tick)
      requires Valid() && c < |cols|
      ensures !colAgg[c].MayHaveChanged(last) ==> forall r :: 0 <= r < nRows ==> !Rows()[r][c].ticks.IsChanged(last)
      ensures !colAgg[c].MayHaveAdded(last) ==> forall r :: 0 <= r < nRows ==> !Rows()[r][c].ticks.IsAdded(last)
    {
      RoomReaches(nRows);
      SkipIsSound(colAgg[c], ticks[c], last);
    }
  }
}
