/** What a table means: a sequence of rows, each one cell per column. */
module TableSpec {
  import opened Arith
  import opened Layout
  import opened Geometry
  import opened Ticks

  /** A component value: its Go type and its bytes. */
  datatype Value = Value(typ: nat, bytes: seq<Byte>)

  datatype Cell = Cell(bytes: seq<Byte>, ticks: ComponentTicks)

  type Row = seq<Cell>

  function Zeros(n: nat): (z: seq<Byte>)
    ensures |z| == n && forall i :: 0 <= i < n ==> z[i] == 0
  {
    seq<Byte>(n, _ => 0)
  }

  // ----- the operations on rows -----

  function Initial(spec: ColumnSpec, values: map<nat, Value>): seq<Byte>
  {
    if spec.size > 0 && spec.id in values then values[spec.id].bytes else Zeros(spec.size)
  }

  /** A row from the values supplied; a component not supplied is zero. */
  function NewRow(cols: seq<ColumnSpec>, values: map<nat, Value>): (r: Row)
    ensures |r| == |cols|
    ensures forall c :: 0 <= c < |cols| ==> r[c] == Cell(Initial(cols[c], values), UNSTAMPED)
  {
    seq(|cols|, c requires 0 <= c < |cols| => Cell(Initial(cols[c], values), UNSTAMPED))
  }

  /** Each of its cells is unstamped, and has the bytes supplied or as many zeros. */
  lemma NewRowCells(cols: seq<ColumnSpec>, values: map<nat, Value>, c: nat)
    requires c < |cols|
    ensures var cell := NewRow(cols, values)[c];
      && cell.ticks.added == 0 && cell.ticks.changed == 0
      && (cols[c].size > 0 && cols[c].id in values ==> cell.bytes == values[cols[c].id].bytes)
      && (cols[c].id !in values ==> |cell.bytes| == cols[c].size && forall i :: 0 <= i < cols[c].size ==>
        cell.bytes[i] == 0)
  {
  }

  /** Swap-and-pop: the last row takes the place of the removed one. */
  function SwapPop<T>(rows: seq<T>, row: nat): (r: seq<T>)
    requires row < |rows|
    ensures |r| == |rows| - 1
    ensures forall i :: 0 <= i < |r| ==> r[i] == if i == row then rows[|rows| - 1] else rows[i]
  {
    rows[row := rows[|rows| - 1]][..|rows| - 1]
  }

  /** Swap-and-pop loses the removed row and nothing else. */
  lemma SwapPopRemovesOne<T>(rows: seq<T>, row: nat)
    requires row < |rows|
    ensures multiset(rows) == multiset(SwapPop(rows, row)) + multiset{rows[row]}
  {
    var last := |rows| - 1;
    assert rows == rows[..last] + [rows[last]];
    if row == last {
      assert SwapPop(rows, row) == rows[..last];
    } else {
      var x, y := rows[row], rows[last];
      assert rows[..last] == rows[..row] + [x] + rows[row + 1..last];
      assert SwapPop(rows, row) == rows[..row] + [y] + rows[row + 1..last];
      assert multiset(rows) == multiset(rows[..row]) + multiset{x} + multiset(rows[row + 1..last]) + multiset{y};
    }
  }

  /** Rows `rows'` differ from `rows` in at most one cell. */
  ghost predicate OnlyCell(rows: seq<Row>, rows': seq<Row>, row: nat, c: nat)
    requires row < |rows| && c < |rows[row]|
  {
    && |rows'| == |rows| && (forall i :: 0 <= i < |rows| && i != row ==> rows'[i] == rows[i])
    && |rows'[row]| == |rows[row]| && (forall k :: 0 <= k < |rows[row]| && k != c ==> rows'[row][k] == rows[row][k])
  }

  function SetBytes(rows: seq<Row>, row: nat, c: nat, bytes: seq<Byte>): (rows': seq<Row>)
    requires row < |rows| && c < |rows[row]|
    ensures OnlyCell(rows, rows', row, c)
    ensures rows'[row][c].bytes == bytes && rows'[row][c].ticks == rows[row][c].ticks
  {
    rows[row := rows[row][c := rows[row][c].(bytes := bytes)]]
  }

  function SetTicks(rows: seq<Row>, row: nat, c: nat, ct: ComponentTicks): (rows': seq<Row>)
    requires row < |rows| && c < |rows[row]|
    ensures OnlyCell(rows, rows', row, c)
    ensures rows'[row][c].ticks == ct && rows'[row][c].bytes == rows[row][c].bytes
  {
    rows[row := rows[row][c := rows[row][c].(ticks := ct)]]
  }

  // ----- the rows a table holds -----

  /** The chunks are whole and have room for n rows; every column has n tick slots. */
  ghost predicate Holds(g: Geometry, mem: Mem, ticks: seq<seq<ComponentTicks>>, n: nat)
  {
    && Sound(g)
    && (forall c, r: nat {:trigger Reaches(g, mem, c, r)} :: 0 <= c < |g.cols| && r < n ==> Reaches(g, mem, c, r))
    && |ticks| == |g.cols| && (forall c :: 0 <= c < |ticks| ==> |ticks[c]| == n)
  }

  ghost function RowAt(g: Geometry, mem: Mem, ticks: seq<seq<ComponentTicks>>, n: nat, r: nat): (row: Row)
    requires Holds(g, mem, ticks, n) && r < n
    ensures |row| == |g.cols|
    ensures forall c :: 0 <= c < |row| ==> row[c] == Cell(CellOf(g, mem, c, r), ticks[c][r])
  {
    seq(|g.cols|, c requires 0 <= c < |g.cols| => Cell(CellOf(g, mem, c, r), ticks[c][r]))
  }

  ghost function RowsOf(g: Geometry, mem: Mem, ticks: seq<seq<ComponentTicks>>, n: nat): (rows: seq<Row>)
    requires Holds(g, mem, ticks, n)
    ensures |rows| == n && forall r {:trigger rows[r]} :: 0 <= r < n ==> rows[r] == RowAt(g, mem, ticks, n, r)
  {
    seq(n, r requires 0 <= r < n => RowAt(g, mem, ticks, n, r))
  }

  /** Below row n, `mem'` holds the cells `mem` holds. */
  ghost predicate SameCells(g: Geometry, mem: Mem, mem': Mem, n: nat)
    requires Sound(g)
  {
    forall c, r: nat {:trigger CellOf(g, mem', c, r)} ::
      0 <= c < |g.cols| && r < n && Reaches(g, mem, c, r) && Reaches(g, mem', c, r) ==>
      CellOf(g, mem', c, r) == CellOf(g, mem, c, r)
  }

  /** A cell of chunks that are kept. */
  lemma PrefixCell(g: Geometry, mem: Mem, mem': Mem, c: nat, r: nat)
    requires Sound(g) && mem' <= mem && c < |g.cols| && Reaches(g, mem', c, r) && Reaches(g, mem, c, r)
    ensures CellOf(g, mem', c, r) == CellOf(g, mem, c, r)
  {
    if g.cols[c].size > 0 {
      assert mem[..|mem'|][Quot(r, g.rows)] == mem[Quot(r, g.rows)];
    }
  }

  /** Chunks added at the end leave every cell as it was. */
  lemma GrownCells(g: Geometry, mem: Mem, mem': Mem, n: nat)
    requires Sound(g) && |mem| <= |mem'| && mem'[..|mem|] == mem
    ensures SameCells(g, mem, mem', n)
  {
    forall c, r: nat {:trigger CellOf(g, mem', c, r)} | 0 <= c < |g.cols| && r < n && Reaches(g, mem, c, r) &&
      Reaches(g, mem', c, r)
      ensures CellOf(g, mem', c, r) == CellOf(g, mem, c, r)
    {
      PrefixCell(g, mem', mem, c, r);
    }
  }

  ghost predicate AllReach(g: Geometry, mem: Mem, row: nat)
    requires g.rows >= 1
  {
    forall c {:trigger Reaches(g, mem, c, row)} :: 0 <= c < |g.cols| ==> Reaches(g, mem, c, row)
  }

  /** The bytes of one row, column by column. */
  ghost function CellsAt(g: Geometry, mem: Mem, row: nat): (cells: seq<seq<Byte>>)
    requires Sound(g) && AllReach(g, mem, row)
    ensures |cells| == |g.cols|
    ensures forall c {:trigger cells[c]} :: 0 <= c < |cells| ==>
      Reaches(g, mem, c, row) && cells[c] == CellOf(g, mem, c, row)
  {
    seq(|g.cols|, c requires 0 <= c < |g.cols| => CellOf(g, mem, c, row))
  }

  ghost predicate Whole(g: Geometry, mem: Mem)
  {
    forall k :: 0 <= k < |mem| ==> |mem[k]| == g.size
  }

  lemma StillReaches(g: Geometry, mem: Mem, mem': Mem, row: nat)
    requires g.rows >= 1 && AllReach(g, mem, row) && |mem'| == |mem| && Whole(g, mem')
    ensures AllReach(g, mem', row)
  {
    forall c {:trigger Reaches(g, mem', c, row)} | 0 <= c < |g.cols|
      ensures Reaches(g, mem', c, row)
    {
      assert Reaches(g, mem, c, row);
    }
  }

  /** The chunks once the first i columns have been zeroed at `row`. */
  ghost function Zeroed(g: Geometry, mem: Mem, row: nat, i: nat): (m: Mem)
    requires Sound(g) && Whole(g, mem) && AllReach(g, mem, row) && i <= |g.cols|
    ensures |m| == |mem| && Whole(g, m) && AllReach(g, m, row)
  {
    if i == 0 then mem
    else
      var m := Zeroed(g, mem, row, i - 1);
      assert Reaches(g, m, i - 1, row);
      var w := Written(g, m, i - 1, row, Zeros(g.cols[i - 1].size));
      StillReaches(g, m, w, row);
      w
  }

  lemma ZeroedNext(g: Geometry, mem: Mem, m: Mem, row: nat, i: nat)
    requires Sound(g) && Whole(g, mem) && AllReach(g, mem, row) && i < |g.cols| && m == Zeroed(g, mem, row, i)
    ensures Reaches(g, m, i, row)
    ensures Zeroed(g, mem, row, i + 1) == Written(g, m, i, row, Zeros(g.cols[i].size))
  {
    assert Reaches(g, m, i, row);
  }

  /** Zeroing changes the first i cells at `row` and no other. */
  lemma {:induction false} ZeroedCell(g: Geometry, mem: Mem, row: nat, i: nat, c: nat, r: nat)
    requires Sound(g) && Whole(g, mem) && AllReach(g, mem, row) && i <= |g.cols|
    requires c < |g.cols| && Reaches(g, mem, c, r)
    ensures Reaches(g, Zeroed(g, mem, row, i), c, r)
    ensures CellOf(g, Zeroed(g, mem, row, i), c, r) ==
      if r == row && c < i then Zeros(g.cols[c].size) else CellOf(g, mem, c, r)
  {
    if i > 0 {
      var m := Zeroed(g, mem, row, i - 1);
      ZeroedCell(g, mem, row, i - 1, c, r);
      ZeroedNext(g, mem, m, row, i - 1);
      WriteReads(g, m, i - 1, row, Zeros(g.cols[i - 1].size), c, r);
    }
  }

  /** `values` go with `cols`, found through `byID`. */
  ghost predicate Fit(g: Geometry, byID: map<nat, nat>, values: map<nat, Value>)
  {
    forall id {:trigger id in values} :: id in values ==>
      && id in byID && byID[id] < |g.cols| && g.cols[byID[id]].id == id
      && (g.cols[byID[id]].size == 0 || |values[id].bytes| == g.cols[byID[id]].size)
  }

  /** The bytes a value puts in its column; a tag has none. */
  function ValueBytes(spec: ColumnSpec, v: Value): seq<Byte>
  {
    if spec.size == 0 then [] else v.bytes
  }

  /** The chunks once the values of `done` have been stored at `row`, in that order. */
  ghost function Stored(g: Geometry, mem: Mem, row: nat, byID: map<nat, nat>, values: map<nat, Value>,
                        done: seq<nat>): (m: Mem)
    requires Sound(g) && Whole(g, mem) && AllReach(g, mem, row) && Fit(g, byID, values)
    requires forall id :: id in done ==> id in values
    ensures |m| == |mem| && Whole(g, m) && AllReach(g, m, row)
  {
    if done == [] then mem
    else
      var id := done[|done| - 1];
      var m := Stored(g, mem, row, byID, values, done[..|done| - 1]);
      assert id in values && Reaches(g, m, byID[id], row);
      var w := Written(g, m, byID[id], row, ValueBytes(g.cols[byID[id]], values[id]));
      StillReaches(g, m, w, row);
      w
  }

  lemma StoredNext(g: Geometry, mem: Mem, row: nat, byID: map<nat, nat>, values: map<nat, Value>, done: seq<nat>)
    requires Sound(g) && Whole(g, mem) && AllReach(g, mem, row) && Fit(g, byID, values)
    requires done != [] && forall id :: id in done ==> id in values
    ensures var front, id := done[..|done| - 1], done[|done| - 1];
      var m := Stored(g, mem, row, byID, values, front);
      && id in values && Reaches(g, m, byID[id], row)
      && |ValueBytes(g.cols[byID[id]], values[id])| == g.cols[byID[id]].size
      && Stored(g, mem, row, byID, values, done) ==
         Written(g, m, byID[id], row, ValueBytes(g.cols[byID[id]], values[id]))
  {
    var id := done[|done| - 1];
    var m := Stored(g, mem, row, byID, values, done[..|done| - 1]);
    assert id in values && Reaches(g, m, byID[id], row);
  }

  /** Storing changes the cells at `row` of the values stored and no other. */
  lemma {:induction false} StoredCell(g: Geometry, mem: Mem, row: nat, byID: map<nat, nat>, values: map<nat, Value>,
                                      done: seq<nat>, c: nat, r: nat)
    requires Sound(g) && Whole(g, mem) && AllReach(g, mem, row) && Fit(g, byID, values)
    requires forall id :: id in done ==> id in values
    requires c < |g.cols| && Reaches(g, mem, c, r)
    requires forall c, d :: 0 <= c < d < |g.cols| ==> g.cols[c].id != g.cols[d].id
    ensures Reaches(g, Stored(g, mem, row, byID, values, done), c, r)
    ensures CellOf(g, Stored(g, mem, row, byID, values, done), c, r) ==
      if r == row && g.cols[c].id in done then ValueBytes(g.cols[c], values[g.cols[c].id]) else CellOf(g, mem, c, r)
  {
    if done != [] {
      var front, id := done[..|done| - 1], done[|done| - 1];
      assert done == front + [id];
      StoredCell(g, mem, row, byID, values, front, c, r);
      StoredNext(g, mem, row, byID, values, done);
      var m := Stored(g, mem, row, byID, values, front);
      WriteReads(g, m, byID[id], row, ValueBytes(g.cols[byID[id]], values[id]), c, r);
    }
  }

  /** One cell once a row has been zeroed and values stored, in any order. */
  lemma FilledCell(g: Geometry, mem: Mem, row: nat, byID: map<nat, nat>, values: map<nat, Value>, done: seq<nat>,
                   c: nat, r: nat)
    requires Sound(g) && Whole(g, mem) && AllReach(g, mem, row) && Fit(g, byID, values)
    requires forall id :: id in done ==> id in values
    requires c < |g.cols| && Reaches(g, mem, c, r)
    requires forall c, d :: 0 <= c < d < |g.cols| ==> g.cols[c].id != g.cols[d].id
    ensures var m := Stored(g, Zeroed(g, mem, row, |g.cols|), row, byID, values, done);
      && Reaches(g, m, c, r)
      && CellOf(g, m, c, r) ==
         if r != row then CellOf(g, mem, c, r)
         else if g.cols[c].id in done then Initial(g.cols[c], values) else Zeros(g.cols[c].size)
  {
    ZeroedCell(g, mem, row, |g.cols|, c, r);
    StoredCell(g, Zeroed(g, mem, row, |g.cols|), row, byID, values, done, c, r);
  }

  /** Zeroing a row and storing values gives the cells of those stored, in any order, and
      zeros elsewhere. */
  lemma FilledCells(g: Geometry, mem0: Mem, mem: Mem, row: nat, byID: map<nat, nat>, values: map<nat, Value>,
                    done: seq<nat>)
    requires Sound(g) && Whole(g, mem) && AllReach(g, mem, row) && Fit(g, byID, values)
    requires forall id :: id in done ==> id in values
    requires |mem0| <= |mem| && SameCells(g, mem0, mem, row)
    requires forall c, d :: 0 <= c < d < |g.cols| ==> g.cols[c].id != g.cols[d].id
    ensures var m := Stored(g, Zeroed(g, mem, row, |g.cols|), row, byID, values, done);
      && SameCells(g, mem0, m, row)
      && forall c {:trigger g.cols[c]} :: 0 <= c < |g.cols| ==>
        CellsAt(g, m, row)[c] == if g.cols[c].id in done then Initial(g.cols[c], values) else Zeros(g.cols[c].size)
  {
    var m := Stored(g, Zeroed(g, mem, row, |g.cols|), row, byID, values, done);
    forall c, r: nat {:trigger CellOf(g, m, c, r)} |
      0 <= c < |g.cols| && r < row && Reaches(g, mem0, c, r) && Reaches(g, m, c, r)
      ensures CellOf(g, m, c, r) == CellOf(g, mem0, c, r)
    {
      assert Reaches(g, mem, c, r);
      FilledCell(g, mem, row, byID, values, done, c, r);
      assert CellOf(g, mem, c, r) == CellOf(g, mem0, c, r);
    }
    forall c | 0 <= c < |g.cols|
      ensures CellsAt(g, m, row)[c] ==
        if g.cols[c].id in done then Initial(g.cols[c], values) else Zeros(g.cols[c].size)
    {
      assert Reaches(g, mem, c, row);
      FilledCell(g, mem, row, byID, values, done, c, row);
    }
  }

  /** The chunks once the first k columns have their bytes at `last` copied to `row`. */
  ghost function Copied(g: Geometry, mem: Mem, row: nat, last: nat, k: nat): (m: Mem)
    requires Sound(g) && Whole(g, mem) && AllReach(g, mem, row) && AllReach(g, mem, last) && k <= |g.cols|
    ensures |m| == |mem| && Whole(g, m) && AllReach(g, m, row) && AllReach(g, m, last)
  {
    if k == 0 then mem
    else
      var m := Copied(g, mem, row, last, k - 1);
      assert Reaches(g, m, k - 1, row) && Reaches(g, m, k - 1, last);
      var w := Written(g, m, k - 1, row, CellOf(g, m, k - 1, last));
      StillReaches(g, m, w, row);
      StillReaches(g, m, w, last);
      w
  }

  lemma CopiedNext(g: Geometry, mem: Mem, m: Mem, row: nat, last: nat, k: nat)
    requires Sound(g) && Whole(g, mem) && AllReach(g, mem, row) && AllReach(g, mem, last) && k < |g.cols|
    requires m == Copied(g, mem, row, last, k)
    ensures Reaches(g, m, k, row) && Reaches(g, m, k, last)
    ensures Copied(g, mem, row, last, k + 1) == Written(g, m, k, row, CellOf(g, m, k, last))
  {
    assert Reaches(g, m, k, row) && Reaches(g, m, k, last);
  }

  /** One more column copied. */
  lemma CopyOne(g: Geometry, mem: Mem, m: Mem, row: nat, last: nat, k: nat, c: nat, r: nat)
    requires Sound(g) && k < |g.cols| && c < |g.cols| && row < last && AllReach(g, m, row) && AllReach(g, m, last)
    requires Reaches(g, m, c, r) && Reaches(g, mem, c, r) && Reaches(g, m, c, last) && Reaches(g, mem, c, last)
    requires CellOf(g, m, c, r) == CellOf(g, mem, c, if r == row && c < k then last else r)
    requires CellOf(g, m, c, last) == CellOf(g, mem, c, last)
    ensures Reaches(g, m, k, row) && Reaches(g, m, k, last)
    ensures var w := Written(g, m, k, row, CellOf(g, m, k, last));
      Reaches(g, w, c, r) && CellOf(g, w, c, r) == CellOf(g, mem, c, if r == row && c < k + 1 then last else r)
  {
    assert Reaches(g, m, k, row) && Reaches(g, m, k, last);
    WriteReads(g, m, k, row, CellOf(g, m, k, last), c, r);
  }

  lemma {:induction false} CopiedCell(g: Geometry, mem: Mem, row: nat, last: nat, k: nat, c: nat, r: nat)
    requires Sound(g) && Whole(g, mem) && AllReach(g, mem, row) && AllReach(g, mem, last) && k <= |g.cols|
    requires c < |g.cols| && Reaches(g, mem, c, r) && row < last
    ensures Reaches(g, Copied(g, mem, row, last, k), c, r) && Reaches(g, mem, c, last)
    ensures CellOf(g, Copied(g, mem, row, last, k), c, r) == CellOf(g, mem, c, if r == row && c < k then last else r)
  {
    assert Reaches(g, mem, c, last);
    if k > 0 {
      var m := Copied(g, mem, row, last, k - 1);
      CopiedCell(g, mem, row, last, k - 1, c, r);
      CopiedCell(g, mem, row, last, k - 1, c, last);
      CopyOne(g, mem, m, row, last, k - 1, c, r);
    }
  }

  /** The last row copied over the removed one, then a prefix of the chunks kept. */
  ghost predicate RemovedBytes(g: Geometry, mem0: Mem, mem2: Mem, n: nat, row: nat)
  {
    && Sound(g) && Whole(g, mem0) && row < n && AllReach(g, mem0, row) && AllReach(g, mem0, n - 1)
    && mem2 <= if row == n - 1 then mem0 else Copied(g, mem0, row, n - 1, |g.cols|)
  }

  lemma RemovedCell(g: Geometry, mem0: Mem, mem2: Mem, n: nat, row: nat, c: nat, r: nat)
    requires RemovedBytes(g, mem0, mem2, n, row)
    requires c < |g.cols| && r < n - 1 && Reaches(g, mem2, c, r) && Reaches(g, mem0, c, r) && Reaches(g, mem0, c, n - 1)
    ensures CellOf(g, mem2, c, r) == CellOf(g, mem0, c, if r == row then n - 1 else r)
  {
    if row < n - 1 {
      CopiedCell(g, mem0, row, n - 1, |g.cols|, c, r);
    }
    PrefixCell(g, if row == n - 1 then mem0 else Copied(g, mem0, row, n - 1, |g.cols|), mem2, c, r);
  }

  /** Copying the last row over `row` and dropping it is swap-and-pop. */
  lemma CopyIsSwapPop(g: Geometry, mem: Mem, mem': Mem, ticks: seq<seq<ComponentTicks>>,
                      ticks': seq<seq<ComponentTicks>>,
                      n: nat, row: nat)
    requires Holds(g, mem, ticks, n) && row < n && Holds(g, mem', ticks', n - 1)
    requires forall c :: 0 <= c < |g.cols| ==> ticks'[c] == SwapPop(ticks[c], row)
    requires forall c, r: nat {:trigger Reaches(g, mem', c, r)} ::
      0 <= c < |g.cols| && r < n - 1 && Reaches(g, mem', c, r) ==>
      Reaches(g, mem, c, r) && Reaches(g, mem, c, n - 1) &&
      CellOf(g, mem', c, r) == CellOf(g, mem, c, if r == row then n - 1 else r)
    ensures RowsOf(g, mem', ticks', n - 1) == SwapPop(RowsOf(g, mem, ticks, n), row)
  {
    var was, now := RowsOf(g, mem, ticks, n), RowsOf(g, mem', ticks', n - 1);
    forall r | 0 <= r < n - 1
      ensures now[r] == SwapPop(was, row)[r]
    {
      forall c | 0 <= c < |g.cols|
        ensures now[r][c] == SwapPop(was, row)[r][c]
      {
        assert Reaches(g, mem', c, r);
        assert ticks'[c][r] == SwapPop(ticks[c], row)[r];
      }
    }
  }

  /** RemoveRow as a whole: copy the last row over the removed one, then keep a prefix
      of the chunks. */
  lemma RemovedIsSwapPop(g: Geometry, mem0: Mem, mem2: Mem, ticks: seq<seq<ComponentTicks>>,
                         ticks': seq<seq<ComponentTicks>>, n: nat, row: nat)
    requires Holds(g, mem0, ticks, n) && row < n && Holds(g, mem2, ticks', n - 1) && RemovedBytes(g, mem0, mem2, n, row)
    requires forall c :: 0 <= c < |g.cols| ==> ticks'[c] == SwapPop(ticks[c], row)
    ensures RowsOf(g, mem2, ticks', n - 1) == SwapPop(RowsOf(g, mem0, ticks, n), row)
  {
    forall c, r: nat {:trigger Reaches(g, mem2, c, r)} | 0 <= c < |g.cols| && r < n - 1 && Reaches(g, mem2, c, r)
      ensures Reaches(g, mem0, c, r) && Reaches(g, mem0, c, n - 1)
      ensures CellOf(g, mem2, c, r) == CellOf(g, mem0, c, if r == row then n - 1 else r)
    {
      assert Reaches(g, mem0, c, r) && Reaches(g, mem0, c, n - 1);
      RemovedCell(g, mem0, mem2, n, row, c, r);
    }
    CopyIsSwapPop(g, mem0, mem2, ticks, ticks', n, row);
  }

  /** A store touches one cell of one row. */
  lemma WriteIsSetBytes(g: Geometry, mem: Mem, ticks: seq<seq<ComponentTicks>>, n: nat, row: nat, c: nat,
                        src: seq<Byte>)
    requires Holds(g, mem, ticks, n) && row < n && c < |g.cols| && |src| == g.cols[c].size
    requires Reaches(g, mem, c, row)
    ensures Holds(g, Written(g, mem, c, row, src), ticks, n)
    ensures RowsOf(g, Written(g, mem, c, row, src), ticks, n) == SetBytes(RowsOf(g, mem, ticks, n), row, c, src)
  {
    var mem' := Written(g, mem, c, row, src);
    forall d, r: nat {:trigger Reaches(g, mem', d, r)} | 0 <= d < |g.cols| && r < n
      ensures Reaches(g, mem', d, r)
    {
      assert Reaches(g, mem, d, r);
    }
    var was, now := RowsOf(g, mem, ticks, n), RowsOf(g, mem', ticks, n);
    forall r | 0 <= r < n
      ensures now[r] == SetBytes(was, row, c, src)[r]
    {
      forall d | 0 <= d < |g.cols|
        ensures now[r][d] == SetBytes(was, row, c, src)[r][d]
      {
        assert Reaches(g, mem, d, r);
        WriteReads(g, mem, c, row, src, d, r);
      }
    }
  }

  /** Stamping touches the ticks of one cell of one row. */
  lemma StampIsSetTicks(g: Geometry, mem: Mem, ticks: seq<seq<ComponentTicks>>, n: nat, row: nat, c: nat,
                        ct: ComponentTicks)
    requires Holds(g, mem, ticks, n) && row < n && c < |g.cols|
    ensures Holds(g, mem, ticks[c := ticks[c][row := ct]], n)
    ensures RowsOf(g, mem, ticks[c := ticks[c][row := ct]], n) == SetTicks(RowsOf(g, mem, ticks, n), row, c, ct)
  {
    var ticks' := ticks[c := ticks[c][row := ct]];
    var was, now := RowsOf(g, mem, ticks, n), RowsOf(g, mem, ticks', n);
    forall r | 0 <= r < n
      ensures now[r] == SetTicks(was, row, c, ct)[r]
    {
    }
  }

  /** Appending a row: old cells kept, the new ones as NewRow has them. */
  lemma AppendIsNewRow(g: Geometry, mem: Mem, mem': Mem, ticks: seq<seq<ComponentTicks>>,
                       ticks': seq<seq<ComponentTicks>>,
                       n: nat, values: map<nat, Value>)
    requires Holds(g, mem, ticks, n) && Holds(g, mem', ticks', n + 1) && SameCells(g, mem, mem', n)
    requires forall c :: 0 <= c < |g.cols| ==> ticks'[c] == ticks[c] + [UNSTAMPED]
    requires AllReach(g, mem', n)
    requires forall c {:trigger g.cols[c]} :: 0 <= c < |g.cols| ==> CellsAt(g, mem', n)[c] == Initial(g.cols[c], values)
    ensures RowsOf(g, mem', ticks', n + 1) == RowsOf(g, mem, ticks, n) + [NewRow(g.cols, values)]
  {
    var was, now := RowsOf(g, mem, ticks, n), RowsOf(g, mem', ticks', n + 1);
    forall r | 0 <= r < n
      ensures now[r] == was[r]
    {
      forall c | 0 <= c < |g.cols|
        ensures now[r][c] == was[r][c]
      {
        assert Reaches(g, mem, c, r) && Reaches(g, mem', c, r);
        assert CellOf(g, mem', c, r) == CellOf(g, mem, c, r);
      }
    }
    assert now[n] == NewRow(g.cols, values) by {
      forall c | 0 <= c < |g.cols|
        ensures now[n][c] == NewRow(g.cols, values)[c]
      {
        assert ticks'[c][n] == UNSTAMPED;
        assert CellsAt(g, mem', n)[c] == Initial(g.cols[c], values);
      }
    }
  }

  /** Zeros at row n, and on top of them the values in the order of `done`. */
  ghost predicate FilledBytes(g: Geometry, mem1: Mem, mem2: Mem, n: nat, byID: map<nat, nat>, values: map<nat, Value>,
                              done: seq<nat>)
  {
    && Sound(g) && Whole(g, mem1) && AllReach(g, mem1, n) && Fit(g, byID, values)
    && (forall id :: id in done ==> id in values)
    && mem2 == Stored(g, Zeroed(g, mem1, n, |g.cols|), n, byID, values, done)
  }

  /** AddRow as a whole: room added at the end, one row zeroed and filled, tick slots added. */
  lemma AddedIsNewRow(g: Geometry, mem0: Mem, mem1: Mem, mem2: Mem, ticks: seq<seq<ComponentTicks>>,
                      ticks': seq<seq<ComponentTicks>>, n: nat, byID: map<nat, nat>, values: map<nat, Value>,
                      done: seq<nat>)
    requires Holds(g, mem0, ticks, n) && Holds(g, mem2, ticks', n + 1)
    requires |mem0| <= |mem1| && mem1[..|mem0|] == mem0 && FilledBytes(g, mem1, mem2, n, byID, values, done)
    requires forall id :: id in values ==> id in done
    requires forall c, d :: 0 <= c < d < |g.cols| ==> g.cols[c].id != g.cols[d].id
    requires forall c :: 0 <= c < |g.cols| ==> ticks'[c] == ticks[c] + [UNSTAMPED]
    ensures RowsOf(g, mem2, ticks', n + 1) == RowsOf(g, mem0, ticks, n) + [NewRow(g.cols, values)]
  {
    GrownCells(g, mem0, mem1, n);
    FilledCells(g, mem0, mem1, n, byID, values, done);
    AppendIsNewRow(g, mem0, mem2, ticks, ticks', n, values);
  }

  /** Each cell of row n is zero or has the value supplied for it. */
  ghost predicate PartRow(g: Geometry, mem: Mem, n: nat, values: map<nat, Value>)
  {
    && Sound(g) && AllReach(g, mem, n)
    && forall c {:trigger g.cols[c]} :: 0 <= c < |g.cols| ==>
      CellsAt(g, mem, n)[c] == Initial(g.cols[c], values) || CellsAt(g, mem, n)[c] == Zeros(g.cols[c].size)
  }

  lemma SameRows(g: Geometry, mem: Mem, mem': Mem, ticks: seq<seq<ComponentTicks>>, n: nat)
    requires Holds(g, mem, ticks, n) && Holds(g, mem', ticks, n) && SameCells(g, mem, mem', n)
    ensures RowsOf(g, mem', ticks, n) == RowsOf(g, mem, ticks, n)
  {
    forall r | 0 <= r < n
      ensures RowAt(g, mem', ticks, n, r) == RowAt(g, mem, ticks, n, r)
    {
      forall c | 0 <= c < |g.cols|
        ensures RowAt(g, mem', ticks, n, r)[c] == RowAt(g, mem, ticks, n, r)[c]
      {
        assert Reaches(g, mem, c, r) && Reaches(g, mem', c, r);
        assert CellOf(g, mem', c, r) == CellOf(g, mem, c, r);
      }
    }
  }

  /** AddRow cut short: room added at the end, one row zeroed, and some values stored. */
  lemma AddedIsPartRow(g: Geometry, mem0: Mem, mem1: Mem, mem2: Mem, ticks: seq<seq<ComponentTicks>>, n: nat,
                       byID: map<nat, nat>, values: map<nat, Value>, good: map<nat, Value>, done: seq<nat>)
    requires Holds(g, mem0, ticks, n) && Holds(g, mem2, ticks, n)
    requires |mem0| <= |mem1| && mem1[..|mem0|] == mem0 && FilledBytes(g, mem1, mem2, n, byID, good, done)
    requires forall id :: id in good ==> id in values && good[id] == values[id]
    requires forall c, d :: 0 <= c < d < |g.cols| ==> g.cols[c].id != g.cols[d].id
    ensures RowsOf(g, mem2, ticks, n) == RowsOf(g, mem0, ticks, n) && PartRow(g, mem2, n, values)
  {
    GrownCells(g, mem0, mem1, n);
    FilledCells(g, mem0, mem1, n, byID, good, done);
    SameRows(g, mem0, mem2, ticks, n);
  }
}
