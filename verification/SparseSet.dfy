/** The sparse set: one component type, keyed by entity. */
module SparseSet {
  import opened Arith
  import opened Entities
  import opened Options
  import opened Ticks
  import opened Layout
  import opened Geometry
  import opened TableSpec
  import opened SparseSpec

  /** The list holds every entry of the map, each once. */
  ghost predicate Lists(m: map<Handle, Cell>, out: seq<(Handle, seq<Byte>)>)
  {
    && (forall r :: 0 <= r < |out| ==> out[r].0 in m && out[r].1 == m[out[r].0].bytes)
    && (forall r, s :: 0 <= r < s < |out| ==> out[r].0 != out[s].0)
    && (forall e :: e in m ==> exists r :: 0 <= r < |out| && out[r].0 == e)
  }

  lemma ListsMap(d: Dense, cells: seq<Cell>, out: seq<(Handle, seq<Byte>)>)
    requires Linked(d) && |out| == |d.entities| == |cells|
    requires forall r :: 0 <= r < |out| ==> out[r] == (d.entities[r], cells[r].bytes)
    ensures Lists(Model(d, cells), out)
  {
    forall r | 0 <= r < |out|
      ensures SparseSpec.Has(d, d.entities[r]) && RowOf(d, d.entities[r]) == r
    {
      RowIs(d, r);
    }
    forall e | e in Model(d, cells) ensures exists r :: 0 <= r < |out| && out[r].0 == e {
      assert out[RowOf(d, e)].0 == e;
    }
  }

  class SparseSet {
    const spec: ColumnSpec
    var sparse: seq<nat>
    var entities: seq<Handle>
    var data: seq<Byte>
    var ticks: seq<ComponentTicks>
    var agg: ColumnTicks

    ghost function D(): Dense
      reads this
    {
      Dense(sparse, entities)
    }

    ghost predicate Valid()
      reads this
    {
      && Linked(D()) && |ticks| == |entities| && |data| == Times(|ticks|, spec.size)
      && BoundsAll(agg, ticks)
    }

    ghost function Cells(): (c: seq<Cell>)
      requires Valid()
      reads this
      ensures |c| == |entities|
    {
      CellsOf(data, spec.size, ticks)
    }

    /** The map the set stands for. */
    ghost function Map(): map<Handle, Cell>
      requires Valid()
      reads this
    {
      Model(D(), Cells())
    }

    constructor (spec: ColumnSpec)
      ensures Valid() && this.spec == spec && Map() == map[] && entities == []
    {
      this.spec := spec;
      sparse, entities, data, ticks, agg := [], [], [], [], NO_TICKS;
    }

    method Has(e: Handle) returns (r: bool)
      requires Valid()
      ensures r <==> e in Map()
      ensures r ==> SparseSpec.Has(D(), e)
    {
      if e == NULL {
        return false;
      }
      var index := Index(e);
      assert index < |sparse| ==> Filled(D(), index);
      r := index < |sparse| && sparse[index] != 0 && entities[sparse[index] - 1] == e;
    }

    /** A new row at the end of the dense side. */
    method AppendRow(e: Handle, bytes: seq<Byte>)
      requires Valid() && e != NULL && |bytes| == spec.size
      modifies this
      ensures D() == Added(old(D()), e) && agg == old(agg)
      ensures |ticks| == |entities| && |data| == Times(|ticks|, spec.size) && BoundsAll(agg, ticks)
      ensures CellsOf(data, spec.size, ticks) == old(Cells()) + [Cell(bytes, UNSTAMPED)]
    {
      ghost var d := D();
      AppendedCells(data, spec.size, ticks, bytes, UNSTAMPED);
      var row := |entities|;
      var index: nat := Index(e);
      sparse := Grown(sparse, index + 1);
      entities := entities + [e];
      data := data + bytes;
      ticks := ticks + [UNSTAMPED];
      sparse := sparse[index := row + 1];
      assert D() == Added(d, e);
    }

    /** Copies the bytes over one row. */
    method WriteRow(row: nat, bytes: seq<Byte>)
      requires Valid() && row < |entities| && |bytes| == spec.size
      modifies this`data
      ensures Valid() && Cells() == old(Cells())[row := Cell(bytes, ticks[row])]
    {
      SplicedCells(data, spec.size, ticks, row, bytes);
      var at := Product(row, spec.size);
      data := Spliced(data, at, bytes);
    }

    /** Add writes the value, over the old one or in a new row; a row added has unstamped
        ticks, a row overwritten keeps its ticks. A value of another type is refused with
        a panic. The set stays consistent unless another generation of the slot is in it;
        then the row is added all the same, and OlderIsOrphaned says what that does. */
    method Add(e: Handle, v: Value) returns (panicked: bool)
      requires Valid()
      requires v.typ == spec.typ ==> |v.bytes| == spec.size
      modifies this
      ensures panicked <==> e != NULL && spec.size > 0 && v.typ != spec.typ
      ensures Valid() <==> panicked || e == NULL || !old(Older(D(), e))
      ensures !Valid() ==>
        && D() == Added(old(D()), e) && agg == old(agg) && |data| == Times(|ticks|, spec.size)
        && CellsOf(data, spec.size, ticks) == old(Cells()) + [Cell(if spec.size == 0 then [] else v.bytes, UNSTAMPED)]
      ensures panicked || e == NULL ==> Map() == old(Map())
      ensures !panicked && e != NULL && Valid() ==>
        var bytes := if spec.size == 0 then [] else v.bytes;
        Map() == old(Map())[e := Cell(bytes, if e in old(Map()) then old(Map())[e].ticks else UNSTAMPED)]
      ensures entities == if panicked || e == NULL || e in old(Map()) then old(entities) else old(entities) + [e]
    {
      if e == NULL {
        return false;
      }
      if spec.size != 0 && v.typ != spec.typ {
        return true;
      }
      var index := Index(e);
      ghost var d, cells := D(), Cells();
      var bytes := if spec.size == 0 then [] else v.bytes;
      assert index < |sparse| ==> Filled(d, index);
      if index < |sparse| && sparse[index] != 0 && entities[sparse[index] - 1] == e {
        var row := sparse[index] - 1;
        WriteRow(row, bytes);
        SetModel(d, cells, row, Cell(bytes, ticks[row]));
        return false;
      }
      AddKeepsLinkedIff(d, e);
      if !Older(d, e) {
        AddModel(d, cells, e, Cell(bytes, UNSTAMPED));
      }
      AppendRow(e, bytes);
      return false;
    }

    /** The dense arrays cut by one, and the index of the removed entity cleared. */
    method DropLastRow(ghost row: nat, e: Handle, ghost d: Dense, ghost cells: seq<Cell>)
      requires |ticks| == |entities| > 0 && |data| == Times(|ticks|, spec.size) && BoundsAll(agg, ticks)
      requires Linked(d) && row < |d.entities| == |cells| == |entities| && e == d.entities[row] && Index(e) < |sparse|
      requires Removed(d, row) == Dense(sparse[Index(e) := 0], entities[..|entities| - 1])
      requires SwapPop(cells, row) == CellsOf(data, spec.size, ticks)[..|ticks| - 1]
      modifies this
      ensures Valid() && D() == Removed(d, row) && Cells() == SwapPop(cells, row)
    {
      var last := |entities| - 1;
      RemoveKeepsLinked(d, row);
      PoppedCells(data, spec.size, ticks);
      var keep := Product(last, spec.size);
      entities := entities[..last];
      data := data[..keep];
      ticks := ticks[..last];
      sparse := sparse[Index(e) := 0];
    }

    /** Copies one row's bytes and ticks over another. */
    method MoveRow(row: nat, source: nat)
      requires Valid() && row < |entities| && source < |entities|
      modifies this`data, this`ticks
      ensures Valid() && Cells() == old(Cells())[row := old(Cells())[source]]
    {
      TimesApart(source, |ticks|, spec.size);
      var at := Product(source, spec.size);
      var bytes := data[at..at + spec.size];
      assert Cells()[source] == Cell(bytes, ticks[source]);
      WriteRow(row, bytes);
      ticks := ticks[row := ticks[source]];
    }

    /** The last row takes the place of `row`, unless `row` is the last one. */
    method FillGap(e: Handle, row: nat)
      requires Valid() && row < |entities| && entities[row] == e && Index(e) < |sparse|
      modifies this
      ensures |ticks| == |entities| == old(|entities|) && |data| == Times(|ticks|, spec.size) && BoundsAll(agg, ticks)
      ensures Index(e) < |sparse| && Removed(old(D()), row) == Dense(sparse[Index(e) := 0], entities[..|entities| - 1])
      ensures SwapPop(old(Cells()), row) == CellsOf(data, spec.size, ticks)[..|ticks| - 1]
    {
      var last := |entities| - 1;
      assert PointsAt(D(), last);
      if row != last {
        MoveRow(row, last);
        var moved := entities[last];
        sparse := sparse[Index(moved) := row + 1];
        entities := entities[row := moved];
      }
    }

    method PopRow(e: Handle, row: nat)
      requires Valid() && row < |entities| && entities[row] == e
      modifies this
      ensures Valid() && Map() == old(Map()) - {e} && entities == SwapPop(old(entities), row)
    {
      ghost var d, cells := D(), Cells();
      RemoveModel(d, cells, row);
      assert PointsAt(d, row);
      FillGap(e, row);
      DropLastRow(row, e, d, cells);
    }

    /** Swap-and-pop. */
    method Remove(e: Handle) returns (removed: bool)
      requires Valid()
      modifies this
      ensures Valid() && (removed <==> e in old(Map())) && Map() == old(Map()) - {e}
      ensures forall f :: f in Map() ==> Map()[f] == old(Map())[f]
      ensures !removed ==> entities == old(entities)
      ensures removed ==>
        exists row :: 0 <= row < |old(entities)| && old(entities)[row] == e && entities == SwapPop(old(entities), row)
    {
      var has := Has(e);
      if !has {
        return false;
      }
      assert Filled(D(), Index(e));
      var row := sparse[Index(e)] - 1;
      PopRow(e, row);
      return true;
    }

    method BytesAt(row: nat) returns (bytes: seq<Byte>)
      requires Valid() && row < |entities|
      ensures bytes == Cells()[row].bytes
    {
      var at := Product(row, spec.size);
      assert Cells()[row].bytes == data[at..at + spec.size];
      bytes := data[at..at + spec.size];
    }

    /** The value's bytes, if present. */
    method Get(e: Handle) returns (r: Option<seq<Byte>>)
      requires Valid()
      ensures r == if e in Map() then Some(Map()[e].bytes) else None
    {
      var has := Has(e);
      if !has {
        return None;
      }
      assert Filled(D(), Index(e));
      var row := sparse[Index(e)] - 1;
      var bytes := BytesAt(row);
      return Some(bytes);
    }

    /** Every entry once, in dense order. */
    method Iter() returns (out: seq<(Handle, seq<Byte>)>)
      requires Valid()
      ensures Lists(Map(), out) && |out| == |entities| && forall r :: 0 <= r < |out| ==> out[r].0 == entities[r]
    {
      out := [];
      ghost var cells := Cells();
      for row := 0 to |entities|
        invariant |out| == row
        invariant forall r :: 0 <= r < row ==> out[r] == (entities[r], cells[r].bytes)
      {
        var bytes := BytesAt(row);
        out := out + [(entities[row], bytes)];
      }
      ListsMap(D(), cells, out);
    }

    method Clear()
      requires Valid()
      modifies this
      ensures Valid() && Map() == map[] && entities == [] && agg == NO_TICKS
    {
      for i := 0 to |sparse|
        invariant |sparse| == |old(sparse)| && forall j :: 0 <= j < i ==> sparse[j] == 0
        invariant entities == old(entities) && ticks == old(ticks) && data == old(data)
      {
        sparse := sparse[i := 0];
      }
      entities, data, ticks, agg := [], [], [], NO_TICKS;
    }

    method TicksOf(e: Handle) returns (r: Option<ComponentTicks>)
      requires Valid()
      ensures r == if e in Map() then Some(Map()[e].ticks) else None
    {
      var has := Has(e);
      if !has {
        return None;
      }
      assert Filled(D(), Index(e));
      return Some(ticks[sparse[Index(e)] - 1]);
    }

    /** SetTicks: overwrites one entry's ticks and folds them into the aggregate. */
    method SetTicks(e: Handle, ct: ComponentTicks) returns (ok: bool)
      requires Valid()
      modifies this`ticks, this`agg
      ensures Valid() && (ok <==> e in old(Map()))
      ensures Map() == if e in old(Map()) then old(Map())[e := old(Map())[e].(ticks := ct)] else old(Map())
    {
      ok := Has(e);
      if !ok {
        return;
      }
      assert Filled(D(), Index(e));
      var row := sparse[Index(e)] - 1;
      ghost var cells := Cells();
      SetModel(D(), cells, row, cells[row].(ticks := ct));
      ticks := ticks[row := ct];
      agg := agg.Observe(ct);
      assert Cells() == cells[row := cells[row].(ticks := ct)];
    }

    method StampAdded(e: Handle, tick: Tick) returns (ok: bool)
      requires Valid()
      modifies this`ticks, this`agg
      ensures Valid() && (ok <==> e in old(Map()))
      ensures Map() == if e in old(Map()) then old(Map())[e := old(Map())[e].(ticks := NewTicks(tick))] else old(Map())
      ensures ok ==> var t := Map()[e].ticks;
        && t.added == tick && t.changed == tick
        && forall last: Tick :: (t.IsAdded(last) <==> last < tick) && (t.IsChanged(last) <==> last < tick)
    {
      ok := SetTicks(e, NewTicks(tick));
    }

    method StampChanged(e: Handle, tick: Tick) returns (ok: bool)
      requires Valid()
      modifies this`ticks, this`agg
      ensures Valid() && (ok <==> e in old(Map()))
      ensures Map() ==
        if e in old(Map()) then old(Map())[e := old(Map())[e].(ticks := old(Map())[e].ticks.SetChanged(tick))]
        else old(Map())
      ensures ok ==> var was, t := old(Map())[e].ticks, Map()[e].ticks;
        && t.added == was.added && t.changed == tick
        && forall last: Tick :: (t.IsAdded(last) <==> was.IsAdded(last)) && (t.IsChanged(last) <==> last < tick)
    {
      var was := TicksOf(e);
      if was.None? {
        return false;
      }
      ok := SetTicks(e, was.value.SetChanged(tick));
    }
  }

  /** A set whose aggregate may not have changed holds no changed entry; likewise for
      added. */
  lemma SkipSet(d: Dense, data: seq<Byte>, size: nat, ticks: seq<ComponentTicks>, agg: ColumnTicks, last: Tick,
                e: Handle)
    requires Linked(d) && |ticks| == |d.entities| && |data| == Times(|ticks|, size) && BoundsAll(agg, ticks)
    requires e in Model(d, CellsOf(data, size, ticks))
    ensures !agg.MayHaveChanged(last) ==> !Model(d, CellsOf(data, size, ticks))[e].ticks.IsChanged(last)
    ensures !agg.MayHaveAdded(last) ==> !Model(d, CellsOf(data, size, ticks))[e].ticks.IsAdded(last)
  {
    SkipIsSound(agg, ticks, last);
  }
}
