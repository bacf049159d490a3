/** Change-detection ticks of one component instance, and the per-column running
    maximum that lets a query skip a whole column. */
module Ticks {
  type Tick = nat

  predicate IsNewerThan(t: Tick, last: Tick) { t > last }

  datatype ComponentTicks = ComponentTicks(added: Tick, changed: Tick)
  {
    predicate IsAdded(last: Tick) { IsNewerThan(added, last) }

    predicate IsChanged(last: Tick) { IsNewerThan(changed, last) }

    function SetChanged(tick: Tick): ComponentTicks { this.(changed := tick) }
  }

  const UNSTAMPED := ComponentTicks(0, 0)

  /** The ticks of a component just inserted. */
  function NewTicks(tick: Tick): ComponentTicks { ComponentTicks(tick, tick) }

  datatype ColumnTicks = ColumnTicks(changed: Tick, added: Tick)
  {
    predicate MayHaveChanged(last: Tick) { IsNewerThan(changed, last) }

    predicate MayHaveAdded(last: Tick) { IsNewerThan(added, last) }

    /** Folding one component in bounds it, and loosens no bound already held. */
    function Observe(ct: ComponentTicks): (c: ColumnTicks)
      ensures Bounds(c, ct)
      ensures forall x {:trigger Bounds(c, x)} :: Bounds(this, x) ==> Bounds(c, x)
      ensures c.changed == changed || c.changed == ct.changed
      ensures c.added == added || c.added == ct.added
    {
      var c := if ct.changed > changed then this.(changed := ct.changed) else this;
      if ct.added > c.added then c.(added := ct.added) else c
    }
  }

  const NO_TICKS := ColumnTicks(0, 0)

  predicate Bounds(c: ColumnTicks, ct: ComponentTicks)
  {
    ct.changed <= c.changed && ct.added <= c.added
  }

  predicate BoundsAll(c: ColumnTicks, ts: seq<ComponentTicks>)
  {
    forall i :: 0 <= i < |ts| ==> Bounds(c, ts[i])
  }

  /** What folding `ts`, one after the other, makes of a fresh aggregate. */
  function ObserveAll(ts: seq<ComponentTicks>): ColumnTicks
  {
    if ts == [] then NO_TICKS else ObserveAll(ts[..|ts| - 1]).Observe(ts[|ts| - 1])
  }

  /** Such an aggregate says that a column may have changed exactly when one of the ticks
      folded into it was later; likewise for added. */
  lemma {:induction false} ObservedExactly(ts: seq<ComponentTicks>, last: Tick)
    ensures ObserveAll(ts).MayHaveChanged(last) <==> exists i :: 0 <= i < |ts| && last < ts[i].changed
    ensures ObserveAll(ts).MayHaveAdded(last) <==> exists i :: 0 <= i < |ts| && last < ts[i].added
  {
    if ts != [] {
      var n := |ts| - 1;
      ObservedExactly(ts[..n], last);
      assert forall i :: 0 <= i < n ==> ts[..n][i] == ts[i];
      assert Bounds(ObserveAll(ts), ts[n]);
    }
  }

  /** A column that may not have changed holds no changed row; likewise for added. */
  lemma SkipIsSound(c: ColumnTicks, ts: seq<ComponentTicks>, last: Tick)
    requires BoundsAll(c, ts)
    ensures !c.MayHaveChanged(last) ==> forall i :: 0 <= i < |ts| ==> !ts[i].IsChanged(last)
    ensures !c.MayHaveAdded(last) ==> forall i :: 0 <= i < |ts| ==> !ts[i].IsAdded(last)
  {
    forall i | 0 <= i < |ts|
      ensures !c.MayHaveChanged(last) ==> !ts[i].IsChanged(last)
      ensures !c.MayHaveAdded(last) ==> !ts[i].IsAdded(last)
    {
      assert Bounds(c, ts[i]);
    }
  }
}
