/** The entity set: a dense list with an index into it. */
module EntitySet {
  import opened Entities
  import opened TableSpec

  /** The index and the list point at each other; null is never a member. */
  ghost predicate Linked(sparse: map<Handle, nat>, dense: seq<Handle>)
  {
    && (forall h :: h in sparse ==> sparse[h] < |dense| && dense[sparse[h]] == h)
    && (forall i :: 0 <= i < |dense| ==> dense[i] in sparse && sparse[dense[i]] == i)
    && NULL !in sparse
  }

  lemma {:induction false} DistinctSize(sparse: map<Handle, nat>, dense: seq<Handle>, n: nat)
    requires Linked(sparse, dense) && n <= |dense|
    ensures |set i | 0 <= i < n :: dense[i]| == n
  {
    if n > 0 {
      DistinctSize(sparse, dense, n - 1);
      var s := set i | 0 <= i < n - 1 :: dense[i];
      assert (set i | 0 <= i < n :: dense[i]) == s + {dense[n - 1]};
      assert forall i :: 0 <= i < n - 1 ==> sparse[dense[i]] != sparse[dense[n - 1]];
      assert dense[n - 1] !in s;
    }
  }

  /** A linked set has as many members as its list is long. */
  lemma SizeIsLength(sparse: map<Handle, nat>, dense: seq<Handle>)
    requires Linked(sparse, dense)
    ensures |sparse.Keys| == |dense| && forall h :: h in sparse <==> h in dense
  {
    DistinctSize(sparse, dense, |dense|);
    assert (set i | 0 <= i < |dense| :: dense[i]) == sparse.Keys;
  }

  /** Swap-and-pop on both sides keeps them linked and takes out one member. */
  lemma RemoveKeepsLinked(sparse: map<Handle, nat>, dense: seq<Handle>, h: Handle)
    requires Linked(sparse, dense) && h in sparse
    ensures var last := |dense| - 1;
      var moved := if sparse[h] != last then sparse[dense[last] := sparse[h]] else sparse;
      Linked(moved - {h}, SwapPop(dense, sparse[h])) && (moved - {h}).Keys == sparse.Keys - {h}
  {
    var row, last := sparse[h], |dense| - 1;
    var moved := if row != last then sparse[dense[last] := row] else sparse;
    var t, d := moved - {h}, SwapPop(dense, row);
    forall i | 0 <= i < |d| ensures d[i] in t && t[d[i]] == i {
      assert sparse[dense[i]] == i && sparse[dense[last]] == last;
    }
    forall g | g in t ensures t[g] < |d| && d[t[g]] == g {
      assert sparse[dense[last]] == last;
    }
  }

  class EntitySet {
    var sparse: map<Handle, nat>
    var dense: seq<Handle>

    ghost predicate Valid()
      reads this
    {
      Linked(sparse, dense)
    }

    ghost function Members(): set<Handle>
      reads this
    {
      sparse.Keys
    }

    constructor ()
      ensures Valid() && Members() == {} && dense == []
    {
      sparse, dense := map[], [];
    }

    method Insert(h: Handle) returns (added: bool)
      requires Valid()
      modifies this
      ensures Valid() && (added <==> h != NULL && h !in old(Members()))
      ensures Members() == if added then old(Members()) + {h} else old(Members())
      ensures dense == if added then old(dense) + [h] else old(dense)
    {
      if h == NULL {
        return false;
      }
      if h in sparse {
        return false;
      }
      sparse := sparse[h := |dense|];
      dense := dense + [h];
      return true;
    }

    method Remove(h: Handle) returns (removed: bool)
      requires Valid()
      modifies this
      ensures Valid() && (removed <==> h in old(Members()))
      ensures Members() == old(Members()) - {h}
      ensures dense == if h in old(sparse) then SwapPop(old(dense), old(sparse)[h]) else old(dense)
    {
      if h !in sparse {
        return false;
      }
      RemoveKeepsLinked(sparse, dense, h);
      var row := sparse[h];
      var last := |dense| - 1;
      if row != last {
        var moved := dense[last];
        dense := dense[row := moved];
        sparse := sparse[moved := row];
      }
      dense := dense[..last];
      sparse := sparse - {h};
      return true;
    }

    method Contains(h: Handle) returns (r: bool)
      ensures r <==> h in Members()
    {
      r := h in sparse;
    }

    method Len() returns (n: nat)
      requires Valid()
      ensures n == |Members()|
    {
      SizeIsLength(sparse, dense);
      n := |dense|;
    }

    /** Every member once, in dense order. */
    method Iter() returns (out: seq<Handle>)
      requires Valid()
      ensures out == dense && |out| == |Members()| && forall h :: h in out <==> h in Members()
    {
      out := [];
      for i := 0 to |dense|
        invariant out == dense[..i]
      {
        out := out + [dense[i]];
      }
      SizeIsLength(sparse, dense);
    }

    method Clear()
      modifies this
      ensures Valid() && Members() == {} && dense == []
    {
      dense := [];
      sparse := map[];
    }
  }
}
