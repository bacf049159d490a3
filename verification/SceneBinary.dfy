/** MarshalBinary and UnmarshalBinary, loop by loop, and what follows for any scene. */
module SceneBinary {
  import opened Options
  import opened SceneCodec

  // ----- writing -----

  lemma ListStep<T>(item: T -> Bytes, buf: Bytes, xs: seq<T>, k: nat)
    requires k < |xs|
    ensures buf + EncList(item, xs[k..]) == (buf + item(xs[k])) + EncList(item, xs[k + 1..])
  {
    assert xs[k..][1..] == xs[k + 1..];
    Regroup(buf, item(xs[k]), EncList(item, xs[k + 1..]));
  }

  lemma ListEnd<T>(item: T -> Bytes, buf: Bytes, xs: seq<T>)
    ensures buf + EncList(item, xs[|xs|..]) == buf
    ensures xs[0..] == xs
  {
  }

  method MarshalComponent(c: Component) returns (buf: Bytes)
    ensures buf == EncComponent(c)
  {
    buf := Enc32(|c.props|);
    for k := 0 to |c.props|
      invariant buf + EncList(EncProp, c.props[k..]) == Enc32(|c.props|) + EncList(EncProp, c.props)
    {
      ListStep(EncProp, buf, c.props, k);
      buf := buf + (Enc32(c.props[k].0) + Enc32(c.props[k].1));
    }
    ListEnd(EncProp, buf, c.props);
    buf := Enc32(c.typeIdx) + buf;
  }

  method MarshalEntity(e: Entity) returns (buf: Bytes)
    ensures buf == EncEntity(e)
  {
    buf := Enc32(|e.components|);
    for k := 0 to |e.components|
      invariant buf + EncList(EncComponent, e.components[k..]) ==
        Enc32(|e.components|) + EncList(EncComponent, e.components)
    {
      ListStep(EncComponent, buf, e.components, k);
      var part := MarshalComponent(e.components[k]);
      buf := buf + part;
    }
    ListEnd(EncComponent, buf, e.components);
    buf := Enc32(e.nameIdx) + buf;
  }

  method MarshalStrings(ss: seq<Bytes>) returns (buf: Bytes)
    ensures buf == EncStrings(ss)
  {
    buf := Enc32(|ss|);
    for k := 0 to |ss|
      invariant buf + EncList(EncString, ss[k..]) == EncStrings(ss)
    {
      ListStep(EncString, buf, ss, k);
      buf := buf + EncString(ss[k]);
    }
    ListEnd(EncString, buf, ss);
  }

  /** The variants' JSON texts; the first value without one ends the encoding. */
  method MarshalVariants<V>(json: Json<V>, vs: seq<V>) returns (r: Option<Bytes>)
    ensures r == if Texts(json, vs).None? then None else Some(EncStrings(Texts(json, vs).value))
  {
    var buf := Enc32(|vs|);
    ghost var all := Texts(json, vs);
    for k := 0 to |vs|
      invariant Texts(json, vs[k..]).None? <==> all.None?
      invariant all.Some? ==> buf + EncList(EncString, Texts(json, vs[k..]).value) == EncStrings(all.value)
    {
      assert vs[k..][1..] == vs[k + 1..];
      var text := json.enc(vs[k]);
      if text.None? {
        return None;
      }
      if all.Some? {
        ghost var ts := Texts(json, vs[k..]).value;
        ListStep(EncString, buf, ts, 0);
        assert ts[0] == text.value && ts[1..] == Texts(json, vs[k + 1..]).value && ts[0..] == ts;
      }
      buf := buf + EncString(text.value);
    }
    assert vs[|vs|..] == [] && vs[0..] == vs;
    assert buf + [] == buf;
    return Some(buf);
  }

  method MarshalEntities(es: seq<Entity>) returns (buf: Bytes)
    ensures buf == EncEntities(es)
  {
    buf := Enc32(|es|);
    for k := 0 to |es|
      invariant buf + EncList(EncEntity, es[k..]) == EncEntities(es)
    {
      ListStep(EncEntity, buf, es, k);
      var part := MarshalEntity(es[k]);
      buf := buf + part;
    }
    ListEnd(EncEntity, buf, es);
  }

  lemma BodyGroups(a: Bytes, b: Bytes, c: Bytes, d: Bytes, e: Bytes)
    ensures (((a + b) + c) + d) + e == a + (b + (c + (d + e)))
  {
  }

  method MarshalBinary<V>(json: Json<V>, sc: Scene<V>) returns (r: Option<Bytes>)
    ensures r == Encode(json, sc)
  {
    var buf := MAGIC + Enc16(VERSION);
    var names := MarshalStrings(sc.names);
    buf := buf + names;
    var variants := MarshalVariants(json, sc.variants);
    if variants.None? {
      return None;
    }
    buf := buf + variants.value;
    var entities := MarshalEntities(sc.entities);
    buf := buf + entities;
    BodyGroups(MAGIC, Enc16(VERSION), names, variants.value, entities);
    return Some(buf);
  }

  // The documented byte layout, on small examples.

  lemma SmallWord(x: nat)
    requires x < 256
    ensures Enc32(x) == [x, 0, 0, 0]
  {
    assert EncLE(x, 4) == [x] + EncLE(0, 3);
    assert EncLE(0, 3) == [0] + EncLE(0, 2);
    assert EncLE(0, 2) == [0] + EncLE(0, 1);
    assert EncLE(0, 1) == [0] + EncLE(0, 0);
  }

  lemma OneItem<T>(item: T -> Bytes, x: T)
    ensures EncList(item, [x]) == item(x)
  {
    assert EncList(item, [x][1..]) == [];
  }

  lemma LittleEndian()
    ensures Enc32(0x04030201) == [1, 2, 3, 4] && Enc16(VERSION) == [1, 0]
  {
    assert EncLE(0x04030201, 4) == [1] + EncLE(0x040302, 3);
    assert EncLE(0x040302, 3) == [2] + EncLE(0x0403, 2);
    assert EncLE(0x0403, 2) == [3] + EncLE(4, 1);
    assert EncLE(4, 1) == [4] + EncLE(0, 0);
    assert EncLE(1, 2) == [1] + EncLE(0, 1);
  }

  /** An entity's fields, and those of its components, come in the documented order. */
  lemma EntityFormat()
    ensures EncEntity(Entity([Component([(5, 6)], 2)], 3)) ==
      [3, 0, 0, 0] + ([1, 0, 0, 0] + ([2, 0, 0, 0] + ([1, 0, 0, 0] + ([5, 0, 0, 0] + [6, 0, 0, 0]))))
  {
    SmallWord(1);
    SmallWord(2);
    SmallWord(3);
    SmallWord(5);
    SmallWord(6);
    OneItem(EncProp, (5, 6));
    OneItem(EncComponent, Component([(5, 6)], 2));
  }

  /** So do the parts of a scene. */
  lemma WireFormat<V>(json: Json<V>, e: Entity)
    ensures Encode(json, Scene([[7]], [], [e])) == Some(
      [78, 83, 67, 78] + ([1, 0] +
      (([1, 0, 0, 0] + ([1, 0, 0, 0] + [7])) +
      ([0, 0, 0, 0] +
      ([1, 0, 0, 0] + EncEntity(e))))))
  {
    LittleEndian();
    SmallWord(0);
    SmallWord(1);
    var name: Bytes := [7];
    OneItem(EncEntity, e);
    OneItem(EncString, name);
    assert EncStrings([]) == [0, 0, 0, 0];
  }

  // ----- reading -----

  /** The items read so far, then the rest of the list. */
  function Resumed<T>(done: seq<T>, p: Parsed<seq<T>>): Parsed<seq<T>>
  {
    if p.Err? then p else Ok(done + p.value, p.rest)
  }

  /** Reading one more item. */
  lemma ReadNext<T>(item: Bytes -> Parsed<T>, done: seq<T>, n: nat, s: Bytes)
    requires n > 0
    ensures item(s).Err? ==> Resumed(done, DecList(item, n, s)) == Err(item(s).error)
    ensures item(s).Ok? ==>
      Resumed(done, DecList(item, n, s)) == Resumed(done + [item(s).value], DecList(item, n - 1, item(s).rest))
  {
    if item(s).Ok? {
      var others := DecList(item, n - 1, item(s).rest);
      if others.Ok? {
        Regroup(done, [item(s).value], others.value);
      }
    }
  }

  lemma ReadEnds<T>(item: Bytes -> Parsed<T>, done: seq<T>, s: Bytes)
    ensures Resumed(done, DecList(item, 0, s)) == Ok(done, s)
    ensures forall n: nat :: Resumed([], DecList(item, n, s)) == DecList(item, n, s)
  {
    assert done + [] == done;
    forall n: nat ensures Resumed([], DecList(item, n, s)) == DecList(item, n, s) {
      var p := DecList(item, n, s);
      if p.Ok? {
        assert [] + p.value == p.value;
      }
    }
  }

  method ReadNames(n: nat, s: Bytes) returns (r: Parsed<seq<Bytes>>)
    ensures r == DecList(DecString, n, s)
  {
    var done, at := [], s;
    ReadEnds(DecString, [], s);
    for k := 0 to n
      invariant Resumed(done, DecList(DecString, n - k, at)) == DecList(DecString, n, s)
    {
      ReadNext(DecString, done, n - k, at);
      var text := DecString(at);
      if text.Err? {
        return Err(text.error);
      }
      done, at := done + [text.value], text.rest;
    }
    ReadEnds(DecString, done, at);
    return Ok(done, at);
  }

  method ReadVariants<V>(json: Json<V>, n: nat, s: Bytes) returns (r: Parsed<seq<V>>)
    ensures r == DecList(DecVariant(json), n, s)
  {
    var done: seq<V>, at := [], s;
    ReadEnds(DecVariant(json), [], s);
    for k := 0 to n
      invariant Resumed(done, DecList(DecVariant(json), n - k, at)) == DecList(DecVariant(json), n, s)
    {
      ReadNext(DecVariant(json), done, n - k, at);
      var text := DecString(at);
      if text.Err? {
        return Err(text.error);
      }
      var v := json.dec(text.value);
      if v.None? {
        return Err(BadVariant);
      }
      done, at := done + [v.value], text.rest;
    }
    ReadEnds(DecVariant(json), done, at);
    return Ok(done, at);
  }

  method ReadProps(nNames: nat, nVariants: nat, n: nat, s: Bytes) returns (r: Parsed<seq<(int, int)>>)
    ensures r == DecList(DecProp(nNames, nVariants), n, s)
  {
    var done: seq<(int, int)>, at := [], s;
    ReadEnds(DecProp(nNames, nVariants), [], s);
    for k := 0 to n
      invariant Resumed(done, DecList(DecProp(nNames, nVariants), n - k, at)) ==
        DecList(DecProp(nNames, nVariants), n, s)
    {
      ReadNext(DecProp(nNames, nVariants), done, n - k, at);
      var a := Dec32(at);
      if a.Err? {
        return Err(a.error);
      }
      var b := Dec32(a.rest);
      if b.Err? {
        return Err(b.error);
      }
      if a.value >= nNames || b.value >= nVariants {
        return Err(OutOfRange);
      }
      done, at := done + [(a.value, b.value)], b.rest;
    }
    ReadEnds(DecProp(nNames, nVariants), done, at);
    return Ok(done, at);
  }

  method ReadComponents(nNames: nat, nVariants: nat, n: nat, s: Bytes) returns (r: Parsed<seq<Component>>)
    ensures r == DecList(DecComponent(nNames, nVariants), n, s)
  {
    var done: seq<Component>, at := [], s;
    ReadEnds(DecComponent(nNames, nVariants), [], s);
    for k := 0 to n
      invariant Resumed(done, DecList(DecComponent(nNames, nVariants), n - k, at)) ==
        DecList(DecComponent(nNames, nVariants), n, s)
    {
      ReadNext(DecComponent(nNames, nVariants), done, n - k, at);
      var t := Dec32(at);
      if t.Err? {
        return Err(t.error);
      }
      if t.value >= nNames {
        return Err(OutOfRange);
      }
      var count := Dec32(t.rest);
      if count.Err? {
        return Err(count.error);
      }
      var props := ReadProps(nNames, nVariants, count.value, count.rest);
      if props.Err? {
        return Err(props.error);
      }
      done, at := done + [Component(props.value, t.value)], props.rest;
    }
    ReadEnds(DecComponent(nNames, nVariants), done, at);
    return Ok(done, at);
  }

  method ReadEntities(nNames: nat, nVariants: nat, n: nat, s: Bytes) returns (r: Parsed<seq<Entity>>)
    ensures r == DecList(DecEntity(nNames, nVariants), n, s)
  {
    var done: seq<Entity>, at := [], s;
    ReadEnds(DecEntity(nNames, nVariants), [], s);
    for k := 0 to n
      invariant Resumed(done, DecList(DecEntity(nNames, nVariants), n - k, at)) ==
        DecList(DecEntity(nNames, nVariants), n, s)
    {
      ReadNext(DecEntity(nNames, nVariants), done, n - k, at);
      var t := Dec32(at);
      if t.Err? {
        return Err(t.error);
      }
      if t.value >= nNames {
        return Err(OutOfRange);
      }
      var count := Dec32(t.rest);
      if count.Err? {
        return Err(count.error);
      }
      var comps := ReadComponents(nNames, nVariants, count.value, count.rest);
      if comps.Err? {
        return Err(comps.error);
      }
      done, at := done + [Entity(comps.value, t.value)], comps.rest;
    }
    ReadEnds(DecEntity(nNames, nVariants), done, at);
    return Ok(done, at);
  }

  method UnmarshalBinary<V>(json: Json<V>, data: Bytes) returns (r: Parsed<Scene<V>>)
    ensures r == Decode(json, data)
    ensures r.Ok? ==> Fits(r.value)
  {
    if Decode(json, data).Ok? {
      DecodedFits(json, data);
    }
    if |data| < 4 || data[..4] != MAGIC {
      return Err(BadMagic);
    }
    var v := Dec16(data[4..]);
    if v.Err? {
      return Err(v.error);
    }
    if v.value > VERSION {
      return Err(FromFuture);
    }
    var count := Dec32(v.rest);
    if count.Err? {
      return Err(count.error);
    }
    var names := ReadNames(count.value, count.rest);
    if names.Err? {
      return Err(names.error);
    }
    count := Dec32(names.rest);
    if count.Err? {
      return Err(count.error);
    }
    var vs := ReadVariants(json, count.value, count.rest);
    if vs.Err? {
      return Err(vs.error);
    }
    count := Dec32(vs.rest);
    if count.Err? {
      return Err(count.error);
    }
    var es := ReadEntities(|names.value|, |vs.value|, count.value, count.rest);
    if es.Err? {
      return Err(es.error);
    }
    return Ok(Scene(names.value, vs.value, es.value), es.rest);
  }

  // ----- indices that do not fit -----

  function LowProp(p: (int, int)): (int, int) { (Low(p.0), Low(p.1)) }

  function Mapped<T, U>(f: T -> U, xs: seq<T>): (r: seq<U>)
    ensures |r| == |xs| && forall k :: 0 <= k < |r| ==> r[k] == f(xs[k])
  {
    if xs == [] then [] else [f(xs[0])] + Mapped(f, xs[1..])
  }

  function LowComponent(c: Component): Component { Component(Mapped(LowProp, c.props), Low(c.typeIdx)) }

  function LowEntity(e: Entity): Entity { Entity(Mapped(LowComponent, e.components), Low(e.nameIdx)) }

  /** The scene with every index cut to 32 bits. */
  function LowScene<V>(sc: Scene<V>): Scene<V> { sc.(entities := Mapped(LowEntity, sc.entities)) }

  lemma {:induction false} SameBytes<T>(item: T -> Bytes, f: T -> T, xs: seq<T>)
    requires forall x :: x in xs ==> item(f(x)) == item(x)
    ensures EncList(item, Mapped(f, xs)) == EncList(item, xs)
  {
    if xs != [] {
      SameBytes(item, f, xs[1..]);
      assert Mapped(f, xs)[1..] == Mapped(f, xs[1..]);
      assert xs[0] in xs;
    }
  }

  lemma LowSame(x: int)
    ensures Enc32(Low(x)) == Enc32(x)
  {
    assert Low(Low(x)) == Low(x);
  }

  lemma PropSame(p: (int, int))
    ensures EncProp(LowProp(p)) == EncProp(p)
  {
    LowSame(p.0);
    LowSame(p.1);
  }

  lemma ComponentSame(c: Component)
    ensures EncComponent(LowComponent(c)) == EncComponent(c)
  {
    forall p | p in c.props ensures EncProp(LowProp(p)) == EncProp(p) {
      PropSame(p);
    }
    SameBytes(EncProp, LowProp, c.props);
    LowSame(c.typeIdx);
  }

  lemma EntitySame(e: Entity)
    ensures EncEntity(LowEntity(e)) == EncEntity(e)
  {
    forall c | c in e.components ensures EncComponent(LowComponent(c)) == EncComponent(c) {
      ComponentSame(c);
    }
    SameBytes(EncComponent, LowComponent, e.components);
    LowSame(e.nameIdx);
  }

  /** Indices are written modulo 2^32, so a scene with an index outside 32 bits is read
      back, if at all, with that index cut. */
  lemma WideIndicesAreCut<V>(json: Json<V>, sc: Scene<V>, rest: Bytes)
    requires Encode(json, sc).Some? && Faithful(json, sc.variants)
    ensures Encode(json, LowScene(sc)) == Encode(json, sc)
    ensures Decode(json, Encode(json, sc).value + rest) == Ok(LowScene(sc), rest) <==> Fits(LowScene(sc))
  {
    forall e | e in sc.entities ensures EncEntity(LowEntity(e)) == EncEntity(e) {
      EntitySame(e);
    }
    SameBytes(EncEntity, LowEntity, sc.entities);
    RoundTripIff(json, LowScene(sc), rest);
  }

  /** A scene the decoder accepted survives being written and read again. */
  lemma DecodedRoundTrips<V>(json: Json<V>, data: Bytes, rest: Bytes)
    requires Decode(json, data).Ok? && Faithful(json, Decode(json, data).value.variants)
    requires Encode(json, Decode(json, data).value).Some?
    ensures Decode(json, Encode(json, Decode(json, data).value).value + rest) == Ok(Decode(json, data).value, rest)
  {
    DecodedFits(json, data);
    RoundTripIff(json, Decode(json, data).value, rest);
  }

  // ----- lookups on a decoded scene -----

  /** ComponentType: the empty string when an index is out of range. */
  function ComponentType<V>(sc: Scene<V>, i: int, j: int): Bytes
  {
    if i < 0 || i >= |sc.entities| then []
    else if j < 0 || j >= |sc.entities[i].components| then []
    else
      var t := sc.entities[i].components[j].typeIdx;
      if t < 0 || t >= |sc.names| then [] else sc.names[t]
  }

  /** PropertyValue: nil when an index is out of range. */
  function PropertyValue<V>(sc: Scene<V>, i: int, j: int, k: int): Option<V>
  {
    if i < 0 || i >= |sc.entities| then None
    else if j < 0 || j >= |sc.entities[i].components| then None
    else
      var c := sc.entities[i].components[j];
      if k < 0 || k >= |c.props| then None
      else
        var v := c.props[k].1;
        if v < 0 || v >= |sc.variants| then None else Some(sc.variants[v])
  }

  /** On a decoded scene a lookup misses only for a position the scene does not have. */
  lemma DecodedLookups<V>(json: Json<V>, data: Bytes, i: int, j: int, k: int)
    requires Decode(json, data).Ok?
    ensures var sc := Decode(json, data).value;
      PropertyValue(sc, i, j, k).Some? <==>
        0 <= i < |sc.entities| && 0 <= j < |sc.entities[i].components| && 0 <= k < |sc.entities[i].components[j].props|
    ensures var sc := Decode(json, data).value;
      PropertyValue(sc, i, j, k).Some? ==>
        0 <= sc.entities[i].components[j].props[k].1 < |sc.variants| &&
          PropertyValue(sc, i, j, k) == Some(sc.variants[sc.entities[i].components[j].props[k].1])
    ensures var sc := Decode(json, data).value;
      0 <= i < |sc.entities| && 0 <= j < |sc.entities[i].components| ==>
        0 <= sc.entities[i].components[j].typeIdx < |sc.names| &&
          ComponentType(sc, i, j) == sc.names[sc.entities[i].components[j].typeIdx]
  {
    DecodedFits(json, data);
    var sc := Decode(json, data).value;
    if 0 <= i < |sc.entities| {
      assert EntityFits(|sc.names|, |sc.variants|, sc.entities[i]);
      if 0 <= j < |sc.entities[i].components| {
        var c := sc.entities[i].components[j];
        assert ComponentFits(|sc.names|, |sc.variants|, c);
        if 0 <= k < |c.props| {
          assert PropFits(|sc.names|, |sc.variants|, c.props[k]);
        }
      }
    }
  }
}
