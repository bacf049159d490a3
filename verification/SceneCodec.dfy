/** The interned binary form of a scene: what is written and what is read back. */
module SceneCodec {
  import opened Options

  type Byte = x: nat | x < 256 witness 0

  type Bytes = seq<Byte>

  const WORD := 0x1_0000_0000

  /** Names are stored once and referred to by index; V is a property value. */
  datatype Component = Component(props: seq<(int, int)>, typeIdx: int)

  datatype Entity = Entity(components: seq<Component>, nameIdx: int)

  datatype Scene<V> = Scene(names: seq<Bytes>, variants: seq<V>, entities: seq<Entity>)

  datatype Error = BadMagic | FromFuture | Truncated | BadVariant | OutOfRange

  datatype Parsed<T> = Ok(value: T, rest: Bytes) | Err(error: Error)

  /** JSON encoding and decoding of one value, either of which can fail. */
  datatype Json<!V> = Json(enc: V -> Option<Bytes>, dec: Bytes -> Option<V>)

  const MAGIC: Bytes := [78, 83, 67, 78]
  const VERSION := 1

  // ----- the wire format -----

  /** `uint32(x)`: the low 32 bits. */
  function Low(x: int): (r: nat)
    ensures r < WORD
  {
    x % WORD
  }

  /** The low k bytes of x, least significant first. */
  function EncLE(x: nat, k: nat): (b: Bytes)
    ensures |b| == k
    decreases k, x
  {
    if k == 0 then [] else [x % 256] + EncLE(x / 256, k - 1)
  }

  function Enc16(x: nat): Bytes { EncLE(x, 2) }

  function Enc32(x: int): Bytes { EncLE(Low(x), 4) }

  function EncString(s: Bytes): Bytes { Enc32(|s|) + s }

  function EncList<T>(item: T -> Bytes, xs: seq<T>): Bytes
  {
    if xs == [] then [] else item(xs[0]) + EncList(item, xs[1..])
  }

  function EncProp(p: (int, int)): Bytes { Enc32(p.0) + Enc32(p.1) }

  function EncComponent(c: Component): Bytes
  {
    Enc32(c.typeIdx) + (Enc32(|c.props|) + EncList(EncProp, c.props))
  }

  function EncEntity(e: Entity): Bytes
  {
    Enc32(e.nameIdx) + (Enc32(|e.components|) + EncList(EncComponent, e.components))
  }

  /** The variants as JSON texts, if all of them have one. */
  function Texts<V>(json: Json<V>, vs: seq<V>): (r: Option<seq<Bytes>>)
    ensures r.Some? ==> |r.value| == |vs| && forall k :: 0 <= k < |vs| ==> json.enc(vs[k]) == Some(r.value[k])
    ensures r.None? ==> exists k :: 0 <= k < |vs| && json.enc(vs[k]).None?
  {
    if vs == [] then Some([])
    else
      var first, others := json.enc(vs[0]), Texts(json, vs[1..]);
      if first.Some? && others.Some? then Some([first.value] + others.value)
      else
        assert others.None? ==> exists k :: 0 <= k < |vs[1..]| && json.enc(vs[1..][k]).None?;
        assert forall k :: 0 <= k < |vs[1..]| ==> vs[1..][k] == vs[k + 1];
        None
  }

  function EncStrings(ss: seq<Bytes>): Bytes { Enc32(|ss|) + EncList(EncString, ss) }

  function EncEntities(es: seq<Entity>): Bytes { Enc32(|es|) + EncList(EncEntity, es) }

  /** The whole encoding, given the JSON texts of the variants. */
  function EncBody(names: seq<Bytes>, texts: seq<Bytes>, es: seq<Entity>): Bytes
  {
    MAGIC + (Enc16(VERSION) + (EncStrings(names) + (EncStrings(texts) + EncEntities(es))))
  }

  function Encode<V>(json: Json<V>, sc: Scene<V>): Option<Bytes>
  {
    var texts := Texts(json, sc.variants);
    if texts.None? then None else Some(EncBody(sc.names, texts.value, sc.entities))
  }

  // ----- reading it back -----

  function Pow256(k: nat): nat { if k == 0 then 1 else 256 * Pow256(k - 1) }

  function DecLE(s: Bytes, k: nat): (r: Parsed<nat>)
    ensures r.Ok? ==> r.value < Pow256(k)
    decreases k, |s|
  {
    if k == 0 then Ok(0, s)
    else if s == [] then Err(Truncated)
    else
      var high := DecLE(s[1..], k - 1);
      if high.Err? then Err(high.error) else Ok(s[0] as int + 256 * high.value, high.rest)
  }

  function Dec16(s: Bytes): Parsed<nat> { DecLE(s, 2) }

  function Dec32(s: Bytes): (r: Parsed<nat>)
    ensures r.Ok? ==> r.value < WORD
  {
    assert Pow256(4) == WORD;
    DecLE(s, 4)
  }

  function DecString(s: Bytes): Parsed<Bytes>
  {
    var n := Dec32(s);
    if n.Err? then Err(n.error)
    else if |n.rest| < n.value then Err(Truncated)
    else Ok(n.rest[..n.value], n.rest[n.value..])
  }

  /** n items one after another, up to the first failure. */
  function DecList<T>(item: Bytes -> Parsed<T>, n: nat, s: Bytes): (r: Parsed<seq<T>>)
    ensures r.Ok? ==> |r.value| == n
  {
    if n == 0 then Ok([], s)
    else
      var first := item(s);
      if first.Err? then Err(first.error)
      else
        var others := DecList(item, n - 1, first.rest);
        if others.Err? then Err(others.error) else Ok([first.value] + others.value, others.rest)
  }

  /** A length, then that many items. */
  function DecCounted<T>(item: Bytes -> Parsed<T>, s: Bytes): (r: Parsed<seq<T>>)
    ensures r.Ok? ==> |r.value| < WORD
  {
    var n := Dec32(s);
    if n.Err? then Err(n.error) else DecList(item, n.value, n.rest)
  }

  function DecVariant<V>(json: Json<V>): Bytes -> Parsed<V>
  {
    s =>
      var text := DecString(s);
      if text.Err? then Err(text.error)
      else
        var v := json.dec(text.value);
        if v.None? then Err(BadVariant) else Ok(v.value, text.rest)
  }

  function DecProp(nNames: nat, nVariants: nat): Bytes -> Parsed<(int, int)>
  {
    s =>
      var a := Dec32(s);
      if a.Err? then Err(a.error)
      else
        var b := Dec32(a.rest);
        if b.Err? then Err(b.error)
        else if a.value >= nNames || b.value >= nVariants then Err(OutOfRange)
        else Ok((a.value, b.value), b.rest)
  }

  function DecComponent(nNames: nat, nVariants: nat): Bytes -> Parsed<Component>
  {
    s =>
      var t := Dec32(s);
      if t.Err? then Err(t.error)
      else if t.value >= nNames then Err(OutOfRange)
      else
        var ps := DecCounted(DecProp(nNames, nVariants), t.rest);
        if ps.Err? then Err(ps.error) else Ok(Component(ps.value, t.value), ps.rest)
  }

  function DecEntity(nNames: nat, nVariants: nat): Bytes -> Parsed<Entity>
  {
    s =>
      var t := Dec32(s);
      if t.Err? then Err(t.error)
      else if t.value >= nNames then Err(OutOfRange)
      else
        var cs := DecCounted(DecComponent(nNames, nVariants), t.rest);
        if cs.Err? then Err(cs.error) else Ok(Entity(cs.value, t.value), cs.rest)
  }

  function DecBody<V>(json: Json<V>, s: Bytes): Parsed<Scene<V>>
  {
    var names := DecCounted(DecString, s);
    if names.Err? then Err(names.error)
    else
      var vs := DecCounted(DecVariant(json), names.rest);
      if vs.Err? then Err(vs.error)
      else
        var es := DecCounted(DecEntity(|names.value|, |vs.value|), vs.rest);
        if es.Err? then Err(es.error) else Ok(Scene(names.value, vs.value, es.value), es.rest)
  }

  /** A scene and what follows it; versions up to the current one are read. */
  function Decode<V>(json: Json<V>, s: Bytes): Parsed<Scene<V>>
  {
    if |s| < 4 || s[..4] != MAGIC then Err(BadMagic)
    else
      var v := Dec16(s[4..]);
      if v.Err? then Err(v.error)
      else if v.value > VERSION then Err(FromFuture)
      else DecBody(json, v.rest)
  }

  // ----- what is in range -----

  predicate PropFits(nNames: nat, nVariants: nat, p: (int, int))
  {
    0 <= p.0 < nNames && 0 <= p.1 < nVariants
  }

  predicate ComponentFits(nNames: nat, nVariants: nat, c: Component)
  {
    && 0 <= c.typeIdx < nNames && |c.props| < WORD
    && forall k :: 0 <= k < |c.props| ==> PropFits(nNames, nVariants, c.props[k])
  }

  predicate EntityFits(nNames: nat, nVariants: nat, e: Entity)
  {
    && 0 <= e.nameIdx < nNames && |e.components| < WORD
    && forall k :: 0 <= k < |e.components| ==> ComponentFits(nNames, nVariants, e.components[k])
  }

  /** Every index refers to something, and every list is short enough to count. */
  predicate Fits<V>(sc: Scene<V>)
  {
    && |sc.names| < WORD && |sc.variants| < WORD && |sc.entities| < WORD
    && (forall k :: 0 <= k < |sc.names| ==> |sc.names[k]| < WORD)
    && forall k :: 0 <= k < |sc.entities| ==> EntityFits(|sc.names|, |sc.variants|, sc.entities[k])
  }

  // ----- round trip -----

  lemma Regroup<T>(a: seq<T>, b: seq<T>, c: seq<T>)
    ensures (a + b) + c == a + (b + c)
  {
  }

  lemma {:induction false} RoundTripLE(x: nat, k: nat, rest: Bytes)
    requires x < Pow256(k)
    ensures DecLE(EncLE(x, k) + rest, k) == Ok(x, rest)
    decreases k
  {
    if k == 0 {
      assert EncLE(x, k) + rest == rest;
    } else {
      RoundTripLE(x / 256, k - 1, rest);
      assert EncLE(x, k) + rest == [x % 256] + (EncLE(x / 256, k - 1) + rest);
    }
  }

  lemma RoundTrip16(x: nat, rest: Bytes)
    requires x < 65536
    ensures Dec16(Enc16(x) + rest) == Ok(x, rest)
  {
    assert Pow256(2) == 65536;
    RoundTripLE(x, 2, rest);
  }

  lemma RoundTrip32(x: int, rest: Bytes)
    ensures Dec32(Enc32(x) + rest) == Ok(Low(x), rest)
  {
    assert Pow256(4) == WORD;
    RoundTripLE(Low(x), 4, rest);
  }

  lemma RoundTripString(s: Bytes, rest: Bytes)
    requires |s| < WORD
    ensures DecString(EncString(s) + rest) == Ok(s, rest)
  {
    RoundTrip32(|s|, s + rest);
    Regroup(Enc32(|s|), s, rest);
    assert (s + rest)[..|s|] == s && (s + rest)[|s|..] == rest;
  }

  /** The parser undoes the printer on x, whatever follows. */
  ghost predicate Undoes<T>(item: Bytes -> Parsed<T>, enc: T -> Bytes, x: T)
  {
    forall rest :: item(enc(x) + rest) == Ok(x, rest)
  }

  lemma {:induction false} RoundTripList<T>(item: Bytes -> Parsed<T>, enc: T -> Bytes, xs: seq<T>, rest: Bytes)
    requires forall k :: 0 <= k < |xs| ==> Undoes(item, enc, xs[k])
    ensures DecList(item, |xs|, EncList(enc, xs) + rest) == Ok(xs, rest)
  {
    if xs == [] {
      assert EncList(enc, xs) + rest == rest;
    } else {
      var tail := EncList(enc, xs[1..]) + rest;
      assert Undoes(item, enc, xs[0]);
      forall k | 0 <= k < |xs[1..]| ensures Undoes(item, enc, xs[1..][k]) {
        assert xs[1..][k] == xs[k + 1];
      }
      RoundTripList(item, enc, xs[1..], rest);
      Regroup(enc(xs[0]), EncList(enc, xs[1..]), rest);
      assert [xs[0]] + xs[1..] == xs;
    }
  }

  /** A word in front, read off. */
  lemma Word32(x: int, body: Bytes, rest: Bytes)
    requires 0 <= x < WORD
    ensures Dec32((Enc32(x) + body) + rest) == Ok(x, body + rest)
  {
    RoundTrip32(x, body + rest);
    Regroup(Enc32(x), body, rest);
  }

  lemma CountedAt<T>(item: Bytes -> Parsed<T>, xs: seq<T>, s: Bytes, t: Bytes, rest: Bytes)
    requires Dec32(s) == Ok(|xs|, t) && DecList(item, |xs|, t) == Ok(xs, rest)
    ensures DecCounted(item, s) == Ok(xs, rest)
  {
  }

  lemma CountedFrom<T>(item: Bytes -> Parsed<T>, xs: seq<T>, body: Bytes, rest: Bytes)
    requires |xs| < WORD && DecList(item, |xs|, body + rest) == Ok(xs, rest)
    ensures DecCounted(item, (Enc32(|xs|) + body) + rest) == Ok(xs, rest)
  {
    Word32(|xs|, body, rest);
    CountedAt(item, xs, (Enc32(|xs|) + body) + rest, body + rest, rest);
  }

  lemma RoundTripCounted<T>(item: Bytes -> Parsed<T>, enc: T -> Bytes, xs: seq<T>, rest: Bytes)
    requires |xs| < WORD && forall k :: 0 <= k < |xs| ==> Undoes(item, enc, xs[k])
    ensures DecCounted(item, (Enc32(|xs|) + EncList(enc, xs)) + rest) == Ok(xs, rest)
  {
    RoundTripList(item, enc, xs, rest);
    CountedFrom(item, xs, EncList(enc, xs), rest);
  }

  lemma RoundTripProp(nNames: nat, nVariants: nat, p: (int, int))
    requires nNames < WORD && nVariants < WORD && PropFits(nNames, nVariants, p)
    ensures Undoes(DecProp(nNames, nVariants), EncProp, p)
  {
    forall rest ensures DecProp(nNames, nVariants)(EncProp(p) + rest) == Ok(p, rest) {
      RoundTrip32(p.0, Enc32(p.1) + rest);
      RoundTrip32(p.1, rest);
      Regroup(Enc32(p.0), Enc32(p.1), rest);
    }
  }

  lemma ComponentFrom(nNames: nat, nVariants: nat, c: Component, body: Bytes, rest: Bytes)
    requires 0 <= c.typeIdx < nNames < WORD && DecCounted(DecProp(nNames, nVariants), body + rest) == Ok(c.props, rest)
    ensures DecComponent(nNames, nVariants)((Enc32(c.typeIdx) + body) + rest) == Ok(c, rest)
  {
    Word32(c.typeIdx, body, rest);
  }

  lemma RoundTripComponent(nNames: nat, nVariants: nat, c: Component)
    requires nNames < WORD && nVariants < WORD && ComponentFits(nNames, nVariants, c)
    ensures Undoes(DecComponent(nNames, nVariants), EncComponent, c)
  {
    forall k | 0 <= k < |c.props| ensures Undoes(DecProp(nNames, nVariants), EncProp, c.props[k]) {
      RoundTripProp(nNames, nVariants, c.props[k]);
    }
    forall rest ensures DecComponent(nNames, nVariants)(EncComponent(c) + rest) == Ok(c, rest) {
      RoundTripCounted(DecProp(nNames, nVariants), EncProp, c.props, rest);
      ComponentFrom(nNames, nVariants, c, Enc32(|c.props|) + EncList(EncProp, c.props), rest);
    }
  }

  lemma EntityFrom(nNames: nat, nVariants: nat, e: Entity, body: Bytes, rest: Bytes)
    requires 0 <= e.nameIdx < nNames < WORD &&
      DecCounted(DecComponent(nNames, nVariants), body + rest) == Ok(e.components, rest)
    ensures DecEntity(nNames, nVariants)((Enc32(e.nameIdx) + body) + rest) == Ok(e, rest)
  {
    Word32(e.nameIdx, body, rest);
  }

  lemma RoundTripEntity(nNames: nat, nVariants: nat, e: Entity)
    requires nNames < WORD && nVariants < WORD && EntityFits(nNames, nVariants, e)
    ensures Undoes(DecEntity(nNames, nVariants), EncEntity, e)
  {
    forall k | 0 <= k < |e.components| ensures Undoes(DecComponent(nNames, nVariants), EncComponent, e.components[k]) {
      RoundTripComponent(nNames, nVariants, e.components[k]);
    }
    forall rest ensures DecEntity(nNames, nVariants)(EncEntity(e) + rest) == Ok(e, rest) {
      RoundTripCounted(DecComponent(nNames, nVariants), EncComponent, e.components, rest);
      EntityFrom(nNames, nVariants, e, Enc32(|e.components|) + EncList(EncComponent, e.components), rest);
    }
  }

  /** JSON decoding undoes JSON encoding on these values, whose texts are short enough to
      count. */
  ghost predicate Faithful<V>(json: Json<V>, vs: seq<V>)
  {
    forall k :: 0 <= k < |vs| && json.enc(vs[k]).Some? ==>
      |json.enc(vs[k]).value| < WORD && json.dec(json.enc(vs[k]).value) == Some(vs[k])
  }

  /** JSON decoding turns these texts, short enough to count, into these values. */
  ghost predicate Spells<V>(json: Json<V>, texts: seq<Bytes>, vs: seq<V>)
  {
    |texts| == |vs| && forall k :: 0 <= k < |vs| ==> |texts[k]| < WORD && json.dec(texts[k]) == Some(vs[k])
  }

  lemma {:induction false} VariantsFrom<V>(json: Json<V>, vs: seq<V>, texts: seq<Bytes>, rest: Bytes)
    requires Spells(json, texts, vs)
    ensures DecList(DecVariant(json), |vs|, EncList(EncString, texts) + rest) == Ok(vs, rest)
  {
    if vs == [] {
      assert EncList(EncString, texts) + rest == rest;
    } else {
      VariantsFrom(json, vs[1..], texts[1..], rest);
      var tail := EncList(EncString, texts[1..]) + rest;
      RoundTripString(texts[0], tail);
      Regroup(EncString(texts[0]), EncList(EncString, texts[1..]), rest);
      assert [vs[0]] + vs[1..] == vs;
    }
  }

  lemma RoundTripNames(names: seq<Bytes>, rest: Bytes)
    requires |names| < WORD && forall k :: 0 <= k < |names| ==> |names[k]| < WORD
    ensures DecCounted(DecString, EncStrings(names) + rest) == Ok(names, rest)
  {
    forall k | 0 <= k < |names| ensures Undoes(DecString, EncString, names[k]) {
      forall more ensures DecString(EncString(names[k]) + more) == Ok(names[k], more) {
        RoundTripString(names[k], more);
      }
    }
    RoundTripCounted(DecString, EncString, names, rest);
  }

  lemma TextsFrom<V>(json: Json<V>, vs: seq<V>, texts: seq<Bytes>, rest: Bytes)
    requires |vs| < WORD && Spells(json, texts, vs)
    ensures DecCounted(DecVariant(json), EncStrings(texts) + rest) == Ok(vs, rest)
  {
    VariantsFrom(json, vs, texts, rest);
    CountedFrom(DecVariant(json), vs, EncList(EncString, texts), rest);
  }

  lemma RoundTripEntities(nNames: nat, nVariants: nat, es: seq<Entity>, rest: Bytes)
    requires nNames < WORD && nVariants < WORD && |es| < WORD
    requires forall k :: 0 <= k < |es| ==> EntityFits(nNames, nVariants, es[k])
    ensures DecCounted(DecEntity(nNames, nVariants), EncEntities(es) + rest) == Ok(es, rest)
  {
    forall k | 0 <= k < |es| ensures Undoes(DecEntity(nNames, nVariants), EncEntity, es[k]) {
      RoundTripEntity(nNames, nVariants, es[k]);
    }
    RoundTripCounted(DecEntity(nNames, nVariants), EncEntity, es, rest);
  }

  lemma BodyFrom<V>(json: Json<V>, sc: Scene<V>, a: Bytes, b: Bytes, c: Bytes, rest: Bytes)
    requires DecCounted(DecString, a + (b + (c + rest))) == Ok(sc.names, b + (c + rest))
    requires DecCounted(DecVariant(json), b + (c + rest)) == Ok(sc.variants, c + rest)
    requires DecCounted(DecEntity(|sc.names|, |sc.variants|), c + rest) == Ok(sc.entities, rest)
    ensures DecBody(json, (a + (b + c)) + rest) == Ok(sc, rest)
  {
    Regroup(a, b + c, rest);
    Regroup(b, c, rest);
  }

  lemma BodySpelled<V>(json: Json<V>, sc: Scene<V>, texts: seq<Bytes>, rest: Bytes)
    requires Fits(sc) && Spells(json, texts, sc.variants)
    ensures var body := EncStrings(sc.names) + (EncStrings(texts) + EncEntities(sc.entities));
      DecBody(json, body + rest) == Ok(sc, rest)
  {
    var a, b, c := EncStrings(sc.names), EncStrings(texts), EncEntities(sc.entities);
    RoundTripNames(sc.names, b + (c + rest));
    TextsFrom(json, sc.variants, texts, c + rest);
    RoundTripEntities(|sc.names|, |sc.variants|, sc.entities, rest);
    BodyFrom(json, sc, a, b, c, rest);
  }

  lemma DecodeSpelled<V>(json: Json<V>, sc: Scene<V>, version: nat, texts: seq<Bytes>, rest: Bytes)
    requires Fits(sc) && Spells(json, texts, sc.variants) && version <= VERSION
    ensures var body := EncStrings(sc.names) + (EncStrings(texts) + EncEntities(sc.entities));
      Decode(json, (MAGIC + (Enc16(version) + body)) + rest) == Ok(sc, rest)
  {
    var body := EncStrings(sc.names) + (EncStrings(texts) + EncEntities(sc.entities));
    var bytes := (MAGIC + (Enc16(version) + body)) + rest;
    Regroup(MAGIC, Enc16(version) + body, rest);
    Regroup(Enc16(version), body, rest);
    assert bytes[..4] == MAGIC && bytes[4..] == Enc16(version) + (body + rest);
    RoundTrip16(version, body + rest);
    BodySpelled(json, sc, texts, rest);
  }

  lemma {:induction false} ListOf<T>(item: Bytes -> Parsed<T>, n: nat, s: Bytes, fits: T -> bool)
    requires DecList(item, n, s).Ok? && forall t :: item(t).Ok? ==> fits(item(t).value)
    ensures forall k :: 0 <= k < n ==> fits(DecList(item, n, s).value[k])
  {
    if n > 0 {
      ListOf(item, n - 1, item(s).rest, fits);
    }
  }

  lemma CountedOf<T>(item: Bytes -> Parsed<T>, s: Bytes, fits: T -> bool)
    requires DecCounted(item, s).Ok? && forall t :: item(t).Ok? ==> fits(item(t).value)
    ensures forall k :: 0 <= k < |DecCounted(item, s).value| ==> fits(DecCounted(item, s).value[k])
  {
    ListOf(item, Dec32(s).value, Dec32(s).rest, fits);
  }

  lemma ComponentOf(nNames: nat, nVariants: nat, s: Bytes)
    requires DecComponent(nNames, nVariants)(s).Ok?
    ensures ComponentFits(nNames, nVariants, DecComponent(nNames, nVariants)(s).value)
  {
    CountedOf(DecProp(nNames, nVariants), Dec32(s).rest, p => PropFits(nNames, nVariants, p));
  }

  lemma EntityOf(nNames: nat, nVariants: nat, s: Bytes)
    requires DecEntity(nNames, nVariants)(s).Ok?
    ensures EntityFits(nNames, nVariants, DecEntity(nNames, nVariants)(s).value)
  {
    forall t | DecComponent(nNames, nVariants)(t).Ok?
      ensures ComponentFits(nNames, nVariants, DecComponent(nNames, nVariants)(t).value)
    {
      ComponentOf(nNames, nVariants, t);
    }
    CountedOf(DecComponent(nNames, nVariants), Dec32(s).rest, c => ComponentFits(nNames, nVariants, c));
  }

  /** Every byte string the decoder accepts gives a scene whose indices are in range. */
  lemma DecodedFits<V>(json: Json<V>, s: Bytes)
    requires Decode(json, s).Ok?
    ensures Fits(Decode(json, s).value)
  {
    var body := Dec16(s[4..]).rest;
    var names := DecCounted(DecString, body);
    CountedOf(DecString, body, (t: Bytes) => |t| < WORD);
    var vs := DecCounted(DecVariant(json), names.rest);
    var nNames, nVariants := |names.value|, |vs.value|;
    forall t | DecEntity(nNames, nVariants)(t).Ok?
      ensures EntityFits(nNames, nVariants, DecEntity(nNames, nVariants)(t).value)
    {
      EntityOf(nNames, nVariants, t);
    }
    CountedOf(DecEntity(nNames, nVariants), vs.rest, e => EntityFits(nNames, nVariants, e));
  }

  /** Decoding undoes encoding, whatever bytes follow, exactly on the scenes whose indices
      are in range and whose lists and strings are short enough to count. */
  lemma RoundTripIff<V>(json: Json<V>, sc: Scene<V>, rest: Bytes)
    requires Encode(json, sc).Some? && Faithful(json, sc.variants)
    ensures Decode(json, Encode(json, sc).value + rest) == Ok(sc, rest) <==> Fits(sc)
  {
    var bytes := Encode(json, sc).value + rest;
    if Decode(json, bytes) == Ok(sc, rest) {
      DecodedFits(json, bytes);
    }
    if Fits(sc) {
      DecodeSpelled(json, sc, VERSION, Texts(json, sc.variants).value, rest);
    }
  }

  /** So the encoding is injective and prefix-free. */
  lemma PrefixFree<V>(json: Json<V>, a: Scene<V>, b: Scene<V>, x: Bytes, y: Bytes)
    requires Fits(a) && Fits(b) && Faithful(json, a.variants) && Faithful(json, b.variants)
    requires Encode(json, a).Some? && Encode(json, b).Some?
    requires Encode(json, a).value + x == Encode(json, b).value + y
    ensures a == b && x == y
  {
    RoundTripIff(json, a, x);
    RoundTripIff(json, b, y);
  }
}
