/** Which byte strings the scene decoder accepts, and what it makes of them. */
module SceneAccepts {
  import opened Options
  import opened SceneCodec

  /** Reading little-endian bytes and writing them again gives them back. */
  lemma {:induction false} LEPrinted(s: Bytes, k: nat)
    requires DecLE(s, k).Ok?
    ensures s == EncLE(DecLE(s, k).value, k) + DecLE(s, k).rest
    decreases k
  {
    if k > 0 {
      LEPrinted(s[1..], k - 1);
      var x := DecLE(s, k).value;
      assert x % 256 == s[0] && x / 256 == DecLE(s[1..], k - 1).value;
      assert s == [s[0]] + s[1..];
      Regroup([s[0]], EncLE(x / 256, k - 1), DecLE(s, k).rest);
    }
  }

  lemma WordPrinted(s: Bytes)
    requires Dec32(s).Ok?
    ensures s == Enc32(Dec32(s).value) + Dec32(s).rest
  {
    LEPrinted(s, 4);
  }

  /** Whatever the parser reads, it is what the printer writes for the value. */
  ghost predicate Prints<T>(item: Bytes -> Parsed<T>, enc: T -> Bytes)
  {
    forall s {:trigger item(s)} :: item(s).Ok? ==> s == enc(item(s).value) + item(s).rest
  }

  lemma StringsPrint()
    ensures Prints(DecString, EncString)
  {
    forall s: Bytes | DecString(s).Ok? ensures s == EncString(DecString(s).value) + DecString(s).rest {
      WordPrinted(s);
      var n := Dec32(s);
      assert n.rest == n.rest[..n.value] + n.rest[n.value..];
      Regroup(Enc32(n.value), n.rest[..n.value], n.rest[n.value..]);
    }
  }

  lemma {:induction false} ListPrints<T>(item: Bytes -> Parsed<T>, enc: T -> Bytes, n: nat, s: Bytes)
    requires Prints(item, enc) && DecList(item, n, s).Ok?
    ensures s == EncList(enc, DecList(item, n, s).value) + DecList(item, n, s).rest
  {
    if n > 0 {
      var first := item(s);
      ListPrints(item, enc, n - 1, first.rest);
      var all := DecList(item, n, s);
      assert all.value[1..] == DecList(item, n - 1, first.rest).value;
      Regroup(enc(first.value), EncList(enc, all.value[1..]), all.rest);
    }
  }

  lemma CountedPrints<T>(item: Bytes -> Parsed<T>, enc: T -> Bytes, s: Bytes)
    requires Prints(item, enc) && DecCounted(item, s).Ok?
    ensures var xs := DecCounted(item, s);
      s == (Enc32(|xs.value|) + EncList(enc, xs.value)) + xs.rest
  {
    WordPrinted(s);
    var n, xs := Dec32(s), DecCounted(item, s);
    ListPrints(item, enc, n.value, n.rest);
    Regroup(Enc32(n.value), EncList(enc, xs.value), xs.rest);
  }

  lemma PropsPrint(nNames: nat, nVariants: nat)
    ensures Prints(DecProp(nNames, nVariants), EncProp)
  {
    forall s: Bytes | DecProp(nNames, nVariants)(s).Ok?
      ensures s == EncProp(DecProp(nNames, nVariants)(s).value) + DecProp(nNames, nVariants)(s).rest
    {
      WordPrinted(s);
      var a := Dec32(s);
      WordPrinted(a.rest);
      Regroup(Enc32(a.value), Enc32(Dec32(a.rest).value), Dec32(a.rest).rest);
    }
  }

  lemma ComponentsPrint(nNames: nat, nVariants: nat)
    ensures Prints(DecComponent(nNames, nVariants), EncComponent)
  {
    PropsPrint(nNames, nVariants);
    forall s: Bytes | DecComponent(nNames, nVariants)(s).Ok?
      ensures s == EncComponent(DecComponent(nNames, nVariants)(s).value) + DecComponent(nNames, nVariants)(s).rest
    {
      WordPrinted(s);
      var t := Dec32(s);
      CountedPrints(DecProp(nNames, nVariants), EncProp, t.rest);
      var ps := DecCounted(DecProp(nNames, nVariants), t.rest);
      Regroup(Enc32(t.value), Enc32(|ps.value|) + EncList(EncProp, ps.value), ps.rest);
    }
  }

  lemma EntitiesPrint(nNames: nat, nVariants: nat)
    ensures Prints(DecEntity(nNames, nVariants), EncEntity)
  {
    ComponentsPrint(nNames, nVariants);
    forall s: Bytes | DecEntity(nNames, nVariants)(s).Ok?
      ensures s == EncEntity(DecEntity(nNames, nVariants)(s).value) + DecEntity(nNames, nVariants)(s).rest
    {
      WordPrinted(s);
      var t := Dec32(s);
      CountedPrints(DecComponent(nNames, nVariants), EncComponent, t.rest);
      var cs := DecCounted(DecComponent(nNames, nVariants), t.rest);
      Regroup(Enc32(t.value), Enc32(|cs.value|) + EncList(EncComponent, cs.value), cs.rest);
    }
  }

  /** The texts the variants were read from. */
  lemma {:induction false} VariantsPrint<V>(json: Json<V>, n: nat, s: Bytes) returns (texts: seq<Bytes>)
    requires DecList(DecVariant(json), n, s).Ok?
    ensures Spells(json, texts, DecList(DecVariant(json), n, s).value)
    ensures s == EncList(EncString, texts) + DecList(DecVariant(json), n, s).rest
  {
    texts := [];
    if n > 0 {
      StringsPrint();
      var text := DecString(s);
      var more := VariantsPrint(json, n - 1, text.rest);
      texts := [text.value] + more;
      Regroup(EncString(text.value), EncList(EncString, more), DecList(DecVariant(json), n, s).rest);
    }
  }

  lemma TextsPrint<V>(json: Json<V>, s: Bytes) returns (texts: seq<Bytes>)
    requires DecCounted(DecVariant(json), s).Ok?
    ensures Spells(json, texts, DecCounted(DecVariant(json), s).value)
    ensures s == EncStrings(texts) + DecCounted(DecVariant(json), s).rest
  {
    WordPrinted(s);
    var n := Dec32(s);
    texts := VariantsPrint(json, n.value, n.rest);
    Regroup(Enc32(n.value), EncList(EncString, texts), DecCounted(DecVariant(json), s).rest);
  }

  lemma BodyPrints<V>(json: Json<V>, s: Bytes) returns (texts: seq<Bytes>)
    requires DecBody(json, s).Ok?
    ensures var sc := DecBody(json, s);
      && Spells(json, texts, sc.value.variants)
      && s == (EncStrings(sc.value.names) + (EncStrings(texts) + EncEntities(sc.value.entities))) + sc.rest
  {
    StringsPrint();
    CountedPrints(DecString, EncString, s);
    var names := DecCounted(DecString, s);
    texts := TextsPrint(json, names.rest);
    var vs := DecCounted(DecVariant(json), names.rest);
    EntitiesPrint(|names.value|, |vs.value|);
    CountedPrints(DecEntity(|names.value|, |vs.value|), EncEntity, vs.rest);
    var es := DecCounted(DecEntity(|names.value|, |vs.value|), vs.rest);
    Regroup(EncStrings(texts), EncEntities(es.value), es.rest);
    Regroup(EncStrings(names.value), EncStrings(texts) + EncEntities(es.value), es.rest);
  }

  /** `s` spells the scene, with these texts for its variants, and goes on with `rest`. */
  ghost predicate Spelled<V>(json: Json<V>, s: Bytes, sc: Scene<V>, rest: Bytes, version: nat, texts: seq<Bytes>)
  {
    && version <= VERSION && Fits(sc) && Spells(json, texts, sc.variants)
    && s == (MAGIC + (Enc16(version) + (EncStrings(sc.names) + (EncStrings(texts) + EncEntities(sc.entities))))) + rest
  }

  lemma HeadPrints(s: Bytes)
    requires |s| >= 4 && s[..4] == MAGIC && Dec16(s[4..]).Ok?
    ensures s == MAGIC + (Enc16(Dec16(s[4..]).value) + Dec16(s[4..]).rest)
  {
    LEPrinted(s[4..], 2);
  }

  /** The decoder accepts exactly the encodings of scenes in range, of this version or an
      earlier one, with any texts that JSON decodes into the variants; and returns that scene
      and what follows it. */
  lemma AcceptsIff<V(!new)>(json: Json<V>, s: Bytes, sc: Scene<V>, rest: Bytes)
    ensures Decode(json, s) == Ok(sc, rest) <==>
      exists version: nat, texts: seq<Bytes> :: Spelled(json, s, sc, rest, version, texts)
  {
    if Decode(json, s) == Ok(sc, rest) {
      DecodedFits(json, s);
      HeadPrints(s);
      var v := Dec16(s[4..]);
      var texts := BodyPrints(json, v.rest);
      var body := EncStrings(sc.names) + (EncStrings(texts) + EncEntities(sc.entities));
      Regroup(Enc16(v.value), body, rest);
      Regroup(MAGIC, Enc16(v.value) + body, rest);
      assert Spelled(json, s, sc, rest, v.value, texts);
    }
    forall version: nat, texts: seq<Bytes> | Spelled(json, s, sc, rest, version, texts)
      ensures Decode(json, s) == Ok(sc, rest)
    {
      DecodeSpelled(json, sc, version, texts, rest);
    }
  }

  // ----- scenes from the future -----

  /** No item fails for its version. */
  ghost predicate Timeless<T>(item: Bytes -> Parsed<T>)
  {
    forall s {:trigger item(s)} :: item(s) != Err(FromFuture)
  }

  lemma {:induction false} LETimeless(s: Bytes, k: nat)
    ensures DecLE(s, k).Err? ==> DecLE(s, k).error == Truncated
    decreases k
  {
    if k > 0 && s != [] {
      LETimeless(s[1..], k - 1);
    }
  }

  lemma {:induction false} ListTimeless<T>(item: Bytes -> Parsed<T>, n: nat, s: Bytes)
    requires Timeless(item)
    ensures DecList(item, n, s) != Err(FromFuture)
  {
    if n > 0 && item(s).Ok? {
      ListTimeless(item, n - 1, item(s).rest);
    }
  }

  lemma CountedTimeless<T>(item: Bytes -> Parsed<T>, s: Bytes)
    requires Timeless(item)
    ensures DecCounted(item, s) != Err(FromFuture)
  {
    LETimeless(s, 4);
    if Dec32(s).Ok? {
      ListTimeless(item, Dec32(s).value, Dec32(s).rest);
    }
  }

  lemma ComponentsTimeless(nNames: nat, nVariants: nat)
    ensures Timeless(DecComponent(nNames, nVariants))
  {
    forall s: Bytes ensures DecProp(nNames, nVariants)(s) != Err(FromFuture) {
      LETimeless(s, 4);
      if Dec32(s).Ok? {
        LETimeless(Dec32(s).rest, 4);
      }
    }
    forall s: Bytes ensures DecComponent(nNames, nVariants)(s) != Err(FromFuture) {
      LETimeless(s, 4);
      if Dec32(s).Ok? {
        CountedTimeless(DecProp(nNames, nVariants), Dec32(s).rest);
      }
    }
  }

  lemma BodyTimeless<V>(json: Json<V>, s: Bytes)
    ensures DecBody(json, s) != Err(FromFuture)
  {
    forall t: Bytes ensures DecString(t) != Err(FromFuture) && DecVariant(json)(t) != Err(FromFuture) {
      LETimeless(t, 4);
    }
    CountedTimeless(DecString, s);
    var names := DecCounted(DecString, s);
    if names.Ok? {
      CountedTimeless(DecVariant(json), names.rest);
      var vs := DecCounted(DecVariant(json), names.rest);
      if vs.Ok? {
        ComponentsTimeless(|names.value|, |vs.value|);
        forall t: Bytes ensures DecEntity(|names.value|, |vs.value|)(t) != Err(FromFuture) {
          LETimeless(t, 4);
          if Dec32(t).Ok? {
            CountedTimeless(DecComponent(|names.value|, |vs.value|), Dec32(t).rest);
          }
        }
        CountedTimeless(DecEntity(|names.value|, |vs.value|), vs.rest);
      }
    }
  }

  /** A scene is reported to be from the future exactly when it begins with the magic and a
      later version, whatever else it holds. */
  lemma FutureIff<V>(json: Json<V>, s: Bytes)
    ensures Decode(json, s) == Err(FromFuture) <==>
      |s| >= 6 && s[..4] == [78, 83, 67, 78] && s[4] as int + 256 * s[5] as int > 1
  {
    if |s| >= 4 && s[..4] == MAGIC {
      LETimeless(s[4..], 2);
      var v := Dec16(s[4..]);
      if |s| >= 6 {
        assert DecLE(s[6..], 0) == Ok(0, s[6..]);
        assert s[4..][1..] == s[5..] && s[5..][1..] == s[6..];
        assert DecLE(s[5..], 1) == Ok(s[5] as int, s[6..]);
      } else if |s| == 5 {
        assert s[4..][1..] == [];
        assert DecLE([], 1) == Err(Truncated);
      }
      if v.Ok? {
        BodyTimeless(json, v.rest);
      }
    }
  }
}
