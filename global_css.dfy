/**
 * The `newCSS` object built by `$.fn.globalCSS(css)`: for every key of `css`,
 * in `Object.keys` order, the four vendor-prefixed names and then the key
 * itself are written with `css[key]`. Applying it with `$(this).css` is not
 * modelled.
 */
module GlobalCss {
  import opened JsObjects

  const Browsers: seq<string> := ["-webkit-", "-moz-", "-ms-", "-o-"]

  /** The five property names written for one key, in write order. */
  function Variants(key: string): (r: seq<string>)
    ensures |r| == 5 && Distinct(r)
    ensures r[4] == key
    ensures forall b :: 0 <= b < 4 ==> r[b] == Browsers[b] + key
  {
    [Browsers[0] + key, Browsers[1] + key, Browsers[2] + key, Browsers[3] + key, key]
  }

  /** The writes made for one key whose value is `v`. */
  function KeyWrites(key: string, v: JsValue): (ws: seq<Write>)
    ensures |ws| == 5
    ensures forall b :: 0 <= b < 5 ==> ws[b] == (Variants(key)[b], v)
  {
    seq(5, b requires 0 <= b < 5 => (Variants(key)[b], v))
  }

  /** One key's writes go to its five variants, in order. */
  lemma KeyWritesTargets(key: string, v: JsValue)
    ensures Targets(KeyWrites(key, v)) == Variants(key)
  {
  }

  /** Every property name written for `keys`, in write order. */
  function WriteKeys(keys: seq<string>): (r: seq<string>)
    ensures |r| == 5 * |keys|
  {
    if keys == [] then [] else WriteKeys(keys[..|keys| - 1]) + Variants(keys[|keys| - 1])
  }

  /** Every write made for `keys`, in order. */
  function Writes(css: Obj, keys: seq<string>): seq<Write>
    requires forall k :: k in keys ==> k in css.vals
  {
    if keys == [] then []
    else
      var k := keys[|keys| - 1];
      Writes(css, keys[..|keys| - 1]) + KeyWrites(k, css.vals[k])
  }

  /** The object `newCSS` once both loops are done. */
  function Expanded(css: Obj): (r: Obj)
    requires Valid(css)
    ensures Valid(r)
  {
    PutAll(Empty, Writes(css, css.keys))
  }

  /** The position in `keys` of the last key that writes the property `x`. */
  function LastSource(keys: seq<string>, x: string): (i: nat)
    requires x in WriteKeys(keys)
    ensures i < |keys| && x in Variants(keys[i])
    ensures forall j :: i < j < |keys| ==> x !in Variants(keys[j])
  {
    var last := keys[|keys| - 1];
    if x in Variants(last) then |keys| - 1
    else
      var i := LastSource(keys[..|keys| - 1], x);
      assert forall j :: i < j < |keys| - 1 ==> keys[j] == keys[..|keys| - 1][j];
      i
  }

  lemma {:induction false} WritesTargets(css: Obj, keys: seq<string>)
    requires forall k :: k in keys ==> k in css.vals
    ensures Targets(Writes(css, keys)) == WriteKeys(keys)
  {
    if keys != [] {
      var k := keys[|keys| - 1];
      var init := keys[..|keys| - 1];
      WritesTargets(css, init);
      assert Targets(KeyWrites(k, css.vals[k])) == Variants(k);
      assert Targets(Writes(css, init) + KeyWrites(k, css.vals[k]))
          == Targets(Writes(css, init)) + Targets(KeyWrites(k, css.vals[k]));
    }
  }

  /** A property name is written exactly when it is a variant of some key. */
  lemma {:induction false} WriteKeysMembers(keys: seq<string>, x: string)
    ensures x in WriteKeys(keys) <==> exists i :: 0 <= i < |keys| && x in Variants(keys[i])
  {
    if keys != [] {
      var init := keys[..|keys| - 1];
      assert WriteKeys(keys) == WriteKeys(init) + Variants(keys[|keys| - 1]);
      WriteKeysMembers(init, x);
      if x in WriteKeys(init) {
        var i :| 0 <= i < |init| && x in Variants(init[i]);
        assert keys[i] == init[i];
      }
      if exists i :: 0 <= i < |keys| && x in Variants(keys[i]) {
        var i :| 0 <= i < |keys| && x in Variants(keys[i]);
        if i < |init| {
          assert init[i] == keys[i];
        }
      }
    }
  }

  /** Writes are laid out five per key: the `b`-th variant of key `i` is write `5 * i + b`. */
  lemma {:induction false} WriteKeysAt(keys: seq<string>, i: nat, b: nat)
    requires i < |keys| && b < 5
    ensures WriteKeys(keys)[5 * i + b] == Variants(keys[i])[b]
  {
    var init := keys[..|keys| - 1];
    if i < |keys| - 1 {
      WriteKeysAt(init, i, b);
    }
  }

  /** The value every written property ends with: that of the last key writing it. */
  lemma {:induction false} ExpandedValueFrom(css: Obj, keys: seq<string>, x: string)
    requires Valid(css)
    requires forall k :: k in keys ==> k in css.vals
    requires x in WriteKeys(keys)
    ensures Get(PutAll(Empty, Writes(css, keys)), x) == css.vals[keys[LastSource(keys, x)]]
  {
    var k := keys[|keys| - 1];
    var init := keys[..|keys| - 1];
    var kw := KeyWrites(k, css.vals[k]);
    assert Writes(css, keys) == Writes(css, init) + kw;
    assert WriteKeys(keys) == WriteKeys(init) + Variants(k);
    PutAllConcat(Empty, Writes(css, init), kw);
    var prev := PutAll(Empty, Writes(css, init));
    assert Targets(kw) == Variants(k);
    if x in Variants(k) {
      PutAllUniform(prev, kw, css.vals[k], x);
      assert LastSource(keys, x) == |keys| - 1;
    } else {
      PutAllUntouched(prev, kw, x);
      assert x in WriteKeys(init);
      ExpandedValueFrom(css, init, x);
      LastSourceOfInit(keys, x);
    }
  }

  /** A name the last key does not write has the same last writer without that key. */
  lemma LastSourceOfInit(keys: seq<string>, x: string)
    requires keys != [] && x !in Variants(keys[|keys| - 1])
    requires x in WriteKeys(keys[..|keys| - 1])
    ensures x in WriteKeys(keys)
    ensures keys[LastSource(keys, x)] == keys[..|keys| - 1][LastSource(keys[..|keys| - 1], x)]
  {
    var init := keys[..|keys| - 1];
    assert WriteKeys(keys) == WriteKeys(init) + Variants(keys[|keys| - 1]);
    assert LastSource(keys, x) == LastSource(init, x);
  }

  /**
   * The keys of `newCSS` are the written names in order of first write; a name
   * is present exactly when it was written; and it holds the value of the last
   * key, in `Object.keys` order, among whose variants it is.
   */
  lemma ExpandedFacts(css: Obj)
    requires Valid(css)
    ensures Expanded(css).keys == Dedup(WriteKeys(css.keys))
    ensures forall x :: x in Expanded(css).vals <==> x in WriteKeys(css.keys)
    ensures forall x :: x in WriteKeys(css.keys) ==>
      Expanded(css).vals[x] == css.vals[css.keys[LastSource(css.keys, x)]]
  {
    WritesTargets(css, css.keys);
    PutAllKeys(Writes(css, css.keys));
    forall x
      ensures x in Expanded(css).vals <==> x in WriteKeys(css.keys)
    {
      PutAllDomain(Empty, Writes(css, css.keys), x);
    }
    forall x | x in WriteKeys(css.keys)
      ensures Expanded(css).vals[x] == css.vals[css.keys[LastSource(css.keys, x)]]
    {
      ExpandedValueFrom(css, css.keys, x);
    }
  }

  /** No two input keys produce a common property name. */
  ghost predicate NoCollisions(keys: seq<string>) {
    forall i, j, x :: 0 <= i < j < |keys| && x in Variants(keys[i]) ==> x !in Variants(keys[j])
  }

  /** Without collisions, no property name is written twice. */
  lemma {:induction false} WriteKeysDistinct(keys: seq<string>)
    requires NoCollisions(keys)
    ensures Distinct(WriteKeys(keys))
  {
    if keys != [] {
      var init := keys[..|keys| - 1];
      var last := keys[|keys| - 1];
      assert NoCollisions(init) by {
        forall i, j, x | 0 <= i < j < |init| && x in Variants(init[i])
          ensures x !in Variants(init[j])
        {
          assert init[i] == keys[i] && init[j] == keys[j];
        }
      }
      WriteKeysDistinct(init);
      var a, v := WriteKeys(init), Variants(last);
      forall x | x in a
        ensures x !in v
      {
        WriteKeysMembers(init, x);
        var i :| 0 <= i < |init| && x in Variants(init[i]);
        assert init[i] == keys[i];
      }
      forall p, q | 0 <= p < q < |a + v|
        ensures (a + v)[p] != (a + v)[q]
      {
        if q >= |a| && p < |a| {
          assert (a + v)[p] in a;
        }
      }
    }
  }

  /** Without collisions, the only key writing a variant of key `i` is key `i`. */
  lemma UniqueSource(keys: seq<string>, i: nat, x: string)
    requires NoCollisions(keys)
    requires i < |keys| && x in Variants(keys[i])
    ensures x in WriteKeys(keys)
    ensures LastSource(keys, x) == i
  {
    WriteKeysMembers(keys, x);
  }

  /**
   * Without collisions, `newCSS` has exactly five entries per input key, in
   * write order, and every variant of a key holds that key's value.
   */
  lemma ExpandedWithoutCollisions(css: Obj)
    requires Valid(css)
    requires NoCollisions(css.keys)
    ensures Expanded(css).keys == WriteKeys(css.keys)
    ensures |Expanded(css).keys| == 5 * |css.keys|
    ensures forall i, x :: 0 <= i < |css.keys| && x in Variants(css.keys[i]) ==>
      Get(Expanded(css), x) == css.vals[css.keys[i]]
  {
    ExpandedFacts(css);
    WriteKeysDistinct(css.keys);
    DedupDistinct(WriteKeys(css.keys));
    forall i, x | 0 <= i < |css.keys| && x in Variants(css.keys[i])
      ensures Get(Expanded(css), x) == css.vals[css.keys[i]]
    {
      UniqueSource(css.keys, i, x);
    }
  }

  /** The names written for the keys `transform` and `-o-transform`. */
  lemma CollisionWriteKeys()
    ensures WriteKeys(["transform", "-o-transform"]) == Variants("transform") + Variants("-o-transform")
  {
    var keys := ["transform", "-o-transform"];
    assert keys[..1] == ["transform"];
    assert ["transform"][..0] == [];
  }

  /** `-o-transform` is last written by the second key, `transform` only by the first. */
  lemma CollisionSources()
    ensures "-o-transform" in WriteKeys(["transform", "-o-transform"])
    ensures "transform" in WriteKeys(["transform", "-o-transform"])
    ensures LastSource(["transform", "-o-transform"], "-o-transform") == 1
    ensures LastSource(["transform", "-o-transform"], "transform") == 0
  {
    CollisionWriteKeys();
    assert Variants("-o-transform")[4] == "-o-transform";
    assert Variants("transform")[4] == "transform";
    var v := Variants("-o-transform");
    assert forall b :: 0 <= b < 5 ==> |v[b]| > 9;
    assert "transform" !in v;
  }

  /** Two keys that collide: the later key in `Object.keys` order wins. */
  lemma ExpandedCollisionExample()
    ensures var css := Obj(["transform", "-o-transform"],
                           map["transform" := Str("rotate(90deg)"), "-o-transform" := Str("none")]);
      Get(Expanded(css), "-o-transform") == Str("none") && Get(Expanded(css), "transform") == Str("rotate(90deg)")
  {
    var css := Obj(["transform", "-o-transform"],
                   map["transform" := Str("rotate(90deg)"), "-o-transform" := Str("none")]);
    assert Valid(css);
    ExpandedFacts(css);
    CollisionSources();
  }

  /** The outer `forEach` callback for one key: the four prefixed names, then the key itself. */
  method AddKey(newCSS: Obj, key: string, value: JsValue) returns (r: Obj)
    requires Valid(newCSS)
    ensures r == PutAll(newCSS, KeyWrites(key, value))
  {
    var kw := KeyWrites(key, value);
    r := newCSS;
    var b := 0;
    while b < |Browsers|
      invariant 0 <= b <= |Browsers|
      invariant r == PutAll(newCSS, kw[..b])
    {
      assert kw[..b + 1] == kw[..b] + [(Browsers[b] + key, value)];
      PutAllSnoc(newCSS, kw[..b], (Browsers[b] + key, value));
      r := Put(r, Browsers[b] + key, value);
      b := b + 1;
    }
    assert kw == kw[..4] + [(key, value)];
    PutAllSnoc(newCSS, kw[..4], (key, value));
    r := Put(r, key, value);
  }

  /** The loops of `globalCSS` that fill `newCSS`. */
  method NewCss(css: Obj) returns (newCSS: Obj)
    requires Valid(css)
    ensures newCSS == Expanded(css)
    ensures newCSS.keys == Dedup(WriteKeys(css.keys))
    ensures forall x :: x in newCSS.vals <==> x in WriteKeys(css.keys)
    ensures forall x :: x in WriteKeys(css.keys) ==>
      newCSS.vals[x] == css.vals[css.keys[LastSource(css.keys, x)]]
  {
    var keys := css.keys;
    newCSS := Empty;
    var i := 0;
    while i < |keys|
      invariant 0 <= i <= |keys|
      invariant newCSS == PutAll(Empty, Writes(css, keys[..i]))
    {
      var key := keys[i];
      var value := css.vals[key];
      newCSS := AddKey(newCSS, key, value);
      PutAllConcat(Empty, Writes(css, keys[..i]), KeyWrites(key, value));
      assert keys[..i + 1][..i] == keys[..i];
      i := i + 1;
    }
    assert keys[..i] == keys;
    ExpandedFacts(css);
  }
}
