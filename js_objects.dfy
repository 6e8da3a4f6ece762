/**
 * The slice of JavaScript values and plain objects that the helpers in core.js
 * look at: property reads that yield `undefined` for a missing key, property
 * writes that overwrite in place or append a new key, and `Object.keys` order.
 */
module JsObjects {

  /** A JavaScript value, as far as the helpers tell values apart. */
  datatype JsValue =
    | Undefined
    | Null
    | Str(s: string)
    | Num(n: int)
    | Bool(b: bool)
    | Ref(id: nat)   // a function, array or object, compared by identity

  /** A plain object: its own keys in `Object.keys` order, and the value at each. */
  datatype Obj = Obj(keys: seq<string>, vals: map<string, JsValue>)

  /** One property write `o[key] = value`. */
  type Write = (string, JsValue)

  const Empty: Obj := Obj([], map[])

  predicate Distinct(s: seq<string>) {
    forall i, j :: 0 <= i < j < |s| ==> s[i] != s[j]
  }

  /** Every key is listed once, and exactly the listed keys carry a value. */
  ghost predicate Valid(o: Obj) {
    Distinct(o.keys) && forall k :: k in o.vals <==> k in o.keys
  }

  /** `o[k]`: the stored value, or `undefined` when `k` is not a key of `o`. */
  function Get(o: Obj, k: string): JsValue {
    if k in o.vals then o.vals[k] else Undefined
  }

  /** `o[k] = v`: an existing key keeps its place, a new key goes last. */
  function Put(o: Obj, k: string, v: JsValue): (r: Obj)
    requires Valid(o)
    ensures Valid(r)
    ensures Get(r, k) == v
    ensures forall x :: x != k ==> Get(r, x) == Get(o, x)
    ensures forall x :: x in r.vals <==> x in o.vals || x == k
    ensures o.keys <= r.keys
    ensures k in o.vals ==> r.keys == o.keys
  {
    Obj(if k in o.vals then o.keys else o.keys + [k], o.vals[k := v])
  }

  /** The keys written by a sequence of writes, in write order. */
  function Targets(ws: seq<Write>): (r: seq<string>)
    ensures |r| == |ws|
    ensures forall i :: 0 <= i < |ws| ==> r[i] == ws[i].0
  {
    seq(|ws|, i requires 0 <= i < |ws| => ws[i].0)
  }

  /** The first occurrence of every string of `s`, in order of first occurrence. */
  function Dedup(s: seq<string>): (r: seq<string>)
    ensures Distinct(r)
    ensures forall x :: x in r <==> x in s
    ensures |r| <= |s|
  {
    if s == [] then []
    else
      var d := Dedup(s[..|s| - 1]);
      if s[|s| - 1] in s[..|s| - 1] then d else d + [s[|s| - 1]]
  }

  /** A sequence without repeats is its own first-occurrence list. */
  lemma {:induction false} DedupDistinct(s: seq<string>)
    requires Distinct(s)
    ensures Dedup(s) == s
  {
    if s != [] {
      var init := s[..|s| - 1];
      assert Distinct(init);
      DedupDistinct(init);
      assert s[|s| - 1] !in init;
      assert init + [s[|s| - 1]] == s;
    }
  }

  /** Performs the writes `ws` on `o`, one after the other. */
  function PutAll(o: Obj, ws: seq<Write>): (r: Obj)
    requires Valid(o)
    ensures Valid(r)
  {
    if ws == [] then o
    else Put(PutAll(o, ws[..|ws| - 1]), ws[|ws| - 1].0, ws[|ws| - 1].1)
  }

  /** One more write at the end. */
  lemma PutAllSnoc(o: Obj, ws: seq<Write>, w: Write)
    requires Valid(o)
    ensures PutAll(o, ws + [w]) == Put(PutAll(o, ws), w.0, w.1)
  {
    assert (ws + [w])[..|ws|] == ws;
  }

  /** Writing `a` and then `b` is writing `a + b`. */
  lemma {:induction false} PutAllConcat(o: Obj, a: seq<Write>, b: seq<Write>)
    requires Valid(o)
    ensures PutAll(o, a + b) == PutAll(PutAll(o, a), b)
  {
    if b == [] {
      assert a + b == a;
    } else {
      var b' := b[..|b| - 1];
      assert (a + b)[..|a + b| - 1] == a + b';
      PutAllConcat(o, a, b');
    }
  }

  /** Starting from `{}`, the keys end up in order of their first write. */
  lemma {:induction false} PutAllKeys(ws: seq<Write>)
    ensures PutAll(Empty, ws).keys == Dedup(Targets(ws))
  {
    if ws != [] {
      var init := ws[..|ws| - 1];
      PutAllKeys(init);
      assert Targets(ws)[..|ws| - 1] == Targets(init);
      var prev := PutAll(Empty, init);
      assert ws[|ws| - 1].0 in prev.vals <==> ws[|ws| - 1].0 in Targets(init);
    }
  }

  /** A key holds a value after the writes exactly when it held one before or was written. */
  lemma {:induction false} PutAllDomain(o: Obj, ws: seq<Write>, x: string)
    requires Valid(o)
    ensures x in PutAll(o, ws).vals <==> x in o.vals || x in Targets(ws)
  {
    if ws != [] {
      var init := ws[..|ws| - 1];
      PutAllDomain(o, init, x);
      assert Targets(ws) == Targets(init) + [ws[|ws| - 1].0];
    }
  }

  /** A key that no write touches keeps its value. */
  lemma {:induction false} PutAllUntouched(o: Obj, ws: seq<Write>, x: string)
    requires Valid(o)
    requires x !in Targets(ws)
    ensures Get(PutAll(o, ws), x) == Get(o, x)
  {
    if ws != [] {
      var init := ws[..|ws| - 1];
      assert Targets(ws) == Targets(init) + [ws[|ws| - 1].0];
      PutAllUntouched(o, init, x);
    }
  }

  /** When every write stores `v`, every written key holds `v`. */
  lemma {:induction false} PutAllUniform(o: Obj, ws: seq<Write>, v: JsValue, x: string)
    requires Valid(o)
    requires forall i :: 0 <= i < |ws| ==> ws[i].1 == v
    requires x in Targets(ws)
    ensures Get(PutAll(o, ws), x) == v
  {
    var init := ws[..|ws| - 1];
    assert Targets(ws) == Targets(init) + [ws[|ws| - 1].0];
    if x != ws[|ws| - 1].0 {
      PutAllUniform(o, init, v, x);
    }
  }
}
