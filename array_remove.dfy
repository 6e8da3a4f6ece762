/**
 * `Array.prototype.remove(item)`: `this.splice(this.indexOf(item), 1)`, then
 * return the receiver. An absent item makes `indexOf` answer -1, and
 * `splice(-1, 1)` removes the last element.
 */
module ArrayRemove {

  /** `indexOf` under strict equality: the first position holding `x`, or -1. */
  function IndexOf<T(==)>(s: seq<T>, x: T): (r: int)
    ensures -1 <= r < |s|
    ensures r == -1 <==> x !in s
    ensures 0 <= r ==> s[r] == x && x !in s[..r]
  {
    if s == [] then -1
    else if s[0] == x then 0
    else
      var i := IndexOf(s[1..], x);
      assert s[1..][..i + 1] == s[1..i + 2] by {}
      if i == -1 then -1 else i + 1
  }

  /** Where `splice(start, ...)` begins: a negative start counts from the end, and both are clamped. */
  function SpliceStart(len: nat, start: int): (r: nat)
    ensures r <= len
    ensures 0 <= start <= len ==> r == start
    ensures -(len as int) <= start < 0 ==> r == len + start
    ensures start > len ==> r == len
    ensures start < -(len as int) ==> r == 0
  {
    if start < 0 then (if len + start < 0 then 0 else len + start)
    else if start < len then start else len
  }

  /** `a.splice(start, 1)` applied to the contents `s`: drops at most the one element at the start position. */
  function SpliceOne<T>(s: seq<T>, start: int): seq<T> {
    var k := SpliceStart(|s|, start);
    if k < |s| then s[..k] + s[k + 1..] else s
  }

  /** The contents after `remove(x)`. */
  function Removed<T(==)>(s: seq<T>, x: T): (r: seq<T>)
    ensures |r| == if s == [] then 0 else |s| - 1
  {
    SpliceOne(s, IndexOf(s, x))
  }

  /** A present item: only its first occurrence goes, everything else keeps its order. */
  lemma RemovedPresent<T>(s: seq<T>, x: T)
    requires x in s
    ensures var i := IndexOf(s, x);
      Removed(s, x) == s[..i] + s[i + 1..] && x !in s[..i]
    ensures |Removed(s, x)| == |s| - 1
    ensures multiset(Removed(s, x)) == multiset(s) - multiset{x}
  {
    var i := IndexOf(s, x);
    assert s == s[..i] + [x] + s[i + 1..];
    calc {
      multiset(s);
      multiset(s[..i]) + multiset{x} + multiset(s[i + 1..]);
    }
  }

  /** An absent item: the last element goes instead, and an empty array stays empty. */
  lemma RemovedAbsent<T>(s: seq<T>, x: T)
    requires x !in s
    ensures s == [] ==> Removed(s, x) == []
    ensures s != [] ==> Removed(s, x) == s[..|s| - 1]
  {
  }

  /** A JavaScript array, its contents updated in place by `remove`. */
  class JsArray<T(==)> {
    var elems: seq<T>

    constructor (s: seq<T>)
      ensures elems == s
    {
      elems := s;
    }

    /** `this.splice(this.indexOf(item), 1); return this`. */
    method Remove(item: T) returns (self: JsArray<T>)
      modifies this
      ensures self == this
      ensures elems == Removed(old(elems), item)
      ensures item in old(elems) ==>
        var i := IndexOf(old(elems), item);
        elems == old(elems)[..i] + old(elems)[i + 1..]
      ensures item !in old(elems) && old(elems) != [] ==> elems == old(elems)[..|old(elems)| - 1]
      ensures old(elems) == [] ==> elems == []
    {
      var index := IndexOf(elems, item);
      elems := SpliceOne(elems, index);
      self := this;
    }
  }

  /** The usage example: removing 'not' from the sentence. */
  lemma RemoveExample()
    ensures Removed(["This", "is", "not", "a", "complete", "sentence"], "not")
         == ["This", "is", "a", "complete", "sentence"]
  {
    var s := ["This", "is", "not", "a", "complete", "sentence"];
    assert s[0] != "not" && s[1] != "not" && s[2] == "not";
    assert IndexOf(s, "not") == 2;
  }
}
