/**
 * `String.prototype.capitalize`: the first character upper-cased, followed by
 * the rest lower-cased, with ASCII case mapping.
 */
module Capitalize {

  /** ASCII `toUpperCase` of one character; other characters are unchanged. */
  function Upper(c: char): (r: char)
    ensures 'a' <= c <= 'z' ==> r as int == c as int - 32
    ensures !('a' <= c <= 'z') ==> r == c
    ensures !('a' <= r <= 'z')
  {
    if 'a' <= c <= 'z' then (c as int - 32) as char else c
  }

  /** ASCII `toLowerCase` of one character; other characters are unchanged. */
  function Lower(c: char): (r: char)
    ensures 'A' <= c <= 'Z' ==> r as int == c as int + 32
    ensures !('A' <= c <= 'Z') ==> r == c
    ensures !('A' <= r <= 'Z')
  {
    if 'A' <= c <= 'Z' then (c as int + 32) as char else c
  }

  /** `s.toLowerCase()`. */
  function LowerAll(s: string): (r: string)
    ensures |r| == |s|
    ensures forall i :: 0 <= i < |s| ==> r[i] == Lower(s[i])
  {
    seq(|s|, i requires 0 <= i < |s| => Lower(s[i]))
  }

  /** A lowered string has no upper-case letter, so lowering it again changes nothing. */
  lemma LowerAllIdempotent(s: string)
    ensures forall i :: 0 <= i < |s| ==> !('A' <= LowerAll(s)[i] <= 'Z')
    ensures LowerAll(LowerAll(s)) == LowerAll(s)
  {
  }

  /** `this.charAt(0).toUpperCase() + this.substring(1).toLowerCase()`. */
  function Capitalized(s: string): (r: string)
    ensures |r| == |s|
    ensures s != [] ==> r[0] == Upper(s[0])
    ensures forall i :: 1 <= i < |s| ==> r[i] == Lower(s[i])
  {
    if s == [] then "" else [Upper(s[0])] + LowerAll(s[1..])
  }

  /** The first letter is never lower case and no later letter is upper case. */
  lemma CapitalizedShape(s: string)
    ensures s == [] <==> Capitalized(s) == []
    ensures s != [] ==> !('a' <= Capitalized(s)[0] <= 'z')
    ensures forall i :: 1 <= i < |s| ==> !('A' <= Capitalized(s)[i] <= 'Z')
  {
  }

  /** Capitalizing twice is capitalizing once. */
  lemma CapitalizedIdempotent(s: string)
    ensures Capitalized(Capitalized(s)) == Capitalized(s)
  {
    var r := Capitalized(s);
    var r2 := Capitalized(r);
    assert |r2| == |r|;
    forall i | 0 <= i < |r|
      ensures r2[i] == r[i]
    {
      if i == 0 {
        assert r[0] == Upper(s[0]);
      }
    }
  }

  /** The usage example: 'TEST' becomes 'Test'. */
  lemma CapitalizedExample()
    ensures Capitalized("TEST") == "Test"
  {
    var r := Capitalized("TEST");
    assert r[0] == 'T' && r[1] == 'e' && r[2] == 's' && r[3] == 't';
  }
}
