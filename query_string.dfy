/**
 * `Core.getParameter(name, url)`: the value of a query parameter, found with
 * the pattern `[?&]name(=([^&#]*)|&|#|$)`, written out here as a left-to-right
 * scan for the leftmost match.
 */
module QueryString {
  import opened Wrappers

  /** Characters that a RegExp pattern would interpret. `[` and `]` are not among them: the helper escapes both. */
  predicate IsRegexMeta(c: char) {
    c in "\\^$.|?*+(){}"
  }

  /** A name that the pattern matches literally. */
  predicate PlainName(name: string) {
    forall i :: 0 <= i < |name| ==> !IsRegexMeta(name[i])
  }

  /** `url || window.location.href`: an empty or missing url means the current location. */
  function EffectiveUrl(url: string, locationHref: string): string {
    if url == "" then locationHref else url
  }

  /** The pattern matches at position `p`: `?` or `&`, the name, then `=`, `&`, `#` or the end. */
  predicate MatchAt(url: string, name: string, p: nat) {
    && p + 1 + |name| <= |url|
    && (url[p] == '?' || url[p] == '&')
    && url[p + 1..p + 1 + |name|] == name
    && (p + 1 + |name| == |url| || url[p + 1 + |name|] in "=&#")
  }

  /** The leftmost match at or after `from`, as `RegExp.exec` finds it. */
  function FindMatch(url: string, name: string, from: nat): (r: Option<nat>)
    ensures r.Some? ==> from <= r.value && MatchAt(url, name, r.value)
    ensures r.Some? ==> forall p :: from <= p < r.value ==> !MatchAt(url, name, p)
    ensures r.None? ==> forall p :: from <= p ==> !MatchAt(url, name, p)
    decreases |url| - from
  {
    if from >= |url| then None
    else if MatchAt(url, name, from) then Some(from)
    else FindMatch(url, name, from + 1)
  }

  /** Where `[^&#]*` starting at `q` stops: the first `&` or `#`, or the end. */
  function ValueEnd(url: string, q: nat): (r: nat)
    requires q <= |url|
    ensures q <= r <= |url|
    ensures forall i :: q <= i < r ==> url[i] != '&' && url[i] != '#'
    ensures r < |url| ==> url[r] == '&' || url[r] == '#'
    decreases |url| - q
  {
    if q == |url| || url[q] == '&' || url[q] == '#' then q else ValueEnd(url, q + 1)
  }

  /** `.replace(/\+/g, " ")`. */
  function PlusToSpace(s: string): (r: string)
    ensures |r| == |s|
    ensures forall i :: 0 <= i < |s| ==> r[i] == if s[i] == '+' then ' ' else s[i]
  {
    seq(|s|, i requires 0 <= i < |s| => if s[i] == '+' then ' ' else s[i])
  }

  /** A value without `+` is left as it is. */
  lemma PlusToSpaceWithoutPlus(s: string)
    requires '+' !in s
    ensures PlusToSpace(s) == s
  {
  }

  /** No `+` survives the replacement, so replacing again changes nothing. */
  lemma PlusToSpaceSettled(s: string)
    ensures '+' !in PlusToSpace(s)
    ensures PlusToSpace(PlusToSpace(s)) == PlusToSpace(s)
  {
    PlusToSpaceWithoutPlus(PlusToSpace(s));
  }

  /**
   * `getParameter(name, url)`: `null` (None) without a match, `''` when the
   * match carries no value or an empty one, otherwise the value with `+`
   * read as a space and then decoded by `decode` (`decodeURIComponent`).
   */
  function GetParameter(name: string, url: string, locationHref: string, decode: string -> string): (r: Option<string>)
    requires PlainName(name)
    ensures r.None? <==> forall p :: !MatchAt(EffectiveUrl(url, locationHref), name, p)
  {
    var u := EffectiveUrl(url, locationHref);
    match FindMatch(u, name, 0)
    case None => None
    case Some(p) =>
      var q := p + 1 + |name|;
      if q < |u| && u[q] == '=' then
        var value := u[q + 1..ValueEnd(u, q + 1)];
        if value == "" then Some("") else Some(decode(PlusToSpace(value)))
      else Some("")
  }

  /** The result, read off the leftmost match wherever it is. */
  lemma GetParameterAtMatch(name: string, url: string, locationHref: string, decode: string -> string, p: nat)
    requires PlainName(name)
    requires MatchAt(EffectiveUrl(url, locationHref), name, p)
    requires forall p': nat :: p' < p ==> !MatchAt(EffectiveUrl(url, locationHref), name, p')
    ensures var u := EffectiveUrl(url, locationHref);
      var q := p + 1 + |name|;
      GetParameter(name, url, locationHref, decode) ==
        if q < |u| && u[q] == '=' && ValueEnd(u, q + 1) > q + 1
        then Some(decode(PlusToSpace(u[q + 1..ValueEnd(u, q + 1)])))
        else Some("")
  {
    var u := EffectiveUrl(url, locationHref);
    assert FindMatch(u, name, 0) == Some(p);
  }

  /**
   * A query written as `base?name=value...`, with no `?` or `&` in `base` and
   * no `&` or `#` in `value`, gives back `value` (decoded, `+` as space), or
   * `''` when `value` is empty.
   */
  lemma GetParameterOfQuery(name: string, base: string, value: string, rest: string, locationHref: string, decode: string -> string)
    requires PlainName(name)
    requires '?' !in base && '&' !in base
    requires '&' !in value && '#' !in value
    requires rest == [] || rest[0] == '&' || rest[0] == '#'
    ensures GetParameter(name, base + "?" + name + "=" + value + rest, locationHref, decode) ==
      if value == "" then Some("") else Some(decode(PlusToSpace(value)))
  {
    var u := base + "?" + name + "=" + value + rest;
    var p := |base|;
    var q := p + 1 + |name|;
    assert u[p] == '?';
    assert u[p + 1..q] == name;
    assert u[q] == '=';
    assert MatchAt(u, name, p);
    forall p': nat | p' < p
      ensures !MatchAt(u, name, p')
    {
      assert u[p'] == base[p'];
    }
    var e := ValueEnd(u, q + 1);
    var e' := q + 1 + |value|;
    assert u[q + 1..e'] == value;
    assert e == e';
    GetParameterAtMatch(name, u, locationHref, decode, p);
  }

  /** The usage example's url, taken apart as `base?name=value`. */
  lemma DogUrlParts()
    ensures var base := "https://mydogs.net";
      && '?' !in base && '&' !in base
      && "https://mydogs.net?dog=beagle" == base + "?" + "dog" + "=" + "beagle" + ""
  {
    var base := "https://mydogs.net";
    var url := "https://mydogs.net?dog=beagle";
    assert url[..18] == base;
  }

  /** The usage example: `dog` in `https://mydogs.net?dog=beagle`. */
  lemma GetParameterExample(locationHref: string, decode: string -> string)
    ensures GetParameter("dog", "https://mydogs.net?dog=beagle", locationHref, decode) == Some(decode("beagle"))
  {
    DogUrlParts();
    GetParameterOfQuery("dog", "https://mydogs.net", "beagle", "", locationHref, decode);
    PlusToSpaceWithoutPlus("beagle");
  }

  /** A repeated parameter: the first occurrence wins, whatever the later one holds. */
  lemma GetParameterFirstOccurrence(name: string, v1: string, v2: string, rest: string, locationHref: string, decode: string -> string)
    requires PlainName(name)
    requires '&' !in v1 && '#' !in v1
    ensures GetParameter(name, "?" + name + "=" + v1 + "&" + name + "=" + v2 + rest, locationHref, decode) ==
      if v1 == "" then Some("") else Some(decode(PlusToSpace(v1)))
  {
    var tail := "&" + name + "=" + v2 + rest;
    assert "" + "?" + name + "=" + v1 + tail == "?" + name + "=" + v1 + "&" + name + "=" + v2 + rest;
    GetParameterOfQuery(name, "", v1, tail, locationHref, decode);
  }
}
