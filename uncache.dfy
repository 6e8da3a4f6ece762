/**
 * `Core.uncacheFile(file)`: the file name followed by `?_=` and a random
 * integer drawn by `Core.random(5000000000)`. The integer is a parameter here.
 */
module Uncache {

  /** `Core.random(max)` yields an integer from 0 to `max` inclusive. */
  const MaxNonce: nat := 5000000000

  predicate IsDigit(c: char) {
    '0' <= c <= '9'
  }

  predicate AllDigits(s: string) {
    forall i :: 0 <= i < |s| ==> IsDigit(s[i])
  }

  function DigitChar(d: nat): (c: char)
    requires d < 10
    ensures IsDigit(c) && c as int - '0' as int == d
  {
    ('0' as int + d) as char
  }

  /** How JavaScript writes a non-negative integer below 10^21 as a string. */
  function Decimal(n: nat): (r: string)
    ensures |r| >= 1 && AllDigits(r)
    ensures r[0] == '0' ==> n == 0 && r == "0"
  {
    if n < 10 then [DigitChar(n)] else Decimal(n / 10) + [DigitChar(n % 10)]
  }

  /** The integer that a string of decimal digits denotes. */
  function DecimalValue(s: string): nat
    requires AllDigits(s)
  {
    if s == [] then 0
    else DecimalValue(s[..|s| - 1]) * 10 + (s[|s| - 1] as int - '0' as int)
  }

  /** Reading back the digits gives the number that was written. */
  lemma {:induction false} DecimalRoundTrip(n: nat)
    ensures DecimalValue(Decimal(n)) == n
  {
    if n >= 10 {
      DecimalRoundTrip(n / 10);
      var r := Decimal(n);
      assert r[..|r| - 1] == Decimal(n / 10);
    }
  }

  /** `file + '?_=' + nonce`. */
  function UncacheFile(file: string, nonce: nat): string
    requires nonce <= MaxNonce
  {
    file + "?_=" + Decimal(nonce)
  }

  /** The name is the file name, then `?_=`, then the digits of the nonce and nothing else. */
  lemma UncacheFileParts(file: string, nonce: nat)
    requires nonce <= MaxNonce
    ensures var r := UncacheFile(file, nonce);
      && |r| > |file| + 3
      && r[..|file|] == file
      && r[|file|..|file| + 3] == "?_="
      && AllDigits(r[|file| + 3..])
      && DecimalValue(r[|file| + 3..]) == nonce
  {
    var r := UncacheFile(file, nonce);
    DecimalRoundTrip(nonce);
    assert r[|file| + 3..] == Decimal(nonce);
  }

  /** Different nonces give different names for the same file. */
  lemma UncacheFileInjective(file: string, n1: nat, n2: nat)
    requires n1 <= MaxNonce && n2 <= MaxNonce
    requires UncacheFile(file, n1) == UncacheFile(file, n2)
    ensures n1 == n2
  {
    UncacheFileParts(file, n1);
    UncacheFileParts(file, n2);
  }

  /** The suffix is `?_=`, not the `_?=` of the doc comment's example. */
  lemma UncacheFileExample()
    ensures UncacheFile("file.js", 4540647) == "file.js?_=4540647"
  {
    assert DigitChar(4) == '4' && DigitChar(5) == '5' && DigitChar(0) == '0';
    assert DigitChar(6) == '6' && DigitChar(7) == '7';
    assert Decimal(4) == "4";
    assert Decimal(45) == "45";
    assert Decimal(454) == "454";
    assert Decimal(4540) == "4540";
    assert Decimal(45406) == "45406";
    assert Decimal(454064) == "454064";
    assert Decimal(4540647) == "4540647";
    assert "file.js" + "?_=" + "4540647" == "file.js?_=4540647";
  }
}
