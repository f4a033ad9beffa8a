/** The two PHP string built-ins the encoding detector relies on, over
    PHP's byte strings and over encoding names. */
module PhpStrings {

  /** One byte of a PHP string. */
  newtype Byte = b: int | 0 <= b < 256

  /** `s` begins with the whole of `p`. */
  predicate StartsWith(s: seq<Byte>, p: seq<Byte>) {
    |p| <= |s| && s[..|p|] == p
  }

  /** `substr($s, 0, $n)`: the first `n` bytes of `s`, or all of `s` when it
      is shorter; never padded. */
  function Head(s: seq<Byte>, n: nat): (h: seq<Byte>)
    ensures |h| == if |s| < n then |s| else n
    ensures StartsWith(s, h)
  {
    if |s| < n then s else s[..n]
  }

  /** Comparing a `substr($s, 0, |p|)` with `p` succeeds exactly when `s`
      begins with all of `p`: an input shorter than `p` never matches. */
  lemma HeadMatchesOnlyWholePattern(s: seq<Byte>, p: seq<Byte>)
    ensures Head(s, |p|) == p <==> StartsWith(s, p)
  {
  }

  /** `strtoupper` on one character: ASCII `a`..`z` become `A`..`Z`,
      every other character is left alone. */
  function UpperChar(c: char): (u: char)
    ensures 'a' <= c <= 'z' ==> 'A' <= u <= 'Z' && u as int - c as int == 'A' as int - 'a' as int
    ensures !('a' <= c <= 'z') ==> u == c
  {
    if 'a' <= c <= 'z' then (c as int - 'a' as int + 'A' as int) as char else c
  }

  /** `strtoupper($s)`: the string with every character upper-cased in place. */
  function StrToUpper(s: string): (u: string)
    ensures |u| == |s|
    ensures forall i :: 0 <= i < |s| ==> u[i] == UpperChar(s[i])
  {
    if s == [] then [] else [UpperChar(s[0])] + StrToUpper(s[1..])
  }

  /** The case-insensitive equality used to compare encoding names:
      equal after both are upper-cased. */
  predicate SameIgnoringCase(a: string, b: string)
    ensures a == b ==> SameIgnoringCase(a, b)
    ensures SameIgnoringCase(a, b) ==> |a| == |b|
  {
    StrToUpper(a) == StrToUpper(b)
  }

  /** Upper-casing twice changes nothing more than upper-casing once. */
  lemma {:induction false} StrToUpperIdempotent(s: string)
    ensures StrToUpper(StrToUpper(s)) == StrToUpper(s)
  {
    var u := StrToUpper(s);
    var uu := StrToUpper(u);
    assert forall i :: 0 <= i < |s| ==> uu[i] == UpperChar(UpperChar(s[i])) == u[i];
  }

  /** A string already in upper case is its own upper-cased form; so are
      the encoding names the detector itself produces. */
  lemma UpperStringsAreFixed(s: string)
    requires forall i :: 0 <= i < |s| ==> !('a' <= s[i] <= 'z')
    ensures StrToUpper(s) == s
  {
  }

  /** Two strings are the same ignoring case exactly when they have the same
      length and agree, character by character, after upper-casing. */
  lemma SameIgnoringCaseIsPointwise(a: string, b: string)
    ensures SameIgnoringCase(a, b) <==>
      |a| == |b| && forall i :: 0 <= i < |a| ==> UpperChar(a[i]) == UpperChar(b[i])
  {
    if |a| == |b| && forall i :: 0 <= i < |a| ==> UpperChar(a[i]) == UpperChar(b[i]) {
      assert forall i :: 0 <= i < |a| ==> StrToUpper(a)[i] == StrToUpper(b)[i];
    }
  }
}
