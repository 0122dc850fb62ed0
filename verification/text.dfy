/** String helpers used by the renderers. */
module Text {

  /** ASCII upper-casing of one character. */
  function UpperChar(c: char): char {
    if 'a' <= c <= 'z' then (c as int - 32) as char else c
  }

  /** String.toUpperCase, restricted to ASCII letters. */
  function Upper(s: string): (u: string)
    ensures |u| == |s|
    ensures forall i :: 0 <= i < |s| ==> u[i] == UpperChar(s[i])
  {
    seq(|s|, i requires 0 <= i < |s| => UpperChar(s[i]))
  }

  predicate NoLower(s: string) {
    forall i :: 0 <= i < |s| ==> !('a' <= s[i] <= 'z')
  }

  /** Upper-casing changes nothing in a string without lower-case letters, and its result has none. */
  lemma UpperFixes(s: string)
    ensures NoLower(s) ==> Upper(s) == s
    ensures NoLower(Upper(s))
    ensures Upper(Upper(s)) == Upper(s)
  {
  }

  /** Upper-casing works character by character, so it distributes over concatenation. */
  lemma UpperConcat(a: string, b: string)
    ensures Upper(a + b) == Upper(a) + Upper(b)
  {
  }

  /** `n` tab characters (none when `n` is not positive). */
  function Tabs(n: int): (t: string)
    ensures |t| == if n > 0 then n else 0
    ensures forall i :: 0 <= i < |t| ==> t[i] == '\t'
    decreases n
  {
    if n <= 0 then "" else Tabs(n - 1) + "\t"
  }

  /** `parts` separated by `sep`, with no separator before the first or after the last. */
  function Join(parts: seq<string>, sep: string): string
    decreases |parts|
  {
    if |parts| == 0 then ""
    else if |parts| == 1 then parts[0]
    else Join(parts[..|parts| - 1], sep) + sep + parts[|parts| - 1]
  }

  /** Joining one more part adds a separator and the part. */
  lemma JoinStep(parts: seq<string>, sep: string, i: nat)
    requires 0 < i < |parts|
    ensures Join(parts[..i + 1], sep) == Join(parts[..i], sep) + sep + parts[i]
  {
    assert parts[..i + 1][..i] == parts[..i];
  }
}
