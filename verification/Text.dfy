/** Upper-casing of currency codes.  Strings are byte strings; what upper-casing does to text with
  * bytes outside ASCII is a parameter `unicode` about which nothing is assumed.
  */
module Text {

  predicate IsAscii(s: string) {
    forall i | 0 <= i < |s| :: s[i] < 128 as char
  }

  function UpperChar(c: char): char {
    if 'a' <= c <= 'z' then (c as int - 32) as char else c
  }

  function AsciiUpper(s: string): (r: string)
    ensures |r| == |s| && forall i | 0 <= i < |s| :: r[i] == UpperChar(s[i])
  {
    if s == [] then [] else [UpperChar(s[0])] + AsciiUpper(s[1..])
  }

  /** `strings.ToUpper`. */
  function ToUpper(unicode: string -> string, s: string): string {
    if IsAscii(s) then AsciiUpper(s) else unicode(s)
  }

  /** An ASCII text keeps its length, and every character but a small letter. */
  lemma UpperExactly(unicode: string -> string, s: string)
    requires forall i | 0 <= i < |s| :: s[i] as int < 128
    ensures |ToUpper(unicode, s)| == |s|
    ensures forall i | 0 <= i < |s| :: ToUpper(unicode, s)[i] as int ==
              if 'a' <= s[i] <= 'z' then s[i] as int - 'a' as int + 'A' as int else s[i] as int
  {
  }

  /** Equal up to the case of ASCII letters. */
  predicate EqualFold(a: string, b: string) {
    |a| == |b| && forall i | 0 <= i < |a| ::
      || a[i] == b[i]
      || ('a' <= a[i] <= 'z' && b[i] as int == a[i] as int - 32)
      || ('a' <= b[i] <= 'z' && a[i] as int == b[i] as int - 32)
  }

  /** On ASCII, upper-casing identifies exactly the strings that are equal up to case. */
  lemma UpperIdentifiesCase(unicode: string -> string, a: string, b: string)
    requires IsAscii(a) && IsAscii(b)
    ensures ToUpper(unicode, a) == ToUpper(unicode, b) <==> EqualFold(a, b)
  {
    var x, y := AsciiUpper(a), AsciiUpper(b);
    if x == y {
      forall i | 0 <= i < |a|
        ensures UpperChar(a[i]) == UpperChar(b[i])
      {
        assert x[i] == y[i];
      }
    }
  }

  /** Upper-casing an upper-cased code changes nothing. */
  lemma UpperTwice(unicode: string -> string, s: string)
    requires IsAscii(s)
    ensures ToUpper(unicode, ToUpper(unicode, s)) == ToUpper(unicode, s)
    ensures |ToUpper(unicode, s)| == |s| && IsAscii(ToUpper(unicode, s))
  {
    var x := AsciiUpper(s);
    assert AsciiUpper(x) == x;
  }
}
