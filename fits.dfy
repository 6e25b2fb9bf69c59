/** Values read from FITS containers, as the core sees them once the container
    has been opened: header cards, header-data units, and the few string
    operations the core applies to card text. */
module Fits {

  datatype Option<+T> = None | Some(value: T)

  /** The value of a header card: text (TELESCOP, EXTNAME, DETNAM, ...) or a
      number (TSTART, TSTOP, ...). */
  datatype Card = Text(text: string) | Number(value: real)

  /** A header maps each keyword present to its card; a missing keyword is a
      key absent from the map. */
  type Header = map<string, Card>

  /** One header-data unit: its header and the rows of its table (empty for
      a unit that holds no table). */
  datatype Hdu<T> = Hdu(header: Header, rows: seq<T>)

  /** Python's `sub in s` on strings: `sub` occurs somewhere in `s`. */
  predicate Contains(s: string, sub: string)
    decreases |s|
  {
    if |sub| > |s| then false
    else if s[..|sub|] == sub then true
    else Contains(s[1..], sub)
  }

  /** Python's `s.replace(pat, '')`: every occurrence of `pat`, scanning left
      to right without overlap, is deleted. */
  function RemoveAll(s: string, pat: string): (r: string)
    requires |pat| > 0
    ensures |r| <= |s|
    decreases |s|
  {
    if |s| < |pat| then s
    else if s[..|pat|] == pat then RemoveAll(s[|pat|..], pat)
    else [s[0]] + RemoveAll(s[1..], pat)
  }

  predicate IsDigit(ch: char) { '0' <= ch <= '9' }

  /** The value of a non-empty string of decimal digits. */
  function DigitsValue(s: string): nat
    requires forall k :: 0 <= k < |s| ==> IsDigit(s[k])
  {
    if s == [] then 0
    else
      assert IsDigit(s[|s| - 1]);
      DigitsValue(s[..|s| - 1]) * 10 + (s[|s| - 1] as int - '0' as int)
  }

  /** Python's `int(s)` for the plain decimal form; None where that form does
      not apply. */
  function ParseDigits(s: string): Option<nat>
  {
    if |s| > 0 && forall k :: 0 <= k < |s| ==> IsDigit(s[k]) then Some(DigitsValue(s))
    else None
  }
}
