/** The side of a binary market a share pays on, with its text form. */
module Sides {
  import opened Wrappers

  datatype MarketSide = Yes | No {

    /** The other side. */
    function Opposite(): (r: MarketSide)
      ensures r != this
    {
      match this
      case Yes => No
      case No => Yes
    }

    /** The display form: lower-case "yes" or "no". */
    function ToString(): (s: string)
      ensures ToLower(s) == s
      ensures s == "yes" || s == "no"
    {
      match this
      case Yes => "yes"
      case No => "no"
    }
  }

  /** ASCII lower-casing of one character. */
  function LowerChar(c: char): char {
    if 'A' <= c <= 'Z' then (c as int + 32) as char else c
  }

  /** Lower-cases every character of `s`. */
  function ToLower(s: string): (r: string)
    ensures |r| == |s|
    ensures forall i :: 0 <= i < |s| ==> r[i] == LowerChar(s[i])
  {
    seq(|s|, i requires 0 <= i < |s| => LowerChar(s[i]))
  }

  /** Case-insensitive parse of a side; every other text is rejected. */
  function Parse(s: string): (r: Option<MarketSide>)
    ensures forall side: MarketSide :: r == Some(side) <==> ToLower(s) == side.ToString()
  {
    var l := ToLower(s);
    if l == "yes" then Some(Yes)
    else if l == "no" then Some(No)
    else None
  }

  /** Parsing the display form of a side gives that side back. */
  lemma ParseDisplay(side: MarketSide)
    ensures Parse(side.ToString()) == Some(side)
  {
  }

  lemma OppositeInvolution(side: MarketSide)
    ensures side.Opposite().Opposite() == side
    ensures side.Opposite() != side
  {
  }

  lemma {:induction false} ToLowerIdempotent(s: string)
    ensures ToLower(ToLower(s)) == ToLower(s)
  {
    var l := ToLower(s);
    forall i | 0 <= i < |s| ensures ToLower(l)[i] == l[i] {
      assert LowerChar(LowerChar(s[i])) == LowerChar(s[i]);
    }
  }

  /** Parsing ignores case: a text parses as its lower-cased form does. */
  lemma ParseIgnoresCase(s: string)
    ensures Parse(s) == Parse(ToLower(s))
  {
    ToLowerIdempotent(s);
  }

  /** Upper-case spellings are accepted. */
  lemma ParseUpperCase()
    ensures Parse("YES") == Some(Yes) && Parse("No") == Some(No)
  {
    assert ToLower("YES") == "yes";
    assert ToLower("No") == "no";
  }
}
