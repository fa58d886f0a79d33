/**
  ASCII letter case, as used by the hook event-name translator: the split
  boundary is an upper-case letter `A`-`Z`, and the command token has its
  first character lower-cased (`firstLowerCase` in src/utils.js).
 */
module Case {

  predicate IsUpper(c: char) {
    'A' <= c <= 'Z'
  }

  predicate IsLower(c: char) {
    'a' <= c <= 'z'
  }

  /** Lower-cases an ASCII capital; every other character is left alone. */
  function LowerChar(c: char): char {
    if IsUpper(c) then (c as int + 32) as char else c
  }

  /** Upper-cases an ASCII small letter; every other character is left alone. */
  function UpperChar(c: char): char {
    if IsLower(c) then (c as int - 32) as char else c
  }

  /** The two character maps undo each other on the letters they move. */
  lemma CharCaseRoundTrip(c: char)
    ensures IsUpper(c) ==> IsLower(LowerChar(c)) && UpperChar(LowerChar(c)) == c
    ensures IsLower(c) ==> IsUpper(UpperChar(c)) && LowerChar(UpperChar(c)) == c
    ensures !IsUpper(LowerChar(c))
  {
  }

  /**
    `firstLowerCase`: the first character is lower-cased, every later
    character is kept, and the empty string stays empty.
   */
  function FirstLowerCase(s: string): (r: string)
    ensures |r| == |s|
    ensures |s| > 0 ==> r[0] == LowerChar(s[0]) && !IsUpper(r[0])
    ensures forall j :: 1 <= j < |s| ==> r[j] == s[j]
  {
    if |s| == 0 then "" else [LowerChar(s[0])] + s[1..]
  }

  /** The inverse direction: upper-case the first character only. */
  function Capitalize(s: string): (r: string)
    ensures |r| == |s|
    ensures |s| > 0 ==> r[0] == UpperChar(s[0])
    ensures forall j :: 1 <= j < |s| ==> r[j] == s[j]
  {
    if |s| == 0 then "" else [UpperChar(s[0])] + s[1..]
  }

  /** A word that starts with a capital is recovered from its lower-cased form. */
  lemma CapitalizeFirstLowerCase(t: string)
    requires |t| > 0 && IsUpper(t[0])
    ensures Capitalize(FirstLowerCase(t)) == t
  {
    CharCaseRoundTrip(t[0]);
    assert Capitalize(FirstLowerCase(t))[0] == t[0];
  }

  /** A word that starts with a small letter is recovered from its capitalised form. */
  lemma FirstLowerCaseCapitalize(t: string)
    requires |t| > 0 && IsLower(t[0])
    ensures FirstLowerCase(Capitalize(t)) == t
    ensures IsUpper(Capitalize(t)[0])
  {
    CharCaseRoundTrip(t[0]);
    assert FirstLowerCase(Capitalize(t))[0] == t[0];
  }
}
