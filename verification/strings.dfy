/** The .NET string operations the turn interpreter applies to message text:
    `ToLower`, `Trim` and an ordinal prefix test (what `IndexOf(k) == 0`
    amounts to for the ASCII keywords it is used with). */
module Strings {

  predicate IsUpper(c: char) {
    'A' <= c <= 'Z'
  }

  predicate IsLower(c: char) {
    'a' <= c <= 'z'
  }

  /** The upper-case form of an ASCII letter; any other character is its own. */
  function UpperChar(c: char): char {
    if IsLower(c) then (c as int - 32) as char else c
  }

  /** Lower case for one character: never upper case afterwards, an upper-case
      letter becomes the lower-case letter whose upper-case form it is, and
      every other character stays as it is. */
  function LowerChar(c: char): (d: char)
    ensures !IsUpper(d)
    ensures IsUpper(c) ==> IsLower(d) && UpperChar(d) == c
    ensures !IsUpper(c) ==> d == c
  {
    if IsUpper(c) then (c as int + 32) as char else c
  }

  /** `ToLower`: character by character, so it keeps the length and every
      position of the original text. */
  function ToLower(s: string): (r: string)
    ensures |r| == |s|
  {
    seq(|s|, i requires 0 <= i < |s| => LowerChar(s[i]))
  }

  /** Text with no upper-case ASCII letter, such as the command words. */
  ghost predicate NoUpper(w: string) {
    forall i | 0 <= i < |w| :: !IsUpper(w[i])
  }

  /** `s` spells `w` up to the letter case of each position. */
  ghost predicate EqualsIgnoringCase(s: string, w: string) {
    |s| == |w| && forall i | 0 <= i < |s| :: s[i] == w[i] || s[i] == UpperChar(w[i])
  }

  /** Comparing the lower-cased text with a lower-case word is comparing the
      text with the word while ignoring letter case. */
  lemma ToLowerEquals(s: string, w: string)
    requires NoUpper(w)
    ensures ToLower(s) == w <==> EqualsIgnoringCase(s, w)
  {
    if |s| == |w| {
      forall i | 0 <= i < |s|
        ensures ToLower(s)[i] == w[i] <==> s[i] == w[i] || s[i] == UpperChar(w[i])
      {
      }
      if EqualsIgnoringCase(s, w) {
        assert forall i | 0 <= i < |s| :: ToLower(s)[i] == w[i];
      }
    }
  }

  /** `char.IsWhiteSpace`: the Unicode White_Space characters. None of them
      is a letter, so lower-casing leaves each of them as it is. */
  predicate IsWhiteSpace(c: char): (b: bool)
    ensures b ==> !IsUpper(c) && !IsLower(c) && LowerChar(c) == c
  {
    || '\U{0009}' <= c <= '\U{000D}'   // tab, line feed, vertical tab, form feed, carriage return
    || c == ' '
    || c == '\U{0085}'                 // next line
    || c == '\U{00A0}'                 // no-break space
    || c == '\U{1680}'                 // Ogham space mark
    || '\U{2000}' <= c <= '\U{200A}'   // en quad .. hair space
    || c == '\U{2028}'                 // line separator
    || c == '\U{2029}'                 // paragraph separator
    || c == '\U{202F}'                 // narrow no-break space
    || c == '\U{205F}'                 // medium mathematical space
    || c == '\U{3000}'                 // ideographic space
  }

  /** `TrimStart()`: drops the white space at the front and nothing else. */
  function TrimStart(s: string): (r: string)
    ensures |r| <= |s| && r == s[|s| - |r|..]
    ensures r == [] || !IsWhiteSpace(r[0])
  {
    if s != [] && IsWhiteSpace(s[0]) then TrimStart(s[1..]) else s
  }

  /** What `TrimStart` drops is white space. */
  lemma {:induction false} TrimStartDropsWhiteSpace(s: string)
    ensures forall i | 0 <= i < |s| - |TrimStart(s)| :: IsWhiteSpace(s[i])
  {
    if s != [] && IsWhiteSpace(s[0]) {
      TrimStartDropsWhiteSpace(s[1..]);
      assert forall i | 1 <= i < |s| :: s[i] == s[1..][i - 1];
    }
  }

  /** `TrimEnd()`: drops the white space at the back and nothing else. */
  function TrimEnd(s: string): (r: string)
    ensures |r| <= |s| && r == s[..|r|]
    ensures r == [] || !IsWhiteSpace(r[|r| - 1])
  {
    if s != [] && IsWhiteSpace(s[|s| - 1]) then TrimEnd(s[..|s| - 1]) else s
  }

  /** What `TrimEnd` drops is white space. */
  lemma {:induction false} TrimEndDropsWhiteSpace(s: string)
    ensures forall i | |TrimEnd(s)| <= i < |s| :: IsWhiteSpace(s[i])
  {
    if s != [] && IsWhiteSpace(s[|s| - 1]) {
      TrimEndDropsWhiteSpace(s[..|s| - 1]);
    }
  }

  /** `Trim()`: white space removed at both ends; the result neither starts
      nor ends with white space, and may be empty. */
  function Trim(s: string): (r: string)
    ensures |r| <= |s|
    ensures r == [] || (!IsWhiteSpace(r[0]) && !IsWhiteSpace(r[|r| - 1]))
  {
    TrimEnd(TrimStart(s))
  }

  /** The ordinal prefix test, `IndexOf(prefix) == 0`. */
  predicate StartsWith(s: string, prefix: string): (b: bool)
    ensures b ==> |prefix| <= |s|
  {
    |prefix| <= |s| && s[..|prefix|] == prefix
  }

  /** The prefix test holds exactly when the text agrees with the prefix at
      every one of the prefix's positions. */
  lemma StartsWithPointwise(s: string, prefix: string)
    ensures StartsWith(s, prefix) <==>
      |prefix| <= |s| && forall i | 0 <= i < |prefix| :: s[i] == prefix[i]
  {
    if |prefix| <= |s| && forall i | 0 <= i < |prefix| :: s[i] == prefix[i] {
      assert s[..|prefix|] == prefix;
    }
  }

  /** A lower-case word is a prefix of the lower-cased text exactly when the
      text starts with the word in any letter case. */
  lemma ToLowerStartsWith(s: string, w: string)
    requires NoUpper(w)
    ensures StartsWith(ToLower(s), w) <==> |w| <= |s| && EqualsIgnoringCase(s[..|w|], w)
  {
    if |w| <= |s| {
      assert ToLower(s)[..|w|] == ToLower(s[..|w|]);
      ToLowerEquals(s[..|w|], w);
    }
  }

  /** A prefix of a middle part, behind a fixed head, is a prefix of the whole. */
  lemma StartsWithInside(head: string, middle: string, tail: string, prefix: string)
    requires StartsWith(middle, prefix)
    ensures StartsWith(head + middle + tail, head + prefix)
  {
    var s := head + middle + tail;
    assert forall i | 0 <= i < |head| + |prefix| :: s[i] == (head + prefix)[i];
  }

  /** `Trim` keeps one contiguous piece of its input, and everything it
      drops, on either side, is white space. */
  lemma TrimIsSlice(s: string)
    ensures var r, k := Trim(s), |s| - |TrimStart(s)|;
      && k + |r| <= |s|
      && r == s[k..k + |r|]
      && (forall i | 0 <= i < k :: IsWhiteSpace(s[i]))
      && (forall i | k + |r| <= i < |s| :: IsWhiteSpace(s[i]))
  {
    var t := TrimStart(s);
    var k := |s| - |t|;
    var r := TrimEnd(t);
    assert Trim(s) == r;
    TrimStartDropsWhiteSpace(s);
    TrimEndDropsWhiteSpace(t);
    assert t == s[k..];
    assert r == t[..|r|];
    assert r == s[k..k + |r|];
    forall i | k + |r| <= i < |s|
      ensures IsWhiteSpace(s[i])
    {
      assert s[i] == t[i - k];
    }
  }

  /** Text with no white space at either end is left as it is. */
  lemma TrimKeepsTrimmed(s: string)
    requires s == [] || (!IsWhiteSpace(s[0]) && !IsWhiteSpace(s[|s| - 1]))
    ensures Trim(s) == s
  {
  }

  /** Trimming twice is trimming once. */
  lemma TrimIdempotent(s: string)
    ensures Trim(Trim(s)) == Trim(s)
  {
    TrimKeepsTrimmed(Trim(s));
  }
}
