/** Base64 with padding, the encoding of section 4 of RFC 4648, over octets:
    what `System.Convert.ToBase64String` and `System.Convert.FromBase64String`
    do for `Util.Base64Encode` and `Util.Base64Decode`. */
module Base64 {
  import opened Wrappers
  import opened Bytes

  /** Why `FromBase64String` rejects its input (it throws a FormatException). */
  datatype DecodeError =
    | BadLength        // the length is not a multiple of 4
    | BadCharacter     // a character outside the alphabet and not '='
    | BadPadding       // '=' somewhere other than the last one or two positions

  const Pad: char := '='

  /** The 64-character alphabet of Table 1 of RFC 4648. */
  predicate IsSymbol(c: char) {
    'A' <= c <= 'Z' || 'a' <= c <= 'z' || '0' <= c <= '9' || c == '+' || c == '/'
  }

  /** The character Table 1 gives to the 6-bit value `v`. */
  function Symbol(v: nat): (c: char)
    requires v < 64
    ensures IsSymbol(c) && Value(c) == v
  {
    if v < 26 then ('A' as int + v) as char
    else if v < 52 then ('a' as int + (v - 26)) as char
    else if v < 62 then ('0' as int + (v - 52)) as char
    else if v == 62 then '+'
    else '/'
  }

  /** The 6-bit value Table 1 gives to the alphabet character `c`. */
  function Value(c: char): (v: nat)
    requires IsSymbol(c)
    ensures v < 64
  {
    if 'A' <= c <= 'Z' then c as int - 'A' as int
    else if 'a' <= c <= 'z' then c as int - 'a' as int + 26
    else if '0' <= c <= '9' then c as int - '0' as int + 52
    else if c == '+' then 62
    else 63
  }

  /** `Symbol` and `Value` are inverse: every alphabet character is the
      symbol of its own value. */
  lemma SymbolValue(c: char)
    requires IsSymbol(c)
    ensures Symbol(Value(c)) == c
  {
  }

  /** Three octets become four characters. */
  function EncodeTriple(x: Byte, y: Byte, z: Byte): (r: string)
    ensures |r| == 4
  {
    [Symbol(x / 4), Symbol((x % 4) * 16 + y / 16), Symbol((y % 16) * 4 + z / 64), Symbol(z % 64)]
  }

  /** A final group of two octets becomes three characters and one '='. */
  function EncodePair(x: Byte, y: Byte): (r: string)
    ensures |r| == 4
  {
    [Symbol(x / 4), Symbol((x % 4) * 16 + y / 16), Symbol((y % 16) * 4), Pad]
  }

  /** A final single octet becomes two characters and "==". */
  function EncodeSingle(x: Byte): (r: string)
    ensures |r| == 4
  {
    [Symbol(x / 4), Symbol((x % 4) * 16), Pad, Pad]
  }

  /** `ToBase64String`: total, four characters for every started group of three octets. */
  function Encode(b: seq<Byte>): (r: string)
    ensures |r| == 4 * ((|b| + 2) / 3)
    decreases |b|
  {
    if |b| == 0 then ""
    else if |b| == 1 then EncodeSingle(b[0])
    else if |b| == 2 then EncodePair(b[0], b[1])
    else EncodeTriple(b[0], b[1], b[2]) + Encode(b[3..])
  }

  /** One group of four characters; `last` says whether it ends the input,
      the only place where padding is allowed. */
  function DecodeQuad(q: string, last: bool): (r: Result<seq<Byte>, DecodeError>)
    requires |q| == 4
    ensures r.Success? ==> 1 <= |r.value| <= 3
    ensures r.Success? && |r.value| < 3 ==> last
  {
    if exists i | 0 <= i < 4 :: !IsSymbol(q[i]) && q[i] != Pad then
      Failure(BadCharacter)
    else if IsSymbol(q[0]) && IsSymbol(q[1]) && IsSymbol(q[2]) && IsSymbol(q[3]) then
      var a, b, c, d := Value(q[0]), Value(q[1]), Value(q[2]), Value(q[3]);
      Success([a * 4 + b / 16, (b % 16) * 16 + c / 4, (c % 4) * 64 + d])
    else if last && IsSymbol(q[0]) && IsSymbol(q[1]) && IsSymbol(q[2]) && q[3] == Pad then
      var a, b, c := Value(q[0]), Value(q[1]), Value(q[2]);
      Success([a * 4 + b / 16, (b % 16) * 16 + c / 4])
    else if last && IsSymbol(q[0]) && IsSymbol(q[1]) && q[2] == Pad && q[3] == Pad then
      var a, b := Value(q[0]), Value(q[1]);
      Success([a * 4 + b / 16])
    else
      Failure(BadPadding)
  }

  /** The groups of a string whose length is a multiple of 4, first error wins. */
  function DecodeQuads(s: string): (r: Result<seq<Byte>, DecodeError>)
    requires |s| % 4 == 0
    ensures r.Success? ==> 3 * (|s| / 4) - 2 <= |r.value| <= 3 * (|s| / 4)
    decreases |s|
  {
    if |s| == 0 then Success([])
    else
      match DecodeQuad(s[..4], |s| == 4)
      case Failure(e) => Failure(e)
      case Success(head) =>
        match DecodeQuads(s[4..])
        case Failure(e) => Failure(e)
        case Success(tail) => Success(head + tail)
  }

  /** `FromBase64String`, without the whitespace it tolerates. The bits that
      padding leaves unused are ignored, as .NET does. */
  function Decode(s: string): (r: Result<seq<Byte>, DecodeError>)
    ensures r.Success? ==> |s| % 4 == 0 && 3 * (|s| / 4) - 2 <= |r.value| <= 3 * (|s| / 4)
  {
    if |s| % 4 != 0 then Failure(BadLength) else DecodeQuads(s)
  }

  /** Padding sits only in the last one or two positions, and a '=' in the
      next-to-last position is followed by another. */
  ghost predicate PaddingAtEnd(s: string) {
    && (forall i | 0 <= i < |s| && s[i] == Pad :: i >= |s| - 2)
    && (|s| >= 2 && s[|s| - 2] == Pad ==> s[|s| - 1] == Pad)
  }

  /** Every character is in the alphabet or is '='. */
  ghost predicate SymbolsOrPad(s: string) {
    forall i | 0 <= i < |s| :: IsSymbol(s[i]) || s[i] == Pad
  }

  /** Well-formed base64 text, stated directly on the characters. */
  ghost predicate WellFormed(s: string) {
    |s| % 4 == 0 && SymbolsOrPad(s) && PaddingAtEnd(s)
  }

  ghost predicate NoPad(s: string) {
    forall i | 0 <= i < |s| :: s[i] != Pad
  }

  // ----- Round trip --------------------------------------------------------

  /** The three 6-bit values of the middle of a group give back the octets. */
  lemma TripleArithmetic(x: Byte, y: Byte, z: Byte)
    ensures var a, b, c, d := x / 4, (x % 4) * 16 + y / 16, (y % 16) * 4 + z / 64, z % 64;
      && a * 4 + b / 16 == x
      && (b % 16) * 16 + c / 4 == y
      && (c % 4) * 64 + d == z
  {
    var b := (x % 4) * 16 + y / 16;
    assert b / 16 == x % 4 && b % 16 == y / 16;
    var c := (y % 16) * 4 + z / 64;
    assert c / 4 == y % 16 && c % 4 == z / 64;
  }

  lemma DecodeEncodeTriple(x: Byte, y: Byte, z: Byte, last: bool)
    ensures DecodeQuad(EncodeTriple(x, y, z), last) == Success([x, y, z])
  {
    var q := EncodeTriple(x, y, z);
    TripleArithmetic(x, y, z);
    assert Value(q[0]) == x / 4 && Value(q[1]) == (x % 4) * 16 + y / 16;
    assert Value(q[2]) == (y % 16) * 4 + z / 64 && Value(q[3]) == z % 64;
  }

  lemma DecodeEncodePair(x: Byte, y: Byte)
    ensures Decode(EncodePair(x, y)) == Success([x, y])
  {
    var q := EncodePair(x, y);
    TripleArithmetic(x, y, 0);
    assert Value(q[0]) == x / 4 && Value(q[1]) == (x % 4) * 16 + y / 16;
    assert Value(q[2]) == (y % 16) * 4;
    assert !IsSymbol(q[3]);
    DecodeOneQuad(q, [x, y]);
  }

  lemma DecodeEncodeSingle(x: Byte)
    ensures Decode(EncodeSingle(x)) == Success([x])
  {
    var q := EncodeSingle(x);
    TripleArithmetic(x, 0, 0);
    assert Value(q[0]) == x / 4 && Value(q[1]) == (x % 4) * 16;
    assert !IsSymbol(q[2]) && !IsSymbol(q[3]);
    DecodeOneQuad(q, [x]);
  }

  /** A single group is decoded as the last one. */
  lemma DecodeOneQuad(q: string, v: seq<Byte>)
    requires |q| == 4 && DecodeQuad(q, true) == Success(v)
    ensures Decode(q) == Success(v)
  {
    assert q[..4] == q && q[4..] == [];
    assert DecodeQuads(q[4..]) == Success([]);
    assert DecodeQuad(q[..4], |q| == 4) == Success(v);
    assert DecodeQuads(q) == Success(v + []);
    assert v + [] == v;
  }

  /** Decoding a group followed by more groups. */
  lemma DecodeQuadsCons(q: string, t: string, head: seq<Byte>, tail: seq<Byte>)
    requires |q| == 4 && DecodeQuad(q, t == []) == Success(head) && Decode(t) == Success(tail)
    ensures Decode(q + t) == Success(head + tail)
  {
    var s := q + t;
    assert s[..4] == q && s[4..] == t;
    assert DecodeQuads(s) == Success(head + tail);
  }

  lemma SplitFirstThree<T>(b: seq<T>)
    requires |b| >= 3
    ensures b == [b[0], b[1], b[2]] + b[3..]
  {
  }

  /** One step of the round trip: a leading group of three octets. */
  lemma DecodeEncodeStep(b: seq<Byte>)
    requires |b| >= 3 && Decode(Encode(b[3..])) == Success(b[3..])
    ensures Decode(Encode(b)) == Success(b)
  {
    var q := EncodeTriple(b[0], b[1], b[2]);
    var t := Encode(b[3..]);
    assert Encode(b) == q + t;
    DecodeEncodeTriple(b[0], b[1], b[2], t == []);
    DecodeQuadsCons(q, t, [b[0], b[1], b[2]], b[3..]);
    SplitFirstThree(b);
  }

  /** Round trip: decoding what `Encode` produced gives back the same octets. */
  lemma {:induction false} DecodeEncode(b: seq<Byte>)
    ensures Decode(Encode(b)) == Success(b)
    decreases |b|
  {
    if |b| == 0 {
      assert Encode(b) == "";
    } else if |b| == 1 {
      assert Encode(b) == EncodeSingle(b[0]) && b == [b[0]];
      DecodeEncodeSingle(b[0]);
    } else if |b| == 2 {
      assert Encode(b) == EncodePair(b[0], b[1]) && b == [b[0], b[1]];
      DecodeEncodePair(b[0], b[1]);
    } else {
      DecodeEncode(b[3..]);
      DecodeEncodeStep(b);
    }
  }

  // ----- Shape of the encoding --------------------------------------------

  /** The encoding is well-formed base64: only alphabet characters, with at
      most two '=' and those only at the very end. */
  lemma {:induction false} EncodeWellFormed(b: seq<Byte>)
    ensures WellFormed(Encode(b))
    decreases |b|
  {
    if |b| >= 3 {
      var q := EncodeTriple(b[0], b[1], b[2]);
      var t := Encode(b[3..]);
      assert Encode(b) == q + t;
      assert IsSymbol(q[0]) && IsSymbol(q[1]) && IsSymbol(q[2]) && IsSymbol(q[3]);
      EncodeWellFormed(b[3..]);
      WellFormedCons(q, t);
    }
  }

  /** A group of four alphabet characters in front of well-formed text. */
  lemma WellFormedCons(q: string, t: string)
    requires |q| == 4 && NoPad(q) && SymbolsOrPad(q) && WellFormed(t)
    ensures WellFormed(q + t)
  {
    var s := q + t;
    assert forall i | 0 <= i < |s| :: s[i] == if i < 4 then q[i] else t[i - 4];
  }

  /** Only alphabet characters, and only in the last (at most two) positions '='. */
  lemma EncodeAlphabet(b: seq<Byte>)
    ensures var s := Encode(b);
      forall i | 0 <= i < |s| :: IsSymbol(s[i]) || (s[i] == Pad && i >= |s| - 2)
  {
    EncodeWellFormed(b);
  }

  /** Section 10 of RFC 4648, on the octets of "", "f", "fo", ..., "foobar". */
  lemma EncodeTestVectors()
    ensures Encode([]) == ""
    ensures Encode([0x66]) == "Zg=="
    ensures Encode([0x66, 0x6F]) == "Zm8="
    ensures Encode([0x66, 0x6F, 0x6F]) == "Zm9v"
    ensures Encode([0x66, 0x6F, 0x6F, 0x62]) == "Zm9vYg=="
    ensures Encode([0x66, 0x6F, 0x6F, 0x62, 0x61]) == "Zm9vYmE="
    ensures Encode([0x66, 0x6F, 0x6F, 0x62, 0x61, 0x72]) == "Zm9vYmFy"
  {
  }

  // ----- When decoding fails ----------------------------------------------

  lemma DecodeQuadSucceeds(q: string, last: bool)
    requires |q| == 4
    ensures DecodeQuad(q, last).Success? <==>
      SymbolsOrPad(q) && (if last then PaddingAtEnd(q) else NoPad(q))
  {
    if SymbolsOrPad(q) {
      if last && PaddingAtEnd(q) {
        assert q[0] != Pad && q[1] != Pad;
      }
    }
  }

  lemma DecodeQuadFailure(q: string, last: bool)
    requires |q| == 4
    ensures DecodeQuad(q, last) == Failure(BadCharacter) ==> !SymbolsOrPad(q)
    ensures DecodeQuad(q, last) == Failure(BadPadding) ==> SymbolsOrPad(q)
  {
  }

  lemma {:induction false} DecodeQuadsSucceeds(s: string)
    requires |s| % 4 == 0
    ensures DecodeQuads(s).Success? <==> SymbolsOrPad(s) && PaddingAtEnd(s)
    decreases |s|
  {
    if |s| > 0 {
      var q, t := s[..4], s[4..];
      assert s == q + t;
      DecodeQuadSucceeds(q, |s| == 4);
      if |s| == 4 {
        assert q == s;
      } else {
        DecodeQuadsSucceeds(t);
        assert forall i | 0 <= i < |s| :: s[i] == if i < 4 then q[i] else t[i - 4];
        assert SymbolsOrPad(s) <==> SymbolsOrPad(q) && SymbolsOrPad(t);
        if NoPad(q) && PaddingAtEnd(t) {
          assert PaddingAtEnd(s);
        }
        if PaddingAtEnd(s) {
          assert NoPad(q);
        }
      }
    }
  }

  /** `Decode` succeeds exactly on well-formed text: a length that is a
      multiple of 4, alphabet characters only, and '=' only at the end. */
  lemma DecodeSucceedsIff(s: string)
    ensures Decode(s).Success? <==> WellFormed(s)
  {
    if |s| % 4 == 0 {
      DecodeQuadsSucceeds(s);
    }
  }

  /** Each error names a real defect of the input, and a wrong length is
      reported before anything else. */
  lemma {:induction false} DecodeErrors(s: string)
    ensures Decode(s) == Failure(BadLength) <==> |s| % 4 != 0
    ensures Decode(s) == Failure(BadCharacter) ==> !SymbolsOrPad(s)
    ensures Decode(s) == Failure(BadPadding) ==> !PaddingAtEnd(s)
    decreases |s|
  {
    if |s| % 4 == 0 {
      DecodeQuadsErrors(s);
      DecodeQuadsSucceeds(s);
    }
  }

  lemma {:induction false} DecodeQuadsErrors(s: string)
    requires |s| % 4 == 0
    ensures DecodeQuads(s) != Failure(BadLength)
    ensures DecodeQuads(s) == Failure(BadCharacter) ==> !SymbolsOrPad(s)
    ensures DecodeQuads(s) == Failure(BadPadding) ==> !PaddingAtEnd(s)
    decreases |s|
  {
    if |s| > 0 {
      var q, t := s[..4], s[4..];
      var last := |s| == 4;
      DecodeQuadFailure(q, last);
      DecodeQuadSucceeds(q, last);
      assert forall i | 0 <= i < |q| :: q[i] == s[i];
      assert forall i | 0 <= i < |t| :: t[i] == s[i + 4];
      if DecodeQuad(q, last).Success? {
        DecodeQuadsErrors(t);
      } else if DecodeQuad(q, last) == Failure(BadPadding) && last {
        assert q == s;
      }
    }
  }

  /** One input for each way `Decode` rejects. */
  lemma DecodeRejects()
    ensures Decode("Zm9") == Failure(BadLength)
    ensures Decode("Zm9v!A==") == Failure(BadCharacter)
    ensures Decode("Zg==Zm9v") == Failure(BadPadding)
    ensures Decode("Z=9v") == Failure(BadPadding)
  {
  }
}
