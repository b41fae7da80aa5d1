/**
 The sample strings of main.go and what the transforms do to them, together
 with the conversions `main` performs between strings, byte slices and rune
 slices. Each fact is its own small lemma so that no proof has to unfold the
 definitions over a whole literal at once.
 */
module Scenarios {
  import opened Utf8
  import opened Transforms
  import opened Properties

  /** The bytes of an ASCII string literal. */
  function AsciiBytes(s: string): (r: seq<byte>)
    requires forall k :: 0 <= k < |s| ==> s[k] as int < 0x80
    ensures |r| == |s| && IsAscii(r)
    ensures forall k :: 0 <= k < |s| ==> r[k] as int == s[k] as int
  {
    seq(|s|, k requires 0 <= k < |s| => s[k] as int as byte)
  }

  /** Default `str1`. */
  const Str1 := AsciiBytes("Hello gophers")
  const Str1Lower := AsciiBytes("hello gophers")
  /** `str4` is "    The is a Test     ": `Str5` between four leading and five
      trailing spaces. */
  const Str5 := AsciiBytes("The is a Test")
  const Str4Right := AsciiBytes("    ") + Str5
  const Str4 := Str4Right + AsciiBytes("     ")

  /** "  ab " and its two halves, the text on which the order of the trims shows. */
  const Ab := AsciiBytes("ab")
  const AbRight := AsciiBytes("  ") + Ab
  const AbLeft := Ab + AsciiBytes(" ")
  const PaddedAb := AbRight + AsciiBytes(" ")

  /** Default `str2`: the runes U+4F60 U+597D U+5730 U+9F20, and their UTF-8 bytes. */
  const GreetingRunes: seq<int> := [0x4F60, 0x597D, 0x5730, 0x9F20]
  const Greeting: seq<byte> :=
    [0xE4, 0xBD, 0xA0, 0xE5, 0xA5, 0xBD, 0xE5, 0x9C, 0xB0, 0xE9, 0xBC, 0xA0]

  // ------------------------------------------------------------ conversions

  /** `string(byte(65))` and `string(rune(20320))`: one rune, encoded. */
  lemma {:induction false} SingleRuneStrings()
    ensures EncodeRune(65) == [65]
    ensures EncodeRune(20320) == [0xE4, 0xBD, 0xA0]
  {
  }

  /** The greeting decodes to its four runes, three bytes each. */
  lemma {:induction false} GreetingDecodes()
    ensures ValidUtf8(Greeting)
    ensures Decode(Greeting) == GreetingRunes
  {
    var g3, g6, g9 := Greeting[3..], Greeting[6..], Greeting[9..];
    DecodeStep(g9, 0x9F20, []);
    DecodeStep(g6, 0x5730, [0x9F20]);
    DecodeStep(g3, 0x597D, [0x5730, 0x9F20]);
    DecodeStep(Greeting, 0x4F60, [0x597D, 0x5730, 0x9F20]);
  }

  /** Text that starts with the three-byte encoding of `c` followed by text
      with runes `rest` has runes `[c] + rest`. */
  lemma {:induction false} DecodeStep(s: seq<byte>, c: int, rest: seq<int>)
    requires |s| >= 3 && ScanFirst(s) == Scalar(c, 3)
    requires ValidUtf8(s[3..]) && Decode(s[3..]) == rest
    ensures ValidUtf8(s) && Decode(s) == [c] + rest
  {
  }

  /** The greeting is the encoding of its four runes. */
  lemma {:induction false} GreetingBytes()
    ensures Encode(GreetingRunes) == Greeting
  {
    GreetingDecodes();
    EncodeDecode(Greeting);
  }

  /**
   The conversions of `main`, for any well-formed `str1` and `str2`:
   `rune1 := []rune(str2 + str1)`, `byte1 := []byte(str2 + str1)`,
   `byte2 := []byte(string(rune1))` and `rune2 := []rune(string(byte1))`.
   The runes of the concatenation are the runes of each part, `byte2` is
   `byte1` and `rune2` is `rune1`; decoding `byte2` once more gives `rune1`.
   */
  lemma {:induction false} MainConversions(str1: seq<byte>, str2: seq<byte>)
    requires ValidUtf8(str1) && ValidUtf8(str2)
    ensures ValidUtf8(str2 + str1)
    ensures var rune1, byte1 := Decode(str2 + str1), str2 + str1;
      var byte2, rune2 := Encode(rune1), Decode(byte1);
      && rune1 == Decode(str2) + Decode(str1)
      && byte2 == byte1
      && rune2 == rune1
      && Decode(byte2) == rune1
  {
    DecodeAppend(str2, str1);
    EncodeDecode(str2 + str1);
  }

  // -------------------------------------------------------------- reversal

  /** revRune on the greeting gives its four characters backwards, still twelve bytes. */
  lemma {:induction false} RevRuneGreeting()
    ensures ValidUtf8(Greeting)
    ensures Decode(RevRune(Greeting)) == [0x9F20, 0x5730, 0x597D, 0x4F60]
    ensures |RevRune(Greeting)| == 12
  {
    GreetingDecodes();
    RevRuneReversesRunes(Greeting);
    GreetingRunesBackwards();
  }

  lemma {:induction false} GreetingRunesBackwards()
    ensures Reversed(GreetingRunes) == [0x9F20, 0x5730, 0x597D, 0x4F60]
  {
  }

  /** revByte on the greeting gives malformed text. */
  lemma {:induction false} RevByteGreeting()
    ensures ValidUtf8(Greeting)
    ensures !ValidUtf8(RevByte(Greeting))
  {
    GreetingDecodes();
    assert Greeting[0] >= 0x80;
    RevByteValidIffAscii(Greeting);
  }

  /** revByte on the encoding of U+4F60 alone: the result starts with a continuation byte. */
  lemma {:induction false} RevByteSplitsCharacter()
    ensures RevByte([0xE4, 0xBD, 0xA0]) == [0xA0, 0xBD, 0xE4]
    ensures IsContinuation(RevByte([0xE4, 0xBD, 0xA0])[0])
    ensures !ValidUtf8(RevByte([0xE4, 0xBD, 0xA0]))
  {
    var b: seq<byte> := [0xE4, 0xBD, 0xA0];
    assert RevByte(b) == [0xA0, 0xBD, 0xE4];
  }

  // ---------------------------------------------------------- case mapping

  /** toLower leaves the greeting as it is: none of its runes is ASCII. */
  lemma {:induction false} LowerKeepsGreeting()
    ensures ValidUtf8(Greeting)
    ensures ToLower(Greeting) == Greeting
  {
    GreetingDecodes();
    GreetingHasNoCapitals();
    EncodeDecode(Greeting);
  }

  lemma {:induction false} GreetingHasNoCapitals()
    ensures LowerRunes(GreetingRunes) == GreetingRunes
  {
  }

  /** `toLower(str1)` with the default `str1`. */
  lemma {:induction false} LowerHelloGophers()
    ensures ValidUtf8(Str1)
    ensures ToLower(Str1) == Str1Lower
  {
    Str1Shape();
    ToLowerOfAsciiIs(Str1, Str1Lower);
  }

  lemma {:induction false} Str1Shape()
    ensures |Str1| == |Str1Lower|
    ensures forall k :: 0 <= k < |Str1| ==> Str1Lower[k] as int == LowerRune(Str1[k] as int)
  {
  }

  /** Reads off toLower of ASCII text from the expected bytes. */
  lemma {:induction false} ToLowerOfAsciiIs(s: seq<byte>, t: seq<byte>)
    requires IsAscii(s) && |s| == |t|
    requires forall k :: 0 <= k < |s| ==> t[k] as int == LowerRune(s[k] as int)
    ensures ValidUtf8(s)
    ensures ToLower(s) == t
  {
    ToLowerOnAscii(s);
    var out := ToLower(s);
    assert forall k :: 0 <= k < |out| ==> out[k] == t[k];
  }

  // ----------------------------------------------------------------- trims

  lemma {:induction false} Str4Shape()
    ensures CountTrailing(Str4, Space as byte) == 5
    ensures Str4[..17] == Str4Right
  {
    assert Str4[16] as int == 116;
    CountTrailingUnique(Str4, Space as byte, 5);
    TakePrefix(Str4Right, AsciiBytes("     "));
  }

  lemma {:induction false} Str4RightShape()
    ensures CountLeading(Str4Right, Space as byte) == 4
    ensures Str4Right[4..] == Str5
  {
    assert Str4Right[4] as int == 84;
    CountLeadingUnique(Str4Right, Space as byte, 4);
    DropPrefix(AsciiBytes("    "), Str5);
  }

  /** `rTrim(str4)`. */
  lemma {:induction false} RTrimSample()
    ensures ValidUtf8(Str4)
    ensures RTrim(Str4) == Returned(Str4Right)
  {
    RTrimAsBytes(Str4);
    Str4Shape();
  }

  /** `lTrim(rTrim(str4))`: the full trim of the sample. */
  lemma {:induction false} FullTrimSample()
    ensures ValidUtf8(Str4)
    ensures RTrim(Str4).Returned? && ValidUtf8(RTrim(Str4).value)
    ensures LTrim(RTrim(Str4).value) == Str5
  {
    RTrimSample();
    LTrimAsBytes(Str4Right);
    Str4RightShape();
  }

  /** rTrim on the greeting panics at index 11 of a 4-rune slice; the intended right trim keeps it whole. */
  lemma {:induction false} RTrimPanicsOnGreeting()
    ensures ValidUtf8(Greeting)
    ensures RTrim(Greeting) == IndexPanic(11, 4)
    ensures TrimRight(Greeting) == Greeting
  {
    GreetingDecodes();
    TrimRightKeepsGreeting();
  }

  /** The greeting ends in U+9F20, not a space, so the intended right trim keeps all of it. */
  lemma {:induction false} TrimRightKeepsGreeting()
    ensures ValidUtf8(Greeting) && TrimRight(Greeting) == Greeting
  {
    GreetingDecodes();
    assert CountTrailing(GreetingRunes, Space) == 0;
    assert StripTrailing(GreetingRunes) == GreetingRunes;
    GreetingBytes();
  }

  /** rTrim("a   "): three trailing spaces out of four bytes, so the result is empty. */
  lemma {:induction false} RTrimEmptiesShortWord()
    ensures ValidUtf8(AsciiBytes("a   "))
    ensures RTrim(AsciiBytes("a   ")) == Returned([])
    ensures TrimRight(AsciiBytes("a   ")) == AsciiBytes("a")
  {
    var a := AsciiBytes("a   ");
    RTrimAsBytes(a);
    TrimRightOnAscii(a);
    assert a[0] as int == 97;
    CountTrailingUnique(a, Space as byte, 3);
  }

  /** lTrim("   a"): three leading spaces out of four bytes, so nothing is removed. */
  lemma {:induction false} LTrimKeepsShortWord()
    ensures ValidUtf8(AsciiBytes("   a"))
    ensures LTrim(AsciiBytes("   a")) == AsciiBytes("   a")
    ensures TrimLeft(AsciiBytes("   a")) == AsciiBytes("a")
  {
    var b := AsciiBytes("   a");
    DecodeAscii(b);
    LTrimAsBytes(b);
    TrimLeftStripsSpaces(b);
    assert b[3] as int == 97;
    CountLeadingUnique(b, Space as byte, 3);
  }

  /** Spaces only: rTrim empties the text, lTrim leaves it alone; the empty text stays empty. */
  lemma {:induction false} TrimsOfBlankText()
    ensures ValidUtf8(AsciiBytes("    "))
    ensures RTrim(AsciiBytes("    ")) == Returned([])
    ensures LTrim(AsciiBytes("    ")) == AsciiBytes("    ")
  {
    var c := AsciiBytes("    ");
    DecodeAscii(c);
    CountLeadingUnique(c, Space as byte, 4);
    CountTrailingUnique(c, Space as byte, 4);
    RTrimAsBytes(c);
    LTrimAsBytes(c);
  }

  /** "  ab ": two leading spaces, "ab", one trailing space. */
  lemma {:induction false} PaddedAbShape()
    ensures CountTrailing(PaddedAb, Space as byte) == 1 && PaddedAb[..4] == AbRight
    ensures CountLeading(PaddedAb, Space as byte) == 2 && PaddedAb[2..] == AbLeft
  {
    assert PaddedAb[2] as int == 97 && PaddedAb[3] as int == 98;
    CountTrailingUnique(PaddedAb, Space as byte, 1);
    CountLeadingUnique(PaddedAb, Space as byte, 2);
    TakePrefix(AbRight, AsciiBytes(" "));
    AppendAssoc(AsciiBytes("  "), Ab, AsciiBytes(" "));
    DropPrefix(AsciiBytes("  "), AbLeft);
  }

  /** "  ab" keeps its two leading spaces under lTrim; "ab " loses its trailing space under rTrim. */
  lemma {:induction false} HalfTrimmedAbShape()
    ensures CountLeading(AbRight, Space as byte) == 2
    ensures CountTrailing(AbLeft, Space as byte) == 1 && AbLeft[..2] == Ab
  {
    assert AbRight[2] as int == 97 && AbLeft[1] as int == 98;
    CountLeadingUnique(AbRight, Space as byte, 2);
    CountTrailingUnique(AbLeft, Space as byte, 1);
    TakePrefix(Ab, AsciiBytes(" "));
  }

  /** rTrim first: "  ab " loses its trailing space, and lTrim then keeps "  ab" whole. */
  lemma {:induction false} RTrimThenLTrimAb()
    ensures ValidUtf8(PaddedAb) && ValidUtf8(AbRight)
    ensures RTrim(PaddedAb) == Returned(AbRight) && LTrim(AbRight) == AbRight
  {
    PaddedAbShape();
    HalfTrimmedAbShape();
    RTrimAsBytes(PaddedAb);
    LTrimAsBytes(AbRight);
  }

  /** lTrim first: "  ab " loses its two leading spaces. */
  lemma {:induction false} LTrimPaddedAb()
    ensures ValidUtf8(PaddedAb) && LTrim(PaddedAb) == AbLeft
  {
    PaddedAbShape();
    DecodeAscii(PaddedAb);
    LTrimAsBytes(PaddedAb);
  }

  /** rTrim then turns "ab " into "ab". */
  lemma {:induction false} RTrimAbLeft()
    ensures ValidUtf8(AbLeft) && RTrim(AbLeft) == Returned(Ab)
  {
    HalfTrimmedAbShape();
    RTrimAsBytes(AbLeft);
  }

  /** "  ab ": lTrim after rTrim gives "  ab", rTrim after lTrim gives "ab", so
      the trims as written depend on their order. */
  lemma {:induction false} TrimOrderMatters()
    ensures ValidUtf8(PaddedAb)
    ensures RTrim(PaddedAb).Returned? && ValidUtf8(RTrim(PaddedAb).value)
    ensures ValidUtf8(LTrim(PaddedAb))
    ensures LTrim(RTrim(PaddedAb).value) == AbRight
    ensures RTrim(LTrim(PaddedAb)) == Returned(Ab)
    ensures AbRight != Ab
  {
    RTrimThenLTrimAb();
    LTrimPaddedAb();
    RTrimAbLeft();
    assert |AbRight| == 4;
  }

  /** The empty text is left empty by both trims. */
  lemma {:induction false} TrimsOfEmptyText()
    ensures RTrim([]) == Returned([]) && LTrim([]) == []
  {
  }
}
