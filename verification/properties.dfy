/**
 Properties of the transforms of main.go, stated over the reference
 definitions of module Transforms.
 */
module Properties {
  import opened Utf8
  import opened Transforms

  // ---------------------------------------------------------------- helpers

  lemma {:induction false} ReversedTwice<T>(s: seq<T>)
    ensures Reversed(Reversed(s)) == s
  {
    assert forall k :: 0 <= k < |s| ==> Reversed(Reversed(s))[k] == s[k];
  }

  /** Reversal only reorders: every element keeps its multiplicity. */
  lemma {:induction false} ReversedPermutes<T>(s: seq<T>)
    ensures multiset(Reversed(s)) == multiset(s)
  {
    if |s| > 0 {
      ReversedPermutes(s[1..]);
      assert s == [s[0]] + s[1..];
    }
  }

  /** Reversing the runes does not change how many bytes encode them. */
  lemma {:induction false} EncodeReversedLength(rs: seq<int>)
    requires AllScalarValues(rs)
    ensures AllScalarValues(Reversed(rs))
    ensures |Encode(Reversed(rs))| == |Encode(rs)|
  {
    if |rs| > 0 {
      var tail := Reversed(rs[1..]);
      EncodeReversedLength(rs[1..]);
      EncodeAppend(tail, [rs[0]]);
      assert Reversed(rs) == tail + [rs[0]];
    }
  }

  /** Runes that differ only where both are ASCII encode to texts of the same length. */
  lemma {:induction false} EncodeSameWidths(xs: seq<int>, ys: seq<int>)
    requires AllScalarValues(xs) && AllScalarValues(ys) && |xs| == |ys|
    requires forall k :: 0 <= k < |xs| ==> xs[k] == ys[k] || (xs[k] < 0x80 && ys[k] < 0x80)
    ensures |Encode(xs)| == |Encode(ys)|
  {
    if |xs| > 0 {
      EncodeSameWidths(xs[1..], ys[1..]);
    }
  }

  /** In well-formed text the last byte at or above 0x80 closes a multi-byte character. */
  lemma {:induction false} LastHighByteIsContinuation(s: seq<byte>, k: int)
    requires ValidUtf8(s)
    requires 0 <= k < |s| && s[k] >= 0x80
    requires forall m :: k < m < |s| ==> s[m] < 0x80
    ensures IsContinuation(s[k])
    decreases |s|
  {
    var n := ScanFirst(s).size;
    if k >= n {
      assert forall m :: k - n < m < |s| - n ==> s[n..][m] == s[m + n];
      LastHighByteIsContinuation(s[n..], k - n);
    } else {
      ScanContinuations(s, n - 1);
    }
  }

  /** In well-formed text the first byte at or above 0x80 opens a multi-byte character. */
  lemma {:induction false} FirstHighByteIsLead(t: seq<byte>, j: int)
    requires ValidUtf8(t)
    requires 0 <= j < |t| && t[j] >= 0x80
    requires forall m :: 0 <= m < j ==> t[m] < 0x80
    ensures !IsContinuation(t[j])
    decreases j
  {
    if j > 0 {
      assert forall m :: 0 <= m < j - 1 ==> t[1..][m] == t[m + 1];
      FirstHighByteIsLead(t[1..], j - 1);
    }
  }

  /** The position of the last byte at or above 0x80 in non-ASCII text. */
  lemma {:induction false} LastHighByte(s: seq<byte>) returns (k: int)
    requires !IsAscii(s)
    ensures 0 <= k < |s| && s[k] >= 0x80
    ensures forall m :: k < m < |s| ==> s[m] < 0x80
  {
    if s[|s| - 1] >= 0x80 {
      k := |s| - 1;
    } else {
      var init := s[..|s| - 1];
      assert !IsAscii(init) by {
        var w :| 0 <= w < |s| && s[w] >= 0x80;
        assert init[w] == s[w];
      }
      k := LastHighByte(init);
      assert forall m :: k < m < |s| - 1 ==> s[m] == init[m];
    }
  }

  // ------------------------------------------------------------- revByte

  /** revByte applied twice gives back the input, for any bytes at all. */
  lemma {:induction false} RevByteTwice(s: seq<byte>)
    ensures RevByte(RevByte(s)) == s
  {
    ReversedTwice(s);
  }

  /** On ASCII text reversing bytes and reversing runes agree. */
  lemma {:induction false} RevByteAgreesOnAscii(s: seq<byte>)
    requires IsAscii(s)
    ensures ValidUtf8(s)
    ensures RevByte(s) == RevRune(s)
  {
    DecodeAscii(s);
    var rs := Reversed(Decode(s));
    assert forall k :: 0 <= k < |rs| ==> rs[k] == s[|s| - 1 - k] as int;
    EncodeAsciiRunes(rs);
    var e := Encode(rs);
    assert forall k :: 0 <= k < |s| ==> e[k] == RevByte(s)[k];
  }

  /** revByte keeps well-formed text well-formed exactly when the text is ASCII:
      any multi-byte character makes the reversed bytes malformed. */
  lemma {:induction false} RevByteValidIffAscii(s: seq<byte>)
    requires ValidUtf8(s)
    ensures ValidUtf8(RevByte(s)) <==> IsAscii(s)
  {
    var t := RevByte(s);
    if IsAscii(s) {
      DecodeAscii(t);
    } else {
      var k := LastHighByte(s);
      LastHighByteIsContinuation(s, k);
      var j := |s| - 1 - k;
      assert t[j] == s[k];
      if ValidUtf8(t) {
        FirstHighByteIsLead(t, j);
      }
    }
  }

  // ------------------------------------------------------------- revRune

  /** revRune reverses the runes and keeps both the rune count and the byte count. */
  lemma {:induction false} RevRuneReversesRunes(s: seq<byte>)
    requires ValidUtf8(s)
    ensures Decode(RevRune(s)) == Reversed(Decode(s))
    ensures multiset(Decode(RevRune(s))) == multiset(Decode(s))
    ensures |Decode(RevRune(s))| == |Decode(s)|
    ensures |RevRune(s)| == |s|
  {
    var rs := Decode(s);
    EncodeReversedLength(rs);
    DecodeEncode(Reversed(rs));
    ReversedPermutes(rs);
    EncodeDecode(s);
  }

  /** revRune applied twice gives back well-formed input. */
  lemma {:induction false} RevRuneTwice(s: seq<byte>)
    requires ValidUtf8(s)
    ensures RevRune(RevRune(s)) == s
  {
    RevRuneReversesRunes(s);
    ReversedTwice(Decode(s));
    EncodeDecode(s);
  }

  // ------------------------------------------------------ toUpper, toLower

  /** toUpper moves exactly the runes 'a'..'z' down by 32, leaves every other
      rune (all non-ASCII ones included) alone, and keeps the rune and byte counts. */
  lemma {:induction false} ToUpperPerRune(s: seq<byte>)
    requires ValidUtf8(s)
    ensures |Decode(ToUpper(s))| == |Decode(s)|
    ensures forall k :: 0 <= k < |Decode(s)| && 97 <= Decode(s)[k] <= 122 ==>
      Decode(ToUpper(s))[k] == Decode(s)[k] - 32
    ensures forall k :: 0 <= k < |Decode(s)| && !(97 <= Decode(s)[k] <= 122) ==>
      Decode(ToUpper(s))[k] == Decode(s)[k]
    ensures |ToUpper(s)| == |s|
  {
    var rs := Decode(s);
    DecodeEncode(UpperRunes(rs));
    EncodeSameWidths(UpperRunes(rs), rs);
    EncodeDecode(s);
  }

  /** toLower moves exactly the runes 'A'..'Z' up by 32, leaves every other
      rune (all non-ASCII ones included) alone, and keeps the rune and byte counts. */
  lemma {:induction false} ToLowerPerRune(s: seq<byte>)
    requires ValidUtf8(s)
    ensures |Decode(ToLower(s))| == |Decode(s)|
    ensures forall k :: 0 <= k < |Decode(s)| && 65 <= Decode(s)[k] <= 90 ==>
      Decode(ToLower(s))[k] == Decode(s)[k] + 32
    ensures forall k :: 0 <= k < |Decode(s)| && !(65 <= Decode(s)[k] <= 90) ==>
      Decode(ToLower(s))[k] == Decode(s)[k]
    ensures |ToLower(s)| == |s|
  {
    var rs := Decode(s);
    DecodeEncode(LowerRunes(rs));
    EncodeSameWidths(LowerRunes(rs), rs);
    EncodeDecode(s);
  }

  /** On ASCII text toLower works byte by byte. */
  lemma {:induction false} ToLowerOnAscii(s: seq<byte>)
    requires IsAscii(s)
    ensures ValidUtf8(s)
    ensures |ToLower(s)| == |s|
    ensures forall k :: 0 <= k < |s| && 65 <= s[k] <= 90 ==> ToLower(s)[k] == s[k] + 32
    ensures forall k :: 0 <= k < |s| && !(65 <= s[k] <= 90) ==> ToLower(s)[k] == s[k]
  {
    DecodeAscii(s);
    var low := LowerRunes(Decode(s));
    assert forall k :: 0 <= k < |s| ==> low[k] == LowerRune(s[k] as int);
    EncodeAsciiRunes(low);
  }

  /** No ASCII lowercase letter survives toUpper, and toUpper is idempotent. */
  lemma {:induction false} ToUpperIdempotent(s: seq<byte>)
    requires ValidUtf8(s)
    ensures forall k :: 0 <= k < |Decode(ToUpper(s))| ==> !(97 <= Decode(ToUpper(s))[k] <= 122)
    ensures ToUpper(ToUpper(s)) == ToUpper(s)
  {
    var rs := UpperRunes(Decode(s));
    DecodeEncode(rs);
    assert UpperRunes(rs) == rs;
  }

  /** No ASCII uppercase letter survives toLower, and toLower is idempotent. */
  lemma {:induction false} ToLowerIdempotent(s: seq<byte>)
    requires ValidUtf8(s)
    ensures forall k :: 0 <= k < |Decode(ToLower(s))| ==> !(65 <= Decode(ToLower(s))[k] <= 90)
    ensures ToLower(ToLower(s)) == ToLower(s)
  {
    var rs := LowerRunes(Decode(s));
    DecodeEncode(rs);
    assert LowerRunes(rs) == rs;
  }

  /** Lowering after raising is the same as lowering: the mappings only differ in
      which case they land on. */
  lemma {:induction false} LowerAfterUpper(s: seq<byte>)
    requires ValidUtf8(s)
    ensures ToLower(ToUpper(s)) == ToLower(s)
  {
    var rs := Decode(s);
    var up := UpperRunes(rs);
    DecodeEncode(up);
    assert Decode(ToUpper(s)) == up;
    var lowered := LowerRunes(up);
    assert lowered == LowerRunes(rs) by {
      assert forall k :: 0 <= k < |rs| ==> lowered[k] == LowerRune(UpperRune(rs[k])) == LowerRune(rs[k]);
    }
  }

  /** Raising after lowering is the same as raising. */
  lemma {:induction false} UpperAfterLower(s: seq<byte>)
    requires ValidUtf8(s)
    ensures ToUpper(ToLower(s)) == ToUpper(s)
  {
    var rs := Decode(s);
    var low := LowerRunes(rs);
    DecodeEncode(low);
    assert Decode(ToLower(s)) == low;
    var raised := UpperRunes(low);
    assert raised == UpperRunes(rs) by {
      assert forall k :: 0 <= k < |rs| ==> raised[k] == UpperRune(LowerRune(rs[k])) == UpperRune(rs[k]);
    }
  }

  // ---------------------------------------------------------- lTrim, rTrim

  /** A space is a one-byte character, and no other character starts with byte 32,
      so counting leading space runes and leading space bytes agree. */
  lemma {:induction false} LeadingSpacesAgree(s: seq<byte>)
    requires ValidUtf8(s)
    ensures CountLeading(Decode(s), Space) == CountLeading(s, Space as byte)
    decreases |s|
  {
    if |s| > 0 {
      var n := ScanFirst(s).size;
      assert Decode(s)[1..] == Decode(s[n..]);
      if s[0] == Space as byte {
        LeadingSpacesAgree(s[n..]);
      }
    }
  }

  /** Cutting a well-formed text after `f` leading space runes cuts it after `f` bytes. */
  lemma {:induction false} SpacePrefixIsBytes(s: seq<byte>, f: nat)
    requires ValidUtf8(s)
    requires f <= |Decode(s)|
    requires forall k :: 0 <= k < f ==> Decode(s)[k] == Space
    ensures f <= |s|
    ensures Encode(Decode(s)[f..]) == s[f..]
    ensures f == |Decode(s)| ==> f == |s|
  {
    EncodeAsciiRunes(Decode(s)[..f]);
    EncodeSplit(s, f);
  }

  /** The lTrim loop reads rune `i` only when `2 * i` is below the byte length and
      the runes before `i` are spaces; such an `i` is a rune position. */
  lemma {:induction false} LTrimReadsInRange(s: seq<byte>, i: nat)
    requires ValidUtf8(s)
    requires i <= CountLeading(Decode(s), Space) && 2 * i < |s|
    ensures i < |Decode(s)|
  {
    SpacePrefixIsBytes(s, i);
  }

  /**
   lTrim on bytes: with `f` leading space bytes it drops them when `2 * f` is
   below the byte length and otherwise returns its input unchanged (so text of
   spaces only, and text whose spaces reach half its length, come back as is).
   It never indexes out of range.
   */
  lemma {:induction false} LTrimAsBytes(s: seq<byte>)
    requires ValidUtf8(s)
    ensures var f := CountLeading(s, Space as byte);
      LTrim(s) == if 2 * f < |s| then s[f..] else s
  {
    LeadingSpacesAgree(s);
    SpacePrefixIsBytes(s, CountLeading(Decode(s), Space));
  }

  /** lTrim agrees with the intended left trim exactly when the leading spaces
      are fewer than half the bytes, or there are none. */
  lemma {:induction false} LTrimIsTrimLeftIff(s: seq<byte>)
    requires ValidUtf8(s)
    ensures var f := CountLeading(s, Space as byte);
      LTrim(s) == TrimLeft(s) <==> 2 * f < |s| || f == 0
  {
    var f := CountLeading(s, Space as byte);
    LTrimAsBytes(s);
    TrimLeftStripsSpaces(s);
    SuffixEqualsWhole(s, f);
  }

  /** A suffix of `s` is `s` itself only when nothing is dropped. */
  lemma {:induction false} SuffixEqualsWhole<T>(s: seq<T>, f: nat)
    requires f <= |s|
    ensures s[f..] == s <==> f == 0
  {
    if s[f..] == s {
      assert |s[f..]| == |s| - f;
    }
  }

  /** rTrim panics exactly on well-formed text that is not ASCII: its first read,
      rune `len(str) - 1`, is then past the end of the rune slice. */
  lemma {:induction false} RTrimPanicsIffNonAscii(s: seq<byte>)
    requires ValidUtf8(s)
    ensures RTrim(s).IndexPanic? <==> !IsAscii(s)
    ensures RTrim(s).IndexPanic? ==> RTrim(s) == IndexPanic(|s| - 1, |Decode(s)|)
  {
    RuneCountIsByteCountIffAscii(s);
  }

  /** On ASCII text the runes are the bytes, so trailing spaces count the same. */
  lemma {:induction false} TrailingSpacesAgreeOnAscii(s: seq<byte>)
    requires IsAscii(s)
    ensures ValidUtf8(s)
    ensures CountTrailing(Decode(s), Space) == CountTrailing(s, Space as byte)
  {
    DecodeAscii(s);
  }

  /** On ASCII text the first `e` runes encode to the first `e` bytes. */
  lemma {:induction false} AsciiPrefixIsBytes(s: seq<byte>, e: nat)
    requires IsAscii(s) && e <= |s|
    ensures ValidUtf8(s) && |Decode(s)| == |s|
    ensures Encode(Decode(s)[..e]) == s[..e]
  {
    DecodeAscii(s);
    var head := Decode(s)[..e];
    assert forall k :: 0 <= k < e ==> head[k] == s[k] as int;
    EncodeAsciiRunes(head);
    EncodeSplit(s, e);
  }

  /**
   rTrim on ASCII bytes: with `t` trailing space bytes it drops them when `2 * t`
   is below the byte length and otherwise returns the empty string (so text of
   spaces only, and text whose trailing spaces reach half its length, come back
   empty).
   */
  lemma {:induction false} RTrimAsBytes(s: seq<byte>)
    requires IsAscii(s)
    ensures ValidUtf8(s)
    ensures var t := CountTrailing(s, Space as byte);
      RTrim(s) == Returned(if 2 * t < |s| then s[..|s| - t] else [])
  {
    var t := CountTrailing(s, Space as byte);
    TrailingSpacesAgreeOnAscii(s);
    AsciiPrefixIsBytes(s, |s| - t);
    RTrimWhenNoPanic(s);
  }

  /** rTrim on text with one byte per rune: no panic, and the cut of the loop
      when the last non-space rune is reached in time. */
  lemma {:induction false} RTrimWhenNoPanic(s: seq<byte>)
    requires ValidUtf8(s) && |Decode(s)| == |s|
    ensures var rs := Decode(s); var e := |rs| - CountTrailing(rs, Space);
      RTrim(s) == Returned(if e > 0 && 2 * (e - 1) >= |s| - 1 then Encode(rs[..e]) else [])
  {
  }

  /** On ASCII text the intended right trim drops the trailing space bytes. */
  lemma {:induction false} TrimRightOnAscii(s: seq<byte>)
    requires IsAscii(s)
    ensures ValidUtf8(s)
    ensures TrimRight(s) == s[..|s| - CountTrailing(s, Space as byte)]
  {
    var e := |s| - CountTrailing(s, Space as byte);
    TrailingSpacesAgreeOnAscii(s);
    AsciiPrefixIsBytes(s, e);
    assert StripTrailing(Decode(s)) == Decode(s)[..e];
  }

  /** On ASCII text rTrim agrees with the intended right trim exactly when the
      trailing spaces are fewer than half the bytes, or are all of them. */
  lemma {:induction false} RTrimIsTrimRightIff(s: seq<byte>)
    requires IsAscii(s)
    ensures ValidUtf8(s)
    ensures var t := CountTrailing(s, Space as byte);
      RTrim(s) == Returned(TrimRight(s)) <==> 2 * t < |s| || t == |s|
  {
    RTrimAsBytes(s);
    TrimRightOnAscii(s);
    var t := CountTrailing(s, Space as byte);
    if RTrim(s) == Returned(TrimRight(s)) && !(2 * t < |s|) {
      assert |s[..|s| - t]| == 0;
    }
  }

  // ------------------------------------------------------ intended trims

  /** The intended left trim drops exactly the leading space bytes, leaves text
      that does not start with a space, and is idempotent. */
  lemma {:induction false} TrimLeftStripsSpaces(s: seq<byte>)
    requires ValidUtf8(s)
    ensures TrimLeft(s) == s[CountLeading(s, Space as byte)..]
    ensures |TrimLeft(s)| > 0 ==> TrimLeft(s)[0] != Space as byte
    ensures TrimLeft(TrimLeft(s)) == TrimLeft(s)
  {
    LeadingSpacesAgree(s);
    SpacePrefixIsBytes(s, CountLeading(Decode(s), Space));
    var t := TrimLeft(s);
    LeadingSpacesAgree(t);
    SpacePrefixIsBytes(t, 0);
  }

  /** The intended right trim leaves the runes before the trailing spaces, cuts
      the bytes at the same place, and is idempotent. */
  lemma {:induction false} TrimRightStripsSpaces(s: seq<byte>)
    requires ValidUtf8(s)
    ensures Decode(TrimRight(s)) == StripTrailing(Decode(s))
    ensures |TrimRight(s)| <= |s| && TrimRight(s) == s[..|TrimRight(s)|]
    ensures TrimRight(TrimRight(s)) == TrimRight(s)
  {
    var rs := Decode(s);
    var out := StripTrailing(rs);
    DecodeEncode(out);
    EncodeSplit(s, |out|);
    CountTrailingUnique(out, Space, 0);
    assert StripTrailing(out) == out;
  }

  /** CountLeading is the only count its contract describes. */
  lemma {:induction false} CountLeadingUnique<T>(s: seq<T>, x: T, n: nat)
    requires n <= |s|
    requires forall k :: 0 <= k < n ==> s[k] == x
    requires n < |s| ==> s[n] != x
    ensures CountLeading(s, x) == n
  {
    if n > 0 {
      CountLeadingUnique(s[1..], x, n - 1);
    }
  }

  /** CountTrailing is the only count its contract describes. */
  lemma {:induction false} CountTrailingUnique<T>(s: seq<T>, x: T, n: nat)
    requires n <= |s|
    requires forall k :: |s| - n <= k < |s| ==> s[k] == x
    requires n < |s| ==> s[|s| - 1 - n] != x
    ensures CountTrailing(s, x) == n
  {
    if n > 0 {
      CountTrailingUnique(s[..|s| - 1], x, n - 1);
    }
  }

  /** Leading copies of `x` in a prefix of `s` that ends at `e`. */
  lemma {:induction false} CountLeadingOfPrefix<T>(s: seq<T>, x: T, e: nat)
    requires e <= |s|
    ensures CountLeading(s[..e], x) == if CountLeading(s, x) < e then CountLeading(s, x) else e
  {
    var n := CountLeading(s, x);
    CountLeadingUnique(s[..e], x, if n < e then n else e);
  }

  /** Trailing copies of `x` in a suffix of `s` that starts at `f`. */
  lemma {:induction false} CountTrailingOfSuffix<T>(s: seq<T>, x: T, f: nat)
    requires f <= |s|
    ensures CountTrailing(s[f..], x) == if CountTrailing(s, x) < |s| - f then CountTrailing(s, x) else |s| - f
  {
    var n := CountTrailing(s, x);
    CountTrailingUnique(s[f..], x, if n < |s| - f then n else |s| - f);
  }

  /** The runes of a prefix `rs[..e]` after its leading spaces. */
  lemma {:induction false} StripLeadingOfPrefix(rs: seq<int>, e: nat)
    requires e <= |rs|
    ensures var f := CountLeading(rs, Space);
      StripLeading(rs[..e]) == if f < e then rs[f..e] else []
  {
    CountLeadingOfPrefix(rs, Space, e);
  }

  /** The runes of a suffix `rs[f..]` before its trailing spaces. */
  lemma {:induction false} StripTrailingOfSuffix(rs: seq<int>, f: nat)
    requires f <= |rs|
    ensures var e := |rs| - CountTrailing(rs, Space);
      StripTrailing(rs[f..]) == if f < e then rs[f..e] else []
  {
    CountTrailingOfSuffix(rs, Space, f);
  }

  /** Dropping the trailing then the leading spaces of a rune sequence leaves
      the same runes as dropping them the other way round. */
  lemma {:induction false} StripsCommute(rs: seq<int>)
    ensures StripLeading(StripTrailing(rs)) == StripTrailing(StripLeading(rs))
  {
    var f, e := CountLeading(rs, Space), |rs| - CountTrailing(rs, Space);
    var right, left := StripTrailing(rs), StripLeading(rs);
    assert right == rs[..e] && left == rs[f..];
    StripLeadingOfPrefix(rs, e);
    StripTrailingOfSuffix(rs, f);
  }

  /** Trimming both ends gives the same text in either order. */
  lemma {:induction false} TrimsCommute(s: seq<byte>)
    requires ValidUtf8(s)
    ensures TrimLeft(TrimRight(s)) == TrimRight(TrimLeft(s))
  {
    var rs := Decode(s);
    var right, left := StripTrailing(rs), StripLeading(rs);
    DecodeEncode(right);
    DecodeEncode(left);
    StripsCommute(rs);
  }
}
