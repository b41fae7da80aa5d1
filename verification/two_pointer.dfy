/**
 The loops of main.go, run on arrays. Every one of them has the shape
 `for i, j := 0, n; i < j; i++ { j--; ... }`: `j` steps down at the top of
 the body and `i` steps up at the bottom, so on a slice of odd length the
 last pass has `i == j`. For revByte, revRune, toUpper and toLower `n` is the
 length of the slice; for lTrim and rTrim it is `len(str)`, the BYTE length,
 while the slice indexed is the rune slice. Each method is proved to return
 what module Transforms says.
 */
module TwoPointer {
  import opened Utf8
  import opened Transforms
  import Properties

  /** The swap loop of revByte and revRune, on a fresh array holding `s`. */
  method SwapReverse<T>(s: seq<T>) returns (r: seq<T>)
    ensures r == Reversed(s)
  {
    var a := new T[|s|](k requires 0 <= k < |s| => s[k]);
    var i, j := 0, a.Length;
    while i < j
      invariant 0 <= i <= a.Length && 0 <= j <= a.Length
      invariant i + j == a.Length && i <= j + 1
      invariant forall k :: 0 <= k < i ==> a[k] == s[|s| - 1 - k]
      invariant forall k :: j <= k < a.Length ==> a[k] == s[|s| - 1 - k]
      invariant forall k :: i <= k < j ==> a[k] == s[k]
    {
      j := j - 1;
      a[i], a[j] := a[j], a[i];
      i := i + 1;
    }
    r := a[..];
  }

  /** revByte: swap the bytes of `[]byte(str)`. */
  method RevByte(str: seq<byte>) returns (r: seq<byte>)
    ensures |r| == |str|
    ensures r == Transforms.RevByte(str)
  {
    r := SwapReverse(str);
  }

  /** revRune: swap the runes of `[]rune(str)`, then `string(...)`. */
  method RevRune(str: seq<byte>) returns (r: seq<byte>)
    requires ValidUtf8(str)
    ensures r == Transforms.RevRune(str)
  {
    var rs := Decode(str);
    var reversed := SwapReverse(rs);
    r := Encode(reversed);
  }

  /**
   toUpper: each pass moves the runes at `i` and at `j` that are 'a'..'z' down by 32.
   On the middle pass of an odd-length slice `i == j`; the rune has already
   become 'A'..'Z' when it is looked at the second time, so it is not moved
   again.
   */
  method ToUpper(str: seq<byte>) returns (r: seq<byte>)
    requires ValidUtf8(str)
    ensures r == Transforms.ToUpper(str)
  {
    var rs := Decode(str);
    var theString := new int[|rs|](k requires 0 <= k < |rs| => rs[k]);
    var i, j := 0, theString.Length;
    while i < j
      invariant 0 <= i <= theString.Length && 0 <= j <= theString.Length
      invariant i + j == theString.Length && i <= j + 1
      invariant forall k :: 0 <= k < i ==> theString[k] == UpperRune(rs[k])
      invariant forall k :: j <= k < theString.Length ==> theString[k] == UpperRune(rs[k])
      invariant forall k :: i <= k < j ==> theString[k] == rs[k]
    {
      j := j - 1;
      if theString[i] < 123 && theString[i] > 96 {
        theString[i] := theString[i] - 32;
      }
      if theString[j] < 123 && theString[j] > 96 {
        theString[j] := theString[j] - 32;
      }
      i := i + 1;
    }
    assert theString[..] == UpperRunes(rs);
    r := Encode(theString[..]);
  }

  /** toLower: as toUpper, raising 'A'..'Z' by 32. */
  method ToLower(str: seq<byte>) returns (r: seq<byte>)
    requires ValidUtf8(str)
    ensures r == Transforms.ToLower(str)
  {
    var rs := Decode(str);
    var theString := new int[|rs|](k requires 0 <= k < |rs| => rs[k]);
    var i, j := 0, theString.Length;
    while i < j
      invariant 0 <= i <= theString.Length && 0 <= j <= theString.Length
      invariant i + j == theString.Length && i <= j + 1
      invariant forall k :: 0 <= k < i ==> theString[k] == LowerRune(rs[k])
      invariant forall k :: j <= k < theString.Length ==> theString[k] == LowerRune(rs[k])
      invariant forall k :: i <= k < j ==> theString[k] == rs[k]
    {
      j := j - 1;
      if theString[i] < 91 && theString[i] > 64 {
        theString[i] := theString[i] + 32;
      }
      if theString[j] < 91 && theString[j] > 64 {
        theString[j] := theString[j] + 32;
      }
      i := i + 1;
    }
    assert theString[..] == LowerRunes(rs);
    r := Encode(theString[..]);
  }

  /**
   lTrim: `i` walks the rune slice while `i < j`, `j` counting down from the
   byte length. Reading `theStr[i]` is always in range: the runes before `i`
   are spaces, so if `i` reached the rune count the text would be all spaces,
   one byte each, and `2 * i < len(str)` would fail. The slice is never
   written, so it is kept as a sequence.
   */
  method LTrim(str: seq<byte>) returns (r: seq<byte>)
    requires ValidUtf8(str)
    ensures r == Transforms.LTrim(str)
  {
    var theStr := Decode(str);
    ghost var f := CountLeading(theStr, Space);
    var x := 0;
    var i, j := 0, |str|;
    while i < j
      invariant 0 <= i <= f && i + j == |str|
      invariant x == 0
    {
      j := j - 1;
      Properties.LTrimReadsInRange(str, i);
      if theStr[i] != 32 && x == 0 {
        x := i;
        break;
      }
      i := i + 1;
    }
    if x == 0 {
      EncodeDecode(str);
    }
    r := Encode(theStr[x..]);
  }

  /**
   rTrim: the first pass reads `theStr[len(str) - 1]`, which is out of range,
   and panics, whenever the text has fewer runes than bytes. Otherwise `j`
   walks down from the end while `i < j` and the cut is made after the first
   non-space rune met; when none is met in time, `x` stays 0 and the result is
   empty.
   */
  method RTrim(str: seq<byte>) returns (r: Outcome<seq<byte>>)
    requires ValidUtf8(str)
    ensures r == Transforms.RTrim(str)
  {
    var theStr := Decode(str);
    ghost var e := |theStr| - CountTrailing(theStr, Space);
    var x := 0;
    var i, j := 0, |str|;
    while i < j
      invariant 0 <= i && 0 <= j <= |str| && i + j == |str|
      invariant x == 0
      invariant j < |str| ==> |theStr| == |str| && e <= j
    {
      j := j - 1;
      if j >= |theStr| {
        return IndexPanic(j, |theStr|);
      }
      if theStr[j] != 32 && x == 0 {
        x := j + 1;
        break;
      }
      i := i + 1;
    }
    r := Returned(Encode(theStr[..x]));
  }
}
