/**
 The string transforms of main.go (revByte, revRune, toUpper, toLower, lTrim,
 rTrim) as pure functions on the bytes of a Go string: what each call returns,
 stated without its loop. The methods of module TwoPointer run the loops of
 the source and are proved to return exactly these values.
 */
module Transforms {
  import opened Utf8

  /** The result of a Go call that either returns or panics on a slice index out of range. */
  datatype Outcome<T> = Returned(value: T) | IndexPanic(index: int, length: nat)

  /** The only character the trims remove: ASCII space. */
  const Space := 32

  /** The reference reversal of a sequence. */
  function Reversed<T>(s: seq<T>): (r: seq<T>)
    ensures |r| == |s|
    ensures forall k :: 0 <= k < |s| ==> r[k] == s[|s| - 1 - k]
  {
    if |s| == 0 then [] else Reversed(s[1..]) + [s[0]]
  }

  /** Number of leading elements of `s` equal to `x`. */
  function CountLeading<T(==)>(s: seq<T>, x: T): (n: nat)
    ensures n <= |s|
    ensures forall k :: 0 <= k < n ==> s[k] == x
    ensures n < |s| ==> s[n] != x
  {
    if |s| == 0 || s[0] != x then 0 else 1 + CountLeading(s[1..], x)
  }

  /** Number of trailing elements of `s` equal to `x`. */
  function CountTrailing<T(==)>(s: seq<T>, x: T): (n: nat)
    ensures n <= |s|
    ensures forall k :: |s| - n <= k < |s| ==> s[k] == x
    ensures n < |s| ==> s[|s| - 1 - n] != x
  {
    if |s| == 0 || s[|s| - 1] != x then 0 else 1 + CountTrailing(s[..|s| - 1], x)
  }

  // ---------------------------------------------------------------- reversal

  /** revByte: the bytes of the string in reverse order. */
  function RevByte(s: seq<byte>): (r: seq<byte>)
    ensures |r| == |s|
    ensures forall k :: 0 <= k < |s| ==> r[k] == s[|s| - 1 - k]
  {
    Reversed(s)
  }

  /** revRune: decode, reverse the runes, encode. */
  function RevRune(s: seq<byte>): (r: seq<byte>)
    requires ValidUtf8(s)
    ensures ValidUtf8(r)
  {
    Encode(Reversed(Decode(s)))
  }

  // ------------------------------------------------------------ case mapping

  /** toUpper on one rune: only 'a'..'z' move, by -32. */
  function UpperRune(c: int): (r: int)
    ensures r != c <==> 97 <= c <= 122
    ensures r != c ==> r == c - 32
    ensures !(97 <= r <= 122)
  {
    if 96 < c < 123 then c - 32 else c
  }

  /** toLower on one rune: only 'A'..'Z' move, by +32. */
  function LowerRune(c: int): (r: int)
    ensures r != c <==> 65 <= c <= 90
    ensures r != c ==> r == c + 32
    ensures !(65 <= r <= 90)
  {
    if 64 < c < 91 then c + 32 else c
  }

  /** The runes of `rs`, each mapped by UpperRune. */
  function UpperRunes(rs: seq<int>): (r: seq<int>)
    requires AllScalarValues(rs)
    ensures AllScalarValues(r)
  {
    seq(|rs|, k requires 0 <= k < |rs| => UpperRune(rs[k]))
  }

  /** The runes of `rs`, each mapped by LowerRune. */
  function LowerRunes(rs: seq<int>): (r: seq<int>)
    requires AllScalarValues(rs)
    ensures AllScalarValues(r)
  {
    seq(|rs|, k requires 0 <= k < |rs| => LowerRune(rs[k]))
  }

  function ToUpper(s: seq<byte>): (r: seq<byte>)
    requires ValidUtf8(s)
    ensures ValidUtf8(r)
  {
    Encode(UpperRunes(Decode(s)))
  }

  function ToLower(s: seq<byte>): (r: seq<byte>)
    requires ValidUtf8(s)
    ensures ValidUtf8(r)
  {
    Encode(LowerRunes(Decode(s)))
  }

  // ------------------------------------------------------------------- trims

  /**
   lTrim as written: its loop runs `i` up while `i < j` with `j` counting down
   from the BYTE length, so it only inspects rune positions `i` with
   `2 * i < len(str)`. It cuts at the first non-space rune `f` when that
   position is inspected, and otherwise returns the whole string.
   */
  function LTrim(s: seq<byte>): (r: seq<byte>)
    requires ValidUtf8(s)
    ensures ValidUtf8(r)
  {
    var rs := Decode(s);
    var f := CountLeading(rs, Space);
    if f < |rs| && 2 * f < |s| then Encode(rs[f..]) else s
  }

  /**
   rTrim as written: its first step reads rune `len(str) - 1`, which panics
   unless there are as many runes as bytes. Otherwise it inspects positions
   `j` with `2 * (len(str) - 1 - j) < len(str)` from the end; it cuts after
   the last non-space rune `p` when that position is inspected, and returns
   the empty string when it is not.
   */
  function RTrim(s: seq<byte>): (r: Outcome<seq<byte>>)
    requires ValidUtf8(s)
    ensures r.Returned? ==> ValidUtf8(r.value)
  {
    var rs := Decode(s);
    if |s| > 0 && |rs| < |s| then IndexPanic(|s| - 1, |rs|)
    else
      var e := |rs| - CountTrailing(rs, Space);
      if e > 0 && 2 * (e - 1) >= |s| - 1 then Returned(Encode(rs[..e])) else Returned([])
  }

  // ---------------------------------------------------- trims as intended

  /** The runes of `rs` after its leading spaces. */
  function StripLeading(rs: seq<int>): (r: seq<int>)
    ensures |r| <= |rs| && r == rs[|rs| - |r|..]
    ensures forall k :: 0 <= k < |rs| - |r| ==> rs[k] == Space
    ensures |r| > 0 ==> r[0] != Space
  {
    rs[CountLeading(rs, Space)..]
  }

  /** The runes of `rs` before its trailing spaces. */
  function StripTrailing(rs: seq<int>): (r: seq<int>)
    ensures |r| <= |rs| && r == rs[..|r|]
    ensures forall k :: |r| <= k < |rs| ==> rs[k] == Space
    ensures |r| > 0 ==> r[|r| - 1] != Space
  {
    rs[..|rs| - CountTrailing(rs, Space)]
  }

  /** A left trim that removes every leading space rune: what lTrim is meant to do. */
  function TrimLeft(s: seq<byte>): (r: seq<byte>)
    requires ValidUtf8(s)
    ensures ValidUtf8(r)
  {
    Encode(StripLeading(Decode(s)))
  }

  /** A right trim that removes every trailing space rune: what rTrim is meant to do. */
  function TrimRight(s: seq<byte>): (r: seq<byte>)
    requires ValidUtf8(s)
    ensures ValidUtf8(r)
  {
    Encode(StripTrailing(Decode(s)))
  }
}
