/**
 UTF-8 as defined in RFC 3629: the conversions Go performs implicitly when a
 string becomes a slice of runes (`[]rune(s)`, decoding) and when a slice of
 runes becomes a string again (`string(rs)`, encoding).

 Only well-formed text is modelled: decoding is defined on byte sequences that
 satisfy `ValidUtf8`, encoding on sequences of Unicode scalar values.
 */
module Utf8 {

  /** One 8-bit code unit of a Go string. */
  newtype byte = b: int | 0 <= b < 0x100

  /** A Unicode scalar value: a code point in 0..0x10FFFF that is not a
      surrogate (section 3 of RFC 3629 forbids encoding surrogates). */
  predicate IsScalarValue(c: int) {
    0 <= c <= 0x10FFFF && !(0xD800 <= c <= 0xDFFF)
  }

  predicate AllScalarValues(rs: seq<int>) {
    forall k :: 0 <= k < |rs| ==> IsScalarValue(rs[k])
  }

  /** A byte of the form 10xxxxxx. */
  predicate IsContinuation(b: byte) {
    0x80 <= b <= 0xBF
  }

  /** Text made only of the one-byte characters U+0000..U+007F. */
  predicate IsAscii(s: seq<byte>) {
    forall k :: 0 <= k < |s| ==> s[k] < 0x80
  }

  /** The outcome of reading one encoded character at the head of a byte sequence. */
  datatype Scan = Malformed | Scalar(value: int, size: nat)

  /** The six payload bits of a continuation byte. */
  function Payload(b: byte): int {
    b as int - 0x80
  }

  /**
   Reads the first character of `s` following the UTF8-char rule of section 4
   of RFC 3629: the lead byte fixes the length, the second byte's range
   excludes overlong forms (E0, F0), surrogates (ED) and values above
   U+10FFFF (F4), and the remaining bytes are continuation bytes.
   */
  function ScanFirst(s: seq<byte>): (r: Scan)
    ensures r.Scalar? ==> 1 <= r.size <= |s| && r.size <= 4
    ensures r.Scalar? ==> IsScalarValue(r.value)
    ensures r.Scalar? && r.size == 1 <==> |s| > 0 && s[0] < 0x80
    ensures r.Scalar? ==> (r.value < 0x80 <==> r.size == 1)
    ensures r.Scalar? ==> !IsContinuation(s[0])
  {
    if |s| == 0 then Malformed
    else if s[0] < 0x80 then Scalar(s[0] as int, 1)
    else if 0xC2 <= s[0] <= 0xDF then
      if |s| >= 2 && IsContinuation(s[1]) then
        Scalar((s[0] as int - 0xC0) * 64 + Payload(s[1]), 2)
      else Malformed
    else if 0xE0 <= s[0] <= 0xEF then
      var lo: byte := if s[0] == 0xE0 then 0xA0 else 0x80;
      var hi: byte := if s[0] == 0xED then 0x9F else 0xBF;
      if |s| >= 3 && lo <= s[1] <= hi && IsContinuation(s[2]) then
        Scalar((s[0] as int - 0xE0) * 4096 + Payload(s[1]) * 64 + Payload(s[2]), 3)
      else Malformed
    else if 0xF0 <= s[0] <= 0xF4 then
      var lo: byte := if s[0] == 0xF0 then 0x90 else 0x80;
      var hi: byte := if s[0] == 0xF4 then 0x8F else 0xBF;
      if |s| >= 4 && lo <= s[1] <= hi && IsContinuation(s[2]) && IsContinuation(s[3]) then
        Scalar((s[0] as int - 0xF0) * 262144 + Payload(s[1]) * 4096 + Payload(s[2]) * 64 + Payload(s[3]), 4)
      else Malformed
    else Malformed
  }

  /** Well-formed UTF-8: the whole sequence splits into encoded characters. */
  predicate ValidUtf8(s: seq<byte>)
    ensures ValidUtf8(s) && |s| > 0 ==> !IsContinuation(s[0]) && s[0] != 0xC0 && s[0] != 0xC1 && s[0] < 0xF5
    decreases |s|
  {
    |s| == 0 || (ScanFirst(s).Scalar? && ValidUtf8(s[ScanFirst(s).size..]))
  }

  /** `[]rune(s)` on well-formed text. */
  function Decode(s: seq<byte>): (rs: seq<int>)
    requires ValidUtf8(s)
    ensures AllScalarValues(rs)
    ensures |rs| <= |s|
    ensures |s| > 0 ==> |rs| > 0
    decreases |s|
  {
    if |s| == 0 then []
    else [ScanFirst(s).value] + Decode(s[ScanFirst(s).size..])
  }

  /** The shortest encoding of one scalar value (section 3 of RFC 3629). */
  function EncodeRune(c: int): (r: seq<byte>)
    requires IsScalarValue(c)
    ensures 1 <= |r| <= 4
    ensures |r| == 1 <==> c < 0x80
    ensures !IsContinuation(r[0])
  {
    if c < 0x80 then [c as byte]
    else if c < 0x800 then
      [(0xC0 + c / 64) as byte, (0x80 + c % 64) as byte]
    else if c < 0x10000 then
      [(0xE0 + c / 4096) as byte, (0x80 + c / 64 % 64) as byte, (0x80 + c % 64) as byte]
    else
      [(0xF0 + c / 262144) as byte, (0x80 + c / 4096 % 64) as byte,
       (0x80 + c / 64 % 64) as byte, (0x80 + c % 64) as byte]
  }

  /** `string(rs)` on scalar values. */
  function Encode(rs: seq<int>): (s: seq<byte>)
    requires AllScalarValues(rs)
    ensures ValidUtf8(s)
    ensures |rs| <= |s| <= 4 * |rs|
  {
    if |rs| == 0 then []
    else
      var tail := Encode(rs[1..]);
      EncodeRuneScans(rs[0], tail);
      DropPrefix(EncodeRune(rs[0]), tail);
      EncodeRune(rs[0]) + tail
  }

  /** Scanning an encoded character reads it back, whatever follows it. */
  lemma {:induction false} EncodeRuneScans(c: int, rest: seq<byte>)
    requires IsScalarValue(c)
    ensures 1 <= |EncodeRune(c)| <= 4
    ensures ScanFirst(EncodeRune(c) + rest) == Scalar(c, |EncodeRune(c)|)
  {
    if c < 0x80 {
      assert (EncodeRune(c) + rest)[0] as int == c;
    } else if c < 0x800 {
      EncodeScans2(c, rest);
    } else if c < 0x10000 {
      EncodeScans3(c, rest);
    } else {
      EncodeScans4(c, rest);
    }
  }

  lemma {:induction false} EncodeScans2(c: int, rest: seq<byte>)
    requires 0x80 <= c < 0x800
    ensures ScanFirst(EncodeRune(c) + rest) == Scalar(c, 2)
  {
    var q, m := c / 64, c % 64;
    assert c == q * 64 + m;
    var s := EncodeRune(c) + rest;
    assert s[0] as int == 0xC0 + q && s[1] as int == 0x80 + m;
  }

  lemma {:induction false} EncodeScans3(c: int, rest: seq<byte>)
    requires 0x800 <= c < 0x10000 && IsScalarValue(c)
    ensures ScanFirst(EncodeRune(c) + rest) == Scalar(c, 3)
  {
    var q, m := c / 64, c % 64;
    var q2, m2 := q / 64, q % 64;
    assert c == q2 * 4096 + m2 * 64 + m;
    assert c / 4096 == q2;
    var s := EncodeRune(c) + rest;
    assert s[0] as int == 0xE0 + q2 && s[1] as int == 0x80 + m2 && s[2] as int == 0x80 + m;
  }

  lemma {:induction false} EncodeScans4(c: int, rest: seq<byte>)
    requires 0x10000 <= c <= 0x10FFFF
    ensures ScanFirst(EncodeRune(c) + rest) == Scalar(c, 4)
  {
    var q, m := c / 64, c % 64;
    var q2, m2 := q / 64, q % 64;
    var q3, m3 := q2 / 64, q2 % 64;
    assert c == q3 * 262144 + m3 * 4096 + m2 * 64 + m;
    assert c / 4096 == q2 && c / 262144 == q3;
    var s := EncodeRune(c) + rest;
    assert s[0] as int == 0xF0 + q3 && s[1] as int == 0x80 + m3;
    assert s[2] as int == 0x80 + m2 && s[3] as int == 0x80 + m;
  }

  /** What `ScanFirst` accepts is exactly the encoding of the value it reads. */
  lemma {:induction false} ScanIsEncoding(s: seq<byte>)
    requires ScanFirst(s).Scalar?
    ensures EncodeRune(ScanFirst(s).value) == s[..ScanFirst(s).size]
  {
    if s[0] < 0x80 {
    } else if s[0] <= 0xDF {
      Scan2IsEncoding(s);
    } else if s[0] <= 0xEF {
      Scan3IsEncoding(s);
    } else {
      Scan4IsEncoding(s);
    }
  }

  lemma {:induction false} Scan2IsEncoding(s: seq<byte>)
    requires ScanFirst(s).Scalar? && 0x80 <= s[0] <= 0xDF
    ensures EncodeRune(ScanFirst(s).value) == s[..2]
  {
    var c := ScanFirst(s).value;
    assert c == (s[0] as int - 0xC0) * 64 + Payload(s[1]);
    assert c / 64 == s[0] as int - 0xC0 && c % 64 == Payload(s[1]);
  }

  lemma {:induction false} Scan3IsEncoding(s: seq<byte>)
    requires ScanFirst(s).Scalar? && 0xE0 <= s[0] <= 0xEF
    ensures EncodeRune(ScanFirst(s).value) == s[..3]
  {
    var c := ScanFirst(s).value;
    var hi := (s[0] as int - 0xE0) * 64 + Payload(s[1]);
    assert c == hi * 64 + Payload(s[2]);
    assert c / 64 == hi && c % 64 == Payload(s[2]);
    assert hi / 64 == s[0] as int - 0xE0 && hi % 64 == Payload(s[1]);
    assert c / 4096 == hi / 64;
  }

  lemma {:induction false} Scan4IsEncoding(s: seq<byte>)
    requires ScanFirst(s).Scalar? && 0xF0 <= s[0]
    ensures EncodeRune(ScanFirst(s).value) == s[..4]
  {
    var c := ScanFirst(s).value;
    var hi := (s[0] as int - 0xF0) * 64 + Payload(s[1]);
    var mid := hi * 64 + Payload(s[2]);
    assert c == mid * 64 + Payload(s[3]);
    assert c / 64 == mid && c % 64 == Payload(s[3]);
    assert mid / 64 == hi && mid % 64 == Payload(s[2]);
    assert hi / 64 == s[0] as int - 0xF0 && hi % 64 == Payload(s[1]);
    assert c / 4096 == hi && c / 262144 == hi / 64;
  }

  /** Every byte after the first of an encoded character is a continuation byte. */
  lemma {:induction false} ScanContinuations(s: seq<byte>, m: int)
    requires ScanFirst(s).Scalar? && 1 <= m < ScanFirst(s).size
    ensures IsContinuation(s[m])
  {
  }

  /** A character read at the head of `s` is read the same way when more text follows. */
  lemma {:induction false} ScanExtends(s: seq<byte>, t: seq<byte>)
    requires ScanFirst(s).Scalar?
    ensures ScanFirst(s + t) == ScanFirst(s)
  {
    var n := ScanFirst(s).size;
    ScanIsEncoding(s);
    SplitAt(s, n);
    AppendAssoc(s[..n], s[n..], t);
    EncodeRuneScans(ScanFirst(s).value, s[n..] + t);
  }

  /** `[]rune(string(rs))` gives back `rs`. */
  lemma {:induction false} DecodeEncode(rs: seq<int>)
    requires AllScalarValues(rs)
    ensures Decode(Encode(rs)) == rs
  {
    if |rs| > 0 {
      var tail := Encode(rs[1..]);
      EncodeRuneScans(rs[0], tail);
      DropPrefix(EncodeRune(rs[0]), tail);
      DecodeEncode(rs[1..]);
    }
  }

  /** `string([]rune(s))` gives back `s` on well-formed text: no data is lost. */
  lemma {:induction false} EncodeDecode(s: seq<byte>)
    requires ValidUtf8(s)
    ensures Encode(Decode(s)) == s
  {
    if |s| > 0 {
      var n, v := ScanFirst(s).size, ScanFirst(s).value;
      var tail := Decode(s[n..]);
      ConsParts(v, tail);
      EncodeDecode(s[n..]);
      ScanIsEncoding(s);
      SplitAt(s, n);
    }
  }

  /** Concatenating well-formed texts gives well-formed text. */
  lemma {:induction false} ValidAppend(a: seq<byte>, b: seq<byte>)
    requires ValidUtf8(a) && ValidUtf8(b)
    ensures ValidUtf8(a + b)
    decreases |a|
  {
    if |a| == 0 {
      assert a + b == b;
    } else {
      var n := ScanFirst(a).size;
      DropFromAppend(a, b, n);
      ScanExtends(a, b);
      ValidAppend(a[n..], b);
    }
  }

  /** Concatenating well-formed texts concatenates their runes. */
  lemma {:induction false} DecodeAppend(a: seq<byte>, b: seq<byte>)
    requires ValidUtf8(a) && ValidUtf8(b)
    ensures ValidUtf8(a + b)
    ensures Decode(a + b) == Decode(a) + Decode(b)
    decreases |a|
  {
    ValidAppend(a, b);
    if |a| == 0 {
      assert a + b == b;
    } else {
      var n, v := ScanFirst(a).size, ScanFirst(a).value;
      DropFromAppend(a, b, n);
      ScanExtends(a, b);
      DecodeAppend(a[n..], b);
      AppendAssoc([v], Decode(a[n..]), Decode(b));
    }
  }

  /** Encoding runs character by character. */
  lemma {:induction false} EncodeAppend(xs: seq<int>, ys: seq<int>)
    requires AllScalarValues(xs) && AllScalarValues(ys)
    ensures Encode(xs + ys) == Encode(xs) + Encode(ys)
  {
    if |xs| == 0 {
      assert xs + ys == ys;
    } else {
      DropFromAppend(xs, ys, 1);
      EncodeAppend(xs[1..], ys);
      AppendAssoc(EncodeRune(xs[0]), Encode(xs[1..]), Encode(ys));
    }
  }

  /** Cutting the runes of a well-formed text in two cuts its bytes in two. */
  lemma {:induction false} EncodeSplit(s: seq<byte>, e: nat)
    requires ValidUtf8(s) && e <= |Decode(s)|
    ensures s == Encode(Decode(s)[..e]) + Encode(Decode(s)[e..])
  {
    var rs := Decode(s);
    SplitAt(rs, e);
    EncodeAppend(rs[..e], rs[e..]);
    EncodeDecode(s);
  }

  /** Runes below 0x80 encode to one byte each, the byte being the rune itself. */
  lemma {:induction false} EncodeAsciiRunes(rs: seq<int>)
    requires forall k :: 0 <= k < |rs| ==> 0 <= rs[k] < 0x80
    ensures AllScalarValues(rs)
    ensures |Encode(rs)| == |rs|
    ensures forall k :: 0 <= k < |rs| ==> Encode(rs)[k] as int == rs[k]
  {
    if |rs| > 0 {
      EncodeAsciiRunes(rs[1..]);
    }
  }

  /** ASCII text is well-formed, and its runes are its bytes. */
  lemma {:induction false} DecodeAscii(s: seq<byte>)
    requires IsAscii(s)
    ensures ValidUtf8(s)
    ensures |Decode(s)| == |s|
    ensures forall k :: 0 <= k < |s| ==> Decode(s)[k] == s[k] as int
  {
    if |s| > 0 {
      DecodeAscii(s[1..]);
    }
  }

  /** On well-formed text the rune count equals the byte count exactly when the text is ASCII. */
  lemma {:induction false} RuneCountIsByteCountIffAscii(s: seq<byte>)
    requires ValidUtf8(s)
    ensures |Decode(s)| == |s| <==> IsAscii(s)
    decreases |s|
  {
    if |s| > 0 {
      var n := ScanFirst(s).size;
      RuneCountIsByteCountIffAscii(s[n..]);
      assert IsAscii(s) <==> s[0] < 0x80 && IsAscii(s[1..]) by {
        assert forall k :: 0 <= k < |s| - 1 ==> s[1..][k] == s[k + 1];
      }
    }
  }

  // --------------------------------------------------------- sequence facts

  /** Sequence facts the proofs above use, each proved on its own so that its
      extensionality argument does not enlarge the callers' proofs. */
  lemma {:induction false} DropFromAppend<T>(a: seq<T>, b: seq<T>, n: nat)
    requires n <= |a|
    ensures (a + b)[n..] == a[n..] + b
  {
  }

  lemma {:induction false} DropPrefix<T>(a: seq<T>, t: seq<T>)
    ensures (a + t)[|a|..] == t
  {
  }

  lemma {:induction false} TakePrefix<T>(a: seq<T>, t: seq<T>)
    ensures (a + t)[..|a|] == a
  {
  }

  lemma {:induction false} ConsParts<T>(x: T, t: seq<T>)
    ensures ([x] + t)[0] == x && ([x] + t)[1..] == t
  {
  }

  lemma {:induction false} SplitAt<T>(s: seq<T>, n: nat)
    requires n <= |s|
    ensures s[..n] + s[n..] == s
  {
  }

  lemma {:induction false} AppendAssoc<T>(a: seq<T>, b: seq<T>, c: seq<T>)
    ensures a + (b + c) == (a + b) + c
  {
  }
}
