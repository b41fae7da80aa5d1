# runeVsBytes, modelled in Dafny

`main.go` shows why Go text should be handled as runes (Unicode code points)
rather than bytes. It converts between strings, byte slices and rune slices.
It also has six string transforms:

- `revByte` reverses the bytes.
- `revRune` reverses the runes.
- `toUpper` and `toLower` shift only the ASCII letters by 32.
- `lTrim` and `rTrim` remove ASCII spaces from one end.

Every transform uses the same two-pointer loop,
`for i, j := 0, n; i < j; i++ { j--; ... }`.

The Dafny model has five modules, one per file:

- `Utf8` (`utf8.dfy`) is UTF-8 as in RFC 3629. It covers what `[]rune(s)` decodes and what
  `string(rs)` encodes. It proves the two round trips, concatenation and the ASCII facts.
- `Transforms` (`transforms.dfy`) gives each transform as a pure function on the bytes of a
  string. It also holds the reference definitions the proofs compare against:
  sequence reversal, counts of leading and trailing elements, and the trims the
  program evidently intends (`TrimLeft`, `TrimRight`).
- `TwoPointer` (`two_pointer.dfy`) runs the loops of the source, with the same
  guards, the same `break`s and the same bounds. Each method is proved to return
  exactly what `Transforms` says.
- `Properties` (`properties.dfy`) holds the properties of the transforms:
  - the involutions, permutation and idempotence;
  - how the case mappings compose;
  - what the trims do as written, and how that differs from a real trim.
- `Scenarios` (`scenarios.dfy`) holds the sample strings of `main` and what the program does to them.

A Go string is modelled as `seq<byte>`, and a rune as an `int` that is a Unicode scalar value.
`rTrim` can panic on a slice index out of range. Its result is therefore an
`Outcome`: either `Returned(text)` or `IndexPanic(index, length)`.

The model follows the code as written wherever it differs from a conventional trim:

- A conventional trim returns empty text for all-space input. `lTrim` returns such text unchanged, and so does the model.
- Trimming both ends is normally order-independent. `lTrim` and `rTrim` as written are not (`Scenarios.TrimOrderMatters`):
  - both loops are bounded by the byte length `len(str)` where they index the rune slice;
  - so `rTrim` panics on any well-formed non-ASCII text;
  - and both give up once half the byte length has been scanned.
- Order-independence is proved for the intended trims `TrimLeft` and `TrimRight` (see Findings).

## Model

| member | source | states |
|---|---|---|
| Utf8.ScanFirst | main.go:56 | Reading one character is the UTF-8 rule of RFC 3629. A read is 1 to 4 bytes and yields a scalar value. It is one byte exactly when the lead byte is below 0x80, and the value is ASCII exactly when the read is one byte. A character never starts with a continuation byte. |
| Utf8.ValidUtf8 | main.go:56 | Well-formed UTF-8, which every rune-based member requires: the text splits into characters, so a non-empty text starts with a byte that can begin one (not a continuation byte, not C0 or C1, nothing above F4). |
| Utf8.EncodeRune | main.go:76-78 | `string(r)` of one scalar value writes 1 to 4 bytes, exactly one when the rune is below 0x80, and the first byte is never a continuation byte. |
| Utf8.Decode | main.go:56 | `[]rune(s)` of well-formed text gives scalar values only. There are never more runes than bytes, and non-empty text has at least one rune. |
| Utf8.Encode | main.go:66 | `string(rs)` of scalar values is well-formed UTF-8 of between 1 and 4 bytes per rune. |
| Utf8.EncodeRuneScans | main.go:66 | The bytes written for one rune read back as that rune, with that width, whatever text follows. |
| Utf8.ScanIsEncoding | main.go:72 | Every character the decoder accepts is the shortest encoding of the value it reads, so no other spelling of a rune is accepted. |
| Utf8.ScanExtends | main.go:56 | Reading the first character is unaffected by text appended after it. |
| Utf8.DecodeEncode | main.go:66-73 | `[]rune(string(rs)) == rs`: going through a string loses no rune. |
| Utf8.EncodeDecode | main.go:66-73 | `string([]rune(s)) == s` for well-formed text: going through runes loses no byte. |
| Utf8.ValidAppend | main.go:56 | The concatenation `str2 + str1` of well-formed texts is well-formed. |
| Utf8.DecodeAppend | main.go:56 | The runes of `str2 + str1` are the runes of `str2` followed by those of `str1`. |
| Utf8.EncodeAppend | main.go:66 | Encoding a concatenation of rune sequences concatenates their encodings. |
| Utf8.EncodeSplit | main.go:305 | Cutting the runes of a text at any rune position and encoding both parts gives back the two halves of the original bytes. |
| Utf8.EncodeAsciiRunes | main.go:66 | Runes below 0x80 encode one byte each, each byte equal to its rune. |
| Utf8.DecodeAscii | main.go:56 | ASCII text is well-formed and its runes are its bytes. |
| Utf8.RuneCountIsByteCountIffAscii | main.go:56 | A well-formed text has as many runes as bytes if and only if it is ASCII. |
| Scenarios.MainConversions | main.go:56-73 | For any well-formed `str1` and `str2`: `byte1` is well-formed; `rune1` holds the runes of `str2` then `str1`; `byte2` equals `byte1`; `rune2` equals `rune1`; and decoding `byte2` again gives `rune1`. |
| Scenarios.SingleRuneStrings | main.go:75-78 | `string(byte(65))` is "A", and `string(rune(20320))` is the three bytes E4 BD A0. |
| Scenarios.GreetingDecodes | main.go:38 | The twelve bytes of "你好地鼠" are well-formed and decode to U+4F60 U+597D U+5730 U+9F20. |
| Scenarios.GreetingBytes | main.go:38 | Encoding those four runes gives exactly those twelve bytes. |
| Transforms.Reversed | main.go:237-240 | Reference reversal: same length, and element `k` of the result is element `len-1-k` of the input. |
| Transforms.CountLeading | main.go:298-303 | The number of leading elements equal to `x`: all of them match, and the next one, if any, does not. |
| Transforms.CountTrailing | main.go:311-316 | The number of trailing elements equal to `x`: all of them match, and the one before them, if any, does not. |
| Transforms.RevByte | main.go:235-242 | revByte as a function: the same length, and byte `k` of the result is byte `len-1-k` of the input. |
| Transforms.RevRune | main.go:246-253 | revRune as a function: the encoding of the reversed runes, which is well-formed. Its rune-level behaviour is stated by `Properties.RevRuneReversesRunes`. |
| Transforms.UpperRune | main.go:272-277 | toUpper's guard on one rune: the rune moves exactly when it is 'a'..'z', then by -32, and the result is never 'a'..'z'. |
| Transforms.LowerRune | main.go:285-290 | toLower's guard on one rune: the rune moves exactly when it is 'A'..'Z', then by +32, and the result is never 'A'..'Z'. |
| Transforms.ToUpper | main.go:268-280 | toUpper as a function: the encoding of the runes mapped by `UpperRune`, which is well-formed. Its per-rune behaviour is stated by `Properties.ToUpperPerRune`. |
| Transforms.ToLower | main.go:281-293 | toLower as a function: the encoding of the runes mapped by `LowerRune`, which is well-formed. Its per-rune behaviour is stated by `Properties.ToLowerPerRune`. |
| Transforms.LTrim | main.go:295-306 | lTrim as written: it cuts at the first non-space rune only when that position is below half the byte length, and otherwise returns its input; the result is well-formed. Its byte-level behaviour is stated by `Properties.LTrimAsBytes`. |
| Transforms.RTrim | main.go:308-319 | rTrim as written, with an `IndexPanic` outcome when the first read at `len(str)-1` falls outside the rune slice; a returned text is well-formed. Its behaviour is stated by `Properties.RTrimPanicsIffNonAscii` and `Properties.RTrimAsBytes`. |
| TwoPointer.SwapReverse | main.go:237-240 | The swap loop that meets in the middle produces the reference reversal, for odd and even lengths. |
| TwoPointer.RevByte | main.go:235-242 | revByte returns the input bytes in reverse order, with the same length. |
| Properties.RevByteTwice | main.go:235-242 | revByte applied twice gives back any byte string. |
| Properties.RevByteAgreesOnAscii | main.go:231-242 | On ASCII text, reversing bytes and reversing runes give the same string. |
| Properties.RevByteValidIffAscii | main.go:231-242 | revByte of well-formed text is well-formed if and only if the text is ASCII: any multi-byte character is corrupted. |
| Scenarios.RevByteGreeting | main.go:235-242 | revByte of "你好地鼠" is not valid UTF-8. |
| Scenarios.RevByteSplitsCharacter | main.go:235-242 | revByte of the one character U+4F60 gives A0 BD E4, which starts with a continuation byte and is malformed. |
| TwoPointer.RevRune | main.go:246-253 | revRune returns the encoding of the reversed rune sequence. |
| Properties.RevRuneReversesRunes | main.go:246-253 | The runes of revRune's result are the input runes reversed, a permutation of them. Rune count and byte length are unchanged. |
| Properties.RevRuneTwice | main.go:246-253 | revRune applied twice gives back its input, for any well-formed text. |
| Scenarios.RevRuneGreeting | main.go:246-253 | revRune of "你好地鼠" has the runes U+9F20 U+5730 U+597D U+4F60 and is still twelve bytes. |
| TwoPointer.ToUpper | main.go:268-280 | toUpper's loop, including the middle rune of an odd-length slice that is examined twice, maps every rune exactly once. |
| Properties.ToUpperPerRune | main.go:268-280 | toUpper lowers exactly the runes 'a'..'z' by 32 and leaves every other rune alone. Rune count and byte length are kept. |
| Properties.ToUpperIdempotent | main.go:268-280 | No 'a'..'z' rune survives toUpper, and applying it again changes nothing. |
| TwoPointer.ToLower | main.go:281-293 | toLower's loop maps every rune exactly once, the middle one included. |
| Properties.ToLowerPerRune | main.go:281-293 | toLower raises exactly the runes 'A'..'Z' by 32 and leaves every other rune alone. Rune count and byte length are kept. |
| Properties.ToLowerOnAscii | main.go:281-293 | On ASCII text toLower acts byte by byte: 'A'..'Z' bytes gain 32, the others stay. |
| Properties.ToLowerIdempotent | main.go:281-293 | No 'A'..'Z' rune survives toLower, and applying it again changes nothing. |
| Properties.LowerAfterUpper | main.go:268-293 | toLower after toUpper equals toLower. |
| Properties.UpperAfterLower | main.go:268-293 | toUpper after toLower equals toUpper. |
| Scenarios.LowerHelloGophers | main.go:126 | `toLower("Hello gophers")` is "hello gophers". |
| Scenarios.LowerKeepsGreeting | main.go:281-293 | toLower leaves "你好地鼠" unchanged. |
| Properties.LeadingSpacesAgree | main.go:296-303 | In well-formed text, the leading space runes and the leading space bytes are equally many. |
| Properties.LTrimReadsInRange | main.go:298-300 | Every rune index lTrim's loop reads is inside the rune slice, although the loop is bounded by the byte length. |
| TwoPointer.LTrim | main.go:295-306 | The loop as written, including its `x == 0` test and its `break`, returns what `Transforms.LTrim` describes, and never indexes out of range. |
| Properties.LTrimAsBytes | main.go:295-306 | Let `f` be the number of leading spaces. lTrim drops them when `2f` is below the byte length, and otherwise returns its input unchanged, all-space text included. |
| Properties.LTrimIsTrimLeftIff | main.go:295-306 | lTrim removes all leading spaces if and only if there are none, or they are fewer than half the bytes. |
| Scenarios.LTrimKeepsShortWord | main.go:298 | lTrim("   a") is "   a", while the intended left trim gives "a". |
| Properties.RTrimPanicsIffNonAscii | main.go:309-313 | rTrim of well-formed text panics if and only if the text is not ASCII. The panic reads index `len(str)-1` of a slice with the rune-count length. |
| TwoPointer.RTrim | main.go:308-319 | The loop as written returns what `Transforms.RTrim` describes: the panic at its first read, the cut after the first non-space met, or empty text. |
| Properties.RTrimAsBytes | main.go:308-319 | Let `t` be the number of trailing spaces in ASCII text. rTrim drops them when `2t` is below the byte length, and otherwise returns empty text. |
| Properties.RTrimIsTrimRightIff | main.go:308-319 | On ASCII text, rTrim removes exactly the trailing spaces if and only if they are fewer than half the bytes, or they are all of the text. |
| Scenarios.RTrimPanicsOnGreeting | main.go:311-313 | rTrim("你好地鼠") panics reading index 11 of a 4-rune slice, while the intended right trim returns the text unchanged. |
| Scenarios.TrimRightKeepsGreeting | main.go:308-319 | "你好地鼠" ends in U+9F20, not a space, so the intended right trim returns it unchanged. |
| Scenarios.RTrimEmptiesShortWord | main.go:311-318 | rTrim("a   ") is empty, while the intended right trim gives "a". |
| Scenarios.RTrimSample | main.go:129 | `rTrim("    The is a Test     ")` is "    The is a Test". |
| Scenarios.FullTrimSample | main.go:137 | `lTrim(rTrim(str4))` is "The is a Test". |
| Scenarios.TrimsOfBlankText | main.go:295-319 | On four spaces, rTrim returns empty text and lTrim returns the four spaces. |
| Scenarios.TrimsOfEmptyText | main.go:295-319 | rTrim("") returns "" without panicking, and lTrim("") is "". |
| Scenarios.PaddedAbShape | main.go:295-319 | "  ab " has two leading spaces and one trailing space; removing them gives "ab " and "  ab". |
| Scenarios.HalfTrimmedAbShape | main.go:295-319 | "  ab" has two leading spaces, and "ab " one trailing space before "ab". |
| Scenarios.RTrimThenLTrimAb | main.go:295-319 | rTrim("  ab ") is "  ab", and lTrim("  ab") returns it whole: two spaces are not below half of four bytes. |
| Scenarios.LTrimPaddedAb | main.go:295-306 | lTrim("  ab ") is "ab ". |
| Scenarios.RTrimAbLeft | main.go:308-319 | rTrim("ab ") is "ab". |
| Scenarios.TrimOrderMatters | main.go:295-319 | On "  ab ", lTrim after rTrim gives "  ab" while rTrim after lTrim gives "ab": the trims as written depend on their order. |
| Transforms.StripLeading | main.go:295-306 | The runes after the leading spaces: a suffix of the input, preceded only by spaces, and not starting with a space. |
| Transforms.StripTrailing | main.go:308-319 | The runes before the trailing spaces: a prefix of the input, followed only by spaces, and not ending with a space. |
| Transforms.TrimLeft | main.go:295-306 | The intended left trim, the corrected half of the lTrim finding: the encoding of the runes after all leading spaces, which is well-formed. |
| Transforms.TrimRight | main.go:308-319 | The intended right trim, the corrected half of the rTrim findings: the encoding of the runes before all trailing spaces, which is well-formed. |
| Properties.TrimLeftStripsSpaces | main.go:295-306 | The intended left trim drops exactly the leading space bytes. Its result does not start with a space, and the trim is idempotent. |
| Properties.TrimRightStripsSpaces | main.go:308-319 | The intended right trim keeps the runes before the trailing spaces and cuts the bytes at the same place. It is idempotent. |
| Properties.StripsCommute | main.go:137 | On runes, stripping the trailing then the leading spaces equals stripping them in the other order. |
| Properties.TrimsCommute | main.go:137 | Full trim: the intended left and right trims give the same text in either order. |

## Left out

- Command-line arguments (main.go:42-51), all printing, and `os.Exit(1)` (main.go:93) are I/O. The statements after `os.Exit(1)` are unreachable when the program runs; the model still states what each of them computes.
- `evalString`, `evalByte`, `evalRune`, `evalBytehex` and `evalRunehex` (main.go:142-229) only print, so they are not modelled.
- `revstr3` (main.go:257-266) is commented out and does not compile, because Go strings are immutable.
- Utf8.Decode: requires well-formed UTF-8. Go's `[]rune` turns each malformed byte into U+FFFD, and that repair is not modelled.
- Utf8.Encode: requires Unicode scalar values. Go's `string(rs)` writes U+FFFD for surrogates and out-of-range values. Decoded runes, and runes shifted by the ASCII case mappings, are always scalar values.
- TwoPointer.RevRune: requires well-formed input, for the reason given under Utf8.Decode.
- TwoPointer.ToUpper: requires well-formed input, for the reason given under Utf8.Decode.
- TwoPointer.ToLower: requires well-formed input, for the reason given under Utf8.Decode.
- TwoPointer.LTrim: requires well-formed input, for the reason given under Utf8.Decode.
- TwoPointer.RTrim: requires well-formed input, for the reason given under Utf8.Decode.
- Runes are unbounded integers instead of Go's `int32`. No value in the model leaves 0..0x10FFFF, so no wrap-around can occur.
- The panic is modelled as the index and the slice length. Go's runtime message and the unwinding are not modelled.

## Findings

| source | as written | input that shows it | evidently intended | confidence | as-written member | corrected member |
|---|---|---|---|---|---|---|
| main.go:298 | the lTrim loop runs while `i < j`, with `j` counting down from the byte length, so it stops after half the bytes | "   a" comes back as "   a" | "a": every leading space removed | high (not executed) | Scenarios.LTrimKeepsShortWord | Properties.TrimLeftStripsSpaces |
| main.go:311-313 | the rTrim loop starts `j` at `len(str)`, the byte count, and reads `theStr[j]` of the rune slice | "你好地鼠" panics reading index 11 of length 4 | the text unchanged: it has no trailing spaces | high (not executed) | Scenarios.RTrimPanicsOnGreeting | Properties.TrimRightStripsSpaces |
| main.go:311-318 | the rTrim loop stops after half the bytes, leaving `x == 0` | "a   " comes back empty | "a": every trailing space removed | high (not executed) | Scenarios.RTrimEmptiesShortWord | Properties.TrimRightStripsSpaces |

The corrected trims are `Transforms.TrimLeft` and `Transforms.TrimRight`. Each removes every
leading or trailing space rune. The full-trim property `Properties.TrimsCommute` is proved about them.
`Transforms.LTrim`, `Transforms.RTrim` and the `TwoPointer` trims stay with the code as
written, because they describe what the program does.
