# iconv-native, modelled in Dafny

iconv-native converts text between character encodings by delegating to the
platform: GNU iconv or libiconv on Unix, `MultiByteToWideChar` /
`WideCharToMultiByte` on Windows, and the JavaScript `TextDecoder` /
`TextEncoder` on the Web. Around those native calls the crate does its own
work, and that work is what this project models and proves:

- the encoding-label matcher (`trim_encoding_prefix`, `match_encoding_parts`,
  `match_encoding_parts_exact`): ASCII case-insensitive tokens, each
  optionally followed by one `-`, `_` or space;
- byte-order-mark detection for UTF-8, UTF-16 and UTF-32;
- the UTF label parser (`UtfEncoding::parse`), byte-order ambiguity and the two
  cursor routines `strip_bom` and `consume_input_bom`;
- strict and lossy UTF-16/UTF-32/UTF-8 decoding, and the label-driven lossy
  decoders `try_decode_utf16_lossy` / `try_decode_utf32_lossy`;
- the Windows back-end:
  - the label to code page resolver `encoding_to_codepage` and
    `is_no_flag_codepage`;
  - the UTF-32/wide helpers;
  - `decode_wide_lossy`, `encode_wide` and `convert_lossy`, with their
    byte-order-mark policy;
  - `decode_lossy`;
- the Web back-end: the UTF-16/UTF-32 writers, `convert_inner`,
  `convert_lossy` and `decode_lossy`;
- the iconv back-end: `LossyIconv::new`, which appends "//IGNORE" to the
  target name, and the output-buffer growth loop of `LossyIconv::convert`.

Text is `seq<char>`. A Dafny `char` is a Unicode scalar value, as a Rust
`char` is. Bytes are naturals below 256 (`Bytes.byte`), and code
units are `u16`/`u32` subset types. Decoding and encoding are defined once,
in `Unicode` and `Utf8`, and the crate's decoders are stated against them
(Unicode section 3.9; RFC 2781 section 2 for UTF-16; RFC 3629 section 4 for
UTF-8).

Every native primitive is a function-typed parameter:

- `MultiByteToWideChar` is `ToWide` and `WideCharToMultiByte` is `FromWide`;
- `TextDecoder` is `TextDecoder` or `LabelDecoder`;
- `iconv_open` is `IconvOpen`;
- one `iconv` call is `IconvStep`.

The model follows what the crate does around them: the branch order, the
error variants, the byte-order marks written or kept, the chunking of odd
tails, and the growth of the iconv output buffer. Where a contract rests on
an assumption about a primitive, or states less than the code does, the
"Left out" section says so.

Some code in the source changes state step by step, and that code is
imperative here:

- the `&mut &[u8]` cursor routines are `Utf.Cursor`;
- the Windows zero-padding of a partial UTF-32 tail is an array loop;
- the `&mut bool` of `decode_wide_lossy` becomes an out-parameter;
- the iconv loop runs over the `OutputVec` class.

Each such method is proved equal to a specification function, and the
properties are proved about that function.

Modules follow the source files: `Encoding` (src/encoding.rs), `Bom`,
`Utf`, `Decode` and `DecodeLossy` (src/utf/), `Wide` (src/wide.rs),
`Codepage`, `WinUtf`, `WinWide` and `Win` (src/sys/win*), `WasmUtf`,
`WasmConvert` and `Wasm` (src/sys/wasm*), and `Iconv`
(src/sys/iconv/ffi.rs). `Wrappers`, `Bytes`, `Unicode`, `Utf8` and `Errors`
hold the shared vocabulary.

## Model

| member | source | states |
|---|---|---|
| Encoding.AsciiLower | src/encoding.rs:3 | lowering keeps ASCII-ness, maps exactly 'A'..'Z' 32 places up, and leaves every other character alone |
| Encoding.RestIs | src/sys/win/codepage.rs:42-43 | the compiled comparison is true exactly when the view `s[at..]` equals the literal |
| Encoding.RestEqIgnoreCase | src/sys/win/codepage.rs:19 | the compiled `eq_ignore_ascii_case` is true exactly when the view equals the literal up to ASCII case |
| Encoding.RestStartsWith | src/utf.rs:36-41 | the compiled `starts_with` is true exactly when the literal is a prefix of the view |
| Encoding.TrimEncodingPrefix | src/encoding.rs:1-11 | None when the input is shorter than the prefix. Some exactly when the first `\|prefix\|` characters equal the prefix up to ASCII case. The rest starts right after the prefix, or one later exactly when a `-`, `_` or space follows it |
| Encoding.MatchPartsFrom | src/encoding.rs:14-18 | the remainder after the parts from `j` on stays within the label, after `at` |
| Encoding.MatchEncodingParts | src/encoding.rs:14-18 | the remainder after threading every part stays within the label |
| Encoding.MatchNoParts | src/encoding.rs:14-18 | with no parts the label comes back whole |
| Encoding.MatchPartsCons | src/encoding.rs:14-18 | the fold threads the remainder: a first part that does not trim ends the match with None, otherwise the rest of the parts continue from its remainder |
| Encoding.ShiftParts | src/encoding.rs:14-18 | matching from part `d` is matching the list with the first `d` parts dropped |
| Encoding.TrimExamples | src/encoding.rs:29-46 | the unit-test cases of `trim_encoding_prefix`: case-insensitive prefix, each separator consumed once, too-short input refused |
| Encoding.MatchExamples | src/encoding.rs:49-68 | the unit-test cases of `match_encoding_parts` |
| Encoding.MatchExamplesContinued | src/encoding.rs:71-90 | the remaining `match_encoding_parts` cases, and `match_encoding_parts_exact` true exactly when nothing is left ("utf8" is not exactly ["utf"], "utf-16-BE" is ["utf","16","be"]) |
| Encoding.ExactTwoParts | src/encoding.rs:21-23 | two parts match exactly when the first trims from the start and the second, trimmed from what remains, reaches the end of the label |
| Bom.IsLe | src/utf/decode.rs:39 | `is_le(default)`: Le gives true, Be false, NotPresent the default |
| Bom.GetUtf8Bom | src/bom.rs:23-29 | never Be; Le exactly when the input starts with EF BB BF |
| Bom.GetUtf16Bom | src/bom.rs:31-39 | Le exactly for a leading FF FE, Be exactly for FE FF, NotPresent for inputs shorter than two bytes |
| Bom.GetUtf32Bom | src/bom.rs:41-49 | Le exactly for a leading FF FE 00 00, Be exactly for 00 00 FE FF, NotPresent below four bytes |
| Bom.PresentExactlyOnMarker | src/bom.rs:10-12 | each detector reports a present mark exactly when the input starts with one of its markers |
| Bom.BomBytes | src/bom.rs:23-49 | the marker of a width and order is 3, 2 or 4 bytes long |
| Bom.DetectsOwnMarker | src/bom.rs:23-49 | each detector recognises its own markers in front of any data |
| Bom.DetectionIsPrefixOnly | src/bom.rs:23-49 | a detected mark stays detected whatever follows it |
| Bom.Utf32LeMarkerIsUtf16LeMarker | src/bom.rs:31-44 | a UTF-32 little-endian mark also reads as a UTF-16 little-endian mark (FF FE 00 00 starts with FF FE) |
| Utf.ParseOrder | src/utf.rs:45-50 | the order suffix is Le exactly for "le"/"LE", Be exactly for "be"/"BE", NotPresent exactly for nothing, and anything else is refused |
| Utf.ParseType | src/utf.rs:36-44 | "8" is tried before "16" before "32", each by prefix, and the chosen digits start the rest |
| Utf.ParseShape | src/utf.rs:34-52 | a parsed label starts with "utf" in any case, and a stated order is its last two characters, "le"/"LE" or "be"/"BE" |
| Utf.ParseSpells | src/utf.rs:34-52 | `parse` accepts a label exactly when it is "utf", an optional separator, the digits, an optional separator and an order spelling for the result |
| Utf.SpellingPartsParse | src/utf.rs:34-52 | every such spelling parses to its encoding |
| Utf.DashedLabelParses | src/utf.rs:34-52 | "utf-" + digits + order spelling parses to that encoding |
| Utf.ParseUtf16Examples | src/utf.rs:143-159 | the parse unit tests for UTF-16 labels |
| Utf.ParseUtf8And32Examples | src/utf.rs:143-159 | the parse unit tests for UTF-8 and UTF-32 labels |
| Utf.ParseUtf32OrderExamples | src/utf.rs:143-159 | the parse unit tests for ordered UTF-32 labels |
| Utf.ParseRejects | src/utf.rs:161-168 | "utf", "utf-9", "utf-16lebe" and "wtf-32" are refused |
| Utf.AmbiguityExamples | src/utf.rs:170-185 | UTF-8 is never ambiguous; UTF-16 without an order is, with an order it is not |
| Utf.AmbiguityOrderExamples | src/utf.rs:170-185 | UTF-32 with an order is not ambiguous |
| Utf.AmbiguousExactlyWhenMarkRead | src/utf.rs:54-56 | an encoding is ambiguous exactly when `consume_input_bom` reads and consumes a leading little-endian mark of its width |
| Utf.AmbiguousLabels | src/sys/wasm.rs:74-75 | a label is byte-order ambiguous exactly when it spells UTF-16 or UTF-32 without an order |
| Utf.BomStripped | src/utf.rs:83-101 | `strip_bom` strips exactly when the expected mark (UTF-8's always, UTF-16/32's only for a stated order that the input's mark equals) is present. A stripped input is that mark plus the rest; otherwise the input is untouched |
| Utf.InputBomConsumed | src/utf.rs:104-126 | an unambiguous encoding returns its own order and leaves the input. UTF-8 never consumes. An ambiguous UTF-16/32 returns the detected mark and consumes exactly that mark, or returns NotPresent and consumes nothing |
| Utf.ConsumeInputBomExamples | src/utf.rs:187-275 | the unit-test table of `consume_input_bom`, including a stated order that ignores an opposite mark |
| Utf.Cursor.StripBom | src/utf.rs:83-101 | the method advances its cursor exactly as `BomStripped` says |
| Utf.Cursor.ConsumeInputBom | src/utf.rs:104-126 | the method returns the order and advances its cursor exactly as `InputBomConsumed` says |
| Unicode.Decode32 | src/utf/decode.rs:31-33 | strict UTF-32 decoding succeeds exactly when every unit is a scalar value, and then yields those scalars |
| Unicode.Decode32Lossy | src/utf/decode_lossy.rs:23-28 | lossy UTF-32 decoding maps each scalar unit to itself and every other unit to U+FFFD |
| Unicode.Encode32 | src/sys/wasm/utf32.rs:14 | one unit per character, equal to its scalar value |
| Unicode.Decode32OfEncode32 | src/sys/wasm/utf32.rs:14 | UTF-32 decoding inverts encoding |
| Unicode.Encode32OfDecode32 | src/utf/decode.rs:31-33 | encoding inverts successful decoding |
| Unicode.Decode32LossyAgrees | src/utf/decode_lossy.rs:23-28 | lossy and strict UTF-32 decoding agree wherever strict succeeds |
| Unicode.EncodeChar16 | src/sys/wasm/utf16.rs:14 | a character below U+10000 is one non-surrogate unit equal to it; any other is a high and a low surrogate that combine back to it |
| Unicode.Step16 | src/utf/decode.rs:17-19 | one decoding step consumes one or two units. It fails exactly on a lone low surrogate or an unpaired high surrogate, and it re-encodes to the units it consumed |
| Unicode.Encode16Append | src/sys/wasm/utf16.rs:14 | UTF-16 encoding distributes over concatenation |
| Unicode.Decode16Succeeds | src/utf/decode.rs:17-19 | strict UTF-16 decoding succeeds exactly on well-formed unit sequences |
| Unicode.Decode16OfEncode16 | src/sys/wasm/utf16.rs:14 | UTF-16 decoding inverts encoding |
| Unicode.Encode16OfDecode16 | src/utf/decode.rs:17-19 | encoding inverts successful UTF-16 decoding |
| Unicode.Decode16LossyAgrees | src/utf/decode_lossy.rs:9-13 | lossy and strict UTF-16 decoding agree wherever strict succeeds |
| Unicode.Decode16LossyOfEncode16 | src/utf/decode_lossy.rs:9-13 | lossy decoding of encoded text gives the text |
| Unicode.LoneSurrogateLossy | src/utf/decode_lossy.rs:9-13 | a lone surrogate decodes lossily to one U+FFFD |
| Unicode.UnpairedSurrogateLossy | src/utf/decode_lossy.rs:9-13 | after well-formed units, a lone low surrogate, or a high one not followed by a low one, becomes exactly one U+FFFD, and decoding resumes at the next unit |
| Utf8.Step8 | src/utf/decode.rs:45-48 | one UTF-8 decoding step consumes one to four bytes, and a decoded character re-encodes to exactly those bytes |
| Utf8.Decode8OfEncode8 | src/utf/decode.rs:45-48 | UTF-8 decoding inverts encoding |
| Utf8.Encode8OfDecode8 | src/utf/decode.rs:45-48 | encoding inverts successful UTF-8 decoding |
| Utf8.Decode8Succeeds | src/utf/decode.rs:45-48 | `from_utf8` succeeds exactly on the encodings of some text |
| Utf8.Lossy8Agrees | src/utf/decode_lossy.rs:43 | lossy and strict UTF-8 decoding agree on valid input |
| Utf8.Encode8StartsWithBom | src/sys/wasm.rs:101 | the UTF-8 bytes of a text start with EF BB BF exactly when the text starts with U+FEFF |
| Bytes.Units16 | src/utf/decode.rs:13-17 | `chunks_exact(2)` then `from_le/be_bytes`: one unit per whole pair of bytes, an odd last byte dropped |
| Bytes.Units32 | src/utf/decode.rs:27-31 | `chunks_exact(4)`: one unit per whole group of four bytes |
| Bytes.Units16OfBytes16 | src/sys/wasm/utf16.rs:14 | reading back the bytes of units in the same order gives the units |
| Bytes.Units32OfBytes32 | src/sys/wasm/utf32.rs:14 | the same for 32-bit units |
| Bytes.Bytes16OfUnits16 | src/utf/decode.rs:13-17 | writing back the read units gives the input without its odd byte |
| Bytes.Bytes32OfUnits32 | src/utf/decode.rs:27-31 | writing back the read units gives the input without its partial group |
| Decode.DecodeUtf16Inner | src/utf/decode.rs:9-21 | fails only with InvalidInput. Succeeds exactly when the length is even and the units are well-formed UTF-16, and the text then re-encodes to the input |
| Decode.DecodeUtf32Inner | src/utf/decode.rs:23-35 | fails only with InvalidInput. Succeeds exactly when the length is a multiple of four and every unit is a scalar, and the text re-encodes to the input |
| Decode.DecodeUtf | src/utf/decode.rs:37-50 | fails only with InvalidInput; for UTF-8 it succeeds exactly on valid UTF-8, whose text re-encodes to the input |
| Decode.DecodeUtf16Explicit | src/utf/decode.rs:37-44 | text written in a stated order decodes back under that order |
| Decode.DecodeUtf32Explicit | src/utf/decode.rs:37-44 | the same for UTF-32 |
| Decode.DecodeUtf16Marked | src/utf/decode.rs:37-44 | under an order-less label, the mark selects the order and is consumed |
| Decode.DecodeUtf32Marked | src/utf/decode.rs:37-44 | the same for UTF-32 |
| Decode.DecodeUtf16DefaultsToLe | src/utf/decode.rs:39 | without a mark, an order-less UTF-16 label reads little-endian |
| Decode.DecodeUtf32DefaultsToLe | src/utf/decode.rs:39 | the same for UTF-32 |
| Decode.OppositeMarkerIsContent | src/utf/decode.rs:37-44 | under a stated order, an opposite mark is not consumed and decodes as U+FFFE |
| Decode.Utf8MarkerIsContent | src/utf.rs:117-118 | a UTF-8 mark is never consumed by the decoder and comes out as U+FEFF |
| DecodeLossy.DecodeUtf16LossyInner | src/utf/decode_lossy.rs:7-19 | at most one character per unit, plus one for an odd byte |
| DecodeLossy.DecodeUtf32LossyInner | src/utf/decode_lossy.rs:21-33 | one character per whole group of four bytes, the scalar or U+FFFD, and a final U+FFFD exactly when a partial group is left |
| DecodeLossy.OddByteIsOneReplacement | src/utf/decode_lossy.rs:15-17 | an odd trailing byte adds exactly one U+FFFD to the decoding of the rest |
| DecodeLossy.UnpairedSurrogateBytes | src/utf/decode_lossy.rs:7-19 | in the bytes, an unpaired surrogate after well-formed UTF-16 is exactly one U+FFFD between the strict decoding before it and the lossy decoding after it |
| DecodeLossy.Utf16LossyAgrees | src/utf/decode_lossy.rs:7-19 | lossy and strict UTF-16 decoding agree wherever strict succeeds |
| DecodeLossy.Utf32LossyAgrees | src/utf/decode_lossy.rs:21-33 | lossy and strict UTF-32 decoding agree wherever strict succeeds |
| DecodeLossy.LossyAgreesWithStrict | src/utf/decode_lossy.rs:35-45 | `decode_utf_lossy` equals `decode_utf` wherever the latter succeeds, for every UTF encoding |
| DecodeLossy.Lossy16Order | src/utf/decode_lossy.rs:35-45 | UTF-16 is read in a stated order with the input whole; without one, in a leading mark's order with the mark removed, and little-endian without a mark |
| DecodeLossy.Lossy32Order | src/utf/decode_lossy.rs:35-45 | the same byte-order choice for UTF-32 |
| DecodeLossy.Lossy8Whole | src/utf/decode_lossy.rs:35-45 | UTF-8 input is decoded whole whatever order the label states; a UTF-8 mark stays in the text |
| Wide.TryDecodeUtf32Lossy | src/wide.rs:7-53 | gives a result exactly for labels matching ["utf","32"] |
| Wide.TryDecodeUtf16Lossy | src/wide.rs:55-97 | gives a result exactly for labels matching ["utf","16"] |
| Wide.ParsedLabelMatches | src/wide.rs:14 | a label parsed as UTF-16/32 matches ["utf", digits] and leaves exactly an order spelling |
| Wide.OrderSuffixIsBe | src/wide.rs:26 | the leftover equals "be" up to case exactly when the order is Be |
| Wide.Utf32AgreesWithLabelDecoder | src/wide.rs:7-53 | for a parsed UTF-32 label (order-less, or input without a mark) the crate decoder equals `decode_utf_lossy` |
| Wide.Utf16AgreesWithLabelDecoder | src/wide.rs:55-97 | the same for UTF-16 |
| Wide.Utf32MarkerOverridesLabel | src/wide.rs:15-23 | a mark in the input decides the order whatever the label says, and is stripped |
| Wide.Utf16MarkerOverridesLabel | src/wide.rs:59-67 | the same for UTF-16 |
| Wide.Utf32KeepBom | src/wide.rs:24-35 | `keep_bom` adds exactly one leading U+FEFF, and only when the input had a mark |
| Wide.Utf16MarkedRoundTrip | src/wide.rs:55-97 | marked UTF-16 text decodes back under any UTF-16 label |
| Wide.Utf32MarkedRoundTrip | src/wide.rs:7-53 | marked UTF-32 text decodes back under any UTF-32 label, without its mark |
| Codepage.ParseU32 | src/sys/win/codepage.rs:28 | `str::parse::<u32>` accepts only an optional '+' and digits |
| Codepage.ParseDecimal | src/sys/win/codepage.rs:28 | an optional '+', leading zeros and a decimal spelling read as that number, refused from 2^32 on |
| Codepage.ParseRejects | src/sys/win/codepage.rs:28 | the empty view, a lone '+' and a leading '-' are not numbers |
| Codepage.FindSpecial | src/sys/win/codepage.rs:110-132 | the search returns the code page of the first entry whose parts consume the whole label, and None exactly when no entry consumes it |
| Codepage.FindExact | src/sys/win/codepage.rs:83-96 | the first table name equal to the rest of the label gives its code page, and None exactly when no name is equal |
| Codepage.FindPart | src/sys/win/codepage.rs:179-185 | the first table part consuming the rest of the label gives its code page, and None exactly when no part consumes it |
| Codepage.UtfCodepageOf | src/sys/win/codepage.rs:49-53 | a UTF-16/32 encoding maps to one of 1200, 1201, 12000, 12001 |
| Codepage.EncodingToCodepage | src/sys/win/codepage.rs:11-14 | a label holding a non-ASCII character has no code page |
| Codepage.NumberedLabels | src/sys/win/codepage.rs:23-29 | "asmo", "dos", "windows" or "cp", an optional separator and a number give that number, and nothing at 2^32 or above ("cp1025" excepted) |
| Codepage.Cp1025Label | src/sys/win/codepage.rs:16-18 | "cp1025" with or without a separator is 21025 |
| Codepage.CsIso2022JpLabel | src/sys/win/codepage.rs:19-21 | "csISO2022JP" in any ASCII case is 50221 |
| Codepage.XCpLabels | src/sys/win/codepage.rs:26 | "x", "cp" and a number give that number |
| Codepage.EucLabels | src/sys/win/codepage.rs:31-39 | "euc" then "cn" any case 51936, "JP" exactly 20932, other "jp" 51932, "kr" 51949, anything else none |
| Codepage.UtfShortLabels | src/sys/win/codepage.rs:42-43 | "utf" then "7" or "8" alone is 65000 or 65001 |
| Codepage.ParsedUtfLabels | src/sys/win/codepage.rs:46-55 | every label the UTF parser reads as UTF-16/32 maps to that encoding's code page, order-less to the little-endian one |
| Codepage.Utf8WithSuffix | src/sys/win/codepage.rs:40-55 | "utf-8" followed by anything has no code page |
| Codepage.Utf8SuffixesParse | src/sys/win/codepage.rs:40-55 | "utf-8le" and "utf-8-" parse as UTF-8 yet have no code page |
| Codepage.GbLabels | src/sys/win/codepage.rs:57-63 | "gb" then "k", "K" or "2312" is 936, "18030" is 54936, anything else none |
| Codepage.IbmLabels | src/sys/win/codepage.rs:64-74 | "ibm" and a number n gives n+20000 for 924, 273..424 and 871..905, otherwise n |
| Codepage.IbmThaiLabels | src/sys/win/codepage.rs:65-67 | "ibm" and "thai" in any case is 20838 |
| Codepage.Iso2022Labels | src/sys/win/codepage.rs:76-82 | "iso-2022-" then exactly "jp" 50220 or "kr" 50225, anything else none |
| Codepage.Iso8859Labels | src/sys/win/codepage.rs:83-96 | "iso-8859-" and a table part give that part's code page |
| Codepage.Iso8859EightLabels | src/sys/win/codepage.rs:97-105 | "iso-8859-8" then "i"/"I" (after an optional separator) is 38598, anything else 28598 |
| Codepage.XIa5Labels | src/sys/win/codepage.rs:135-142 | "x-ia5" alone is 20105 and "x-ia5-" + name is that name's page |
| Codepage.XIsciiLabels | src/sys/win/codepage.rs:143-156 | "x-iscii-" + name in any case is that name's page |
| Codepage.XMacLabels | src/sys/win/codepage.rs:157-175 | "x-mac-" + name in any case is that name's page |
| Codepage.FoundByInitial | src/sys/win/codepage.rs:126-132 | the first whole-label entry that consumes the label wins |
| Codepage.RouteSpecial | src/sys/win/codepage.rs:110-132 | a label the earlier branches leave alone gets the whole-label table's answer |
| Codepage.UnknownInitialLabels | src/sys/win/codepage.rs:189 | a label whose first letter starts no known name has no code page |
| Codepage.NoFlagCodepages | src/sys/win/codepage.rs:192-197 | 50220, 50221, 50225, 65000 and every x-iscii page refuse flags; the UTF pages do not |
| Codepage.NoFlagExactly | src/sys/win/codepage.rs:192-197 | a code page refuses flags exactly when it is one of the eighteen listed (42, 50220, 50221, 50222, 50225, 50227, 50229, 65000, 57002 to 57011) |
| Codepage.HzGb2312Parts | src/sys/win/codepage.rs:221 | "hz-gb-2312" in any case is consumed exactly by its entry |
| Codepage.Koi8UNot3 | src/sys/win/codepage.rs:300 | "koi8-u" is not taken by the earlier "koi8-r" entry |
| WinUtf.Utf16ToWideLossy | src/sys/win/utf16.rs:3-11 | one unit per whole pair of bytes, read in the given order |
| WinUtf.Utf16ToWideKeepsBytes | src/sys/win/utf16.rs:3-11 | writing the units back gives the input without an odd byte |
| WinUtf.Utf16ToWideDropsOddByte | src/sys/win/utf16.rs:3-11 | an odd trailing byte is dropped silently |
| WinUtf.Utf32ToWideLossy | src/sys/win/utf32.rs:9-24 | the units are the UTF-16 encoding of the lossy UTF-32 decoding, and they decode back to it |
| WinUtf.Utf32ToWidePartialChunk | src/sys/win/utf32.rs:20-22 | a partial last group of one to three bytes adds exactly one 0xFFFD unit |
| WinUtf.Utf32ToWide | src/sys/win/utf32.rs:26-38 | fails only with InvalidInput. Succeeds exactly when the length is a multiple of four and every unit is a scalar, and the units decode to the strict UTF-32 text |
| WinUtf.WideToUtf32Lossy | src/sys/win/utf32.rs:40-48 | at most four bytes per unit, a multiple of four, which decode to the lossy UTF-16 decoding of the units |
| WinUtf.WideToUtf32 | src/sys/win/utf32.rs:50-66 | fails only with InvalidInput. Succeeds exactly on well-formed UTF-16, and the bytes decode to its text |
| WinUtf.Utf32ToWideLossyAgrees | src/sys/win/utf32.rs:9-38 | the lossy and strict conversions agree where strict succeeds |
| WinUtf.WideToUtf32LossyAgrees | src/sys/win/utf32.rs:40-66 | the same in the other direction |
| WinUtf.Utf32WideRoundTrip | src/sys/win/utf32.rs:26-66 | UTF-32 bytes to units and back is the identity |
| WinUtf.WideUtf32RoundTrip | src/sys/win/utf32.rs:26-66 | units to UTF-32 bytes and back is the identity |
| WinWide.Shim | src/sys/win/wide.rs:26-29 | the shim is the partial tail padded with zeros to four bytes |
| WinWide.PaddedText | src/sys/win/wide.rs:14-37 | one character per whole group, plus one when the padded tail is not all zeros |
| WinWide.PaddedUtf32ToWide | src/sys/win/wide.rs:14-37 | the array loop that fills the shim yields the UTF-16 encoding of `PaddedText` |
| WinWide.ShimNonZero | src/sys/win/wide.rs:30 | the tail is decoded exactly when one of its bytes is non-zero |
| WinWide.PaddedAgreesOnWholeChunks | src/sys/win/wide.rs:14-37 | without a partial group this decoder equals the one in src/sys/win/utf32.rs |
| WinWide.PaddedDiffersOnPartialChunk | src/sys/win/wide.rs:26-35 | with a partial group it does not: [0x41] gives "A" here and U+FFFD there, and [0x00] gives nothing |
| WinWide.AfterMarker | src/sys/win/wide.rs:55-106 | with a mark found, the input is that mark plus what is decoded; otherwise nothing is stripped |
| WinWide.DecodedWide | src/sys/win/wide.rs:49-135 | fails only with UnknownFromEncoding, and only for a non-UTF code page on non-empty input that the native call refuses. UTF-16 gives one unit per byte pair. Empty input on a native page gives no units |
| WinWide.DecodeWideLossy | src/sys/win/wide.rs:49-135 | the flag stays set exactly when it was set and the code page's mark was found; the units are `DecodedWide` |
| WinWide.OwnMarkerStripped | src/sys/win/wide.rs:62-103 | each UTF code page strips its own mark and keeps its own order |
| WinWide.BeMarkerSwitchesOrder | src/sys/win/wide.rs:67-70 | FE FF on 1200, and 00 00 FE FF on 12000, switch the order to big-endian and are stripped |
| WinWide.LeMarkerKeepsBigEndian | src/sys/win/wide.rs:64-66 | FF FE on 1201, and FF FE 00 00 on 12001, are stripped but the order stays big-endian |
| WinWide.EncodedWide | src/sys/win/wide.rs:137-217 | fails only with UnknownToEncoding for a native page refusing non-empty units. UTF-16 output is two bytes per unit plus the mark. UTF-32 output is a multiple of four. On any other page, UTF-8 included, empty units give no bytes, even when a mark was asked for |
| WinWide.EncodeWide | src/sys/win/wide.rs:137-217 | the method's output is `EncodedWide` |
| WinWide.Utf16WideRoundTrip | src/sys/win/wide.rs:143-158 | units encoded with a mark on a UTF-16 page are found marked and decode back to the same units through the decoding branch at lines 62-85 |
| WinWide.Utf32WideRoundTrip | src/sys/win/wide.rs:159-174 | the same for well-formed units on a UTF-32 page, decoded through the branch at lines 86-103 |
| WinWide.ConvertedLossy | src/sys/win/wide.rs:219-236 | unknown source label is UnknownFromEncoding, then unknown target UnknownToEncoding, equal code pages copy the input |
| WinWide.ConvertLossy | src/sys/win/wide.rs:219-236 | the method's result is `ConvertedLossy` |
| WinWide.UtfTargetLayout | src/sys/win/wide.rs:232-235 | between UTF pages, the output is the target mark (when added and not ignored) followed by the units in the target order |
| WinWide.IgnoreBomDropsOnlyTheMark | src/sys/win/wide.rs:235 | `ignore_bom` removes exactly the mark and nothing else |
| Win.ConvertLossy | src/sys/win.rs:10-16 | the error order, and an order-less UTF-16/32 target always starts with its mark |
| Win.DecodeLossy | src/sys/win.rs:18-26 | UTF-16 labels are decoded by the crate, then UTF-32 labels without a kept mark, and every other label gets exactly the bridge's conversion to "utf-8", success or error |
| Win.Utf8LabelIsNotWide | src/sys/win.rs:19-20 | "utf-8" is taken by neither the UTF-16 nor the UTF-32 decoder |
| Win.Utf8LabelCopies | src/sys/win.rs:24 | under "utf-8" the bridge converts between equal code pages and returns the input unchanged |
| Win.EmptyFallbackIsEmpty | src/sys/win.rs:24 | empty input under any other label that has a code page decodes to the empty text |
| Win.EmptyGb18030 | tests/decode.rs:42-45 | `decode_lossy` of empty input under "gb18030" is the empty text |
| Win.Utf8LabelCodepage | src/sys/win.rs:24 | "utf-8" is code page 65001 |
| Win.FallbackAddsNoMark | src/sys/win.rs:24 | the fallback yields exactly the bytes `WideCharToMultiByte` produces, with no mark added |
| Win.Utf32LabelIsNotUtf16 | src/sys/win.rs:19-20 | a UTF-32 label is never taken by the UTF-16 decoder |
| Win.Utf16LabelsDecodedInCrate | src/sys/win.rs:19-22 | every parsed UTF-16 label decodes as `decode_utf_lossy` would |
| Win.Utf32MarkedDecodesWithoutMark | src/sys/win.rs:19-22 | marked UTF-32 text decodes under any UTF-32 label, without the mark |
| WasmUtf.Utf16Bytes | src/sys/wasm/utf16.rs:5-16 | two bytes per unit plus two for the mark, the mark first and the units after it |
| WasmUtf.Utf32Bytes | src/sys/wasm/utf32.rs:5-16 | four bytes per character plus four for the mark, the mark first |
| WasmUtf.StringToUtf16 | src/sys/wasm/utf16.rs:5-16 | the method's output is `Utf16Bytes` |
| WasmUtf.StringToUtf32 | src/sys/wasm/utf32.rs:5-16 | the method's output is `Utf32Bytes` |
| WasmUtf.Utf16BytesRoundTrip | src/sys/wasm/utf16.rs:5-16 | unmarked output decodes back under the same order |
| WasmUtf.Utf32BytesRoundTrip | src/sys/wasm/utf32.rs:5-16 | the same for UTF-32 |
| WasmUtf.Utf16MarkedBytesDecode | src/sys/wasm/utf16.rs:11-13 | marked output decodes back under an order-less label |
| WasmUtf.Utf32MarkedBytesDecode | src/sys/wasm/utf32.rs:11-13 | the same for UTF-32 |
| WasmUtf.Utf16BytesAppend | src/sys/wasm/utf16.rs:14 | output of a concatenation is the concatenation of outputs |
| WasmUtf.Utf32BytesAppend | src/sys/wasm/utf32.rs:14 | the same for UTF-32 |
| WasmUtf.Utf16CharWidth | src/sys/wasm/utf16.rs:14 | a character below U+10000 takes two bytes, any other four |
| WasmConvert.DecodedText | src/sys/wasm/convert.rs:34-60 | a UTF source is decoded by the crate, lossily or strictly, and then fails only strictly with InvalidInput. Any other source fails only with UnknownConversion or InvalidInput |
| WasmConvert.EncodedText | src/sys/wasm/convert.rs:62-71 | UTF-8 is the text's bytes. UTF-16/32 are the units in the stated order, little-endian when none is stated, preceded by the mark exactly when the label is order-less |
| WasmConvert.ConvertInner | src/sys/wasm/convert.rs:14-99 | a non-UTF target is UnknownConversion; equal labels (any case) or two UTF-8 labels copy the input |
| WasmConvert.EncodedTextDecodes | src/sys/wasm/convert.rs:62-71 | whatever the target, its decoder reads the text back |
| WasmConvert.ConvertedDecodes | src/sys/wasm/convert.rs:14-99 | the output decodes under the target label to exactly the decoded source |
| WasmConvert.LossyUtfConversion | src/sys/wasm/convert.rs:34-43 | between UTF labels the lossy conversion never fails and agrees with the strict one where that succeeds |
| WasmConvert.StrictUtfConversionFails | src/sys/wasm/convert.rs:34-43 | strict conversion from a UTF label fails, with InvalidInput, exactly when strict decoding fails |
| WasmConvert.Utf16TargetMark | src/sys/wasm/convert.rs:64-68 | "utf-16" writes FF FE and little-endian units; an ordered label writes no mark |
| Wasm.Utf8Output | src/sys/wasm.rs:114-125 | with `add_bom` the output starts with a mark; without a mark in the text, it is the mark (when wanted) followed by the text's bytes |
| Wasm.SpliceUtf8Bom | src/sys/wasm.rs:115-125 | the splice method's output is `Utf8Output` |
| Wasm.ConvertLossy | src/sys/wasm.rs:57-153 | the error order and kinds, including UnknownFromEncoding exactly when neither decoder takes the source; the copy path; and the output of each target family as the writer for that width, order and `add_bom` |
| Wasm.DecodeLossy | src/sys/wasm.rs:155-170 | UTF-16 labels, then UTF-32 labels without a kept mark, then for every other label the `TextDecoder` result, whose refusal is UnknownFromEncoding |
| Wasm.Utf8OutputMark | src/sys/wasm.rs:101-125 | the UTF-8 output starts with a mark exactly when `add_bom` holds, and is the text's bytes with at most one mark put in front |
| Wasm.MarkedTextKeepsOneMark | src/sys/wasm.rs:101-125 | a text starting with U+FEFF keeps exactly its one mark |
| Wasm.TargetOrderExamples | src/sys/wasm.rs:100 | "be"/"BE" endings select big-endian, "Be" does not |
| Iconv.TargetName | src/sys/iconv/ffi.rs:64-69 | "//IGNORE" is appended exactly when the name has no "//"; the result always has one; it holds a NUL exactly when the name does |
| Iconv.New | src/sys/iconv/ffi.rs:61-79 | fails only with UnknownConversion. Succeeds exactly when neither label holds a NUL and `iconv_open` accepts the target name and source, and it then owns that descriptor |
| Iconv.Grown | src/sys/iconv/ffi.rs:106 | `reserve` leaves at least the old capacity and at least the requested room, and changes nothing exactly when the room already suffices |
| Iconv.OutputVec.SetLen | src/sys/iconv/ffi.rs:98-99 | the bytes `iconv` wrote become part of the vector; the capacity is unchanged |
| Iconv.OutputVec.Reserve | src/sys/iconv/ffi.rs:106 | the data is unchanged and the capacity grows as `Grown` says |
| Iconv.Drive | src/sys/iconv/ffi.rs:84-111 | the rest of the loop never drops bytes already kept: the final output extends them |
| Iconv.Convert | src/sys/iconv/ffi.rs:81-113 | the loop, starting from a capacity equal to the input length, returns what `Drive` specifies, `None` being the "iconv error" panic |
| Iconv.TargetNameIdempotent | src/sys/iconv/ffi.rs:64-69 | "//IGNORE" is never appended twice |
| Iconv.FirstCallFits | src/sys/iconv/ffi.rs:82-110 | when the first call fits a capacity equal to the input length, the output is exactly what it wrote |
| Iconv.GrowthDoubles | src/sys/iconv/ffi.rs:106 | after E2BIG the capacity at least doubles; an empty vector stays empty |
| Iconv.DriveIgnoresFactor | src/sys/iconv/ffi.rs:84-111 | the output does not depend on the expansion factor assumed for termination |
| Iconv.DriveEnds | src/sys/iconv/ffi.rs:100-110 | a call that succeeds ends the loop with the bytes kept and written; any other failure is the panic |
| Iconv.DriveTooBig | src/sys/iconv/ffi.rs:104-106 | after E2BIG the loop goes on from the input left, the bytes kept and the grown capacity, and its measure drops |
| Iconv.CopyStepProgresses | src/sys/iconv/ffi.rs:84-111 | the assumptions of the loop hold of the copying converter, with one byte of room per byte |
| Iconv.DriveCopies | src/sys/iconv/ffi.rs:84-111 | with the copying converter the loop returns exactly the bytes kept followed by the input, from any capacity and after any number of E2BIG rounds |
| Errors.FromLossy | src/error.rs:36-43 | the lossy error converts to the matching strict error, never InvalidInput |

## Left out

- Native primitives are parameters: iconv, `MultiByteToWideChar`,
  `WideCharToMultiByte`, `TextDecoder` and `TextEncoder`. Their own
  behaviour is not modelled.
- The second native call after a successful sizing call on Windows is taken
  to fill the buffer. Its panics ("… with buffer failed") and the `i32`
  length conversions are not modelled.
- Errno reading and the `dbg!` output of `is_last_error_e2big` are left out;
  the status of an iconv call is a three-way enum. `Drop`/`iconv_close` and
  `unsafe impl Send` are resource and thread plumbing.
- Iconv.Convert: the loop ends only under an assumed progress condition:
  some factor `k` bounds the bytes written per input byte, so with `k` bytes
  of room for every byte still to convert `iconv` does not report E2BIG.
  Iconv.CopyStepProgresses shows a converter that meets it. A converter
  without such a factor is outside the contract. `iconv` is modelled as a function of the remaining input and
  the room, so conversion state kept inside the descriptor is not modelled.
  `capacity * 2` is unbounded, so `usize` overflow is not modelled.
- Iconv.Grown follows the amortized growth of the Rust standard library's
  `Vec::reserve` for byte vectors, which is not part of this repository.
- Glibc's `//IGNORE` may report an error after converting everything. That
  comes out of the step status here; the glibc behaviour itself is not
  modelled.
- `String::from_utf8_unchecked` in the iconv and Windows `decode_lossy` is
  a trust assumption. Win.DecodeLossy returns bytes, not a checked `String`.
- src/sys/iconv.rs, src/lib.rs and src/sys.rs are cfg-selected forwarding;
  build.rs, the mini_iconv example program and src/sys/wasm/ffi.rs are build, CLI and
  binding code.
- The Web back-end is modelled without the nonstandard legacy-encoding
  feature. Under that feature the `TextEncoder` branches are reachable; here
  they are not modelled.
- `adjust_utf16_params`, `string_to_utf16_lossy` and `string_to_utf32_lossy`
  are not part of this model. They are parameters of Wasm.ConvertLossy.
- The definition of `is_encoding_byte_order_ambiguous` is not part of this
  model. It is modelled as "the label parses as an ambiguous UTF encoding".
- The definition of `ByteOrderMark::is_le` is not part of this model. It is
  modelled from its call sites.
- The `UnknownConversion` variants are not declared in src/error.rs. They
  are added because src/sys/iconv/ffi.rs and src/sys/wasm/convert.rs
  produce them.
- Lossy UTF-8 decoding (`String::from_utf8_lossy`) is stated only on valid
  input (Utf8.Lossy8Agrees). Its maximal-subpart substitution on invalid
  input is defined but not proved equal to Unicode section 3.9.
- Codepage.EncodingToCodepage: the whole-label test rows (such as
  "hz-gb-2312" or "koi8-u") are proved in pieces. One lemma shows the entry
  consumes the label, one shows earlier entries with the same initial do
  not, and the routing lemmas show the label reaches the table. The single
  statement `encoding_to_codepage("hz-gb-2312") == Some(52936)` is not
  written out, because evaluating the resolver on a literal is beyond the
  solver's budget.
- Wasm.SpliceUtf8Bom: the branch that drains a mark the output does not
  want (src/sys/wasm.rs:120) is excluded by its precondition. `add_bom` is
  true whenever the text starts with a mark (src/sys/wasm.rs:101), so the
  crate never reaches that branch; it is not modelled.
- Win.ConvertLossy: its own contract gives the error order and the mark of
  an order-less UTF target. The full output is stated by
  WinWide.ConvertedLossy and WinWide.UtfTargetLayout.
- Decode.DecodeUtf: for UTF-16/32 its own contract gives only the error
  kind. The success cases are stated by the Explicit, Marked and DefaultsToLe
  lemmas and by DecodeUtf16Inner/DecodeUtf32Inner.
- Two source behaviours that look surprising are modelled as written and
  shown by lemmas, not corrected:
  - a little-endian mark on a big-endian Windows UTF code page is stripped
    without switching the order (WinWide.LeMarkerKeepsBigEndian);
  - the two Windows UTF-32 decoders differ on a partial last group
    (WinWide.PaddedDiffersOnPartialChunk).
- Labels "utf-8le" and "utf-8-" are UTF-8 for the label parser but have no
  Windows code page (Codepage.Utf8SuffixesParse).
- The legacy-encoding switch is spelled `wasm_nonstandard_allow_legacy_encoding`
  in src/sys/wasm.rs and `wasm-nonstandard-allow-legacy-encoding` in
  src/sys/wasm/convert.rs. Both are taken as off.
