# Text codecs and binary COPY framing, modelled in Dafny

This project models two small parts of a SQL database's conversion layer.

**Scalar and list text codecs** (`repr::strconv`). These cover:

- the boolean literal table;
- the two `bytea` input forms, hex (`\x...`) and the traditional escape format, and the hex output form (sections 8.4.1 and 8.4.2 of the PostgreSQL 14 manual);
- the fractional-seconds suffix that the timestamp formatters append;
- the array-literal text form (section 8.15.6 of the PostgreSQL 14 manual):
  - `parse_list`, a single-pass scanner over characters;
  - `format_list`, which writes each element and then quotes it in place when its formatter says it may need escaping;
  - `escape_list_elem`, the in-place backward rewrite that does the quoting, modelled as a method with a loop invariant.

**Binary COPY output** (`pgcopy::to::binary`, `pgcopy::cast`). These cover:

- the encoder state (field count, field types, output buffer);
- the 19-byte header;
- per-row big-endian field counts;
- the `-1` null marker;
- `flush` and the `-1` trailer;
- the checked narrowing casts that guard the field count.

The encoder is an immutable record, and each operation returns the next state. Each operation has a partner in the model:

- parsers are paired with formatters, and the round trips read back what was written; the element scanners are also proved to consume exactly the quoted form of what they return;
- the binary encoder is paired with a reader for the same file layout, and a whole session of `new`, any mix of `encode_row` and `flush`, and `finish` reads back as the rows encoded.

Several behaviours of the code as written differ from what it evidently intends (see Findings). Where that happens, the model has two variants (`Variant = AsWritten | Corrected`, or a separate `...AsWritten` member):

- the `AsWritten` variant follows the code;
- the `Corrected` variant carries the intended property.

Files, one module each:

| file | module | contents |
|---|---|---|
| results.dfy | Results | `Option`, `Result` |
| text.dfy | Text | bytes, Unicode whitespace and `trim`, ASCII lower-casing, UTF-8 encoding |
| strconv.dfy | Strconv | `Nestable`, the formatter result, parser errors, `format_string` |
| bool_codec.dfy | BoolCodec | `parse_bool`, `format_bool(_static)` |
| bytea_codec.dfy | ByteaCodec | `parse_bytes`, `parse_bytes_traditional`, `format_bytes`, the hex codec |
| nanos.dfy | Nanos | `format_nanos` |
| list_escape.dfy | ListEscape | `escape_list_elem`: the quoting spec and the in-place method |
| list_format.dfy | ListFormat | `format_list`, `write_null` |
| list_parse.dfy | ListParse | `parse_list` |
| list_roundtrip.dfy | ListRoundTrip | generic and flat list round trips |
| list_nested.dfy | ListNested | lists of lists |
| list_examples.dfy | ListExamples | accepted and refused inputs of `parse_list` |
| cast.dfy | Cast | `cast::i16`, `cast::i32` |
| copy_binary.dfy | CopyBinary | the encoder: `NULL_ENCODING`, `new`, `encode_row`, `flush`, `finish` |
| copy_stream.dfy | CopyStream | whole sessions and the reader of the format |

## Model

| member | source | states |
|---|---|---|
| Text.TrimSpec | src/repr/src/strconv.rs:53 | `trim` removes exactly the maximal leading and trailing runs of whitespace; what remains starts and ends with a non-whitespace character |
| Strconv.FormatString | src/repr/src/strconv.rs:381-387 | a string is written verbatim and is reported as possibly needing escaping |
| BoolCodec.ParseBool | src/repr/src/strconv.rs:52-58 | every failure carries the single message "unable to parse bool" |
| BoolCodec.ParseBoolMeansUnambiguousPrefix | src/repr/src/strconv.rs:47-58 | after trimming and lower-casing, an input reads as `b` exactly when it is a non-empty prefix of one of the words true/yes/on/1 (or false/no/off/0) for `b` and of none for `!b`; so the fixed table is the documented "any unambiguous prefix" rule |
| BoolCodec.TableIsUnambiguousPrefixes | src/repr/src/strconv.rs:54-55 | the literals listed for true (resp. false) are exactly the unambiguous prefixes meaning true (resp. false) |
| BoolCodec.OIsAmbiguous | src/repr/src/strconv.rs:49-50 | "o" abbreviates both "on" and "off", which is why the table leaves it out |
| BoolCodec.ParseBoolRefusesO | src/repr/src/strconv.rs:56 | "o" is refused |
| BoolCodec.ParseBoolUpperCase | src/repr/src/strconv.rs:53 | case is ignored: "YES" reads as true |
| BoolCodec.ParseBoolTrims | src/repr/src/strconv.rs:53 | surrounding whitespace of any kind is ignored: " on " reads as true and tab, `no`, line feed as false |
| BoolCodec.FormatBoolStatic | src/repr/src/strconv.rs:64-69 | the output is one letter, the first letter of the word for `b`, and it parses back as `b` |
| BoolCodec.FormatBool | src/repr/src/strconv.rs:75-81 | the output is one character, never needs escaping and parses back as `b` |
| ByteaCodec.HexDecode | src/repr/src/strconv.rs:396-397 | odd-length input is refused as odd length; decoding succeeds exactly when the length is even and every character is a hex digit, and then yields half as many bytes |
| ByteaCodec.HexEncode | src/repr/src/strconv.rs:445 | two lower-case hex digits per byte |
| ByteaCodec.HexRoundTrip | src/repr/src/strconv.rs:396-397 | the hex decoder reads the hex encoding of any byte string back to that string |
| ByteaCodec.ParseBytes | src/repr/src/strconv.rs:390-399 | after `\x`, decoding succeeds exactly when the UTF-8 bytes that follow are an even number of hex digits, and yields half as many bytes; otherwise it never yields more bytes than the UTF-8 encoding of the input |
| ByteaCodec.ParseBytesNotHex | src/repr/src/strconv.rs:396-399 | input not starting with `\x` is decoded in the traditional form from its UTF-8 bytes |
| ByteaCodec.ParseBytesHex | src/repr/src/strconv.rs:396-397 | input starting with `\x` is the hex decoding of the UTF-8 bytes after the prefix |
| ByteaCodec.ParseBytesTraditional | src/repr/src/strconv.rs:403-428 | the output is never longer than the input, and the only failures are the two documented messages |
| ByteaCodec.TraditionalCopiesPlainBytes | src/repr/src/strconv.rs:409-413 | input with no backslash is copied unchanged |
| ByteaCodec.EscapeByteReadsBack | src/repr/src/strconv.rs:414-424 | a byte written as itself, as `\\` or as a three-digit octal escape `\d2d1d0` reads back as that byte, whatever follows; the octal value is below 256 |
| ByteaCodec.EscapeFormatRoundTrip | src/repr/src/strconv.rs:403-428 | every byte string written in the escape format (backslash doubled, non-printable bytes as octal) reads back unchanged |
| ByteaCodec.ParseEscapedHello | src/repr/src/strconv.rs:417-419 | `hel\154o` reads as the bytes of "hello" |
| ByteaCodec.ParseBadEscape | src/repr/src/strconv.rs:421 | `bad\9` is refused as an invalid escape sequence |
| ByteaCodec.ParseTrailingBackslash | src/repr/src/strconv.rs:415 | `ab\` is refused because it ends with the escape character |
| ByteaCodec.FormatBytes | src/repr/src/strconv.rs:440-446 | the output is `\x` plus two characters per byte, never needs escaping, and parses back to the same bytes |
| ByteaCodec.FormatBytesText | src/repr/src/strconv.rs:445 | the output is `\x` followed by the hex encoding |
| ByteaCodec.FormatHello | src/repr/src/strconv.rs:434-438 | the documented example: "hello" is written as `\x68656c6c6f` |
| ByteaCodec.ParseHexHello | src/repr/src/strconv.rs:396-397 | `\x68656c6c6f` reads back as "hello" |
| Nanos.FormatNanos | src/repr/src/strconv.rs:472-484 | the loop that strips trailing zeros and pads to the remaining width appends exactly the suffix characterised by the lemmas below |
| Nanos.NanosText | src/repr/src/strconv.rs:476 | nothing is written exactly when the count is zero |
| Nanos.NanosFraction | src/repr/src/strconv.rs:476-483 | for 0 < nanos < 10^9 the suffix is a dot and 1 to 9 digits, the last one not 0, and read as a decimal fraction it equals nanos / 10^9 |
| Nanos.LeapSecondSuffix | src/repr/src/strconv.rs:476-483 | a leap-second count of 1.5·10^9 is written as ".15", which reads as 0.15 s |
| Nanos.NanosCorrectedFraction | src/repr/src/strconv.rs:472-484 | the corrected formatter writes the fraction of nanos mod 10^9 for every u32 input, and writes nothing exactly when that fraction is zero |
| ListEscape.EscapeListElem | src/repr/src/strconv.rs:627-679 | the buffer is unchanged exactly when the element from `start` is non-empty, is not `NULL` and has none of `{ } , space " \`; otherwise the prefix before `start` is kept and the element is replaced by its quoted form |
| ListEscape.EscapeBodyBytes | src/repr/src/strconv.rs:642-646 | the escaped body grows by one byte per quote and backslash, so quoting adds 2 plus that count |
| ListEscape.Walk | src/repr/src/strconv.rs:662-675 | the backward walk keeps the invariant that the bytes behind the write index are the escaped tail plus the closing quote, and the write index ends exactly at `start` |
| ListEscape.FinishInv | src/repr/src/strconv.rs:676-678 | when the walk ends, the write index equals `start` and writing the opening quote there completes the quoted element |
| ListEscape.NeedsQuotingEncoded | src/repr/src/strconv.rs:632-636 | the byte-level test agrees with the character-level one on the UTF-8 encoding of every string |
| ListEscape.QuoteEncoded | src/repr/src/strconv.rs:658-676 | quoting the UTF-8 bytes of a string gives the UTF-8 bytes of its quoted form, so the rewrite keeps the text valid |
| ListEscape.EncodeNull | src/repr/src/strconv.rs:633 | the bytes of an element equal `NULL` exactly when the element is the string "NULL" |
| ListFormat.Pieces | src/repr/src/strconv.rs:609-613 | each element's text is quoted exactly when its formatter reports that it may need escaping and the text needs quoting |
| ListFormat.FormatList | src/repr/src/strconv.rs:599-620 | the loop appends `{`, the element texts separated by commas, and `}` to the buffer, and the list as a whole never needs escaping |
| ListParse.ParseList | src/repr/src/strconv.rs:494-501 | a list that parses starts with `{` |
| ListParse.SkipSpaces | src/repr/src/strconv.rs:581-584 | only spaces are dropped, from the head of the input, and skipping stops at the first character that is not a space |
| ListParse.ParseQuotedElement | src/repr/src/strconv.rs:520-540 | a quoted element consumes a prefix of the input |
| ListParse.QuotedElementMeaning | src/repr/src/strconv.rs:520-540 | a quoted element consumes exactly the quoted form of the text it hands to the element parser, and the parser's result is the element; it fails only at the end of the input, at a bad escape or with the element parser's error |
| ListParse.ParseUnquotedElement | src/repr/src/strconv.rs:558-578 | an unquoted element consumes a prefix of the input |
| ListParse.UnquotedElementMeaning | src/repr/src/strconv.rs:558-578 | an unquoted element consumes text without `}`, `,` or space, up to one of them; if that text trims to `NULL` the element is the null value, otherwise the element parser's result on the untrimmed text; with no delimiter ahead it fails at the end of the input |
| ListParse.ScanToClose | src/repr/src/strconv.rs:542-556 | the nested capture splits the input and its text ends with `}` |
| ListParse.ScanToCloseStops | src/repr/src/strconv.rs:542-556 | the nested capture succeeds exactly when a `}` lies ahead, and otherwise fails at the end of the input; its text holds no `}` before the last character, so it stops at the first one, not at the matching one |
| ListParse.ScanQuotedInverts | src/repr/src/strconv.rs:523-538 | the input a quoted scan consumes is the escaped form of the text it collects, then the closing quote; it fails only at the end of the input or with `bad escape` naming a character other than `\` and `"` |
| ListParse.ScanUnquotedStops | src/repr/src/strconv.rs:560-572 | an unquoted scan collects no delimiter, and fails, at the end of the input, exactly when no `}`, `,` or space lies ahead |
| ListParse.ParseListCorrectedIsBraced | src/repr/src/strconv.rs:505-511 | with the leftover check applied after every closing brace, an accepted input starts with `{` and ends with `}` |
| ListRoundTrip.ListReadsBack | src/repr/src/strconv.rs:599-620 | for any element formatter and parser, if every element's text reads back as its value, the formatted list reads back as the list of values |
| ListRoundTrip.FlatElementReadsBack | src/repr/src/strconv.rs:558-577 | a string element reads back as itself and a null as null, except that in the code as written a string that is written unquoted and trims to `NULL` reads as null |
| ListRoundTrip.FlatRoundTrip | src/repr/src/strconv.rs:599-620 | with the corrected escaper, every list of optional strings reads back unchanged |
| ListRoundTrip.FlatRoundTripAsWritten | src/repr/src/strconv.rs:573-577 | as written, a list of optional strings reads back with each string that trims to `NULL` turned into null |
| ListRoundTrip.FlatRoundTripAsWrittenIff | src/repr/src/strconv.rs:632-636 | as written, the round trip is exact if and only if no string is written unquoted yet trims to `NULL` |
| ListRoundTrip.TabNullReadsAsNull | src/repr/src/strconv.rs:573 | the string tab + `NULL` is written unquoted and reads back as null |
| ListRoundTrip.NullAndStringNullDiffer | src/repr/src/strconv.rs:690-693 | a null is written as bare `NULL` while the string "NULL" is quoted, so the two stay apart |
| ListNested.NestedRoundTrip | src/repr/src/strconv.rs:542-556 | with a capture that stops at the matching brace outside quotes, every list of lists of optional strings reads back unchanged |
| ListNested.NestedRoundTripAsWritten | src/repr/src/strconv.rs:542-556 | as written, a list of lists reads back (up to the trimmed-`NULL` case) when no inner string contains `}` |
| ListNested.ScanToCloseFirst | src/repr/src/strconv.rs:544-554 | for any text without `}`, the capture of that text, a `}` and anything after is exactly the text and the brace, leaving the rest unread |
| ListNested.NestedCloseBraceBreaks | src/repr/src/strconv.rs:548-550 | the list holding one list holding the string `a}` is written as `{{"a}"}}` and that text is refused |
| ListExamples.WordsAroundNull | src/repr/src/strconv.rs:573-576 | an unquoted `NULL` between two words reads as null between the words |
| ListExamples.QuotedIsString | src/repr/src/strconv.rs:520-539 | a quoted element reads as the string, even a quoted `NULL` |
| ListExamples.TrailingCommaAccepted | src/repr/src/strconv.rs:588 | a trailing comma is accepted: `{a,}` reads as `[a]` |
| ListExamples.LeftoverAfterEmpty | src/repr/src/strconv.rs:505-511 | text after the `}` of an empty list is refused, naming its first character |
| ListExamples.LeftoverIgnored | src/repr/src/strconv.rs:590 | as written, text after the `}` that follows an element is ignored |
| ListExamples.LeftoverRefused | src/repr/src/strconv.rs:505-511 | corrected, text after that `}` is refused, naming its first character |
| ListExamples.EndsInElement | src/repr/src/strconv.rs:570 | input that ends inside an unquoted element is refused as unexpected end of input |
| ListExamples.NoDelimiter | src/repr/src/strconv.rs:591 | two words separated only by a space are refused, naming the second word's first character |
| ListExamples.BadEscape | src/repr/src/strconv.rs:531 | inside quotes, a backslash followed by anything but `\` or `"` is refused as a bad escape |
| Cast.I16 | src/pgcopy/src/cast.rs:12-17 | succeeds exactly when the value lies in [-32768, 32767], returns it unchanged, and otherwise fails with the context followed by " does not fit into an i16" |
| Cast.I32 | src/pgcopy/src/cast.rs:19-24 | succeeds exactly when the value lies in [-2^31, 2^31-1], returns it unchanged, and otherwise fails with the context followed by " does not fit into an i32" |
| Cast.I16IsLossless | src/pgcopy/src/cast.rs:16 | the check succeeds exactly when truncating to 16 bits and reading back as two's complement gives the value again |
| Cast.I32IsLossless | src/pgcopy/src/cast.rs:23 | the check succeeds exactly when truncating to 32 bits and reading back as two's complement gives the value again |
| Cast.I16ThenI32 | src/pgcopy/src/cast.rs:12-24 | a value that fits an i16 fits an i32 with the same value |
| CopyBinary.MarkerBytes | src/pgcopy/src/to/binary.rs:19 | the null marker is FF FF FF FF and the trailer FF FF, read as -1 |
| CopyBinary.HeaderLayout | src/pgcopy/src/to/binary.rs:37-43 | the header is 19 bytes: `PGCOPY\n`, FF, CR LF, 00, a zero flags word and a zero extension length |
| CopyBinary.New | src/pgcopy/src/to/binary.rs:30-52 | creation succeeds exactly when the field count fits an i16, starts the buffer with the header, and otherwise fails with "field count does not fit into an i16" |
| CopyBinary.EncodeRow | src/pgcopy/src/to/binary.rs:54-68 | encoding a row only appends to the buffer, at least the two count bytes, and keeps the encoder valid |
| CopyBinary.EncodeRowCount | src/pgcopy/src/to/binary.rs:55-56 | the appended bytes start with the row's field count in big-endian |
| CopyBinary.ValuesAt | src/pgcopy/src/to/binary.rs:57-60 | columns are visited in schema order; a null datum stays null and a value becomes its type's payload |
| CopyBinary.EncodeRowAsWritten | src/pgcopy/src/to/binary.rs:54-68 | as written, encoding appends the count and keeps earlier bytes |
| CopyBinary.Flush | src/pgcopy/src/to/binary.rs:70-72 | flushing hands over everything buffered and leaves the buffer empty, keeping the schema |
| CopyBinary.Finish | src/pgcopy/src/to/binary.rs:74-78 | finishing appends two bytes that read as -1 and keeps everything before them |
| CopyStream.DecodeNull | src/pgcopy/src/to/binary.rs:60 | the reader takes the null marker as a null field |
| CopyStream.DecodeTuplesOf | src/pgcopy/src/to/binary.rs:54-78 | the reader reads any sequence of encoded tuples followed by the trailer back to those tuples |
| CopyStream.StepBytes | src/pgcopy/src/to/binary.rs:54-72 | after one `encode_row` or `flush`, the bytes handed over plus the buffer are the bytes before plus the tuple encoded, if any |
| CopyStream.RunBytes | src/pgcopy/src/to/binary.rs:54-72 | over any mix of encodes and flushes, the bytes handed over plus the final buffer are the starting buffer plus the encoded rows |
| CopyStream.NoFlushHandsOverNothing | src/pgcopy/src/to/binary.rs:54-68 | a run without flushes hands over nothing |
| CopyStream.FlushesConcatenate | src/pgcopy/src/to/binary.rs:70-78 | the flushed chunks followed by the finished buffer equal the finished buffer of the same run without flushes |
| CopyStream.SessionLayout | src/pgcopy/src/to/binary.rs:30-78 | a whole session produces the header, the encoded rows and the trailer |
| CopyStream.SessionReadsBack | src/pgcopy/src/to/binary.rs:30-78 | the stream of a whole session reads back as exactly the rows encoded |
| CopyStream.AsWrittenNullRows | src/pgcopy/src/to/binary.rs:60 | for rows of nulls only, the code as written and the corrected encoder produce the same bytes |
| CopyStream.AsWrittenValueLost | src/pgcopy/src/to/binary.rs:61-64 | as written, a one-column row holding a value is finished as the header, the count 1 and the trailer, which no reader of the format accepts |

## Left out

- Buffers and I/O: `FormatBuffer` is modelled as the string a formatter appends. The encoder's `Vec<u8>` is a byte sequence. The `scratch_buf` and `field_pgtypes` members are not modelled.
- `parse_list`'s `make_null` and `parse_elem` closures: modelled as pure function parameters. Side effects of `FnMut` closures are not modelled.
- `to_lowercase` is modelled as ASCII lower-casing. Outside ASCII, only U+0130 and U+212A lower-case to text containing ASCII letters. U+0130 becomes `i` followed by U+0307, and U+212A becomes `k`. Neither result is a word of the boolean table, so the accepted set is the same.
- `hex::decode` and `hex::encode` belong to a library that is not part of this model. They are modelled from their documented behaviour: odd length is refused first, then the first non-hex character.
- The per-type binary payload (`Value::from_datum`, `encode_binary`) is a foreign call. It is a function parameter of the encoder. The corrected encoder writes it behind a 32-bit length, following the PostgreSQL 14 COPY binary format.
- A row whose arity differs from the schema makes `zip_eq` panic. This is a precondition of `EncodeRow`.
- A payload longer than 2^31-1 bytes has no length prefix in the format. This is a precondition (`Fits`) of the corrected encoder.
- `ListElementWriter::nonnull_buffer` is modelled as writing a string formatter's text into the list.
- `write_null` is modelled as the formatter result `NULL`/`Yes` (`ListFormat.WriteNull`). What it states is in `ListRoundTrip.NullAndStringNullDiffer`.
- The other codecs of the same file (integers, floats, dates, times, timestamps, intervals, decimals, JSON) delegate to standard-library or other-crate parsers that are not part of this model.
- `finish` consumes the encoder. That is not modelled beyond `Finish` returning only bytes.
- Nanos.NanosText: the count is a `u32`. This is a precondition (`nanos < 2^32`), not wrap-around, since the caller never passes a larger value.
- ByteaCodec.ParseBytesTraditional: its contract bounds the output length and names the two errors. The full meaning is stated by `EscapeByteReadsBack`, `TraditionalCopiesPlainBytes` and `EscapeFormatRoundTrip`.
- ListParse.ParseList: its own contract says only that accepted input starts with `{`. The behaviour is stated by the round-trip lemmas and by the examples in `ListExamples`.
- ListParse.ScanToClose: its contract gives only the split and the closing brace. That the capture stops at the first `}`, and fails exactly when there is none, is stated by `ListParse.ScanToCloseStops`.
- ListParse.ParseQuotedElement: its contract says only that a prefix is consumed. The unescaping rule and the errors are stated by `ListParse.QuotedElementMeaning` and `ListParse.ScanQuotedInverts`.
- ListParse.ParseUnquotedElement: its contract says only that a prefix is consumed. The `NULL` rule, the untrimmed text handed to the element parser and the end-of-input failure are stated by `ListParse.UnquotedElementMeaning` and `ListParse.ScanUnquotedStops`.
- CopyBinary.EncodeRowAsWritten: its contract covers the count and the prefix. The lost payload is shown by `CopyStream.AsWrittenValueLost`.

## Findings

| source | as written | input that shows it | evidently intended | confidence | as-written member | corrected member |
|---|---|---|---|---|---|---|
| src/repr/src/strconv.rs:586-590 | after an element, a `}` ends the list without the leftover check that an empty list gets (505-511) | `{a}b` is accepted as `[a]` | text after the closing brace is refused | not executed | ListExamples.LeftoverIgnored | ListExamples.LeftoverRefused |
| src/repr/src/strconv.rs:632-636 | the escaper quotes only elements with a space, while the parser trims all Unicode whitespace before comparing with `NULL` (573) | the string tab + `NULL` is written unquoted and reads back as null | every string reads back as itself | not executed | ListRoundTrip.TabNullReadsAsNull | ListRoundTrip.FlatRoundTrip |
| src/repr/src/strconv.rs:542-556 | a nested list is captured up to the first `}`, even one inside a quoted inner element | `[["a}"]]` is written as `{{"a}"}}`, which is refused | the capture stops at the matching brace outside quotes | not executed | ListNested.NestedCloseBraceBreaks | ListNested.NestedRoundTrip |
| src/repr/src/strconv.rs:472-484 | counts of a second or more, which leap seconds produce, are stripped and padded as if below a second | 1,500,000,000 is written as `.15` | only the fraction below one second is written, `.5` here | not executed | Nanos.LeapSecondSuffix | Nanos.NanosCorrectedFraction |
| src/pgcopy/src/to/binary.rs:61-64 | a non-null datum is encoded into a scratch buffer that is never appended, so no length and no payload reach the output | a one-column row holding any value gives a stream that no reader accepts | the 32-bit length and the payload are appended | not executed | CopyStream.AsWrittenValueLost | CopyStream.SessionReadsBack |
