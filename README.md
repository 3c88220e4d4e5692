# MySQL ODBC driver utilities, modelled in Dafny

This project models the data-marshalling core of the MySQL ODBC driver's
`driver/utility.c`:

- **Chunked value readers.** These serve one column value to `SQLGetData` a
  piece at a time:
  - `copy_lresult` serves character or binary data;
  - `copy_wchar_result` serves wide characters, through UTF-8 into UTF-16 or
    UTF-32;
  - `copy_binary_result` serves binary data as hexadecimal text;
  - `copy_str_data` is the one-shot string copy.
- **The transcoder** `copy_and_convert`, with its character-set callbacks.
- **The type mapper.** `unireg_to_sql_datatype`, `unireg_to_c_datatype`,
  `default_c_type` and `bind_length` are switch tables. `fix_result_types`
  defaults the bound columns of a statement.
- **The lenient date and time parsers** `str_to_ts`, `str_to_date`,
  `str_to_time_st` and `str_to_time_as_long`.
- **The string helpers** `myodbc_escape_wildcard`, `myodbc_casecmp`,
  `myodbc_strcasecmp`, `dynstr_append_quoted_name` and `is_minimum_version`.

What the code does in place stays imperative in the model:

- The readers write the caller's buffer as an `array`.
- The transcoder and the parsers are loops.
- `fix_result_types` updates a `Statement` object.
- `dynstr_append_quoted_name` updates a `DynamicString` object.

Each method is proved against a specification function. The lemmas beside it
state what the driver promises: the "no data" and status rules, what lands in
the buffer, round trips, ranges and orderings.

The readers' cursor is the datatype `Cursor = NotStarted | Offset(n)`, in
place of the `~0` sentinel. Connection settings are an explicit value: the
space-padding flag, `FLAG_NO_BIGINT`, the ODBC version and the character
set's maximum bytes per character.

Modules, one file each:

| module | file |
|---|---|
| `Common` | `common.dfy` |
| `Codes` | `codes.dfy` |
| `TypeMapper` | `types.dfy` |
| `ResultBinder` | `binder.dfy` |
| `Charset` | `charset.dfy` |
| `Transcoder` | `transcoder.dfy` |
| `NarrowReader` | `narrow.dfy` |
| `WideReader` | `wide.dfy` |
| `HexReader` | `hex.dfy` |
| `DateParse` | `dates.dfy` |
| `StringUtil` | `strings.dfy` |

Given `0xAB 0xCD` and a buffer of 5 bytes, the hex reader has `(5 - 1) / 2 = 2`
bytes of room: both source bytes are rendered as four digits plus the
terminator, and the call succeeds (`HexReader.TwoBytesInFive`).

## Model

| member | source | states |
|---|---|---|
| NarrowReader.CopyLResult | driver/utility.c:228-292 | One call of `copy_lresult` writes the caller's buffer in place and returns the status, `*pcbValue` and the new cursor computed by `LResult`. |
| NarrowReader.LResult | driver/utility.c:228-292 | The outcome of one call: at most `cbValueMax` bytes written. It is "no data" exactly when the value is exhausted, and then nothing changes. Otherwise it reports the fill length left from the start offset. A zero-length buffer receives nothing. |
| NarrowReader.FillLen | driver/utility.c:252-263 | The reported length is the display length only when padding is on and that length is not below the source length; otherwise it is the source length. |
| NarrowReader.Room | driver/utility.c:241-250 | The room in the buffer: one byte is kept for the terminator of character data, and the maximum length caps it. |
| NarrowReader.Padded | driver/utility.c:277-282 | The value as the caller sees it: the source bytes, then spaces up to the fill length. |
| NarrowReader.ChunkBytes | driver/utility.c:277-285 | The bytes one call writes: `length` of them, plus one when a NUL is asked for. `ChunkBytesPadded` says which bytes they are. |
| NarrowReader.ChunkBytesPadded | driver/utility.c:277-284 | Those bytes are the next slice of the padded value. |
| NarrowReader.NoDataRule | driver/utility.c:264-267 | A first call restarts at offset 0 and is never "no data". A later call with a buffer is "no data" exactly when its offset has reached the fill length, and then changes nothing. |
| NarrowReader.ServedRule | driver/utility.c:241-291 | The offset moves by exactly min(fill left, room). `*pcbValue` is the fill left before the call. The call succeeds exactly when the buffer is non-empty and its room holds all that was left; otherwise it warns. |
| NarrowReader.ZeroLengthBuffer | driver/utility.c:241-287 | A zero-length buffer receives nothing and gets a warning. The offset stays unless it already lay past the fill length. |
| NarrowReader.ChunkContents | driver/utility.c:277-285 | The bytes written are the next piece of the padded value, then a NUL unless binary data filled the whole room. |
| NarrowReader.Progress | driver/utility.c:273-274 | With room for at least one byte, every serving call moves the offset strictly forward and never past the fill length. The next call resumes where this one stopped. |
| NarrowReader.DrainStep | driver/utility.c:264-291 | One call of a sequence of reads, with a buffer of at least 2 bytes, delivers the padded value from its offset up to the next offset, which lies strictly further on unless the value is used up. |
| NarrowReader.DrainFrom | driver/utility.c:264-291 | Enough successive calls from any offset deliver the rest of the padded value, in order and without terminators, and leave the cursor at the fill length. |
| NarrowReader.DrainDelivers | driver/utility.c:264-291 | Reading a value from the first call on, with buffers of at least 2 bytes, delivers exactly the source bytes and then the spaces up to the fill length; the call after that is "no data". |
| NarrowReader.HelloInTwoCalls | driver/utility.c:228-292 | "hello" in a column of display length 10, read with buffers of 3 and then 10 bytes: "he" with a warning and 5 reported, then "llo" with success and 3 reported. |
| NarrowReader.WriteChunk | driver/utility.c:277-285 | `memcpy`, `bfill` with spaces and the terminator leave exactly `ChunkBytes` at the front of the buffer and nothing else changed. |
| NarrowReader.CopyBytes | driver/utility.c:281-281 | `memcpy` puts the bytes at the front of the buffer and changes nothing after them. |
| NarrowReader.FillBytes | driver/utility.c:282-282 | `bfill` sets the given range to the byte and changes nothing outside it. |
| NarrowReader.ServeChunk | driver/utility.c:277-285 | What is left of the source is copied (none once the offset is past it), then the padding and the terminator. |
| NarrowReader.Strmake | driver/utility.c:211-212 | What `strmake` writes is min(strlen, limit) bytes plus a terminator. |
| NarrowReader.StrmakeIsPrefix | driver/utility.c:211-212 | That output is a NUL-free prefix of the source plus the terminator. It holds the whole string exactly when `limit` allows it. |
| NarrowReader.StrLimit | driver/utility.c:200-209 | The byte count handed to `strmake`. It is the S1090 error for a negative length other than `SQL_NTS`. |
| NarrowReader.StrDataAsWritten | driver/utility.c:200-216 | `copy_str_data` as written: an error exactly for a negative length other than `SQL_NTS`. For a zero-length buffer it still writes the terminator. |
| NarrowReader.StrData | driver/utility.c:200-216 | The corrected `copy_str_data`. It is an error exactly for a negative length other than `SQL_NTS`; otherwise it reports `strlen`. It warns exactly when `strlen` reaches max(`cbValueMax`, 1), and never writes more than `cbValueMax` bytes. |
| NarrowReader.StrDataMatchesDriver | driver/utility.c:206-212 | The corrected call differs from the driver's only in what a zero-length buffer receives. |
| NarrowReader.AsWrittenOverrunsEmptyBuffer | driver/utility.c:207-212 | With `cbValueMax = 0` the driver stores a terminator at `rgbValue[0]` although the buffer holds no byte. |
| NarrowReader.TruncationWarning | driver/utility.c:211-216 | The buffer receives the front of the string, terminated. The warning is raised exactly when the string had to be cut. |
| NarrowReader.WriteStrmake | driver/utility.c:211-212 | The copy loop writes `Strmake` at the front of the buffer and leaves the rest alone. |
| NarrowReader.CopyStrData | driver/utility.c:190-217 | `copy_str_data` writes the buffer in place and returns the status and `*pcbValue` given by `StrData`. |
| HexReader.HexDigit | driver/utility.c:505-506 | The digit of a nibble is '0'..'9' for 0..9, then 'A'..'F'. |
| HexReader.HexPair | driver/utility.c:532-533 | Each byte becomes two digits; `PairRoundTrip` and `HexOfDigits` say which. |
| HexReader.HexOf | driver/utility.c:530-535 | The digits of a run of bytes: two per byte. |
| HexReader.PairRoundTrip | driver/utility.c:532-533 | Every byte comes back from its two digits. |
| HexReader.UnHexSnoc | driver/utility.c:530-535 | Reading back one more digit pair gives one more byte. |
| HexReader.HexRoundTrip | driver/utility.c:530-535 | The hex text of a run of bytes reads back as those bytes, so no two values render alike. |
| HexReader.HexOfDigits | driver/utility.c:530-535 | Position 2i holds the high nibble of byte i and position 2i+1 the low one. Every digit is '0'..'9' or 'A'..'F'. |
| HexReader.HexNoDataRule | driver/utility.c:516-519 | A later call is "no data" exactly when its offset has reached the clamped source length, whatever the buffer. A first call starts at 0. |
| HexReader.HexServedRule | driver/utility.c:520-536 | The offset moves by min(bytes left, (cap - 1) / 2). The call writes those bytes' digits and a terminator within the buffer and reports twice the bytes left. |
| HexReader.HStatusAsWritten | driver/utility.c:537-543 | The status as the driver computes it: buffer length against the digits written in this call. |
| HexReader.AsWrittenNeverWarns | driver/utility.c:522-538 | For any non-empty buffer, the driver's status test always says success. |
| HexReader.AsWrittenHidesTruncation | driver/utility.c:522-538 | With 0xAB 0xCD in a 3-byte buffer the driver writes only "AB", yet returns plain success. |
| HexReader.HStatus | driver/utility.c:537-543 | The corrected status: success only when the call renders everything that was left. |
| HexReader.StatusMeansComplete | driver/utility.c:537-543 | The corrected status is success exactly when nothing is left to read after the call. Without a maximum length this is a buffer longer than twice the bytes left. |
| HexReader.TwoBytesInFive | driver/utility.c:509-538 | Two bytes in a 5-byte buffer: all four digits and the terminator, success, and "no data" on the next call. |
| HexReader.WriteHex | driver/utility.c:527-536 | The hex loop writes `HexOf` of the bytes served, then the terminator. |
| HexReader.ServeHex | driver/utility.c:527-536 | A serving call writes the digits of the bytes served and the terminator at the front of the buffer. |
| HexReader.CopyBinaryResult | driver/utility.c:492-544 | `copy_binary_result` writes the buffer in place and returns the corrected status, the length reported and the new cursor. |
| Charset.Utf8Encode | driver/utility.c:444-445 | The UTF-8 form of a scalar value (section 3 of RFC 3629) is 1 to 4 bytes: one exactly below U+0080, four exactly from U+10000. |
| Charset.Utf8MbWc | driver/utility.c:444-445 | The utf8 decoder moves forward within its input, yields scalar values only, and never reports an unmapped character. |
| Charset.Utf8WcMb | driver/utility.c:444-445 | The utf8 encoder writes within the room. It writes exactly when the value is a scalar value whose UTF-8 form fits, and it reports an unencodable value exactly for a non-scalar. |
| Charset.Utf8RoundTrip | driver/utility.c:452-460 | Decoding the UTF-8 form of a scalar value gives the value back, whatever follows. |
| Charset.Utf8ConcatSnoc | driver/utility.c:452-460 | The UTF-8 text of a run of characters grows by one form per character. |
| Charset.Utf8ConcatAppend | driver/utility.c:452-460 | The UTF-8 text of two runs of characters is the text of each, one after the other. |
| Charset.Utf8Partial | driver/utility.c:444-445 | The start of a UTF-8 form cut short is too little input for the utf8 decoder: it waits for more rather than reporting an error. |
| Charset.Utf16Encode | driver/utility.c:461-461 | `utf32toutf16` writes one unit below U+10000 and two above, each below 0x10000 (section 2.1 of RFC 2781). |
| Charset.Utf16RoundTrip | driver/utility.c:457-462 | The surrogate pair of a supplementary character decodes back to it. |
| Charset.WideEncode | driver/utility.c:450-462 | One character takes one or two units. With 4-byte units it is the value itself. |
| Charset.WideConcatAppend | driver/utility.c:450-462 | The units of two runs of characters are the units of each, one after the other. |
| Charset.WideConcatBmp | driver/utility.c:450-462 | Characters below U+10000 are their own units, in either width. |
| Charset.Latin1MbWc | driver/utility.c:444-445 | The ISO-8859-1 decoder reads the first byte as the character with the same number, in one byte. |
| Charset.Latin1Chars | driver/utility.c:444-445 | An ISO-8859-1 text has one character per byte, each the byte's own number, all below 0x100. |
| Charset.Latin1Decodes | driver/utility.c:444-445 | The ISO-8859-1 decoder reads each byte of a text as its character and waits for more input at the end. |
| Transcoder.DecodeStep | driver/utility.c:329-348 | A decoding turn that goes on advances by 1 to the bytes available and counts at most one error. `None` stands for the decoder wanting more input, which stops the loop. |
| Transcoder.EncodeStep | driver/utility.c:350-360 | An encoding turn writes 1 to `room` bytes or gives up, and counts at most one error, for an unencodable character retried as '?'. |
| Transcoder.Step | driver/utility.c:327-361 | One turn keeps the output written so far and stays within `from` and `to_length`. A continuing turn consumes input and writes at least one byte; the last turn changes nothing but the errors. |
| Transcoder.RunBounds | driver/utility.c:327-363 | Whatever the character sets, the conversion keeps what it already converted, stays within `from` and within `to_length`, and writes at least one byte per character emitted. |
| Transcoder.Convert | driver/utility.c:311-364 | `copy_and_convert` never returns more than `to_length` bytes, never reads past `from_length`, and writes at least one byte per character. |
| Transcoder.TurnRule | driver/utility.c:327-361 | One turn stops with nothing changed when the decoder wants more input. Otherwise it writes the decoded character, or '?' for an illegal sequence, an unmapped character or a character the target cannot encode, and exactly such a substitution adds one error. It goes on exactly when the encoder writes within the room; otherwise it stops with only the error count changed. |
| Transcoder.Utf8AsciiTurn | driver/utility.c:327-361 | With utf8 on both sides, an ASCII byte is copied as itself with no error. |
| Transcoder.Utf8IllegalTurn | driver/utility.c:333-339 | With utf8 on both sides, a byte that cannot start a UTF-8 sequence becomes '?', adds one error and is stepped over. |
| Transcoder.IllegalByteSubstituted | driver/utility.c:327-363 | "a", a stray continuation byte and "b" convert to "a?b" with one error and all three bytes consumed. |
| Transcoder.DecodesAsStep | driver/utility.c:327-361 | When the input reads as a known run of characters that the utf8 encoder has room for, each turn writes the next one; after the last, the turn stops. |
| Transcoder.RunDecodesAs | driver/utility.c:327-363 | From any point in such a run, the loop writes the rest of its characters and stops with no error. |
| Transcoder.ConvertDecodesAs | driver/utility.c:311-364 | Input that reads as the characters `cs`, followed by too little for another, converts into utf8 as exactly the UTF-8 forms of `cs`, with no error, consuming up to the tail. |
| Transcoder.ConvertLatin1 | driver/utility.c:311-364 | ISO-8859-1 into utf8, with room: every byte becomes its own character in UTF-8, nothing is substituted and the whole input is consumed. |
| Transcoder.Utf8DecodesAs | driver/utility.c:327-348 | The UTF-8 forms of a run of characters, then a cut-off character, read with the utf8 decoder as that run. |
| Transcoder.ConvertUtf8 | driver/utility.c:311-364 | utf8 into utf8, with room: the output is the input's whole characters, unchanged, with no error; a cut-off character at the end is left unconsumed. |
| Transcoder.RunUtf8Output | driver/utility.c:350-358 | With the utf8 encoder, the bytes written are exactly the UTF-8 forms of the characters emitted, all scalar values. |
| Transcoder.ConvertUtf8Output | driver/utility.c:444-445 | The conversion into utf8 that `copy_wchar_result` asks for writes well-formed UTF-8. |
| Transcoder.ReadChar | driver/utility.c:329-348 | The decoding half of a turn computes `DecodeStep`. |
| Transcoder.WriteChar | driver/utility.c:350-360 | The encoding half of a turn computes `EncodeStep`, retry included. |
| Transcoder.Turn | driver/utility.c:327-361 | One turn of the loop moves the state as `Step` says. |
| Transcoder.CopyAndConvert | driver/utility.c:312-364 | The `while (1)` loop computes exactly `Convert`: the bytes written, the input consumed and the error count. `TurnRule` says what each turn writes, substitutes and counts. |
| WideReader.WFillLen | driver/utility.c:421-422 | The reported length is the display length only when padding is on and that length is not below the source length. |
| WideReader.WRoom | driver/utility.c:400-407 | The room is below the buffer length, because one unit is kept for a terminator. An empty buffer has no room. |
| WideReader.Slice | driver/utility.c:439-440 | The source bytes converted are at most `length` of them. |
| WideReader.WNoDataRule | driver/utility.c:424-427 | A first call is never "no data". A later call with a buffer is "no data" exactly when its offset has reached the fill length, and then it changes nothing. |
| WideReader.WServedRule | driver/utility.c:429-483 | A call reports the fill left before it and succeeds exactly when the buffer is non-empty and its room holds all of that. Without a buffer, the offset stays. |
| WideReader.MaxLenClampsOnlyRoom | driver/utility.c:405-407 | The maximum length narrows only the room. What is reported, and when the value is exhausted, do not depend on it. |
| WideReader.ChunkUnits | driver/utility.c:439-462 | A chunk's wide units fit in the source bytes it consumed, which fit in the slice. |
| WideReader.WContents | driver/utility.c:435-469 | A call writes exactly min(fill left, room) units, with no terminator: the UTF-16 or UTF-32 form of the characters converted, then spaces. The corrected cursor never moves back and never passes the fill length. |
| WideReader.Latin1Units | driver/utility.c:435-469 | For ISO-8859-1, each byte of the slice becomes the unit with its own number, then spaces. The corrected cursor moves past all units served, spaces included; the driver's moves by the slice's UTF-8 length. |
| WideReader.Latin1Chunk | driver/utility.c:439-445 | The conversion of an ISO-8859-1 slice yields its bytes as characters, with no errors, and consumes all of it. |
| WideReader.Utf8Units | driver/utility.c:435-469 | For utf8, a slice of whole characters then a cut-off one is written as the wide form of the whole characters, then spaces. |
| WideReader.Utf8Cursors | driver/utility.c:444-447 | After that call the driver's cursor resumes at the cut-off character. The corrected one does too while source bytes are left, which is always the case when a cut-off character is there. Once the source is used up, it passes the spaces served. |
| WideReader.Utf8Chunk | driver/utility.c:439-445 | The conversion of a utf8 slice of whole characters and then a cut-off one yields exactly the whole characters, with no errors, and stops at the cut. |
| WideReader.StraddlingCharacterWithheld | driver/utility.c:439-466 | A four-byte character that straddles the room is withheld whole, never half a surrogate pair. "a" + U+1F600 in a buffer of 3 units gives "a" and a space, and the next call starts at U+1F600. |
| WideReader.WNextAsWritten | driver/utility.c:444-448 | The driver's offset moves by the number of UTF-8 bytes `copy_and_convert` produced. |
| WideReader.AsWrittenOffsetOvershoots | driver/utility.c:444-448 | For the ISO-8859-1 value "éa" read with two-unit buffers, the driver moves the offset to 2 after "é". The next call returns "no data", so "a" is never delivered. The corrected cursor stops at 1, and the next call delivers "a". |
| WideReader.AsWrittenPaddingStalls | driver/utility.c:424-447 | With padding past the source, a call at the source length writes only spaces, is not "no data", and leaves the driver's offset where it was. The corrected cursor moves past the spaces. |
| WideReader.HelloPaddingStalls | driver/utility.c:424-447 | "hello" padded to 10, read with 20 units at offset 5: five spaces and success, the driver's offset stays at 5, and the corrected one moves to 10, where the next call is "no data". |
| WideReader.AsWrittenDrainStalls | driver/utility.c:424-466 | With the driver's cursor, a padded value never finishes: any number of calls from the source length deliver at least one space each and leave the offset at the source length. |
| WideReader.WNext | driver/utility.c:444-448 | The corrected offset moves past the source bytes the conversion consumed. Once the source is used up, it moves past the spaces served as well, as `copy_lresult` does. |
| WideReader.Latin1Padded | driver/utility.c:421-422 | An ISO-8859-1 value as wide units: one unit per source byte, then spaces, `fill_len` units in all. |
| WideReader.Latin1PaddedAt | driver/utility.c:421-422 | Unit `i` of the padded value is source byte `i`, or a space past the source. |
| WideReader.Latin1Piece | driver/utility.c:439-466 | The units of an ISO-8859-1 slice padded to `length` are the next `length` units of the padded value. |
| WideReader.Latin1Call | driver/utility.c:424-466 | One call with a buffer of two units or more writes the next piece of the padded value. The piece is at least one unit while any is left. The corrected cursor moves to the piece's end. |
| WideReader.Latin1DrainStep | driver/utility.c:424-466 | One call of a drain delivers the padded value up to `k`, and the drain goes on from `k`. |
| WideReader.WDrainEnd | driver/utility.c:424-427 | At the fill length a drain delivers nothing more and stays there. |
| WideReader.Latin1DrainFrom | driver/utility.c:424-466 | Successive calls from any offset deliver the rest of the padded value, in order and without gaps, and leave the corrected cursor at the fill length. |
| WideReader.Latin1DrainDelivers | driver/utility.c:424-466 | From the first call on, successive calls deliver exactly the padded value, and then every call with a buffer is "no data". |
| WideReader.WriteWide | driver/utility.c:450-463 | The unit loop turns the UTF-8 buffer into the wide forms of its characters, in order. |
| WideReader.UnitsStart | driver/utility.c:450-452 | Before the unit loop nothing is written and all of the UTF-8 text is left. |
| WideReader.UnitsDone | driver/utility.c:450-463 | When the unit loop has read the whole UTF-8 text, it has written the wide form of all of its characters. |
| WideReader.PadSpaces | driver/utility.c:465-466 | Spaces fill the buffer up to `length` units. |
| WideReader.ServeUnits | driver/utility.c:437-466 | Conversion into UTF-8, the unit loop and the padding leave `WWritten` at the front of the buffer. |
| WideReader.ConvertChunk | driver/utility.c:439-445 | `copy_and_convert` of the slice into a UTF-8 buffer of four bytes per source byte. |
| WideReader.CopyWcharResult | driver/utility.c:385-484 | `copy_wchar_result` writes the buffer in place and returns the status, `*used_len` and the corrected cursor. |
| TypeMapper.DecimalDisplay | driver/utility.c:585-592 | For DECIMAL: display size = max(length, max_length) - 1 if signed - 1 if there are decimals, as an `unsigned long`. Precision equals display size. |
| TypeMapper.SignedDecimalTenTwo | driver/utility.c:585-592 | A signed DECIMAL(10, 2), reported with length 12, has display size and precision 10. |
| TypeMapper.TemporalRule | driver/utility.c:690-721 | Timestamps, dates and times get the ODBC 3 or ODBC 2 type codes by ODBC version, with sizes 16/19, 6/10 and 6/8. |
| TypeMapper.BigintRule | driver/utility.c:645-659 | BIGINT is `SQL_BIGINT` with precision 19 (signed) or 20 (unsigned). With `FLAG_NO_BIGINT` it is `SQL_INTEGER`. |
| TypeMapper.Digits64 | driver/utility.c:655-659 | 2^63 - 1 has 19 digits and 2^64 - 1 has 20. |
| TypeMapper.FixedSizeTransfer | driver/utility.c:577-688 | For fixed-size numeric and temporal types, the transfer length is what `bind_length` gives their fetch type, and it is positive. |
| TypeMapper.CharSizing | driver/utility.c:723-811 | Character and blob columns report the declared bytes over `mbmaxlen`, with fallbacks 255, 65535, 2^24 - 1 and INT_MAX32 when the declared length is 0. |
| TypeMapper.UnknownType | driver/utility.c:826-828 | For a MySQL type without a case, all three lengths stay at max(length, max_length). |
| TypeMapper.UnsignedInName | driver/utility.c:594-678 | An integer or floating-point type name ends in " unsigned" exactly for an unsigned column. |
| TypeMapper.DefaultMatchesFetchType | driver/utility.c:837-920 | The default C type of the reported SQL type equals the fetch type exactly when the column is not a BIGINT (fetched as text), a GEOMETRY, a non-numeric TINYINT, a binary STRING or a non-binary blob. |
| TypeMapper.FetchTypeSize | driver/utility.c:928-964 | `bind_length` gives a fixed positive size to every fetch type except character and binary data, which take the caller's length. |
| TypeMapper.DefaultTypeSize | driver/utility.c:880-964 | The size `bind_length` gives a default C type other than character or binary data does not depend on the length passed. |
| TypeMapper.ULongSub | driver/utility.c:588-590 | `unsigned long` subtraction wraps modulo 2^64 and is exact when it does not go below 0. |
| TypeMapper.UniregToSqlDatatype | driver/utility.c:556-829 | The type is 0 exactly for a MySQL type without a case, and exactly then no type name is written. Precision equals display size for every type but BIGINT. |
| TypeMapper.UniregToCDatatype | driver/utility.c:837-872 | The fetch type is never `SQL_C_DEFAULT` and is one of eleven C types. It is binary exactly for the blob types. BIGINT is fetched as text. |
| TypeMapper.DefaultCType | driver/utility.c:880-920 | The default C type is never `SQL_C_DEFAULT`. It is character data, binary data or a type with a fixed size of 1 to 16 bytes. |
| TypeMapper.BindLength | driver/utility.c:928-964 | A C type with a size of its own takes 1 to 16 bytes. Any other type takes the length the caller gives. |
| ResultBinder.FetchTypes | driver/utility.c:97-105 | One fetch type per column, in column order. |
| ResultBinder.Grown | driver/utility.c:112-124 | Bindings are widened with zero-filled slots to the column count, never shrunk. |
| ResultBinder.DefaultingRule | driver/utility.c:110-134 | Every column has a slot and none is left at `SQL_C_DEFAULT`. A defaulted slot gets its column's fetch type, any other choice stands, and each slot links to its column. |
| ResultBinder.DefaultingIdempotent | driver/utility.c:129-134 | Fixing the types a second time for the same result changes nothing. |
| ResultBinder.Statement.FixResultTypes | driver/utility.c:89-137 | Marks the statement executed, records the fetch types, and widens and defaults the bindings when there are any. The binding count stays the slot count. |
| DateParse.CollectDigits | driver/utility.c:980-984 | The digits of the C string, up to the buffer's capacity, land at its front and the rest is untouched. |
| DateParse.WidenInPlace | driver/utility.c:988-1003 | Six or twelve digits are moved up by two and the century is put in front. |
| DateParse.TsDigits | driver/utility.c:980-1008 | The buffer before the fields are read: the digits, widened, padded with '0' to 14, and terminated. |
| DateParse.StrToTs | driver/utility.c:971-1031 | `str_to_ts` returns 1 or fills the timestamp exactly as `TsFromText` says. |
| DateParse.TwoDigitYearWindow | driver/utility.c:988-1000 | A 6- or 12-digit text gets year 2000 + YY when the first digit is at most '6', and 1900 + YY otherwise. |
| DateParse.MissingDigitsZero | driver/utility.c:1005-1030 | Missing digits read as '0': with at most 8 digits the time is midnight. The fraction is 0. |
| DateParse.TsBufferDigits | driver/utility.c:1005-1008 | The 14-byte field buffer holds digits only. |
| DateParse.ZeroDateRule | driver/utility.c:1012-1026 | It fails exactly on a "00" month or day without `zeroToMin`; with it, that field becomes 01. Month and day are 1..99 and the year has four digits. |
| DateParse.TsRoundTrip | driver/utility.c:971-1031 | "YYYY-MM-DD hh:mm:ss" with a nonzero month and day reads back as the timestamp it was written from. |
| DateParse.StrToTimeSt | driver/utility.c:1039-1057 | `str_to_time_st` reads hours, minutes and seconds in pairs from the digit buffer, which starts out as its stale content. |
| DateParse.TimeIgnoresStale | driver/utility.c:1047-1055 | With six digits or more, the time is the first six in pairs and the stale buffer plays no part. |
| DateParse.TimeRoundTrip | driver/utility.c:1039-1057 | "hh:mm:ss" reads back as its time. |
| DateParse.SkipLoop | driver/utility.c:1092-1093 | The skip loop stops at the first digit or the end. |
| DateParse.ReadField | driver/utility.c:1085-1090 | A field is its first digit plus further digits while the width allows, accumulated in a `uint`. |
| DateParse.U32Append | driver/utility.c:1085-1090 | Two digit runs of nine digits or fewer in all read as the first shifted left by the second, with no wrap-around. |
| DateParse.FieldsBounded | driver/utility.c:1083-1095 | Each field is below 10 to its width. |
| DateParse.ScanFields | driver/utility.c:1083-1095 | The field loop stores the fields of `Fields` in `date` and leaves the remaining slots as they were. |
| DateParse.CheckDate | driver/utility.c:1096-1113 | The final checks return 1 or the date exactly as `DateFromFields` says. |
| DateParse.StrToDate | driver/utility.c:1066-1115 | `str_to_date` computes `DateFromText`: the year width comes from the first digit run, then up to three fields. |
| DateParse.DateRoundTrip | driver/utility.c:1066-1115 | "YYYY-MM-DD" with a nonzero month and day reads back as its date, with or without `zeroToMin`. |
| DateParse.CompactDateRoundTrip | driver/utility.c:1078-1080 | "YYYYMMDD" is one run of 8 digits: a four-digit year, then two digits each for month and day. |
| DateParse.TwoDigitYearKept | driver/utility.c:1078-1081 | "YY-MM-DD" keeps the year as written; no century is added. |
| DateParse.DateRanges | driver/utility.c:1096-1113 | With `zeroToMin` every text gives a date. A date given has month and day in 1..99, and without `zeroToMin` a year in 0..9999. |
| DateParse.StrToTimeAsLong | driver/utility.c:1126-1161 | `str_to_time_as_long` returns `TimeAsLong`, recursing on the text left over. |
| DateParse.DigitRunTimeAsLong | driver/utility.c:1136-1158 | A text of digits only reads as one field, wrapping modulo 2^32 beyond nine digits. |
| DateParse.TimeAsLongOfText | driver/utility.c:1136-1160 | "hh:mm:ss" reads as hhmmss. |
| DateParse.CompactTimeAsLong | driver/utility.c:1157-1158 | "hhmmss" is one field, which is already hhmmss. |
| DateParse.TimestampSkipsDate | driver/utility.c:1154-1155 | A "YYYY-MM-DD" prefix and a separator before more digits read as what follows. |
| DateParse.TimestampTimeAsLong | driver/utility.c:1154-1155 | "YYYY-MM-DD hh:mm:ss" reads as the value of its time part. |
| StringUtil.Escaped | driver/utility.c:1446-1494 | The escaped text is at least as long as the input and at most twice as long. |
| StringUtil.EscapedAppend | driver/utility.c:1416-1494 | Escaping works byte by byte: a concatenation escapes part by part. |
| StringUtil.EscapeRoundTrip | driver/utility.c:1446-1494 | Reading the escaped text back, a backslash and its code standing for one byte, gives the input. |
| StringUtil.EscapedHasNoSpecial | driver/utility.c:1446-1494 | The escaped text holds no NUL. Every wildcard or quote in it follows a backslash. |
| StringUtil.Consumed | driver/utility.c:1475-1494 | The bytes escaped before overflow: the longest prefix whose escaped text fits below `to_end`. |
| StringUtil.ConsumedAt | driver/utility.c:1475-1494 | A prefix that fits, where one more byte would not, is the one `Consumed` names. |
| StringUtil.BigEnoughFits | driver/utility.c:1413-1413 | With `to_length` 0, the end at `2 * length` never overflows. |
| StringUtil.EscapedFit | driver/utility.c:1475-1495 | What is written before the terminator fits below the end. |
| StringUtil.Emit | driver/utility.c:1481-1490 | One byte or one escape pair is written at `to`, and nothing else changes. |
| StringUtil.EscapeWildcard | driver/utility.c:1408-1497 | The escapes of the bytes that fit, then a NUL at or before `to_end`, and nothing beyond changed. Returns `~0` exactly on overflow, else the length written. |
| StringUtil.EscapeResult | driver/utility.c:1496-1496 | All of the input is consumed exactly when its escaped text fits. The length returned is below `~0` for any input shorter than 2^63 - 1 bytes. |
| StringUtil.Mismatch | driver/utility.c:1319-1322 | The first position among the first `len` where the texts differ ignoring case, or `len`. |
| StringUtil.Int32 | driver/utility.c:1322-1322 | A `uint` cast to `int` is the same value, or that value minus 2^32. |
| StringUtil.CaseCmp | driver/utility.c:1299-1324 | Returns 0 exactly when the first `len` bytes agree ignoring case. Otherwise it is `(int)` of the count left after the first difference, plus 1, so it is positive for `len` below 2^31. |
| StringUtil.Diverge | driver/utility.c:1285-1289 | The first position where two C strings differ ignoring case, or where the first one ends. |
| StringUtil.StrCaseCmp | driver/utility.c:1265-1291 | Returns the difference of the upper-cased bytes at `Diverge`: 0 at the end of equal strings. |
| StringUtil.UpperCase | driver/utility.c:1285-1289 | A C string upper-cased in the "C" locale, terminator excluded. |
| StringUtil.CaseDiffZeroIff | driver/utility.c:1285-1289 | The comparison gives 0 exactly when the two strings are equal ignoring case. |
| StringUtil.DivergeSymmetric | driver/utility.c:1285-1289 | Where the strings diverge does not depend on the order of the arguments. |
| StringUtil.CaseDiffAntisymmetric | driver/utility.c:1285-1289 | Swapping the arguments negates the result. |
| StringUtil.DynamicString.AppendQuotedName | driver/utility.c:1209-1222 | When reallocation fails it returns 1 and changes nothing. Otherwise the text gains a backtick, the name up to its NUL and a backtick, and the buffer keeps room for the terminator. |
| StringUtil.Quoted | driver/utility.c:1215-1219 | The quoted name is its `strlen` bytes plus two backticks. |
| StringUtil.QuotedReadsBack | driver/utility.c:1215-1219 | A reader gets the name back from its quoted form exactly when it holds no backtick. |
| StringUtil.Head | driver/utility.c:1390-1390 | `strncmp` looks at no more than `length` bytes and stops at the NUL. |
| StringUtil.AtLeastOrder | driver/utility.c:1390-1390 | `strncmp(a, b, n) >= 0` is reflexive, total and antisymmetric on the bytes compared. |
| StringUtil.AtLeastLex | driver/utility.c:1390-1390 | `strncmp(a, b, n) >= 0` is dictionary order: `b` is a prefix of `a`, or `a` has the larger byte at the first difference. |
| StringUtil.IsMinimumVersion | driver/utility.c:1387-1393 | True exactly when, within `length` bytes and up to the NUL, `version` is a prefix of the server's version or the server's is larger at the first differing byte. |
| StringUtil.MinimumVersionOrder | driver/utility.c:1387-1393 | A server version is at least itself. Of two versions one is at least the other. Both hold only when they agree on the bytes compared. |
| StringUtil.TextualNotNumeric | driver/utility.c:1387-1393 | The test compares text: server "10.0" is not at least "4.1". |

## Left out

- Logging (`MYODBCDbg*`), `set_handle_error` and the diagnostic records: only the status code they lead to is modelled.
- `odbc_stmt`, `mysql_link_fields`, `check_if_server_is_alive`, `reget_current_catalog` and the query log functions: these are locking, server round trips, clocks and file I/O, outside the data-marshalling core.
- `fix_str` and `dupp_str`: these are allocation and pointer aliasing, not behaviour.
- Multi-byte character sets (`USE_MB`): `USE_MB` is not defined (driver/utility.c:32-34). The case comparisons are modelled on their single-byte branches only. `myodbc_escape_wildcard` is modelled with `use_mb_flag` false, as for single-byte character sets. Its `use_mb(charset_info)` test (driver/utility.c:1415) and the `my_ismbchar`/`my_mbcharlen` callbacks are not part of this model.
- The character-set callbacks `mb_wc` and `wc_mb` are abstract function values constrained to move forward within their input and room. Two decoders are given concretely: utf8, following RFC 3629, and ISO-8859-1.
- `utf8toutf32` and `utf32toutf16` are taken as RFC 3629 decoding and section 2.1 of RFC 2781 encoding. The server's character-set tables and `mbmaxlen` values are parameters.
- Charset.Latin1MbWc: the server's latin1 is ISO-8859-1 except in 0x80..0x9F, where it follows Windows-1252 (0x80 is U+20AC, three bytes in UTF-8). The latin1 lemmas (`Latin1Chars`, `Latin1Decodes`, `ConvertLatin1`, `Latin1Units`, `Latin1Chunk`, `Latin1Call`, the wide drain lemmas and the examples) hold for ISO-8859-1 only.
- WideReader.Latin1DrainDelivers: the multi-call property of `copy_wchar_result` is proved for ISO-8859-1 sources only. For utf8 and the other multi-byte sets, `Utf8Units` and `Utf8Cursors` state each call, not a whole drain.
- WideReader.WContents: for 2-byte units it assumes `Compact`: a decoder reads a supplementary character only from two bytes or more, as every character set of the server does.
- WideReader.CopyWcharResult: requires `Compact` for 2-byte units, for the same reason.
- NarrowReader.CopyStrData: `*pcbValue` is a `SQLSMALLINT`, so the string is required to fit in one.
- Negative buffer lengths in `copy_lresult` and `copy_wchar_result` (other than the checked zero) and negative source lengths other than `SQL_NTS` are excluded by the types. A null source pointer is not modelled.
- The `errors` count of `copy_and_convert` is computed by the model, but `copy_wchar_result` does not use it.
- fix_result_types: a failed `my_malloc` or `my_realloc` is not modelled. The model allocates the type array and grows the bindings every time.
- `binary_field` and `num_field` are modelled as flags of a column; the server's metadata is a parameter.
- FLOAT and DOUBLE appear only as type codes and sizes. No floating-point arithmetic is modelled.
- The uninitialised buffers of `str_to_ts`, `str_to_time_st`, `str_to_date` and `str_to_time_as_long` are explicit `stale` parameters. The model says which results depend on them.
- DateParse.StrToDate: the skip loop of `str_to_date` reads `*str` before testing for the end, reading one byte past the text. The model tests the end first.
- StringUtil.DynamicString.AppendQuotedName: `dynstr_realloc` is a `reallocFails` flag. A successful growth is the smallest one that fits; the rounding up to the string's allocation increment is not modelled.
- StringUtil.CaseCmp: `len` is required to be below 2^32, as a `uint`. `toupper` is the "C" locale's, and bytes above 127 compare as themselves.
- StringUtil.EscapeWildcard: `2 * length` and `ulong` are taken as unbounded and 64 bits. A 32-bit `ulong` or an overflowing `2 * length` is not modelled.
- StringUtil.Quoted: a backtick inside the name is copied as it is, like the driver does. `QuotedReadsBack` states the consequence.

## Findings

| source | as written | input that shows it | evidently intended | confidence | as-written member | corrected member |
|---|---|---|---|---|---|---|
| driver/utility.c:537-538 | `copy_binary_result` returns success when `cbValueMax > length * 2`. `length` is at most `(cbValueMax - 1) / 2`, so this holds for every non-empty buffer and truncation is never reported. | 0xAB 0xCD, buffer of 3 bytes: writes "AB" and returns `SQL_SUCCESS`. | Success only when all remaining bytes were rendered; otherwise `SQL_SUCCESS_WITH_INFO` with 01004. | high, not executed | HexReader.AsWrittenHidesTruncation | HexReader.StatusMeansComplete |
| driver/utility.c:444-448 | `copy_wchar_result` advances `*offset` by the number of UTF-8 bytes `copy_and_convert` produced, not by the source bytes it consumed. | latin1 "éa" (0xE9 0x61), buffers of 2 units: the first call writes "é" and moves the offset to 2, the fill length. The second call returns `SQL_NO_DATA_FOUND`, and "a" is never delivered. | Advance by the source bytes consumed, so the next call resumes at the first unconverted byte. | high, not executed | WideReader.AsWrittenOffsetOvershoots | WideReader.Latin1DrainDelivers |
| driver/utility.c:446-447 | With `FLAG_PAD_SPACE` and a display length above the source length, once `*offset` reaches the source length `copy_len` is 0. `copy_and_convert` returns 0 bytes, so `*offset` stays. `fill_len - *offset` stays positive, and the "no data" test at line 426 never fires. | "hello", display length 10, `FLAG_PAD_SPACE`, a second call with 20 units at offset 5: five spaces, `SQL_SUCCESS`, offset still 5. Every later call does the same. | Move the offset past the spaces served, as `copy_lresult` does (lines 273-274), so the value ends with `SQL_NO_DATA_FOUND`. | high, not executed | WideReader.AsWrittenDrainStalls | WideReader.Latin1DrainDelivers |
| driver/utility.c:207-212 | `copy_str_data` with `cbValueMax = 0` calls `strmake(rgbValue, src, 0)`, which stores a terminator in a buffer declared to hold no bytes. | `cbValueMax = 0`, any `src`: one byte is written at `rgbValue[0]`. | A zero-length buffer receives nothing. | medium, not executed | NarrowReader.AsWrittenOverrunsEmptyBuffer | NarrowReader.TruncationWarning |
