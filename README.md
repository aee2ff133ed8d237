# pwni.py: escape decoding, the ASCII-only filter and quoted-argument merging

pwni.py is a small command-line helper for sending raw bytes to a program. It reads lines,
decodes escape sequences such as `\x41`, `\n`, `\0` and `\0x<hex run>` into bytes, and
writes the result out. With `-a`, non-printable output bytes are shown as `[0x..]`. In tty
mode it can start a process from a command line in which quoted words are kept together.

This project models those three sequential pieces and proves properties about them:

- `parse` (module `Escape`). `NextToken` is one iteration of the scan loop at the head of
  the remaining input. `Decode` is the whole scan as a function; its result is either the
  decoded bytes or the IndexError that a trailing `\0` raises. The method `Parse` is the
  loop itself, with its cursor and output buffer, and is proved to compute `Decode`.
  `ScanEscape` is the `match` on the byte after a backslash, and `CountAlnumRun` is the
  inner loop that counts the alphanumeric run after `\0x`. The per-escape behaviour is
  proved in `EscapeProperties`, and concrete inputs are worked out in `EscapeExamples`.
  Python's `int(_, 16)` is modelled in `Bytes`, and `int.to_bytes` in `Endian`.
- `ascii_only` (module `AsciiOnly`). The method `Filter` is the source's loop of
  `bytes.replace` calls on a working copy. It is proved equal to `AsciiFilter`, the per-byte
  rewriting, and that rewriting is proved idempotent.
- The quote merge in `tty_mode` (modules `QuoteMerge` and `QuoteMergeProperties`). The method
  `MergeQuoted` is the source's `while` loop over the split command line, with the
  reassigned list. It is proved to compute `Regroup`, a recursive function over the token list.

Bytes are the subset type `byte` (0..255). Text is `seq<char>`. The byte order for `\0x`
values (the global `BYTEORDER`, pwni.py:6) is a parameter. So is the set of bytes from 0x80
up that Python's `str.isalnum` accepts.

Three behaviours of the code are easy to overlook, and the model keeps all three:

- `\0x41` yields one byte, since `(2 + 1) // 2 == 1`.
- A backslash before an unknown character is emitted alone, and the next byte is scanned again.
- `parse` raises IndexError on an input that ends in `\0`, because `input[i+2]` is read
  before the bounds test.

## Model

| member | source | states |
|---|---|---|
| Escape.Parse | pwni.py:37-98 | the scan loop returns exactly `Decode` of its input, including the IndexError case |
| Escape.ScanEscape | pwni.py:46-92 | the escape `match` raises exactly when one scan step reads past the end; otherwise it emits that step's bytes and skips its length minus one |
| Escape.IsAlnum | pwni.py:75 | below 0x80, `isalnum` holds exactly for ASCII letters and digits, so it holds for every hexadecimal digit |
| Escape.CountAlnumRun | pwni.py:74-76 | the inner loop counts the longest alphanumeric prefix after `\0x` |
| Escape.AlnumRun | pwni.py:74-76 | the run is within the input, all of it is alphanumeric, and the byte after it is not |
| Escape.NextToken | pwni.py:44-96 | each iteration moves the cursor forward without passing the end and emits no more bytes than it consumes; it raises exactly on the two bytes `\0` at the end |
| Escape.Decode | pwni.py:37-98 | the output is never longer than the input |
| Escape.RunBytes | pwni.py:78 | a run of `a` digits is serialised into exactly `(a + 1) // 2` bytes |
| Escape.RunBytesReadBack | pwni.py:78 | the emitted bytes, read back in the configured order, are the run's value, so `to_bytes` never overflows or truncates |
| EscapeProperties.DecodeWithoutBackslash | pwni.py:93-96 | input without a backslash is returned unchanged |
| EscapeProperties.DecodeRaisesIffTrailingNul | pwni.py:72-73 | parse raises IndexError if and only if the input ends with the two bytes `\0`, whatever precedes them: every earlier step stops short of that final backslash |
| EscapeProperties.TokenStopsBeforeTrailingNul | pwni.py:72-81 | no successful scan step consumes into a trailing `\0`, because a backslash ends every alphanumeric run |
| EscapeProperties.DecodePlainByte | pwni.py:93-96 | a byte that starts no escape is copied and the scan continues after it |
| EscapeProperties.DecodeHexEscape | pwni.py:49-62 | `\x` followed by a text `int` reads as a non-negative value emits that byte and consumes four bytes; otherwise only the backslash is emitted and the scan resumes at the `x` |
| EscapeProperties.DecodeHexByte | pwni.py:49-55 | `\x` followed by two hexadecimal digits is the byte they denote |
| EscapeProperties.DecodeLineEscape | pwni.py:64-70 | `\n` and `\r` emit LF and CR and consume two bytes |
| EscapeProperties.DecodeNulEscape | pwni.py:72-89 | `\0` not followed by `x` and at least one more byte emits NUL and consumes two bytes |
| EscapeProperties.AlnumRunOfDigits | pwni.py:74-76 | a run of alphanumeric bytes followed by a non-alphanumeric byte or the end is counted in full |
| EscapeProperties.DecodeHexRun | pwni.py:72-81 | `\0x` and a hexadecimal run emit the run's value as `(a + 1) // 2` bytes in the configured order and consume `3 + a` bytes |
| EscapeProperties.DecodePrefixedHexRun | pwni.py:72-81 | a `0x` or `0X` prefix inside the run is accepted by `int`, and the two prefix characters still count towards the length of the result |
| EscapeProperties.DecodeBadHexRun | pwni.py:72-86 | an empty or non-hexadecimal run emits only the backslash, and the scan resumes at the `0` |
| EscapeProperties.DecodeOtherEscape | pwni.py:91-96 | a backslash before any other byte is emitted alone, and the next byte is scanned again |
| EscapeExamples.HexByteExample | pwni.py:49-55 | `\x41` is the byte 0x41 |
| EscapeExamples.DoubledBackslashExample | pwni.py:46-96 | `\\x41` is a backslash followed by 0x41 |
| EscapeExamples.HexDigitThenSpaceExample | pwni.py:49-55 | `\x4` followed by a line feed is the byte 4; the line feed is consumed |
| EscapeExamples.NegativeHexExample | pwni.py:49-62 | `\x-1` is kept as it is |
| EscapeExamples.UnknownEscapeExample | pwni.py:91-92 | `\q` is kept as it is |
| EscapeExamples.TrailingNulExample | pwni.py:72-73 | an input ending in `\0` raises IndexError |
| EscapeExamples.ShortNulExample | pwni.py:73-89 | `\0x` at the end of the input is NUL followed by `x` |
| EscapeExamples.HexRunTwoDigitsExample | pwni.py:72-81 | `\0x41` is the single byte 0x41 in either byte order |
| EscapeExamples.HexRunThreeDigitsExample | pwni.py:72-81 | `\0x041` is `00 41` big-endian and `41 00` little-endian |
| EscapeExamples.BadHexRunExample | pwni.py:72-86 | `\0xZZ` is kept as it is |
| Bytes.IntHexPair | pwni.py:52 | `int` of a two-byte text accepts at least one hexadecimal digit, yields a value in -15..255, and is negative only after a minus sign |
| Bytes.IntHexRun | pwni.py:78 | `int` of an alphanumeric run accepts only a non-empty run, and its value fits in as many hexadecimal digits as the run has bytes |
| Bytes.HexDigitsRoundTrip | pwni.py:18 | the digits `hex()` writes read back as the number |
| Bytes.HexDigitsOfByte | pwni.py:18 | `hex()` of a byte has one digit below 16 and two otherwise |
| Endian.ToBytes | pwni.py:78 | `to_bytes(n, order)` of a value that fits yields exactly `n` bytes |
| Endian.ToBytesRoundTrip | pwni.py:78 | `to_bytes` followed by `from_bytes` in the same byte order gives the value back |
| Endian.LittleIsReversedBig | pwni.py:78 | the little-endian bytes are the big-endian bytes reversed |
| Endian.HexDigitsFit | pwni.py:78 | `a` hexadecimal digits always fit in `(a + 1) // 2` bytes |
| AsciiOnly.Filter | pwni.py:15-19 | the loop of `replace` calls over the original bytes computes the per-byte rewriting `AsciiFilter` |
| AsciiOnly.AsciiFilter | pwni.py:15-19 | the filtered output is all printable and never shorter than the input |
| AsciiOnly.Marker | pwni.py:18 | the marker is five or six printable bytes (five below 16) that start with `[` and end with `]` |
| AsciiOnly.PyHex | pwni.py:18 | `hex(n)` starts with `0x`, and its digits read back as `n` |
| AsciiOnly.ReplaceByte | pwni.py:18 | `replace` changes nothing when the byte is absent, and leaves none of it when the replacement does not contain it |
| AsciiOnly.ReplaceStep | pwni.py:16-18 | one iteration's `replace` masks every occurrence of the current non-printable byte and nothing else |
| AsciiOnly.ReplaceLeavesPrintable | pwni.py:18 | inserted markers are printable, so later replacements never touch them |
| AsciiOnly.AsciiFilterAppend | pwni.py:15-19 | the filter works byte by byte and keeps the order |
| AsciiOnly.AsciiFilterIdentity | pwni.py:15-19 | the filter changes nothing if and only if every byte is in 32..127 |
| AsciiOnly.AsciiFilterIdempotent | pwni.py:15-19 | applying the filter twice is applying it once |
| AsciiOnly.MarkerReadsBack | pwni.py:17-18 | a non-printable byte becomes its marker, whose digits read back as the byte |
| AsciiOnly.MarkerExamples | pwni.py:17-18 | 0, 10 and 255 become `[0x0]`, `[0xa]` and `[0xff]`; 127 is kept |
| AsciiOnly.MarkerIsAmbiguous | pwni.py:15-19 | a NUL byte and the text `[0x0]` give the same output |
| QuoteMerge.MergeQuoted | pwni.py:112-127 | the merge loop computes `Regroup` of the split command line |
| QuoteMerge.MergeAt | pwni.py:115-126 | one `startswith` block replaces the token at the cursor with the merged group and drops the absorbed tokens; everything before the cursor is unchanged |
| QuoteMerge.Closer | pwni.py:116-123 | the `for j` search returns a position within the later tokens, and the token there ends with the quote |
| QuoteMerge.CloserIsFirst | pwni.py:116-117 | the closer found is the first later token that ends with the quote, and there is none exactly when no later token ends with it |
| QuoteMerge.Absorb | pwni.py:115-126 | a token that does not open the quote, or finds no closer, is left as it is; a merged token contains no `q` (it may still hold the other kind of quote) and the list gets shorter |
| QuoteMerge.AbsorbLeavesSuffix | pwni.py:119-125 | the tokens left after a merge are the last tokens of the list, unchanged |
| QuoteMerge.Join | pwni.py:118-124 | `' '.join` of no tokens is empty, and of one token is that token |
| QuoteMergeProperties.JoinAppend | pwni.py:118-124 | joining two non-empty lists one after the other puts a single space between their joins |
| QuoteMerge.RemoveChar | pwni.py:118-124 | `replace(q, '')` leaves no `q` and changes nothing when there is none |
| QuoteMerge.Regroup | pwni.py:112-127 | the merge never lengthens the list, and the list is empty exactly when the input is |
| QuoteMergeProperties.RegroupKeepsText | pwni.py:112-127 | apart from quote characters, the merged command line spells the same text, with words separated by single spaces |
| QuoteMergeProperties.AbsorbKeepsText | pwni.py:115-126 | one merge only removes quote characters from the joined text |
| QuoteMergeProperties.MergeKeepsText | pwni.py:118-124 | merging a token with the tokens after it and removing one kind of quote changes the joined text only by quote characters |
| QuoteMergeProperties.RegroupKeepsPlainPrefix | pwni.py:112-127 | tokens before the first token that opens a quote are passed on unchanged, and do not affect the merge of what follows |
| QuoteMergeProperties.RegroupPlainHead | pwni.py:114-127 | a token that opens no quote is passed on, and the merge continues with the next token |
| QuoteMergeProperties.RegroupQuotedGroup | pwni.py:114-127 | a double-quoted group that closes, and whose merged token does not start with `'`, becomes one token without double quotes, and the merge continues after its closer |
| QuoteMergeProperties.RegroupSingleQuotedGroup | pwni.py:121-127 | a single-quoted group that closes at the `j`-th later token absorbs exactly the tokens up to that closer, becomes one token without single quotes, and the merge continues after it |
| QuoteMergeProperties.QuotedGroupThenPlain | pwni.py:114-127 | when the merged token of a closed double-quoted group does not start with `'`, plain tokens after the closer come out unchanged |
| QuoteMergeProperties.RegroupWithoutQuotes | pwni.py:112-127 | tokens that open no quote are all kept unchanged |
| QuoteMergeProperties.UnquotePair | pwni.py:118-124 | joining `"w1` and `w2"` and removing the quotes gives `w1 w2` |
| QuoteMergeProperties.QuotedPairExample | pwni.py:112-127 | `opt "w1 w2"` becomes the two arguments `opt` and `w1 w2` |
| QuoteMergeProperties.LoneQuotedTokenKept | pwni.py:115-126 | a single self-closed token such as `"a"` keeps its quotes |
| QuoteMergeProperties.UnclosedQuoteKept | pwni.py:115-126 | a token that opens a double or single quote that no later token closes is left as it is, and the merge continues with the next token, whatever follows |
| QuoteMergeProperties.DoubleThenSingleExample | pwni.py:114-127 | `"'a`, `b"`, `c'` becomes the one argument `a b c`: the double-quote merge yields `'a b`, which the single-quote merge then extends to the closer `c'` |
| QuoteMergeProperties.DoubleStep | pwni.py:115-120 | the double-quote merge of `"'w1`, `w2"`, `w3'` makes `'w1 w2` and leaves `w3'` |
| QuoteMergeProperties.SingleStep | pwni.py:121-126 | the single-quote merge of `'w1 w2` and `w3'` makes `w1 w2 w3` and leaves nothing |

## Left out

- `write_stdout` and `write_file` (pwni.py:21-35) write to standard output or a file and flush. Only the `ascii_only` transform they apply is modelled.
- The tty-mode prompt session, starting the process, and the thread that relays its output (pwni.py:100-111, 129-177) are interactive I/O, a foreign library and concurrency. Only the quote merge from that function is modelled, and the whitespace split of the command line (`PROCESS.split()`) is its input.
- `set_arguments` (pwni.py:179-229) is command-line plumbing that sets globals, opens the output file and prints help. The byte order it sets is a parameter of the decoder.
- The batch loop over standard input (pwni.py:240-245) is I/O. It calls `parse` once per line, so no escape spans two lines. A line can end in `\0`, which is the IndexError case proved above, in two ways: with `-n`, when `rstrip()` removes the line's trailing whitespace; and, in either mode, on a last line that has no newline.
- The `VERBOSE` diagnostics (pwni.py:58-60, 84-86) only print, so they do not change the output.
- Escape.IsAlnum: Unicode's `isalnum` for bytes 0x80 to 0xFF is the configuration set `highAlnum`, not CPython's table.
- Bytes.IntHexPair, Bytes.IntHexRun: Python's `int(_, 16)` is modelled only for the texts `parse` can give it: two bytes, or a run of alphanumeric bytes, which can hold no sign, space or underscore.
- Escape.Parse: the output `bytearray` that the source appends to in place is a sequence variable that the loop reassigns. The ValueError that `append` raises for a negative value is folded into the same fallback as a failed parse, which is what the source's `except` does.
- QuoteMerge.MergeQuoted: the list is a sequence value rebuilt by slicing, as in the source. No other reference to the list exists in the source, so aliasing does not arise.
