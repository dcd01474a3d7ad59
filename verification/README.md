# Hash packer of android-whitelists, modelled in Dafny

`create.py` turns a text file of hexadecimal hashes into a binary file. It works in three steps:

1. Each input line is stripped of surrounding whitespace. Lines that are blank after stripping are skipped.
2. Every remaining line is decoded from hex, two digits per byte, as Python 2's `"hex"` codec (`binascii.a2b_hex`) does.
3. The output is an 8-byte header followed by the records, back to back:
   - the header is `struct.pack(">II", hashlen, count)`, two unsigned 32-bit big-endian integers;
   - `hashlen` is half the length of the first non-blank line;
   - `count` is the number of records.

This project models that conversion. It is a function from the file's lines (`seq<string>`) to either an error or the output bytes (`seq<byte>`). It then proves what the conversion promises: the byte layout, the lengths, the order of records, the decode failures and the hex round trip.

Modules, in dependency order:

- `results.dfy`: `Option` and `Result`.
- `bytes.dfy`: the `byte` type and the unsigned 32-bit big-endian encoding of the header fields.
- `whitespace.dfy`: `Strip`, with the whitespace set fixed to the six characters Python 2's `str.strip()` removes in the C locale: space, tab, line feed, vertical tab, form feed and carriage return.
- `hex.dfy`: the hex decoder, and the lower-case encoder that is its inverse in the round-trip lemmas.
- `create.dfy`: the conversion, stated two ways. The first is the staged pipeline `Pack` (kept lines, record length, decoding, packing). The second is the method `PackLines`, which follows the script's single loop as written, including its `if hashlen == 0` test. `PackLines` is proved to compute `Pack`.
- `format.dfy`: the output format. `Unpack` is a reader of the format: it parses the header and cuts the body into records. It is used to state the header layout, the output length and the round trip.
- `scenarios.dfy`: concrete inputs with the exact output they give.

The header announces a single record length for the whole file, but `create.py` never checks the length of any line against it. The model follows the code: later records are packed whatever their length (`Scenarios.MixedLengthScenario`). The round trip through `Unpack` is stated for inputs whose kept lines share one length.

## Model

| member | source | states |
|---|---|---|
| Whitespace.Strip | create.py:14 | The stripped line has no whitespace at either end. It is empty exactly when the line is all whitespace. |
| Whitespace.StripSlice | create.py:14 | The stripped line is a contiguous piece of the line, with only whitespace before and after it. |
| Whitespace.StripUnique | create.py:14 | Whitespace, then a trimmed core, then whitespace strips to exactly that core, so stripping removes no more and no less than the surrounding whitespace. |
| Whitespace.StripIdempotent | create.py:14 | Stripping an already stripped line changes nothing. |
| Hex.DigitValue | create.py:21 | A character has a digit value exactly when it is a hex digit of either letter case. The value is below 16. |
| Hex.DigitValueChar | create.py:21 | A digit's value is the nibble whose lower-case digit is that character, up to letter case, so 'A' and 'a' both mean 10. |
| Hex.DecodeHex | create.py:21 | Decoding fails with OddLength exactly when the line has odd length. It fails with NonHexDigit exactly when the length is even but some character is not a hex digit. Otherwise it yields len/2 bytes, byte i being 16 * digit(s[2i]) + digit(s[2i+1]). |
| Hex.DecodeEncodeHex | create.py:21 | Decoding the hex text written for any bytes gives those bytes back. |
| Hex.EncodeDecodeHex | create.py:21 | Re-encoding a decoded line as hex gives the line back, with letters in lower case. |
| Bytes.EncodeU32BE | create.py:25 | A header field is four bytes, most significant first, and reads back as the value written. |
| Bytes.EncodeDecodeU32 | create.py:25 | Every four bytes are the encoding of the value they read as, so the header fields are decoded without loss. |
| Create.Kept | create.py:13-16 | The kept lines are stripped, non-empty and trimmed, at most one per input line. There are none exactly when every line is blank. |
| Create.KeptBlankLine | create.py:15-16 | A line that is blank after stripping contributes no record, wherever it stands. |
| Create.KeptOtherLine | create.py:14-16 | Any other line contributes exactly its stripped text, between the lines before and after it. |
| Create.HashLen | create.py:11-20 | The announced record length is 0 exactly when no line is kept or the first kept line has a single character. |
| Create.HashLenFirstLine | create.py:19-20 | The record length is half the stripped length, rounded down, of the first line that is not blank, whatever follows it. |
| Create.DecodeAll | create.py:21 | All kept lines are decoded or none: success exactly when every line decodes, with one record per line, record k being line k's decoding. |
| Create.DecodeAllFirstFailure | create.py:13-21 | A decoding failure carries the error of the first line that does not decode. Every line before it decodes. |
| Create.PackRecords | create.py:25-27 | Packing fails exactly when the length or the count needs 32 bits or more. Otherwise the output is 8 bytes longer than the records. The first two 4-byte fields read back as the length and the count, and the records follow. |
| Create.Pack | create.py:12-27 | The conversion succeeds exactly when every kept line decodes and both header values fit in 32 bits. It fails with a decoding error exactly when some kept line does not decode. |
| Create.PackLines | create.py:10-27 | The script's loop, with `hashlen` set by the `hashlen == 0` test before each decoding, computes the same result as the staged conversion Pack. |
| Create.ScanStep | create.py:14-21 | One pass of the loop body. A blank line leaves the state unchanged. Any other line succeeds exactly when its stripped text decodes, and then appends that record. `hashlen` changes only while it is 0, and then becomes half the stripped length. A line that does not decode gives its decoding error. |
| Create.ScanLines | create.py:13-21 | The loop keeps at most one record per line read. |
| Create.ScanAllBlank | create.py:11-16 | Over lines that are all blank, the loop ends with no records and `hashlen` still 0. |
| Create.ScanMatchesPipeline | create.py:19-21 | After any prefix of the lines, the loop's state is the decoded kept lines and half the length of the first one. `hashlen == 0` holds exactly while no line has been kept. |
| Create.ScanFailurePersists | create.py:21 | Once a line fails to decode, the lines after it do not change the outcome. |
| Create.Flatten | create.py:26-27 | The written body is exactly as long as all records together. |
| Create.RecordAt | create.py:26-27 | Record k starts right after records 0 to k-1 and occupies exactly its own bytes: records are written in order, with no delimiters. |
| Format.UnpackPackRecords | create.py:25-27 | Records of the announced length, packed, read back as that length and those records. |
| Format.PackLayout | create.py:25-27 | Bytes 0-3 are the record length and bytes 4-7 the number of kept lines, both u32 big-endian. Then come the records, record k being kept line k decoded, of half its length. The output is 8 bytes plus the records' total length. |
| Format.PackUniformLength | create.py:25-27 | When every kept line has length L, the output is 8 + N * (L/2) bytes for N kept lines. The header reads back as (L/2, N), or (0, 0) when nothing is kept. |
| Format.PackAllBlank | create.py:10-25 | An input with no non-blank line packs to exactly eight zero bytes. |
| Format.PackRoundTrip | create.py:21-27 | When all kept lines have the same length, reading the output back gives the announced length and one record per kept line, in order. Each record re-encoded as hex is its line in lower case. |
| Scenarios.OrderScenario | create.py:26-27 | "aa", "bb", "cc" pack to header (1, 3) followed by AA BB CC: input order is kept. |
| Scenarios.BlankLineScenario | create.py:14-27 | "deadbeef", "", "cafebabe" pack to header (4, 2) followed by DE AD BE EF CA FE BA BE. |
| Scenarios.OddLineScenario | create.py:21 | A line of odd length after a good one ends the conversion with OddLength and no output. |
| Scenarios.MixedLengthScenario | create.py:19-27 | "aabb" then "cc" pack to header (2, 2) followed by three record bytes. Later lines are not checked against the first line's length, and the result does not read back as records. |
| Scenarios.WhitespaceScenario | create.py:14-27 | `" AA \n"` then `"\n"` pack to header (1, 1) followed by AA: surrounding spaces and terminators are stripped, the blank line is skipped and upper-case digits decode. |

## Left out

- Command-line handling (create.py:6-8): the argument check, the usage message and the exit are process plumbing.
- File input and output (create.py:12-13, create.py:24): the input is the sequence of lines and the output is the byte sequence. A line may still carry its terminator, which stripping removes. The output file is opened in text mode (`"w"`); the model takes every write to be byte-exact, as on POSIX systems, whereas on Windows each 0x0A byte of the header or records would be written as 0x0D 0x0A.
- The output path with its ".bin" suffix (create.py:23) and the closing summary message (create.py:29) are not modelled.
- Output left behind on failure: the script opens, and so truncates, the output file before packing the header. If packing fails, an empty file remains. The model only says that no output is produced.
- Python exception types: the codec's odd-length and non-hex-digit errors become `HexError`, and struct's range error becomes `HeaderOverflow`. Like the script, the model reports no line number.
- Bytes versus characters: Python 2 lines are byte strings, while the model's lines are `string`s. The model reads each byte of a line as the character with the same code, 0 to 255, so a line's length is its number of bytes. With that reading, the same lines fail with an odd length and the same lines fail with a non-hex digit as in the script. For example, the UTF-8 bytes C3 A9 of "é" are the two characters U+00C3 and U+00A9: an even-length line with non-digits. A line given instead as Unicode text, one character per code point, is outside this reading.
- Locales: `str.strip()` is modelled for the C locale only. Other locales that treat further bytes as whitespace are not modelled.
