# binec codec in Dafny

`binec` is a command-line filter that writes any file as "binary in ASCII" and reads it back.

Its codec is modelled in one module, `Binec` (`binec.dfy`):

- **`encode`.** Each input byte becomes an eight-character octet of `'0'` and `'1'`, most significant bit first and left-padded with `'0'`. A delimiter (default `" "`) follows every octet but the last. A newline goes before every octet whose 0-based index is a non-zero multiple of `interval`, unless newlines are excluded.
- **`decode`.** It keeps only the bytes 48 (`'0'`) and 49 (`'1'`) of its input and groups them by eight. It right-pads a trailing partial group with `'0'`, then converts every group with `decode_byte`.
- **`decode_byte`.** It raises `IndexError` unless its group has exactly eight characters.

The three functions are imperative in the source, so each one is a Dafny `method` with the same loops:

- `encode`'s `for` loop and its `while` padding loop;
- `decode_byte`'s summing loop, including the `continue` on `'0'`;
- `decode`'s accumulating loop and its trailing padding loop.

Each method is proved against a pure specification function:

- `Encoding` for `encode`: the pieces appended by the iterations, in order;
- `BitsValue` for `decode_byte`: the positional value of the group;
- `Decoding` for `decode`: the kept characters, cut into groups of eight.

The properties of the codec are then proved as lemmas about those functions. They cover:

- octet shape and value;
- where octets, delimiters and newlines sit, and how often they occur;
- that decoding ignores noise, and how it groups and pads;
- the round trip.

`decode_byte`'s `IndexError` is a `Result` value. `Decode` takes the byte out of each result with `.value`, so the verifier proves that every call gets a group of exactly eight characters. The error path is therefore unreachable from `decode`.

Data model:

- **Input bytes** are `seq<Byte>`, where `Byte` is an integer in 0..255. This is what iterating the read `bytes` object yields.
- **Encoder output** is a `string`.
- **Written bytes.** The encoder's output reaches `decode` as its UTF-8 bytes, which is what `print` writes to a UTF-8 standard output (`TextBytes`).

`decode_byte` adds `2^(7-p)` for every position `p` whose character is not `'0'` (binec.py:98-100). This is not limited to positions holding `'1'`, and the model follows that code. Inside `decode` the difference never shows, because only `'0'` and `'1'` reach a group.

## Model

The specification functions the methods are proved against are the following. The lemmas in the table below state what each of them means.

- `Bin` (binec.py:84) is `bin(char)[2:]`.
- `Bits` and `Octet` (binec.py:84-86) are the left-padded eight-character numeral.
- `Weight`, `WeightSum`, `BitsValue` and `ByteValue` (binec.py:96-101) are `decode_byte`'s sum.
- `NewlineBefore` (binec.py:82) is the newline test.
- `Piece`, `EncodedPrefix` and `Encoding` (binec.py:80-90) are what the iterations of `encode` append.
- `BinaryChars` (binec.py:113-116) is `decode`'s filter.
- `Pad` (binec.py:121-123) is the trailing-group padding.
- `Groups` and `Decoding` (binec.py:118-124) are the grouping into bytes.
- `Utf8` and `TextBytes` (binec.py:145-147) are the bytes that `print` writes.

| member | source | states |
|---|---|---|
| Binec.DecodeByte | binec.py:92-101 | Fails with IndexError exactly when the group's length is not 8. Otherwise it succeeds with the group's positional value: 2^(7-p) for each position p not holding '0'. The result is a Byte, so it is in 0..255. |
| Binec.WeightSum | binec.py:96-100 | After k positions, the running sum plus 2^(n-k) is at most 2^n. So the sum of an 8-character group is below 256, and `to_bytes(1)` cannot overflow. |
| Binec.BitsValueSnoc | binec.py:97-100 | Appending a character doubles the value and adds 1 unless the character is '0'. |
| Binec.BitsValueOfBits | binec.py:84-86 | For v < 2^n, the n-character numeral of v has length n, holds only '0'/'1', and reads back as v. |
| Binec.BitsOfBitsValue | binec.py:96-100 | Every '0'/'1' string is the numeral of its own value, in its own length. |
| Binec.OctetDecodes | binec.py:84-86 | Every byte's octet has 8 characters, all '0' or '1', and `decode_byte` turns it back into that byte. |
| Binec.ByteValueEncodes | binec.py:96-101 | Every 8-character '0'/'1' group is the octet of the byte it decodes to. |
| Binec.BinIsBits | binec.py:84 | `bin(b)[2:]` of a byte has at most 8 characters and is b's numeral in exactly its own length. |
| Binec.PadBits | binec.py:85-86 | Prepending '0' to a numeral gives the numeral one character longer for the same value. |
| Binec.Encode | binec.py:73-90 | Returns exactly `Encoding`: for each byte in order, the optional newline, then the octet, then the delimiter unless it is the last byte. |
| Binec.OctetStartClosedForm | binec.py:81-89 | Octet i starts at 8i + i·len(delim) + (0 if newlines are excluded, else ⌊i/interval⌋). |
| Binec.PrefixLength | binec.py:81-89 | After k iterations, the text built so far, plus the newline of iteration k, ends where octet k starts. |
| Binec.PieceStays | binec.py:89 | Later iterations only append, so what iteration k wrote stays in place. |
| Binec.EncodeLength | binec.py:80-90 | The encoding of an empty input is empty. Otherwise it ends right after the last octet. |
| Binec.PieceAt | binec.py:81-89 | Iteration k's newline, octet and delimiter sit in the encoding just before octet k's start, less the newline. |
| Binec.EncodeOctetAt | binec.py:84-86 | The 8 characters from octet i's start are the octet of byte i. |
| Binec.EncodeDelimiterAfter | binec.py:87-88 | Every octet but the last is followed immediately by the delimiter. |
| Binec.EncodeNewlineBefore | binec.py:82-83 | The newline comes after the previous octet's delimiter. Between that delimiter and octet i there is "\n" exactly when i ≠ 0, i % interval == 0 and newlines are not excluded, and nothing otherwise. |
| Binec.EncodeEndsWithLastOctet | binec.py:87-88 | A non-empty encoding ends with the last byte's octet: no delimiter or newline trails. |
| Binec.PieceCount | binec.py:81-89 | Counts a non-bit character in one iteration's output: once for its newline, plus its count in the delimiter unless it is the last byte. |
| Binec.PrefixCount | binec.py:81-89 | Counts a non-bit character in the first k iterations' output, in closed form. |
| Binec.EncodeCharCount | binec.py:81-89 | Over n ≥ 1 bytes, a non-bit character occurs (n-1) times its count in the delimiter. The newline gets ⌊(n-1)/interval⌋ more unless newlines are excluded. |
| Binec.EncodeExcludesNewlines | binec.py:82 | With exclude_nl set and a newline-free delimiter, the encoding contains no newline. |
| Binec.Decode | binec.py:103-125 | Returns exactly `Decoding`. Every `decode_byte` call it makes gets 8 characters, so the IndexError is never raised. |
| Binec.BinaryCharsStep | binec.py:113-116 | One more input byte adds its character to the kept ones exactly when it is '0' or '1'. |
| Binec.GroupsAppend | binec.py:118-120 | Groups of a prefix whose length is a multiple of 8 are not changed by what follows. |
| Binec.GroupsFlush | binec.py:118-120 | Completing a group of eight appends that group's byte. |
| Binec.GroupsPadded | binec.py:121-124 | A trailing group of 1-7 bits, right-padded with '0' to eight, appends one last byte. |
| Binec.GroupsLength | binec.py:118-124 | k kept characters give ⌈k/8⌉ bytes. |
| Binec.GroupsFull | binec.py:118-120 | Byte j is the j-th full group of eight converted, so full groups are converted in order. |
| Binec.GroupsTrailing | binec.py:121-124 | When k % 8 ≠ 0 there are ⌊k/8⌋+1 bytes, and the last is the padded trailing group. |
| Binec.BinaryCharsAppend | binec.py:113-116 | Filtering the concatenation of two inputs concatenates their filtered characters. |
| Binec.BinaryCharsKeepsBits | binec.py:113-116 | The kept characters are all '0'/'1'. An all-bit input is kept entirely, as the characters its bytes code. An input with no bit bytes keeps nothing. |
| Binec.DecodeIgnoresNoise | binec.py:113-116 | Inserting or removing bytes other than 48/49 anywhere leaves the decoding unchanged. |
| Binec.PieceBitChars | binec.py:81-89 | With a delimiter free of '0'/'1', the '0'/'1' characters of one iteration's output are its octet. |
| Binec.PrefixBitChars | binec.py:81-89 | The '0'/'1' characters of the first k iterations' output are the first k octets, in order. |
| Binec.GroupsOfOctets | binec.py:118-120 | The concatenated octets of n bytes have 8n characters and group back into the bytes. |
| Binec.Utf8BinaryChars | binec.py:114-115 | Written as UTF-8, a character gives a byte 48/49 exactly when it is '0'/'1'. |
| Binec.TextBytesBinaryChars | binec.py:113-116 | From the UTF-8 bytes of a text, `decode` keeps exactly the text's '0'/'1' characters. |
| Binec.RoundTrip | binec.py:73-125 | For every input, every interval ≥ 1 and either exclude_nl, decoding the written encoding gives the input back, whenever the delimiter holds neither '0' nor '1'. |
| Binec.WrittenTrailer | binec.py:144-147 | Text without '0'/'1' written after the encoding does not change what is decoded. |
| Binec.RoundTripPrinted | binec.py:144-147 | The round trip also holds for what is printed, including the newline printed unless exclude_nl. |
| Binec.OctetExamples | binec.py:84-86 | The octets of 0x40, 0x41 and 0x42 are "01000000", "01000001" and "01000010". |
| Binec.EncodeSingleByteExample | binec.py:81-89 | A single byte encodes to its octet alone, with no delimiter and no newline. |
| Binec.EncodeTwoBytes | binec.py:81-89 | Two bytes encode to octet, delimiter, the newline if index 1 takes one, then octet. |
| Binec.EncodeTwoBytesExample | binec.py:87-88 | With exclude_nl, 'A','B' encode to "01000001", the delimiter, then "01000010", for any delimiter text (for example "-" or " ignored! "). |
| Binec.NewlineExample | binec.py:82-83 | Five bytes with interval 2 and a newline-free delimiter get exactly two newlines: one between the delimiter after octet 1 and octet 2, one between the delimiter after octet 3 and octet 4, and nothing between the other octets. |
| Binec.NewlineExampleAt | binec.py:82-83 | For one index i in 1..4 of five bytes with interval 2, the gap before octet i is "\n" when i is 2 or 4 and empty otherwise. |
| Binec.DecodeTrailingExample | binec.py:121-124 | The bits "0100000" are padded to "01000000" and decode to 0x40. |
| Binec.DecodeNoiseExample | binec.py:113-116 | "01000001 ignored! 01000010" decodes to 'A','B': the noise between the groups is skipped. |

## Left out

- Reading the file (`file.read()`) and the `KeyboardInterrupt` handlers (binec.py:75-79, 105-109) are input and process exit. The methods take the bytes already read as their parameter.
- `parse_args` and `print_help` (binec.py:21-71) are command-line handling that ends in `exit`. What they guarantee to the codec is kept as a precondition: `interval >= 1` (binec.py:64-65). The default interval is 8 (binec.py:31) and the default delimiter is `" "` (binec.py:136-137); the examples use both.
- `main` (binec.py:127-147) is not modelled: opening the file, choosing stdin, and writing the decoded bytes to stdout. What it prints for `encode` is modelled only as `RoundTripPrinted` speaks of it: the encoding plus the trailing newline unless exclude_nl, written as UTF-8.
- The `help_text` formatting with `sys.argv[0]` (binec.py:6-19) is output text only.
- DecodeByte: returns the byte's value rather than a one-byte `bytes` object. The `OverflowError` that `to_bytes(1, ...)` could raise is not modelled, because `WeightSum`'s contract proves that the sum of eight positions is always below 256.
- TextBytes: models the printed text's bytes for a UTF-8 standard output only. Other output encodings, and delimiters holding lone surrogates (which Python's `print` can refuse to write), are not modelled.
- EncodeCharCount: counts single characters. It does not count occurrences of a multi-character delimiter as a substring. The delimiter's positions are stated by `EncodeDelimiterAfter` instead.
