# Base64Tool streaming codec in Dafny

This project models the streaming Base64 codec of Base64Tool
(`Base64Tool/Base64Helper.cs`) and proves properties of it. It covers:

- `Emit`, which writes encoded characters. Before a character, it writes the
  line terminator when the column counter has reached the break column.
- `Encode`, which reads raw bytes in chunks of up to `3 * BucketSize` bytes.
  Within a chunk it encodes 3-byte groups while more than 3 bytes remain, then
  hands the last 1 to 3 bytes to the final-block transform.
- `Decode`, which reads Base64 text in chunks of up to `4 * BucketSize`
  characters. Within a chunk it decodes 4-character groups while more than 4
  remain, then hands the last 1 to 4 characters to the final block.

The library block transforms `ToBase64Transform` and `FromBase64Transform` are
replaced by pure functions for the Base64 encoding of section 4 of RFC 4648:

- the alphabet of Table 1;
- `=` padding of a final quantum of 8 or 16 bits;
- decoding that rejects characters outside the alphabet, misplaced padding
  and final blocks of other than four characters. Like section 3.5 of RFC 4648
  permits, it ignores the bits that padding leaves over in the last
  character ("TR==" decodes as "TQ==" does).

Modules:

- `Rfc4648` (`rfc4648.dfy`): the alphabet, `EncodeQuantum` / `Encode`, and
  `DecodeQuantum` / `DecodeFinalQuantum` / `Decode`. It proves the round trip,
  where padding sits, and the shape of a decodable text.
- `Layout` (`layout.dfy`): wrapped text seen as lines. `Join` puts a
  terminator between lines, `Flatten` drops the terminators, and `Chop` cuts
  a text into lines of a given width.
- `Base64Helper` (`base64_helper.dfy`): `Emit`, `Encode` and `Decode` as
  methods with loops, each proved against a specification function:
  - `Wrap` specifies `Emit`;
  - `EncodeChunks` / `ChunkOutput` specify `Encode`;
  - `DecodeChunks` / `DecodeChunk` specify `Decode`.
- `Base64Properties` (`properties.dfy`): what these specifications mean:
  - with break column 0, the encoder writes each chunk's RFC 4648 encoding
    back to back; for reads that keep 3-byte groups whole, that is the
    encoding of all the bytes read;
  - the decoder inverts that output, read back in pieces that keep
    4-character groups whole;
  - with a positive break column, each chunk's output is its encoding cut
    into lines of at most break-column characters; across chunks the lines
    need not be, see Findings.
- `CorrectedEncode` (`findings.dfy`): the encoder with the two corrections
  listed under Findings.
- `Base64Examples` (`examples.dfy`): worked cases ("Man" and "TWFu", "M" and
  "TQ==", "TQ=X" rejected). It also gives the inputs that show the two
  findings.

How the environment is modelled:

- **Input stream.** The stream being read is the sequence of results its
  successive reads return (`seq<seq<byte>>`). A read after the last one
  returns nothing.
- **Stopping.** The codec stops at the first read that returns nothing
  (`Delivered`).
- **Output stream.** Everything written is returned as one byte sequence.
- **Errors.** The decoder also returns whether it finished without a
  FormatException. Output written before the error stays written.
- **Counters.** `col` and `breakCol` are C# `int`s. `col++` wraps from the
  largest value to the smallest (`Succ32`).
- **Line terminator.** `Environment.NewLine` is a parameter (`newLine`).

Where the code's evident intent and what it does disagree, the model follows
what it does:

- **Leftover bytes.** Line 61 threads `col` through the `Emit` of every group,
  so the column is meant to persist across chunks; line 70 drops it at the
  end of every chunk. Padding in the middle of the output makes it something
  other than a Base64 text, so the bytes after a chunk's last whole group are
  meant to be carried into the next chunk; lines 64-69 pad them instead.
- **Terminator position.** The help text of the `--break` option
  (Options.cs line 9) reads "Break encoded string at num columns", which
  suggests a terminator after every breakCol characters. Lines 30-33 write the
  terminator before the next character instead, so the output never ends
  with a terminator.
- **Wrapped round trip.** Decoding wrapped output back relies on the library
  decoder skipping whitespace, which is outside this model.

## Model

| member | source | states |
|---|---|---|
| Rfc4648.Letter | Base64Tool/Base64Helper.cs:55-60 | every 6-bit value maps to an alphabet character that is not the pad |
| Rfc4648.Value | Base64Tool/Base64Helper.cs:108-113 | a character has a value exactly when it is in the alphabet, and that value maps back to the character |
| Rfc4648.ValueOfLetter | Base64Tool/Base64Helper.cs:108-113 | decoding a character gives back the 6-bit value it encodes |
| Rfc4648.EncodeQuantum | Base64Tool/Base64Helper.cs:55-60 | a full group of three bytes becomes four alphabet characters |
| Rfc4648.Encode | Base64Tool/Base64Helper.cs:53-69 | n bytes encode to 4 * ceil(n / 3) characters |
| Rfc4648.EncodeAppend | Base64Tool/Base64Helper.cs:53-69 | encoding splits at any boundary that is a multiple of 3 bytes |
| Rfc4648.DecodeQuantum | Base64Tool/Base64Helper.cs:108-113 | a non-final group decodes exactly when all four characters are in the alphabet, and then gives three bytes |
| Rfc4648.DecodeFinalQuantum | Base64Tool/Base64Helper.cs:119-122 | a final block decodes only if it has four characters, and then gives 1 to 3 bytes |
| Rfc4648.Decode | Base64Tool/Base64Helper.cs:106-122 | only a text whose length is a multiple of 4 decodes |
| Rfc4648.DecodeAppend | Base64Tool/Base64Helper.cs:106-122 | decoding splits after any whole number of unpadded quanta |
| Rfc4648.QuantumRoundTrip | Base64Tool/Base64Helper.cs:108-113 | a full quantum decodes back to its three bytes |
| Rfc4648.OneByteRoundTrip | Base64Tool/Base64Helper.cs:119-122 | a one-byte final group comes back from "xx==" |
| Rfc4648.TwoByteRoundTrip | Base64Tool/Base64Helper.cs:119-122 | a two-byte final group comes back from "xxx=" |
| Rfc4648.DecodeCons | Base64Tool/Base64Helper.cs:106-116 | a text with more than one quantum decodes as its first quantum followed by the rest |
| Rfc4648.DecodeEncode | Base64Tool/Base64Helper.cs:106-122 | round trip: decoding the encoding of any bytes gives them back |
| Rfc4648.EncodePadding | Base64Tool/Base64Helper.cs:64-69 | "=" sits in the last two places for one leftover byte, in the last place for two, and nowhere otherwise (if and only if) |
| Rfc4648.EncodeAlphabet | Base64Tool/Base64Helper.cs:53-69 | every character of an encoding is in the alphabet or is the pad |
| Rfc4648.DecodeShape | Base64Tool/Base64Helper.cs:106-122 | a decodable text has a whole number of quanta, alphabet characters except for the last two places, and a pad second from last only before a pad in the last place |
| Layout.ChopShape | Base64Tool/Base64Helper.cs:28-36 | the lines hold the text in order; the first has at most room elements; every later line has 1 to width elements; all lines but the last are full |
| Base64Helper.BucketSize | Base64Tool/Base64Helper.cs:10 | the number of transform blocks per read buffer, 0x1000; FullChunk states what it means for a full read |
| Base64Helper.EncodeBufferSize | Base64Tool/Base64Helper.cs:46 | the encoder's `inputBytes` length, InputBlockSize (3) times BucketSize; it bounds every encoder read through Fits |
| Base64Helper.DecodeBufferSize | Base64Tool/Base64Helper.cs:97-99 | the decoder's `inputBytes` length, the constant 4 times BucketSize; FullChunk shows a full encoder read encodes to exactly this many characters |
| Base64Helper.Succ32 | Base64Tool/Base64Helper.cs:30 | `col++` on a C# int: below the largest int the result is x + 1 |
| Base64Helper.Succ32Wraps | Base64Tool/Base64Helper.cs:30 | `col++` is x + 1 in 32-bit two's complement, so the largest int wraps to the smallest |
| Base64Helper.Tick | Base64Tool/Base64Helper.cs:30-33 | the test `breakCol != 0 && col++ == breakCol` and the reset `col = 1`. Its contract states that a terminator goes before the byte exactly when breakCol is not 0 and col equals it, and that with 0 < breakCol and col in 0..breakCol the next column is in 1..breakCol. Its body, not its contract, leaves the column unchanged when breakCol is 0 (WrapUnbroken states the consequence) and otherwise increments it with Succ32 |
| Base64Helper.Wrap | Base64Tool/Base64Helper.cs:28-37 | the per-byte rule of Emit's loop: each byte in order, preceded by the terminator when Tick says so, and the final column returned at line 37; its meaning is given by WrapUnbroken, WrapAppend and WrapLines |
| Base64Helper.Emit | Base64Tool/Base64Helper.cs:25-38 | the bytes written and the column returned are those of Wrap; an empty input writes nothing and keeps the column |
| Base64Helper.WrapUnbroken | Base64Tool/Base64Helper.cs:30 | with breakCol 0 the bytes pass through unchanged and the column stays put, because the short-circuit skips `col++` |
| Base64Helper.WrapAppend | Base64Tool/Base64Helper.cs:25-38 | emitting a + b equals emitting a, then emitting b from the column a returned |
| Base64Helper.WrapLines | Base64Tool/Base64Helper.cs:28-36 | with 0 < breakCol and col in 0..breakCol, the output is the input chopped into lines and joined by the terminator, and the column is the length of the last line |
| Base64Helper.LinesAtBreak | Base64Tool/Base64Helper.cs:30-33 | at the break column a terminator goes first and the line restarts at column 1 |
| Base64Helper.LinesWithin | Base64Tool/Base64Helper.cs:30-35 | below the break column the byte joins the current line |
| Base64Helper.WrapWithin | Base64Tool/Base64Helper.cs:30-35 | bytes that fit on the current line are written unchanged, and the column advances by their count |
| Base64Helper.WrapAtBreak | Base64Tool/Base64Helper.cs:30-35 | at the break column, a run of at most breakCol bytes is written after one terminator |
| Base64Helper.WrapColumn | Base64Tool/Base64Helper.cs:30-37 | entered with col in 0..breakCol and breakCol > 0, the returned column is in 0..breakCol |
| Base64Helper.WrapSymbols | Base64Tool/Base64Helper.cs:28-36 | Emit writes only input bytes and terminator bytes |
| Base64Helper.DeliveredShape | Base64Tool/Base64Helper.cs:49-73 | the chunks processed are the reads before the first empty read, and none of them is empty |
| Base64Helper.Next | Base64Tool/Base64Helper.cs:49-50 | what a read returns; it returns nothing exactly when no chunk is left to deliver, which is when `while (bytesRead != 0)` stops (the same test follows the reads at lines 72, 102 and 125) |
| Base64Helper.Rest | Base64Tool/Base64Helper.cs:72 | the reads left after one read: the stream is its next read followed by them, and after a nonempty read the loop goes on with the chunks they deliver |
| Base64Helper.DeliveredFits | Base64Tool/Base64Helper.cs:49 | when every read returns at most the buffer length (`Fits`, the count argument of `inStream.Read`), so does every chunk the loops process |
| Base64Helper.ReadNext | Base64Tool/Base64Helper.cs:72 | reading one chunk off the stream leaves the delivered chunks the same |
| Base64Helper.DeliveredCons | Base64Tool/Base64Helper.cs:49-50 | a nonempty read is processed, then everything the later reads deliver |
| Base64Helper.Delivered | Base64Tool/Base64Helper.cs:49-72 | the chunks the loop processes: the reads before the first read that returns 0 bytes (the `while (bytesRead != 0)` test and the re-read at line 72); DeliveredShape states its shape |
| Base64Helper.FullGroups | Base64Tool/Base64Helper.cs:53 | the inner loop leaves 1 to 3 bytes of a nonempty chunk for the final block |
| Base64Helper.ChunkOutput | Base64Tool/Base64Helper.cs:52-71 | the output of one chunk: its whole encoding emitted from the column it was entered at; the column carried on is the one after the full groups only, because line 70 drops the column of the final block's Emit |
| Base64Helper.EncodeChunks | Base64Tool/Base64Helper.cs:50-73 | the encoder's output for the delivered chunks: each chunk's ChunkOutput in order, each entered at the column the previous one carried on |
| Base64Helper.EmitFirstGroup | Base64Tool/Base64Helper.cs:53-62 | a chunk of more than 3 bytes is written as its first quantum, then the rest from the column the first returned |
| Base64Helper.FullGroupsColumn | Base64Tool/Base64Helper.cs:53-62 | the column after a chunk's full groups follows from the column after its first group |
| Base64Helper.ChunkStep | Base64Tool/Base64Helper.cs:52-62 | one pass of the inner loop writes the first group, and the remaining output is the rest of the chunk from the new column |
| Base64Helper.InnerStep | Base64Tool/Base64Helper.cs:55-62 | the inner loop's invariant is preserved by one TransformBlock + Emit + `offset += 3` |
| Base64Helper.FinalStep | Base64Tool/Base64Helper.cs:64-70 | the final block writes the encoding of the last 1 to 3 bytes, and the next chunk starts from the column before it |
| Base64Helper.ChunkStart | Base64Tool/Base64Helper.cs:49-52 | a nonempty read starts a chunk at offset 0 from the current column |
| Base64Helper.Encode | Base64Tool/Base64Helper.cs:41-76 | the output is EncodeChunks of the delivered chunks from column 0; an input whose first read is empty writes nothing |
| Base64Helper.DecodeChunk | Base64Tool/Base64Helper.cs:105-124 | the decoder's handling of one chunk: 4-character groups while more than 4 characters remain, each a full unpadded quantum, then a final block of 1 to 4 characters; an invalid group or block ends with the bytes written so far and a FormatException; DecodeChunkAgrees relates it to Rfc4648.Decode |
| Base64Helper.DecodeChunks | Base64Tool/Base64Helper.cs:103-126 | the decoder's outcome for the delivered chunks: each chunk in order until one throws a FormatException, whose output so far stays written |
| Base64Helper.PrefixedShift | Base64Tool/Base64Helper.cs:114 | bytes written by the loop can be counted as the first bytes of the outcome that follows |
| Base64Helper.DecodeStart | Base64Tool/Base64Helper.cs:102-105 | a nonempty read starts a chunk, and the later reads follow it if it succeeds |
| Base64Helper.DecodeGroup | Base64Tool/Base64Helper.cs:106-116 | a valid group writes its three bytes and the chunk goes on; an invalid group is a FormatException that ends decoding with the output so far |
| Base64Helper.DecodeTail | Base64Tool/Base64Helper.cs:117-124 | a valid final block writes its bytes and the later chunks follow; an invalid one is a FormatException with the output so far |
| Base64Helper.Decode | Base64Tool/Base64Helper.cs:93-128 | output and success are DecodeChunks of the delivered chunks; an empty input writes nothing and succeeds |
| Base64Properties.EncodeUnwrapped | Base64Tool/Base64Helper.cs:41-76 | with breakCol 0 the encoder writes the chunks' encodings back to back, whatever the column |
| Base64Properties.EncodeEachAligned | Base64Tool/Base64Helper.cs:64-70 | if every chunk but the last holds whole groups, the chunks' encodings together are the encoding of all the bytes |
| Base64Properties.EmitLines | Base64Tool/Base64Helper.cs:28-36 | with 0 < breakCol: the terminators only separate lines; removing them gives the input; lines hold 1 to breakCol bytes; entered below breakCol, no terminator precedes the first byte |
| Base64Properties.UnwrappedDecodes | Base64Tool/Base64Helper.cs:41-76 | with breakCol 0 and reads that keep groups whole, the encoder's output decodes to exactly the bytes read |
| Base64Properties.ChunkLines | Base64Tool/Base64Helper.cs:52-71 | a chunk's output is its encoding cut into lines, the first filling the current line; the column carried on stays in 0..breakCol |
| Base64Properties.EncodedSymbols | Base64Tool/Base64Helper.cs:41-76 | the encoder writes only alphabet characters, "=" and terminator bytes |
| Base64Properties.FullChunk | Base64Tool/Base64Helper.cs:46 | a full encoder read of 3 * BucketSize bytes encodes to exactly 4 * BucketSize characters, the decoder's buffer length, with no padding |
| Base64Properties.DecodeChunkAgrees | Base64Tool/Base64Helper.cs:105-124 | the decoder succeeds on a chunk exactly when the chunk is a valid encoding (if and only if), and then writes its decoding |
| Base64Properties.PaddingOnlyLast | Base64Tool/Base64Helper.cs:106-122 | in a valid text, no pad comes before the last quantum |
| Base64Properties.DecodeText | Base64Tool/Base64Helper.cs:102-126 | chunks with whole quanta that make up a valid text decode to its bytes without error |
| Base64Properties.RoundTrip | Base64Tool/Base64Helper.cs:93-128 | text written with breakCol 0 from group-aligned reads, read back in quantum-aligned pieces, decodes to the bytes read without error |
| Base64Properties.FullEncodings | Base64Tool/Base64Helper.cs:97-99 | the encodings of full encoder reads are full decoder reads, aligned to quanta and nonempty |
| Base64Properties.FullReadsLineUp | Base64Tool/Base64Helper.cs:97-99 | when all encoder reads but the last are full, the unwrapped chunk encodings are full decoder reads and decode back to the input |
| CorrectedEncode.ThreadStart | Base64Tool/Base64Helper.cs:49-52 | with the column threaded, a nonempty read starts at the current column |
| CorrectedEncode.ThreadGroup | Base64Tool/Base64Helper.cs:55-62 | with the column threaded, a chunk of more than 3 bytes is written as its first group, then the rest from the column that group left |
| CorrectedEncode.ThreadStep | Base64Tool/Base64Helper.cs:55-62 | the threaded encoder's inner loop keeps its invariant |
| CorrectedEncode.ThreadFinal | Base64Tool/Base64Helper.cs:64-70 | when the final block's column is kept, the next chunk continues the same text |
| CorrectedEncode.EncodeThreaded | Base64Tool/Base64Helper.cs:41-76 | the output is the chunks' encodings wrapped as one text; with breakCol > 0 it is cut into lines of breakCol characters, the last possibly shorter |
| CorrectedEncode.EncodeGroup | Base64Tool/Base64Helper.cs:55-60 | a group of three bytes encodes as one quantum |
| CorrectedEncode.CarriedGroup | Base64Tool/Base64Helper.cs:55-62 | appending one group to the consumed bytes appends its quantum, emitted from the column reached |
| CorrectedEncode.CarriedStep | Base64Tool/Base64Helper.cs:52-63 | the carrying encoder's inner loop keeps its output as the wrapped encoding of the bytes consumed |
| CorrectedEncode.CarryStart | Base64Tool/Base64Helper.cs:49-52 | the carried bytes followed by a new read are the rest of the input |
| CorrectedEncode.EmitGroups | Base64Tool/Base64Helper.cs:52-63 | the inner loop emits the whole groups at the front of the data after the output so far; the output is then the wrapped encoding of the consumed bytes, and fewer than 3 bytes are left over |
| CorrectedEncode.CarryFinal | Base64Tool/Base64Helper.cs:64-70 | the carried bytes, emitted as the one final block, complete the encoding of the whole input |
| CorrectedEncode.EncodeCarried | Base64Tool/Base64Helper.cs:41-76 | the output is the wrapped Base64 encoding of all the bytes read, however the reads split them |
| Base64Examples.ManExample | Base64Tool/Base64Helper.cs:55-69 | "Man" encodes as "TWFu" and "M" as "TQ=="; each decodes back |
| Base64Examples.MisplacedPad | Base64Tool/Base64Helper.cs:119-122 | "TQ=X" is rejected, and the decoder reading it fails having written nothing |
| Base64Examples.PadBitsIgnored | Base64Tool/Base64Helper.cs:119-122 | "TR==" decodes to "M" as "TQ==" does: the bits that padding leaves over are ignored |
| Base64Examples.EmitExample | Base64Tool/Base64Helper.cs:30-35 | with breakCol 4, "TWFuTWFu" comes out with one terminator after the fourth character and none at the end |
| Base64Examples.EmitA4 | Base64Tool/Base64Helper.cs:30-35 | one quantum emitted with breakCol 8 from columns 0, 4 and 8 |
| Base64Examples.EncodeZeros | Base64Tool/Base64Helper.cs:55-60 | three and six zero bytes encode to "AAAA" and "AAAAAAAA" |
| Base64Examples.EncodeTwoChunks | Base64Tool/Base64Helper.cs:49-73 | for two reads, the encoder writes the first chunk's output, then the second's from the carried column |
| Base64Examples.StaleFirstChunk | Base64Tool/Base64Helper.cs:70 | six zero bytes with breakCol 8 write eight characters, yet column 4 is carried on |
| Base64Examples.StaleSecondChunk | Base64Tool/Base64Helper.cs:61 | three zero bytes from column 4 write four characters without a terminator |
| Base64Examples.StaleColumn | Base64Tool/Base64Helper.cs:70 | reads of 6 and 3 zero bytes with breakCol 8 give one 12-character line |
| Base64Examples.ThreadedColumn | Base64Tool/Base64Helper.cs:70 | when the column is kept, the same reads give 8 characters, a terminator, then 4 |
| Base64Examples.PaddedChunks | Base64Tool/Base64Helper.cs:64-70 | two one-byte reads give "AA==AA=="; it is not a valid encoding, and the decoder, when it reads the text in one piece, as from a file, fails on it having written nothing |
| Base64Examples.SplitPaddedText | Base64Tool/Base64Helper.cs:103-126 | the decoder's outcome depends on how reads split the text: "AA==AA==" read as two pieces of four characters decodes to two zero bytes without error |
| Base64Examples.SplitValidText | Base64Tool/Base64Helper.cs:105-123 | the valid text "TWFuTQ==" read as "TWFuT" and then "Q==" stops with a FormatException after writing "Man" |
| Base64Examples.CarriedPadding | Base64Tool/Base64Helper.cs:64-70 | with the byte carried over, the same reads give "AAA=" |
| Base64Examples.CarriedDecodes | Base64Tool/Base64Helper.cs:119-122 | the carrying encoder's unwrapped output always decodes to the bytes read |

## Left out

- `OpenInStream` / `OpenOutStream` (lines 132-162) are left out: console and
  file I/O.
- The file-path `Encode` / `Decode` overloads (lines 14-23 and 81-90) are left
  out: I/O and `using` disposal.
- I/O exceptions are left out: the `FileNotFoundException` of line 157 and
  any `IOException` of a failed read or write.
- `Program.cs` (argument parsing, printing errors, exiting 0 even after an
  error) is not part of this model.
- `Options.cs` (option declarations only) is not part of this model.
- `Environment.NewLine` (line 27) is the parameter `newLine`, because it
  depends on the platform.
- The internals of `ToBase64Transform` / `FromBase64Transform` are foreign
  library code. They are replaced by the RFC 4648 functions, and an invalid
  block stands for the `FormatException` the library throws. In particular:
  - the decoder's whitespace skipping is not modelled, so a terminator in the
    decoder's input is rejected as a FormatException;
  - buffering of partial quanta across calls is not modelled;
  - `Rfc4648.DecodeFinalQuantum` ignores the bits that padding leaves over in
    the last character, as section 3.5 of RFC 4648 permits; how the library
    treats nonzero leftover bits is not visible, so the model does not promise
    it rejects them;
  - an incomplete final block of 1 to 3 characters is treated as a
    `FormatException`.
- The decode round trip is stated only for whitespace-free input, that is for
  text written with breakCol 0, because whitespace skipping is not modelled.
- `outputBytes`, the array the loops reuse, is not modelled as an array. Each
  transform's result is a fresh sequence. In `Decode`, after a final block in
  one chunk the reused array has that block's length. What the library then
  does with a shorter output buffer for the next chunk's groups is not
  visible, so that case is modelled as if the buffer were still large enough.
- The `using` disposal of the transforms is left out; it has no effect on the
  output.
- `Base64Helper.Encode` and `Base64Helper.Decode` require that every read
  returns at most the buffer length (`Fits`). `Stream.Read` promises this; it
  is not something the code checks.
- The Base64 variants without padding or with another alphabet are out of scope.

## Findings

| source | as written | input that shows it | evidently intended | confidence | as-written member | corrected member |
|---|---|---|---|---|---|---|
| Base64Tool/Base64Helper.cs:70 | the column that the final block's `Emit` returns is dropped, so the next chunk continues from the column before the final block | reads of 6 and then 3 zero bytes with breakCol 8 give "AAAAAAAAAAAA", one 12-character line | the column persists across chunks, and no line is longer than breakCol: "AAAAAAAA", terminator, "AAAA" | not executed | Base64Examples.StaleColumn | CorrectedEncode.EncodeThreaded |
| Base64Tool/Base64Helper.cs:64-70 | the last 1 to 3 bytes of every chunk go to the final-block transform, so a short read that is not a multiple of 3 bytes puts padding in the middle of the output | two reads of one zero byte each give "AA==AA==", which the decoder rejects when it reads the text in one piece, as from a file (read in pieces of four characters it accepts it; SplitPaddedText) | the bytes after a chunk's last whole group are carried into the next chunk, and only the end of the input is padded: "AAA=" | not executed | Base64Examples.PaddedChunks | CorrectedEncode.EncodeCarried |
