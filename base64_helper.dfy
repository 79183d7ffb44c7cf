/** The streaming codec of Base64Tool/Base64Helper.cs: Emit writes encoded
    characters and wraps lines at a break column, Encode reads raw bytes in
    chunks and encodes them, Decode reads Base64 text in chunks and decodes it.

    A stream being read is the sequence of results its successive reads
    return; a read after the last one returns nothing, and the codec stops at
    the first read that returns nothing. What the codec writes is returned as
    one byte sequence. The platform line terminator is a parameter. */
module Base64Helper {
  import opened Rfc4648
  import opened Layout

  /** Transform blocks per read buffer. */
  const BucketSize: nat := 0x1000

  /** The encoder's read buffer: ToBase64Transform.InputBlockSize (3) blocks of BucketSize. */
  const EncodeBufferSize: nat := 3 * BucketSize

  /** The decoder's read buffer: four characters per quantum, BucketSize quanta. */
  const DecodeBufferSize: nat := 4 * BucketSize

  /** C#'s int, which `col` and `breakCol` are. */
  type int32 = x: int | -0x8000_0000 <= x < 0x8000_0000

  /** `x++` on a C# int: wraps from the largest value to the smallest. */
  function Succ32(x: int32): (r: int32)
    ensures x < 0x7fff_ffff ==> r == x + 1
  {
    if x == 0x7fff_ffff then -0x8000_0000 else x + 1
  }

  /** Succ32 is x + 1 in two's complement on 32 bits. */
  lemma Succ32Wraps(x: int32)
    ensures Succ32(x) == (x + 1 + 0x8000_0000) % 0x1_0000_0000 - 0x8000_0000
  {
  }

  // ---------------------------------------------------------------------------
  // Emit

  /** What a run of Emit writes and the column it returns. */
  datatype Emitted = Emitted(out: seq<byte>, col: int32)

  /** The test `breakCol != 0 && col++ == breakCol` made before each byte and
      the reset `col = 1` after a terminator: whether a terminator goes before
      the byte, and the column afterwards. The increment happens only when
      breakCol is not 0, and it compares the column before the increment. */
  function Tick(col: int32, breakCol: int32): (r: (bool, int32))
    ensures r.0 <==> breakCol != 0 && col == breakCol
    ensures 0 < breakCol && 0 <= col <= breakCol ==> 1 <= r.1 <= breakCol
  {
    if breakCol == 0 then (false, col)
    else if col == breakCol then (true, 1)
    else (false, Succ32(col))
  }

  /** The specification of Emit: each byte in order, preceded by the line
      terminator whenever Tick says so, and the final column. */
  function Wrap(bytes: seq<byte>, col: int32, breakCol: int32, newLine: seq<byte>): Emitted
    decreases |bytes|
  {
    if bytes == [] then Emitted([], col)
    else
      var (brk, next) := Tick(col, breakCol);
      var rest := Wrap(bytes[1..], next, breakCol, newLine);
      Emitted((if brk then newLine else []) + [bytes[0]] + rest.out, rest.col)
  }

  /** Writes bytes, inserting newLine before a byte when the column counter
      reaches breakCol, and returns the updated column. */
  method Emit(bytes: seq<byte>, col: int32, breakCol: int32, newLine: seq<byte>) returns (written: seq<byte>, newCol: int32)
    ensures written == Wrap(bytes, col, breakCol, newLine).out
    ensures newCol == Wrap(bytes, col, breakCol, newLine).col
    ensures bytes == [] ==> written == [] && newCol == col
  {
    written := [];
    newCol := col;
    var i := 0;
    while i < |bytes|
      invariant 0 <= i <= |bytes|
      invariant written + Wrap(bytes[i..], newCol, breakCol, newLine).out == Wrap(bytes, col, breakCol, newLine).out
      invariant Wrap(bytes[i..], newCol, breakCol, newLine).col == Wrap(bytes, col, breakCol, newLine).col
    {
      assert bytes[i..][1..] == bytes[i + 1..];
      var wrap := false;
      if breakCol != 0 {
        wrap := newCol == breakCol;
        newCol := Succ32(newCol);
      }
      if wrap {
        written := written + newLine;
        newCol := 1;
      }
      written := written + [bytes[i]];
      i := i + 1;
    }
    assert bytes[i..] == [];
  }

  /** With breakCol 0 the bytes pass through unchanged and the column stays put:
      the short-circuit keeps `col++` from running. */
  lemma {:induction false} WrapUnbroken(bytes: seq<byte>, col: int32, newLine: seq<byte>)
    ensures Wrap(bytes, col, 0, newLine) == Emitted(bytes, col)
    decreases |bytes|
  {
    if bytes != [] {
      assert Tick(col, 0) == (false, col);
      WrapUnbroken(bytes[1..], col, newLine);
      assert Wrap(bytes, col, 0, newLine).out == [] + [bytes[0]] + bytes[1..];
      assert [] + [bytes[0]] + bytes[1..] == bytes;
    }
  }

  /** Emitting a + b is emitting a and then b from the column a ended at. */
  lemma {:induction false} WrapAppend(a: seq<byte>, b: seq<byte>, col: int32, breakCol: int32, newLine: seq<byte>)
    ensures Wrap(a + b, col, breakCol, newLine).out
      == Wrap(a, col, breakCol, newLine).out + Wrap(b, Wrap(a, col, breakCol, newLine).col, breakCol, newLine).out
    ensures Wrap(a + b, col, breakCol, newLine).col
      == Wrap(b, Wrap(a, col, breakCol, newLine).col, breakCol, newLine).col
    decreases |a|
  {
    if a == [] {
      assert a + b == b;
    } else {
      assert (a + b)[0] == a[0] && (a + b)[1..] == a[1..] + b;
      var (brk, next) := Tick(col, breakCol);
      WrapAppend(a[1..], b, next, breakCol, newLine);
    }
  }

  /** With a positive breakCol and a column in 0..breakCol, Emit writes the
      bytes cut into lines joined by the terminator: a first line that fills
      the current line up to breakCol, then lines of breakCol bytes, the last
      possibly shorter. The terminator thus only ever precedes a byte, and the
      returned column is the length of the line the bytes end on. */
  lemma {:induction false} WrapLines(bytes: seq<byte>, col: int32, breakCol: int32, newLine: seq<byte>)
    requires 0 < breakCol && 0 <= col <= breakCol
    ensures Wrap(bytes, col, breakCol, newLine).out == Join(Chop(bytes, breakCol - col, breakCol), newLine)
    ensures Wrap(bytes, col, breakCol, newLine).col == EndColumn(Chop(bytes, breakCol - col, breakCol), col)
    decreases |bytes|
  {
    if bytes != [] {
      if col == breakCol {
        WrapLines(bytes[1..], 1, breakCol, newLine);
        LinesAtBreak(bytes, breakCol, newLine);
      } else {
        WrapLines(bytes[1..], col + 1, breakCol, newLine);
        LinesWithin(bytes, col, breakCol, newLine);
      }
    }
  }

  /** The step of WrapLines at the break column: a terminator, then the line
      goes on from column 1. */
  lemma LinesAtBreak(bytes: seq<byte>, breakCol: int32, newLine: seq<byte>)
    requires 0 < breakCol && bytes != []
    requires Wrap(bytes[1..], 1, breakCol, newLine).out == Join(Chop(bytes[1..], breakCol - 1, breakCol), newLine)
    requires Wrap(bytes[1..], 1, breakCol, newLine).col == EndColumn(Chop(bytes[1..], breakCol - 1, breakCol), 1)
    ensures Wrap(bytes, breakCol, breakCol, newLine).out == Join(Chop(bytes, 0, breakCol), newLine)
    ensures Wrap(bytes, breakCol, breakCol, newLine).col == EndColumn(Chop(bytes, 0, breakCol), breakCol)
  {
    var later := Chop(bytes[1..], breakCol - 1, breakCol);
    var full := Chop(bytes, breakCol, breakCol);
    ChopCons(bytes, breakCol, breakCol);
    JoinCons(bytes[0], later, newLine);
    EndColumnCons(bytes[0], later, 0);
    assert bytes[..0] == [] && bytes[0..] == bytes;
    assert Chop(bytes, 0, breakCol) == [[]] + full;
    JoinEmptyFirst(full, newLine);
    EndColumnEmptyFirst(full, breakCol);
  }

  /** The step of WrapLines before the break column: the byte goes on the
      current line. */
  lemma LinesWithin(bytes: seq<byte>, col: int32, breakCol: int32, newLine: seq<byte>)
    requires 0 <= col < breakCol && bytes != []
    requires Wrap(bytes[1..], col + 1, breakCol, newLine).out == Join(Chop(bytes[1..], breakCol - col - 1, breakCol), newLine)
    requires Wrap(bytes[1..], col + 1, breakCol, newLine).col == EndColumn(Chop(bytes[1..], breakCol - col - 1, breakCol), col + 1)
    ensures Wrap(bytes, col, breakCol, newLine).out == Join(Chop(bytes, breakCol - col, breakCol), newLine)
    ensures Wrap(bytes, col, breakCol, newLine).col == EndColumn(Chop(bytes, breakCol - col, breakCol), col)
  {
    var later := Chop(bytes[1..], breakCol - col - 1, breakCol);
    assert Tick(col, breakCol) == (false, col + 1);
    var rest := Wrap(bytes[1..], col + 1, breakCol, newLine);
    assert Wrap(bytes, col, breakCol, newLine) == Emitted([] + [bytes[0]] + rest.out, rest.col);
    ChopCons(bytes, breakCol - col, breakCol);
    JoinCons(bytes[0], later, newLine);
    EndColumnCons(bytes[0], later, col);
  }

  /** Bytes that fit on the current line are written as they are, and the
      column moves on by their number. */
  lemma {:induction false} WrapWithin(bytes: seq<byte>, col: int32, breakCol: int32, newLine: seq<byte>)
    requires 0 <= col && col + |bytes| <= breakCol
    ensures Wrap(bytes, col, breakCol, newLine) == Emitted(bytes, col + |bytes|)
    decreases |bytes|
  {
    if bytes != [] {
      assert Tick(col, breakCol) == (false, col + 1);
      WrapWithin(bytes[1..], col + 1, breakCol, newLine);
      assert [bytes[0]] + bytes[1..] == bytes;
    }
  }

  /** At the break column a terminator comes first, and then bytes that fit
      on one line. */
  lemma WrapAtBreak(bytes: seq<byte>, breakCol: int32, newLine: seq<byte>)
    requires 0 < |bytes| <= breakCol
    ensures Wrap(bytes, breakCol, breakCol, newLine) == Emitted(newLine + bytes, |bytes|)
  {
    assert Tick(breakCol, breakCol) == (true, 1);
    WrapWithin(bytes[1..], 1, breakCol, newLine);
    assert newLine + [bytes[0]] + bytes[1..] == newLine + bytes;
  }

  /** With a positive breakCol and a column in 0..breakCol on entry, the
      column Emit returns is in 0..breakCol again. */
  lemma WrapColumn(bytes: seq<byte>, col: int32, breakCol: int32, newLine: seq<byte>)
    requires 0 < breakCol && 0 <= col <= breakCol
    ensures 0 <= Wrap(bytes, col, breakCol, newLine).col <= breakCol
  {
    WrapLines(bytes, col, breakCol, newLine);
    ChopShape(bytes, breakCol - col, breakCol);
  }

  /** Emit writes nothing but the given bytes and terminator bytes. */
  lemma {:induction false} WrapSymbols(bytes: seq<byte>, col: int32, breakCol: int32, newLine: seq<byte>)
    ensures forall c :: c in Wrap(bytes, col, breakCol, newLine).out ==> c in bytes || c in newLine
    decreases |bytes|
  {
    if bytes != [] {
      var (brk, next) := Tick(col, breakCol);
      WrapSymbols(bytes[1..], next, breakCol, newLine);
    }
  }

  // ---------------------------------------------------------------------------
  // Reading a stream

  /** What the next read returns. It returns nothing exactly when no chunk
      is left to deliver, which is when the codec's loops stop. */
  function Next(inStream: seq<seq<byte>>): (r: seq<byte>)
    ensures r == [] <==> Delivered(inStream) == []
  {
    if inStream == [] then [] else inStream[0]
  }

  /** The reads that remain after one read. A stream is its next read
      followed by the rest, and after a read that returns a chunk the codec
      goes on with the chunks the rest delivers. */
  function Rest(inStream: seq<seq<byte>>): (r: seq<seq<byte>>)
    ensures inStream == [] ==> r == []
    ensures inStream != [] ==> [Next(inStream)] + r == inStream
    ensures Next(inStream) != [] ==> Delivered(inStream) == [Next(inStream)] + Delivered(r)
  {
    if inStream == [] then [] else inStream[1..]
  }

  /** The chunks the codec processes: the reads before the first read that
      returns nothing. */
  function Delivered(inStream: seq<seq<byte>>): (chunks: seq<seq<byte>>)
    decreases |inStream|
  {
    if inStream == [] || inStream[0] == [] then []
    else [inStream[0]] + Delivered(inStream[1..])
  }

  /** The delivered chunks are the reads up to, and not including, the first
      read that returns nothing; none of them is empty. */
  lemma {:induction false} DeliveredShape(inStream: seq<seq<byte>>)
    ensures |Delivered(inStream)| <= |inStream|
    ensures Delivered(inStream) == inStream[..|Delivered(inStream)|]
    ensures forall i :: 0 <= i < |Delivered(inStream)| ==> Delivered(inStream)[i] != []
    ensures |Delivered(inStream)| < |inStream| ==> inStream[|Delivered(inStream)|] == []
    decreases |inStream|
  {
    if inStream != [] && inStream[0] != [] {
      DeliveredShape(inStream[1..]);
      var rest := Delivered(inStream[1..]);
      assert Delivered(inStream) == [inStream[0]] + rest;
      assert inStream[..|rest| + 1] == [inStream[0]] + inStream[1..][..|rest|];
      forall i | 0 <= i < |rest| + 1 ensures Delivered(inStream)[i] != [] {
        if i > 0 { assert Delivered(inStream)[i] == rest[i - 1]; }
      }
    }
  }

  /** Every read returns at most cap bytes, the size of the buffer it fills. */
  predicate Fits(inStream: seq<seq<byte>>, cap: nat) {
    forall i :: 0 <= i < |inStream| ==> |inStream[i]| <= cap
  }

  /** When every read fits the buffer, so does every chunk the codec processes. */
  lemma DeliveredFits(inStream: seq<seq<byte>>, cap: nat)
    requires Fits(inStream, cap)
    ensures forall i :: 0 <= i < |Delivered(inStream)| ==> |Delivered(inStream)[i]| <= cap
  {
    DeliveredShape(inStream);
    forall i | 0 <= i < |Delivered(inStream)| ensures |Delivered(inStream)[i]| <= cap {
      assert Delivered(inStream)[i] == inStream[i];
    }
  }

  /** Every chunk except the last holds a whole number of quanta. */
  predicate Aligned(chunks: seq<seq<byte>>, quantum: nat)
    requires quantum > 0
  {
    forall i :: 0 <= i < |chunks| - 1 ==> |chunks[i]| % quantum == 0
  }

  /** Taking one read off the stream delivers the same chunks. */
  lemma ReadNext(inStream: seq<seq<byte>>)
    ensures Delivered(inStream) == Delivered([Next(inStream)] + Rest(inStream))
  {
    if inStream != [] {
      assert [inStream[0]] + inStream[1..] == inStream;
    }
  }

  /** A nonempty read is delivered, followed by what the later reads deliver. */
  lemma DeliveredCons(chunk: seq<byte>, inStream: seq<seq<byte>>)
    requires chunk != []
    ensures Delivered([chunk] + inStream) == [chunk] + Delivered(inStream)
  {
    assert ([chunk] + inStream)[0] == chunk && ([chunk] + inStream)[1..] == inStream;
  }

  // ---------------------------------------------------------------------------
  // Encode

  /** The number of 3-byte groups the inner loop encodes, while more than 3
      bytes remain, in a chunk of n bytes; the rest goes to the final block. */
  function FullGroups(n: nat): (k: nat)
    ensures n > 0 ==> 1 <= n - 3 * k <= 3
  {
    if n == 0 then 0 else (n - 1) / 3
  }

  /** The output of one chunk entered at column col: the chunk's whole Base64
      encoding, written through Emit from col. The column carried to the next
      chunk is the one after the full groups only, because the column that
      the final block's Emit returns is dropped. */
  function ChunkOutput(chunk: seq<byte>, col: int32, breakCol: int32, newLine: seq<byte>): Emitted {
    var full := 3 * FullGroups(|chunk|);
    Emitted(Wrap(Rfc4648.Encode(chunk), col, breakCol, newLine).out,
            Wrap(Rfc4648.Encode(chunk[..full]), col, breakCol, newLine).col)
  }

  /** The output of the encoder for a sequence of chunks, starting at column col. */
  function EncodeChunks(chunks: seq<seq<byte>>, col: int32, breakCol: int32, newLine: seq<byte>): seq<byte>
    decreases |chunks|
  {
    if chunks == [] then []
    else
      var c := ChunkOutput(chunks[0], col, breakCol, newLine);
      c.out + EncodeChunks(chunks[1..], c.col, breakCol, newLine)
  }

  /** The Base64 encodings of the chunks, one after the other, each with its
      own padding. */
  function EncodeEach(chunks: seq<seq<byte>>): seq<byte>
    decreases |chunks|
  {
    if chunks == [] then [] else Rfc4648.Encode(chunks[0]) + EncodeEach(chunks[1..])
  }

  /** The rest of the output once the encoder is at the start of x, at
      column col, with the chunks later still to come. */
  function EncodeFrom(x: seq<byte>, col: int32, later: seq<seq<byte>>, breakCol: int32, newLine: seq<byte>): seq<byte> {
    var c := ChunkOutput(x, col, breakCol, newLine);
    c.out + EncodeChunks(later, c.col, breakCol, newLine)
  }

  /** The encoding of a chunk of more than 3 bytes, emitted from col, is its
      first group emitted from col followed by the rest emitted from there. */
  lemma EmitFirstGroup(x: seq<byte>, col: int32, breakCol: int32, newLine: seq<byte>)
    requires |x| > 3
    ensures Wrap(Rfc4648.Encode(x), col, breakCol, newLine).out
      == Wrap(EncodeQuantum(x[0], x[1], x[2]), col, breakCol, newLine).out
         + Wrap(Rfc4648.Encode(x[3..]), Wrap(EncodeQuantum(x[0], x[1], x[2]), col, breakCol, newLine).col, breakCol, newLine).out
  {
    var q := EncodeQuantum(x[0], x[1], x[2]);
    assert Rfc4648.Encode(x) == q + Rfc4648.Encode(x[3..]);
    WrapAppend(q, Rfc4648.Encode(x[3..]), col, breakCol, newLine);
  }

  /** The column after the full groups of a chunk of more than 3 bytes is the
      column after the full groups of its rest, entered where the first group
      left off. */
  lemma FullGroupsColumn(x: seq<byte>, col: int32, breakCol: int32, newLine: seq<byte>)
    requires |x| > 3
    ensures Wrap(Rfc4648.Encode(x[..3 * FullGroups(|x|)]), col, breakCol, newLine).col
      == Wrap(Rfc4648.Encode(x[3..][..3 * FullGroups(|x| - 3)]),
              Wrap(EncodeQuantum(x[0], x[1], x[2]), col, breakCol, newLine).col, breakCol, newLine).col
  {
    var q := EncodeQuantum(x[0], x[1], x[2]);
    var full := 3 * FullGroups(|x|);
    assert FullGroups(|x| - 3) == FullGroups(|x|) - 1;
    var y := x[..full];
    assert y[0] == x[0] && y[1] == x[1] && y[2] == x[2];
    assert y[3..] == x[3..][..full - 3];
    assert Rfc4648.Encode(y) == q + Rfc4648.Encode(y[3..]);
    WrapAppend(q, Rfc4648.Encode(y[3..]), col, breakCol, newLine);
  }

  /** One pass of the inner loop: the first group is emitted, and the rest of
      the chunk is processed from the column that Emit returned. */
  lemma ChunkStep(x: seq<byte>, col: int32, later: seq<seq<byte>>, breakCol: int32, newLine: seq<byte>)
    requires |x| > 3
    ensures EncodeFrom(x, col, later, breakCol, newLine)
      == Wrap(EncodeQuantum(x[0], x[1], x[2]), col, breakCol, newLine).out
         + EncodeFrom(x[3..], Wrap(EncodeQuantum(x[0], x[1], x[2]), col, breakCol, newLine).col, later, breakCol, newLine)
  {
    var w := Wrap(EncodeQuantum(x[0], x[1], x[2]), col, breakCol, newLine);
    var c, d := ChunkOutput(x, col, breakCol, newLine), ChunkOutput(x[3..], w.col, breakCol, newLine);
    EmitFirstGroup(x, col, breakCol, newLine);
    assert c.out == w.out + d.out;
    FullGroupsColumn(x, col, breakCol, newLine);
    assert c.col == d.col;
    ConcatAssoc(w.out, d.out, EncodeChunks(later, d.col, breakCol, newLine));
  }

  /** The inner loop's invariant survives one pass. */
  lemma InnerStep(output: seq<byte>, chunk: seq<byte>, offset: nat, col: int32, later: seq<seq<byte>>,
                  breakCol: int32, newLine: seq<byte>, written: seq<byte>, newCol: int32)
    requires offset + 3 < |chunk|
    requires written == Wrap(EncodeQuantum(chunk[offset], chunk[offset + 1], chunk[offset + 2]), col, breakCol, newLine).out
    requires newCol == Wrap(EncodeQuantum(chunk[offset], chunk[offset + 1], chunk[offset + 2]), col, breakCol, newLine).col
    ensures output + EncodeFrom(chunk[offset..], col, later, breakCol, newLine)
      == (output + written) + EncodeFrom(chunk[offset + 3..], newCol, later, breakCol, newLine)
  {
    var x := chunk[offset..];
    assert x[3..] == chunk[offset + 3..];
    assert x[0] == chunk[offset] && x[1] == chunk[offset + 1] && x[2] == chunk[offset + 2];
    ChunkStep(x, col, later, breakCol, newLine);
  }

  /** The final block: the last 1 to 3 bytes of a chunk are encoded whole,
      and the chunks after it start from the column the block was entered at. */
  lemma FinalStep(output: seq<byte>, chunk: seq<byte>, offset: nat, col: int32, later: seq<seq<byte>>,
                  breakCol: int32, newLine: seq<byte>, written: seq<byte>)
    requires offset < |chunk| <= offset + 3
    requires written == Wrap(Rfc4648.Encode(chunk[offset..|chunk|]), col, breakCol, newLine).out
    ensures output + EncodeFrom(chunk[offset..], col, later, breakCol, newLine)
      == (output + written) + EncodeChunks(later, col, breakCol, newLine)
  {
    var x := chunk[offset..];
    assert chunk[offset..|chunk|] == x;
    assert FullGroups(|x|) == 0;
    assert x[..0] == [];
    assert Wrap(Rfc4648.Encode(x[..0]), col, breakCol, newLine).col == col;
  }

  /** A nonempty read starts a chunk at the column the encoder is at. */
  lemma ChunkStart(chunk: seq<byte>, inStream: seq<seq<byte>>, col: int32, breakCol: int32, newLine: seq<byte>)
    requires chunk != []
    ensures EncodeChunks(Delivered([chunk] + inStream), col, breakCol, newLine)
      == EncodeFrom(chunk[0..], col, Delivered(inStream), breakCol, newLine)
  {
    DeliveredCons(chunk, inStream);
    assert chunk[0..] == chunk;
  }

  /** Encodes the stream `inStream` (lines 41-76): per chunk, full 3-byte groups
      while more than 3 bytes remain, then the last 1 to 3 bytes as a final
      block, each written through Emit. */
  method Encode(inStream: seq<seq<byte>>, breakCol: int32, newLine: seq<byte>) returns (output: seq<byte>)
    requires Fits(inStream, EncodeBufferSize)
    ensures output == EncodeChunks(Delivered(inStream), 0, breakCol, newLine)
    ensures Delivered(inStream) == [] ==> output == []
  {
    ghost var total := EncodeChunks(Delivered(inStream), 0, breakCol, newLine);
    var col: int32 := 0;
    output := [];
    var stream := inStream;
    ReadNext(stream);
    var inputBytes := Next(stream);
    stream := Rest(stream);
    var bytesRead := |inputBytes|;
    while bytesRead != 0
      invariant bytesRead == |inputBytes|
      invariant output + EncodeChunks(Delivered([inputBytes] + stream), col, breakCol, newLine) == total
      decreases |stream| + (if bytesRead == 0 then 0 else 1)
    {
      ChunkStart(inputBytes, stream, col, breakCol, newLine);
      ghost var later := Delivered(stream);
      var offset := 0;
      while bytesRead - offset > 3
        invariant 0 <= offset < bytesRead
        invariant output + EncodeFrom(inputBytes[offset..], col, later, breakCol, newLine) == total
      {
        var outputBytes := EncodeQuantum(inputBytes[offset], inputBytes[offset + 1], inputBytes[offset + 2]);
        var written, newCol := Emit(outputBytes, col, breakCol, newLine);
        InnerStep(output, inputBytes, offset, col, later, breakCol, newLine, written, newCol);
        col := newCol;
        output := output + written;
        offset := offset + 3;
      }
      if bytesRead - offset > 0 {
        var outputBytes := Rfc4648.Encode(inputBytes[offset..bytesRead]);
        // the column this Emit returns is not kept
        var written, dropped := Emit(outputBytes, col, breakCol, newLine);
        FinalStep(output, inputBytes, offset, col, later, breakCol, newLine, written);
        output := output + written;
      }
      ReadNext(stream);
      inputBytes := Next(stream);
      stream := Rest(stream);
      bytesRead := |inputBytes|;
    }
    assert inputBytes == [];
    assert output + [] == output;
  }

  // ---------------------------------------------------------------------------
  // Decode

  /** What the decoder has written, and whether it finished without a
      FormatException. Output written before an error stays written. */
  datatype Outcome = Outcome(written: seq<byte>, ok: bool)

  /** The output of one chunk (lines 105-124): 4-character groups while more
      than 4 characters remain, each one four alphabet characters, then a
      final block of 1 to 4 characters that must be one final quantum. */
  function DecodeChunk(chunk: seq<byte>): Outcome
    decreases |chunk|
  {
    if |chunk| <= 4 then
      match DecodeFinalQuantum(chunk)
      case None => Outcome([], false)
      case Some(b) => Outcome(b, true)
    else
      match DecodeQuantum(chunk[..4])
      case None => Outcome([], false)
      case Some(b) =>
        var rest := DecodeChunk(chunk[4..]);
        Outcome(b + rest.written, rest.ok)
  }

  /** first, then next if first finished without an error. */
  function AndThen(first: Outcome, next: Outcome): Outcome {
    if first.ok then Outcome(first.written + next.written, next.ok) else first
  }

  /** The outcome of the decoder for a sequence of chunks. */
  function DecodeChunks(chunks: seq<seq<byte>>): Outcome
    decreases |chunks|
  {
    if chunks == [] then Outcome([], true)
    else AndThen(DecodeChunk(chunks[0]), DecodeChunks(chunks[1..]))
  }

  /** o after output already written. */
  function Prefixed(output: seq<byte>, o: Outcome): Outcome {
    Outcome(output + o.written, o.ok)
  }

  /** Bytes written before an outcome can be counted as its own first bytes. */
  lemma PrefixedShift(output: seq<byte>, b: seq<byte>, o: Outcome, more: Outcome)
    ensures Prefixed(output + b, AndThen(o, more)) == Prefixed(output, AndThen(Outcome(b + o.written, o.ok), more))
  {
    if o.ok {
      assert output + b + (o.written + more.written) == output + ((b + o.written) + more.written);
    } else {
      assert output + b + o.written == output + (b + o.written);
    }
  }

  /** A nonempty read starts a chunk, and the later reads follow it. */
  lemma DecodeStart(chunk: seq<byte>, inStream: seq<seq<byte>>)
    requires chunk != []
    ensures DecodeChunks(Delivered([chunk] + inStream)) == AndThen(DecodeChunk(chunk[0..]), DecodeChunks(Delivered(inStream)))
  {
    DeliveredCons(chunk, inStream);
    assert chunk[0..] == chunk;
  }

  /** One pass of the inner loop: a group of four alphabet characters is
      written as its three bytes and the rest of the chunk follows; any other
      group is a FormatException that ends the decoding. */
  lemma DecodeGroup(output: seq<byte>, chunk: seq<byte>, offset: nat, more: Outcome)
    requires offset + 4 < |chunk|
    ensures DecodeQuantum(chunk[offset..offset + 4]).None? ==>
      Prefixed(output, AndThen(DecodeChunk(chunk[offset..]), more)) == Outcome(output, false)
    ensures DecodeQuantum(chunk[offset..offset + 4]).Some? ==>
      Prefixed(output, AndThen(DecodeChunk(chunk[offset..]), more))
      == Prefixed(output + DecodeQuantum(chunk[offset..offset + 4]).value, AndThen(DecodeChunk(chunk[offset + 4..]), more))
  {
    var x := chunk[offset..];
    assert x[..4] == chunk[offset..offset + 4];
    assert x[4..] == chunk[offset + 4..];
    match DecodeQuantum(x[..4])
    case None =>
      assert output + [] == output;
    case Some(b) =>
      PrefixedShift(output, b, DecodeChunk(x[4..]), more);
  }

  /** The final block of a chunk: one final quantum is written and the later
      chunks follow; anything else is a FormatException. */
  lemma DecodeTail(output: seq<byte>, chunk: seq<byte>, offset: nat, more: Outcome)
    requires offset < |chunk| <= offset + 4
    ensures DecodeFinalQuantum(chunk[offset..|chunk|]).None? ==>
      Prefixed(output, AndThen(DecodeChunk(chunk[offset..]), more)) == Outcome(output, false)
    ensures DecodeFinalQuantum(chunk[offset..|chunk|]).Some? ==>
      Prefixed(output, AndThen(DecodeChunk(chunk[offset..]), more))
      == Prefixed(output + DecodeFinalQuantum(chunk[offset..|chunk|]).value, more)
  {
    assert chunk[offset..|chunk|] == chunk[offset..];
    assert output + [] == output;
    if DecodeFinalQuantum(chunk[offset..]).Some? {
      var b := DecodeFinalQuantum(chunk[offset..]).value;
      assert output + b + more.written == output + (b + more.written);
    }
  }

  /** Decodes the stream `inStream` (lines 93-128). ok is false when the
      transform threw a FormatException; output is what had been written then. */
  method Decode(inStream: seq<seq<byte>>) returns (output: seq<byte>, ok: bool)
    requires Fits(inStream, DecodeBufferSize)
    ensures Outcome(output, ok) == DecodeChunks(Delivered(inStream))
    ensures Delivered(inStream) == [] ==> output == [] && ok
  {
    ghost var total := DecodeChunks(Delivered(inStream));
    output, ok := [], true;
    var stream := inStream;
    ReadNext(stream);
    var inputBytes := Next(stream);
    stream := Rest(stream);
    var bytesRead := |inputBytes|;
    while bytesRead != 0
      invariant bytesRead == |inputBytes|
      invariant Prefixed(output, DecodeChunks(Delivered([inputBytes] + stream))) == total
      decreases |stream| + (if bytesRead == 0 then 0 else 1)
    {
      DecodeStart(inputBytes, stream);
      ghost var more := DecodeChunks(Delivered(stream));
      var offset := 0;
      while bytesRead - offset > 4
        invariant 0 <= offset < bytesRead
        invariant Prefixed(output, AndThen(DecodeChunk(inputBytes[offset..]), more)) == total
      {
        DecodeGroup(output, inputBytes, offset, more);
        var block := DecodeQuantum(inputBytes[offset..offset + 4]);
        if block.None? {
          ok := false;
          return;
        }
        output := output + block.value;
        offset := offset + 4;
      }
      if bytesRead - offset > 0 {
        DecodeTail(output, inputBytes, offset, more);
        var block := DecodeFinalQuantum(inputBytes[offset..bytesRead]);
        if block.None? {
          ok := false;
          return;
        }
        output := output + block.value;
      }
      ReadNext(stream);
      inputBytes := Next(stream);
      stream := Rest(stream);
      bytesRead := |inputBytes|;
    }
    assert inputBytes == [];
    assert output + [] == output;
  }
}
