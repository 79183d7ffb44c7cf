/** Two encoders that differ from Base64Helper.Encode where its output is
    not the wrapped Base64 encoding of the input. EncodeThreaded keeps the
    column that the final block's Emit returns; EncodeCarried also carries
    the bytes after a chunk's last whole group into the next chunk, so that
    only the end of the input is padded. */
module CorrectedEncode {
  import opened Rfc4648
  import opened Layout
  import opened Base64Helper

  /** With the column threaded through every Emit, the lines follow each
      other across chunks. */
  function ThreadFrom(rest: seq<byte>, col: int32, later: seq<seq<byte>>, breakCol: int32, newLine: seq<byte>): seq<byte> {
    Wrap(Rfc4648.Encode(rest) + EncodeEach(later), col, breakCol, newLine).out
  }

  /** A nonempty read starts a chunk at the column the encoder is at. */
  lemma ThreadStart(chunk: seq<byte>, inStream: seq<seq<byte>>, col: int32, breakCol: int32, newLine: seq<byte>)
    requires chunk != []
    ensures Wrap(EncodeEach(Delivered([chunk] + inStream)), col, breakCol, newLine).out
      == ThreadFrom(chunk[0..], col, Delivered(inStream), breakCol, newLine)
  {
    DeliveredCons(chunk, inStream);
    assert chunk[0..] == chunk;
  }

  /** With the column threaded, a chunk of more than 3 bytes is written as
      its first quantum, then the rest from the column that quantum left. */
  lemma ThreadGroup(x: seq<byte>, col: int32, later: seq<seq<byte>>, breakCol: int32, newLine: seq<byte>)
    requires |x| > 3
    ensures ThreadFrom(x, col, later, breakCol, newLine)
      == Wrap(EncodeQuantum(x[0], x[1], x[2]), col, breakCol, newLine).out
         + ThreadFrom(x[3..], Wrap(EncodeQuantum(x[0], x[1], x[2]), col, breakCol, newLine).col, later, breakCol, newLine)
  {
    GroupPrefix(x);
    WrapSplit(Rfc4648.Encode(x), EncodeQuantum(x[0], x[1], x[2]), Rfc4648.Encode(x[3..]), EncodeEach(later),
              col, breakCol, newLine);
  }

  /** If t is q + r, emitting t + e is emitting q and then r + e. */
  lemma WrapSplit(t: seq<byte>, q: seq<byte>, r: seq<byte>, e: seq<byte>, col: int32, breakCol: int32, newLine: seq<byte>)
    requires t == q + r
    ensures Wrap(t + e, col, breakCol, newLine).out
      == Wrap(q, col, breakCol, newLine).out + Wrap(r + e, Wrap(q, col, breakCol, newLine).col, breakCol, newLine).out
  {
    ConcatAssoc(q, r, e);
    WrapAppend(q, r + e, col, breakCol, newLine);
  }

  /** One pass of the inner loop of EncodeThreaded. */
  lemma ThreadStep(output: seq<byte>, chunk: seq<byte>, offset: nat, col: int32, later: seq<seq<byte>>,
                   breakCol: int32, newLine: seq<byte>, written: seq<byte>, newCol: int32)
    requires offset + 3 < |chunk|
    requires written == Wrap(EncodeQuantum(chunk[offset], chunk[offset + 1], chunk[offset + 2]), col, breakCol, newLine).out
    requires newCol == Wrap(EncodeQuantum(chunk[offset], chunk[offset + 1], chunk[offset + 2]), col, breakCol, newLine).col
    ensures output + ThreadFrom(chunk[offset..], col, later, breakCol, newLine)
      == (output + written) + ThreadFrom(chunk[offset + 3..], newCol, later, breakCol, newLine)
  {
    var x := chunk[offset..];
    assert x[3..] == chunk[offset + 3..];
    assert x[0] == chunk[offset] && x[1] == chunk[offset + 1] && x[2] == chunk[offset + 2];
    ThreadGroup(x, col, later, breakCol, newLine);
  }

  /** The final block of EncodeThreaded: the later chunks start from the
      column its Emit returned. */
  lemma ThreadFinal(output: seq<byte>, chunk: seq<byte>, offset: nat, col: int32, later: seq<seq<byte>>,
                    breakCol: int32, newLine: seq<byte>, written: seq<byte>, newCol: int32)
    requires offset < |chunk| <= offset + 3
    requires written == Wrap(Rfc4648.Encode(chunk[offset..|chunk|]), col, breakCol, newLine).out
    requires newCol == Wrap(Rfc4648.Encode(chunk[offset..|chunk|]), col, breakCol, newLine).col
    ensures output + ThreadFrom(chunk[offset..], col, later, breakCol, newLine)
      == (output + written) + Wrap(EncodeEach(later), newCol, breakCol, newLine).out
  {
    assert chunk[offset..|chunk|] == chunk[offset..];
    WrapAppend(Rfc4648.Encode(chunk[offset..]), EncodeEach(later), col, breakCol, newLine);
  }

  /** Base64Helper.Encode with the column of the final block's Emit kept:
      the output is the chunks' encodings wrapped as one text. With a
      positive breakCol every line is breakCol characters long except
      possibly the last. */
  method EncodeThreaded(inStream: seq<seq<byte>>, breakCol: int32, newLine: seq<byte>) returns (output: seq<byte>)
    requires Fits(inStream, EncodeBufferSize)
    ensures output == Wrap(EncodeEach(Delivered(inStream)), 0, breakCol, newLine).out
    ensures 0 < breakCol ==> output == Join(Chop(EncodeEach(Delivered(inStream)), breakCol, breakCol), newLine)
  {
    ghost var total := Wrap(EncodeEach(Delivered(inStream)), 0, breakCol, newLine).out;
    var col: int32 := 0;
    output := [];
    var stream := inStream;
    ReadNext(stream);
    var inputBytes := Next(stream);
    stream := Rest(stream);
    var bytesRead := |inputBytes|;
    while bytesRead != 0
      invariant bytesRead == |inputBytes|
      invariant output + Wrap(EncodeEach(Delivered([inputBytes] + stream)), col, breakCol, newLine).out == total
      decreases |stream| + (if bytesRead == 0 then 0 else 1)
    {
      ThreadStart(inputBytes, stream, col, breakCol, newLine);
      ghost var later := Delivered(stream);
      var offset := 0;
      while bytesRead - offset > 3
        invariant 0 <= offset < bytesRead
        invariant output + ThreadFrom(inputBytes[offset..], col, later, breakCol, newLine) == total
      {
        var outputBytes := EncodeQuantum(inputBytes[offset], inputBytes[offset + 1], inputBytes[offset + 2]);
        var written, newCol := Emit(outputBytes, col, breakCol, newLine);
        ThreadStep(output, inputBytes, offset, col, later, breakCol, newLine, written, newCol);
        col := newCol;
        output := output + written;
        offset := offset + 3;
      }
      if bytesRead - offset > 0 {
        var outputBytes := Rfc4648.Encode(inputBytes[offset..bytesRead]);
        var written, newCol := Emit(outputBytes, col, breakCol, newLine);
        ThreadFinal(output, inputBytes, offset, col, later, breakCol, newLine, written, newCol);
        col := newCol;
        output := output + written;
      }
      ReadNext(stream);
      inputBytes := Next(stream);
      stream := Rest(stream);
      bytesRead := |inputBytes|;
    }
    assert inputBytes == [];
    assert output + [] == output;
    if 0 < breakCol {
      WrapLines(EncodeEach(Delivered(inStream)), 0, breakCol, newLine);
    }
  }

  /** A group of three bytes is encoded as one quantum. */
  lemma EncodeGroup(g: seq<byte>)
    requires |g| == 3
    ensures Rfc4648.Encode(g) == EncodeQuantum(g[0], g[1], g[2])
  {
    assert g[3..] == [];
  }

  /** Adding one whole group to the bytes consumed so far adds its quantum,
      emitted from the column the earlier output ended at. */
  lemma CarriedGroup(consumed: seq<byte>, g: seq<byte>, breakCol: int32, newLine: seq<byte>)
    requires |consumed| % 3 == 0 && |g| == 3
    ensures Wrap(Rfc4648.Encode(consumed + g), 0, breakCol, newLine).out
      == Wrap(Rfc4648.Encode(consumed), 0, breakCol, newLine).out
         + Wrap(EncodeQuantum(g[0], g[1], g[2]), Wrap(Rfc4648.Encode(consumed), 0, breakCol, newLine).col, breakCol, newLine).out
    ensures Wrap(Rfc4648.Encode(consumed + g), 0, breakCol, newLine).col
      == Wrap(EncodeQuantum(g[0], g[1], g[2]), Wrap(Rfc4648.Encode(consumed), 0, breakCol, newLine).col, breakCol, newLine).col
  {
    EncodeGroup(g);
    EncodeAppend(consumed, g);
    WrapAppend(Rfc4648.Encode(consumed), Rfc4648.Encode(g), 0, breakCol, newLine);
  }

  /** A length of k whole groups leaves no remainder. */
  lemma WholeGroups(n: nat, k: nat)
    requires n == 3 * k
    ensures n % 3 == 0
  {
  }

  /** Moving one group from the unread bytes to the consumed bytes. */
  lemma MoveGroup(consumed: seq<byte>, data: seq<byte>, offset: nat)
    requires offset + 3 <= |data|
    ensures (consumed + data[offset..offset + 3]) + data[offset + 3..] == consumed + data[offset..]
  {
    assert data[offset..] == data[offset..offset + 3] + data[offset + 3..];
  }

  /** One pass of the inner loop of EncodeCarried: the output and the column
      are those of the consumed bytes and one more group. */
  lemma CarriedStep(consumed: seq<byte>, group: seq<byte>,
                    output: seq<byte>, col: int32, breakCol: int32, newLine: seq<byte>, written: seq<byte>, newCol: int32)
    requires |consumed| % 3 == 0 && |group| == 3
    requires output == Wrap(Rfc4648.Encode(consumed), 0, breakCol, newLine).out
    requires col == Wrap(Rfc4648.Encode(consumed), 0, breakCol, newLine).col
    requires written == Wrap(EncodeQuantum(group[0], group[1], group[2]), col, breakCol, newLine).out
    requires newCol == Wrap(EncodeQuantum(group[0], group[1], group[2]), col, breakCol, newLine).col
    ensures output + written == Wrap(Rfc4648.Encode(consumed + group), 0, breakCol, newLine).out
    ensures newCol == Wrap(Rfc4648.Encode(consumed + group), 0, breakCol, newLine).col
  {
    CarriedGroup(consumed, group, breakCol, newLine);
  }

  /** The carried bytes and a new chunk are the rest of the input. */
  lemma CarryStart(consumed: seq<byte>, carry: seq<byte>, chunk: seq<byte>, inStream: seq<seq<byte>>)
    requires chunk != []
    ensures consumed + carry + Flatten(Delivered([chunk] + inStream))
      == (consumed + (carry + chunk)) + Flatten(Delivered(inStream))
  {
    DeliveredCons(chunk, inStream);
    assert ([chunk] + Delivered(inStream))[1..] == Delivered(inStream);
  }

  /** The inner loop of EncodeCarried: the whole groups at the front of data
      are emitted after the output of the bytes consumed so far, and offset
      is where the fewer than 3 bytes left over start. */
  method EmitGroups(ghost consumed: seq<byte>, data: seq<byte>, output: seq<byte>, col: int32, breakCol: int32, newLine: seq<byte>)
    returns (ghost done: seq<byte>, out: seq<byte>, newCol: int32, offset: nat)
    requires |consumed| % 3 == 0
    requires output == Wrap(Rfc4648.Encode(consumed), 0, breakCol, newLine).out
    requires col == Wrap(Rfc4648.Encode(consumed), 0, breakCol, newLine).col
    ensures offset <= |data| && |data| - offset < 3
    ensures |done| % 3 == 0 && done + data[offset..] == consumed + data
    ensures out == Wrap(Rfc4648.Encode(done), 0, breakCol, newLine).out
    ensures newCol == Wrap(Rfc4648.Encode(done), 0, breakCol, newLine).col
  {
    done, out, newCol, offset := consumed, output, col, 0;
    ghost var groups := |consumed| / 3;
    assert data[0..] == data;
    while |data| - offset >= 3
      invariant 0 <= offset <= |data| && |done| == 3 * groups
      invariant done + data[offset..] == consumed + data
      invariant out == Wrap(Rfc4648.Encode(done), 0, breakCol, newLine).out
      invariant newCol == Wrap(Rfc4648.Encode(done), 0, breakCol, newLine).col
    {
      var group := data[offset..offset + 3];
      var outputBytes := EncodeQuantum(group[0], group[1], group[2]);
      var written, groupCol := Emit(outputBytes, newCol, breakCol, newLine);
      WholeGroups(|done|, groups);
      CarriedStep(done, group, out, newCol, breakCol, newLine, written, groupCol);
      MoveGroup(done, data, offset);
      done := done + group;
      groups := groups + 1;
      newCol := groupCol;
      out := out + written;
      offset := offset + 3;
    }
    WholeGroups(|done|, groups);
  }

  /** The last carried bytes, emitted as the final block, complete the
      encoding of the whole input. */
  lemma CarryFinal(consumed: seq<byte>, carry: seq<byte>, breakCol: int32, newLine: seq<byte>)
    requires |consumed| % 3 == 0
    ensures Wrap(Rfc4648.Encode(consumed + carry), 0, breakCol, newLine).out
      == Wrap(Rfc4648.Encode(consumed), 0, breakCol, newLine).out
         + Wrap(Rfc4648.Encode(carry), Wrap(Rfc4648.Encode(consumed), 0, breakCol, newLine).col, breakCol, newLine).out
  {
    EncodeAppend(consumed, carry);
    WrapAppend(Rfc4648.Encode(consumed), Rfc4648.Encode(carry), 0, breakCol, newLine);
  }

  /** The encoder with both corrections: the bytes after a chunk's last whole
      group are kept for the next chunk, only the end of the input goes to
      the final block, and every Emit's column is kept. The output is the
      wrapped Base64 encoding of all the bytes read, however the reads split
      them. */
  method EncodeCarried(inStream: seq<seq<byte>>, breakCol: int32, newLine: seq<byte>) returns (output: seq<byte>)
    requires Fits(inStream, EncodeBufferSize)
    ensures output == Wrap(Rfc4648.Encode(Flatten(Delivered(inStream))), 0, breakCol, newLine).out
  {
    ghost var all := Flatten(Delivered(inStream));
    ghost var consumed: seq<byte> := [];
    var col: int32 := 0;
    output := [];
    var carry: seq<byte> := [];
    var stream := inStream;
    ReadNext(stream);
    var inputBytes := Next(stream);
    stream := Rest(stream);
    var bytesRead := |inputBytes|;
    while bytesRead != 0
      invariant bytesRead == |inputBytes| && |consumed| % 3 == 0 && |carry| < 3
      invariant consumed + carry + Flatten(Delivered([inputBytes] + stream)) == all
      invariant output == Wrap(Rfc4648.Encode(consumed), 0, breakCol, newLine).out
      invariant col == Wrap(Rfc4648.Encode(consumed), 0, breakCol, newLine).col
      decreases |stream| + (if bytesRead == 0 then 0 else 1)
    {
      CarryStart(consumed, carry, inputBytes, stream);
      var data := carry + inputBytes;
      var offset;
      consumed, output, col, offset := EmitGroups(consumed, data, output, col, breakCol, newLine);
      carry := data[offset..];
      ReadNext(stream);
      inputBytes := Next(stream);
      stream := Rest(stream);
      bytesRead := |inputBytes|;
    }
    assert inputBytes == [] && Flatten(Delivered([inputBytes] + stream)) == [];
    assert consumed + carry == all;
    CarryFinal(consumed, carry, breakCol, newLine);
    if |carry| > 0 {
      var written, newCol := Emit(Rfc4648.Encode(carry), col, breakCol, newLine);
      col := newCol;
      output := output + written;
    } else {
      assert consumed + carry == consumed;
    }
  }
}
