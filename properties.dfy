/** What the codec of Base64Helper promises about its output: with no line
    breaks and aligned reads the encoder writes the RFC 4648 encoding of its
    input, the decoder inverts it, and with a positive break column every
    chunk's output is cut into lines of at most breakCol characters. */
module Base64Properties {
  import opened Rfc4648
  import opened Layout
  import opened Base64Helper

  /** With breakCol 0 the encoder writes the chunks' encodings one after the
      other, whatever column it starts from. */
  lemma {:induction false} EncodeUnwrapped(chunks: seq<seq<byte>>, col: int32, newLine: seq<byte>)
    ensures EncodeChunks(chunks, col, 0, newLine) == EncodeEach(chunks)
    decreases |chunks|
  {
    if chunks != [] {
      var x := chunks[0];
      WrapUnbroken(Rfc4648.Encode(x), col, newLine);
      WrapUnbroken(Rfc4648.Encode(x[..3 * FullGroups(|x|)]), col, newLine);
      EncodeUnwrapped(chunks[1..], col, newLine);
    }
  }

  /** When every chunk but the last holds a whole number of 3-byte groups, the
      chunks' encodings together are the encoding of all their bytes. */
  lemma {:induction false} EncodeEachAligned(chunks: seq<seq<byte>>)
    requires Aligned(chunks, 3)
    ensures EncodeEach(chunks) == Rfc4648.Encode(Flatten(chunks))
    decreases |chunks|
  {
    if |chunks| == 1 {
      assert Flatten(chunks) == chunks[0] + Flatten(chunks[1..]);
      assert chunks[0] + [] == chunks[0];
      assert Rfc4648.Encode(chunks[0]) + [] == Rfc4648.Encode(chunks[0]);
    } else if |chunks| > 1 {
      assert Aligned(chunks[1..], 3) by {
        forall i | 0 <= i < |chunks[1..]| - 1 ensures |chunks[1..][i]| % 3 == 0 {
          assert chunks[1..][i] == chunks[i + 1];
        }
      }
      EncodeEachAligned(chunks[1..]);
      EncodeAppend(chunks[0], Flatten(chunks[1..]));
    }
  }

  /** With a positive breakCol and a column in 0..breakCol, Emit writes lines
      joined by the terminator, and the lines without the terminators are
      the input: a first line of at most room = breakCol - col bytes, then
      lines of 1 to breakCol bytes, all but the last full. Entered below
      breakCol, the output starts with the first byte, not a terminator. */
  lemma EmitLines(bytes: seq<byte>, col: int32, breakCol: int32, newLine: seq<byte>, room: nat)
    requires 0 < breakCol && 0 <= col <= breakCol && room == breakCol - col
    ensures Wrap(bytes, col, breakCol, newLine).out == Join(Chop(bytes, room, breakCol), newLine)
    ensures Flatten(Chop(bytes, room, breakCol)) == bytes
    ensures |Chop(bytes, room, breakCol)[0]| <= room
    ensures forall i :: 1 <= i < |Chop(bytes, room, breakCol)| ==>
      0 < |Chop(bytes, room, breakCol)[i]| <= breakCol
    ensures forall i :: 1 <= i < |Chop(bytes, room, breakCol)| - 1 ==>
      |Chop(bytes, room, breakCol)[i]| == breakCol
    ensures bytes != [] && col < breakCol ==> Wrap(bytes, col, breakCol, newLine).out[0] == bytes[0]
  {
    WrapLines(bytes, col, breakCol, newLine);
    ChopShape(bytes, room, breakCol);
    if bytes != [] && col < breakCol {
      assert Tick(col, breakCol) == (false, col + 1);
    }
  }

  /** With breakCol 0 and reads that keep 3-byte groups whole, the encoder's
      output decodes to exactly the bytes it read. */
  lemma UnwrappedDecodes(chunks: seq<seq<byte>>, newLine: seq<byte>)
    requires Aligned(chunks, 3)
    ensures Rfc4648.Decode(EncodeChunks(chunks, 0, 0, newLine)) == Some(Flatten(chunks))
  {
    EncodeUnwrapped(chunks, 0, newLine);
    EncodeEachAligned(chunks);
    DecodeEncode(Flatten(chunks));
  }

  /** With a positive breakCol, one chunk entered at a column in 0..breakCol
      comes out as its encoding cut into lines: the first fills the current
      line up to breakCol, the others hold breakCol characters, the last
      possibly fewer. The column carried on stays in 0..breakCol. */
  lemma ChunkLines(chunk: seq<byte>, col: int32, breakCol: int32, newLine: seq<byte>)
    requires 0 < breakCol && 0 <= col <= breakCol
    ensures ChunkOutput(chunk, col, breakCol, newLine).out
      == Join(Chop(Rfc4648.Encode(chunk), breakCol - col, breakCol), newLine)
    ensures 0 <= ChunkOutput(chunk, col, breakCol, newLine).col <= breakCol
  {
    WrapLines(Rfc4648.Encode(chunk), col, breakCol, newLine);
    WrapColumn(Rfc4648.Encode(chunk[..3 * FullGroups(|chunk|)]), col, breakCol, newLine);
  }

  /** The encoder writes only alphabet characters, the pad character and the
      bytes of the line terminator. */
  lemma {:induction false} EncodedSymbols(chunks: seq<seq<byte>>, col: int32, breakCol: int32, newLine: seq<byte>)
    ensures forall c :: c in EncodeChunks(chunks, col, breakCol, newLine) ==> InAlphabet(c) || c == Pad || c in newLine
    decreases |chunks|
  {
    if chunks != [] {
      var x := chunks[0];
      var c := ChunkOutput(x, col, breakCol, newLine);
      EncodedSymbols(chunks[1..], c.col, breakCol, newLine);
      WrapSymbols(Rfc4648.Encode(x), col, breakCol, newLine);
      EncodeAlphabet(x);
      assert EncodeChunks(chunks, col, breakCol, newLine) == c.out + EncodeChunks(chunks[1..], c.col, breakCol, newLine);
    }
  }

  /** A full read of the encoder, 3 * BucketSize bytes, is encoded as exactly
      one full read of the decoder, 4 * BucketSize characters, without padding. */
  lemma FullChunk(chunk: seq<byte>)
    requires |chunk| == EncodeBufferSize
    ensures |Rfc4648.Encode(chunk)| == DecodeBufferSize
    ensures Pad !in Rfc4648.Encode(chunk)
  {
    EncodePadding(chunk);
  }

  /** The decoder's handling of one nonempty chunk agrees with decoding the
      chunk as a whole text: it finishes without a FormatException exactly when
      the chunk is a valid encoding, and then writes its bytes. */
  lemma {:induction false} DecodeChunkAgrees(chunk: seq<byte>)
    requires chunk != []
    ensures DecodeChunk(chunk).ok <==> Rfc4648.Decode(chunk).Some?
    ensures DecodeChunk(chunk).ok ==> DecodeChunk(chunk).written == Rfc4648.Decode(chunk).value
    decreases |chunk|
  {
    if |chunk| > 4 {
      DecodeChunkAgrees(chunk[4..]);
    }
  }

  /** In a valid encoding, no pad character comes before the last quantum. */
  lemma PaddingOnlyLast(a: seq<byte>, rest: seq<byte>)
    requires |a| % 4 == 0 && rest != []
    requires Rfc4648.Decode(a + rest).Some?
    ensures Pad !in a
  {
    var text := a + rest;
    DecodeShape(text);
    QuantumAfter(|a|, |rest|);
    forall i | 0 <= i < |a| ensures a[i] != Pad {
      assert a[i] == text[i] && InAlphabet(text[i]);
    }
  }

  /** Text after a whole number of quanta, in a whole number of quanta, holds
      a quantum if it holds anything. */
  lemma QuantumAfter(m: nat, n: nat)
    requires m % 4 == 0 && (m + n) % 4 == 0 && n > 0
    ensures n >= 4
  {
  }

  /** Decoding chunks that keep 4-character groups whole: if the text they
      make up is a valid encoding, the decoder writes its bytes and finishes
      without a FormatException. */
  lemma {:induction false} DecodeText(chunks: seq<seq<byte>>)
    requires Aligned(chunks, 4)
    requires forall i :: 0 <= i < |chunks| ==> chunks[i] != []
    requires Rfc4648.Decode(Flatten(chunks)).Some?
    ensures DecodeChunks(chunks) == Outcome(Rfc4648.Decode(Flatten(chunks)).value, true)
    decreases |chunks|
  {
    if chunks != [] {
      var a, rest := chunks[0], Flatten(chunks[1..]);
      var text := Flatten(chunks);
      assert text == a + rest;
      DecodeChunkAgrees(a);
      if |chunks| == 1 {
        assert text == a;
        assert DecodeChunk(a).written + [] == DecodeChunk(a).written;
      } else {
        assert Aligned(chunks[1..], 4) by {
          forall i | 0 <= i < |chunks[1..]| - 1 ensures |chunks[1..][i]| % 4 == 0 {
            assert chunks[1..][i] == chunks[i + 1];
          }
        }
        assert chunks[1..][0] == chunks[1];
        assert Flatten(chunks[1..]) == chunks[1] + Flatten(chunks[2..]);
        PaddingOnlyLast(a, rest);
        DecodeAppend(a, rest);
        DecodeText(chunks[1..]);
      }
    }
  }

  /** The round trip: text the encoder wrote with breakCol 0 from reads that
      keep 3-byte groups whole, read back by the decoder in pieces that keep
      4-character groups whole, decodes to the bytes read, without error. */
  lemma RoundTrip(encoderReads: seq<seq<byte>>, decoderReads: seq<seq<byte>>, newLine: seq<byte>)
    requires Aligned(encoderReads, 3)
    requires Aligned(decoderReads, 4)
    requires forall i :: 0 <= i < |decoderReads| ==> decoderReads[i] != []
    requires Flatten(decoderReads) == EncodeChunks(encoderReads, 0, 0, newLine)
    ensures DecodeChunks(decoderReads) == Outcome(Flatten(encoderReads), true)
  {
    UnwrappedDecodes(encoderReads, newLine);
    DecodeText(decoderReads);
  }

  /** The chunks' encodings, one per chunk. */
  function Encodings(chunks: seq<seq<byte>>): (texts: seq<seq<byte>>)
    ensures |texts| == |chunks|
    ensures forall i :: 0 <= i < |chunks| ==> texts[i] == Rfc4648.Encode(chunks[i])
  {
    seq(|chunks|, i requires 0 <= i < |chunks| => Rfc4648.Encode(chunks[i]))
  }

  /** The chunks' encodings, joined, are what EncodeEach writes. */
  lemma {:induction false} FlattenEncodings(chunks: seq<seq<byte>>)
    ensures Flatten(Encodings(chunks)) == EncodeEach(chunks)
    decreases |chunks|
  {
    if chunks != [] {
      FlattenEncodings(chunks[1..]);
      assert Encodings(chunks)[1..] == Encodings(chunks[1..]);
    }
  }

  /** The encodings of full reads are full reads of the decoder, and no
      encoding of a nonempty chunk is empty. */
  lemma FullEncodings(chunks: seq<seq<byte>>)
    requires forall i :: 0 <= i < |chunks| ==> chunks[i] != []
    requires forall i :: 0 <= i < |chunks| - 1 ==> |chunks[i]| == EncodeBufferSize
    ensures Aligned(chunks, 3)
    ensures forall i :: 0 <= i < |chunks| - 1 ==> |Encodings(chunks)[i]| == DecodeBufferSize
    ensures Aligned(Encodings(chunks), 4)
    ensures forall i :: 0 <= i < |chunks| ==> Encodings(chunks)[i] != []
  {
    var texts := Encodings(chunks);
    forall i | 0 <= i < |chunks| ensures texts[i] != [] {
      assert |texts[i]| == 4 * ((|chunks[i]| + 2) / 3);
    }
    forall i | 0 <= i < |chunks| - 1 ensures |texts[i]| == DecodeBufferSize {
      FullChunk(chunks[i]);
    }
  }

  /** Full reads line up: when every read of the encoder but the last fills
      its buffer, the encodings of its chunks are full reads of the decoder,
      and reading them back decodes to the bytes read, without error. */
  lemma FullReadsLineUp(chunks: seq<seq<byte>>, newLine: seq<byte>)
    requires forall i :: 0 <= i < |chunks| ==> chunks[i] != []
    requires forall i :: 0 <= i < |chunks| - 1 ==> |chunks[i]| == EncodeBufferSize
    ensures forall i :: 0 <= i < |chunks| - 1 ==> |Encodings(chunks)[i]| == DecodeBufferSize
    ensures Flatten(Encodings(chunks)) == EncodeChunks(chunks, 0, 0, newLine)
    ensures DecodeChunks(Encodings(chunks)) == Outcome(Flatten(chunks), true)
  {
    FlattenEncodings(chunks);
    EncodeUnwrapped(chunks, 0, newLine);
    FullEncodings(chunks);
    RoundTrip(chunks, Encodings(chunks), newLine);
  }
}
