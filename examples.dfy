/** Worked cases of the codec, and the two inputs on which the encoder as
    written departs from the wrapped Base64 encoding of its input. */
module Base64Examples {
  import opened Rfc4648
  import opened Layout
  import opened Base64Helper
  import opened CorrectedEncode

  /** "Man", "M" and their encodings, as ASCII bytes. */
  const Man: seq<byte> := [77, 97, 110]
  const TWFu: seq<byte> := [84, 87, 70, 117]
  const TQ: seq<byte> := [84, 81, 61, 61]

  /** "TQ=X": a pad character that is not at the end. */
  const TQX: seq<byte> := [84, 81, 61, 88]

  lemma ManExample()
    ensures Rfc4648.Encode(Man) == TWFu
    ensures Rfc4648.Decode(TWFu) == Some(Man)
    ensures Rfc4648.Encode(Man[..1]) == TQ
    ensures Rfc4648.Decode(TQ) == Some(Man[..1])
  {
    ManGroup();
    ManFirstByte();
  }

  /** "Man" is the full quantum "TWFu". */
  lemma ManGroup()
    ensures Rfc4648.Encode(Man) == TWFu
    ensures Rfc4648.Decode(TWFu) == Some(Man)
  {
    SingleGroup(Man);
    assert Man[0] == 77 && Man[1] == 97 && Man[2] == 110;
    assert Letter(19) == 84 && Letter(22) == 87 && Letter(5) == 70 && Letter(46) == 117;
    assert 77 / 4 == 19 && (77 % 4) * 16 + 97 / 16 == 22 && (97 % 16) * 4 + 110 / 64 == 5 && 110 % 64 == 46;
    assert EncodeQuantum(77, 97, 110) == TWFu;
    DecodeEncode(Man);
  }

  /** "M" is the padded quantum "TQ==". */
  lemma ManFirstByte()
    ensures Rfc4648.Encode(Man[..1]) == TQ
    ensures Rfc4648.Decode(TQ) == Some(Man[..1])
  {
    assert Man[..1] == [77];
    DecodeEncode(Man[..1]);
  }

  /** "TQ=X" is a FormatException, for the decoder read in one chunk too. */
  lemma MisplacedPad()
    ensures Rfc4648.Decode(TQX) == None
    ensures DecodeChunks(Delivered([TQX])) == Outcome([], false)
  {
    assert Delivered([TQX]) == [TQX];
  }

  /** "TR==": the bits that padding leaves over are ignored, so it decodes
      as "TQ==" does. */
  lemma PadBitsIgnored()
    ensures Rfc4648.Decode([84, 82, 61, 61]) == Some([77])
    ensures Rfc4648.Decode([84, 82, 61, 61]) == Rfc4648.Decode(TQ)
  {
    ManFirstByte();
    assert Man[..1] == [77];
    ValueOfLetter(19);
    ValueOfLetter(17);
    assert 19 * 4 + 17 / 16 == 77;
  }

  /** Emit with breakCol 4 puts a terminator between two quanta and none
      after the last. */
  lemma EmitExample(newLine: seq<byte>)
    ensures Wrap(TWFu + TWFu, 0, 4, newLine).out == TWFu + newLine + TWFu
    ensures Wrap(TWFu + TWFu, 0, 4, newLine).col == 4
  {
    WrapAppend(TWFu, TWFu, 0, 4, newLine);
    WrapWithin(TWFu, 0, 4, newLine);
    WrapAtBreak(TWFu, 4, newLine);
  }

  // ---------------------------------------------------------------------------
  // The column of the final block

  const A4: seq<byte> := [65, 65, 65, 65]

  /** Two nonempty reads are delivered as they are. */
  lemma DeliveredTwo(first: seq<byte>, second: seq<byte>)
    requires first != [] && second != []
    ensures Delivered([first, second]) == [first, second]
    ensures Flatten([first, second]) == first + second
  {
    DeliveredCons(second, []);
    assert [first, second] == [first] + [second];
    DeliveredCons(first, [second]);
    assert [first, second][1..] == [second];
    assert Flatten([second]) == second + Flatten<byte>([]);
  }

  /** Three zero bytes are the quantum "AAAA". */
  lemma EncodeZeroGroup(z: seq<byte>)
    requires z == [0, 0, 0]
    ensures Rfc4648.Encode(z) == A4
  {
    assert EncodeQuantum(0, 0, 0) == A4;
    assert z[3..] == [];
  }

  /** Zero bytes encode as "A"s. */
  lemma EncodeZeros()
    ensures Rfc4648.Encode([0, 0, 0]) == A4
    ensures Rfc4648.Encode([0, 0, 0, 0, 0, 0]) == A4 + A4
  {
    var z: seq<byte> := [0, 0, 0];
    EncodeZeroGroup(z);
    EncodeAppend(z, z);
    assert z + z == [0, 0, 0, 0, 0, 0];
  }

  /** Four characters emitted with breakCol 8, from the columns the cases below
      enter them at. */
  lemma EmitA4()
    ensures Wrap(A4, 0, 8, [10]) == Emitted(A4, 4)
    ensures Wrap(A4, 4, 8, [10]) == Emitted(A4, 8)
    ensures Wrap(A4, 8, 8, [10]) == Emitted([10] + A4, 4)
  {
    WrapWithin(A4, 0, 8, [10]);
    WrapWithin(A4, 4, 8, [10]);
    WrapAtBreak(A4, 8, [10]);
  }

  /** The encoder's output for two chunks, one after the other. */
  lemma EncodeTwoChunks(first: seq<byte>, second: seq<byte>, col: int32, breakCol: int32, newLine: seq<byte>)
    ensures EncodeChunks([first, second], col, breakCol, newLine)
      == ChunkOutput(first, col, breakCol, newLine).out
         + ChunkOutput(second, ChunkOutput(first, col, breakCol, newLine).col, breakCol, newLine).out
  {
    var c := ChunkOutput(first, col, breakCol, newLine);
    assert [first, second][1..] == [second];
    assert EncodeChunks([first, second], col, breakCol, newLine) == c.out + EncodeChunks([second], c.col, breakCol, newLine);
    var d := ChunkOutput(second, c.col, breakCol, newLine);
    assert [second][1..] == [];
    assert EncodeChunks([second], c.col, breakCol, newLine) == d.out + EncodeChunks([], d.col, breakCol, newLine);
    assert d.out + [] == d.out;
  }

  /** The encodings of two chunks, one after the other. */
  lemma EncodeEachTwo(first: seq<byte>, second: seq<byte>)
    ensures EncodeEach([first, second]) == Rfc4648.Encode(first) + Rfc4648.Encode(second)
  {
    assert [first, second][1..] == [second];
    assert EncodeEach([first, second]) == Rfc4648.Encode(first) + EncodeEach([second]);
    assert [second][1..] == [];
    assert EncodeEach([second]) == Rfc4648.Encode(second) + EncodeEach([]);
    assert Rfc4648.Encode(second) + [] == Rfc4648.Encode(second);
  }

  /** Six zero bytes with breakCol 8, from column 0: eight characters, and
      the column carried on is 4, the one before the final block. */
  lemma StaleFirstChunk()
    ensures ChunkOutput([0, 0, 0, 0, 0, 0], 0, 8, [10]) == Emitted(A4 + A4, 4)
  {
    var first: seq<byte> := [0, 0, 0, 0, 0, 0];
    assert FullGroups(|first|) == 1;
    assert first[..3] == [0, 0, 0];
    EncodeZeros();
    EmitA4();
    WrapAppend(A4, A4, 0, 8, [10]);
    assert Wrap(A4 + A4, 0, 8, [10]) == Emitted(A4 + A4, 8);
    assert Wrap(Rfc4648.Encode(first[..3]), 0, 8, [10]) == Emitted(A4, 4);
  }

  /** Three zero bytes with breakCol 8, from column 4: four characters and
      no terminator. */
  lemma StaleSecondChunk()
    ensures ChunkOutput([0, 0, 0], 4, 8, [10]).out == A4
  {
    EncodeZeros();
    EmitA4();
  }

  /** Reads of six and then three zero bytes with breakCol 8: the encoder as
      written starts the second chunk at column 4, the column before its
      first chunk's final block, and so writes a line of twelve characters. */
  lemma StaleColumn()
    ensures EncodeChunks(Delivered([[0, 0, 0, 0, 0, 0], [0, 0, 0]]), 0, 8, [10]) == A4 + A4 + A4
  {
    DeliveredTwo([0, 0, 0, 0, 0, 0], [0, 0, 0]);
    EncodeTwoChunks([0, 0, 0, 0, 0, 0], [0, 0, 0], 0, 8, [10]);
    StaleFirstChunk();
    StaleSecondChunk();
  }

  /** The same reads, with the column kept: eight characters, the terminator,
      four characters. */
  lemma ThreadedColumn()
    ensures Wrap(EncodeEach(Delivered([[0, 0, 0, 0, 0, 0], [0, 0, 0]])), 0, 8, [10]).out == A4 + A4 + [10] + A4
  {
    DeliveredTwo([0, 0, 0, 0, 0, 0], [0, 0, 0]);
    EncodeEachTwo([0, 0, 0, 0, 0, 0], [0, 0, 0]);
    EncodeZeros();
    EmitA4();
    WrapAppend(A4 + A4, A4, 0, 8, [10]);
    WrapAppend(A4, A4, 0, 8, [10]);
  }

  // ---------------------------------------------------------------------------
  // Padding at the end of every chunk

  /** "AA==AA==" */
  const AA2: seq<byte> := [65, 65, 61, 61, 65, 65, 61, 61]

  /** Two reads of one zero byte each: the encoder as written pads both, and
      the text it writes is not a valid encoding; the decoder, reading it in
      one chunk, stops with a FormatException having written nothing. */
  lemma PaddedChunks(newLine: seq<byte>)
    ensures EncodeChunks(Delivered([[0], [0]]), 0, 0, newLine) == AA2
    ensures Rfc4648.Decode(AA2) == None
    ensures DecodeChunks(Delivered([AA2])) == Outcome([], false)
  {
    var one: seq<byte> := [0];
    DeliveredTwo(one, one);
    assert Delivered([AA2]) == [AA2];
    WrapUnbroken(Rfc4648.Encode(one), 0, newLine);
    WrapUnbroken(Rfc4648.Encode(one[..0]), 0, newLine);
    assert EncodeChunks([one], 0, 0, newLine) == [65, 65, 61, 61] + [];
    assert AA2[..4] == [65, 65, 61, 61];
  }

  /** "AA==", the encoding of one zero byte. */
  const AA: seq<byte> := [65, 65, 61, 61]

  /** The decoder's outcome depends on how reads split the text: "AA==AA=="
      read as two pieces of four characters ends each piece with a final
      block, so it decodes to two zero bytes without a FormatException. */
  lemma SplitPaddedText()
    ensures DecodeChunks(Delivered([AA, AA])) == Outcome([0, 0], true)
    ensures AA + AA == AA2
  {
    DeliveredTwo(AA, AA);
    assert Rfc4648.Encode([0]) == AA;
    DecodeEncode([0]);
    assert DecodeChunk(AA) == Outcome([0], true);
    assert [AA, AA][1..] == [AA] && [AA][1..] == [];
    assert DecodeChunks([AA]) == Outcome([0] + [], true);
  }

  /** "TWFuTQ==" is a valid text, yet read as "TWFuT" and then "Q==" the
      first piece ends with the one-character final block "T", and the
      decoder stops with a FormatException after "Man". */
  lemma SplitValidText()
    ensures Rfc4648.Decode(TWFu + TQ) == Some(Man + [77])
    ensures DecodeChunks(Delivered([TWFu + [84], [81, 61, 61]])) == Outcome(Man, false)
  {
    ManExample();
    assert DecodeQuantum(TWFu) == Some(Man);
    DecodeCons(TWFu, TQ);
    assert Man[..1] == [77];
    DeliveredTwo(TWFu + [84], [81, 61, 61]);
    var t := TWFu + [84];
    assert t[..4] == TWFu && t[4..] == [84];
    assert DecodeChunk(t) == Outcome(Man + [], false);
  }

  /** The same reads, with the byte carried over: the two bytes become one
      quantum "AAA=", padded once, at the end. */
  lemma CarriedPadding(newLine: seq<byte>)
    ensures Wrap(Rfc4648.Encode(Flatten(Delivered([[0], [0]]))), 0, 0, newLine).out == [65, 65, 65, 61]
  {
    var one: seq<byte> := [0];
    DeliveredTwo(one, one);
    assert one + one == [0, 0];
    WrapUnbroken(Rfc4648.Encode([0, 0]), 0, newLine);
  }

  /** The corrected encoder's output decodes to the bytes read, however the
      reads split them, when breakCol is 0. */
  lemma CarriedDecodes(bytes: seq<byte>, newLine: seq<byte>)
    ensures Rfc4648.Decode(Wrap(Rfc4648.Encode(bytes), 0, 0, newLine).out) == Some(bytes)
  {
    WrapUnbroken(Rfc4648.Encode(bytes), 0, newLine);
    DecodeEncode(bytes);
  }
}
