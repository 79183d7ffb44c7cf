/** The Base64 encoding of section 4 of RFC 4648: the 64-character alphabet of
    Table 1, "=" padding of a final quantum of 8 or 16 bits, and the inverse
    decoding. These pure functions stand for the library block transforms
    (ToBase64Transform, FromBase64Transform) that the codec calls. */
module Rfc4648 {

  type byte = b: int | 0 <= b < 256

  /** A 6-bit group, the index of one character of the alphabet. */
  type sextet = v: int | 0 <= v < 64

  datatype Option<T> = None | Some(value: T)

  /** The pad character "=". */
  const Pad: byte := '=' as int

  /** The characters of Table 1: A-Z, a-z, 0-9, "+" and "/". */
  predicate InAlphabet(c: byte) {
    ('A' as int <= c <= 'Z' as int) || ('a' as int <= c <= 'z' as int) ||
    ('0' as int <= c <= '9' as int) || c == '+' as int || c == '/' as int
  }

  /** Table 1, from value to encoding character. */
  function Letter(v: sextet): (c: byte)
    ensures InAlphabet(c) && c != Pad
  {
    if v < 26 then 'A' as int + v
    else if v < 52 then 'a' as int + (v - 26)
    else if v < 62 then '0' as int + (v - 52)
    else if v == 62 then '+' as int
    else '/' as int
  }

  /** Table 1, from encoding character back to its value; None off the alphabet. */
  function Value(c: byte): (r: Option<sextet>)
    ensures r.Some? <==> InAlphabet(c)
    ensures r.Some? ==> Letter(r.value) == c
  {
    if 'A' as int <= c <= 'Z' as int then Some(c - 'A' as int)
    else if 'a' as int <= c <= 'z' as int then Some(c - 'a' as int + 26)
    else if '0' as int <= c <= '9' as int then Some(c - '0' as int + 52)
    else if c == '+' as int then Some(62)
    else if c == '/' as int then Some(63)
    else None
  }

  /** Letter and Value are inverse: every value survives the table round trip. */
  lemma ValueOfLetter(v: sextet)
    ensures Value(Letter(v)) == Some(v)
  {
  }

  /** One full 24-bit group of three bytes as four characters. */
  function EncodeQuantum(b0: byte, b1: byte, b2: byte): (q: seq<byte>)
    ensures |q| == 4 && forall i :: 0 <= i < 4 ==> InAlphabet(q[i])
  {
    [Letter(b0 / 4), Letter((b0 % 4) * 16 + b1 / 16), Letter((b1 % 16) * 4 + b2 / 64), Letter(b2 % 64)]
  }

  /** The whole encoding of a byte sequence: full quanta, then a final
      quantum of one byte ("xx==") or two bytes ("xxx=") if bytes remain. */
  function Encode(s: seq<byte>): (r: seq<byte>)
    ensures |r| == 4 * ((|s| + 2) / 3)
    decreases |s|
  {
    if |s| == 0 then []
    else if |s| == 1 then [Letter(s[0] / 4), Letter((s[0] % 4) * 16), Pad, Pad]
    else if |s| == 2 then [Letter(s[0] / 4), Letter((s[0] % 4) * 16 + s[1] / 16), Letter((s[1] % 16) * 4), Pad]
    else EncodeQuantum(s[0], s[1], s[2]) + Encode(s[3..])
  }

  /** Encoding splits at any boundary that is a multiple of 3 bytes. */
  lemma {:induction false} EncodeAppend(a: seq<byte>, b: seq<byte>)
    requires |a| % 3 == 0
    ensures Encode(a + b) == Encode(a) + Encode(b)
    decreases |a|
  {
    if |a| > 0 {
      assert (a + b)[3..] == a[3..] + b;
      assert (a + b)[..3] == a[..3];
      EncodeAppend(a[3..], b);
    } else {
      assert a + b == b;
    }
  }

  /** Four alphabet characters as three bytes; None if any is outside the alphabet
      (the pad character included). */
  function DecodeQuantum(q: seq<byte>): (r: Option<seq<byte>>)
    requires |q| == 4
    ensures r.Some? <==> forall i :: 0 <= i < 4 ==> InAlphabet(q[i])
    ensures r.Some? ==> |r.value| == 3
  {
    match (Value(q[0]), Value(q[1]), Value(q[2]), Value(q[3]))
    case (Some(a), Some(b), Some(c), Some(d)) =>
      Some([a * 4 + b / 16, (b % 16) * 16 + c / 4, (c % 4) * 64 + d])
    case _ => None
  }

  /** The final quantum: four characters of which the last one or two may be
      padding. Anything else, a block of other than four characters included,
      is malformed. Bits that padding leaves over are ignored. */
  function DecodeFinalQuantum(q: seq<byte>): (r: Option<seq<byte>>)
    ensures r.Some? ==> |q| == 4 && 1 <= |r.value| <= 3
  {
    if |q| != 4 then None
    else if q[2] == Pad && q[3] == Pad then
      match (Value(q[0]), Value(q[1]))
      case (Some(a), Some(b)) => Some([a * 4 + b / 16])
      case _ => None
    else if q[3] == Pad then
      match (Value(q[0]), Value(q[1]), Value(q[2]))
      case (Some(a), Some(b), Some(c)) => Some([a * 4 + b / 16, (b % 16) * 16 + c / 4])
      case _ => None
    else DecodeQuantum(q)
  }

  /** The whole decoding of a Base64 text: all quanta but the last must be
      unpadded, the last is decoded by DecodeFinalQuantum. */
  function Decode(s: seq<byte>): (r: Option<seq<byte>>)
    ensures r.Some? ==> |s| % 4 == 0
    decreases |s|
  {
    if |s| == 0 then Some([])
    else if |s| <= 4 then DecodeFinalQuantum(s)
    else
      match DecodeQuantum(s[..4])
      case None => None
      case Some(b) =>
        match Decode(s[4..])
        case None => None
        case Some(rest) => Some(b + rest)
  }

  /** Concatenation of two decoding results. */
  function Both(x: Option<seq<byte>>, y: Option<seq<byte>>): Option<seq<byte>> {
    if x.Some? && y.Some? then Some(x.value + y.value) else None
  }

  /** Decoding splits after any whole number of unpadded quanta. */
  lemma {:induction false} DecodeAppend(a: seq<byte>, b: seq<byte>)
    requires |a| % 4 == 0 && Pad !in a
    ensures Decode(a + b) == Both(Decode(a), Decode(b))
    decreases |a|
  {
    if |a| == 0 {
      assert a + b == b;
      if Decode(b).Some? {
        assert [] + Decode(b).value == Decode(b).value;
      }
    } else if b == [] {
      assert a + b == a;
      if Decode(a).Some? {
        assert Decode(a).value + [] == Decode(a).value;
      }
    } else {
      assert (a + b)[..4] == a[..4];
      assert (a + b)[4..] == a[4..] + b;
      DecodeAppend(a[4..], b);
      if |a| == 4 {
        assert a[2] != Pad && a[3] != Pad;
        assert a[4..] + b == b;
        assert DecodeFinalQuantum(a) == DecodeQuantum(a[..4]);
      } else {
        match DecodeQuantum(a[..4])
        case None =>
        case Some(q) =>
          if Decode(a[4..]).Some? && Decode(b).Some? {
            assert q + (Decode(a[4..]).value + Decode(b).value) == (q + Decode(a[4..]).value) + Decode(b).value;
          }
      }
    }
  }

  /** Four letters decode to the bytes their sextets spell. */
  lemma DecodeLetters(v0: sextet, v1: sextet, v2: sextet, v3: sextet)
    ensures DecodeQuantum([Letter(v0), Letter(v1), Letter(v2), Letter(v3)])
      == Some([v0 * 4 + v1 / 16, (v1 % 16) * 16 + v2 / 4, (v2 % 4) * 64 + v3])
  {
    ValueOfLetter(v0);
    ValueOfLetter(v1);
    ValueOfLetter(v2);
    ValueOfLetter(v3);
  }

  /** Cutting three bytes into sextets and joining them again. */
  lemma SextetArithmetic(b0: byte, b1: byte, b2: byte)
    ensures (b0 / 4) * 4 + ((b0 % 4) * 16 + b1 / 16) / 16 == b0
    ensures (((b0 % 4) * 16 + b1 / 16) % 16) * 16 + ((b1 % 16) * 4 + b2 / 64) / 4 == b1
    ensures (((b1 % 16) * 4 + b2 / 64) % 4) * 64 + b2 % 64 == b2
  {
  }

  /** The three bytes of a full quantum come back from its four characters. */
  lemma QuantumRoundTrip(b0: byte, b1: byte, b2: byte)
    ensures DecodeQuantum(EncodeQuantum(b0, b1, b2)) == Some([b0, b1, b2])
  {
    DecodeLetters(b0 / 4, (b0 % 4) * 16 + b1 / 16, (b1 % 16) * 4 + b2 / 64, b2 % 64);
    SextetArithmetic(b0, b1, b2);
  }

  /** A final group of one byte comes back from its "xx==" quantum. */
  lemma OneByteRoundTrip(b0: byte)
    ensures Decode(Encode([b0])) == Some([b0])
  {
    var c0, c1 := Letter(b0 / 4), Letter((b0 % 4) * 16);
    var q := [c0, c1, Pad, Pad];
    assert Encode([b0]) == q;
    ValueOfLetter(b0 / 4);
    ValueOfLetter((b0 % 4) * 16);
    assert DecodeFinalQuantum(q) == Some([(b0 / 4) * 4 + ((b0 % 4) * 16) / 16]);
  }

  /** A final group of two bytes comes back from its "xxx=" quantum. */
  lemma TwoByteRoundTrip(b0: byte, b1: byte)
    ensures Decode(Encode([b0, b1])) == Some([b0, b1])
  {
    var s1, s2 := (b0 % 4) * 16 + b1 / 16, (b1 % 16) * 4;
    var q := [Letter(b0 / 4), Letter(s1), Letter(s2), Pad];
    assert Encode([b0, b1]) == q;
    ValueOfLetter(b0 / 4);
    ValueOfLetter(s1);
    ValueOfLetter(s2);
    assert s1 / 16 == b0 % 4 && s1 % 16 == b1 / 16 && s2 / 4 == b1 % 16;
    assert DecodeFinalQuantum(q) == Some([(b0 / 4) * 4 + s1 / 16, (s1 % 16) * 16 + s2 / 4]);
  }

  /** Decoding a full unpadded quantum followed by more text. */
  lemma DecodeCons(q: seq<byte>, t: seq<byte>)
    requires |q| == 4 && |t| > 0
    ensures Decode(q + t) == Both(DecodeQuantum(q), Decode(t))
  {
    assert (q + t)[..4] == q && (q + t)[4..] == t;
  }

  /** Round trip: decoding the encoding of any bytes gives them back. */
  lemma {:induction false} DecodeEncode(s: seq<byte>)
    ensures Decode(Encode(s)) == Some(s)
    decreases |s|
  {
    if |s| == 1 {
      OneByteRoundTrip(s[0]);
      assert s == [s[0]];
    } else if |s| == 2 {
      TwoByteRoundTrip(s[0], s[1]);
      assert s == [s[0], s[1]];
    } else if |s| == 3 {
      ThreeByteRoundTrip(s);
    } else if |s| > 3 {
      DecodeEncode(s[3..]);
      GroupRoundTrip(s);
    }
  }

  /** A single full group comes back from its quantum. */
  lemma ThreeByteRoundTrip(s: seq<byte>)
    requires |s| == 3
    ensures Decode(Encode(s)) == Some(s)
  {
    var q := EncodeQuantum(s[0], s[1], s[2]);
    SingleGroup(s);
    QuantumRoundTrip(s[0], s[1], s[2]);
    assert q[2] != Pad && q[3] != Pad;
    assert Decode(q) == DecodeFinalQuantum(q) == DecodeQuantum(q);
    ThreeElements(s);
  }

  /** Three bytes encode to their quantum alone. */
  lemma SingleGroup(s: seq<byte>)
    requires |s| == 3
    ensures Encode(s) == EncodeQuantum(s[0], s[1], s[2])
  {
    var q := EncodeQuantum(s[0], s[1], s[2]);
    assert Encode(s[3..]) == [];
    AppendEmpty(q);
  }

  /** Appending nothing leaves a sequence as it was. */
  lemma AppendEmpty<T>(s: seq<T>)
    ensures s + [] == s
  {
  }

  /** Concatenation is associative. */
  lemma ConcatAssoc<T>(a: seq<T>, b: seq<T>, c: seq<T>)
    ensures (a + b) + c == a + (b + c)
  {
  }

  /** A sequence of three elements is the display of its elements. */
  lemma ThreeElements<T>(s: seq<T>)
    requires |s| == 3
    ensures [s[0], s[1], s[2]] == s
  {
  }

  /** The first group of a longer input comes back, followed by the rest. */
  lemma GroupRoundTrip(s: seq<byte>)
    requires |s| > 3 && Decode(Encode(s[3..])) == Some(s[3..])
    ensures Decode(Encode(s)) == Some(s)
  {
    var q := EncodeQuantum(s[0], s[1], s[2]);
    var t := Encode(s[3..]);
    QuantumRoundTrip(s[0], s[1], s[2]);
    assert Encode(s) == q + t;
    DecodeCons(q, t);
    FirstThree(s);
  }

  /** A sequence of at least three elements is its first three and the rest. */
  lemma FirstThree<T>(s: seq<T>)
    requires |s| >= 3
    ensures [s[0], s[1], s[2]] + s[3..] == s
  {
    var r := [s[0], s[1], s[2]] + s[3..];
    forall i | 0 <= i < |s| ensures r[i] == s[i] {
      if i >= 3 { assert r[i] == s[3..][i - 3]; }
    }
  }

  /** The first quantum of an encoding of more than two bytes is free of padding. */
  lemma PadHead(s: seq<byte>, i: int)
    requires |s| >= 3 && 0 <= i < 4
    ensures Encode(s)[i] != Pad
    ensures !((|s| % 3 == 1 && i >= |Encode(s)| - 2) || (|s| % 3 == 2 && i == |Encode(s)| - 1))
  {
    var q, t := EncodeQuantum(s[0], s[1], s[2]), Encode(s[3..]);
    assert Encode(s) == q + t;
    assert (q + t)[i] == q[i] && InAlphabet(q[i]);
    assert |s| % 3 != 0 ==> |t| >= 4;
  }

  /** After the first quantum, an encoding continues with the encoding of the
      bytes after the first group. */
  lemma PadTail(s: seq<byte>, i: int)
    requires |s| >= 3 && 4 <= i < |Encode(s)|
    ensures Encode(s)[i] == Encode(s[3..])[i - 4]
    ensures |Encode(s)| == |Encode(s[3..])| + 4
    ensures |s[3..]| % 3 == |s| % 3
  {
    var q, t := EncodeQuantum(s[0], s[1], s[2]), Encode(s[3..]);
    GroupPrefix(s);
    assert (q + t)[i] == t[i - 4];
    WholeGroupOff(|s|);
  }

  /** An encoding of more than two bytes starts with the quantum of the first three. */
  lemma GroupPrefix(s: seq<byte>)
    requires |s| >= 3
    ensures Encode(s) == EncodeQuantum(s[0], s[1], s[2]) + Encode(s[3..])
  {
  }

  /** Taking away a group of three keeps the remainder modulo 3. */
  lemma WholeGroupOff(n: int)
    requires n >= 3
    ensures (n - 3) % 3 == n % 3
  {
  }

  /** Padding sits exactly in the last two places for one leftover byte,
      in the last place for two leftover bytes, and nowhere when the length
      is a multiple of 3. */
  lemma {:induction false} EncodePadding(s: seq<byte>)
    ensures forall i :: 0 <= i < |Encode(s)| ==>
      (Encode(s)[i] == Pad <==> (|s| % 3 == 1 && i >= |Encode(s)| - 2) || (|s| % 3 == 2 && i == |Encode(s)| - 1))
    decreases |s|
  {
    if |s| >= 3 {
      EncodePadding(s[3..]);
      forall i | 0 <= i < |Encode(s)|
        ensures Encode(s)[i] == Pad <==> (|s| % 3 == 1 && i >= |Encode(s)| - 2) || (|s| % 3 == 2 && i == |Encode(s)| - 1)
      {
        if i >= 4 {
          PadTail(s, i);
        } else {
          PadHead(s, i);
        }
      }
    }
  }

  /** Every character of an encoding is in the alphabet or is the pad character. */
  lemma {:induction false} EncodeAlphabet(s: seq<byte>)
    ensures forall i :: 0 <= i < |Encode(s)| ==> InAlphabet(Encode(s)[i]) || Encode(s)[i] == Pad
    decreases |s|
  {
    if |s| >= 3 {
      EncodeAlphabet(s[3..]);
      var q, t := EncodeQuantum(s[0], s[1], s[2]), Encode(s[3..]);
      assert Encode(s) == q + t;
      forall i | 0 <= i < |q + t| ensures InAlphabet((q + t)[i]) || (q + t)[i] == Pad {
        if i >= 4 {
          assert (q + t)[i] == t[i - 4];
        } else {
          assert (q + t)[i] == q[i] && InAlphabet(q[i]);
          assert |s| % 3 != 0 ==> |t| >= 4;
        }
      }
    }
  }

  /** What a decodable text looks like: a whole number of quanta, alphabet
      characters everywhere except that the last two may be padding, and a pad
      in the next-to-last place only before a pad in the last. */
  lemma {:induction false} DecodeShape(s: seq<byte>)
    requires Decode(s).Some?
    ensures |s| % 4 == 0
    ensures forall i :: 0 <= i < |s| - 2 ==> InAlphabet(s[i])
    ensures |s| > 0 ==> InAlphabet(s[|s| - 2]) || s[|s| - 2] == Pad
    ensures |s| > 0 ==> InAlphabet(s[|s| - 1]) || s[|s| - 1] == Pad
    ensures |s| > 0 && s[|s| - 2] == Pad ==> s[|s| - 1] == Pad
    decreases |s|
  {
    if |s| > 4 {
      assert DecodeQuantum(s[..4]).Some?;
      DecodeShape(s[4..]);
      forall i | 0 <= i < |s| - 2 ensures InAlphabet(s[i]) {
        if i >= 4 { assert s[i] == s[4..][i - 4]; } else { assert s[i] == s[..4][i]; }
      }
    } else if |s| == 4 {
      assert s == [s[0], s[1], s[2], s[3]];
    }
  }
}
