/** Wrapped text seen as a sequence of lines: Join puts a terminator between
    consecutive lines, Flatten drops the terminators, and Chop cuts a text
    into lines of a fixed width after a first line of given room. */
module Layout {

  /** The concatenation of all lines, without terminators. */
  function Flatten<T>(lines: seq<seq<T>>): (s: seq<T>)
    decreases |lines|
  {
    if lines == [] then [] else lines[0] + Flatten(lines[1..])
  }

  /** The lines with sep between each two neighbours, none before the first
      and none after the last. */
  function Join<T>(lines: seq<seq<T>>, sep: seq<T>): (s: seq<T>)
    requires |lines| > 0
    decreases |lines|
  {
    if |lines| == 1 then lines[0] else lines[0] + sep + Join(lines[1..], sep)
  }

  /** The column after the last line, when the first line continued one
      that already held start elements. */
  function EndColumn<T>(lines: seq<seq<T>>, start: int): int
    requires |lines| > 0
  {
    if |lines| == 1 then start + |lines[0]| else |lines[|lines| - 1]|
  }

  /** s cut into a first line of at most room elements and then lines of at
      most width elements, each line as full as the remaining text allows. */
  function Chop<T>(s: seq<T>, room: nat, width: nat): (lines: seq<seq<T>>)
    requires width > 0
    ensures |lines| > 0
    decreases |s| + (if room == 0 then 1 else 0)
  {
    if |s| <= room then [s] else [s[..room]] + Chop(s[room..], width, width)
  }

  /** The lines of Chop hold s in order; the first holds at most room
      elements, every later one between 1 and width, and all lines except the
      last are full. */
  lemma {:induction false} ChopShape<T>(s: seq<T>, room: nat, width: nat)
    requires width > 0
    ensures Flatten(Chop(s, room, width)) == s
    ensures |Chop(s, room, width)[0]| <= room
    ensures |Chop(s, room, width)| == 1 ==> Chop(s, room, width)[0] == s
    ensures |Chop(s, room, width)| > 1 ==> |Chop(s, room, width)[0]| == room
    ensures forall i :: 1 <= i < |Chop(s, room, width)| ==> 0 < |Chop(s, room, width)[i]| <= width
    ensures forall i :: 1 <= i < |Chop(s, room, width)| - 1 ==> |Chop(s, room, width)[i]| == width
    decreases |s| + (if room == 0 then 1 else 0)
  {
    var lines := Chop(s, room, width);
    if |s| <= room {
      assert Flatten(lines) == s + Flatten<T>([]);
    } else {
      var rest := Chop(s[room..], width, width);
      ChopShape(s[room..], width, width);
      assert lines == [s[..room]] + rest;
      assert lines[1..] == rest;
      assert s == s[..room] + s[room..];
      forall i | 1 <= i < |lines| ensures 0 < |lines[i]| <= width {
        assert lines[i] == rest[i - 1];
      }
      forall i | 1 <= i < |lines| - 1 ensures |lines[i]| == width {
        assert lines[i] == rest[i - 1];
      }
    }
  }

  /** Moving one element from the front of s to the front of the first line. */
  lemma ChopCons<T>(s: seq<T>, room: nat, width: nat)
    requires width > 0 && room > 0 && |s| > 0
    ensures Chop(s, room, width) == [[s[0]] + Chop(s[1..], room - 1, width)[0]] + Chop(s[1..], room - 1, width)[1..]
  {
    var tail := Chop(s[1..], room - 1, width);
    if |s| <= room {
      assert tail == [s[1..]];
      assert [s[0]] + s[1..] == s;
    } else {
      assert s[1..][room - 1..] == s[room..];
      var first := [s[0]] + s[1..][..room - 1];
      assert |first| == room;
      forall i | 0 <= i < room ensures first[i] == s[..room][i] {
        if i > 0 { assert first[i] == s[1..][..room - 1][i - 1]; }
      }
      assert first == s[..room];
    }
  }

  /** Join distributes over putting one element in front of the first line. */
  lemma JoinCons<T>(x: T, lines: seq<seq<T>>, sep: seq<T>)
    requires |lines| > 0
    ensures Join([[x] + lines[0]] + lines[1..], sep) == [x] + Join(lines, sep)
  {
    var moved := [[x] + lines[0]] + lines[1..];
    assert moved[1..] == lines[1..];
  }

  /** Putting one element in front of the first line moves the end column by
      one only when there is a single line. */
  lemma EndColumnCons<T>(x: T, lines: seq<seq<T>>, start: int)
    requires |lines| > 0
    ensures EndColumn([[x] + lines[0]] + lines[1..], start) == EndColumn(lines, start + 1)
  {
    var moved := [[x] + lines[0]] + lines[1..];
    assert moved[|moved| - 1] == if |lines| == 1 then [x] + lines[0] else lines[|lines| - 1];
  }

  /** After an empty first line the end column is counted from 0. */
  lemma EndColumnEmptyFirst<T>(lines: seq<seq<T>>, start: int)
    requires |lines| > 0
    ensures EndColumn([[]] + lines, start) == EndColumn(lines, 0)
  {
    assert ([[]] + lines)[|lines|] == lines[|lines| - 1];
  }

  /** An empty first line puts the terminator first. */
  lemma JoinEmptyFirst<T>(lines: seq<seq<T>>, sep: seq<T>)
    requires |lines| > 0
    ensures Join([[]] + lines, sep) == sep + Join(lines, sep)
  {
    assert ([[]] + lines)[1..] == lines;
  }
}
