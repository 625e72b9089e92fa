/** Bytes as the C code sees them, and the few sequence facts that several modules share. */
module Bytes {
  type byte = x: int | 0 <= x < 256

  /** Concatenation of a list of byte strings. */
  function Flatten(units: seq<seq<byte>>): seq<byte> {
    if units == [] then [] else units[0] + Flatten(units[1..])
  }

  lemma {:induction false} FlattenConcat(a: seq<seq<byte>>, b: seq<seq<byte>>)
    ensures Flatten(a + b) == Flatten(a) + Flatten(b)
  {
    if a == [] {
      assert a + b == b;
    } else {
      assert (a + b)[1..] == a[1..] + b;
      FlattenConcat(a[1..], b);
    }
  }

  /** The units that fit in `room` bytes, taken whole from the front until one does not fit. */
  function Greedy(units: seq<seq<byte>>, room: nat): (r: seq<byte>)
    ensures |r| <= room
  {
    if units == [] || |units[0]| > room then []
    else units[0] + Greedy(units[1..], room - |units[0]|)
  }

  /** What `Greedy` keeps is a whole-unit prefix, and the longest one that fits. */
  lemma {:induction false} GreedyIsLongestPrefix(units: seq<seq<byte>>, room: nat) returns (k: nat)
    ensures k <= |units| && Greedy(units, room) == Flatten(units[..k])
    ensures k < |units| ==> |Flatten(units[..k + 1])| > room
  {
    if units == [] || |units[0]| > room {
      k := 0;
      if units != [] {
        assert units[..1] == [units[0]];
        assert Flatten(units[..1]) == units[0] + Flatten([]);
      }
    } else {
      var k' := GreedyIsLongestPrefix(units[1..], room - |units[0]|);
      k := k' + 1;
      assert units[..k][0] == units[0] && units[..k][1..] == units[1..][..k'];
      if k < |units| {
        assert units[..k + 1][0] == units[0] && units[..k + 1][1..] == units[1..][..k' + 1];
      }
    }
  }

  /** With room for everything, everything is kept. */
  lemma {:induction false} GreedyKeepsAll(units: seq<seq<byte>>, room: nat)
    requires |Flatten(units)| <= room
    ensures Greedy(units, room) == Flatten(units)
  {
    if units != [] {
      GreedyKeepsAll(units[1..], room - |units[0]|);
    }
  }
}
