/** Byte strings and digit strings as the numbers they stand for. */
module Numerals {
  import opened Arith
  import opened Bytes

  /** The number a string of digits stands for, highest first. */
  function Number(base: nat, s: seq<nat>): nat {
    if s == [] then 0 else Number(base, s[..|s| - 1]) * base + s[|s| - 1]
  }

  lemma NumberSnoc(base: nat, s: seq<nat>, d: nat)
    ensures Number(base, s + [d]) == Number(base, s) * base + d
  {
    assert (s + [d])[..|s|] == s;
  }

  lemma NumberOfTwo(base: nat, a: nat, b: nat)
    ensures Number(base, [a, b]) == a * base + b
  {
    NumberSnoc(base, [], a);
    NumberSnoc(base, [a], b);
    assert [] + [a] == [a] && [a] + [b] == [a, b];
  }

  lemma NumberOfThree(base: nat, a: nat, b: nat, c: nat)
    ensures Number(base, [a, b, c]) == (a * base + b) * base + c
  {
    NumberOfTwo(base, a, b);
    NumberSnoc(base, [a, b], c);
    assert [a, b] + [c] == [a, b, c];
  }

  predicate Below(s: seq<nat>, base: nat) {
    forall i :: 0 <= i < |s| ==> s[i] < base
  }

  /** Strings of digits of one length are told apart by their numbers. */
  lemma {:induction false} NumberInjective(base: nat, s: seq<nat>, t: seq<nat>)
    requires base > 0 && |s| == |t| && Below(s, base) && Below(t, base) && Number(base, s) == Number(base, t)
    ensures s == t
  {
    if s != [] {
      var n := |s| - 1;
      Divided(Number(base, s), base, Number(base, s[..n]), s[n]);
      Divided(Number(base, t), base, Number(base, t[..n]), t[n]);
      NumberInjective(base, s[..n], t[..n]);
      assert s == s[..n] + [s[n]] && t == t[..n] + [t[n]];
    }
  }

  function Digits(data: seq<byte>): (s: seq<nat>)
    ensures |s| == |data| && Below(s, 256) && forall i :: 0 <= i < |s| ==> s[i] == data[i]
  {
    seq(|data|, i requires 0 <= i < |data| => data[i])
  }

  lemma DigitsSnoc(data: seq<byte>, b: byte)
    ensures Number(256, Digits(data + [b])) == 256 * Number(256, Digits(data)) + b
  {
    assert Digits(data + [b]) == Digits(data) + [b as nat];
    NumberSnoc(256, Digits(data), b);
  }

  /** The number grows by a byte. */
  lemma NextByte(data: seq<byte>, i: nat)
    requires i < |data|
    ensures Number(256, Digits(data[..i + 1])) == 256 * Number(256, Digits(data[..i])) + data[i]
  {
    assert data[..i + 1] == data[..i] + [data[i]];
    DigitsSnoc(data[..i], data[i]);
  }

  /** Byte strings of one length are told apart by their numbers. */
  lemma BytesInjective(a: seq<byte>, b: seq<byte>)
    requires |a| == |b| && Number(256, Digits(a)) == Number(256, Digits(b))
    ensures a == b
  {
    NumberInjective(256, Digits(a), Digits(b));
    assert forall i :: 0 <= i < |a| ==> a[i] == Digits(a)[i] == Digits(b)[i] == b[i];
  }
}
