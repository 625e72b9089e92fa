/**
 * UTF-8 as RFC 3629 defines it: the encoding of a scalar value (section 3), the byte grammar
 * (section 4), and the byte strings that are concatenations of encodings.
 *
 * The C code writes shifts and masks; on 0..255 they are the divisions and range tests below
 * (`(b & 0xC0) == 0x80` is `0x80 <= b < 0xC0`, then `b & 0x3F` is `b - 0x80`, `u >> 6` is `u / 64`).
 */
module Utf8Spec {
  import opened Bytes

  /** A Unicode scalar value: a code point that is not a surrogate. */
  type scalar = u: int | 0 <= u <= 0x10FFFF && !(0xD800 <= u <= 0xDFFF)

  function Encode(u: scalar): seq<byte> {
    if u < 0x80 then [u]
    else if u < 0x800 then [0xC0 + u / 64, 0x80 + u % 64]
    else if u < 0x10000 then [0xE0 + u / 4096, 0x80 + u / 64 % 64, 0x80 + u % 64]
    else [0xF0 + u / 262144, 0x80 + u / 4096 % 64, 0x80 + u / 64 % 64, 0x80 + u % 64]
  }

  function EncodeAll(us: seq<scalar>): seq<byte> {
    if us == [] then [] else Encode(us[0]) + EncodeAll(us[1..])
  }

  predicate IsTail(b: byte) {
    0x80 <= b < 0xC0
  }

  /** The rule `UTF8-char` of RFC 3629, section 4. */
  predicate RfcChar(s: seq<byte>) {
    || (|s| == 1 && s[0] < 0x80)
    || (|s| == 2 && 0xC2 <= s[0] <= 0xDF && IsTail(s[1]))
    || (|s| == 3 && IsTail(s[2]) &&
        (|| (s[0] == 0xE0 && 0xA0 <= s[1] <= 0xBF)
         || (0xE1 <= s[0] <= 0xEC && IsTail(s[1]))
         || (s[0] == 0xED && 0x80 <= s[1] <= 0x9F)
         || (0xEE <= s[0] <= 0xEF && IsTail(s[1]))))
    || (|s| == 4 && IsTail(s[2]) && IsTail(s[3]) &&
        (|| (s[0] == 0xF0 && 0x90 <= s[1] <= 0xBF)
         || (0xF1 <= s[0] <= 0xF3 && IsTail(s[1]))
         || (s[0] == 0xF4 && 0x80 <= s[1] <= 0x8F)))
  }

  /** How many bytes a character starting with `b` has; 0 when none starts so. */
  function CharLen(b: byte): (n: nat)
    ensures n <= 4
  {
    if b < 0x80 then 1
    else if b < 0xC2 || b > 0xF4 then 0
    else if b < 0xE0 then 2
    else if b < 0xF0 then 3
    else 4
  }

  /** Bits of the lead byte that belong to the code point. */
  function LeadBits(b: byte): int {
    if b < 0x80 then b else if b < 0xE0 then b - 0xC0 else if b < 0xF0 then b - 0xE0 else b - 0xF0
  }

  /** The number read from a lead byte and the tail bytes after it. */
  function CodePoint(s: seq<byte>): int
    requires s != []
  {
    if |s| == 1 then LeadBits(s[0]) else CodePoint(s[..|s| - 1]) * 64 + s[|s| - 1] - 0x80
  }

  /** A lead byte and some, but not all, of the tail bytes it announces. */
  predicate IsPartial(s: seq<byte>) {
    0 < |s| < CharLen(s[0]) && forall i :: 1 <= i < |s| ==> IsTail(s[i])
  }

  /** Byte strings made of whole RFC 3629 characters. */
  predicate WellFormed(s: seq<byte>) {
    s == [] ||
    var n := CharLen(s[0]);
    0 < n <= |s| && RfcChar(s[..n]) && WellFormed(s[n..])
  }

  lemma CodePointOf2(s: seq<byte>)
    requires |s| == 2
    ensures CodePoint(s) == LeadBits(s[0]) * 64 + s[1] - 0x80
  {
    assert s[..1] == [s[0]];
  }

  lemma CodePointOf3(s: seq<byte>)
    requires |s| == 3
    ensures CodePoint(s) == (LeadBits(s[0]) * 64 + s[1] - 0x80) * 64 + s[2] - 0x80
  {
    CodePointOf2(s[..2]);
  }

  lemma CodePointOf4(s: seq<byte>)
    requires |s| == 4
    ensures CodePoint(s) == ((LeadBits(s[0]) * 64 + s[1] - 0x80) * 64 + s[2] - 0x80) * 64 + s[3] - 0x80
  {
    CodePointOf3(s[..3]);
  }

  lemma CodePointUnfold(s: seq<byte>)
    requires 1 <= |s| <= 4
    ensures |s| == 1 ==> CodePoint(s) == LeadBits(s[0])
    ensures |s| == 2 ==> CodePoint(s) == LeadBits(s[0]) * 64 + s[1] - 0x80
    ensures |s| == 3 ==> CodePoint(s) == (LeadBits(s[0]) * 64 + s[1] - 0x80) * 64 + s[2] - 0x80
    ensures |s| == 4 ==> CodePoint(s) == ((LeadBits(s[0]) * 64 + s[1] - 0x80) * 64 + s[2] - 0x80) * 64 + s[3] - 0x80
  {
    if |s| == 2 { CodePointOf2(s); }
    if |s| == 3 { CodePointOf3(s); }
    if |s| == 4 { CodePointOf4(s); }
  }

  lemma Digits64(u: nat)
    ensures u / 64 == u / 4096 * 64 + u / 64 % 64
    ensures u / 4096 == u / 262144 * 64 + u / 4096 % 64
  {
    assert u / 64 / 64 == u / 4096 && u / 4096 / 64 == u / 262144;
  }

  lemma EncodeReadsBack(u: scalar)
    ensures CodePoint(Encode(u)) == u
  {
    CodePointUnfold(Encode(u));
    Digits64(u);
  }

  /** The encoding of a scalar obeys the grammar, and reading it back gives the scalar. */
  lemma EncodeIsChar(u: scalar)
    ensures RfcChar(Encode(u)) && |Encode(u)| == CharLen(Encode(u)[0])
    ensures CodePoint(Encode(u)) == u
    ensures forall k :: 0 < k < |Encode(u)| ==> IsPartial(Encode(u)[..k])
  {
    hide CodePoint, Encode, RfcChar, IsPartial, CharLen;
    EncodeReadsBack(u);
    EncodeObeysGrammar(u);
    CharPrefixes(Encode(u));
  }

  lemma EncodeObeysGrammar(u: scalar)
    ensures RfcChar(Encode(u))
  {
  }

  /** The lead byte gives the length, and proper prefixes are incomplete characters. */
  lemma CharPrefixes(s: seq<byte>)
    requires RfcChar(s)
    ensures |s| == CharLen(s[0]) && forall k :: 0 < k < |s| ==> IsPartial(s[..k])
  {
  }

  /** Every string of the grammar is the encoding of exactly the scalar read from it. */
  lemma CharIsEncode(s: seq<byte>)
    requires RfcChar(s)
    ensures |s| == CharLen(s[0])
    ensures 0 <= CodePoint(s) <= 0x10FFFF && !(0xD800 <= CodePoint(s) <= 0xDFFF)
    ensures Encode(CodePoint(s)) == s
  {
    CodePointUnfold(s);
    if |s| == 2 {
      CharIsEncode2(s);
    } else if |s| == 3 {
      CharIsEncode3(s);
    } else if |s| == 4 {
      CharIsEncode4(s);
    }
  }

  lemma CharIsEncode2(s: seq<byte>)
    requires |s| == 2 && RfcChar(s)
    ensures 0 <= CodePoint(s) < 0x800 && Encode(CodePoint(s)) == s
  {
    CodePointUnfold(s);
    var a: int, b: int := s[0] - 0xC0, s[1] - 0x80;
    assert CodePoint(s) == a * 64 + b;
  }

  lemma CharIsEncode3(s: seq<byte>)
    requires |s| == 3 && RfcChar(s)
    ensures 0 <= CodePoint(s) < 0x10000 && !(0xD800 <= CodePoint(s) <= 0xDFFF)
    ensures Encode(CodePoint(s)) == s
  {
    var a: int, b: int, c: int := s[0] - 0xE0, s[1] - 0x80, s[2] - 0x80;
    assert CodePoint(s) == (a * 64 + b) * 64 + c by { CodePointUnfold(s); }
    Encode3(a, b, c);
    assert s == [0xE0 + a, 0x80 + b, 0x80 + c];
  }

  lemma Encode3(a: nat, b: nat, c: nat)
    requires a < 16 && b < 64 && c < 64 && (a == 0 ==> 32 <= b) && (a == 13 ==> b < 32)
    ensures var u := (a * 64 + b) * 64 + c;
            u < 0x10000 && !(0xD800 <= u <= 0xDFFF) && Encode(u) == [0xE0 + a, 0x80 + b, 0x80 + c]
  {
    ThreeDigits(a, b, c);
  }

  lemma CharIsEncode4(s: seq<byte>)
    requires |s| == 4 && RfcChar(s)
    ensures 0x10000 <= CodePoint(s) <= 0x10FFFF && Encode(CodePoint(s)) == s
  {
    var a: int, b: int, c: int, d: int := s[0] - 0xF0, s[1] - 0x80, s[2] - 0x80, s[3] - 0x80;
    assert CodePoint(s) == ((a * 64 + b) * 64 + c) * 64 + d by { CodePointUnfold(s); }
    Encode4(a, b, c, d);
    assert s == [0xF0 + a, 0x80 + b, 0x80 + c, 0x80 + d];
  }

  lemma Encode4(a: nat, b: nat, c: nat, d: nat)
    requires a < 5 && b < 64 && c < 64 && d < 64 && (a == 0 ==> 16 <= b) && (a == 4 ==> b < 16)
    ensures var u := ((a * 64 + b) * 64 + c) * 64 + d;
            0x10000 <= u <= 0x10FFFF && Encode(u) == [0xF0 + a, 0x80 + b, 0x80 + c, 0x80 + d]
  {
    FourDigits(a, b, c, d);
  }

  lemma ThreeDigits(a: nat, b: nat, c: nat)
    requires b < 64 && c < 64
    ensures var u := (a * 64 + b) * 64 + c; u / 4096 == a && u / 64 % 64 == b && u % 64 == c
  {
  }

  lemma FourDigits(a: nat, b: nat, c: nat, d: nat)
    requires b < 64 && c < 64 && d < 64
    ensures var u := ((a * 64 + b) * 64 + c) * 64 + d;
            u / 262144 == a && u / 4096 % 64 == b && u / 64 % 64 == c && u % 64 == d
  {
    ThreeDigits(a, b, c);
    var u := ((a * 64 + b) * 64 + c) * 64 + d;
    assert u / 64 == (a * 64 + b) * 64 + c;
  }

  /**
   * Of the structurally complete strings, the grammar keeps those whose number needs that many
   * bytes and is a scalar: RFC 3629's ranges are exactly the overlong, surrogate and range checks.
   */
  lemma CharIffScalarInRange(s: seq<byte>)
    requires s != [] && |s| == CharLen(s[0]) && forall i :: 1 <= i < |s| ==> IsTail(s[i])
    ensures RfcChar(s) <==>
            var u := CodePoint(s);
            !(|s| == 2 && u < 0x80) && !(|s| == 3 && (u < 0x800 || 0xD800 <= u <= 0xDFFF)) &&
            !(|s| == 4 && (u < 0x10000 || u > 0x10FFFF))
  {
    CodePointUnfold(s);
  }

  lemma {:induction false} EncodeAllIsWellFormed(us: seq<scalar>)
    ensures WellFormed(EncodeAll(us))
  {
    if us != [] {
      var c, rest := Encode(us[0]), EncodeAll(us[1..]);
      EncodeIsChar(us[0]);
      EncodeAllIsWellFormed(us[1..]);
      assert (c + rest)[..|c|] == c && (c + rest)[|c|..] == rest;
    }
  }

  lemma {:induction false} WellFormedIsEncodeAll(s: seq<byte>) returns (us: seq<scalar>)
    requires WellFormed(s)
    ensures EncodeAll(us) == s
  {
    if s == [] {
      us := [];
    } else {
      var n := CharLen(s[0]);
      CharIsEncode(s[..n]);
      var rest := WellFormedIsEncodeAll(s[n..]);
      us := [CodePoint(s[..n]) as scalar] + rest;
      assert us[1..] == rest;
      assert s == s[..n] + s[n..];
    }
  }

  /** `WellFormed` is exactly "a concatenation of encodings of scalar values". */
  lemma WellFormedIffEncoding(s: seq<byte>)
    ensures WellFormed(s) <==> exists us: seq<scalar> :: EncodeAll(us) == s
  {
    if WellFormed(s) {
      var us := WellFormedIsEncodeAll(s);
    }
    forall us: seq<scalar> | EncodeAll(us) == s
      ensures WellFormed(s)
    {
      EncodeAllIsWellFormed(us);
    }
  }

  /** UTF-8 is uniquely decodable: equal encodings come from equal scalar strings. */
  lemma {:induction false} EncodeAllInjective(us: seq<scalar>, vs: seq<scalar>)
    requires EncodeAll(us) == EncodeAll(vs)
    ensures us == vs
  {
    if us == [] || vs == [] {
      if us != [] { EncodeIsChar(us[0]); }
      if vs != [] { EncodeIsChar(vs[0]); }
    } else {
      var a, b := Encode(us[0]), Encode(vs[0]);
      EncodeIsChar(us[0]);
      EncodeIsChar(vs[0]);
      var whole := EncodeAll(us);
      assert whole[0] == a[0] && whole[0] == b[0];
      assert whole[..|a|] == a && whole[..|b|] == b;
      assert whole[|a|..] == EncodeAll(us[1..]) && whole[|b|..] == EncodeAll(vs[1..]);
      EncodeAllInjective(us[1..], vs[1..]);
      assert us == [us[0]] + us[1..] && vs == [vs[0]] + vs[1..];
    }
  }

  lemma OneIsWellFormed(u: scalar)
    ensures WellFormed(Encode(u))
  {
    EncodeIsChar(u);
    assert Encode(u)[..|Encode(u)|] == Encode(u) && Encode(u)[|Encode(u)|..] == [];
  }

  lemma {:induction false} WellFormedConcat(a: seq<byte>, b: seq<byte>)
    requires WellFormed(a) && WellFormed(b)
    ensures WellFormed(a + b)
    decreases |a|
  {
    if a == [] {
      assert a + b == b;
    } else {
      var n := CharLen(a[0]);
      assert (a + b)[..n] == a[..n] && (a + b)[n..] == a[n..] + b && (a + b)[0] == a[0];
      WellFormedConcat(a[n..], b);
    }
  }

  lemma {:induction false} AsciiIsWellFormed(s: seq<byte>)
    requires forall i :: 0 <= i < |s| ==> s[i] < 0x80
    ensures WellFormed(s)
    decreases |s|
  {
    if s != [] {
      AsciiIsWellFormed(s[1..]);
    }
  }
}
