/**
 * The base64 of common/sys/bcrypt.c: three bytes in four characters of its own alphabet, no padding, and a
 * decoder that is told how many bytes to read.
 */
module Bcrypt64 {
  import opened Arith
  import opened Bytes
  import opened Numerals

  /** The alphabet: `./`, capitals, small letters, digits. */
  function Symbol(v: nat): char
    requires v < 64
  {
    if v == 0 then '.' else if v == 1 then '/'
    else if v < 28 then 'A' + (v - 2) as char
    else if v < 54 then 'a' + (v - 28) as char
    else '0' + (v - 54) as char
  }

  const NO_VALUE := 255

  /** The value of a character, `NO_VALUE` for one not in the alphabet. */
  function Value(ch: char): (v: nat)
    ensures v < 64 || v == NO_VALUE
  {
    if ch == '.' then 0 else if ch == '/' then 1
    else if 'A' <= ch <= 'Z' then ch as nat - 'A' as nat + 2
    else if 'a' <= ch <= 'z' then ch as nat - 'a' as nat + 28
    else if '0' <= ch <= '9' then ch as nat - '0' as nat + 54
    else NO_VALUE
  }

  lemma SymbolReadBack(v: nat)
    requires v < 64
    ensures Value(Symbol(v)) == v
  {
  }

  /** bcrypt's alphabet: a dot and a slash, then letters and digits. */
  lemma Alphabet(v: nat)
    requires v < 64
    ensures Symbol(v) == ("./ABCDEFGHIJKLMNOPQRSTUVWXYZ" + "abcdefghijklmnopqrstuvwxyz" + "0123456789")[v]
  {
  }

  /** It is read back, and nothing else is. */
  lemma AlphabetRead(v: nat, ch: char)
    requires v < 64
    ensures (Value(ch) == v <==> ch == Symbol(v)) && (Value(ch) < 64 || Value(ch) == 255)
  {
  }

  function Text(vs: seq<nat>): (s: string)
    requires Below(vs, 64)
    ensures |s| == |vs|
  {
    seq(|vs|, i requires 0 <= i < |vs| => Symbol(vs[i]))
  }

  /** The number of characters for `n` bytes. */
  function TextLength(n: nat): (k: nat)
    ensures 3 * k < 4 * n + 3 && 4 * n <= 3 * k
  {
    n / 3 * 4 + (if n % 3 == 0 then 0 else n % 3 + 1)
  }

  /** What the bits to spare in the last character multiply by. */
  function Spare(n: nat): nat {
    if n % 3 == 1 then 16 else if n % 3 == 2 then 4 else 1
  }

  /** `vs` are the six-bit groups of the data, zero bits filling the last. */
  predicate IsGroups(vs: seq<nat>, data: seq<byte>) {
    && Below(vs, 64) && |vs| == TextLength(|data|)
    && Number(64, vs) == Number(256, Digits(data)) * Spare(|data|)
  }

  /** By example, three bytes and two: their six-bit groups from the highest bit down. */
  lemma FooGroups()
    ensures IsGroups([25, 38, 61, 47], [0x66, 0x6F, 0x6F]) && Text([25, 38, 61, 47]) == "Xk7t"
    ensures IsGroups([25, 38, 60], [0x66, 0x6F]) && Text([25, 38, 60]) == "Xk6"
  {
    hide Number;
    NumberOfThree(64, 25, 38, 61);
    NumberSnoc(64, [25, 38, 61], 47);
    assert [25, 38, 61] + [47] == [25, 38, 61, 47];
    NumberOfThree(64, 25, 38, 60);
    NumberOfThree(256, 0x66, 0x6F, 0x6F);
    NumberOfTwo(256, 0x66, 0x6F);
    assert Digits([0x66, 0x6F, 0x6F]) == [0x66, 0x6F, 0x6F] && Digits([0x66, 0x6F]) == [0x66, 0x6F];
  }

  lemma GroupsParts(vs: seq<nat>, data: seq<byte>)
    requires IsGroups(vs, data)
    ensures Below(vs, 64) && |vs| == TextLength(|data|) && Number(64, vs) == Number(256, Digits(data)) * Spare(|data|)
  {
  }

  lemma GroupsMade(vs: seq<nat>, data: seq<byte>)
    requires Below(vs, 64) && |vs| == TextLength(|data|) && Number(64, vs) == Number(256, Digits(data)) * Spare(|data|)
    ensures IsGroups(vs, data)
  {
  }

  /** Writes one character. */
  method Put(out: array<char>, at: nat, v: nat, ghost ws: seq<nat>) returns (bp: nat, ghost vs: seq<nat>)
    requires at < out.Length && v < 64 && Below(ws, 64) && at == |ws| && out[..at] == Text(ws)
    modifies out
    ensures bp == at + 1 == |vs| && Below(vs, 64) && out[..bp] == Text(vs)
    ensures Number(64, vs) == Number(64, ws) * 64 + v
  {
    out[at] := Symbol(v);
    bp, vs := at + 1, ws + [v];
    assert out[..bp] == out[..at] + [Symbol(v)];
    NumberSnoc(64, ws, v);
  }

  /** The lengths and spare bits of a last group of none to three bytes. */
  lemma Lengths(at: nat)
    requires at % 3 == 0
    ensures TextLength(at + 1) == TextLength(at) + 2 && TextLength(at + 2) == TextLength(at) + 3
    ensures TextLength(at + 3) == TextLength(at) + 4
    ensures Spare(at) == 1 && Spare(at + 1) == 16 && Spare(at + 2) == 4 && Spare(at + 3) == 1
  {
  }

  lemma Room(at: nat, n: nat)
    requires at % 3 == 0 && at < n
    ensures TextLength(n) >= TextLength(if at + 3 <= n then at + 3 else n)
  {
  }

  lemma OneByte(n: nat, a: nat)
    ensures (n * 64 + a / 4) * 64 + a % 4 * 16 == (256 * n + a) * 16
  {
  }

  lemma TwoBytes(n: nat, a: nat, b: nat)
    ensures ((n * 64 + a / 4) * 64 + (a % 4 * 16 + b / 16)) * 64 + b % 16 * 4 == (256 * (256 * n + a) + b) * 4
  {
  }

  lemma ThreeBytes(n: nat, a: nat, b: nat, c: nat)
    ensures (((n * 64 + a / 4) * 64 + (a % 4 * 16 + b / 16)) * 64 + (b % 16 * 4 + c / 64)) * 64 + c % 64
            == 256 * (256 * (256 * n + a) + b) + c
  {
  }

  /** Writes the characters of up to three bytes from `at`. */
  method EncodeGroup(data: seq<byte>, at: nat, out: array<char>, to: nat, ghost ws: seq<nat>)
    returns (p: nat, bp: nat, ghost vs: seq<nat>)
    requires at < |data| && at % 3 == 0 && to == |ws| && IsGroups(ws, data[..at])
    requires out.Length > TextLength(|data|) && to <= out.Length && out[..to] == Text(ws)
    modifies out
    ensures p == (if at + 3 <= |data| then at + 3 else |data|) && bp == |vs|
    ensures IsGroups(vs, data[..p]) && out[..bp] == Text(vs)
  {
    hide Text, Symbol, Number, Digits, TextLength, Spare, Below, IsGroups;
    p, bp, vs := at, to, ws;
    ghost var n := Number(64, ws);
    GroupsParts(ws, data[..at]);
    Lengths(at);
    Room(at, |data|);
    var c1: nat := data[p];
    NextByte(data, p);
    p := p + 1;
    bp, vs := Put(out, bp, c1 / 4, vs);
    c1 := c1 % 4 * 16;
    if p >= |data| {
      bp, vs := Put(out, bp, c1, vs);
      OneByte(n, data[at]);
      GroupsMade(vs, data[..p]);
      return;
    }
    var c2: nat := data[p];
    NextByte(data, p);
    p := p + 1;
    c1 := c1 + c2 / 16;
    bp, vs := Put(out, bp, c1, vs);
    c1 := c2 % 16 * 4;
    if p >= |data| {
      bp, vs := Put(out, bp, c1, vs);
      TwoBytes(n, data[at], data[at + 1]);
      GroupsMade(vs, data[..p]);
      return;
    }
    c2 := data[p];
    NextByte(data, p);
    p := p + 1;
    c1 := c1 + c2 / 64;
    bp, vs := Put(out, bp, c1, vs);
    bp, vs := Put(out, bp, c2 % 64, vs);
    ThreeBytes(n, data[at], data[at + 1], data[at + 2]);
    GroupsMade(vs, data[..p]);
  }

  /** Encodes the data as a zero-terminated string. */
  method EncodeBase64(out: array<char>, data: seq<byte>) returns (ghost vs: seq<nat>)
    requires out.Length > TextLength(|data|)
    modifies out
    ensures IsGroups(vs, data) && out[..|vs|] == Text(vs) && out[|vs|] == '\0'
  {
    hide Text, Symbol;
    var p: nat, bp: nat := 0, 0;
    vs := [];
    assert out[..0] == Text([]) by { assert Text([]) == []; }
    while p < |data|
      invariant p <= |data| && (p % 3 == 0 || p == |data|)
      invariant IsGroups(vs, data[..p]) && bp == |vs| && out[..bp] == Text(vs)
    {
      p, bp, vs := EncodeGroup(data, p, out, bp, vs);
    }
    assert data[..p] == data;
    out[bp] := '\0';
  }

  // ----- decoding -----

  /** The character at a position of a C string, which has zero at its end. */
  function At(text: string, i: nat): char {
    if i < |text| then text[i] else '\0'
  }

  function Values(text: string, k: nat): (vs: seq<nat>)
    ensures |vs| == k && forall i :: 0 <= i < k ==> vs[i] == Value(At(text, i))
  {
    seq(k, i requires 0 <= i => Value(At(text, i)))
  }

  predicate AllValid(text: string, k: nat) {
    forall i :: 0 <= i < k ==> Value(At(text, i)) != NO_VALUE
  }

  lemma NextValue(text: string, k: nat)
    ensures Number(64, Values(text, k + 1)) == Number(64, Values(text, k)) * 64 + Value(At(text, k))
    ensures AllValid(text, k + 1) <==> AllValid(text, k) && Value(At(text, k)) != NO_VALUE
  {
    assert Values(text, k + 1) == Values(text, k) + [Value(At(text, k))];
    NumberSnoc(64, Values(text, k), Value(At(text, k)));
  }

  /** The first `n` bytes of the buffer are those of the text's groups, spare bits dropped. */
  ghost predicate Decoded(buffer: seq<byte>, text: string, n: nat)
    requires n <= |buffer|
  {
    && AllValid(text, TextLength(n))
    && Number(256, Digits(buffer[..n])) == Number(64, Values(text, TextLength(n))) / Spare(n)
  }

  /** Stores one byte. */
  method Store(buffer: array<byte>, at: nat, b: byte) returns (bp: nat)
    requires at < buffer.Length
    modifies buffer
    ensures bp == at + 1 && Number(256, Digits(buffer[..bp])) == 256 * Number(256, Digits(old(buffer[..at]))) + b
  {
    ghost var before := buffer[..at];
    buffer[at] := b;
    bp := at + 1;
    assert buffer[..bp] == before + [b];
    DigitsSnoc(before, b);
  }

  lemma FirstOf(n: nat, c1: nat, c2: nat)
    requires c1 < 64 && c2 < 64
    ensures ((n * 64 + c1) * 64 + c2) / 16 == 256 * n + (c1 * 4 + c2 / 16)
  {
    Divided((n * 64 + c1) * 64 + c2, 16, 256 * n + (c1 * 4 + c2 / 16), c2 % 16);
  }

  lemma SecondOf(n: nat, c1: nat, c2: nat, c3: nat)
    requires c1 < 64 && c2 < 64 && c3 < 64
    ensures (((n * 64 + c1) * 64 + c2) * 64 + c3) / 4
            == 256 * (256 * n + (c1 * 4 + c2 / 16)) + (c2 % 16 * 16 + c3 / 4)
  {
    Divided(((n * 64 + c1) * 64 + c2) * 64 + c3, 4,
            256 * (256 * n + (c1 * 4 + c2 / 16)) + (c2 % 16 * 16 + c3 / 4), c3 % 4);
  }

  lemma ThirdOf(n: nat, c1: nat, c2: nat, c3: nat, c4: nat)
    ensures ((((n * 64 + c1) * 64 + c2) * 64 + c3) * 64 + c4) / 1
            == 256 * (256 * (256 * n + (c1 * 4 + c2 / 16)) + (c2 % 16 * 16 + c3 / 4)) + (c3 % 4 * 64 + c4)
  {
  }

  /** Reads the characters of up to three bytes from `at`; fails on one that is not in the alphabet. */
  method DecodeGroup(text: string, p: nat, buffer: array<byte>, at: nat, len: nat) returns (ok: bool, bp: nat)
    requires at < len <= buffer.Length && at % 3 == 0 && p == TextLength(at) && Decoded(buffer[..], text, at)
    modifies buffer
    ensures ok ==> bp == (if at + 3 <= len then at + 3 else len) && Decoded(buffer[..], text, bp)
    ensures !ok ==> !AllValid(text, TextLength(len))
  {
    hide Number, Digits, TextLength, Spare, AllValid, Value;
    bp := at;
    ghost var n := Number(64, Values(text, p));
    Lengths(at);
    NextValue(text, p);
    NextValue(text, p + 1);
    NextValue(text, p + 2);
    NextValue(text, p + 3);
    MoreValid(text, at, len);
    assert buffer[..][..at] == buffer[..at] && n / 1 == n;
    var c1 := Value(At(text, p));
    if c1 == NO_VALUE {
      return false, bp;
    }
    var c2 := Value(At(text, p + 1));
    if c2 == NO_VALUE {
      return false, bp;
    }
    bp := Store(buffer, bp, c1 * 4 + c2 / 16);
    if bp >= len {
      FirstOf(n, c1, c2);
      assert buffer[..][..bp] == buffer[..bp];
      return true, bp;
    }
    var c3 := Value(At(text, p + 2));
    if c3 == NO_VALUE {
      return false, bp;
    }
    bp := Store(buffer, bp, c2 % 16 * 16 + c3 / 4);
    if bp >= len {
      SecondOf(n, c1, c2, c3);
      assert buffer[..][..bp] == buffer[..bp];
      return true, bp;
    }
    var c4 := Value(At(text, p + 3));
    if c4 == NO_VALUE {
      return false, bp;
    }
    bp := Store(buffer, bp, c3 % 4 * 64 + c4);
    ThirdOf(n, c1, c2, c3, c4);
    assert buffer[..][..bp] == buffer[..bp];
    return true, bp;
  }

  /** What has to be valid for the whole covers what has to be for a group. */
  lemma MoreValid(text: string, at: nat, len: nat)
    requires at % 3 == 0 && at < len
    ensures AllValid(text, TextLength(len)) ==> AllValid(text, TextLength(if at + 3 <= len then at + 3 else len))
  {
    Room(at, len);
  }

  /** Reads `len` bytes: 0 when every character they need is in the alphabet, and -1 exactly when one is not. */
  method DecodeBase64(buffer: array<byte>, len: nat, text: string) returns (r: int)
    requires len <= buffer.Length
    modifies buffer
    ensures r == if AllValid(text, TextLength(len)) then 0 else -1
    ensures r == 0 ==> Decoded(buffer[..], text, len)
  {
    hide Spare, AllValid, Decoded, TextLength;
    var bp, p := 0, 0;
    DecodedNothing(buffer[..], text);
    while bp < len
      invariant bp <= len && (bp % 3 == 0 || bp == len)
      invariant bp % 3 == 0 ==> p == TextLength(bp)
      invariant Decoded(buffer[..], text, bp)
    {
      Lengths(bp);
      var ok;
      ok, bp := DecodeGroup(text, p, buffer, bp, len);
      if !ok {
        return -1;
      }
      p := p + 4;
    }
    DecodedIsValid(buffer[..], text, len);
    r := 0;
  }

  lemma DecodedNothing(buffer: seq<byte>, text: string)
    ensures Decoded(buffer, text, 0) && TextLength(0) == 0
  {
  }

  lemma DecodedIsValid(buffer: seq<byte>, text: string, n: nat)
    requires n <= |buffer| && Decoded(buffer, text, n)
    ensures AllValid(text, TextLength(n))
  {
  }

  // ----- round trip -----

  lemma ValuesOfText(vs: seq<nat>)
    requires Below(vs, 64)
    ensures Values(Text(vs), |vs|) == vs && AllValid(Text(vs), |vs|)
  {
    forall i | 0 <= i < |vs| ensures Value(At(Text(vs), i)) == vs[i] {
      SymbolReadBack(vs[i]);
    }
  }

  lemma GroupsReadBack(data: seq<byte>, vs: seq<nat>, buffer: seq<byte>)
    requires IsGroups(vs, data) && |data| <= |buffer| && Decoded(buffer, Text(vs), |data|)
    ensures buffer[..|data|] == data
  {
    hide Number, Text;
    ValuesOfText(vs);
    Divided(Number(64, vs), Spare(|data|), Number(256, Digits(data)), 0);
    BytesInjective(buffer[..|data|], data);
  }

  /** Data of any length is encoded and decoded to itself. */
  method RoundTrip(data: seq<byte>, text: array<char>, buffer: array<byte>) returns (r: int)
    requires text.Length > TextLength(|data|) && buffer.Length >= |data|
    modifies text, buffer
    ensures r == 0 && buffer[..|data|] == data
  {
    hide IsGroups, Text, Decoded, AllValid;
    ghost var vs := EncodeBase64(text, data);
    GroupsParts(vs, data);
    ValuesOfText(vs);
    r := DecodeBase64(buffer, |data|, text[..TextLength(|data|)]);
    GroupsReadBack(data, vs, buffer[..]);
    assert buffer[..][..|data|] == buffer[..|data|];
  }
}
