/**
 * The base32 of common/sys/2fa.c: characters of five bits pushed through a 32-bit accumulator, against the
 * numbers the byte strings and the characters stand for (RFC 4648, section 6, without padding).
 */
module Base32 {
  import opened Arith
  import opened Bytes
  import opened Numerals

  const WORD := 0x1_0000_0000

  /** The digits `v` with `buf`'s lowest bits (below `p`, a power of two) after them. */
  function Pushed(v: nat, buf: nat, p: nat): nat
    requires p > 0
  {
    p * v + buf % p
  }

  lemma Associate(a: nat, b: nat, c: nat)
    ensures a * (b * c) == a * b * c
  {
  }

  lemma Rearrange(a: nat, b: nat, q: nat, r: nat, t: nat)
    requires r < b && t < a
    ensures a * (b * q + r) + t == a * b * q + (a * r + t) && a * r + t < a * b
  {
    Associate(a, b, q);
    assert a * (r + 1) <= a * b;
  }

  lemma ShiftedIn(buf: nat, p: nat, w: nat, d: nat, q: nat, r: nat)
    requires buf == p * q + r && r < p && d < w
    ensures w * p > 0 && (w * buf + d) % (w * p) == w * r + d
  {
    Rearrange(w, p, q, r, d);
    Divided(w * buf + d, w * p, q, w * r + d);
  }

  /** A digit below `w` is shifted into a word of `m` values, a multiple of what is still needed. */
  lemma ShiftIn(v: nat, buf: nat, p: nat, w: nat, d: nat, m: nat, c: nat)
    requires p > 0 && d < w && m == w * p * c && c > 0
    ensures m > 0 && w * p > 0 && Pushed(v, (w * buf + d) % m, w * p) == w * Pushed(v, buf, p) + d
  {
    var r := buf % p;
    ShiftedIn(buf, p, w, d, buf / p, r);
    ModMod(w * buf + d, w * p, c);
    Rearrange(w, p, v, r, d);
  }

  lemma ShiftedOut(buf: nat, p: nat, base: nat, q: nat, r: nat, t: nat)
    requires buf == p * (base * q + r) + t && r < base && t < p
    ensures p * base > 0 && buf % (p * base) == p * r + t
  {
    Rearrange(p, base, q, r, t);
    Divided(buf, p * base, q, p * r + t);
  }

  /** The top digit of the pending bits is taken. */
  lemma ShiftOut(v: nat, buf: nat, p: nat, base: nat)
    requires p > 0 && base > 0
    ensures p * base > 0 && Pushed(v, buf, p * base) == Pushed(base * v + buf / p % base, buf, p)
  {
    var a := buf / p;
    var r := a % base;
    ShiftedOut(buf, p, base, a / base, r, buf % p);
    Rearrange(p, base, v, r, buf % p);
  }

  function Symbol(v: nat): char
    requires v < 32
  {
    if v < 26 then 'A' + v as char else '2' + (v - 26) as char
  }

  /** The value of a character; lower-case letters are taken too. */
  function Value(ch: char): int {
    if 'A' <= ch <= 'Z' then ch as int - 'A' as int
    else if 'a' <= ch <= 'z' then ch as int - 'a' as int
    else if '2' <= ch <= '7' then ch as int - '2' as int + 26
    else -1
  }

  predicate Skipped(ch: char) {
    ch == ' ' || ch == '\t' || ch == '\r' || ch == '\n' || ch == '-'
  }

  /** The alphabet of RFC 4648, section 6. */
  lemma Alphabet(v: nat)
    requires v < 32
    ensures Symbol(v) == "ABCDEFGHIJKLMNOPQRSTUVWXYZ234567"[v]
  {
  }

  /** It is read in either case, and nothing else is; blanks and dashes are passed over. */
  lemma AlphabetRead(v: nat, ch: char)
    requires v < 32
    ensures Value(ch) == v <==> ch == Symbol(v) || (v < 26 && ch == "abcdefghijklmnopqrstuvwxyz"[v])
    ensures -1 <= Value(ch) < 32 && (Skipped(ch) <==> ch as int in {32, 9, 13, 10, 45})
  {
  }

  function Text(vs: seq<nat>): (s: string)
    requires Below(vs, 32)
    ensures |s| == |vs|
  {
    seq(|vs|, i requires 0 <= i < |vs| => Symbol(vs[i]))
  }

  /** The number of characters for `n` bytes, and the zero bits in the last of them. */
  function TextLength(n: nat): nat {
    (8 * n + 4) / 5
  }

  function SpareBits(n: nat): (k: nat)
    ensures k < 5
  {
    5 * TextLength(n) - 8 * n
  }

  /** `vs` are the five-bit groups of the data, zero bits filling the last. */
  predicate IsGroups(vs: seq<nat>, data: seq<byte>) {
    && Below(vs, 32) && |vs| == TextLength(|data|)
    && Number(32, vs) == Number(256, Digits(data)) * Pow2(SpareBits(|data|))
  }

  /** A vector of RFC 4648, section 10, the padding apart: of "foo". */
  lemma FooGroups()
    ensures IsGroups([12, 25, 23, 22, 30], [0x66, 0x6F, 0x6F]) && Text([12, 25, 23, 22, 30]) == "MZXW6"
  {
    hide Number;
    var vs: seq<nat>, data: seq<byte> := [12, 25, 23, 22, 30], [0x66, 0x6F, 0x6F];
    NumberOfThree(32, 12, 25, 23);
    NumberSnoc(32, [12, 25, 23], 22);
    NumberSnoc(32, [12, 25, 23, 22], 30);
    assert [12, 25, 23] + [22] == [12, 25, 23, 22] && [12, 25, 23, 22] + [30] == vs;
    NumberOfThree(256, 0x66, 0x6F, 0x6F);
    assert Digits(data) == [0x66, 0x6F, 0x6F];
    assert SpareBits(3) == 1 && Pow2(1) == 2;
  }

  // ----- encoding -----

  lemma Powers()
    ensures Pow2(5) == 32 && Pow2(8) == 256 && Pow2(32) == WORD
  {
    assert Pow2(4) == 16 && Pow2(5) == 32 && Pow2(8) == 16 * 16 by { Pow2Sum(4, 4); }
    Pow2Sum(8, 8);
    Pow2Sum(16, 16);
  }

  /** The accumulator's word holds what is pending and `w` more bits. */
  lemma WordFits(bits: nat, w: nat)
    requires bits + w <= 32
    ensures WORD == Pow2(w) * Pow2(bits) * Pow2(32 - w - bits) && Pow2(bits + w) == Pow2(w) * Pow2(bits)
  {
    Powers();
    Pow2Sum(w, bits);
    Pow2Sum(w + bits, 32 - w - bits);
  }

  /** Writes the character of a value, if there is room for it and a zero byte. */
  method Emit(output: array<char>, maxLen: nat, outLen: nat, v: nat, ghost vs: seq<nat>) returns (ok: bool)
    requires maxLen <= output.Length && outLen <= maxLen && v < 32
    requires Below(vs, 32) && outLen == |vs| && output[..outLen] == Text(vs)
    modifies output
    ensures ok == (outLen + 1 < maxLen)
    ensures ok ==> Below(vs + [v], 32) && output[..outLen + 1] == Text(vs + [v])
  {
    if outLen + 1 >= maxLen {
      return false;
    }
    output[outLen] := Symbol(v);
    assert output[..outLen + 1] == output[..outLen] + [Symbol(v)];
    ok := true;
  }

  /** The bytes taken in are the values written and the bits pending. */
  ghost predicate Holds(vs: seq<nat>, buffer: nat, bits: nat, taken: nat) {
    Pushed(Number(32, vs), buffer, Pow2(bits)) == taken
  }

  lemma HoldsIn(vs: seq<nat>, buffer: nat, bits: nat, taken: nat, d: nat)
    requires Holds(vs, buffer, bits, taken) && bits < 5 && d < 256
    ensures Holds(vs, (256 * buffer + d) % WORD, bits + 8, 256 * taken + d)
  {
    Powers();
    WordFits(bits, 8);
    ShiftIn(Number(32, vs), buffer, Pow2(bits), 256, d, WORD, Pow2(24 - bits));
  }

  lemma HoldsOut(vs: seq<nat>, buffer: nat, bits: nat, taken: nat)
    requires Holds(vs, buffer, bits, taken) && 5 <= bits <= 12
    ensures Holds(vs + [buffer / Pow2(bits - 5) % 32], buffer, bits - 5, taken)
  {
    Powers();
    WordFits(bits - 5, 5);
    ShiftOut(Number(32, vs), buffer, Pow2(bits - 5), 32);
    NumberSnoc(32, vs, buffer / Pow2(bits - 5) % 32);
  }

  lemma HoldsLast(vs: seq<nat>, buffer: nat, bits: nat, taken: nat)
    requires Holds(vs, buffer, bits, taken) && 0 < bits < 5
    ensures Number(32, vs + [buffer * Pow2(5 - bits) % 32]) == taken * Pow2(5 - bits)
  {
    hide Pow2, Number;
    SmallPowers(bits);
    LastDigit(Number(32, vs), buffer, Pow2(bits), Pow2(5 - bits));
    NumberSnoc(32, vs, buffer * Pow2(5 - bits) % 32);
  }

  lemma LastDigit(v: nat, buffer: nat, p: nat, s: nat)
    requires (p == 2 && s == 16) || (p == 4 && s == 8) || (p == 8 && s == 4) || (p == 16 && s == 2)
    ensures v * 32 + buffer * s % 32 == Pushed(v, buffer, p) * s
  {
    if p == 2 {
      Divided(buffer * 16, 32, buffer / 2, 16 * (buffer % 2));
    } else if p == 4 {
      Divided(buffer * 8, 32, buffer / 4, 8 * (buffer % 4));
    } else if p == 8 {
      Divided(buffer * 4, 32, buffer / 8, 4 * (buffer % 8));
    } else {
      Divided(buffer * 2, 32, buffer / 16, 2 * (buffer % 16));
    }
  }

  lemma SmallPowers(bits: nat)
    requires 0 < bits < 5
    ensures var p, s := Pow2(bits), Pow2(5 - bits);
            (p == 2 && s == 16) || (p == 4 && s == 8) || (p == 8 && s == 4) || (p == 16 && s == 2)
  {
    assert Pow2(1) == 2 && Pow2(2) == 4 && Pow2(3) == 8 && Pow2(4) == 16;
  }

  /** Writes the whole groups of the pending bits; fails when one does not fit. */
  method EmitGroups(output: array<char>, maxLen: nat, at: nat, buffer: nat, pending: nat, ghost ws: seq<nat>, ghost taken: nat)
    returns (ok: bool, outLen: nat, bits: nat, ghost vs: seq<nat>)
    requires maxLen <= output.Length && pending <= 12 && Holds(ws, buffer, pending, taken)
    requires at == |ws| && (at == 0 || at < maxLen) && Below(ws, 32) && output[..at] == Text(ws)
    modifies output
    ensures 5 * outLen + bits == 5 * at + pending && (!ok ==> bits >= 5 && outLen + 1 >= maxLen)
    ensures ok ==> bits < 5 && Holds(vs, buffer, bits, taken) && outLen == |vs| && (outLen == 0 || outLen < maxLen)
    ensures ok ==> Below(vs, 32) && output[..outLen] == Text(vs)
  {
    hide Holds, Text, Symbol, Pow2;
    ok, outLen, bits, vs := true, at, pending, ws;
    while bits >= 5
      invariant Holds(vs, buffer, bits, taken) && bits <= 12
      invariant 5 * outLen + bits == 5 * at + pending && outLen == |vs| && (outLen == 0 || outLen < maxLen)
      invariant Below(vs, 32) && output[..outLen] == Text(vs)
    {
      var v := buffer / Pow2(bits - 5) % 32;
      ok := Emit(output, maxLen, outLen, v, vs);
      if !ok {
        return;
      }
      HoldsOut(vs, buffer, bits, taken);
      vs := vs + [v];
      outLen := outLen + 1;
      bits := bits - 5;
    }
  }

  /**
   * Encodes the data, in groups of five bits. The result is the number of characters, or -1 exactly when they
   * and a zero byte do not fit.
   */
  method Base32Encode(data: seq<byte>, output: array<char>, maxLen: nat) returns (r: int, ghost vs: seq<nat>)
    requires maxLen <= output.Length
    modifies output
    ensures r == -1 <==> TextLength(|data|) > 0 && TextLength(|data|) >= maxLen
    ensures r != -1 ==> r == TextLength(|data|) && IsGroups(vs, data) && output[..r] == Text(vs)
    ensures r != -1 && r < maxLen ==> output[r] == '\0'
  {
    hide Holds, Number, Text, Symbol, Pow2;
    vs := [];
    var outLen: nat, buffer: nat, bits: nat := 0, 0, 0;
    assert output[..0] == Text([]) && data[..0] == [] by { assert Text([]) == []; }
    HoldsNothing();
    for i := 0 to |data|
      invariant Holds(vs, buffer, bits, Number(256, Digits(data[..i])))
      invariant 5 * outLen + bits == 8 * i && bits < 5 && outLen == |vs| && (outLen == 0 || outLen < maxLen)
      invariant Below(vs, 32) && output[..outLen] == Text(vs)
    {
      NextByte(data, i);
      HoldsIn(vs, buffer, bits, Number(256, Digits(data[..i])), data[i]);
      buffer := (256 * buffer + data[i]) % WORD;
      bits := bits + 8;
      var ok;
      ok, outLen, bits, vs := EmitGroups(output, maxLen, outLen, buffer, bits, vs, Number(256, Digits(data[..i + 1])));
      if !ok {
        return -1, vs;
      }
    }
    assert data[..|data|] == data;
    if bits > 0 {
      var v := buffer * Pow2(5 - bits) % 32;
      var ok := Emit(output, maxLen, outLen, v, vs);
      if !ok {
        return -1, vs;
      }
      HoldsLast(vs, buffer, bits, Number(256, Digits(data)));
      vs := vs + [v];
      outLen := outLen + 1;
    } else {
      HoldsAll(vs, buffer, Number(256, Digits(data)));
    }
    if outLen < maxLen {
      output[outLen] := '\0';
    }
    r := outLen;
  }

  lemma HoldsNothing()
    ensures Holds([], 0, 0, Number(256, Digits([])))
  {
  }

  lemma HoldsAll(vs: seq<nat>, buffer: nat, taken: nat)
    requires Holds(vs, buffer, 0, taken)
    ensures Number(32, vs) == taken * Pow2(0)
  {
  }

  // ----- decoding -----

  datatype Parsed = Invalid | Values(vs: seq<nat>)

  /** The values of a text up to its end or an equals sign, blanks and dashes left out. */
  function Symbols(t: string): (p: Parsed)
    ensures p.Values? ==> Below(p.vs, 32)
  {
    if t == "" || t[0] == '\0' || t[0] == '=' then Values([])
    else if Skipped(t[0]) then Symbols(t[1..])
    else if Value(t[0]) < 0 then Invalid
    else
      var rest := Symbols(t[1..]);
      if rest.Invalid? then Invalid else Values([Value(t[0]) as nat] + rest.vs)
  }

  /** Values read before the rest of a text. */
  function After(vs: seq<nat>, p: Parsed): Parsed {
    if p.Invalid? then Invalid else Values(vs + p.vs)
  }

  lemma SymbolsStep(t: string, i: nat, vs: seq<nat>)
    requires i < |t| && t[i] != '\0' && t[i] != '='
    ensures Skipped(t[i]) ==> Symbols(t[i..]) == Symbols(t[i + 1..])
    ensures !Skipped(t[i]) && Value(t[i]) < 0 ==> Symbols(t[i..]) == Invalid
    ensures !Skipped(t[i]) && Value(t[i]) >= 0 ==>
              Value(t[i]) < 32 && After(vs, Symbols(t[i..])) == After(vs + [Value(t[i]) as nat], Symbols(t[i + 1..]))
  {
    assert t[i..][1..] == t[i + 1..];
    if !Skipped(t[i]) && Value(t[i]) >= 0 && Symbols(t[i + 1..]).Values? {
      var rest := Symbols(t[i + 1..]).vs;
      assert vs + ([Value(t[i]) as nat] + rest) == vs + [Value(t[i]) as nat] + rest;
    }
  }

  /** The values read are the bytes written and the bits pending. */
  ghost predicate Unpacked(out: seq<byte>, buffer: nat, bits: nat, vs: seq<nat>) {
    Pushed(Number(256, Digits(out)), buffer, Pow2(bits)) == Number(32, vs)
  }

  lemma UnpackedIn(out: seq<byte>, buffer: nat, bits: nat, vs: seq<nat>, d: nat)
    requires Unpacked(out, buffer, bits, vs) && bits < 8 && d < 32
    ensures Unpacked(out, (32 * buffer + d) % WORD, bits + 5, vs + [d])
  {
    hide Number, Pow2;
    Powers();
    WordFits(bits, 5);
    ShiftIn(Number(256, Digits(out)), buffer, Pow2(bits), 32, d, WORD, Pow2(27 - bits));
    NumberSnoc(32, vs, d);
  }

  lemma UnpackedOut(out: seq<byte>, buffer: nat, bits: nat, vs: seq<nat>)
    requires Unpacked(out, buffer, bits, vs) && 8 <= bits <= 12
    ensures Unpacked(out + [buffer / Pow2(bits - 8) % 256], buffer, bits - 8, vs)
  {
    hide Number, Pow2;
    var b: byte := buffer / Pow2(bits - 8) % 256;
    Powers();
    WordFits(bits - 8, 8);
    ShiftOut(Number(256, Digits(out)), buffer, Pow2(bits - 8), 256);
    DigitsSnoc(out, b);
  }

  lemma UnpackedAll(out: seq<byte>, buffer: nat, bits: nat, vs: seq<nat>)
    requires Unpacked(out, buffer, bits, vs)
    ensures Number(256, Digits(out)) == Number(32, vs) / Pow2(bits)
  {
    Divided(Number(32, vs), Pow2(bits), Number(256, Digits(out)), buffer % Pow2(bits));
  }

  /**
   * Decodes a text. The result is the number of bytes, or -1 exactly when a character is no digit or the bytes do
   * not fit. The bytes are the number's, the bits left over dropped.
   */
  method Base32Decode(encoded: string, output: array<byte>, maxLen: nat) returns (r: int)
    requires maxLen <= output.Length
    modifies output
    ensures r == -1 <==> Symbols(encoded).Invalid? || 5 * |Symbols(encoded).vs| / 8 > maxLen
    ensures r != -1 ==>
              var vs := Symbols(encoded).vs;
              && 0 <= r <= output.Length && r == 5 * |vs| / 8
              && Number(256, Digits(output[..r])) == Number(32, vs) / Pow2(5 * |vs| % 8)
  {
    hide Unpacked, Number, Symbols, Pow2, Value, Skipped;
    var outLen: nat, buffer: nat, bits: nat := 0, 0, 0;
    ghost var vs := [];
    assert encoded[0..] == encoded && output[..0] == [];
    UnpackedNothing(encoded);
    var i := 0;
    while i < |encoded| && encoded[i] != '\0'
      invariant i <= |encoded| && bits < 8 && 8 * outLen + bits == 5 * |vs| && outLen <= maxLen
      invariant Unpacked(output[..outLen], buffer, bits, vs)
      invariant Symbols(encoded) == After(vs, Symbols(encoded[i..]))
    {
      var ch := encoded[i];
      if ch == '=' {
        break;
      }
      SymbolsStep(encoded, i, vs);
      i := i + 1;
      if Skipped(ch) {
        continue;
      }
      var val := Value(ch);
      if val < 0 {
        return -1;
      }
      UnpackedIn(output[..outLen], buffer, bits, vs, val);
      vs := vs + [val as nat];
      buffer := (32 * buffer + val) % WORD;
      bits := bits + 5;
      if bits >= 8 {
        if outLen >= maxLen {
          return -1;
        }
        UnpackedOut(output[..outLen], buffer, bits, vs);
        var b: byte := buffer / Pow2(bits - 8) % 256;
        ghost var done := output[..outLen];
        output[outLen] := b;
        assert output[..outLen + 1] == done + [b];
        outLen := outLen + 1;
        bits := bits - 8;
      }
    }
    SymbolsEnd(encoded, i, vs);
    UnpackedAll(output[..outLen], buffer, bits, vs);
    r := outLen;
  }

  lemma UnpackedNothing(t: string)
    ensures Unpacked([], 0, 0, []) && After([], Symbols(t)) == Symbols(t)
  {
    if Symbols(t).Values? { assert [] + Symbols(t).vs == Symbols(t).vs; }
  }

  lemma SymbolsEnd(t: string, i: nat, vs: seq<nat>)
    requires i <= |t| && (i == |t| || t[i] == '\0' || t[i] == '=')
    ensures After(vs, Symbols(t[i..])) == Values(vs)
  {
    assert Symbols(t[i..]) == Values([]) && vs + [] == vs;
  }

  // ----- round trip -----

  lemma SymbolReadBack(v: nat)
    requires v < 32
    ensures Value(Symbol(v)) == v && !Skipped(Symbol(v)) && Symbol(v) != '=' && Symbol(v) != '\0'
  {
  }

  lemma {:induction false} SymbolsOfText(vs: seq<nat>)
    requires Below(vs, 32)
    ensures Symbols(Text(vs)) == Values(vs)
  {
    hide Value, Skipped, Symbol;
    if vs != [] {
      SymbolReadBack(vs[0]);
      SymbolsOfText(vs[1..]);
      assert Text(vs)[0] == Symbol(vs[0]) && Text(vs)[1..] == Text(vs[1..]);
      assert vs == [vs[0]] + vs[1..];
    }
  }

  /** Whatever the length, decoding the groups of some data gives the data back: the spare bits are what is dropped. */
  lemma GroupsReadBack(data: seq<byte>, vs: seq<nat>, out: seq<byte>)
    requires IsGroups(vs, data)
    requires |out| == 5 * |vs| / 8 && Number(256, Digits(out)) == Number(32, vs) / Pow2(5 * |vs| % 8)
    ensures out == data
  {
    hide Number, Pow2;
    var n, k := |data|, SpareBits(|data|);
    assert 5 * |vs| == 8 * n + k;
    Divided(Number(32, vs), Pow2(k), Number(256, Digits(data)), 0);
    BytesInjective(out, data);
  }

  /** Encoding and then decoding, with room for both, gives the data back. */
  method RoundTrip(data: seq<byte>, text: array<char>, output: array<byte>)
    requires text.Length > TextLength(|data|) && output.Length >= |data|
    modifies text, output
    ensures output[..|data|] == data
  {
    hide IsGroups, Text, Symbols, Number;
    ghost var vs;
    var n;
    n, vs := Base32Encode(data, text, text.Length);
    GroupsBelow(vs, data);
    SymbolsOfText(vs);
    var m := Base32Decode(text[..n], output, output.Length);
    assert m == |data| by { assert 5 * |vs| / 8 == |data|; }
    GroupsReadBack(data, vs, output[..m]);
  }

  lemma GroupsBelow(vs: seq<nat>, data: seq<byte>)
    requires IsGroups(vs, data)
    ensures Below(vs, 32) && 5 * |vs| / 8 == |data|
  {
  }
}
