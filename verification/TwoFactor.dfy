/** The one-time codes of common/sys/2fa.c: HMAC (RFC 2104, section 2) and HOTP (RFC 4226, section 5.3) over SHA-1. */
module TwoFactor {
  import opened Arith
  import opened Sha1
  import opened MachineWords

  // ----- RFC 2104, section 2 -----

  function Zeros(n: nat): (s: Bytes8)
    ensures |s| == n
  {
    seq(n, _ => 0)
  }

  /** The key brought to the length of a block: hashed first if it is longer, then filled up with zeros. */
  function BlockKey(key: Bytes8): (k: Bytes8)
    ensures |k| == BLOCK
  {
    if |key| > BLOCK then Digest(key) + Zeros(BLOCK - 20) else key + Zeros(BLOCK - |key|)
  }

  function Xor(s: Bytes8, pad: bv8): (r: Bytes8)
    ensures |r| == |s|
  {
    seq(|s|, i requires 0 <= i < |s| => XorByte(s[i], pad))
  }

  function Hmac(key: Bytes8, text: Bytes8): (mac: Bytes8)
    ensures |mac| == 20
  {
    var k := BlockKey(key);
    Digest(Xor(k, 0x5C) + Digest(Xor(k, 0x36) + text))
  }

  // ----- RFC 4226, section 5.3 -----

  /** Dynamic truncation: four bytes at the offset in the last byte's low half, without the top bit. */
  function Truncate(mac: Bytes8): nat
    requires |mac| == 20
  {
    var o := Octet(mac[19]) % 16;
    (Octet(mac[o]) % 128) * 0x100_0000 + Octet(mac[o + 1]) * 0x1_0000 + Octet(mac[o + 2]) * 0x100 + Octet(mac[o + 3])
  }

  /** A number in exactly `n` decimal digits, the lowest ones. */
  function Digits(v: nat, n: nat): (s: string)
    ensures |s| == n
  {
    if n == 0 then "" else Digits(v / 10, n - 1) + ['0' + (v % 10) as char]
  }

  /** The example of RFC 4226, section 5.4. */
  lemma TruncateExample()
    ensures var mac: Bytes8 := [0x1F, 0x86, 0x98, 0x69, 0x0E, 0x02, 0xCA, 0x16, 0x61, 0x85,
                                0x50, 0xEF, 0x7F, 0x19, 0xDA, 0x8E, 0x94, 0x5B, 0x55, 0x5A];
            Truncate(mac) == 0x50EF7F19 && Digits(Truncate(mac), 6) == "872921"
  {
    var mac: Bytes8 := [0x1F, 0x86, 0x98, 0x69, 0x0E, 0x02, 0xCA, 0x16, 0x61, 0x85,
                        0x50, 0xEF, 0x7F, 0x19, 0xDA, 0x8E, 0x94, 0x5B, 0x55, 0x5A];
    hide Digits;
    assert Octet(mac[19]) == 0x5A && Octet(mac[10]) == 0x50 && Octet(mac[11]) == 0xEF;
    assert Octet(mac[12]) == 0x7F && Octet(mac[13]) == 0x19;
    LastSix(0x50EF7F19);
  }

  /** The lowest 31 bits of the four bytes, whose place the lowest four bits of the last byte say. */
  lemma TruncateKeeps31Bits(mac: Bytes8, o: nat)
    requires |mac| == 20 && o < 16 && Octet(mac[19]) % 16 == o
    ensures var n := ((Octet(mac[o]) * 256 + Octet(mac[o + 1])) * 256 + Octet(mac[o + 2])) * 256 + Octet(mac[o + 3]);
            Truncate(mac) == n % 0x8000_0000
  {
    hide Octet;
    Without32ndBit(Octet(mac[o]), Octet(mac[o + 1]), Octet(mac[o + 2]), Octet(mac[o + 3]));
  }

  lemma Without32ndBit(a: nat, b: nat, c: nat, d: nat)
    requires a < 256 && b < 256 && c < 256 && d < 256
    ensures (((a * 256 + b) * 256 + c) * 256 + d) % 0x8000_0000 == a % 128 * 0x100_0000 + b * 0x1_0000 + c * 0x100 + d
  {
    var low := b * 0x1_0000 + c * 0x100 + d;
    Divided(a * 0x100_0000 + low, 0x8000_0000, a / 128, a % 128 * 0x100_0000 + low);
  }

  /** Six digits, one by one. */
  lemma LastSix(v: nat)
    ensures var d := (k: nat) => '0' + (k % 10) as char;
            Digits(v, 6) == [d(v / 100000), d(v / 10000), d(v / 1000), d(v / 100), d(v / 10), d(v)]
  {
    var d := (k: nat) => '0' + (k % 10) as char;
    assert v / 10 / 10 == v / 100 && v / 100 / 10 == v / 1000 && v / 1000 / 10 == v / 10000 && v / 10000 / 10 == v / 100000;
    assert Digits(v / 100000, 1) == [] + [d(v / 100000)];
    assert Digits(v / 10000, 2) == Digits(v / 100000, 1) + [d(v / 10000)];
    assert Digits(v / 1000, 3) == Digits(v / 10000, 2) + [d(v / 1000)];
    assert Digits(v / 100, 4) == Digits(v / 1000, 3) + [d(v / 100)];
    assert Digits(v / 10, 5) == Digits(v / 100, 4) + [d(v / 10)];
  }

  function Hotp(secret: Bytes8, counter: nat): (code: string)
    ensures |code| == 6
  {
    Digits(Truncate(Hmac(secret, BigEndian(counter, 8))), 6)
  }

  // ----- the code -----

  method HashOf(first: Bytes8, second: Bytes8) returns (digest: Bytes8)
    ensures digest == Digest(first + second)
  {
    hide Digest, Sha1Ctx.Valid;
    var ctx := new Sha1Ctx();
    ctx.Update(first);
    ctx.Update(second);
    assert [] + first + second == first + second;
    digest := ctx.Final();
  }

  method HmacSha1(key: Bytes8, msg: Bytes8) returns (output: Bytes8)
    ensures output == Hmac(key, msg)
    ensures var k := if |key| > 64 then Digest(key) else key;
            output == Digest(seq(64, i requires 0 <= i < 64 => (if i < |k| then k[i] else 0) ^ 0x5C)
                             + Digest(seq(64, i requires 0 <= i < 64 => (if i < |k| then k[i] else 0) ^ 0x36) + msg))
  {
    hide Digest, Xor, BlockKey;
    var k0 := KeyBlock(key);
    var ipad, opad := Pads(k0);
    var inner := HashOf(ipad, msg);
    output := HashOf(opad, inner);
    Padded64(key, 0x36);
    Padded64(key, 0x5C);
  }

  lemma Padded64(key: Bytes8, pad: bv8)
    ensures var k := if |key| > 64 then Digest(key) else key;
            Xor(BlockKey(key), pad) == seq(64, i requires 0 <= i < 64 => (if i < |k| then k[i] else 0) ^ pad)
  {
    hide Digest, BlockKey, Xor, XorByte;
    var k := if |key| > 64 then Digest(key) else key;
    forall i | 0 <= i < 64 ensures Xor(BlockKey(key), pad)[i] == (if i < |k| then k[i] else 0) ^ pad {
      KeyAt(key, i);
      XorAt(BlockKey(key), pad, i);
    }
  }

  lemma XorAt(s: Bytes8, pad: bv8, i: nat)
    requires i < |s|
    ensures Xor(s, pad)[i] == s[i] ^ pad
  {
  }

  lemma KeyAt(key: Bytes8, i: nat)
    requires i < 64
    ensures var k := if |key| > 64 then Digest(key) else key; BlockKey(key)[i] == if i < |k| then k[i] else 0
  {
    hide Digest;
  }

  method KeyBlock(key: Bytes8) returns (k: Bytes8)
    ensures k == BlockKey(key)
  {
    hide Digest;
    var k0 := new bv8[BLOCK](_ => 0);
    assert k0[..] == Zeros(BLOCK);
    var start := key;
    if |key| > BLOCK {
      var ctx := new Sha1Ctx();
      ctx.Update(key);
      assert [] + key == key;
      start := ctx.Final();
    }
    Store(k0, start);
    k := k0[..];
  }

  method Pads(k0: Bytes8) returns (ipad: Bytes8, opad: Bytes8)
    requires |k0| == BLOCK
    ensures ipad == Xor(k0, 0x36) && opad == Xor(k0, 0x5C)
  {
    hide XorByte;
    var ip, op := new bv8[BLOCK], new bv8[BLOCK];
    for i := 0 to BLOCK
      invariant forall k :: 0 <= k < i ==> ip[k] == XorByte(k0[k], 0x36)
      invariant forall k :: 0 <= k < i ==> op[k] == XorByte(k0[k], 0x5C)
    {
      ip[i] := XorByte(k0[i], 0x36);
      op[i] := XorByte(k0[i], 0x5C);
    }
    return ip[..], op[..];
  }

  /** Copies bytes over the zeros of a block. */
  method Store(k0: array<bv8>, data: Bytes8)
    requires k0.Length == BLOCK && |data| <= BLOCK && k0[..] == Zeros(BLOCK)
    modifies k0
    ensures k0[..] == data + Zeros(BLOCK - |data|)
  {
    forall i | 0 <= i < |data| { k0[i] := data[i]; }
  }

  /** A counter as eight bytes, written from the last. */
  method CounterBytes(n: nat) returns (bytes: Bytes8)
    ensures bytes == BigEndian(n, 8)
  {
    var counter := n;
    var msg := new bv8[8](_ => 0);
    var i: int := 7;
    assert msg[8..] == [];
    while i >= 0
      invariant -1 <= i <= 7
      invariant BigEndian(n, 8) == BigEndian(counter, i + 1) + msg[i + 1..]
    {
      ghost var low := BigEndian(counter / 256, i);
      ghost var rest := msg[i + 1..];
      msg[i] := (counter % 256) as bv8;
      assert msg[i..] == [msg[i]] + rest;
      assert low + [msg[i]] + rest == low + msg[i..];
      counter := counter / 256;
      i := i - 1;
    }
    bytes := msg[..];
  }

  /** The code for a time: the HOTP value of the time step it falls in. */
  method Generate2fa(secret: Bytes8, timestamp: nat, stepSeconds: nat) returns (code: string)
    requires stepSeconds > 0
    ensures code == Hotp(secret, timestamp / stepSeconds)
  {
    hide Digest, Hmac, BigEndian, Digits;
    var msg := CounterBytes(timestamp / stepSeconds);
    var mac := HmacSha1(secret, msg);
    var offset := Octet(mac[19]) % 16;
    var truncated := (Octet(mac[offset]) % 128) * 0x100_0000 + Octet(mac[offset + 1]) * 0x1_0000
                     + Octet(mac[offset + 2]) * 0x100 + Octet(mac[offset + 3]);
    var value := truncated % 1000000;
    SixDigits(truncated);
    code := Digits(value, 6);
  }

  lemma {:induction false} DigitsOfRemainder(v: nat, n: nat, p: nat)
    requires p == Pow10(n)
    ensures Digits(v % p, n) == Digits(v, n)
  {
    if n > 0 {
      var q := Pow10(n - 1);
      Tens(v, q);
      DigitsOfRemainder(v / 10, n - 1, q);
    }
  }

  function Pow10(n: nat): (p: nat)
    ensures p > 0
  {
    if n == 0 then 1 else 10 * Pow10(n - 1)
  }

  lemma Tens(v: nat, q: nat)
    requires q > 0
    ensures v % (10 * q) % 10 == v % 10 && v % (10 * q) / 10 == v / 10 % q
  {
    var a, r := v / 10 / q, v / 10 % q;
    assert v == 10 * q * a + (10 * r + v % 10);
    Divided(v, 10 * q, a, 10 * r + v % 10);
  }

  lemma SixDigits(v: nat)
    ensures Digits(v % 1000000, 6) == Digits(v, 6)
  {
    assert Pow10(3) == 1000 && Pow10(6) == 1000000;
    DigitsOfRemainder(v, 6, 1000000);
  }
}
