/**
 * SHA-1 of common/sys/2fa.c: a context that takes a message in pieces of any size, against the definition of
 * RFC 3174 (method 1 of section 6) on the whole message.
 */
module Sha1 {
  import opened Arith
  import opened MachineWords

  const BLOCK := 64
  const TWO64 := 0x1_0000_0000_0000_0000

  // ----- RFC 3174 -----

  /** Addition of words, modulo 2^32 (section 2 c). */
  function Plus(x: bv32, y: bv32): bv32 {
    x + y
  }

  /** Rotation to the left, RFC 3174, section 3. */
  function Rotl(x: bv32, n: bv6): bv32
    requires n <= 32
  {
    (x << n) | (x >> (32 - n))
  }

  /** The word schedule, section 6.1 (a) and (b). */
  function W(block: Bytes8, t: nat): bv32
    requires |block| == BLOCK && t < 80
  {
    if t < 16 then Word(block[4 * t], block[4 * t + 1], block[4 * t + 2], block[4 * t + 3])
    else Rotl(W(block, t - 3) ^ W(block, t - 8) ^ W(block, t - 14) ^ W(block, t - 16), 1)
  }

  function Select(b: bv32, c: bv32, d: bv32): bv32 {
    (b & c) | (!b & d)
  }

  function Parity(b: bv32, c: bv32, d: bv32): bv32 {
    b ^ c ^ d
  }

  function Majority(b: bv32, c: bv32, d: bv32): bv32 {
    (b & c) | (b & d) | (c & d)
  }

  /** The functions and constants of section 5. */
  function F(t: nat, b: bv32, c: bv32, d: bv32): bv32 {
    if t < 20 then Select(b, c, d)
    else if t < 40 then Parity(b, c, d)
    else if t < 60 then Majority(b, c, d)
    else Parity(b, c, d)
  }

  function K(t: nat): bv32 {
    if t < 20 then 0x5A827999 else if t < 40 then 0x6ED9EBA1 else if t < 60 then 0x8F1BBCDC else 0xCA62C1D6
  }

  datatype Words = Words(a: bv32, b: bv32, c: bv32, d: bv32, e: bv32)

  const INITIAL := Words(0x67452301, 0xEFCDAB89, 0x98BADCFE, 0x10325476, 0xC3D2E1F0)

  /** One round, section 6.1 (d). */
  function Round(s: Words, t: nat, w: bv32): Words {
    Words(Plus(Plus(Plus(Plus(Rotl(s.a, 5), F(t, s.b, s.c, s.d)), s.e), K(t)), w), s.a, Rotl(s.b, 30), s.c, s.d)
  }

  function Rounds(s: Words, block: Bytes8, n: nat): Words
    requires |block| == BLOCK && n <= 80
  {
    if n == 0 then s else Round(Rounds(s, block, n - 1), n - 1, W(block, n - 1))
  }

  function Sum(s: Words, t: Words): Words {
    Words(Plus(s.a, t.a), Plus(s.b, t.b), Plus(s.c, t.c), Plus(s.d, t.d), Plus(s.e, t.e))
  }

  function Compress(s: Words, block: Bytes8): Words
    requires |block| == BLOCK
  {
    Sum(s, Rounds(s, block, 80))
  }

  /** The hash of whole blocks. */
  function HashBlocks(m: Bytes8): Words
    requires |m| % BLOCK == 0
    decreases |m|
  {
    if m == [] then INITIAL else Compress(HashBlocks(m[..|m| - BLOCK]), m[|m| - BLOCK..])
  }

  /** The lowest `k` bytes of a number, highest first. */
  function BigEndian(n: nat, k: nat): (s: Bytes8)
    ensures |s| == k
  {
    if k == 0 then [] else BigEndian(n / 256, k - 1) + [(n % 256) as bv8]
  }

  lemma GapFits(n: nat)
    ensures (n + (56 - n) % BLOCK) % BLOCK == 56 && (n + (56 - n) % BLOCK + 8) % BLOCK == 0
  {
    var q := (56 - n) / BLOCK;
    assert n + (56 - n) % BLOCK == 56 - BLOCK * q;
    Shift(56, -q);
    Shift(64, -q);
  }

  /** How many zero bytes bring a length to 56 modulo 64. */
  function Gap(n: nat): (g: nat)
    ensures g < BLOCK && (n + g) % BLOCK == 56 && (n + g + 8) % BLOCK == 0
  {
    GapFits(n);
    (56 - n) % BLOCK
  }

  /** The message, a one bit, and some zero bits. */
  function Padded(m: Bytes8, zeros: nat): (p: Bytes8)
    ensures |p| == |m| + 1 + zeros
  {
    m + [0x80] + seq(zeros, _ => 0)
  }

  /** The padding of section 4: a one bit, zero bits, and the length in bits as two words. */
  function Pad(m: Bytes8): (p: Bytes8)
    ensures |p| % BLOCK == 0
  {
    Padded(m, Gap(|m| + 1)) + BigEndian(8 * |m|, 8)
  }

  function ByteOf(w: bv32, k: nat): bv8 {
    if k == 0 then Byte0(w) else if k == 1 then Byte1(w) else if k == 2 then Byte2(w) else Byte3(w)
  }

  function WordAt(h: Words, q: nat): bv32 {
    if q == 0 then h.a else if q == 1 then h.b else if q == 2 then h.c else if q == 3 then h.d else h.e
  }

  /** The five words, highest byte first. */
  function DigestBytes(h: Words): (d: Bytes8)
    ensures |d| == 20
  {
    seq(20, i requires 0 <= i < 20 => ByteOf(WordAt(h, i / 4), i % 4))
  }

  /** The message digest of any message. */
  function Digest(m: Bytes8): (d: Bytes8)
    ensures |d| == 20
  {
    DigestBytes(HashBlocks(Pad(m)))
  }

  // ----- the code -----

  /** The words of a block, and their rounds. */
  method Transform(state: array<bv32>, block: Bytes8)
    requires state.Length == 5 && |block| == BLOCK
    modifies state
    ensures WordsOf(state[..]) == Compress(old(WordsOf(state[..])), block)
  {
    hide Round, Rounds, Sum, W;
    var start := Words(state[0], state[1], state[2], state[3], state[4]);
    var s := start;
    var w := Schedule(block);
    RoundsNone(s, block);
    for i := 0 to 80
      invariant s == Rounds(start, block, i)
      modifies {}
    {
      RoundsMore(start, block, i);
      s := TakeRound(s, i, w[i]);
    }
    s := AddWords(start, s);
    state[0], state[1], state[2], state[3], state[4] := s.a, s.b, s.c, s.d, s.e;
  }

  function WordsOf(s: seq<bv32>): Words
    requires |s| == 5
  {
    Words(s[0], s[1], s[2], s[3], s[4])
  }

  method AddWords(s: Words, t: Words) returns (r: Words)
    ensures r == Sum(s, t)
  {
    hide Plus;
    r := Words(Plus(s.a, t.a), Plus(s.b, t.b), Plus(s.c, t.c), Plus(s.d, t.d), Plus(s.e, t.e));
  }

  method Schedule(block: Bytes8) returns (w: array<bv32>)
    requires |block| == BLOCK
    ensures fresh(w) && w.Length == 80 && forall i :: 0 <= i < 80 ==> w[i] == W(block, i)
  {
    hide Rotl, Word, W;
    w := new bv32[80];
    for i := 0 to 16
      invariant forall k :: 0 <= k < i ==> w[k] == W(block, k)
    {
      WStep(block, i);
      w[i] := Word(block[4 * i], block[4 * i + 1], block[4 * i + 2], block[4 * i + 3]);
    }
    for i := 16 to 80
      invariant forall k :: 0 <= k < i ==> w[k] == W(block, k)
    {
      WStep(block, i);
      var val := w[i - 3] ^ w[i - 8] ^ w[i - 14] ^ w[i - 16];
      w[i] := Rotl(val, 1);
    }
  }

  lemma WStep(block: Bytes8, t: nat)
    requires |block| == BLOCK && t < 80
    ensures W(block, t) ==
            if t < 16 then Word(block[4 * t], block[4 * t + 1], block[4 * t + 2], block[4 * t + 3])
            else Rotl(W(block, t - 3) ^ W(block, t - 8) ^ W(block, t - 14) ^ W(block, t - 16), 1)
  {
  }

  method TakeRound(s: Words, i: nat, w: bv32) returns (r: Words)
    requires i < 80
    ensures r == Round(s, i, w)
  {
    hide Plus, Rotl, F, K;
    var f, k := Choose(i, s.b, s.c, s.d);
    var temp := Plus(Plus(Plus(Plus(Rotl(s.a, 5), f), s.e), k), w);
    r := Words(temp, s.a, Rotl(s.b, 30), s.c, s.d);
  }

  method Choose(i: nat, b: bv32, c: bv32, d: bv32) returns (f: bv32, k: bv32)
    requires i < 80
    ensures f == F(i, b, c, d) && k == K(i)
  {
    hide Select, Parity, Majority;
    if i < 20 {
      f, k := Select(b, c, d), 0x5A827999;
    } else if i < 40 {
      f, k := Parity(b, c, d), 0x6ED9EBA1;
    } else if i < 60 {
      f, k := Majority(b, c, d), 0x8F1BBCDC;
    } else {
      f, k := Parity(b, c, d), 0xCA62C1D6;
    }
  }

  lemma RoundsNone(s: Words, block: Bytes8)
    requires |block| == BLOCK
    ensures Rounds(s, block, 0) == s
  {
  }

  lemma RoundsMore(s: Words, block: Bytes8, i: nat)
    requires |block| == BLOCK && i < 80
    ensures Rounds(s, block, i + 1) == Round(Rounds(s, block, i), i, W(block, i))
  {
  }

  // ----- the context -----

  /** The length of the whole blocks of a message of `n` bytes. */
  function Whole(n: nat): (k: nat)
    ensures k <= n < k + BLOCK && k % BLOCK == 0
  {
    n - n % BLOCK
  }

  lemma HashMore(m: Bytes8, block: Bytes8)
    requires |m| % BLOCK == 0 && |block| == BLOCK
    ensures HashBlocks(m + block) == Compress(HashBlocks(m), block)
  {
    var all := m + block;
    assert all[..|all| - BLOCK] == m && all[|all| - BLOCK..] == block;
  }

  /** The bit count, kept modulo 2^64, gives the fill of the buffer. */
  lemma CountFill(n: nat)
    ensures 8 * n % TWO64 / 8 % BLOCK == n % BLOCK
  {
    var q := 8 * n / TWO64;
    assert 8 * n % TWO64 == 8 * (n - TWO64 / 8 * q);
    assert (n - TWO64 / 8 * q) == n + BLOCK * (-(TWO64 / 512) * q);
    Shift(n, -(TWO64 / 512) * q);
  }

  lemma Shift(n: int, k: int)
    ensures (n + BLOCK * k) % BLOCK == n % BLOCK
  {
    var r, q := n % BLOCK, n / BLOCK;
    assert n + BLOCK * k == BLOCK * (q + k) + r;
  }

  lemma CountGrows(n: nat, d: nat)
    ensures (8 * n % TWO64 + 8 * d) % TWO64 == 8 * (n + d) % TWO64
  {
  }

  /** The buffer filled up is the next block of the message. */
  lemma FirstBlock(m: Bytes8, data: Bytes8)
    requires |m| % BLOCK + |data| >= BLOCK
    ensures var w, i := Whole(|m|), BLOCK - |m| % BLOCK;
            && i <= |data| && |m[w..] + data[..i]| == BLOCK && (|m| + i) % BLOCK == 0
            && (m + data)[..|m| + i] == m[..w] + (m[w..] + data[..i])
  {
    var w, i := Whole(|m|), BLOCK - |m| % BLOCK;
    assert |m| + i == w + BLOCK;
  }

  lemma NextBlock(m: Bytes8, data: Bytes8, i: nat)
    requires i + BLOCK <= |data| && (|m| + i) % BLOCK == 0
    ensures (m + data)[..|m| + i + BLOCK] == (m + data)[..|m| + i] + data[i..i + BLOCK]
    ensures (|m| + (i + BLOCK)) % BLOCK == 0
  {
  }

  lemma LastPart(m: Bytes8, data: Bytes8, i: nat)
    requires i <= |data| < i + BLOCK && (|m| + i) % BLOCK == 0
    ensures var all := m + data;
            && Whole(|all|) == |m| + i && |all| % BLOCK == |data| - i
            && all[Whole(|all|)..] == data[i..]
  {
    Shift(|data| - i, (|m| + i) / BLOCK);
  }

  /** Data that leaves room in the buffer adds to what it holds. */
  lemma NoBlock(m: Bytes8, data: Bytes8)
    requires |m| % BLOCK + |data| < BLOCK
    ensures var w := Whole(|m|);
            && Whole(|m + data|) == w && |m + data| % BLOCK == |m| % BLOCK + |data|
            && (m + data)[..w] == m[..w] && (m + data)[w..] == m[w..] + data
  {
    Shift(|m| % BLOCK + |data|, |m| / BLOCK);
  }

  lemma GapReached(n: nat, zeros: nat)
    requires zeros <= Gap(n)
    ensures (n + zeros) % BLOCK == 56 <==> zeros == Gap(n)
  {
    var g := Gap(n);
    if (n + zeros) % BLOCK == 56 {
      assert n + g == 56 + BLOCK * ((n + g) / BLOCK) && n + zeros == 56 + BLOCK * ((n + zeros) / BLOCK);
      assert g - zeros == BLOCK * ((n + g) / BLOCK - (n + zeros) / BLOCK);
    }
  }

  lemma DivDiv(n: nat, p: nat)
    requires p > 0
    ensures n / 256 / p == n / (256 * p) && n % (256 * p) / 256 == n / 256 % p && n % (256 * p) % 256 == n % 256
  {
    var q, r := n / 256 / p, n / 256 % p;
    assert n / 256 == p * q + r;
    assert n == 256 * p * q + (256 * r + n % 256);
    Divided(n, 256 * p, q, 256 * r + n % 256);
  }

  lemma {:induction false} BigEndianAt(n: nat, k: nat, i: nat)
    requires i < k
    ensures BigEndian(n, k)[i] == (n / Pow256(k - 1 - i) % 256) as bv8
  {
    if i < k - 1 {
      BigEndianAt(n / 256, k - 1, i);
      DivDiv(n, Pow256(k - 2 - i));
    }
  }

  lemma {:induction false} LowBytes(n: nat, k: nat)
    ensures BigEndian(n % Pow256(k), k) == BigEndian(n, k)
  {
    if k > 0 {
      DivDiv(n, Pow256(k - 1));
      LowBytes(n / 256, k - 1);
    }
  }

  lemma LengthBytes(n: nat)
    ensures BigEndian(n % TWO64, 8) == BigEndian(n, 8)
  {
    assert Pow256(4) == 0x1_0000_0000 && Pow256(6) == 0x1_0000_0000_0000;
    assert Pow256(8) == TWO64;
    LowBytes(n, 8);
  }

  /** The bytes of a 64-bit number, by shifts. */
  method CountBytes(n: nat) returns (s: Bytes8)
    ensures s == BigEndian(n, 8)
  {
    hide BigEndian, Pow256;
    s := [];
    for i := 0 to 8
      invariant s == BigEndian(n, 8)[..i]
    {
      BigEndianAt(n, 8, i);
      s := s + [(n / Pow256(7 - i) % 256) as bv8];
    }
  }

  method DigestOf(state: array<bv32>) returns (d: Bytes8)
    requires state.Length == 5
    ensures d == DigestBytes(WordsOf(state[..]))
  {
    hide ByteOf;
    d := [];
    for i := 0 to 20
      invariant |d| == i && d == DigestBytes(WordsOf(state[..]))[..i]
    {
      d := d + [ByteOf(state[i / 4], i % 4)];
    }
  }

  lemma PaddingStarts(m: Bytes8)
    ensures m + [0x80] == Padded(m, 0)
  {
  }

  lemma WholePadded(m: Bytes8)
    ensures Whole(|Pad(m)|) == |Pad(m)| && Pad(m)[..|Pad(m)|] == Pad(m)
  {
  }

  class Sha1Ctx {
    const state: array<bv32>
    var count: nat
    const buffer: array<bv8>
    /** Everything taken in so far. */
    ghost var message: Bytes8

    /** The state is the hash of the message's whole blocks, and the buffer begins with the rest. */
    ghost predicate Valid()
      reads this, state, buffer
    {
      && state.Length == 5 && buffer.Length == BLOCK
      && count == 8 * |message| % TWO64
      && WordsOf(state[..]) == HashBlocks(message[..Whole(|message|)])
      && buffer[..|message| % BLOCK] == message[Whole(|message|)..]
    }

    constructor ()
      ensures Valid() && fresh(state) && fresh(buffer) && message == []
    {
      state := new bv32[5];
      buffer := new bv8[BLOCK];
      count := 0;
      message := [];
      new;
      state[0], state[1], state[2], state[3], state[4] := INITIAL.a, INITIAL.b, INITIAL.c, INITIAL.d, INITIAL.e;
      assert message[..0] == [];
    }

    /** Copies bytes into the buffer. */
    method Fill(j: nat, data: Bytes8)
      requires buffer.Length == BLOCK && j + |data| <= BLOCK
      modifies buffer
      ensures buffer[..j + |data|] == old(buffer[..j]) + data
    {
      forall k | 0 <= k < |data| { buffer[j + k] := data[k]; }
    }

    /** Takes in one block of the message after the blocks `seen`. */
    method Absorb(block: Bytes8, ghost seen: Bytes8)
      requires state.Length == 5 && |block| == BLOCK && |seen| % BLOCK == 0 && WordsOf(state[..]) == HashBlocks(seen)
      modifies state
      ensures WordsOf(state[..]) == HashBlocks(seen + block)
    {
      hide HashBlocks, Compress, WordsOf;
      HashMore(seen, block);
      Transform(state, block);
    }

    /** Takes in a piece of the message, of any length. */
    method Update(data: Bytes8)
      requires Valid()
      modifies this, state, buffer
      ensures Valid() && message == old(message) + data
    {
      hide HashBlocks, WordsOf, Whole;
      ghost var m := message;
      CountFill(|m|);
      var j := count / 8 % BLOCK;
      var i := 0;
      CountGrows(|m|, |data|);
      count := (count + 8 * |data|) % TWO64;
      if j + |data| > 63 {
        i := TakeBlocks(j, data);
        j := 0;
        LastPart(m, data, i);
      } else {
        NoBlock(m, data);
      }
      Fill(j, data[i..]);
      message := m + data;
    }

    /** Fills the buffer up and takes in every whole block; says how much of the data went into them. */
    method TakeBlocks(j: nat, data: Bytes8) returns (i: nat)
      requires state.Length == 5 && buffer.Length == BLOCK && j == |message| % BLOCK && j + |data| > 63
      requires WordsOf(state[..]) == HashBlocks(message[..Whole(|message|)])
      requires buffer[..j] == message[Whole(|message|)..]
      modifies state, buffer
      ensures i <= |data| < i + BLOCK && (|message| + i) % BLOCK == 0
      ensures WordsOf(state[..]) == HashBlocks((message + data)[..|message| + i])
    {
      hide HashBlocks, WordsOf, Whole;
      ghost var m, all := message, message + data;
      i := BLOCK - j;
      FirstBlock(m, data);
      Fill(j, data[..i]);
      assert buffer[..] == buffer[..BLOCK];
      Absorb(buffer[..], m[..Whole(|m|)]);
      while i + 63 < |data|
        invariant i <= |data| && (|m| + i) % BLOCK == 0
        invariant WordsOf(state[..]) == HashBlocks(all[..|m| + i])
      {
        NextBlock(m, data, i);
        Absorb(data[i..i + BLOCK], all[..|m| + i]);
        i := i + BLOCK;
      }
    }

    /** The digest of the message; the context has then taken in the padding too. */
    method Final() returns (digest: Bytes8)
      requires Valid()
      modifies this, state, buffer
      ensures digest == Digest(old(message)) && message == Pad(old(message))
    {
      hide HashBlocks, BigEndian, DigestBytes, Whole, WordsOf, Padded, Gap;
      ghost var m := message;
      var finalCount := CountBytes(count);
      LengthBytes(8 * |m|);
      Update([0x80]);
      PaddingStarts(m);
      AddZeros(m);
      Update(finalCount);
      WholePadded(m);
      digest := DigestOf(state);
    }

    /** The bit count gives how full the buffer is. */
    lemma FillIs()
      requires Valid()
      ensures count / 8 % BLOCK == |message| % BLOCK
    {
      hide HashBlocks, WordsOf;
      CountFill(|message|);
    }

    /** Takes in zero bytes until there is just room for the length. */
    method AddZeros(ghost m: Bytes8)
      requires Valid() && message == Padded(m, 0)
      modifies this, state, buffer
      ensures Valid() && message == Padded(m, Gap(|m| + 1))
    {
      hide Valid, Gap, Padded;
      ghost var zeros := 0;
      FillIs();
      while count / 8 % BLOCK * 8 != 448
        invariant Valid() && message == Padded(m, zeros) && zeros <= Gap(|m| + 1)
        invariant count / 8 % BLOCK == |message| % BLOCK
        decreases Gap(|m| + 1) - zeros
      {
        GapReached(|m| + 1, zeros);
        Update([0]);
        FillIs();
        PaddedOn(m, zeros);
        zeros := zeros + 1;
      }
      GapReached(|m| + 1, zeros);
    }
  }

  lemma PaddedOn(m: Bytes8, zeros: nat)
    ensures Padded(m, zeros) + [0] == Padded(m, zeros + 1)
  {
  }

  function Joined(pieces: seq<Bytes8>): Bytes8 {
    if pieces == [] then [] else Joined(pieces[..|pieces| - 1]) + pieces[|pieces| - 1]
  }

  /** The digest of a message that comes in pieces is that of the whole, however it is cut. */
  method DigestPieces(pieces: seq<Bytes8>) returns (digest: Bytes8)
    ensures digest == Digest(Joined(pieces))
  {
    hide Digest, Sha1Ctx.Valid;
    var ctx := new Sha1Ctx();
    assert pieces[..0] == [];
    for i := 0 to |pieces|
      invariant ctx.Valid() && fresh(ctx) && fresh(ctx.state) && fresh(ctx.buffer)
      invariant ctx.message == Joined(pieces[..i])
    {
      assert pieces[..i + 1][..i] == pieces[..i];
      ctx.Update(pieces[i]);
    }
    assert pieces[..|pieces|] == pieces;
    digest := ctx.Final();
  }

  /** Contexts that took in the same message hold the same state, count and buffered bytes. */
  lemma SameMessageSameState(a: Sha1Ctx, b: Sha1Ctx)
    requires a.Valid() && b.Valid() && a.message == b.message
    ensures a.state[..] == b.state[..] && a.count == b.count
    ensures a.buffer[..a.count / 8 % BLOCK] == b.buffer[..b.count / 8 % BLOCK]
  {
    hide HashBlocks;
    CountFill(|a.message|);
    var v, w := WordsOf(a.state[..]), WordsOf(b.state[..]);
    assert forall k :: 0 <= k < 5 ==> WordAt(v, k) == a.state[k] && WordAt(w, k) == b.state[k];
  }
}
