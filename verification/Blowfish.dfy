/**
 * The Blowfish cipher and its block chaining, common/sys/bcrypt.c, for arbitrary S-boxes and subkeys.
 */
module Blowfish {
  import opened Prelude
  import opened MachineWords

  const N := 16
  const BLOCK := 8

  /** The four S-boxes one after the other, and the subkeys. */
  datatype Context = Context(s: seq<bv32>, p: seq<bv32>) {
    predicate Valid() {
      |s| == 1024 && |p| == N + 2
    }
  }

  function Xor(x: bv32, y: bv32): bv32 {
    x ^ y
  }

  /** The entries of the four boxes mixed, sums without their carry. */
  function Mix(a: bv32, b: bv32, c: bv32, d: bv32): bv32 {
    ((a + b) ^ c) + d
  }

  function F(c: Context, x: bv32): bv32
    requires c.Valid()
  {
    Mix(c.s[Octet(Byte0(x))], c.s[0x100 + Octet(Byte1(x))], c.s[0x200 + Octet(Byte2(x))], c.s[0x300 + Octet(Byte3(x))])
  }

  /** What a round makes of the half `i`, given the other half `j`. */
  function Rnd(c: Context, i: bv32, j: bv32, n: nat): bv32
    requires c.Valid() && n < N + 2
  {
    Xor(i, Xor(F(c, j), c.p[n]))
  }

  /** A round on the four quarters of the other half, highest first: one box for each, and then the subkey. */
  lemma RoundOnQuarters(k: Context, i: bv32, a: bv8, b: bv8, c: bv8, d: bv8, n: nat)
    requires k.Valid() && n < 18
    ensures Rnd(k, i, Word(a, b, c, d), n) ==
            i ^ (Mix(k.s[Octet(a)], k.s[256 + Octet(b)], k.s[512 + Octet(c)], k.s[768 + Octet(d)]) ^ k.p[n])
  {
    hide Mix, Word, Byte0, Byte1, Byte2, Byte3, Octet;
    BytesReadBack(a, b, c, d);
  }

  /** Mixing by an example in which the sums overflow. */
  lemma MixExample()
    ensures Mix(0xFFFF_FFFF, 2, 4, 8) == 13 && Mix(1, 2, 4, 0xFFFF_FFF9) == 0 && Mix(0, 0, 0x8000_0000, 0x8000_0001) == 1
  {
  }

  lemma XorTwice(x: bv32, y: bv32)
    ensures Xor(Xor(x, y), y) == x
  {
  }

  lemma RndTwice(c: Context, i: bv32, j: bv32, n: nat)
    requires c.Valid() && n < N + 2
    ensures Rnd(c, Rnd(c, i, j, n), j, n) == i
  {
    hide F, Xor;
    XorTwice(i, Xor(F(c, j), c.p[n]));
  }

  /** The halves after `k` rounds: odd rounds change the right one, even rounds the left one. */
  function Forward(c: Context, l: bv32, r: bv32, k: nat): (bv32, bv32)
    requires c.Valid() && k <= N
  {
    if k == 0 then (Xor(l, c.p[0]), r)
    else
      var (a, b) := Forward(c, l, r, k - 1);
      if k % 2 == 1 then (a, Rnd(c, b, a, k)) else (Rnd(c, a, b, k), b)
  }

  /** Rounds `k` to 1 taken back. */
  function Backward(c: Context, a: bv32, b: bv32, k: nat): (bv32, bv32)
    requires c.Valid() && k <= N
    decreases k
  {
    if k == 0 then (Xor(a, c.p[0]), b)
    else if k % 2 == 1 then Backward(c, a, Rnd(c, b, a, k), k - 1)
    else Backward(c, Rnd(c, a, b, k), b, k - 1)
  }

  function Enciphered(c: Context, l: bv32, r: bv32): (bv32, bv32)
    requires c.Valid()
  {
    var (a, b) := Forward(c, l, r, N);
    (Xor(b, c.p[N + 1]), a)
  }

  function Deciphered(c: Context, l: bv32, r: bv32): (bv32, bv32)
    requires c.Valid()
  {
    Backward(c, r, Xor(l, c.p[N + 1]), N)
  }

  lemma {:induction false} BackwardUndoesForward(c: Context, l: bv32, r: bv32, k: nat)
    requires c.Valid() && k <= N
    ensures var (a, b) := Forward(c, l, r, k); Backward(c, a, b, k) == (l, r)
  {
    hide Rnd, Xor;
    if k == 0 {
      XorTwice(l, c.p[0]);
    } else {
      var (a, b) := Forward(c, l, r, k - 1);
      RndTwice(c, b, a, k);
      RndTwice(c, a, b, k);
      BackwardUndoesForward(c, l, r, k - 1);
    }
  }

  /** Deciphering undoes enciphering, whatever the boxes and subkeys. */
  lemma DecipherUndoesEncipher(c: Context, l: bv32, r: bv32)
    requires c.Valid()
    ensures var (x, y) := Enciphered(c, l, r); Deciphered(c, x, y) == (l, r)
  {
    hide Rnd, Xor, Forward, Backward;
    var (a, b) := Forward(c, l, r, N);
    XorTwice(b, c.p[N + 1]);
    BackwardUndoesForward(c, l, r, N);
  }

  lemma TwoForward(c: Context, l: bv32, r: bv32, k: nat)
    requires c.Valid() && k % 2 == 0 && k + 2 <= N
    ensures var (a, b) := Forward(c, l, r, k);
            var b' := Rnd(c, b, a, k + 1);
            Forward(c, l, r, k + 2) == (Rnd(c, a, b', k + 2), b')
  {
    hide Rnd;
    assert (k + 1) % 2 == 1 && (k + 2) % 2 == 0;
    assert Forward(c, l, r, k + 2) == var (a, b) := Forward(c, l, r, k + 1); (Rnd(c, a, b, k + 2), b);
  }

  lemma TwoBackward(c: Context, a: bv32, b: bv32, k: nat)
    requires c.Valid() && k % 2 == 0 && 2 <= k <= N
    ensures var a' := Rnd(c, a, b, k);
            Backward(c, a, b, k) == Backward(c, a', Rnd(c, b, a', k - 1), k - 2)
  {
    hide Rnd;
    assert (k - 1) % 2 == 1;
    var a' := Rnd(c, a, b, k);
    assert Backward(c, a, b, k) == Backward(c, a', b, k - 1);
  }

  method Encipher(c: Context, x: array<bv32>)
    requires c.Valid() && x.Length == 2
    modifies x
    ensures (x[0], x[1]) == Enciphered(c, old(x[0]), old(x[1]))
  {
    hide Rnd, Xor, Forward;
    var xl, xr := x[0], x[1];
    ghost var l, r := xl, xr;
    xl := Xor(xl, c.p[0]);
    NoForward(c, l, r);
    xr := Rnd(c, xr, xl, 1); xl := Rnd(c, xl, xr, 2); TwoForward(c, l, r, 0);
    xr := Rnd(c, xr, xl, 3); xl := Rnd(c, xl, xr, 4); TwoForward(c, l, r, 2);
    xr := Rnd(c, xr, xl, 5); xl := Rnd(c, xl, xr, 6); TwoForward(c, l, r, 4);
    xr := Rnd(c, xr, xl, 7); xl := Rnd(c, xl, xr, 8); TwoForward(c, l, r, 6);
    xr := Rnd(c, xr, xl, 9); xl := Rnd(c, xl, xr, 10); TwoForward(c, l, r, 8);
    xr := Rnd(c, xr, xl, 11); xl := Rnd(c, xl, xr, 12); TwoForward(c, l, r, 10);
    xr := Rnd(c, xr, xl, 13); xl := Rnd(c, xl, xr, 14); TwoForward(c, l, r, 12);
    xr := Rnd(c, xr, xl, 15); xl := Rnd(c, xl, xr, 16); TwoForward(c, l, r, 14);
    x[0] := Xor(xr, c.p[17]);
    x[1] := xl;
  }

  lemma NoForward(c: Context, l: bv32, r: bv32)
    requires c.Valid()
    ensures Forward(c, l, r, 0) == (Xor(l, c.p[0]), r)
  {
  }

  lemma NoBackward(c: Context, a: bv32, b: bv32)
    requires c.Valid()
    ensures Backward(c, a, b, 0) == (Xor(a, c.p[0]), b)
  {
  }

  method Decipher(c: Context, x: array<bv32>)
    requires c.Valid() && x.Length == 2
    modifies x
    ensures (x[0], x[1]) == Deciphered(c, old(x[0]), old(x[1]))
  {
    hide Rnd, Xor, Backward;
    var xl, xr := x[0], x[1];
    xl := Xor(xl, c.p[17]);
    TwoBackward(c, xr, xl, 16); xr := Rnd(c, xr, xl, 16); xl := Rnd(c, xl, xr, 15);
    TwoBackward(c, xr, xl, 14); xr := Rnd(c, xr, xl, 14); xl := Rnd(c, xl, xr, 13);
    TwoBackward(c, xr, xl, 12); xr := Rnd(c, xr, xl, 12); xl := Rnd(c, xl, xr, 11);
    TwoBackward(c, xr, xl, 10); xr := Rnd(c, xr, xl, 10); xl := Rnd(c, xl, xr, 9);
    TwoBackward(c, xr, xl, 8); xr := Rnd(c, xr, xl, 8); xl := Rnd(c, xl, xr, 7);
    TwoBackward(c, xr, xl, 6); xr := Rnd(c, xr, xl, 6); xl := Rnd(c, xl, xr, 5);
    TwoBackward(c, xr, xl, 4); xr := Rnd(c, xr, xl, 4); xl := Rnd(c, xl, xr, 3);
    TwoBackward(c, xr, xl, 2); xr := Rnd(c, xr, xl, 2); xl := Rnd(c, xl, xr, 1);
    NoBackward(c, xr, xl);
    x[0] := Xor(xr, c.p[0]);
    x[1] := xl;
  }

  // ----- blocks -----

  function WordsOf(b: Bytes8): (bv32, bv32)
    requires |b| == BLOCK
  {
    (Word(b[0], b[1], b[2], b[3]), Word(b[4], b[5], b[6], b[7]))
  }

  function BytesOf(w: (bv32, bv32)): (b: Bytes8)
    ensures |b| == BLOCK
  {
    [Byte0(w.0), Byte1(w.0), Byte2(w.0), Byte3(w.0),
     Byte0(w.1), Byte1(w.1), Byte2(w.1), Byte3(w.1)]
  }

  function EncryptBlock(c: Context, b: Bytes8): (e: Bytes8)
    requires c.Valid() && |b| == BLOCK
    ensures |e| == BLOCK
  {
    var (l, r) := WordsOf(b);
    BytesOf(Enciphered(c, l, r))
  }

  function DecryptBlock(c: Context, b: Bytes8): (e: Bytes8)
    requires c.Valid() && |b| == BLOCK
    ensures |e| == BLOCK
  {
    var (l, r) := WordsOf(b);
    BytesOf(Deciphered(c, l, r))
  }

  /** A block byte for byte: two words with the highest byte first, taken and given. */
  lemma BlockWritten(k: Context, a: bv8, b: bv8, c: bv8, d: bv8, e: bv8, f: bv8, g: bv8, h: bv8)
    requires k.Valid()
    ensures var (x, y) := Enciphered(k, Word(a, b, c, d), Word(e, f, g, h));
            EncryptBlock(k, [a, b, c, d, e, f, g, h]) ==
            [Byte0(x), Byte1(x), Byte2(x), Byte3(x), Byte0(y), Byte1(y), Byte2(y), Byte3(y)]
  {
    hide Enciphered, Word, Byte0, Byte1, Byte2, Byte3;
  }

  lemma BlockReadBack(c: Context, b: Bytes8)
    requires c.Valid() && |b| == BLOCK
    ensures DecryptBlock(c, EncryptBlock(c, b)) == b
  {
    hide Enciphered, Deciphered, Word, Byte0, Byte1, Byte2, Byte3;
    var (l, r) := WordsOf(b);
    var (x, y) := Enciphered(c, l, r);
    WordReadBack(x);
    WordReadBack(y);
    DecipherUndoesEncipher(c, l, r);
    BytesReadBack(b[0], b[1], b[2], b[3]);
    BytesReadBack(b[4], b[5], b[6], b[7]);
  }

  // ----- chaining, for any cipher on blocks -----

  type Block = b: Bytes8 | |b| == BLOCK witness [0, 0, 0, 0, 0, 0, 0, 0]

  function XorBlock(s: Block, t: Block): Block {
    seq(BLOCK, i requires 0 <= i < BLOCK => XorByte(s[i], t[i]))
  }

  lemma XorBlockTwice(s: Block, t: Block)
    ensures XorBlock(XorBlock(s, t), t) == s
  {
  }

  /** Whole blocks chained; what is left over stays as it is. */
  function Chained(enc: Block -> Block, iv: Block, m: Bytes8): (e: Bytes8)
    ensures |e| == |m|
    decreases |m|
  {
    if |m| < BLOCK then m
    else
      var e := enc(XorBlock(m[..BLOCK], iv));
      e + Chained(enc, e, m[BLOCK..])
  }

  function Unchained(dec: Block -> Block, iv: Block, e: Bytes8): (m: Bytes8)
    ensures |m| == |e|
    decreases |e|
  {
    if |e| < BLOCK then e
    else XorBlock(dec(e[..BLOCK]), iv) + Unchained(dec, e[..BLOCK], e[BLOCK..])
  }

  lemma {:induction false} UnchainUndoesChain(enc: Block -> Block, dec: Block -> Block, iv: Block, m: Bytes8)
    requires forall b: Block :: dec(enc(b)) == b
    ensures Unchained(dec, iv, Chained(enc, iv, m)) == m
    decreases |m|
  {
    hide XorBlock;
    if |m| >= BLOCK {
      var x := XorBlock(m[..BLOCK], iv);
      var e: Block := enc(x);
      var rest := Chained(enc, e, m[BLOCK..]);
      assert (e + rest)[..BLOCK] == e && (e + rest)[BLOCK..] == rest;
      XorBlockTwice(m[..BLOCK], iv);
      UnchainUndoesChain(enc, dec, e, m[BLOCK..]);
      assert m == m[..BLOCK] + m[BLOCK..];
    }
  }

  /** Chaining two blocks: the first goes in with the vector, the second with the first one's result. */
  lemma TwoBlocksChained(enc: Block -> Block, iv: Block, a: Block, b: Block)
    ensures var e := enc(seq(8, i requires 0 <= i < 8 => a[i] ^ iv[i]));
            Chained(enc, iv, a + b) == e + enc(seq(8, i requires 0 <= i < 8 => b[i] ^ e[i]))
  {
    var x: Block := seq(8, i requires 0 <= i < 8 => a[i] ^ iv[i]);
    var e := enc(x);
    var y: Block := seq(8, i requires 0 <= i < 8 => b[i] ^ e[i]);
    assert (a + b)[..8] == a && (a + b)[8..] == b && b[..8] == b && b[8..] == [];
    assert XorBlock(a, iv) == x && XorBlock(b, e) == y;
    assert Chained(enc, e, b) == enc(y) + [] == enc(y);
  }

  lemma ChainedStep(enc: Block -> Block, iv: Block, done: Bytes8, left: Bytes8)
    requires |left| >= BLOCK
    ensures var e := enc(XorBlock(left[..BLOCK], iv));
            done + Chained(enc, iv, left) == done + e + Chained(enc, e, left[BLOCK..])
  {
    hide XorBlock;
    var e := enc(XorBlock(left[..BLOCK], iv));
    Associate(done, e, Chained(enc, e, left[BLOCK..]));
  }

  lemma UnchainedStep(dec: Block -> Block, iv: Block, left: Bytes8)
    requires |left| >= BLOCK
    ensures Unchained(dec, iv, left) == XorBlock(dec(left[..BLOCK]), iv) + Unchained(dec, left[..BLOCK], left[BLOCK..])
  {
    hide XorBlock;
  }

  lemma NothingChained(f: Block -> Block, iv: Block)
    ensures Chained(f, iv, []) == [] && Unchained(f, iv, []) == []
  {
  }

  /** The cipher of a context, as functions on blocks. */
  function Encryptor(c: Context): Block -> Block
    requires c.Valid()
  {
    (b: Block) => EncryptBlock(c, b)
  }

  function Decryptor(c: Context): Block -> Block
    requires c.Valid()
  {
    (b: Block) => DecryptBlock(c, b)
  }

  lemma DecryptorUndoes(c: Context)
    requires c.Valid()
    ensures forall b: Block :: Decryptor(c)(Encryptor(c)(b)) == b
  {
    hide EncryptBlock, DecryptBlock;
    forall b: Block ensures Decryptor(c)(Encryptor(c)(b)) == b {
      BlockReadBack(c, b);
    }
  }

  // ----- the code -----

  method Overwrite(data: array<bv8>, i: nat, out: Block)
    requires i + BLOCK <= data.Length
    modifies data
    ensures data[i..i + BLOCK] == out && data[..i] == old(data[..i]) && data[i + BLOCK..] == old(data[i + BLOCK..])
  {
    forall k | 0 <= k < BLOCK { data[i + k] := out[k]; }
  }

  lemma SamePart(s: Bytes8, t: Bytes8, n: nat, from: nat, to: nat)
    requires n <= |s| && n <= |t| && s[..n] == t[..n] && from <= to <= n
    ensures s[from..to] == t[from..to]
  {
    assert forall k :: 0 <= k < n ==> s[k] == s[..n][k] == t[..n][k] == t[k];
  }

  /** The words of the block at `i`. */
  method LoadBlock(data: array<bv8>, i: nat) returns (d: array<bv32>)
    requires i + BLOCK <= data.Length
    ensures fresh(d) && d.Length == 2 && (d[0], d[1]) == WordsOf(data[i..i + BLOCK])
  {
    hide Word;
    d := new bv32[2];
    d[0] := Word(data[i], data[i + 1], data[i + 2], data[i + 3]);
    d[1] := Word(data[i + 4], data[i + 5], data[i + 6], data[i + 7]);
  }

  method EncryptAt(c: Context, data: array<bv8>, i: nat)
    requires c.Valid() && i + BLOCK <= data.Length
    modifies data
    ensures data[i..i + BLOCK] == Encryptor(c)(old(data[i..i + BLOCK]))
    ensures data[..i] == old(data[..i]) && data[i + BLOCK..] == old(data[i + BLOCK..])
  {
    hide Enciphered, WordsOf, BytesOf;
    var d := LoadBlock(data, i);
    Encipher(c, d);
    Overwrite(data, i, BytesOf((d[0], d[1])));
  }

  method DecryptAt(c: Context, data: array<bv8>, i: nat)
    requires c.Valid() && i + BLOCK <= data.Length
    modifies data
    ensures data[i..i + BLOCK] == Decryptor(c)(old(data[i..i + BLOCK]))
    ensures data[..i] == old(data[..i]) && data[i + BLOCK..] == old(data[i + BLOCK..])
  {
    hide Deciphered, WordsOf, BytesOf;
    var d := LoadBlock(data, i);
    Decipher(c, d);
    Overwrite(data, i, BytesOf((d[0], d[1])));
  }

  method XorInto(data: array<bv8>, i: nat, iv: Block)
    requires i + BLOCK <= data.Length
    modifies data
    ensures data[i..i + BLOCK] == XorBlock(old(data[i..i + BLOCK]), iv)
    ensures data[..i] == old(data[..i]) && data[i + BLOCK..] == old(data[i + BLOCK..])
  {
    hide XorByte;
    ghost var before: Block := data[i..i + BLOCK];
    for j := 0 to BLOCK
      invariant forall k :: 0 <= k < BLOCK ==> data[i + k] == if k < j then XorByte(before[k], iv[k]) else before[k]
      invariant forall k :: 0 <= k < data.Length && !(i <= k < i + BLOCK) ==> data[k] == old(data[k])
    {
      data[i + j] := XorByte(data[i + j], iv[j]);
    }
    assert forall k :: 0 <= k < BLOCK ==> data[i..i + BLOCK][k] == data[i + k] == XorBlock(before, iv)[k];
    assert data[i..i + BLOCK] == XorBlock(before, iv);
  }

  /** Encrypts in place, from the first block to the last. */
  method CbcEncrypt(c: Context, iv: Block, data: array<bv8>)
    requires c.Valid() && data.Length % BLOCK == 0
    modifies data
    ensures data[..] == Chained(Encryptor(c), iv, old(data[..]))
  {
    hide Chained, Encryptor, XorBlock;
    ghost var m, enc := data[..], Encryptor(c);
    var prev: Block, i: nat := iv, 0;
    assert m[0..] == m && data[..0] + Chained(enc, iv, m) == Chained(enc, iv, m);
    while i < data.Length
      invariant i <= data.Length && i % BLOCK == 0
      invariant data[i..] == m[i..] && data[..i] + Chained(enc, prev, m[i..]) == Chained(enc, iv, m)
    {
      ghost var left, done := m[i..], data[..i];
      assert data[i..i + BLOCK] == left[..BLOCK] && left[BLOCK..] == m[i + BLOCK..];
      ChainedStep(enc, prev, done, left);
      XorInto(data, i, prev);
      EncryptAt(c, data, i);
      prev := data[i..i + BLOCK];
      assert data[..i + BLOCK] == done + prev;
      i := i + BLOCK;
    }
    NothingChained(enc, prev);
    assert data[..i] + [] == data[..];
  }

  /** Decrypts the block at `i` in place, when those after it are done. */
  method UnchainAt(c: Context, iv: Block, data: array<bv8>, i: nat, ghost e: Bytes8, ghost dec: Block -> Block)
    requires c.Valid() && dec == Decryptor(c) && |e| == data.Length && |e| % BLOCK == 0 && i % BLOCK == 0 && i + BLOCK <= |e|
    requires data[..i + BLOCK] == e[..i + BLOCK]
    requires data[i + BLOCK..] == Unchained(dec, e[i..i + BLOCK], e[i + BLOCK..])
    modifies data
    ensures data[..i] == e[..i] && data[i..] == Unchained(dec, iv, e[i..])
  {
    hide Unchained, Decryptor, XorBlock;
    assert data[..][..i + BLOCK] == data[..i + BLOCK];
    SamePart(data[..], e, i + BLOCK, i, i + BLOCK);
    SamePart(data[..], e, i + BLOCK, 0, i);
    assert data[..i] == data[0..i] && e[..i] == e[0..i];
    assert e[i..][..BLOCK] == e[i..i + BLOCK] && e[i..][BLOCK..] == e[i + BLOCK..];
    UnchainedStep(dec, iv, e[i..]);
    DecryptAt(c, data, i);
    XorInto(data, i, iv);
    assert data[i..] == data[i..i + BLOCK] + data[i + BLOCK..];
  }

  /** Decrypts in place, from the last block to the first, so that each still finds the ciphertext before it. */
  method CbcDecrypt(c: Context, iv: Block, data: array<bv8>)
    requires c.Valid() && data.Length % BLOCK == 0 && data.Length > 0
    modifies data
    ensures data[..] == Unchained(Decryptor(c), iv, old(data[..]))
  {
    hide Unchained, Decryptor;
    ghost var e, dec := data[..], Decryptor(c);
    var i := data.Length - BLOCK;
    assert data[..i + BLOCK] == e && data[i + BLOCK..] == [] && e[i + BLOCK..] == [];
    NothingChained(dec, e[i..i + BLOCK]);
    while i >= BLOCK
      invariant 0 <= i && i % BLOCK == 0 && i + BLOCK <= data.Length
      invariant data[..i + BLOCK] == e[..i + BLOCK]
      invariant data[i + BLOCK..] == Unchained(dec, e[i..i + BLOCK], e[i + BLOCK..])
    {
      var before := data[i - BLOCK..i];
      assert data[..][..i + BLOCK] == data[..i + BLOCK];
      SamePart(data[..], e, i + BLOCK, i - BLOCK, i);
      UnchainAt(c, before, data, i, e, dec);
      i := i - BLOCK;
    }
    UnchainAt(c, iv, data, 0, e, dec);
    assert data[0..] == data[..] && e[0..] == e;
  }

  /** Decryption undoes encryption, both in place, for every key schedule, vector and message of whole blocks. */
  method EncryptDecrypt(c: Context, iv: Block, data: array<bv8>)
    requires |c.s| == 1024 && |c.p| == 18 && data.Length % 8 == 0 && data.Length > 0
    modifies data
    ensures data[..] == old(data[..])
  {
    hide Chained, Unchained, Encryptor, Decryptor;
    DecryptorUndoes(c);
    UnchainUndoesChain(Encryptor(c), Decryptor(c), iv, data[..]);
    CbcEncrypt(c, iv, data);
    CbcDecrypt(c, iv, data);
  }
}
