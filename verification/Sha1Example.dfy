/**
 * The definition of SHA-1 that the code is proved against meets the first example of RFC 3174, section 7.3: the digest
 * of "abc". The rounds are computed four at a time, with the sixteen words of the schedule that are needed next.
 */
module Sha1Example {
  import opened MachineWords
  import opened Sha1

  /** The next sixteen words of the schedule; a word is of any type where only its place matters. */
  datatype Window<T> = Window(w0: T, w1: T, w2: T, w3: T, w4: T, w5: T, w6: T, w7: T,
                              w8: T, w9: T, w10: T, w11: T, w12: T, w13: T, w14: T, w15: T)

  /** The state after some rounds, and the words to come. */
  datatype Stage = Stage(s: Words, w: Window<bv32>)

  function Slide<T>(w: Window<T>, next: T): Window<T> {
    Window(w.w1, w.w2, w.w3, w.w4, w.w5, w.w6, w.w7, w.w8, w.w9, w.w10, w.w11, w.w12, w.w13, w.w14, w.w15, next)
  }

  /** The word after those of a window. */
  function Next(w: Window<bv32>): bv32 {
    Scheduled(w.w13, w.w8, w.w2, w.w0)
  }

  function Scheduled(a: bv32, b: bv32, c: bv32, d: bv32): bv32 {
    Rotl(a ^ b ^ c ^ d, 1)
  }

  function Roll(n: nat, t: nat, p: Stage): Stage {
    if n == 0 then p else Roll(n - 1, t + 1, Stage(Round(p.s, t, p.w.w0), Slide(p.w, Next(p.w))))
  }

  /** The words of a window, one by one. */
  function WordIn<T>(w: Window<T>, i: nat): T
    requires i < 16
  {
    match i
    case 0 => w.w0 case 1 => w.w1 case 2 => w.w2 case 3 => w.w3
    case 4 => w.w4 case 5 => w.w5 case 6 => w.w6 case 7 => w.w7
    case 8 => w.w8 case 9 => w.w9 case 10 => w.w10 case 11 => w.w11
    case 12 => w.w12 case 13 => w.w13 case 14 => w.w14 case 15 => w.w15
  }

  /** The stage of a block after `t` rounds. */
  ghost predicate Reached(block: Bytes8, t: nat, p: Stage) {
    && |block| == BLOCK && t <= 80 && p.s == Rounds(INITIAL, block, t)
    && forall i :: 0 <= i < 16 && t + i < 80 ==> WordIn(p.w, i) == W(block, t + i)
  }

  lemma Slides<T>(w: Window<T>, next: T, i: nat)
    requires i < 16
    ensures WordIn(Slide(w, next), i) == if i < 15 then WordIn(w, i + 1) else next
  {
  }

  lemma NextIs(w: Window<bv32>)
    ensures Next(w) == Scheduled(WordIn(w, 13), WordIn(w, 8), WordIn(w, 2), WordIn(w, 0)) && WordIn(w, 0) == w.w0
  {
    hide Scheduled;
  }

  lemma WordScheduled(block: Bytes8, t: nat)
    requires |block| == BLOCK && t + 16 < 80
    ensures W(block, t + 16) == Scheduled(W(block, t + 13), W(block, t + 8), W(block, t + 2), W(block, t))
  {
    hide W, Rotl;
    WStep(block, t + 16);
  }

  lemma ReachedNext(block: Bytes8, t: nat, p: Stage)
    requires Reached(block, t, p) && t < 80
    ensures Reached(block, t + 1, Stage(Round(p.s, t, p.w.w0), Slide(p.w, Next(p.w))))
  {
    hide Round, Scheduled, W, WordIn, Slide, Rounds, Next;
    NextIs(p.w);
    RoundsMore(INITIAL, block, t);
    var q := Slide(p.w, Next(p.w));
    forall i | 0 <= i < 16 && t + 1 + i < 80 ensures WordIn(q, i) == W(block, t + 1 + i) {
      Slides(p.w, Next(p.w), i);
      if i == 15 {
        WordScheduled(block, t);
        assert WordIn(p.w, 13) == W(block, t + 13) && WordIn(p.w, 8) == W(block, t + 8) && WordIn(p.w, 2) == W(block, t + 2);
      }
    }
  }

  lemma {:induction false} ReachedOn(block: Bytes8, t: nat, p: Stage, n: nat)
    requires Reached(block, t, p) && t + n <= 80
    ensures Reached(block, t + n, Roll(n, t, p))
    decreases n
  {
    hide Reached, Round, Slide, Next;
    if n > 0 {
      ReachedNext(block, t, p);
      ReachedOn(block, t + 1, Stage(Round(p.s, t, p.w.w0), Slide(p.w, Next(p.w))), n - 1);
    }
  }

  /** "abc", padded. */
  const ABC: Bytes8 := [0x61, 0x62, 0x63]

  lemma AbcPadded()
    ensures Pad(ABC) == [0x61, 0x62, 0x63, 0x80] + seq(59, _ => 0) + [0x18]
  {
    hide BigEndian;
    assert Gap(4) == 52;
    SmallNumber(24, 7);
    assert seq(52, _ => 0 as bv8) + seq(7, _ => 0 as bv8) == seq(59, _ => 0 as bv8);
  }

  lemma {:induction false} SmallNumber(n: nat, k: nat)
    requires n < 256
    ensures BigEndian(n, k + 1) == seq(k, _ => 0) + [n as bv8]
  {
    if k > 0 {
      SmallNumber(0, k - 1);
      assert seq(k - 1, _ => 0 as bv8) + [0] == seq(k, _ => 0 as bv8);
    } else {
      assert BigEndian(n, 1) == BigEndian(n / 256, 0) + [n as bv8];
    }
  }

  // ----- the stages of the example -----

  const AFTER_0 := Stage(Words(0x67452301, 0xEFCDAB89, 0x98BADCFE, 0x10325476, 0xC3D2E1F0),
    Window(0x61626380, 0x00000000, 0x00000000, 0x00000000, 0x00000000, 0x00000000, 0x00000000, 0x00000000,
           0x00000000, 0x00000000, 0x00000000, 0x00000000, 0x00000000, 0x00000000, 0x00000000, 0x00000018))

  const AFTER_4 := Stage(Words(0xCDD8E11B, 0xA1390F08, 0x626414DB, 0xC045BF0C, 0x59D148C0),
    Window(0x00000000, 0x00000000, 0x00000000, 0x00000000, 0x00000000, 0x00000000, 0x00000000, 0x00000000,
           0x00000000, 0x00000000, 0x00000000, 0x00000018, 0xC2C4C700, 0x00000000, 0x00000030, 0x85898E01))

  const AFTER_6 := Stage(Words(0x3FC7CA40, 0xCFD499DE, 0xF3763846, 0x284E43C2, 0x626414DB),
    Window(0x00000000, 0x00000000, 0x00000000, 0x00000000, 0x00000000, 0x00000000, 0x00000000, 0x00000000,
           0x00000000, 0x00000018, 0xC2C4C700, 0x00000000, 0x00000030, 0x85898E01, 0x00000000, 0x00000060))

  const AFTER_8 := Stage(Words(0x9E8C07D4, 0x993E30C1, 0x0FF1F290, 0xB3F52677, 0xF3763846),
    Window(0x00000000, 0x00000000, 0x00000000, 0x00000000, 0x00000000, 0x00000000, 0x00000000, 0x00000018,
           0xC2C4C700, 0x00000000, 0x00000030, 0x85898E01, 0x00000000, 0x00000060, 0x0B131C03, 0x00000030))

  const AFTER_12 := Stage(Words(0x63188FE4, 0xFBDA9E89, 0x60D47E4A, 0x12DAB8CA, 0x27A301F5),
    Window(0x00000000, 0x00000000, 0x00000000, 0x00000018, 0xC2C4C700, 0x00000000, 0x00000030, 0x85898E01,
           0x00000000, 0x00000060, 0x0B131C03, 0x00000030, 0x85898EC1, 0x16263806, 0x00000000, 0x00000180))

  const AFTER_16 := Stage(Words(0x20BDD62F, 0x196BEE77, 0x644A3DA5, 0x1181ED99, 0x18C623F9),
    Window(0xC2C4C700, 0x00000000, 0x00000030, 0x85898E01, 0x00000000, 0x00000060, 0x0B131C03, 0x00000030,
           0x85898EC1, 0x16263806, 0x00000000, 0x00000180, 0x2C4C700C, 0x000000F0, 0x93AFB507, 0x5898E048))

  const AFTER_20 := Stage(Words(0xFD9E1D7D, 0xDC64901D, 0x20AA99CA, 0xD3A49608, 0xC82F758B),
    Window(0x00000000, 0x00000060, 0x0B131C03, 0x00000030, 0x85898EC1, 0x16263806, 0x00000000, 0x00000180,
           0x2C4C700C, 0x000000F0, 0x93AFB507, 0x5898E048, 0x8E9A9202, 0x00000600, 0xB131C0F0, 0x16263BC6))

  const AFTER_24 := Stage(Words(0xD541F12D, 0x21283486, 0x0CE88EFF, 0x868DEC32, 0x7F67875F),
    Window(0x85898EC1, 0x16263806, 0x00000000, 0x00000180, 0x2C4C700C, 0x000000F0, 0x93AFB507, 0x5898E048,
           0x8E9A9202, 0x00000600, 0xB131C0F0, 0x16263BC6, 0x4EBED41E, 0x626380A1, 0x16263806, 0x000018C0))

  const AFTER_28 := Stage(Words(0x4AA84D97, 0xBE35FBD5, 0x12104EE9, 0xB1D59F71, 0x75507C4B),
    Window(0x2C4C700C, 0x000000F0, 0x93AFB507, 0x5898E048, 0x8E9A9202, 0x00000600, 0xB131C0F0, 0x16263BC6,
           0x4EBED41E, 0x626380A1, 0x16263806, 0x000018C0, 0xD2E138C4, 0x00000F00, 0x3AFB5079, 0x898E04E5))

  const AFTER_32 := Stage(Words(0x3B845D33, 0x1267B407, 0x717EEBD7, 0xA0DC2D4B, 0xD2AA1365),
    Window(0x8E9A9202, 0x00000600, 0xB131C0F0, 0x16263BC6, 0x4EBED41E, 0x626380A1, 0x16263806, 0x000018C0,
           0xD2E138C4, 0x00000F00, 0x3AFB5079, 0x898E04E5, 0xE2BA3C2B, 0x000060C0, 0x053A37CD, 0x74458547))

  const AFTER_36 := Stage(Words(0xDCBBB0CB, 0x21796AD4, 0x4B03AF04, 0x811BEA82, 0xCEE1174C),
    Window(0x4EBED41E, 0x626380A1, 0x16263806, 0x000018C0, 0xD2E138C4, 0x00000F00, 0x3AFB5079, 0x898E04E5,
           0xE2BA3C2B, 0x000060C0, 0x053A37CD, 0x74458547, 0xDA9415ED, 0x26380A16, 0x626383A1, 0x4EBF54DE))

  const AFTER_40 := Stage(Words(0x32DE1CBA, 0x4C986405, 0xF718E5CF, 0x03D447F6, 0xF72EEC32),
    Window(0xD2E138C4, 0x00000F00, 0x3AFB5079, 0x898E04E5, 0xE2BA3C2B, 0x000060C0, 0x053A37CD, 0x74458547,
           0xDA9415ED, 0x26380A16, 0x626383A1, 0x4EBF54DE, 0x3835B44B, 0x0000F600, 0x1E84C7A3, 0x98E04D98))

  const AFTER_44 := Stage(Words(0xEE1B1AAF, 0x7F193DC5, 0x25C28357, 0xFF21F7B7, 0x8CB7872E),
    Window(0xE2BA3C2B, 0x000060C0, 0x053A37CD, 0x74458547, 0xDA9415ED, 0x26380A16, 0x626383A1, 0x4EBF54DE,
           0x3835B44B, 0x0000F600, 0x1E84C7A3, 0x98E04D98, 0x651D16A0, 0x62658CA1, 0x458544D6, 0x44584CB7))

  const AFTER_48 := Stage(Words(0xBEAD02CA, 0xA01B846C, 0x8714787C, 0x503CA382, 0xFB86C6AB),
    Window(0xDA9415ED, 0x26380A16, 0x626383A1, 0x4EBF54DE, 0x3835B44B, 0x0000F600, 0x1E84C7A3, 0x98E04D98,
           0x651D16A0, 0x62658CA1, 0x458544D6, 0x44584CB7, 0x7BA06619, 0x6380AEA2, 0x0AE55269, 0x627B49A1))

  const AFTER_52 := Stage(Words(0x3847AD66, 0x641DB2CE, 0x4481CC71, 0xEEBCE4CD, 0xAFAB40B2),
    Window(0x3835B44B, 0x0000F600, 0x1E84C7A3, 0x98E04D98, 0x651D16A0, 0x62658CA1, 0x458544D6, 0x44584CB7,
           0x7BA06619, 0x6380AEA2, 0x0AE55269, 0x627B49A1, 0x7CD45C9D, 0x000F0000, 0xFB50753A, 0xEC6765E8))

  const AFTER_56 := Stage(Words(0x5E6456AF, 0x7B71F76D, 0x09FA7C76, 0x792410DB, 0x8E11EB59),
    Window(0x651D16A0, 0x62658CA1, 0x458544D6, 0x44584CB7, 0x7BA06619, 0x6380AEA2, 0x0AE55269, 0x627B49A1,
           0x7CD45C9D, 0x000F0000, 0xFB50753A, 0xEC6765E8, 0xBA3C2BE2, 0x0060C000, 0x3A37CD05, 0x458546F4))

  const AFTER_60 := Stage(Words(0x3F52DE5A, 0x09D785FD, 0x3498BFD4, 0xF211824F, 0xD79915AB),
    Window(0x7BA06619, 0x6380AEA2, 0x0AE55269, 0x627B49A1, 0x7CD45C9D, 0x000F0000, 0xFB50753A, 0xEC6765E8,
           0xBA3C2BE2, 0x0060C000, 0x3A37CD05, 0x458546F4, 0xB8599DD6, 0x380A1A26, 0x01E02203, 0xE7CC3456))

  const AFTER_64 := Stage(Words(0x6B61C9E1, 0xB66C020B, 0x9523272C, 0xF5D5B051, 0x8FD4B796),
    Window(0x7CD45C9D, 0x000F0000, 0xFB50753A, 0xEC6765E8, 0xBA3C2BE2, 0x0060C000, 0x3A37CD05, 0x458546F4,
           0xB8599DD6, 0x380A1A26, 0x01E02203, 0xE7CC3456, 0xE6E60B69, 0x00F60A00, 0x5795EF4F, 0x822E0879))

  const AFTER_68 := Stage(Words(0x78DD4D2B, 0x0C3DF2B4, 0x4405957E, 0x0677E9EB, 0x5AD87278),
    Window(0xBA3C2BE2, 0x0060C000, 0x3A37CD05, 0x458546F4, 0xB8599DD6, 0x380A1A26, 0x01E02203, 0xE7CC3456,
           0xE6E60B69, 0x00F60A00, 0x5795EF4F, 0x822E0879, 0x7E577CE2, 0x07EF2103, 0x8544E945, 0xEB39DAB8))

  const AFTER_72 := Stage(Words(0x39859DE7, 0xC199F8C7, 0x8FC96230, 0x125C24F0, 0xDE37534A),
    Window(0xB8599DD6, 0x380A1A26, 0x01E02203, 0xE7CC3456, 0xE6E60B69, 0x00F60A00, 0x5795EF4F, 0x822E0879,
           0x7E577CE2, 0x07EF2103, 0x8544E945, 0xEB39DAB8, 0xC205991A, 0x80AECB63, 0x7D84CA48, 0x7B499B62))

  const AFTER_76 := Stage(Words(0x63F7DAB7, 0x5EE76897, 0xC45E4FDB, 0x3B6D0B79, 0xCE616779),
    Window(0xE6E60B69, 0x00F60A00, 0x5795EF4F, 0x822E0879, 0x7E577CE2, 0x07EF2103, 0x8544E945, 0xEB39DAB8,
           0xC205991A, 0x80AECB63, 0x7D84CA48, 0x7B499B62, 0x8E8010A8, 0x4B5B8A77, 0x3216B69A, 0x0507E88D))

  const AFTER_80 := Stage(Words(0x42541B35, 0x5738D5E1, 0x21834873, 0x681E6DF6, 0xD8FDF6AD),
    Window(0x7E577CE2, 0x07EF2103, 0x8544E945, 0xEB39DAB8, 0xC205991A, 0x80AECB63, 0x7D84CA48, 0x7B499B62,
           0x8E8010A8, 0x4B5B8A77, 0x3216B69A, 0x0507E88D, 0x705BEE96, 0x60C0FF00, 0xA28362D0, 0x1DA6B91D))

  lemma Rounds0()
    ensures Roll(4, 0, AFTER_0) == AFTER_4
  {
  }

  lemma Rounds4()
    ensures Roll(2, 4, AFTER_4) == AFTER_6
  {
  }

  lemma Rounds6()
    ensures Roll(2, 6, AFTER_6) == AFTER_8
  {
  }

  lemma Rounds8()
    ensures Roll(4, 8, AFTER_8) == AFTER_12
  {
  }

  lemma Rounds12()
    ensures Roll(4, 12, AFTER_12) == AFTER_16
  {
  }

  lemma Rounds16()
    ensures Roll(4, 16, AFTER_16) == AFTER_20
  {
  }

  lemma Rounds20()
    ensures Roll(4, 20, AFTER_20) == AFTER_24
  {
  }

  lemma Rounds24()
    ensures Roll(4, 24, AFTER_24) == AFTER_28
  {
  }

  lemma Rounds28()
    ensures Roll(4, 28, AFTER_28) == AFTER_32
  {
  }

  lemma Rounds32()
    ensures Roll(4, 32, AFTER_32) == AFTER_36
  {
  }

  lemma Rounds36()
    ensures Roll(4, 36, AFTER_36) == AFTER_40
  {
  }

  lemma Rounds40()
    ensures Roll(4, 40, AFTER_40) == AFTER_44
  {
  }

  lemma Rounds44()
    ensures Roll(4, 44, AFTER_44) == AFTER_48
  {
  }

  lemma Rounds48()
    ensures Roll(4, 48, AFTER_48) == AFTER_52
  {
  }

  lemma Rounds52()
    ensures Roll(4, 52, AFTER_52) == AFTER_56
  {
  }

  lemma Rounds56()
    ensures Roll(4, 56, AFTER_56) == AFTER_60
  {
  }

  lemma Rounds60()
    ensures Roll(4, 60, AFTER_60) == AFTER_64
  {
  }

  lemma Rounds64()
    ensures Roll(4, 64, AFTER_64) == AFTER_68
  {
  }

  lemma Rounds68()
    ensures Roll(4, 68, AFTER_68) == AFTER_72
  {
  }

  lemma Rounds72()
    ensures Roll(4, 72, AFTER_72) == AFTER_76
  {
  }

  lemma Rounds76()
    ensures Roll(4, 76, AFTER_76) == AFTER_80
  {
  }

  lemma AbcWords(block: Bytes8)
    requires block == [0x61, 0x62, 0x63, 0x80] + seq(59, _ => 0) + [0x18]
    ensures Reached(block, 0, AFTER_0)
  {
    forall i | 0 <= i < 16 ensures WordIn(AFTER_0.w, i) == W(block, i) {
      assert W(block, i) == Word(block[4 * i], block[4 * i + 1], block[4 * i + 2], block[4 * i + 3]);
    }
  }

  lemma AbcRounds(block: Bytes8)
    requires block == [0x61, 0x62, 0x63, 0x80] + seq(59, _ => 0) + [0x18]
    ensures Rounds(INITIAL, block, 80) == AFTER_80.s
  {
    hide Roll, Rounds, W, WordIn;
    AbcWords(block);
    Rounds0();
    ReachedOn(block, 0, AFTER_0, 4);
    Rounds4();
    ReachedOn(block, 4, AFTER_4, 2);
    Rounds6();
    ReachedOn(block, 6, AFTER_6, 2);
    Rounds8();
    ReachedOn(block, 8, AFTER_8, 4);
    Rounds12();
    ReachedOn(block, 12, AFTER_12, 4);
    Rounds16();
    ReachedOn(block, 16, AFTER_16, 4);
    Rounds20();
    ReachedOn(block, 20, AFTER_20, 4);
    Rounds24();
    ReachedOn(block, 24, AFTER_24, 4);
    Rounds28();
    ReachedOn(block, 28, AFTER_28, 4);
    Rounds32();
    ReachedOn(block, 32, AFTER_32, 4);
    Rounds36();
    ReachedOn(block, 36, AFTER_36, 4);
    Rounds40();
    ReachedOn(block, 40, AFTER_40, 4);
    Rounds44();
    ReachedOn(block, 44, AFTER_44, 4);
    Rounds48();
    ReachedOn(block, 48, AFTER_48, 4);
    Rounds52();
    ReachedOn(block, 52, AFTER_52, 4);
    Rounds56();
    ReachedOn(block, 56, AFTER_56, 4);
    Rounds60();
    ReachedOn(block, 60, AFTER_60, 4);
    Rounds64();
    ReachedOn(block, 64, AFTER_64, 4);
    Rounds68();
    ReachedOn(block, 68, AFTER_68, 4);
    Rounds72();
    ReachedOn(block, 72, AFTER_72, 4);
    Rounds76();
    ReachedOn(block, 76, AFTER_76, 4);
  }

  /** RFC 3174, section 7.3, TEST1. */
  lemma AbcDigest()
    ensures Digest(ABC) == [0xA9, 0x99, 0x3E, 0x36, 0x47, 0x06, 0x81, 0x6A, 0xBA, 0x3E,
                            0x25, 0x71, 0x78, 0x50, 0xC2, 0x6C, 0x9C, 0xD0, 0xD8, 0x9D]
  {
    hide Rounds;
    AbcPadded();
    var block := Pad(ABC);
    AbcRounds(block);
    assert block[..0] == [] && block[0..] == block;
    assert HashBlocks(block) == Compress(INITIAL, block);
    assert Compress(INITIAL, block) == Words(0xA9993E36, 0x4706816A, 0xBA3E2571, 0x7850C26C, 0x9CD0D89D);
  }
}
