/**
 * Conversion between Big5 and UTF-8: the bounded converters of common/sys/utf8.c, and the streaming reader
 * of mbbsd/convert.c. Both tables are arbitrary.
 */
module Converters {
  import opened Bytes
  import opened Prelude
  import opened Utf8Spec
  import opened Utf8Decoder
  import opened VBufs

  type u16 = x: int | 0 <= x < 0x10000
  /** A table of 65536 entries. The board's own tables are the identity where there is no character. */
  type Table = u16 -> u16

  const QUESTION: byte := 0x3F

  // ----- Big5 to UTF-8 -----

  /** The encoding of a table entry; surrogates have none. */
  function EncodeEntry(u: u16): (s: seq<byte>)
    ensures WellFormed(s) && |s| <= 3
  {
    if 0xD800 <= u <= 0xDFFF then []
    else
      OneIsWellFormed(u);
      Encode(u)
  }

  /** The next character of Big5 text: its table entry and its length, or the end. */
  datatype Big5Char = End | Char(entry: u16, len: nat)

  /**
   * Text ends at a zero byte, and at a lead byte with none after it; a lead byte with no trail byte after it
   * is read as a question mark.
   */
  function NextBig5(b2u: Table, t: seq<byte>): (c: Big5Char)
    ensures c.Char? ==> 1 <= c.len <= 2 && c.len <= |t|
  {
    if t == [] || t[0] == 0 then End
    else if t[0] < 0x80 then Char(t[0], 1)
    else if |t| < 2 || t[1] == 0 then End
    else if t[1] < 0x40 then Char(QUESTION, 1)
    else Char(b2u(t[0] as int * 256 + t[1]), 2)
  }

  /** What Big5 text becomes, one piece a character. */
  function Utf8Units(b2u: Table, t: seq<byte>): (r: seq<seq<byte>>)
    ensures forall i :: 0 <= i < |r| ==> WellFormed(r[i])
  {
    match NextBig5(b2u, t)
    case End => []
    case Char(entry, len) => [EncodeEntry(entry)] + Utf8Units(b2u, t[len..])
  }

  /** Reads the character at `p`. */
  method ReadBig5(b2u: Table, big5: seq<byte>, p: nat) returns (c: Big5Char)
    requires p <= |big5|
    ensures c == NextBig5(b2u, big5[p..])
  {
    if p == |big5| || big5[p] == 0 {
      return End;
    }
    if big5[p] >= 0x80 {
      if p + 1 >= |big5| || big5[p + 1] == 0 {
        return End;
      }
      if big5[p + 1] >= 0x40 {
        return Char(b2u(big5[p] as int * 256 + big5[p + 1]), 2);
      }
      return Char(QUESTION, 1);
    }
    return Char(big5[p], 1);
  }

  /** Writes the zero byte that ends a string. */
  method Terminate(out: array<byte>, n: nat, maxLen: nat)
    requires n < maxLen <= out.Length
    modifies out
    ensures out[n] == 0 && out[..n] == old(out[..n]) && out[maxLen..] == old(out[maxLen..])
  {
    out[n] := 0;
  }

  /** Appends bytes to the `n` in a buffer. */
  method Append(out: array<byte>, n: nat, data: seq<byte>, maxLen: nat) returns (m: nat)
    requires n + |data| <= maxLen <= out.Length
    modifies out
    ensures m == n + |data| && out[..m] == old(out[..n]) + data && out[maxLen..] == old(out[maxLen..])
  {
    forall i | 0 <= i < |data| { out[n + i] := data[i]; }
    m := n + |data|;
  }

  /**
   * The bounded converter: it writes the characters that fit below the capacity, whole, and a zero byte, and
   * stops at the first that does not fit.
   */
  method Big5ToUtf8(b2u: Table, big5: seq<byte>, utf8: array<byte>, maxLen: nat) returns (n: nat)
    requires maxLen <= utf8.Length
    modifies utf8
    ensures maxLen == 0 ==> utf8[..] == old(utf8[..]) && n == 0
    ensures maxLen > 0 ==> n < maxLen && utf8[..n] == Greedy(Utf8Units(b2u, big5), maxLen - 1) && utf8[n] == 0
    ensures utf8[maxLen..] == old(utf8[maxLen..])
  {
    hide EncodeEntry, NextBig5, Utf8Units, Greedy;
    n := 0;
    if maxLen == 0 {
      return;
    }
    var ctx := new Utf8Ctx();
    var p := 0;
    ghost var whole := Greedy(Utf8Units(b2u, big5), maxLen - 1);
    assert big5[0..] == big5 && utf8[..0] + whole == whole;
    while n < maxLen - 1
      invariant p <= |big5| && n <= maxLen - 1
      invariant ctx.buf.Length == 5 && fresh(ctx) && fresh(ctx.buf)
      invariant whole == utf8[..n] + Greedy(Utf8Units(b2u, big5[p..]), maxLen - 1 - n)
      invariant utf8[maxLen..] == old(utf8[maxLen..])
      decreases |big5| - p
    {
      var c := ReadBig5(b2u, big5, p);
      NextUnit(b2u, big5, p, maxLen - 1 - n);
      if c.End? {
        break;
      }
      p := p + c.len;
      var mb := EncodeInto(ctx, c.entry);
      if n + |mb| >= maxLen {
        break;
      }
      Associate(utf8[..n], mb, Greedy(Utf8Units(b2u, big5[p..]), maxLen - 1 - n - |mb|));
      n := Append(utf8, n, mb, maxLen);
    }
    assert whole == utf8[..n] + [] == utf8[..n];
    Terminate(utf8, n, maxLen);
  }

  /** Encodes a table entry through a context. */
  method EncodeInto(ctx: Utf8Ctx, entry: u16) returns (mb: seq<byte>)
    requires ctx.buf.Length == 5
    modifies ctx, ctx.buf
    ensures mb == EncodeEntry(entry) && ctx.Valid()
  {
    hide Encode;
    var len := ctx.FromUcs(entry);
    mb := ctx.ToMb();
  }

  lemma NextUnit(b2u: Table, big5: seq<byte>, p: nat, room: nat)
    requires p <= |big5|
    ensures var units := Greedy(Utf8Units(b2u, big5[p..]), room);
            match NextBig5(b2u, big5[p..])
            case End => units == []
            case Char(entry, len) =>
              var u := EncodeEntry(entry);
              units == if |u| > room then [] else u + Greedy(Utf8Units(b2u, big5[p + len..]), room - |u|)
  {
    hide NextBig5, EncodeEntry;
    var c := NextBig5(b2u, big5[p..]);
    if c.Char? {
      assert big5[p..][c.len..] == big5[p + c.len..];
      assert Utf8Units(b2u, big5[p..])[1..] == Utf8Units(b2u, big5[p + c.len..]);
    }
  }

  lemma GreedyCons(unit: seq<byte>, rest: seq<seq<byte>>, room: nat)
    ensures Greedy([unit] + rest, room) == if |unit| > room then [] else unit + Greedy(rest, room - |unit|)
  {
    assert ([unit] + rest)[1..] == rest;
  }

  lemma {:induction false} UnitsWellFormed(units: seq<seq<byte>>)
    requires forall i :: 0 <= i < |units| ==> WellFormed(units[i])
    ensures WellFormed(Flatten(units))
  {
    if units != [] {
      UnitsWellFormed(units[1..]);
      WellFormedConcat(units[0], Flatten(units[1..]));
    }
  }

  /**
   * What the bounded converter writes is well-formed UTF-8, for any table: the first characters of the result
   * without a bound, as many as fit, and all of them if they do.
   */
  lemma Big5ToUtf8WholeCharacters(b2u: Table, big5: seq<byte>, room: nat) returns (k: nat)
    ensures var units, kept := Utf8Units(b2u, big5), Greedy(Utf8Units(b2u, big5), room);
            && WellFormed(kept) && |kept| <= room
            && k <= |units| && kept == Flatten(units[..k])
            && (k < |units| ==> |Flatten(units[..k + 1])| > room)
            && (|Flatten(units)| <= room ==> kept == Flatten(units))
  {
    hide Utf8Units, WellFormed;
    var units := Utf8Units(b2u, big5);
    k := GreedyIsLongestPrefix(units, room);
    UnitsWellFormed(units[..k]);
    if |Flatten(units)| <= room { GreedyKeepsAll(units, room); }
  }

  /** What the converter reads when it writes over its own input: a copy, of fewer bytes than the capacity. */
  function Copied(t: seq<byte>, room: nat): seq<byte> {
    t[..Min(|t|, room)]
  }

  /**
   * The bounded converter on one buffer for both: it converts a copy, and leaves the buffer as it is when there is
   * no memory for one of 512 bytes or more.
   */
  method Big5ToUtf8Shared(b2u: Table, buf: array<byte>, srcLen: nat, maxLen: nat, noMemory: bool)
    returns (copied: bool, n: nat)
    requires srcLen <= buf.Length && maxLen <= buf.Length
    modifies buf
    ensures maxLen == 0 || !copied ==> buf[..] == old(buf[..]) && n == 0
    ensures maxLen > 0 ==> copied == !(noMemory && |Copied(old(buf[..srcLen]), maxLen - 1)| >= 512)
    ensures maxLen > 0 && copied ==>
              && n < maxLen && buf[n] == 0
              && buf[..n] == Greedy(Utf8Units(b2u, Copied(old(buf[..srcLen]), maxLen - 1)), maxLen - 1)
    ensures buf[maxLen..] == old(buf[maxLen..])
  {
    copied, n := false, 0;
    if maxLen == 0 {
      return;
    }
    var copyLen := Min(srcLen, maxLen - 1);
    if copyLen >= 512 {
      if noMemory { return; }
    }
    var tmp := buf[..copyLen];
    assert tmp == Copied(buf[..srcLen], maxLen - 1);
    copied := true;
    n := Big5ToUtf8(b2u, tmp, buf, maxLen);
  }

  lemma NextBig5Cut(b2u: Table, t: seq<byte>, m: nat)
    requires m <= |t|
    ensures var c := NextBig5(b2u, t[..m]);
            if c.Char? then c.len <= m && NextBig5(b2u, t) == c
            else m == 0 || (m == 1 && t[0] >= 0x80) || NextBig5(b2u, t) == End
  {
  }

  lemma UnitsOfChar(b2u: Table, t: seq<byte>, m: nat)
    requires m <= |t| && NextBig5(b2u, t[..m]).Char?
    ensures var c := NextBig5(b2u, t[..m]);
            && c.len <= m && NextBig5(b2u, t) == c
            && Utf8Units(b2u, t) == [EncodeEntry(c.entry)] + Utf8Units(b2u, t[c.len..])
            && Utf8Units(b2u, t[..m]) == [EncodeEntry(c.entry)] + Utf8Units(b2u, t[c.len..][..m - c.len])
  {
    hide NextBig5, EncodeEntry;
    NextBig5Cut(b2u, t, m);
    var len := NextBig5(b2u, t[..m]).len;
    assert t[..m][len..] == t[len..][..m - len];
  }

  /** What is kept of the characters `after` when those of `cut` are all kept. */
  function KeptAfter(cut: seq<seq<byte>>, after: seq<seq<byte>>, room: nat): seq<byte> {
    if |Flatten(cut)| <= room then Greedy(after, room - |Flatten(cut)|) else []
  }

  lemma KeptStep(u: seq<byte>, more: seq<seq<byte>>, cut: seq<seq<byte>>, after: seq<seq<byte>>, room: nat)
    requires |u| <= room ==> Greedy(more, room - |u|) == Greedy(cut, room - |u|) + KeptAfter(cut, after, room - |u|)
    ensures Greedy([u] + more, room) == Greedy([u] + cut, room) + KeptAfter([u] + cut, after, room)
  {
    hide Flatten, Greedy;
    GreedyCons(u, more, room);
    GreedyCons(u, cut, room);
    FlattenCons(u, cut);
    if |u| <= room {
      Associate(u, Greedy(cut, room - |u|), KeptAfter(cut, after, room - |u|));
    }
  }

  /**
   * What the copy leaves out: all characters but those of the copy, of which the first may begin at the copy's last
   * byte. The two results differ by what of these would still have fitted.
   */
  lemma {:induction false} SharedResultIs(b2u: Table, t: seq<byte>, m: nat, room: nat) returns (k: nat)
    requires m <= |t|
    ensures k <= m && (m <= k + 1 || NextBig5(b2u, t[k..]) == End)
    ensures var cut := Utf8Units(b2u, t[..m]);
            Greedy(Utf8Units(b2u, t), room) == Greedy(cut, room) + KeptAfter(cut, Utf8Units(b2u, t[k..]), room)
    decreases |t|
  {
    hide NextBig5, EncodeEntry, Greedy, Flatten, KeptAfter;
    var c := NextBig5(b2u, t[..m]);
    NextBig5Cut(b2u, t, m);
    if c.End? {
      k := 0;
      assert t[0..] == t;
      NothingFits(Utf8Units(b2u, t), room);
    } else {
      UnitsOfChar(b2u, t, m);
      var u := EncodeEntry(c.entry);
      var i := SharedResultIs(b2u, t[c.len..], m - c.len, if |u| <= room then room - |u| else 0);
      k := i + c.len;
      assert t[c.len..][i..] == t[k..];
      KeptStep(u, Utf8Units(b2u, t[c.len..]), Utf8Units(b2u, t[c.len..][..m - c.len]), Utf8Units(b2u, t[k..]), room);
    }
  }

  lemma NothingFits(units: seq<seq<byte>>, room: nat)
    ensures Greedy([], room) + KeptAfter([], units, room) == Greedy(units, room)
  {
  }

  /** Every character of two bytes that the text uses has an entry of at least two bytes. */
  predicate Wide(b2u: Table, t: seq<byte>)
    decreases |t|
  {
    match NextBig5(b2u, t)
    case End => true
    case Char(entry, len) => |EncodeEntry(entry)| >= len && Wide(b2u, t[len..])
  }

  /**
   * The copy of `m` bytes ends in a lead byte whose trail byte is too low for one, and the characters before it take
   * as many bytes in UTF-8 as in Big5.
   */
  predicate FaultAtCut(b2u: Table, t: seq<byte>, m: nat)
    decreases |t|
  {
    match NextBig5(b2u, t)
    case End => false
    case Char(entry, len) =>
      if m <= 1 then m == 1 && t[0] >= 0x80 && len == 1
      else len <= m && |EncodeEntry(entry)| == len && FaultAtCut(b2u, t[len..], m - len)
  }

  /**
   * When a shared buffer makes no difference: for text without gaps in the table, exactly when no broken character,
   * to be reported with a question mark, is cut apart by the end of the copy just where one byte is left for it.
   */
  lemma {:induction false} SharedAgreesIff(b2u: Table, t: seq<byte>, room: nat)
    requires Wide(b2u, t)
    ensures Greedy(Utf8Units(b2u, Copied(t, room)), room) == Greedy(Utf8Units(b2u, t), room)
            <==> !(room < |t| && FaultAtCut(b2u, t, room))
  {
    if room < |t| {
      CutAgreesIff(b2u, t, room, room);
    } else {
      assert t[..|t|] == t;
    }
  }

  lemma CutAtOnce(b2u: Table, t: seq<byte>, m: nat, room: nat)
    requires Wide(b2u, t) && room <= m <= |t| && NextBig5(b2u, t[..m]).End?
    ensures Greedy(Utf8Units(b2u, t[..m]), room) == Greedy(Utf8Units(b2u, t), room)
            <==> !(room == m && FaultAtCut(b2u, t, m))
  {
    hide EncodeEntry;
    NextBig5Cut(b2u, t, m);
    var c := NextBig5(b2u, t);
    if c.Char? {
      GreedyCons(EncodeEntry(c.entry), Utf8Units(b2u, t[c.len..]), room);
      QuestionIsOne();
    }
  }

  lemma Cancel(u: seq<byte>, x: seq<byte>, y: seq<byte>)
    ensures u + x == u + y <==> x == y
  {
    assert (u + x)[|u|..] == x && (u + y)[|u|..] == y;
  }

  lemma QuestionIsOne()
    ensures EncodeEntry(QUESTION) == [QUESTION]
  {
  }

  lemma WholeAtCut(b2u: Table, t: seq<byte>, m: nat)
    requires Wide(b2u, t) && m <= |t| && NextBig5(b2u, t[..m]).Char?
    ensures var c := NextBig5(b2u, t[..m]);
            && c.len <= m && |EncodeEntry(c.entry)| >= c.len && Wide(b2u, t[c.len..])
            && (FaultAtCut(b2u, t, m) <==> |EncodeEntry(c.entry)| == c.len && FaultAtCut(b2u, t[c.len..], m - c.len))
  {
    hide EncodeEntry;
    NextBig5Cut(b2u, t, m);
  }

  /** Such a text: with room for one byte the mark of a broken character is lost. */
  lemma SharedLosesMark(b2u: Table)
    ensures var t := [0x81, 0x20];
            && Wide(b2u, t) && FaultAtCut(b2u, t, 1)
            && Greedy(Utf8Units(b2u, Copied(t, 1)), 1) == [] && Greedy(Utf8Units(b2u, t), 1) == [QUESTION]
  {
    var t := [0x81, 0x20];
    QuestionIsOne();
    assert Copied(t, 1) == [0x81] && t[1..] == [0x20];
    assert NextBig5(b2u, t) == Char(QUESTION, 1) && NextBig5(b2u, [0x81]) == End;
    assert Wide(b2u, [0x20]);
  }

  lemma {:induction false} CutAgreesIff(b2u: Table, t: seq<byte>, m: nat, room: nat)
    requires Wide(b2u, t) && room <= m <= |t|
    ensures Greedy(Utf8Units(b2u, t[..m]), room) == Greedy(Utf8Units(b2u, t), room)
            <==> !(room == m && FaultAtCut(b2u, t, m))
    decreases |t|
  {
    hide NextBig5, EncodeEntry, Greedy;
    var c := NextBig5(b2u, t[..m]);
    if c.End? {
      CutAtOnce(b2u, t, m, room);
    } else {
      UnitsOfChar(b2u, t, m);
      var u := EncodeEntry(c.entry);
      GreedyCons(u, Utf8Units(b2u, t[c.len..]), room);
      GreedyCons(u, Utf8Units(b2u, t[c.len..][..m - c.len]), room);
      WholeAtCut(b2u, t, m);
      if |u| <= room {
        CutAgreesIff(b2u, t[c.len..], m - c.len, room - |u|);
        Cancel(u, Greedy(Utf8Units(b2u, t[c.len..][..m - c.len]), room - |u|), Greedy(Utf8Units(b2u, t[c.len..]), room - |u|));
      }
    }
  }

  /** The table entries a text uses. */
  function Entries(b2u: Table, t: seq<byte>): seq<u16> {
    match NextBig5(b2u, t)
    case End => []
    case Char(entry, len) => [entry] + Entries(b2u, t[len..])
  }

  lemma EntryHasZero(u: u16)
    ensures 0 in EncodeEntry(u) <==> u == 0
  {
  }

  /** For any table, the result has a zero byte exactly when the text uses an entry that is zero. */
  lemma {:induction false} ZeroInUtf8Iff(b2u: Table, t: seq<byte>)
    ensures 0 in Flatten(Utf8Units(b2u, t)) <==> 0 in Entries(b2u, t)
    decreases |t|
  {
    hide EncodeEntry, NextBig5;
    var c := NextBig5(b2u, t);
    if c.Char? {
      ZeroInUtf8Iff(b2u, t[c.len..]);
      EntryHasZero(c.entry);
      assert Utf8Units(b2u, t)[1..] == Utf8Units(b2u, t[c.len..]);
    }
  }

  predicate IsSurrogate(u: int) {
    0xD800 <= u <= 0xDFFF
  }

  function Surrogates(us: seq<u16>): nat {
    if us == [] then 0 else (if IsSurrogate(us[0]) then 1 else 0) + Surrogates(us[1..])
  }

  /** How many characters leave nothing. */
  function Vanished(units: seq<seq<byte>>): nat {
    if units == [] then 0 else (if units[0] == [] then 1 else 0) + Vanished(units[1..])
  }

  /** For any table, the characters that leave nothing are as many as the surrogates among the entries used. */
  lemma {:induction false} VanishedAreSurrogates(b2u: Table, t: seq<byte>)
    ensures var units, us := Utf8Units(b2u, t), Entries(b2u, t); |units| == |us| && Vanished(units) == Surrogates(us)
    decreases |t|
  {
    hide NextBig5;
    var c := NextBig5(b2u, t);
    if c.Char? {
      VanishedAreSurrogates(b2u, t[c.len..]);
      assert Utf8Units(b2u, t)[1..] == Utf8Units(b2u, t[c.len..]) && Entries(b2u, t)[1..] == Entries(b2u, t[c.len..]);
    }
  }

  /** The number that a pair's own two bytes make. */
  function OwnCode(hi: byte, lo: byte): u16 {
    hi as int * 256 + lo
  }

  /** A pair that the table does not have. */
  predicate Absent(b2u: Table, hi: byte, lo: byte) {
    b2u(OwnCode(hi, lo)) == OwnCode(hi, lo)
  }

  /** A pair without an entry becomes the code point of its own two bytes, and vanishes when that is a surrogate. */
  lemma AbsentPair(b2u: Table, t: seq<byte>)
    requires |t| >= 2 && t[0] >= 0x80 && t[1] >= 0x40 && Absent(b2u, t[0], t[1])
    ensures var own := OwnCode(t[0], t[1]);
            && Utf8Units(b2u, t) == [EncodeEntry(own)] + Utf8Units(b2u, t[2..])
            && (EncodeEntry(own) == [] <==> 0xD8 <= t[0] <= 0xDF)
            && (IsSurrogate(own) || EncodeEntry(own) == Encode(own))
  {
    hide Encode, IsSurrogate;
    SurrogateLeads(t[0], t[1]);
    EntryVanishes(OwnCode(t[0], t[1]));
    assert NextBig5(b2u, t) == Char(OwnCode(t[0], t[1]), 2);
  }

  lemma SurrogateLeads(hi: byte, lo: byte)
    ensures IsSurrogate(OwnCode(hi, lo)) <==> 0xD8 <= hi <= 0xDF
  {
  }

  lemma EntryVanishes(u: u16)
    ensures if IsSurrogate(u) then EncodeEntry(u) == [] else EncodeEntry(u) == Encode(u) != []
  {
  }

  /** Such a pair: D8 7F is no character, and nothing is left of it. */
  lemma AbsentVanishes(b2u: Table)
    requires Absent(b2u, 0xD8, 0x7F)
    ensures Flatten(Utf8Units(b2u, [0xD8, 0x7F])) == []
  {
    AbsentPair(b2u, [0xD8, 0x7F]);
    assert [0xD8, 0x7F][2..] == [];
  }

  // ----- UTF-8 to Big5 -----

  /** The Big5 bytes of a code point; a question mark for one past the end of the table, or with a zero entry. */
  function Big5Bytes(u2b: Table, ucs: int): (r: seq<byte>)
    ensures 1 <= |r| <= 2
  {
    var b5 := if 0 <= ucs < 0x10000 && u2b(ucs) != 0 then u2b(ucs) else QUESTION as int;
    if b5 > 0xFF then [b5 / 256, b5 % 256] else [b5]
  }

  /**
   * What UTF-8 text becomes when `p` has been read of a character: a piece for each character, a question mark for
   * each error, and one for a character cut off by the end. A byte that breaks a character is looked at again.
   */
  function Big5Units(u2b: Table, p: seq<byte>, t: seq<byte>): seq<seq<byte>>
    decreases 2 * |t| + (if p != [] then 1 else 0)
  {
    if t == [] || t[0] == 0 then (if p != [] then [[QUESTION]] else [])
    else
      match Feed(p, t[0])
      case Ready(c) => [Big5Bytes(u2b, CodePoint(c))] + Big5Units(u2b, [], t[1..])
      case Partial(q) => Big5Units(u2b, q, t[1..])
      case Failed => [[QUESTION]] + Big5Units(u2b, [], if p != [] then t else t[1..])
  }

  /** The bounded converter; it terminates although an error in a character makes it step back. */
  method Utf8ToBig5(u2b: Table, utf8: seq<byte>, big5: array<byte>, maxLen: nat) returns (n: nat)
    requires maxLen <= big5.Length
    modifies big5
    ensures maxLen == 0 ==> big5[..] == old(big5[..]) && n == 0
    ensures maxLen > 0 ==> n < maxLen && big5[..n] == Greedy(Big5Units(u2b, [], utf8), maxLen - 1) && big5[n] == 0
    ensures big5[maxLen..] == old(big5[maxLen..])
  {
    hide Feed, Big5Bytes, Big5Units, Greedy, CodePoint, IsPartial, RfcChar, CharLen;
    hide Utf8Ctx.Valid, Utf8Ctx.Pending, Utf8Ctx.IsPending, Utf8Ctx.IsReady;
    n := 0;
    if maxLen == 0 {
      return;
    }
    var ctx := new Utf8Ctx();
    var p := 0;
    ghost var whole := Greedy(Big5Units(u2b, [], utf8), maxLen - 1);
    ghost var rest, stopped := whole, false;
    assert utf8[0..] == utf8 && big5[..0] + whole == whole;
    while p < |utf8| && utf8[p] != 0 && n < maxLen - 1
      invariant p <= |utf8| && n <= maxLen - 1
      invariant ctx.Valid() && fresh(ctx) && fresh(ctx.buf) && !ctx.IsReady() && !stopped
      invariant rest == Greedy(Big5Units(u2b, ctx.Pending(), utf8[p..]), maxLen - 1 - n)
      invariant whole == big5[..n] + rest && big5[maxLen..] == old(big5[maxLen..])
      decreases 2 * (|utf8| - p) + (if ctx.IsPending() then 1 else 0)
    {
      var wasPending := ctx.IsPending();
      NextBig5Unit(u2b, ctx.Pending(), utf8, p, maxLen - 1 - n);
      var piece, ready := AddByte(u2b, ctx, utf8[p]);
      p := p + 1;
      if !ready && piece != [] && wasPending {
        p := p - 1;
      }
      if |piece| == 2 && n + 2 >= maxLen {
        rest, stopped := [], true;
        break;
      }
      rest := Greedy(Big5Units(u2b, ctx.Pending(), utf8[p..]), maxLen - 1 - n - |piece|);
      Associate(big5[..n], piece, rest);
      n := Append(big5, n, piece, maxLen);
    }
    var cut := ctx.IsPending() && n < maxLen - 1;
    if !stopped {
      LastBig5Unit(u2b, ctx.Pending(), utf8, p, maxLen - 1 - n);
    }
    assert rest == if cut then [QUESTION] else [];
    assert big5[..n] + [] == big5[..n];
    if cut {
      n := Append(big5, n, [QUESTION], maxLen);
    }
    Terminate(big5, n, maxLen);
  }

  /** One byte into the decoder, and what it writes: a character's bytes when one is ready, a question mark on an error. */
  method AddByte(u2b: Table, ctx: Utf8Ctx, b: byte) returns (piece: seq<byte>, ready: bool)
    requires ctx.Valid()
    modifies ctx, ctx.buf
    ensures ctx.Valid() && !ctx.IsReady()
    ensures match Feed(old(ctx.Pending()), b)
            case Ready(c) => ready && piece == Big5Bytes(u2b, CodePoint(c)) && ctx.Pending() == []
            case Partial(q) => !ready && piece == [] && ctx.Pending() == q
            case Failed => !ready && piece == [QUESTION] && ctx.Pending() == []
  {
    hide Feed, Big5Bytes, CodePoint;
    ready := ctx.AddByte(b);
    if !ready {
      piece := if ctx.IsError() then [QUESTION] else [];
      return;
    }
    var ucs := ctx.GetUcs();
    piece := LookUp(u2b, ucs);
  }

  method LookUp(u2b: Table, ucs: int) returns (bytes: seq<byte>)
    ensures bytes == Big5Bytes(u2b, ucs)
  {
    var b5: u16 := if ucs >= 0 && ucs < 0x10000 then u2b(ucs) else 0;
    if b5 == 0 {
      b5 := QUESTION;
    }
    bytes := if b5 > 0xFF then [b5 / 256, b5 % 256] else [b5];
  }

  lemma NextBig5Unit(u2b: Table, p: seq<byte>, t: seq<byte>, i: nat, room: nat)
    requires i < |t| && t[i] != 0 && room > 0
    ensures var all := Greedy(Big5Units(u2b, p, t[i..]), room);
            match Feed(p, t[i])
            case Ready(c) =>
              var u := Big5Bytes(u2b, CodePoint(c));
              all == if |u| > room then [] else u + Greedy(Big5Units(u2b, [], t[i + 1..]), room - |u|)
            case Partial(q) => all == [] + Greedy(Big5Units(u2b, q, t[i + 1..]), room)
            case Failed =>
              var j := if p != [] then i else i + 1;
              all == [QUESTION] + Greedy(Big5Units(u2b, [], t[j..]), room - 1)
  {
    hide Feed, Big5Bytes, CodePoint, Greedy;
    assert t[i..][1..] == t[i + 1..] && t[i..][0] == t[i];
    match Feed(p, t[i])
    case Ready(c) => GreedyCons(Big5Bytes(u2b, CodePoint(c)), Big5Units(u2b, [], t[i + 1..]), room);
    case Partial(q) =>
      var rest := Greedy(Big5Units(u2b, q, t[i + 1..]), room);
      assert [] + rest == rest;
    case Failed =>
      var j := if p != [] then i else i + 1;
      GreedyCons([QUESTION], Big5Units(u2b, [], t[j..]), room);
  }

  /** Where the text ends, or there is no room, at most a question mark is still to come. */
  lemma LastBig5Unit(u2b: Table, p: seq<byte>, t: seq<byte>, i: nat, room: nat)
    requires i <= |t| && (i == |t| || t[i] == 0 || room == 0)
    ensures Greedy(Big5Units(u2b, p, t[i..]), room) == if p != [] && room > 0 then [QUESTION] else []
  {
    hide Feed, Big5Bytes, CodePoint;
    if room > 0 {
      GreedyCons([QUESTION], [], room);
      assert [[QUESTION]] + [] == [[QUESTION]] && [QUESTION] + [] == [QUESTION];
    }
  }

  // ----- the streaming reader -----

  /** What is pending after some input, and what has been written for it. */
  datatype Reading = Reading(pending: seq<byte>, out: seq<byte>)

  /** A byte that breaks a character is tried as the start of the next, but reported only once. */
  function ReadStep(u2b: Table, p: seq<byte>, c: byte): Reading {
    if c < 0x80 then Reading([], (if p != [] then [QUESTION] else []) + [c])
    else
      match Feed(p, c)
      case Ready(ch) => Reading([], Big5Bytes(u2b, CodePoint(ch)))
      case Partial(q) => Reading(q, [])
      case Failed =>
        if p == [] then Reading([], [QUESTION])
        else
          match Feed([], c)
          case Ready(ch) => Reading([], [QUESTION] + Big5Bytes(u2b, CodePoint(ch)))
          case Partial(q) => Reading(q, [QUESTION])
          case Failed => Reading([], [QUESTION])
  }

  function ReadAll(u2b: Table, p: seq<byte>, t: seq<byte>): Reading
    decreases |t|
  {
    if t == [] then Reading(p, [])
    else
      var a := ReadStep(u2b, p, t[0]);
      var b := ReadAll(u2b, a.pending, t[1..]);
      Reading(b.pending, a.out + b.out)
  }

  lemma {:induction false} ReadAllConcat(u2b: Table, p: seq<byte>, a: seq<byte>, b: seq<byte>)
    ensures ReadAll(u2b, p, a + b) ==
            Reading(ReadAll(u2b, ReadAll(u2b, p, a).pending, b).pending,
                    ReadAll(u2b, p, a).out + ReadAll(u2b, ReadAll(u2b, p, a).pending, b).out)
    decreases |a|
  {
    hide ReadStep;
    if a == [] {
      assert a + b == b;
      assert [] + ReadAll(u2b, p, b).out == ReadAll(u2b, p, b).out;
    } else {
      assert (a + b)[0] == a[0] && (a + b)[1..] == a[1..] + b;
      var r := ReadStep(u2b, p, a[0]);
      ReadAllConcat(u2b, r.pending, a[1..], b);
      var x := ReadAll(u2b, r.pending, a[1..]);
      Associate(r.out, x.out, ReadAll(u2b, x.pending, b).out);
    }
  }

  /** What a buffer of this capacity holds after bytes are added one by one: they are dropped when it is full. */
  function Filled(held: seq<byte>, data: seq<byte>, capacity: nat): seq<byte>
    requires |held| <= capacity
  {
    held + data[..Min(|data|, capacity - |held|)]
  }

  lemma FilledTwice(held: seq<byte>, a: seq<byte>, b: seq<byte>, capacity: nat)
    requires |held| <= capacity
    ensures Filled(Filled(held, a, capacity), b, capacity) == Filled(held, a + b, capacity)
    ensures Filled(held, [], capacity) == held
  {
  }

  lemma FilledOne(held: seq<byte>, data: seq<byte>, i: nat, capacity: nat)
    requires |held| <= capacity && i < |data|
    ensures var f := Filled(held, data[..i], capacity);
            Filled(held, data[..i + 1], capacity) == if |f| < capacity then f + [data[i]] else f
  {
    assert data[..i + 1] == data[..i] + [data[i]];
  }

  method AddAll(v: VBuf, data: seq<byte>)
    requires v.Valid()
    modifies v`tail, v.buf
    ensures v.Valid() && v.Contents() == Filled(old(v.Contents()), data, v.capacity)
  {
    hide Ring, Filled;
    ghost var held := v.Contents();
    FilledTwice(held, [], [], v.capacity);
    assert data[..0] == [];
    for i := 0 to |data|
      invariant v.Valid() && v.Contents() == Filled(held, data[..i], v.capacity)
    {
      FilledOne(held, data, i, v.capacity);
      var ok := v.Add(data[i]);
    }
    assert data[..|data|] == data;
  }

  /** One byte of `ConvertRead`; says how many bytes were written for it. */
  method ReadByte(u2b: Table, v: VBuf, ctx: Utf8Ctx, c: byte) returns (written: nat)
    requires v.Valid() && ctx.Valid() && !ctx.IsReady() && v.buf != ctx.buf
    modifies v`tail, v.buf, ctx, ctx.buf
    ensures v.Valid() && ctx.Valid() && !ctx.IsReady()
    ensures var r := ReadStep(u2b, old(ctx.Pending()), c);
            && ctx.Pending() == r.pending && written == |r.out|
            && v.Contents() == Filled(old(v.Contents()), r.out, v.capacity)
  {
    hide Feed, Big5Bytes, CodePoint, IsPartial, RfcChar, CharLen, Ring, Filled;
    ghost var held := v.Contents();
    FilledTwice(held, [], [], v.capacity);
    if c < 0x80 {
      var out := (if ctx.IsPending() then [QUESTION] else []) + [c];
      ctx.Reset();
      AddAll(v, out);
      return |out|;
    }
    var wasPending := ctx.IsPending();
    var piece, ready := AddByte(u2b, ctx, c);
    AddAll(v, piece);
    written := |piece|;
    if !ready && piece != [] && wasPending {
      ctx.Reset();
      ghost var first := piece;
      piece, ready := AddByteAgain(u2b, ctx, c);
      AddAll(v, piece);
      FilledTwice(held, first, piece, v.capacity);
      assert first + [] == first;
      written := written + |piece|;
    }
  }

  /** The second try of a byte: an error this time is not reported. */
  method AddByteAgain(u2b: Table, ctx: Utf8Ctx, b: byte) returns (piece: seq<byte>, ready: bool)
    requires ctx.Valid() && ctx.Pending() == []
    modifies ctx, ctx.buf
    ensures ctx.Valid() && !ctx.IsReady()
    ensures match Feed([], b)
            case Ready(c) => ready && piece == Big5Bytes(u2b, CodePoint(c)) && ctx.Pending() == []
            case Partial(q) => !ready && piece == [] && ctx.Pending() == q
            case Failed => !ready && piece == [] && ctx.Pending() == []
  {
    hide Feed, Big5Bytes, CodePoint;
    ready := ctx.AddByte(b);
    piece := [];
    if ready {
      var ucs := ctx.GetUcs();
      piece := LookUp(u2b, ucs);
    }
  }

  /** Converts a chunk of input into the buffer; the decoder keeps a character that the chunk cuts. */
  method ConvertRead(u2b: Table, v: VBuf, ctx: Utf8Ctx, data: seq<byte>) returns (written: nat)
    requires v.Valid() && ctx.Valid() && !ctx.IsReady() && v.buf != ctx.buf
    modifies v`tail, v.buf, ctx, ctx.buf
    ensures v.Valid() && ctx.Valid() && !ctx.IsReady()
    ensures var r := ReadAll(u2b, old(ctx.Pending()), data);
            && ctx.Pending() == r.pending && written == |r.out|
            && v.Contents() == Filled(old(v.Contents()), r.out, v.capacity)
  {
    hide ReadStep, IsPartial, RfcChar, CharLen, CodePoint, Ring, Filled;
    written := 0;
    ghost var p, held, done := ctx.Pending(), v.Contents(), [];
    FilledTwice(held, [], [], v.capacity);
    assert data[..0] == [];
    for i := 0 to |data|
      invariant v.Valid() && ctx.Valid() && !ctx.IsReady()
      invariant ReadAll(u2b, p, data[..i]) == Reading(ctx.Pending(), done)
      invariant written == |done| && v.Contents() == Filled(held, done, v.capacity)
    {
      ghost var step := ReadStep(u2b, ctx.Pending(), data[i]);
      ReadAllConcat(u2b, p, data[..i], [data[i]]);
      ReadAllOne(u2b, ctx.Pending(), data[i]);
      assert data[..i + 1] == data[..i] + [data[i]];
      FilledTwice(held, done, step.out, v.capacity);
      var n := ReadByte(u2b, v, ctx, data[i]);
      done := done + step.out;
      written := written + n;
    }
    assert data[..|data|] == data;
  }

  lemma ReadAllOne(u2b: Table, p: seq<byte>, c: byte)
    ensures ReadAll(u2b, p, [c]) == ReadStep(u2b, p, c)
  {
    var a := ReadStep(u2b, p, c);
    assert a.out + [] == a.out;
  }

  /** The stream that arrives in these chunks. */
  function ReadChunks(u2b: Table, p: seq<byte>, chunks: seq<seq<byte>>): Reading
    decreases |chunks|
  {
    if chunks == [] then Reading(p, [])
    else
      var a := ReadAll(u2b, p, chunks[0]);
      var b := ReadChunks(u2b, a.pending, chunks[1..]);
      Reading(b.pending, a.out + b.out)
  }

  /** How the stream is cut makes no difference. */
  lemma {:induction false} ChunksInvisible(u2b: Table, p: seq<byte>, chunks: seq<seq<byte>>)
    ensures ReadChunks(u2b, p, chunks) == ReadAll(u2b, p, Flatten(chunks))
    decreases |chunks|
  {
    if chunks != [] {
      ChunksInvisible(u2b, ReadAll(u2b, p, chunks[0]).pending, chunks[1..]);
      ReadAllConcat(u2b, p, chunks[0], Flatten(chunks[1..]));
    }
  }

  // ----- the reader and the bounded converter -----

  predicate FixesAscii(u2b: Table) {
    forall c: u16 :: 0 < c < 0x80 ==> u2b(c) == c
  }

  /** Bytes that break a character and cannot begin one: the bounded converter reports each of them twice. */
  function DoubleFaults(p: seq<byte>, t: seq<byte>): nat
    decreases |t|
  {
    if t == [] then 0
    else
      (if p != [] && t[0] >= 0x80 && Feed(p, t[0]).Failed? && Feed([], t[0]).Failed? then 1 else 0)
      + DoubleFaults(PendingAfter(p, t[0]), t[1..])
  }

  /** The bytes pending after one more: a byte that breaks a character may begin one. */
  function PendingAfter(p: seq<byte>, c: byte): seq<byte> {
    var o := if p != [] && Feed(p, c).Failed? then Feed([], c) else Feed(p, c);
    if c >= 0x80 && o.Partial? then o.pending else []
  }

  lemma ReadLeavesPending(u2b: Table, p: seq<byte>, c: byte)
    ensures ReadStep(u2b, p, c).pending == PendingAfter(p, c)
  {
    hide Feed, Big5Bytes, CodePoint;
  }

  /** The question mark for a character that the end cuts off. */
  function Cut(p: seq<byte>): seq<byte> {
    if p != [] then [QUESTION] else []
  }

  predicate IsPending(p: seq<byte>) {
    p == [] || IsPartial(p)
  }

  lemma AsciiFeed(p: seq<byte>, c: byte)
    requires IsPending(p) && c < 0x80
    ensures Feed(p, c) == if p == [] then Ready([c]) else Failed
  {
    if p != [] { TailRequired(p, c); }
    assert [] + [c] == [c];
  }

  lemma FeedPending(p: seq<byte>, c: byte)
    ensures Feed(p, c).Partial? ==> IsPending(Feed(p, c).pending)
  {
  }

  lemma ReadPending(u2b: Table, p: seq<byte>, c: byte)
    requires IsPending(p)
    ensures IsPending(ReadStep(u2b, p, c).pending)
  {
    hide IsPartial, Big5Bytes, CodePoint, Feed;
    FeedPending(p, c);
    FeedPending([], c);
  }

  /** What the bounded converter writes for one more byte than the reader does. */
  lemma UnitsStep(u2b: Table, p: seq<byte>, t: seq<byte>)
    requires t != [] && t[0] != 0 && FixesAscii(u2b) && IsPending(p)
    ensures var r := ReadStep(u2b, p, t[0]);
            var double := p != [] && t[0] >= 0x80 && Feed(p, t[0]).Failed? && Feed([], t[0]).Failed?;
            Flatten(Big5Units(u2b, p, t)) ==
            r.out + (if double then [QUESTION] else []) + Flatten(Big5Units(u2b, r.pending, t[1..]))
  {
    hide Feed, IsPartial, CodePoint, Big5Bytes, Big5Units, Flatten, FixesAscii;
    if t[0] < 0x80 {
      UnitsStepLow(u2b, p, t);
    } else {
      UnitsStepHigh(u2b, p, t);
    }
  }

  lemma UnitsStepLow(u2b: Table, p: seq<byte>, t: seq<byte>)
    requires t != [] && 0 < t[0] < 0x80 && FixesAscii(u2b) && IsPending(p)
    ensures Flatten(Big5Units(u2b, p, t)) == ReadStep(u2b, p, t[0]).out + [] + Flatten(Big5Units(u2b, [], t[1..]))
  {
    hide Feed, IsPartial, CodePoint, Big5Bytes, Big5Units, Flatten, FixesAscii;
    AsciiFeed(p, t[0]);
    AsciiFeed([], t[0]);
    AsciiCode(u2b, t[0]);
    UnitsOf(u2b, p, t);
    if p != [] {
      UnitsOf(u2b, [], t);
      Associate([QUESTION], [t[0]], Flatten(Big5Units(u2b, [], t[1..])));
    }
    var out := ReadStep(u2b, p, t[0]).out;
    assert out + [] == out;
  }

  lemma AsciiCode(u2b: Table, c: byte)
    requires 0 < c < 0x80 && FixesAscii(u2b)
    ensures CodePoint([c]) == c && Big5Bytes(u2b, c) == [c]
  {
  }

  lemma FlattenCons(u: seq<byte>, rest: seq<seq<byte>>)
    ensures Flatten([u] + rest) == u + Flatten(rest)
  {
    assert ([u] + rest)[1..] == rest;
  }

  lemma UnitsStepHigh(u2b: Table, p: seq<byte>, t: seq<byte>)
    requires t != [] && t[0] >= 0x80 && IsPending(p)
    ensures var r := ReadStep(u2b, p, t[0]);
            var double := p != [] && Feed(p, t[0]).Failed? && Feed([], t[0]).Failed?;
            Flatten(Big5Units(u2b, p, t)) ==
            r.out + (if double then [QUESTION] else []) + Flatten(Big5Units(u2b, r.pending, t[1..]))
  {
    hide Feed, IsPartial, CodePoint, Big5Bytes, Big5Units;
    UnitsOf(u2b, p, t);
    if p != [] && Feed(p, t[0]).Failed? {
      UnitsOf(u2b, [], t);
      var rest := Flatten(Big5Units(u2b, ReadStep(u2b, p, t[0]).pending, t[1..]));
      match Feed([], t[0])
      case Ready(ch) => Associate([QUESTION], Big5Bytes(u2b, CodePoint(ch)), rest);
      case Partial(q) =>
      case Failed => Associate([QUESTION], [QUESTION], rest);
    }
    var out := ReadStep(u2b, p, t[0]).out;
    assert out + [] == out;
  }

  /** One step of the pieces, put together. */
  lemma UnitsOf(u2b: Table, p: seq<byte>, t: seq<byte>)
    requires t != [] && t[0] != 0
    ensures var all := Flatten(Big5Units(u2b, p, t));
            match Feed(p, t[0])
            case Ready(c) => all == Big5Bytes(u2b, CodePoint(c)) + Flatten(Big5Units(u2b, [], t[1..]))
            case Partial(q) => all == [] + Flatten(Big5Units(u2b, q, t[1..]))
            case Failed => all == [QUESTION] + Flatten(Big5Units(u2b, [], if p != [] then t else t[1..]))
  {
    hide Feed, CodePoint, Big5Bytes;
    match Feed(p, t[0])
    case Ready(c) => FlattenCons(Big5Bytes(u2b, CodePoint(c)), Big5Units(u2b, [], t[1..]));
    case Partial(q) =>
      var all := Flatten(Big5Units(u2b, q, t[1..]));
      assert [] + all == all;
    case Failed => FlattenCons([QUESTION], Big5Units(u2b, [], if p != [] then t else t[1..]));
  }

  lemma {:induction false} UnitsLength(u2b: Table, p: seq<byte>, t: seq<byte>)
    requires 0 !in t && FixesAscii(u2b) && IsPending(p)
    ensures var r := ReadAll(u2b, p, t);
            |Flatten(Big5Units(u2b, p, t))| == |r.out| + DoubleFaults(p, t) + |Cut(r.pending)|
    decreases |t|
  {
    hide Feed, IsPartial, ReadStep, PendingAfter, FixesAscii;
    if t == [] {
      FlattenCons([QUESTION], []);
      assert [[QUESTION]] + [] == [[QUESTION]];
    } else {
      UnitsStep(u2b, p, t);
      ReadPending(u2b, p, t[0]);
      ReadLeavesPending(u2b, p, t[0]);
      UnitsLength(u2b, ReadStep(u2b, p, t[0]).pending, t[1..]);
    }
  }

  lemma {:induction false} UnitsEqual(u2b: Table, p: seq<byte>, t: seq<byte>)
    requires 0 !in t && FixesAscii(u2b) && IsPending(p) && DoubleFaults(p, t) == 0
    ensures var r := ReadAll(u2b, p, t);
            Flatten(Big5Units(u2b, p, t)) == r.out + Cut(r.pending)
    decreases |t|
  {
    hide Feed, IsPartial, ReadStep, PendingAfter, FixesAscii;
    if t == [] {
      FlattenCons([QUESTION], []);
      assert [[QUESTION]] + [] == [[QUESTION]];
    } else {
      var a := ReadStep(u2b, p, t[0]);
      UnitsStep(u2b, p, t);
      ReadPending(u2b, p, t[0]);
      ReadLeavesPending(u2b, p, t[0]);
      UnitsEqual(u2b, a.pending, t[1..]);
      var b := ReadAll(u2b, a.pending, t[1..]);
      Associate(a.out, b.out, Cut(b.pending));
      assert a.out + [] == a.out;
    }
  }

  /**
   * On input without zero bytes, and a table that fixes ASCII, the bounded converter with room for everything and
   * the reader over any chunks agree, up to the question mark of a character cut off by the end, exactly when no
   * byte is both a broken character's and a bad start.
   */
  lemma ReaderAgreesIff(u2b: Table, chunks: seq<seq<byte>>)
    requires 0 !in Flatten(chunks) && FixesAscii(u2b)
    ensures var t, r := Flatten(chunks), ReadChunks(u2b, [], chunks);
            Flatten(Big5Units(u2b, [], t)) == r.out + Cut(r.pending) <==> DoubleFaults([], t) == 0
  {
    hide Big5Units, ReadAll, DoubleFaults, FixesAscii;
    var t := Flatten(chunks);
    ChunksInvisible(u2b, [], chunks);
    UnitsLength(u2b, [], t);
    if DoubleFaults([], t) == 0 { UnitsEqual(u2b, [], t); }
  }

  /** Such a text: of C2 FF the reader makes one question mark, and the bounded converter two. */
  lemma ReaderDiffers(u2b: Table)
    ensures var t := [0xC2, 0xFF];
            && DoubleFaults([], t) == 1
            && ReadChunks(u2b, [], [t]) == Reading([], [QUESTION]) && Flatten(Big5Units(u2b, [], t)) == [QUESTION, QUESTION]
  {
    var t: seq<byte>, c: seq<byte> := [0xC2, 0xFF], [0xFF];
    assert t[1..] == c && c[1..] == [];
    OneChunk(u2b, t);
    BrokenTwice();
    assert Big5Units(u2b, [], [0xFF]) == [[QUESTION]];
    assert Big5Units(u2b, [0xC2], [0xFF]) == [[QUESTION], [QUESTION]];
    assert Flatten([[QUESTION], [QUESTION]]) == [QUESTION, QUESTION] by {
      FlattenCons([QUESTION], [[QUESTION]]);
      FlattenCons([QUESTION], []);
      assert [[QUESTION]] + [] == [[QUESTION]] && [[QUESTION]] + [[QUESTION]] == [[QUESTION], [QUESTION]];
    }
    assert ReadAll(u2b, [0xC2], [0xFF]) == Reading([], [QUESTION]);
  }

  lemma OneChunk(u2b: Table, t: seq<byte>)
    ensures ReadChunks(u2b, [], [t]) == ReadAll(u2b, [], t)
  {
    var r := ReadAll(u2b, [], t);
    assert r.out + [] == r.out;
  }

  lemma BrokenTwice()
    ensures Feed([], 0xC2) == Partial([0xC2]) && Feed([0xC2], 0xFF).Failed? && Feed([], 0xFF).Failed?
  {
    assert [] + [0xC2] == [0xC2] && [] + [0xFF] == [0xFF] && [0xC2] + [0xFF] == [0xC2, 0xFF];
  }

  lemma {:induction false} WellFormedHasNoFaults(u2b: Table, t: seq<byte>, k: nat)
    requires WellFormed(t) && k <= |t| && IsPending(t[..k]) && (k == |t| ==> k == 0)
    ensures DoubleFaults(t[..k], t[k..]) == 0 && ReadAll(u2b, t[..k], t[k..]).pending == []
    decreases |t|, |t| - k
  {
    hide Feed, IsPartial, Big5Bytes, CodePoint, WellFormed;
    if k < |t| {
      FeedDecides(t, k);
      FeedPending(t[..k], t[k]);
      ReadLeavesPending(u2b, t[..k], t[k]);
      var rest := t[k..][1..];
      assert rest == t[k + 1..];
      FeedIs(t, k);
      match Feed(t[..k], t[k])
      case Ready(_) =>
        assert rest[..0] == [] && rest[0..] == rest;
        WellFormedHasNoFaults(u2b, rest, 0);
        AsciiEndsCharacter(t, k);
      case Partial(q) =>
        AsciiEndsCharacter(t, k);
        WellFormedHasNoFaults(u2b, t, k + 1);
    }
  }

  lemma FeedIs(t: seq<byte>, k: nat)
    requires k < |t|
    ensures Feed(t[..k], t[k]).Partial? ==> Feed(t[..k], t[k]).pending == t[..k + 1]
  {
  }

  lemma AsciiEndsCharacter(t: seq<byte>, k: nat)
    requires k < |t| && IsPending(t[..k]) && !Feed(t[..k], t[k]).Failed?
    ensures t[k] < 0x80 ==> k == 0 && Feed(t[..k], t[k]).Ready?
  {
    hide Feed;
    if t[k] < 0x80 { AsciiFeed(t[..k], t[k]); }
  }

  /** On well-formed input without zero bytes the two always agree, and nothing is left pending. */
  lemma ReaderAgreesOnWellFormed(u2b: Table, chunks: seq<seq<byte>>, room: nat)
    requires WellFormed(Flatten(chunks)) && 0 !in Flatten(chunks) && FixesAscii(u2b)
    requires room >= |ReadChunks(u2b, [], chunks).out|
    ensures var r := ReadChunks(u2b, [], chunks);
            r.pending == [] && Greedy(Big5Units(u2b, [], Flatten(chunks)), room) == r.out
  {
    hide Big5Units, ReadAll, DoubleFaults, FixesAscii;
    var t := Flatten(chunks);
    assert t[..0] == [] && t[0..] == t;
    ChunksInvisible(u2b, [], chunks);
    WellFormedHasNoFaults(u2b, t, 0);
    UnitsEqual(u2b, [], t);
    assert ReadAll(u2b, [], t).out + [] == ReadAll(u2b, [], t).out;
    GreedyKeepsAll(Big5Units(u2b, [], t), room);
  }

  // ----- there and back -----

  /** The two tables agree on a code point: ASCII is itself, any other has a pair with a high lead byte that leads back to it. */
  predicate Paired(b2u: Table, u2b: Table, u: scalar) {
    if u < 0x80 then u2b(u) == u
    else u < 0x10000 && u2b(u) >= 0x8000 && u2b(u) % 256 >= 0x40 && b2u(u2b(u)) == u
  }

  function AllBig5(u2b: Table, us: seq<scalar>): (r: seq<seq<byte>>)
    ensures |r| == |us|
  {
    if us == [] then [] else [Big5Bytes(u2b, us[0])] + AllBig5(u2b, us[1..])
  }

  lemma EncodingBytes(u: scalar)
    requires u != 0
    ensures Encode(u) != [] && 0 !in Encode(u)
  {
  }

  /** An encoding becomes the bytes of its code point. */
  lemma {:induction false} Big5OfEncoding(u2b: Table, u: scalar, rest: seq<byte>, k: nat)
    requires u != 0 && k < |Encode(u)|
    ensures Big5Units(u2b, Encode(u)[..k], Encode(u)[k..] + rest) == [Big5Bytes(u2b, u)] + Big5Units(u2b, [], rest)
    decreases |Encode(u)| - k
  {
    hide Encode, Feed, CodePoint, Big5Bytes;
    var e := Encode(u);
    EncodingBytes(u);
    FeedEncoding(u, k);
    var t := e[k..] + rest;
    assert e[k] in e && t[0] == e[k] && t[1..] == e[k + 1..] + rest;
    if k + 1 < |e| {
      Big5OfEncoding(u2b, u, rest, k + 1);
    } else {
      assert e[k + 1..] + rest == rest;
    }
  }

  lemma {:induction false} Big5OfAll(u2b: Table, us: seq<scalar>)
    requires 0 !in us
    ensures Big5Units(u2b, [], EncodeAll(us)) == AllBig5(u2b, us)
  {
    hide Encode, Big5Bytes;
    if us != [] {
      EncodingBytes(us[0]);
      Big5OfEncoding(u2b, us[0], EncodeAll(us[1..]), 0);
      assert Encode(us[0])[..0] == [] && Encode(us[0])[0..] == Encode(us[0]);
      Big5OfAll(u2b, us[1..]);
    }
  }

  /** Bytes of a paired code point are read as its character. */
  lemma PairedReadsBack(b2u: Table, u2b: Table, u: scalar, rest: seq<byte>)
    requires u != 0 && Paired(b2u, u2b, u)
    ensures var bytes := Big5Bytes(u2b, u);
            && NextBig5(b2u, bytes + rest) == Char(u, |bytes|) && EncodeEntry(u) == Encode(u)
            && (bytes + rest)[|bytes|..] == rest && |bytes| <= |Encode(u)|
  {
    hide Encode;
    EncodeLength(u);
    var bytes := Big5Bytes(u2b, u);
    if u >= 0x80 {
      var p := u2b(u);
      assert bytes == [p / 256, p % 256] && p / 256 * 256 + p % 256 == p;
      assert (bytes + rest)[0] == p / 256 && (bytes + rest)[1] == p % 256;
    }
  }

  lemma EncodeLength(u: scalar)
    ensures |Encode(u)| >= if u < 0x80 then 1 else 2
  {
  }

  lemma {:induction false} Utf8OfAll(b2u: Table, u2b: Table, us: seq<scalar>)
    requires 0 !in us && forall u :: u in us ==> Paired(b2u, u2b, u)
    ensures var big5 := Flatten(AllBig5(u2b, us));
            Flatten(Utf8Units(b2u, big5)) == EncodeAll(us) && |big5| <= |EncodeAll(us)|
  {
    hide Encode, Big5Bytes, NextBig5, EncodeEntry, Paired;
    if us != [] {
      var bytes, rest := Big5Bytes(u2b, us[0]), AllBig5(u2b, us[1..]);
      assert us[0] in us && forall u :: u in us[1..] ==> u in us;
      PairedReadsBack(b2u, u2b, us[0], Flatten(rest));
      FlattenCons(bytes, rest);
      Utf8OfAll(b2u, u2b, us[1..]);
      FlattenCons(Encode(us[0]), Utf8Units(b2u, Flatten(rest)));
    } else {
      assert NextBig5(b2u, []) == End by { NothingLeft(b2u); }
    }
  }

  lemma NothingLeft(b2u: Table)
    ensures NextBig5(b2u, []) == End
  {
  }

  /**
   * For any two tables that agree on the characters of a text, each converter takes back what the other does to it; and
   * the reader's Big5, over any chunks, is taken back too.
   */
  lemma ThereAndBack(b2u: Table, u2b: Table, us: seq<scalar>, chunks: seq<seq<byte>>)
    requires 0 !in us && (forall u :: u in us ==> Paired(b2u, u2b, u)) && Flatten(chunks) == EncodeAll(us)
    ensures var big5 := Flatten(Big5Units(u2b, [], EncodeAll(us)));
            && |big5| <= |EncodeAll(us)|
            && Flatten(Utf8Units(b2u, big5)) == EncodeAll(us)
            && Flatten(Big5Units(u2b, [], Flatten(Utf8Units(b2u, big5)))) == big5
            && (FixesAscii(u2b) ==> ReadChunks(u2b, [], chunks).out == big5)
  {
    hide Big5Units, Utf8Units, AllBig5, Paired, FixesAscii, WellFormed;
    Big5OfAll(u2b, us);
    Utf8OfAll(b2u, u2b, us);
    if FixesAscii(u2b) {
      EncodeAllIsWellFormed(us);
      NoZeroInAll(us);
      var out, units := ReadChunks(u2b, [], chunks).out, Big5Units(u2b, [], EncodeAll(us));
      var room: nat := |out| + |Flatten(units)|;
      ReaderAgreesOnWellFormed(u2b, chunks, room);
      GreedyKeepsAll(units, room);
    }
  }

  lemma {:induction false} NoZeroInAll(us: seq<scalar>)
    requires 0 !in us
    ensures 0 !in EncodeAll(us)
  {
    if us != [] {
      EncodingBytes(us[0]);
      NoZeroInAll(us[1..]);
    }
  }

  /** A code point past the end of the table, or with a zero entry, becomes a question mark. */
  lemma Unmapped(u2b: Table, u: scalar, rest: seq<byte>)
    requires u != 0 && (u >= 0x10000 || u2b(u) == 0)
    ensures Big5Units(u2b, [], Encode(u) + rest) == [['?' as byte]] + Big5Units(u2b, [], rest)
  {
    EncodingBytes(u);
    Big5OfEncoding(u2b, u, rest, 0);
    assert Encode(u)[..0] == [] && Encode(u)[0..] == Encode(u);
  }

  lemma PairedByEntries(b2u: Table, u2b: Table, us: seq<scalar>)
    requires forall u: scalar :: u in us ==>
               && (u < 0x80 ==> u2b(u) == u)
               && (u >= 0x80 ==> u < 0x10000 && u2b(u) >= 0x8000 && u2b(u) % 256 >= 0x40 && b2u(u2b(u)) == u)
    ensures forall u :: u in us ==> Paired(b2u, u2b, u)
  {
    forall u: scalar | u in us ensures Paired(b2u, u2b, u) {
    }
  }

  /** UTF-8 text that has a Big5 form is converted to Big5 and back to itself. */
  method RoundTrip(b2u: Table, u2b: Table, us: seq<scalar>, big5: array<byte>, utf8: array<byte>) returns (n: nat)
    requires 0 !in us
    requires forall u: scalar :: u in us ==>
               && (u < 0x80 ==> u2b(u) == u)
               && (u >= 0x80 ==> u < 0x10000 && u2b(u) >= 0x8000 && u2b(u) % 256 >= 0x40 && b2u(u2b(u)) == u)
    requires big5.Length > |EncodeAll(us)| && utf8.Length > |EncodeAll(us)|
    modifies big5, utf8
    ensures n == |EncodeAll(us)| && utf8[..n] == EncodeAll(us) && utf8[n] == 0
  {
    hide Big5Units, Utf8Units, Paired, Greedy, EncodeAll;
    ghost var text := EncodeAll(us);
    ghost var units := Big5Units(u2b, [], text);
    assert Flatten([text]) == text by { FlattenCons(text, []); }
    PairedByEntries(b2u, u2b, us);
    ThereAndBack(b2u, u2b, us, [text]);
    GreedyKeepsAll(units, big5.Length - 1);
    var m := Utf8ToBig5(u2b, EncodeAll(us), big5, big5.Length);
    ghost var pieces := Utf8Units(b2u, big5[..m]);
    GreedyKeepsAll(pieces, utf8.Length - 1);
    n := Big5ToUtf8(b2u, big5[..m], utf8, utf8.Length);
  }

  // ----- broken text, byte for byte -----

  /** What Big5 text becomes from its front: a zero ends it, and so does a lead byte at its end; a low byte stays. */
  lemma Big5Read(b2u: Table, c: byte, t: seq<byte>)
    ensures Utf8Units(b2u, []) == [] && Utf8Units(b2u, [0] + t) == []
    ensures 0 < c < 0x80 ==> Utf8Units(b2u, [c] + t) == [[c]] + Utf8Units(b2u, t)
    ensures c >= 0x80 ==> Utf8Units(b2u, [c]) == [] && Utf8Units(b2u, [c, 0] + t) == []
  {
    assert ([c] + t)[1..] == t;
  }

  /** A lead byte without a trail byte is a question mark, and what follows it is read; a pair is its entry. */
  lemma Big5PairRead(b2u: Table, c: byte, d: byte, t: seq<byte>)
    requires c >= 0x80
    ensures 0 < d < 0x40 ==> Utf8Units(b2u, [c, d] + t) == [[0x3F], [d]] + Utf8Units(b2u, t)
    ensures d >= 0x40 && 0x800 <= b2u(c as int * 256 + d) < 0xD800 ==>
              var u := b2u(c as int * 256 + d);
              Utf8Units(b2u, [c, d] + t) ==
              [[0xE0 + u / 0x1000, 0x80 + u / 0x40 % 0x40, 0x80 + u % 0x40]] + Utf8Units(b2u, t)
  {
    var s := [c, d] + t;
    assert s[1..] == [d] + t && s[2..] == t;
    if 0 < d < 0x40 {
      Big5Read(b2u, d, t);
      assert NextBig5(b2u, s) == Char(0x3F, 1) && EncodeEntry(0x3F) == [0x3F];
      assert [[0x3F]] + ([[d]] + Utf8Units(b2u, t)) == [[0x3F], [d]] + Utf8Units(b2u, t);
    } else if d >= 0x40 {
      assert NextBig5(b2u, s) == Char(b2u(c as int * 256 + d), 2);
    }
  }

  /**
   * Broken UTF-8: a byte that cannot begin a character, and a character broken off, by the end or by another byte,
   * are a question mark each, and that other byte is read.
   */
  lemma BrokenUtf8Read(u2b: Table, c: byte)
    requires 0 < c < 0x80 && u2b(c) == c
    ensures Big5Units(u2b, [], [0xE4]) == [[0x3F]] && Big5Units(u2b, [], [0xE4, 0xB8]) == [[0x3F]]
    ensures Big5Units(u2b, [], [0x80]) == [[0x3F]] && Big5Units(u2b, [], [0xFF]) == [[0x3F]]
    ensures Big5Units(u2b, [], [0xE4, c]) == [[0x3F], [c]]
    ensures ReadAll(u2b, [], [0xE4, c]) == Reading([], [0x3F, c]) && ReadAll(u2b, [], [0xE4, 0xB8]) == Reading([0xE4, 0xB8], [])
  {
    hide Feed, CodePoint;
    FedOutcomes(c);
    assert [0xE4, c][1..] == [c] && [c][1..] == [] && [0x80][1..] == [] && [0xFF][1..] == [];
    assert Big5Bytes(u2b, c) == [c];
    assert Big5Units(u2b, [], [c]) == [[c]];
    assert Big5Units(u2b, [0xE4], [c]) == [[0x3F]] + Big5Units(u2b, [], [c]);
    assert ReadAll(u2b, [0xE4], [c]).out == [0x3F, c] + [];
    CutOffRead(u2b);
  }

  lemma FedOutcomes(c: byte)
    requires c < 0x80
    ensures Feed([], 0xE4) == Partial([0xE4]) && Feed([0xE4], 0xB8) == Partial([0xE4, 0xB8])
    ensures Feed([0xE4], c).Failed? && Feed([], c) == Ready([c]) && CodePoint([c]) == c
    ensures Feed([], 0x80).Failed? && Feed([], 0xFF).Failed?
  {
    assert [0xE4] + [c] == [0xE4, c] && [0xE4] + [0xB8] == [0xE4, 0xB8] && [] + [c] == [c];
    assert !RfcChar([0xE4, c]) && !IsPartial([0xE4, c]) by { assert !IsTail([0xE4, c][1]); }
  }

  lemma CutOffRead(u2b: Table)
    ensures Big5Units(u2b, [], [0xE4]) == [[0x3F]] && Big5Units(u2b, [], [0xE4, 0xB8]) == [[0x3F]]
    ensures ReadAll(u2b, [], [0xE4, 0xB8]) == Reading([0xE4, 0xB8], [])
  {
    hide Feed, CodePoint;
    FedOutcomes(0x41);
    assert [0xE4, 0xB8][1..] == [0xB8] && [0xB8][1..] == [] && [0xE4][1..] == [];
    assert Big5Units(u2b, [0xE4], [0xB8]) == [[0x3F]];
    assert ReadAll(u2b, [0xE4], [0xB8]) == Reading([0xE4, 0xB8], []);
  }
}
