/**
 * What the conversion of upgrade/sgr66.c leaves behind: in Big5, complete characters none of which is split,
 * on which a second conversion changes nothing; in UTF-8, well-formed text that a second scan refuses.
 */
module Sgr66Idempotence {
  import opened Bytes
  import opened Prelude
  import opened Utf8Spec
  import opened Sgr66Lex
  import opened Sgr66

  /** The one fact about the table used here: the trail byte of a character is at least 0x40. */
  ghost predicate HighTrails(b2u: Table) {
    forall hi: byte, lo: byte :: hi >= 0x80 && ValidPair(b2u, hi, lo) ==> lo >= 0x40
  }

  predicate StableToken(t: Token) {
    match t
    case Sgr(p) => AllParams(p)
    case Plain(b) => b < 0x80
    case Big5(hi, mids, lo) => hi >= 0x80 && AllParamStrings(mids) && lo != ESC
  }

  /** Token lists that are read back from their own bytes: no plain byte begins a sequence. */
  predicate Stable(ts: seq<Token>) {
    ts == [] ||
    (StableToken(ts[0]) && (ts[0].Plain? ==> SgrLen(TokensBytes(ts)) == 0) && Stable(ts[1..]))
  }

  predicate NoSplit(ts: seq<Token>) {
    forall i :: 0 <= i < |ts| ==> !IsSplit(ts[i])
  }

  predicate TrailsClear(ts: seq<Token>) {
    forall i :: 0 <= i < |ts| ==> ts[i].Big5? ==> ts[i].lo != ESC
  }

  lemma FirstIsStable(s: seq<byte>)
    requires s != [] && First(s).Some? && (First(s).value.0.Big5? ==> First(s).value.0.lo != ESC)
    ensures StableToken(First(s).value.0) && (First(s).value.0.Plain? ==> SgrLen(s) == 0)
  {
    if SgrLen(s) > 0 {
      SgrLenShape(s);
    } else if s[0] >= 0x80 {
      MidsAreParams(s[1..]);
    }
  }

  lemma {:induction false} LexIsStable(s: seq<byte>)
    requires Lex(s).Some? && TrailsClear(Lex(s).value)
    ensures Stable(Lex(s).value)
  {
    if s != [] {
      var (t, n) := First(s).value;
      var ts := Lex(s).value;
      assert ts[0] == t && ts[1..] == Lex(s[n..]).value;
      LexIsStable(s[n..]);
      LexKeepsBytes(s);
      FirstIsStable(s);
    }
  }

  /** A stable token is the first token of its bytes, whatever follows them. */
  predicate ReadsFirst(t: Token, rest: seq<byte>) {
    var s := TokenBytes(t) + rest;
    s != [] && First(s).Some? && First(s).value.0 == t && s[First(s).value.1..] == rest
  }

  lemma BytesAroundMids(hi: byte, mids: seq<byte>, lo: byte, rest: seq<byte>)
    ensures var s := [hi] + mids + [lo] + rest;
            s[1..] == mids + ([lo] + rest) && s[1 + |mids|] == lo && s[2 + |mids|..] == rest
  {
  }

  lemma FirstOfBig5(t: Token, rest: seq<byte>)
    requires StableToken(t) && t.Big5?
    ensures ReadsFirst(t, rest)
  {
    var after := [t.lo] + rest;
    assert SgrLen(after) == 0;
    BytesAroundMids(t.hi, MidsBytes(t.mids), t.lo, rest);
    MidsOf(t.mids, after);
    var s := TokenBytes(t) + rest;
    assert SgrLen(s) == 0;
    hide MidsLen, Mids, SgrLen, MidsBytes;
  }

  lemma FirstOf(t: Token, rest: seq<byte>)
    requires StableToken(t) && (t.Plain? ==> SgrLen(TokenBytes(t) + rest) == 0)
    ensures ReadsFirst(t, rest)
  {
    match t
    case Sgr(p) =>
      SgrLenOf(p, rest);
    case Plain(b) =>
    case Big5(hi, mids, lo) =>
      FirstOfBig5(t, rest);
  }

  lemma {:induction false} StableIsReadBack(ts: seq<Token>)
    requires Stable(ts)
    ensures Lex(TokensBytes(ts)) == Some(ts)
  {
    hide First, StableToken, TokenBytes;
    if ts != [] {
      FirstOf(ts[0], TokensBytes(ts[1..]));
      StableIsReadBack(ts[1..]);
      assert ts == [ts[0]] + ts[1..];
    }
  }

  /** The plain bytes that a token list starts with. */
  function PlainRun(ts: seq<Token>): nat {
    if ts == [] || !ts[0].Plain? then 0 else 1 + PlainRun(ts[1..])
  }

  lemma {:induction false} JoinIsParams(mids: seq<seq<byte>>)
    requires AllParamStrings(mids)
    ensures AllParams(Join(mids))
  {
    if mids != [] { JoinIsParams(mids[1..]); }
  }

  lemma AgreeAfter(b: byte, s: seq<byte>, t: seq<byte>, k: nat)
    requires Agree(s, t, k)
    ensures Agree([b] + s, [b] + t, k + 1)
  {
    assert ([b] + s)[..k + 1] == [b] + s[..k] && ([b] + t)[..k + 1] == [b] + t[..k];
  }

  /** The conversion leaves the plain bytes up to the next sequence or character alone. */
  lemma {:induction false} ConvertAgrees(ts: seq<Token>)
    requires Stable(ts)
    ensures Agree(TokensBytes(Convert(ts)), TokensBytes(ts), PlainRun(ts))
  {
    if ts != [] && ts[0].Plain? {
      ConvertAgrees(ts[1..]);
      assert Convert(ts)[1..] == Convert(ts[1..]);
      AgreeAfter(ts[0].b, TokensBytes(Convert(ts[1..])), TokensBytes(ts[1..]), PlainRun(ts[1..]));
    } else if ts != [] {
      assert Convert(ts) != [] && (Convert(ts)[0].Sgr? || Convert(ts)[0] == ts[0]);
    }
  }

  lemma StableCons(t: Token, ts: seq<Token>)
    requires StableToken(t) && !t.Plain? && Stable(ts)
    ensures Stable([t] + ts)
  {
    assert ([t] + ts)[1..] == ts;
  }

  lemma {:induction false} ConvertIsStable(ts: seq<Token>)
    requires Stable(ts)
    ensures Stable(Convert(ts)) && NoSplit(Convert(ts))
  {
    if ts == [] {
    } else if ts[0].Sgr? && |ts| > 1 && IsSplit(ts[1]) {
      var rest := Convert(ts[2..]);
      assert ts[1..][1..] == ts[2..];
      ConvertIsStable(ts[2..]);
      SplitIsStable(Some(ts[0].params), ts[1], rest);
    } else if IsSplit(ts[0]) {
      ConvertIsStable(ts[1..]);
      SplitIsStable(None, ts[0], Convert(ts[1..]));
    } else {
      ConvertIsStable(ts[1..]);
      assert Convert(ts)[1..] == Convert(ts[1..]);
      if ts[0].Plain? {
        ConvertAgrees(ts);
        AgreeSgr(TokensBytes(Convert(ts)), TokensBytes(ts), PlainRun(ts));
      }
    }
  }

  lemma SplitIsStable(held: Option<seq<byte>>, t: Token, rest: seq<Token>)
    requires held.Some? ==> AllParams(held.value)
    requires StableToken(t) && t.Big5? && Stable(rest) && NoSplit(rest)
    ensures var us := [Sgr(Merged(held, t.mids)), t.(mids := [])] + rest; Stable(us) && NoSplit(us)
  {
    JoinIsParams(t.mids);
    var a, c := Sgr(Merged(held, t.mids)), t.(mids := []);
    StableCons(c, rest);
    StableCons(a, [c] + rest);
    assert [a, c] + rest == [a] + ([c] + rest);
  }

  /** Without split characters there is nothing to convert. */
  lemma {:induction false} NothingToConvert(b2u: Table, ts: seq<Token>)
    requires NoSplit(ts)
    ensures Convert(ts) == ts && Emit(b2u, false, ts) == TokensBytes(ts)
  {
    if ts != [] {
      assert ts[0] == ts[0] && ts == [ts[0]] + ts[1..];
      NothingToConvert(b2u, ts[1..]);
      assert |ts| > 1 ==> !IsSplit(ts[1]);
      if ts[0].Big5? {
        assert MidsBytes(ts[0].mids) == [];
      }
    }
  }

  /** The Big5 output of an admitted buffer has no split character, and converting it again returns it byte for byte. */
  lemma SecondConversion(b2u: Table, s: seq<byte>)
    requires HighTrails(b2u) && Accepts(b2u, s)
    ensures var out := Converted(b2u, false, s);
            Lex(out).Some? && !HasSplit(out) && Converted(b2u, false, out) == out
  {
    var ts := Lex(s).value;
    HighsAreHigh(s);
    assert TrailsClear(ts) by {
      forall i | 0 <= i < |ts| && ts[i].Big5? ensures ts[i].lo != ESC {
        assert ts[i] in ts;
      }
    }
    LexIsStable(s);
    ConvertIsStable(ts);
    var us := Convert(ts);
    NothingToConvert(b2u, us);
    StableIsReadBack(us);
    var out := Converted(b2u, false, s);
    assert forall t :: t in us ==> !IsSplit(t);
  }

  /** Outside characters there are only bytes below 0x80. */
  predicate SevenBit(t: Token) {
    match t
    case Sgr(p) => AllParams(p)
    case Plain(b) => b < 0x80
    case Big5(_, mids, _) => AllParamStrings(mids)
  }

  predicate AllSevenBit(ts: seq<Token>) {
    forall i :: 0 <= i < |ts| ==> SevenBit(ts[i])
  }

  lemma {:induction false} LexIsSevenBit(s: seq<byte>)
    requires Lex(s).Some?
    ensures AllSevenBit(Lex(s).value)
  {
    if s != [] {
      var (t, n) := First(s).value;
      LexIsSevenBit(s[n..]);
      if SgrLen(s) > 0 {
        SgrLenShape(s);
      } else if s[0] >= 0x80 {
        MidsAreParams(s[1..]);
      }
      SevenBitCons(t, Lex(s[n..]).value);
    }
  }

  lemma SevenBitCons(t: Token, ts: seq<Token>)
    requires SevenBit(t) && AllSevenBit(ts)
    ensures AllSevenBit([t] + ts)
  {
    hide SevenBit;
  }

  lemma {:induction false} ConvertIsSevenBit(ts: seq<Token>)
    requires AllSevenBit(ts)
    ensures AllSevenBit(Convert(ts))
  {
    if ts == [] {
    } else if ts[0].Sgr? && |ts| > 1 && IsSplit(ts[1]) {
      ConvertIsSevenBit(ts[2..]);
      SplitIsSevenBit(Some(ts[0].params), ts[1], Convert(ts[2..]));
    } else if IsSplit(ts[0]) {
      ConvertIsSevenBit(ts[1..]);
      SplitIsSevenBit(None, ts[0], Convert(ts[1..]));
    } else {
      ConvertIsSevenBit(ts[1..]);
      SevenBitCons(ts[0], Convert(ts[1..]));
    }
  }

  lemma SplitIsSevenBit(held: Option<seq<byte>>, t: Token, us: seq<Token>)
    requires held.Some? ==> AllParams(held.value)
    requires t.Big5? && SevenBit(t) && AllSevenBit(us)
    ensures AllSevenBit([Sgr(Merged(held, t.mids)), t.(mids := [])] + us)
  {
    JoinIsParams(t.mids);
    var a, c := Sgr(Merged(held, t.mids)), t.(mids := []);
    SevenBitCons(c, us);
    SevenBitCons(a, [c] + us);
    assert [a, c] + us == [a] + ([c] + us);
  }

  lemma {:induction false} EmitIsWellFormed(b2u: Table, ts: seq<Token>)
    requires AllSevenBit(ts)
    ensures WellFormed(Emit(b2u, true, ts))
  {
    hide WellFormed, Encode;
    if ts == [] {
      AsciiIsWellFormed([]);
    } else {
      assert SevenBit(ts[0]);
      EmitIsWellFormed(b2u, ts[1..]);
      TokenIsWellFormed(b2u, ts[0]);
      WellFormedConcat(EmitToken(b2u, true, ts[0]), Emit(b2u, true, ts[1..]));
    }
  }

  lemma TokenIsWellFormed(b2u: Table, t: Token)
    requires SevenBit(t)
    ensures WellFormed(EmitToken(b2u, true, t))
  {
    hide WellFormed, Encode;
    match t
    case Sgr(p) => AsciiIsWellFormed(SgrBytes(p));
    case Plain(b) => AsciiIsWellFormed([b]);
    case Big5(hi, mids, lo) =>
      var u := b2u(hi * 256 + lo);
      if 0 <= u <= 0x10FFFF && !(0xD800 <= u <= 0xDFFF) {
        OneIsWellFormed(u);
      } else {
        AsciiIsWellFormed([]);
      }
  }

  /** The UTF-8 output is well-formed, for any table, and so a second scan refuses it: nothing is migrated twice. */
  lemma MigratedIsRefused(b2u: Table, s: seq<byte>)
    requires Lex(s).Some?
    ensures WellFormed(Converted(b2u, true, s)) && !Accepts(b2u, Converted(b2u, true, s))
  {
    LexIsSevenBit(s);
    ConvertIsSevenBit(Lex(s).value);
    EmitIsWellFormed(b2u, Convert(Lex(s).value));
  }

  /** A buffer whose scan reports no split character is left as it is. */
  lemma UnsplitUnchanged(b2u: Table, s: seq<byte>)
    requires Lex(s).Some? && !HasSplit(s)
    ensures Converted(b2u, false, s) == s
  {
    var ts := Lex(s).value;
    assert NoSplit(ts) by {
      forall i | 0 <= i < |ts| ensures !IsSplit(ts[i]) {
        assert ts[i] in ts;
      }
    }
    NothingToConvert(b2u, ts);
    LexKeepsBytes(s);
  }
}
