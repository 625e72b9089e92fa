/**
 * The Big5 colour migration of upgrade/sgr66.c: old articles may hold SGR colour sequences between
 * the two bytes of a Big5 character; the converter moves them in front of the character, after the
 * parameter 66.
 */
module Sgr66 {
  import opened Bytes
  import opened Prelude
  import opened Utf8Spec
  import opened Utf8Decoder
  import opened ByteBuffers
  import opened Sgr66Lex

  /** The bytes of ";66". */
  const FREEZE: seq<byte> := [0x3B, 0x36, 0x36]

  /** `b2u_table`: 65536 entries, the identity where a byte pair is no character. */
  type Table = int -> int

  predicate ValidPair(b2u: Table, hi: byte, lo: byte) {
    b2u(hi * 256 + lo) != hi * 256 + lo
  }

  function Join(mids: seq<seq<byte>>): seq<byte> {
    if mids == [] then [] else [SEMICOLON] + mids[0] + Join(mids[1..])
  }

  predicate IsSplit(t: Token) {
    t.Big5? && t.mids != []
  }

  /** The sequences inside a character go in front of it, into the sequence just before it if there is one. */
  function Convert(ts: seq<Token>): seq<Token> {
    if ts == [] then []
    else if ts[0].Sgr? && |ts| > 1 && IsSplit(ts[1]) then
      [Sgr(ts[0].params + FREEZE + Join(ts[1].mids)), ts[1].(mids := [])] + Convert(ts[2..])
    else if IsSplit(ts[0]) then
      [Sgr(FREEZE[1..] + Join(ts[0].mids)), ts[0].(mids := [])] + Convert(ts[1..])
    else [ts[0]] + Convert(ts[1..])
  }

  /** A character's bytes in the output: its Big5 pair, or the UTF-8 of its table entry (nothing for a surrogate entry). */
  function CharBytes(b2u: Table, utf8: bool, hi: byte, lo: byte): seq<byte> {
    if !utf8 then [hi, lo]
    else
      var u := b2u(hi * 256 + lo);
      if 0 <= u <= 0x10FFFF && !(0xD800 <= u <= 0xDFFF) then Encode(u) else []
  }

  function EmitToken(b2u: Table, utf8: bool, t: Token): seq<byte> {
    if t.Big5? then CharBytes(b2u, utf8, t.hi, t.lo) else TokenBytes(t)
  }

  function Emit(b2u: Table, utf8: bool, ts: seq<Token>): seq<byte> {
    if ts == [] then [] else EmitToken(b2u, utf8, ts[0]) + Emit(b2u, utf8, ts[1..])
  }

  /** The converter's output, as a function of the buffer. */
  function Converted(b2u: Table, utf8: bool, s: seq<byte>): seq<byte>
    requires Lex(s).Some?
  {
    Emit(b2u, utf8, Convert(Lex(s).value))
  }

  method ParseSgr(buf: seq<byte>, pos: nat) returns (n: nat)
    requires pos <= |buf|
    ensures n == SgrLen(buf[pos..])
  {
    if pos + 2 >= |buf| || buf[pos] != ESC || buf[pos + 1] != BRACKET {
      return 0;
    }
    var k := pos + 2;
    assert buf[pos..][2..] == buf[k..];
    while k < |buf| && ((buf[k] >= 0x30 && buf[k] <= 0x39) || buf[k] == SEMICOLON)
      invariant pos + 2 <= k <= |buf|
      invariant ParamRun(buf[pos + 2..]) == k - (pos + 2) + ParamRun(buf[k..])
    {
      k := k + 1;
    }
    if k < |buf| && buf[k] == FINAL_M {
      return k - pos + 1;
    }
    return 0;
  }

  lemma MidsAdvance(s: seq<byte>, rest: seq<byte>)
    requires SgrLen(s) > 0 && rest == s[SgrLen(s)..]
    ensures MidsLen(s) == SgrLen(s) + MidsLen(rest) && Mids(s) == [SgrParams(s)] + Mids(rest)
  {
  }

  /** The inner loop of both functions: past the sequences that follow a lead byte. */
  method SkipMids(buf: seq<byte>, start: nat) returns (j: nat, count: nat)
    requires start <= |buf|
    ensures j == start + MidsLen(buf[start..]) && count == |Mids(buf[start..])|
  {
    j, count := start, 0;
    ghost var left := buf[start..];
    ghost var n0, c0 := MidsLen(left), |Mids(left)|;
    while j < |buf|
      invariant start <= j <= |buf| && left == buf[j..]
      invariant n0 == j - start + MidsLen(left) && c0 == count + |Mids(left)|
    {
      var n := ParseSgr(buf, j);
      if n == 0 {
        break;
      }
      MidsAdvance(left, left[n..]);
      left := left[n..];
      j, count := j + n, count + 1;
    }
  }

  // ----- the scan -----

  /** What the scan admits: complete characters only, all of them in the table, at least one, and not UTF-8 already. */
  ghost predicate Accepts(b2u: Table, s: seq<byte>) {
    && Lex(s).Some?
    && (forall t :: t in Lex(s).value && t.Big5? ==> ValidPair(b2u, t.hi, t.lo))
    && (exists t :: t in Lex(s).value && t.Big5?)
    && !WellFormed(s)
  }

  ghost predicate HasSplit(s: seq<byte>) {
    Lex(s).Some? && exists t :: t in Lex(s).value && IsSplit(t)
  }

  /** The characters of a buffer as the scan meets them: it steps over low bytes singly, sequences or not. */
  function ScanChars(s: seq<byte>): Option<seq<Token>> {
    if s == [] then Some([])
    else if s[0] < 0x80 then ScanChars(s[1..])
    else
      match First(s)
      case None => None
      case Some((t, n)) => Cons(t, ScanChars(s[n..]))
  }

  function Chars(ts: seq<Token>): seq<Token> {
    if ts == [] then [] else (if ts[0].Big5? then [ts[0]] else []) + Chars(ts[1..])
  }

  lemma {:induction false} CharsAreTokens(ts: seq<Token>, t: Token)
    ensures t in Chars(ts) <==> t in ts && t.Big5?
  {
    if ts != [] {
      CharsAreTokens(ts[1..], t);
      assert t in ts <==> t == ts[0] || t in ts[1..];
    }
  }

  lemma {:induction false} LowBytesSkipped(low: seq<byte>, rest: seq<byte>)
    requires forall i :: 0 <= i < |low| ==> low[i] < 0x80
    ensures ScanChars(low + rest) == ScanChars(rest)
  {
    if low == [] {
      assert low + rest == rest;
    } else {
      assert (low + rest)[1..] == low[1..] + rest;
      LowBytesSkipped(low[1..], rest);
    }
  }

  lemma CharsCons(t: Token, ts: seq<Token>)
    ensures Chars([t] + ts) == if t.Big5? then [t] + Chars(ts) else Chars(ts)
  {
    assert ([t] + ts)[1..] == ts;
    assert [] + Chars(ts) == Chars(ts);
  }

  lemma ScanStep(s: seq<byte>)
    requires s != []
    ensures First(s).None? ==> ScanChars(s) == None
    ensures First(s).Some? && First(s).value.0.Big5? ==>
              ScanChars(s) == Cons(First(s).value.0, ScanChars(s[First(s).value.1..]))
    ensures First(s).Some? && !First(s).value.0.Big5? ==> ScanChars(s) == ScanChars(s[First(s).value.1..])
  {
    if SgrLen(s) > 0 {
      SgrLenShape(s);
      LowBytesSkipped(SgrBytes(SgrParams(s)), s[SgrLen(s)..]);
    }
  }

  /** Both readings of a buffer find the same characters. */
  lemma {:induction false} ScanAgreesWithLex(s: seq<byte>)
    ensures ScanChars(s) == CharsOf(Lex(s))
  {
    if s != [] {
      ScanStep(s);
      match First(s)
      case None =>
      case Some((t, n)) =>
        ScanAgreesWithLex(s[n..]);
        CharsOfCons(t, Lex(s[n..]));
    }
  }

  function CharsOf(ts: Option<seq<Token>>): Option<seq<Token>> {
    match ts
    case None => None
    case Some(l) => Some(Chars(l))
  }

  lemma CharsOfCons(t: Token, rest: Option<seq<Token>>)
    ensures CharsOf(Cons(t, rest)) == if t.Big5? then Cons(t, CharsOf(rest)) else CharsOf(rest)
  {
    if rest.Some? { CharsCons(t, rest.value); }
  }

  predicate AllValid(b2u: Table, cs: seq<Token>) {
    forall t :: t in cs ==> t.Big5? && ValidPair(b2u, t.hi, t.lo)
  }

  predicate AnySplit(cs: seq<Token>) {
    exists t :: t in cs && IsSplit(t)
  }

  /** The scan decides on the characters alone. */
  lemma CharsDecide(b2u: Table, s: seq<byte>)
    ensures ScanChars(s).None? ==> !Accepts(b2u, s)
    ensures ScanChars(s).Some? ==>
              && (HasSplit(s) <==> AnySplit(ScanChars(s).value))
              && (Accepts(b2u, s) <==> ScanChars(s).value != [] && AllValid(b2u, ScanChars(s).value) && !WellFormed(s))
  {
    ScanAgreesWithLex(s);
    if Lex(s).Some? {
      var ts := Lex(s).value;
      var cs := Chars(ts);
      forall t ensures t in cs <==> t in ts && t.Big5? { CharsAreTokens(ts, t); }
      if Accepts(b2u, s) {
        var t :| t in ts && t.Big5?;
        assert t in cs;
      }
      if cs != [] {
        assert cs[0] in cs;
      }
    }
  }

  /**
   * The read-only scan: 1 exactly on the buffers it admits, saying whether a character in them is split. It admits those
   * that are not UTF-8, are complete and have characters, if the table maps each of them to something else.
   */
  method ScanBig5Uao(b2u: Table, buf: seq<byte>) returns (r: int, hasDbcs: bool, hasSplit: bool)
    ensures r == if Accepts(b2u, buf) then 1 else 0
    ensures r == 1 || r == 0
    ensures r == 1 <==>
            && !WellFormed(buf) && Lex(buf).Some? && (exists t :: t in Lex(buf).value && t.Big5?)
            && (forall t :: t in Lex(buf).value && t.Big5? ==> b2u(t.hi * 256 + t.lo) != t.hi * 256 + t.lo)
    ensures hasDbcs == (r == 1) && hasSplit == (r == 1 && HasSplit(buf))
  {
    CharsDecide(b2u, buf);
    var ok, dbcs, split := ScanPairs(b2u, buf);
    if !ok || !dbcs {
      return 0, false, false;
    }
    var utf8 := IsValidUtf8(buf);
    if utf8 {
      return 0, false, false;
    }
    return 1, dbcs, split;
  }

  /** The loop of the scan, up to its end or to the first character it cannot take. */
  method ScanPairs(b2u: Table, buf: seq<byte>) returns (ok: bool, dbcs: bool, split: bool)
    ensures ok <==> ScanChars(buf).Some? && AllValid(b2u, ScanChars(buf).value)
    ensures ok ==> dbcs == (ScanChars(buf).value != []) && split == AnySplit(ScanChars(buf).value)
  {
    hide ScanChars, MidsLen, Mids;
    dbcs, split := false, false;
    var i := 0;
    ghost var left, cs: seq<Token> := buf, [];
    ghost var whole := ScanChars(buf);
    PrependNothing([], whole);
    while i < |buf|
      invariant i <= |buf| && left == buf[i..]
      invariant whole == Prepend(cs, ScanChars(left))
      invariant AllValid(b2u, cs) && dbcs == (cs != []) && split == AnySplit(cs)
    {
      if buf[i] < 0x80 {
        ScanLow(left);
        i, left := i + 1, left[1..];
        continue;
      }
      var hi := buf[i];
      assert left[1..] == buf[i + 1..];
      var j, count := SkipMids(buf, i + 1);
      ghost var more := TakeChar(b2u, whole, cs, left);
      if j >= |buf| {
        return false, dbcs, split;
      }
      var lo := buf[j];
      if !ValidPair(b2u, hi, lo) {
        return false, dbcs, split;
      }
      dbcs := true;
      if count > 0 {
        split := true;
      }
      left, cs := left[j + 1 - i..], more;
      i := j + 1;
    }
    ScanEnd(left);
    PrependNothing(cs, None);
    return true, dbcs, split;
  }

  lemma ScanLow(s: seq<byte>)
    requires s != [] && s[0] < 0x80
    ensures ScanChars(s) == ScanChars(s[1..])
  {
  }

  lemma ScanEnd(s: seq<byte>)
    requires s == []
    ensures ScanChars(s) == Some([])
  {
  }

  /** What the scan reads at a lead byte. */
  lemma ScanHigh(s: seq<byte>)
    requires s != [] && s[0] >= 0x80
    ensures var m := 1 + MidsLen(s[1..]);
            if m >= |s| then ScanChars(s) == None
            else ScanChars(s) == Cons(Big5(s[0], Mids(s[1..]), s[m]), ScanChars(s[m + 1..]))
  {
    hide ScanChars, First, MidsLen, Mids, Cons;
    FirstHigh(s);
    ScanStep(s);
  }

  lemma FirstHigh(s: seq<byte>)
    requires s != [] && s[0] >= 0x80
    ensures var m := 1 + MidsLen(s[1..]);
            First(s) == if m >= |s| then None else Some((Big5(s[0], Mids(s[1..]), s[m]), m + 1))
  {
    hide MidsLen, Mids;
    assert SgrLen(s) == 0;
  }

  /** The scan's step over one character: `more` is the list of characters read with it. */
  lemma TakeChar(b2u: Table, whole: Option<seq<Token>>, cs: seq<Token>, s: seq<byte>) returns (more: seq<Token>)
    requires s != [] && s[0] >= 0x80 && whole == Prepend(cs, ScanChars(s)) && AllValid(b2u, cs)
    ensures var m := 1 + MidsLen(s[1..]);
            if m >= |s| then whole == None
            else if !ValidPair(b2u, s[0], s[m]) then whole.Some? ==> !AllValid(b2u, whole.value)
            else whole == Prepend(more, ScanChars(s[m + 1..])) && AllValid(b2u, more) && more != []
                 && AnySplit(more) == (AnySplit(cs) || Mids(s[1..]) != [])
  {
    var m := 1 + MidsLen(s[1..]);
    ScanHigh(s);
    more := cs;
    if m < |s| {
      var t := Big5(s[0], Mids(s[1..]), s[m]);
      var rest := ScanChars(s[m + 1..]);
      PrependCons(cs, t, rest);
      if ValidPair(b2u, s[0], s[m]) {
        AddChar(b2u, cs, t);
        more := cs + [t];
      } else {
        NotValid(b2u, cs, t, rest);
      }
    }
  }

  lemma AddChar(b2u: Table, cs: seq<Token>, t: Token)
    requires AllValid(b2u, cs) && t.Big5? && ValidPair(b2u, t.hi, t.lo)
    ensures AllValid(b2u, cs + [t])
    ensures AnySplit(cs + [t]) <==> AnySplit(cs) || IsSplit(t)
  {
    if AnySplit(cs) {
      var u :| u in cs && IsSplit(u);
      assert u in cs + [t];
    }
    assert t in cs + [t];
  }

  lemma NotValid(b2u: Table, cs: seq<Token>, t: Token, rest: Option<seq<Token>>)
    requires t.Big5? && !ValidPair(b2u, t.hi, t.lo)
    ensures Prepend(cs + [t], rest).Some? ==> !AllValid(b2u, Prepend(cs + [t], rest).value)
  {
    if rest.Some? { assert (cs + [t] + rest.value)[|cs|] == t; }
  }

  function Prepend(cs: seq<Token>, rest: Option<seq<Token>>): Option<seq<Token>> {
    match rest
    case None => None
    case Some(l) => Some(cs + l)
  }

  lemma PrependNothing(cs: seq<Token>, rest: Option<seq<Token>>)
    ensures Prepend([], rest) == rest && Prepend(cs, Some([])) == Some(cs)
  {
    if rest.Some? { assert [] + rest.value == rest.value; }
    assert cs + [] == cs;
  }

  lemma PrependCons(cs: seq<Token>, t: Token, rest: Option<seq<Token>>)
    ensures Prepend(cs, Cons(t, rest)) == Prepend(cs + [t], rest)
  {
    if rest.Some? { assert cs + ([t] + rest.value) == cs + [t] + rest.value; }
  }

  // ----- the conversion -----

  /** What is still to be written when `held` is the sequence written last, if the last token was one. */
  function ToWrite(b2u: Table, utf8: bool, held: Option<seq<byte>>, ts: seq<Token>): seq<byte> {
    Emit(b2u, utf8, Convert(if held.Some? then [Sgr(held.value)] + ts else ts))
  }

  function HeldBytes(held: Option<seq<byte>>): seq<byte> {
    if held.Some? then SgrBytes(held.value) else []
  }

  lemma EmitCons(b2u: Table, utf8: bool, t: Token, ts: seq<Token>)
    ensures Emit(b2u, utf8, [t] + ts) == EmitToken(b2u, utf8, t) + Emit(b2u, utf8, ts)
  {
    assert ([t] + ts)[1..] == ts;
  }

  /** A token that is no split character is written as it is, after the sequence held. */
  lemma WriteWhole(b2u: Table, utf8: bool, held: Option<seq<byte>>, t: Token, ts: seq<Token>)
    requires !IsSplit(t)
    ensures ToWrite(b2u, utf8, held, [t] + ts) == HeldBytes(held) + ToWrite(b2u, utf8, None, [t] + ts)
    ensures t.Sgr? ==> ToWrite(b2u, utf8, None, [t] + ts) == ToWrite(b2u, utf8, Some(t.params), ts)
    ensures !t.Sgr? ==>
              ToWrite(b2u, utf8, None, [t] + ts) == EmitToken(b2u, utf8, t) + ToWrite(b2u, utf8, None, ts)
  {
    var us := [t] + ts;
    if held.Some? {
      var vs := [Sgr(held.value)] + us;
      assert vs[1..] == us && Convert(vs) == [vs[0]] + Convert(us);
      EmitCons(b2u, utf8, vs[0], Convert(us));
    }
    if !t.Sgr? {
      assert us[1..] == ts && Convert(us) == [t] + Convert(ts);
      EmitCons(b2u, utf8, t, Convert(ts));
    }
  }

  /** The sequence that a split character's sequences are merged into. */
  function Merged(held: Option<seq<byte>>, mids: seq<seq<byte>>): seq<byte> {
    if held.Some? then held.value + FREEZE + Join(mids) else FREEZE[1..] + Join(mids)
  }

  lemma ConvertSplit(held: Option<seq<byte>>, t: Token, ts: seq<Token>)
    requires IsSplit(t)
    ensures Convert(if held.Some? then [Sgr(held.value)] + ([t] + ts) else [t] + ts) ==
            [Sgr(Merged(held, t.mids))] + ([t.(mids := [])] + Convert(ts))
  {
    var us := [t] + ts;
    if held.Some? {
      var vs := [Sgr(held.value)] + us;
      assert vs[1] == t && vs[2..] == ts;
    } else {
      assert us[1..] == ts;
    }
  }

  /** A split character is written whole, its sequences merged with the one held or in one of their own. */
  lemma WriteSplit(b2u: Table, utf8: bool, held: Option<seq<byte>>, t: Token, ts: seq<Token>)
    requires IsSplit(t)
    ensures ToWrite(b2u, utf8, held, [t] + ts) ==
            SgrBytes(Merged(held, t.mids)) + CharBytes(b2u, utf8, t.hi, t.lo) + ToWrite(b2u, utf8, None, ts)
  {
    hide Convert, Merged;
    var a, c := Sgr(Merged(held, t.mids)), t.(mids := []);
    ConvertSplit(held, t, ts);
    EmitCons(b2u, utf8, a, [c] + Convert(ts));
    EmitCons(b2u, utf8, c, Convert(ts));
  }

  /** Appends `;` and the parameters of each sequence between `start` and `j`. */
  method AppendMids(buf: seq<byte>, start: nat, j: nat, out: ByteBuf) returns (ok: bool)
    requires start <= |buf| && j == start + MidsLen(buf[start..]) && out.Valid()
    modifies out, out.data
    ensures out.Valid() && (out.data == old(out.data) || fresh(out.data))
    ensures !ok ==> out.allocFailed
    ensures ok ==> out.allocFailed == old(out.allocFailed)
    ensures ok ==> out.Contents() == old(out.Contents()) + Join(Mids(buf[start..]))
  {
    hide MidsLen, Mids, SgrLen, Join, ByteBuf.Contents;
    var k := start;
    ghost var left, done := buf[start..], [];
    ghost var goal := Join(Mids(left));
    while k < j
      invariant start <= k <= j <= |buf| && left == buf[k..] && j == k + MidsLen(left)
      invariant out.Valid() && (out.data == old(out.data) || fresh(out.data))
      invariant out.allocFailed == old(out.allocFailed)
      invariant out.Contents() == old(out.Contents()) + done && done + Join(Mids(left)) == goal
    {
      MidsPresent(left);
      var n := ParseSgr(buf, k);
      MidsAdvance(left, left[n..]);
      ok := out.Append([SEMICOLON]);
      if !ok {
        return;
      }
      ok := out.Append(buf[k + 2..k + n - 1]);
      if !ok {
        return;
      }
      assert buf[k + 2..k + n - 1] == SgrParams(left);
      JoinCons(SgrParams(left), Mids(left[n..]));
      done := done + [SEMICOLON] + SgrParams(left);
      left := left[n..];
      k := k + n;
    }
    MidsAbsent(left);
    ok := true;
  }

  lemma MidsPresent(s: seq<byte>)
    requires MidsLen(s) > 0
    ensures SgrLen(s) > 0
  {
  }

  lemma MidsAbsent(s: seq<byte>)
    ensures MidsLen(s) == 0 <==> Mids(s) == []
    ensures Mids(s) == [] ==> Join(Mids(s)) == []
  {
  }

  lemma JoinCons(p: seq<byte>, rest: seq<seq<byte>>)
    ensures Join([p] + rest) == [SEMICOLON] + p + Join(rest)
  {
    assert ([p] + rest)[1..] == rest;
  }

  lemma LexSgr(s: seq<byte>)
    requires SgrLen(s) > 0
    ensures Lex(s) == Cons(Sgr(SgrParams(s)), Lex(s[SgrLen(s)..])) && s[..SgrLen(s)] == SgrBytes(SgrParams(s))
  {
    SgrLenShape(s);
  }

  lemma LexPlain(s: seq<byte>)
    requires s != [] && SgrLen(s) == 0 && s[0] < 0x80
    ensures Lex(s) == Cons(Plain(s[0]), Lex(s[1..])) && s[..1] == [s[0]]
  {
  }

  lemma LexHigh(s: seq<byte>)
    requires s != [] && s[0] >= 0x80
    ensures var m := 1 + MidsLen(s[1..]);
            if m >= |s| then Lex(s) == None
            else Lex(s) == Cons(Big5(s[0], Mids(s[1..]), s[m]), Lex(s[m + 1..]))
  {
    hide MidsLen, Mids, Cons;
    assert SgrLen(s) == 0;
  }

  /** What has been written and what is still to come make up the converted buffer. */
  ghost predicate OnTrack(b2u: Table, utf8: bool, buf: seq<byte>, written: seq<byte>,
                          held: Option<seq<byte>>, left: seq<byte>)
  {
    && (Lex(buf).Some? <==> Lex(left).Some?)
    && (Lex(buf).Some? ==> written + ToWrite(b2u, utf8, held, Lex(left).value) == Converted(b2u, utf8, buf))
  }

  lemma TrackWhole(b2u: Table, utf8: bool, buf: seq<byte>, written: seq<byte>, held: Option<seq<byte>>,
                   left: seq<byte>, t: Token, rest: seq<byte>)
    requires OnTrack(b2u, utf8, buf, written, held, left) && !IsSplit(t) && Lex(left) == Cons(t, Lex(rest))
    ensures t.Sgr? ==> OnTrack(b2u, utf8, buf, written + HeldBytes(held), Some(t.params), rest)
    ensures !t.Sgr? ==> OnTrack(b2u, utf8, buf, written + HeldBytes(held) + EmitToken(b2u, utf8, t), None, rest)
  {
    hide ToWrite, HeldBytes, EmitToken, Converted, Lex, IsSplit;
    if Lex(rest).Some? {
      WriteWhole(b2u, utf8, held, t, Lex(rest).value);
    }
  }

  lemma TrackSgr(b2u: Table, utf8: bool, buf: seq<byte>, written: seq<byte>, held: Option<seq<byte>>,
                 left: seq<byte>, p: seq<byte>, rest: seq<byte>)
    requires OnTrack(b2u, utf8, buf, written, held, left) && Lex(left) == Cons(Sgr(p), Lex(rest))
    ensures OnTrack(b2u, utf8, buf, written + HeldBytes(held), Some(p), rest)
  {
    hide OnTrack, HeldBytes, Lex;
    TrackWhole(b2u, utf8, buf, written, held, left, Sgr(p), rest);
  }

  lemma TrackPlain(b2u: Table, utf8: bool, buf: seq<byte>, written: seq<byte>, held: Option<seq<byte>>,
                   left: seq<byte>, b: byte, rest: seq<byte>)
    requires OnTrack(b2u, utf8, buf, written, held, left) && Lex(left) == Cons(Plain(b), Lex(rest))
    ensures OnTrack(b2u, utf8, buf, written + HeldBytes(held) + [b], None, rest)
  {
    hide OnTrack, HeldBytes, Lex;
    TrackWhole(b2u, utf8, buf, written, held, left, Plain(b), rest);
  }

  lemma TrackSplit(b2u: Table, utf8: bool, buf: seq<byte>, written: seq<byte>, held: Option<seq<byte>>,
                   left: seq<byte>, t: Token, rest: seq<byte>)
    requires OnTrack(b2u, utf8, buf, written, held, left) && IsSplit(t) && Lex(left) == Cons(t, Lex(rest))
    ensures OnTrack(b2u, utf8, buf,
                    written + SgrBytes(Merged(held, t.mids)) + CharBytes(b2u, utf8, t.hi, t.lo), None, rest)
  {
    hide ToWrite, Merged, CharBytes, Converted, Lex, SgrBytes;
    if Lex(rest).Some? {
      WriteSplit(b2u, utf8, held, t, Lex(rest).value);
    }
  }

  lemma TrackEnds(b2u: Table, utf8: bool, buf: seq<byte>, written: seq<byte>, held: Option<seq<byte>>)
    ensures OnTrack(b2u, utf8, buf, [], None, buf)
    ensures OnTrack(b2u, utf8, buf, written, held, []) ==>
              Lex(buf).Some? && written + HeldBytes(held) == Converted(b2u, utf8, buf)
  {
    hide Emit;
    ToWriteNothing(b2u, utf8, held);
    if Lex(buf).Some? {
      assert [] + ToWrite(b2u, utf8, None, Lex(buf).value) == ToWrite(b2u, utf8, None, Lex(buf).value);
    }
  }

  lemma ToWriteNothing(b2u: Table, utf8: bool, held: Option<seq<byte>>)
    ensures ToWrite(b2u, utf8, held, []) == HeldBytes(held)
  {
    if held.Some? {
      assert [Sgr(held.value)] + [] == [Sgr(held.value)];
      assert Convert([Sgr(held.value)]) == [Sgr(held.value)];
      EmitCons(b2u, utf8, Sgr(held.value), []);
    }
  }

  /** Writes the merged sequence: into the one just written, whose final byte gives way, or as one of its own. */
  method AppendMerged(buf: seq<byte>, start: nat, j: nat, prevWasSgr: bool, out: ByteBuf,
                      ghost prefix: seq<byte>, ghost held: Option<seq<byte>>) returns (ok: bool)
    requires start <= |buf| && j == start + MidsLen(buf[start..]) && out.Valid()
    requires prevWasSgr == held.Some? && out.Contents() == prefix + HeldBytes(held)
    modifies out, out.data
    ensures out.Valid() && (out.data == old(out.data) || fresh(out.data))
    ensures !ok ==> out.allocFailed
    ensures ok ==> out.allocFailed == old(out.allocFailed)
    ensures ok ==> out.Contents() == prefix + SgrBytes(Merged(held, Mids(buf[start..])))
  {
    hide MidsLen, Mids, Join, Merged, SgrBytes, HeldBytes;
    if held.Some? {
      MergedIntoHeld(prefix, held.value, Mids(buf[start..]));
    } else {
      MergedAlone(prefix, Mids(buf[start..]));
    }
    assert held.Some? ==> out.Contents()[|out.Contents()| - 1] == FINAL_M;
    if prevWasSgr && out.len > 0 && out.data[out.len - 1] == FINAL_M {
      out.DropLast();
      ok := out.Append(FREEZE);
    } else {
      ok := out.Append([ESC, BRACKET] + FREEZE[1..]);
    }
    if !ok { return; }
    ok := AppendMids(buf, start, j, out);
    if !ok { return; }
    ok := out.Append([FINAL_M]);
  }

  lemma MergedIntoHeld(prefix: seq<byte>, held: seq<byte>, mids: seq<seq<byte>>)
    ensures var s := prefix + HeldBytes(Some(held));
            && |s| > 0 && s[|s| - 1] == FINAL_M
            && s[..|s| - 1] + FREEZE + Join(mids) + [FINAL_M] == prefix + SgrBytes(Merged(Some(held), mids))
  {
    hide Join;
    var s := prefix + HeldBytes(Some(held));
    assert s[..|s| - 1] == prefix + [ESC, BRACKET] + held;
  }

  lemma MergedAlone(prefix: seq<byte>, mids: seq<seq<byte>>)
    ensures prefix + HeldBytes(None) + ([ESC, BRACKET] + FREEZE[1..]) + Join(mids) + [FINAL_M]
            == prefix + SgrBytes(Merged(None, mids))
  {
    hide Join;
  }

  method AppendChar(b2u: Table, toUtf8: bool, hi: byte, lo: byte, out: ByteBuf) returns (ok: bool)
    requires out.Valid()
    modifies out, out.data
    ensures out.Valid() && (out.data == old(out.data) || fresh(out.data))
    ensures !ok ==> out.allocFailed
    ensures ok ==> out.allocFailed == old(out.allocFailed)
    ensures ok ==> out.Contents() == old(out.Contents()) + CharBytes(b2u, toUtf8, hi, lo)
  {
    if toUtf8 {
      var ctx := new Utf8Ctx();
      var ulen := ctx.FromUcs(b2u(hi * 256 + lo));
      ok := out.Append(ctx.buf[..ulen]);
    } else {
      ok := out.Append([hi, lo]);
    }
  }

  /**
   * The converter's step over a character: `j` is the position of its trail byte (past the end when
   * the buffer ends before it), and `more` what has then been written.
   */
  method ConvertChar(b2u: Table, buf: seq<byte>, i: nat, toUtf8: bool, prevWasSgr: bool, out: ByteBuf,
                     ghost base: seq<byte>, ghost written: seq<byte>, ghost held: Option<seq<byte>>)
    returns (j: nat, ok: bool, ghost more: seq<byte>)
    requires i < |buf| && buf[i] >= 0x80 && out.Valid()
    requires prevWasSgr == held.Some? && out.Contents() == base + written + HeldBytes(held)
    requires OnTrack(b2u, toUtf8, buf, written, held, buf[i..])
    modifies out, out.data
    ensures out.Valid() && (out.data == old(out.data) || fresh(out.data)) && j > i
    ensures j >= |buf| ==> Lex(buf).None?
    ensures j < |buf| && !ok ==> out.allocFailed
    ensures j < |buf| && ok ==>
              && out.allocFailed == old(out.allocFailed)
              && out.Contents() == base + more && OnTrack(b2u, toUtf8, buf, more, None, buf[j + 1..])
  {
    hide Lex, MidsLen, Mids, OnTrack, HeldBytes, CharBytes, Merged, SgrBytes, ByteBuf.Contents;
    ghost var left := buf[i..];
    var hi := buf[i];
    var count: nat;
    more := [];
    assert left[1..] == buf[i + 1..];
    j, count := SkipMids(buf, i + 1);
    LexHigh(left);
    if j >= |buf| {
      TrackNone(b2u, toUtf8, buf, written, held, left);
      return j, true, more;
    }
    var lo := buf[j];
    ghost var t := Big5(hi, Mids(left[1..]), lo);
    ghost var rest := buf[j + 1..];
    assert left[j + 1 - i..] == rest;
    if count > 0 {
      TrackSplit(b2u, toUtf8, buf, written, held, left, t, rest);
      ok := AppendMerged(buf, i + 1, j, prevWasSgr, out, base + written, held);
      if !ok { return; }
      more := written + SgrBytes(Merged(held, t.mids));
    } else {
      TrackWhole(b2u, toUtf8, buf, written, held, left, t, rest);
      more := written + HeldBytes(held);
    }
    ok := AppendChar(b2u, toUtf8, hi, lo, out);
    more := more + CharBytes(b2u, toUtf8, hi, lo);
  }

  /**
   * Converts a buffer, appending to `out`. It fails only for want of memory, or on a buffer that ends
   * inside a character (which the scan refuses).
   */
  method ConvertBig5Sgr66(b2u: Table, buf: seq<byte>, toUtf8: bool, out: ByteBuf) returns (r: int)
    requires out.Valid() && !out.allocFailed
    modifies out, out.data
    ensures out.Valid() && (r == 0 || r == -1)
    ensures r == 0 ==>
              Lex(buf).Some? && out.Contents() == old(out.Contents()) + Converted(b2u, toUtf8, buf)
    ensures r == -1 ==> Lex(buf).None? || out.allocFailed
  {
    hide Lex, SgrLen, SgrParams, Converted, OnTrack, HeldBytes, SgrBytes, IsSplit, EmitToken, ByteBuf.Contents;
    var prevWasSgr := false;
    var i := 0;
    var ok: bool;
    ghost var base := out.Contents();
    ghost var written: seq<byte>, held: Option<seq<byte>> := [], None;
    TrackEnds(b2u, toUtf8, buf, written, held);
    HeldNone();
    assert buf[0..] == buf;
    while i < |buf|
      invariant i <= |buf|
      invariant out.Valid() && (out.data == old(out.data) || fresh(out.data)) && !out.allocFailed
      invariant prevWasSgr == held.Some?
      invariant out.Contents() == base + written + HeldBytes(held)
      invariant OnTrack(b2u, toUtf8, buf, written, held, buf[i..])
    {
      ghost var left := buf[i..];
      var n := ParseSgr(buf, i);
      if n > 0 {
        ok := out.Append(buf[i..i + n]);
        if !ok { return -1; }
        LexSgr(left);
        assert left[..n] == buf[i..i + n] && left[n..] == buf[i + n..];
        TrackSgr(b2u, toUtf8, buf, written, held, left, SgrParams(left), left[n..]);
        written, held := written + HeldBytes(held), Some(SgrParams(left));
        HeldSome(held.value);
        prevWasSgr, i := true, i + n;
        continue;
      }
      if buf[i] < 0x80 {
        ok := out.Append(buf[i..i + 1]);
        if !ok { return -1; }
        LexPlain(left);
        assert left[..1] == buf[i..i + 1] && left[1..] == buf[i + 1..];
        TrackPlain(b2u, toUtf8, buf, written, held, left, left[0], left[1..]);
        written, held := written + HeldBytes(held) + [left[0]], None;
        HeldNone();
        prevWasSgr, i := false, i + 1;
        continue;
      }
      var j: nat;
      j, ok, written := ConvertChar(b2u, buf, i, toUtf8, prevWasSgr, out, base, written, held);
      if j >= |buf| || !ok {
        return -1;
      }
      held := None;
      HeldNone();
      prevWasSgr, i := false, j + 1;
    }
    assert buf[|buf|..] == [];
    TrackEnds(b2u, toUtf8, buf, written, held);
    return 0;
  }

  lemma HeldNone()
    ensures HeldBytes(None) == []
  {
  }

  lemma HeldSome(p: seq<byte>)
    ensures HeldBytes(Some(p)) == SgrBytes(p) == [ESC, BRACKET] + p + [FINAL_M]
  {
  }

  lemma TrackNone(b2u: Table, utf8: bool, buf: seq<byte>, written: seq<byte>, held: Option<seq<byte>>, left: seq<byte>)
    requires OnTrack(b2u, utf8, buf, written, held, left) && Lex(left).None?
    ensures Lex(buf).None?
  {
  }

  lemma {:induction false} HighsAreHigh(s: seq<byte>)
    requires Lex(s).Some?
    ensures forall t :: t in Lex(s).value && t.Big5? ==> t.hi >= 0x80
  {
    if s != [] {
      HighsAreHigh(s[First(s).value.1..]);
    }
  }

  /** The conversion written out: without a sequence before a character, those inside it follow the parameter 66. */
  lemma AloneAsWritten(b2u: Table, q: seq<byte>, hi: byte, lo: byte)
    requires AllParams(q) && hi >= 0x80
    ensures var s := [hi, 0x1B, 0x5B] + q + [0x6D, lo];
            && Lex(s) == Some([Big5(hi, [q], lo)])
            && Converted(b2u, false, s) == [0x1B, 0x5B, 0x36, 0x36, 0x3B] + q + [0x6D, hi, lo]
  {
    hide Lex, Convert, Emit, Join, EmitToken;
    var t, c := Big5(hi, [q], lo), Big5(hi, [], lo);
    LexSplitPair(hi, q, lo);
    ConvertPairs(q, t);
    EmitTwoTokens(b2u, Sgr(Merged(None, [q])), c);
    MergedBytes(q, q);
  }

  /** With a sequence before it, 66 and those inside follow its parameters. */
  lemma MergedAsWritten(b2u: Table, p: seq<byte>, q: seq<byte>, hi: byte, lo: byte)
    requires AllParams(p) && AllParams(q) && hi >= 0x80
    ensures var s := [0x1B, 0x5B] + p + [0x6D, hi, 0x1B, 0x5B] + q + [0x6D, lo];
            && Lex(s) == Some([Sgr(p), Big5(hi, [q], lo)])
            && Converted(b2u, false, s) == [0x1B, 0x5B] + p + [0x3B, 0x36, 0x36, 0x3B] + q + [0x6D, hi, lo]
  {
    hide Lex, Convert, Emit, Join, EmitToken;
    var t, c := Big5(hi, [q], lo), Big5(hi, [], lo);
    var s := [hi, 0x1B, 0x5B] + q + [0x6D, lo];
    LexSplitPair(hi, q, lo);
    LexSgrFront(p, s);
    assert [0x1B, 0x5B] + p + [0x6D, hi, 0x1B, 0x5B] + q + [0x6D, lo] == SgrBytes(p) + s;
    assert [Sgr(p)] + [t] == [Sgr(p), t];
    ConvertPairs(p, t);
    EmitTwoTokens(b2u, Sgr(Merged(Some(p), [q])), c);
    MergedBytes(p, q);
  }

  lemma MergedBytes(p: seq<byte>, q: seq<byte>)
    ensures SgrBytes(Merged(None, [q])) == [0x1B, 0x5B, 0x36, 0x36, 0x3B] + q + [0x6D]
    ensures SgrBytes(Merged(Some(p), [q])) == [0x1B, 0x5B] + p + [0x3B, 0x36, 0x36, 0x3B] + q + [0x6D]
  {
    assert Join([q]) == [0x3B] + q;
  }

  lemma LexSplitPair(hi: byte, q: seq<byte>, lo: byte)
    requires AllParams(q) && hi >= 0x80
    ensures Lex([hi, 0x1B, 0x5B] + q + [0x6D, lo]) == Some([Big5(hi, [q], lo)])
  {
    hide Mids, MidsLen, AllParams;
    var s := [hi, 0x1B, 0x5B] + q + [0x6D, lo];
    OneMid(q);
    assert s[1..] == MidsBytes([q]) + [lo];
    MidsOf([q], [lo]);
    LexHigh(s);
    assert |MidsBytes([q])| == |q| + 3 && s[|q| + 4] == lo && s[|q| + 5..] == [];
    LexNothing();
    assert [Big5(hi, [q], lo)] + [] == [Big5(hi, [q], lo)];
  }

  lemma OneMid(q: seq<byte>)
    requires AllParams(q)
    ensures MidsBytes([q]) == [0x1B, 0x5B] + q + [0x6D] && AllParamStrings([q])
  {
    assert [q][1..] == [];
  }

  lemma LexSgrFront(p: seq<byte>, s: seq<byte>)
    requires AllParams(p)
    ensures Lex(SgrBytes(p) + s) == Cons(Sgr(p), Lex(s))
  {
    hide Lex, AllParams, SgrLen, Cons;
    SgrLenOf(p, s);
    LexSgr(SgrBytes(p) + s);
    assert (SgrBytes(p) + s)[|p| + 3..] == s && SgrParams(SgrBytes(p) + s) == p;
  }

  lemma ConvertPairs(p: seq<byte>, t: Token)
    requires IsSplit(t)
    ensures Convert([t]) == [Sgr(Merged(None, t.mids)), t.(mids := [])]
    ensures Convert([Sgr(p), t]) == [Sgr(Merged(Some(p), t.mids)), t.(mids := [])]
  {
    hide Join;
    assert [t][1..] == [] && [Sgr(p), t][2..] == [];
  }

  lemma EmitTwoTokens(b2u: Table, a: Token, c: Token)
    requires a.Sgr? && c.Big5?
    ensures Emit(b2u, false, [a, c]) == SgrBytes(a.params) + [c.hi, c.lo]
  {
    hide SgrBytes;
    EmitCons(b2u, false, a, [c]);
    EmitCons(b2u, false, c, []);
    assert [a] + [c] == [a, c] && [c] + [] == [c] && [c.hi, c.lo] + [] == [c.hi, c.lo];
  }

  /** The UTF-8 of a character written out, when its entry takes three bytes. */
  lemma PairAsWritten(b2u: Table, hi: byte, lo: byte)
    requires hi >= 0x80 && lo != 0x1B
    requires 0x800 <= b2u(hi * 256 + lo) <= 0xFFFF && !(0xD800 <= b2u(hi * 256 + lo) <= 0xDFFF)
    ensures var u := b2u(hi * 256 + lo);
            && Lex([hi, lo]) == Some([Big5(hi, [], lo)])
            && Converted(b2u, true, [hi, lo]) == [0xE0 + u / 0x1000, 0x80 + u / 0x40 % 0x40, 0x80 + u % 0x40]
  {
    hide Lex;
    var t := Big5(hi, [], lo);
    LexHigh([hi, lo]);
    assert [hi, lo][1..] == [lo] && [hi, lo][2..] == [];
    assert MidsLen([lo]) == 0 && Mids([lo]) == [];
    LexNothing();
    assert [t] + [] == [t] && [t][1..] == [];
    assert Convert([t]) == [t];
    EmitCons(b2u, true, t, []);
    var e := CharBytes(b2u, true, hi, lo);
    assert e + [] == e;
  }

  lemma LexNothing()
    ensures Lex([]) == Some([])
  {
  }
}
