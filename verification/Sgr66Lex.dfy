/**
 * The lexical structure that upgrade/sgr66.c reads into a Big5 buffer: SGR sequences (ECMA-48,
 * section 8.3.117), plain bytes, and characters whose two bytes may have sequences between them.
 */
module Sgr66Lex {
  import opened Bytes
  import opened Prelude

  const ESC: byte := 0x1B
  const BRACKET: byte := 0x5B
  const SEMICOLON: byte := 0x3B
  const FINAL_M: byte := 0x6D
  predicate IsParam(c: byte) {
    0x30 <= c <= 0x39 || c == SEMICOLON
  }

  predicate AllParams(s: seq<byte>) {
    forall i :: 0 <= i < |s| ==> IsParam(s[i])
  }

  /** How many parameter bytes `s` starts with. */
  function ParamRun(s: seq<byte>): (n: nat)
    ensures n <= |s|
  {
    if s == [] || !IsParam(s[0]) then 0 else 1 + ParamRun(s[1..])
  }

  lemma {:induction false} ParamRunShape(s: seq<byte>)
    ensures AllParams(s[..ParamRun(s)])
    ensures ParamRun(s) < |s| ==> !IsParam(s[ParamRun(s)])
  {
    if s != [] && IsParam(s[0]) {
      ParamRunShape(s[1..]);
      assert forall i :: 1 <= i < ParamRun(s) ==> s[i] == s[1..][..ParamRun(s) - 1][i - 1];
    }
  }

  /** The bytes of one SGR sequence. */
  function SgrBytes(params: seq<byte>): (s: seq<byte>)
    ensures |s| == |params| + 3
  {
    [ESC, BRACKET] + params + [FINAL_M]
  }

  /** Length of the SGR sequence that `s` starts with, 0 when it starts with none. */
  function SgrLen(s: seq<byte>): (n: nat)
    ensures n <= |s| && (n == 0 || n >= 3)
  {
    if |s| <= 2 || s[0] != ESC || s[1] != BRACKET then 0
    else
      var k := 2 + ParamRun(s[2..]);
      if k < |s| && s[k] == FINAL_M then k + 1 else 0
  }

  /** The parameters of the sequence that `s` starts with. */
  function SgrParams(s: seq<byte>): seq<byte>
    requires SgrLen(s) > 0
  {
    s[2..SgrLen(s) - 1]
  }

  lemma SgrLenShape(s: seq<byte>)
    requires SgrLen(s) > 0
    ensures AllParams(SgrParams(s)) && s == SgrBytes(SgrParams(s)) + s[SgrLen(s)..]
  {
    var n := SgrLen(s);
    ParamRunShape(s[2..]);
    assert s[2..][..n - 3] == s[2..n - 1];
  }

  lemma {:induction false} ParamRunOf(params: seq<byte>, rest: seq<byte>)
    requires AllParams(params) && (rest == [] || !IsParam(rest[0]))
    ensures ParamRun(params + rest) == |params|
  {
    if params == [] {
      assert params + rest == rest;
    } else {
      assert (params + rest)[1..] == params[1..] + rest;
      ParamRunOf(params[1..], rest);
    }
  }

  /** A sequence is recognised whatever follows it. */
  lemma SgrLenOf(params: seq<byte>, rest: seq<byte>)
    requires AllParams(params)
    ensures SgrLen(SgrBytes(params) + rest) == |params| + 3
  {
    var s := SgrBytes(params) + rest;
    assert s[2..] == params + ([FINAL_M] + rest);
    ParamRunOf(params, [FINAL_M] + rest);
  }

  /** What a sequence is: ESC, a bracket, digits and semicolons, and "m". */
  lemma SgrLenMeans(s: seq<byte>, n: nat)
    requires n > 0
    ensures SgrLen(s) == n <==>
            && 3 <= n <= |s| && s[0] == 0x1B && s[1] == 0x5B && s[n - 1] == 0x6D
            && forall i :: 2 <= i < n - 1 ==> 0x30 <= s[i] <= 0x39 || s[i] == 0x3B
  {
    if SgrLen(s) == n {
      SgrLenShape(s);
      assert forall i :: 2 <= i < n - 1 ==> s[i] == SgrParams(s)[i - 2];
    }
    if && 3 <= n <= |s| && s[0] == 0x1B && s[1] == 0x5B && s[n - 1] == 0x6D
       && forall i :: 2 <= i < n - 1 ==> 0x30 <= s[i] <= 0x39 || s[i] == 0x3B
    {
      SgrLenOf(s[2..n - 1], s[n..]);
      assert s == SgrBytes(s[2..n - 1]) + s[n..];
    }
  }

  /**
   * Two strings that agree up to `k`, where each ends or goes on with an escape or a high byte, start with the
   * same sequence.
   */
  predicate Agree(s: seq<byte>, t: seq<byte>, k: nat) {
    k <= |s| && k <= |t| && s[..k] == t[..k] && Breaks(s, k) && Breaks(t, k)
  }

  predicate Breaks(s: seq<byte>, k: nat) {
    k < |s| ==> s[k] == ESC || s[k] >= 0x80
  }

  lemma AgreeSgr(s: seq<byte>, t: seq<byte>, k: nat)
    requires Agree(s, t, k) && k > 0
    ensures SgrLen(s) > 0 ==> SgrLen(t) == SgrLen(s)
  {
    var n := SgrLen(s);
    if n > 0 {
      var p := SgrParams(s);
      SgrLenShape(s);
      assert k >= n by {
        assert forall i :: 0 < i < n ==> s[i] == SgrBytes(p)[i];
      }
      assert t[..n] == t[..k][..n] == s[..n] == SgrBytes(p);
      assert t == SgrBytes(p) + t[n..];
      SgrLenOf(p, t[n..]);
    }
  }

  datatype Token =
    | Sgr(params: seq<byte>)
    | Plain(b: byte)
    | Big5(hi: byte, mids: seq<seq<byte>>, lo: byte)

  /** How long the run of SGR sequences at the front of `s` is. */
  function MidsLen(s: seq<byte>): (n: nat)
    ensures n <= |s|
  {
    var n := SgrLen(s);
    if n == 0 then 0 else n + MidsLen(s[n..])
  }

  /** Their parameter strings. */
  function Mids(s: seq<byte>): seq<seq<byte>> {
    var n := SgrLen(s);
    if n == 0 then [] else [SgrParams(s)] + Mids(s[n..])
  }

  function MidsBytes(mids: seq<seq<byte>>): seq<byte> {
    if mids == [] then [] else SgrBytes(mids[0]) + MidsBytes(mids[1..])
  }

  predicate AllParamStrings(mids: seq<seq<byte>>) {
    forall i :: 0 <= i < |mids| ==> AllParams(mids[i])
  }

  lemma {:induction false} MidsAreParams(s: seq<byte>)
    ensures AllParamStrings(Mids(s))
  {
    if SgrLen(s) > 0 {
      SgrLenShape(s);
      MidsAreParams(s[SgrLen(s)..]);
    }
  }

  lemma {:induction false} MidsEnd(s: seq<byte>)
    ensures SgrLen(s[MidsLen(s)..]) == 0
  {
    var n := SgrLen(s);
    if n == 0 {
      assert s[0..] == s;
    } else {
      MidsEnd(s[n..]);
      assert s[n..][MidsLen(s[n..])..] == s[MidsLen(s)..];
    }
  }

  lemma {:induction false} MidsShape(s: seq<byte>)
    ensures MidsBytes(Mids(s)) + s[MidsLen(s)..] == s
  {
    hide SgrBytes, SgrLen, SgrParams;
    var n := SgrLen(s);
    if n > 0 {
      SgrLenShape(s);
      MidsShape(s[n..]);
      assert s[n..][MidsLen(s[n..])..] == s[MidsLen(s)..];
      Associate(SgrBytes(SgrParams(s)), MidsBytes(Mids(s[n..])), s[MidsLen(s)..]);
    }
  }

  /** Parameter strings are read back from the bytes of their sequences, whatever comes after but another sequence. */
  lemma {:induction false} MidsOf(mids: seq<seq<byte>>, rest: seq<byte>)
    requires AllParamStrings(mids) && SgrLen(rest) == 0
    ensures Mids(MidsBytes(mids) + rest) == mids && MidsLen(MidsBytes(mids) + rest) == |MidsBytes(mids)|
  {
    if mids == [] {
      assert MidsBytes(mids) + rest == rest;
    } else {
      var tail := MidsBytes(mids[1..]) + rest;
      assert MidsBytes(mids) + rest == SgrBytes(mids[0]) + tail;
      MidsStep(mids[0], tail);
      MidsOf(mids[1..], rest);
    }
  }

  lemma MidsStep(p: seq<byte>, tail: seq<byte>)
    requires AllParams(p)
    ensures Mids(SgrBytes(p) + tail) == [p] + Mids(tail)
    ensures MidsLen(SgrBytes(p) + tail) == |p| + 3 + MidsLen(tail)
  {
    var s := SgrBytes(p) + tail;
    SgrLenOf(p, tail);
    assert s[|p| + 3..] == tail && SgrParams(s) == p;
  }

  /** The token that a nonempty buffer starts with and its length; `None` when the buffer ends inside a character. */
  function First(s: seq<byte>): (r: Option<(Token, nat)>)
    requires s != []
    ensures r.Some? ==> 0 < r.value.1 <= |s|
  {
    var n := SgrLen(s);
    if n > 0 then Some((Sgr(SgrParams(s)), n))
    else if s[0] < 0x80 then Some((Plain(s[0]), 1))
    else
      var m := MidsLen(s[1..]);
      if 1 + m >= |s| then None else Some((Big5(s[0], Mids(s[1..]), s[1 + m]), 2 + m))
  }

  /** The converter's reading of a buffer. */
  function Lex(s: seq<byte>): Option<seq<Token>> {
    if s == [] then Some([])
    else
      match First(s)
      case None => None
      case Some((t, n)) => Cons(t, Lex(s[n..]))
  }

  function Cons(t: Token, rest: Option<seq<Token>>): Option<seq<Token>> {
    match rest
    case None => None
    case Some(ts) => Some([t] + ts)
  }

  function TokenBytes(t: Token): seq<byte> {
    match t
    case Sgr(p) => SgrBytes(p)
    case Plain(b) => [b]
    case Big5(hi, mids, lo) => [hi] + MidsBytes(mids) + [lo]
  }

  function TokensBytes(ts: seq<Token>): seq<byte> {
    if ts == [] then [] else TokenBytes(ts[0]) + TokensBytes(ts[1..])
  }

  lemma SplitAtTrail(s: seq<byte>, mids: seq<byte>, m: nat)
    requires 1 + m < |s| && mids + s[1..][m..] == s[1..]
    ensures s == [s[0]] + mids + [s[1 + m]] + s[2 + m..]
  {
    var t := s[1..];
    assert s == [s[0]] + t && t[m..] == [t[m]] + t[m + 1..] && t[m + 1..] == s[2 + m..];
  }

  lemma FirstShape(s: seq<byte>)
    requires s != [] && First(s).Some?
    ensures s == TokenBytes(First(s).value.0) + s[First(s).value.1..]
  {
    if SgrLen(s) > 0 {
      SgrLenShape(s);
    } else if s[0] >= 0x80 {
      MidsShape(s[1..]);
      SplitAtTrail(s, MidsBytes(Mids(s[1..])), MidsLen(s[1..]));
    }
  }

  lemma {:induction false} LexKeepsBytes(s: seq<byte>)
    requires Lex(s).Some?
    ensures TokensBytes(Lex(s).value) == s
  {
    if s != [] {
      FirstShape(s);
      LexKeepsBytes(s[First(s).value.1..]);
    }
  }
}
