/**
 * The UTF-8 output of the migration of upgrade/sgr66.c, drawn by the same terminal built for UTF-8
 * (mbbsd/pfterm.c): the cells and attributes are those of the original Big5 text on the Big5 terminal.
 */
module Utf8Rendering {
  import opened Bytes
  import opened Prelude
  import opened Utf8Spec
  import opened Utf8Decoder
  import opened Sgr66Lex
  import opened Sgr66
  import opened Terminal
  import opened Sgr66Rendering

  /** The terminal with a UTF-8 decoder in place of the lead byte; `first` is the attribute when a character began. */
  datatype UTerm<A> = UTerm(t: Term<A>, pending: seq<byte>, first: A)

  datatype UEvent<A> =
    | Same(e: Event<A>)
    | Narrow(ch: int, attr: A)
    | WideChar(ch: int, left: A, right: A)

  /** How many columns a code point takes. */
  type Width = int -> int

  /** What stands on the screen for a code point that the screen's cells do not hold. */
  function Shown(ch: int, otherwise: int): int {
    if ch < 0xFFFE then ch else otherwise
  }

  /** A complete character. */
  function DrawChar<A>(width: Width, u: UTerm<A>, ch: int): (UTerm<A>, seq<UEvent<A>>) {
    if width(ch) <= 0 then (u, [])
    else (u.(t := u.t.(half := None)),
          [if width(ch) == 1 then Narrow(Shown(ch, 0x3F), Latched(u.t, u.t.attr))
           else WideChar(Shown(ch, 0xFFFD), Latched(u.t, u.first), u.t.attr)])
  }

  /** A byte into the decoder. */
  function Decode<A>(width: Width, u: UTerm<A>, b: byte): (UTerm<A>, seq<UEvent<A>>) {
    match Feed(u.pending, b)
    case Ready(c) => DrawChar(width, u.(pending := []), CodePoint(c))
    case Partial(q) => (u.(pending := q), [])
    case Failed => (u.(pending := [], t := u.t.(half := None)), [Same(Broken(Latched(u.t, u.t.attr)))])
  }

  /** A byte of a character: one that breaks a character is tried again as the start of the next. */
  function Multibyte<A>(width: Width, u: UTerm<A>, b: byte): (UTerm<A>, seq<UEvent<A>>) {
    var r := Decode(width, if u.pending == [] then u.(first := u.t.attr) else u, b);
    if u.pending != [] && Feed(u.pending, b).Failed? then
      var again := Decode(width, r.0.(first := u.t.attr), b);
      (again.0, r.1 + again.1)
    else r
  }

  function Lift<A>(u: UTerm<A>, r: (Term<A>, seq<Event<A>>)): (UTerm<A>, seq<UEvent<A>>) {
    (u.(t := r.0), seq(|r.1|, i requires 0 <= i < |r.1| => Same(r.1[i])))
  }

  /** Whether a byte ends a command that drops the bytes of a character begun. */
  predicate DropsPending<A>(m: Attrs<A>, t: Term<A>, b: byte) {
    var cmd := t.cmd + [b];
    && t.cmd != [] && b != 0 && b != 0xFF && !GoesOn(cmd) && !IsSgrCmd(cmd)
    && !(IsOsc(cmd) && b in {CR, LF}) && !m.other(t.attr, cmd).keepsLead
  }

  /** A byte outside characters: it goes to the terminal as it is, and may break off a character begun. */
  function Outside<A>(m: Attrs<A>, u: UTerm<A>, b: byte): (UTerm<A>, seq<UEvent<A>>) {
    if u.pending != [] && DropsPending(m, u.t, b) then
      var half := if m.other(u.t.attr, u.t.cmd + [b]).keepsHalf then u.t.half else None;
      var r := Lift(u, Step(m, u.t.(half := None), b));
      (r.0.(pending := []), [Same(Broken(Latched(u.t.(half := half), u.t.attr)))] + r.1)
    else Lift(u, Step(m, u.t, b))
  }

  function UStep<A>(m: Attrs<A>, width: Width, u: UTerm<A>, b: byte): (UTerm<A>, seq<UEvent<A>>) {
    if b == 0 || b == 0xFF || u.t.cmd != [] || b == ESC then Outside(m, u, b)
    else if b < 0x20 || b == 0x7F then
      (u.(t := u.t.(half := None), pending := []),
       (if u.pending != [] then [Same(Broken(u.t.attr))] else []) + [Same(Control(b, u.t.attr))])
    else if u.pending == [] && b < 0x80 then Lift(u, Step(m, u.t, b))
    else Multibyte(width, u, b)
  }

  function URun<A>(m: Attrs<A>, width: Width, u: UTerm<A>, s: seq<byte>): (UTerm<A>, seq<UEvent<A>>)
    decreases |s|
  {
    if s == [] then (u, [])
    else
      var (u1, e1) := UStep(m, width, u, s[0]);
      var (u2, e2) := URun(m, width, u1, s[1..]);
      (u2, e1 + e2)
  }

  lemma {:induction false} URunConcat<A>(m: Attrs<A>, width: Width, u: UTerm<A>, a: seq<byte>, b: seq<byte>)
    ensures URun(m, width, u, a + b).0 == URun(m, width, URun(m, width, u, a).0, b).0
    ensures URun(m, width, u, a + b).1 == URun(m, width, u, a).1 + URun(m, width, URun(m, width, u, a).0, b).1
    decreases |a|
  {
    hide UStep;
    if a == [] {
      assert a + b == b;
    } else {
      assert (a + b)[1..] == a[1..] + b;
      URunConcat(m, width, UStep(m, width, u, a[0]).0, a[1..], b);
    }
  }

  /** What the UTF-8 terminal shows for what the Big5 terminal shows: the same, a character by its table entry. */
  function InUtf8<A>(b2u: Table, e: Event<A>): UEvent<A> {
    if e.Wide? then WideChar(Shown(b2u(e.hi * 256 + e.lo), 0xFFFD), e.left, e.right) else Same(e)
  }

  /** A character is shown by its table entry. */
  lemma CharShown<A>(b2u: Table, hi: byte, lo: byte, left: A, right: A)
    requires 0x80 <= b2u(hi * 256 + lo) < 0xFFFE
    ensures InUtf8(b2u, Wide(hi, lo, left, right)) == WideChar(b2u(hi * 256 + lo), left, right)
  {
  }

  function AllInUtf8<A>(b2u: Table, es: seq<Event<A>>): seq<UEvent<A>> {
    seq(|es|, i requires 0 <= i < |es| => InUtf8(b2u, es[i]))
  }

  lemma InUtf8Concat<A>(b2u: Table, a: seq<Event<A>>, b: seq<Event<A>>)
    ensures AllInUtf8(b2u, a + b) == AllInUtf8(b2u, a) + AllInUtf8(b2u, b)
  {
  }

  lemma UnlikeInUtf8<A>(b2u: Table, a: seq<Event<A>>, b: seq<Event<A>>)
    requires Unlike(a, b)
    ensures AllInUtf8(b2u, a) != AllInUtf8(b2u, b)
  {
    var i :| 0 <= i < |a| && i < |b| && a[i] != b[i] && !(a[i].Wide? && b[i].Wide?);
    assert AllInUtf8(b2u, a)[i] == InUtf8(b2u, a[i]) && AllInUtf8(b2u, b)[i] == InUtf8(b2u, b[i]);
  }

  /** The two terminals did the same: the first from `u` over `s`, the second from `u.t` over `s'`. */
  ghost predicate Alike<A>(m: Attrs<A>, width: Width, b2u: Table, u: UTerm<A>, s: seq<byte>, s': seq<byte>) {
    var r, r' := URun(m, width, u, s), Run(m, u.t, s');
    r.0.t == r'.0 && r.0.pending == [] && r.0.t.lead.None? && r.1 == AllInUtf8(b2u, r'.1)
  }

  lemma AlikeNone<A>(m: Attrs<A>, width: Width, b2u: Table, u: UTerm<A>)
    requires u.pending == [] && u.t.lead.None?
    ensures Alike(m, width, b2u, u, [], [])
  {
  }

  lemma AlikeConcat<A>(m: Attrs<A>, width: Width, b2u: Table, u: UTerm<A>, a: seq<byte>, a': seq<byte>,
                       b: seq<byte>, b': seq<byte>)
    requires Alike(m, width, b2u, u, a, a') && Alike(m, width, b2u, URun(m, width, u, a).0, b, b')
    ensures Alike(m, width, b2u, u, a + b, a' + b')
  {
    hide Run, URun, AllInUtf8;
    URunConcat(m, width, u, a, b);
    RunConcat(m, u.t, a', b');
    InUtf8Concat(b2u, Run(m, u.t, a').1, Run(m, Run(m, u.t, a').0, b').1);
  }

  predicate IsAscii(s: seq<byte>) {
    forall i :: 0 <= i < |s| ==> s[i] < 0x80
  }

  /** Between characters the two terminals take a byte below 0x80 in the same way. */
  lemma AsciiByte<A>(m: Attrs<A>, width: Width, b2u: Table, u: UTerm<A>, b: byte)
    requires u.pending == [] && u.t.lead.None? && b < 0x80
    ensures Alike(m, width, b2u, u, [b], [b])
  {
    hide Exec;
    RunOne(m, u.t, b);
    ExecDrawsNothing(m, u.t.(cmd := []), u.t.cmd + [b]);
    URunOne(m, width, u, b);
    assert UStep(m, width, u, b).1 == AllInUtf8(b2u, Step(m, u.t, b).1);
  }

  lemma URunOne<A>(m: Attrs<A>, width: Width, u: UTerm<A>, b: byte)
    ensures URun(m, width, u, [b]) == UStep(m, width, u, b)
  {
    assert UStep(m, width, u, b).1 + [] == UStep(m, width, u, b).1;
  }

  lemma {:induction false} SgrKeeps<A>(m: Attrs<A>, t: Term<A>, p: seq<byte>)
    ensures var t' := ApplySgr(m, t, p); t'.lead == t.lead && t'.cmd == t.cmd
    decreases |p|
  {
    var k := DigitRun(p);
    if k < |p| {
      SgrKeeps(m, ApplyParam(m, t, Param(p[..k])), p[k + 1..]);
    }
  }

  lemma ExecDrawsNothing<A>(m: Attrs<A>, t: Term<A>, cmd: seq<byte>)
    ensures var (t', es) := Exec(m, t, cmd);
            (t.lead.None? ==> t'.lead.None?) && t'.cmd == t.cmd && forall i :: 0 <= i < |es| ==> !es[i].Wide?
  {
    if IsSgrCmd(cmd) {
      SgrKeeps(m, t, CmdParams(cmd));
    }
  }

  lemma {:induction false} AsciiRun<A>(m: Attrs<A>, width: Width, b2u: Table, u: UTerm<A>, s: seq<byte>)
    requires u.pending == [] && u.t.lead.None? && IsAscii(s)
    ensures Alike(m, width, b2u, u, s, s)
    decreases |s|
  {
    if s == [] {
      AlikeNone(m, width, b2u, u);
    } else {
      AsciiByte(m, width, b2u, u, s[0]);
      var u' := URun(m, width, u, [s[0]]).0;
      assert u'.pending == [] && u'.t.lead.None?;
      AsciiRun(m, width, b2u, u', s[1..]);
      AlikeConcat(m, width, b2u, u, [s[0]], [s[0]], s[1..], s[1..]);
      assert s == [s[0]] + s[1..];
    }
  }

  /** The rest of a character's encoding: it is drawn at its last byte, the left half as when it began. */
  lemma {:induction false} RunEncoding<A>(m: Attrs<A>, width: Width, u: UTerm<A>, ch: scalar, k: nat)
    requires k < |Encode(ch)| && u.pending == Encode(ch)[..k] && u.t.cmd == [] && ch >= 0x80 && width(ch) >= 2
    requires k > 0 ==> u.first == u.t.attr
    ensures URun(m, width, u, Encode(ch)[k..]) ==
            (UTerm(u.t.(half := None), [], u.t.attr),
             [WideChar(Shown(ch, 0xFFFD), Latched(u.t, u.t.attr), u.t.attr)])
    decreases |Encode(ch)| - k
  {
    hide Feed, CodePoint;
    var e := Encode(ch);
    FeedEncoding(ch, k);
    assert 0x80 <= e[k] < 0xFF;
    assert e[k..][1..] == e[k + 1..] && e[k..][0] == e[k];
    var r := UStep(m, width, u, e[k]);
    if k + 1 < |e| {
      assert r == (UTerm(u.t, e[..k + 1], u.t.attr), []);
      RunEncoding(m, width, r.0, ch, k + 1);
      assert [] + URun(m, width, r.0, e[k + 1..]).1 == URun(m, width, r.0, e[k + 1..]).1;
    } else {
      assert e[k..] == [e[k]];
      URunOne(m, width, u, e[k]);
    }
  }

  /** A character with a table entry of width 2. */
  predicate HasWideEntry(b2u: Table, width: Width, t: Token) {
    t.Big5? ==>
      var ch := b2u(t.hi * 256 + t.lo);
      Drawable(t.hi, t.lo) && 0x80 <= ch < 0x10000 && !(0xD800 <= ch <= 0xDFFF) && width(ch) >= 2
  }

  predicate AllWide(b2u: Table, width: Width, ts: seq<Token>) {
    forall i :: 0 <= i < |ts| ==> HasWideEntry(b2u, width, ts[i])
  }

  lemma PairAlike<A>(m: Attrs<A>, width: Width, b2u: Table, u: UTerm<A>, t: Token)
    requires u.pending == [] && u.t.lead.None? && u.t.cmd == [] && t.Big5? && HasWideEntry(b2u, width, t)
    ensures Alike(m, width, b2u, u, CharBytes(b2u, true, t.hi, t.lo), [t.hi, t.lo])
    ensures URun(m, width, u, CharBytes(b2u, true, t.hi, t.lo)).0.t.cmd == []
  {
    hide Encode, Run, URun;
    var ch := b2u(t.hi * 256 + t.lo);
    EncodeIsChar(ch);
    assert Encode(ch)[..0] == [] && Encode(ch)[0..] == Encode(ch);
    RunEncoding(m, width, u, ch, 0);
    RunBig5(m, u.t, t.hi, [], t.lo);
    assert [t.hi] + MidsBytes([]) + [t.lo] == [t.hi, t.lo];
    assert AttrAfterMids(m, u.t.attr, []) == u.t.attr;
  }

  /** A sequence or a whole character comes only where no command is being collected. */
  predicate OpenAt(cmd: seq<byte>, t: Token) {
    match t
    case Plain(b) => b < 0x80
    case Sgr(p) => cmd == [] && AllParams(p)
    case Big5(_, mids, _) => cmd == [] && mids == []
  }

  function CmdNext(cmd: seq<byte>, t: Token): seq<byte> {
    if t.Plain? then CmdAfter(cmd, t.b) else []
  }

  predicate Open(cmd: seq<byte>, us: seq<Token>)
    decreases |us|
  {
    us == [] || (OpenAt(cmd, us[0]) && Open(CmdNext(cmd, us[0]), us[1..]))
  }

  lemma PlainCmd<A>(m: Attrs<A>, t: Term<A>, b: byte)
    requires t.lead.None? && b < 0x80
    ensures Run(m, t, [b]).0.cmd == CmdAfter(t.cmd, b)
  {
    hide Exec;
    RunOne(m, t, b);
    ExecDrawsNothing(m, t.(cmd := []), t.cmd + [b]);
  }

  /** A sequence, executed or cut off, leaves no command open. */
  lemma SgrCloses<A>(m: Attrs<A>, t: Term<A>, p: seq<byte>)
    requires t.lead.None? && t.cmd == [] && AllParams(p)
    ensures Run(m, t, SgrBytes(p)).0.cmd == []
  {
    hide ApplySgr, Run, Exec;
    if |p| + 3 <= MAX_CMD {
      RunSgr(m, t, p);
      SgrKeeps(m, t, p);
    } else {
      var head, rest := [ESC, BRACKET] + p[..61], p[61..] + [FINAL_M];
      assert SgrBytes(p) == head + rest;
      CutOff(m, t, p);
      ExecDrawsNothing(m, t, head);
      RunConcat(m, t, head, rest);
      PrintableKeepsCmd(m, Run(m, t, head).0, rest);
    }
  }

  lemma SgrIsAscii(p: seq<byte>)
    requires AllParams(p)
    ensures IsAscii(SgrBytes(p))
  {
  }

  /** The output in UTF-8 is drawn as the output in Big5 is, however long its sequences are. */
  lemma {:induction false} EmitAlike<A>(m: Attrs<A>, width: Width, b2u: Table, u: UTerm<A>, us: seq<Token>)
    requires u.pending == [] && u.t.lead.None? && Open(u.t.cmd, us)
    requires AllWide(b2u, width, us)
    ensures Alike(m, width, b2u, u, Emit(b2u, true, us), Emit(b2u, false, us))
    decreases |us|
  {
    hide Run, URun, HasWideEntry, AllInUtf8;
    if us == [] {
      AlikeNone(m, width, b2u, u);
    } else {
      var a, a' := EmitToken(b2u, true, us[0]), EmitToken(b2u, false, us[0]);
      match us[0] {
        case Plain(b) =>
          AsciiByte(m, width, b2u, u, b);
          PlainCmd(m, u.t, b);
        case Sgr(p) =>
          SgrIsAscii(p);
          AsciiRun(m, width, b2u, u, SgrBytes(p));
          SgrCloses(m, u.t, p);
        case Big5(hi, mids, lo) =>
          PairAlike(m, width, b2u, u, us[0]);
      }
      var u' := URun(m, width, u, a).0;
      EmitAlike(m, width, b2u, u', us[1..]);
      AlikeConcat(m, width, b2u, u, a, a', Emit(b2u, true, us[1..]), Emit(b2u, false, us[1..]));
    }
  }

  /** The converted tokens of a calm text are open, and have the characters of the text. */
  lemma {:induction false} ConvertIsOpen(b2u: Table, width: Width, cmd: seq<byte>, ts: seq<Token>)
    requires Calm(cmd, ts) && AllWide(b2u, width, ts)
    ensures Open(cmd, Convert(ts)) && AllWide(b2u, width, Convert(ts))
    decreases |ts|
  {
    hide NoFreeze, Merged, HasWideEntry, Calm, CmdNext, AllWide;
    if SplitAhead(ts) {
      WideAreDrawable(b2u, width, ts);
      SplitHead(cmd, ts);
      SplitHeadConvert(ts);
      WideSplitHead(b2u, width, ts);
      var (held, tok, rest) := SplitParts(ts);
      ConvertIsOpen(b2u, width, [], rest);
      SplitIsOpen(b2u, width, held, tok, Convert(rest));
    } else if ts != [] {
      CalmHead(cmd, ts);
      WideTail(b2u, width, ts);
      ConvertIsOpen(b2u, width, CmdNext(cmd, ts[0]), ts[1..]);
      OpenCons(b2u, width, cmd, ts[0], Convert(ts[1..]));
      assert Convert(ts) == [ts[0]] + Convert(ts[1..]);
    } else {
      NoneIsWide(b2u, width);
    }
  }

  lemma NoneIsWide(b2u: Table, width: Width)
    ensures AllWide(b2u, width, [])
  {
  }

  lemma WideTail(b2u: Table, width: Width, ts: seq<Token>)
    requires ts != [] && AllWide(b2u, width, ts)
    ensures HasWideEntry(b2u, width, ts[0]) && AllWide(b2u, width, ts[1..])
  {
    hide HasWideEntry;
  }

  lemma WideSplitHead(b2u: Table, width: Width, ts: seq<Token>)
    requires SplitAhead(ts) && AllWide(b2u, width, ts)
    ensures var (held, tok, rest) := SplitParts(ts); HasWideEntry(b2u, width, tok) && AllWide(b2u, width, rest)
  {
    hide HasWideEntry, AllWide;
    WideTail(b2u, width, ts);
    if ts[0].Sgr? {
      WideTail(b2u, width, ts[1..]);
      assert ts[1..][1..] == ts[2..];
    }
  }

  lemma WideAreDrawable(b2u: Table, width: Width, ts: seq<Token>)
    requires AllWide(b2u, width, ts)
    ensures AllDrawable(ts)
  {
    forall i | 0 <= i < |ts| && ts[i].Big5? ensures Drawable(ts[i].hi, ts[i].lo) {
      assert HasWideEntry(b2u, width, ts[i]);
    }
  }

  lemma SplitIsOpen(b2u: Table, width: Width, held: Option<seq<byte>>, tok: Token, us: seq<Token>)
    requires IsSplit(tok) && HasWideEntry(b2u, width, tok) && Open([], us) && AllWide(b2u, width, us)
    requires CalmMids(tok.mids) && (held.Some? ==> AllParams(held.value))
    ensures var vs := [Sgr(Merged(held, tok.mids)), tok.(mids := [])] + us; Open([], vs) && AllWide(b2u, width, vs)
  {
    hide NoFreeze, Merged, HasWideEntry, CmdNext, AllWide, Open;
    var a, c := Sgr(Merged(held, tok.mids)), tok.(mids := []);
    MergedIsParams(held, tok.mids);
    TokensHaveWide(b2u, width, tok, held);
    OpenCons(b2u, width, [], c, us);
    OpenCons(b2u, width, [], a, [c] + us);
    assert [a, c] + us == [a] + ([c] + us);
  }

  lemma CalmHead(cmd: seq<byte>, ts: seq<Token>)
    requires ts != [] && Calm(cmd, ts) && !IsSplit(ts[0])
    ensures OpenAt(cmd, ts[0]) && Calm(CmdNext(cmd, ts[0]), ts[1..])
  {
  }

  lemma TokensHaveWide(b2u: Table, width: Width, tok: Token, held: Option<seq<byte>>)
    requires IsSplit(tok) && HasWideEntry(b2u, width, tok)
    ensures HasWideEntry(b2u, width, tok.(mids := [])) && HasWideEntry(b2u, width, Sgr(Merged(held, tok.mids)))
    ensures CmdNext([], tok.(mids := [])) == [] == CmdNext([], Sgr(Merged(held, tok.mids)))
  {
  }

  lemma OpenCons(b2u: Table, width: Width, cmd: seq<byte>, t: Token, us: seq<Token>)
    requires OpenAt(cmd, t) && Open(CmdNext(cmd, t), us)
    requires HasWideEntry(b2u, width, t) && AllWide(b2u, width, us)
    ensures Open(cmd, [t] + us) && AllWide(b2u, width, [t] + us)
  {
    hide HasWideEntry, CmdNext, OpenAt;
    assert ([t] + us)[1..] == us;
  }

  /**
   * The migration to UTF-8 preserves rendering exactly when the terminal can collect the merged sequences: the UTF-8
   * terminal then shows, for each character, the one of its table entry with the same left and right attributes, and
   * everything else as it was, and is left in the same state. When it cannot, the two show different things.
   */
  lemma DrawnInUtf8Iff<A>(m: Attrs<A>, width: Width, b2u: Table, t: Term<A>, first: A, s: seq<byte>)
    requires Accepts(b2u, s) && Idle(t, []) && Calm([], Lex(s).value)
    requires AllWide(b2u, width, Lex(s).value)
    ensures Alike(m, width, b2u, UTerm(t, [], first), Converted(b2u, true, s), s) <==> MergedFit(Lex(s).value)
  {
    hide Run, URun, Emit, Convert, Calm, Unlike, AllWide, AllInUtf8, MergedFit, Open;
    var ts, u := Lex(s).value, UTerm(t, [], first);
    WideAreDrawable(b2u, width, ts);
    LexKeepsBytes(s);
    ConvertDrawsTheSameIff(m, t, b2u, [], ts);
    ConvertIsOpen(b2u, width, [], ts);
    EmitAlike(m, width, b2u, u, Convert(ts));
    if !MergedFit(ts) {
      UnlikeInUtf8(b2u, Run(m, t, s).1, Run(m, t, Emit(b2u, false, Convert(ts))).1);
    }
  }
}
