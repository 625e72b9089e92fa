/**
 * The migration of upgrade/sgr66.c preserves rendering: the board's terminal draws the converted
 * buffer exactly as it draws the original.
 */
module Sgr66Rendering {
  import opened Bytes
  import opened Prelude
  import opened Sgr66Lex
  import opened Sgr66
  import opened Terminal

  /** A pair that the terminal draws as one character, as every pair of the table is. */
  predicate Drawable(hi: byte, lo: byte) {
    0x81 <= hi <= 0xFE && 0x40 <= lo <= 0xFE && lo != 0x7F
  }

  /** What the collected command is after one more byte that is not part of a character. */
  function CmdAfter(cmd: seq<byte>, b: byte): seq<byte> {
    if b == 0 || b == 0xFF then cmd
    else if cmd != [] then if GoesOn(cmd + [b]) then cmd + [b] else []
    else if b == ESC then [ESC] else []
  }

  /** Plain bytes may amount to an SGR command (after ESC and a digit, or with a NUL inside): one without the parameter 66. */
  predicate CalmCmd(cmd: seq<byte>) {
    IsSgrCmd(cmd) ==> NoFreeze(CmdParams(cmd))
  }

  /**
   * Sequences and characters come only where no escape command or OSC string is being collected (a stray ESC before
   * them would swallow a byte), and nothing uses the parameter 66.
   */
  predicate Calm(cmd: seq<byte>, ts: seq<Token>)
    decreases |ts|
  {
    ts == [] ||
    match ts[0]
    case Plain(b) => b < 0x80 && CalmCmd(cmd + [b]) && Calm(CmdAfter(cmd, b), ts[1..])
    case Sgr(p) => cmd == [] && AllParams(p) && NoFreeze(p) && Calm([], ts[1..])
    case Big5(hi, mids, lo) =>
      cmd == [] && CalmMids(mids) && Calm([], ts[1..])
  }

  predicate AllDrawable(ts: seq<Token>) {
    forall i :: 0 <= i < |ts| ==> ts[i].Big5? ==> Drawable(ts[i].hi, ts[i].lo)
  }

  /** Every character of the table is drawable (leads are 0x81 to 0xFE, trails 0x40 to 0x7E and 0x80 to 0xFE). */
  ghost predicate DrawableTable(b2u: Table) {
    forall hi: byte, lo: byte :: hi >= 0x80 && ValidPair(b2u, hi, lo) ==> Drawable(hi, lo)
  }

  predicate CalmMids(mids: seq<seq<byte>>) {
    forall i :: 0 <= i < |mids| ==> AllParams(mids[i]) && NoFreeze(mids[i])
  }

  predicate MidsShort(mids: seq<seq<byte>>) {
    forall i :: 0 <= i < |mids| ==> |mids[i]| + 3 <= MAX_CMD
  }

  /** The parameters of the sequence just before the token at `i`, if there is one. */
  function HeldAt(ts: seq<Token>, i: nat): Option<seq<byte>>
    requires i < |ts|
  {
    if i > 0 && ts[i - 1].Sgr? then Some(ts[i - 1].params) else None
  }

  /** Every sequence that the conversion merges is short enough for the terminal. */
  predicate MergedFit(ts: seq<Token>) {
    forall i :: 0 <= i < |ts| && IsSplit(ts[i]) ==> |Merged(HeldAt(ts, i), ts[i].mids)| + 3 <= MAX_CMD
  }

  /** The terminal between tokens: nothing latched, no lead byte waiting. */
  predicate Idle<A>(t: Term<A>, cmd: seq<byte>) {
    t.half.None? && t.lead.None? && t.cmd == cmd
  }

  lemma StepPlain<A>(m: Attrs<A>, t: Term<A>, cmd: seq<byte>, b: byte)
    requires Idle(t, cmd) && b < 0x80 && CalmCmd(cmd + [b])
    ensures Idle(Step(m, t, b).0, CmdAfter(cmd, b))
  {
    hide ApplySgr, NoFreeze, AttrAfter;
    if IsSgrCmd(cmd + [b]) {
      NoFreezeOnlyAttr(m, t.(cmd := []), CmdParams(cmd + [b]));
    }
  }

  function AttrAfterMids<A>(m: Attrs<A>, a: A, mids: seq<seq<byte>>): A
    decreases |mids|
  {
    if mids == [] then a else AttrAfterMids(m, AttrAfter(m, a, mids[0]), mids[1..])
  }

  /** The sequences inside a character only change the attribute. */
  lemma {:induction false} RunMids<A>(m: Attrs<A>, t: Term<A>, mids: seq<seq<byte>>)
    requires t.cmd == [] && CalmMids(mids) && forall i :: 0 <= i < |mids| ==> |mids[i]| + 3 <= MAX_CMD
    ensures Run(m, t, MidsBytes(mids)) == (t.(attr := AttrAfterMids(m, t.attr, mids)), [])
    decreases |mids|
  {
    if mids != [] {
      RunSgr(m, t, mids[0]);
      NoFreezeOnlyAttr(m, t, mids[0]);
      var t' := t.(attr := AttrAfter(m, t.attr, mids[0]));
      RunMids(m, t', mids[1..]);
      RunQuiet(m, t, t', SgrBytes(mids[0]), MidsBytes(mids[1..]));
    }
  }

  /** Joined after a parameter list, they act one after the other. */
  lemma {:induction false} ApplyJoin<A>(m: Attrs<A>, t: Term<A>, p: seq<byte>, mids: seq<seq<byte>>)
    requires AllParams(p) && CalmMids(mids)
    ensures var t' := ApplySgr(m, t, p);
            ApplySgr(m, t, p + Join(mids)) == t'.(attr := AttrAfterMids(m, t'.attr, mids))
    decreases |mids|
  {
    if mids == [] {
      assert p + Join(mids) == p;
    } else {
      var q := p + [SEMICOLON] + mids[0];
      assert p + Join(mids) == q + Join(mids[1..]);
      ApplySgrConcat(m, t, p, mids[0]);
      NoFreezeOnlyAttr(m, ApplySgr(m, t, p), mids[0]);
      ApplyJoin(m, t, q, mids[1..]);
    }
  }

  lemma ApplyFreeze<A>(m: Attrs<A>, t: Term<A>)
    ensures ApplySgr(m, t, FREEZE[1..]) == t.(half := Some(t.attr))
  {
    var p := FREEZE[1..];
    assert p == [0x36, 0x36] && p[1..] == [0x36] && p[..2] == p && p[..1] == [0x36];
    assert DigitRun(p[1..]) == 1;
    assert Number([0x36]) == 6;
    assert Number(p) == 66 && Param(p) == 66;
  }

  /** A split character in the original: the left half has the attribute before its sequences, the right half the one after. */
  lemma RunBig5<A>(m: Attrs<A>, t: Term<A>, hi: byte, mids: seq<seq<byte>>, lo: byte)
    requires t.lead.None? && t.cmd == [] && Drawable(hi, lo) && CalmMids(mids)
    requires forall i :: 0 <= i < |mids| ==> |mids[i]| + 3 <= MAX_CMD
    ensures var a := AttrAfterMids(m, t.attr, mids);
            Run(m, t, [hi] + MidsBytes(mids) + [lo]) ==
            (t.(attr := a, half := None), [Wide(hi, lo, Latched(t, t.attr), a)])
  {
    var t1 := t.(lead := Some((hi, t.attr)));
    var a := AttrAfterMids(m, t.attr, mids);
    RunOne(m, t, hi);
    RunMids(m, t1, mids);
    RunQuiet(m, t, t1, [hi], MidsBytes(mids));
    RunOne(m, t1.(attr := a), lo);
    RunQuiet(m, t, t1.(attr := a), [hi] + MidsBytes(mids), [lo]);
  }

  /** A whole character drawn with a latched attribute: its left half takes it. */
  lemma RunPair<A>(m: Attrs<A>, t: Term<A>, left: A, hi: byte, lo: byte)
    requires t.half == Some(left) && t.lead.None? && t.cmd == [] && Drawable(hi, lo)
    ensures Run(m, t, [hi, lo]) == (t.(half := None), [Wide(hi, lo, left, t.attr)])
  {
    RunOne(m, t, hi);
    RunOne(m, t.(lead := Some((hi, t.attr))), lo);
    RunQuiet(m, t, t.(lead := Some((hi, t.attr))), [hi], [lo]);
    assert [hi] + [lo] == [hi, lo];
  }

  /** The merged list: the held parameters, then the latch, then the parameters that were inside. */
  lemma ApplyMerged<A>(m: Attrs<A>, t: Term<A>, held: Option<seq<byte>>, mids: seq<seq<byte>>)
    requires CalmMids(mids) && (held.Some? ==> AllParams(held.value) && NoFreeze(held.value))
    ensures var a := if held.Some? then AttrAfter(m, t.attr, held.value) else t.attr;
            ApplySgr(m, t, Merged(held, mids)) == t.(attr := AttrAfterMids(m, a, mids), half := Some(a))
  {
    hide ApplySgr, AttrAfter, AttrAfterMids, Join, NoFreeze;
    var freeze := FREEZE[1..];
    if held.Some? {
      var h := held.value;
      var t1 := ApplySgr(m, t, h);
      var p := h + [SEMICOLON] + freeze;
      assert h + FREEZE == p;
      NoFreezeOnlyAttr(m, t, h);
      ApplySgrConcat(m, t, h, freeze);
      ApplyFreeze(m, t1);
      ApplyJoin(m, t, p, mids);
    } else {
      ApplyFreeze(m, t);
      ApplyJoin(m, t, freeze, mids);
    }
  }

  lemma RunMerged<A>(m: Attrs<A>, t: Term<A>, held: Option<seq<byte>>, mids: seq<seq<byte>>)
    requires Idle(t, []) && CalmMids(mids) && (held.Some? ==> AllParams(held.value) && NoFreeze(held.value))
    requires |Merged(held, mids)| + 3 <= MAX_CMD
    ensures var a := if held.Some? then AttrAfter(m, t.attr, held.value) else t.attr;
            Run(m, t, SgrBytes(Merged(held, mids))) ==
            (t.(attr := AttrAfterMids(m, a, mids), half := Some(a)), [])
  {
    hide ApplySgr, AttrAfter, AttrAfterMids, Merged, NoFreeze;
    MergedIsParams(held, mids);
    RunSgr(m, t, Merged(held, mids));
    ApplyMerged(m, t, held, mids);
  }

  lemma {:induction false} JoinShape(mids: seq<seq<byte>>)
    requires CalmMids(mids)
    ensures AllParams(Join(mids))
    ensures forall i :: 0 <= i < |mids| ==> |mids[i]| < |Join(mids)|
  {
    if mids != [] {
      JoinShape(mids[1..]);
      assert forall i :: 1 <= i < |mids| ==> mids[i] == mids[1..][i - 1];
    }
  }

  lemma MergedIsParams(held: Option<seq<byte>>, mids: seq<seq<byte>>)
    requires CalmMids(mids) && (held.Some? ==> AllParams(held.value))
    ensures AllParams(Merged(held, mids))
    ensures forall i :: 0 <= i < |mids| ==> |mids[i]| < |Merged(held, mids)|
    ensures held.Some? ==> |held.value| < |Merged(held, mids)|
  {
    JoinShape(mids);
  }

  /** One split character, with the sequence before it if there is one, draws the same before and after. */
  lemma SplitDrawsTheSame<A>(m: Attrs<A>, t: Term<A>, held: Option<seq<byte>>, tok: Token)
    requires Idle(t, []) && IsSplit(tok) && Drawable(tok.hi, tok.lo) && CalmMids(tok.mids)
    requires held.Some? ==> AllParams(held.value) && NoFreeze(held.value)
    requires |Merged(held, tok.mids)| + 3 <= MAX_CMD
    ensures var old', new' := HeldBytes(held) + TokenBytes(tok), SgrBytes(Merged(held, tok.mids)) + [tok.hi, tok.lo];
            Run(m, t, new') == Run(m, t, old') && Idle(Run(m, t, old').0, [])
  {
    var a := if held.Some? then AttrAfter(m, t.attr, held.value) else t.attr;
    var t1 := t.(attr := a);
    MergedIsParams(held, tok.mids);
    assert Run(m, t, HeldBytes(held)) == (t1, []) by {
      if held.Some? {
        RunSgr(m, t, held.value);
        NoFreezeOnlyAttr(m, t, held.value);
      }
    }
    RunBig5(m, t1, tok.hi, tok.mids, tok.lo);
    RunQuiet(m, t, t1, HeldBytes(held), TokenBytes(tok));
    RunMerged(m, t, held, tok.mids);
    var t2 := t.(attr := AttrAfterMids(m, a, tok.mids), half := Some(a));
    RunPair(m, t2, a, tok.hi, tok.lo);
    RunQuiet(m, t, t2, SgrBytes(Merged(held, tok.mids)), [tok.hi, tok.lo]);
  }

  /**
   * Where two texts differ in what they show, other than which character stands at one place: no way of showing
   * characters makes these the same.
   */
  ghost predicate Unlike<A>(a: seq<Event<A>>, b: seq<Event<A>>) {
    exists i :: 0 <= i < |a| && i < |b| && a[i] != b[i] && !(a[i].Wide? && b[i].Wide?)
  }

  lemma UnlikeLater<A>(e: seq<Event<A>>, a: seq<Event<A>>, b: seq<Event<A>>)
    requires Unlike(a, b)
    ensures Unlike(e + a, e + b)
  {
    var i :| 0 <= i < |a| && i < |b| && a[i] != b[i] && !(a[i].Wide? && b[i].Wide?);
    assert (e + a)[|e| + i] == a[i] && (e + b)[|e| + i] == b[i];
  }

  lemma UnlikeSooner<A>(a: seq<Event<A>>, b: seq<Event<A>>, c: seq<Event<A>>, d: seq<Event<A>>)
    requires Unlike(a, b)
    ensures Unlike(a + c, b + d)
  {
    var i :| 0 <= i < |a| && i < |b| && a[i] != b[i] && !(a[i].Wide? && b[i].Wide?);
    assert (a + c)[i] == a[i] && (b + d)[i] == b[i];
  }

  lemma UnlikeAt<A>(a: seq<Event<A>>, b: seq<Event<A>>, i: nat)
    requires i < |a| && i < |b| && a[i] != b[i] && !(a[i].Wide? && b[i].Wide?)
    ensures Unlike(a, b)
  {
  }

  /** A longer sequence is cut off: the terminal takes its first 63 bytes for some other command. */
  lemma CutOff<A>(m: Attrs<A>, t: Term<A>, p: seq<byte>)
    requires t.cmd == [] && AllParams(p) && |p| + 3 > MAX_CMD
    ensures var head := [ESC, BRACKET] + p[..61]; Run(m, t, head) == Exec(m, t, head) && !IsSgrCmd(head) && !IsOsc(head)
  {
    hide Exec;
    var q, b := p[..60], p[60];
    var t2, t3 := t.(cmd := [ESC, BRACKET]), t.(cmd := [ESC, BRACKET] + q);
    RunSecond(m, t, BRACKET);
    RunParams(m, t2, q);
    RunQuiet(m, t, t2, [ESC, BRACKET], q);
    RunQuiet(m, t, t3, [ESC, BRACKET] + q, [b]);
    RunOne(m, t3, b);
    var head := t3.cmd + [b];
    assert [ESC, BRACKET] + p[..61] == [ESC, BRACKET] + q + [b] == head;
    assert |head| == MAX_CMD && head[62] == b && IsParam(b) && !GoesOn(head);
    assert t3.(cmd := []) == t;
  }

  /** Printable bytes begin no command. */
  lemma {:induction false} PrintableKeepsCmd<A>(m: Attrs<A>, t: Term<A>, s: seq<byte>)
    requires t.lead.None? && t.cmd == [] && forall i :: 0 <= i < |s| ==> 0x20 <= s[i] < 0x7F
    ensures var t' := Run(m, t, s).0; t'.lead.None? && t'.cmd == [] && (t.half.None? ==> t'.half.None?)
    decreases |s|
  {
    if s != [] {
      PrintableKeepsCmd(m, Step(m, t, s[0]).0, s[1..]);
    }
  }

  /** A sequence leaves the terminal idle, executed or cut off. */
  lemma SgrLeavesIdle<A>(m: Attrs<A>, t: Term<A>, p: seq<byte>)
    requires Idle(t, []) && AllParams(p) && NoFreeze(p)
    ensures Idle(Run(m, t, SgrBytes(p)).0, [])
  {
    hide ApplySgr, AttrAfter, NoFreeze, Run, IsSgrCmd;
    if |p| + 3 <= MAX_CMD {
      RunSgr(m, t, p);
      NoFreezeOnlyAttr(m, t, p);
    } else {
      var head, rest := [ESC, BRACKET] + p[..61], p[61..] + [FINAL_M];
      assert SgrBytes(p) == head + rest;
      CutOff(m, t, p);
      RunConcat(m, t, head, rest);
      PrintableKeepsCmd(m, Run(m, t, head).0, rest);
    }
  }

  lemma RunCell<A>(m: Attrs<A>, t: Term<A>, b: byte, s: seq<byte>)
    requires t.cmd == [] && t.lead.None? && 0x20 <= b < 0x7F
    ensures var e := Run(m, t, [b] + s).1; e != [] && e[0] == Cell(b, Latched(t, t.attr))
  {
    assert ([b] + s)[0] == b;
  }

  /** A sequence too long to be executed shows its end, and so how it goes on. */
  lemma LongHeadsDiffer<A>(m: Attrs<A>, t: Term<A>, p: seq<byte>, x: seq<byte>, y: seq<byte>)
    requires Idle(t, []) && AllParams(p) && |p| + 3 > MAX_CMD
    ensures Unlike(Run(m, t, [ESC, BRACKET] + p + ([FINAL_M] + x)).1, Run(m, t, [ESC, BRACKET] + p + ([SEMICOLON] + y)).1)
  {
    hide Run, IsSgrCmd, Unlike;
    var head, rest := [ESC, BRACKET] + p[..61], p[61..];
    var all := [ESC, BRACKET] + p;
    assert all == head + rest;
    CutOff(m, t, p);
    RunConcat(m, t, head, rest);
    PrintableKeepsCmd(m, Run(m, t, head).0, rest);
    var t' := Run(m, t, all).0;
    RunConcat(m, t, all, [FINAL_M] + x);
    RunConcat(m, t, all, [SEMICOLON] + y);
    RunCell(m, t', FINAL_M, x);
    RunCell(m, t', SEMICOLON, y);
    UnlikeAt(Run(m, t', [FINAL_M] + x).1, Run(m, t', [SEMICOLON] + y).1, 0);
    UnlikeLater(Run(m, t, all).1, Run(m, t', [FINAL_M] + x).1, Run(m, t', [SEMICOLON] + y).1);
  }

  /** In front of a character such a sequence shows a command and then a cell. */
  lemma LongShowsCell<A>(m: Attrs<A>, t: Term<A>, p: seq<byte>)
    requires Idle(t, []) && AllParams(p) && |p| + 3 > MAX_CMD
    ensures var e := Run(m, t, SgrBytes(p)).1; |e| > 1 && e[0].Command? && e[1].Cell?
  {
    hide Run, IsSgrCmd;
    var head, rest := [ESC, BRACKET] + p[..61], p[61..] + [FINAL_M];
    assert SgrBytes(p) == head + rest;
    CutOff(m, t, p);
    RunConcat(m, t, head, rest);
    assert rest == [rest[0]] + rest[1..];
    RunCell(m, Run(m, t, head).0, rest[0], rest[1..]);
  }

  /** What a character shows first that one of its inner sequences breaks. */
  predicate ShowsBreak<A>(e: seq<Event<A>>) {
    e != [] && (e[0].Wide? || e[0].Broken? || (e[0].Command? && |e| > 1 && (e[1].Broken? || e[1].Wide?)))
  }

  lemma RunAfterLead<A>(m: Attrs<A>, t: Term<A>, b: byte, s: seq<byte>)
    requires t.cmd == [] && t.lead.Some? && 0x20 <= b < 0x7F
    ensures var e := Run(m, t, [b] + s).1; e != [] && (e[0].Broken? || e[0].Wide?)
  {
    assert ([b] + s)[0] == b;
  }

  /** Inside a character a sequence too long shows a command, and what becomes of the lead byte. */
  lemma LongBreaksLead<A>(m: Attrs<A>, t: Term<A>, p: seq<byte>)
    requires t.cmd == [] && t.lead.Some? && AllParams(p) && |p| + 3 > MAX_CMD
    ensures ShowsBreak(Run(m, t, SgrBytes(p)).1)
  {
    hide Run, IsSgrCmd;
    var head, rest := [ESC, BRACKET] + p[..61], p[61..] + [FINAL_M];
    assert SgrBytes(p) == head + rest;
    CutOff(m, t, p);
    RunConcat(m, t, head, rest);
    var t' := Run(m, t, head).0;
    if t'.lead.Some? {
      assert rest == [rest[0]] + rest[1..];
      RunAfterLead(m, t', rest[0], rest[1..]);
    }
  }

  lemma {:induction false} LongMidsBreak<A>(m: Attrs<A>, t: Term<A>, mids: seq<seq<byte>>)
    requires t.cmd == [] && t.lead.Some? && CalmMids(mids) && !MidsShort(mids)
    ensures ShowsBreak(Run(m, t, MidsBytes(mids)).1)
    decreases |mids|
  {
    hide Run, SgrBytes;
    if |mids[0]| + 3 <= MAX_CMD {
      RunSgr(m, t, mids[0]);
      NoFreezeOnlyAttr(m, t, mids[0]);
      var t' := t.(attr := AttrAfter(m, t.attr, mids[0]));
      LongMidsBreak(m, t', mids[1..]);
      RunQuiet(m, t, t', SgrBytes(mids[0]), MidsBytes(mids[1..]));
    } else {
      LongBreaksLead(m, t, mids[0]);
      RunConcat(m, t, SgrBytes(mids[0]), MidsBytes(mids[1..]));
    }
  }

  /** A split character shows itself first, or how one of its sequences breaks it. */
  lemma SplitShows<A>(m: Attrs<A>, t: Term<A>, tok: Token)
    requires Idle(t, []) && IsSplit(tok) && Drawable(tok.hi, tok.lo) && CalmMids(tok.mids)
    ensures var e := Run(m, t, TokenBytes(tok)).1; ShowsBreak(e) && (MidsShort(tok.mids) ==> e[0].Wide?)
  {
    hide Run;
    if MidsShort(tok.mids) {
      RunBig5(m, t, tok.hi, tok.mids, tok.lo);
    } else {
      var t' := t.(lead := Some((tok.hi, t.attr)));
      RunOne(m, t, tok.hi);
      LongMidsBreak(m, t', tok.mids);
      RunQuiet(m, t, t', [tok.hi], MidsBytes(tok.mids) + [tok.lo]);
      assert TokenBytes(tok) == [tok.hi] + (MidsBytes(tok.mids) + [tok.lo]);
      RunConcat(m, t', MidsBytes(tok.mids), [tok.lo]);
    }
  }

  /**
   * When the merged sequence is too long, something different is shown. If the original's own sequences are short
   * enough to be executed, the terminal shows the head of the merged one where the original has the character.
   */
  lemma TooLongDiffers<A>(m: Attrs<A>, t: Term<A>, held: Option<seq<byte>>, tok: Token)
    requires Idle(t, []) && IsSplit(tok) && Drawable(tok.hi, tok.lo) && CalmMids(tok.mids)
    requires held.Some? ==> AllParams(held.value) && NoFreeze(held.value)
    requires |Merged(held, tok.mids)| + 3 > MAX_CMD
    ensures var old' := Run(m, t, HeldBytes(held) + TokenBytes(tok)).1;
            var new' := Run(m, t, SgrBytes(Merged(held, tok.mids)) + [tok.hi, tok.lo]).1;
            && Unlike(old', new')
            && (MidsShort(tok.mids) && (held.Some? ==> |held.value| + 3 <= MAX_CMD) ==>
                  old' != [] && old'[0].Wide? && new' != [] && new'[0].Command?)
  {
    hide Run, ApplySgr, AttrAfter, NoFreeze, Unlike, MidsShort, Join;
    if held.Some? && |held.value| + 3 > MAX_CMD {
      var h := held.value;
      var y := FREEZE[1..] + Join(tok.mids) + [FINAL_M] + [tok.hi, tok.lo];
      assert HeldBytes(held) + TokenBytes(tok) == [ESC, BRACKET] + h + ([FINAL_M] + TokenBytes(tok));
      assert SgrBytes(Merged(held, tok.mids)) + [tok.hi, tok.lo] == [ESC, BRACKET] + h + ([SEMICOLON] + y);
      LongHeadsDiffer(m, t, h, TokenBytes(tok), y);
    } else {
      ShortHeldDiffers(m, t, held, tok);
    }
  }

  lemma ShortHeldDiffers<A>(m: Attrs<A>, t: Term<A>, held: Option<seq<byte>>, tok: Token)
    requires Idle(t, []) && IsSplit(tok) && Drawable(tok.hi, tok.lo) && CalmMids(tok.mids)
    requires held.Some? ==> AllParams(held.value) && NoFreeze(held.value) && |held.value| + 3 <= MAX_CMD
    requires |Merged(held, tok.mids)| + 3 > MAX_CMD
    ensures var old' := Run(m, t, HeldBytes(held) + TokenBytes(tok)).1;
            var new' := Run(m, t, SgrBytes(Merged(held, tok.mids)) + [tok.hi, tok.lo]).1;
            && Unlike(old', new')
            && (MidsShort(tok.mids) ==> old' != [] && old'[0].Wide? && new' != [] && new'[0].Command?)
  {
    hide Run, ApplySgr, AttrAfter, NoFreeze, Unlike, MidsShort, Merged;
    var merged := Merged(held, tok.mids);
    MergedIsParams(held, tok.mids);
    RunHeld(m, t, held);
    var t1 := Run(m, t, HeldBytes(held)).0;
    SplitShows(m, t1, tok);
    RunQuiet(m, t, t1, HeldBytes(held), TokenBytes(tok));
    LongShowsCell(m, t, merged);
    RunConcat(m, t, SgrBytes(merged), [tok.hi, tok.lo]);
    var old', new' := Run(m, t, HeldBytes(held) + TokenBytes(tok)).1, Run(m, t, SgrBytes(merged) + [tok.hi, tok.lo]).1;
    UnlikeAt(old', new', if old'[0].Command? then 1 else 0);
  }

  /**
   * The length limit is exact: the split character draws the same after the conversion if and only if the merged
   * sequence is short enough to be executed.
   */
  lemma SplitDrawsTheSameIff<A>(m: Attrs<A>, t: Term<A>, held: Option<seq<byte>>, tok: Token)
    requires Idle(t, []) && IsSplit(tok) && Drawable(tok.hi, tok.lo) && CalmMids(tok.mids)
    requires held.Some? ==> AllParams(held.value) && NoFreeze(held.value)
    ensures var old', new' := HeldBytes(held) + TokenBytes(tok), SgrBytes(Merged(held, tok.mids)) + [tok.hi, tok.lo];
            Run(m, t, new') == Run(m, t, old') <==> |Merged(held, tok.mids)| + 3 <= MAX_CMD
  {
    hide Merged, Run;
    if |Merged(held, tok.mids)| + 3 <= MAX_CMD {
      SplitDrawsTheSame(m, t, held, tok);
    } else {
      TooLongDiffers(m, t, held, tok);
    }
  }

  lemma RunHeld<A>(m: Attrs<A>, t: Term<A>, held: Option<seq<byte>>)
    requires Idle(t, []) && (held.Some? ==> AllParams(held.value) && NoFreeze(held.value) && |held.value| + 3 <= MAX_CMD)
    ensures var a := if held.Some? then AttrAfter(m, t.attr, held.value) else t.attr;
            Run(m, t, HeldBytes(held)) == (t.(attr := a), [])
  {
    if held.Some? {
      RunSgr(m, t, held.value);
      NoFreezeOnlyAttr(m, t, held.value);
    }
  }

  /** In the middle of an escape command, a byte that cannot go on with it ends it, and is part of it. */
  lemma EndsCommand<A>(m: Attrs<A>, t: Term<A>, s: seq<byte>)
    requires t.cmd != [] && !IsOsc(t.cmd) && s != [] && s[0] != 0 && s[0] != 0xFF && !IsParam(s[0])
    requires s[0] != BRACKET && s[0] != FINAL_M && s[0] != OSC_MARK
    ensures var e, c := Run(m, t, s).1, Command(t.cmd + [s[0]], t.attr);
            e != [] && (e[0] == c || (|e| > 1 && e[0].Broken? && e[1] == c))
  {
    hide AllParams;
    var cmd := t.cmd + [s[0]];
    assert cmd[|cmd| - 1] == s[0] && !IsSgrCmd(cmd) && !IsOsc(cmd) && !GoesOn(cmd);
    assert Step(m, t, s[0]) == Exec(m, t.(cmd := []), cmd);
  }

  /** An OSC string takes in whatever does not end it. */
  lemma {:induction false} OscCollects<A>(m: Attrs<A>, t: Term<A>, s: seq<byte>)
    requires IsOsc(t.cmd)
    requires forall i :: 0 <= i < |s| ==> s[i] !in {0, 0xFF, BEL, CR, LF}
    requires s != [] && s[0] == BACKSLASH ==> t.cmd[|t.cmd| - 1] != ESC
    requires forall i :: 0 <= i < |s| - 1 && s[i] == ESC ==> s[i + 1] != BACKSLASH
    ensures Run(m, t, s) == (t.(cmd := t.cmd + s), [])
    decreases |s|
  {
    if s == [] {
      assert t.cmd + s == t.cmd;
    } else {
      var cmd := t.cmd + [s[0]];
      assert s[0] !in {0, 0xFF, BEL, CR, LF} && (s[0] == BACKSLASH ==> t.cmd[|t.cmd| - 1] != ESC);
      assert IsOsc(cmd) && cmd[|cmd| - 1] == s[0] && cmd[|cmd| - 2] == t.cmd[|t.cmd| - 1] && GoesOn(cmd);
      assert Step(m, t, s[0]) == (t.(cmd := cmd), []);
      OscCollects(m, t.(cmd := cmd), s[1..]);
      assert cmd + s[1..] == t.cmd + s;
      assert Step(m, t, s[0]).1 + Run(m, t.(cmd := cmd), s[1..]).1 == [];
    }
  }

  /** A character and its sequences have no byte that ends an OSC string. */
  lemma InnerBytes(mids: seq<seq<byte>>)
    requires CalmMids(mids)
    ensures forall i :: 0 <= i < |MidsBytes(mids)| ==> MidsBytes(mids)[i] in {ESC, BRACKET, FINAL_M} || IsParam(MidsBytes(mids)[i])
    ensures mids != [] ==> MidsBytes(mids)[|MidsBytes(mids)| - 1] == FINAL_M
  {
    if mids != [] {
      InnerBytes(mids[1..]);
      var a, b := SgrBytes(mids[0]), MidsBytes(mids[1..]);
      forall i | 0 <= i < |a + b| ensures (a + b)[i] in {ESC, BRACKET, FINAL_M} || IsParam((a + b)[i]) {
        if 2 <= i < |a| - 1 { assert a[i] == mids[0][i - 2]; }
      }
    }
  }

  /**
   * That a character begins where no escape command is being collected cannot be dropped. In the middle of any
   * command a split character never draws the same, as its lead byte ended the command and now an ESC does; in an OSC
   * string it draws nothing either way, but the string is another one.
   */
  lemma SplitInCommandDiffers<A>(m: Attrs<A>, t: Term<A>, tok: Token)
    requires t.cmd != [] && IsSplit(tok) && Drawable(tok.hi, tok.lo) && CalmMids(tok.mids)
    ensures var old', new' := Run(m, t, TokenBytes(tok)), Run(m, t, SgrBytes(Merged(None, tok.mids)) + [tok.hi, tok.lo]);
            if IsOsc(t.cmd) then old'.1 == [] == new'.1 && old'.0.cmd != new'.0.cmd else old'.1 != new'.1
  {
    hide Run, Merged, MidsBytes, IsOsc;
    if IsOsc(t.cmd) {
      SplitInOscDiffers(m, t, tok);
    } else {
      EndsCommand(m, t, TokenBytes(tok));
      EndsCommand(m, t, SgrBytes(Merged(None, tok.mids)) + [tok.hi, tok.lo]);
      assert (t.cmd + [tok.hi])[|t.cmd|] == tok.hi && (t.cmd + [ESC])[|t.cmd|] == ESC;
    }
  }

  lemma SplitInOscDiffers<A>(m: Attrs<A>, t: Term<A>, tok: Token)
    requires IsOsc(t.cmd) && IsSplit(tok) && Drawable(tok.hi, tok.lo) && CalmMids(tok.mids)
    ensures var old', new' := Run(m, t, TokenBytes(tok)), Run(m, t, SgrBytes(Merged(None, tok.mids)) + [tok.hi, tok.lo]);
            old'.1 == [] == new'.1 && old'.0.cmd != new'.0.cmd
  {
    hide Run, Merged, MidsBytes, IsOsc;
    var a, b := TokenBytes(tok), SgrBytes(Merged(None, tok.mids)) + [tok.hi, tok.lo];
    InnerBytes(tok.mids);
    MergedIsParams(None, tok.mids);
    OscCollects(m, t, a);
    OscCollects(m, t, b);
    assert (t.cmd + a)[|t.cmd|] == tok.hi && (t.cmd + b)[|t.cmd|] == ESC;
  }

  /** "66;31", "31" and "32" as parameter bytes. */
  const LATCHED_RED: seq<byte> := [0x36, 0x36, 0x3B, 0x33, 0x31]
  const RED: seq<byte> := [0x33, 0x31]
  const GREEN: seq<byte> := [0x33, 0x32]

  lemma GreenAlone(m: Attrs<int>, a: int)
    requires m.sgr(a, 32) == 32
    ensures AllParams(GREEN) && NoFreeze(GREEN) && AttrAfterMids(m, a, [GREEN]) == 32
    ensures Join([GREEN]) == [SEMICOLON] + GREEN
  {
    TwoDigits(0x33, 0x32);
    assert [GREEN][1..] == [];
    assert AttrAfter(m, a, GREEN) == 32;
    assert Join([]) == [];
  }

  lemma LatchedRed(m: Attrs<int>, t: Term<int>)
    requires t.attr == 0 && m.sgr(0, 31) == 31
    ensures ApplySgr(m, t, LATCHED_RED) == t.(attr := 31, half := Some(0))
  {
    TwoDigits(0x33, 0x31);
    assert LATCHED_RED == FREEZE[1..] + [SEMICOLON] + RED;
    assert ApplySgr(m, t.(half := Some(0)), RED) == t.(attr := 31, half := Some(0));
    ApplySgrConcat(m, t, FREEZE[1..], RED);
    ApplyFreeze(m, t);
  }

  /**
   * That the input uses no parameter 66 cannot be dropped: ESC[66;31m in front of a split character
   * latches the old attribute for its left half, and the merged sequence latches again, after 31.
   */
  lemma FreezeInInputIsLost(m: Attrs<int>, t: Term<int>)
    requires Idle(t, []) && t.attr == 0 && m.sgr(0, 31) == 31 && m.sgr(31, 32) == 32
    ensures var tok := Big5(0xA4, [GREEN], 0x40);
            && Run(m, t, HeldBytes(Some(LATCHED_RED)) + TokenBytes(tok)).1 == [Wide(0xA4, 0x40, 0, 32)]
            && Run(m, t, SgrBytes(Merged(Some(LATCHED_RED), [GREEN])) + [0xA4, 0x40]).1 == [Wide(0xA4, 0x40, 31, 32)]
  {
    hide ApplySgr, AttrAfter, AttrAfterMids, Run, NoFreeze, MidsBytes;
    var tok := Big5(0xA4, [GREEN], 0x40);
    var t1 := t.(attr := 31, half := Some(0));
    LatchedRed(m, t);
    GreenAlone(m, 31);
    RunSgr(m, t, LATCHED_RED);
    RunBig5(m, t1, 0xA4, [GREEN], 0x40);
    RunQuiet(m, t, t1, SgrBytes(LATCHED_RED), TokenBytes(tok));
    LatchAgain(m, t, t1);
  }

  lemma LatchAgain(m: Attrs<int>, t: Term<int>, t1: Term<int>)
    requires Idle(t, []) && t1 == t.(attr := 31, half := Some(0)) && m.sgr(31, 32) == 32
    requires ApplySgr(m, t, LATCHED_RED) == t1
    ensures Run(m, t, SgrBytes(Merged(Some(LATCHED_RED), [GREEN])) + [0xA4, 0x40]).1 == [Wide(0xA4, 0x40, 31, 32)]
  {
    hide ApplySgr, AttrAfter, AttrAfterMids, Run, NoFreeze, Join;
    var p := LATCHED_RED + [SEMICOLON] + FREEZE[1..];
    var merged := Merged(Some(LATCHED_RED), [GREEN]);
    GreenAlone(m, 31);
    assert merged == p + Join([GREEN]);
    ApplySgrConcat(m, t, LATCHED_RED, FREEZE[1..]);
    ApplyFreeze(m, t1);
    ApplyJoin(m, t, p, [GREEN]);
    var t2 := t.(attr := 32, half := Some(31));
    assert ApplySgr(m, t, merged) == t2;
    RunSgr(m, t, merged);
    RunPair(m, t2, 31, 0xA4, 0x40);
    RunQuiet(m, t, t2, SgrBytes(merged), [0xA4, 0x40]);
  }

  /**
   * Nor can it be dropped for commands that the conversion does not take for sequences: after ESC 1 the terminal executes
   * 66;31 too.
   */
  lemma PlainFreezeIsLost(m: Attrs<int>, t: Term<int>)
    requires Idle(t, []) && t.attr == 0 && m.sgr(0, 31) == 31 && m.sgr(31, 32) == 32
    ensures var plain, tok := [ESC, 0x31] + LATCHED_RED + [FINAL_M], Big5(0xA4, [GREEN], 0x40);
            && SgrLen(plain) == 0
            && Run(m, t, plain + TokenBytes(tok)).1 == [Wide(0xA4, 0x40, 0, 32)]
            && Run(m, t, plain + (SgrBytes(Merged(None, [GREEN])) + [0xA4, 0x40])).1 == [Wide(0xA4, 0x40, 31, 32)]
  {
    hide ApplySgr, AttrAfter, AttrAfterMids, Run, NoFreeze, MidsBytes, Merged;
    var plain, tok := [ESC, 0x31] + LATCHED_RED + [FINAL_M], Big5(0xA4, [GREEN], 0x40);
    var t1, merged := t.(attr := 31, half := Some(0)), Merged(None, [GREEN]);
    LatchedRed(m, t);
    GreenAlone(m, 31);
    RunSgrCmd(m, t, 0x31, LATCHED_RED);
    RunBig5(m, t1, 0xA4, [GREEN], 0x40);
    RunQuiet(m, t, t1, plain, TokenBytes(tok));
    MergedIsParams(None, [GREEN]);
    ApplyMerged(m, t1, None, [GREEN]);
    assert |merged| + 3 <= MAX_CMD by { GreenIsShort(); }
    RunSgr(m, t1, merged);
    RunPair(m, t1.(attr := 32, half := Some(31)), 31, 0xA4, 0x40);
    RunQuiet(m, t1, t1.(attr := 32, half := Some(31)), SgrBytes(merged), [0xA4, 0x40]);
    RunQuiet(m, t, t1, plain, SgrBytes(merged) + [0xA4, 0x40]);
  }

  lemma GreenIsShort()
    ensures |Merged(None, [GREEN])| == 5
  {
    assert [GREEN][1..] == [] && Join([]) == [];
  }

  lemma TwoDigits(a: byte, b: byte)
    requires 0x30 <= a <= 0x39 && 0x30 <= b <= 0x39
    ensures DigitRun([a, b]) == 2 && Number([a, b]) == 10 * (a - 0x30) + (b - 0x30)
    ensures [a, b][..2] == [a, b]
  {
    assert [a, b][1..] == [b] && [a, b][..1] == [a];
    assert Number([a]) == a - 0x30;
    assert DigitRun([b]) == 1;
  }

  lemma EmitTwo(b2u: Table, a: Token, c: Token, us: seq<Token>)
    ensures Emit(b2u, false, [a, c] + us) == EmitToken(b2u, false, a) + EmitToken(b2u, false, c) + Emit(b2u, false, us)
  {
    assert [a, c] + us == [a] + ([c] + us);
    EmitCons(b2u, false, a, [c] + us);
    EmitCons(b2u, false, c, us);
  }

  /** After pieces that run the same, texts run the same exactly when their rests do. */
  lemma RunCancel<A>(m: Attrs<A>, t: Term<A>, a: seq<byte>, a': seq<byte>, b: seq<byte>, b': seq<byte>)
    requires Run(m, t, a) == Run(m, t, a')
    ensures var t' := Run(m, t, a).0;
            && (Run(m, t, a + b) == Run(m, t, a' + b') <==> Run(m, t', b) == Run(m, t', b'))
            && (Unlike(Run(m, t', b').1, Run(m, t', b).1) ==> Unlike(Run(m, t, a' + b').1, Run(m, t, a + b).1))
  {
    hide Run, Unlike;
    RunConcat(m, t, a, b);
    RunConcat(m, t, a', b');
    var e, t' := Run(m, t, a).1, Run(m, t, a).0;
    assert Run(m, t', b).1 == Run(m, t, a + b).1[|e|..];
    assert Run(m, t', b').1 == Run(m, t, a' + b').1[|e|..];
    if Unlike(Run(m, t', b').1, Run(m, t', b).1) {
      UnlikeLater(e, Run(m, t', b').1, Run(m, t', b).1);
    }
  }

  /** Texts whose pieces differ in what they show run differently, whatever follows. */
  lemma RunDiffers<A>(m: Attrs<A>, t: Term<A>, a: seq<byte>, a': seq<byte>, b: seq<byte>, b': seq<byte>)
    requires Unlike(Run(m, t, a').1, Run(m, t, a).1)
    ensures Unlike(Run(m, t, a' + b').1, Run(m, t, a + b).1) && Run(m, t, a + b) != Run(m, t, a' + b')
  {
    hide Run;
    RunConcat(m, t, a, b);
    RunConcat(m, t, a', b');
    UnlikeSooner(Run(m, t, a').1, Run(m, t, a).1, Run(m, Run(m, t, a').0, b').1, Run(m, Run(m, t, a).0, b).1);
  }

  /** A token that is no split character leaves the terminal idle again. */
  lemma TokenLeavesIdle<A>(m: Attrs<A>, t: Term<A>, cmd: seq<byte>, ts: seq<Token>)
    requires ts != [] && Idle(t, cmd) && Calm(cmd, ts) && AllDrawable(ts) && !IsSplit(ts[0])
    ensures var t' := Run(m, t, TokenBytes(ts[0])).0; Idle(t', t'.cmd) && Calm(t'.cmd, ts[1..])
  {
    match ts[0]
    case Plain(b) =>
      StepPlain(m, t, cmd, b);
      RunOne(m, t, b);
    case Sgr(p) =>
      SgrLeavesIdle(m, t, p);
    case Big5(hi, mids, lo) =>
      RunBig5(m, t, hi, mids, lo);
  }

  /** A token list that starts with a split character, a sequence before it or not. */
  predicate SplitAhead(ts: seq<Token>) {
    ts != [] && (IsSplit(ts[0]) || (ts[0].Sgr? && |ts| > 1 && IsSplit(ts[1])))
  }

  /** The parts of such a list: the parameters before the character, the character, and what follows. */
  function SplitParts(ts: seq<Token>): (Option<seq<byte>>, Token, seq<Token>)
    requires SplitAhead(ts)
  {
    if ts[0].Sgr? then (Some(ts[0].params), ts[1], ts[2..]) else (None, ts[0], ts[1..])
  }

  lemma SplitHead(cmd: seq<byte>, ts: seq<Token>)
    requires SplitAhead(ts) && Calm(cmd, ts) && AllDrawable(ts)
    ensures var (held, tok, rest) := SplitParts(ts);
            && cmd == [] && |rest| < |ts|
            && IsSplit(tok) && Drawable(tok.hi, tok.lo) && CalmMids(tok.mids) && Calm([], rest) && AllDrawable(rest)
            && (held.Some? ==> AllParams(held.value) && NoFreeze(held.value))
  {
    hide NoFreeze, Drawable, AllParams;
    if ts[0].Sgr? {
      assert Calm([], ts[1..]) && ts[1..][1..] == ts[2..];
    }
  }

  lemma SplitHeadConvert(ts: seq<Token>)
    requires SplitAhead(ts)
    ensures var (held, tok, rest) := SplitParts(ts);
            Convert(ts) == [Sgr(Merged(held, tok.mids)), tok.(mids := [])] + Convert(rest)
  {
    hide Join;
  }

  lemma SplitHeadBytes(ts: seq<Token>)
    requires SplitAhead(ts)
    ensures var (held, tok, rest) := SplitParts(ts);
            TokensBytes(ts) == HeldBytes(held) + TokenBytes(tok) + TokensBytes(rest)
  {
    hide SgrBytes, MidsBytes;
    if ts[0].Sgr? {
      var us := ts[1..];
      assert us[1..] == ts[2..] && us[0] == ts[1];
      assert TokensBytes(us) == TokenBytes(ts[1]) + TokensBytes(ts[2..]);
      assert TokensBytes(ts) == TokenBytes(ts[0]) + TokensBytes(us);
    }
  }

  /** The first merged sequence fits, and so do the others. */
  lemma MergedFitHead(ts: seq<Token>)
    requires SplitAhead(ts)
    ensures var (held, tok, rest) := SplitParts(ts);
            MergedFit(ts) <==> |Merged(held, tok.mids)| + 3 <= MAX_CMD && MergedFit(rest)
  {
    hide Merged;
    var k := if ts[0].Sgr? then 2 else 1;
    var rest := ts[k..];
    forall i | 0 <= i < |rest| ensures rest[i] == ts[i + k] && HeldAt(rest, i) == HeldAt(ts, i + k) {
    }
    assert IsSplit(ts[k - 1]);
    assert MergedFit(rest) ==> forall i :: k <= i < |ts| && IsSplit(ts[i]) ==> IsSplit(rest[i - k]);
    assert HeldAt(ts, k - 1) == SplitParts(ts).0;
  }

  lemma MergedFitTail(ts: seq<Token>)
    requires ts != [] && !SplitAhead(ts)
    ensures MergedFit(ts) <==> MergedFit(ts[1..])
  {
    hide Merged;
    var rest := ts[1..];
    forall i | 0 <= i < |rest| && IsSplit(rest[i]) ensures rest[i] == ts[i + 1] && HeldAt(rest, i) == HeldAt(ts, i + 1) {
    }
    assert forall i :: 1 <= i < |ts| && IsSplit(ts[i]) ==> IsSplit(rest[i - 1]);
  }

  /**
   * The converted tokens draw the same as the original ones, and leave the same state, if and only if every
   * sequence that was merged is short enough for the terminal; if one is not, something different is shown.
   */
  lemma {:induction false} ConvertDrawsTheSameIff<A>(m: Attrs<A>, t: Term<A>, b2u: Table, cmd: seq<byte>, ts: seq<Token>)
    requires Idle(t, cmd) && Calm(cmd, ts) && AllDrawable(ts)
    ensures Run(m, t, Emit(b2u, false, Convert(ts))) == Run(m, t, TokensBytes(ts)) <==> MergedFit(ts)
    ensures MergedFit(ts) || Unlike(Run(m, t, TokensBytes(ts)).1, Run(m, t, Emit(b2u, false, Convert(ts))).1)
    decreases |ts|, 0
  {
    hide Run, Emit, NoFreeze, Idle, Calm, Unlike, MergedFit;
    if SplitAhead(ts) {
      SplitHead(cmd, ts);
      SplitHeadConvert(ts);
      SplitHeadBytes(ts);
      MergedFitHead(ts);
      var (held, tok, rest) := SplitParts(ts);
      SplitStep(m, t, b2u, held, tok, rest);
    } else if ts != [] {
      assert Convert(ts) == [ts[0]] + Convert(ts[1..]);
      MergedFitTail(ts);
      WholeStep(m, t, b2u, cmd, ts);
    } else {
      EmitNil(b2u);
      NoneMerged();
    }
  }

  lemma NoneMerged()
    ensures MergedFit([])
  {
  }

  lemma EmitNil(b2u: Table)
    ensures Emit(b2u, false, []) == []
  {
  }

  lemma EmitWhole(b2u: Table, t: Token)
    requires !IsSplit(t)
    ensures EmitToken(b2u, false, t) == TokenBytes(t)
  {
    if t.Big5? {
      assert MidsBytes(t.mids) == [];
    }
  }

  lemma {:induction false} WholeStep<A>(m: Attrs<A>, t: Term<A>, b2u: Table, cmd: seq<byte>, ts: seq<Token>)
    requires ts != [] && Idle(t, cmd) && Calm(cmd, ts) && AllDrawable(ts) && !IsSplit(ts[0])
    ensures var us, rest := [ts[0]] + Convert(ts[1..]), ts[1..];
            && (Run(m, t, Emit(b2u, false, us)) == Run(m, t, TokensBytes(ts)) <==> MergedFit(rest))
            && (MergedFit(rest) || Unlike(Run(m, t, TokensBytes(ts)).1, Run(m, t, Emit(b2u, false, us)).1))
    decreases |ts| - 1, 1
  {
    hide Unlike, Run, Emit, NoFreeze, Idle, Calm, Convert, MergedFit;
    EmitWhole(b2u, ts[0]);
    var us := [ts[0]] + Convert(ts[1..]);
    assert us[0] == ts[0] && us[1..] == Convert(ts[1..]);
    TokenLeavesIdle(m, t, cmd, ts);
    var t' := Run(m, t, TokenBytes(ts[0])).0;
    ConvertDrawsTheSameIff(m, t', b2u, t'.cmd, ts[1..]);
    EmitCons(b2u, false, ts[0], us[1..]);
    RunCancel(m, t, TokenBytes(ts[0]), TokenBytes(ts[0]), Emit(b2u, false, us[1..]), TokensBytes(ts[1..]));
  }

  lemma {:induction false} SplitStep<A>(m: Attrs<A>, t: Term<A>, b2u: Table, held: Option<seq<byte>>, tok: Token,
                                        rest: seq<Token>)
    requires Idle(t, []) && IsSplit(tok) && Drawable(tok.hi, tok.lo) && CalmMids(tok.mids)
    requires Calm([], rest) && AllDrawable(rest)
    requires held.Some? ==> AllParams(held.value) && NoFreeze(held.value)
    ensures var us := [Sgr(Merged(held, tok.mids)), tok.(mids := [])] + Convert(rest);
            var bytes := HeldBytes(held) + TokenBytes(tok) + TokensBytes(rest);
            var fit := |Merged(held, tok.mids)| + 3 <= MAX_CMD && MergedFit(rest);
            && (Run(m, t, Emit(b2u, false, us)) == Run(m, t, bytes) <==> fit)
            && (fit || Unlike(Run(m, t, bytes).1, Run(m, t, Emit(b2u, false, us)).1))
    decreases |rest|, 1
  {
    hide Unlike, Run, Emit, Calm, AllDrawable, Merged, MergedFit;
    var a, c := Sgr(Merged(held, tok.mids)), tok.(mids := []);
    EmitTwo(b2u, a, c, Convert(rest));
    var old', new' := HeldBytes(held) + TokenBytes(tok), SgrBytes(Merged(held, tok.mids)) + [tok.hi, tok.lo];
    if |a.params| + 3 <= MAX_CMD {
      SplitDrawsTheSame(m, t, held, tok);
      ConvertDrawsTheSameIff(m, Run(m, t, old').0, b2u, [], rest);
      RunCancel(m, t, new', old', Emit(b2u, false, Convert(rest)), TokensBytes(rest));
    } else {
      TooLongDiffers(m, t, held, tok);
      RunDiffers(m, t, new', old', Emit(b2u, false, Convert(rest)), TokensBytes(rest));
    }
  }

  lemma AdmittedIsDrawable(b2u: Table, s: seq<byte>)
    requires DrawableTable(b2u) && Accepts(b2u, s)
    ensures AllDrawable(Lex(s).value)
  {
    var ts := Lex(s).value;
    HighsAreHigh(s);
    forall i | 0 <= i < |ts| && ts[i].Big5? ensures Drawable(ts[i].hi, ts[i].lo) {
      assert ts[i] in ts;
    }
  }

  /**
   * The migration preserves rendering exactly when the terminal can collect the merged sequences. On an admitted
   * buffer whose escape commands are finished where colours and characters begin, and which uses no parameter 66,
   * the converted buffer draws the same cells with the same attributes and leaves the terminal in the same state if
   * and only if no merged sequence is longer than a command. If one is, something different is shown.
   */
  lemma RenderingPreservedIff<A>(m: Attrs<A>, t: Term<A>, b2u: Table, s: seq<byte>)
    requires DrawableTable(b2u) && Accepts(b2u, s) && Idle(t, []) && Calm([], Lex(s).value)
    ensures Run(m, t, Converted(b2u, false, s)) == Run(m, t, s) <==> MergedFit(Lex(s).value)
    ensures MergedFit(Lex(s).value) || Unlike(Run(m, t, s).1, Run(m, t, Converted(b2u, false, s)).1)
  {
    hide Run, Emit, Convert, Calm, MergedFit, Unlike;
    var ts := Lex(s).value;
    AdmittedIsDrawable(b2u, s);
    ConvertDrawsTheSameIff(m, t, b2u, [], ts);
    LexKeepsBytes(s);
  }

  // ----- a condition that can be read off the text -----

  /** Parameters of at most nine bytes without the digit 6. */
  predicate NoSix(p: seq<byte>) {
    |p| <= 9 && 0x36 !in p
  }

  /** No other escape than those of the sequences, and no 6 in these. */
  predicate Modest(t: Token) {
    match t
    case Plain(b) => b != 0x1B
    case Sgr(p) => NoSix(p)
    case Big5(_, mids, _) => forall i :: 0 <= i < |mids| ==> NoSix(mids[i])
  }

  function TenTo(n: nat): nat {
    if n == 0 then 1 else 10 * TenTo(n - 1)
  }

  lemma {:induction false} NumberFits(q: seq<byte>)
    requires AllParams(q) && 0x3B !in q
    ensures Number(q) < TenTo(|q|)
  {
    if q != [] {
      var k := |q| - 1;
      assert q[k] in q;
      NumberFits(q[..k]);
    }
  }

  lemma {:induction false} TenToGrows(n: nat, k: nat)
    requires n <= k
    ensures TenTo(n) <= TenTo(k)
    decreases k - n
  {
    if n < k { TenToGrows(n + 1, k); }
  }

  lemma NotSixtySix(p: seq<byte>)
    requires AllParams(p) && NoSix(p)
    ensures Param(p[..DigitRun(p)]) != 66
  {
    hide Number, TenTo;
    var q := p[..DigitRun(p)];
    DigitsOnly(p);
    NumberFits(q);
    TenToGrows(|q|, 9);
    BillionFits();
    if q == [] {
      NumberOfNone();
    } else {
      assert q[|q| - 1] in p;
      LastDigit(q);
    }
  }

  lemma BillionFits()
    ensures TenTo(9) < 0x8000_0000
  {
    assert TenTo(9) == 1000000000;
  }

  lemma NumberOfNone()
    ensures Number([]) == 0
  {
  }

  lemma LastDigit(q: seq<byte>)
    requires q != [] && 0x30 <= q[|q| - 1] <= 0x39
    ensures Number(q) % 10 == q[|q| - 1] - 0x30
  {
  }

  lemma {:induction false} DigitsOnly(p: seq<byte>)
    ensures forall i :: 0 <= i < DigitRun(p) ==> 0x30 <= p[i] <= 0x39
  {
    if p != [] && 0x30 <= p[0] <= 0x39 { DigitsOnly(p[1..]); }
  }

  lemma {:induction false} NoSixNoFreeze(p: seq<byte>)
    requires AllParams(p) && NoSix(p)
    ensures NoFreeze(p)
    decreases |p|
  {
    var k := DigitRun(p);
    NotSixtySix(p);
    if k < |p| { NoSixNoFreeze(p[k + 1..]); }
  }

  lemma {:induction false} ModestIsCalm(s: seq<byte>)
    requires Lex(s).Some? && forall i :: 0 <= i < |Lex(s).value| ==> Modest(Lex(s).value[i])
    ensures Calm([], Lex(s).value)
  {
    hide NoFreeze, NoSix, SgrLen, Mids, MidsLen;
    if s != [] {
      var (t, n) := First(s).value;
      var ts := Lex(s).value;
      assert ts[0] == t && ts[1..] == Lex(s[n..]).value && Modest(ts[0]);
      assert forall i :: 0 <= i < |ts| - 1 ==> ts[1..][i] == ts[i + 1];
      ModestIsCalm(s[n..]);
      if SgrLen(s) > 0 {
        SgrLenShape(s);
        NoSixNoFreeze(SgrParams(s));
      } else if s[0] >= 0x80 {
        MidsAreParams(s[1..]);
        forall i | 0 <= i < |t.mids| ensures NoFreeze(t.mids[i]) { NoSixNoFreeze(t.mids[i]); }
      }
    }
  }

  /** What is merged is at most the sequences that it is merged from, and seven bytes for the first one. */
  lemma {:induction false} JoinIsShort(mids: seq<seq<byte>>)
    requires mids != []
    ensures |Join(mids)| + 2 <= |MidsBytes(mids)|
  {
    if |mids| > 1 { JoinIsShort(mids[1..]); }
  }

  /**
   * Texts whose sequences have at most nine bytes of parameters and no digit 6, without other escapes, are drawn the
   * same after conversion if the bytes inside each character, and the parameters before it, are 59 at most.
   */
  lemma ModestDrawsTheSame<A>(m: Attrs<A>, a: A, b2u: Table, s: seq<byte>)
    requires Lex(s).Some?
    requires forall t :: t in Lex(s).value && t.Big5? ==> 0x81 <= t.hi <= 0xFE && 0x40 <= t.lo <= 0xFE && t.lo != 0x7F
    requires forall t :: t in Lex(s).value ==>
               && (t.Plain? ==> t.b != 0x1B)
               && (t.Sgr? ==> |t.params| <= 9 && 0x36 !in t.params)
               && (t.Big5? ==> forall p :: p in t.mids ==> |p| <= 9 && 0x36 !in p)
    requires forall i :: 0 <= i < |Lex(s).value| && Lex(s).value[i].Big5? ==>
               |MidsBytes(Lex(s).value[i].mids)| <= 59 &&
               (i > 0 && Lex(s).value[i - 1].Sgr? ==> |Lex(s).value[i - 1].params| + |MidsBytes(Lex(s).value[i].mids)| <= 59)
    ensures Run(m, Term(a, None, None, []), Converted(b2u, false, s)) == Run(m, Term(a, None, None, []), s)
  {
    hide Run, Calm, Emit, Convert, MidsBytes, Join, Lex, Unlike;
    var ts := Lex(s).value;
    forall i | 0 <= i < |ts| ensures Modest(ts[i]) { assert ts[i] in ts; }
    ModestIsCalm(s);
    LexKeepsBytes(s);
    forall i | 0 <= i < |ts| && IsSplit(ts[i])
      ensures |Merged(HeldAt(ts, i), ts[i].mids)| + 3 <= MAX_CMD
    {
      JoinIsShort(ts[i].mids);
    }
    forall i | 0 <= i < |ts| && ts[i].Big5? ensures Drawable(ts[i].hi, ts[i].lo) { assert ts[i] in ts; }
    ConvertDrawsTheSameIff(m, Term(a, None, None, []), b2u, [], ts);
  }
}
