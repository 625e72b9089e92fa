/**
 * How the board's own terminal (mbbsd/pfterm.c, built for Big5) draws a byte stream, one byte at a
 * time: escape commands are collected up to 63 bytes and OSC strings up to their end, the SGR parameter
 * 66 latches the current attribute for the next cell, and the two halves of a Big5 character take the
 * attributes current when the lead and the trail byte arrive.
 *
 * Attributes are of any type `A`; what an SGR parameter does to them, and what any other command does to
 * them, to a latched attribute and to a waiting lead byte, are parameters of the model.
 */
module Terminal {
  import opened Bytes
  import opened Prelude
  import opened Sgr66Lex

  const MAX_CMD := 63
  /** The byte after ESC that begins an OSC string. */
  const OSC_MARK: byte := 0x5D
  const BEL: byte := 0x07
  const CR: byte := 0x0D
  const LF: byte := 0x0A
  const BACKSLASH: byte := 0x5C

  /** What a command other than SGR does: moving the cursor drops a latched attribute and a lead byte, erasing the latter. */
  datatype Effect<A> = Effect(attr: A, keepsHalf: bool, keepsLead: bool)

  datatype Attrs<!A> = Attrs(sgr: (A, int) -> A, other: (A, seq<byte>) -> Effect<A>)

  datatype Term<A> = Term(attr: A, half: Option<A>, lead: Option<(byte, A)>, cmd: seq<byte>)

  datatype Event<A> =
    | Cell(b: byte, attr: A)
    | Wide(hi: byte, lo: byte, left: A, right: A)
    | Broken(attr: A)
    | Control(b: byte, attr: A)
    | Command(cmd: seq<byte>, attr: A)

  function DigitRun(p: seq<byte>): (n: nat)
    ensures n <= |p| && (n < |p| ==> !(0x30 <= p[n] <= 0x39))
  {
    if p == [] || !(0x30 <= p[0] <= 0x39) then 0 else 1 + DigitRun(p[1..])
  }

  /** The number that the digits of `p` make (other bytes count for nothing). */
  function Number(p: seq<byte>): nat {
    if p == [] then 0
    else 10 * Number(p[..|p| - 1]) + if p[|p| - 1] >= 0x30 then p[|p| - 1] - 0x30 else 0
  }

  /** `atoi`, where a long has 64 bits and an int 32: the number is cut off at the largest long, and wraps around. */
  function Atoi(n: nat): int {
    if n >= 0x7FFF_FFFF_FFFF_FFFF then -1
    else
      var low := n % 0x1_0000_0000;
      if low < 0x8000_0000 then low else low - 0x1_0000_0000
  }

  /** The numbers that are read as 66: those that wrap around to it, up to the largest long. */
  lemma ReadAs66(n: nat)
    ensures Atoi(n) == 66 <==> n % 0x1_0000_0000 == 66 && n < 0x7FFF_FFFF_FFFF_FFFF
    ensures Atoi(0x7FFF_FFFF) == 0x7FFF_FFFF && Atoi(0x8000_0000) == -0x8000_0000 && Atoi(0xFFFF_FFFF) == -1
    ensures n >= 0x7FFF_FFFF_FFFF_FFFF ==> Atoi(n) == -1
  {
  }

  function Param(p: seq<byte>): int {
    Atoi(Number(p))
  }

  function ApplyParam<A>(m: Attrs<A>, t: Term<A>, n: int): Term<A> {
    if n == 66 then t.(half := Some(t.attr)) else t.(attr := m.sgr(t.attr, n))
  }

  /** Executes the parameters of an SGR command, from left to right; an empty one is 0. */
  function ApplySgr<A>(m: Attrs<A>, t: Term<A>, p: seq<byte>): Term<A>
    decreases |p|
  {
    var k := DigitRun(p);
    var t' := ApplyParam(m, t, Param(p[..k]));
    if k < |p| then ApplySgr(m, t', p[k + 1..]) else t'
  }

  predicate IsOsc(cmd: seq<byte>) {
    |cmd| >= 2 && cmd[0] == ESC && cmd[1] == OSC_MARK
  }

  /** An OSC string ends at BEL, at ESC and a backslash, or at the end of the line. */
  predicate OscEnds(cmd: seq<byte>)
    requires IsOsc(cmd)
  {
    var b := cmd[|cmd| - 1];
    b == BEL || b == CR || b == LF || (b == BACKSLASH && cmd[|cmd| - 2] == ESC)
  }

  /** The parameters of a command, which are read from its third byte on, whatever the second is. */
  function CmdParams(cmd: seq<byte>): seq<byte> {
    if |cmd| <= 2 then [] else cmd[2..|cmd| - 1]
  }

  predicate IsSgrCmd(cmd: seq<byte>) {
    |cmd| >= 2 && cmd[0] == ESC && !IsOsc(cmd) && cmd[|cmd| - 1] == FINAL_M && AllParams(CmdParams(cmd))
  }

  /** An OSC string that the end of the line breaks off is not executed, and the line is not ended either. */
  function Exec<A>(m: Attrs<A>, t: Term<A>, cmd: seq<byte>): (Term<A>, seq<Event<A>>) {
    if IsSgrCmd(cmd) then (ApplySgr(m, t, CmdParams(cmd)), [])
    else if IsOsc(cmd) && cmd[|cmd| - 1] in {CR, LF} then (t, [])
    else
      var e := m.other(t.attr, cmd);
      var half := if e.keepsHalf then t.half else None;
      if t.lead.Some? && !e.keepsLead then
        (t.(attr := e.attr, half := None, lead := None), [Broken(Latched(t.(half := half), t.attr)), Command(cmd, t.attr)])
      else (t.(attr := e.attr, half := half), [Command(cmd, t.attr)])
  }

  /** Whether a command goes on after the byte that made it `cmd`. */
  predicate GoesOn(cmd: seq<byte>)
    requires cmd != []
  {
    var b := cmd[|cmd| - 1];
    if IsOsc(cmd) then !OscEnds(cmd) else (|cmd| == 2 && b == BRACKET) || (IsParam(b) && |cmd| < MAX_CMD)
  }

  function Latched<A>(t: Term<A>, otherwise: A): A {
    if t.half.Some? then t.half.value else otherwise
  }

  function Step<A>(m: Attrs<A>, t: Term<A>, b: byte): (Term<A>, seq<Event<A>>) {
    if b == 0 || b == 0xFF then (t, [])
    else if t.cmd != [] then
      if GoesOn(t.cmd + [b]) then (t.(cmd := t.cmd + [b]), []) else Exec(m, t.(cmd := []), t.cmd + [b])
    else if b == ESC then (t.(cmd := [ESC]), [])
    else if b < 0x20 || b == 0x7F then
      (t.(half := None, lead := None), (if t.lead.Some? then [Broken(t.attr)] else []) + [Control(b, t.attr)])
    else Draw(t, b)
  }

  /** A byte that is neither control nor part of a command. */
  function Draw<A>(t: Term<A>, b: byte): (Term<A>, seq<Event<A>>) {
    match t.lead
    case None =>
      if b < 0x80 then (t.(half := None), [Cell(b, Latched(t, t.attr))])
      else if b == 0x80 then (t.(half := None), [Broken(Latched(t, t.attr))])
      else (t.(lead := Some((b, t.attr))), [])
    case Some((hi, attr)) =>
      if b >= 0x40 then (t.(half := None, lead := None), [Wide(hi, b, Latched(t, attr), t.attr)])
      else (t.(half := None, lead := None), [Broken(Latched(t, t.attr)), Cell(b, t.attr)])
  }

  function Run<A>(m: Attrs<A>, t: Term<A>, s: seq<byte>): (Term<A>, seq<Event<A>>)
    decreases |s|
  {
    if s == [] then (t, [])
    else
      var (t1, e1) := Step(m, t, s[0]);
      var (t2, e2) := Run(m, t1, s[1..]);
      (t2, e1 + e2)
  }

  lemma {:induction false} RunConcat<A>(m: Attrs<A>, t: Term<A>, a: seq<byte>, b: seq<byte>)
    ensures Run(m, t, a + b).0 == Run(m, Run(m, t, a).0, b).0
    ensures Run(m, t, a + b).1 == Run(m, t, a).1 + Run(m, Run(m, t, a).0, b).1
    decreases |a|
  {
    hide Step;
    if a == [] {
      assert a + b == b;
    } else {
      assert (a + b)[1..] == a[1..] + b;
      RunConcat(m, Step(m, t, a[0]).0, a[1..], b);
    }
  }

  /** After bytes that draw nothing, a stream goes on from the state they leave. */
  lemma RunQuiet<A>(m: Attrs<A>, t: Term<A>, t': Term<A>, a: seq<byte>, b: seq<byte>)
    requires Run(m, t, a) == (t', [])
    ensures Run(m, t, a + b) == Run(m, t', b)
  {
    RunConcat(m, t, a, b);
    assert [] + Run(m, t', b).1 == Run(m, t', b).1;
  }

  /**
   * Single bytes: NUL and 0xFF do nothing, 0x80 is broken, a control byte is passed on, and a printable one is a cell with
   * the latched attribute, if there is one; a low byte after a lead byte is drawn after a broken one; ESC m is SGR 0.
   */
  lemma BytesWritten<A>(m: Attrs<A>, a: A, half: Option<A>, b: byte, hi: byte)
    requires 0x81 <= hi <= 0xFE
    ensures var t := Term(a, None, None, []);
            var l := if half.Some? then half.value else a;
            && Step(m, t.(half := half), 0) == (t.(half := half), []) == Step(m, t.(half := half), 0xFF)
            && Step(m, t.(half := half), 0x80) == (t, [Broken(l)])
            && (0x20 <= b < 0x7F ==> Step(m, t.(half := half), b) == (t, [Cell(b, l)]))
            && (0x20 <= b < 0x40 ==> Step(m, t.(lead := Some((hi, a))), b) == (t, [Broken(a), Cell(b, a)]))
            && (b == 0x7F || (0 < b < 0x20 && b != 0x1B) ==> Step(m, t.(half := half), b) == (t, [Control(b, a)]))
            && Step(m, t.(cmd := [0x1B]), 0x6D) == (t.(attr := m.sgr(a, 0)), [])
  {
    assert [] + [Control(b, a)] == [Control(b, a)];
  }

  /** Parameter bytes are collected as long as the command has room. */
  lemma {:induction false} RunParams<A>(m: Attrs<A>, t: Term<A>, p: seq<byte>)
    requires |t.cmd| >= 2 && !IsOsc(t.cmd) && AllParams(p) && |t.cmd| + |p| < MAX_CMD
    ensures Run(m, t, p) == (t.(cmd := t.cmd + p), [])
    decreases |p|
  {
    if p == [] {
      assert t.cmd + p == t.cmd;
    } else {
      var c := t.cmd + [p[0]];
      assert Step(m, t, p[0]) == (t.(cmd := c), []);
      RunParams(m, t.(cmd := c), p[1..]);
      assert c + p[1..] == t.cmd + p;
      assert Step(m, t, p[0]).1 + Run(m, t.(cmd := c), p[1..]).1 == [];
    }
  }

  lemma RunOne<A>(m: Attrs<A>, t: Term<A>, b: byte)
    ensures Run(m, t, [b]) == Step(m, t, b)
  {
    assert Step(m, t, b).1 + [] == Step(m, t, b).1;
  }

  /** A parameter byte straight after ESC goes on with a command as the bracket does. */
  lemma RunSecond<A>(m: Attrs<A>, t: Term<A>, x: byte)
    requires t.cmd == [] && (x == BRACKET || IsParam(x))
    ensures Run(m, t, [ESC, x]) == (t.(cmd := [ESC, x]), [])
  {
    RunOne(m, t, ESC);
    RunOne(m, t.(cmd := [ESC]), x);
    RunQuiet(m, t, t.(cmd := [ESC]), [ESC], [x]);
    assert [ESC] + [x] == [ESC, x];
  }

  /** A command of at most 63 bytes that ends in "m" is executed as SGR, and draws nothing, whatever its second byte is. */
  lemma RunSgrCmd<A>(m: Attrs<A>, t: Term<A>, x: byte, p: seq<byte>)
    requires t.cmd == [] && (x == BRACKET || IsParam(x)) && AllParams(p) && |p| + 3 <= MAX_CMD
    ensures Run(m, t, [ESC, x] + p + [FINAL_M]) == (ApplySgr(m, t, p), [])
  {
    var t2 := t.(cmd := [ESC, x]);
    var t3 := t.(cmd := [ESC, x] + p);
    RunSecond(m, t, x);
    RunParams(m, t2, p);
    RunQuiet(m, t, t2, [ESC, x], p);
    RunQuiet(m, t, t3, [ESC, x] + p, [FINAL_M]);
    RunOne(m, t3, FINAL_M);
    var cmd := t3.cmd + [FINAL_M];
    assert CmdParams(cmd) == p;
    assert t3.(cmd := []) == t;
  }

  /** A line end in an OSC string only breaks the string off: the line is not ended. */
  lemma OscSwallowsLineEnd<A>(m: Attrs<A>, t: Term<A>, b: byte, s: seq<byte>)
    requires |t.cmd| >= 2 && t.cmd[0] == 0x1B && t.cmd[1] == 0x5D && (b == 0x0D || b == 0x0A)
    ensures Run(m, t, [b] + s) == Run(m, t.(cmd := []), s)
  {
    var cmd := t.cmd + [b];
    assert IsOsc(cmd) && cmd[|cmd| - 1] == b && OscEnds(cmd) && !IsSgrCmd(cmd);
    RunOne(m, t, b);
    RunQuiet(m, t, t.(cmd := []), [b], s);
  }

  /** BEL, or a backslash after ESC, ends an OSC string, which is then executed; another byte is collected. */
  lemma OscByte<A>(m: Attrs<A>, t: Term<A>, b: byte)
    requires |t.cmd| >= 2 && t.cmd[0] == 0x1B && t.cmd[1] == 0x5D && b !in {0, 0xFF, 0x0D, 0x0A}
    ensures var e, ends := Step(m, t, b).1, b == 0x07 || (b == 0x5C && t.cmd[|t.cmd| - 1] == 0x1B);
            if ends then e != [] && e[|e| - 1] == Command(t.cmd + [b], t.attr)
            else Step(m, t, b) == (t.(cmd := t.cmd + [b]), [])
  {
    var cmd := t.cmd + [b];
    assert IsOsc(cmd) && cmd[|cmd| - 1] == b && cmd[|cmd| - 2] == t.cmd[|t.cmd| - 1] && !IsSgrCmd(cmd);
  }

  lemma RunSgr<A>(m: Attrs<A>, t: Term<A>, p: seq<byte>)
    requires t.cmd == [] && AllParams(p) && |p| + 3 <= MAX_CMD
    ensures Run(m, t, SgrBytes(p)) == (ApplySgr(m, t, p), [])
  {
    RunSgrCmd(m, t, BRACKET, p);
  }

  /** Executing a parameter list in two parts, cut at a semicolon, is executing it. */
  lemma {:induction false} ApplySgrConcat<A>(m: Attrs<A>, t: Term<A>, p: seq<byte>, q: seq<byte>)
    requires AllParams(p)
    ensures ApplySgr(m, t, p + [SEMICOLON] + q) == ApplySgr(m, ApplySgr(m, t, p), q)
    decreases |p|
  {
    var s := p + [SEMICOLON] + q;
    var k := DigitRun(p);
    DigitRunStops(p, q);
    assert s[..k] == p[..k];
    if k < |p| {
      assert s[k + 1..] == p[k + 1..] + [SEMICOLON] + q;
      ApplySgrConcat(m, ApplyParam(m, t, Param(p[..k])), p[k + 1..], q);
    } else {
      assert s[k + 1..] == q;
    }
  }

  lemma {:induction false} DigitRunStops(p: seq<byte>, q: seq<byte>)
    requires AllParams(p)
    ensures DigitRun(p + [SEMICOLON] + q) == DigitRun(p)
  {
    if p != [] && 0x30 <= p[0] <= 0x39 {
      assert (p + [SEMICOLON] + q)[1..] == p[1..] + [SEMICOLON] + q;
      DigitRunStops(p[1..], q);
    }
  }

  /** No parameter of the list is 66. */
  predicate NoFreeze(p: seq<byte>)
    decreases |p|
  {
    var k := DigitRun(p);
    Param(p[..k]) != 66 && (k < |p| ==> NoFreeze(p[k + 1..]))
  }

  /** The attribute that an SGR command without the parameter 66 leaves. */
  function AttrAfter<A>(m: Attrs<A>, a: A, p: seq<byte>): A
    decreases |p|
  {
    var k := DigitRun(p);
    var a' := m.sgr(a, Param(p[..k]));
    if k < |p| then AttrAfter(m, a', p[k + 1..]) else a'
  }

  lemma {:induction false} NoFreezeOnlyAttr<A>(m: Attrs<A>, t: Term<A>, p: seq<byte>)
    requires NoFreeze(p)
    ensures ApplySgr(m, t, p) == t.(attr := AttrAfter(m, t.attr, p))
    decreases |p|
  {
    var k := DigitRun(p);
    if k < |p| {
      NoFreezeOnlyAttr(m, t.(attr := m.sgr(t.attr, Param(p[..k]))), p[k + 1..]);
    }
  }
}
