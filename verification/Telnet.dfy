/**
 * The telnet filter of common/sys/telnet.c: a byte automaton over client input that keeps the data
 * bytes, compacting the buffer in place, and reports what the client negotiated.
 */
module Telnet {
  import opened Bytes
  import opened Prelude

  // command and option codes of RFC 854 and its options
  const IAC: byte := 255
  const DONT: byte := 254
  const DO: byte := 253
  const WONT: byte := 252
  const WILL: byte := 251
  const SB: byte := 250
  const AYT: byte := 246
  const SE: byte := 240
  const OPT_BINARY: byte := 0
  const OPT_ECHO: byte := 1
  const OPT_SGA: byte := 3
  const OPT_TTYPE: byte := 24
  const OPT_NAWS: byte := 31
  const MAXLEN := 32

  datatype IacState = Idle | Command | WaitOpt | WaitSe | ProcessOpt

  /** What the filter tells the rest of the system. */
  datatype Event =
    | Write(data: seq<byte>)
    | AreYouThere
    | Resize(w: nat, h: nat)
    | TermType(name: seq<byte>)
    | ClientCode(b: byte)

  /** Which callbacks are set; `clientCode` stands for a client-code callback with its argument. */
  datatype Hooks = Hooks(resize: bool, ttype: bool, clientCode: bool)

  /** The value of a context. */
  datatype State = State(iac: IacState, quote: bool, optReq: byte, buf: seq<byte>, buflen: nat)

  /** What holds between bytes: no command is half processed, and a subnegotiation has room for a byte. */
  predicate Resting(s: State) {
    && |s.buf| == MAXLEN && s.buflen <= MAXLEN
    && !s.iac.Command? && !s.iac.ProcessOpt?
    && (s.iac.WaitSe? ==> s.buflen < MAXLEN)
  }

  const INITIAL := State(Idle, false, 0, seq(MAXLEN, i => 0), 0)

  function Codes(hk: Hooks, bytes: seq<byte>): seq<Event> {
    if hk.clientCode then seq(|bytes|, i requires 0 <= i < |bytes| => ClientCode(bytes[i])) else []
  }

  /** The reply to an option the board does not know: refused, if it was a request. */
  function Refusal(req: byte, opt: byte): seq<Event> {
    if opt in {OPT_TTYPE, OPT_NAWS, OPT_SGA, OPT_ECHO, OPT_BINARY} then []
    else if req == WILL then [Write([IAC, DONT, opt])]
    else if req == DO then [Write([IAC, WONT, opt])]
    else []
  }

  /** The client's size class, as the client-code hash sees it. */
  function SizeClass(w: nat, h: nat): byte {
    if w == 80 && h == 24 then 1 else if w == 80 then 2 else if h == 24 then 3 else 4
  }

  /** What a complete subnegotiation reports. */
  function Subnegotiation(hk: Hooks, buf: seq<byte>, len: nat): seq<Event>
    requires |buf| == MAXLEN && len <= MAXLEN
  {
    if buf[0] == OPT_NAWS then
      var w: nat, h: nat := buf[1] as int * 256 + buf[2], buf[3] as int * 256 + buf[4];
      (if hk.resize then [Resize(w, h)] else []) + Codes(hk, [OPT_NAWS, SizeClass(w, h), IAC, SE])
    else
      (if buf[0] == OPT_TTYPE && hk.ttype && len > 2 then [TermType(buf[2..len])] else [])
      + Codes(hk, buf[..len] + [IAC, SE])
  }

  datatype Reaction = Reaction(state: State, kept: seq<byte>, events: seq<Event>)

  /** The byte after a top-level IAC. */
  function OnCommand(t: State, c: byte): Reaction {
    if c == AYT then Reaction(t, [], [AreYouThere])
    else if c == DONT || c == DO || c == WONT || c == WILL then Reaction(t.(optReq := c, iac := WaitOpt), [], [])
    else if c == SB then Reaction(t.(iac := WaitSe, buflen := 0), [], [])
    else Reaction(t, [], [])
  }

  /** The option of a request; the filter is then idle. */
  function OnOption(t: State, c: byte): Reaction {
    Reaction(t.(iac := Idle), [], Refusal(t.optReq, c))
  }

  /** A byte of a subnegotiation: the one that fills the buffer ends it and passes as data. */
  function OnCollect(t: State, c: byte): Reaction
    requires |t.buf| == MAXLEN && t.buflen < MAXLEN
  {
    var u := t.(buf := t.buf[t.buflen := c], buflen := t.buflen + 1);
    if u.buflen == MAXLEN then Reaction(u.(iac := Idle), [c], []) else Reaction(u, [], [])
  }

  /** One byte through the automaton, the client code apart. */
  function React(hk: Hooks, s: State, c: byte): (r: Reaction)
    requires Resting(s)
    ensures Resting(r.state)
  {
    var t := s.(quote := false);
    match s.iac
    case Idle => if s.quote then OnCommand(t, c) else Reaction(t, [c], [])
    case WaitOpt => OnOption(t, c)
    case WaitSe =>
      if s.quote && c == SE then Reaction(t.(iac := Idle), [], Subnegotiation(hk, s.buf, s.buflen)) else OnCollect(t, c)
  }

  /** One byte through the automaton. */
  function Step(hk: Hooks, s: State, c: byte): (r: Reaction)
    requires Resting(s)
    ensures Resting(r.state)
  {
    if c == IAC && !s.quote then Reaction(s.(quote := true), [], [])
    else
      var codes := if s.iac.WaitSe? then [] else Codes(hk, if s.quote then [IAC, c] else [c]);
      var r := React(hk, s, c);
      r.(events := codes + r.events)
  }

  function Run(hk: Hooks, s: State, input: seq<byte>): (r: Reaction)
    requires Resting(s)
    ensures Resting(r.state)
    decreases |input|
  {
    if input == [] then Reaction(s, [], [])
    else
      var a := Step(hk, s, input[0]);
      var b := Run(hk, a.state, input[1..]);
      Reaction(b.state, a.kept + b.kept, a.events + b.events)
  }

  function Then(a: Reaction, b: Reaction): Reaction {
    Reaction(b.state, a.kept + b.kept, a.events + b.events)
  }

  lemma {:induction false} RunConcat(hk: Hooks, s: State, a: seq<byte>, b: seq<byte>)
    requires Resting(s)
    ensures Run(hk, s, a + b) == Then(Run(hk, s, a), Run(hk, Run(hk, s, a).state, b))
    decreases |a|
  {
    hide Step;
    if a == [] {
      assert a + b == b;
    } else {
      assert (a + b)[0] == a[0] && (a + b)[1..] == a[1..] + b;
      var r := Step(hk, s, a[0]);
      var x := Run(hk, r.state, a[1..]);
      var y := Run(hk, x.state, b);
      RunConcat(hk, r.state, a[1..], b);
      Associate(r.kept, x.kept, y.kept);
      Associate(r.events, x.events, y.events);
    }
  }

  lemma RunOne(hk: Hooks, s: State, c: byte)
    requires Resting(s)
    ensures Run(hk, s, [c]) == Step(hk, s, c)
  {
    var a := Step(hk, s, c);
    assert a.kept + [] == a.kept && a.events + [] == a.events;
  }

  class TelnetCtx {
    const hooks: Hooks
    var iacState: IacState
    var iacQuote: bool
    var iacOptReq: byte
    const iacBuf: array<byte>
    var iacBuflen: nat
    /** Everything reported through the callbacks so far. */
    var log: seq<Event>

    ghost function Value(): State
      reads this, iacBuf
    {
      State(iacState, iacQuote, iacOptReq, iacBuf[..], iacBuflen)
    }

    ghost predicate Valid()
      reads this, iacBuf
    {
      Resting(Value())
    }

    constructor (hooks: Hooks)
      ensures Valid() && fresh(iacBuf) && Value() == INITIAL && log == [] && this.hooks == hooks
    {
      this.hooks := hooks;
      iacState, iacQuote, iacOptReq, iacBuflen := Idle, false, 0, 0;
      iacBuf := new byte[MAXLEN](_ => 0);
      log := [];
      new;
      assert iacBuf[..] == INITIAL.buf;
    }

    /** Tells the client-code callback, if there is one. */
    method Tell(bytes: seq<byte>)
      modifies this`log
      ensures log == old(log) + Codes(hooks, bytes)
    {
      if hooks.clientCode {
        log := log + Codes(hooks, bytes);
      }
    }

    /** Takes one byte; says whether it was part of a command. */
    method Handler(c: byte) returns (handled: bool)
      requires Valid()
      modifies this, iacBuf
      ensures Valid()
      ensures var r := Step(hooks, old(Value()), c);
              Value() == r.state && log == old(log) + r.events && r.kept == if handled then [] else [c]
    {
      hide OnCommand, OnOption, OnCollect, Subnegotiation, Codes;
      ghost var s0 := Value();
      ghost var reaction := React(hooks, s0, c);
      if c == IAC && !iacQuote {
        iacQuote := true;
        return true;
      }
      ghost var codes := if iacState.WaitSe? then [] else Codes(hooks, if iacQuote then [IAC, c] else [c]);
      if !iacState.WaitSe? {
        Tell(if iacQuote then [IAC, c] else [c]);
      }
      ghost var told := log;
      assert told == old(log) + codes;
      if iacQuote {
        if iacState == Idle {
          iacState := Command;
        }
        if iacState == WaitSe && c == SE {
          iacState := ProcessOpt;
        }
        iacQuote := false;
      }
      match iacState {
        case Idle =>
          handled := false;
        case Command =>
          TakeCommand(c);
          handled := true;
        case WaitOpt =>
          TakeOption(c);
          handled := true;
        case WaitSe =>
          handled := Collect(c);
        case ProcessOpt =>
          iacState := Idle;
          ReportOption();
          handled := true;
      }
      assert Value() == reaction.state && reaction.kept == if handled then [] else [c];
      assert log == told + reaction.events;
      Associate(old(log), codes, reaction.events);
    }

    method TakeCommand(c: byte)
      modifies this
      ensures var r := OnCommand(old(Value()).(iac := Idle), c);
              Value() == r.state && log == old(log) + r.events && r.kept == []
    {
      iacState := Idle;
      if c == AYT {
        log := log + [AreYouThere];
      } else if c == DONT || c == DO || c == WONT || c == WILL {
        iacOptReq := c;
        iacState := WaitOpt;
      } else if c == SB {
        iacState := WaitSe;
        iacBuflen := 0;
      }
    }

    method TakeOption(c: byte)
      modifies this
      ensures var r := OnOption(old(Value()), c);
              Value() == r.state && log == old(log) + r.events && r.kept == []
    {
      iacState := Idle;
      if !(c in {OPT_TTYPE, OPT_NAWS, OPT_SGA, OPT_ECHO, OPT_BINARY}) {
        if iacOptReq == WILL || iacOptReq == DO {
          log := log + [Write([IAC, if iacOptReq == DO then WONT else DONT, c])];
        }
      }
    }

    method Collect(c: byte) returns (handled: bool)
      requires iacBuf.Length == MAXLEN && iacBuflen < MAXLEN
      modifies this, iacBuf
      ensures var r := OnCollect(old(Value()), c);
              Value() == r.state && log == old(log) + r.events && r.kept == if handled then [] else [c]
    {
      iacBuf[iacBuflen] := c;
      iacBuflen := iacBuflen + 1;
      if iacBuflen == MAXLEN {
        iacState := Idle;
        return false;
      }
      return true;
    }

    /** Reports the subnegotiation collected. */
    method ReportOption()
      requires iacBuf.Length == MAXLEN && iacBuflen <= MAXLEN
      modifies this`log
      ensures log == old(log) + Subnegotiation(hooks, iacBuf[..], iacBuflen)
    {
      hide Codes;
      ghost var told := log;
      if iacBuf[0] == OPT_NAWS {
        var w: nat := iacBuf[1] as int * 256 + iacBuf[2];
        var h: nat := iacBuf[3] as int * 256 + iacBuf[4];
        if hooks.resize {
          log := log + [Resize(w, h)];
        }
        ghost var resized := if hooks.resize then [Resize(w, h)] else [];
        assert log == told + resized;
        Tell([OPT_NAWS, SizeClass(w, h), IAC, SE]);
        Associate(told, resized, Codes(hooks, [OPT_NAWS, SizeClass(w, h), IAC, SE]));
      } else {
        if iacBuf[0] == OPT_TTYPE && hooks.ttype && iacBuflen > 2 {
          log := log + [TermType(iacBuf[2..iacBuflen])];
        }
        ghost var named := if iacBuf[0] == OPT_TTYPE && hooks.ttype && iacBuflen > 2
                           then [TermType(iacBuf[2..iacBuflen])] else [];
        assert log == told + named;
        Tell(iacBuf[..iacBuflen] + [IAC, SE]);
        Associate(told, named, Codes(hooks, iacBuf[..iacBuflen] + [IAC, SE]));
      }
    }

    /** Takes the byte at `i`, and keeps it at `at` if it is data. */
    method FilterByte(data: array<byte>, i: nat, at: nat, size: nat) returns (next: nat)
      requires Valid() && at <= i < size <= data.Length && data != iacBuf
      modifies this, iacBuf, data
      ensures Valid()
      ensures var r := Step(hooks, old(Value()), old(data[i]));
              && Value() == r.state && log == old(log) + r.events
              && next <= i + 1 && data[..next] == old(data[..at]) + r.kept
      ensures data[i + 1..size] == old(data[i + 1..size])
    {
      hide Step;
      var c := data[i];
      var handled := Handler(c);
      if !handled {
        data[at] := c;
        return at + 1;
      }
      return at;
    }

    /**
     * Filters a buffer in place: the bytes kept are moved to its front, and their number is returned,
     * or -1 when the whole buffer was commands.
     */
    method Process(data: array<byte>, size: int) returns (r: int)
      requires Valid() && size <= data.Length && data != iacBuf
      modifies this, iacBuf, data
      ensures Valid()
      ensures size <= 0 ==> r == size && unchanged(this, iacBuf, data)
      ensures size > 0 ==>
                var f := Filtered(hooks, old(Value()), old(data[..size]));
                && Value() == f.state && log == old(log) + f.events
                && |f.kept| <= size && data[..|f.kept|] == f.kept
                && r == if f.kept == [] then -1 else |f.kept|
    {
      hide Step, Run, Then;
      r := size;
      if size > 0 {
        if iacState == Idle && !iacQuote && IAC !in data[..size] {
          return size;
        }
        ghost var input, f := data[..size], Run(hooks, Value(), data[..size]);
        var i, at := 0, 0;
        ghost var done := Reaction(Value(), [], []);
        RunNothingYet(hooks, Value(), input, log);
        while i < size
          invariant 0 <= i <= size && 0 <= at <= i
          invariant Valid() && data[..at] == done.kept && data[i..size] == input[i..]
          invariant Value() == done.state && log == old(log) + done.events
          invariant f == Then(done, Run(hooks, done.state, input[i..]))
        {
          assert data[i] == data[i..size][0] == input[i..][0] == input[i];
          assert input[i + 1..] == input[i..][1..] == data[i + 1..size];
          ghost var step := Step(hooks, done.state, input[i]);
          RunOnward(hooks, done, input, i, old(log));
          at := FilterByte(data, i, at, size);
          done := Then(done, step);
          i := i + 1;
        }
        RunFinished(hooks, done, input);
        r := if at == 0 then -1 else at;
      }
    }
  }

  lemma RunNothingYet(hk: Hooks, s: State, input: seq<byte>, log: seq<Event>)
    requires Resting(s)
    ensures Run(hk, s, input) == Then(Reaction(s, [], []), Run(hk, s, input[0..])) && log + [] == log
  {
    assert input[0..] == input;
  }

  lemma RunFinished(hk: Hooks, done: Reaction, input: seq<byte>)
    requires Resting(done.state)
    ensures Then(done, Run(hk, done.state, input[|input|..])) == done
  {
    assert input[|input|..] == [];
  }

  /** The run of the rest of a buffer goes on from the reaction to what came before. */
  lemma RunOnward(hk: Hooks, done: Reaction, input: seq<byte>, i: nat, log: seq<Event>)
    requires Resting(done.state) && i < |input|
    ensures var step := Step(hk, done.state, input[i]);
            var more := Then(done, step);
            && Then(done, Run(hk, done.state, input[i..])) == Then(more, Run(hk, more.state, input[i + 1..]))
            && log + done.events + step.events == log + more.events
            && more.kept == done.kept + step.kept && more.state == step.state
  {
    hide Step;
    assert input[i..][1..] == input[i + 1..];
  }

  /** A buffer that the filter does not look into: no command is open, and none begins in it. */
  predicate Plain(s: State, chunk: seq<byte>) {
    s.iac.Idle? && !s.quote && IAC !in chunk
  }

  /** What a call of the filter does with a buffer: a plain one passes unseen. */
  function Filtered(hk: Hooks, s: State, chunk: seq<byte>): (r: Reaction)
    requires Resting(s)
    ensures Resting(r.state)
  {
    if Plain(s, chunk) then Reaction(s, chunk, []) else Run(hk, s, chunk)
  }

  // ----- independence of how a stream is cut -----

  function NewsOf(e: Event): seq<Event> {
    if e.ClientCode? then [] else [e]
  }

  /** The events other than client code. */
  function News(es: seq<Event>): seq<Event> {
    if es == [] then [] else NewsOf(es[0]) + News(es[1..])
  }

  lemma {:induction false} NewsConcat(a: seq<Event>, b: seq<Event>)
    ensures News(a + b) == News(a) + News(b)
  {
    hide NewsOf;
    if a == [] {
      assert a + b == b;
    } else {
      assert (a + b)[0] == a[0] && (a + b)[1..] == a[1..] + b;
      NewsConcat(a[1..], b);
      Associate(NewsOf(a[0]), News(a[1..]), News(b));
    }
  }

  /** What the filter makes of a stream that arrives in these pieces. */
  function FilterAll(hk: Hooks, s: State, chunks: seq<seq<byte>>): (r: Reaction)
    requires Resting(s)
    ensures Resting(r.state)
    decreases |chunks|
  {
    if chunks == [] then Reaction(s, [], [])
    else
      var a := Filtered(hk, s, chunks[0]);
      Then(a, FilterAll(hk, a.state, chunks[1..]))
  }

  lemma {:induction false} CodesAreNoNews(es: seq<Event>)
    requires forall i :: 0 <= i < |es| ==> es[i].ClientCode?
    ensures News(es) == []
  {
    if es != [] { CodesAreNoNews(es[1..]); }
  }

  /** In the idle state, bytes without IAC pass; only the client code hears of them. */
  lemma {:induction false} PlainPasses(hk: Hooks, s: State, data: seq<byte>)
    requires Resting(s) && Plain(s, data)
    ensures var r := Run(hk, s, data); r.state == s && r.kept == data && r.events == Codes(hk, data)
  {
    if data != [] {
      assert Step(hk, s, data[0]) == Reaction(s, [data[0]], Codes(hk, [data[0]]));
      PlainPasses(hk, s, data[1..]);
      assert Codes(hk, [data[0]]) + Codes(hk, data[1..]) == Codes(hk, data);
    }
  }

  /** The fast path is invisible but for client code. */
  lemma FastPathInvisible(hk: Hooks, s: State, chunk: seq<byte>)
    requires Resting(s)
    ensures var f, r := Filtered(hk, s, chunk), Run(hk, s, chunk);
            && f.state == r.state && f.kept == r.kept && News(f.events) == News(r.events)
            && (!hk.clientCode ==> f.events == r.events)
  {
    if Plain(s, chunk) {
      PlainPasses(hk, s, chunk);
      CodesAreNoNews(Codes(hk, chunk));
    }
  }

  /**
   * The filter does not depend on how a stream is cut: bytes kept, final context and every event but
   * client code are those of the uncut stream, and without a client-code hook all events are.
   */
  lemma {:induction false} CutsInvisible(hk: Hooks, s: State, chunks: seq<seq<byte>>)
    requires Resting(s)
    ensures var f, r := FilterAll(hk, s, chunks), Run(hk, s, Flatten(chunks));
            && f.state == r.state && f.kept == r.kept && News(f.events) == News(r.events)
            && (!hk.clientCode ==> f.events == r.events)
    decreases |chunks|
  {
    hide Run, Filtered, News;
    if chunks == [] {
      RunNothing(hk, s);
    } else {
      var rest := Flatten(chunks[1..]);
      FastPathInvisible(hk, s, chunks[0]);
      var f, r := Filtered(hk, s, chunks[0]), Run(hk, s, chunks[0]);
      CutsInvisible(hk, f.state, chunks[1..]);
      RunConcat(hk, s, chunks[0], rest);
      NewsConcat(f.events, FilterAll(hk, f.state, chunks[1..]).events);
      NewsConcat(r.events, Run(hk, r.state, rest).events);
    }
  }

  lemma RunNothing(hk: Hooks, s: State)
    requires Resting(s)
    ensures Run(hk, s, []) == Reaction(s, [], [])
  {
  }

  /** How many bytes of a stream in these pieces the filter does not look at. */
  function Unseen(hk: Hooks, s: State, chunks: seq<seq<byte>>): nat
    requires Resting(s)
    decreases |chunks|
  {
    if chunks == [] then 0
    else (if Plain(s, chunks[0]) then |chunks[0]| else 0) + Unseen(hk, Run(hk, s, chunks[0]).state, chunks[1..])
  }

  lemma UnseenChunk(hk: Hooks, s: State, chunk: seq<byte>)
    requires Resting(s) && hk.clientCode
    ensures var f, r := Filtered(hk, s, chunk), Run(hk, s, chunk);
            var n := if Plain(s, chunk) then |chunk| else 0;
            |r.events| == |f.events| + n && (n == 0 ==> f == r)
  {
    if Plain(s, chunk) {
      PlainPasses(hk, s, chunk);
    }
  }

  /**
   * When a cut shows: with a client-code hook, exactly when some byte arrives in a piece without commands. The hook
   * is then told of that many bytes fewer than for a stream that is looked at throughout.
   */
  lemma {:induction false} CutsShowIff(hk: Hooks, s: State, chunks: seq<seq<byte>>)
    requires Resting(s)
    ensures var f, r := FilterAll(hk, s, chunks), Run(hk, s, Flatten(chunks));
            && |r.events| == |f.events| + (if hk.clientCode then Unseen(hk, s, chunks) else 0)
            && (f.events == r.events <==> !hk.clientCode || Unseen(hk, s, chunks) == 0)
    decreases |chunks|
  {
    hide Run, Filtered, Plain;
    if !hk.clientCode {
      CutsInvisible(hk, s, chunks);
    } else if chunks == [] {
      RunNothing(hk, s);
    } else {
      UnseenChunk(hk, s, chunks[0]);
      FastPathInvisible(hk, s, chunks[0]);
      CutsShowIff(hk, Run(hk, s, chunks[0]).state, chunks[1..]);
      RunConcat(hk, s, chunks[0], Flatten(chunks[1..]));
    }
  }

  // ----- requests answered -----

  /** A two-byte command in the idle state, byte for byte. */
  lemma RunRequest(hk: Hooks, s: State, req: byte, opt: byte)
    requires Resting(s) && s.iac.Idle? && !s.quote && !hk.clientCode && opt != 255
    requires req in {251, 252, 253, 254}
    ensures Run(hk, s, [255, req, opt]) == Reaction(s.(optReq := req), [], Refusal(req, opt))
  {
    hide Run, Refusal;
    var a, b := s.(quote := true), s.(optReq := req, iac := WaitOpt);
    RunOne(hk, s, 255);
    RunOne(hk, a, req);
    RunOne(hk, b, opt);
    RunConcat(hk, s, [255], [req] + [opt]);
    RunConcat(hk, a, [req], [opt]);
    assert [255] + ([req] + [opt]) == [255, req, opt];
    assert Step(hk, s, 255) == Reaction(a, [], []);
    assert Step(hk, a, req) == Reaction(b, [], []);
    assert Step(hk, b, opt) == Reaction(s.(optReq := req), [], [] + Refusal(req, opt));
  }

  /**
   * What answers a request (RFC 854): an option the board does not know is refused, WILL by DONT and DO by WONT; nothing
   * answers WONT and DONT, nor binary transmission, echo, suppressed go-ahead, terminal types and window sizes.
   */
  lemma RequestsAnswered(hk: Hooks, s: State, opt: byte)
    requires Resting(s) && s.iac.Idle? && !s.quote && !hk.clientCode && opt != 255
    ensures var known := opt in {0, 1, 3, 24, 31};
            && Run(hk, s, [255, 251, opt]).events == (if known then [] else [Write([255, 254, opt])])
            && Run(hk, s, [255, 253, opt]).events == (if known then [] else [Write([255, 252, opt])])
            && Run(hk, s, [255, 252, opt]).events == [] && Run(hk, s, [255, 254, opt]).events == []
    ensures forall req: byte | req in {251, 252, 253, 254} ::
              var r := Run(hk, s, [255, req, opt]); r.kept == [] && r.state.iac.Idle? && !r.state.quote
  {
    hide Run;
    RunRequest(hk, s, 251, opt);
    RunRequest(hk, s, 252, opt);
    RunRequest(hk, s, 253, opt);
    RunRequest(hk, s, 254, opt);
  }

  /** The client-code hook hears a request byte for byte, before its answer. */
  lemma RequestHeard(hk: Hooks, s: State, req: byte, opt: byte)
    requires Resting(s) && s.iac.Idle? && !s.quote && hk.clientCode && opt != 255
    requires req in {251, 252, 253, 254}
    ensures Run(hk, s, [255, req, opt]).events == [ClientCode(255), ClientCode(req), ClientCode(opt)] + Refusal(req, opt)
  {
    hide Run, Refusal;
    var a, b := s.(quote := true), s.(optReq := req, iac := WaitOpt);
    RunOne(hk, s, 255);
    RunOne(hk, a, req);
    RunOne(hk, b, opt);
    RunConcat(hk, s, [255], [req] + [opt]);
    RunConcat(hk, a, [req], [opt]);
    assert [255] + ([req] + [opt]) == [255, req, opt];
    assert Step(hk, s, 255) == Reaction(a, [], []);
    assert Step(hk, a, req) == Reaction(b, [], [ClientCode(255), ClientCode(req)] + []);
    assert Step(hk, b, opt) == Reaction(s.(optReq := req), [], [ClientCode(opt)] + Refusal(req, opt));
    assert [ClientCode(255), ClientCode(req)] + ([ClientCode(opt)] + Refusal(req, opt))
        == [ClientCode(255), ClientCode(req), ClientCode(opt)] + Refusal(req, opt);
  }

  /** Are-you-there is passed on, and any other command is dropped. */
  lemma CommandsTaken(hk: Hooks, s: State, c: byte)
    requires Resting(s) && s.iac.Idle? && !s.quote && !hk.clientCode && c < 250
    ensures Run(hk, s, [255, c]) == Reaction(s, [], if c == 246 then [AreYouThere] else [])
  {
    hide Run;
    var a := s.(quote := true);
    RunOne(hk, s, 255);
    RunOne(hk, a, c);
    RunConcat(hk, s, [255], [c]);
    assert [255] + [c] == [255, c];
    assert Step(hk, s, 255) == Reaction(a, [], []);
    assert a.(quote := false) == s;
  }

  // ----- subnegotiations read back -----

  /** A payload as RFC 855 sends it: with its IAC bytes doubled. */
  function Quoted(p: seq<byte>): seq<byte> {
    if p == [] then [] else (if p[0] == IAC then [IAC, IAC] else [p[0]]) + Quoted(p[1..])
  }

  function Message(p: seq<byte>): seq<byte> {
    [IAC, SB] + Quoted(p) + [IAC, SE]
  }

  /** The context after `p` more bytes of a subnegotiation. */
  function Collected(s: State, p: seq<byte>): State
    requires |s.buf| == MAXLEN && s.buflen + |p| <= MAXLEN
  {
    s.(buf := s.buf[..s.buflen] + p + s.buf[s.buflen + |p|..], buflen := s.buflen + |p|)
  }

  lemma RunQuoted(hk: Hooks, s: State, c: byte)
    requires Resting(s) && s.iac.WaitSe? && !s.quote
    ensures Run(hk, s, Quoted([c])) == OnCollect(s, c)
  {
    assert [c][1..] == [];
    if c == IAC {
      assert Quoted([c]) == [IAC, IAC];
      var q := s.(quote := true);
      assert Step(hk, s, IAC) == Reaction(q, [], []);
      assert [IAC, IAC][1..] == [IAC];
      RunOne(hk, q, IAC);
      assert React(hk, q, IAC) == OnCollect(s, IAC) by { assert q.(quote := false) == s; }
      assert Step(hk, q, IAC) == OnCollect(s, IAC);
    } else {
      assert Quoted([c]) == [c];
      RunOne(hk, s, c);
      assert s.(quote := false) == s;
    }
  }

  lemma QuotedCons(c: byte, p: seq<byte>)
    ensures Quoted([c] + p) == Quoted([c]) + Quoted(p)
  {
    assert ([c] + p)[1..] == p && [c][1..] == [];
  }

  /** The quoted payload is collected as it was, as long as it fits below the last cell. */
  lemma {:induction false} Collects(hk: Hooks, s: State, p: seq<byte>)
    requires Resting(s) && s.iac.WaitSe? && !s.quote && s.buflen + |p| < MAXLEN
    ensures Run(hk, s, Quoted(p)) == Reaction(Collected(s, p), [], [])
    decreases |p|
  {
    hide Run;
    if p == [] {
      RunNothing(hk, s);
      assert Collected(s, p).buf == s.buf;
    } else {
      var c, rest := p[0], p[1..];
      assert p == [c] + rest;
      QuotedCons(c, rest);
      RunQuoted(hk, s, c);
      var t := OnCollect(s, c).state;
      Collects(hk, t, rest);
      RunConcat(hk, s, Quoted([c]), Quoted(rest));
      assert Collected(t, rest).buf == Collected(s, p).buf;
    }
  }

  lemma RunOpening(hk: Hooks, s: State)
    requires Resting(s) && s.iac.Idle? && !s.quote
    ensures Run(hk, s, [IAC, SB]) == Reaction(s.(iac := WaitSe, buflen := 0), [], Codes(hk, [IAC, SB]))
  {
    var q := s.(quote := true);
    var t := s.(iac := WaitSe, buflen := 0);
    assert Step(hk, s, IAC) == Reaction(q, [], []);
    assert q.(quote := false) == s;
    assert Codes(hk, [IAC, SB]) + [] == Codes(hk, [IAC, SB]);
    assert Step(hk, q, SB) == Reaction(t, [], Codes(hk, [IAC, SB]));
    assert [IAC, SB][1..] == [SB];
    RunOne(hk, q, SB);
  }

  lemma RunClosing(hk: Hooks, s: State)
    requires Resting(s) && s.iac.WaitSe? && !s.quote
    ensures Run(hk, s, [IAC, SE]) == Reaction(s.(iac := Idle), [], Subnegotiation(hk, s.buf, s.buflen))
  {
    var q := s.(quote := true);
    assert Step(hk, s, IAC) == Reaction(q, [], []);
    assert q.(quote := false) == s;
    var e := Subnegotiation(hk, s.buf, s.buflen);
    assert [] + e == e;
    assert Step(hk, q, SE) == Reaction(s.(iac := Idle), [], e);
    assert [IAC, SE][1..] == [SE];
    RunOne(hk, q, SE);
  }

  /** A subnegotiation of at most 31 bytes is taken whole, from any idle context. */
  lemma MessageRead(hk: Hooks, s: State, p: seq<byte>)
    requires Resting(s) && s.iac.Idle? && !s.quote && |p| < MAXLEN
    ensures var t := Collected(s.(buflen := 0), p);
            Run(hk, s, Message(p)) == Reaction(t, [], Codes(hk, [IAC, SB]) + Subnegotiation(hk, t.buf, |p|))
  {
    hide Run, Subnegotiation, Codes;
    var w := s.(iac := WaitSe, buflen := 0);
    RunOpening(hk, s);
    Collects(hk, w, p);
    RunConcat(hk, s, [IAC, SB], Quoted(p));
    RunClosing(hk, Collected(w, p));
    RunConcat(hk, s, [IAC, SB] + Quoted(p), [IAC, SE]);
    assert Codes(hk, [IAC, SB]) + [] == Codes(hk, [IAC, SB]);
  }

  /** The payload of RFC 1073, section 2: a window size, high bytes first. */
  function NawsPayload(w: nat, h: nat): seq<byte>
    requires w < 0x10000 && h < 0x10000
  {
    [OPT_NAWS, w / 256, w % 256, h / 256, h % 256]
  }

  /** Every window size is read back: one resize, no data, and the idle state. */
  lemma NawsReadBack(hk: Hooks, s: State, w: nat, h: nat)
    requires Resting(s) && s.iac.Idle? && !s.quote && w < 0x10000 && h < 0x10000
    requires hk.resize && !hk.clientCode
    ensures var r := Run(hk, s, Message(NawsPayload(w, h)));
            r.kept == [] && r.events == [Resize(w, h)] && r.state.iac.Idle? && !r.state.quote
  {
    hide Run;
    var p := NawsPayload(w, h);
    MessageRead(hk, s, p);
    var t := Collected(s.(buflen := 0), p);
    assert t.buf[..5] == p;
    assert forall i :: 0 <= i < 5 ==> t.buf[i] == t.buf[..5][i] == p[i];
    assert [] + [Resize(w, h)] + [] == [Resize(w, h)];
  }

  /**
   * A window size byte for byte, and what the hooks are told: the size, and with a client-code hook also the command
   * but for the size itself, in place of which there is its class.
   */
  lemma WindowSizeWritten(hk: Hooks, s: State, w1: byte, w2: byte, h1: byte, h2: byte)
    requires Resting(s) && s.iac.Idle? && !s.quote && w1 < 255 && w2 < 255 && h1 < 255 && h2 < 255
    ensures var r := Run(hk, s, [255, 250, 31, w1, w2, h1, h2, 255, 240]);
            var w, h := w1 as int * 256 + w2, h1 as int * 256 + h2;
            var size := if w == 80 && h == 24 then 1 else if w == 80 then 2 else if h == 24 then 3 else 4;
            && r.kept == [] && r.state.iac.Idle? && !r.state.quote
            && r.events == (if hk.clientCode then [ClientCode(255), ClientCode(250)] else [])
                           + (if hk.resize then [Resize(w, h)] else [])
                           + (if hk.clientCode then [ClientCode(31), ClientCode(size), ClientCode(255), ClientCode(240)] else [])
  {
    hide Run, Codes, Subnegotiation, Collected, Message;
    var p := [31, w1, w2, h1, h2];
    WindowMessage(w1, w2, h1, h2);
    MessageRead(hk, s, p);
    var t := Collected(s.(buflen := 0), p);
    CollectedFront(s, p);
    WindowReported(hk, t.buf, w1, w2, h1, h2);
    CodesWritten(hk, [255, 250]);
  }

  lemma WindowMessage(w1: byte, w2: byte, h1: byte, h2: byte)
    requires w1 < 255 && w2 < 255 && h1 < 255 && h2 < 255
    ensures Message([31, w1, w2, h1, h2]) == [255, 250, 31, w1, w2, h1, h2, 255, 240]
  {
    QuotedPlain([31, w1, w2, h1, h2]);
  }

  lemma CollectedFront(s: State, p: seq<byte>)
    requires |s.buf| == MAXLEN && |p| < MAXLEN
    ensures Collected(s.(buflen := 0), p).buf[..|p|] == p && |Collected(s.(buflen := 0), p).buf| == MAXLEN
    ensures Collected(s.(buflen := 0), p).iac == s.iac && Collected(s.(buflen := 0), p).quote == s.quote
  {
  }

  lemma CodesWritten(hk: Hooks, bytes: seq<byte>)
    ensures |bytes| == 2 ==>
              Codes(hk, bytes) == if hk.clientCode then [ClientCode(bytes[0]), ClientCode(bytes[1])] else []
    ensures |bytes| == 4 ==>
              Codes(hk, bytes) == if hk.clientCode then [ClientCode(bytes[0]), ClientCode(bytes[1]),
                                                         ClientCode(bytes[2]), ClientCode(bytes[3])] else []
  {
  }

  lemma WindowReported(hk: Hooks, buf: seq<byte>, w1: byte, w2: byte, h1: byte, h2: byte)
    requires |buf| == MAXLEN && buf[..5] == [31, w1, w2, h1, h2]
    ensures var w, h := w1 as int * 256 + w2, h1 as int * 256 + h2;
            var size := if w == 80 && h == 24 then 1 else if w == 80 then 2 else if h == 24 then 3 else 4;
            Subnegotiation(hk, buf, 5) ==
            (if hk.resize then [Resize(w, h)] else [])
            + (if hk.clientCode then [ClientCode(31), ClientCode(size), ClientCode(255), ClientCode(240)] else [])
  {
    hide Codes;
    assert forall i :: 0 <= i < 5 ==> buf[i] == buf[..5][i];
    var w, h := w1 as int * 256 + w2, h1 as int * 256 + h2;
    CodesWritten(hk, [31, SizeClass(w, h), 255, 240]);
  }

  /** A payload without IAC bytes is sent as it is. */
  lemma {:induction false} QuotedPlain(p: seq<byte>)
    requires 255 !in p
    ensures Quoted(p) == p
  {
    if p != [] { QuotedPlain(p[1..]); }
  }

  /** A terminal type byte for byte, without a client-code hook. */
  lemma TermTypeWritten(hk: Hooks, s: State, name: seq<byte>)
    requires Resting(s) && s.iac.Idle? && !s.quote && hk.ttype && !hk.clientCode
    requires 1 <= |name| <= 29 && 255 !in name
    ensures var r := Run(hk, s, [255, 250, 24, 0] + name + [255, 240]);
            r.events == [TermType(name)] && r.kept == [] && r.state.iac.Idle? && !r.state.quote
  {
    hide Run, Message, TtypePayload, Quoted;
    TermMessage(name);
    ShortTtypeReadBack(hk, s, name);
  }

  lemma TermMessage(name: seq<byte>)
    requires 255 !in name
    ensures Message(TtypePayload(name)) == [255, 250, 24, 0] + name + [255, 240]
  {
    hide Quoted;
    QuotedPlain(TtypePayload(name));
  }

  /** The client-code hook hears any other subnegotiation whole. */
  lemma SubnegotiationHeard(hk: Hooks, s: State, p: seq<byte>)
    requires Resting(s) && s.iac.Idle? && !s.quote && hk.clientCode && !hk.ttype
    requires 1 <= |p| <= 31 && p[0] != 31
    ensures Run(hk, s, Message(p)).events ==
            [ClientCode(255), ClientCode(250)] + seq(|p|, i requires 0 <= i < |p| => ClientCode(p[i]))
            + [ClientCode(255), ClientCode(240)]
  {
    hide Run, Message;
    MessageRead(hk, s, p);
    CollectedFront(s, p);
    var buf := Collected(s.(buflen := 0), p).buf;
    assert buf[0] == buf[..|p|][0] == p[0];
    var heard := seq(|p|, i requires 0 <= i < |p| => ClientCode(p[i]));
    assert Subnegotiation(hk, buf, |p|) == [] + Codes(hk, p + [255, 240]);
    assert Codes(hk, p + [255, 240]) == heard + [ClientCode(255), ClientCode(240)];
    assert Codes(hk, [255, 250]) == [ClientCode(255), ClientCode(250)];
  }

  /** A byte of plain data is kept, and the client-code hook is told of it when the filter looks at it. */
  lemma DataKept(hk: Hooks, s: State, c: byte)
    requires Resting(s) && s.iac.Idle? && !s.quote && c < 255
    ensures Run(hk, s, [c]) == Reaction(s, [c], if hk.clientCode then [ClientCode(c)] else [])
  {
    RunOne(hk, s, c);
    assert s.(quote := false) == s;
  }

  /** The payload of RFC 1091, section 2: IS and a terminal type. */
  function TtypePayload(name: seq<byte>): seq<byte> {
    [OPT_TTYPE, 0] + name
  }

  lemma ShortTtypeReadBack(hk: Hooks, s: State, name: seq<byte>)
    requires Resting(s) && s.iac.Idle? && !s.quote && 1 <= |name| <= 29
    requires hk.ttype && !hk.clientCode
    ensures var r := Run(hk, s, Message(TtypePayload(name)));
            r.kept == [] && r.events == [TermType(name)] && r.state.iac.Idle? && !r.state.quote
  {
    hide Run;
    var p := TtypePayload(name);
    MessageRead(hk, s, p);
    var t := Collected(s.(buflen := 0), p);
    assert t.buf[..|p|] == p;
    assert t.buf[0] == p[0] && t.buf[2..|p|] == p[2..] == name;
    assert [] + ([TermType(name)] + []) == [TermType(name)];
  }

  /** Data bytes other than IAC: what the idle filter keeps of quoted text. */
  function WithoutIac(p: seq<byte>): seq<byte> {
    if p == [] then [] else (if p[0] == IAC then [] else [p[0]]) + WithoutIac(p[1..])
  }

  lemma {:induction false} IdleText(hk: Hooks, s: State, p: seq<byte>)
    requires Resting(s) && s.iac.Idle? && !s.quote && !hk.clientCode
    ensures Run(hk, s, Quoted(p)) == Reaction(s, WithoutIac(p), [])
    decreases |p|
  {
    if p != [] {
      var c, rest := p[0], p[1..];
      assert p == [c] + rest;
      QuotedCons(c, rest);
      IdleOne(hk, s, c);
      IdleText(hk, s, rest);
      RunConcat(hk, s, Quoted([c]), Quoted(rest));
    }
  }

  lemma IdleOne(hk: Hooks, s: State, c: byte)
    requires Resting(s) && s.iac.Idle? && !s.quote && !hk.clientCode
    ensures Run(hk, s, Quoted([c])) == Reaction(s, if c == IAC then [] else [c], [])
  {
    assert [c][1..] == [];
    if c == IAC {
      assert Quoted([c]) == [IAC, IAC];
      var q := s.(quote := true);
      assert Step(hk, s, IAC) == Reaction(q, [], []);
      assert [IAC, IAC][1..] == [IAC];
      RunOne(hk, q, IAC);
      assert q.(quote := false) == s;
    } else {
      assert Quoted([c]) == [c];
      RunOne(hk, s, c);
      assert s.(quote := false) == s;
    }
  }

  /** A byte too many ends a subnegotiation: that byte and the rest of the payload pass as data, and nothing is reported. */
  lemma LongMessageSpills(hk: Hooks, s: State, p: seq<byte>)
    requires Resting(s) && s.iac.Idle? && !s.quote && !hk.clientCode && |p| >= MAXLEN
    ensures var r := Run(hk, s, Message(p));
            && r.kept == [p[MAXLEN - 1]] + WithoutIac(p[MAXLEN..]) && r.events == []
            && r.state.iac.Idle? && !r.state.quote
  {
    hide Run, Step, OnCommand, Quoted, WithoutIac;
    var w, fit, last, rest := s.(iac := WaitSe, buflen := 0), p[..MAXLEN - 1], p[MAXLEN - 1], p[MAXLEN..];
    var full := Collected(w, fit);
    var t := OnCollect(full, last).state;
    RunOpening(hk, s);
    Collects(hk, w, fit);
    RunQuoted(hk, full, last);
    IdleText(hk, t, rest);
    RunIdleClosing(hk, t);
    RunPieces(hk, s, [IAC, SB], Quoted(fit), Quoted([last]), Quoted(rest), [IAC, SE]);
    assert p == fit + ([last] + rest);
    QuotedConcat(fit, [last] + rest);
    QuotedConcat([last], rest);
    Associate(Quoted(fit), Quoted([last]), Quoted(rest));
  }

  lemma {:induction false} QuotedConcat(a: seq<byte>, b: seq<byte>)
    ensures Quoted(a + b) == Quoted(a) + Quoted(b)
  {
    if a == [] {
      assert a + b == b;
    } else {
      assert a + b == [a[0]] + (a[1..] + b) && a == [a[0]] + a[1..];
      QuotedCons(a[0], a[1..] + b);
      QuotedCons(a[0], a[1..]);
      QuotedConcat(a[1..], b);
      Associate(Quoted([a[0]]), Quoted(a[1..]), Quoted(b));
    }
  }

  lemma RunIdleClosing(hk: Hooks, s: State)
    requires Resting(s) && s.iac.Idle? && !s.quote && !hk.clientCode
    ensures Run(hk, s, [IAC, SE]) == Reaction(s, [], [])
  {
    var q := s.(quote := true);
    assert Step(hk, s, IAC) == Reaction(q, [], []);
    assert q.(quote := false) == s;
    assert [IAC, SE][1..] == [SE];
    RunOne(hk, q, SE);
  }

  /** Runs over pieces, one after the other. */
  lemma RunPieces(hk: Hooks, s: State, a: seq<byte>, b: seq<byte>, c: seq<byte>, d: seq<byte>, e: seq<byte>)
    requires Resting(s)
    ensures var ra := Run(hk, s, a);
            var rb := Run(hk, ra.state, b);
            var rc := Run(hk, rb.state, c);
            var rd := Run(hk, rc.state, d);
            Run(hk, s, a + (b + c + d) + e) == Then(Then(Then(Then(ra, rb), rc), rd), Run(hk, rd.state, e))
  {
    hide Run;
    RunConcat(hk, s, a, b);
    RunConcat(hk, s, a + b, c);
    RunConcat(hk, s, a + b + c, d);
    RunConcat(hk, s, a + b + c + d, e);
    assert a + (b + c + d) + e == a + b + c + d + e;
  }

  /**
   * A terminal type is delivered exactly when it has 1 to 29 bytes. An empty one is dropped, of a longer one
   * the bytes from the thirtieth on reach the program as input.
   */
  lemma TtypeReadBackIff(hk: Hooks, s: State, name: seq<byte>)
    requires Resting(s) && s.iac.Idle? && !s.quote
    requires hk.ttype && !hk.clientCode
    ensures var r := Run(hk, s, Message(TtypePayload(name)));
            && r.events == (if 1 <= |name| <= 29 then [TermType(name)] else [])
            && r.kept == (if |name| <= 29 then [] else [name[29]] + WithoutIac(name[30..]))
            && r.state.iac.Idle? && !r.state.quote
  {
    hide Run, Message;
    var p := TtypePayload(name);
    if name == [] {
      MessageRead(hk, s, p);
      var t := Collected(s.(buflen := 0), p);
      assert t.buf[..2] == p && t.buf[0] == t.buf[..2][0];
    } else if |name| <= 29 {
      ShortTtypeReadBack(hk, s, name);
    } else {
      LongMessageSpills(hk, s, p);
      assert p[MAXLEN..] == name[30..];
    }
  }
}
