/** The incremental UTF-8 decoder of include/multibyte.h and common/sys/utf8.c, and the validator built on it. */
module Utf8Decoder {
  import opened Bytes
  import opened Utf8Spec

  /** What one more byte makes of the bytes pending before it. */
  datatype Outcome = Ready(bytes: seq<byte>) | Partial(pending: seq<byte>) | Failed

  /**
   * The decoder's meaning: a complete RFC 3629 character is ready, a lead byte with too few tail
   * bytes stays pending, anything else is an error.
   */
  function Feed(pending: seq<byte>, b: byte): (o: Outcome)
    ensures o.Ready? ==> o.bytes != []
  {
    var q := pending + [b];
    if RfcChar(q) then Ready(q) else if IsPartial(q) then Partial(q) else Failed
  }

  /** Feeding the encoding of a scalar, byte by byte, stays pending until its last byte and then reads the scalar. */
  lemma FeedEncoding(u: scalar, k: nat)
    requires k < |Encode(u)|
    ensures Feed(Encode(u)[..k], Encode(u)[k]) ==
            if k + 1 == |Encode(u)| then Ready(Encode(u)) else Partial(Encode(u)[..k + 1])
    ensures CodePoint(Encode(u)) == u
  {
    var e := Encode(u);
    EncodeIsChar(u);
    assert e[..k] + [e[k]] == e[..k + 1];
    if k + 1 < |e| {
      assert IsPartial(e[..k + 1]);
      PartialIsNoChar(e[..k + 1]);
    } else {
      assert e[..k + 1] == e;
    }
  }

  lemma PartialIsNoChar(s: seq<byte>)
    requires IsPartial(s)
    ensures !RfcChar(s)
  {
    if RfcChar(s) { CharIsEncode(s); }
  }

  lemma TailRequired(p: seq<byte>, b: byte)
    requires IsPartial(p) && !IsTail(b)
    ensures Feed(p, b) == Failed
  {
    var q := p + [b];
    if RfcChar(q) { CharIsEncode(q); }
  }

  /** A number that `n` bytes may not carry: overlong, a surrogate, or past U+10FFFF. */
  predicate BadNumber(n: nat, u: int) {
    (n == 2 && u < 0x80) || (n == 3 && (u < 0x800 || 0xD800 <= u <= 0xDFFF)) || (n == 4 && (u < 0x10000 || u > 0x10FFFF))
  }

  /** A tail byte extends the pending bytes; the number it completes decides whether they are a character. */
  lemma TailExtends(p: seq<byte>, b: byte)
    requires IsPartial(p) && IsTail(b)
    ensures var q, n := p + [b], CharLen(p[0]);
            && CodePoint(q) == CodePoint(p) * 64 + (b - 0x80)
            && (|q| < n ==> Feed(p, b) == Partial(q))
            && (|q| == n ==> Feed(p, b) == if BadNumber(n, CodePoint(q)) then Failed else Ready(q))
  {
    var q := p + [b];
    assert q[..|q| - 1] == p;
    if |q| == CharLen(p[0]) {
      CharIffScalarInRange(q);
    } else {
      PartialIsNoChar(q);
    }
  }

  class Utf8Ctx {
    const buf: array<byte>
    var need: nat
    var got: nat
    var len: nat
    var ucs: int

    ghost predicate Valid()
      reads this, buf
    {
      && buf.Length == 5 && got <= need <= 4
      && (need == 0 ==> len <= 1)
      && (need != 0 ==> got != 0 && CharLen(buf[0]) == need && ucs == CodePoint(buf[..got]))
      && (0 < got < need ==> IsPartial(buf[..got]) && len == 0)
      && (0 < got == need ==> RfcChar(buf[..got]) && len == got)
    }

    /** The bytes of a character begun and not finished. */
    ghost function Pending(): (p: seq<byte>)
      requires Valid()
      reads this, buf
      ensures p != [] <==> IsPending()
    {
      if got < need then buf[..got] else []
    }

    predicate IsError()
      reads this
    {
      need == 0 && len > 0
    }

    predicate IsReady()
      reads this
    {
      need > 0 && got == need
    }

    predicate IsPending()
      reads this
    {
      need > got
    }

    constructor ()
      ensures Valid() && fresh(buf) && Pending() == [] && !IsError() && !IsReady()
    {
      buf := new byte[5](_ => 0);
      need, got, len, ucs := 0, 0, 0, -1;
    }

    method Reset()
      requires buf.Length == 5
      modifies this, buf
      ensures Valid() && Pending() == [] && !IsError() && !IsReady()
    {
      buf[0] := 0;
      need, got, len, ucs := 0, 0, 0, -1;
    }

    method Error()
      requires buf.Length == 5
      modifies this, buf
      ensures Valid() && Pending() == [] && IsError() && !IsReady()
    {
      buf[0], buf[1] := '?' as byte, 0;
      need, got, len, ucs := 0, 0, 1, '?' as int;
    }

    /** The code point of a ready character, taken out of the context; -1 when none is ready. */
    method GetUcs() returns (u: int)
      requires Valid()
      modifies this
      ensures Valid()
      ensures !old(IsReady()) ==> u == -1 && unchanged(this)
      ensures old(IsReady()) ==> u == old(CodePoint(buf[..got])) && Pending() == [] && !IsReady() && !IsError()
    {
      if !IsReady() {
        return -1;
      }
      u := ucs;
      need, got, len, ucs := 0, 0, 0, -1;
    }

    /** The context after a byte that made `o` of the bytes pending. */
    ghost predicate Shows(o: Outcome)
      requires Valid()
      reads this, buf
    {
      match o
      case Ready(c) => IsReady() && buf[..got] == c
      case Partial(p) => IsPending() && buf[..got] == p
      case Failed => IsError()
    }

    method AddByte(b: byte) returns (ready: bool)
      requires Valid()
      modifies this, buf
      ensures Valid() && Shows(Feed(old(Pending()), b))
      ensures ready == IsReady()
    {
      if IsReady() {
        Reset();
      }
      if need > 0 {
        ready := AddTail(b);
      } else {
        ready := AddLead(b);
      }
    }

    /** The branch of a byte that continues a pending character. */
    method AddTail(b: byte) returns (ready: bool)
      requires Valid() && IsPending()
      modifies this, buf
      ensures Valid() && Shows(Feed(old(Pending()), b))
      ensures ready == IsReady()
    {
      ghost var q := Pending() + [b];
      if !(0x80 <= b < 0xC0) || need < 2 || got == 0 || got >= need {
        TailRequired(Pending(), b);
        Error();
        return false;
      }
      TailExtends(Pending(), b);
      buf[got] := b;
      got := got + 1;
      assert buf[..got] == q;
      ucs := ucs * 64 + (b - 0x80);
      if got == need {
        if BadNumber(need, ucs) {
          Error();
          return false;
        }
        buf[got] := 0;
        assert buf[..got] == q;
        len := got;
        return true;
      }
      return false;
    }

    /** The branch of a byte that begins a character. */
    method AddLead(b: byte) returns (ready: bool)
      requires Valid() && need == 0
      modifies this, buf
      ensures Valid() && Shows(Feed([], b))
      ensures ready == IsReady()
    {
      assert [] + [b] == [b];
      if b < 0x80 {
        buf[0], buf[1] := b, 0;
        ucs := b;
        need, got, len := 1, 1, 1;
        assert buf[..got] == [b];
        return true;
      }
      if b < 0xC2 || b > 0xF4 {
        Error();
        return false;
      }
      buf[0] := b;
      got, len := 1, 0;
      if b < 0xE0 {
        need, ucs := 2, b - 0xC0;
      } else if b < 0xF0 {
        need, ucs := 3, b - 0xE0;
      } else {
        need, ucs := 4, b - 0xF0;
      }
      assert buf[..got] == [b];
      return false;
    }

    /** Encodes `u` into the context: the number of bytes, or 0 when `u` is no scalar value. */
    method FromUcs(u: int) returns (n: nat)
      requires buf.Length == 5
      modifies this, buf
      ensures Valid()
      ensures (0 <= u <= 0x10FFFF && !(0xD800 <= u <= 0xDFFF)) ==>
                n == |Encode(u)| && buf[..n] == Encode(u) && len == n && IsReady()
      ensures !(0 <= u <= 0x10FFFF && !(0xD800 <= u <= 0xDFFF)) ==> n == 0 && len == 0 && !IsReady()
    {
      hide CodePoint, IsPartial, RfcChar, CharLen;
      if u < 0 || u > 0x10FFFF || (u >= 0xD800 && u <= 0xDFFF) {
        Reset();
        return 0;
      }
      EncodeIsChar(u);
      ucs := u;
      if u < 0x80 {
        buf[0], buf[1] := u, 0;
        need, got, len := 1, 1, 1;
      } else if u < 0x800 {
        buf[0], buf[1], buf[2] := 0xC0 + u / 64, 0x80 + u % 64, 0;
        need, got, len := 2, 2, 2;
      } else if u < 0x10000 {
        buf[0], buf[1], buf[2], buf[3] := 0xE0 + u / 4096, 0x80 + u / 64 % 64, 0x80 + u % 64, 0;
        need, got, len := 3, 3, 3;
      } else {
        buf[0], buf[1], buf[2], buf[3] := 0xF0 + u / 262144, 0x80 + u / 4096 % 64, 0x80 + u / 64 % 64, 0x80 + u % 64;
        buf[4] := 0;
        need, got, len := 4, 4, 4;
      }
      assert buf[..len] == Encode(u);
      return len;
    }

    /** The bytes of the character held. */
    method ToMb() returns (mb: seq<byte>)
      requires Valid()
      ensures IsReady() ==> mb == buf[..got]
      ensures len == 0 ==> mb == []
    {
      mb := if len == 0 then [] else buf[..len];
    }
  }

  /** Accepts exactly the well-formed byte strings (`Utf8Spec.WellFormedIffEncoding` says which these are). */
  method IsValidUtf8(s: seq<byte>) returns (ok: bool)
    ensures ok <==> WellFormed(s)
  {
    hide Feed, RfcChar, CodePoint, CharLen, IsPartial;
    var ctx := new Utf8Ctx();
    ghost var start := 0;  // where the character being read begins
    assert s[0..] == s && s[0..0] == [];
    for i := 0 to |s|
      invariant ctx.Valid() && fresh(ctx) && fresh(ctx.buf)
      invariant 0 <= start <= i && s[start..i] == ctx.Pending()
      invariant WellFormed(s) <==> WellFormed(s[start..])
      invariant i == |s| && start < i ==> !WellFormed(s)
    {
      FeedDecidesAt(s, start, i);
      var ready := ctx.AddByte(s[i]);
      if !ready && !ctx.IsPending() {
        return false;
      }
      if ready {
        start := i + 1;
      }
    }
    return !ctx.IsPending();
  }

  lemma FeedDecidesAt(s: seq<byte>, start: nat, i: nat)
    requires start <= i < |s| && (start < i ==> IsPartial(s[start..i]))
    ensures match Feed(s[start..i], s[i])
            case Ready(_) => WellFormed(s[start..]) <==> WellFormed(s[i + 1..])
            case Partial(p) => p == s[start..i + 1] && (i + 1 == |s| ==> !WellFormed(s[start..]))
            case Failed => !WellFormed(s[start..])
  {
    var t := s[start..];
    assert t[..i - start] == s[start..i] && t[i - start + 1..] == s[i + 1..];
    assert s[start..i] + [s[i]] == s[start..i + 1];
    FeedDecides(t, i - start);
  }

  /** What the bytes read so far say about a string: they finish its first character, or refute it, or leave it open. */
  lemma FeedDecides(t: seq<byte>, k: nat)
    requires k < |t| && (k > 0 ==> IsPartial(t[..k]))
    ensures match Feed(t[..k], t[k])
            case Ready(c) => WellFormed(t) <==> WellFormed(t[k + 1..])
            case Partial(p) => k + 1 == |t| ==> !WellFormed(t)
            case Failed => !WellFormed(t)
  {
    hide RfcChar, IsPartial, CharLen;
    var q := t[..k] + [t[k]];
    assert q == t[..k + 1] && q[0] == t[0];
    if k > 0 {
      PartialIsShort(t[..k]);
    }
    if RfcChar(q) {
      CharPrefixes(q);
    } else if IsPartial(q) {
      PartialIsShort(q);
    }
    if WellFormed(t) {
      var c := t[..CharLen(t[0])];
      CharPrefixes(c);
      assert k + 1 <= |c| && q == c[..k + 1];
    }
  }

  lemma PartialIsShort(p: seq<byte>)
    requires IsPartial(p)
    ensures p != [] && |p| < CharLen(p[0])
  {
  }
}
