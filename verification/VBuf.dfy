/**
 * The ring buffer of common/sys/vbuf.c and include/cmsys.h. Every operation refines one on the
 * sequence of bytes it holds, which never exceeds the capacity, across wraparound and short transfers.
 */
module VBufs {
  import opened Bytes
  import opened Prelude

  const EOF := -1
  const RWSZ_ALL := 0
  const RWSZ_MIN := -1

  /** The bytes from `head` up to `tail` of a ring laid out in `s`. */
  function Ring(s: seq<byte>, head: nat, tail: nat): seq<byte>
    requires head <= |s| && tail <= |s|
  {
    if head <= tail then s[head..tail] else s[head..] + s[..tail]
  }

  /** Where a position one past the end continues. */
  function Wrap(i: nat, size: nat): nat {
    if i == size then 0 else i
  }

  /** Bytes put at the tail, short of the head and of the end of the buffer, are appended. */
  lemma RingPut(s: seq<byte>, s': seq<byte>, head: nat, tail: nat, data: seq<byte>)
    requires head < |s| && tail < |s| && tail + |data| <= |s| && |Ring(s, head, tail)| + |data| < |s|
    requires s' == StoreIn(s, tail, data)
    ensures Ring(s', head, Wrap(tail + |data|, |s|)) == Ring(s, head, tail) + data
  {
    if head <= tail {
      assert s'[head..tail + |data|] == s[head..tail] + data;
    }
  }

  /** Bytes taken from the head, short of the tail and of the end, are removed from the front. */
  lemma RingTake(s: seq<byte>, head: nat, tail: nat, n: nat)
    requires head < |s| && tail < |s| && head + n <= |s| && n <= |Ring(s, head, tail)|
    ensures Ring(s, head, tail)[..n] == s[head..head + n]
    ensures Ring(s, Wrap(head + n, |s|), tail) == Ring(s, head, tail)[n..]
  {
  }

  /** The same for a piece that runs over the end of the buffer. */
  lemma RingTakeAcross(s: seq<byte>, head: nat, tail: nat, n: nat)
    requires head < |s| && tail < |s| && n <= |Ring(s, head, tail)| && head + n >= |s|
    ensures n - (|s| - head) <= tail < head
    ensures Ring(s, head, tail)[..n] == s[head..] + s[..n - (|s| - head)]
    ensures Ring(s, head + n - |s|, tail) == Ring(s, head, tail)[n..]
  {
    var m := n - (|s| - head);
    assert Ring(s, head, tail) == s[head..] + s[..m] + s[m..tail];
  }

  function Reversed(s: seq<byte>): (r: seq<byte>)
    ensures |r| == |s| && forall i :: 0 <= i < |s| ==> r[i] == s[|s| - 1 - i]
  {
    seq(|s|, i requires 0 <= i < |s| => s[|s| - 1 - i])
  }

  function ReverseIn(s: seq<byte>, lo: nat, hi: nat): seq<byte>
    requires lo <= hi <= |s|
  {
    s[..lo] + Reversed(s[lo..hi]) + s[hi..]
  }

  function MoveIn(s: seq<byte>, dst: nat, src: nat, n: nat): seq<byte>
    requires dst + n <= |s| && src + n <= |s|
  {
    s[..dst] + s[src..src + n] + s[dst + n..]
  }

  function StoreIn(s: seq<byte>, at: nat, data: seq<byte>): seq<byte>
    requires at + |data| <= |s|
  {
    s[..at] + data + s[at + |data|..]
  }

  /** `[.. block | A ..]` turned into `[.. A | block ..]`. */
  function RotateIn(s: seq<byte>, at: nat, chunk: nat, lenA: nat): seq<byte>
    requires at + chunk + lenA <= |s|
  {
    s[..at] + s[at + chunk..at + chunk + lenA] + s[at..at + chunk] + s[at + chunk + lenA..]
  }

  /** One rotation after the other, by blocks of 128 bytes from `at` on. */
  function Turns(t: seq<byte>, at: nat, lenB: nat, lenA: nat): seq<byte>
    requires lenA + lenB <= |t|
    decreases lenB - at
  {
    if at >= lenB then t
    else
      var chunk := Min(128, lenB - at);
      Turns(RotateIn(t, at, chunk, lenA), at + chunk, lenB, lenA)
  }

  /** What the block-wise rotation makes of a wrapped buffer. */
  function Flattened(s: seq<byte>, head: nat, tail: nat): seq<byte>
    requires tail < head <= |s|
  {
    Turns(s[..tail] + s[head..], 0, tail, |s| - head)
  }

  /** How much of `sz` bytes a transfer moves when the system's answers are these (a negative one, or none, ends it). */
  function Moved(sz: nat, answers: seq<int>, once: bool): (n: nat)
    ensures n <= sz
  {
    if sz == 0 || answers == [] || answers[0] < 0 then 0
    else
      var k := Min(answers[0], sz);
      if once then k else k + Moved(sz - k, answers[1..], false)
  }

  /**
   * What a transfer of `n` of the `asked` bytes returns: 0 if it was complete, or if the system was asked once and did
   * not fail, and -1 otherwise. (The count that the code returns is never raised.)
   */
  function Outcome(want: int, asked: nat, n: nat, failed: bool): int {
    if asked == 0 then 0 else if want == -1 then (if failed then -1 else 0) else if n < asked then -1 else 0
  }

  class VBuf {
    const buf: array<byte>
    var head: nat
    var tail: nat
    const capacity: nat

    ghost predicate Valid()
      reads this
    {
      buf.Length > 1 && capacity == buf.Length - 1 && head < buf.Length && tail < buf.Length
    }

    ghost function Contents(): (s: seq<byte>)
      requires Valid()
      reads this, buf
      ensures |s| <= capacity
    {
      Ring(buf[..], head, tail)
    }

    function Size(): (n: nat)
      requires Valid()
      reads this, buf
      ensures n == |Contents()|
    {
      if tail >= head then tail - head else buf.Length - head + tail
    }

    function Space(): nat
      requires Valid()
      reads this, buf
    {
      capacity - Size()
    }

    predicate IsEmpty()
      requires Valid()
      reads this, buf
      ensures IsEmpty() <==> Contents() == []
    {
      assert head != tail ==> |Contents()| > 0;
      head == tail
    }

    constructor (size: nat)
      requires size > 1
      ensures Valid() && fresh(buf) && Contents() == [] && capacity == size - 1
    {
      buf := new byte[size](_ => 0);
      capacity := size - 1;
      head, tail := 0, 0;
    }

    method Clear()
      requires Valid()
      modifies this
      ensures Valid() && Contents() == []
    {
      head, tail := 0, 0;
    }

    method Peek() returns (c: int)
      requires Valid()
      ensures c == if Contents() == [] then EOF else Contents()[0] as int
    {
      if IsEmpty() {
        return EOF;
      }
      c := buf[head];
    }

    /** An emptied buffer starts over at its front. */
    method Normalize()
      requires Valid()
      modifies this
      ensures Valid() && Contents() == old(Contents())
      ensures head == tail ==> head == 0
    {
      if head == tail {
        head, tail := 0, 0;
      }
    }

    method Pop() returns (c: int)
      requires Valid()
      modifies this
      ensures Valid()
      ensures old(Contents()) == [] ==> c == -1 && Contents() == []
      ensures old(Contents()) != [] ==> c == old(Contents())[0] as int && Contents() == old(Contents())[1..]
    {
      c := Peek();
      if c >= 0 {
        head := head + 1;
        if head == buf.Length {
          head := 0;
        }
      }
      Normalize();
    }

    /** Removes `n` bytes from the front; the caller asks for no more than there are. */
    method PopN(n: nat)
      requires Valid() && n <= |Contents()|
      modifies this
      ensures Valid() && Contents() == old(Contents())[n..]
    {
      var h := head + n;
      if h < buf.Length {
        head := h;
        return;
      }
      h := h - buf.Length;
      if h > tail {
        h := tail;
      }
      head := h;
      Normalize();
    }

    method Add(c: byte) returns (ok: bool)
      requires Valid()
      modifies this`tail, buf
      ensures Valid() && ok == (|old(Contents())| < capacity)
      ensures Contents() == if ok then old(Contents()) + [c] else old(Contents())
    {
      if Space() == 0 {
        return false;
      }
      buf[tail] := c;
      tail := tail + 1;
      if tail == buf.Length {
        tail := 0;
      }
      return true;
    }

    /** First position of `c` in the cells from `lo` to `hi`, or -1. */
    method MemChr(lo: nat, hi: nat, c: byte) returns (r: int)
      requires lo <= hi <= buf.Length
      ensures r == -1 || lo <= r < hi
      ensures r >= 0 ==> buf[r] == c && forall i :: lo <= i < r ==> buf[i] != c
      ensures r < 0 ==> forall i :: lo <= i < hi ==> buf[i] != c
    {
      for i := lo to hi
        invariant forall k :: lo <= k < i ==> buf[k] != c
      {
        if buf[i] == c {
          return i;
        }
      }
      return -1;
    }

    /** The index of the first `c` among the bytes held, or EOF. */
    method StrChr(c: byte) returns (r: int)
      requires Valid()
      ensures r == -1 || 0 <= r < |Contents()|
      ensures r >= 0 ==> Contents()[r] == c && forall i :: 0 <= i < r ==> Contents()[i] != c
      ensures r < 0 ==> c !in Contents()
    {
      if IsEmpty() {
        return EOF;
      }
      var d := if tail < head then buf.Length else tail;
      var p := MemChr(head, d, c);
      assert forall i :: head <= i < d ==> Contents()[i - head] == buf[i];
      if p >= 0 {
        return p - head;
      }
      if tail > head {
        return EOF;
      }
      p := MemChr(0, tail, c);
      assert forall i :: 0 <= i < tail ==> Contents()[buf.Length - head + i] == buf[i];
      if p >= 0 {
        return buf.Length - head + p;
      }
      return EOF;
    }

    /**
     * The byte at an index, meant to be EOF for one that is not held. It misses the first piece of a wrapped buffer,
     * and goes around to the cells before the head of one that is not.
     */
    method PeekAt(i: nat) returns (c: int)
      requires Valid()
      ensures (c == if i < |Contents()| then Contents()[i] as int else EOF) <==>
              if head > tail then i >= buf.Length - head
              else head == tail || i >= capacity || !(buf.Length - head <= i < buf.Length - head + tail)
    {
      var s := head + i;
      if IsEmpty() || i >= capacity {
        return EOF;
      }
      if s < tail {
        return buf[s];
      }
      if s >= buf.Length {
        s := s - buf.Length;
      }
      if s < tail {
        return buf[s];
      }
      return EOF;
    }

    /**
     * Takes a string off the front, at most `sz` bytes with a zero to end it: up to the first zero byte, or else all
     * that is held. Without a zero byte the end overwrites the last byte taken, unless exactly one place is left.
     */
    method GetStr(dest: array<byte>, sz: nat) returns (ok: bool, ghost n: nat)
      requires Valid() && 0 < sz <= dest.Length && dest != buf
      modifies this, dest
      ensures Valid() && ok == (old(Contents()) != []) && (!ok ==> unchanged(this, dest))
      ensures ok ==> n < sz && dest[..n] <= old(Contents()) && dest[n] == 0 && 0 !in dest[..n]
      ensures ok && 0 in old(Contents())[..Min(|old(Contents())|, sz)] ==>
                old(Contents()) == dest[..n] + [0] + Contents()
      ensures ok && 0 !in old(Contents())[..Min(|old(Contents())|, sz)] ==>
                && Contents() == old(Contents())[Min(|old(Contents())|, sz)..]
                && (old(Contents()) == dest[..n] + Contents() <==> |old(Contents())| + 1 == sz)
    {
      hide Contents;
      n := 0;
      if IsEmpty() {
        return false, n;
      }
      ghost var c := Contents();
      var i, left := 0, sz as int;
      while true
        invariant Valid() && i <= sz && i <= |c| && left == sz - i && c != []
        invariant dest[..i] == c[..i] && Contents() == c[i..] && 0 !in c[..i]
        decreases sz - i
      {
        left := left - 1;
        if left < 0 || IsEmpty() {
          break;
        }
        var b := Pop();
        dest[i] := b as byte;
        i := i + 1;
        assert c[..i] == c[..i - 1] + [c[i - 1]];
        if b == 0 {
          n := i - 1;
          assert c[n] == 0 && c[n] in c[..Min(|c|, sz)];
          assert c == c[..n] + [0] + c[i..];
          return true, n;
        }
      }
      assert i == Min(|c|, sz);
      var end := if left == 0 then i else i - 1;
      dest[end] := 0;
      assert dest[..end] == c[..end];
      return true, end;
    }

    /** `memcpy` into the cells from `at`. */
    method Store(at: nat, data: seq<byte>)
      requires at + |data| <= buf.Length
      modifies buf
      ensures buf[..] == StoreIn(old(buf[..]), at, data)
    {
      forall i | 0 <= i < |data| { buf[at + i] := data[i]; }
    }

    function HeadSz(): (n: nat)
      requires Valid()
      reads this
      ensures tail + n <= buf.Length && n > 0
    {
      if head > tail then head - tail else buf.Length - tail
    }

    function TailSz(): (n: nat)
      requires Valid()
      reads this
      ensures head + n <= buf.Length
    {
      if tail >= head then tail - head else buf.Length - head
    }

    /** One contiguous copy to the tail. */
    method PutPiece(piece: seq<byte>)
      requires Valid() && |piece| <= HeadSz() && |Contents()| + |piece| <= capacity
      modifies this`tail, buf
      ensures Valid() && Contents() == old(Contents()) + piece && tail == Wrap(old(tail) + |piece|, buf.Length)
    {
      RingPut(buf[..], StoreIn(buf[..], tail, piece), head, tail, piece);
      Store(tail, piece);
      tail := tail + |piece|;
      if tail == buf.Length {
        tail := 0;
      }
    }

    /** One contiguous copy from the head. */
    method TakePiece(n: nat) returns (piece: seq<byte>)
      requires Valid() && n <= TailSz() && n <= |Contents()|
      modifies this`head
      ensures Valid() && piece == old(Contents())[..n] && Contents() == old(Contents())[n..]
      ensures head == Wrap(old(head) + n, buf.Length)
    {
      RingTake(buf[..], head, tail, n);
      piece := buf[head..head + n];
      head := head + n;
      if head == buf.Length {
        head := 0;
      }
    }

    /** Appends all of `data`, or nothing when there is no room (or nothing to append). */
    method PutBlk(data: seq<byte>) returns (ok: bool)
      requires Valid()
      modifies this`tail, buf
      ensures Valid() && ok == (data != [] && |old(Contents())| + |data| <= capacity)
      ensures Contents() == if ok then old(Contents()) + data else old(Contents())
    {
      if |data| == 0 || Space() < |data| {
        return false;
      }
      ghost var c := Contents();
      var done, i := 0, 0;
      while done < |data| && i < 2
        invariant Valid() && 0 <= i <= 2 && done <= |data| && Contents() == c + data[..done]
        invariant i > 0 ==> done == |data| || (tail == 0 && head > 0)
        invariant i > 1 ==> done == |data|
      {
        var rw := Min(HeadSz(), |data| - done);
        ghost var all := c + data[..done];
        assert data[..done] + data[done..done + rw] == data[..done + rw];
        PutPiece(data[done..done + rw]);
        assert all + data[done..done + rw] == c + data[..done + rw];
        done, i := done + rw, i + 1;
      }
      assert data[..|data|] == data;
      return true;
    }

    /** Takes `n` bytes off the front, or nothing when there are fewer (or none are asked for). */
    method GetBlk(n: nat) returns (ok: bool, data: seq<byte>)
      requires Valid()
      modifies this
      ensures Valid() && ok == (0 < n <= |old(Contents())|)
      ensures data == if ok then old(Contents())[..n] else []
      ensures Contents() == if ok then old(Contents())[n..] else old(Contents())
    {
      if n == 0 || Size() < n {
        return false, [];
      }
      ghost var c := Contents();
      data := [];
      var i := 0;
      while |data| < n && i < 2
        invariant Valid() && 0 <= i <= 2 && |data| <= n <= |c| && data == c[..|data|] && Contents() == c[|data|..]
        invariant i > 0 ==> |data| == n || head == 0
        invariant i > 1 ==> |data| == n
      {
        var rw := Min(TailSz(), n - |data|);
        var piece := TakePiece(rw);
        data, i := data + piece, i + 1;
      }
      Normalize();
      return true, data;
    }

    /** Reverses the cells from `lo` to `hi` in place. */
    method ReverseCells(lo: nat, hi: nat)
      requires lo <= hi <= buf.Length
      modifies buf
      ensures buf[..] == ReverseIn(old(buf[..]), lo, hi)
    {
      var begin, end := lo, hi;
      while begin < end
        invariant lo <= begin <= end + 1 && end <= hi && begin - lo == hi - end
        invariant forall i :: lo <= i < begin || end <= i < hi ==> buf[i] == old(buf[lo + hi - 1 - i])
        invariant forall i :: begin <= i < end || 0 <= i < lo || hi <= i < buf.Length ==> buf[i] == old(buf[i])
      {
        end := end - 1;
        var c := buf[end];
        buf[end] := buf[begin];
        buf[begin] := c;
        begin := begin + 1;
      }
    }

    /** `memmove` of `n` cells. */
    method MoveCells(dst: nat, src: nat, n: nat)
      requires dst + n <= buf.Length && src + n <= buf.Length
      modifies buf
      ensures buf[..] == MoveIn(old(buf[..]), dst, src, n)
    {
      forall i | 0 <= i < n { buf[dst + i] := buf[src + i]; }
    }

    predicate IsFlat()
      reads this
    {
      head <= tail
    }

    /** Unwraps the buffer by three reversals and one move: the bytes stay, and become contiguous. */
    method FlatInPlace()
      requires Valid()
      modifies this, buf
      ensures Valid() && IsFlat() && Contents() == old(Contents())
    {
      if tail >= head {
        return;
      }
      hide Reversed, ReverseIn, MoveIn;
      var sz := Size();
      ghost var s := buf[..];
      FlattenedByReversal(s, head, tail);
      ReverseCells(0, tail);
      ReverseCells(head, buf.Length);
      MoveCells(tail, head, buf.Length - head);
      head := 0;
      tail := sz;
      ReverseCells(head, tail);
    }

    /** One block of the rotation, by way of a copy. */
    method RotateBlock(at: nat, chunk: nat, lenA: nat)
      requires at + chunk + lenA <= buf.Length
      modifies buf
      ensures buf[..] == RotateIn(old(buf[..]), at, chunk, lenA)
    {
      hide MoveIn, StoreIn, RotateIn;
      ghost var s := buf[..];
      var tmp := buf[at..at + chunk];
      assert tmp == s[at..at + chunk];
      RotatedBlock(s, at, chunk, lenA);
      MoveCells(at, at + chunk, lenA);
      Store(at + lenA, tmp);
    }

    /**
     * Unwraps the buffer by way of a block of 128 bytes. No byte is lost, and their order is kept when the wrapped
     * part fits in one block; when it does not, byte 128 of the wrapped part comes first, whatever was first.
     */
    method Flat()
      requires Valid()
      modifies this, buf
      ensures Valid() && IsFlat() && multiset(Contents()) == multiset(old(Contents()))
      ensures old(head <= tail || tail <= 128) ==> Contents() == old(Contents())
      ensures old(head > tail > 128) ==> Contents() != [] && Contents()[0] == old(buf[128])
      ensures old(head > tail > 128) && old(buf[128]) != old(buf[head]) ==> Contents() != old(Contents())
      ensures old(head > tail) ==> Contents() == Flattened(old(buf[..]), old(head), old(tail))
    {
      hide Flattened, Turns, MoveIn, Ring;
      if tail >= head {
        return;
      }
      var lenB, lenA := tail, buf.Length - head;
      var sz := lenA + lenB;
      ghost var s := buf[..];
      BeforeTurn(s, head, tail);
      FlattenedMeans(s, head, tail);
      MoveCells(lenB, head, lenA);
      assert buf[..sz] == buf[..][..sz];
      RotateAll(lenB, lenA);
      head := 0;
      tail := sz;
      assert buf[..sz] == buf[..][..sz];
      AfterTurn(buf[..], sz);
    }

    /** The loop of the rotation. */
    method RotateAll(lenB: nat, lenA: nat)
      requires lenA + lenB <= buf.Length
      modifies buf
      ensures buf[..lenA + lenB] == Turns(old(buf[..lenA + lenB]), 0, lenB, lenA)
    {
      hide RotateIn;
      var processed := 0;
      while processed < lenB
        invariant processed <= lenB
        invariant Turns(buf[..lenA + lenB], processed, lenB, lenA) == Turns(old(buf[..lenA + lenB]), 0, lenB, lenA)
      {
        var chunk := Min(128, lenB - processed);
        RotatePrefix(buf[..], processed, chunk, lenA, lenA + lenB);
        assert buf[..][..lenA + lenB] == buf[..lenA + lenB];
        RotateBlock(processed, chunk, lenA);
        assert buf[..][..lenA + lenB] == buf[..lenA + lenB];
        processed := processed + chunk;
      }
    }

    /** The bytes as one string with a terminating zero, or nothing when there are none. */
    method CStr() returns (ok: bool)
      requires Valid()
      modifies this, buf
      ensures Valid() && ok == (old(Contents()) != [])
      ensures ok ==> IsFlat() && buf[tail] == 0
      ensures multiset(Contents()) == multiset(old(Contents()))
      ensures old(head <= tail || tail <= 128) ==> Contents() == old(Contents())
    {
      if IsEmpty() {
        return false;
      }
      Flat();
      ghost var c := buf[head..tail];
      buf[tail] := 0;
      assert buf[head..tail] == c;
      return true;
    }

    /** Hands `n` bytes to the system from at most two pieces, up to the end of the buffer and from its start. */
    method SendPieces(n: nat) returns (piece: seq<byte>)
      requires Valid() && n <= |Contents()|
      modifies this`head
      ensures Valid() && piece == old(Contents())[..n] && Contents() == old(Contents())[n..]
    {
      if head + n < buf.Length {
        RingTake(buf[..], head, tail, n);
      } else {
        RingTakeAcross(buf[..], head, tail, n);
      }
      var first := Min(n, buf.Length - head);
      piece := buf[head..head + first] + buf[..n - first];
      head := head + n;
      if head >= buf.Length {
        head := head - buf.Length;
      }
    }

    /** Takes bytes from the system into at most two pieces. */
    method ReceivePieces(data: seq<byte>)
      requires Valid() && |Contents()| + |data| <= capacity
      modifies this`tail, buf
      ensures Valid() && Contents() == old(Contents()) + data
    {
      var first := Min(HeadSz(), |data|);
      PutPiece(data[..first]);
      if first < |data| {
        PutPiece(data[first..]);
        assert data[..first] + data[first..] == data;
      } else {
        assert data[..first] == data;
      }
    }

    /** The number of bytes a transfer is asked for, `all` being what there is, or what there is room for; 0 if too many. */
    static function Requested(want: int, all: nat): (n: nat)
      ensures n <= all
    {
      var sz := if want == RWSZ_ALL || want == RWSZ_MIN then all else want;
      if sz < 1 || all < sz then 0 else sz
    }

    /**
     * Writes from the buffer to a system that takes what it likes (`answers`, one for each call, -1 or
     * none for an error): what it took is what was at the front, and no longer in the buffer.
     */
    method GeneralWrite(want: int, answers: seq<int>) returns (r: int, sent: seq<byte>)
      requires Valid()
      modifies this
      ensures Valid()
      ensures var held := old(Contents());
              var asked := if want == 0 || want == -1 then |held| else if 1 <= want <= |held| then want else 0;
              var n := Moved(asked, answers, want == -1);
              && sent == held[..n] && Contents() == held[n..]
              && r == Outcome(want, asked, n, answers == [] || answers[0] < 0)
    {
      hide Contents, Moved, Valid, Split;
      var sz := Requested(want, Size());
      sent := [];
      SplitNone(Contents());
      if sz < 1 {
        SplitAt(Contents(), sent, Contents());
        return 0, sent;
      }
      var isMin := want == RWSZ_MIN;
      var left := answers;
      ghost var c, asked, total := Contents(), sz, Moved(sz, answers, isMin);
      while sz > 0
        invariant Valid() && 0 <= sz <= |Contents()| && Split(c, sent, Contents())
        invariant total == |sent| + Moved(sz, left, isMin)
        invariant |sent| + sz == asked && (isMin ==> sz == asked && left == answers)
        decreases |left|
      {
        MovedStep(sz, left, isMin);
        SplitAt(c, sent, Contents());
        if left == [] || left[0] < 0 {
          return -1, sent;
        }
        var n := Min(left[0], sz);
        SplitMore(c, sent, Contents(), n);
        var piece := SendPieces(n);
        sent := sent + piece;
        sz := sz - n;
        left := left[1..];
        SplitAt(c, sent, Contents());
        if isMin {
          return 0, sent;
        }
      }
      SplitAt(c, sent, Contents());
      MovedStep(sz, left, isMin);
      return 0, sent;
    }

    /** Reads into the buffer from a system that gives what it likes of `input`: what it gave is appended. */
    method GeneralRead(want: int, answers: seq<int>, input: seq<byte>) returns (r: int, used: nat)
      requires Valid()
      modifies this, buf
      ensures Valid() && used <= |input| && Contents() == old(Contents()) + input[..used]
      ensures var room := capacity - |old(Contents())|;
              var asked := if want == 0 || want == -1 then room else if 1 <= want <= room then want else 0;
              && used == Moved(Min(asked, |input|), answers, want == -1)
              && r == Outcome(want, asked, used, answers == [] || answers[0] < 0 || input == [])
    {
      hide Contents, Moved;
      var sz := Requested(want, Space());
      used := 0;
      if sz < 1 {
        return 0, 0;
      }
      var isMin := want == RWSZ_MIN;
      var left := answers;
      ghost var c, asked, total := Contents(), sz, Moved(Min(sz, |input|), answers, isMin);
      while sz > 0
        invariant Valid() && 0 <= sz && |Contents()| + sz <= capacity && used <= |input|
        invariant Contents() == c + input[..used]
        invariant total == used + Moved(Min(sz, |input| - used), left, isMin)
        invariant used + sz == asked && (isMin ==> sz == asked && left == answers)
        decreases |left|
      {
        MovedStep(Min(sz, |input| - used), left, isMin);
        if left == [] || left[0] < 0 || used == |input| {
          return -1, used;
        }
        var n := Min(left[0], Min(sz, |input| - used));
        ReceivePieces(input[used..used + n]);
        assert input[..used] + input[used..used + n] == input[..used + n];
        used := used + n;
        sz := sz - n;
        left := left[1..];
        if isMin {
          return 0, used;
        }
      }
      MovedStep(Min(sz, |input| - used), left, isMin);
      return 0, used;
    }
  }

  /** `all` is what was sent and the rest. */
  ghost predicate Split(all: seq<byte>, sent: seq<byte>, rest: seq<byte>) {
    all == sent + rest
  }

  lemma SplitNone(all: seq<byte>)
    ensures Split(all, [], all)
  {
  }

  lemma SplitMore(all: seq<byte>, sent: seq<byte>, rest: seq<byte>, n: nat)
    requires Split(all, sent, rest) && n <= |rest|
    ensures Split(all, sent + rest[..n], rest[n..])
  {
    assert rest == rest[..n] + rest[n..];
  }

  lemma SplitAt(all: seq<byte>, sent: seq<byte>, rest: seq<byte>)
    requires Split(all, sent, rest)
    ensures |sent| <= |all| && sent == all[..|sent|] && rest == all[|sent|..]
  {
  }

  /** A rotation only moves cells, and none before it. */
  lemma RotateKeeps(s: seq<byte>, at: nat, chunk: nat, lenA: nat, n: nat)
    requires at + chunk + lenA <= n <= |s|
    ensures var r := RotateIn(s, at, chunk, lenA);
            |r| == |s| && multiset(r[..n]) == multiset(s[..n]) && r[..at] == s[..at]
  {
    var p, x, y, z := s[..at], s[at..at + chunk], s[at + chunk..at + chunk + lenA], s[at + chunk + lenA..n];
    assert RotateIn(s, at, chunk, lenA)[..n] == p + y + x + z;
    assert s[..n] == p + x + y + z;
  }

  /** What the rotations make of `b + a`. */
  ghost predicate Turned(t: seq<byte>, a: seq<byte>, b: seq<byte>) {
    && |t| == |a| + |b| && multiset(t) == multiset(b + a)
    && if |b| <= 128 then t == a + b else t[0] == b[128]
  }

  lemma BeforeTurn(s: seq<byte>, head: nat, tail: nat)
    requires tail < head < |s|
    ensures Ring(s, head, tail) == s[head..] + s[..tail]
    ensures MoveIn(s, tail, head, |s| - head)[..|s| - head + tail] == s[..tail] + s[head..]
    ensures Flattened(s, head, tail) == Turns(s[..tail] + s[head..], 0, tail, |s| - head)
  {
  }

  lemma FlattenedMeans(s: seq<byte>, head: nat, tail: nat)
    requires tail < head < |s|
    ensures var f, c := Flattened(s, head, tail), s[head..] + s[..tail];
            && |f| == |c| && multiset(f) == multiset(c) && (tail <= 128 ==> f == c)
            && (tail > 128 ==> f[0] == s[128] && (s[128] != s[head] ==> f != c))
  {
    hide Turned, Turns;
    TurnsTurn(s[head..], s[..tail]);
    TurnedMeans(Flattened(s, head, tail), s[head..], s[..tail]);
  }

  lemma AfterTurn(s: seq<byte>, n: nat)
    requires n < |s|
    ensures Ring(s, 0, n) == s[..n]
  {
  }

  lemma TurnedNothing(a: seq<byte>, b: seq<byte>)
    ensures b == [] ==> Turned(b + a, a, b)
  {
    assert b == [] ==> b + a == a == a + b;
  }

  lemma TurnedMeans(t: seq<byte>, a: seq<byte>, b: seq<byte>)
    requires Turned(t, a, b) && a != []
    ensures |t| == |a| + |b| && multiset(t) == multiset(a + b) && (|b| <= 128 ==> t == a + b)
    ensures |b| > 128 ==> t[0] == b[128] && (b[128] != a[0] ==> t != a + b)
  {
    assert multiset(b + a) == multiset(b) + multiset(a) == multiset(a + b);
  }

  /** What the rotations do; the first block decides. */
  lemma TurnsTurn(a: seq<byte>, b: seq<byte>)
    requires a != []
    ensures Turned(Turns(b + a, 0, |b|, |a|), a, b)
  {
    hide RotateIn, Turned;
    if b == [] {
      TurnedNothing(a, b);
    } else {
      var chunk := Min(128, |b|);
      FirstTurn(a, b);
      RotateKeeps(b + a, 0, chunk, |a|, |b| + |a|);
      TurnsOn(RotateIn(b + a, 0, chunk, |a|), chunk, a, b);
    }
  }

  lemma {:induction false} TurnsOn(t: seq<byte>, at: nat, a: seq<byte>, b: seq<byte>)
    requires |t| == |a| + |b| && Turned(t, a, b) && at > 0 && (at < |b| ==> |b| > 128)
    ensures Turned(Turns(t, at, |b|, |a|), a, b)
    decreases |b| - at
  {
    hide RotateIn, Turned;
    if at < |b| {
      var chunk := Min(128, |b| - at);
      NextTurn(t, at, chunk, a, b);
      RotateKeeps(t, at, chunk, |a|, |t|);
      TurnsOn(RotateIn(t, at, chunk, |a|), at + chunk, a, b);
    }
  }

  lemma FirstTurn(a: seq<byte>, b: seq<byte>)
    requires a != [] && b != []
    ensures Turned(RotateIn(b + a, 0, Min(128, |b|), |a|), a, b)
  {
    hide RotateIn;
    var n := |b| + |a|;
    RotateKeeps(b + a, 0, Min(128, |b|), |a|, n);
    assert (b + a)[..n] == b + a;
    var r := RotateIn(b + a, 0, Min(128, |b|), |a|);
    assert r[..n] == r;
    if |b| <= 128 {
      WholeTurn(a, b);
    } else {
      BrokenTurn(a, b);
    }
  }

  lemma RotatePrefix(s: seq<byte>, at: nat, chunk: nat, lenA: nat, n: nat)
    requires at + chunk + lenA <= n <= |s|
    ensures var r := RotateIn(s, at, chunk, lenA); |r| == |s| && r[..n] == RotateIn(s[..n], at, chunk, lenA)
  {
    assert s[at..at + chunk] == s[..n][at..at + chunk];
    assert s[at + chunk..at + chunk + lenA] == s[..n][at + chunk..at + chunk + lenA];
    assert s[at + chunk + lenA..] == s[..n][at + chunk + lenA..] + s[n..];
  }

  lemma WholeTurn(a: seq<byte>, b: seq<byte>)
    ensures RotateIn(b + a, 0, |b|, |a|) == a + b
  {
    assert (b + a)[|b|..|b| + |a|] == a && (b + a)[0..|b|] == b;
  }

  lemma BrokenTurn(a: seq<byte>, b: seq<byte>)
    requires |b| > 128 && a != []
    ensures var r := RotateIn(b + a, 0, 128, |a|); r != [] && r[0] == b[128]
  {
  }

  lemma NextTurn(t: seq<byte>, at: nat, chunk: nat, a: seq<byte>, b: seq<byte>)
    requires Turned(t, a, b) && 0 < at && at + chunk <= |b| && |b| > 128
    ensures Turned(RotateIn(t, at, chunk, |a|), a, b)
  {
    hide RotateIn;
    var r := RotateIn(t, at, chunk, |a|);
    RotateKeeps(t, at, chunk, |a|, |t|);
    assert r[..|t|] == r && t[..|t|] == t;
    assert r[0] == r[..at][0] == t[..at][0] == t[0];
  }

  lemma RotatedBlock(s: seq<byte>, at: nat, chunk: nat, lenA: nat)
    requires at + chunk + lenA <= |s|
    ensures var t := MoveIn(s, at, at + chunk, lenA);
            |t| == |s| && StoreIn(t, at + lenA, s[at..at + chunk]) == RotateIn(s, at, chunk, lenA)
  {
    var t := MoveIn(s, at, at + chunk, lenA);
    assert t[..at + lenA] == s[..at] + s[at + chunk..at + chunk + lenA];
    assert t[at + lenA + chunk..] == s[at + chunk + lenA..];
  }

  lemma ReverseInParts(s: seq<byte>, lo: nat, hi: nat)
    requires lo <= hi <= |s|
    ensures var r := ReverseIn(s, lo, hi);
            |r| == |s| && r[..lo] == s[..lo] && r[lo..hi] == Reversed(s[lo..hi]) && r[hi..] == s[hi..]
  {
  }

  lemma MoveInParts(s: seq<byte>, dst: nat, src: nat, n: nat)
    requires dst + n <= |s| && src + n <= |s|
    ensures var r := MoveIn(s, dst, src, n); |r| == |s| && r[..dst + n] == s[..dst] + s[src..src + n]
  {
  }

  lemma ReversedTwice(a: seq<byte>, b: seq<byte>)
    ensures Reversed(Reversed(b) + Reversed(a)) == a + b
  {
  }

  /** The three reversals and the move bring the wrapped bytes to the front in their order. */
  lemma FlattenedByReversal(s: seq<byte>, head: nat, tail: nat)
    requires tail < head < |s|
    ensures var s3 := MoveIn(ReverseIn(ReverseIn(s, 0, tail), head, |s|), tail, head, |s| - head);
            var sz := tail + (|s| - head);
            Ring(ReverseIn(s3, 0, sz), 0, sz) == Ring(s, head, tail)
  {
    hide Reversed, ReverseIn, MoveIn;
    var a, b := s[head..], s[..tail];
    var s1 := ReverseIn(s, 0, tail);
    ReverseInParts(s, 0, tail);
    assert s[0..tail] == b && s1[head..|s|] == a;
    var s2 := ReverseIn(s1, head, |s|);
    ReverseInParts(s1, head, |s|);
    assert s2[..tail] == Reversed(b) && s2[head..|s|] == Reversed(a);
    var s3 := MoveIn(s2, tail, head, |s| - head);
    MoveInParts(s2, tail, head, |s| - head);
    var sz := tail + (|s| - head);
    assert s3[0..sz] == Reversed(b) + Reversed(a);
    ReverseInParts(s3, 0, sz);
    ReversedTwice(a, b);
  }

  lemma MovedStep(sz: nat, answers: seq<int>, once: bool)
    ensures sz == 0 || answers == [] || answers[0] < 0 ==> Moved(sz, answers, once) == 0
    ensures sz > 0 && answers != [] && answers[0] >= 0 ==>
              Moved(sz, answers, once) ==
              Min(answers[0], sz) + if once then 0 else Moved(sz - Min(answers[0], sz), answers[1..], false)
  {
  }

  // ----- runs of operations -----

  datatype Op =
    | DoAdd(c: byte) | DoPop | DoPopN(n: nat) | DoPut(data: seq<byte>) | DoGet(n: nat) | DoFind(c: byte)
    | DoRead(want: int, answers: seq<int>, input: seq<byte>) | DoWrite(want: int, answers: seq<int>)
    | DoFlat | DoClear

  datatype Out = Value(v: int) | Data(bytes: seq<byte>)

  function FirstIndex(q: seq<byte>, c: byte): (r: int)
    ensures r == EOF || (0 <= r < |q| && q[r] == c)
    ensures forall i :: 0 <= i < (if r == EOF then |q| else r) ==> q[i] != c
  {
    if q == [] then EOF
    else if q[0] == c then 0
    else
      var r := FirstIndex(q[1..], c);
      if r == EOF then EOF else r + 1
  }

  /** The same operations on a bounded first-in first-out sequence. */
  function FifoStep(q: seq<byte>, cap: nat, op: Op): (seq<byte>, Out)
    requires |q| <= cap
  {
    match op
    case DoAdd(c) => if |q| < cap then (q + [c], Value(1)) else (q, Value(0))
    case DoPop => if q == [] then (q, Value(EOF)) else (q[1..], Value(q[0]))
    case DoPopN(n) => (q[Min(n, |q|)..], Value(0))
    case DoPut(data) => if data != [] && |q| + |data| <= cap then (q + data, Value(1)) else (q, Value(0))
    case DoGet(n) => if 0 < n <= |q| then (q[n..], Data(q[..n])) else (q, Data([]))
    case DoFind(c) => (q, Value(FirstIndex(q, c)))
    case DoRead(want, answers, input) =>
      var n := Moved(Min(VBuf.Requested(want, cap - |q|), |input|), answers, want == RWSZ_MIN);
      (q + input[..n], Value(n))
    case DoWrite(want, answers) =>
      var n := Moved(VBuf.Requested(want, |q|), answers, want == RWSZ_MIN);
      (q[n..], Data(q[..n]))
    case DoFlat => (q, Value(0))
    case DoClear => ([], Value(0))
  }

  lemma FifoStepBounded(q: seq<byte>, cap: nat, op: Op)
    requires |q| <= cap
    ensures |FifoStep(q, cap, op).0| <= cap
  {
  }

  function FifoRun(q: seq<byte>, cap: nat, ops: seq<Op>): (r: (seq<byte>, seq<Out>))
    requires |q| <= cap
    decreases |ops|
  {
    if ops == [] then (q, [])
    else
      FifoStepBounded(q, cap, ops[0]);
      var (q1, o) := FifoStep(q, cap, ops[0]);
      var (q2, os) := FifoRun(q1, cap, ops[1..]);
      (q2, [o] + os)
  }

  method DoStep(v: VBuf, op: Op) returns (o: Out)
    requires v.Valid()
    modifies v, v.buf
    ensures v.Valid() && (v.Contents(), o) == FifoStep(old(v.Contents()), v.capacity, op)
  {
    match op
    case DoAdd(c) =>
      var ok := v.Add(c);
      o := Value(if ok then 1 else 0);
    case DoPop =>
      var c := v.Pop();
      o := Value(c);
    case DoPopN(n) =>
      v.PopN(Min(n, v.Size()));
      o := Value(0);
    case DoPut(data) =>
      var ok := v.PutBlk(data);
      o := Value(if ok then 1 else 0);
    case DoGet(n) =>
      var ok, data := v.GetBlk(n);
      o := Data(data);
    case DoFind(c) =>
      var r := v.StrChr(c);
      assert r == FirstIndex(v.Contents(), c);
      o := Value(r);
    case DoRead(want, answers, input) =>
      var r, used := v.GeneralRead(want, answers, input);
      o := Value(used);
    case DoWrite(want, answers) =>
      var r, sent := v.GeneralWrite(want, answers);
      o := Data(sent);
    case DoFlat =>
      v.FlatInPlace();
      o := Value(0);
    case DoClear =>
      v.Clear();
      o := Value(0);
  }

  /** Any run of operations on the ring answers as the same run on a bounded queue does. */
  method DoRun(v: VBuf, ops: seq<Op>) returns (os: seq<Out>)
    requires v.Valid()
    modifies v, v.buf
    ensures v.Valid() && (v.Contents(), os) == FifoRun(old(v.Contents()), v.capacity, ops)
  {
    hide FifoStep, VBuf.Contents;
    os := [];
    ghost var goal := FifoRun(v.Contents(), v.capacity, ops);
    for i := 0 to |ops|
      invariant v.Valid()
      invariant goal.0 == FifoRun(v.Contents(), v.capacity, ops[i..]).0
      invariant goal.1 == os + FifoRun(v.Contents(), v.capacity, ops[i..]).1
    {
      assert ops[i..][1..] == ops[i + 1..];
      var o := DoStep(v, ops[i]);
      os := os + [o];
    }
    assert ops[|ops|..] == [] && os + [] == os;
  }
}
