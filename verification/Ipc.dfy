/**
 * The client side of the message service, common/bbs/ipc.c: requests that wait for their acknowledgement on
 * a stream that also carries packets, which a linked queue keeps until they are asked for.
 */
module Ipc {
  import opened Arith
  import opened Bytes

  const MAGIC := 0x49504356
  const VERSION := 1
  const TYPE_ACK := 3
  const HDR_SIZE := 16
  const ACK_SIZE := 68
  const PENDING_SIZE := 1024
  const DUMMY_SIZE := 64
  const TWO32 := 0x1_0000_0000
  const INT_LIMIT := 0x8000_0000

  // ----- frames on the wire -----

  /** A number in `w` bytes, lowest first. */
  function Le(n: nat, w: nat): (s: seq<byte>)
    ensures |s| == w
  {
    if w == 0 then [] else [n % 256] + Le(n / 256, w - 1)
  }

  function FromLe(s: seq<byte>): nat {
    if s == [] then 0 else s[0] + 256 * FromLe(s[1..])
  }

  lemma {:induction false} FromLeOfLe(n: nat, w: nat)
    requires n < Pow256(w)
    ensures FromLe(Le(n, w)) == n
  {
    if w > 0 { FromLeOfLe(n / 256, w - 1); }
  }

  datatype Hdr = Hdr(magic: nat, version: nat, typ: nat, seqNo: nat, len: nat)

  function HdrBytes(h: Hdr): (s: seq<byte>)
    ensures |s| == HDR_SIZE
  {
    Le(h.magic, 4) + Le(h.version, 2) + Le(h.typ, 2) + Le(h.seqNo, 4) + Le(h.len, 4)
  }

  function ParseHdr(s: seq<byte>): Hdr
    requires |s| == HDR_SIZE
  {
    Hdr(FromLe(s[0..4]), FromLe(s[4..6]), FromLe(s[6..8]), FromLe(s[8..12]), FromLe(s[12..16]))
  }

  /** A packet, or what is kept of one: then the payload is shorter than the header says. */
  datatype Frame = Frame(hdr: Hdr, payload: seq<byte>)

  /** A frame the service can send: the header's fields fit, and it tells the payload's length, an `int`. */
  predicate Sendable(f: Frame) {
    && f.hdr.magic < TWO32 && f.hdr.version < 0x1_0000 && f.hdr.typ < 0x1_0000 && f.hdr.seqNo < TWO32
    && f.hdr.len == |f.payload| < INT_LIMIT
  }

  /** A header is sixteen bytes: magic, version, type, number and length, each with the lowest byte first. */
  lemma HdrWritten(h: Hdr)
    ensures HdrBytes(h) ==
            [h.magic % 256, h.magic / 256 % 256, h.magic / 65536 % 256, h.magic / 16777216 % 256] +
            [h.version % 256, h.version / 256 % 256] + [h.typ % 256, h.typ / 256 % 256] +
            [h.seqNo % 256, h.seqNo / 256 % 256, h.seqNo / 65536 % 256, h.seqNo / 16777216 % 256] +
            [h.len % 256, h.len / 256 % 256, h.len / 65536 % 256, h.len / 16777216 % 256]
  {
    hide Le;
    LeBytes(h.magic);
    LeBytes(h.version);
    LeBytes(h.typ);
    LeBytes(h.seqNo);
    LeBytes(h.len);
  }

  /** What is written is a header and its payload, frame after frame. */
  lemma StreamWritten(f: Frame, fs: seq<Frame>)
    ensures StreamOf([]) == [] && StreamOf([f] + fs) == HdrBytes(f.hdr) + f.payload + StreamOf(fs)
  {
    assert ([f] + fs)[1..] == fs;
  }

  lemma HdrReadBack(f: Frame)
    requires f.hdr.magic < 0x1_0000_0000 && f.hdr.version < 0x1_0000 && f.hdr.typ < 0x1_0000
    requires f.hdr.seqNo < 0x1_0000_0000 && f.hdr.len == |f.payload| < 0x8000_0000
    ensures Sendable(f) && ParseHdr(HdrBytes(f.hdr)) == f.hdr
  {
    var h := f.hdr;
    var a, b, c, d, e := Le(h.magic, 4), Le(h.version, 2), Le(h.typ, 2), Le(h.seqNo, 4), Le(h.len, 4);
    var s := HdrBytes(h);
    assert s[0..4] == a && s[4..6] == b && s[6..8] == c && s[8..12] == d && s[12..16] == e;
    assert Pow256(2) == 0x1_0000 && Pow256(4) == 256 * (256 * Pow256(2)) == TWO32;
    FromLeOfLe(h.magic, 4);
    FromLeOfLe(h.version, 2);
    FromLeOfLe(h.typ, 2);
    FromLeOfLe(h.seqNo, 4);
    FromLeOfLe(h.len, 4);
  }

  function StreamOf(fs: seq<Frame>): seq<byte> {
    if fs == [] then [] else HdrBytes(fs[0].hdr) + (fs[0].payload + StreamOf(fs[1..]))
  }

  predicate AllSendable(fs: seq<Frame>) {
    forall i :: 0 <= i < |fs| ==> Sendable(fs[i])
  }

  lemma SendableParts(fs: seq<Frame>)
    requires fs != [] && AllSendable(fs)
    ensures fs[0].hdr.len == |fs[0].payload| < INT_LIMIT && AllSendable(fs[1..])
  {
  }

  /** A stream with at least a header's length of bytes begins with the first frame's header. */
  lemma HdrFirst(fs: seq<Frame>)
    requires AllSendable(fs) && |StreamOf(fs)| >= HDR_SIZE
    ensures fs != [] && ParseHdr(StreamOf(fs)[..HDR_SIZE]) == fs[0].hdr
    ensures StreamOf(fs)[HDR_SIZE..] == fs[0].payload + StreamOf(fs[1..])
  {
    hide ParseHdr, HdrBytes, StreamOf;
    StreamSplit(fs);
    HdrReadBack(fs[0]);
  }

  lemma CutAt<T>(a: seq<T>, b: seq<T>, k: nat)
    requires k <= |a|
    ensures (a + b)[..k] == a[..k] && (a + b)[k..] == a[k..] + b && (a[k..] + b)[|a| - k..] == b
  {
  }

  lemma TakeDrop<T>(a: seq<T>, b: seq<T>)
    ensures (a + b)[..|a|] == a && (a + b)[|a|..] == b
  {
  }

  lemma StreamSplit(fs: seq<Frame>)
    requires |StreamOf(fs)| > 0
    ensures fs != [] && |StreamOf(fs)| >= HDR_SIZE && StreamOf(fs)[..HDR_SIZE] == HdrBytes(fs[0].hdr)
    ensures StreamOf(fs)[HDR_SIZE..] == fs[0].payload + StreamOf(fs[1..])
  {
    hide HdrBytes;
    TakeDrop(HdrBytes(fs[0].hdr), fs[0].payload + StreamOf(fs[1..]));
  }

  lemma NoFrame(fs: seq<Frame>)
    ensures |StreamOf(fs)| < HDR_SIZE <==> fs == []
  {
  }

  predicate Accepted(h: Hdr) {
    h.magic == MAGIC && h.version == VERSION
  }

  /** A frame that is not of this protocol. */
  predicate Foreign(f: Frame) {
    f.hdr.magic != 0x49504356 || f.hdr.version != 1
  }

  /** The frame at `i` acknowledges request `expected`, and all before it are of this protocol. */
  predicate Acknowledged(fs: seq<Frame>, i: nat, expected: nat) {
    && i < |fs| && fs[i].hdr.typ == 3 && (expected == 0 || fs[i].hdr.seqNo == expected)
    && forall j :: 0 <= j <= i ==> !Foreign(fs[j])
  }

  predicate IsAck(f: Frame) {
    f.hdr.typ == TYPE_ACK
  }

  /** Whether a frame answers a request; request number 0 takes any acknowledgement. */
  predicate Answers(f: Frame, expected: nat) {
    IsAck(f) && (expected == 0 || f.hdr.seqNo == expected)
  }

  function Signed32(n: nat): int {
    if n < INT_LIMIT then n else n - TWO32
  }

  /** The code of an acknowledgement: its first four bytes, missing ones being zero. */
  function AckCode(payload: seq<byte>): int {
    Signed32(FromLe((payload + [0, 0, 0, 0])[..4]))
  }

  /** A code sent is the code read, whatever follows it. */
  lemma AckCodeReadBack(c: int, rest: seq<byte>)
    requires -0x8000_0000 <= c < 0x8000_0000
    ensures AckCode(Le(if c < 0 then c + 0x1_0000_0000 else c, 4) + rest) == c
  {
    var n: nat := if c < 0 then c + 0x1_0000_0000 else c;
    assert Pow256(4) == 256 * (256 * (256 * 256)) by { assert Pow256(2) == 256 * Pow256(1) && Pow256(1) == 256; }
    FromLeOfLe(n, 4);
    assert (Le(n, 4) + rest + [0, 0, 0, 0])[..4] == Le(n, 4);
  }

  /** A number in four bytes, the lowest first. */
  lemma LeBytes(n: nat)
    ensures Le(n, 4) == [n % 256, n / 256 % 256, n / 65536 % 256, n / 16777216 % 256]
    ensures Le(n, 2) == [n % 256, n / 256 % 256]
  {
    assert n / 256 / 256 == n / 65536 && n / 65536 / 256 == n / 16777216;
    assert Le(n / 65536, 2) == [n / 65536 % 256, n / 16777216 % 256] by { LeTwo(n / 65536); }
    LeTwo(n);
    assert Le(n / 256, 3) == [n / 256 % 256] + Le(n / 65536, 2);
  }

  lemma LeTwo(n: nat)
    ensures Le(n, 2) == [n % 256, n / 256 % 256]
  {
    assert Le(n / 256, 1) == [n / 256 % 256] + Le(n / 256 / 256, 0);
  }

  function Prefix(s: seq<byte>, n: nat): seq<byte> {
    if |s| <= n then s else s[..n]
  }

  /** What a reader with room for `n` payload bytes gets of a frame. */
  function Seen(f: Frame, n: nat): Frame {
    Frame(f.hdr, Prefix(f.payload, n))
  }

  function NonAck(fs: seq<Frame>): seq<Frame> {
    if fs == [] then [] else (if IsAck(fs[0]) then [] else [fs[0]]) + NonAck(fs[1..])
  }

  lemma {:induction false} NonAckConcat(a: seq<Frame>, b: seq<Frame>)
    ensures NonAck(a + b) == NonAck(a) + NonAck(b)
  {
    if a == [] {
      assert a + b == b;
    } else {
      assert (a + b)[0] == a[0] && (a + b)[1..] == a[1..] + b;
      NonAckConcat(a[1..], b);
      var x := if IsAck(a[0]) then [] else [a[0]];
      assert x + (NonAck(a[1..]) + NonAck(b)) == x + NonAck(a[1..]) + NonAck(b);
    }
  }

  function SeenAll(fs: seq<Frame>, n: nat): (r: seq<Frame>)
    ensures |r| == |fs| && forall i :: 0 <= i < |fs| ==> r[i] == Seen(fs[i], n)
  {
    seq(|fs|, i requires 0 <= i < |fs| => Seen(fs[i], n))
  }

  // ----- the connection -----

  /**
   * A socket: what has come in and not been read, which as far as it is aligned is a list of frames. That the
   * system was late or broke off is recorded as `trouble`.
   */
  class Socket {
    var unread: seq<byte>
    var sent: seq<byte>
    ghost var frames: seq<Frame>
    ghost var trouble: bool

    ghost predicate Aligned()
      reads this
    {
      AllSendable(frames) && unread == StreamOf(frames)
    }

    /** Writes all of `data`, or gives up somewhere in it. */
    method WriteExact(data: seq<byte>) returns (ok: bool)
      modifies this`sent, this`trouble
      ensures if ok then sent == old(sent) + data && trouble == old(trouble) else trouble
    {
      var total := 0;
      while total < |data|
        invariant total <= |data| && sent == old(sent) + data[..total] && trouble == old(trouble)
      {
        var late: bool := *;
        if late {
          trouble := true;
          return false;
        }
        var k: nat :| 1 <= k <= |data| - total;
        sent := sent + data[total..total + k];
        total := total + k;
      }
      ok := true;
    }

    /** Writes a header and then its payload. */
    method Send(f: Frame) returns (ok: bool)
      modifies this`sent, this`trouble
      ensures if ok then sent == old(sent) + StreamOf([f]) && trouble == old(trouble) else trouble
    {
      ok := WriteExact(HdrBytes(f.hdr));
      if ok {
        ok := WriteExact(f.payload);
      }
      assert StreamOf([f]) == HdrBytes(f.hdr) + (f.payload + []);
      assert f.payload + [] == f.payload;
    }

    /** Reads exactly `n` bytes in whatever pieces they come, unless the peer is late or gone. */
    method ReadExact(n: nat) returns (ok: bool, data: seq<byte>)
      modifies this`unread, this`trouble
      ensures ok ==> n <= |old(unread)| && data == old(unread)[..n] && unread == old(unread)[n..]
      ensures ok ==> trouble == old(trouble)
      ensures !ok ==> trouble || n > |old(unread)|
      ensures old(trouble) ==> trouble
      ensures |unread| <= |old(unread)|
    {
      data := [];
      var total := 0;
      ghost var all := unread;
      while total < n
        invariant total <= n && total <= |all| && data == all[..total] && unread == all[total..]
        invariant trouble == old(trouble)
      {
        var late: bool := *;
        if late {
          trouble := true;
        }
        if late || unread == [] {
          return false, data;
        }
        var k: nat :| 1 <= k <= |unread| && k <= n - total;
        data := data + unread[..k];
        unread := unread[k..];
        total := total + k;
      }
      ok := true;
    }

    /** Reads and drops `n` bytes by at most `DUMMY_SIZE` at a time. */
    method Drain(n: int) returns (ok: bool)
      modifies this`unread, this`trouble
      ensures ok ==> trouble == old(trouble)
      ensures !ok ==> trouble || n > |old(unread)|
      ensures old(trouble) ==> trouble
      ensures ok && n > 0 ==> n <= |old(unread)| && unread == old(unread)[n..]
      ensures ok && n <= 0 ==> unread == old(unread)
      ensures |unread| <= |old(unread)|
    {
      var remaining := n;
      ghost var all := unread;
      while remaining > 0
        invariant trouble == old(trouble)
        invariant n <= 0 ==> remaining == n && unread == all
        invariant n > 0 ==> 0 <= remaining <= n && n - remaining <= |all| && unread == all[n - remaining..]
      {
        var chunk := if remaining > DUMMY_SIZE then DUMMY_SIZE else remaining;
        var dummy;
        ok, dummy := ReadExact(chunk);
        if !ok {
          return false;
        }
        remaining := remaining - chunk;
      }
      ok := true;
    }

    /** Reads a header; the payload is next. */
    method ReadHdr() returns (ok: bool, h: Hdr)
      requires Aligned()
      modifies this`unread, this`trouble
      ensures |unread| <= |old(unread)|
      ensures ok ==> trouble == old(trouble)
      ensures !ok ==> trouble || frames == []
      ensures old(trouble) ==> trouble
      ensures ok ==> frames != [] && h == frames[0].hdr && |unread| < |old(unread)|
                     && unread == frames[0].payload + StreamOf(frames[1..])
    {
      hide AllSendable, StreamOf;
      var s;
      ok, s := ReadExact(HDR_SIZE);
      if !ok {
        NoFrame(frames);
        return false, Hdr(0, 0, 0, 0, 0);
      }
      h := ParseHdr(s);
      HdrFirst(frames);
    }

    /** Reads a header if one has begun to arrive: 0 says none has, -1 that the peer is gone, -2 that it broke off. */
    method PollHdr() returns (status: int, h: Hdr)
      requires Aligned()
      modifies this`unread, this`trouble
      ensures status in {1, 0, -1, -2} && (status == 0 || status == -1 ==> unread == old(unread))
      ensures status == 1 ==> trouble == old(trouble)
      ensures status == 0 || status == -2 ==> trouble
      ensures status == -1 ==> frames == [] && trouble == old(trouble)
      ensures status == 1 ==> frames != [] && h == frames[0].hdr && unread == frames[0].payload + StreamOf(frames[1..])
    {
      h := Hdr(0, 0, 0, 0, 0);
      var none: bool := *;
      if none {
        trouble := true;
        return 0, h;
      }
      NoFrame(frames);
      if unread == [] {
        return -1, h;
      }
      hide AllSendable, StreamOf;
      ghost var all := unread;
      var n: nat :| 1 <= n <= |unread| && n <= HDR_SIZE;
      var s := unread[..n];
      unread := unread[n..];
      if n < HDR_SIZE {
        var ok, more := ReadExact(HDR_SIZE - n);
        if !ok {
          return -2, h;
        }
        assert more == all[n..][..HDR_SIZE - n];
        assert all[..n] + all[n..][..HDR_SIZE - n] == all[..HDR_SIZE];
        s := s + more;
      }
      assert s == all[..HDR_SIZE] && unread == all[HDR_SIZE..];
      h := ParseHdr(s);
      HdrFirst(frames);
      status := 1;
    }

    /** Reads a payload, keeping what fits in `room` bytes and dropping the rest, up to the next frame. */
    method ReadPayload(len: nat, room: nat) returns (ok: bool, data: seq<byte>)
      requires frames != [] && AllSendable(frames) && len == frames[0].hdr.len
      requires unread == frames[0].payload + StreamOf(frames[1..])
      modifies this`unread, this`frames, this`trouble
      ensures |unread| <= |old(unread)|
      ensures ok ==> trouble == old(trouble)
      ensures !ok ==> trouble
      ensures ok ==> data == Prefix(old(frames)[0].payload, room) && frames == old(frames)[1..] && Aligned()
    {
      hide StreamOf, AllSendable, Sendable;
      SendableParts(frames);
      ghost var payload, rest := frames[0].payload, StreamOf(frames[1..]);
      var toRead := if len > room then room else len;
      CutAt(payload, rest, toRead);
      data := [];
      if toRead > 0 {
        ok, data := ReadExact(toRead);
        if !ok {
          return;
        }
      }
      assert data == payload[..toRead] && unread == payload[toRead..] + rest;
      assert Signed32(len - toRead) == len - toRead <= |unread|;
      ok := Drain(Signed32(len - toRead));
      if ok {
        assert unread == rest;
        frames := frames[1..];
      }
    }
  }

  // ----- the pending queue -----

  class Node {
    const frame: Frame
    var next: Node?

    constructor (frame: Frame)
      ensures this.frame == frame && next == null
    {
      this.frame := frame;
      next := null;
    }
  }

  function At(spine: seq<Node>, i: nat): Node? {
    if i < |spine| then spine[i] else null
  }

  /** Each node leads to the next, and the last one nowhere. */
  ghost predicate Linked(spine: seq<Node>)
    reads spine
  {
    forall i {:trigger spine[i]} :: 0 <= i < |spine| ==> spine[i].next == At(spine, i + 1)
  }

  class PendingQueue {
    var head: Node?
    var tail: Node?
    ghost var spine: seq<Node>

    ghost predicate Valid()
      reads this, spine
    {
      && head == At(spine, 0) && Linked(spine)
      && tail == (if spine == [] then null else spine[|spine| - 1])
    }

    ghost function Contents(): seq<Frame>
      reads this
    {
      seq(|spine|, i requires 0 <= i < |spine| reads this => spine[i].frame)
    }

    constructor ()
      ensures Valid() && Contents() == []
    {
      head, tail, spine := null, null, [];
    }

    /** Appends a packet, of whose payload there is room for `PENDING_SIZE` bytes. */
    method Enqueue(h: Hdr, data: seq<byte>)
      requires Valid()
      modifies this, spine
      ensures Valid() && |spine| == |old(spine)| + 1 && spine[..|old(spine)|] == old(spine) && fresh(spine[|old(spine)|])
      ensures Contents() == old(Contents()) + [Seen(Frame(h, data), PENDING_SIZE)]
    {
      var msg := new Node(Seen(Frame(h, data), PENDING_SIZE));
      if tail != null {
        tail.next := msg;
        tail := msg;
      } else {
        head, tail := msg, msg;
      }
      spine := spine + [msg];
    }

    /** Takes the first packet off. */
    method Dequeue() returns (f: Frame)
      requires Valid() && head != null
      modifies this
      ensures Valid() && spine == old(spine)[1..]
      ensures old(Contents()) == [f] + Contents()
    {
      f := head.frame;
      head := head.next;
      if head == null {
        tail := null;
      }
      spine := spine[1..];
    }

    method Clear()
      requires Valid()
      modifies this
      ensures Valid() && Contents() == [] && spine == []
    {
      var cur := head;
      ghost var left := spine;
      while cur != null
        invariant cur == At(left, 0) && Linked(left)
        decreases |left|
        modifies {}
      {
        cur := cur.next;
        left := left[1..];
      }
      head, tail, spine := null, null, [];
    }
  }

  // ----- the client -----

  class Client {
    const sock: Socket
    const queue: PendingQueue
    var connected: bool
    var lastSeq: nat

    ghost predicate Valid()
      reads this, sock, queue, queue.spine
    {
      queue.Valid() && lastSeq < TWO32 && (connected ==> sock.Aligned())
    }

    constructor (sock: Socket)
      requires sock.Aligned()
      ensures Valid() && connected && this.sock == sock && fresh(queue) && queue.Contents() == [] && lastSeq == 0
      ensures queue.spine == []
    {
      this.sock := sock;
      queue := new PendingQueue();
      connected := true;
      lastSeq := 0;
      new;
      assert queue.spine == [] by { assert |queue.Contents()| == |queue.spine|; }
    }

    method Disconnect()
      requires queue.Valid() && lastSeq < TWO32
      modifies this`connected, queue
      ensures Valid() && !connected && queue.Contents() == [] && queue.spine == []
    {
      connected := false;
      queue.Clear();
    }

    /**
     * Takes one frame off the stream: an acknowledgement answers the request or is dropped, anything else
     * is queued. A frame cut short or of another protocol ends the connection.
     */
    method TakeFrame(expected: nat) returns (ok: bool, answered: bool, code: int)
      requires Valid() && connected
      modifies this`connected, sock`unread, sock`frames, sock`trouble, queue, queue.spine
      ensures Valid() && fresh(set n | n in queue.spine && n !in old(queue.spine))
      ensures !ok ==> !connected && queue.Contents() == []
      ensures ok ==> sock.trouble == old(sock.trouble) && old(sock.frames) != [] && !Foreign(old(sock.frames)[0])
      ensures !ok ==> sock.trouble || (sock.frames == old(sock.frames) && (sock.frames == [] || Foreign(sock.frames[0])))
      ensures old(sock.trouble) ==> sock.trouble
      ensures ok ==> connected && |sock.unread| < |old(sock.unread)|
      ensures ok ==> var f := old(sock.frames)[0];
                     && sock.frames == old(sock.frames)[1..]
                     && queue.Contents() == old(queue.Contents()) + Kept([f])
                     && answered == Answers(f, expected) && (answered ==> code == AckCode(f.payload))
    {
      hide StreamOf, Sendable, FromLe;
      answered, code := false, -1;
      var h;
      ok, h := sock.ReadHdr();
      if !ok || !Accepted(h) {
        Disconnect();
        return false, false, -1;
      }
      ghost var f := sock.frames[0];
      KeptOne(f);
      var data;
      if h.typ == TYPE_ACK {
        ok, data := sock.ReadPayload(h.len, ACK_SIZE);
      } else {
        ok, data := sock.ReadPayload(h.len, PENDING_SIZE);
      }
      if !ok {
        Disconnect();
        return;
      }
      if h.typ == TYPE_ACK {
        assert (data + [0, 0, 0, 0])[..4] == (f.payload + [0, 0, 0, 0])[..4];
        answered, code := !(expected > 0 && h.seqNo != expected), AckCode(data);
        assert queue.Contents() + [] == queue.Contents();
      } else {
        queue.Enqueue(h, data);
      }
    }

    /**
     * Waits for the acknowledgement of request `expected` among at most what has been sent. `k` frames are
     * read, of which those other than acknowledgements are queued in order; older acknowledgements are dropped.
     * The last one read is the answer exactly when `acked`. If an answer is there it is found, unless the system
     * fails or is late.
     */
    method ReadAck(expected: nat, timeout: int) returns (code: int, ghost k: nat, ghost acked: bool)
      requires Valid() && connected
      modifies this`connected, sock`unread, sock`frames, sock`trouble, queue, queue.spine
      ensures Valid() && fresh(set n | n in queue.spine && n !in old(queue.spine))
      ensures !connected ==> queue.Contents() == [] && code == -1
      ensures !connected && !sock.trouble ==> sock.frames == [] || Foreign(sock.frames[0])
      ensures !sock.trouble && timeout > 0 && (exists i: nat :: Acknowledged(old(sock.frames), i, expected)) ==>
                connected && acked
      ensures connected && acked ==> k > 0 && Acknowledged(old(sock.frames), k - 1, expected)
      ensures old(sock.trouble) ==> sock.trouble
      ensures connected ==>
                && k <= |old(sock.frames)| && sock.frames == old(sock.frames)[k..]
                && queue.Contents() == old(queue.Contents()) + Kept(old(sock.frames)[..k])
                && Waited(old(sock.frames)[..k], expected, acked, code)
    {
      hide StreamOf, Sendable, Kept, Waited, Answers, AckCode, Foreign, Acknowledged, AllSendable, Unanswered;
      hide Linked, PendingQueue.Valid, PendingQueue.Contents;
      ghost var all, queued := sock.frames, queue.Contents();
      k, acked := 0, false;
      WaitedNone(queued, all, expected);
      var left := timeout;
      while left > 0
        invariant Valid() && connected
        invariant fresh(set n | n in queue.spine && n !in old(queue.spine))
        invariant k <= |all| && sock.frames == all[k..]
        invariant queue.Contents() == queued + Kept(all[..k])
        invariant Unanswered(all, k, expected) && (timeout > 0 ==> left > 0)
        invariant sock.trouble == old(sock.trouble)
        decreases |sock.unread|
      {
        var late: bool := *;
        if late {
          UnansweredWaits(all, k, expected);
          sock.trouble := true;
          return -1, k, false;
        }
        var ok, answered;
        ok, answered, code := TakeFrame(expected);
        if !ok {
          if !sock.trouble { NoneAcknowledged(all, k, expected); }
          return -1, k, false;
        }
        WaitedMore(queued, all, k, expected, answered, code);
        k := k + 1;
        if answered {
          return code, k, true;
        }
        var elapsed: nat := *;
        if elapsed >= timeout {
          UnansweredWaits(all, k, expected);
          sock.trouble := true;
          return -1, k, false;
        }
        left := timeout - elapsed;
      }
      UnansweredWaits(all, k, expected);
      return -1, k, false;
    }

    /**
     * Reads a packet: the first one pending, or else the next of the stream. The result is 1 for a packet,
     * 0 for none yet and -1 for a failure; the caller has room for `room` bytes of its payload. A pending packet
     * that was cut must not be asked for in full: the copy would run past what is kept of it.
     */
    method ReadPacket(room: nat) returns (r: int, f: Frame)
      requires Valid() && connected
      requires queue.Contents() != [] && queue.Contents()[0].hdr.len > PENDING_SIZE ==> room <= PENDING_SIZE
      modifies this`connected, sock`unread, sock`frames, sock`trouble, queue
      ensures r != 1 ==> sock.trouble || old(sock.frames) == [] || Foreign(old(sock.frames)[0])
      ensures !connected && !sock.trouble ==> sock.frames != [] && Foreign(sock.frames[0])
      ensures old(sock.trouble) ==> sock.trouble
      ensures Valid() && r in {1, 0, -1} && (old(queue.Contents()) != [] ==> r == 1)
      ensures !connected ==> r == -1 && queue.Contents() == [] && queue.spine == []
      ensures connected ==> queue.spine == if r == 1 && old(queue.spine) != [] then old(queue.spine)[1..] else old(queue.spine)
      ensures connected && r != 1 ==> queue.Contents() == old(queue.Contents()) && sock.frames == old(sock.frames)
      ensures r == 1 && old(queue.Contents()) != [] ==>
                && f == Seen(old(queue.Contents())[0], room) && queue.Contents() == old(queue.Contents())[1..]
                && sock.frames == old(sock.frames) && connected
      ensures r == 1 && old(queue.Contents()) == [] ==>
                && old(sock.frames) != [] && f == Seen(old(sock.frames)[0], room)
                && queue.Contents() == [] && sock.frames == old(sock.frames)[1..] && connected
    {
      hide StreamOf, Sendable;
      if queue.head != null {
        f := queue.Dequeue();
        return 1, Seen(f, room);
      }
      f := Frame(Hdr(0, 0, 0, 0, 0), []);
      var h;
      r, h := sock.PollHdr();
      if r == 0 || r == -1 {
        return;
      }
      if r == -2 || !Accepted(h) {
        Disconnect();
        return -1, f;
      }
      var ok, data := sock.ReadPayload(h.len, room);
      if !ok {
        Disconnect();
        return -1, f;
      }
      return 1, Frame(h, data);
    }

    /**
     * Sends a request under the next sequence number and waits for its acknowledgement. When it is acknowledged,
     * the code is that of the first acknowledgement with this number; the numbers wrap around after 2^32
     * requests, and number 0 takes any.
     */
    method Request(typ: nat, payload: seq<byte>, timeout: int) returns (code: int, ghost k: nat, ghost acked: bool)
      requires Valid() && connected && typ < 0x1_0000 && |payload| < 0x8000_0000
      modifies this, sock, queue, queue.spine
      ensures Valid() && lastSeq == (old(lastSeq) + 1) % 0x1_0000_0000
      ensures fresh(set n | n in queue.spine && n !in old(queue.spine))
      ensures !connected ==> queue.Contents() == [] && code == -1
      ensures connected ==>
                && sock.sent == old(sock.sent) + StreamOf([Frame(Hdr(0x49504356, 1, typ, lastSeq, |payload|), payload)])
                && k <= |old(sock.frames)| && sock.frames == old(sock.frames)[k..]
                && queue.Contents() == old(queue.Contents()) + Kept(old(sock.frames)[..k])
                && Waited(old(sock.frames)[..k], lastSeq, acked, code)
      ensures !sock.trouble ==>
                sock.sent == old(sock.sent) + StreamOf([Frame(Hdr(0x49504356, 1, typ, lastSeq, |payload|), payload)])
      ensures !sock.trouble && timeout > 0 && (exists i: nat :: Acknowledged(old(sock.frames), i, lastSeq)) ==>
                connected && acked
      ensures connected && acked ==> k > 0 && Acknowledged(old(sock.frames), k - 1, lastSeq)
    {
      hide Kept, Waited, StreamOf, AllSendable, Sendable, Acknowledged, Foreign;
      hide Linked, PendingQueue.Valid, PendingQueue.Contents;
      lastSeq := (lastSeq + 1) % TWO32;
      var ok := sock.Send(Frame(Hdr(MAGIC, VERSION, typ, lastSeq, |payload|), payload));
      if !ok {
        Disconnect();
        return -1, 0, false;
      }
      code, k, acked := ReadAck(lastSeq, timeout);
    }
  }

  /** What the queue keeps of frames read while waiting. */
  function Kept(fs: seq<Frame>): seq<Frame> {
    SeenAll(NonAck(fs), PENDING_SIZE)
  }

  /** The outcome of having read `fs`: answered by the last of them and no earlier one, or by none. */
  predicate Waited(fs: seq<Frame>, expected: nat, acked: bool, code: int) {
    if acked then
      && fs != [] && Answers(fs[|fs| - 1], expected) && code == AckCode(fs[|fs| - 1].payload)
      && forall i :: 0 <= i < |fs| - 1 ==> !Answers(fs[i], expected)
    else code == -1 && forall i :: 0 <= i < |fs| ==> !Answers(fs[i], expected)
  }

  lemma KeptOne(f: Frame)
    ensures Kept([f]) == if IsAck(f) then [] else [Seen(f, PENDING_SIZE)]
  {
    assert NonAck([f]) == if IsAck(f) then [] else [f];
  }

  /** Of a frame that is no acknowledgement, the header and at most 1024 bytes of the payload. */
  lemma KeptMeans(f: Frame, fs: seq<Frame>)
    ensures Kept([]) == []
    ensures f.hdr.typ == 3 ==> Kept([f] + fs) == Kept(fs)
    ensures f.hdr.typ != 3 ==>
              Kept([f] + fs) == [Frame(f.hdr, if |f.payload| <= 1024 then f.payload else f.payload[..1024])] + Kept(fs)
  {
    KeptOne(f);
    KeptConcat([f], fs);
  }

  lemma KeptConcat(a: seq<Frame>, b: seq<Frame>)
    ensures Kept(a + b) == Kept(a) + Kept(b)
  {
    NonAckConcat(a, b);
  }

  /** The first `k` frames are of this protocol, and none of them answers. */
  predicate Unanswered(fs: seq<Frame>, k: nat, expected: nat) {
    k <= |fs| && Waited(fs[..k], expected, false, -1) && forall j :: 0 <= j < k ==> !Foreign(fs[j])
  }

  lemma UnansweredWaits(fs: seq<Frame>, k: nat, expected: nat)
    requires Unanswered(fs, k, expected)
    ensures Waited(fs[..k], expected, false, -1)
  {
  }

  /** Where the stream ends, or goes on with something else, after frames that do not answer, no answer is to be had. */
  lemma NoneAcknowledged(all: seq<Frame>, k: nat, expected: nat)
    requires Unanswered(all, k, expected) && (k == |all| || Foreign(all[k]))
    ensures forall i: nat :: !Acknowledged(all, i, expected)
  {
    forall i: nat | Acknowledged(all, i, expected) ensures false {
      assert i < k && Answers(all[..k][i], expected);
    }
  }

  lemma WaitedNone(queued: seq<Frame>, all: seq<Frame>, expected: nat)
    ensures all[0..] == all && all[..0] == [] && queued + Kept(all[..0]) == queued
    ensures Unanswered(all, 0, expected)
  {
  }

  lemma WaitedMore(queued: seq<Frame>, all: seq<Frame>, k: nat, expected: nat, answered: bool, code: int)
    requires k < |all| && Unanswered(all, k, expected) && !Foreign(all[k])
    requires answered == Answers(all[k], expected) && (answered ==> code == AckCode(all[k].payload))
    ensures all[k..][0] == all[k] && all[k..][1..] == all[k + 1..]
    ensures queued + Kept(all[..k]) + Kept([all[k]]) == queued + Kept(all[..k + 1])
    ensures if answered then Waited(all[..k + 1], expected, true, code) && Acknowledged(all, k, expected)
            else Unanswered(all, k + 1, expected)
  {
    hide AckCode, Foreign, Kept;
    assert all[..k + 1] == all[..k] + [all[k]];
    KeptConcat(all[..k], [all[k]]);
  }

  // ----- nothing is lost -----

  datatype Act = Wait(expected: nat, timeout: int) | Read

  lemma {:induction false} KeptTwice(fs: seq<Frame>)
    ensures Kept(Kept(fs)) == Kept(fs)
  {
    if fs != [] {
      var rest := fs[1..];
      assert fs == [fs[0]] + rest;
      KeptTwice(rest);
      KeptConcat([fs[0]], rest);
      KeptConcat(Kept([fs[0]]), Kept(rest));
      KeptOne(fs[0]);
      KeptOne(Seen(fs[0], PENDING_SIZE));
    }
  }

  lemma KeptAppend(a: seq<Frame>, b: seq<Frame>)
    requires Kept(a) == a
    ensures Kept(a + Kept(b)) == a + Kept(b)
  {
    KeptConcat(a, Kept(b));
    KeptTwice(b);
  }

  lemma KeptHead(q: seq<Frame>)
    requires q != [] && Kept(q) == q
    ensures Kept(q[1..]) == q[1..] && Kept([q[0]]) == [q[0]]
  {
    assert q == [q[0]] + q[1..];
    KeptConcat([q[0]], q[1..]);
    KeptOne(q[0]);
    KeptShorter(q[1..]);
  }

  lemma {:induction false} KeptShorter(fs: seq<Frame>)
    ensures |Kept(fs)| <= |fs|
  {
    if fs != [] { KeptShorter(fs[1..]); }
  }

  lemma {:induction false} KeptSmall(fs: seq<Frame>)
    requires forall i :: 0 <= i < |fs| ==> |fs[i].payload| <= PENDING_SIZE
    ensures Kept(fs) == NonAck(fs)
  {
    if fs != [] {
      KeptSmall(fs[1..]);
      assert fs == [fs[0]] + fs[1..];
      KeptConcat([fs[0]], fs[1..]);
      KeptOne(fs[0]);
    }
  }

  /**
   * Any interleaving of waits and reads, until a disconnect: the packets delivered, then those pending, then
   * those unread are what there was at the start, in order. (Of a packet over 1024 bytes, that many are kept.)
   */
  method Session(c: Client, acts: seq<Act>) returns (got: seq<Frame>)
    requires c.Valid() && c.connected && Kept(c.queue.Contents()) == c.queue.Contents()
    modifies c, c.sock, c.queue, c.queue.spine
    ensures c.Valid()
    ensures c.connected ==>
              && Kept(c.queue.Contents()) == c.queue.Contents()
              && Kept(got) + c.queue.Contents() + Kept(c.sock.frames) == old(c.queue.Contents()) + Kept(old(c.sock.frames))
    ensures !c.connected ==> c.sock.trouble || c.sock.frames == [] || Foreign(c.sock.frames[0])
  {
    hide Kept, Waited, StreamOf, Sendable;
    got := [];
    ghost var all := c.queue.Contents() + Kept(c.sock.frames);
    SessionStart(c.queue.Contents(), c.sock.frames);
    for i := 0 to |acts|
      invariant c.Valid() && c.connected && Kept(c.queue.Contents()) == c.queue.Contents()
      invariant fresh(set n | n in c.queue.spine && n !in old(c.queue.spine))
      invariant Kept(got) + c.queue.Contents() + Kept(c.sock.frames) == all
    {
      ghost var q, fs := c.queue.Contents(), c.sock.frames;
      match acts[i] {
        case Wait(expected, timeout) =>
          ghost var k, acked;
          var code;
          code, k, acked := c.ReadAck(expected, timeout);
          if !c.connected {
            return;
          }
          SessionWait(got, q, fs, k);
        case Read =>
          var r, f := c.ReadPacket(PENDING_SIZE);
          if !c.connected {
            return;
          }
          if r == 1 {
            SessionRead(got, q, fs, f);
            got := got + [f];
          }
      }
    }
  }

  lemma SessionStart(q: seq<Frame>, fs: seq<Frame>)
    ensures Kept([]) + q + Kept(fs) == q + Kept(fs)
  {
  }

  lemma SessionWait(got: seq<Frame>, q: seq<Frame>, fs: seq<Frame>, k: nat)
    requires k <= |fs| && Kept(q) == q
    ensures Kept(got) + (q + Kept(fs[..k])) + Kept(fs[k..]) == Kept(got) + q + Kept(fs)
    ensures Kept(q + Kept(fs[..k])) == q + Kept(fs[..k])
  {
    hide Kept;
    KeptAppend(q, fs[..k]);
    assert fs == fs[..k] + fs[k..];
    KeptConcat(fs[..k], fs[k..]);
  }

  lemma SessionRead(got: seq<Frame>, q: seq<Frame>, fs: seq<Frame>, f: Frame)
    requires Kept(q) == q
    requires if q != [] then f == Seen(q[0], PENDING_SIZE) else fs != [] && f == Seen(fs[0], PENDING_SIZE)
    ensures q != [] ==> Kept(got + [f]) + q[1..] + Kept(fs) == Kept(got) + q + Kept(fs) && Kept(q[1..]) == q[1..]
    ensures q == [] ==> Kept(got + [f]) + q + Kept(fs[1..]) == Kept(got) + q + Kept(fs)
  {
    hide Kept;
    KeptConcat(got, [f]);
    KeptOne(f);
    if q != [] {
      KeptHead(q);
      KeptOne(q[0]);
      assert q == [q[0]] + q[1..];
    } else {
      KeptOne(fs[0]);
      assert fs == [fs[0]] + fs[1..];
      KeptConcat([fs[0]], fs[1..]);
    }
  }
}
