/**
 * The staged search of an article index by stamp (common/bbs/aids.c): a probe at a hinted position, a
 * window around it, a binary search over the nearly sorted index with a window around its end, and a
 * backward scan in batches.
 */
module ArticleSearch {
  import opened Prelude

  const FILE_BOTTOM: bv32 := 0x08
  const BSEARCH_WIN := 256
  const CHUNK := 256

  /** An index record; `filename` carries the stamp and the suffix. */
  datatype FileHeader = FileHeader(filename: string, owner: string, filemode: bv32, rest: int)

  /** How the stamp and the 12-bit suffix are read off a file name. */
  datatype Naming = Naming(stamp: string -> int, hex: string -> nat)

  /** What is searched for; `prefix` is `None` for any type letter. */
  datatype Query = Query(prefix: Option<char>, ts: int, hex: nat, allowPrefix: bool, mode: bv32)

  /** The part of a file name from its last dot on. */
  function FromLastDot(fn: string): Option<string> {
    if fn == "" then None
    else
      match FromLastDot(fn[1..])
      case Some(s) => Some(s)
      case None => if fn[0] == '.' then Some(fn) else None
  }

  /** Without allowing prefixes, suffix 0 must be spelled: `.0...` at the end, or a bare `.A`. */
  predicate SpellsZero(fn: string) {
    match FromLastDot(fn)
    case None => false
    case Some(dot) => |dot| > 1 && (dot[1] == '0' || (dot[1] == 'A' && |dot| == 2))
  }

  /** Whether the search is for pinned posts. */
  predicate Pinned(mode: bv32) {
    mode & FILE_BOTTOM != 0
  }

  /** Whether all of these bits are set. */
  predicate AllSet(flags: bv32, bits: bv32) {
    flags & bits == bits
  }

  lemma AllSetMeans(flags: bv32, bits: bv32)
    ensures AllSet(flags, bits) <==> flags & bits == bits
  {
  }

  /** Whether a search in this mode takes a record. */
  predicate Visible(fh: FileHeader, mode: bv32) {
    mode != 0 ==> !(fh.owner != "" && fh.owner[0] == '-') && AllSet(fh.filemode, mode)
  }

  /** `match_fhdr_stamp_hex`. */
  predicate Matches(nm: Naming, q: Query, fh: FileHeader) {
    && fh.filename != "" && fh.filename[0] != '.'
    && (q.prefix.None? || fh.filename[0] == q.prefix.value
        || (q.prefix.value == 'M' && fh.filename[0] == 'L' && Pinned(q.mode)))
    && Visible(fh, q.mode)
    && nm.stamp(fh.filename) == q.ts && nm.hex(fh.filename) == q.hex
    && (q.hex != 0 || q.allowPrefix || SpellsZero(fh.filename))
  }

  /** The last matching position from `lo` to `hi` (positions count from 1), or 0. */
  function LastMatch(nm: Naming, q: Query, dir: seq<FileHeader>, lo: int, hi: int): (r: int)
    requires 1 <= lo && hi <= |dir|
    ensures r == 0 || (lo <= r <= hi && Matches(nm, q, dir[r - 1]))
    ensures r == 0 ==> forall i :: lo - 1 <= i < hi ==> !Matches(nm, q, dir[i])
    ensures r > 0 ==> forall i :: r <= i < hi ==> !Matches(nm, q, dir[i])
    decreases hi - lo + 1
  {
    if lo > hi then 0 else if Matches(nm, q, dir[hi - 1]) then hi else LastMatch(nm, q, dir, lo, hi - 1)
  }

  lemma {:induction false} LastMatchSplit(nm: Naming, q: Query, dir: seq<FileHeader>, lo: int, mid: int, hi: int)
    requires 1 <= lo <= mid + 1 && mid <= hi <= |dir|
    ensures LastMatch(nm, q, dir, lo, hi) ==
            if LastMatch(nm, q, dir, mid + 1, hi) > 0 then LastMatch(nm, q, dir, mid + 1, hi)
            else LastMatch(nm, q, dir, lo, mid)
    decreases hi - mid
  {
    if mid < hi {
      LastMatchSplit(nm, q, dir, lo, mid, hi - 1);
    }
  }

  /** Where the binary search over positions `low` to `high` stops, `mid` being its last probe. */
  function Probe(nm: Naming, dir: seq<FileHeader>, ts: int, low: int, high: int, mid: int): int
    requires 1 <= low && high <= |dir|
    decreases high - low + 1
  {
    if low > high then mid
    else
      var m := low + (high - low) / 2;
      var s := nm.stamp(dir[m - 1].filename);
      if s == ts then m
      else if s < ts then Probe(nm, dir, ts, m + 1, high, m)
      else Probe(nm, dir, ts, low, m - 1, m)
  }

  function Max(a: int, b: int): int {
    if a < b then b else a
  }

  /** The window searched around the end of the binary search: its first position and its size. */
  function WindowSize(total: int, backtrack: int): int {
    Min(if backtrack >= 0 then backtrack * 2 + BSEARCH_WIN else BSEARCH_WIN, total)
  }

  function WindowStart(total: int, size: int, mid: int): (w: int)
    requires 0 < size <= total
    ensures 1 <= w && w + size - 1 <= total
  {
    Min(Max(mid - size / 2, 1), total - size + 1)
  }

  /**
   * Reads a batch of records from the index: all of them if it is `readable`, or fewer, when the system reads less.
   * `any` says that it read something, if only part of a record.
   */
  method ReadBatch(dir: seq<FileHeader>, pos: int, count: int, readable: bool) returns (buf: seq<FileHeader>, any: bool)
    requires pos >= 1 && count >= 0
    ensures |buf| <= count && pos - 1 + |buf| <= Max(|dir|, pos - 1)
    ensures forall i :: 0 <= i < |buf| ==> buf[i] == dir[pos - 1 + i]
    ensures readable ==> |buf| == Max(0, Min(count, |dir| - pos + 1)) && any == (buf != [])
    ensures buf != [] ==> any
  {
    var all := Max(0, Min(count, |dir| - pos + 1));
    var n :| 0 <= n <= all && (readable ==> n == all);
    buf := if n == 0 then [] else dir[pos - 1..pos - 1 + n];
    var part: bool := *;
    any := n > 0 || (!readable && part);
  }

  /** Scans a batch from its end. */
  method LastInBatch(nm: Naming, q: Query, buf: seq<FileHeader>) returns (k: int)
    ensures -1 <= k < |buf| && (k >= 0 ==> Matches(nm, q, buf[k]))
    ensures forall i :: k < i < |buf| ==> !Matches(nm, q, buf[i])
  {
    k := |buf| - 1;
    while k >= 0
      invariant -1 <= k < |buf| && forall i :: k < i < |buf| ==> !Matches(nm, q, buf[i])
    {
      if Matches(nm, q, buf[k]) {
        return;
      }
      k := k - 1;
    }
  }

  /**
   * Scans positions `start` to `end` backwards, a batch at a time. It gives up when nothing of a batch can be read;
   * of a batch read in part it takes what there is, and goes on.
   */
  method ScanBack(nm: Naming, q: Query, dir: seq<FileHeader>, start: int, end: int, readable: bool)
    returns (r: int, fh: Option<FileHeader>)
    requires 1 <= start
    ensures r == 0 || (start <= r <= end && r <= |dir| && fh == Some(dir[r - 1]) && Matches(nm, q, dir[r - 1]))
    ensures readable && end <= |dir| ==> r == LastMatch(nm, q, dir, start, end)
  {
    hide LastMatch, Matches;
    r, fh := 0, None;
    var cur := end;
    while cur >= start
      invariant cur <= end
      invariant readable && end <= |dir| ==> forall i :: Max(cur, start - 1) <= i < end ==> !Matches(nm, q, dir[i])
    {
      var cstart := Max(cur - CHUNK + 1, start);
      var buf, any := ReadBatch(dir, cstart, cur - cstart + 1, readable);
      if !any {
        return;
      }
      assert forall i :: cstart - 1 <= i < cstart - 1 + |buf| ==> dir[i] == buf[i - (cstart - 1)];
      var k := LastInBatch(nm, q, buf);
      if k >= 0 {
        r, fh := cstart + k, Some(buf[k]);
        if end <= |dir| && readable {
          LastMatchIs(nm, q, dir, start, end, r);
        }
        return;
      }
      cur := cur - CHUNK;
    }
    if end <= |dir| && readable {
      LastMatchIs(nm, q, dir, start, end, 0);
    }
  }

  lemma LastMatchIs(nm: Naming, q: Query, dir: seq<FileHeader>, lo: int, hi: int, r: int)
    requires 1 <= lo && hi <= |dir|
    requires r == 0 || (lo <= r <= hi && Matches(nm, q, dir[r - 1]))
    requires forall i :: (if r == 0 then lo - 1 else r) <= i < hi ==> !Matches(nm, q, dir[i])
    ensures LastMatch(nm, q, dir, lo, hi) == r
  {
  }

  // ----- the staged search -----

  predicate HintInRange(hint: int, total: int) {
    1 <= hint <= total
  }

  /** The positions of stage 2, around the hint. */
  function ShiftLo(hint: int): (r: int)
    ensures r >= 1
  {
    Max(hint - 32, 1)
  }

  function ShiftHi(hint: int, total: int): (r: int)
    ensures r <= total
  {
    Min(hint + 4, total)
  }

  /** The positions of stage 3. */
  function WindowLo(nm: Naming, dir: seq<FileHeader>, total: int, ts: int, backtrack: int): (w: int)
    requires 0 < total <= |dir|
    ensures 1 <= w && w + WindowSize(total, backtrack) - 1 <= total
  {
    WindowStart(total, WindowSize(total, backtrack), Probe(nm, dir, ts, 1, total, 1))
  }

  /**
   * The position the search finds, on an index it can read: the hinted one, else the last match of
   * the shift window, else that of the window around the probe, else, unless a bound lets it stop
   * there, the last match of all.
   */
  function Found(nm: Naming, q: Query, dir: seq<FileHeader>, total: int, hint: int, backtrack: int): int
    requires total <= |dir|
  {
    if total <= 0 then 0
    else if HintInRange(hint, total) && Matches(nm, q, dir[hint - 1]) then hint
    else
      var a := if hint >= 1 then LastMatch(nm, q, dir, ShiftLo(hint), ShiftHi(hint, total)) else 0;
      if a > 0 then a
      else if total > BSEARCH_WIN then
        var w := WindowLo(nm, dir, total, q.ts, backtrack);
        var b := LastMatch(nm, q, dir, w, w + WindowSize(total, backtrack) - 1);
        if b > 0 || backtrack >= 0 then b else LastMatch(nm, q, dir, 1, total)
      else LastMatch(nm, q, dir, 1, total)
  }

  /** The binary search: its last probe, or an early stop when a record cannot be read. */
  method BinarySearch(nm: Naming, dir: seq<FileHeader>, total: int, ts: int, readable: bool) returns (mid: int)
    requires total > 0
    ensures 1 <= mid <= total
    ensures readable && total <= |dir| ==> mid == Probe(nm, dir, ts, 1, total, 1)
  {
    var low, high := 1, total;
    mid := 1;
    while low <= high
      invariant 1 <= low <= total + 1 && 0 <= high <= total && 1 <= mid <= total
      invariant total <= |dir| ==> Probe(nm, dir, ts, 1, total, 1) == Probe(nm, dir, ts, low, high, mid)
      decreases high - low + 1
    {
      mid := low + (high - low) / 2;
      var buf, any := ReadBatch(dir, mid, 1, readable);
      if |buf| != 1 {
        return;
      }
      var s := nm.stamp(buf[0].filename);
      if s == ts {
        return;
      } else if s < ts {
        low := mid + 1;
      } else {
        high := mid - 1;
      }
    }
  }

  /** Stage 2: the window that a record may have shifted to since the hint was made. */
  method ShiftWindow(nm: Naming, q: Query, dir: seq<FileHeader>, total: int, hint: int, readable: bool)
    returns (r: int, fh: Option<FileHeader>)
    requires hint >= 1 && total > 0
    ensures r == 0 || (1 <= r <= total && r <= |dir| && fh == Some(dir[r - 1]) && Matches(nm, q, dir[r - 1]))
    ensures readable && total <= |dir| ==> r == LastMatch(nm, q, dir, ShiftLo(hint), ShiftHi(hint, total))
  {
    hide Matches, LastMatch;
    r, fh := 0, None;
    var start, end := hint - 32, hint + 4;
    if start < 1 {
      start := 1;
    }
    if end > total {
      end := total;
    }
    if start <= end {
      var buf, any := ReadBatch(dir, start, end - start + 1, readable);
      assert forall i :: start - 1 <= i < start - 1 + |buf| ==> dir[i] == buf[i - (start - 1)];
      var k := LastInBatch(nm, q, buf);
      if k >= 0 {
        r, fh := start + k, Some(buf[k]);
      }
      if readable && total <= |dir| {
        LastMatchIs(nm, q, dir, start, end, r);
      }
    }
  }

  /** Stage 3: the window around the end of the binary search. */
  method StampWindow(nm: Naming, q: Query, dir: seq<FileHeader>, total: int, backtrack: int, readable: bool)
    returns (r: int, fh: Option<FileHeader>)
    requires total > BSEARCH_WIN
    ensures r == 0 || (1 <= r <= total && r <= |dir| && fh == Some(dir[r - 1]) && Matches(nm, q, dir[r - 1]))
    ensures readable && total <= |dir| ==>
              var w := WindowLo(nm, dir, total, q.ts, backtrack);
              r == LastMatch(nm, q, dir, w, w + WindowSize(total, backtrack) - 1)
  {
    hide LastMatch, Matches, Probe;
    var mid := BinarySearch(nm, dir, total, q.ts, readable);
    var size := BSEARCH_WIN;
    if backtrack >= 0 {
      size := backtrack * 2 + BSEARCH_WIN;
    }
    if size > total {
      size := total;
    }
    var wstart := mid - size / 2;
    if wstart < 1 {
      wstart := 1;
    }
    if wstart + size - 1 > total {
      wstart := total - size + 1;
    }
    if wstart < 1 {
      wstart := 1;
    }
    assert size == WindowSize(total, backtrack) && wstart == WindowStart(total, size, mid);
    r, fh := ScanBack(nm, q, dir, wstart, wstart + size - 1, readable);
  }

  /**
   * The search. What it returns is a match; on an index it can read it finds exactly the position
   * that `Found` names.
   */
  method SearchByStamp(nm: Naming, q: Query, dir: seq<FileHeader>, total: int, hint: int, backtrack: int, readable: bool)
    returns (r: int, fh: Option<FileHeader>)
    ensures r == 0 || (1 <= r <= total && r <= |dir| && fh == Some(dir[r - 1]) && Matches(nm, q, dir[r - 1]))
    ensures readable && total <= |dir| ==> r == Found(nm, q, dir, total, hint, backtrack)
  {
    hide LastMatch, Probe, Matches, WindowLo;
    r, fh := 0, None;
    if total <= 0 {
      return;
    }
    if hint >= 1 && hint <= total {
      var buf, any := ReadBatch(dir, hint, 1, readable);
      if |buf| == 1 && Matches(nm, q, buf[0]) {
        return hint, Some(buf[0]);
      }
    }
    if hint >= 1 {
      r, fh := ShiftWindow(nm, q, dir, total, hint, readable);
      if r > 0 {
        return;
      }
    }
    if total > BSEARCH_WIN {
      r, fh := StampWindow(nm, q, dir, total, backtrack, readable);
      if r > 0 || backtrack >= 0 {
        return;
      }
    }
    r, fh := ScanBack(nm, q, dir, 1, total, readable);
  }

  // ----- what the stages together find -----

  predicate HasMatch(nm: Naming, q: Query, dir: seq<FileHeader>, lo: int, hi: int)
    requires 1 <= lo && hi <= |dir|
  {
    exists i :: lo - 1 <= i < hi && Matches(nm, q, dir[i])
  }

  lemma FoundIsMatch(nm: Naming, q: Query, dir: seq<FileHeader>, total: int, hint: int, backtrack: int)
    requires 0 < total <= |dir|
    ensures var r := Found(nm, q, dir, total, hint, backtrack);
            r == 0 || (1 <= r <= total && Matches(nm, q, dir[r - 1]))
  {
  }

  /** Without a bound, the search finds a record exactly when a plain scan of the index would. */
  lemma UnboundedFindsAny(nm: Naming, q: Query, dir: seq<FileHeader>, total: int, hint: int, backtrack: int)
    requires 0 < total <= |dir| && backtrack < 0
    ensures Found(nm, q, dir, total, hint, backtrack) > 0 <==> HasMatch(nm, q, dir, 1, total)
  {
    FoundIsMatch(nm, q, dir, total, hint, backtrack);
    var r := Found(nm, q, dir, total, hint, backtrack);
    if r > 0 {
      assert Matches(nm, q, dir[r - 1]);
    }
  }

  /** Records out of stamp order are at most `bound` positions apart. */
  predicate NearlySorted(nm: Naming, dir: seq<FileHeader>, total: int, bound: int)
    requires total <= |dir|
  {
    forall i, j :: 0 <= i < j < total && nm.stamp(dir[i].filename) > nm.stamp(dir[j].filename) ==> j - i <= bound
  }

  /** The records stamped `ts` lie at most `span` positions apart. */
  predicate StampSpan(nm: Naming, dir: seq<FileHeader>, total: int, ts: int, span: int)
    requires total <= |dir|
  {
    forall i, j :: 0 <= i < j < total && nm.stamp(dir[i].filename) == ts && nm.stamp(dir[j].filename) == ts ==> j - i <= span
  }

  lemma OutOfOrder(nm: Naming, dir: seq<FileHeader>, total: int, ts: int, bound: int, span: int, m: int, t: int)
    requires 0 < total <= |dir| && NearlySorted(nm, dir, total, bound) && StampSpan(nm, dir, total, ts, span)
    requires 1 <= m <= total && 1 <= t <= total && nm.stamp(dir[t - 1].filename) == ts && 0 <= bound <= span
    ensures var s := nm.stamp(dir[m - 1].filename);
            && (s < ts ==> m - t <= bound) && (s > ts ==> t - m <= bound)
            && (s == ts ==> -span <= t - m <= span)
  {
  }

  /**
   * Around its last probe the binary search over a nearly sorted index has every record of the
   * target stamp within the bound and one position more, unless it stopped on another such record.
   */
  lemma {:induction false} ProbeIsNear(nm: Naming, dir: seq<FileHeader>, total: int, ts: int, bound: int, span: int,
                                       low: int, high: int, mid: int, t: int)
    requires 0 < total <= |dir| && NearlySorted(nm, dir, total, bound) && StampSpan(nm, dir, total, ts, span)
    requires 1 <= low <= high + 1 && high <= total && 1 <= t <= total && nm.stamp(dir[t - 1].filename) == ts
    requires 0 <= bound && bound + 1 <= span
    requires low - 1 - bound <= t <= high + 1 + bound
    requires low > high ==> mid == low || mid == high
    ensures var p := Probe(nm, dir, ts, low, high, mid); -span <= t - p <= span
    decreases high - low + 1
  {
    hide NearlySorted, StampSpan;
    if low <= high {
      var m := low + (high - low) / 2;
      var s := nm.stamp(dir[m - 1].filename);
      OutOfOrder(nm, dir, total, ts, bound, span, m, t);
      if s < ts {
        ProbeIsNear(nm, dir, total, ts, bound, span, m + 1, high, m, t);
      } else if s > ts {
        ProbeIsNear(nm, dir, total, ts, bound, span, low, m - 1, m, t);
      }
    }
  }

  /**
   * With a bound, the search still finds a record exactly when a plain scan would, provided that
   * records out of order are at most `backtrack` apart and that the records of the target stamp are
   * at most `backtrack + 127` apart (as when only one record has it).
   */
  lemma BoundedFindsAny(nm: Naming, q: Query, dir: seq<FileHeader>, total: int, hint: int, backtrack: int)
    requires 0 < total <= |dir| && backtrack >= 0
    requires NearlySorted(nm, dir, total, backtrack) && StampSpan(nm, dir, total, q.ts, backtrack + 127)
    ensures Found(nm, q, dir, total, hint, backtrack) > 0 <==> HasMatch(nm, q, dir, 1, total)
  {
    FoundIsMatch(nm, q, dir, total, hint, backtrack);
    var r := Found(nm, q, dir, total, hint, backtrack);
    if r > 0 {
      assert Matches(nm, q, dir[r - 1]);
    } else if total > BSEARCH_WIN {
      forall i | 0 <= i < total ensures !Matches(nm, q, dir[i]) {
        if Matches(nm, q, dir[i]) {
          ProbeIsNear(nm, dir, total, q.ts, backtrack, backtrack + 127, 1, total, 1, i + 1);
        }
      }
    }
  }

  // ----- how far apart the records of one second may be -----

  /** With this bound, whatever the index, the search misses nothing if the records of a second are at most `span` apart. */
  ghost predicate NeverMisses(backtrack: int, span: int) {
    forall nm: Naming, q: Query, dir: seq<FileHeader>, total: int, hint: int ::
      0 < total <= |dir| && NearlySorted(nm, dir, total, backtrack) && StampSpan(nm, dir, total, q.ts, span) ==>
        (Found(nm, q, dir, total, hint, backtrack) > 0 <==> HasMatch(nm, q, dir, 1, total))
  }

  /** The exact limit: half the fixed window, less one, beyond the bound. */
  lemma BoundIsTight(backtrack: int, span: int)
    requires backtrack >= 0
    ensures NeverMisses(backtrack, span) <==> span <= backtrack + 127
  {
    hide NearlySorted, StampSpan, HasMatch, Found;
    if span <= backtrack + 127 {
      forall nm: Naming, q: Query, dir: seq<FileHeader>, total: int, hint: int
        | 0 < total <= |dir| && NearlySorted(nm, dir, total, backtrack) && StampSpan(nm, dir, total, q.ts, span)
        ensures Found(nm, q, dir, total, hint, backtrack) > 0 <==> HasMatch(nm, q, dir, 1, total)
      {
        WiderSpan(nm, dir, total, q.ts, span, backtrack + 127);
        BoundedFindsAny(nm, q, dir, total, hint, backtrack);
      }
    } else {
      var dir, total := TightIndex(backtrack), 2 * backtrack + 257;
      SameSecondMissed(backtrack);
      WiderSpan(DEMO, dir, total, 2, backtrack + 128, span);
      assert !(Found(DEMO, DEMO_QUERY, dir, total, 0, backtrack) > 0 <==> HasMatch(DEMO, DEMO_QUERY, dir, 1, total));
    }
  }

  lemma WiderSpan(nm: Naming, dir: seq<FileHeader>, total: int, ts: int, span: int, wider: int)
    requires total <= |dir| && StampSpan(nm, dir, total, ts, span) && span <= wider
    ensures StampSpan(nm, dir, total, ts, wider)
  {
  }

  /** A naming by length and second letter. */
  const DEMO := Naming((fn: string) => |fn|, (fn: string) => if |fn| > 1 && fn[1] == 'A' then 1 else 2)
  const DEMO_QUERY := Query(None, 2, 1, false, 0)

  /** A sorted index: an older second up to the middle, then records of one second, of which the last is searched for. */
  function TightIndex(bound: nat): (d: seq<FileHeader>)
    ensures |d| == 2 * bound + 257
  {
    seq(2 * bound + 257, i =>
      FileHeader(if i < bound + 128 then "M" else if i < 2 * bound + 256 then "MB" else "MA", "", 0, 0))
  }

  /**
   * One position more is too far, on an index without any disorder: the binary search stops at once on a record of
   * the second searched for, and the window around it ends just before the match.
   */
  lemma SameSecondMissed(bound: nat)
    ensures var d, n := TightIndex(bound), 2 * bound + 257;
            && NearlySorted(DEMO, d, n, 0) && NearlySorted(DEMO, d, n, bound) && StampSpan(DEMO, d, n, 2, bound + 128)
            && HasMatch(DEMO, DEMO_QUERY, d, 1, n) && Found(DEMO, DEMO_QUERY, d, n, 0, bound) == 0
  {
    var d, n := TightIndex(bound), 2 * bound + 257;
    forall i | 0 <= i < n
      ensures DEMO.stamp(d[i].filename) == if i < bound + 128 then 1 else 2
      ensures Matches(DEMO, DEMO_QUERY, d[i]) <==> i == n - 1
    {
    }
    assert Matches(DEMO, DEMO_QUERY, d[n - 1]);
    assert Probe(DEMO, d, 2, 1, n, 1) == bound + 129;
    assert WindowLo(DEMO, d, n, 2, bound) == 1 && WindowSize(n, bound) == n - 1;
  }

  // ----- article ids -----

  /** A 64-bit article id: 19 bits of index hint, a type bit, a 32-bit stamp, a 12-bit suffix. */
  type Aidu = a: nat | a < 0x1_0000_0000_0000_0000

  function AiduHex(a: Aidu): nat { a % 0x1000 }

  /** The stamp is a signed 32-bit time. */
  function AiduStamp(a: Aidu): int {
    var u := a / 0x1000 % 0x1_0000_0000;
    if u < 0x8000_0000 then u else u - 0x1_0000_0000
  }

  function AiduIsG(a: Aidu): bool { a / 0x1000_0000_0000 % 2 == 1 }

  function AiduIdx(a: Aidu): nat { a / 0x2000_0000_0000 }

  function AiduRaw(a: Aidu): nat { a % 0x2000_0000_0000 }

  /** What an article id asks for; the pinned copies of a post need their suffix spelled. */
  function AiduQuery(a: Aidu, mode: bv32): Query {
    Query(Some(if AiduIsG(a) then 'G' else 'M'), AiduStamp(a), AiduHex(a),
          AiduHex(a) == 0 && !Pinned(mode), mode)
  }

  /** `search_dir_by_aidu_fd`, with or without a bound. */
  method SearchByAidu(nm: Naming, dir: seq<FileHeader>, total: int, a: Aidu, mode: bv32, backtrack: int, readable: bool)
    returns (r: int, fh: Option<FileHeader>)
    ensures AiduRaw(a) == 0 ==> r == 0
    ensures r == 0 || (1 <= r <= total && r <= |dir| && fh == Some(dir[r - 1]) && Matches(nm, AiduQuery(a, mode), dir[r - 1]))
    ensures readable && AiduRaw(a) != 0 && 0 < total <= |dir| && backtrack < 0 ==>
              (r > 0 <==> HasMatch(nm, AiduQuery(a, mode), dir, 1, total))
    ensures readable && AiduRaw(a) != 0 && 0 < total <= |dir| && backtrack >= 0
            && NearlySorted(nm, dir, total, backtrack) && StampSpan(nm, dir, total, AiduStamp(a), backtrack + 127) ==>
              (r > 0 <==> HasMatch(nm, AiduQuery(a, mode), dir, 1, total))
  {
    hide Matches, HasMatch, NearlySorted, StampSpan, Found;
    if AiduRaw(a) == 0 {
      return 0, None;
    }
    var q := AiduQuery(a, mode);
    r, fh := SearchByStamp(nm, q, dir, total, AiduIdx(a), backtrack, readable);
    if 0 < total <= |dir| {
      if backtrack < 0 {
        UnboundedFindsAny(nm, q, dir, total, AiduIdx(a), backtrack);
      } else if NearlySorted(nm, dir, total, backtrack) && StampSpan(nm, dir, total, q.ts, backtrack + 127) {
        BoundedFindsAny(nm, q, dir, total, AiduIdx(a), backtrack);
      }
    }
  }

  // ----- what an article id stands for -----

  /** An article id is its index hint, type bit, 32-bit stamp and 12-bit suffix, one after the other. */
  lemma AiduFields(hint: nat, kind: nat, stamp: nat, hex: nat, a: int)
    requires hint < 0x8_0000 && kind < 2 && stamp < 0x1_0000_0000 && hex < 0x1000
    requires a == hint * 0x2000_0000_0000 + kind * 0x1000_0000_0000 + stamp * 0x1000 + hex
    ensures 0 <= a < 0x1_0000_0000_0000_0000
    ensures AiduIdx(a) == hint && AiduIsG(a) == (kind == 1) && AiduHex(a) == hex
    ensures AiduStamp(a) == if stamp < 0x8000_0000 then stamp else stamp - 0x1_0000_0000
    ensures AiduRaw(a) == 0 <==> kind == 0 && stamp == 0 && hex == 0
  {
    var low := kind * 0x1000_0000_0000 + stamp * 0x1000 + hex;
    assert a % 0x1000 == hex && a / 0x1000 == hint * 0x2_0000_0000 + kind * 0x1_0000_0000 + stamp;
    assert a / 0x1000 % 0x1_0000_0000 == stamp && a / 0x1000_0000_0000 == hint * 2 + kind;
    assert a / 0x2000_0000_0000 == hint && a % 0x2000_0000_0000 == low;
  }

  /** The suffix of a name, after its last dot, begins with a zero, or is a bare A. */
  ghost predicate ZeroSpelled(fn: string) {
    exists k :: 0 <= k < |fn| - 1 && fn[k] == '.' && '.' !in fn[k + 1..] && (fn[k + 1] == '0' || fn[k + 1..] == "A")
  }

  lemma {:induction false} LastDotIs(fn: string)
    ensures match FromLastDot(fn)
            case None => '.' !in fn
            case Some(dot) => |dot| <= |fn| && dot != [] && dot == fn[|fn| - |dot|..] && dot[0] == '.' && '.' !in dot[1..]
  {
    if fn != "" {
      LastDotIs(fn[1..]);
      assert fn == [fn[0]] + fn[1..];
    }
  }

  lemma SpellsZeroMeans(fn: string)
    ensures SpellsZero(fn) <==> ZeroSpelled(fn)
  {
    LastDotIs(fn);
    match FromLastDot(fn)
    case None =>
    case Some(dot) =>
      var k := |fn| - |dot|;
      assert dot[1..] == fn[k + 1..];
      NoDotAfter(fn, k);
      if ZeroSpelled(fn) {
        var i :| 0 <= i < |fn| - 1 && fn[i] == '.' && '.' !in fn[i + 1..] && (fn[i + 1] == '0' || fn[i + 1..] == "A");
        NoDotAfter(fn, i);
        assert i == k;
      }
  }

  lemma NoDotAfter(fn: string, k: nat)
    requires k < |fn| && '.' !in fn[k + 1..]
    ensures forall j :: k < j < |fn| ==> fn[j] != '.'
  {
    forall j | k < j < |fn| ensures fn[j] != '.' {
      assert fn[j] == fn[k + 1..][j - k - 1];
    }
  }

  /** Bit 3 of the mode asks for a pinned article. */
  ghost predicate ForPinned(mode: bv32) {
    mode & 8 != 0
  }

  /** A search in mode 0 sees every record, another one those not deleted that have all bits of the mode. */
  ghost predicate SeenIn(fh: FileHeader, mode: bv32) {
    mode != 0 ==> (fh.owner == "" || fh.owner[0] != '-') && AllSet(fh.filemode, mode)
  }

  /**
   * The record of an article: its type letter (a pinned M may have been locked, and is an L then), its stamp and
   * suffix, and that a search in this mode sees it: a pinned one with the suffix 0 only if that is spelled.
   */
  ghost predicate IsArticle(nm: Naming, fh: FileHeader, isG: bool, stamp: int, hex: nat, mode: bv32) {
    var pinned := ForPinned(mode);
    && fh.filename != ""
    && (if isG then fh.filename[0] == 'G' else fh.filename[0] == 'M' || (pinned && fh.filename[0] == 'L'))
    && nm.stamp(fh.filename) == stamp && nm.hex(fh.filename) == hex
    && SeenIn(fh, mode)
    && (pinned && hex == 0 ==> ZeroSpelled(fh.filename))
  }

  lemma MatchesArticle(nm: Naming, fh: FileHeader, a: Aidu, mode: bv32)
    ensures Matches(nm, AiduQuery(a, mode), fh) <==> IsArticle(nm, fh, AiduIsG(a), AiduStamp(a), AiduHex(a), mode)
  {
    hide SpellsZero, ZeroSpelled, AiduIsG, AiduStamp, AiduHex, Matches, IsArticle, Pinned, Visible;
    SpellsZeroMeans(fh.filename);
    MatchesMeans(nm, AiduQuery(a, mode), fh);
    ArticleMeans(nm, fh, AiduIsG(a), AiduStamp(a), AiduHex(a), mode);
  }

  lemma MatchesMeans(nm: Naming, q: Query, fh: FileHeader)
    requires q.prefix == Some('G') || q.prefix == Some('M')
    ensures Matches(nm, q, fh) <==>
            && fh.filename != ""
            && (fh.filename[0] == q.prefix.value || (q.prefix.value == 'M' && Pinned(q.mode) && fh.filename[0] == 'L'))
            && Visible(fh, q.mode) && nm.stamp(fh.filename) == q.ts && nm.hex(fh.filename) == q.hex
            && (q.hex != 0 || q.allowPrefix || SpellsZero(fh.filename))
  {
    hide SpellsZero, Pinned, Visible;
  }

  lemma ArticleMeans(nm: Naming, fh: FileHeader, isG: bool, stamp: int, hex: nat, mode: bv32)
    ensures IsArticle(nm, fh, isG, stamp, hex, mode) <==>
            && fh.filename != ""
            && (if isG then fh.filename[0] == 'G' else fh.filename[0] == 'M' || (Pinned(mode) && fh.filename[0] == 'L'))
            && Visible(fh, mode) && nm.stamp(fh.filename) == stamp && nm.hex(fh.filename) == hex
            && (Pinned(mode) && hex == 0 ==> ZeroSpelled(fh.filename))
  {
    hide ZeroSpelled, Pinned, Visible, ForPinned, SeenIn;
    PinnedMeans(mode);
    VisibleMeans(fh, mode);
  }

  lemma PinnedMeans(mode: bv32)
    ensures Pinned(mode) <==> ForPinned(mode)
  {
  }

  lemma VisibleMeans(fh: FileHeader, mode: bv32)
    ensures Visible(fh, mode) <==> SeenIn(fh, mode)
  {
    hide AllSet;
  }

  /** The search for an article by the parts of its id: on an index it can read it finds a record exactly when one is it. */
  method FindArticle(nm: Naming, dir: seq<FileHeader>, total: int, hint: nat, isG: bool, stamp: int, hex: nat, mode: bv32,
                     readable: bool)
    returns (r: int, fh: Option<FileHeader>)
    requires hint < 0x8_0000 && -0x8000_0000 <= stamp < 0x8000_0000 && hex < 0x1000
    ensures r == 0 || (1 <= r <= total && r <= |dir| && fh == Some(dir[r - 1]) && IsArticle(nm, dir[r - 1], isG, stamp, hex, mode))
    ensures !isG && stamp == 0 && hex == 0 ==> r == 0
    ensures readable && 0 < total <= |dir| && (isG || stamp != 0 || hex != 0) ==>
              (r > 0 <==> exists i :: 0 <= i < total && IsArticle(nm, dir[i], isG, stamp, hex, mode))
  {
    hide Matches, IsArticle, AiduIdx, AiduIsG, AiduStamp, AiduHex, AiduRaw, AiduQuery;
    var kind := if isG then 1 else 0;
    var word := if stamp < 0 then stamp + 0x1_0000_0000 else stamp;
    AiduFields(hint, kind, word, hex, hint * 0x2000_0000_0000 + kind * 0x1000_0000_0000 + word * 0x1000 + hex);
    var a: Aidu := hint * 0x2000_0000_0000 + kind * 0x1000_0000_0000 + word * 0x1000 + hex;
    forall record { MatchesArticle(nm, record, a, mode); }
    r, fh := SearchByAidu(nm, dir, total, a, mode, -1, readable);
  }

  // ----- which record is found -----

  /** The last of the positions `lo` to `hi` at which there is a match. */
  ghost predicate IsLast(nm: Naming, q: Query, dir: seq<FileHeader>, lo: int, hi: int, r: int) {
    && 1 <= lo <= r <= hi <= |dir| && Matches(nm, q, dir[r - 1]) && forall i :: r <= i < hi ==> !Matches(nm, q, dir[i])
  }

  /**
   * Which record is found, when several match: the hinted one; else the last within 32 positions before the hint and
   * 4 after it; else, in an index of at most 256 records, the last of all.
   */
  lemma FoundIsPreferred(nm: Naming, q: Query, dir: seq<FileHeader>, total: int, hint: int, backtrack: int)
    requires 0 < total <= |dir|
    ensures var r := Found(nm, q, dir, total, hint, backtrack);
            if 1 <= hint <= total && Matches(nm, q, dir[hint - 1]) then r == hint
            else if hint >= 1 && exists i :: 0 <= i < total && hint - 32 <= i + 1 <= hint + 4 && Matches(nm, q, dir[i]) then
              IsLast(nm, q, dir, if hint > 32 then hint - 32 else 1, if hint + 4 < total then hint + 4 else total, r)
            else r > 0 && total <= 256 ==> IsLast(nm, q, dir, 1, total, r)
  {
    hide Matches, WindowLo, WindowSize;
  }
}
