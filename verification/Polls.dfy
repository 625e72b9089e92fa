/**
 * Archiving the files of a poll (util/checkpolls.c): a move of up to eleven files, each by link and
 * unlink or by copy and unlink, with an ordered way back. Any link, copy or unlink may fail.
 */
module Polls {
  import opened Bytes

  type Content = seq<byte>

  /** The two places of each of the poll's files, and every other path. File 0 is the control file. */
  datatype Place = OnBoard(file: nat) | InArchive(file: nat) | Elsewhere(id: nat)

  type Files = map<Place, Content>

  const NUM_FILES := 11

  ghost predicate Has(f: Files, p: Place, c: Content) {
    p in f && f[p] == c
  }

  ghost predicate Same(f: Files, g: Files, p: Place) {
    (p in f <==> p in g) && (p in f ==> f[p] == g[p])
  }

  datatype LinkResult = Linked | CrossDevice | Refused

  /** What the environment refused: the whole work before it began, or a call in the move of a file. */
  datatype Refusal = GaveUp | InMove(src: Place, dst: Place)

  /** Only refusals in one move were added. */
  ghost predicate RefusedIn(before: seq<Refusal>, after: seq<Refusal>, src: Place, dst: Place) {
    && |before| <= |after| && after[..|before|] == before
    && forall k :: |before| <= k < |after| ==> after[k] == InMove(src, dst)
  }

  lemma RefusedNothing(a: seq<Refusal>, src: Place, dst: Place)
    ensures RefusedIn(a, a, src, dst)
  {
  }

  lemma RefusedOnce(a: seq<Refusal>, b: seq<Refusal>, src: Place, dst: Place)
    requires RefusedIn(a, b, src, dst)
    ensures RefusedIn(a, b + [InMove(src, dst)], src, dst) && b + [InMove(src, dst)] != a
  {
    assert (b + [InMove(src, dst)])[..|a|] == b[..|a|];
  }

  lemma RefusedTwice(a: seq<Refusal>, b: seq<Refusal>, c: seq<Refusal>, src: Place, dst: Place)
    requires RefusedIn(a, b, src, dst) && RefusedIn(b, c, src, dst)
    ensures RefusedIn(a, c, src, dst) && (b != a ==> c != a)
  {
    assert c[..|a|] == c[..|b|][..|a|];
    forall k | |a| <= k < |b| ensures c[k] == b[k] {
      assert c[k] == c[..|b|][k];
    }
  }

  class FileSystem {
    var files: Files
    /** Every state so far, in order: what a crash would leave. */
    ghost var trace: seq<Files>
    /** Every call that failed for no reason in the files, in order. */
    ghost var refused: seq<Refusal>

    ghost predicate Valid()
      reads this
    {
      trace != [] && trace[|trace| - 1] == files
    }

    /** Makes `dst` a second name of `src`; never replaces a file, and may fail in any case. */
    method Link(src: Place, dst: Place) returns (r: LinkResult)
      requires Valid()
      modifies this
      ensures Valid()
      ensures r == Linked ==> src in old(files) && dst !in old(files) && files == old(files)[dst := old(files)[src]]
                              && trace == old(trace) + [files]
      ensures r != Linked ==> unchanged(`files) && unchanged(`trace)
      ensures RefusedIn(old(refused), refused, src, dst) && (r != Refused ==> refused == old(refused))
      ensures r == Refused && refused == old(refused) ==> src !in old(files) || dst in old(files)
    {
      if src !in files || dst in files {
        return Refused;
      }
      if * { return CrossDevice; }
      if * {
        refused := refused + [InMove(src, dst)];
        return Refused;
      }
      files := files[dst := files[src]];
      trace := trace + [files];
      return Linked;
    }

    /** Removes a file, as a step of the move of `src` to `dst`. */
    method Unlink(p: Place, ghost src: Place, ghost dst: Place) returns (ok: bool)
      requires Valid()
      modifies this
      ensures Valid()
      ensures ok ==> p in old(files) && files == old(files) - {p} && trace == old(trace) + [files]
      ensures !ok ==> unchanged(`files) && unchanged(`trace)
      ensures RefusedIn(old(refused), refused, src, dst) && (ok ==> refused == old(refused))
      ensures !ok && refused == old(refused) ==> p !in old(files)
    {
      if p !in files {
        return false;
      }
      if * {
        refused := refused + [InMove(src, dst)];
        return false;
      }
      files := files - {p};
      trace := trace + [files];
      return true;
    }

    /** Creates `dst` empty, only where there is no file, and may fail. */
    method CreateExclusive(ghost src: Place, dst: Place) returns (ok: bool)
      requires Valid()
      modifies this
      ensures Valid()
      ensures ok ==> dst !in old(files) && files == old(files)[dst := []] && trace == old(trace) + [files]
      ensures !ok ==> unchanged(`files) && unchanged(`trace)
      ensures RefusedIn(old(refused), refused, src, dst) && (ok ==> refused == old(refused))
      ensures !ok && refused == old(refused) ==> dst in old(files)
    {
      if dst in files {
        return false;
      }
      if * {
        refused := refused + [InMove(src, dst)];
        return false;
      }
      files := files[dst := []];
      trace := trace + [files];
      return true;
    }

    /** Appends to a file as much of `data` as the system takes; nothing at all is a refusal. */
    method Write(ghost src: Place, dst: Place, data: seq<byte>) returns (n: nat)
      requires Valid() && dst in files && data != []
      modifies this
      ensures Valid() && n <= |data|
      ensures files == old(files)[dst := old(files)[dst] + data[..n]] && trace == old(trace) + [files]
      ensures refused == if n == 0 then old(refused) + [InMove(src, dst)] else old(refused)
    {
      n :| 0 <= n <= |data|;
      files := files[dst := files[dst] + data[..n]];
      trace := trace + [files];
      if n == 0 {
        refused := refused + [InMove(src, dst)];
      }
    }

    /** The states between the start and the end of moving `src` to `dst`. */
    static ghost predicate Moving(f: Files, src: Place, dst: Place, g: Files)
      requires src in f
    {
      && (Has(g, src, f[src]) || Has(g, dst, f[src]))
      && (forall p :: p != src && p != dst ==> Same(f, g, p))
      && (dst in f ==> Same(f, g, dst))
    }

    /** After `before`, only such states were added to the trace. */
    static ghost predicate MovedSince(f: Files, src: Place, dst: Place, before: seq<Files>, trace: seq<Files>)
      requires src in f
    {
      && |before| <= |trace| && trace[..|before|] == before
      && forall k :: |before| <= k < |trace| ==> Moving(f, src, dst, trace[k])
    }

    static lemma NotMovedYet(f: Files, src: Place, dst: Place, before: seq<Files>)
      requires src in f
      ensures Moving(f, src, dst, f) && MovedSince(f, src, dst, before, before)
    {
    }

    /** Both while the copy is written and when it is complete, the original is there. */
    static lemma CopyMoves(f: Files, src: Place, dst: Place, c: Content)
      requires src in f && dst !in f
      ensures Moving(f, src, dst, f[dst := c]) && f[dst := c] - {dst} == f
    {
    }

    static lemma RemovalMoves(f: Files, src: Place, dst: Place)
      requires src in f && dst !in f
      ensures Moving(f, src, dst, f[dst := f[src]] - {src})
    {
    }

    static lemma MovedOn(f: Files, src: Place, dst: Place, before: seq<Files>, trace: seq<Files>, g: Files)
      requires src in f && MovedSince(f, src, dst, before, trace) && Moving(f, src, dst, g)
      ensures MovedSince(f, src, dst, before, trace + [g])
    {
      hide Moving;
      assert (trace + [g])[..|before|] == trace[..|before|];
    }

    /** Copies `src` to a new file `dst`; on failure removes what it wrote, if the system lets it. */
    method CopyNewFile(src: Place, dst: Place) returns (ok: bool)
      requires Valid() && src != dst && src in files
      modifies this
      ensures Valid() && MovedSince(old(files), src, dst, old(trace), trace)
      ensures Moving(old(files), src, dst, files) && Has(files, src, old(files)[src])
      ensures ok ==> dst !in old(files) && files == old(files)[dst := old(files)[src]]
      ensures RefusedIn(old(refused), refused, src, dst) && (ok ==> refused == old(refused))
      ensures !ok && refused == old(refused) ==> dst in old(files)
    {
      hide Moving, MovedSince, RefusedIn;
      ghost var f, before := files, trace;
      NotMovedYet(f, src, dst, before);
      RefusedNothing(refused, src, dst);
      if * {
        RefusedOnce(old(refused), refused, src, dst);
        refused := refused + [InMove(src, dst)];
        return false;
      }
      ok := CreateExclusive(src, dst);
      if !ok {
        return false;
      }
      CopyMoves(f, src, dst, []);
      MovedOn(f, src, dst, before, before, files);
      var content := files[src];
      var done, failed := 0, false;
      while done < |content| && !failed
        invariant Valid() && done <= |content| && MovedSince(f, src, dst, before, trace)
        invariant files == f[dst := content[..done]]
        invariant RefusedIn(old(refused), refused, src, dst) && (failed <==> refused != old(refused))
        decreases !failed, |content| - done
      {
        ghost var earlier := trace;
        RefusedOnce(old(refused), refused, src, dst);
        var w := Write(src, dst, content[done..]);
        assert content[..done] + content[done..][..w] == content[..done + w];
        done := done + w;
        failed := w == 0;
        CopyMoves(f, src, dst, content[..done]);
        assert files == f[dst := content[..done]];
        MovedOn(f, src, dst, before, earlier, files);
      }
      if * {
        failed := true;
        RefusedOnce(old(refused), refused, src, dst);
        refused := refused + [InMove(src, dst)];
      }
      CopyMoves(f, src, dst, content[..done]);
      if failed {
        ghost var earlier, refused1 := trace, refused;
        var removed := Unlink(dst, src, dst);
        RefusedTwice(old(refused), refused1, refused, src, dst);
        if removed {
          MovedOn(f, src, dst, before, earlier, files);
        }
        return false;
      }
      assert content[..done] == content;
      return true;
    }

    /** Moves `src` to `dst` without replacing a file at `dst`. */
    method MoveFile(src: Place, dst: Place) returns (ok: bool)
      requires Valid() && src != dst && src in files
      modifies this
      ensures Valid() && MovedSince(old(files), src, dst, old(trace), trace)
      ensures Moving(old(files), src, dst, files)
      ensures ok ==> dst !in old(files) && files == old(files)[dst := old(files)[src]] - {src}
      ensures !ok ==> Has(files, src, old(files)[src])
      ensures RefusedIn(old(refused), refused, src, dst) && (ok ==> refused == old(refused))
      ensures !ok && refused == old(refused) ==> dst in old(files)
    {
      hide Moving, MovedSince, RefusedIn;
      ghost var f, before := files, trace;
      NotMovedYet(f, src, dst, before);
      var linked := Link(src, dst);
      if linked == Refused {
        return false;
      }
      if linked == CrossDevice {
        var copied := CopyNewFile(src, dst);
        if !copied {
          return false;
        }
      } else {
        CopyMoves(f, src, dst, f[src]);
        MovedOn(f, src, dst, before, before, files);
      }
      CopyMoves(f, src, dst, f[src]);
      ghost var earlier := trace;
      ok := Unlink(src, src, dst);
      ghost var refused1 := refused;
      if ok {
        RemovalMoves(f, src, dst);
        MovedOn(f, src, dst, before, earlier, files);
      } else {
        var removed := Unlink(dst, src, dst);
        RefusedTwice(old(refused), refused1, refused, src, dst);
        if removed {
          MovedOn(f, src, dst, before, earlier, files);
        }
      }
    }
  }

  // ----- what holds whatever fails -----

  /** The poll's files on the board at the start. */
  predicate Present(f0: Files, i: nat) {
    i < NUM_FILES && OnBoard(i) in f0
  }

  ghost predicate OnBoardStill(f0: Files, g: Files, i: nat)
    requires Present(f0, i)
  {
    Has(g, OnBoard(i), f0[OnBoard(i)])
  }

  ghost predicate Archived(f0: Files, g: Files, i: nat)
    requires Present(f0, i)
  {
    Has(g, InArchive(i), f0[OnBoard(i)])
  }

  /** Every file has its content in one of its two places. */
  ghost predicate NothingLost(f0: Files, g: Files) {
    forall i :: Present(f0, i) ==> OnBoardStill(f0, g, i) || Archived(f0, g, i)
  }

  /** The control file is on the board only with all the poll's other files. */
  ghost predicate ControlLast(f0: Files, g: Files) {
    OnBoard(0) in g ==> forall i :: i != 0 && Present(f0, i) ==> OnBoardStill(f0, g, i)
  }

  /** Nothing but the two places of each of its files is touched. */
  ghost predicate OthersUntouched(f0: Files, g: Files) {
    forall p: Place :: !((p.OnBoard? || p.InArchive?) && Present(f0, p.file)) ==> Same(f0, g, p)
  }

  ghost predicate Safe(f0: Files, g: Files) {
    NothingLost(f0, g) && ControlLast(f0, g) && OthersUntouched(f0, g)
  }

  /**
   * Moving one file either way keeps all this, if the control file is off the board meanwhile or moves itself
   * while the others are there.
   */
  lemma SafeMove(f0: Files, f: Files, g: Files, k: nat, src: Place, dst: Place)
    requires Present(f0, k) && NothingLost(f0, f) && OthersUntouched(f0, f)
    requires Has(f, src, f0[OnBoard(k)]) && FileSystem.Moving(f, src, dst, g)
    requires (src == OnBoard(k) && dst == InArchive(k)) || (src == InArchive(k) && dst == OnBoard(k))
    requires k != 0 ==> OnBoard(0) !in f
    requires k == 0 ==> forall i :: i != 0 && Present(f0, i) ==> OnBoardStill(f0, f, i)
    ensures Safe(f0, g)
  {
    forall i | Present(f0, i) && i != k
      ensures OnBoardStill(f0, g, i) <==> OnBoardStill(f0, f, i)
      ensures OnBoardStill(f0, g, i) || Archived(f0, g, i)
    {
      assert Same(f, g, OnBoard(i)) && Same(f, g, InArchive(i));
      assert OnBoardStill(f0, f, i) || Archived(f0, f, i);
    }
    if k != 0 {
      assert Same(f, g, OnBoard(0));
    }
    forall p: Place | !((p.OnBoard? || p.InArchive?) && Present(f0, p.file)) ensures Same(f0, g, p) {
      assert Same(f, g, p) && Same(f0, f, p);
    }
  }

  ghost predicate AllSafe(f0: Files, trace: seq<Files>, n: nat) {
    n <= |trace| && forall k :: n <= k < |trace| ==> Safe(f0, trace[k])
  }

  lemma MovesSafe(fs: FileSystem, f0: Files, n0: nat, f: Files, before: seq<Files>, k: nat, src: Place, dst: Place)
    requires Present(f0, k) && NothingLost(f0, f) && OthersUntouched(f0, f)
    requires Has(f, src, f0[OnBoard(k)])
    requires (src == OnBoard(k) && dst == InArchive(k)) || (src == InArchive(k) && dst == OnBoard(k))
    requires k != 0 ==> OnBoard(0) !in f
    requires k == 0 ==> forall i :: i != 0 && Present(f0, i) ==> OnBoardStill(f0, f, i)
    requires AllSafe(f0, before, n0) && FileSystem.MovedSince(f, src, dst, before, fs.trace)
    requires FileSystem.Moving(f, src, dst, fs.files)
    ensures AllSafe(f0, fs.trace, n0) && Safe(f0, fs.files)
  {
    SafeMove(f0, f, fs.files, k, src, dst);
    forall j | n0 <= j < |fs.trace| ensures Safe(f0, fs.trace[j]) {
      if j < |before| {
        assert fs.trace[j] == before[j];
      } else {
        SafeMove(f0, f, fs.trace[j], k, src, dst);
      }
    }
  }

  /** During the moves: files below `i` are in the archive only, the others on the board only. */
  ghost predicate MovedBelow(f0: Files, g: Files, i: int) {
    forall k: nat :: Present(f0, k) ==>
      if k < i then Archived(f0, g, k) && OnBoard(k) !in g else OnBoardStill(f0, g, k) && InArchive(k) !in g
  }

  /** On the way back: the files of `moved[..n]` are in the archive only; the others are back, or some are not if `!back`. */
  ghost predicate PuttingBack(f0: Files, g: Files, moved: seq<nat>, n: nat, back: bool) {
    && n <= |moved|
    && (forall m :: 0 <= m < n ==> Present(f0, moved[m]) && Archived(f0, g, moved[m]) && OnBoard(moved[m]) !in g)
    && (back ==> forall k: nat :: Present(f0, k) && k !in moved[..n] ==> OnBoardStill(f0, g, k))
  }

  lemma OnlyPresent(f0: Files, g: Files, i: nat)
    requires OthersUntouched(f0, g) && i < NUM_FILES
    ensures OnBoard(i) in g ==> Present(f0, i)
  {
    assert Present(f0, i) || Same(f0, g, OnBoard(i));
  }

  /** Only refusals in moves back were added. */
  ghost predicate RefusedBack(before: seq<Refusal>, after: seq<Refusal>) {
    && |before| <= |after| && after[..|before|] == before
    && forall k :: |before| <= k < |after| ==> IsBack(after[k])
  }

  /** A refusal in the move of a file back to the board. */
  predicate IsBack(r: Refusal) {
    r.InMove? && r.src.InArchive? && r.dst == OnBoard(r.src.file)
  }

  /** One of the poll's eleven files is on the board and in the archive. */
  predicate InBothPlaces(f: Files) {
    exists i :: 0 <= i < 11 && OnBoard(i) in f && InArchive(i) in f
  }

  ghost predicate Ascending(moved: seq<nat>) {
    forall m, m' :: 0 <= m < m' < |moved| ==> moved[m] < moved[m']
  }

  /**
   * Puts back what was moved, the control file last and only when the others are back: a poll missing
   * some of its files must not come back. -1 when all are back, -2 otherwise.
   */
  method PutBack(fs: FileSystem, ghost f0: Files, ghost n0: nat, moved: seq<nat>) returns (r: int)
    requires fs.Valid() && Safe(f0, fs.files) && AllSafe(f0, fs.trace, n0)
    requires PuttingBack(f0, fs.files, moved, |moved|, true)
    requires Ascending(moved) && (moved != [] && Present(f0, 0) ==> moved[0] == 0)
    modifies fs
    ensures fs.Valid() && Safe(f0, fs.files) && AllSafe(f0, fs.trace, n0)
    ensures r == -1 || r == -2
    ensures r == -1 ==> forall i :: Present(f0, i) ==> OnBoardStill(f0, fs.files, i)
    ensures RefusedBack(old(fs.refused), fs.refused) && (r == -2 ==> fs.refused != old(fs.refused))
  {
    hide RefusedBack, RefusedIn;
    var putBack := true;
    var n: nat := |moved|;
    BackNothing(fs.refused);
    while n > 0
      invariant fs.Valid() && Safe(f0, fs.files) && AllSafe(f0, fs.trace, n0)
      invariant PuttingBack(f0, fs.files, moved, n, putBack)
      invariant RefusedBack(old(fs.refused), fs.refused) && (!putBack ==> fs.refused != old(fs.refused))
    {
      n := n - 1;
      var k := moved[n];
      if k == 0 && !putBack {
        return -2;
      }
      ghost var f, before, refused1 := fs.files, fs.trace, fs.refused;
      OnlyPresent(f0, f, 0);
      assert k == 0 ==> n == 0;
      assert moved[..n + 1] == moved[..n] + [k];
      var ok := fs.MoveFile(InArchive(k), OnBoard(k));
      MovesSafe(fs, f0, n0, f, before, k, InArchive(k), OnBoard(k));
      BackGrows(old(fs.refused), refused1, fs.refused, k);
      if !ok {
        putBack := false;
      }
      BackStep(f0, f, fs.files, moved, n, k);
    }
    return if putBack then -1 else -2;
  }

  lemma BackNothing(a: seq<Refusal>)
    ensures RefusedBack(a, a)
  {
  }

  lemma BackGrows(a: seq<Refusal>, b: seq<Refusal>, c: seq<Refusal>, k: nat)
    requires RefusedBack(a, b) && RefusedIn(b, c, InArchive(k), OnBoard(k))
    ensures RefusedBack(a, c) && (b != a || c != b ==> c != a)
  {
    assert c[..|a|] == c[..|b|][..|a|];
    forall i | |a| <= i < |b| ensures c[i] == b[i] {
      assert c[i] == c[..|b|][i];
    }
    assert c[..|c|] == c;
  }

  lemma BackStep(f0: Files, f: Files, g: Files, moved: seq<nat>, n: nat, k: nat)
    requires n < |moved| && Ascending(moved) && k == moved[n] && Present(f0, k)
    requires Has(f, InArchive(k), f0[OnBoard(k)]) && FileSystem.Moving(f, InArchive(k), OnBoard(k), g)
    ensures PuttingBack(f0, f, moved, n + 1, false) ==> PuttingBack(f0, g, moved, n, false)
    ensures PuttingBack(f0, f, moved, n + 1, true) && OnBoardStill(f0, g, k) ==> PuttingBack(f0, g, moved, n, true)
  {
    forall i | Present(f0, i) && i != k
      ensures Same(f, g, OnBoard(i)) && Same(f, g, InArchive(i))
    {
    }
    assert moved[..n + 1] == moved[..n] + [k];
  }

  lemma AdvanceMoved(f0: Files, f: Files, g: Files, i: nat)
    requires Present(f0, i) && MovedBelow(f0, f, i)
    requires g == f[InArchive(i) := f[OnBoard(i)]] - {OnBoard(i)}
    ensures MovedBelow(f0, g, i + 1)
  {
    forall k: nat | Present(f0, k) && k != i
      ensures Same(f, g, OnBoard(k)) && Same(f, g, InArchive(k))
    {
    }
  }

  lemma RefusalsJoin(a: seq<Refusal>, b: seq<Refusal>, c: seq<Refusal>, src: Place, dst: Place)
    requires RefusedIn(a, b, src, dst) && RefusedBack(b, c)
    ensures |a| <= |c| && c[..|a|] == a && (b != a ==> c != a)
    ensures c != b ==> exists k :: |a| <= k < |c| && IsBack(c[k])
  {
    assert c[..|a|] == c[..|b|][..|a|];
    if c != b {
      assert c[..|c|] == c;
      assert IsBack(c[|b|]);
    }
  }

  /** The list of the files below `i` that were there, in order. */
  ghost predicate IsMoved(f0: Files, moved: seq<nat>, i: nat) {
    && (forall k: nat :: k in moved <==> k < i && Present(f0, k))
    && Ascending(moved) && (moved != [] && Present(f0, 0) ==> moved[0] == 0)
  }

  lemma SafeAtStart(f0: Files, trace: seq<Files>)
    ensures Safe(f0, f0) && AllSafe(f0, trace, |trace|)
    ensures forall i :: Present(f0, i) ==> OnBoardStill(f0, f0, i)
  {
  }

  lemma StartMoves(f0: Files)
    requires forall k :: 0 <= k < NUM_FILES && OnBoard(k) in f0 ==> InArchive(k) !in f0
    ensures MovedBelow(f0, f0, 0) && IsMoved(f0, [], 0)
  {
  }

  lemma SkipAbsent(f0: Files, g: Files, moved: seq<nat>, i: nat)
    requires MovedBelow(f0, g, i) && OnBoard(i) !in g && IsMoved(f0, moved, i)
    ensures MovedBelow(f0, g, i + 1) && IsMoved(f0, moved, i + 1)
  {
    hide Ascending;
    assert !Present(f0, i);
  }

  lemma MovedOne(f0: Files, moved: seq<nat>, i: nat)
    requires IsMoved(f0, moved, i) && Present(f0, i)
    ensures IsMoved(f0, moved + [i], i + 1)
  {
    assert forall m :: 0 <= m < |moved| ==> moved[m] in moved;
  }

  /** What a move of the next file finds. */
  lemma ReadyToMove(f0: Files, f: Files, i: nat)
    requires Safe(f0, f) && MovedBelow(f0, f, i) && OnBoard(i) in f && i < NUM_FILES
    ensures Present(f0, i) && NothingLost(f0, f) && OthersUntouched(f0, f) && Has(f, OnBoard(i), f0[OnBoard(i)])
    ensures i != 0 ==> OnBoard(0) !in f
    ensures i == 0 ==> forall k :: k != 0 && Present(f0, k) ==> OnBoardStill(f0, f, k)
    ensures InArchive(i) !in f
  {
    OnlyPresent(f0, f, i);
    OnlyPresent(f0, f, 0);
  }

  lemma AllMoved(f0: Files, g: Files, moved: seq<nat>)
    requires Safe(f0, g) && MovedBelow(f0, g, NUM_FILES) && IsMoved(f0, moved, NUM_FILES)
    ensures forall i :: Present(f0, i) ==> Archived(f0, g, i) && OnBoard(i) !in g
    ensures forall i :: 0 <= i < NUM_FILES ==> OnBoard(i) !in g
  {
    forall i | 0 <= i < NUM_FILES ensures OnBoard(i) !in g {
      OnlyPresent(f0, g, i);
    }
  }

  lemma StartBack(f0: Files, f: Files, g: Files, moved: seq<nat>, i: nat)
    requires Present(f0, i) && MovedBelow(f0, f, i) && IsMoved(f0, moved, i)
    requires FileSystem.Moving(f, OnBoard(i), InArchive(i), g) && OnBoardStill(f0, g, i)
    ensures PuttingBack(f0, g, moved, |moved|, true)
    ensures Ascending(moved) && (moved != [] && Present(f0, 0) ==> moved[0] == 0)
  {
    forall k: nat | Present(f0, k) && k != i
      ensures Same(f, g, OnBoard(k)) && Same(f, g, InArchive(k))
    {
    }
    assert moved[..|moved|] == moved;
    forall m | 0 <= m < |moved| ensures moved[m] < i && Present(f0, moved[m]) {
      assert moved[m] in moved;
    }
  }

  lemma OthersAreThere(f0: Files, g: Files)
    requires Safe(f0, g)
    ensures forall id :: Elsewhere(id) in g <==> Elsewhere(id) in f0
    ensures forall id :: Elsewhere(id) in g ==> g[Elsewhere(id)] == f0[Elsewhere(id)]
  {
    forall id ensures Same(f0, g, Elsewhere(id)) {
    }
  }

  lemma PresentIsBack(f0: Files, g: Files)
    ensures (forall i :: Present(f0, i) ==> OnBoardStill(f0, g, i)) ==>
              forall i :: 0 <= i < 11 && OnBoard(i) in f0 ==> OnBoard(i) in g && g[OnBoard(i)] == f0[OnBoard(i)]
  {
    if forall i :: Present(f0, i) ==> OnBoardStill(f0, g, i) {
      forall i | 0 <= i < 11 && OnBoard(i) in f0 ensures OnBoard(i) in g && g[OnBoard(i)] == f0[OnBoard(i)] {
        assert Present(f0, i);
      }
    }
  }

  /** The list of what was moved is that of the files that were there. */
  lemma PresentIsListed(f0: Files, g: Files, moved: seq<nat>)
    requires IsMoved(f0, moved, NUM_FILES)
    ensures |moved| == |set i: nat | i < 11 && OnBoard(i) in f0|
    ensures (forall i :: Present(f0, i) ==> Archived(f0, g, i)) ==>
              forall i :: 0 <= i < 11 && OnBoard(i) in f0 ==> InArchive(i) in g && g[InArchive(i)] == f0[OnBoard(i)]
  {
    var there := set i: nat | i < 11 && OnBoard(i) in f0;
    forall i: nat ensures i in there <==> i in moved {
      assert i in moved <==> i < NUM_FILES && Present(f0, i);
    }
    DistinctCount(moved, there);
    if forall i :: Present(f0, i) ==> Archived(f0, g, i) {
      forall i | 0 <= i < 11 && OnBoard(i) in f0 ensures InArchive(i) in g && g[InArchive(i)] == f0[OnBoard(i)] {
        assert Present(f0, i);
      }
    }
  }

  lemma {:induction false} DistinctCount(s: seq<nat>, t: set<nat>)
    requires Ascending(s) && forall i :: i in t <==> i in s
    ensures |t| == |s|
  {
    if s == [] {
      assert t == {};
    } else {
      var k := |s| - 1;
      assert s == s[..k] + [s[k]];
      forall i ensures i in t - {s[k]} <==> i in s[..k] {
      }
      DistinctCount(s[..k], t - {s[k]});
    }
  }

  /**
   * Moves the files of a poll to the archive, the control file first. 0: all of them are archived and
   * none is left on the board. -1: all of them are on the board. -2: some could not be put back. In
   * every state on the way nothing is lost, nothing else is touched, and the control file is on the
   * board only with all the others.
   */
  method ArchivePoll(fs: FileSystem) returns (r: int, nfiles: nat)
    requires fs.Valid()
    modifies fs
    ensures fs.Valid() && r in {0, -1, -2}
    ensures Safe(old(fs.files), fs.files)
    ensures AllSafe(old(fs.files), fs.trace, |old(fs.trace)|)
    ensures r == 0 ==> forall i :: 0 <= i < 11 ==> OnBoard(i) !in fs.files
    ensures r == 0 ==> forall i :: 0 <= i < 11 && OnBoard(i) in old(fs.files) ==>
              InArchive(i) in fs.files && fs.files[InArchive(i)] == old(fs.files)[OnBoard(i)]
    ensures r == 0 ==> nfiles == |set i: nat | i < 11 && OnBoard(i) in old(fs.files)|
    ensures r == -1 ==> forall i :: 0 <= i < 11 && OnBoard(i) in old(fs.files) ==>
              OnBoard(i) in fs.files && fs.files[OnBoard(i)] == old(fs.files)[OnBoard(i)]
    ensures forall id :: Elsewhere(id) in fs.files <==> Elsewhere(id) in old(fs.files)
    ensures forall id :: Elsewhere(id) in fs.files ==> fs.files[Elsewhere(id)] == old(fs.files)[Elsewhere(id)]
    ensures InBothPlaces(old(fs.files)) ==> r == -1 && fs.files == old(fs.files)
    ensures !InBothPlaces(old(fs.files)) && fs.refused == old(fs.refused) ==> r == 0
    ensures |old(fs.refused)| <= |fs.refused| && fs.refused[..|old(fs.refused)|] == old(fs.refused)
    ensures r == -2 ==> exists k :: |old(fs.refused)| <= k < |fs.refused| && IsBack(fs.refused[k])
  {
    hide Safe, AllSafe, MovedBelow, Ascending, Present, FileSystem.Moving, RefusedIn, RefusedBack, IsBack;
    nfiles := 0;
    ghost var f0, n0, refused0 := fs.files, |fs.trace|, fs.refused;
    SafeAtStart(f0, fs.trace);
    if * {  // a path too long, or no directory to be made
      fs.refused := fs.refused + [GaveUp];
      return -1, 0;
    }
    for i := 0 to NUM_FILES
      invariant fs.files == f0 && fs.trace == old(fs.trace) && fs.refused == refused0
      invariant forall k :: 0 <= k < i && OnBoard(k) in f0 ==> InArchive(k) !in f0
    {
      if OnBoard(i) in fs.files && InArchive(i) in fs.files {
        return -1, 0;
      }
    }
    var moved: seq<nat> := [];
    StartMoves(f0);
    for i := 0 to NUM_FILES
      invariant fs.Valid() && Safe(f0, fs.files) && AllSafe(f0, fs.trace, n0)
      invariant MovedBelow(f0, fs.files, i) && IsMoved(f0, moved, i) && fs.refused == refused0
    {
      if OnBoard(i) !in fs.files {
        SkipAbsent(f0, fs.files, moved, i);
        continue;
      }
      ghost var f, before := fs.files, fs.trace;
      ReadyToMove(f0, f, i);
      var ok := fs.MoveFile(OnBoard(i), InArchive(i));
      MovesSafe(fs, f0, n0, f, before, i, OnBoard(i), InArchive(i));
      if ok {
        AdvanceMoved(f0, f, fs.files, i);
        MovedOne(f0, moved, i);
        moved := moved + [i];
        continue;
      }
      StartBack(f0, f, fs.files, moved, i);
      ghost var refused1 := fs.refused;
      r := PutBack(fs, f0, n0, moved);
      RefusalsJoin(refused0, refused1, fs.refused, OnBoard(i), InArchive(i));
      PresentIsBack(f0, fs.files);
      OthersAreThere(f0, fs.files);
      return r, 0;
    }
    AllMoved(f0, fs.files, moved);
    PresentIsListed(f0, fs.files, moved);
    OthersAreThere(f0, fs.files);
    return 0, |moved|;
  }
}
