/**
 * The user hash of util/uhash_loader.c: chains of user slots kept in two arrays, repaired in place by
 * a pointer that walks from link cell to link cell, and completed from the password file.
 */
module UserHash {
  type UserId = string

  const IDLEN := 12
  /** Entries without a valid id are linked only up to this many, to keep some slots free for registration. */
  const MAX_FREE := 1000

  predicate IsAlpha(c: char) {
    'a' <= c <= 'z' || 'A' <= c <= 'Z'
  }

  predicate IsValidUserId(id: UserId) {
    2 <= |id| <= IDLEN && IsAlpha(id[0]) && forall i :: 1 <= i < |id| ==> IsAlpha(id[i]) || '0' <= id[i] <= '9'
  }

  /** Whether a character, by its code, is a letter, or a letter or a digit. */
  predicate LetterCode(c: int) {
    65 <= c <= 90 || 97 <= c <= 122
  }

  /** A proper user id: 2 to 12 characters, letters and digits, a letter first. */
  predicate Named(id: UserId) {
    && 2 <= |id| <= 12 && LetterCode(id[0] as int)
    && forall i :: 0 <= i < |id| ==> LetterCode(id[i] as int) || 48 <= id[i] as int <= 57
  }

  lemma NamedIsValid(id: UserId)
    ensures IsValidUserId(id) <==> Named(id)
  {
    assert forall c: char :: IsAlpha(c) <==> LetterCode(c as int);
  }

  // ----- chains -----

  /** An index that ends a chain: -1, or garbage that is no slot. */
  predicate Ends(x: int, slots: nat) {
    x < 0 || x >= slots
  }

  /** The slots met when following the links from `x` are `c`, and then the chain ends. */
  predicate IsChain(next: seq<int>, x: int, c: seq<int>)
    decreases |c|
  {
    if c == [] then Ends(x, |next|)
    else !Ends(x, |next|) && x == c[0] && IsChain(next, next[x], c[1..])
  }

  /** The same, ending in -1. */
  predicate IsProperChain(next: seq<int>, x: int, c: seq<int>)
    decreases |c|
  {
    if c == [] then x == -1
    else !Ends(x, |next|) && x == c[0] && IsProperChain(next, next[x], c[1..])
  }

  predicate NoRepeat(c: seq<int>) {
    forall i, j :: 0 <= i < j < |c| ==> c[i] != c[j]
  }

  lemma {:induction false} ProperIsChain(next: seq<int>, x: int, c: seq<int>)
    requires IsProperChain(next, x, c)
    ensures IsChain(next, x, c)
    decreases |c|
  {
    if c != [] { ProperIsChain(next, next[x], c[1..]); }
  }

  lemma {:induction false} ChainUnique(next: seq<int>, x: int, c: seq<int>, d: seq<int>)
    requires IsChain(next, x, c) && IsChain(next, x, d)
    ensures c == d
    decreases |c|
  {
    if c != [] && d != [] {
      ChainUnique(next, next[x], c[1..], d[1..]);
      assert c == [x] + c[1..] && d == [x] + d[1..];
    }
  }

  lemma {:induction false} ChainFrom(next: seq<int>, x: int, c: seq<int>, i: nat)
    requires IsChain(next, x, c) && i < |c|
    ensures !Ends(c[i], |next|) && IsChain(next, c[i], c[i..]) && IsChain(next, next[c[i]], c[i + 1..])
    decreases |c|
  {
    if i > 0 {
      ChainFrom(next, next[x], c[1..], i - 1);
      assert c[1..][i - 1..] == c[i..] && c[1..][i..] == c[i + 1..];
    } else {
      assert c[0..] == c;
    }
  }

  /** A finite chain meets no slot twice. */
  lemma ChainNoRepeat(next: seq<int>, x: int, c: seq<int>)
    requires IsChain(next, x, c)
    ensures NoRepeat(c)
  {
    forall i, j | 0 <= i < j < |c| ensures c[i] != c[j] {
      ChainFrom(next, x, c, i);
      ChainFrom(next, x, c, j);
      if c[i] == c[j] {
        ChainUnique(next, c[i], c[i..], c[j..]);
      }
    }
  }

  /** Writing a link that the chain does not use leaves it alone. */
  lemma {:induction false} ChainFrame(next: seq<int>, x: int, c: seq<int>, y: int, v: int)
    requires 0 <= y < |next| && y !in c
    ensures IsChain(next, x, c) ==> IsChain(next[y := v], x, c)
    ensures IsProperChain(next, x, c) ==> IsProperChain(next[y := v], x, c)
    decreases |c|
  {
    if c != [] && !Ends(x, |next|) && x == c[0] {
      ChainFrame(next, next[x], c[1..], y, v);
    }
  }

  /** The chain without the slot that follows `y`. */
  function DropAfter(c: seq<int>, y: int): seq<int> {
    if c == [] then []
    else if c[0] == y then [y] + (if |c| > 1 then c[2..] else [])
    else [c[0]] + DropAfter(c[1..], y)
  }

  lemma {:induction false} DropAfterShape(c: seq<int>, y: int)
    ensures y !in c ==> DropAfter(c, y) == c
    ensures forall x :: x in DropAfter(c, y) ==> x in c
  {
    if c != [] {
      DropAfterShape(c[1..], y);
    }
  }

  /** Unlinking the slot after `y` shortens every chain through `y` by that slot, and no other. */
  lemma {:induction false} UnlinkAfter(next: seq<int>, x: int, c: seq<int>, y: int)
    requires IsChain(next, x, c) && 0 <= y < |next| && !Ends(next[y], |next|)
    ensures IsChain(next[y := next[next[y]]], x, DropAfter(c, y))
    decreases |c|
  {
    if c == [] {
    } else if x == y {
      ChainNoRepeat(next, x, c);
      var rest := next[next[y]];
      assert c[1..] != [] && c[1..][1..] == c[2..] && IsChain(next, rest, c[2..]);
      assert y !in c[2..];
      ChainFrame(next, rest, c[2..], y, rest);
      assert DropAfter(c, y)[1..] == c[2..];
    } else {
      UnlinkAfter(next, next[x], c[1..], y);
      assert DropAfter(c, y)[1..] == DropAfter(c[1..], y);
    }
  }

  lemma {:induction false} DropAfterAt(c: seq<int>, j: nat)
    requires NoRepeat(c) && j + 1 < |c|
    ensures DropAfter(c, c[j]) == c[..j + 1] + c[j + 2..]
  {
    if j > 0 {
      assert c[1..][j - 1] == c[j] && NoRepeat(c[1..]);
      DropAfterAt(c[1..], j - 1);
      assert c[..j + 1] == [c[0]] + c[1..][..j] && c[1..][j + 1..] == c[j + 2..];
    }
  }

  /** Replacing the garbage that ends a chain by -1 keeps every chain. */
  lemma {:induction false} TerminateAt(next: seq<int>, x: int, c: seq<int>, y: int)
    requires IsChain(next, x, c) && 0 <= y < |next| && Ends(next[y], |next|)
    ensures IsChain(next[y := -1], x, c)
    decreases |c|
  {
    if c != [] {
      TerminateAt(next, next[x], c[1..], y);
      if x == y {
        assert c[1..] == [];
      }
    }
  }

  /** What the cell before position `k` of a chain holds. */
  function LinkBefore(next: seq<int>, x: int, c: seq<int>, k: nat): int
    requires k <= |c| && forall i :: 0 <= i < |c| ==> 0 <= c[i] < |next|
  {
    if k == 0 then x else next[c[k - 1]]
  }

  lemma ChainInRange(next: seq<int>, x: int, c: seq<int>)
    requires IsChain(next, x, c)
    ensures forall i :: 0 <= i < |c| ==> 0 <= c[i] < |next|
  {
    forall i | 0 <= i < |c| ensures 0 <= c[i] < |next| {
      ChainFrom(next, x, c, i);
    }
  }

  lemma LinkBeforeIs(next: seq<int>, x: int, c: seq<int>, k: nat)
    requires IsChain(next, x, c) && k <= |c|
    ensures forall i :: 0 <= i < |c| ==> 0 <= c[i] < |next|
    ensures var v := LinkBefore(next, x, c, k); if k < |c| then v == c[k] else Ends(v, |next|)
  {
    ChainInRange(next, x, c);
    if k > 0 {
      ChainFrom(next, x, c, k - 1);
      if k < |c| {
        assert c[k..][0] == c[k];
      }
    }
  }

  lemma {:induction false} ProperIfEndsProperly(next: seq<int>, x: int, c: seq<int>)
    requires IsChain(next, x, c)
    requires forall i :: 0 <= i < |c| ==> 0 <= c[i] < |next|
    requires LinkBefore(next, x, c, |c|) == -1
    ensures IsProperChain(next, x, c)
    decreases |c|
  {
    if c != [] {
      assert |c| > 1 ==> c[1..][|c| - 2] == c[|c| - 1];
      ProperIfEndsProperly(next, next[x], c[1..]);
    }
  }

  /** All the chains of the table: one list for each bucket. */
  predicate Chains(head: seq<int>, next: seq<int>, cs: seq<seq<int>>) {
    |cs| == |head| && forall h :: 0 <= h < |cs| ==> IsChain(next, head[h], cs[h])
  }

  /** The chain of `h` is proper and holds slots of that bucket only, `bucket` giving the bucket of each slot. */
  predicate Clean(head: seq<int>, next: seq<int>, bucket: seq<nat>, h: nat, c: seq<int>)
    requires h < |head|
  {
    IsProperChain(next, head[h], c) && InBucket(bucket, h, c)
  }

  predicate InBucket(bucket: seq<nat>, h: nat, c: seq<int>) {
    forall x :: x in c ==> 0 <= x < |bucket| && bucket[x] == h
  }

  /** The slots of a chain that belong to bucket `h`, in order. */
  function Kept(bucket: seq<nat>, h: nat, c: seq<int>): seq<int> {
    if c == [] then []
    else
      var last := c[|c| - 1];
      Kept(bucket, h, c[..|c| - 1]) + (if IsOwn(bucket, h, last) then [last] else [])
  }

  predicate IsOwn(bucket: seq<nat>, h: nat, x: int) {
    0 <= x < |bucket| && bucket[x] == h
  }

  lemma {:induction false} KeptMembers(bucket: seq<nat>, h: nat, c: seq<int>)
    ensures forall x :: x in Kept(bucket, h, c) <==> x in c && IsOwn(bucket, h, x)
  {
    if c != [] {
      var d := c[..|c| - 1];
      KeptMembers(bucket, h, d);
      assert c == d + [c[|c| - 1]];
    }
  }

  lemma {:induction false} KeptWhole(bucket: seq<nat>, h: nat, c: seq<int>)
    requires forall x :: x in c ==> IsOwn(bucket, h, x)
    ensures Kept(bucket, h, c) == c
  {
    hide IsOwn;
    if c != [] {
      var d := c[..|c| - 1];
      assert c == d + [c[|c| - 1]] && c[|c| - 1] in c && forall x :: x in d ==> x in c;
      KeptWhole(bucket, h, d);
    }
  }

  /** The slots kept are those of the chain that are its own; if all are, the chain is kept whole. */
  lemma KeptIsInBucket(bucket: seq<nat>, h: nat, c: seq<int>)
    ensures InBucket(bucket, h, Kept(bucket, h, c)) && (InBucket(bucket, h, c) ==> Kept(bucket, h, c) == c)
    ensures forall x :: x in Kept(bucket, h, c) <==> x in c && IsOwn(bucket, h, x)
  {
    hide Kept;
    KeptMembers(bucket, h, c);
    if InBucket(bucket, h, c) {
      KeptWhole(bucket, h, c);
    }
  }

  /** How far the filtering of the chain of `h` has come: `j` of its slots were looked at, and `k` of them kept. */
  predicate Halfway(bucket: seq<nat>, h: nat, c: seq<int>, d: seq<int>, j: nat, k: nat) {
    j <= |c| && k == |Kept(bucket, h, c[..j])| && d == Kept(bucket, h, c[..j]) + c[j..]
  }

  /** Looking at one more slot keeps or drops it. */
  lemma HalfwayOn(bucket: seq<nat>, h: nat, c: seq<int>, d: seq<int>, j: nat, k: nat)
    requires Halfway(bucket, h, c, d, j, k) && k < |d|
    ensures j < |c| && d[k] == c[j]
    ensures 0 <= d[k] < |bucket| && bucket[d[k]] == h ==> Halfway(bucket, h, c, d, j + 1, k + 1)
    ensures !(0 <= d[k] < |bucket| && bucket[d[k]] == h) ==> Halfway(bucket, h, c, d[..k] + d[k + 1..], j + 1, k)
  {
    var e := Kept(bucket, h, c[..j]);
    assert c[..j + 1][..j] == c[..j] && c[..j + 1][j] == c[j];
    assert d == e + c[j..] && c[j..] == [c[j]] + c[j + 1..];
  }

  lemma HalfwayEnds(bucket: seq<nat>, h: nat, c: seq<int>, d: seq<int>, j: nat, k: nat)
    requires Halfway(bucket, h, c, d, j, k) && k == |d|
    ensures j == |c| && d == Kept(bucket, h, c)
  {
    assert c[..|c|] == c;
  }

  predicate Apart(c: seq<int>, d: seq<int>) {
    forall x :: x in c ==> x !in d
  }

  /** No slot is on two chains. */
  predicate AllApart(cs: seq<seq<int>>) {
    forall g, h :: 0 <= g < |cs| && 0 <= h < |cs| && g != h ==> Apart(cs[g], cs[h])
  }

  /** The lists after the slot `c[k]` of bucket `h` is unlinked. */
  function Unlinked(cs: seq<seq<int>>, h: nat, k: nat): seq<seq<int>>
    requires h < |cs| && k < |cs[h]|
  {
    if k == 0 then cs[h := cs[h][1..]]
    else seq(|cs|, g requires 0 <= g < |cs| => DropAfter(cs[g], cs[h][k - 1]))
  }

  /** `ds` came from `cs` by unlinking slots from the chain of `h`: no chain gains one, and one apart from it loses none. */
  predicate Filtering(h: nat, cs: seq<seq<int>>, ds: seq<seq<int>>)
    requires h < |cs|
  {
    && |ds| == |cs|
    && (forall g, x :: 0 <= g < |cs| && x in ds[g] ==> x in cs[g])
    && (forall g :: 0 <= g < |cs| && g != h && Apart(cs[g], cs[h]) ==> ds[g] == cs[g])
  }

  /** Unlinking one slot of another bucket through the cell before it. */
  lemma UnlinkStep(head: seq<int>, next: seq<int>, bucket: seq<nat>, h: nat, k: nat, cs: seq<seq<int>>,
                   ds: seq<seq<int>>, head': seq<int>, next': seq<int>)
    requires Chains(head, next, ds) && h < |head| && |bucket| == |next| && |cs| == |head|
    requires k < |ds[h]| && !Ends(ds[h][k], |next|) && bucket[ds[h][k]] != h && InBucket(bucket, h, ds[h][..k])
    requires Filtering(h, cs, ds)
    requires k == 0 || 0 <= ds[h][k - 1] < |next|
    requires if k == 0 then head' == head[h := next[ds[h][0]]] && next' == next
             else head' == head && next' == next[ds[h][k - 1] := next[ds[h][k]]]
    ensures Chains(head', next', Unlinked(ds, h, k)) && Filtering(h, cs, Unlinked(ds, h, k))
    ensures Unlinked(ds, h, k)[h] == ds[h][..k] + ds[h][k + 1..]
    ensures forall g :: 0 <= g < |head| && g != h && Clean(head, next, bucket, g, ds[g]) ==>
              Unlinked(ds, h, k)[g] == ds[g] && Clean(head', next', bucket, g, ds[g])
  {
    var es := Unlinked(ds, h, k);
    var c := ds[h];
    if k > 0 {
      var y := c[k - 1];
      LinkBeforeIs(next, head[h], c, k);
      assert y in c[..k] && y in c && y in cs[h];
      forall g | 0 <= g < |ds|
        ensures g != h && Apart(cs[g], cs[h]) ==> es[g] == cs[g]
        ensures IsChain(next', head'[g], es[g])
        ensures forall x :: x in es[g] ==> x in ds[g]
        ensures g != h && Clean(head, next, bucket, g, ds[g]) ==> es[g] == ds[g] && Clean(head', next', bucket, g, ds[g])
      {
        UnlinkAfter(next, head[g], ds[g], y);
        DropAfterShape(ds[g], y);
        if g != h && Clean(head, next, bucket, g, ds[g]) {
          ChainFrame(next, head[g], ds[g], y, next[c[k]]);
        }
      }
      ChainNoRepeat(next, head[h], c);
      DropAfterAt(c, k - 1);
    }
  }

  /** On a clean chain a walk meets slots of its bucket only, and then -1. */
  lemma CleanStep(head: seq<int>, next: seq<int>, bucket: seq<nat>, h: nat, c: seq<int>, k: nat)
    requires h < |head| && |bucket| == |next| && k <= |c| && Clean(head, next, bucket, h, c)
    ensures forall i :: 0 <= i < |c| ==> 0 <= c[i] < |next|
    ensures var x := LinkBefore(next, head[h], c, k);
            if k < |c| then x == c[k] && 0 <= x < |bucket| && bucket[x] == h else x == -1
  {
    ProperIsChain(next, head[h], c);
    LinkBeforeIs(next, head[h], c, k);
    ProperEnd(next, head[h], c);
  }

  /** Where the repair of the chain of `h` is: the table and lists it started from, and those it has. */
  datatype Repair = Repair(head0: seq<int>, next0: seq<int>, cs: seq<seq<int>>,
                           head: seq<int>, next: seq<int>, ds: seq<seq<int>>)

  /** The repair has looked at `j` slots of the chain of `h` and kept `k`. */
  ghost predicate Repairing(bucket: seq<nat>, h: nat, r: Repair, j: nat, k: nat) {
    && |r.head0| == |r.head| == |r.cs| && h < |r.head| && |bucket| == |r.next| == |r.next0|
    && Chains(r.head, r.next, r.ds) && Filtering(h, r.cs, r.ds)
    && k <= |r.ds[h]| && InBucket(bucket, h, r.ds[h][..k]) && Halfway(bucket, h, r.cs[h], r.ds[h], j, k)
    && (forall g :: 0 <= g < |r.cs| && g != h && Clean(r.head0, r.next0, bucket, g, r.cs[g]) ==>
          r.ds[g] == r.cs[g] && Clean(r.head, r.next, bucket, g, r.ds[g]))
    && (Clean(r.head0, r.next0, bucket, h, r.cs[h]) ==> r.ds == r.cs && r.head == r.head0 && r.next == r.next0)
  }

  /** The repair is over: what it promises. */
  ghost predicate Repaired(bucket: seq<nat>, h: nat, r: Repair) {
    && |r.head0| == |r.head| == |r.cs| && h < |r.head|
    && Chains(r.head, r.next, r.ds) && Filtering(h, r.cs, r.ds)
    && Clean(r.head, r.next, bucket, h, r.ds[h]) && r.ds[h] == Kept(bucket, h, r.cs[h])
    && (forall g :: 0 <= g < |r.cs| && g != h && Clean(r.head0, r.next0, bucket, g, r.cs[g]) ==>
          r.ds[g] == r.cs[g] && Clean(r.head, r.next, bucket, g, r.ds[g]))
    && (Clean(r.head0, r.next0, bucket, h, r.cs[h]) ==> r.ds == r.cs && r.head == r.head0 && r.next == r.next0)
  }

  lemma RepairStarts(bucket: seq<nat>, h: nat, head: seq<int>, next: seq<int>, cs: seq<seq<int>>)
    requires Chains(head, next, cs) && h < |head| && |bucket| == |next|
    ensures Repairing(bucket, h, Repair(head, next, cs, head, next, cs), 0, 0)
  {
    assert cs[h][..0] == [] && cs[h][0..] == cs[h];
  }

  /** What the repair reads next: the slot it is at, or the end of the chain. */
  lemma RepairReads(bucket: seq<nat>, h: nat, r: Repair, j: nat, k: nat)
    requires Repairing(bucket, h, r, j, k)
    ensures forall i :: 0 <= i < |r.ds[h]| ==> 0 <= r.ds[h][i] < |r.next|
    ensures var x := LinkBefore(r.next, r.head[h], r.ds[h], k);
            if k < |r.ds[h]| then x == r.ds[h][k] else Ends(x, |r.next|)
  {
    LinkBeforeIs(r.next, r.head[h], r.ds[h], k);
  }

  lemma RepairKeeps(bucket: seq<nat>, h: nat, r: Repair, j: nat, k: nat)
    requires Repairing(bucket, h, r, j, k) && k < |r.ds[h]|
    requires var x := r.ds[h][k]; 0 <= x < |bucket| && bucket[x] == h
    ensures Repairing(bucket, h, r, j + 1, k + 1)
  {
    HalfwayOn(bucket, h, r.cs[h], r.ds[h], j, k);
    assert r.ds[h][..k + 1] == r.ds[h][..k] + [r.ds[h][k]];
  }

  lemma RepairDrops(bucket: seq<nat>, h: nat, r: Repair, j: nat, k: nat, head': seq<int>, next': seq<int>)
    requires Repairing(bucket, h, r, j, k) && k < |r.ds[h]|
    requires var x := r.ds[h][k]; 0 <= x < |bucket| && bucket[x] != h
    requires k == 0 || 0 <= r.ds[h][k - 1] < |r.next|
    requires if k == 0 then head' == r.head[h := r.next[r.ds[h][0]]] && next' == r.next
             else head' == r.head && next' == r.next[r.ds[h][k - 1] := r.next[r.ds[h][k]]]
    ensures var es := Unlinked(r.ds, h, k);
            && |es| == |r.ds| && |es[h]| == |r.ds[h]| - 1 && k <= |es[h]|
            && (k > 0 ==> es[h][k - 1] == r.ds[h][k - 1])
            && Repairing(bucket, h, r.(head := head', next := next', ds := es), j + 1, k)
  {
    hide Filtering, Halfway;
    assert r.ds[h][k] in r.ds[h] && !Clean(r.head, r.next, bucket, h, r.ds[h]);
    HalfwayOn(bucket, h, r.cs[h], r.ds[h], j, k);
    UnlinkStep(r.head, r.next, bucket, h, k, r.cs, r.ds, head', next');
    assert (r.ds[h][..k] + r.ds[h][k + 1..])[..k] == r.ds[h][..k];
  }

  /** The end of the chain: as it is when it is -1, and made so otherwise. */
  lemma RepairEnds(bucket: seq<nat>, h: nat, r: Repair, j: nat, k: nat, head': seq<int>, next': seq<int>)
    requires Repairing(bucket, h, r, j, k) && k == |r.ds[h]| && (k > 0 ==> 0 <= r.ds[h][k - 1] < |r.next|)
    requires if k == 0 then head' == r.head[h := -1] && next' == r.next
             else head' == r.head && next' == r.next[r.ds[h][k - 1] := -1]
    ensures Repaired(bucket, h, r.(head := head', next := next'))
  {
    hide Filtering;
    HalfwayEnds(bucket, h, r.cs[h], r.ds[h], j, k);
    assert r.ds[h][..k] == r.ds[h];
    if Clean(r.head0, r.next0, bucket, h, r.cs[h]) {
      CleanStep(r.head, r.next, bucket, h, r.ds[h], k);
      assert head' == r.head && next' == r.next;
    }
    TerminateStep(r.head, r.next, bucket, h, r.ds, head', next');
  }

  /**
   * What the first pass, come to bucket `n`, has made of the lists `was`: they hold slots they held before, the ones
   * done only those of their bucket; one clean at the start is as it was; and without shared slots each one done is
   * exactly the slots of its bucket, in order.
   */
  ghost predicate Filtered(head0: seq<int>, next0: seq<int>, bucket: seq<nat>, was: seq<seq<int>>, ds: seq<seq<int>>, n: nat) {
    && |ds| == |was| == |head0| && n <= |ds|
    && (forall g, x :: 0 <= g < |ds| && x in ds[g] ==> x in was[g])
    && (forall g :: 0 <= g < n ==> InBucket(bucket, g, ds[g]))
    && (forall g :: 0 <= g < |ds| && Clean(head0, next0, bucket, g, was[g]) ==> ds[g] == was[g])
    && (AllApart(was) ==> forall g :: 0 <= g < |ds| ==> ds[g] == if g < n then Kept(bucket, g, was[g]) else was[g])
  }

  /** The table after that, which is untouched if it was clean. */
  ghost predicate FirstPass(r: Repair, bucket: seq<nat>, n: nat) {
    && |r.head| == |r.head0| && Filtered(r.head0, r.next0, bucket, r.cs, r.ds, n) && Chains(r.head, r.next, r.ds)
    && (forall g :: 0 <= g < n ==> Clean(r.head, r.next, bucket, g, r.ds[g]))
    && (forall g :: 0 <= g < |r.cs| && Clean(r.head0, r.next0, bucket, g, r.cs[g]) ==> Clean(r.head, r.next, bucket, g, r.ds[g]))
    && ((forall g :: 0 <= g < |r.cs| ==> Clean(r.head0, r.next0, bucket, g, r.cs[g])) ==>
          r.head == r.head0 && r.next == r.next0)
  }

  lemma FirstPassStarts(bucket: seq<nat>, head: seq<int>, next: seq<int>, was: seq<seq<int>>)
    requires Chains(head, next, was)
    ensures FirstPass(Repair(head, next, was, head, next, was), bucket, 0)
  {
  }

  lemma FirstPassLinked(bucket: seq<nat>, r: Repair, n: nat)
    requires FirstPass(r, bucket, n)
    ensures n <= |r.ds| == |r.head| && Chains(r.head, r.next, r.ds)
    ensures forall g :: 0 <= g < n ==> Clean(r.head, r.next, bucket, g, r.ds[g])
  {
  }

  lemma FirstPassDone(bucket: seq<nat>, r: Repair)
    requires FirstPass(r, bucket, |r.head|)
    ensures |r.cs| == |r.head0| == |r.head| && Filtered(r.head0, r.next0, bucket, r.cs, r.ds, |r.head|)
    ensures (forall g :: 0 <= g < |r.cs| ==> Clean(r.head0, r.next0, bucket, g, r.cs[g])) ==>
              r.ds == r.cs && r.head == r.head0 && r.next == r.next0
  {
  }

  lemma FirstPassOn(bucket: seq<nat>, r: Repair, n: nat, head': seq<int>, next': seq<int>, es: seq<seq<int>>)
    requires FirstPass(r, bucket, n) && n < |r.head| && Repaired(bucket, n, Repair(r.head, r.next, r.ds, head', next', es))
    ensures FirstPass(r.(head := head', next := next', ds := es), bucket, n + 1)
  {
    hide Kept;
    FilteredOn(r.head0, r.next0, bucket, r.cs, r.ds, n, es);
    forall g | 0 <= g < |es| ensures g != n && Clean(r.head, r.next, bucket, g, r.ds[g]) ==> Clean(head', next', bucket, g, es[g]) {
    }
  }

  lemma FilteredOn(head0: seq<int>, next0: seq<int>, bucket: seq<nat>, was: seq<seq<int>>, ds: seq<seq<int>>, n: nat,
                   es: seq<seq<int>>)
    requires Filtered(head0, next0, bucket, was, ds, n) && n < |ds| && Filtering(n, ds, es)
    requires es[n] == Kept(bucket, n, ds[n])
    requires forall g :: 0 <= g < |ds| && Clean(head0, next0, bucket, g, was[g]) ==> es[g] == ds[g]
    ensures Filtered(head0, next0, bucket, was, es, n + 1)
  {
    KeptIsInBucket(bucket, n, ds[n]);
    forall g | 0 <= g < n ensures InBucket(bucket, g, es[g]) {
      assert InBucket(bucket, g, ds[g]);
    }
    if AllApart(was) {
      forall g | 0 <= g < |ds| ensures es[g] == if g <= n then Kept(bucket, g, was[g]) else was[g] {
        if g != n {
          assert Apart(was[g], was[n]);
          assert Apart(ds[g], ds[n]);
        }
      }
    }
  }

  // ----- the table -----

  /** A cell that holds a link: the head of a bucket, or the link of a slot. */
  datatype Cell = Head(bucket: nat) | Link(slot: nat)

  /** `strncmp` over the first `IDLEN - 1` characters, as the loader compares ids. */
  predicate SamePrefix(a: UserId, b: UserId) {
    Prefix(a) == Prefix(b)
  }

  lemma SamePrefixMeans(a: UserId, b: UserId)
    ensures SamePrefix(a, b) <==> a == b || (|a| >= 11 && |b| >= 11 && a[..11] == b[..11])
  {
  }

  function Prefix(a: UserId): UserId {
    if |a| <= IDLEN - 1 then a else a[..IDLEN - 1]
  }

  datatype UserRec = UserRec(userid: UserId, money: int)

  class UserTable {
    const head: array<int>
    const next: array<int>
    const userid: array<UserId>
    const money: array<int>
    /** The hash of a user id, any function onto the buckets. */
    const hash: UserId -> nat
    var number: nat
    /** Entries without a valid id met so far. */
    var freeCount: nat

    ghost predicate Valid()
      reads this, userid
    {
      && head.Length > 0 && next.Length == userid.Length == money.Length
      && head != next && head != money && next != money
      && forall id :: hash(id) < head.Length
    }

    ghost predicate Linked(cs: seq<seq<int>>)
      reads head, next
    {
      Chains(head[..], next[..], cs)
    }

    /** The bucket of each slot, by the id the table has for it. */
    ghost function Buckets(): seq<nat>
      reads userid
    {
      seq(userid.Length, i requires 0 <= i < userid.Length reads userid => hash(userid[i]))
    }

    method Read(p: Cell) returns (x: int)
      requires match p case Head(h) => h < head.Length case Link(i) => i < next.Length
      ensures match p case Head(h) => x == head[h] case Link(i) => x == next[i]
    {
      match p
      case Head(h) => x := head[h];
      case Link(i) => x := next[i];
    }

    method Write(p: Cell, v: int)
      requires match p case Head(h) => h < head.Length case Link(i) => i < next.Length
      requires head != next
      modifies head, next
      ensures match p
              case Head(h) => head[..] == old(head[..])[h := v] && next[..] == old(next[..])
              case Link(i) => next[..] == old(next[..])[i := v] && head[..] == old(head[..])
    {
      match p
      case Head(h) => head[h] := v;
      case Link(i) => next[i] := v;
    }

    /** The cell that leads to position `k` of the chain `c` of bucket `h`. */
    ghost predicate IsCellAt(p: Cell, h: nat, c: seq<int>, k: nat)
    {
      k <= |c| && if k == 0 then p == Head(h) else c[k - 1] >= 0 && p == Link(c[k - 1])
    }

    /**
     * Removes from the chain of bucket `h` the slots of other buckets: what is left is the slots of `h`, in order.
     * Chains may share slots: each other chain only loses slots, none if it shares none with this one or is clean
     * already. If this one is clean, nothing changes.
     */
    method CheckHash(h: nat, ghost cs: seq<seq<int>>) returns (ghost ds: seq<seq<int>>)
      requires Valid() && h < head.Length && Linked(cs)
      modifies head, next
      ensures Repaired(Buckets(), h, Repair(old(head[..]), old(next[..]), cs, head[..], next[..], ds))
    {
      hide Repairing, Repaired;
      ghost var bucket := Buckets();
      ghost var r := Repair(head[..], next[..], cs, head[..], next[..], cs);
      var p := Head(h);
      ghost var j, k := 0, 0;
      RepairStarts(bucket, h, head[..], next[..], cs);
      var x := Read(p);
      while x != -1
        invariant |r.ds| == head.Length && Repairing(bucket, h, r, j, k) && k <= |r.ds[h]|
        invariant r.head0 == old(head[..]) && r.next0 == old(next[..]) && r.cs == cs
        invariant r.head == head[..] && r.next == next[..]
        invariant IsCellAt(p, h, r.ds[h], k) && (p.Link? ==> p.slot < next.Length)
        invariant x == if p.Head? then head[h] else next[p.slot]
        decreases |r.ds[h]| - k
      {
        RepairReads(bucket, h, r, j, k);
        if x < -1 || x >= next.Length {
          Write(p, -1);
          RepairEnds(bucket, h, r, j, k, head[..], next[..]);
          return r.ds;
        }
        var ch := hash(userid[x]);
        if ch != h {
          var after := next[x];
          Write(p, after);
          RepairDrops(bucket, h, r, j, k, head[..], next[..]);
          r := r.(head := head[..], next := next[..], ds := Unlinked(r.ds, h, k));
        } else {
          RepairKeeps(bucket, h, r, j, k);
          p := Link(x);
          k := k + 1;
        }
        j := j + 1;
        x := Read(p);
      }
      RepairReads(bucket, h, r, j, k);
      assert k > 0 ==> next[..][r.ds[h][k - 1] := -1] == next[..];
      assert k == 0 ==> head[..][h := -1] == head[..];
      RepairEnds(bucket, h, r, j, k, head[..], next[..]);
      ds := r.ds;
    }

    /**
     * Enters a password record: its id into the slot, and the slot at the tail of its bucket, unless
     * it is there already or the record is one free entry too many.
     */
    method AddToHash(n: nat, user: UserRec, onfly: bool, ghost c: seq<int>)
      requires Valid() && n < userid.Length && IsProperChain(next[..], head[hash(user.userid)], c)
      requires Entered(user.userid, freeCount + if IsValidUserId(user.userid) then 0 else 1) ==> onfly || n !in c
      modifies this`freeCount, head, next, userid, money
      ensures freeCount == old(freeCount) + if Named(user.userid) then 0 else 1
      ensures Entered(user.userid, freeCount) <==> Named(user.userid) || old(freeCount) < 1000
      ensures !Entered(user.userid, freeCount) ==>
                head[..] == old(head[..]) && next[..] == old(next[..]) && userid[..] == old(userid[..])
      ensures Entered(user.userid, freeCount) ==>
                userid[..] == if onfly && SamePrefix(old(userid[n]), user.userid) then old(userid[..])
                              else old(userid[..])[n := user.userid]
      ensures money[..] == if Entered(user.userid, freeCount) && !(onfly && SamePrefix(old(userid[n]), user.userid))
                           then old(money[..])[n := user.money] else old(money[..])
      ensures Entered(user.userid, freeCount) && n in c ==> head[..] == old(head[..]) && next[..] == old(next[..])
      ensures Entered(user.userid, freeCount) && n !in c ==>
                Appended(old(head[..]), old(next[..]), hash(user.userid), c, n, head[..], next[..])
    {
      NamedIsValid(user.userid);
      if !IsValidUserId(user.userid) {
        freeCount := freeCount + 1;
        if freeCount > MAX_FREE {
          return;
        }
      }
      var h := hash(user.userid);
      ghost var links := next[..];
      if !onfly || !SamePrefix(userid[n], user.userid) {
        userid[n] := user.userid;
        money[n] := user.money;
      }
      ghost var paid := money[..];
      assert next[..] == links;
      LinkTail(n, h, onfly, c);
    }

    /** Walks the chain to its tail, and links slot `n` there if the walk has not met it. */
    method LinkTail(n: nat, h: nat, onfly: bool, ghost c: seq<int>)
      requires Valid() && n < next.Length && h < head.Length && IsProperChain(next[..], head[h], c)
      requires onfly || n !in c
      modifies head, next
      ensures n in c ==> head[..] == old(head[..]) && next[..] == old(next[..])
      ensures n !in c ==> Appended(old(head[..]), old(next[..]), h, c, n, head[..], next[..])
    {
      ghost var head0, next0 := head[..], next[..];
      ProperIsChain(next0, head0[h], c);
      ProperEnd(next0, head0[h], c);
      var p := Head(h);
      var x := Read(p);
      ghost var k := 0;
      while x != -1
        modifies {}
        invariant head[..] == head0 && next[..] == next0
        invariant IsCellAt(p, h, c, k) && n !in c[..k] && (p.Link? ==> p.slot < next.Length)
        invariant x == LinkBefore(next0, head0[h], c, k)
        decreases |c| - k
      {
        LinkBeforeIs(next0, head0[h], c, k);
        if onfly && x == n {
          return;
        }
        p := Link(x);
        k := k + 1;
        x := Read(p);
      }
      LinkBeforeIs(next0, head0[h], c, k);
      assert c[..k] == c;
      next[n] := -1;
      Write(p, n);
    }

    /** Whether a record with this id is entered when `free` entries without a valid id were met, itself included. */
    static predicate Entered(id: UserId, free: nat) {
      IsValidUserId(id) || free <= MAX_FREE
    }

    /** Every bucket's chain is proper, and holds slots of that bucket only. */
    ghost predicate IsClean(cs: seq<seq<int>>)
      reads head, next, userid
    {
      AllClean(head[..], next[..], Buckets(), cs)
    }

    /** The first pass: empties every bucket, or repairs it in place. */
    method ClearBuckets(onfly: bool, ghost was: seq<seq<int>>) returns (ghost ds: seq<seq<int>>)
      requires Valid() && (onfly ==> Linked(was))
      modifies head, next
      ensures IsClean(ds)
      ensures onfly ==>
                FirstPass(Repair(old(head[..]), old(next[..]), was, head[..], next[..], ds), Buckets(), head.Length)
      ensures !onfly ==> forall h :: 0 <= h < |ds| ==> ds[h] == []
    {
      hide FirstPass, Repaired;
      ghost var bucket := Buckets();
      ds := if onfly then was else seq(head.Length, h => []);
      ghost var r := Repair(head[..], next[..], was, head[..], next[..], was);
      if onfly {
        FirstPassStarts(bucket, head[..], next[..], was);
      }
      for h := 0 to head.Length
        invariant |ds| == head.Length
        invariant onfly ==> FirstPass(r.(head := head[..], next := next[..], ds := ds), bucket, h)
        invariant !onfly ==> forall g :: 0 <= g < |ds| ==> ds[g] == [] && (g < h ==> head[g] == -1)
      {
        if !onfly {
          head[h] := -1;
        } else {
          ghost var before := r.(head := head[..], next := next[..], ds := ds);
          FirstPassLinked(bucket, before, h);
          ds := CheckHash(h, ds);
          FirstPassOn(bucket, before, h, head[..], next[..], ds);
          FirstPassLinked(bucket, r.(head := head[..], next := next[..], ds := ds), h + 1);
        }
      }
      if onfly {
        FirstPassLinked(bucket, r.(head := head[..], next := next[..], ds := ds), head.Length);
      }
    }

    /**
     * Loads the hash from the password file, or repairs it. Whatever chains `was` it starts from, shared or misplaced,
     * as long as they end, every bucket ends with a finite chain without repetition. The table is then clean, that is
     * every chain holds only slots of its bucket, if and only if each record entered on the fly fits the lists `ds` that
     * the first pass leaves; then every user with a valid id is on the chain of its bucket, as are the first 1000 records
     * without one, and the chains are the filtered ones (or none) with the missing entries appended in the order of the
     * file. A table that was clean and has every entry keeps all its links.
     */
    method FillHash(file: seq<UserRec>, onfly: bool, ghost was: seq<seq<int>>)
      returns (ghost ds: seq<seq<int>>, ghost cs: seq<seq<int>>)
      requires Valid() && (onfly ==> |was| == head.Length && Linked(was))
      modifies this, head, next, userid, money
      ensures Valid() && number == if |file| <= userid.Length then |file| else userid.Length
      ensures Proper(head[..], next[..], cs) && forall h :: 0 <= h < |cs| ==> NoRepeat(cs[h])
      ensures |ds| == head.Length
      ensures CleanTable(head[..], next[..], Buckets()) <==>
              !onfly || Fits(file, hash, old(freeCount), old(userid[..]), ds, number)
      ensures !onfly || Fits(file, hash, old(freeCount), old(userid[..]), ds, number) ==>
                && IsClean(cs) && cs == CompleteAll(ds, file, hash, old(freeCount), number)
                && forall n :: 0 <= n < number && IsValidUserId(file[n].userid) ==> n in cs[hash(file[n].userid)]
      ensures !onfly || Fits(file, hash, old(freeCount), old(userid[..]), ds, number) ==>
                Listed(file, hash, old(freeCount), ds, cs, number)
      ensures onfly ==> Filtered(old(head[..]), old(next[..]), old(Buckets()), was, ds, head.Length)
      ensures !onfly ==> forall h :: 0 <= h < |ds| ==> ds[h] == []
      ensures onfly && old(IsClean(was)) && AllListed(file, hash, old(freeCount), number, was) ==>
                cs == was && head[..] == old(head[..]) && next[..] == old(next[..])
      ensures Written(file, onfly, old(freeCount), old(userid[..]), old(money[..]), userid[..], money[..], number)
    {
      hide AllClean, Chains, Proper, IsValidUserId, NoRepeat, CompleteAll, Filtered, FirstPass, AllListed, Fits, SecondPass,
        SamePrefix, CleanTable, Stepped, Written, Listed;
      ghost var bucket, free, ids := Buckets(), freeCount, userid[..];
      ghost var head0, next0, wasClean := head[..], next[..], IsClean(was);
      WrittenNothing(file, onfly, free, ids, money[..]);
      if wasClean {
        CleanEach(head0, next0, bucket, was);
      }
      ds := ClearBuckets(onfly, was);
      CleanEach(head[..], next[..], bucket, ds);
      if onfly {
        FirstPassDone(bucket, Repair(head0, next0, was, head[..], next[..], ds));
      }
      cs := ds;
      var size := if |file| <= userid.Length then |file| else userid.Length;
      SecondPassStarts(head[..], next[..], bucket, ds, file, hash, free, ids, onfly);
      ghost var settled := onfly && wasClean && AllListed(file, hash, free, size, was);
      for n := 0 to size
        invariant Valid() && |Buckets()| == |bucket| && freeCount == free + FreeIn(file, n)
        invariant SecondPass(head[..], next[..], Buckets(), cs, ds, file, hash, free, ids, onfly, n)
        invariant settled ==> cs == was && head[..] == head0 && next[..] == next0
        invariant Written(file, onfly, free, ids, old(money[..]), userid[..], money[..], n)
      {
        ghost var ids1, money1 := userid[..], money[..];
        NotWritten(file, onfly, free, ids, old(money[..]), ids1, money1, n);
        ghost var head1, next1, bucket1, cs1 := head[..], next[..], Buckets(), cs;
        SecondPassProper(head1, next1, bucket1, cs, ds, file, hash, free, ids, onfly, n);
        if settled {
          ListedAt(file, hash, free, size, was, n);
        }
        cs := AddStep(n, file, onfly, cs);
        WrittenOn(file, onfly, free, ids, old(money[..]), ids1, money1, userid[..], money[..], n);
        SecondPassOn(head1, next1, bucket1, cs1, head[..], next[..], Buckets(), cs, ds, file, hash, free, ids, onfly, n);
        if settled {
          SteppedNowhere(head1, next1, cs1, hash(file[n].userid), n, Entered(file[n].userid, freeCount), head[..], next[..], cs);
        }
      }
      number := size;
      SecondPassDone(head[..], next[..], Buckets(), cs, ds, file, hash, free, ids, onfly, size);
    }

    /** One record of the second pass, with what it does to the lists. */
    method AddStep(n: nat, file: seq<UserRec>, onfly: bool, ghost cs: seq<seq<int>>) returns (ghost es: seq<seq<int>>)
      requires Valid() && Proper(head[..], next[..], cs) && n < |file| && n < userid.Length
      requires Entered(file[n].userid, freeCount + if IsValidUserId(file[n].userid) then 0 else 1) ==>
                 onfly || n !in cs[hash(file[n].userid)]
      modifies this`freeCount, head, next, userid, money
      ensures Valid() && freeCount == old(freeCount) + if IsValidUserId(file[n].userid) then 0 else 1
      ensures forall m :: 0 <= m < userid.Length && m != n ==> userid[m] == old(userid[m]) && money[m] == old(money[m])
      ensures if Entered(file[n].userid, freeCount) && !(onfly && SamePrefix(old(userid[n]), file[n].userid))
              then userid[n] == file[n].userid && money[n] == file[n].money
              else userid[n] == old(userid[n]) && money[n] == old(money[n])
      ensures Stepped(old(head[..]), old(next[..]), cs, hash(file[n].userid), n, Entered(file[n].userid, freeCount),
                      head[..], next[..], es)
    {
      hide Relinked, IsProperChain, SamePrefix, IsValidUserId, Named;
      var user := file[n];
      NamedIsValid(user.userid);
      var h := hash(user.userid);
      ghost var head0, next0 := head[..], next[..];
      AddToHash(n, user, onfly, cs[h]);
      es := if Entered(user.userid, freeCount) && n !in cs[h] then Relinked(cs, h, n) else cs;
      if Entered(user.userid, freeCount) && n !in cs[h] {
        RelinkProper(head0, next0, cs, h, n, head[..], next[..]);
      }
    }

    /** Whether the second pass writes slot `n`, which had the id `id`. */
    static predicate Writes(file: seq<UserRec>, onfly: bool, free: nat, n: nat, id: UserId)
      requires n < |file|
    {
      Entered(file[n].userid, free + FreeIn(file, n + 1)) && !(onfly && SamePrefix(id, file[n].userid))
    }
  }

  /** The records among the first `n` that have no proper id. */
  ghost function Nameless(file: seq<UserRec>, n: nat): set<int>
    requires n <= |file|
  {
    set m | 0 <= m < n && !Named(file[m].userid)
  }

  /**
   * Which records are on the chains: the users, and of the others the first 1000, on the chain of their own ids; any
   * further one only where it was.
   */
  ghost predicate Listed(file: seq<UserRec>, hash: UserId -> nat, free: nat, ds: seq<seq<int>>, cs: seq<seq<int>>, n: nat)
    requires n <= |file| && |ds| == |cs| && forall id :: hash(id) < |cs|
  {
    forall m :: 0 <= m < n ==>
      if Named(file[m].userid) || free + |Nameless(file, m + 1)| <= 1000 then m in cs[hash(file[m].userid)]
      else forall g :: 0 <= g < |cs| ==> (m in cs[g] <==> m in ds[g])
  }

  lemma {:induction false} FreeIsNameless(file: seq<UserRec>, n: nat)
    requires n <= |file|
    ensures |Nameless(file, n)| == FreeIn(file, n)
  {
    hide Named, IsValidUserId;
    if n > 0 {
      FreeIsNameless(file, n - 1);
      NamedIsValid(file[n - 1].userid);
      if Named(file[n - 1].userid) {
        assert Nameless(file, n) == Nameless(file, n - 1);
      } else {
        assert Nameless(file, n) == Nameless(file, n - 1) + {n - 1};
      }
    }
  }

  /** Ids and money after the first `n` records: those of the records that were written, and the old ones. */
  ghost predicate Written(file: seq<UserRec>, onfly: bool, free: nat, ids: seq<UserId>, money: seq<int>,
                          ids': seq<UserId>, money': seq<int>, n: nat)
  {
    && n <= |file| && n <= |ids| == |money| == |ids'| == |money'|
    && forall m :: 0 <= m < |ids| ==>
         if m < n && UserTable.Writes(file, onfly, free, m, ids[m])
         then ids'[m] == file[m].userid && money'[m] == file[m].money
         else ids'[m] == ids[m] && money'[m] == money[m]
  }

  lemma WrittenNothing(file: seq<UserRec>, onfly: bool, free: nat, ids: seq<UserId>, money: seq<int>)
    requires |ids| == |money|
    ensures Written(file, onfly, free, ids, money, ids, money, 0)
  {
  }

  lemma NotWritten(file: seq<UserRec>, onfly: bool, free: nat, ids: seq<UserId>, money: seq<int>,
                   ids': seq<UserId>, money': seq<int>, n: nat)
    requires Written(file, onfly, free, ids, money, ids', money', n) && n < |ids|
    ensures |ids'| == |ids| && ids'[n] == ids[n]
  {
  }

  lemma WrittenOn(file: seq<UserRec>, onfly: bool, free: nat, ids: seq<UserId>, money: seq<int>, ids1: seq<UserId>,
                  money1: seq<int>, ids2: seq<UserId>, money2: seq<int>, n: nat)
    requires Written(file, onfly, free, ids, money, ids1, money1, n) && n < |file| && n < |ids|
    requires |ids2| == |ids1| && |money2| == |money1|
    requires forall m :: 0 <= m < |ids2| && m != n ==> ids2[m] == ids1[m] && money2[m] == money1[m]
    requires if UserTable.Writes(file, onfly, free, n, ids1[n])
             then ids2[n] == file[n].userid && money2[n] == file[n].money
             else ids2[n] == ids1[n] && money2[n] == money1[n]
    ensures Written(file, onfly, free, ids, money, ids2, money2, n + 1)
  {
    hide UserTable.Writes;
  }

  // ----- the second pass on lists -----

  /** Every bucket's chain is finite and ends in -1; chains may share slots and hold any of them. */
  predicate Proper(head: seq<int>, next: seq<int>, cs: seq<seq<int>>) {
    |cs| == |head| && forall g :: 0 <= g < |cs| ==> IsProperChain(next, head[g], cs[g])
  }

  predicate AllClean(head: seq<int>, next: seq<int>, bucket: seq<nat>, cs: seq<seq<int>>) {
    |cs| == |head| && forall g :: 0 <= g < |cs| ==> Clean(head, next, bucket, g, cs[g])
  }

  lemma CleanEach(head: seq<int>, next: seq<int>, bucket: seq<nat>, cs: seq<seq<int>>)
    requires AllClean(head, next, bucket, cs)
    ensures |cs| == |head| && forall g :: 0 <= g < |cs| ==> Clean(head, next, bucket, g, cs[g])
  {
  }

  /** Some lists make every chain of the table clean. */
  ghost predicate CleanTable(head: seq<int>, next: seq<int>, bucket: seq<nat>) {
    exists es: seq<seq<int>> :: AllClean(head, next, bucket, es)
  }

  /**
   * A record with the id `id` that is entered on the fly in slot `n`, which has the id `was`: its bucket is the same
   * already, or the slot is on no chain of its old one and its id is replaced.
   */
  ghost predicate FitsAt(hash: UserId -> nat, id: UserId, n: nat, was: UserId, ds: seq<seq<int>>)
    requires forall id :: hash(id) < |ds|
  {
    hash(was) == hash(id) || (n !in ds[hash(was)] && !SamePrefix(was, id))
  }

  /** Each of the first `n` records that is entered fits. */
  ghost predicate Fits(file: seq<UserRec>, hash: UserId -> nat, free: nat, ids: seq<UserId>, ds: seq<seq<int>>, n: nat)
    requires n <= |file| && n <= |ids| && forall id :: hash(id) < |ds|
  {
    forall m :: 0 <= m < n && UserTable.Entered(file[m].userid, free + FreeIn(file, m + 1)) ==>
      FitsAt(hash, file[m].userid, m, ids[m], ds)
  }

  /** Every record that is entered is on the list of its bucket. */
  ghost predicate AllListed(file: seq<UserRec>, hash: UserId -> nat, free: nat, size: nat, cs: seq<seq<int>>)
    requires size <= |file| && forall id :: hash(id) < |cs|
  {
    forall n :: 0 <= n < size && UserTable.Entered(file[n].userid, free + FreeIn(file, n + 1)) ==> n in cs[hash(file[n].userid)]
  }

  lemma ListedAt(file: seq<UserRec>, hash: UserId -> nat, free: nat, size: nat, cs: seq<seq<int>>, n: nat)
    requires size <= |file| && (forall id :: hash(id) < |cs|) && AllListed(file, hash, free, size, cs) && n < size
    ensures UserTable.Entered(file[n].userid, free + FreeIn(file, n + 1)) ==> n in cs[hash(file[n].userid)]
  {
  }

  /** A list up to `n`. */
  function UpTo(c: seq<int>, n: int): seq<int> {
    if c == [] then [] else if c[0] == n then [n] else [c[0]] + UpTo(c[1..], n)
  }

  /** What linking `n` at the end of `d` makes of another chain: cut off at `n`, or longer if it ends as `d` does. */
  function Relink(c: seq<int>, d: seq<int>, n: int): seq<int> {
    if n in c then UpTo(c, n)
    else if c != [] && d != [] && c[|c| - 1] == d[|d| - 1] then c + [n]
    else c
  }

  function Relinked(cs: seq<seq<int>>, h: nat, n: int): seq<seq<int>>
    requires h < |cs|
  {
    seq(|cs|, g requires 0 <= g < |cs| => if g == h then cs[h] + [n] else Relink(cs[g], cs[h], n))
  }

  /** What one record does to the table and its lists. */
  ghost predicate Stepped(head: seq<int>, next: seq<int>, cs: seq<seq<int>>, h: nat, n: nat, entered: bool,
                          head': seq<int>, next': seq<int>, es: seq<seq<int>>) {
    && |cs| == |head| && h < |cs| && Proper(head', next', es)
    && if entered && n !in cs[h] then Appended(head, next, h, cs[h], n, head', next') && es == Relinked(cs, h, n)
       else head' == head && next' == next && es == cs
  }

  lemma SteppedNowhere(head: seq<int>, next: seq<int>, cs: seq<seq<int>>, h: nat, n: nat, entered: bool,
                       head': seq<int>, next': seq<int>, es: seq<seq<int>>)
    requires Stepped(head, next, cs, h, n, entered, head', next', es) && (entered ==> n in cs[h])
    ensures head' == head && next' == next && es == cs
  {
  }

  lemma {:induction false} UpToShape(c: seq<int>, n: int)
    requires n in c
    ensures n in UpTo(c, n) && forall x :: x in UpTo(c, n) ==> x in c
  {
    if c[0] != n {
      assert n in c[1..];
      UpToShape(c[1..], n);
    }
  }

  /** The slot of a proper chain whose link is -1 is its last. */
  lemma {:induction false} EndsAt(next: seq<int>, x: int, c: seq<int>, y: int)
    requires IsProperChain(next, x, c) && y in c && 0 <= y < |next| && next[y] == -1
    ensures y == c[|c| - 1]
    decreases |c|
  {
    if y != c[0] {
      assert y in c[1..];
      EndsAt(next, next[x], c[1..], y);
    }
  }

  /** A chain cut after `n`. */
  lemma {:induction false} CutOffAt(next: seq<int>, x: int, c: seq<int>, n: nat)
    requires IsProperChain(next, x, c) && n in c && n < |next|
    ensures IsProperChain(next[n := -1], x, UpTo(c, n))
    decreases |c|
  {
    if c[0] == n {
      assert [n][1..] == [];
    } else {
      assert n in c[1..];
      CutOffAt(next, next[x], c[1..], n);
      assert UpTo(c, n)[1..] == UpTo(c[1..], n);
    }
  }

  /** Linking `n` at the end of the chain `d` leaves another chain as `Relink` says. */
  lemma RelinkChain(next: seq<int>, x: int, c: seq<int>, y: int, d: seq<int>, n: nat)
    requires IsProperChain(next, x, c) && IsProperChain(next, y, d) && d != [] && n < |next| && n !in d
    ensures 0 <= d[|d| - 1] < |next| && IsProperChain(next[n := -1][d[|d| - 1] := n], x, Relink(c, d, n))
  {
    ProperEnd(next, y, d);
    var last := d[|d| - 1];
    assert last in d && next[last] == -1;
    if n in c {
      CutOffAt(next, x, c, n);
      UpToShape(c, n);
      if last in UpTo(c, n) {
        LastBefore(next, x, c, n, last);
      }
      ChainFrame(next[n := -1], x, UpTo(c, n), last, n);
    } else if c != [] && c[|c| - 1] == last {
      AppendProper(next, x, c, n);
    } else {
      if last in c {
        EndsAt(next, x, c, last);
      }
      ChainFrame(next, x, c, n, -1);
      ChainFrame(next[n := -1], x, c, last, n);
    }
  }

  /** A slot before `n` on a proper chain is not the last. */
  lemma {:induction false} LastBefore(next: seq<int>, x: int, c: seq<int>, n: int, y: int)
    requires IsProperChain(next, x, c) && n in c && y in UpTo(c, n) && 0 <= y < |next| && next[y] == -1
    ensures y == n
    decreases |c|
  {
    if c[0] != n {
      assert n in c[1..] && c[1..] != [];
      assert y != c[0];
      LastBefore(next, next[x], c[1..], n, y);
    }
  }

  lemma RelinkProper(head: seq<int>, next: seq<int>, cs: seq<seq<int>>, h: nat, n: nat, head': seq<int>, next': seq<int>)
    requires Proper(head, next, cs) && h < |head| && n < |next| && n !in cs[h]
    requires Appended(head, next, h, cs[h], n, head', next')
    ensures Proper(head', next', Relinked(cs, h, n))
  {
    hide IsProperChain, Relink;
    var es := Relinked(cs, h, n);
    forall g | 0 <= g < |es| ensures IsProperChain(next', head'[g], es[g]) {
      if g == h {
        LinkedChain(head, next, cs[h], h, n, head', next');
      } else if cs[h] != [] {
        RelinkChain(next, head[g], cs[g], head[h], cs[h], n);
      } else {
        RelinkAlone(next, head[g], cs[g], n);
      }
    }
  }

  lemma RelinkAlone(next: seq<int>, x: int, c: seq<int>, n: nat)
    requires IsProperChain(next, x, c) && n < |next|
    ensures IsProperChain(next[n := -1], x, Relink(c, [], n))
  {
    if n in c {
      CutOffAt(next, x, c, n);
    } else {
      ChainFrame(next, x, c, n, -1);
    }
  }

  /** The chain that `n` was linked to. */
  lemma LinkedChain(head: seq<int>, next: seq<int>, c: seq<int>, h: nat, n: nat, head': seq<int>, next': seq<int>)
    requires h < |head| && n < |next| && IsProperChain(next, head[h], c) && n !in c
    requires Appended(head, next, h, c, n, head', next')
    ensures IsProperChain(next', head'[h], c + [n])
  {
    if c != [] {
      AppendProper(next, head[h], c, n);
    } else {
      assert c + [n] == [n] && IsProperChain(next', n, [n]);
    }
  }

  /** Some slot whose turn has passed is on a chain of another bucket than its own. */
  ghost predicate Foreign(bucket: seq<nat>, cs: seq<seq<int>>, n: nat) {
    exists g, x :: 0 <= g < |cs| && x in cs[g] && 0 <= x < n && x < |bucket| && bucket[x] != g
  }

  /** A slot that ends up on two chains is foreign to one of them. */
  lemma TwiceIsForeign(bucket: seq<nat>, es: seq<seq<int>>, g: nat, h: nat, n: nat)
    requires g < |es| && h < |es| && g != h && n in es[g] && n in es[h] && n < |bucket|
    ensures Foreign(bucket, es, n + 1)
  {
    assert bucket[n] != g || bucket[n] != h;
  }

  /** Foreign slots are never got rid of: a chain that loses one is cut at another. */
  lemma ForeignStays(bucket: seq<nat>, bucket': seq<nat>, cs: seq<seq<int>>, h: nat, n: nat)
    requires Foreign(bucket, cs, n) && h < |cs| && |bucket'| == |bucket| && n < |bucket|
    requires forall m :: 0 <= m < |bucket| && m != n ==> bucket'[m] == bucket[m]
    ensures Foreign(bucket', Relinked(cs, h, n), n + 1) && Foreign(bucket', cs, n + 1)
  {
    var g, x :| 0 <= g < |cs| && x in cs[g] && 0 <= x < n && x < |bucket| && bucket[x] != g;
    var es := Relinked(cs, h, n);
    assert bucket'[x] != g;
    if x !in es[g] {
      assert g != h && n in cs[g];
      UpToShape(cs[g], n);
      TwiceIsForeign(bucket', es, g, h, n);
    }
  }

  /** Linking a slot that does not fit makes one foreign. */
  lemma ForeignStarts(bucket': seq<nat>, cs: seq<seq<int>>, h: nat, n: nat)
    requires h < |cs| && n < |bucket'| && n !in cs[h]
    requires bucket'[n] != h || exists g :: 0 <= g < |cs| && n in cs[g]
    ensures Foreign(bucket', Relinked(cs, h, n), n + 1)
  {
    var es := Relinked(cs, h, n);
    assert es[h][|cs[h]|] == n && n in es[h];
    if bucket'[n] == h {
      var g :| 0 <= g < |cs| && n in cs[g];
      UpToShape(cs[g], n);
      TwiceIsForeign(bucket', es, g, h, n);
    }
  }

  lemma ForeignIsUnclean(head: seq<int>, next: seq<int>, bucket: seq<nat>, cs: seq<seq<int>>, n: nat)
    requires Proper(head, next, cs) && Foreign(bucket, cs, n)
    ensures !CleanTable(head, next, bucket)
  {
    var g, x :| 0 <= g < |cs| && x in cs[g] && 0 <= x < n && x < |bucket| && bucket[x] != g;
    if CleanTable(head, next, bucket) {
      var es: seq<seq<int>> :| AllClean(head, next, bucket, es);
      assert Clean(head, next, bucket, g, es[g]) && IsProperChain(next, head[g], cs[g]);
      ProperIsChain(next, head[g], cs[g]);
      ProperIsChain(next, head[g], es[g]);
      ChainUnique(next, head[g], cs[g], es[g]);
    }
  }

  /** The second pass when it comes to record `n`: clean and complete so far, or with a foreign slot for good. */
  ghost predicate SecondPass(head: seq<int>, next: seq<int>, bucket: seq<nat>, cs: seq<seq<int>>, ds: seq<seq<int>>,
                             file: seq<UserRec>, hash: UserId -> nat, free: nat, ids: seq<UserId>, onfly: bool, n: nat)
  {
    && Proper(head, next, cs) && |cs| == |ds| && |bucket| == |ids| == |next| && n <= |file| && n <= |ids|
    && (forall id :: hash(id) < |ds|) && (onfly || forall g :: 0 <= g < |ds| ==> ds[g] == [])
    && if !onfly || Fits(file, hash, free, ids, ds, n)
       then AllClean(head, next, bucket, cs) && cs == CompleteAll(ds, file, hash, free, n)
       else Foreign(bucket, cs, n)
  }

  /** How many of the first `n` records have no valid id. */
  function FreeIn(file: seq<UserRec>, n: nat): nat
    requires n <= |file|
  {
    if n == 0 then 0 else FreeIn(file, n - 1) + if IsValidUserId(file[n - 1].userid) then 0 else 1
  }

  /** A bucket's list with the entries missing from it appended, over the first `n` records. */
  function Complete(c: seq<int>, file: seq<UserRec>, hash: UserId -> nat, h: nat, free: nat, n: nat): seq<int>
    requires n <= |file|
  {
    if n == 0 then c
    else
      var d := Complete(c, file, hash, h, free, n - 1);
      var id := file[n - 1].userid;
      if UserTable.Entered(id, free + FreeIn(file, n)) && hash(id) == h && n - 1 !in d then d + [n - 1] else d
  }

  function CompleteAll(ds: seq<seq<int>>, file: seq<UserRec>, hash: UserId -> nat, free: nat, n: nat): seq<seq<int>>
    requires n <= |file|
  {
    seq(|ds|, h requires 0 <= h < |ds| => Complete(ds[h], file, hash, h, free, n))
  }

  lemma CompleteNone(ds: seq<seq<int>>, file: seq<UserRec>, hash: UserId -> nat, free: nat)
    ensures CompleteAll(ds, file, hash, free, 0) == ds
  {
  }

  lemma CompleteStep(ds: seq<seq<int>>, file: seq<UserRec>, hash: UserId -> nat, free: nat, n: nat, es: seq<seq<int>>)
    requires n < |file| && |es| == |ds|
    requires var cs := CompleteAll(ds, file, hash, free, n);
             forall h :: 0 <= h < |cs| ==>
               es[h] == if UserTable.Entered(file[n].userid, free + FreeIn(file, n + 1)) && hash(file[n].userid) == h && n !in cs[h]
                        then cs[h] + [n] else cs[h]
    ensures es == CompleteAll(ds, file, hash, free, n + 1)
  {
  }

  /** Only slots already read were added to the lists. */
  lemma {:induction false} CompleteAdds(c: seq<int>, file: seq<UserRec>, hash: UserId -> nat, h: nat, free: nat, n: nat, x: int)
    requires n <= |file| && x in Complete(c, file, hash, h, free, n)
    ensures x in c || x < n
  {
    if n > 0 && x in Complete(c, file, hash, h, free, n - 1) {
      CompleteAdds(c, file, hash, h, free, n - 1, x);
    }
  }

  /** Nothing is taken off the lists. */
  lemma {:induction false} CompleteKeeps(c: seq<int>, file: seq<UserRec>, hash: UserId -> nat, h: nat, free: nat, n: nat, x: int)
    requires n <= |file| && x in c
    ensures x in Complete(c, file, hash, h, free, n)
  {
    if n > 0 {
      CompleteKeeps(c, file, hash, h, free, n - 1, x);
    }
  }

  /** A slot whose turn has not come is on the completed lists where it was on the lists before. */
  lemma NotYetAdded(ds: seq<seq<int>>, file: seq<UserRec>, hash: UserId -> nat, free: nat, n: nat, g: nat)
    requires n <= |file| && g < |ds|
    ensures n in CompleteAll(ds, file, hash, free, n)[g] <==> n in ds[g]
  {
    hide Complete;
    if n in ds[g] {
      CompleteKeeps(ds[g], file, hash, g, free, n, n);
    } else if n in CompleteAll(ds, file, hash, free, n)[g] {
      CompleteAdds(ds[g], file, hash, g, free, n, n);
    }
  }

  /** Every entered record is on the completed list of its bucket. */
  lemma {:induction false} CompleteHas(c: seq<int>, file: seq<UserRec>, hash: UserId -> nat, h: nat, free: nat, n: nat, m: nat)
    requires m < n <= |file| && UserTable.Entered(file[m].userid, free + FreeIn(file, m + 1)) && hash(file[m].userid) == h
    ensures m in Complete(c, file, hash, h, free, n)
  {
    if m < n - 1 {
      CompleteHas(c, file, hash, h, free, n - 1, m);
    }
  }

  /** A record that is not entered is on the completed lists where it was before. */
  lemma {:induction false} CompleteSkips(c: seq<int>, file: seq<UserRec>, hash: UserId -> nat, h: nat, free: nat, n: nat, m: nat)
    requires m < n <= |file| && !UserTable.Entered(file[m].userid, free + FreeIn(file, m + 1))
    ensures m in Complete(c, file, hash, h, free, n) <==> m in c
  {
    hide UserTable.Entered;
    if m < n - 1 {
      CompleteSkips(c, file, hash, h, free, n - 1, m);
    } else if m in c {
      CompleteKeeps(c, file, hash, h, free, n - 1, m);
    } else if m in Complete(c, file, hash, h, free, n - 1) {
      CompleteAdds(c, file, hash, h, free, n - 1, m);
    }
  }

  lemma CompleteLists(ds: seq<seq<int>>, file: seq<UserRec>, hash: UserId -> nat, free: nat, n: nat)
    requires n <= |file| && forall id :: hash(id) < |ds|
    ensures |CompleteAll(ds, file, hash, free, n)| == |ds| && Listed(file, hash, free, ds, CompleteAll(ds, file, hash, free, n), n)
  {
    hide Named, IsValidUserId, Complete, FreeIn, Nameless;
    var cs := CompleteAll(ds, file, hash, free, n);
    forall m | 0 <= m < n
      ensures if Named(file[m].userid) || free + |Nameless(file, m + 1)| <= 1000 then m in cs[hash(file[m].userid)]
              else forall g :: 0 <= g < |cs| ==> (m in cs[g] <==> m in ds[g])
    {
      var id := file[m].userid;
      NamedIsValid(id);
      FreeIsNameless(file, m + 1);
      if UserTable.Entered(id, free + FreeIn(file, m + 1)) {
        CompleteHas(ds[hash(id)], file, hash, hash(id), free, n, m);
      } else {
        forall g | 0 <= g < |cs| ensures m in cs[g] <==> m in ds[g] {
          CompleteSkips(ds[g], file, hash, g, free, n, m);
        }
      }
    }
  }

  lemma CompleteHasAll(ds: seq<seq<int>>, file: seq<UserRec>, hash: UserId -> nat, free: nat, n: nat)
    requires n <= |file| && forall id :: hash(id) < |ds|
    ensures var cs := CompleteAll(ds, file, hash, free, n);
            |cs| == |ds| && forall m :: 0 <= m < n && IsValidUserId(file[m].userid) ==> m in cs[hash(file[m].userid)]
  {
    forall m | 0 <= m < n && IsValidUserId(file[m].userid)
      ensures m in CompleteAll(ds, file, hash, free, n)[hash(file[m].userid)]
    {
      CompleteHas(ds[hash(file[m].userid)], file, hash, hash(file[m].userid), free, n, m);
    }
  }

  lemma {:induction false} AppendProper(next: seq<int>, x: int, c: seq<int>, n: nat)
    requires IsProperChain(next, x, c) && c != [] && n < |next| && n !in c && 0 <= c[|c| - 1] < |next|
    ensures IsProperChain(next[n := -1][c[|c| - 1] := n], x, c + [n])
    decreases |c|
  {
    var last := c[|c| - 1];
    var next' := next[n := -1][last := n];
    assert (c + [n])[1..] == c[1..] + [n];
    if |c| == 1 {
      assert next'[n] == -1 && IsProperChain(next', n, [n]);
    } else {
      ProperIsChain(next, x, c);
      ChainNoRepeat(next, x, c);
      assert c[1..][|c| - 2] == last;
      AppendProper(next, next[x], c[1..], n);
    }
  }

  /** Appending a slot that is on no chain to the chain of its bucket keeps all of them clean. */
  lemma AppendClean(head: seq<int>, next: seq<int>, bucket: seq<nat>, bucket': seq<nat>, cs: seq<seq<int>>, h: nat,
                    n: nat, head': seq<int>, next': seq<int>)
    requires |cs| == |head| && h < |head| && |bucket'| == |bucket| == |next| && n < |next| && bucket'[n] == h
    requires forall g :: 0 <= g < |cs| ==> Clean(head, next, bucket, g, cs[g]) && n !in cs[g]
    requires forall m :: 0 <= m < |bucket| && m != n ==> bucket'[m] == bucket[m]
    requires Appended(head, next, h, cs[h], n, head', next')
    ensures var es := cs[h := cs[h] + [n]];
            |es| == |head'| && forall g :: 0 <= g < |es| ==> Clean(head', next', bucket', g, es[g])
  {
    var es := cs[h := cs[h] + [n]];
    var c := cs[h];
    forall g | 0 <= g < |es| && g != h ensures Clean(head', next', bucket', g, es[g]) {
      ChainFrame(next, head[g], cs[g], n, -1);
      if c != [] {
        assert c[|c| - 1] in c;
        ChainFrame(next[n := -1], head[g], cs[g], c[|c| - 1], n);
      }
    }
    assert es[h] == c + [n] && InBucket(bucket', h, c + [n]);
    if c != [] {
      AppendProper(next, head[h], c, n);
    } else {
      assert c + [n] == [n] && IsProperChain(next', n, [n]);
    }
  }

  lemma {:induction false} ProperEnd(next: seq<int>, x: int, c: seq<int>)
    requires IsProperChain(next, x, c)
    ensures forall i :: 0 <= i < |c| ==> 0 <= c[i] < |next|
    ensures LinkBefore(next, x, c, |c|) == -1
    decreases |c|
  {
    ProperIsChain(next, x, c);
    ChainInRange(next, x, c);
    if c != [] {
      ProperEnd(next, next[x], c[1..]);
      assert |c| > 1 ==> c[1..][|c| - 2] == c[|c| - 1];
    }
  }

  /** Slot `n` was made the tail of the chain `c` of bucket `h`. */
  predicate Appended(head: seq<int>, next: seq<int>, h: nat, c: seq<int>, n: nat, head': seq<int>, next': seq<int>) {
    && h < |head| && n < |next| && (c != [] ==> 0 <= c[|c| - 1] < |next|)
    && if c == [] then head' == head[h := n] && next' == next[n := -1]
       else head' == head && next' == next[n := -1][c[|c| - 1] := n]
  }

  /** The cell that ends the chain of bucket `h` is made to hold -1. */
  lemma TerminateStep(head: seq<int>, next: seq<int>, bucket: seq<nat>, h: nat, ds: seq<seq<int>>,
                      head': seq<int>, next': seq<int>)
    requires Chains(head, next, ds) && h < |head| && |bucket| == |next| && InBucket(bucket, h, ds[h])
    requires if ds[h] == [] then head' == head[h := -1] && next' == next
             else 0 <= ds[h][|ds[h]| - 1] < |next| && head' == head && next' == next[ds[h][|ds[h]| - 1] := -1]
    ensures Chains(head', next', ds) && Clean(head', next', bucket, h, ds[h])
    ensures forall g :: 0 <= g < |head| && g != h && Clean(head, next, bucket, g, ds[g]) ==>
              Clean(head', next', bucket, g, ds[g])
  {
    var c := ds[h];
    if c != [] {
      var y := c[|c| - 1];
      LinkBeforeIs(next, head[h], c, |c|);
      forall g | 0 <= g < |ds|
        ensures IsChain(next', head'[g], ds[g])
        ensures g != h && Clean(head, next, bucket, g, ds[g]) ==> Clean(head', next', bucket, g, ds[g])
      {
        TerminateAt(next, head[g], ds[g], y);
        if g != h && Clean(head, next, bucket, g, ds[g]) {
          ChainFrame(next, head[g], ds[g], y, -1);
        }
      }
      ChainInRange(next', head'[h], c);
      ProperIfEndsProperly(next', head'[h], c);
    }
  }

  /**
   * Why the ids must agree: a slot whose id moved it to bucket `h` while it is still on the chain of
   * bucket `g` is linked a second time. It stays on the old chain, which loses every slot after it.
   */
  lemma {:induction false} ChangedIdCutsChain(head: seq<int>, next: seq<int>, g: nat, h: nat, cg: seq<int>, ch: seq<int>,
                                              n: nat, k: nat, head': seq<int>, next': seq<int>)
    requires g < |head| && h < |head| && g != h && n < |next| && k < |cg| && cg[k] == n
    requires IsProperChain(next, head[g], cg) && IsProperChain(next, head[h], ch) && forall x :: x in ch ==> x !in cg
    requires Appended(head, next, h, ch, n, head', next')
    ensures n in cg[..k + 1] && IsProperChain(next', head'[g], cg[..k + 1])
  {
    ProperIsChain(next, head[g], cg);
    ChainNoRepeat(next, head[g], cg);
    CutAt(next, head[g], cg, k);
    if ch != [] {
      assert ch[|ch| - 1] in ch;
      ChainFrame(next[n := -1], head[g], cg[..k + 1], ch[|ch| - 1], n);
    }
    assert cg[..k + 1][k] == n;
  }

  lemma {:induction false} CutAt(next: seq<int>, x: int, c: seq<int>, k: nat)
    requires IsProperChain(next, x, c) && k < |c| && NoRepeat(c) && 0 <= c[k] < |next|
    ensures IsProperChain(next[c[k] := -1], x, c[..k + 1])
    decreases |c|
  {
    if k == 0 {
      assert c[..1] == [x];
    } else {
      assert c[..k + 1][1..] == c[1..][..k] && c[1..][k - 1] == c[k] && NoRepeat(c[1..]);
      CutAt(next, next[x], c[1..], k - 1);
    }
  }

  /**
   * When the loader may link a slot that it did not find on the chain of its record's id: the table stays clean if and
   * only if the slot is on no chain at all, and the id it then has belongs to that bucket. (The id is not replaced
   * when it agrees in all but the last of twelve characters.)
   */
  lemma LinkKeepsCleanIff(head: seq<int>, next: seq<int>, bucket: seq<nat>, bucket': seq<nat>, cs: seq<seq<int>>, h: nat,
                          n: nat, head': seq<int>, next': seq<int>)
    requires |cs| == |head| && h < |head| && |bucket'| == |bucket| == |next| && n < |next| && n !in cs[h]
    requires forall g :: 0 <= g < |cs| ==> Clean(head, next, bucket, g, cs[g])
    requires forall m :: 0 <= m < |bucket| && m != n ==> bucket'[m] == bucket[m]
    requires Appended(head, next, h, cs[h], n, head', next')
    ensures CleanTable(head', next', bucket') <==> bucket'[n] == h && forall g :: 0 <= g < |cs| ==> n !in cs[g]
  {
    if bucket'[n] == h && forall g :: 0 <= g < |cs| ==> n !in cs[g] {
      AppendClean(head, next, bucket, bucket', cs, h, n, head', next');
      assert AllClean(head', next', bucket', cs[h := cs[h] + [n]]);
    } else if CleanTable(head', next', bucket') {
      var es: seq<seq<int>> :| AllClean(head', next', bucket', es);
      LinkedIsOn(head, next, bucket, bucket', cs, h, n, head', next', es);
      forall g | 0 <= g < |cs| && g != h ensures n !in cs[g] {
        if n in cs[g] {
          OldChainKeepsIt(head, next, bucket, bucket', cs, g, h, n, head', next', es);
        }
      }
    }
  }

  lemma LinkedIsOn(head: seq<int>, next: seq<int>, bucket: seq<nat>, bucket': seq<nat>, cs: seq<seq<int>>, h: nat,
                   n: nat, head': seq<int>, next': seq<int>, es: seq<seq<int>>)
    requires |cs| == |head| == |es| && h < |head| && |bucket'| == |next| && n < |next| && n !in cs[h]
    requires Clean(head, next, bucket, h, cs[h]) && Appended(head, next, h, cs[h], n, head', next')
    requires Clean(head', next', bucket', h, es[h])
    ensures bucket'[n] == h
  {
    var c := cs[h];
    if c != [] {
      AppendProper(next, head[h], c, n);
    } else {
      assert c + [n] == [n] && IsProperChain(next', n, [n]);
    }
    ProperIsChain(next', head'[h], c + [n]);
    ProperIsChain(next', head'[h], es[h]);
    ChainUnique(next', head'[h], c + [n], es[h]);
    assert (c + [n])[|c|] == n && n in es[h];
  }

  lemma OldChainKeepsIt(head: seq<int>, next: seq<int>, bucket: seq<nat>, bucket': seq<nat>, cs: seq<seq<int>>, g: nat,
                        h: nat, n: nat, head': seq<int>, next': seq<int>, es: seq<seq<int>>)
    requires |cs| == |head| == |es| && g < |head| && h < |head| && g != h && |bucket'| == |bucket| == |next| && n < |next|
    requires Clean(head, next, bucket, g, cs[g]) && Clean(head, next, bucket, h, cs[h]) && n in cs[g]
    requires Appended(head, next, h, cs[h], n, head', next') && Clean(head', next', bucket', g, es[g])
    ensures bucket'[n] == g
  {
    var k :| 0 <= k < |cs[g]| && cs[g][k] == n;
    ChangedIdCutsChain(head, next, g, h, cs[g], cs[h], n, k, head', next');
    ProperIsChain(next', head'[g], cs[g][..k + 1]);
    ProperIsChain(next', head'[g], es[g]);
    ChainUnique(next', head'[g], cs[g][..k + 1], es[g]);
  }

  // ----- the second pass -----

  lemma SecondPassStarts(head: seq<int>, next: seq<int>, bucket: seq<nat>, ds: seq<seq<int>>,
                         file: seq<UserRec>, hash: UserId -> nat, free: nat, ids: seq<UserId>, onfly: bool)
    requires AllClean(head, next, bucket, ds) && |bucket| == |ids| == |next|
    requires (forall id :: hash(id) < |ds|) && (onfly || forall g :: 0 <= g < |ds| ==> ds[g] == [])
    ensures SecondPass(head, next, bucket, ds, ds, file, hash, free, ids, onfly, 0)
  {
    CompleteNone(ds, file, hash, free);
  }

  lemma SecondPassProper(head: seq<int>, next: seq<int>, bucket: seq<nat>, cs: seq<seq<int>>, ds: seq<seq<int>>,
                         file: seq<UserRec>, hash: UserId -> nat, free: nat, ids: seq<UserId>, onfly: bool, n: nat)
    requires SecondPass(head, next, bucket, cs, ds, file, hash, free, ids, onfly, n) && n < |file|
    ensures Proper(head, next, cs) && |cs| == |ds| && (onfly || n !in cs[hash(file[n].userid)])
  {
    NotYetAdded(ds, file, hash, free, n, hash(file[n].userid));
  }

  lemma FitsOn(file: seq<UserRec>, hash: UserId -> nat, free: nat, ids: seq<UserId>, ds: seq<seq<int>>, n: nat)
    requires n < |file| && n < |ids| && forall id :: hash(id) < |ds|
    ensures Fits(file, hash, free, ids, ds, n + 1) <==>
            && Fits(file, hash, free, ids, ds, n)
            && (UserTable.Entered(file[n].userid, free + FreeIn(file, n + 1)) ==> FitsAt(hash, file[n].userid, n, ids[n], ds))
  {
    hide FitsAt;
  }

  /** The bucket of slot `n` after its turn. */
  ghost predicate Renamed(bucket: seq<nat>, bucket': seq<nat>, n: nat, entered: bool, kept: bool, h: nat) {
    && |bucket'| == |bucket| && n < |bucket| && (forall m :: 0 <= m < |bucket| && m != n ==> bucket'[m] == bucket[m])
    && bucket'[n] == if entered && !kept then h else bucket[n]
  }

  /** A record that fits, entered in a clean table. */
  lemma GoodStep(head: seq<int>, next: seq<int>, bucket: seq<nat>, cs: seq<seq<int>>, h: nat, n: nat, entered: bool, kept: bool,
                 head': seq<int>, next': seq<int>, bucket': seq<nat>, es: seq<seq<int>>)
    requires AllClean(head, next, bucket, cs) && |bucket| == |next| && n < |next|
    requires Stepped(head, next, cs, h, n, entered, head', next', es) && Renamed(bucket, bucket', n, entered, kept, h)
    requires entered && bucket[n] != h ==> !kept && forall g :: 0 <= g < |cs| ==> n !in cs[g]
    ensures AllClean(head', next', bucket', es) && |es| == |cs|
    ensures forall g :: 0 <= g < |cs| ==> es[g] == if entered && g == h && n !in cs[h] then cs[h] + [n] else cs[g]
  {
    if entered && n !in cs[h] {
      forall g | 0 <= g < |cs| ensures Clean(head, next, bucket, g, cs[g]) && n !in cs[g] && (g != h ==> es[g] == cs[g]) {
        assert Clean(head, next, bucket, g, cs[g]);
        if g != h && cs[g] != [] && cs[h] != [] {
          assert Clean(head, next, bucket, h, cs[h]) && cs[g][|cs[g]| - 1] in cs[g] && cs[h][|cs[h]| - 1] in cs[h];
        }
      }
      AppendClean(head, next, bucket, bucket', cs, h, n, head', next');
      assert es == cs[h := cs[h] + [n]];
    } else {
      forall g | 0 <= g < |cs| ensures Clean(head', next', bucket', g, cs[g]) {
        assert Clean(head, next, bucket, g, cs[g]);
      }
    }
  }

  /** One that does not. */
  lemma BadStep(head: seq<int>, next: seq<int>, bucket: seq<nat>, cs: seq<seq<int>>, h: nat, n: nat, kept: bool,
                head': seq<int>, next': seq<int>, bucket': seq<nat>, es: seq<seq<int>>)
    requires AllClean(head, next, bucket, cs) && |bucket| == |next| && n < |next|
    requires Stepped(head, next, cs, h, n, true, head', next', es) && Renamed(bucket, bucket', n, true, kept, h)
    requires bucket[n] != h && (kept || (bucket[n] < |cs| && n in cs[bucket[n]]))
    ensures Foreign(bucket', es, n + 1)
  {
    hide Foreign;
    assert Clean(head, next, bucket, h, cs[h]);
    ForeignStarts(bucket', cs, h, n);
  }

  lemma SteppedShape(head: seq<int>, next: seq<int>, bucket: seq<nat>, cs: seq<seq<int>>, h: nat, n: nat, entered: bool,
                     kept: bool, head': seq<int>, next': seq<int>, bucket': seq<nat>, es: seq<seq<int>>)
    requires Stepped(head, next, cs, h, n, entered, head', next', es) && Renamed(bucket, bucket', n, entered, kept, h)
    ensures Proper(head', next', es) && |es| == |cs| && |next'| == |next| && |bucket'| == |bucket|
  {
    hide Proper;
  }

  /** Whatever a record does, a foreign slot remains. */
  lemma ForeignOn(head: seq<int>, next: seq<int>, bucket: seq<nat>, cs: seq<seq<int>>, h: nat, n: nat, entered: bool,
                  kept: bool, head': seq<int>, next': seq<int>, bucket': seq<nat>, es: seq<seq<int>>)
    requires Foreign(bucket, cs, n)
    requires Stepped(head, next, cs, h, n, entered, head', next', es) && Renamed(bucket, bucket', n, entered, kept, h)
    ensures Foreign(bucket', es, n + 1)
  {
    hide Foreign, Relinked, Proper, Appended;
    ForeignStays(bucket, bucket', cs, h, n);
  }

  lemma SecondPassOn(head: seq<int>, next: seq<int>, bucket: seq<nat>, cs: seq<seq<int>>, head': seq<int>, next': seq<int>,
                     bucket': seq<nat>, es: seq<seq<int>>, ds: seq<seq<int>>, file: seq<UserRec>, hash: UserId -> nat,
                     free: nat, ids: seq<UserId>, onfly: bool, n: nat)
    requires SecondPass(head, next, bucket, cs, ds, file, hash, free, ids, onfly, n) && n < |file| && n < |ids|
    requires var entered := UserTable.Entered(file[n].userid, free + FreeIn(file, n + 1));
             && Stepped(head, next, cs, hash(file[n].userid), n, entered, head', next', es)
             && Renamed(bucket, bucket', n, entered, onfly && SamePrefix(ids[n], file[n].userid), hash(file[n].userid))
    requires bucket[n] == hash(ids[n])
    ensures SecondPass(head', next', bucket', es, ds, file, hash, free, ids, onfly, n + 1)
  {
    hide Foreign, Stepped, Renamed, Proper, AllClean, CompleteAll, Fits, FitsAt, SamePrefix, UserTable.Entered;
    var id := file[n].userid;
    var entered, kept, h := UserTable.Entered(id, free + FreeIn(file, n + 1)), onfly && SamePrefix(ids[n], id), hash(id);
    FitsOn(file, hash, free, ids, ds, n);
    SteppedShape(head, next, bucket, cs, h, n, entered, kept, head', next', bucket', es);
    if onfly && !Fits(file, hash, free, ids, ds, n) {
      ForeignOn(head, next, bucket, cs, h, n, entered, kept, head', next', bucket', es);
    } else {
      CompleteLength(ds, file, hash, free, n);
      SlotFits(head, next, bucket, ds, file, hash, free, ids[n], onfly, n);
      if entered && onfly && !FitsAt(hash, id, n, ids[n], ds) {
        BadStep(head, next, bucket, cs, h, n, kept, head', next', bucket', es);
      } else {
        GoodStep(head, next, bucket, cs, h, n, entered, kept, head', next', bucket', es);
        CompleteStep(ds, file, hash, free, n, es);
      }
    }
  }

  lemma CompleteLength(ds: seq<seq<int>>, file: seq<UserRec>, hash: UserId -> nat, free: nat, n: nat)
    requires n <= |file|
    ensures |CompleteAll(ds, file, hash, free, n)| == |ds|
  {
  }

  /** What a record finds in the lists at its turn, by whether it fits the lists at the start. */
  lemma SlotFits(head: seq<int>, next: seq<int>, bucket: seq<nat>, ds: seq<seq<int>>, file: seq<UserRec>,
                 hash: UserId -> nat, free: nat, was: UserId, onfly: bool, n: nat)
    requires n < |file| && n < |bucket| && (forall id :: hash(id) < |ds|) && bucket[n] == hash(was)
    requires onfly || forall g :: 0 <= g < |ds| ==> ds[g] == []
    requires AllClean(head, next, bucket, CompleteAll(ds, file, hash, free, n))
    ensures var cs, id := CompleteAll(ds, file, hash, free, n), file[n].userid;
            && |cs| == |ds|
            && (!onfly || (FitsAt(hash, id, n, was, ds) && bucket[n] != hash(id)) ==>
                  !(onfly && SamePrefix(was, id)) && forall g :: 0 <= g < |cs| ==> n !in cs[g])
            && (onfly && !FitsAt(hash, id, n, was, ds) ==>
                  bucket[n] != hash(id) && (SamePrefix(was, id) || n in cs[bucket[n]]))
  {
    hide SamePrefix, Complete, IsProperChain;
    var cs := CompleteAll(ds, file, hash, free, n);
    forall g | 0 <= g < |cs| ensures (n in cs[g] <==> n in ds[g]) && (n in cs[g] ==> bucket[n] == g) {
      NotYetAdded(ds, file, hash, free, n, g);
      assert Clean(head, next, bucket, g, cs[g]);
    }
  }

  lemma SecondPassDone(head: seq<int>, next: seq<int>, bucket: seq<nat>, cs: seq<seq<int>>, ds: seq<seq<int>>,
                       file: seq<UserRec>, hash: UserId -> nat, free: nat, ids: seq<UserId>, onfly: bool, n: nat)
    requires SecondPass(head, next, bucket, cs, ds, file, hash, free, ids, onfly, n)
    ensures Proper(head, next, cs) && forall h :: 0 <= h < |cs| ==> NoRepeat(cs[h])
    ensures CleanTable(head, next, bucket) <==> !onfly || Fits(file, hash, free, ids, ds, n)
    ensures !onfly || Fits(file, hash, free, ids, ds, n) ==>
              && AllClean(head, next, bucket, cs) && cs == CompleteAll(ds, file, hash, free, n)
              && (forall m :: 0 <= m < n && IsValidUserId(file[m].userid) ==> m in cs[hash(file[m].userid)])
              && Listed(file, hash, free, ds, cs, n)
  {
    hide Foreign, IsValidUserId, CompleteAll, IsProperChain, Fits, AllClean, Listed;
    forall h | 0 <= h < |cs| ensures NoRepeat(cs[h]) {
      ProperIsChain(next, head[h], cs[h]);
      ChainNoRepeat(next, head[h], cs[h]);
    }
    if !onfly || Fits(file, hash, free, ids, ds, n) {
      CompleteHasAll(ds, file, hash, free, n);
      CompleteLists(ds, file, hash, free, n);
    } else {
      ForeignIsUnclean(head, next, bucket, cs, n);
    }
  }
}
