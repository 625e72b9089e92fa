/**
 * The ban table of common/bbs/banip.c: ranges of IPv4 addresses with a message each, sorted and merged in
 * place, and a binary search that falls back to walking backwards.
 */
module BanIp {
  import opened Arith
  import opened Prelude

  const LIMIT := 0x1_0000_0000

  /** An address in host byte order, a 32-bit number. */
  type IPv4 = x: int | 0 <= x < LIMIT

  /** Addition wraps around at 32 bits. */
  function Next(ip: IPv4): IPv4 {
    if ip + 1 == LIMIT then 0 else ip + 1
  }

  datatype BanRecord = BanRecord(start: IPv4, end: IPv4, msg: nat)

  predicate In(r: BanRecord, ip: IPv4) {
    r.start <= ip <= r.end
  }

  /** Some range holds the address with this message. */
  ghost predicate Bans(s: seq<BanRecord>, ip: IPv4, msg: nat) {
    exists i :: 0 <= i < |s| && In(s[i], ip) && s[i].msg == msg
  }

  predicate StartsSorted(s: seq<BanRecord>) {
    forall i, j :: 0 <= i < j < |s| ==> s[i].start <= s[j].start
  }

  /** `b` overlaps `a` or follows it at once, with the same message; past the last address the sum wraps to zero. */
  predicate Joins(a: BanRecord, b: BanRecord) {
    b.start <= Next(a.end) && b.start >= a.start && b.msg == a.msg
  }

  /** Which records are joined: at the last address nothing but a record from zero follows. */
  lemma JoinsWhen(a: BanRecord, b: BanRecord)
    ensures Joins(a, b) <==>
            && a.msg == b.msg && a.start <= b.start
            && (if a.end == 0xFFFF_FFFF then b.start == 0 else b.start <= a.end + 1)
  {
  }

  function Joined(a: BanRecord, b: BanRecord): BanRecord {
    if b.end > a.end then a.(end := b.end) else a
  }

  /** No range joins the one in front of it. */
  predicate Separated(s: seq<BanRecord>) {
    forall j :: 0 < j < |s| ==> !Joins(s[j - 1], s[j])
  }

  /** A joined range holds what its parts do. */
  lemma JoinedHolds(a: BanRecord, b: BanRecord, ip: IPv4)
    requires Joins(a, b)
    ensures In(Joined(a, b), ip) <==> In(a, ip) || In(b, ip)
  {
  }

  lemma BansSnoc(s: seq<BanRecord>, r: BanRecord, ip: IPv4, msg: nat)
    ensures Bans(s + [r], ip, msg) <==> Bans(s, ip, msg) || (In(r, ip) && r.msg == msg)
  {
    assert (s + [r])[|s|] == r;
    if Bans(s, ip, msg) {
      var i :| 0 <= i < |s| && In(s[i], ip) && s[i].msg == msg;
      assert (s + [r])[i] == s[i];
    }
  }

  ghost predicate SameBans(s: seq<BanRecord>, t: seq<BanRecord>) {
    forall ip, msg :: Bans(s, ip, msg) <==> Bans(t, ip, msg)
  }

  /** `merged` is what the records `seen` become: sorted by start, nothing left to join, the same bans. */
  ghost predicate IsMerge(merged: seq<BanRecord>, seen: seq<BanRecord>) {
    && merged != [] && seen != [] && StartsSorted(merged) && Separated(merged) && SameBans(merged, seen)
    && merged[|merged| - 1].start <= seen[|seen| - 1].start
  }

  /** The last range of a merge takes the next record in, or the record comes after it. */
  function Extended(merged: seq<BanRecord>, next: BanRecord): seq<BanRecord>
    requires merged != []
  {
    var front, last := merged[..|merged| - 1], merged[|merged| - 1];
    if Joins(last, next) then front + [Joined(last, next)] else merged + [next]
  }

  lemma ExtendedIsMerge(merged: seq<BanRecord>, seen: seq<BanRecord>, next: BanRecord)
    requires IsMerge(merged, seen) && seen[|seen| - 1].start <= next.start
    ensures IsMerge(Extended(merged, next), seen + [next])
  {
    hide In;
    var front, last := merged[..|merged| - 1], merged[|merged| - 1];
    assert merged == front + [last];
    forall ip, msg ensures Bans(Extended(merged, next), ip, msg) <==> Bans(seen + [next], ip, msg) {
      hide StartsSorted, Separated, Bans;
      assert Bans(merged, ip, msg) <==> Bans(seen, ip, msg);
      BansSnoc(seen, next, ip, msg);
      if Joins(last, next) {
        BansSnoc(front, Joined(last, next), ip, msg);
        BansSnoc(front, last, ip, msg);
        JoinedHolds(last, next, ip);
      } else {
        BansSnoc(merged, next, ip, msg);
      }
    }
  }

  /**
   * Two ranges in order that are left apart: of different messages, or with an address between them, or the first
   * reaching the last address and the second not at zero.
   */
  predicate Apart(a: BanRecord, b: BanRecord) {
    a.msg != b.msg || b.start > a.end + 1 || (a.end == 0xFFFF_FFFF && b.start > 0)
  }

  lemma MergeIsApart(merged: seq<BanRecord>, seen: seq<BanRecord>)
    requires IsMerge(merged, seen)
    ensures forall j :: 0 < j < |merged| ==> merged[j - 1].start <= merged[j].start && Apart(merged[j - 1], merged[j])
  {
    forall j | 0 < j < |merged|
      ensures merged[j - 1].start <= merged[j].start && Apart(merged[j - 1], merged[j])
    {
      StartsInOrder(merged, j);
    }
  }

  lemma StartsInOrder(s: seq<BanRecord>, i: nat)
    requires StartsSorted(s) && 0 < i < |s|
    ensures s[i - 1].start <= s[i].start
  {
  }

  lemma OneIsMerge(r: BanRecord)
    ensures IsMerge([r], [r])
  {
  }

  /** Joins the record at `i` to the last of the merged ones, or puts it after them. */
  method TakeNext(ar: array<BanRecord>, last: nat, i: nat) returns (next: nat)
    requires last < i < ar.Length
    modifies ar
    ensures last <= next <= i && ar[..next + 1] == Extended(old(ar[..last + 1]), old(ar[i]))
    ensures forall k :: i < k < ar.Length ==> ar[k] == old(ar[k])
  {
    hide Joins, Joined;
    var curr := ar[i];
    ghost var merged := ar[..last + 1];
    assert merged[last] == ar[last];
    if Joins(ar[last], curr) {
      ar[last] := Joined(ar[last], curr);
      next := last;
    } else {
      next := last + 1;
      ar[next] := curr;
    }
  }

  /** Merges a sorted list in place, and returns how many ranges are left. */
  method Merge(ar: array<BanRecord>, sz: nat) returns (n: nat)
    requires 0 < sz <= ar.Length && StartsSorted(ar[..sz])
    modifies ar
    ensures n <= sz && IsMerge(ar[..n], old(ar[..sz]))
    ensures forall j :: 0 < j < n ==> ar[j - 1].start <= ar[j].start && Apart(ar[j - 1], ar[j])
  {
    hide IsMerge, Extended, StartsSorted, Apart;
    ghost var s := ar[..sz];
    var last := 0;
    OneIsMerge(s[0]);
    assert ar[..1] == [s[0]] == s[..1];
    for i := 1 to sz
      invariant last < i
      invariant forall k :: i <= k < sz ==> ar[k] == s[k]
      invariant IsMerge(ar[..last + 1], s[..i])
    {
      StartsInOrder(s, i);
      ExtendedIsMerge(ar[..last + 1], s[..i], s[i]);
      assert s[..i + 1] == s[..i] + [s[i]];
      last := TakeNext(ar, last, i);
    }
    assert s[..sz] == s;
    n := last + 1;
    ghost var merged := ar[..n];
    assert forall j :: 0 <= j < n ==> merged[j] == ar[j];
    MergeIsApart(merged, s);
  }

  /** The index of a range that holds the address, or -1 if there is none. */
  method Search(ar: array<BanRecord>, sz: nat, ip: IPv4) returns (r: int)
    requires sz <= ar.Length && StartsSorted(ar[..sz])
    ensures -1 <= r < sz
    ensures r >= 0 ==> In(ar[r], ip)
    ensures r < 0 ==> forall i :: 0 <= i < sz ==> !In(ar[i], ip)
  {
    if sz == 0 {
      return -1;
    }
    ghost var s := ar[..sz];
    var low, high, best := 0, sz - 1, -1;
    while low <= high
      invariant 0 <= low <= high + 1 <= sz
      invariant best == low - 1
      invariant forall i :: 0 <= i < sz && i > high ==> s[i].start > ip
      decreases high - low
    {
      var mid := low + (high - low) / 2;
      assert ar[mid] == s[mid];
      if ar[mid].start <= ip {
        best := mid;
        if ip <= ar[mid].end {
          return mid;
        }
        low := mid + 1;
      } else {
        assert forall i :: mid <= i < sz ==> s[i].start > ip;
        if mid == 0 {
          high := -1;
          break;
        }
        high := mid - 1;
      }
    }
    assert forall i :: best < i < sz ==> s[i].start > ip;
    var i := best;
    while i >= 0
      invariant -1 <= i <= best
      invariant forall k :: i < k < sz ==> !In(s[k], ip)
    {
      assert ar[i] == s[i];
      if ip >= ar[i].start && ip <= ar[i].end {
        return i;
      }
      i := i - 1;
    }
    return -1;
  }

  /** What a permutation of the list bans. */
  lemma PermutationBans(s: seq<BanRecord>, t: seq<BanRecord>, ip: IPv4, msg: nat)
    requires multiset(s) == multiset(t) && Bans(s, ip, msg)
    ensures Bans(t, ip, msg)
  {
    var i :| 0 <= i < |s| && In(s[i], ip) && s[i].msg == msg;
    assert s[i] in multiset(t);
    var k :| 0 <= k < |t| && t[k] == s[i];
  }

  class IPv4List {
    var ar: array<BanRecord>
    var sz: nat

    ghost predicate Valid()
      reads this
    {
      sz <= ar.Length
    }

    ghost function Contents(): seq<BanRecord>
      requires Valid()
      reads this, ar
    {
      ar[..sz]
    }

    constructor ()
      ensures Valid() && fresh(ar) && Contents() == []
    {
      ar := new BanRecord[0];
      sz := 0;
    }

    /** Adds a range at the end; a full table grows by `ALLOC` records. */
    method AddRange(start: IPv4, end: IPv4, msg: nat)
      requires Valid()
      modifies this, ar
      ensures Valid() && (ar == old(ar) || fresh(ar))
      ensures Contents() == old(Contents()) + [BanRecord(start, end, msg)]
    {
      if sz >= ar.Length {
        var more := new BanRecord[ar.Length + ALLOC](i requires 0 <= i reads this, ar =>
          if i < ar.Length then ar[i] else BanRecord(0, 0, 0));
        assert more[..sz] == ar[..sz];
        ar := more;
      }
      ar[sz] := BanRecord(start, end, msg);
      sz := sz + 1;
    }

    /**
     * Sorts and merges. `sorted` is the order the library's sort leaves the records in, which is any that
     * its comparison allows.
     */
    method Sort(sorted: seq<BanRecord>)
      requires Valid() && multiset(sorted) == multiset(Contents())
      requires forall i, j :: 0 <= i < j < |sorted| ==>
                 sorted[i].start < sorted[j].start || (sorted[i].start == sorted[j].start && sorted[i].end <= sorted[j].end)
      modifies this`sz, ar
      ensures Valid() && StartsSorted(Contents()) && Separated(Contents())
      ensures forall j :: 0 < j < sz ==> ar[j - 1].start <= ar[j].start && Apart(ar[j - 1], ar[j])
      ensures SameBans(Contents(), old(Contents()))
    {
      hide Bans, Joins, Apart;
      ghost var loaded := Contents();
      SameSize(sorted, loaded);
      if sz == 0 {
        return;
      }
      Copy(sorted);
      forall ip, msg ensures Bans(sorted, ip, msg) <==> Bans(loaded, ip, msg) {
        if Bans(sorted, ip, msg) { PermutationBans(sorted, loaded, ip, msg); }
        if Bans(loaded, ip, msg) { PermutationBans(loaded, sorted, ip, msg); }
      }
      SortedStarts(sorted);
      sz := Merge(ar, sz);
    }

    method Copy(sorted: seq<BanRecord>)
      requires Valid() && |sorted| == sz
      modifies ar
      ensures Contents() == sorted
    {
      for i := 0 to sz
        invariant ar[..i] == sorted[..i]
      {
        ar[i] := sorted[i];
      }
    }

    /** The message of a range that holds the address; there is one exactly when some range does. */
    method Lookup(ip: IPv4) returns (r: Option<nat>)
      requires Valid() && StartsSorted(Contents())
      ensures r.Some? <==> exists i :: 0 <= i < sz && Contents()[i].start <= ip <= Contents()[i].end
      ensures r.Some? ==>
                exists i :: 0 <= i < sz && Contents()[i].start <= ip <= Contents()[i].end && Contents()[i].msg == r.value
    {
      hide StartsSorted;
      var i := Search(ar, sz, ip);
      if i < 0 {
        assert forall k :: 0 <= k < sz ==> Contents()[k] == ar[k];
        return None;
      }
      assert Contents()[i] == ar[i];
      return Some(ar[i].msg);
    }
  }

  const ALLOC := 512

  lemma SameSize(s: seq<BanRecord>, t: seq<BanRecord>)
    requires multiset(s) == multiset(t)
    ensures |s| == |t|
  {
    assert |multiset(s)| == |s| && |multiset(t)| == |t|;
  }

  lemma SortedStarts(s: seq<BanRecord>)
    requires forall i, j :: 0 <= i < j < |s| ==>
               s[i].start < s[j].start || (s[i].start == s[j].start && s[i].end <= s[j].end)
    ensures StartsSorted(s)
  {
  }

  // ----- what a line of the table means -----

  type Octet = x: int | 0 <= x < 256

  /** The forms of an entry, their addresses read. A wildcard octet is `None`. */
  datatype Entry =
    | Cidr(ip: IPv4, prefix: int)
    | Range(first: IPv4, last: IPv4)
    | LastOctet(first: IPv4, val: int)
    | Wildcard(octets: seq<Option<Octet>>)
    | Single(ip: IPv4)

  /** Bitwise operations on numbers. */
  function And(x: nat, y: nat): nat {
    if x == 0 || y == 0 then 0 else 2 * And(x / 2, y / 2) + (if x % 2 == 1 && y % 2 == 1 then 1 else 0)
  }

  function Or(x: nat, y: nat): nat
    decreases x + y
  {
    if x == 0 && y == 0 then 0 else 2 * Or(x / 2, y / 2) + (if x % 2 == 1 || y % 2 == 1 then 1 else 0)
  }

  function Not(x: IPv4): IPv4 {
    LIMIT - 1 - x
  }

  function ShiftLeft(x: IPv4, k: nat): IPv4 {
    x * Pow2(k) % LIMIT
  }

  function Mask(prefix: nat): IPv4
    requires prefix <= 32
  {
    if prefix == 0 then 0 else if prefix == 32 then 0xFFFF_FFFF else ShiftLeft(0xFFFF_FFFF, 32 - prefix)
  }

  function Ordered(a: nat, b: nat): (nat, nat) {
    if a > b then (b, a) else (a, b)
  }

  function Address(o: seq<Octet>): IPv4
    requires |o| == 4
  {
    o[0] as int * 0x100_0000 + o[1] as int * 0x1_0000 + o[2] as int * 0x100 + o[3] as int
  }

  /** A wildcard pattern with every wildcard read as `v`. */
  function Filled(p: seq<Option<Octet>>, v: Octet): seq<Octet> {
    seq(|p|, i requires 0 <= i < |p| => if p[i].Some? then p[i].value else v)
  }

  /** The ends of an entry's range, or nothing if the entry is refused. */
  function Ends(e: Entry): Option<(nat, nat)> {
    match e
    case Cidr(ip, prefix) =>
      if prefix < 0 || prefix > 32 then None
      else
        var start := And(ip, Mask(prefix));
        Some((start, Or(start, Not(Mask(prefix)))))
    case Range(first, last) => Some(Ordered(first, last))
    case LastOctet(first, val) =>
      if val < 0 || val > 255 then None else Some(Ordered(first, Or(And(first, 0xFFFF_FF00), val)))
    case Wildcard(octets) =>
      if |octets| != 4 then None
      else Some(Ordered(Address(Filled(octets, 0)), Address(Filled(octets, 255))))
    case Single(ip) => Some((ip, ip))
  }

  predicate Covers(r: (nat, nat), x: nat) {
    r.0 <= x <= r.1
  }

  lemma {:induction false} Pow2Grows(k: nat, n: nat)
    requires k <= n
    ensures Pow2(k) <= Pow2(n)
  {
    if k < n { Pow2Grows(k, n - 1); }
  }

  lemma {:induction false} AndOnes(x: nat, w: nat)
    requires x < Pow2(w)
    ensures And(x, Pow2(w) - 1) == x
  {
    if w > 0 {
      AndOnes(x / 2, w - 1);
      AndOnesStep(x, Pow2(w - 1));
    }
  }

  lemma AndOnesStep(x: nat, p: nat)
    requires p > 0 && And(x / 2, p - 1) == x / 2
    ensures And(x, 2 * p - 1) == x
  {
    assert (2 * p - 1) / 2 == p - 1 && (2 * p - 1) % 2 == 1;
  }

  lemma AndStep(x: nat, y: nat)
    requires y % 2 == 0
    ensures And(x, y) == 2 * And(x / 2, y / 2)
  {
  }

  /** Masking with ones above the lowest `k` bits clears those. */
  lemma {:induction false} AndHigh(x: nat, w: nat, k: nat)
    requires x < Pow2(w) && k <= w
    ensures Pow2(k) <= Pow2(w) && And(x, Pow2(w) - Pow2(k)) == x / Pow2(k) * Pow2(k)
    decreases w
  {
    hide And;
    Pow2Grows(k, w);
    if k == 0 {
      AndOnes(x, w);
    } else {
      AndHigh(x / 2, w - 1, k - 1);
      AndHighStep(x, Pow2(w - 1), Pow2(k - 1));
    }
  }

  lemma AndHighStep(x: nat, p: nat, q: nat)
    requires 0 < q <= p && And(x / 2, p - q) == x / 2 / q * q
    ensures And(x, 2 * p - 2 * q) == x / (2 * q) * (2 * q)
  {
    hide And;
    HalfQuotient(x, q);
    AndStep(x, 2 * p - 2 * q);
    assert (2 * p - 2 * q) / 2 == p - q;
  }

  lemma HalfQuotient(x: nat, p: nat)
    requires p > 0
    ensures x / (2 * p) == x / 2 / p && 2 * (x / 2 / p * p) == x / (2 * p) * (2 * p)
  {
    var q := x / 2 / p;
    assert x / 2 == q * p + x / 2 % p;
    Divided(x, 2 * p, q, 2 * (x / 2 % p) + x % 2);
  }

  /** Bits put below a multiple of `Pow2(k)` are added to it. */
  lemma {:induction false} OrLow(a: nat, k: nat, v: nat)
    requires v < Pow2(k)
    ensures Or(a * Pow2(k), v) == a * Pow2(k) + v
    decreases k
  {
    if k == 0 {
      OrZero(a);
    } else {
      var x := a * Pow2(k - 1);
      assert a * Pow2(k) == 2 * x;
      OrLow(a, k - 1, v / 2);
    }
  }

  lemma {:induction false} OrZero(x: nat)
    ensures Or(x, 0) == x
  {
    if x > 0 { OrZero(x / 2); }
  }

  lemma Pow32()
    ensures Pow2(32) == LIMIT && Pow2(8) == 256
  {
    assert Pow2(4) == 16 && Pow2(8) == 256 && Pow2(12) == 0x1000 && Pow2(16) == 0x1_0000;
    assert Pow2(20) == 0x10_0000 && Pow2(24) == 0x100_0000 && Pow2(28) == 0x1000_0000;
  }

  /** Ones shifted left. */
  lemma MaskValue(prefix: nat)
    requires prefix <= 32
    ensures Mask(prefix) == LIMIT - Pow2(32 - prefix)
  {
    Pow32();
    if 0 < prefix < 32 {
      var p := Pow2(32 - prefix);
      Pow2Grows(32 - prefix, 32);
      assert Pow2(0) == 1;
      hide Pow2;
      assert (LIMIT - 1) * p == LIMIT * (p - 1) + (LIMIT - p);
      Remainder(LIMIT, p - 1, LIMIT - p);
    }
  }

  lemma Remainder(d: nat, q: nat, r: nat)
    requires r < d
    ensures (d * q + r) % d == r
  {
    Divided(d * q + r, d, q, r);
  }

  /** A CIDR entry is refused exactly for a bad prefix length, and its range holds exactly the addresses with that prefix. */
  lemma CidrExact(ip: IPv4, prefix: int, x: IPv4)
    ensures var r := Ends(Cidr(ip, prefix));
            && (r.None? <==> !(0 <= prefix <= 32))
            && (r.Some? ==> (Covers(r.value, x) <==> x / Pow2(32 - prefix) == ip / Pow2(32 - prefix)))
  {
    hide And, Or, Mask, Pow2, Ends;
    CidrEnds(ip, prefix);
    if 0 <= prefix <= 32 {
      var p := Pow2(32 - prefix);
      SameQuotient(x, ip / p, p);
    }
  }

  lemma CidrEnds(ip: IPv4, prefix: int)
    ensures !(0 <= prefix <= 32) ==> Ends(Cidr(ip, prefix)) == None
    ensures 0 <= prefix <= 32 ==>
              var p := Pow2(32 - prefix);
              Ends(Cidr(ip, prefix)) == Some((ip / p * p, ip / p * p + (p - 1)))
  {
    hide And, Or, Mask, Pow2;
    if 0 <= prefix <= 32 {
      var k := 32 - prefix;
      var p := Pow2(k);
      Pow32();
      MaskValue(prefix);
      AndHigh(ip, 32, k);
      OrLow(ip / p, k, p - 1);
    }
  }

  lemma {:induction false} OrBounds(x: nat, y: nat, w: nat)
    requires x < Pow2(w) && y < Pow2(w)
    ensures x <= Or(x, y) < Pow2(w) && And(x, y) <= x
    decreases w
  {
    if w > 0 { OrBounds(x / 2, y / 2, w - 1); }
  }

  /** Every entry that is not refused gives a range of addresses that is not empty. */
  lemma EndsAreAddresses(e: Entry)
    ensures var r := Ends(e); r.Some? ==> r.value.0 <= r.value.1 < LIMIT
  {
    hide And, Or, Mask, Pow2;
    Pow32();
    if e.Cidr? && 0 <= e.prefix <= 32 {
      OrBounds(e.ip, Mask(e.prefix), 32);
      OrBounds(And(e.ip, Mask(e.prefix)), Not(Mask(e.prefix)), 32);
    } else if e.LastOctet? && 0 <= e.val <= 255 {
      OrBounds(e.first, 0xFFFF_FF00, 32);
      OrBounds(And(e.first, 0xFFFF_FF00), e.val, 32);
    }
  }

  /** A range is read in either order of its ends, and a single address is itself. */
  lemma RangeExact(first: IPv4, last: IPv4, x: IPv4)
    ensures Ends(Range(first, last)).Some? && Ends(Single(first)).Some?
    ensures Covers(Ends(Range(first, last)).value, x) <==> first <= x <= last || last <= x <= first
    ensures Covers(Ends(Single(first)).value, x) <==> x == first
  {
  }

  lemma SameQuotient(x: nat, q: nat, p: nat)
    requires p > 0
    ensures q * p <= x <= q * p + (p - 1) <==> x / p == q
  {
    if q * p <= x <= q * p + (p - 1) {
      Divided(x, p, q, x - q * p);
    }
  }

  /** A range given by its first address and a last octet stays in that address's /24, between the two octets. */
  lemma LastOctetExact(first: IPv4, val: int, x: IPv4)
    ensures var r := Ends(LastOctet(first, val));
            && (r.None? <==> !(0 <= val <= 255))
            && (r.Some? ==> (Covers(r.value, x) <==>
                  x / 256 == first / 256 && (first % 256 <= x % 256 <= val || val <= x % 256 <= first % 256)))
  {
    if 0 <= val <= 255 {
      hide And, Or, Pow2;
      Pow32();
      AndHigh(first, 32, 8);
      OrLow(first / 256, 8, val);
    }
  }

  predicate Matches(p: seq<Option<Octet>>, o: seq<Octet>) {
    |o| == |p| && forall i :: 0 <= i < |p| && p[i].Some? ==> o[i] == p[i].value
  }

  /** No octet is given after a wildcard. */
  predicate WildcardsLast(p: seq<Option<Octet>>) {
    forall i, j :: 0 <= i < j < |p| && p[i].None? ==> p[j].None?
  }

  /** The range of a pattern holds every address that matches. */
  lemma WildcardCovers(p: seq<Option<Octet>>, o: seq<Octet>)
    requires |p| == 4 && Matches(p, o)
    ensures Covers(Ends(Wildcard(p)).value, Address(o))
  {
  }

  /** It holds no others exactly when the wildcards come last: `1.*.3.4` is read as all from 1.0.3.4 to 1.255.3.4. */
  lemma WildcardExactIff(p: seq<Option<Octet>>)
    requires |p| == 4
    ensures WildcardsLast(p) <==>
            forall o: seq<Octet> :: |o| == 4 ==> (Covers(Ends(Wildcard(p)).value, Address(o)) <==> Matches(p, o))
  {
    if WildcardsLast(p) {
      forall o: seq<Octet> | |o| == 4 && Covers(Ends(Wildcard(p)).value, Address(o)) ensures Matches(p, o) {
        SuffixExact(p, o);
      }
      forall o: seq<Octet> | |o| == 4 && Matches(p, o) ensures Covers(Ends(Wildcard(p)).value, Address(o)) {
        WildcardCovers(p, o);
      }
    } else {
      var o := Stray(p);
      assert |o| == 4 && Covers(Ends(Wildcard(p)).value, Address(o)) && !Matches(p, o);
    }
  }

  lemma SuffixExact(p: seq<Option<Octet>>, o: seq<Octet>)
    requires |p| == 4 == |o| && WildcardsLast(p) && Covers(Ends(Wildcard(p)).value, Address(o))
    ensures Matches(p, o)
  {
    var l, h := Filled(p, 0), Filled(p, 255);
    assert Address(l) <= Address(o) <= Address(h);
    if p[0].Some? {
      Leading(0x100_0000, l[0], o[0], Low(l, 1), Low(o, 1), Low(h, 1));
      if p[1].Some? {
        Leading(0x1_0000, l[1], o[1], Low(l, 2), Low(o, 2), Low(h, 2));
        if p[2].Some? {
          Leading(0x100, l[2], o[2], Low(l, 3), Low(o, 3), Low(h, 3));
        }
      }
    }
    assert p[0].None? ==> p[1].None?;
    assert p[1].None? ==> p[2].None?;
    assert p[2].None? ==> p[3].None?;
  }

  /** The part of an address below its first `n` octets. */
  function Low(o: seq<Octet>, n: nat): (r: nat)
    requires |o| == 4 && 1 <= n <= 3
    ensures n == 1 ==> r < 0x100_0000
    ensures n == 2 ==> r < 0x1_0000
    ensures n == 3 ==> r < 0x100
  {
    (if n < 2 then o[1] as int * 0x1_0000 else 0) + (if n < 3 then o[2] as int * 0x100 else 0) + o[3] as int
  }

  lemma Leading(m: nat, q: nat, y: nat, l: nat, r: nat, h: nat)
    requires l < m && r < m && h < m && q * m + l <= y * m + r <= q * m + h
    ensures y == q && l <= r <= h
  {
    var e := y - q;
    assert y * m - q * m == e * m;
    assert e >= 1 ==> e * m >= m;
    assert e <= -1 ==> e * m + m <= 0;
  }

  /** An address in the range of a pattern that does not match it. */
  lemma Stray(p: seq<Option<Octet>>) returns (o: seq<Octet>)
    requires |p| == 4 && !WildcardsLast(p)
    ensures |o| == 4 && Covers(Ends(Wildcard(p)).value, Address(o)) && !Matches(p, o)
  {
    var i, j :| 0 <= i < j < 4 && p[i].None? && p[j].Some?;
    var c := if p[j].value == 0 then 1 else 0;
    var l, h, m := Filled(p, 0), Filled(p, 255), Filled(p, 1);
    o := m[j := c];
    assert o[j] != p[j].value;
    assert forall k :: 0 <= k < 4 && k != j ==> l[k] <= o[k] <= h[k];
    Below(l, o, i, j);
    Below(o, h, i, j);
  }

  /** An earlier octet decides the order of two addresses. */
  lemma Below(a: seq<Octet>, b: seq<Octet>, i: nat, j: nat)
    requires |a| == |b| == 4 && i < j < 4 && a[i] < b[i]
    requires forall k :: 0 <= k < 4 && k != j ==> a[k] <= b[k]
    ensures Address(a) <= Address(b)
  {
    if j == 1 {
      assert a[0] < b[0];
    } else if j == 2 {
      assert a[0] <= b[0] && a[1] <= b[1];
    } else {
      assert j == 3 && a[0] <= b[0] && a[1] <= b[1] && a[2] <= b[2];
    }
  }
}
