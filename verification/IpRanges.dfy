/** Compression of the addresses of a DHCP network into ranges (installadm-convert.py). */
module IpRanges {
  import opened Text
  import opened Addresses

  /** struct.unpack('L', inet_aton(ip)): the value depends on the byte order of the host. */
  function Unpack(ip: IPv4, bigEndian: bool): nat {
    if bigEndian then ip.Number() else ip.Reversed()
  }

  predicate AtLeast(x: IPv4, s: seq<IPv4>, bigEndian: bool) {
    forall y | y in s :: Unpack(x, bigEndian) <= Unpack(y, bigEndian)
  }

  predicate SortedBy(s: seq<IPv4>, bigEndian: bool) {
    s == [] || (AtLeast(s[0], s[1..], bigEndian) && SortedBy(s[1..], bigEndian))
  }

  lemma {:induction false} SortedAt(s: seq<IPv4>, bigEndian: bool, i: nat, j: nat)
    requires SortedBy(s, bigEndian) && i < j < |s|
    ensures Unpack(s[i], bigEndian) <= Unpack(s[j], bigEndian)
  {
    if i == 0 {
      assert s[1..][j - 1] in s[1..];
    } else {
      SortedAt(s[1..], bigEndian, i - 1, j - 1);
    }
  }

  function Insert(x: IPv4, s: seq<IPv4>, bigEndian: bool): seq<IPv4> {
    if s == [] || Unpack(x, bigEndian) <= Unpack(s[0], bigEndian) then [x] + s else [s[0]] + Insert(x, s[1..], bigEndian)
  }

  /** sorted() on the unpacked numbers, packed again. */
  function Sorted(s: seq<IPv4>, bigEndian: bool): seq<IPv4> {
    if s == [] then [] else Insert(s[0], Sorted(s[1..], bigEndian), bigEndian)
  }

  lemma {:induction false} InsertKeepsAll(x: IPv4, s: seq<IPv4>, bigEndian: bool)
    ensures multiset(Insert(x, s, bigEndian)) == multiset{x} + multiset(s)
  {
    if s != [] && Unpack(x, bigEndian) > Unpack(s[0], bigEndian) {
      InsertKeepsAll(x, s[1..], bigEndian);
      assert s == [s[0]] + s[1..];
    }
  }

  lemma {:induction false} InsertSorts(x: IPv4, s: seq<IPv4>, bigEndian: bool)
    requires SortedBy(s, bigEndian)
    ensures SortedBy(Insert(x, s, bigEndian), bigEndian)
    ensures forall y | AtLeast(y, s, bigEndian) && Unpack(y, bigEndian) <= Unpack(x, bigEndian) ::
              AtLeast(y, Insert(x, s, bigEndian), bigEndian)
  {
    if s != [] && Unpack(x, bigEndian) > Unpack(s[0], bigEndian) {
      InsertSorts(x, s[1..], bigEndian);
      var t := Insert(x, s[1..], bigEndian);
      assert ([s[0]] + t)[1..] == t;
      assert s == [s[0]] + s[1..];
    } else {
      assert ([x] + s)[1..] == s;
    }
  }

  lemma {:induction false} SortedKeepsAll(s: seq<IPv4>, bigEndian: bool)
    ensures multiset(Sorted(s, bigEndian)) == multiset(s)
  {
    if s != [] {
      SortedKeepsAll(s[1..], bigEndian);
      InsertKeepsAll(s[0], Sorted(s[1..], bigEndian), bigEndian);
      assert s == [s[0]] + s[1..];
    }
  }

  lemma {:induction false} SortedIsSorted(s: seq<IPv4>, bigEndian: bool)
    ensures SortedBy(Sorted(s, bigEndian), bigEndian)
    ensures multiset(Sorted(s, bigEndian)) == multiset(s)
  {
    SortedKeepsAll(s, bigEndian);
    if s != [] {
      SortedIsSorted(s[1..], bigEndian);
      InsertSorts(s[0], Sorted(s[1..], bigEndian), bigEndian);
    }
  }

  // ----- ranges ---------------------------------------------------------------------

  datatype Range = Range(nextserver: string, loaddr: IPv4, hiaddr: IPv4)

  /** next_in_range: the last octet is one more and the other three are the same. */
  predicate NextInRange(cur: IPv4, last: IPv4) {
    cur.SameNetwork24(last) && cur.d == last.d + 1
  }

  /** The addresses a range stands for. */
  function Expand(r: Range): seq<IPv4> {
    if r.hiaddr.d < r.loaddr.d then []
    else seq(r.hiaddr.d - r.loaddr.d + 1, i requires 0 <= i => r.loaddr.(d := r.loaddr.d + i))
  }

  function ExpandAll(ranges: seq<Range>): seq<IPv4> {
    if ranges == [] then [] else ExpandAll(ranges[..|ranges| - 1]) + Expand(ranges[|ranges| - 1])
  }

  predicate AllFrom(ranges: seq<Range>, server: string) {
    forall k | 0 <= k < |ranges| :: ranges[k].nextserver == server
  }

  lemma SameLength(s: seq<IPv4>, t: seq<IPv4>)
    requires multiset(s) == multiset(t)
    ensures |s| == |t|
  {
    assert |multiset(s)| == |s| && |multiset(t)| == |t|;
  }

  predicate InOneNetwork(r: Range) {
    r.loaddr.SameNetwork24(r.hiaddr) && r.loaddr.d <= r.hiaddr.d
  }

  ghost predicate EachInOneNetwork(ranges: seq<Range>) {
    forall i | 0 <= i < |ranges| :: InOneNetwork(ranges[i])
  }

  /** Range k starts where the one before it ends. */
  predicate Continues(ranges: seq<Range>, k: nat)
    requires 0 < k < |ranges|
  {
    NextInRange(ranges[k].loaddr, ranges[k - 1].hiaddr)
  }

  ghost predicate IsCompression(ranges: seq<Range>, addrs: seq<IPv4>) {
    && ExpandAll(ranges) == addrs
    && EachInOneNetwork(ranges)
    && (forall k | 0 < k < |ranges| :: !Continues(ranges, k))
  }

  lemma SingleRange(r: Range)
    requires r.loaddr == r.hiaddr
    ensures IsCompression([] + [r], [r.loaddr])
  {
    assert [r][..0] == [] && ExpandAll([]) == [];
    assert Expand(r) == [r.loaddr];
    assert [] + [r] == [r];
    assert ExpandAll([r]) == [] + [r.loaddr];
  }

  lemma NewRange(ranges: seq<Range>, addrs: seq<IPv4>, r: Range)
    requires ranges != [] && IsCompression(ranges, addrs) && r.loaddr == r.hiaddr
    requires !NextInRange(r.loaddr, ranges[|ranges| - 1].hiaddr)
    ensures IsCompression(ranges + [r], addrs + [r.loaddr])
  {
    forall k | 0 < k < |ranges|
      ensures !Continues(ranges + [r], k)
    {
      assert !Continues(ranges, k);
    }
    assert (ranges + [r])[..|ranges|] == ranges;
    assert Expand(r) == [r.loaddr];
  }

  lemma GrowRange(ranges: seq<Range>, r: Range, addrs: seq<IPv4>, next: IPv4)
    requires IsCompression(ranges + [r], addrs) && NextInRange(next, r.hiaddr)
    ensures IsCompression(ranges + [r.(hiaddr := next)], addrs + [next])
  {
    var grown := r.(hiaddr := next);
    assert (ranges + [r])[..|ranges|] == ranges && (ranges + [grown])[..|ranges|] == ranges;
    assert (ranges + [r])[|ranges|] == r;
    assert Expand(grown) == Expand(r) + [next];
    forall k | 0 < k < |ranges + [grown]|
      ensures !Continues(ranges + [grown], k)
    {
      assert !Continues(ranges + [r], k);
      assert (ranges + [r])[k].loaddr == (ranges + [grown])[k].loaddr;
      assert (ranges + [r])[k - 1].hiaddr == (ranges + [grown])[k - 1].hiaddr;
    }
  }

  /** The pending range takes the next address in, or is closed and followed by a new one. */
  lemma NextAddress(ranges: seq<Range>, pending: Range, addrs: seq<IPv4>, next: IPv4)
    requires IsCompression(ranges + [pending], addrs)
    ensures NextInRange(next, pending.hiaddr) ==> IsCompression(ranges + [pending.(hiaddr := next)], addrs + [next])
    ensures !NextInRange(next, pending.hiaddr) ==>
              IsCompression(ranges + [pending] + [Range(pending.nextserver, next, next)], addrs + [next])
  {
    if NextInRange(next, pending.hiaddr) {
      GrowRange(ranges, pending, addrs, next);
    } else {
      NewRange(ranges + [pending], addrs, Range(pending.nextserver, next, next));
    }
  }

  /** The loop over the sorted addresses. */
  method Compress(sortedClients: seq<IPv4>, server: string) returns (ranges: seq<Range>)
    requires sortedClients != []
    ensures IsCompression(ranges, sortedClients) && AllFrom(ranges, server)
  {
    ranges := [];
    var startAddr: Option<IPv4>, lastAddr: Option<IPv4> := None, None;
    for i := 0 to |sortedClients|
      invariant startAddr.None? <==> i == 0
      invariant lastAddr.None? <==> i == 0
      invariant i == 0 ==> ranges == []
      invariant i > 0 ==> IsCompression(ranges + [Range(server, startAddr.value, lastAddr.value)], sortedClients[..i])
      invariant AllFrom(ranges, server)
    {
      var clientAddr := sortedClients[i];
      assert sortedClients[..i + 1] == sortedClients[..i] + [clientAddr];
      if startAddr.None? {
        SingleRange(Range(server, clientAddr, clientAddr));
        startAddr := Some(clientAddr);
      } else {
        NextAddress(ranges, Range(server, startAddr.value, lastAddr.value), sortedClients[..i], clientAddr);
        if !NextInRange(clientAddr, lastAddr.value) {
          ranges := ranges + [Range(server, startAddr.value, lastAddr.value)];
          startAddr := Some(clientAddr);
        }
      }
      lastAddr := Some(clientAddr);
    }
    assert sortedClients[..|sortedClients|] == sortedClients;
    ranges := ranges + [Range(server, startAddr.value, lastAddr.value)];
  }

  /** None is the IndexError of an empty network; otherwise the ranges expand to the sorted
      addresses, one by one, and no range could have taken in the next one's first address. */
  method GenerateIpRanges(clients: seq<IPv4>, servers: seq<string>, bigEndian: bool) returns (r: Option<seq<Range>>)
    requires |servers| == |clients|
    ensures r.None? <==> clients == []
    ensures r.Some? ==> IsCompression(r.value, Sorted(clients, bigEndian)) && AllFrom(r.value, servers[0])
  {
    var sortedClients := Sorted(clients, bigEndian);
    if clients == [] {
      return None;
    }
    SortedIsSorted(clients, bigEndian);
    SameLength(clients, sortedClients);
    var ranges := Compress(sortedClients, servers[0]);
    r := Some(ranges);
  }

  // ----- when two ranges could be merged ----------------------------------------------

  ghost predicate Distinct(s: seq<IPv4>) {
    forall i, j | 0 <= i < j < |s| :: s[i] != s[j]
  }

  ghost predicate Ascending(s: seq<IPv4>, bigEndian: bool) {
    forall i, j | 0 <= i < j < |s| :: Unpack(s[i], bigEndian) < Unpack(s[j], bigEndian)
  }

  lemma {:induction false} CountDistinct(s: seq<IPv4>, x: IPv4)
    requires Distinct(s)
    ensures multiset(s)[x] <= 1
  {
    if s != [] {
      CountDistinct(s[1..], x);
      assert s == [s[0]] + s[1..];
      if s[0] == x {
        assert x !in s[1..];
      }
    }
  }

  lemma DistinctAfterSorting(s: seq<IPv4>, t: seq<IPv4>, i: nat, j: nat)
    requires multiset(s) == multiset(t) && i < j < |t| && Distinct(s)
    ensures t[i] != t[j]
  {
    if t[i] == t[j] {
      var x := t[i];
      assert t == t[..j] + [x] + t[j + 1..];
      assert x in t[..j];
      assert multiset(t)[x] >= 2;
      CountDistinct(s, x);
      assert false;
    }
  }

  /** Distinct addresses come out in strictly ascending order of the unpacked numbers. */
  lemma SortedAscends(clients: seq<IPv4>, bigEndian: bool)
    requires (forall x | x in clients :: x.Valid()) && Distinct(clients)
    ensures Ascending(Sorted(clients, bigEndian), bigEndian)
  {
    var s := Sorted(clients, bigEndian);
    SortedIsSorted(clients, bigEndian);
    forall i, j | 0 <= i < j < |s|
      ensures Unpack(s[i], bigEndian) < Unpack(s[j], bigEndian)
    {
      assert s[i] in multiset(s) && s[j] in multiset(s);
      assert s[i] in clients && s[j] in clients;
      DistinctAfterSorting(clients, s, i, j);
      SortedAt(s, bigEndian, i, j);
      NumberInjective(s[i], s[j]);
    }
  }

  /** Some range starts where another ends, wherever the two stand. */
  predicate CanMerge(ranges: seq<Range>) {
    exists i, j :: 0 <= i < |ranges| && 0 <= j < |ranges| && NextInRange(ranges[j].loaddr, ranges[i].hiaddr)
  }

  /** The order puts z between x and the address after x. */
  predicate Between(x: IPv4, z: IPv4, y: IPv4, bigEndian: bool) {
    NextInRange(y, x) && Unpack(x, bigEndian) < Unpack(z, bigEndian) < Unpack(y, bigEndian)
  }

  predicate KeptApart(addrs: seq<IPv4>, bigEndian: bool) {
    exists x, y, z :: x in addrs && y in addrs && z in addrs && Between(x, z, y, bigEndian)
  }

  /** The place of a range's addresses in the expansion. */
  lemma {:induction false} RangeInExpansion(ranges: seq<Range>, k: nat) returns (from: nat, last: nat)
    requires k < |ranges| && EachInOneNetwork(ranges)
    ensures from <= last < |ExpandAll(ranges)|
    ensures ExpandAll(ranges)[from] == ranges[k].loaddr && ExpandAll(ranges)[last] == ranges[k].hiaddr
    ensures from == |ExpandAll(ranges[..k])| && last + 1 == |ExpandAll(ranges[..k + 1])|
  {
    var n := |ranges| - 1;
    assert ExpandAll(ranges) == ExpandAll(ranges[..n]) + Expand(ranges[n]);
    if k == n {
      from := |ExpandAll(ranges[..n])|;
      last := from + ranges[n].hiaddr.d - ranges[n].loaddr.d;
      assert ranges[..n + 1] == ranges;
    } else {
      from, last := RangeInExpansion(ranges[..n], k);
      assert ranges[..n][..k] == ranges[..k] && ranges[..n][..k + 1] == ranges[..k + 1];
    }
  }

  lemma {:induction false} PrefixLength(ranges: seq<Range>, i: nat, j: nat)
    requires i <= j <= |ranges| && EachInOneNetwork(ranges)
    ensures |ExpandAll(ranges[..i])| + (j - i) <= |ExpandAll(ranges[..j])|
    decreases j - i
  {
    if i < j {
      PrefixLength(ranges, i, j - 1);
      assert ranges[..j][..j - 1] == ranges[..j - 1];
    }
  }

  /** Every address ends its range or is followed by the next one in it. */
  lemma {:induction false} EndsOrGoesOn(ranges: seq<Range>, p: nat) returns (k: nat)
    requires EachInOneNetwork(ranges) && p < |ExpandAll(ranges)|
    ensures k < |ranges|
    ensures var addrs := ExpandAll(ranges);
            addrs[p] == ranges[k].hiaddr || (p + 1 < |addrs| && NextInRange(addrs[p + 1], addrs[p]))
  {
    var n := |ranges| - 1;
    if p < |ExpandAll(ranges[..n])| {
      k := EndsOrGoesOn(ranges[..n], p);
    } else {
      k := n;
    }
  }

  /** Every address starts its range or follows the one before it. */
  lemma {:induction false} StartsOrFollows(ranges: seq<Range>, p: nat) returns (k: nat)
    requires EachInOneNetwork(ranges) && p < |ExpandAll(ranges)|
    ensures k < |ranges|
    ensures var addrs := ExpandAll(ranges);
            addrs[p] == ranges[k].loaddr || (p > 0 && NextInRange(addrs[p], addrs[p - 1]))
  {
    var n := |ranges| - 1;
    if p < |ExpandAll(ranges[..n])| {
      k := StartsOrFollows(ranges[..n], p);
    } else {
      k := n;
    }
  }

  lemma NextIsGreater(x: IPv4, y: IPv4, bigEndian: bool)
    requires NextInRange(y, x)
    ensures Unpack(x, bigEndian) < Unpack(y, bigEndian)
  {}

  lemma NextIsUnique(x: IPv4, y: IPv4, x': IPv4, y': IPv4)
    requires NextInRange(y, x)
    ensures (NextInRange(y', x) ==> y' == y) && (NextInRange(y, x') ==> x' == x)
  {}

  /** The order of the numbers is the order of the places. */
  lemma PlacesFollowOrder(addrs: seq<IPv4>, bigEndian: bool, i: nat, j: nat)
    requires Ascending(addrs, bigEndian) && i < |addrs| && j < |addrs|
    ensures Unpack(addrs[i], bigEndian) < Unpack(addrs[j], bigEndian) <==> i < j
  {
    if j < i {
      assert Unpack(addrs[j], bigEndian) < Unpack(addrs[i], bigEndian);
    }
  }

  /** The ranges of an ascending expansion ascend. */
  lemma RangesAscend(ranges: seq<Range>, addrs: seq<IPv4>, bigEndian: bool, i: nat, j: nat)
    requires IsCompression(ranges, addrs) && Ascending(addrs, bigEndian) && i < j < |ranges|
    ensures Unpack(ranges[i].hiaddr, bigEndian) < Unpack(ranges[j].loaddr, bigEndian)
  {
    var fromI, lastI := RangeInExpansion(ranges, i);
    var fromJ, lastJ := RangeInExpansion(ranges, j);
    PrefixLength(ranges, i + 1, j);
  }

  lemma PlacesApart(addrs: seq<IPv4>, bigEndian: bool, p: nat, q: nat)
    requires Ascending(addrs, bigEndian) && p + 1 < q < |addrs| && NextInRange(addrs[q], addrs[p])
    ensures KeptApart(addrs, bigEndian)
  {
    assert Between(addrs[p], addrs[p + 1], addrs[q], bigEndian);
  }

  /** Ranges that could be merged, but were not, do not stand side by side. */
  lemma MergeableStandApart(ranges: seq<Range>, addrs: seq<IPv4>, i: nat, j: nat)
    requires IsCompression(ranges, addrs) && i < |ranges| && j < |ranges| && NextInRange(ranges[j].loaddr, ranges[i].hiaddr)
    ensures i + 1 != j
  {
    assert j > 0 ==> !Continues(ranges, j);
  }

  lemma MergeableAreKeptApart(ranges: seq<Range>, addrs: seq<IPv4>, bigEndian: bool, i: nat, j: nat)
    requires IsCompression(ranges, addrs) && Ascending(addrs, bigEndian)
    requires i < |ranges| && j < |ranges| && NextInRange(ranges[j].loaddr, ranges[i].hiaddr)
    ensures KeptApart(addrs, bigEndian)
  {
    var fromI, lastI := RangeInExpansion(ranges, i);
    var fromJ, lastJ := RangeInExpansion(ranges, j);
    NextIsGreater(addrs[lastI], addrs[fromJ], bigEndian);
    PlacesFollowOrder(addrs, bigEndian, lastI, fromJ);
    MergeableStandApart(ranges, addrs, i, j);
    if j <= i {
      PrefixLength(ranges, j, i);
      assert false;
    } else {
      PrefixLength(ranges, i + 1, j);
      PlacesApart(addrs, bigEndian, lastI, fromJ);
    }
  }

  lemma KeptApartAreMergeable(ranges: seq<Range>, addrs: seq<IPv4>, bigEndian: bool, x: IPv4, y: IPv4, z: IPv4)
    requires IsCompression(ranges, addrs) && Ascending(addrs, bigEndian)
    requires x in addrs && y in addrs && z in addrs && Between(x, z, y, bigEndian)
    ensures CanMerge(ranges)
  {
    var p :| 0 <= p < |addrs| && addrs[p] == x;
    var q :| 0 <= q < |addrs| && addrs[q] == y;
    var m :| 0 <= m < |addrs| && addrs[m] == z;
    PlacesFollowOrder(addrs, bigEndian, p, m);
    PlacesFollowOrder(addrs, bigEndian, m, q);
    assert p < m < q;
    var i := EndsOrGoesOn(ranges, p);
    var j := StartsOrFollows(ranges, q);
    assert Unpack(addrs[p + 1], bigEndian) < Unpack(addrs[q], bigEndian);
    assert Unpack(addrs[p], bigEndian) < Unpack(addrs[q - 1], bigEndian);
    NextIsUnique(x, y, addrs[q - 1], addrs[p + 1]);
    assert NextInRange(ranges[j].loaddr, ranges[i].hiaddr);
  }

  lemma SameMembers(s: seq<IPv4>, t: seq<IPv4>)
    requires multiset(s) == multiset(t)
    ensures forall x :: x in s <==> x in t
  {
    assert forall x :: x in s <==> x in multiset(s);
    assert forall x :: x in t <==> x in multiset(t);
  }

  /** Two ranges of a network's clients could be merged exactly if the order puts some client between
      another client and the client at the next address. */
  lemma MergeExactly(clients: seq<IPv4>, ranges: seq<Range>, bigEndian: bool)
    requires (forall x | x in clients :: x.Valid()) && Distinct(clients)
    requires IsCompression(ranges, Sorted(clients, bigEndian))
    ensures CanMerge(ranges) <==> KeptApart(clients, bigEndian)
  {
    var addrs := Sorted(clients, bigEndian);
    SortedIsSorted(clients, bigEndian);
    SortedAscends(clients, bigEndian);
    SameMembers(clients, addrs);
    if CanMerge(ranges) {
      var i, j :| 0 <= i < |ranges| && 0 <= j < |ranges| && NextInRange(ranges[j].loaddr, ranges[i].hiaddr);
      MergeableAreKeptApart(ranges, addrs, bigEndian, i, j);
      var x, y, z :| x in addrs && y in addrs && z in addrs && Between(x, z, y, bigEndian);
      assert x in clients && y in clients && z in clients;
    }
    if KeptApart(clients, bigEndian) {
      var x, y, z :| x in clients && y in clients && z in clients && Between(x, z, y, bigEndian);
      KeptApartAreMergeable(ranges, addrs, bigEndian, x, y, z);
    }
  }

  lemma NothingBetween(x: IPv4, z: IPv4, y: IPv4, bigEndian: bool)
    requires bigEndian || x.SameNetwork24(z)
    ensures !Between(x, z, y, bigEndian)
  {
    if NextInRange(y, x) {
      assert y.Number() == x.Number() + 1;
    }
  }

  /** Nothing lies between on a big-endian host, nor on any host among addresses that share their
      first three octets. */
  lemma RangesAreMaximal(clients: seq<IPv4>, ranges: seq<Range>, bigEndian: bool)
    requires (forall x | x in clients :: x.Valid()) && Distinct(clients)
    requires bigEndian || forall x, y | x in clients && y in clients :: x.SameNetwork24(y)
    requires IsCompression(ranges, Sorted(clients, bigEndian))
    ensures !CanMerge(ranges)
  {
    MergeExactly(clients, ranges, bigEndian);
    forall x, y, z | x in clients && y in clients && z in clients
      ensures !Between(x, z, y, bigEndian)
    {
      NothingBetween(x, z, y, bigEndian);
    }
  }

  /** On a little-endian host addresses of two /24 networks interleave: the second client of one
      network between two adjacent clients of another keeps their ranges apart. */
  lemma InterleavedNetworks(ranges: seq<Range>, p: IPv4, q: IPv4)
    requires p.Valid() && p.d < 255 && q.Valid() && q.a == p.a && q.b == p.b && q.c > p.c && q.d == p.d
    requires IsCompression(ranges, Sorted([p, p.(d := p.d + 1), q], false))
    ensures CanMerge(ranges)
  {
    var y := p.(d := p.d + 1);
    var clients := [p, y, q];
    ReversedOrder(q, p);
    ReversedOrder(y, q);
    assert p in clients && y in clients && q in clients && Between(p, q, y, false);
    MergeExactly(clients, ranges, false);
  }
}
