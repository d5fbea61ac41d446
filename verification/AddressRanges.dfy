/** Allocation of DHCP address ranges (dhcp.py): a new range is checked against the ranges of its
    subnet by last octets only, and yet no two configured ranges ever share an address. */
module AddressRanges {
  import opened Text
  import opened Addresses
  import opened Bits
  import opened Cidr

  /** The lines of the configuration file that matter here. */
  datatype Line =
    | Header(subnet: IPv4, mask: nat)
    | Range(lo: IPv4, hi: IPv4)
    | Other(text: string)

  datatype Outcome = Added | OutOfBounds | Overlap | NoServer

  function Subnet(ip: IPv4, mask: nat): IPv4 {
    And4(ip, PrefixMask(mask))
  }

  /** _ip_is_in_network, octet by octet; the packing order of the words does not matter. */
  predicate IsInNetwork(ip: IPv4, subnet: IPv4, mask: nat) {
    And4(ip, PrefixMask(mask)) == And4(subnet, PrefixMask(mask))
  }

  predicate Member(v: IPv4, r: Line)
    requires r.Range?
  {
    r.lo.Number() <= v.Number() <= r.hi.Number()
  }

  /** Inside one /24 an interval of numbers is an interval of last octets. */
  lemma MembersByLastOctet(v: IPv4, lo: IPv4, hi: IPv4)
    requires v.Valid() && lo.Valid() && hi.Valid() && lo.SameNetwork24(hi)
    ensures lo.Number() <= v.Number() <= hi.Number() <==> v.SameNetwork24(lo) && lo.d <= v.d <= hi.d
  {
    NumberOrder(lo, v);
    NumberOrder(v, hi);
  }

  /** Network membership is convex along the last octet. */
  lemma BetweenIsInNetwork(v: IPv4, lo: IPv4, hi: IPv4, mask: nat)
    requires v.Valid() && lo.Valid() && hi.Valid() && lo.SameNetwork24(hi) && v.SameNetwork24(lo) && lo.d <= v.d <= hi.d
    requires Subnet(lo, mask) == Subnet(hi, mask)
    ensures Subnet(v, mask) == Subnet(lo, mask)
  {
    MaskedOctetsConvex(lo.d, v.d, hi.d, BitsInOctet(mask, 3));
  }

  lemma {:induction false} AndIdempotent(x: nat, m: nat)
    ensures And(And(x, m), m) == And(x, m)
  {
    if x != 0 && m != 0 {
      AndIdempotent(x / 2, m / 2);
      var y := And(x, m);
      assert (x % 2) * (m % 2) < 2;
      assert y / 2 == And(x / 2, m / 2) && y % 2 == (x % 2) * (m % 2);
      Unfold(y, m);
    }
  }

  lemma SubnetOfSubnet(ip: IPv4, mask: nat)
    ensures And4(Subnet(ip, mask), PrefixMask(mask)) == Subnet(ip, mask)
  {
    var m := PrefixMask(mask);
    AndIdempotent(ip.a, m.a);
    AndIdempotent(ip.b, m.b);
    AndIdempotent(ip.c, m.c);
    AndIdempotent(ip.d, m.d);
  }

  // ----- readers ------------------------------------------------------------------------

  predicate HasHeader(lines: seq<Line>, subnet: IPv4) {
    exists i :: 0 <= i < |lines| && lines[i].Header? && lines[i].subnet == subnet
  }

  /** DHCPSubnet.ranges: the range lines whose low address is in the subnet, wherever they stand. */
  function RangesOf(lines: seq<Line>, subnet: IPv4, maskOf: IPv4 -> nat): seq<Line> {
    if lines == [] then []
    else
      var last := lines[|lines| - 1];
      RangesOf(lines[..|lines| - 1], subnet, maskOf)
      + if last.Range? && Subnet(last.lo, maskOf(last.lo)) == subnet then [last] else []
  }

  lemma {:induction false} RangesOfMembers(lines: seq<Line>, subnet: IPv4, maskOf: IPv4 -> nat)
    ensures forall r :: r in RangesOf(lines, subnet, maskOf) <==>
              r in lines && r.Range? && Subnet(r.lo, maskOf(r.lo)) == subnet
  {
    if lines != [] {
      RangesOfMembers(lines[..|lines| - 1], subnet, maskOf);
      assert lines == lines[..|lines| - 1] + [lines[|lines| - 1]];
    }
  }

  // ----- the checks ---------------------------------------------------------------------

  /** The range fits when its last octet does not overflow and its end is in the subnet. */
  predicate Fits(lo: IPv4, count: nat, mask: nat) {
    lo.d + count <= 256 && (count > 0 ==> Subnet(lo.(d := lo.d + count - 1), mask) == Subnet(lo, mask))
  }

  method SetAndCheckHiaddr(subnet: IPv4, mask: nat, lo: IPv4, count: nat) returns (hi: Option<IPv4>)
    requires count > 0 && subnet == Subnet(lo, mask)
    ensures hi == if Fits(lo, count, mask) then Some(lo.(d := lo.d + count - 1)) else None
  {
    var hituple := lo.d + (count - 1);
    var hiaddr := lo.(d := hituple);
    SubnetOfSubnet(lo, mask);
    if hituple > 255 || !IsInNetwork(hiaddr, subnet, mask) {
      return None;
    }
    hi := Some(hiaddr);
  }

  predicate OctetsMeet(lo: IPv4, hi: IPv4, r: Line)
    requires r.Range?
  {
    lo.d <= r.hi.d && r.lo.d <= hi.d && lo.d <= hi.d && r.lo.d <= r.hi.d
  }

  /** set(range(first, end)) */
  function OctetSet(first: nat, end: nat): (s: set<nat>)
    ensures forall x :: x in s <==> first <= x < end
    decreases end - first
  {
    if first >= end then {} else {first} + OctetSet(first + 1, end)
  }

  lemma OctetSetsMeet(lo: IPv4, hi: IPv4, r: Line)
    requires r.Range?
    ensures OctetSet(lo.d, hi.d + 1) * OctetSet(r.lo.d, r.hi.d + 1) != {} <==> OctetsMeet(lo, hi, r)
  {
    var both := OctetSet(lo.d, hi.d + 1) * OctetSet(r.lo.d, r.hi.d + 1);
    if OctetsMeet(lo, hi, r) {
      assert (if lo.d < r.lo.d then r.lo.d else lo.d) in both;
    }
    if both != {} {
      var x :| x in both;
      assert lo.d <= x <= hi.d && r.lo.d <= x <= r.hi.d;
    }
  }

  /** _check_subnet_for_overlap: sets of last octets, the new one against each old one. */
  method CheckForOverlap(ranges: seq<Line>, lo: IPv4, hi: IPv4) returns (clash: bool)
    requires forall r | r in ranges :: r.Range?
    ensures clash <==> exists r :: r in ranges && OctetsMeet(lo, hi, r)
  {
    var newSet := OctetSet(lo.d, hi.d + 1);
    for i := 0 to |ranges|
      invariant forall k | 0 <= k < i :: !OctetsMeet(lo, hi, ranges[k])
    {
      var r := ranges[i];
      assert r in ranges;
      var oldSet := OctetSet(r.lo.d, r.hi.d + 1);
      OctetSetsMeet(lo, hi, r);
      if newSet * oldSet != {} {
        return true;
      }
    }
    clash := false;
  }

  // ----- invariants of the file -----------------------------------------------------------

  /** getent and the interfaces give one mask to all addresses of a network. */
  ghost predicate ConsistentMasks(maskOf: IPv4 -> nat) {
    forall x: IPv4, y: IPv4 :: Subnet(y, maskOf(x)) == Subnet(x, maskOf(x)) ==> maskOf(y) == maskOf(x)
  }

  ghost predicate GoodRange(r: Line, maskOf: IPv4 -> nat) {
    r.Range? ==>
      && r.lo.Valid() && r.hi.Valid() && r.lo.SameNetwork24(r.hi) && r.lo.d <= r.hi.d
      && Subnet(r.hi, maskOf(r.lo)) == Subnet(r.lo, maskOf(r.lo))
  }

  ghost predicate Disjoint(r: Line, s: Line) {
    r.Range? && s.Range? ==> forall v: IPv4 | v.Valid() :: !(Member(v, r) && Member(v, s))
  }

  /** The subnet header that line i stands under. */
  function StanzaOf(lines: seq<Line>, i: nat): Option<IPv4>
    requires i <= |lines|
  {
    if i == 0 then None
    else if lines[i - 1].Header? then Some(lines[i - 1].subnet)
    else StanzaOf(lines, i - 1)
  }

  ghost predicate GoodRanges(lines: seq<Line>, maskOf: IPv4 -> nat) {
    && (forall i | 0 <= i < |lines| :: GoodRange(lines[i], maskOf))
    && (forall i, j | 0 <= i < j < |lines| :: Disjoint(lines[i], lines[j]))
  }

  ghost predicate UniqueHeaders(lines: seq<Line>) {
    forall i, j | 0 <= i < j < |lines| && lines[i].Header? && lines[j].Header? :: lines[i].subnet != lines[j].subnet
  }

  ghost predicate OwnStanzas(lines: seq<Line>, maskOf: IPv4 -> nat) {
    forall i | 0 <= i < |lines| && lines[i].Range? :: StanzaOf(lines, i) == Some(Subnet(lines[i].lo, maskOf(lines[i].lo)))
  }

  /** Ranges are well formed and pairwise disjoint, no subnet has two headers, and every range
      stands in the stanza of its own subnet. */
  ghost predicate Good(lines: seq<Line>, maskOf: IPv4 -> nat) {
    GoodRanges(lines, maskOf) && UniqueHeaders(lines) && OwnStanzas(lines, maskOf)
  }

  lemma SharedMemberMeets(r: Line, s: Line, v: IPv4, maskOf: IPv4 -> nat)
    requires ConsistentMasks(maskOf) && GoodRange(r, maskOf) && GoodRange(s, maskOf) && r.Range? && s.Range?
    requires v.Valid() && Member(v, r) && Member(v, s)
    ensures Subnet(s.lo, maskOf(s.lo)) == Subnet(r.lo, maskOf(r.lo)) && OctetsMeet(r.lo, r.hi, s)
  {
    MembersByLastOctet(v, r.lo, r.hi);
    MembersByLastOctet(v, s.lo, s.hi);
    BetweenIsInNetwork(v, r.lo, r.hi, maskOf(r.lo));
    BetweenIsInNetwork(v, s.lo, s.hi, maskOf(s.lo));
    assert maskOf(v) == maskOf(r.lo) && maskOf(v) == maskOf(s.lo);
  }

  /** Ranges of one subnet with disjoint last octets share no address, even across /24s; ranges of
      different subnets share none because every member is in its range's subnet. */
  lemma NewRangeIsDisjoint(r: Line, s: Line, maskOf: IPv4 -> nat)
    requires ConsistentMasks(maskOf) && GoodRange(r, maskOf) && GoodRange(s, maskOf) && r.Range? && s.Range?
    requires Subnet(s.lo, maskOf(s.lo)) == Subnet(r.lo, maskOf(r.lo)) ==> !OctetsMeet(r.lo, r.hi, s)
    ensures Disjoint(r, s) && Disjoint(s, r)
  {
    forall v: IPv4 | v.Valid()
      ensures !(Member(v, r) && Member(v, s))
    {
      if Member(v, r) && Member(v, s) {
        SharedMemberMeets(r, s, v, maskOf);
        assert false;
      }
    }
  }

  /** Every address of a configured range is in the range's subnet, not only its ends. */
  lemma MembersAreInSubnet(r: Line, v: IPv4, maskOf: IPv4 -> nat)
    requires r.Range? && GoodRange(r, maskOf) && v.Valid() && Member(v, r)
    ensures Subnet(v, maskOf(r.lo)) == Subnet(r.lo, maskOf(r.lo))
  {
    MembersByLastOctet(v, r.lo, r.hi);
    BetweenIsInNetwork(v, r.lo, r.hi, maskOf(r.lo));
  }

  /** Within one /24 the octet check refuses nothing but true overlaps. */
  lemma OctetCheckIsExactIn24(r: Line, s: Line)
    requires r.Range? && s.Range? && r.lo.Valid() && r.hi.Valid() && s.lo.Valid() && s.hi.Valid()
    requires r.lo.SameNetwork24(r.hi) && s.lo.SameNetwork24(s.hi) && r.lo.SameNetwork24(s.lo)
    ensures OctetsMeet(r.lo, r.hi, s) <==> exists v: IPv4 :: v.Valid() && Member(v, r) && Member(v, s)
  {
    if OctetsMeet(r.lo, r.hi, s) {
      var v := if r.lo.d < s.lo.d then s.lo else r.lo;
      MembersByLastOctet(v, r.lo, r.hi);
      MembersByLastOctet(v, s.lo, s.hi);
    }
    if exists v: IPv4 :: v.Valid() && Member(v, r) && Member(v, s) {
      var v: IPv4 :| v.Valid() && Member(v, r) && Member(v, s);
      MembersByLastOctet(v, r.lo, r.hi);
      MembersByLastOctet(v, s.lo, s.hi);
    }
  }

  /** A range refused because its octets meet those of another is no true overlap exactly when the two
      lie in different /24s. */
  lemma FalseOverlapExactly(r: Line, s: Line, maskOf: IPv4 -> nat)
    requires r.Range? && s.Range? && GoodRange(r, maskOf) && GoodRange(s, maskOf) && OctetsMeet(r.lo, r.hi, s)
    ensures Disjoint(r, s) <==> !r.lo.SameNetwork24(s.lo)
  {
    if r.lo.SameNetwork24(s.lo) {
      OctetCheckIsExactIn24(r, s);
    } else {
      forall v: IPv4 | v.Valid()
        ensures !(Member(v, r) && Member(v, s))
      {
        MembersByLastOctet(v, r.lo, r.hi);
        MembersByLastOctet(v, s.lo, s.hi);
      }
    }
  }

  // ----- the configuration file -------------------------------------------------------------

  /** The copy that puts a range behind every header of the subnet. */
  function WithRange(lines: seq<Line>, subnet: IPv4, r: Line): seq<Line> {
    if lines == [] then []
    else
      var last := lines[|lines| - 1];
      WithRange(lines[..|lines| - 1], subnet, r) + if last.Header? && last.subnet == subnet then [last, r] else [last]
  }

  /** One line more, right behind the header of the subnet at h. */
  ghost predicate InsertedAfter(lines: seq<Line>, h: nat, r: Line, subnet: IPv4, grown: seq<Line>) {
    h < |lines| && lines[h].Header? && lines[h].subnet == subnet && grown == lines[..h + 1] + [r] + lines[h + 1..]
  }

  lemma HeaderInPrefix(lines: seq<Line>, subnet: IPv4, n: nat)
    requires n <= |lines|
    ensures HasHeader(lines[..n], subnet) ==> HasHeader(lines, subnet)
  {
    if HasHeader(lines[..n], subnet) {
      var i :| 0 <= i < n && lines[..n][i].Header? && lines[..n][i].subnet == subnet;
      assert lines[i] == lines[..n][i];
    }
  }

  lemma {:induction false} NoHeaderNoChange(lines: seq<Line>, subnet: IPv4, r: Line)
    requires !HasHeader(lines, subnet)
    ensures WithRange(lines, subnet, r) == lines
  {
    if lines != [] {
      var n := |lines| - 1;
      HeaderInPrefix(lines, subnet, n);
      NoHeaderNoChange(lines[..n], subnet, r);
      assert !(lines[n].Header? && lines[n].subnet == subnet);
    }
  }

  lemma {:induction false} WithRangeIsInsertion(lines: seq<Line>, subnet: IPv4, r: Line, h: nat)
    requires h < |lines| && lines[h].Header? && lines[h].subnet == subnet
    requires forall i | 0 <= i < |lines| && i != h && lines[i].Header? :: lines[i].subnet != subnet
    ensures WithRange(lines, subnet, r) == lines[..h + 1] + [r] + lines[h + 1..]
  {
    var n := |lines| - 1;
    if h == n {
      NoHeaderNoChange(lines[..n], subnet, r);
      assert lines[..n + 1] == lines[..n] + [lines[n]] && lines[n + 1..] == [];
    } else {
      WithRangeIsInsertion(lines[..n], subnet, r, h);
      assert lines[..n][..h + 1] == lines[..h + 1] && lines[h + 1..] == lines[..n][h + 1..] + [lines[n]];
    }
  }

  function NewStanza(subnet: IPv4, mask: nat, r: Line): seq<Line> {
    [Other(""), Header(subnet, mask), r, Other("option broadcast-address"), Other("option routers"), Other("next-server"), Other("}")]
  }

  lemma {:induction false} StanzaInPrefix(lines: seq<Line>, tail: seq<Line>, i: nat)
    requires i <= |lines|
    ensures StanzaOf(lines + tail, i) == StanzaOf(lines, i)
  {
    if i > 0 {
      StanzaInPrefix(lines, tail, i - 1);
    }
  }

  lemma {:induction false} StanzaAfterInsertion(lines: seq<Line>, h: nat, r: Line, i: nat)
    requires h < i <= |lines| && lines[h].Header? && r.Range?
    ensures StanzaOf(lines[..h + 1] + [r] + lines[h + 1..], i + 1) == StanzaOf(lines, i)
  {
    var grown := lines[..h + 1] + [r] + lines[h + 1..];
    if i == h + 1 {
      assert grown[h + 1] == r && grown[h] == lines[h];
      assert StanzaOf(grown, h + 2) == StanzaOf(grown, h + 1);
    } else {
      StanzaAfterInsertion(lines, h, r, i - 1);
      assert grown[i] == lines[i - 1];
    }
  }

  lemma InsertKeepsRanges(lines: seq<Line>, k: nat, r: Line, maskOf: IPv4 -> nat)
    requires GoodRanges(lines, maskOf) && k <= |lines| && GoodRange(r, maskOf)
    requires forall i | 0 <= i < |lines| :: Disjoint(lines[i], r) && Disjoint(r, lines[i])
    ensures GoodRanges(lines[..k] + [r] + lines[k..], maskOf)
  {
    var grown := lines[..k] + [r] + lines[k..];
    forall i, j | 0 <= i < j < |grown|
      ensures Disjoint(grown[i], grown[j])
    {
      if i != k && j != k {
        assert Disjoint(lines[if i < k then i else i - 1], lines[if j < k then j else j - 1]);
      }
    }
  }

  lemma InsertKeepsHeaders(lines: seq<Line>, k: nat, r: Line)
    requires UniqueHeaders(lines) && k <= |lines| && r.Range?
    ensures UniqueHeaders(lines[..k] + [r] + lines[k..])
  {
    var grown := lines[..k] + [r] + lines[k..];
    assert forall i | 0 <= i < |grown| :: grown[i] == if i < k then lines[i] else if i == k then r else lines[i - 1];
  }

  lemma InsertKeepsStanzas(lines: seq<Line>, h: nat, r: Line, maskOf: IPv4 -> nat)
    requires OwnStanzas(lines, maskOf) && h < |lines| && lines[h].Header? && r.Range?
    requires lines[h].subnet == Subnet(r.lo, maskOf(r.lo))
    ensures OwnStanzas(lines[..h + 1] + [r] + lines[h + 1..], maskOf)
  {
    var grown := lines[..h + 1] + [r] + lines[h + 1..];
    forall i | 0 <= i < |grown| && grown[i].Range?
      ensures StanzaOf(grown, i) == Some(Subnet(grown[i].lo, maskOf(grown[i].lo)))
    {
      if i <= h {
        StanzaInPrefix(lines[..h + 1], [r] + lines[h + 1..], i);
        StanzaInPrefix(lines[..h + 1], lines[h + 1..], i);
        assert lines[..h + 1] + lines[h + 1..] == lines && lines[..h + 1] + ([r] + lines[h + 1..]) == grown;
      } else if i == h + 1 {
        assert grown[h] == lines[h];
      } else {
        StanzaAfterInsertion(lines, h, r, i - 1);
      }
    }
  }

  lemma InsertKeepsGood(lines: seq<Line>, h: nat, r: Line, maskOf: IPv4 -> nat)
    requires Good(lines, maskOf) && h < |lines| && lines[h].Header? && r.Range? && GoodRange(r, maskOf)
    requires lines[h].subnet == Subnet(r.lo, maskOf(r.lo))
    requires forall i | 0 <= i < |lines| :: Disjoint(lines[i], r) && Disjoint(r, lines[i])
    ensures Good(lines[..h + 1] + [r] + lines[h + 1..], maskOf)
  {
    InsertKeepsRanges(lines, h + 1, r, maskOf);
    InsertKeepsHeaders(lines, h + 1, r);
    InsertKeepsStanzas(lines, h, r, maskOf);
  }

  lemma AppendKeepsGood(lines: seq<Line>, subnet: IPv4, mask: nat, r: Line, maskOf: IPv4 -> nat)
    requires Good(lines, maskOf) && !HasHeader(lines, subnet) && r.Range? && GoodRange(r, maskOf)
    requires subnet == Subnet(r.lo, maskOf(r.lo))
    requires forall i | 0 <= i < |lines| :: Disjoint(lines[i], r) && Disjoint(r, lines[i])
    ensures Good(lines + NewStanza(subnet, mask, r), maskOf)
  {
    var n, grown := |lines|, lines + NewStanza(subnet, mask, r);
    assert grown[n + 1] == Header(subnet, mask) && grown[n + 2] == r;
    assert forall i | n <= i < |grown| :: (i == n + 1 || i == n + 2 || grown[i].Other?);
    forall i | 0 <= i < |grown| && grown[i].Range?
      ensures StanzaOf(grown, i) == Some(Subnet(grown[i].lo, maskOf(grown[i].lo)))
    {
      if i < n {
        StanzaInPrefix(lines, NewStanza(subnet, mask, r), i);
      }
    }
  }

  lemma DisjointFromAll(lines: seq<Line>, r: Line, maskOf: IPv4 -> nat)
    requires ConsistentMasks(maskOf) && Good(lines, maskOf) && r.Range? && GoodRange(r, maskOf)
    requires forall s | s in lines && s.Range? && Subnet(s.lo, maskOf(s.lo)) == Subnet(r.lo, maskOf(r.lo)) :: !OctetsMeet(r.lo, r.hi, s)
    ensures forall i | 0 <= i < |lines| :: Disjoint(lines[i], r) && Disjoint(r, lines[i])
  {
    forall i | 0 <= i < |lines|
      ensures Disjoint(lines[i], r) && Disjoint(r, lines[i])
    {
      if lines[i].Range? {
        assert lines[i] in lines;
        NewRangeIsDisjoint(r, lines[i], maskOf);
      }
    }
  }

  lemma {:induction false} StanzaHasHeader(lines: seq<Line>, i: nat)
    requires i <= |lines| && StanzaOf(lines, i).Some?
    ensures HasHeader(lines, StanzaOf(lines, i).value)
  {
    if !lines[i - 1].Header? {
      StanzaHasHeader(lines, i - 1);
    }
  }

  lemma NoRangesWithoutHeader(lines: seq<Line>, subnet: IPv4, maskOf: IPv4 -> nat)
    requires Good(lines, maskOf) && !HasHeader(lines, subnet)
    ensures forall s | s in lines && s.Range? :: Subnet(s.lo, maskOf(s.lo)) != subnet
  {
    forall s | s in lines && s.Range?
      ensures Subnet(s.lo, maskOf(s.lo)) != subnet
    {
      var i :| 0 <= i < |lines| && lines[i] == s;
      StanzaHasHeader(lines, i);
    }
  }

  /** The ranges of the file and this one. */
  ghost predicate AddsOnly(lines: seq<Line>, r: Line, grown: seq<Line>) {
    forall s: Line | s.Range? :: s in grown <==> s in lines || s == r
  }

  lemma InsertedAddsOnly(lines: seq<Line>, h: nat, r: Line, subnet: IPv4, grown: seq<Line>)
    requires InsertedAfter(lines, h, r, subnet, grown)
    ensures AddsOnly(lines, r, grown)
  {
    assert lines == lines[..h + 1] + lines[h + 1..];
  }

  lemma AppendedAddsOnly(lines: seq<Line>, subnet: IPv4, mask: nat, r: Line)
    requires r.Range?
    ensures AddsOnly(lines, r, lines + NewStanza(subnet, mask, r))
  {
    var stanza := NewStanza(subnet, mask, r);
    assert stanza[2] == r && r in stanza;
    forall s: Line | s in stanza && s.Range?
      ensures s == r
    {
      var i :| 0 <= i < |stanza| && stanza[i] == s;
      assert i == 0 || i == 1 || i == 2 || i == 3 || i == 4 || i == 5 || i == 6;
    }
  }

  /** The subnets of the file and this one. */
  ghost predicate KnowsAlso(lines: seq<Line>, subnet: IPv4, grown: seq<Line>) {
    forall other :: HasHeader(grown, other) <==> HasHeader(lines, other) || other == subnet
  }

  lemma HeaderOfConcat(a: seq<Line>, b: seq<Line>, subnet: IPv4)
    ensures HasHeader(a + b, subnet) <==> HasHeader(a, subnet) || HasHeader(b, subnet)
  {
    if HasHeader(a, subnet) {
      var i :| 0 <= i < |a| && a[i].Header? && a[i].subnet == subnet;
      assert (a + b)[i] == a[i];
    }
    if HasHeader(b, subnet) {
      var i :| 0 <= i < |b| && b[i].Header? && b[i].subnet == subnet;
      assert (a + b)[|a| + i] == b[i];
    }
  }

  lemma InsertedKnowsAlso(lines: seq<Line>, h: nat, r: Line, subnet: IPv4, grown: seq<Line>)
    requires InsertedAfter(lines, h, r, subnet, grown) && r.Range?
    ensures KnowsAlso(lines, subnet, grown)
  {
    var front, rest := lines[..h + 1], lines[h + 1..];
    assert lines == front + rest && HasHeader(lines, subnet);
    forall other
      ensures HasHeader(grown, other) <==> HasHeader(lines, other) || other == subnet
    {
      HeaderOfConcat(front, rest, other);
      HeaderOfConcat(front, [r], other);
      HeaderOfConcat(front + [r], rest, other);
    }
  }

  lemma AppendedKnowsAlso(lines: seq<Line>, subnet: IPv4, mask: nat, r: Line)
    requires r.Range?
    ensures KnowsAlso(lines, subnet, lines + NewStanza(subnet, mask, r))
  {
    var stanza := NewStanza(subnet, mask, r);
    assert stanza[1] == Header(subnet, mask);
    forall other
      ensures HasHeader(stanza, other) <==> other == subnet
      ensures HasHeader(lines + stanza, other) <==> HasHeader(lines, other) || other == subnet
    {
      HeaderOfConcat(lines, stanza, other);
      assert forall i | 0 <= i < |stanza| :: i == 1 || !stanza[i].Header?;
    }
  }

  class DHCPServer {
    var lines: seq<Line>
    /** _get_mask: the prefix length found for an address. */
    const maskOf: IPv4 -> nat

    ghost predicate Valid()
      reads this
    {
      ConsistentMasks(maskOf) && Good(lines, maskOf)
    }

    /** A fresh configuration has no subnets. */
    constructor (base: seq<Line>, maskOf: IPv4 -> nat)
      requires ConsistentMasks(maskOf) && forall i | 0 <= i < |base| :: base[i].Other?
      ensures Valid() && lines == base && this.maskOf == maskOf
    {
      lines := base;
      this.maskOf := maskOf;
    }

    method AddAddressRange(ip: IPv4, count: nat, nextserver: Option<IPv4>) returns (r: Outcome)
      requires Valid() && ip.Valid() && count > 0
      modifies this`lines
      ensures Valid()
      ensures r == if !Fits(ip, count, maskOf(ip)) then OutOfBounds
                   else if HasHeader(old(lines), Subnet(ip, maskOf(ip))) then
                     if exists s :: s in old(lines) && s.Range? && Subnet(s.lo, maskOf(s.lo)) == Subnet(ip, maskOf(ip))
                                    && OctetsMeet(ip, ip.(d := ip.d + count - 1), s)
                     then Overlap else Added
                   else if nextserver.None? then NoServer else Added
      ensures r != Added ==> lines == old(lines)
      ensures r == Added ==>
        var hi, subnet := ip.(d := ip.d + count - 1), Subnet(ip, maskOf(ip));
        && hi.Valid() && hi.Number() == ip.Number() + count - 1
        && AddsOnly(old(lines), Range(ip, hi), lines) && KnowsAlso(old(lines), subnet, lines)
        && if HasHeader(old(lines), subnet) then
             exists h :: InsertedAfter(old(lines), h, Range(ip, hi), subnet, lines)
           else lines == old(lines) + NewStanza(subnet, maskOf(ip), Range(ip, hi))
    {
      var netmask := maskOf(ip);
      var subnetIp := Subnet(ip, netmask);
      var found := SetAndCheckHiaddr(subnetIp, netmask, ip, count);
      if found.None? {
        return OutOfBounds;
      }
      var hiaddr := found.value;
      var range := Range(ip, hiaddr);
      RangesOfMembers(lines, subnetIp, maskOf);
      if HasHeader(lines, subnetIp) {
        var clash := CheckForOverlap(RangesOf(lines, subnetIp, maskOf), ip, hiaddr);
        if clash {
          return Overlap;
        }
        DisjointFromAll(lines, range, maskOf);
        ghost var h :| 0 <= h < |lines| && lines[h].Header? && lines[h].subnet == subnetIp;
        WithRangeIsInsertion(lines, subnetIp, range, h);
        InsertKeepsGood(lines, h, range, maskOf);
        AddRangeToSubnet(subnetIp, range);
        assert InsertedAfter(old(lines), h, range, subnetIp, lines);
        InsertedAddsOnly(old(lines), h, range, subnetIp, lines);
        InsertedKnowsAlso(old(lines), h, range, subnetIp, lines);
      } else {
        if nextserver.None? {
          return NoServer;
        }
        NoRangesWithoutHeader(lines, subnetIp, maskOf);
        DisjointFromAll(lines, range, maskOf);
        AppendKeepsGood(lines, subnetIp, netmask, range, maskOf);
        AppendedAddsOnly(lines, subnetIp, netmask, range);
        AppendedKnowsAlso(lines, subnetIp, netmask, range);
        lines := lines + NewStanza(subnetIp, netmask, range);
      }
      r := Added;
    }

    /** _add_range_to_subnet: the line-by-line copy. */
    method AddRangeToSubnet(subnet: IPv4, range: Line)
      modifies this`lines
      ensures lines == WithRange(old(lines), subnet, range)
    {
      var copy := [];
      for i := 0 to |lines|
        invariant lines == old(lines)
        invariant copy == WithRange(lines[..i], subnet, range)
      {
        assert lines[..i + 1][..i] == lines[..i];
        copy := copy + [lines[i]];
        if lines[i].Header? && lines[i].subnet == subnet {
          copy := copy + [range];
        }
      }
      assert lines[..|lines|] == lines;
      lines := copy;
    }
  }

  datatype Request = Request(ip: IPv4, count: nat, nextserver: Option<IPv4>) {
    function Wanted(): Line {
      Range(ip, ip.(d := if count > 0 then ip.d + count - 1 else ip.d))
    }
  }

  /** Some request asked for the range and was answered with Added. */
  predicate WasAdded(requests: seq<Request>, outcomes: seq<Outcome>, r: Line)
    requires |outcomes| <= |requests|
  {
    exists i :: 0 <= i < |outcomes| && outcomes[i] == Added && requests[i].Wanted() == r
  }

  lemma WasAddedNext(requests: seq<Request>, outcomes: seq<Outcome>, outcome: Outcome, r: Line)
    requires |outcomes| < |requests|
    ensures WasAdded(requests, outcomes + [outcome], r) <==>
            WasAdded(requests, outcomes, r) || (outcome == Added && requests[|outcomes|].Wanted() == r)
  {
    var more := outcomes + [outcome];
    assert forall i | 0 <= i < |outcomes| :: more[i] == outcomes[i];
    assert more[|outcomes|] == outcome;
  }

  /** A range of the subnet was added before. */
  predicate KnownBefore(requests: seq<Request>, outcomes: seq<Outcome>, subnet: IPv4, maskOf: IPv4 -> nat)
    requires |outcomes| <= |requests|
  {
    exists i :: 0 <= i < |outcomes| && outcomes[i] == Added && Subnet(requests[i].ip, maskOf(requests[i].ip)) == subnet
  }

  lemma KnownNext(requests: seq<Request>, outcomes: seq<Outcome>, outcome: Outcome, subnet: IPv4, maskOf: IPv4 -> nat)
    requires |outcomes| < |requests|
    ensures KnownBefore(requests, outcomes + [outcome], subnet, maskOf) <==>
            KnownBefore(requests, outcomes, subnet, maskOf)
            || (outcome == Added && Subnet(requests[|outcomes|].ip, maskOf(requests[|outcomes|].ip)) == subnet)
  {
    var more := outcomes + [outcome];
    assert forall i | 0 <= i < |outcomes| :: more[i] == outcomes[i];
    assert more[|outcomes|] == outcome;
  }

  /** A range of the subnet was added before whose last octets meet those wanted. */
  predicate ClashesBefore(requests: seq<Request>, outcomes: seq<Outcome>, q: Request, maskOf: IPv4 -> nat)
    requires |outcomes| <= |requests|
  {
    exists i ::
      && 0 <= i < |outcomes| && outcomes[i] == Added
      && Subnet(requests[i].ip, maskOf(requests[i].ip)) == Subnet(q.ip, maskOf(q.ip))
      && OctetsMeet(q.ip, q.Wanted().hi, requests[i].Wanted())
  }

  /** How a request is answered, from the requests and answers before it. */
  function Answer(requests: seq<Request>, outcomes: seq<Outcome>, q: Request, maskOf: IPv4 -> nat): Outcome
    requires |outcomes| <= |requests|
  {
    if !Fits(q.ip, q.count, maskOf(q.ip)) then OutOfBounds
    else if ClashesBefore(requests, outcomes, q, maskOf) then Overlap
    else if q.nextserver.None? && !KnownBefore(requests, outcomes, Subnet(q.ip, maskOf(q.ip)), maskOf) then NoServer
    else Added
  }

  /** The file clashes with a request exactly if an added range does. */
  lemma FileClashes(lines: seq<Line>, requests: seq<Request>, outcomes: seq<Outcome>, q: Request, maskOf: IPv4 -> nat)
    requires |outcomes| <= |requests| && forall r: Line | r.Range? :: r in lines <==> WasAdded(requests, outcomes, r)
    ensures ClashesBefore(requests, outcomes, q, maskOf) <==>
            exists s :: s in lines && s.Range? && Subnet(s.lo, maskOf(s.lo)) == Subnet(q.ip, maskOf(q.ip))
                        && OctetsMeet(q.ip, q.Wanted().hi, s)
  {
    if ClashesBefore(requests, outcomes, q, maskOf) {
      var i :|
        && 0 <= i < |outcomes| && outcomes[i] == Added
        && Subnet(requests[i].ip, maskOf(requests[i].ip)) == Subnet(q.ip, maskOf(q.ip))
        && OctetsMeet(q.ip, q.Wanted().hi, requests[i].Wanted());
      assert WasAdded(requests, outcomes, requests[i].Wanted());
      assert requests[i].Wanted() in lines;
    }
    if s :| s in lines && s.Range? && Subnet(s.lo, maskOf(s.lo)) == Subnet(q.ip, maskOf(q.ip)) && OctetsMeet(q.ip, q.Wanted().hi, s) {
      assert WasAdded(requests, outcomes, s);
      var i :| 0 <= i < |outcomes| && outcomes[i] == Added && requests[i].Wanted() == s;
    }
  }

  /** The ranges and the subnets of the file are those that were added. */
  ghost predicate HoldsAdded(lines: seq<Line>, requests: seq<Request>, outcomes: seq<Outcome>, maskOf: IPv4 -> nat)
    requires |outcomes| <= |requests|
  {
    && (forall r: Line | r.Range? :: r in lines <==> WasAdded(requests, outcomes, r))
    && (forall subnet :: HasHeader(lines, subnet) <==> KnownBefore(requests, outcomes, subnet, maskOf))
  }

  /** What AddAddressRange answers on such a file. */
  lemma FileAnswers(lines: seq<Line>, requests: seq<Request>, outcomes: seq<Outcome>, q: Request, maskOf: IPv4 -> nat)
    requires |outcomes| <= |requests| && HoldsAdded(lines, requests, outcomes, maskOf) && q.count > 0
    ensures Answer(requests, outcomes, q, maskOf) ==
            if !Fits(q.ip, q.count, maskOf(q.ip)) then OutOfBounds
            else if HasHeader(lines, Subnet(q.ip, maskOf(q.ip))) then
              if exists s :: s in lines && s.Range? && Subnet(s.lo, maskOf(s.lo)) == Subnet(q.ip, maskOf(q.ip))
                             && OctetsMeet(q.ip, q.ip.(d := q.ip.d + q.count - 1), s)
              then Overlap else Added
            else if q.nextserver.None? then NoServer else Added
  {
    FileClashes(lines, requests, outcomes, q, maskOf);
    assert ClashesBefore(requests, outcomes, q, maskOf) ==> KnownBefore(requests, outcomes, Subnet(q.ip, maskOf(q.ip)), maskOf);
  }

  lemma HoldsNext(lines: seq<Line>, grown: seq<Line>, requests: seq<Request>, outcomes: seq<Outcome>, r: Outcome, maskOf: IPv4 -> nat)
    requires |outcomes| < |requests| && HoldsAdded(lines, requests, outcomes, maskOf)
    requires var q := requests[|outcomes|];
             if r == Added then AddsOnly(lines, q.Wanted(), grown) && KnowsAlso(lines, Subnet(q.ip, maskOf(q.ip)), grown)
             else grown == lines
    ensures HoldsAdded(grown, requests, outcomes + [r], maskOf)
  {
    forall s: Line | s.Range?
      ensures s in grown <==> WasAdded(requests, outcomes + [r], s)
    {
      WasAddedNext(requests, outcomes, r, s);
    }
    forall subnet
      ensures HasHeader(grown, subnet) <==> KnownBefore(requests, outcomes + [r], subnet, maskOf)
    {
      KnownNext(requests, outcomes, r, subnet, maskOf);
    }
  }

  /** Every request was answered as the requests before it decide. */
  predicate AllAnswered(requests: seq<Request>, outcomes: seq<Outcome>, maskOf: IPv4 -> nat)
    requires |outcomes| <= |requests|
  {
    outcomes == [] ||
    (var n := |outcomes| - 1;
     outcomes[n] == Answer(requests, outcomes[..n], requests[n], maskOf) && AllAnswered(requests, outcomes[..n], maskOf))
  }

  lemma AnsweredNext(requests: seq<Request>, outcomes: seq<Outcome>, r: Outcome, maskOf: IPv4 -> nat)
    requires |outcomes| < |requests| && AllAnswered(requests, outcomes, maskOf)
    requires r == Answer(requests, outcomes, requests[|outcomes|], maskOf)
    ensures AllAnswered(requests, outcomes + [r], maskOf)
  {
    assert (outcomes + [r])[..|outcomes|] == outcomes;
  }

  /** After any run of requests each was answered as those before it decide, the configured ranges are
      those of the requests that were answered with Added, they are pairwise disjoint, and each stands in
      the stanza of its own subnet. */
  method Run(base: seq<Line>, maskOf: IPv4 -> nat, requests: seq<Request>) returns (server: DHCPServer, outcomes: seq<Outcome>)
    requires ConsistentMasks(maskOf) && forall i | 0 <= i < |base| :: base[i].Other?
    requires forall q | q in requests :: q.ip.Valid() && q.count > 0
    ensures fresh(server) && server.maskOf == maskOf && Good(server.lines, maskOf)
    ensures |outcomes| == |requests| && AllAnswered(requests, outcomes, maskOf)
    ensures HoldsAdded(server.lines, requests, outcomes, maskOf)
  {
    server := new DHCPServer(base, maskOf);
    outcomes := [];
    for i := 0 to |requests|
      invariant fresh(server) && server.maskOf == maskOf && server.Valid() && |outcomes| == i
      invariant HoldsAdded(server.lines, requests, outcomes, maskOf) && AllAnswered(requests, outcomes, maskOf)
    {
      assert requests[i] in requests;
      ghost var before := server.lines;
      FileAnswers(before, requests, outcomes, requests[i], maskOf);
      var r := server.AddAddressRange(requests[i].ip, requests[i].count, requests[i].nextserver);
      HoldsNext(before, server.lines, requests, outcomes, r, maskOf);
      AnsweredNext(requests, outcomes, r, maskOf);
      outcomes := outcomes + [r];
    }
  }
}
