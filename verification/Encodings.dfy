/** Textual encodings of addresses: checkIPv4, checkMAC and prepValuesAndRanges (verifyXML.py),
    formatValue (AI_database.py) and MACAddress (installadm_common.py). */
module Encodings {
  import opened Text
  import opened Addresses
  import opened CriteriaDatabase
  import opened PublishManifest

  // ----- zero-padded decimals -----------------------------------------------------

  function PadLeft(s: string, width: nat): string
    decreases width - |s|
  {
    if |s| >= width then s else PadLeft("0" + s, width)
  }

  /** "%w.wd" % n */
  function Padded(n: nat, width: nat): string {
    PadLeft(Decimal(n), width)
  }

  /** The last width decimal digits of n. */
  function Digits(n: nat, width: nat): (s: string)
    ensures |s| == width
    ensures s == "" || IsNumeral(s, 10)
  {
    if width == 0 then "" else Digits(n / 10, width - 1) + [DigitChar(n % 10)]
  }

  lemma {:induction false} PadLeftAppend(s: string, c: char, width: nat)
    requires width > 0
    ensures PadLeft(s + [c], width) == PadLeft(s, width - 1) + [c]
    decreases width - |s|
  {
    if |s| + 1 < width {
      assert "0" + (s + [c]) == "0" + s + [c];
      PadLeftAppend("0" + s, c, width);
    }
  }

  lemma {:induction false} ZerosAreDigits(width: nat)
    ensures PadLeft("", width) == Digits(0, width)
  {
    if width > 0 {
      PadLeftAppend("", '0', width);
      assert PadLeft("", width) == PadLeft("0" + "", width);
      assert "0" + "" == "" + ['0'];
      ZerosAreDigits(width - 1);
    }
  }

  lemma {:induction false} PaddedIsDigits(n: nat, width: nat)
    requires n < Pow(10, width) && width > 0
    ensures Padded(n, width) == Digits(n, width)
  {
    if n >= 10 {
      assert Pow(10, 0) == 1 && Pow(10, 1) == 10;
      assert Pow(10, width) == 10 * Pow(10, width - 1);
      PaddedIsDigits(n / 10, width - 1);
      PadLeftAppend(Decimal(n / 10), DigitChar(n % 10), width);
    } else {
      PadLeftAppend("", DigitChar(n), width);
      assert "" + [DigitChar(n)] == [DigitChar(n)];
      ZerosAreDigits(width - 1);
    }
  }

  lemma {:induction false} DigitsValue(n: nat, width: nat)
    requires n < Pow(10, width)
    ensures Value(Digits(n, width), 10) == n
  {
    if width > 0 {
      DigitsValue(n / 10, width - 1);
      var s := Digits(n, width);
      assert s[..width - 1] == Digits(n / 10, width - 1);
    }
  }

  lemma DigitsAppend(n: nat, d: nat, m: nat, width: nat)
    requires d < 10 && m == n * 10 + d
    ensures Digits(m, width + 1) == Digits(n, width) + [DigitChar(d)]
  {
    assert m / 10 == n && m % 10 == d;
  }

  lemma DigitsAppendThree(x: nat, p: nat, q: nat, r: nat, n: nat, width: nat)
    requires p < 10 && q < 10 && r < 10 && n == x * 1000 + p * 100 + q * 10 + r
    ensures Digits(n, width + 3) == Digits(x, width) + [DigitChar(p)] + [DigitChar(q)] + [DigitChar(r)]
  {
    var n1 := x * 10 + p;
    var n2 := n1 * 10 + q;
    DigitsAppend(x, p, n1, width);
    DigitsAppend(n1, q, n2, width + 1);
    DigitsAppend(n2, r, n, width + 2);
  }

  /** The digits of a number made of a head and a three-digit tail. */
  lemma DigitsOfGroups(x: nat, y: nat, n: nat, width: nat)
    requires y < 1000 && n == x * 1000 + y
    ensures Digits(n, width + 3) == Digits(x, width) + Digits(y, 3)
  {
    var p, q, r := y / 100, y / 10 % 10, y % 10;
    assert y == p * 100 + q * 10 + r && p < 10;
    DigitsAppendThree(x, p, q, r, n, width);
    DigitsAppendThree(0, p, q, r, y, 0);
    assert Digits(0, 0) == "";
  }

  // ----- IPv4 ---------------------------------------------------------------------

  /** The integer that the twelve padded digits denote. */
  function Code(ip: IPv4): nat {
    ((ip.a * 1000 + ip.b) * 1000 + ip.c) * 1000 + ip.d
  }

  /** What checkIPv4 returns: every octet padded to three digits. */
  function Encoded(ip: IPv4): (s: string)
    ensures |s| == 12 && IsNumeral(s, 10)
  {
    Digits(ip.a, 3) + Digits(ip.b, 3) + Digits(ip.c, 3) + Digits(ip.d, 3)
  }

  function Dotted(ip: IPv4): string {
    Decimal(ip.a) + "." + Decimal(ip.b) + "." + Decimal(ip.c) + "." + Decimal(ip.d)
  }

  predicate DecimalOctet(v: string) {
    IsNumeral(v, 10) && Value(v, 10) <= 255
  }

  function ParseIPv4(s: string): (r: Option<IPv4>)
    ensures r.Some? ==> r.value.Valid()
  {
    var v := SplitOn(s, '.');
    if |v| != 4 || !(forall i | 0 <= i < 4 :: DecimalOctet(v[i])) then None
    else Some(IPv4(Value(v[0], 10), Value(v[1], 10), Value(v[2], 10), Value(v[3], 10)))
  }

  /** Each of the first i fields padded to three digits. */
  function PaddedFields(values: seq<string>, i: nat): string
    requires i <= |values|
  {
    if i == 0 then "" else PaddedFields(values, i - 1) + Digits(Value(values[i - 1], 10), 3)
  }

  lemma TenToTheTwelve()
    ensures Pow(10, 3) == 1000 && Pow(10, 12) == 1000000000000
  {
    assert Pow(10, 3) == 1000 by { assert Pow(10, 2) == 10 * Pow(10, 1); }
    assert Pow(10, 6) == 1000000 by { assert Pow(10, 4) == 10 * Pow(10, 3); assert Pow(10, 5) == 10 * Pow(10, 4); }
    assert Pow(10, 9) == 1000000000 by { assert Pow(10, 7) == 10 * Pow(10, 6); assert Pow(10, 8) == 10 * Pow(10, 7); }
    assert Pow(10, 12) == 1000000000000 by { assert Pow(10, 10) == 10 * Pow(10, 9); assert Pow(10, 11) == 10 * Pow(10, 10); }
  }

  lemma ThreeDigits(n: nat)
    requires n < 1000
    ensures Padded(n, 3) == Digits(n, 3)
    ensures Value(Digits(n, 3), 10) == n
  {
    TenToTheTwelve();
    PaddedIsDigits(n, 3);
    DigitsValue(n, 3);
  }

  lemma NotAnOctet(value: string, i: nat)
    requires |SplitOn(value, '.')| == 4 && i < 4 && !DecimalOctet(SplitOn(value, '.')[i])
    ensures ParseIPv4(value).None?
  {}

  lemma FourFields(values: seq<string>)
    requires |values| == 4
    ensures PaddedFields(values, 4) ==
            Encoded(IPv4(Value(values[0], 10), Value(values[1], 10), Value(values[2], 10), Value(values[3], 10)))
  {
    assert PaddedFields(values, 2) == PaddedFields(values, 1) + Digits(Value(values[1], 10), 3);
    assert PaddedFields(values, 1) == Digits(Value(values[0], 10), 3);
  }

  lemma ParsedFields(value: string)
    requires |SplitOn(value, '.')| == 4 && forall k | 0 <= k < 4 :: DecimalOctet(SplitOn(value, '.')[k])
    ensures ParseIPv4(value).Some? && PaddedFields(SplitOn(value, '.'), 4) == Encoded(ParseIPv4(value).value)
  {
    FourFields(SplitOn(value, '.'));
  }

  method CheckIPv4(value: string) returns (r: Option<string>)
    ensures r == match ParseIPv4(value) { case None => None case Some(ip) => Some(Encoded(ip)) }
  {
    var newval := "";
    var values := SplitOn(value, '.');
    if |values| != 4 {
      return None;
    }
    for i := 0 to 4
      invariant forall k | 0 <= k < i :: DecimalOctet(values[k])
      invariant newval == PaddedFields(values, i)
    {
      if !DecimalOctet(values[i]) {
        NotAnOctet(value, i);
        return None;
      }
      var ivalue := Value(values[i], 10);
      ThreeDigits(ivalue);
      newval := newval + Padded(ivalue, 3);
    }
    ParsedFields(value);
    r := Some(newval);
  }

  /** The encoding is the code padded to twelve digits, and reads back as the code. */
  lemma EncodedIsCode(ip: IPv4)
    requires ip.Valid()
    ensures Encoded(ip) == Padded(Code(ip), |Encoded(ip)|)
    ensures Value(Encoded(ip), 10) == Code(ip)
  {
    var width := |Encoded(ip)|;
    var ab := ip.a * 1000 + ip.b;
    var abc := ab * 1000 + ip.c;
    DigitsOfGroups(ip.a, ip.b, ab, 3);
    DigitsOfGroups(ab, ip.c, abc, 6);
    DigitsOfGroups(abc, ip.d, Code(ip), 9);
    TenToTheTwelve();
    DigitsValue(Code(ip), width);
    PaddedIsDigits(Code(ip), width);
  }

  lemma CodeHeadDecides(x: nat, a: nat, y: nat, b: nat)
    requires a < 256 && b < 256
    ensures x * 1000 + a <= y * 1000 + b <==> x < y || (x == y && a <= b)
    ensures x * 1000 + a == y * 1000 + b <==> x == y && a == b
  {}

  /** Comparing stored codes is comparing addresses. */
  lemma CodeOrder(x: IPv4, y: IPv4)
    requires x.Valid() && y.Valid()
    ensures Code(x) <= Code(y) <==> x.Number() <= y.Number()
    ensures Code(x) == Code(y) <==> x == y
  {
    NumberOrder(x, y);
    CodeHeadDecides(x.a, x.b, y.a, y.b);
    CodeHeadDecides(x.a * 1000 + x.b, x.c, y.a * 1000 + y.b, y.c);
    CodeHeadDecides((x.a * 1000 + x.b) * 1000 + x.c, x.d, (y.a * 1000 + y.b) * 1000 + y.c, y.d);
  }

  function FormatGroups(s: string): string {
    if |s| < 12 then s
    else Dotted(IPv4(Value(s[0..3], 10), Value(s[3..6], 10), Value(s[6..9], 10), Value(s[9..12], 10)))
  }

  /** formatValue for an ipv4 or network column, whose stored value is an integer. */
  function FormatIPv4(value: nat): string {
    if value == 0 then Decimal(value) else FormatGroups(Padded(value, 12))
  }

  lemma GroupsOfEncoded(ip: IPv4)
    requires ip.Valid()
    ensures FormatGroups(Encoded(ip)) == Dotted(ip)
  {
    var s := Encoded(ip);
    assert s[0..3] == Digits(ip.a, 3) && s[3..6] == Digits(ip.b, 3) && s[6..9] == Digits(ip.c, 3) && s[9..12] == Digits(ip.d, 3);
    ThreeDigits(ip.a);
    ThreeDigits(ip.b);
    ThreeDigits(ip.c);
    ThreeDigits(ip.d);
  }

  lemma FormatCode(ip: IPv4)
    requires ip.Valid()
    ensures FormatIPv4(Code(ip)) == if Code(ip) == 0 then "0" else Dotted(ip)
  {
    EncodedIsCode(ip);
    GroupsOfEncoded(ip);
  }

  lemma DottedIsLong(ip: IPv4)
    ensures |Dotted(ip)| > 1
  {}

  lemma DottedIsJoin(ip: IPv4)
    ensures Dotted(ip) == JoinOn([Decimal(ip.a), Decimal(ip.b), Decimal(ip.c), Decimal(ip.d)], '.')
  {
    var d := Decimal(ip.d);
    assert JoinOn([d], '.') == d;
    var cd := Decimal(ip.c) + "." + d;
    assert JoinOn([Decimal(ip.c), d], '.') == cd;
    var bcd := Decimal(ip.b) + "." + cd;
    assert [Decimal(ip.b), Decimal(ip.c), d][1..] == [Decimal(ip.c), d];
    assert JoinOn([Decimal(ip.b), Decimal(ip.c), d], '.') == bcd;
    assert [Decimal(ip.a), Decimal(ip.b), Decimal(ip.c), d][1..] == [Decimal(ip.b), Decimal(ip.c), d];
  }

  lemma ParseDotted(ip: IPv4)
    requires ip.Valid()
    ensures ParseIPv4(Dotted(ip)) == Some(ip)
  {
    var v := [Decimal(ip.a), Decimal(ip.b), Decimal(ip.c), Decimal(ip.d)];
    assert forall i | 0 <= i < 4 :: '.' !in v[i] by {
      forall i, k | 0 <= i < 4 && 0 <= k < |v[i]|
        ensures v[i][k] != '.'
      {
        assert IsNumeral(v[i], 10);
        assert DigitOf(v[i][k]) < 10;
      }
    }
    DottedIsJoin(ip);
    SplitOnJoinOn(v, '.');
    DecimalValue(ip.a);
    DecimalValue(ip.b);
    DecimalValue(ip.c);
    DecimalValue(ip.d);
  }

  /** The integer stored for an address, leading zeros lost, formats back to the dotted address --
      for every address but 0.0.0.0, which formats as "0". */
  lemma FormatInvertsCheck(ip: IPv4)
    requires ip.Valid()
    ensures FormatIPv4(Value(Encoded(ip), 10)) == Dotted(ip) <==> ip != IPv4(0, 0, 0, 0)
    ensures ParseIPv4(Dotted(ip)) == Some(ip)
  {
    ParseDotted(ip);
    EncodedIsCode(ip);
    FormatCode(ip);
    DottedIsLong(ip);
  }

  // ----- MAC ----------------------------------------------------------------------

  function Pairs(s: string): seq<string> {
    if |s| < 2 then [] else [s[..2]] + Pairs(s[2..])
  }

  function Concat(words: seq<string>): string {
    if words == [] then "" else words[0] + Concat(words[1..])
  }

  /** value.upper().zfill(2) */
  function Octet(value: string): string {
    PadLeft(Upper(value), 2)
  }

  function Octets(values: seq<string>): (r: seq<string>)
    ensures |r| == |values|
  {
    seq(|values|, i requires 0 <= i < |values| => Octet(values[i]))
  }

  predicate ValidOctets(values: seq<string>) {
    |values| == 6 && forall i | 0 <= i < 6 :: 1 <= |values[i]| <= 2 && IsNumeral(values[i], 16)
  }

  function MacFields(mac: string): seq<string> {
    if ':' in mac then SplitOn(mac, ':')
    else if '-' in mac then SplitOn(mac, '-')
    else if |mac| != 12 then []
    else Pairs(mac)
  }

  /** MACAddress(mac): six upper-case octets of two digits, or None for MACAddressError. */
  function MACAddress(mac: string): Option<seq<string>> {
    if ValidOctets(MacFields(mac)) then Some(Octets(MacFields(mac))) else None
  }

  function FormatMac(value: string): string
    requires |value| >= 12
  {
    value[0..2] + ":" + value[2..4] + ":" + value[4..6] + ":" + value[6..8] + ":" + value[8..10] + ":" + value[10..12]
  }

  lemma PadTwo(s: string)
    requires 1 <= |s| <= 2
    ensures PadLeft(s, 2) == if |s| == 1 then "0" + s else s
  {
    assert |s| == 1 ==> PadLeft(s, 2) == PadLeft("0" + s, 2);
  }

  lemma OctetFacts(v: string)
    requires 1 <= |v| <= 2 && IsNumeral(v, 16)
    ensures |Octet(v)| == 2 && IsNumeral(Octet(v), 16) && Octet(Octet(v)) == Octet(v) && IsUpperHex(Octet(v))
    ensures ':' !in v && '-' !in v && ':' !in Octet(v) && '-' !in Octet(v)
  {
    assert forall i | 0 <= i < |v| :: DigitOf(v[i]) < 16;
    PadTwo(Upper(v));
    assert Upper(Octet(v)) == Octet(v);
    PadTwo(Octet(v));
  }

  lemma JoinContains(values: seq<string>, sep: char, other: char)
    requires |values| >= 2 && sep != other && forall i | 0 <= i < |values| :: other !in values[i]
    ensures sep in JoinOn(values, sep) && other !in JoinOn(values, sep)
  {
    if |values| > 2 {
      JoinContains(values[1..], sep, other);
    } else {
      assert JoinOn(values[1..], sep) == values[1];
    }
  }

  /** Colon and dash forms of six fields parse to the same canonical octets. */
  lemma DelimitedForms(values: seq<string>)
    requires ValidOctets(values)
    ensures MACAddress(JoinOn(values, ':')) == Some(Octets(values))
    ensures MACAddress(JoinOn(values, '-')) == Some(Octets(values))
  {
    forall i | 0 <= i < 6
      ensures ':' !in values[i] && '-' !in values[i]
    {
      OctetFacts(values[i]);
    }
    JoinContains(values, ':', '-');
    JoinContains(values, '-', ':');
    SplitOnJoinOn(values, ':');
    SplitOnJoinOn(values, '-');
  }

  lemma {:induction false} PairsOfConcat(words: seq<string>)
    requires forall w | w in words :: |w| == 2
    ensures Pairs(Concat(words)) == words && |Concat(words)| == 2 * |words|
  {
    if words != [] {
      PairsOfConcat(words[1..]);
      assert Concat(words)[..2] == words[0] && Concat(words)[2..] == Concat(words[1..]);
    }
  }

  lemma {:induction false} ConcatMember(words: seq<string>, c: char)
    requires forall w | w in words :: c !in w
    ensures c !in Concat(words)
  {
    if words != [] {
      ConcatMember(words[1..], c);
    }
  }

  lemma {:induction false} LowerConcatAll(words: seq<string>, lowered: seq<string>)
    requires |words| == |lowered| && forall i | 0 <= i < |words| :: lowered[i] == Lower(words[i])
    ensures Lower(Concat(words)) == Concat(lowered)
  {
    if words != [] {
      LowerConcatAll(words[1..], lowered[1..]);
      LowerConcat(words[0], Concat(words[1..]));
    }
  }

  lemma LowerForm(octets: seq<string>)
    requires ValidOctets(octets) && forall i | 0 <= i < 6 :: |octets[i]| == 2 && Octet(octets[i]) == octets[i]
    ensures MACAddress(Lower(Concat(octets))) == Some(octets)
  {
    var lowered := seq(6, i requires 0 <= i < 6 => Lower(octets[i]));
    forall i | 0 <= i < 6
      ensures |lowered[i]| == 2 && IsNumeral(lowered[i], 16) && Octet(lowered[i]) == octets[i]
      ensures ':' !in lowered[i] && '-' !in lowered[i]
    {
      assert forall k | 0 <= k < 2 :: DigitOf(octets[i][k]) < 16;
      assert Octet(lowered[i]) == Upper(Lower(octets[i]));
      assert Octet(octets[i]) == Upper(octets[i]);
    }
    LowerConcatAll(octets, lowered);
    PairsOfConcat(lowered);
    ConcatMember(lowered, ':');
    ConcatMember(lowered, '-');
    assert Octets(lowered) == octets;
  }

  lemma SlicesOfSix(o0: string, o1: string, o2: string, o3: string, o4: string, o5: string)
    requires |o0| == |o1| == |o2| == |o3| == |o4| == |o5| == 2
    ensures FormatMac(o0 + o1 + o2 + o3 + o4 + o5) == o0 + ":" + o1 + ":" + o2 + ":" + o3 + ":" + o4 + ":" + o5
  {
    var s := o0 + o1 + o2 + o3 + o4 + o5;
    assert s[0..2] == o0 && s[2..4] == o1 && s[4..6] == o2 && s[6..8] == o3 && s[8..10] == o4 && s[10..12] == o5;
  }

  lemma ConcatSix(o0: string, o1: string, o2: string, o3: string, o4: string, o5: string)
    ensures Concat([o0, o1, o2, o3, o4, o5]) == o0 + o1 + o2 + o3 + o4 + o5
  {
    assert Concat([o5]) == o5 by { assert [o5][1..] == []; }
    assert Concat([o4, o5]) == o4 + o5 by { assert [o4, o5][1..] == [o5]; }
    assert Concat([o2, o3, o4, o5]) == o2 + (o3 + Concat([o4, o5])) by {
      assert [o2, o3, o4, o5][1..] == [o3, o4, o5];
      assert [o3, o4, o5][1..] == [o4, o5];
    }
    assert [o0, o1, o2, o3, o4, o5][1..] == [o1, o2, o3, o4, o5] && [o1, o2, o3, o4, o5][1..] == [o2, o3, o4, o5];
  }

  lemma JoinSix(o0: string, o1: string, o2: string, o3: string, o4: string, o5: string)
    ensures JoinOn([o0, o1, o2, o3, o4, o5], ':') == o0 + ":" + o1 + ":" + o2 + ":" + o3 + ":" + o4 + ":" + o5
  {
    assert JoinOn([o4, o5], ':') == o4 + ":" + o5;
    assert JoinOn([o2, o3, o4, o5], ':') == o2 + ":" + (o3 + ":" + JoinOn([o4, o5], ':')) by {
      assert [o2, o3, o4, o5][1..] == [o3, o4, o5];
      assert [o3, o4, o5][1..] == [o4, o5];
    }
    assert [o0, o1, o2, o3, o4, o5][1..] == [o1, o2, o3, o4, o5] && [o1, o2, o3, o4, o5][1..] == [o2, o3, o4, o5];
  }

  lemma FormatIsJoin(octets: seq<string>)
    requires |octets| == 6 && forall i | 0 <= i < 6 :: |octets[i]| == 2
    ensures |Concat(octets)| == 12 && FormatMac(Concat(octets)) == JoinOn(octets, ':')
  {
    var o0, o1, o2, o3, o4, o5 := octets[0], octets[1], octets[2], octets[3], octets[4], octets[5];
    assert octets == [o0, o1, o2, o3, o4, o5];
    ConcatSix(o0, o1, o2, o3, o4, o5);
    JoinSix(o0, o1, o2, o3, o4, o5);
    SlicesOfSix(o0, o1, o2, o3, o4, o5);
  }

  lemma CanonicalOctets(mac: string)
    requires MACAddress(mac).Some?
    ensures forall i | 0 <= i < 6 :: |MACAddress(mac).value[i]| == 2
  {
    forall i | 0 <= i < 6
      ensures |MACAddress(mac).value[i]| == 2
    {
      OctetFacts(MacFields(mac)[i]);
    }
  }

  /** The undelimited text of a parsed address parses to the same octets, and so does the colon
      form that formatValue makes of it. */
  lemma CanonicalFormIsStable(mac: string)
    requires MACAddress(mac).Some?
    ensures var octets := MACAddress(mac).value;
            && |Concat(octets)| == 12
            && MACAddress(Concat(octets)) == Some(octets)
            && MACAddress(Lower(Concat(octets))) == Some(octets)
            && FormatMac(Concat(octets)) == JoinOn(octets, ':')
            && MACAddress(FormatMac(Concat(octets))) == Some(octets)
  {
    var fields := MacFields(mac);
    var octets := Octets(fields);
    forall i | 0 <= i < 6
      ensures |octets[i]| == 2 && IsNumeral(octets[i], 16) && Octet(octets[i]) == octets[i]
      ensures ':' !in octets[i] && '-' !in octets[i]
    {
      OctetFacts(fields[i]);
    }
    PairsOfConcat(octets);
    ConcatMember(octets, ':');
    ConcatMember(octets, '-');
    assert Octets(octets) == octets;
    LowerForm(octets);
    FormatIsJoin(octets);
    DelimitedForms(octets);
  }

  // ----- which texts are addresses ----------------------------------------------------------

  predicate SixFields(fields: seq<string>) {
    |fields| == 6 && forall i | 0 <= i < 6 :: (|fields[i]| == 1 || |fields[i]| == 2) && IsNumeral(fields[i], 16)
  }

  /** The fields behind each other, with colons, dashes, or nothing between fields of two digits. */
  predicate Spells(mac: string, fields: seq<string>) {
    mac == JoinOn(fields, ':') || mac == JoinOn(fields, '-') || (mac == Concat(fields) && forall i | 0 <= i < |fields| :: |fields[i]| == 2)
  }

  lemma {:induction false} ConcatOfPairs(s: string)
    requires |s| % 2 == 0
    ensures Concat(Pairs(s)) == s && |Pairs(s)| == |s| / 2 && forall i | 0 <= i < |Pairs(s)| :: |Pairs(s)[i]| == 2
  {
    if |s| >= 2 {
      ConcatOfPairs(s[2..]);
      assert s == s[..2] + s[2..];
    }
  }

  lemma SpelledIsParsed(mac: string, fields: seq<string>)
    requires SixFields(fields) && Spells(mac, fields)
    ensures MACAddress(mac) == Some(Octets(fields))
  {
    if mac == JoinOn(fields, ':') || mac == JoinOn(fields, '-') {
      DelimitedForms(fields);
    } else {
      forall i | 0 <= i < 6
        ensures ':' !in fields[i] && '-' !in fields[i]
      {
        OctetFacts(fields[i]);
      }
      PairsOfConcat(fields);
      ConcatMember(fields, ':');
      ConcatMember(fields, '-');
    }
  }

  /** A text is an address exactly if it spells six fields of one or two hexadecimal digits. */
  lemma MacExactly(mac: string)
    ensures MACAddress(mac).Some? <==> exists fields :: SixFields(fields) && Spells(mac, fields)
  {
    if MACAddress(mac).Some? {
      var fields := MacFields(mac);
      JoinOnSplitOn(mac, ':');
      JoinOnSplitOn(mac, '-');
      if ':' !in mac && '-' !in mac {
        ConcatOfPairs(mac);
      }
      assert SixFields(fields) && Spells(mac, fields);
    }
    if fields :| SixFields(fields) && Spells(mac, fields) {
      SpelledIsParsed(mac, fields);
    }
  }

  predicate FourOctets(fields: seq<string>) {
    |fields| == 4 && forall i | 0 <= i < 4 :: IsNumeral(fields[i], 10) && Value(fields[i], 10) < 256
  }

  /** A text is a dotted address exactly if it is four decimal fields below 256 with dots between. */
  lemma DottedExactly(s: string, ip: IPv4)
    ensures ParseIPv4(s) == Some(ip) <==>
            exists v :: FourOctets(v) && s == JoinOn(v, '.')
                        && ip == IPv4(Value(v[0], 10), Value(v[1], 10), Value(v[2], 10), Value(v[3], 10))
  {
    if ParseIPv4(s) == Some(ip) {
      JoinOnSplitOn(s, '.');
      assert FourOctets(SplitOn(s, '.'));
    }
    if v :| FourOctets(v) && s == JoinOn(v, '.') && ip == IPv4(Value(v[0], 10), Value(v[1], 10), Value(v[2], 10), Value(v[3], 10)) {
      forall w | w in v
        ensures '.' !in w
      {
        assert forall k | 0 <= k < |w| :: DigitOf(w[k]) < 10;
      }
      SplitOnJoinOn(v, '.');
    }
  }

  // ----- the number of an address ------------------------------------------------------

  lemma PaddedValue(v: string)
    requires |v| == 1
    ensures Value("0" + v, 16) == Value(v, 16)
  {
    assert ("0" + v)[..1] == "0" && "0"[..0] == "" && v[..0] == "";
    assert Value("0", 16) == Value("", 16) * 16 + DigitOf('0') == 0;
  }

  /** A field keeps its value in upper case and padded. */
  lemma OctetValue(v: string)
    requires 1 <= |v| <= 2 && IsNumeral(v, 16)
    ensures Value(Octet(v), 16) == Value(v, 16) < 256
  {
    UpperValue(v, 16);
    PadTwo(Upper(v));
    if |v| == 1 {
      PaddedValue(Upper(v));
    }
    ValueBound(v, 16);
    assert Pow(16, 2) == 16 * Pow(16, 1) && Pow(16, 1) == 16 * Pow(16, 0);
  }

  /** Each octet of a parsed address has the value of its field. */
  lemma OctetsKeepValues(mac: string)
    requires MACAddress(mac).Some?
    ensures |MacFields(mac)| == |MACAddress(mac).value| == 6
    ensures forall i | 0 <= i < 6 :: Value(MACAddress(mac).value[i], 16) == Value(MacFields(mac)[i], 16) < 256
  {
    forall i | 0 <= i < 6
      ensures Value(MACAddress(mac).value[i], 16) == Value(MacFields(mac)[i], 16) < 256
    {
      OctetValue(MacFields(mac)[i]);
    }
  }

  /** The 48-bit number of six fields. */
  function MacNumber(fields: seq<string>): nat {
    if fields == [] then 0 else MacNumber(fields[..|fields| - 1]) * 256 + Value(fields[|fields| - 1], 16)
  }

  lemma {:induction false} SameFieldsSameNumber(a: seq<string>, b: seq<string>)
    requires |a| == |b| && forall i | 0 <= i < |a| :: Value(a[i], 16) == Value(b[i], 16)
    ensures MacNumber(a) == MacNumber(b)
  {
    if a != [] {
      SameFieldsSameNumber(a[..|a| - 1], b[..|b| - 1]);
    }
  }

  lemma {:induction false} ConcatLast(words: seq<string>, last: string)
    ensures Concat(words + [last]) == Concat(words) + last
  {
    if words == [] {
      assert [last][1..] == [] && [] + [last] == [last];
      assert Concat([last]) == last + Concat([]) == last;
    } else {
      ConcatLast(words[1..], last);
      assert (words + [last])[1..] == words[1..] + [last];
    }
  }

  lemma AppendTwoDigits(s: string, two: string)
    requires |two| == 2
    ensures Value(s + two, 16) == Value(s, 16) * 256 + Value(two, 16)
  {
    var t := s + [two[0]];
    assert (s + two)[..|s| + 1] == t && t[..|s|] == s;
    assert two[..1] == [two[0]] && two[..1][..0] == "";
    assert Value(two, 16) == Value(two[..1], 16) * 16 + DigitOf(two[1]);
    assert Value(two[..1], 16) == DigitOf(two[0]);
  }

  lemma {:induction false} ConcatNumber(octets: seq<string>)
    requires forall i | 0 <= i < |octets| :: |octets[i]| == 2
    ensures Value(Concat(octets), 16) == MacNumber(octets)
  {
    if octets != [] {
      var n := |octets| - 1;
      ConcatNumber(octets[..n]);
      ConcatLast(octets[..n], octets[n]);
      assert octets[..n] + [octets[n]] == octets;
      AppendTwoDigits(Concat(octets[..n]), octets[n]);
    }
  }

  // ----- prepValuesAndRanges --------------------------------------------------------

  /** One ai_criteria element: a <value> or a <range> with its whitespace-separated words. */
  datatype Element = Element(name: string, isRange: bool, words: seq<string>)

  /** What the XML schema admits: words, and two of them in a range. */
  predicate SchemaValid(e: Element) {
    && e.words != [] && (forall w | w in e.words :: IsWord(w))
    && (e.isRange ==> |e.words| == 2)
  }

  /** The prepared form of one bound: an address as its code, a mac as its twelve digits, anything
      else as it is. */
  function PreparedForm(crit: string, word: string): Option<string> {
    if Lower(word) == "unbounded" then Some("unbounded")
    else if crit == "mac" then
      match MACAddress(word) { case None => None case Some(octets) => Some(Lower(Concat(octets))) }
    else if crit == "ipv4" || crit == "network" then
      match ParseIPv4(word) { case None => None case Some(ip) => Some(Encoded(ip)) }
    else Some(word)
  }

  /** A prepared mac bound denotes the number of the six fields, a prepared address bound the code of
      the four. */
  lemma PreparedNumber(crit: string, word: string)
    requires PreparedForm(crit, word).Some? && Lower(word) != "unbounded"
    ensures crit == "mac" ==>
              |MacFields(word)| == 6 && Value(PreparedForm(crit, word).value, 16) == MacNumber(MacFields(word))
    ensures crit == "ipv4" || crit == "network" ==>
              ParseIPv4(word).Some? && Value(PreparedForm(crit, word).value, 10) == Code(ParseIPv4(word).value)
  {
    assert "mac"[0] != "ipv4"[0] && "mac"[0] != "network"[0];
    if crit == "mac" {
      var octets := MACAddress(word).value;
      OctetsKeepValues(word);
      CanonicalOctets(word);
      SameFieldsSameNumber(octets, MacFields(word));
      ConcatNumber(octets);
      LowerValue(Concat(octets), 16);
    } else if crit == "ipv4" || crit == "network" {
      EncodedIsCode(ParseIPv4(word).value);
    }
  }

  lemma {:induction false} ConcatNumeral(words: seq<string>)
    requires words != [] && forall w | w in words :: IsNumeral(w, 16)
    ensures IsNumeral(Concat(words), 16)
  {
    if |words| == 1 {
      assert Concat(words[1..]) == "";
      assert Concat(words) == words[0] + "" == words[0];
    } else {
      ConcatNumeral(words[1..]);
      var head, tail := words[0], Concat(words[1..]);
      assert IsNumeral(head, 16);
      assert Concat(words) == head + tail;
    }
  }

  lemma LowerMacIsPrepared(mac: string)
    requires MACAddress(mac).Some?
    ensures PreparedBound("mac", Lower(Concat(MACAddress(mac).value)))
  {
    var fields := MacFields(mac);
    var octets := Octets(fields);
    forall i | 0 <= i < 6
      ensures IsNumeral(octets[i], 16) && |octets[i]| == 2
    {
      OctetFacts(fields[i]);
    }
    PairsOfConcat(octets);
    ConcatNumeral(octets);
    var s := Concat(octets);
    forall i | 0 <= i < 12
      ensures DigitOf(Lower(s)[i]) < 16 && !IsSpace(Lower(s)[i])
    {
      assert DigitOf(s[i]) < 16;
    }
  }

  method PrepBound(crit: string, word: string) returns (r: Option<string>)
    requires IsWord(word)
    ensures r == PreparedForm(crit, word)
    ensures r.Some? ==> PreparedBound(crit, r.value)
    ensures r.Some? && Lower(word) != "unbounded" && crit == "mac" ==> Value(r.value, 16) == MacNumber(MacFields(word))
    ensures r.Some? && Lower(word) != "unbounded" && (crit == "ipv4" || crit == "network") ==>
              ParseIPv4(word).Some? && Value(r.value, 10) == Code(ParseIPv4(word).value)
  {
    if PreparedForm(crit, word).Some? && Lower(word) != "unbounded" {
      PreparedNumber(crit, word);
    }
    assert "mac"[0] != "ipv4"[0] && "mac"[0] != "network"[0];
    if Lower(word) == "unbounded" {
      r := Some(Lower(word));
      assert IsWord("unbounded");
    } else if crit == "ipv4" || crit == "network" {
      r := CheckIPv4(word);
      if r.Some? {
        assert forall i | 0 <= i < 12 :: DigitOf(r.value[i]) < 10 ==> !IsSpace(r.value[i]);
      }
    } else if crit == "mac" {
      var mac := MACAddress(word);
      if mac.None? {
        return None;
      }
      CanonicalFormIsStable(word);
      r := Some(Lower(Concat(mac.value)));
      LowerMacIsPrepared(word);
    } else {
      r := Some(word);
    }
  }

  /** Several values for a range criterion, a range for a value criterion, or a bound without a
      prepared form. */
  predicate Refused(cols: seq<Column>, e: Element)
    requires SchemaValid(e)
  {
    var name := Lower(e.name);
    if MinOf(name) !in cols then e.isRange
    else
      || (!e.isRange && |e.words| > 1)
      || PreparedForm(name, e.words[0]).None?
      || (e.isRange && PreparedForm(name, e.words[1]).None?)
  }

  /** A single value of a range criterion becomes the range from it to itself. */
  predicate PreparedAs(cols: seq<Column>, e: Element, c: Criterion)
    requires SchemaValid(e)
  {
    && c.name == Lower(e.name)
    && if MinOf(c.name) !in cols then c.values == e.words
       else
         && |c.values| == 2
         && PreparedForm(c.name, e.words[0]) == Some(c.values[0])
         && PreparedForm(c.name, e.words[if e.isRange then 1 else 0]) == Some(c.values[1])
  }

  method PrepValuesAndRanges(cols: seq<Column>, elements: seq<Element>) returns (r: Option<Criteria>)
    requires forall k | 0 <= k < |elements| :: SchemaValid(elements[k])
    ensures r.None? <==> exists k :: 0 <= k < |elements| && Refused(cols, elements[k])
    ensures r.Some? ==> |r.value| == |elements| && Prepared(cols, r.value)
    ensures r.Some? ==> forall k | 0 <= k < |elements| :: PreparedAs(cols, elements[k], r.value[k])
  {
    var criteria: Criteria := [];
    for k := 0 to |elements|
      invariant |criteria| == k && Prepared(cols, criteria)
      invariant forall i | 0 <= i < k :: !Refused(cols, elements[i]) && PreparedAs(cols, elements[i], criteria[i])
    {
      var e := elements[k];
      var name := Lower(e.name);
      var ranged := MinOf(name) in cols;
      if (!e.isRange && |e.words| > 1 && ranged) || (e.isRange && !ranged) {
        assert Refused(cols, elements[k]);
        return None;
      }
      var values := e.words;
      if ranged {
        var lo := PrepBound(name, e.words[0]);
        if lo.None? {
          assert Refused(cols, elements[k]);
          return None;
        }
        if !e.isRange {
          values := [lo.value, lo.value];
        } else {
          var hi := PrepBound(name, e.words[1]);
          if hi.None? {
            assert Refused(cols, elements[k]);
            return None;
          }
          values := [lo.value, hi.value];
        }
      }
      criteria := criteria + [Criterion(name, values)];
    }
    r := Some(criteria);
  }
}
