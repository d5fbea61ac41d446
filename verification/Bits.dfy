/** Bitwise AND on natural numbers, and on addresses octet by octet. */
module Bits {
  import opened Addresses

  /** x & y */
  function And(x: nat, y: nat): nat {
    if x == 0 || y == 0 then 0 else 2 * And(x / 2, y / 2) + (x % 2) * (y % 2)
  }

  function And4(x: IPv4, y: IPv4): IPv4 {
    IPv4(And(x.a, y.a), And(x.b, y.b), And(x.c, y.c), And(x.d, y.d))
  }

  /** y << k */
  function Shift(y: nat, k: nat): nat {
    if k == 0 then y else 2 * Shift(y, k - 1)
  }

  lemma {:induction false} AndBound(x: nat, y: nat, k: nat)
    requires x < Shift(1, k)
    ensures And(x, y) < Shift(1, k)
  {
    if x != 0 && y != 0 && k > 0 {
      AndBound(x / 2, y / 2, k - 1);
      assert (x % 2) * (y % 2) <= 1;
    }
  }

  lemma Unfold(x: nat, y: nat)
    ensures And(x, y) == 2 * And(x / 2, y / 2) + (x % 2) * (y % 2)
  {
    if x == 0 || y == 0 {
      assert And(x / 2, y / 2) == 0 && (x % 2) * (y % 2) == 0;
    }
  }

  lemma ShiftValues(y: nat)
    ensures Shift(y, 0) == y && Shift(y, 1) == 2 * y && Shift(y, 2) == 4 * y && Shift(y, 3) == 8 * y && Shift(y, 4) == 16 * y
    ensures Shift(y, 5) == 32 * y && Shift(y, 6) == 64 * y && Shift(y, 7) == 128 * y && Shift(y, 8) == 256 * y
  {
    assert Shift(y, 1) == 2 * Shift(y, 0) && Shift(y, 2) == 2 * Shift(y, 1);
    assert Shift(y, 3) == 2 * Shift(y, 2) && Shift(y, 4) == 2 * Shift(y, 3);
    assert Shift(y, 5) == 2 * Shift(y, 4) && Shift(y, 6) == 2 * Shift(y, 5);
    assert Shift(y, 7) == 2 * Shift(y, 6) && Shift(y, 8) == 2 * Shift(y, 7);
  }

  /** AND works separately on the low k bits and on the rest: u is x' over x and v is m' over m. */
  lemma {:induction false} AndSplits(x: nat, x': nat, m: nat, m': nat, u: nat, v: nat, k: nat)
    requires x < Shift(1, k) && m < Shift(1, k) && u == x + Shift(x', k) && v == m + Shift(m', k)
    ensures And(u, v) == And(x, m) + Shift(And(x', m'), k)
  {
    if k > 0 {
      assert u / 2 == x / 2 + Shift(x', k - 1) && u % 2 == x % 2;
      assert v / 2 == m / 2 + Shift(m', k - 1) && v % 2 == m % 2;
      AndSplits(x / 2, x', m / 2, m', u / 2, v / 2, k - 1);
      Unfold(u, v);
      Unfold(x, m);
    } else {
      assert x == 0 && m == 0;
    }
  }

  lemma ByteBound(x: nat, m: nat)
    requires x < 256
    ensures And(x, m) < 256
  {
    ShiftValues(1);
    AndBound(x, m, 8);
  }

  lemma ByteSplits(x: nat, x': nat, m: nat, m': nat, u: nat, v: nat)
    requires x < 256 && m < 256 && u == x' * 256 + x && v == m' * 256 + m
    ensures And(u, v) == And(x', m') * 256 + And(x, m)
    ensures And(x, m) < 256
  {
    ShiftValues(1);
    ShiftValues(x');
    ShiftValues(m');
    ShiftValues(And(x', m'));
    AndSplits(x, x', m, m', u, v, 8);
    ByteBound(x, m);
  }

  lemma WordAnd(x: IPv4, m: IPv4, u: nat, v: nat)
    requires x.Valid() && m.Valid() && u == x.Number() && v == m.Number()
    ensures And4(x, m).Valid()
    ensures And(u, v) == And4(x, m).Number()
  {
    var ab, mab := x.a * 256 + x.b, m.a * 256 + m.b;
    var abc, mabc := ab * 256 + x.c, mab * 256 + m.c;
    ByteSplits(x.a, 0, m.a, 0, x.a, m.a);
    ByteSplits(x.b, x.a, m.b, m.a, ab, mab);
    ByteSplits(x.c, ab, m.c, mab, abc, mabc);
    ByteSplits(x.d, abc, m.d, mabc, u, v);
  }

  lemma WordAndReversed(x: IPv4, m: IPv4, u: nat, v: nat)
    requires x.Valid() && m.Valid() && u == x.Reversed() && v == m.Reversed()
    ensures And(u, v) == And4(x, m).Reversed()
  {
    assert And4(Reverse(x), Reverse(m)) == Reverse(And4(x, m));
    WordAnd(Reverse(x), Reverse(m), u, v);
  }

  /** Two words built from octets have equal ANDs with a mask exactly when all four octets have,
      so the order in which the octets were packed makes no difference. */
  lemma WordsAgreeByOctets(x: IPv4, y: IPv4, m: IPv4)
    requires x.Valid() && y.Valid() && m.Valid()
    ensures And(x.Reversed(), m.Reversed()) == And(y.Reversed(), m.Reversed()) <==> And4(x, m) == And4(y, m)
    ensures And(x.Number(), m.Number()) == And(y.Number(), m.Number()) <==> And4(x, m) == And4(y, m)
  {
    WordAnd(x, m, x.Number(), m.Number());
    WordAnd(y, m, y.Number(), m.Number());
    WordAndReversed(x, m, x.Reversed(), m.Reversed());
    WordAndReversed(y, m, y.Reversed(), m.Reversed());
    NumberInjective(And4(x, m), And4(y, m));
  }

  // ----- contiguous masks ------------------------------------------------------------

  /** The number of octets that share their first k bits: 2 to the power 8 - k. */
  function Block(k: nat): (p: nat)
    requires k <= 8
    ensures 0 < p <= 256
  {
    if k == 0 then 256 else if k == 1 then 128 else if k == 2 then 64 else if k == 3 then 32 else if k == 4 then 16
    else if k == 5 then 8 else if k == 6 then 4 else if k == 7 then 2 else 1
  }

  /** Bit i of an octet, counted from the most significant. */
  function OctetBit(x: nat, i: nat): nat
    requires i < 8
  {
    x / Block(i + 1) % 2
  }

  predicate SameBits(x: nat, y: nat, k: nat)
    requires k <= 8
  {
    forall i | 0 <= i < k :: OctetBit(x, i) == OctetBit(y, i)
  }

  /** The octet whose first k bits are set. */
  function OctetMask(k: nat): (m: nat)
    requires k <= 8
    ensures m < 256
  {
    256 - Block(k)
  }

  lemma {:induction false} AndOnes(x: nat, k: nat)
    requires x < Shift(1, k)
    ensures Shift(1, k) > 0 && And(x, Shift(1, k) - 1) == x
  {
    if k > 0 {
      AndOnes(x / 2, k - 1);
      var m := Shift(1, k) - 1;
      assert m / 2 == Shift(1, k - 1) - 1 && m % 2 == 1;
      Unfold(x, m);
    }
  }

  lemma AndHigh(low: nat, high: nat, j: nat, k: nat, x: nat, m: nat)
    requires low < Shift(1, j) && high < Shift(1, k) && Shift(1, k) > 0
    requires x == low + Shift(high, j) && m == Shift(Shift(1, k) - 1, j)
    ensures And(x, m) == Shift(high, j)
  {
    AndOnes(high, k);
    AndSplits(low, high, 0, Shift(1, k) - 1, x, m, j);
  }

  /** ANDing an octet with a contiguous mask rounds it down to its block. */
  lemma AndOctetMask(x: nat, k: nat)
    requires x < 256 && k <= 8
    ensures And(x, OctetMask(k)) == Block(k) * (x / Block(k))
  {
    ShiftValues(1);
    if k == 0 {
      ShiftValues(x / 256);
      ShiftValues(0);
      AndHigh(x % 256, x / 256, 8, 0, x, OctetMask(0));
    } else if k == 1 {
      ShiftValues(x / 128);
      ShiftValues(1);
      AndHigh(x % 128, x / 128, 7, 1, x, OctetMask(1));
    } else if k == 2 {
      ShiftValues(x / 64);
      ShiftValues(3);
      AndHigh(x % 64, x / 64, 6, 2, x, OctetMask(2));
    } else if k == 3 {
      ShiftValues(x / 32);
      ShiftValues(7);
      AndHigh(x % 32, x / 32, 5, 3, x, OctetMask(3));
    } else if k == 4 {
      ShiftValues(x / 16);
      ShiftValues(15);
      AndHigh(x % 16, x / 16, 4, 4, x, OctetMask(4));
    } else if k == 5 {
      ShiftValues(x / 8);
      ShiftValues(31);
      AndHigh(x % 8, x / 8, 3, 5, x, OctetMask(5));
    } else if k == 6 {
      ShiftValues(x / 4);
      ShiftValues(63);
      AndHigh(x % 4, x / 4, 2, 6, x, OctetMask(6));
    } else if k == 7 {
      ShiftValues(x / 2);
      ShiftValues(127);
      AndHigh(x % 2, x / 2, 1, 7, x, OctetMask(7));
    } else {
      ShiftValues(x);
      ShiftValues(255);
      AndHigh(0, x, 0, 8, x, OctetMask(8));
    }
  }

  lemma NextBit(x: nat, k: nat)
    requires x < 256 && 1 <= k <= 8
    ensures x / Block(k) == 2 * (x / Block(k - 1)) + OctetBit(x, k - 1)
    ensures 0 <= OctetBit(x, k - 1) < 2
  {}

  lemma {:induction false} PrefixBits(x: nat, y: nat, k: nat)
    requires x < 256 && y < 256 && k <= 8
    ensures x / Block(k) == y / Block(k) <==> SameBits(x, y, k)
  {
    if k > 0 {
      PrefixBits(x, y, k - 1);
      NextBit(x, k);
      NextBit(y, k);
      assert SameBits(x, y, k) <==> SameBits(x, y, k - 1) && OctetBit(x, k - 1) == OctetBit(y, k - 1);
    }
  }

  lemma SameMultiple(p: nat, u: nat, v: nat)
    requires p > 0
    ensures p * u == p * v <==> u == v
  {}

  /** Octets agree under a contiguous mask exactly when their first k bits are the same. */
  lemma MaskedOctetsAgree(x: nat, y: nat, k: nat)
    requires x < 256 && y < 256 && k <= 8
    ensures And(x, OctetMask(k)) == And(y, OctetMask(k)) <==> SameBits(x, y, k)
  {
    AndOctetMask(x, k);
    AndOctetMask(y, k);
    PrefixBits(x, y, k);
    SameMultiple(Block(k), x / Block(k), y / Block(k));
  }

  lemma MulMonotone(p: nat, u: nat, v: nat)
    requires u <= v
    ensures p * u <= p * v
  {}

  lemma MulGap(p: nat, u: nat, v: nat)
    ensures u < v ==> p * u + p <= p * v
  {
    if u < v {
      MulMonotone(p, u + 1, v);
      assert p * (u + 1) == p * u + p;
    }
  }

  lemma DivMonotone(x: nat, y: nat, p: nat)
    requires x <= y && p > 0
    ensures x / p <= y / p
  {
    MulGap(p, y / p, x / p);
  }

  lemma QuotientConvex(lo: nat, v: nat, hi: nat, p: nat)
    requires lo <= v <= hi && p > 0 && lo / p == hi / p
    ensures v / p == lo / p
  {
    DivMonotone(lo, v, p);
    DivMonotone(v, hi, p);
  }

  /** A contiguous mask cuts the octets into intervals. */
  lemma MaskedOctetsConvex(lo: nat, v: nat, hi: nat, k: nat)
    requires lo <= v <= hi < 256 && k <= 8
    requires And(lo, OctetMask(k)) == And(hi, OctetMask(k))
    ensures And(v, OctetMask(k)) == And(lo, OctetMask(k))
  {
    AndOctetMask(lo, k);
    AndOctetMask(v, k);
    AndOctetMask(hi, k);
    SameMultiple(Block(k), lo / Block(k), hi / Block(k));
    QuotientConvex(lo, v, hi, Block(k));
  }
}
