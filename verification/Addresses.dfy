/** IPv4 addresses as four octets, and their two readings as 32-bit numbers. */
module Addresses {
  datatype IPv4 = IPv4(a: nat, b: nat, c: nat, d: nat) {
    predicate Valid() {
      a < 256 && b < 256 && c < 256 && d < 256
    }

    /** Network byte order. */
    function Number(): nat {
      ((a * 256 + b) * 256 + c) * 256 + d
    }

    /** The octets read as a little-endian word. */
    function Reversed(): nat {
      ((d * 256 + c) * 256 + b) * 256 + a
    }

    predicate SameNetwork24(other: IPv4) {
      a == other.a && b == other.b && c == other.c
    }
  }

  lemma HeadDecides(x: nat, a: nat, y: nat, b: nat)
    requires a < 256 && b < 256
    ensures x * 256 + a <= y * 256 + b <==> x < y || (x == y && a <= b)
    ensures x * 256 + a == y * 256 + b <==> x == y && a == b
  {}

  lemma NumberOrder(x: IPv4, y: IPv4)
    requires x.Valid() && y.Valid()
    ensures x.Number() <= y.Number() <==>
              x.a < y.a || (x.a == y.a && (x.b < y.b || (x.b == y.b && (x.c < y.c || (x.c == y.c && x.d <= y.d)))))
    ensures x.Number() == y.Number() <==> x == y
    ensures x.Number() < 0x1_0000_0000
  {
    HeadDecides(x.a, x.b, y.a, y.b);
    HeadDecides(x.a * 256 + x.b, x.c, y.a * 256 + y.b, y.c);
    HeadDecides((x.a * 256 + x.b) * 256 + x.c, x.d, (y.a * 256 + y.b) * 256 + y.c, y.d);
  }

  function Reverse(x: IPv4): IPv4 {
    IPv4(x.d, x.c, x.b, x.a)
  }

  lemma ReversedOrder(x: IPv4, y: IPv4)
    requires x.Valid() && y.Valid()
    ensures x.Reversed() <= y.Reversed() <==>
              x.d < y.d || (x.d == y.d && (x.c < y.c || (x.c == y.c && (x.b < y.b || (x.b == y.b && x.a <= y.a)))))
    ensures x.Reversed() == y.Reversed() <==> x == y
  {
    NumberOrder(Reverse(x), Reverse(y));
  }

  lemma NumberInjective(x: IPv4, y: IPv4)
    requires x.Valid() && y.Valid()
    ensures x.Number() == y.Number() <==> x == y
    ensures x.Reversed() == y.Reversed() <==> x == y
  {
    NumberOrder(x, y);
    ReversedOrder(x, y);
  }
}
