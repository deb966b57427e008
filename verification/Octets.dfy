/** Numbers below 256 as eight-bit vectors. */
module Octets {

  function Octet(n: int): bv8
    requires 0 <= n < 256
  {
    n as bv8
  }

  function Succ(b: bv8): bv8 {
    b + 1
  }

  function Value(b: bv8): int {
    b as int
  }

  // The ranges keep the solver's case split over the bits short.
  lemma CastBackLow(n: int)
    requires 0 <= n < 128
    ensures (n as bv8) as int == n
  {
    if n < 16 {
    } else if n < 32 {
    } else if n < 48 {
    } else if n < 64 {
    } else if n < 80 {
    } else if n < 96 {
    } else if n < 112 {
    } else {
    }
  }

  lemma CastBackHigh(n: int)
    requires 128 <= n < 256
    ensures (n as bv8) as int == n
  {
    if n < 144 {
    } else if n < 160 {
    } else if n < 176 {
    } else if n < 192 {
    } else if n < 208 {
    } else if n < 224 {
    } else if n < 240 {
    } else {
    }
  }

  lemma OctetValue(n: int)
    requires 0 <= n < 256
    ensures Value(Octet(n)) == n
  {
    if n < 128 {
      CastBackLow(n);
    } else {
      CastBackHigh(n);
    }
  }

  lemma ValueBack(b: bv8)
    ensures (b as int) as bv8 == b
  {
  }

  lemma SameValue(a: bv8, b: bv8)
    requires Value(a) == Value(b)
    ensures a == b
  {
    ValueBack(a);
    ValueBack(b);
  }

  lemma ValueNext(b: bv8)
    requires b != 0xFF
    ensures Value(Succ(b)) == Value(b) + 1
  {
  }

  lemma OctetNext(n: nat)
    requires n < 255
    ensures Succ(Octet(n)) == Octet(n + 1)
  {
    hide Octet, Value, Succ;
    OctetValue(n);
    OctetValue(n + 1);
    OctetValue(255);
    OctetLast();
    ValueNext(Octet(n));
    SameValue(Succ(Octet(n)), Octet(n + 1));
  }

  lemma OctetLast()
    ensures Octet(255) == 0xFF && Succ(0xFF) == 0 && Octet(0) == 0 && Octet(1) == 1
  {
  }

  lemma OctetDiffers(m: nat, n: nat)
    requires m < 256 && n < 256 && m != n
    ensures Octet(m) != Octet(n)
  {
    hide Octet;
    OctetValue(m);
    OctetValue(n);
  }
}
