/** Bytes as the C sources use them. */
module Bytes {

  newtype byte = x: int | 0 <= x < 256

  lemma ConcatAssociates(a: seq<byte>, b: seq<byte>, c: seq<byte>)
    ensures a + (b + c) == a + b + c
  {
  }

  /** `a | b`, bit by bit. */
  function Or(a: nat, b: nat): nat {
    if a == 0 && b == 0 then 0
    else 2 * Or(a / 2, b / 2) + (if a % 2 == 1 || b % 2 == 1 then 1 else 0)
  }

  lemma {:induction false} OrZero(a: nat)
    ensures Or(a, 0) == a
  {
    if a > 0 {
      OrZero(a / 2);
    }
  }

  /** Or-ing a two-bit count into a number whose two low bits are clear only adds it. */
  lemma OrLowBits(a: nat, t: nat)
    requires a % 4 == 0 && t < 4
    ensures Or(a, t) == a + t
  {
    if a + t > 0 {
      OrZero(a / 4);
      assert a / 2 / 2 == a / 4 && t / 2 / 2 == 0;
      assert Or(a / 2, t / 2) == a / 2 + t / 2;
    }
  }

  lemma OrHalves(a: nat, b: nat)
    requires b % 2 == 0 && Or(a / 2, b / 2) == a / 2 + b / 2
    ensures Or(a, b) == a + b
  {
  }

  lemma {:induction false} ZeroOr(b: nat)
    ensures Or(0, b) == b
  {
    if b > 0 {
      ZeroOr(b / 2);
    }
  }

  /** Or-ing a number of at most three bits under higher bits only adds it; likewise for four to six bits. */
  lemma OrUnder8(a: nat, b: nat)
    requires a < 8 && b % 8 == 0
    ensures Or(a, b) == a + b
  {
    ZeroOr(b / 8);
    assert a / 2 / 2 / 2 == 0 && b / 2 / 2 / 2 == b / 8;
    OrHalves(a / 2 / 2, b / 2 / 2);
    OrHalves(a / 2, b / 2);
    OrHalves(a, b);
  }

  lemma OrUnder16(a: nat, b: nat)
    requires a < 16 && b % 16 == 0
    ensures Or(a, b) == a + b
  {
    OrUnder8(a / 2, b / 2);
    OrHalves(a, b);
  }

  lemma OrUnder64(a: nat, b: nat)
    requires a < 64 && b % 64 == 0
    ensures Or(a, b) == a + b
  {
    OrUnder16(a / 2 / 2, b / 2 / 2);
    OrHalves(a / 2, b / 2);
    OrHalves(a, b);
  }
}
