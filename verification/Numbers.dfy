/** Arithmetic several modules share: bytes, powers of two, bitwise exclusive or, division with remainder. */
module Numbers {
  type byte = x: int | 0 <= x < 256

  function Pow2(n: nat): nat {
    if n == 0 then 1 else 2 * Pow2(n - 1)
  }

  /** Bitwise exclusive or of the low n bits. */
  function XorNum(a: nat, b: nat, n: nat): (r: nat)
    ensures r < Pow2(n)
  {
    if n == 0 then 0 else (a + b) % 2 + 2 * XorNum(a / 2, b / 2, n - 1)
  }

  /** Bit i of a number, 0 the least significant. */
  predicate Bit(x: nat, i: nat) {
    if i == 0 then x % 2 == 1 else Bit(x / 2, i - 1)
  }

  lemma {:induction false} XorNumBit(a: nat, b: nat, n: nat, i: nat)
    requires i < n
    ensures Bit(XorNum(a, b, n), i) == (Bit(a, i) != Bit(b, i))
  {
    LowBit((a + b) % 2, XorNum(a / 2, b / 2, n - 1));
    if i == 0 {
      ParityDiffers(a, b);
    } else {
      XorNumBit(a / 2, b / 2, n - 1, i - 1);
    }
  }

  lemma ParityDiffers(a: nat, b: nat)
    ensures ((a + b) % 2 == 1) == ((a % 2 == 1) != (b % 2 == 1))
  {
  }

  lemma {:induction false} XorTwice(a: nat, b: nat, n: nat)
    requires a < Pow2(n)
    ensures XorNum(XorNum(a, b, n), b, n) == a
  {
    if n > 0 {
      var y := XorNum(a / 2, b / 2, n - 1);
      var x := (a + b) % 2 + 2 * y;
      XorTwice(a / 2, b / 2, n - 1);
      LowBit((a + b) % 2, y);
      ParityBack(a, b, x);
      assert XorNum(x, b, n) == (x + b) % 2 + 2 * XorNum(y, b / 2, n - 1);
    }
  }

  lemma LowBit(r: nat, y: nat)
    requires r < 2
    ensures (r + 2 * y) % 2 == r && (r + 2 * y) / 2 == y
  {
  }

  lemma ParityBack(a: nat, b: nat, x: nat)
    requires x % 2 == (a + b) % 2
    ensures (x + b) % 2 == a % 2
  {
  }

  function Xor8(a: byte, b: byte): byte {
    assert Pow2(8) == 256;
    XorNum(a, b, 8)
  }

  lemma Xor8Bits(a: byte, b: byte, i: nat)
    requires i < 8
    ensures Bit(Xor8(a, b), i) == (Bit(a, i) != Bit(b, i))
  {
    XorNumBit(a, b, 8, i);
  }

  lemma {:induction false} BitAbove(x: nat, n: nat, i: nat)
    requires x < Pow2(n) && i >= n
    ensures !Bit(x, i)
  {
    if i > 0 {
      BitAbove(x / 2, if n == 0 then 0 else n - 1, i - 1);
    }
  }

  /** Adding 2^n to a smaller number sets bit n and no other. */
  lemma {:induction false} BitAdded(x: nat, n: nat, i: nat)
    requires x < Pow2(n)
    ensures Bit(x + Pow2(n), i) == (i == n || Bit(x, i))
  {
    if n == 0 {
      BitAbove(0, 0, i);
      if i > 0 {
        BitAbove(0, 0, i - 1);
      }
    } else if i > 0 {
      assert (x + Pow2(n)) / 2 == x / 2 + Pow2(n - 1);
      BitAdded(x / 2, n - 1, i - 1);
    }
  }

  /** Numbers of n bits are the same if their bits are. */
  lemma {:induction false} NumInjective(x: nat, y: nat, n: nat)
    requires x < Pow2(n) && y < Pow2(n) && forall i | 0 <= i < n :: Bit(x, i) == Bit(y, i)
    ensures x == y
  {
    if n > 0 {
      assert Bit(x, 0) == Bit(y, 0);
      forall i | 0 <= i < n - 1 ensures Bit(x / 2, i) == Bit(y / 2, i) {
        assert Bit(x, i + 1) == Bit(y, i + 1);
      }
      NumInjective(x / 2, y / 2, n - 1);
    }
  }

  /** The number with these n bits. */
  function FromBits(bits: nat -> bool, n: nat): (r: nat)
    ensures r < Pow2(n)
  {
    if n == 0 then 0 else FromBits(bits, n - 1) + if bits(n - 1) then Pow2(n - 1) else 0
  }

  lemma {:induction false} FromBitsBit(bits: nat -> bool, n: nat, i: nat)
    ensures Bit(FromBits(bits, n), i) == (i < n && bits(i))
  {
    if n == 0 {
      BitAbove(0, 0, i);
    } else {
      FromBitsBit(bits, n - 1, i);
      BitAdded(FromBits(bits, n - 1), n - 1, i);
    }
  }

  /** A number with a quotient and a remainder has no others. */
  lemma ModUnique(x: int, m: nat, q: int, r: int)
    requires m > 0 && x == q * m + r && 0 <= r < m
    ensures x % m == r && x / m == q
  {
    var d := x / m - q;
    assert x == (x / m) * m + x % m;
    assert (x / m) * m - q * m == d * m;
    assert d * m == r - x % m;
    assert d >= 1 ==> d * m >= m;
    assert d <= -1 ==> d * m <= 0 - m;
  }
}
