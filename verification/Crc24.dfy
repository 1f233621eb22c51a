/** The CRC-24 of promo codes (pkg/promo/crc24.go), against section 6.1 of RFC 4880. Registers are bit strings, index 0
    the least significant bit. */
module Crc24 {
  import opened Numbers

  type Bits = seq<bool>

  /** The low n bits of a number. */
  function Num(x: nat, n: nat): Bits {
    seq(n, i requires 0 <= i => Bit(x, i))
  }

  function Xor(a: Bits, b: Bits): (r: Bits)
    requires |a| == |b|
    ensures |r| == |a|
  {
    seq(|a|, i requires 0 <= i < |a| => a[i] != b[i])
  }

  /** Shift left by one, dropping the top bit. */
  function Left(a: Bits): (r: Bits)
    ensures |r| == |a|
  {
    seq(|a|, i requires 0 <= i < |a| => i > 0 && a[i - 1])
  }

  const INIT := 0xB704CE
  const POLY := 0x864CFB
  const RFC_POLY := 0x1864CFB

  /** uint32(b) << 16 in a register of n bits. */
  function Placed(b: byte, n: nat): Bits {
    Num(b * 65536, n)
  }

  /** One bit of the code's loop on a uint32 register that is never masked: bits above the 23rd are left-overs. */
  function Shift(crc: Bits): (r: Bits)
    requires |crc| == 32
    ensures |r| == 32
  {
    if crc[23] then Xor(Left(crc), Num(POLY, 32)) else Left(crc)
  }

  /** One bit of the RFC's loop: shift, then reduce when bit 24 is set. */
  function RfcShift(crc: Bits): (r: Bits)
    requires |crc| == 25
    ensures |r| == 25
  {
    var c := Left(crc);
    if c[24] then Xor(c, Num(RFC_POLY, 25)) else c
  }

  function Shifts(crc: Bits, n: nat): (r: Bits)
    requires |crc| == 32
    ensures |r| == 32
  {
    if n == 0 then crc else Shift(Shifts(crc, n - 1))
  }

  function RfcShifts(crc: Bits, n: nat): (r: Bits)
    requires |crc| == 25
    ensures |r| == 25
  {
    if n == 0 then crc else RfcShift(RfcShifts(crc, n - 1))
  }

  function Register(data: seq<byte>): (r: Bits)
    ensures |r| == 32
  {
    if |data| == 0 then Num(INIT, 32)
    else Shifts(Xor(Register(data[..|data| - 1]), Placed(data[|data| - 1], 32)), 8)
  }

  /** The RFC's register from a given start. */
  function RfcFrom(start: Bits, data: seq<byte>): (r: Bits)
    requires |start| == 25
    ensures |r| == 25
  {
    if |data| == 0 then start
    else RfcShifts(Xor(RfcFrom(start, data[..|data| - 1]), Placed(data[|data| - 1], 25)), 8)
  }

  function Rfc(data: seq<byte>): (r: Bits)
    ensures |r| == 25
  {
    RfcFrom(Num(INIT, 25), data)
  }

  /** The 24 bits returned. */
  function Sum24(data: seq<byte>): (r: Bits)
    ensures |r| == 24
  {
    Rfc(data)[..24]
  }

  /** crc24Checksum: the unmasked loop, cut to 24 bits at the end, is the RFC's register algorithm. */
  method Checksum(data: seq<byte>) returns (r: Bits)
    ensures r == Sum24(data)
  {
    var crc := Num(INIT, 32);
    for i := 0 to |data|
      invariant crc == Register(data[..i])
    {
      assert data[..i + 1][..i] == data[..i];
      crc := Xor(crc, Placed(data[i], 32));
      ghost var start := crc;
      for j := 0 to 8
        invariant |crc| == 32 && crc == Shifts(start, j)
      {
        if crc[23] {
          crc := Xor(Left(crc), Num(POLY, 32));
        } else {
          crc := Left(crc);
        }
      }
    }
    assert data[..|data|] == data;
    RegisterIsRfc(data);
    r := crc[..24];
  }

  // ---- The code's register and the RFC's ----

  /** The RFC's register holds the low 24 bits of the code's, and nothing above. */
  predicate Same24(x: Bits, y: Bits) {
    |x| == 32 && |y| == 25 && !y[24] && forall i | 0 <= i < 24 :: x[i] == y[i]
  }

  lemma Pow24()
    ensures Pow2(24) == 0x1000000
  {
    assert Pow2(8) == 256;
    assert Pow2(16) == 65536;
  }

  lemma PolyBits(i: nat)
    ensures Bit(RFC_POLY, i) == (i == 24 || Bit(POLY, i))
    ensures i >= 24 ==> !Bit(POLY, i)
  {
    Pow24();
    BitAdded(POLY, 24, i);
    if i >= 24 { BitAbove(POLY, 24, i); }
  }

  lemma PlacedBit24(b: byte)
    ensures !Placed(b, 25)[24]
  {
    Pow24();
    BitAbove(b * 65536, 24, 24);
  }

  lemma InitBit24()
    ensures !Num(INIT, 25)[24]
  {
    Pow24();
    BitAbove(INIT, 24, 24);
  }

  lemma ShiftSame(x: Bits, y: Bits)
    requires Same24(x, y)
    ensures Same24(Shift(x), RfcShift(y))
  {
    forall i: nat ensures Bit(RFC_POLY, i) == (i == 24 || Bit(POLY, i)) && (i >= 24 ==> !Bit(POLY, i)) {
      PolyBits(i);
    }
    assert Left(y)[24] == y[23] == x[23];
  }

  lemma {:induction false} ShiftsSame(x: Bits, y: Bits, n: nat)
    requires Same24(x, y)
    ensures Same24(Shifts(x, n), RfcShifts(y, n))
  {
    if n > 0 {
      ShiftsSame(x, y, n - 1);
      ShiftSame(Shifts(x, n - 1), RfcShifts(y, n - 1));
    }
  }

  lemma {:induction false} RegisterIsRfc(data: seq<byte>)
    ensures Same24(Register(data), Rfc(data))
  {
    InitBit24();
    if |data| > 0 {
      var init, b := data[..|data| - 1], data[|data| - 1];
      RegisterIsRfc(init);
      PlacedBit24(b);
      ShiftsSame(Xor(Register(init), Placed(b, 32)), Xor(Rfc(init), Placed(b, 25)), 8);
    }
  }

  // ---- A difference never dies ----

  /** A 24-bit register. */
  predicate In24(x: Bits) {
    |x| == 25 && !x[24]
  }

  /** Shifting is one to one: a reduction shows in bit 0. */
  lemma ShiftInjective(x: Bits, y: Bits)
    requires In24(x) && In24(y) && RfcShift(x) == RfcShift(y)
    ensures x == y
  {
    var p, a, b := Num(RFC_POLY, 25), Left(x), Left(y);
    PolyBits(0);
    assert Bit(POLY, 0) && p[0];
    assert !a[0] && !b[0];
    assert RfcShift(x)[0] == a[24] && RfcShift(y)[0] == b[24];
    assert a[24] == b[24];
    if a[24] {
      forall i | 0 <= i < 25 ensures a[i] == b[i] {
        assert Xor(a, p)[i] == Xor(b, p)[i];
      }
    }
    forall i | 0 <= i < 24 ensures x[i] == y[i] {
      assert a[i + 1] == x[i] && b[i + 1] == y[i];
    }
  }

  lemma ShiftIn24(x: Bits)
    requires In24(x)
    ensures In24(RfcShift(x))
  {
    PolyBits(24);
  }

  lemma {:induction false} ShiftsInjective(x: Bits, y: Bits, n: nat)
    requires In24(x) && In24(y)
    ensures In24(RfcShifts(x, n)) && In24(RfcShifts(y, n))
    ensures RfcShifts(x, n) == RfcShifts(y, n) ==> x == y
  {
    if n > 0 {
      ShiftsInjective(x, y, n - 1);
      var a, b := RfcShifts(x, n - 1), RfcShifts(y, n - 1);
      ShiftIn24(a);
      ShiftIn24(b);
      if RfcShift(a) == RfcShift(b) {
        ShiftInjective(a, b);
      }
    }
  }

  lemma XorInjective(x: Bits, y: Bits, d: Bits)
    requires |x| == |y| == |d|
    ensures Xor(x, d) == Xor(y, d) <==> x == y
    ensures Xor(x, d) == Xor(d, x) && Xor(y, d) == Xor(d, y)
  {
    if Xor(x, d) == Xor(y, d) {
      forall i | 0 <= i < |x| ensures x[i] == y[i] {
        assert Xor(x, d)[i] == Xor(y, d)[i];
      }
    }
  }

  /** Equal bytes keep different registers different. */
  lemma {:induction false} SuffixKeeps(x: Bits, y: Bits, rest: seq<byte>)
    requires In24(x) && In24(y)
    ensures In24(RfcFrom(x, rest)) && In24(RfcFrom(y, rest))
    ensures RfcFrom(x, rest) == RfcFrom(y, rest) ==> x == y
  {
    if |rest| > 0 {
      var init, b := rest[..|rest| - 1], rest[|rest| - 1];
      SuffixKeeps(x, y, init);
      var u, v, d := RfcFrom(x, init), RfcFrom(y, init), Placed(b, 25);
      PlacedBit24(b);
      XorInjective(u, v, d);
      ShiftsInjective(Xor(u, d), Xor(v, d), 8);
    }
  }

  lemma {:induction false} RfcConcat(start: Bits, s: seq<byte>, t: seq<byte>)
    requires |start| == 25
    ensures RfcFrom(start, s + t) == RfcFrom(RfcFrom(start, s), t)
  {
    if |t| == 0 {
      assert s + t == s;
    } else {
      assert (s + t)[..|s + t| - 1] == s + t[..|t| - 1];
      RfcConcat(start, s, t[..|t| - 1]);
    }
  }

  lemma PlacedInjective(b: byte, c: byte)
    requires Placed(b, 25) == Placed(c, 25)
    ensures b == c
  {
    Pow24();
    forall i | 0 <= i < 24 ensures Bit(b * 65536, i) == Bit(c * 65536, i) {
      assert Placed(b, 25)[i] == Placed(c, 25)[i];
    }
    NumInjective(b * 65536, c * 65536, 24);
  }

  /** Inputs of one length that differ in exactly one byte never share a CRC-24. */
  lemma OneByteDetected(pre: seq<byte>, b: byte, c: byte, rest: seq<byte>)
    requires b != c
    ensures Sum24(pre + [b] + rest) != Sum24(pre + [c] + rest)
  {
    var start, r := Num(INIT, 25), Rfc(pre);
    InitBit24();
    SuffixKeeps(start, start, pre);
    RfcConcat(start, pre + [b], rest);
    RfcConcat(start, pre + [c], rest);
    assert (pre + [b])[..|pre|] == pre && (pre + [c])[..|pre|] == pre;
    var x, y := Xor(r, Placed(b, 25)), Xor(r, Placed(c, 25));
    PlacedBit24(b);
    PlacedBit24(c);
    XorInjective(Placed(b, 25), Placed(c, 25), r);
    if Placed(b, 25) == Placed(c, 25) {
      PlacedInjective(b, c);
      assert false;
    }
    ShiftsInjective(x, y, 8);
    SuffixKeeps(RfcShifts(x, 8), RfcShifts(y, 8), rest);
    var u, v := Rfc(pre + [b] + rest), Rfc(pre + [c] + rest);
    assert u != v && u == u[..24] + [false] && v == v[..24] + [false];
  }
}
