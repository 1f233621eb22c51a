/** The standard check value of the CRC-24 of section 6.1 of RFC 4880: 0x21CF02 for the characters 1 to 9. */
module Crc24Check {
  import opened Numbers
  import opened Crc24
  import opened Crc24Typos

  const DIGITS: seq<byte> := [49, 50, 51, 52, 53, 54, 55, 56, 57]

  /** The register after a byte. */
  function After(r: Reg, hi: Nib, lo: Nib): Reg {
    var x := r.(n5 := XorNib(r.n5, hi), n4 := XorNib(r.n4, lo));
    Step(Step(Step(Step(Step(Step(Step(Step(x))))))))
  }

  lemma PlacedReg(b: byte, hi: Nib, lo: Nib)
    requires b == 16 * NibValue(hi) + NibValue(lo)
    ensures In24(Placed(b, 25)) && RegOf(Placed(b, 25)) == Reg(hi, lo, N0(), N0(), N0(), N0())
  {
    PlacedBit24(b);
    RegNum(Reg(hi, lo, N0(), N0(), N0(), N0()));
  }

  lemma AddedReg(v: Bits, p: Bits)
    requires |v| == |p| == 25 && RegOf(p).n3 == RegOf(p).n2 == RegOf(p).n1 == RegOf(p).n0 == N0()
    ensures RegOf(Xor(v, p)) ==
      RegOf(v).(n5 := XorNib(RegOf(v).n5, RegOf(p).n5), n4 := XorNib(RegOf(v).n4, RegOf(p).n4))
  {
  }

  lemma EightSteps(v: Bits, n: nat)
    requires In24(v) && n == 8
    ensures RegOf(RfcShifts(v, n)) == Step(Step(Step(Step(Step(Step(Step(Step(RegOf(v)))))))))
  {
    PathFromSteps(v);
    var path := PathFrom(v);
    assert path[1] == Step(path[0]) && path[2] == Step(path[1]) && path[3] == Step(path[2]) && path[4] == Step(path[3]);
    assert path[5] == Step(path[4]) && path[6] == Step(path[5]) && path[7] == Step(path[6]) && path[8] == Step(path[7]);
    PathAt(v, n);
  }

  lemma OneByte(data: seq<byte>, b: byte, hi: Nib, lo: Nib, n: nat)
    requires n == 8 && b == 16 * NibValue(hi) + NibValue(lo) && In24(Rfc(data))
    ensures In24(Rfc(data + [b])) && RegOf(Rfc(data + [b])) == After(RegOf(Rfc(data)), hi, lo)
  {
    PlacedReg(b, hi, lo);
    var x := Xor(Rfc(data), Placed(b, 25));
    AddedReg(Rfc(data), Placed(b, 25));
    EightSteps(x, n);
    ShiftsIn24(x, n);
    assert (data + [b])[..|data|] == data;
    LastByte(Num(INIT, 25), data + [b], n);
  }

  lemma NoBytes()
    ensures In24(Rfc([])) && RegOf(Rfc([])) == Reg(NB(), N7(), N0(), N4(), NC(), NE())
  {
    InitBit24();
    RegNum(Reg(NB(), N7(), N0(), N4(), NC(), NE()));
  }

  /** A digit turns one register into another. */
  ghost predicate Turns(r: Reg, lo: Nib, r': Reg) {
    After(r, N3(), lo) == r'
  }

  ghost predicate Shows(data: seq<byte>, r: Reg) {
    In24(Rfc(data)) && RegOf(Rfc(data)) == r
  }

  lemma OneDigit(data: seq<byte>, lo: Nib, r: Reg, r': Reg)
    requires Shows(data, r) && Turns(r, lo, r') && NibValue(lo) < 10
    ensures Shows(data + [48 + NibValue(lo)], r')
  {
    OneByte(data, 48 + NibValue(lo), N3(), lo, 8);
  }

  lemma After1(data: seq<byte>)
    requires Shows(data, Reg(NB(), N7(), N0(), N4(), NC(), NE()))
    ensures Shows(data + [49], Reg(N2(), NE(), NB(), NA(), N4(), N8()))
  {
    OneDigit(data, N1(), Reg(NB(), N7(), N0(), N4(), NC(), NE()), Reg(N2(), NE(), NB(), NA(), N4(), N8()));
  }

  lemma After2(data: seq<byte>)
    requires Shows(data, Reg(N2(), NE(), NB(), NA(), N4(), N8()))
    ensures Shows(data + [50], Reg(N4(), ND(), N6(), N1(), N5(), N1()))
  {
    OneDigit(data, N2(), Reg(N2(), NE(), NB(), NA(), N4(), N8()), Reg(N4(), ND(), N6(), N1(), N5(), N1()));
  }

  lemma After3(data: seq<byte>)
    requires Shows(data, Reg(N4(), ND(), N6(), N1(), N5(), N1()))
    ensures Shows(data + [51], Reg(N0(), N9(), ND(), NF(), N6(), N7()))
  {
    OneDigit(data, N3(), Reg(N4(), ND(), N6(), N1(), N5(), N1()), Reg(N0(), N9(), ND(), NF(), N6(), N7()));
  }

  lemma After4(data: seq<byte>)
    requires Shows(data, Reg(N0(), N9(), ND(), NF(), N6(), N7()))
    ensures Shows(data + [52], Reg(NA(), N2(), ND(), N3(), N4(), N3()))
  {
    OneDigit(data, N4(), Reg(N0(), N9(), ND(), NF(), N6(), N7()), Reg(NA(), N2(), ND(), N3(), N4(), N3()));
  }

  lemma After5(data: seq<byte>)
    requires Shows(data, Reg(NA(), N2(), ND(), N3(), N4(), N3()))
    ensures Shows(data + [53], Reg(NB(), NA(), N3(), N5(), N3(), NA()))
  {
    OneDigit(data, N5(), Reg(NA(), N2(), ND(), N3(), N4(), N3()), Reg(NB(), NA(), N3(), N5(), N3(), NA()));
  }

  lemma After6(data: seq<byte>)
    requires Shows(data, Reg(NB(), NA(), N3(), N5(), N3(), NA()))
    ensures Shows(data + [54], Reg(N3(), N4(), N1(), NA(), N7(), NC()))
  {
    OneDigit(data, N6(), Reg(NB(), NA(), N3(), N5(), N3(), NA()), Reg(N3(), N4(), N1(), NA(), N7(), NC()));
  }

  lemma After7(data: seq<byte>)
    requires Shows(data, Reg(N3(), N4(), N1(), NA(), N7(), NC()))
    ensures Shows(data + [55], Reg(N1(), N6(), NE(), N5(), NF(), N6()))
  {
    OneDigit(data, N7(), Reg(N3(), N4(), N1(), NA(), N7(), NC()), Reg(N1(), N6(), NE(), N5(), NF(), N6()));
  }

  lemma After8(data: seq<byte>)
    requires Shows(data, Reg(N1(), N6(), NE(), N5(), NF(), N6()))
    ensures Shows(data + [56], Reg(N5(), N1(), N9(), N5(), N3(), NC()))
  {
    OneDigit(data, N8(), Reg(N1(), N6(), NE(), N5(), NF(), N6()), Reg(N5(), N1(), N9(), N5(), N3(), NC()));
  }

  lemma After9(data: seq<byte>)
    requires Shows(data, Reg(N5(), N1(), N9(), N5(), N3(), NC()))
    ensures Shows(data + [57], Reg(N2(), N1(), NC(), NF(), N0(), N2()))
  {
    OneDigit(data, N9(), Reg(N5(), N1(), N9(), N5(), N3(), NC()), Reg(N2(), N1(), NC(), NF(), N0(), N2()));
  }

  lemma Digits1To3(data: seq<byte>)
    requires Shows(data, Reg(NB(), N7(), N0(), N4(), NC(), NE()))
    ensures Shows(data + [49] + [50] + [51], Reg(N0(), N9(), ND(), NF(), N6(), N7()))
  {
    After1(data);
    After2(data + [49]);
    After3(data + [49] + [50]);
  }

  lemma Digits4To6(data: seq<byte>)
    requires Shows(data, Reg(N0(), N9(), ND(), NF(), N6(), N7()))
    ensures Shows(data + [52] + [53] + [54], Reg(N3(), N4(), N1(), NA(), N7(), NC()))
  {
    After4(data);
    After5(data + [52]);
    After6(data + [52] + [53]);
  }

  lemma Digits7To9(data: seq<byte>)
    requires Shows(data, Reg(N3(), N4(), N1(), NA(), N7(), NC()))
    ensures Shows(data + [55] + [56] + [57], Reg(N2(), N1(), NC(), NF(), N0(), N2()))
  {
    After7(data);
    After8(data + [55]);
    After9(data + [55] + [56]);
  }

  lemma AllDigits(none: seq<byte>)
    requires none == []
    ensures Shows(DIGITS, Reg(N2(), N1(), NC(), NF(), N0(), N2()))
  {
    NoBytes();
    Digits1To3(none);
    var three := none + [49] + [50] + [51];
    Digits4To6(three);
    var six := three + [52] + [53] + [54];
    Digits7To9(six);
    assert six + [55] + [56] + [57] == DIGITS;
  }

  lemma CheckValue()
    ensures Sum24(DIGITS) == Num(0x21CF02, 24) && Sum24([]) == Num(0xB704CE, 24)
  {
    AllDigits([]);
    NoBytes();
    ShownBits(Rfc(DIGITS), 0x21CF02);
    ShownBits(Rfc([]), 0xB704CE);
  }

  lemma ShownBits(v: Bits, x: nat)
    requires |v| == 25 && x == RegValue(RegOf(v))
    ensures v[..24] == Num(x, 24)
  {
    RegNum(RegOf(v));
    SameBits(v, Num(x, 25));
    assert Num(x, 25)[..24] == Num(x, 24);
  }

  lemma SameBits(v: Bits, w: Bits)
    requires |v| == |w| == 25 && RegOf(v) == RegOf(w)
    ensures v[..24] == w[..24]
  {
    forall i | 0 <= i < 24 ensures v[i] == w[i] {
    }
  }
}
