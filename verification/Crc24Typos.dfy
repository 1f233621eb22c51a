/** The 16 checksum bits a promo code keeps still tell every one-character change of the payload apart. The register
    is linear over exclusive or, so a change of one character leaves a mark that the rest of the payload only moves
    along, and sixteen-bit masks read the changed bits back from the low bits of the mark. */
module Crc24Typos {
  import opened Numbers
  import opened Crc24

  // ---- A 24-bit register, four bits at a time ----

  datatype Nib = Nib(b3: bool, b2: bool, b1: bool, b0: bool)
  datatype Reg = Reg(n5: Nib, n4: Nib, n3: Nib, n2: Nib, n1: Nib, n0: Nib)
  datatype Mask = Mask(m3: Nib, m2: Nib, m1: Nib, m0: Nib)

  function N0(): Nib { Nib(false, false, false, false) }
  function N1(): Nib { Nib(false, false, false, true) }
  function N2(): Nib { Nib(false, false, true, false) }
  function N3(): Nib { Nib(false, false, true, true) }
  function N4(): Nib { Nib(false, true, false, false) }
  function N5(): Nib { Nib(false, true, false, true) }
  function N6(): Nib { Nib(false, true, true, false) }
  function N7(): Nib { Nib(false, true, true, true) }
  function N8(): Nib { Nib(true, false, false, false) }
  function N9(): Nib { Nib(true, false, false, true) }
  function NA(): Nib { Nib(true, false, true, false) }
  function NB(): Nib { Nib(true, false, true, true) }
  function NC(): Nib { Nib(true, true, false, false) }
  function ND(): Nib { Nib(true, true, false, true) }
  function NE(): Nib { Nib(true, true, true, false) }
  function NF(): Nib { Nib(true, true, true, true) }

  function RegOf(v: Bits): Reg
    requires |v| == 25
  {
    Reg(Nib(v[23], v[22], v[21], v[20]),
        Nib(v[19], v[18], v[17], v[16]),
        Nib(v[15], v[14], v[13], v[12]),
        Nib(v[11], v[10], v[9], v[8]),
        Nib(v[7], v[6], v[5], v[4]),
        Nib(v[3], v[2], v[1], v[0]))
  }

  /** One shift. */
  function Step(r: Reg): Reg {
    var top := r.n5.b3;
    Reg(Nib(r.n5.b2 != top, r.n5.b1, r.n5.b0, r.n4.b3),
        Nib(r.n4.b2, r.n4.b1 != top, r.n4.b0 != top, r.n3.b3),
        Nib(r.n3.b2, r.n3.b1 != top, r.n3.b0, r.n2.b3),
        Nib(r.n2.b2 != top, r.n2.b1 != top, r.n2.b0, r.n1.b3),
        Nib(r.n1.b2 != top, r.n1.b1 != top, r.n1.b0 != top, r.n0.b3 != top),
        Nib(r.n0.b2 != top, r.n0.b1, r.n0.b0 != top, top))
  }

  lemma Half(x: nat, y: nat, odd: bool)
    requires x == 2 * y + if odd then 1 else 0
    ensures Bit(x, 0) == odd && forall i: nat | i > 0 :: Bit(x, i) == Bit(y, i - 1)
  {
    assert x / 2 == y;
  }

  function NibValue(n: Nib): nat {
    (if n.b3 then 8 else 0) + (if n.b2 then 4 else 0) + (if n.b1 then 2 else 0) + if n.b0 then 1 else 0
  }

  /** The number a register shows. */
  function RegValue(r: Reg): nat {
    NibValue(r.n5) * 0x100000 + NibValue(r.n4) * 0x10000 + NibValue(r.n3) * 0x1000 +
    NibValue(r.n2) * 0x100 + NibValue(r.n1) * 0x10 + NibValue(r.n0)
  }

  lemma NibBits(x: nat, y: nat, n: Nib)
    requires x == 16 * y + NibValue(n)
    ensures n == Nib(Bit(x, 3), Bit(x, 2), Bit(x, 1), Bit(x, 0)) && forall i: nat | i >= 4 :: Bit(x, i) == Bit(y, i - 4)
  {
    var z := 4 * y + (if n.b3 then 2 else 0) + if n.b2 then 1 else 0;
    PairBits(x, z, n.b1, n.b0);
    PairBits(z, y, n.b3, n.b2);
  }

  lemma PairBits(x: nat, y: nat, b1: bool, b0: bool)
    requires x == 4 * y + (if b1 then 2 else 0) + if b0 then 1 else 0
    ensures Bit(x, 1) == b1 && Bit(x, 0) == b0 && forall i: nat | i >= 2 :: Bit(x, i) == Bit(y, i - 2)
  {
    Half(x, 2 * y + if b1 then 1 else 0, b0);
    Half(2 * y + if b1 then 1 else 0, y, b1);
  }

  /** The register of a number. */
  lemma RegNum(r: Reg)
    ensures RegOf(Num(RegValue(r), 25)) == r
  {
    var v1 := NibValue(r.n5);
    var v2 := v1 * 16 + NibValue(r.n4);
    var v3 := v2 * 16 + NibValue(r.n3);
    var v4 := v3 * 16 + NibValue(r.n2);
    var v5 := v4 * 16 + NibValue(r.n1);
    NibBits(v1, 0, r.n5);
    NibBits(v2, v1, r.n4);
    NibBits(v3, v2, r.n3);
    NibBits(v4, v3, r.n2);
    NibBits(v5, v4, r.n1);
    NibBits(RegValue(r), v5, r.n0);
  }

  lemma StepIs(v: Bits)
    requires In24(v)
    ensures RegOf(RfcShift(v)) == Step(RegOf(v))
  {
    var p, q := Num(RFC_POLY, 25), Num(POLY, 25);
    RegNum(Reg(N8(), N6(), N4(), NC(), NF(), NB()));
    forall i | 0 <= i < 24 ensures p[i] == q[i] {
      PolyBits(i);
    }
    assert RegOf(q) == RegOf(p) == Reg(N8(), N6(), N4(), NC(), NF(), NB());
    ShiftBits(v, p);
  }

  lemma ShiftBits(v: Bits, p: Bits)
    requires In24(v) && p == Num(RFC_POLY, 25)
    ensures RfcShift(v)[0] == (v[23] && p[0])
    ensures forall i | 0 < i < 25 :: RfcShift(v)[i] == (v[i - 1] != (v[23] && p[i]))
  {
  }

  // ---- Linearity ----

  lemma ShiftLinear(x: Bits, y: Bits)
    requires In24(x) && In24(y)
    ensures In24(Xor(x, y)) && RfcShift(Xor(x, y)) == Xor(RfcShift(x), RfcShift(y))
  {
    assert Left(Xor(x, y)) == Xor(Left(x), Left(y));
  }

  lemma {:induction false} ShiftsIn24(x: Bits, n: nat)
    requires In24(x)
    ensures In24(RfcShifts(x, n))
  {
    if n > 0 {
      ShiftsIn24(x, n - 1);
      ShiftIn24(RfcShifts(x, n - 1));
    }
  }

  lemma {:induction false} ShiftsLinear(x: Bits, y: Bits, n: nat)
    requires In24(x) && In24(y)
    ensures RfcShifts(Xor(x, y), n) == Xor(RfcShifts(x, n), RfcShifts(y, n))
  {
    if n > 0 {
      ShiftsLinear(x, y, n - 1);
      ShiftsIn24(x, n - 1);
      ShiftsIn24(y, n - 1);
      ShiftLinear(RfcShifts(x, n - 1), RfcShifts(y, n - 1));
    }
  }

  lemma {:induction false} ShiftsAdd(x: Bits, m: nat, n: nat)
    requires |x| == 25
    ensures RfcShifts(RfcShifts(x, m), n) == RfcShifts(x, m + n)
  {
    if n > 0 {
      ShiftsAdd(x, m, n - 1);
    }
  }

  lemma Later(x: Bits, y: Bits, m: nat, n: nat)
    requires |x| == 25 && RfcShifts(x, m) == y
    ensures RfcShifts(x, m + n) == RfcShifts(y, n)
  {
    ShiftsAdd(x, m, n);
  }

  function Zero(): (z: Bits)
    ensures In24(z)
  {
    seq(25, _ => false)
  }

  lemma {:induction false} ShiftsZero(n: nat)
    ensures RfcShifts(Zero(), n) == Zero()
  {
    if n > 0 {
      ShiftsZero(n - 1);
      assert Left(Zero()) == Zero();
    }
  }

  /** A byte added to both registers leaves their difference alone. */
  lemma SameAdded(u: Bits, v: Bits, d: Bits)
    requires In24(u) && In24(v) && In24(d)
    ensures In24(Xor(u, d)) && In24(Xor(v, d)) && Xor(Xor(u, d), Xor(v, d)) == Xor(u, v)
    ensures Xor(Xor(d, u), Xor(d, v)) == Xor(u, v) && In24(Xor(d, u)) && In24(Xor(d, v))
  {
  }

  /** Equal bytes move a difference of registers along. */
  lemma {:induction false} DifferenceMoves(x: Bits, y: Bits, rest: seq<byte>)
    requires In24(x) && In24(y)
    ensures In24(RfcFrom(x, rest)) && In24(RfcFrom(y, rest))
    ensures Xor(RfcFrom(x, rest), RfcFrom(y, rest)) == RfcShifts(Xor(x, y), 8 * |rest|)
  {
    SuffixKeeps(x, y, rest);
    if |rest| > 0 {
      var init, b := rest[..|rest| - 1], rest[|rest| - 1];
      DifferenceMoves(x, y, init);
      LastByte(x, rest, 8);
      LastByte(y, rest, 8);
      ByteMoves(RfcFrom(x, init), RfcFrom(y, init), b, 8);
      Later(Xor(x, y), RfcShifts(Xor(x, y), 8 * |init|), 8 * |init|, 8);
    }
  }

  // The lemmas below take the eight shifts of a byte as a parameter n: a literal 8 makes the verifier unroll RfcShifts.

  lemma LastByte(x: Bits, data: seq<byte>, n: nat)
    requires |x| == 25 && |data| > 0 && n == 8
    ensures RfcFrom(x, data) == RfcShifts(Xor(RfcFrom(x, data[..|data| - 1]), Placed(data[|data| - 1], 25)), n)
  {
  }

  lemma ByteMoves(u: Bits, v: Bits, b: byte, n: nat)
    requires In24(u) && In24(v)
    ensures Xor(RfcShifts(Xor(u, Placed(b, 25)), n), RfcShifts(Xor(v, Placed(b, 25)), n)) == RfcShifts(Xor(u, v), n)
  {
    PlacedBit24(b);
    SameAdded(u, v, Placed(b, 25));
    ShiftsLinear(Xor(u, Placed(b, 25)), Xor(v, Placed(b, 25)), n);
  }

  // ---- Masks ----

  function DotNib(a: Nib, b: Nib): bool {
    ((a.b3 && b.b3) != (a.b2 && b.b2)) != ((a.b1 && b.b1) != (a.b0 && b.b0))
  }

  /** The parity of the low bits a mask picks. */
  function Dot(m: Mask, r: Reg): bool {
    (DotNib(m.m3, r.n3) != DotNib(m.m2, r.n2)) != (DotNib(m.m1, r.n1) != DotNib(m.m0, r.n0))
  }

  function XorNib(a: Nib, b: Nib): Nib {
    Nib(a.b3 != b.b3, a.b2 != b.b2, a.b1 != b.b1, a.b0 != b.b0)
  }

  lemma DotNibLinear(m: Nib, a: Nib, b: Nib)
    ensures DotNib(m, XorNib(a, b)) == (DotNib(m, a) != DotNib(m, b))
  {
  }

  lemma DotLinear(m: Mask, x: Bits, y: Bits)
    requires |x| == |y| == 25
    ensures Dot(m, RegOf(Xor(x, y))) == (Dot(m, RegOf(x)) != Dot(m, RegOf(y)))
  {
    var a, b, r := RegOf(x), RegOf(y), RegOf(Xor(x, y));
    assert r.n3 == XorNib(a.n3, b.n3) && r.n2 == XorNib(a.n2, b.n2);
    assert r.n1 == XorNib(a.n1, b.n1) && r.n0 == XorNib(a.n0, b.n0);
    DotNibLinear(m.m3, a.n3, b.n3);
    DotNibLinear(m.m2, a.n2, b.n2);
    DotNibLinear(m.m1, a.n1, b.n1);
    DotNibLinear(m.m0, a.n0, b.n0);
  }

  lemma DotClear(m: Mask, v: Bits)
    requires |v| == 25 && forall i | 0 <= i < 16 :: !v[i]
    ensures !Dot(m, RegOf(v))
  {
  }

  /** What a mask reads n shifts later. */
  ghost function Reading(m: Mask, n: nat, d: Bits): bool
    requires |d| == 25
  {
    Dot(m, RegOf(RfcShifts(d, n)))
  }

  lemma ReadingLinear(m: Mask, n: nat, x: Bits, y: Bits)
    requires In24(x) && In24(y)
    ensures Reading(m, n, Xor(x, y)) == (Reading(m, n, x) != Reading(m, n, y))
  {
    ShiftsLinear(x, y, n);
    DotLinear(m, RfcShifts(x, n), RfcShifts(y, n));
  }

  /** The register with one bit set. */
  function One(i: nat): (v: Bits)
    requires i < 24
    ensures In24(v)
  {
    seq(25, k => k == i)
  }

  /** The mask reads bit j of a change of the top byte n shifts later. */
  ghost predicate ReadsBack(m: Mask, n: nat, j: nat) {
    forall i | 16 <= i < 24 :: Reading(m, n, One(i)) == (i == j)
  }

  ghost predicate ReadsBit(masks: seq<Mask>, n: nat, j: nat)
    requires j < |masks|
  {
    ReadsBack(masks[j], n, 16 + j)
  }

  /** A register's bits below i. */
  function Below(d: Bits, i: nat): (r: Bits)
    requires |d| == 25
    ensures |r| == 25
  {
    seq(25, k requires 0 <= k < 25 => k < i && d[k])
  }

  lemma BelowGrows(d: Bits, i: nat)
    requires In24(d) && i < 24
    ensures In24(Below(d, i)) && Below(d, i + 1) == if d[i] then Xor(Below(d, i), One(i)) else Below(d, i)
  {
  }

  lemma {:induction false} ReadBelow(m: Mask, n: nat, j: nat, d: Bits, i: nat)
    requires In24(d) && ReadsBack(m, n, j) && 16 <= j < 24 && 16 <= i <= 24
    requires forall k | 0 <= k < 16 :: !d[k]
    ensures Reading(m, n, Below(d, i)) == (j < i && d[j])
  {
    if i == 16 {
      assert Below(d, 16) == Zero();
      ShiftsZero(n);
      DotClear(m, Zero());
    } else {
      ReadBelow(m, n, j, d, i - 1);
      BelowGrows(d, i - 1);
      ReadingLinear(m, n, Below(d, i - 1), One(i - 1));
    }
  }

  /** With a mask for every bit, a change of the top byte shows in the low 16 bits. */
  lemma ChangeShows(masks: seq<Mask>, n: nat, d: Bits)
    requires |masks| == 8 && forall j | 0 <= j < 8 :: ReadsBit(masks, n, j)
    requires In24(d) && (forall k | 0 <= k < 16 :: !d[k]) && d != Zero()
    ensures exists i | 0 <= i < 16 :: RfcShifts(d, n)[i]
  {
    var j :| 0 <= j < 25 && d[j] != Zero()[j];
    assert 16 <= j < 24 && d[j];
    assert ReadsBit(masks, n, j - 16);
    ReadBelow(masks[j - 16], n, j, d, 24);
    assert Below(d, 24) == d;
    NotClear(masks[j - 16], RfcShifts(d, n));
  }

  lemma NotClear(m: Mask, v: Bits)
    requires |v| == 25 && Dot(m, RegOf(v))
    ensures exists i | 0 <= i < 16 :: v[i]
  {
    if forall i | 0 <= i < 16 :: !v[i] {
      DotClear(m, v);
    }
  }

  // ---- The path of the top bit, and the masks for one to eight bytes ----

  /** A register and what 64 shifts make of it. */
  ghost predicate IsPath(path: seq<Reg>) {
    && |path| == 65 && path[0] == Reg(N8(), N0(), N0(), N0(), N0(), N0())
    && forall t | 0 <= t < 64 :: path[t + 1] == Step(path[t])
  }

  ghost function PathFrom(v: Bits): seq<Reg>
    requires |v| == 25
  {
    seq(65, t requires 0 <= t => RegOf(RfcShifts(v, t)))
  }

  lemma PathFromSteps(v: Bits)
    requires In24(v)
    ensures forall t | 0 <= t < 64 :: PathFrom(v)[t + 1] == Step(PathFrom(v)[t])
    ensures PathFrom(v)[0] == RegOf(v)
  {
    forall t | 0 <= t < 64 ensures PathFrom(v)[t + 1] == Step(PathFrom(v)[t]) {
      ShiftsIn24(v, t);
      StepIs(RfcShifts(v, t));
    }
  }

  ghost function TopPath(): seq<Reg> {
    PathFrom(One(23))
  }

  lemma TopPathIs()
    ensures IsPath(TopPath())
  {
    PathFromSteps(One(23));
    assert RegOf(One(23)) == Reg(N8(), N0(), N0(), N0(), N0(), N0());
  }

  lemma {:induction false} OneClimbs(i: nat, n: nat)
    requires i + n < 24
    ensures RfcShifts(One(i), n) == One(i + n)
  {
    if n > 0 {
      OneClimbs(i, n - 1);
      var v := One(i + n - 1);
      assert Left(v) == One(i + n);
    }
  }

  lemma PathAt(v: Bits, t: nat)
    requires |v| == 25 && t <= 64
    ensures PathFrom(v)[t] == RegOf(RfcShifts(v, t))
  {
  }

  /** Of eight registers in a row the mask picks the j-th. */
  ghost predicate Row(m: Mask, path: seq<Reg>, t: nat, j: nat)
    requires |path| == 65 && t <= 57
  {
    forall i | t <= i < t + 8 :: Dot(m, path[i]) == (i == t + j)
  }

  lemma RowReads(m: Mask, n: nat, j: nat)
    requires 8 <= n <= 64 && j < 8 && Row(m, TopPath(), n - 7, j)
    ensures ReadsBack(m, n, 16 + j)
  {
    forall i | 16 <= i < 24 ensures Reading(m, n, One(i)) == (i == 16 + j) {
      OneClimbs(i, 23 - i);
      RowReadsAt(m, One(23), One(i), n, j, i);
    }
  }

  lemma RowReadsAt(m: Mask, v: Bits, x: Bits, n: nat, j: nat, i: nat)
    requires 8 <= n <= 64 && j < 8 && 16 <= i < 24 && |v| == |x| == 25 && RfcShifts(x, 23 - i) == v
    requires Row(m, PathFrom(v), n - 7, j)
    ensures Reading(m, n, x) == (i == 16 + j)
  {
    var k, t := 23 - i, n - 23 + i;
    Later(x, v, k, t);
    assert k + t == n;
    PathAt(v, t);
  }

  lemma Picks(m: Mask, path: seq<Reg>, t: nat, j: nat)
    requires |path| == 65 && t <= 57
    requires Dot(m, path[t]) == (j == 0) && Dot(m, path[t + 1]) == (j == 1)
    requires Dot(m, path[t + 2]) == (j == 2) && Dot(m, path[t + 3]) == (j == 3)
    requires Dot(m, path[t + 4]) == (j == 4) && Dot(m, path[t + 5]) == (j == 5)
    requires Dot(m, path[t + 6]) == (j == 6) && Dot(m, path[t + 7]) == (j == 7)
    ensures Row(m, path, t, j)
  {
    forall i | t <= i < t + 8 ensures Dot(m, path[i]) == (i == t + j) {
      var c := i - t;
      assert c == 0 || c == 1 || c == 2 || c == 3 || c == 4 || c == 5 || c == 6 || c == 7;
    }
  }

  lemma Path8(path: seq<Reg>)
    requires IsPath(path)
    ensures path[1] == Reg(N8(), N6(), N4(), NC(), NF(), NB())
    ensures path[2] == Reg(N8(), NA(), ND(), N5(), N0(), ND())
    ensures path[3] == Reg(N9(), N3(), NE(), N6(), NE(), N1())
    ensures path[4] == Reg(NA(), N1(), N8(), N1(), N3(), N9())
    ensures path[5] == Reg(NC(), N5(), N4(), NE(), N8(), N9())
    ensures path[6] == Reg(N0(), NC(), ND(), N1(), NE(), N9())
    ensures path[7] == Reg(N1(), N9(), NA(), N3(), ND(), N2())
    ensures path[8] == Reg(N3(), N3(), N4(), N7(), NA(), N4())
  {
  }

  lemma Path16(path: seq<Reg>)
    requires IsPath(path)
    ensures path[9] == Reg(N6(), N6(), N8(), NF(), N4(), N8())
    ensures path[10] == Reg(NC(), ND(), N1(), NE(), N9(), N0())
    ensures path[11] == Reg(N1(), NC(), N7(), N1(), ND(), NB())
    ensures path[12] == Reg(N3(), N8(), NE(), N3(), NB(), N6())
    ensures path[13] == Reg(N7(), N1(), NC(), N7(), N6(), NC())
    ensures path[14] == Reg(NE(), N3(), N8(), NE(), ND(), N8())
    ensures path[15] == Reg(N4(), N1(), N5(), N1(), N4(), NB())
    ensures path[16] == Reg(N8(), N2(), NA(), N2(), N9(), N6())
  {
    Path8(path);
  }

  lemma Path24(path: seq<Reg>)
    requires IsPath(path)
    ensures path[17] == Reg(N8(), N3(), N0(), N9(), ND(), N7())
    ensures path[18] == Reg(N8(), N0(), N5(), NF(), N5(), N5())
    ensures path[19] == Reg(N8(), N6(), NF(), N2(), N5(), N1())
    ensures path[20] == Reg(N8(), NB(), NA(), N8(), N5(), N9())
    ensures path[21] == Reg(N9(), N1(), N1(), NC(), N4(), N9())
    ensures path[22] == Reg(NA(), N4(), N7(), N4(), N6(), N9())
    ensures path[23] == Reg(NC(), NE(), NA(), N4(), N2(), N9())
    ensures path[24] == Reg(N1(), NB(), N0(), N4(), NA(), N9())
  {
    Path16(path);
  }

  lemma Path32(path: seq<Reg>)
    requires IsPath(path)
    ensures path[25] == Reg(N3(), N6(), N0(), N9(), N5(), N2())
    ensures path[26] == Reg(N6(), NC(), N1(), N2(), NA(), N4())
    ensures path[27] == Reg(ND(), N8(), N2(), N5(), N4(), N8())
    ensures path[28] == Reg(N3(), N6(), N0(), N6(), N6(), NB())
    ensures path[29] == Reg(N6(), NC(), N0(), NC(), ND(), N6())
    ensures path[30] == Reg(ND(), N8(), N1(), N9(), NA(), NC())
    ensures path[31] == Reg(N3(), N6(), N7(), NF(), NA(), N3())
    ensures path[32] == Reg(N6(), NC(), NF(), NF(), N4(), N6())
  {
    Path24(path);
  }

  lemma Path40(path: seq<Reg>)
    requires IsPath(path)
    ensures path[33] == Reg(ND(), N9(), NF(), NE(), N8(), NC())
    ensures path[34] == Reg(N3(), N5(), NB(), N1(), NE(), N3())
    ensures path[35] == Reg(N6(), NB(), N6(), N3(), NC(), N6())
    ensures path[36] == Reg(ND(), N6(), NC(), N7(), N8(), NC())
    ensures path[37] == Reg(N2(), NB(), NC(), N3(), NE(), N3())
    ensures path[38] == Reg(N5(), N7(), N8(), N7(), NC(), N6())
    ensures path[39] == Reg(NA(), NF(), N0(), NF(), N8(), NC())
    ensures path[40] == Reg(ND(), N8(), N5(), N3(), NE(), N3())
  {
    Path32(path);
  }

  lemma Path48(path: seq<Reg>)
    requires IsPath(path)
    ensures path[41] == Reg(N3(), N6(), NE(), NB(), N3(), ND())
    ensures path[42] == Reg(N6(), ND(), ND(), N6(), N7(), NA())
    ensures path[43] == Reg(ND(), NB(), NA(), NC(), NF(), N4())
    ensures path[44] == Reg(N3(), N1(), N1(), N5(), N1(), N3())
    ensures path[45] == Reg(N6(), N2(), N2(), NA(), N2(), N6())
    ensures path[46] == Reg(NC(), N4(), N5(), N4(), N4(), NC())
    ensures path[47] == Reg(N0(), NE(), NE(), N4(), N6(), N3())
    ensures path[48] == Reg(N1(), ND(), NC(), N8(), NC(), N6())
  {
    Path40(path);
  }

  lemma Path56(path: seq<Reg>)
    requires IsPath(path)
    ensures path[49] == Reg(N3(), NB(), N9(), N1(), N8(), NC())
    ensures path[50] == Reg(N7(), N7(), N2(), N3(), N1(), N8())
    ensures path[51] == Reg(NE(), NE(), N4(), N6(), N3(), N0())
    ensures path[52] == Reg(N5(), NA(), NC(), N0(), N9(), NB())
    ensures path[53] == Reg(NB(), N5(), N8(), N1(), N3(), N6())
    ensures path[54] == Reg(NE(), ND(), N4(), NE(), N9(), N7())
    ensures path[55] == Reg(N5(), NC(), ND(), N1(), ND(), N5())
    ensures path[56] == Reg(NB(), N9(), NA(), N3(), NA(), NA())
  {
    Path48(path);
  }

  lemma Path64(path: seq<Reg>)
    requires IsPath(path)
    ensures path[57] == Reg(NF(), N5(), N0(), NB(), NA(), NF())
    ensures path[58] == Reg(N6(), NC(), N5(), NB(), NA(), N5())
    ensures path[59] == Reg(ND(), N8(), NB(), N7(), N4(), NA())
    ensures path[60] == Reg(N3(), N7(), N2(), N2(), N6(), NF())
    ensures path[61] == Reg(N6(), NE(), N4(), N4(), ND(), NE())
    ensures path[62] == Reg(ND(), NC(), N8(), N9(), NB(), NC())
    ensures path[63] == Reg(N3(), NF(), N5(), NF(), N8(), N3())
    ensures path[64] == Reg(N7(), NE(), NB(), NF(), N0(), N6())
  {
    Path56(path);
  }

  lemma Masks1(path: seq<Reg>) returns (masks: seq<Mask>)
    requires IsPath(path)
    ensures |masks| == 8 && forall j | 0 <= j < 8 :: Row(masks[j], path, 1, j)
  {
    Path8(path);
    Picks(Mask(N0(), N0(), N9(), N5()), path, 1, 0);
    Picks(Mask(N0(), N0(), NE(), N1()), path, 1, 1);
    Picks(Mask(N0(), N0(), N0(), N9()), path, 1, 2);
    Picks(Mask(N0(), N0(), N1(), N2()), path, 1, 3);
    Picks(Mask(N0(), N0(), N2(), N5()), path, 1, 4);
    Picks(Mask(N0(), N0(), N4(), NB()), path, 1, 5);
    Picks(Mask(N0(), N0(), N9(), N7()), path, 1, 6);
    Picks(Mask(N0(), N0(), NE(), N5()), path, 1, 7);
    masks := [Mask(N0(), N0(), N9(), N5()), Mask(N0(), N0(), NE(), N1()), Mask(N0(), N0(), N0(), N9()),
              Mask(N0(), N0(), N1(), N2()), Mask(N0(), N0(), N2(), N5()), Mask(N0(), N0(), N4(), NB()),
              Mask(N0(), N0(), N9(), N7()), Mask(N0(), N0(), NE(), N5())];
  }

  lemma Masks2(path: seq<Reg>) returns (masks: seq<Mask>)
    requires IsPath(path)
    ensures |masks| == 8 && forall j | 0 <= j < 8 :: Row(masks[j], path, 9, j)
  {
    Path16(path);
    Picks(Mask(N0(), N1(), N2(), N1()), path, 9, 0);
    Picks(Mask(N0(), N2(), N0(), NA()), path, 9, 1);
    Picks(Mask(N0(), N3(), N3(), N6()), path, 9, 2);
    Picks(Mask(N0(), N0(), N2(), N7()), path, 9, 3);
    Picks(Mask(N0(), N0(), N0(), N7()), path, 9, 4);
    Picks(Mask(N0(), N1(), N2(), NF()), path, 9, 5);
    Picks(Mask(N0(), N3(), N3(), N7()), path, 9, 6);
    Picks(Mask(N0(), N0(), N2(), N4()), path, 9, 7);
    masks := [Mask(N0(), N1(), N2(), N1()), Mask(N0(), N2(), N0(), NA()), Mask(N0(), N3(), N3(), N6()),
              Mask(N0(), N0(), N2(), N7()), Mask(N0(), N0(), N0(), N7()), Mask(N0(), N1(), N2(), NF()),
              Mask(N0(), N3(), N3(), N7()), Mask(N0(), N0(), N2(), N4())];
  }

  lemma Masks3(path: seq<Reg>) returns (masks: seq<Mask>)
    requires IsPath(path)
    ensures |masks| == 8 && forall j | 0 <= j < 8 :: Row(masks[j], path, 17, j)
  {
    Path24(path);
    Picks(Mask(N0(), N0(), N0(), N2()), path, 17, 0);
    Picks(Mask(N0(), N0(), N0(), N6()), path, 17, 1);
    Picks(Mask(N0(), N0(), N0(), ND()), path, 17, 2);
    Picks(Mask(N0(), N0(), N1(), N9()), path, 17, 3);
    Picks(Mask(N0(), N0(), N3(), N1()), path, 17, 4);
    Picks(Mask(N0(), N0(), N6(), N1()), path, 17, 5);
    Picks(Mask(N0(), N0(), NC(), N3()), path, 17, 6);
    Picks(Mask(N0(), N0(), N8(), N2()), path, 17, 7);
    masks := [Mask(N0(), N0(), N0(), N2()), Mask(N0(), N0(), N0(), N6()), Mask(N0(), N0(), N0(), ND()),
              Mask(N0(), N0(), N1(), N9()), Mask(N0(), N0(), N3(), N1()), Mask(N0(), N0(), N6(), N1()),
              Mask(N0(), N0(), NC(), N3()), Mask(N0(), N0(), N8(), N2())];
  }

  lemma Masks4(path: seq<Reg>) returns (masks: seq<Mask>)
    requires IsPath(path)
    ensures |masks| == 8 && forall j | 0 <= j < 8 :: Row(masks[j], path, 25, j)
  {
    Path32(path);
    Picks(Mask(N0(), N0(), N2(), N6()), path, 25, 0);
    Picks(Mask(N0(), N0(), N6(), NA()), path, 25, 1);
    Picks(Mask(N0(), N0(), ND(), N5()), path, 25, 2);
    Picks(Mask(N0(), N0(), N9(), N6()), path, 25, 3);
    Picks(Mask(N0(), N0(), N3(), N6()), path, 25, 4);
    Picks(Mask(N0(), N0(), N4(), NB()), path, 25, 5);
    Picks(Mask(N0(), N0(), N9(), N7()), path, 25, 6);
    Picks(Mask(N0(), N0(), N1(), N3()), path, 25, 7);
    masks := [Mask(N0(), N0(), N2(), N6()), Mask(N0(), N0(), N6(), NA()), Mask(N0(), N0(), ND(), N5()),
              Mask(N0(), N0(), N9(), N6()), Mask(N0(), N0(), N3(), N6()), Mask(N0(), N0(), N4(), NB()),
              Mask(N0(), N0(), N9(), N7()), Mask(N0(), N0(), N1(), N3())];
  }

  lemma Masks5(path: seq<Reg>) returns (masks: seq<Mask>)
    requires IsPath(path)
    ensures |masks| == 8 && forall j | 0 <= j < 8 :: Row(masks[j], path, 33, j)
  {
    Path40(path);
    Picks(Mask(N0(), N1(), N0(), N5()), path, 33, 0);
    Picks(Mask(N0(), N2(), N0(), N5()), path, 33, 1);
    Picks(Mask(N0(), N4(), N0(), N4()), path, 33, 2);
    Picks(Mask(N0(), N8(), N0(), N7()), path, 33, 3);
    Picks(Mask(N1(), N1(), N0(), N4()), path, 33, 4);
    Picks(Mask(N0(), N4(), N0(), N7()), path, 33, 5);
    Picks(Mask(N0(), N9(), N0(), N5()), path, 33, 6);
    Picks(Mask(N1(), N3(), N0(), N0()), path, 33, 7);
    masks := [Mask(N0(), N1(), N0(), N5()), Mask(N0(), N2(), N0(), N5()), Mask(N0(), N4(), N0(), N4()),
              Mask(N0(), N8(), N0(), N7()), Mask(N1(), N1(), N0(), N4()), Mask(N0(), N4(), N0(), N7()),
              Mask(N0(), N9(), N0(), N5()), Mask(N1(), N3(), N0(), N0())];
  }

  lemma Masks6(path: seq<Reg>) returns (masks: seq<Mask>)
    requires IsPath(path)
    ensures |masks| == 8 && forall j | 0 <= j < 8 :: Row(masks[j], path, 41, j)
  {
    Path48(path);
    Picks(Mask(N0(), N0(), N6(), NB()), path, 41, 0);
    Picks(Mask(N0(), N0(), ND(), N6()), path, 41, 1);
    Picks(Mask(N0(), N0(), N6(), N4()), path, 41, 2);
    Picks(Mask(N0(), N0(), NC(), N9()), path, 41, 3);
    Picks(Mask(N0(), N0(), N5(), NA()), path, 41, 4);
    Picks(Mask(N0(), N0(), NB(), N5()), path, 41, 5);
    Picks(Mask(N0(), N0(), NA(), N3()), path, 41, 6);
    Picks(Mask(N0(), N0(), NE(), N4()), path, 41, 7);
    masks := [Mask(N0(), N0(), N6(), NB()), Mask(N0(), N0(), ND(), N6()), Mask(N0(), N0(), N6(), N4()),
              Mask(N0(), N0(), NC(), N9()), Mask(N0(), N0(), N5(), NA()), Mask(N0(), N0(), NB(), N5()),
              Mask(N0(), N0(), NA(), N3()), Mask(N0(), N0(), NE(), N4())];
  }

  lemma Masks7(path: seq<Reg>) returns (masks: seq<Mask>)
    requires IsPath(path)
    ensures |masks| == 8 && forall j | 0 <= j < 8 :: Row(masks[j], path, 49, j)
  {
    Path56(path);
    Picks(Mask(N0(), N0(), NF(), NE()), path, 49, 0);
    Picks(Mask(N0(), N0(), N4(), NE()), path, 49, 1);
    Picks(Mask(N0(), N0(), N6(), N3()), path, 49, 2);
    Picks(Mask(N0(), N0(), NC(), N7()), path, 49, 3);
    Picks(Mask(N0(), N0(), N3(), NC()), path, 49, 4);
    Picks(Mask(N0(), N0(), N8(), N6()), path, 49, 5);
    Picks(Mask(N0(), N0(), N4(), N0()), path, 49, 6);
    Picks(Mask(N0(), N0(), N7(), NF()), path, 49, 7);
    masks := [Mask(N0(), N0(), NF(), NE()), Mask(N0(), N0(), N4(), NE()), Mask(N0(), N0(), N6(), N3()),
              Mask(N0(), N0(), NC(), N7()), Mask(N0(), N0(), N3(), NC()), Mask(N0(), N0(), N8(), N6()),
              Mask(N0(), N0(), N4(), N0()), Mask(N0(), N0(), N7(), NF())];
  }

  lemma Masks8(path: seq<Reg>) returns (masks: seq<Mask>)
    requires IsPath(path)
    ensures |masks| == 8 && forall j | 0 <= j < 8 :: Row(masks[j], path, 57, j)
  {
    Path64(path);
    Picks(Mask(N0(), N0(), N5(), N7()), path, 57, 0);
    Picks(Mask(N0(), N0(), NF(), N9()), path, 57, 1);
    Picks(Mask(N0(), N0(), ND(), NE()), path, 57, 2);
    Picks(Mask(N0(), N0(), N9(), N1()), path, 57, 3);
    Picks(Mask(N0(), N0(), N0(), NF()), path, 57, 4);
    Picks(Mask(N0(), N0(), N1(), NF()), path, 57, 5);
    Picks(Mask(N0(), N0(), N3(), NE()), path, 57, 6);
    Picks(Mask(N0(), N0(), N2(), NB()), path, 57, 7);
    masks := [Mask(N0(), N0(), N5(), N7()), Mask(N0(), N0(), NF(), N9()), Mask(N0(), N0(), ND(), NE()),
              Mask(N0(), N0(), N9(), N1()), Mask(N0(), N0(), N0(), NF()), Mask(N0(), N0(), N1(), NF()),
              Mask(N0(), N0(), N3(), NE()), Mask(N0(), N0(), N2(), NB())];
  }

  lemma Masks(bytes: nat) returns (masks: seq<Mask>)
    requires 1 <= bytes <= 8
    ensures |masks| == 8 && forall j | 0 <= j < 8 :: ReadsBit(masks, 8 * bytes, j)
  {
    var path := TopPath();
    TopPathIs();
    match bytes {
      case 1 => masks := Masks1(path);
      case 2 => masks := Masks2(path);
      case 3 => masks := Masks3(path);
      case 4 => masks := Masks4(path);
      case 5 => masks := Masks5(path);
      case 6 => masks := Masks6(path);
      case 7 => masks := Masks7(path);
      case 8 => masks := Masks8(path);
    }
    forall j | 0 <= j < 8 ensures ReadsBit(masks, 8 * bytes, j) {
      RowReads(masks[j], 8 * bytes, j);
    }
  }

  // ---- The theorem ----

  lemma PlacedTop(b: byte)
    ensures In24(Placed(b, 25)) && forall k | 0 <= k < 16 :: !Placed(b, 25)[k]
  {
    PlacedBit24(b);
    assert Pow2(8) == 256 && Pow2(16) == 256 * Pow2(8);
    forall k | 0 <= k < 16 ensures !Placed(b, 25)[k] {
      LowBitsClear(b, 16, k);
    }
  }

  lemma {:induction false} LowBitsClear(x: nat, n: nat, k: nat)
    requires k < n
    ensures !Bit(x * Pow2(n), k)
  {
    Half(x * Pow2(n), x * Pow2(n - 1), false);
    if k > 0 {
      LowBitsClear(x, n - 1, k - 1);
    }
  }

  lemma RfcSplit(pre: seq<byte>, b: byte, rest: seq<byte>, n: nat)
    requires n == 8
    ensures Rfc(pre + [b] + rest) == RfcFrom(RfcShifts(Xor(Rfc(pre), Placed(b, 25)), n), rest)
  {
    RfcConcat(Num(INIT, 25), pre + [b], rest);
    assert (pre + [b])[..|pre|] == pre;
  }

  /** What a change of one byte makes of the register in the end; n is the eight shifts of that byte itself. */
  lemma DifferenceIs(pre: seq<byte>, b: byte, c: byte, rest: seq<byte>, n: nat)
    requires n == 8
    ensures Xor(Rfc(pre + [b] + rest), Rfc(pre + [c] + rest)) ==
            RfcShifts(Xor(Placed(b, 25), Placed(c, 25)), n + 8 * |rest|)
  {
    var r, d, e := Rfc(pre), Placed(b, 25), Placed(c, 25);
    InitBit24();
    SuffixKeeps(Num(INIT, 25), Num(INIT, 25), pre);
    RfcSplit(pre, b, rest, n);
    RfcSplit(pre, c, rest, n);
    PlacedTop(b);
    PlacedTop(c);
    ByteDiffers(r, d, e, n);
    DifferenceMovesFrom(RfcShifts(Xor(r, d), n), RfcShifts(Xor(r, e), n), Xor(d, e), n, rest);
  }

  lemma ByteDiffers(r: Bits, d: Bits, e: Bits, n: nat)
    requires In24(r) && In24(d) && In24(e)
    ensures In24(RfcShifts(Xor(r, d), n)) && In24(RfcShifts(Xor(r, e), n))
    ensures Xor(RfcShifts(Xor(r, d), n), RfcShifts(Xor(r, e), n)) == RfcShifts(Xor(d, e), n)
  {
    SameAdded(d, e, r);
    ShiftsLinear(Xor(r, d), Xor(r, e), n);
    ShiftsIn24(Xor(r, d), n);
    ShiftsIn24(Xor(r, e), n);
  }

  lemma DifferenceMovesFrom(x: Bits, y: Bits, d: Bits, n: nat, rest: seq<byte>)
    requires In24(x) && In24(y) && |d| == 25 && Xor(x, y) == RfcShifts(d, n)
    ensures |RfcFrom(x, rest)| == |RfcFrom(y, rest)|
    ensures Xor(RfcFrom(x, rest), RfcFrom(y, rest)) == RfcShifts(d, n + 8 * |rest|)
  {
    DifferenceMoves(x, y, rest);
    Later(d, Xor(x, y), n, 8 * |rest|);
  }

  lemma PlacedDiffer(b: byte, c: byte)
    requires b != c
    ensures Xor(Placed(b, 25), Placed(c, 25)) != Zero()
  {
    var x, y := Placed(b, 25), Placed(c, 25);
    if x == y {
      PlacedInjective(b, c);
      assert false;
    }
    var i :| 0 <= i < 25 && x[i] != y[i];
    assert Xor(x, y)[i] && !Zero()[i];
  }

  /** Inputs that differ in exactly one of their last eight bytes differ in the low 16 bits of their CRC-24. */
  lemma OneByteShows(pre: seq<byte>, b: byte, c: byte, rest: seq<byte>)
    requires b != c && |rest| < 8
    ensures Sum24(pre + [b] + rest)[..16] != Sum24(pre + [c] + rest)[..16]
  {
    var d := Xor(Placed(b, 25), Placed(c, 25));
    PlacedTop(b);
    PlacedTop(c);
    PlacedDiffer(b, c);
    var masks := Masks(|rest| + 1);
    ChangeShows(masks, 8 * (|rest| + 1), d);
    DifferenceIs(pre, b, c, rest, 8);
    LowBitsDiffer(Rfc(pre + [b] + rest), Rfc(pre + [c] + rest));
  }

  lemma LowBitsDiffer(x: Bits, y: Bits)
    requires |x| == |y| == 25 && exists i | 0 <= i < 16 :: Xor(x, y)[i]
    ensures x[..24][..16] != y[..24][..16]
  {
    var i :| 0 <= i < 16 && Xor(x, y)[i];
    assert x[..24][..16][i] != y[..24][..16][i];
  }
}
