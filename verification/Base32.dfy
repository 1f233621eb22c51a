/** What the characters of a promo code spell (pkg/promo/generate.go), against sections 4 and 6 of RFC 4648: the
    alphabet, and the number that base32 text denotes. */
module Base32 {
  import opened Numbers
  import opened Crc24
  import opened PromoCode

  /** The alphabet of section 6. */
  lemma Alphabet(v: nat)
    requires v < 32
    ensures IsLetter(Letter(v)) && Letter(v) == "ABCDEFGHIJKLMNOPQRSTUVWXYZ234567"[v] as int
  {
    var s := "ABCDEFGHIJKLMNOPQRSTUVWXYZ234567";
    assert v < 16 ==> s[..16] == "ABCDEFGHIJKLMNOP" && s[v] == s[..16][v];
    assert v >= 16 ==> s[16..] == "QRSTUVWXYZ234567" && s[v] == s[16..][v - 16];
  }

  predicate Letters(s: seq<byte>) {
    forall i | 0 <= i < |s| :: IsLetter(s[i])
  }

  /** The number base32 text denotes, most significant character first. */
  function Base32Value(s: seq<byte>): nat
    requires Letters(s)
  {
    if |s| == 0 then 0 else 32 * Base32Value(s[..|s| - 1]) + LetterValue(s[|s| - 1])
  }

  /** The number a byte string denotes, most significant byte first. */
  function BytesValue(s: seq<byte>): nat {
    if |s| == 0 then 0 else 256 * BytesValue(s[..|s| - 1]) + s[|s| - 1]
  }

  /** Bits, the most significant last, as n characters of five bits. */
  function EncodeBits(b: Bits, n: nat): (s: seq<byte>)
    requires |b| == 5 * n
    ensures |s| == n
  {
    if n == 0 then [] else EncodeBits(b[5..], n - 1) + [Encode5(b[..5])]
  }

  lemma {:induction false} ToNumConcat(a: Bits, b: Bits)
    ensures ToNum(a + b) == ToNum(a) + Pow2(|a|) * ToNum(b)
  {
    if |a| == 0 {
      assert a + b == b;
    } else {
      assert (a + b)[1..] == a[1..] + b;
      ToNumConcat(a[1..], b);
      Combine(ToNum(a), ToNum(a[1..]), ToNum(a + b), ToNum(a[1..] + b), if a[0] then 1 else 0, Pow2(|a| - 1), ToNum(b));
    }
  }

  lemma Combine(a: nat, a1: nat, s: nat, s1: nat, first: nat, p: nat, x: nat)
    requires a == first + 2 * a1 && s == first + 2 * s1 && s1 == a1 + p * x
    ensures s == a + (2 * p) * x
  {
    assert (2 * p) * x == 2 * (p * x);
  }

  lemma ToNumNum(x: nat, n: nat)
    requires x < Pow2(n)
    ensures ToNum(Num(x, n)) == x
  {
    var b := Num(x, n);
    NumToNum(b);
    forall i | 0 <= i < n ensures Bit(ToNum(b), i) == Bit(x, i) {
      assert Num(ToNum(b), n)[i] == b[i];
    }
    NumInjective(ToNum(b), x, n);
  }

  lemma {:induction false} EncodeBitsValue(b: Bits, n: nat)
    requires |b| == 5 * n
    ensures Letters(EncodeBits(b, n)) && Base32Value(EncodeBits(b, n)) == ToNum(b)
  {
    if n > 0 {
      EncodeBitsValue(b[5..], n - 1);
      LowFive(b);
      Encode5Value(b[..5]);
      var s, init := EncodeBits(b, n), EncodeBits(b[5..], n - 1);
      assert s[..|s| - 1] == init;
    }
  }

  lemma LowFive(b: Bits)
    requires |b| >= 5
    ensures ToNum(b) == ToNum(b[..5]) + 32 * ToNum(b[5..])
  {
    var lo, hi := b[..5], b[5..];
    assert b == lo + hi && |lo| == 5;
    FivePow();
    ToNumConcat(lo, hi);
  }

  lemma FivePow()
    ensures Pow2(5) == 32
  {
  }

  lemma Encode5Value(b: Bits)
    requires |b| == 5
    ensures IsLetter(Encode5(b)) && LetterValue(Encode5(b)) == ToNum(b)
  {
    assert Pow2(5) == 32;
  }

  // ---- Payload and checksum ----

  lemma {:induction false} EncodeBitsAt(b: Bits, n: nat, i: nat, lo: nat, group: Bits)
    requires |b| == 5 * n && i < n && lo + 5 * i + 5 == 5 * n && group == b[lo..lo + 5]
    ensures EncodeBits(b, n)[i] == Encode5(group)
    decreases n
  {
    if i < n - 1 {
      Shifted(b, 5, lo, lo + 5);
      EncodeBitsAt(b[5..], n - 1, i, lo - 5, group);
    } else {
      Shifted(b, 0, 0, 5);
    }
  }

  lemma Shifted(b: Bits, k: nat, lo: nat, hi: nat)
    requires k <= lo <= hi <= |b|
    ensures b[k..][lo - k..hi - k] == b[lo..hi] && b[..hi] == b[0..hi]
  {
  }

  /** The payload characters spell the number that the five payload bytes are. */
  lemma PayloadSpells(p: seq<byte>)
    requires |p| == 5
    ensures Letters(EncodePayload(p)) && Base32Value(EncodePayload(p)) == BytesValue(p)
  {
    var b := PayloadBits(p);
    forall i | 0 <= i < 8 ensures EncodePayload(p)[i] == EncodeBits(b, 8)[i] {
      EncodeBitsAt(b, 8, i, 35 - 5 * i, b[35 - 5 * i..40 - 5 * i]);
    }
    assert EncodePayload(p) == EncodeBits(b, 8);
    EncodeBitsValue(b, 8);
    PayloadValue(p);
  }

  lemma PayloadValue(p: seq<byte>)
    requires |p| == 5
    ensures ToNum(PayloadBits(p)) == BytesValue(p)
  {
    var b0, b1, b2, b3, b4 := Num(p[0], 8), Num(p[1], 8), Num(p[2], 8), Num(p[3], 8), Num(p[4], 8);
    ByteAbove(p[0], []);
    ByteAbove(p[1], b0 + []);
    ByteAbove(p[2], b1 + (b0 + []));
    ByteAbove(p[3], b2 + (b1 + (b0 + [])));
    ByteAbove(p[4], b3 + (b2 + (b1 + (b0 + []))));
    Reassociate(b0, b1, b2, b3, b4);
    Bytes5(p);
  }

  lemma Reassociate(b0: Bits, b1: Bits, b2: Bits, b3: Bits, b4: Bits)
    ensures b4 + b3 + b2 + b1 + b0 == b4 + (b3 + (b2 + (b1 + (b0 + []))))
  {
  }

  lemma ByteAbove(x: byte, rest: Bits)
    ensures ToNum(Num(x, 8) + rest) == x + 256 * ToNum(rest)
  {
    assert Pow2(8) == 256;
    ToNumNum(x, 8);
    ToNumConcat(Num(x, 8), rest);
  }

  lemma Bytes5(p: seq<byte>)
    requires |p| == 5
    ensures BytesValue(p) ==
      p[4] as int + 256 * (p[3] as int + 256 * (p[2] as int + 256 * (p[1] as int + 256 * p[0] as int)))
  {
    assert p[..4][..3] == p[..3] && p[..3][..2] == p[..2] && p[..2][..1] == p[..1] && p[..1][..0] == [];
    assert BytesValue(p[..1]) == p[0];
    assert BytesValue(p[..2]) == 256 * BytesValue(p[..1]) + p[1];
    assert BytesValue(p[..3]) == 256 * BytesValue(p[..2]) + p[2];
    assert BytesValue(p[..4]) == 256 * BytesValue(p[..3]) + p[3];
  }

  /** The checksum characters spell the low 16 bits of the CRC-24, with four zero bits after them. */
  lemma ChecksumSpells(payload: seq<byte>)
    ensures var cs := EncodeChecksum(Checksum16(payload));
      Letters(cs) && Base32Value(cs) == 16 * (ToNum(Sum24(payload)) % 65536)
  {
    EncodeBitsValue([false, false, false, false] + Checksum16(payload), 4);
    PaddedGroups(Checksum16(payload));
    FourZeros(Checksum16(payload));
    LowSixteen(Sum24(payload));
  }

  lemma FourZeros(b: Bits)
    ensures ToNum([false, false, false, false] + b) == 16 * ToNum(b)
  {
    var z := [false, false, false, false];
    ToNumConcat(z, b);
    assert z[1..][1..][1..][1..] == [] && Pow2(4) == 16;
    assert ToNum(z[1..][1..][1..]) == 0;
    assert ToNum(z[1..]) == 0;
  }

  lemma LowSixteen(sum: Bits)
    requires |sum| == 24
    ensures ToNum(sum[..16]) == ToNum(sum) % 65536
  {
    assert sum == sum[..16] + sum[16..];
    ToNumConcat(sum[..16], sum[16..]);
    assert Pow2(8) == 256 && Pow2(16) == 65536;
    ModUnique(ToNum(sum), 65536, ToNum(sum[16..]), ToNum(sum[..16]));
  }

  lemma PaddedGroups(b: Bits)
    requires |b| == 16
    ensures EncodeChecksum(b) == EncodeBits([false, false, false, false] + b, 4)
  {
    var padded := [false, false, false, false] + b;
    forall i | 0 <= i < 4 ensures EncodeChecksum(b)[i] == EncodeBits(padded, 4)[i] {
      EncodeBitsAt(padded, 4, i, 15 - 5 * i, padded[15 - 5 * i..20 - 5 * i]);
      assert padded[15..20] == b[11..16] && padded[10..15] == b[6..11] && padded[5..10] == b[1..6];
      assert padded[0..5] == [false, false, false, false] + b[..1];
    }
  }
}
