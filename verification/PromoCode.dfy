/** Promo codes: payload, checksum and version characters (pkg/promo/generate.go), with the base32 alphabet of section 6
    of RFC 4648. Codes are byte strings. */
module PromoCode {
  import opened Crc24
  import opened Crc24Typos
  import opened Numbers

  const PAYLOAD_LENGTH := 8
  const CHECKSUM_LENGTH := 4
  const CODE_LENGTH := 13
  const VERSION: byte := 65  // 'A'
  const PAD: byte := 61      // '='

  /** The number a bit string denotes. */
  function ToNum(b: Bits): (r: nat)
    ensures r < Pow2(|b|)
  {
    if |b| == 0 then 0 else (if b[0] then 1 else 0) + 2 * ToNum(b[1..])
  }

  lemma {:induction false} NumToNum(b: Bits)
    ensures Num(ToNum(b), |b|) == b
  {
    if |b| > 0 {
      NumToNum(b[1..]);
      var x := ToNum(b);
      forall i | 0 <= i < |b| ensures Bit(x, i) == b[i] {
        if i > 0 {
          assert Num(ToNum(b[1..]), |b| - 1)[i - 1] == b[1..][i - 1];
          assert x / 2 == ToNum(b[1..]);
        }
      }
    }
  }

  /** A base32 character of a 5-bit value, and back. */
  function Letter(v: nat): byte
    requires v < 32
  {
    if v < 26 then 65 + v else 50 + (v - 26)
  }

  predicate IsLetter(c: byte) {
    65 <= c <= 90 || 50 <= c <= 55
  }

  function LetterValue(c: byte): (v: nat)
    requires IsLetter(c)
    ensures v < 32 && Letter(v) == c
  {
    if c >= 65 then c - 65 else c - 50 + 26
  }

  function Encode5(b: Bits): byte
    requires |b| == 5
  {
    assert Pow2(5) == 32;
    Letter(ToNum(b))
  }

  function Decode5(c: byte): (b: Bits)
    requires IsLetter(c)
    ensures |b| == 5
  {
    Num(LetterValue(c), 5)
  }

  lemma Encode5Inverse(b: Bits)
    requires |b| == 5
    ensures IsLetter(Encode5(b)) && Decode5(Encode5(b)) == b
  {
    assert Pow2(5) == 32;
    NumToNum(b);
    var v := ToNum(b);
    assert LetterValue(Letter(v)) == v;
  }

  // ---- The checksum characters ----

  /** The low 16 bits of the CRC-24 of the payload characters. */
  function Checksum16(payload: seq<byte>): (b: Bits)
    ensures |b| == 16
  {
    Sum24(payload)[..16]
  }

  /** base32 of two bytes, cut before the padding: the last character carries one bit and four zeros. */
  function EncodeChecksum(b: Bits): (cs: seq<byte>)
    requires |b| == 16
    ensures |cs| == CHECKSUM_LENGTH
  {
    [Encode5(b[11..16]), Encode5(b[6..11]), Encode5(b[1..6]), Encode5([false, false, false, false] + b[..1])]
  }

  /** What Go's base32 makes of four characters followed by "====": two bytes, one byte, or an error. */
  datatype Decoded = TwoBytes(bits: Bits) | OneByte | Corrupt

  function DecodeChecksum(cs: seq<byte>): Decoded
    requires |cs| == CHECKSUM_LENGTH
  {
    if IsLetter(cs[0]) && IsLetter(cs[1]) && IsLetter(cs[2]) && IsLetter(cs[3]) then
      TwoBytes(Decode5(cs[3])[4..] + Decode5(cs[2]) + Decode5(cs[1]) + Decode5(cs[0]))
    else if IsLetter(cs[0]) && IsLetter(cs[1]) && cs[2] == cs[3] == PAD then OneByte
    else Corrupt
  }

  lemma ChecksumRoundTrip(b: Bits)
    requires |b| == 16
    ensures DecodeChecksum(EncodeChecksum(b)) == TwoBytes(b)
  {
    Encode5Inverse(b[11..16]);
    Encode5Inverse(b[6..11]);
    Encode5Inverse(b[1..6]);
    Encode5Inverse([false, false, false, false] + b[..1]);
    assert b == b[..1] + b[1..6] + b[6..11] + b[11..16];
  }

  // ---- Codes ----

  /** A code's characters: payload, checksum, version. */
  function Assemble(payload: seq<byte>): (code: seq<byte>)
    requires |payload| == PAYLOAD_LENGTH
    ensures |code| == CODE_LENGTH
  {
    payload + EncodeChecksum(Checksum16(payload)) + [VERSION]
  }

  /** OutOfBounds is Go's index panic on a one-byte checksum. */
  datatype Verdict = Rejected | Accepted(payload: seq<byte>) | OutOfBounds

  /** ValidateCode. */
  method ValidateCode(code: seq<byte>) returns (v: Verdict)
    ensures v == Judged(code)
  {
    if |code| != CODE_LENGTH {
      return Rejected;
    }
    var payload := code[..PAYLOAD_LENGTH];
    var checksumEncoded := code[PAYLOAD_LENGTH..PAYLOAD_LENGTH + CHECKSUM_LENGTH];
    var version := code[PAYLOAD_LENGTH + CHECKSUM_LENGTH];
    if version != VERSION {
      return Rejected;
    }
    var decoded := DecodeChecksum(checksumEncoded);
    if decoded.Corrupt? {
      return Rejected;
    }
    if decoded.OneByte? {
      return OutOfBounds;
    }
    var calculated := Checksum(payload);
    if decoded.bits != calculated[..16] {
      return Rejected;
    }
    return Accepted(payload);
  }

  function Judged(code: seq<byte>): Verdict {
    if |code| != CODE_LENGTH || code[12] != VERSION then Rejected
    else
      match DecodeChecksum(code[8..12])
      case Corrupt => Rejected
      case OneByte => OutOfBounds
      case TwoBytes(bits) => if bits == Checksum16(code[..8]) then Accepted(code[..8]) else Rejected
  }

  /** Every assembled code is accepted and gives back its payload. */
  lemma AssembledAccepted(payload: seq<byte>)
    requires |payload| == PAYLOAD_LENGTH
    ensures Judged(Assemble(payload)) == Accepted(payload)
  {
    var code := Assemble(payload);
    assert code[..8] == payload && code[8..12] == EncodeChecksum(Checksum16(payload));
    ChecksumRoundTrip(Checksum16(payload));
  }

  /** The checksum characters that decode to a given sum. */
  lemma DecodeIff(cs: seq<byte>, sum: Bits)
    requires |cs| == 4 && |sum| == 16
    ensures DecodeChecksum(cs) == TwoBytes(sum) <==>
            cs[..3] == EncodeChecksum(sum)[..3] && IsLetter(cs[3]) && Decode5(cs[3])[4] == sum[0]
  {
    if IsLetter(cs[0]) && IsLetter(cs[1]) && IsLetter(cs[2]) && IsLetter(cs[3]) {
      SumFields(cs, sum);
    } else {
      EncodedLetters(sum);
      var e := EncodeChecksum(sum);
      assert cs[..3] == [cs[0], cs[1], cs[2]] && e[..3] == [e[0], e[1], e[2]];
    }
  }

  /** The codes accepted for a payload are the assembled one and those that differ from it only in the four unused bits
      of the last checksum character. */
  lemma AcceptedIff(code: seq<byte>, payload: seq<byte>)
    requires |payload| == PAYLOAD_LENGTH
    ensures Judged(code) == Accepted(payload) <==>
      (|code| == CODE_LENGTH && code[..11] == Assemble(payload)[..11] && code[12] == VERSION && IsLetter(code[11]) &&
       Decode5(code[11])[4] == Checksum16(payload)[0])
  {
    if |code| == CODE_LENGTH {
      var sum, cs := Checksum16(payload), code[8..12];
      var e := EncodeChecksum(sum);
      DecodeIff(cs, sum);
      Prefix11(code, cs, payload, e);
    }
  }

  // ---- Codes that go wrong ----

  /** Exactly the codes on which ValidateCode indexes past the decoded checksum: two letters and two padding characters
      where the checksum belongs. */
  lemma PanicsIff(code: seq<byte>)
    ensures Judged(code) == OutOfBounds <==>
      |code| == CODE_LENGTH && code[12] == VERSION &&
      IsLetter(code[8]) && IsLetter(code[9]) && code[10] == code[11] == PAD
  {
    if |code| == CODE_LENGTH {
      var cs := code[8..12];
      assert cs[0] == code[8] && cs[1] == code[9] && cs[2] == code[10] && cs[3] == code[11];
    }
  }

  /** "AAAAAAAAAA==A" is such a code. */
  lemma PanicExample()
    ensures Judged([65, 65, 65, 65, 65, 65, 65, 65, 65, 65, 61, 61, 65]) == OutOfBounds
  {
    PanicsIff([65, 65, 65, 65, 65, 65, 65, 65, 65, 65, 61, 61, 65]);
  }

  /** A change of one payload character is always caught. */
  lemma PayloadTypo(code: seq<byte>, i: nat, c: byte)
    requires Judged(code).Accepted? && i < PAYLOAD_LENGTH && c != code[i]
    ensures Judged(code[i := c]) == Rejected
  {
    var typo := code[i := c];
    var pre, rest := code[..i], code[i + 1..8];
    assert typo[8..12] == code[8..12];
    assert code[..8] == pre + [code[i]] + rest && typo[..8] == pre + [c] + rest;
    OneByteShows(pre, code[i], c, rest);
  }

  /** A change of one character of an accepted code, whichever it is, is caught, unless it is the last checksum
      character and changes only the four bits that carry nothing. */
  lemma OneCharacterTypo(code: seq<byte>, i: nat, c: byte)
    requires Judged(code).Accepted? && i < CODE_LENGTH && c != code[i]
    ensures Judged(code[i := c]) ==
      if i == 11 && IsLetter(c) && Decode5(c)[4] == Decode5(code[11])[4] then Accepted(code[..8]) else Rejected
  {
    var typo, payload := code[i := c], code[..8];
    AcceptedIff(code, payload);
    if i < 8 {
      PayloadTypo(code, i, c);
    } else {
      assert typo[..8] == payload;
      AcceptedIff(typo, payload);
      TypoDecodes(code, i, c);
      if i < 11 {
        assert code[..11][i] != typo[..11][i];
      } else {
        assert typo[..11] == code[..11];
      }
    }
  }

  /** One change leaves too many letters for a one-byte checksum. */
  lemma TypoDecodes(code: seq<byte>, i: nat, c: byte)
    requires Judged(code).Accepted? && 8 <= i < CODE_LENGTH
    ensures Judged(code[i := c]) == Rejected || Judged(code[i := c]) == Accepted(code[..8])
  {
    PanicsIff(code[i := c]);
    PanicsIff(code);
    assert code[i := c][..8] == code[..8];
    var cs := code[8..12];
    assert IsLetter(cs[0]) && IsLetter(cs[1]) && IsLetter(cs[2]) && IsLetter(cs[3]);
    assert !IsLetter(PAD);
  }

  lemma Prefix11(code: seq<byte>, cs: seq<byte>, payload: seq<byte>, e: seq<byte>)
    requires |code| == 13 && cs == code[8..12] && |payload| == 8 && |e| == 4
    ensures code[..11] == (payload + e + [VERSION])[..11] <==> code[..8] == payload && cs[..3] == e[..3]
    ensures cs[3] == code[11]
  {
    var good := payload + e + [VERSION];
    assert code[..11] == code[..8] + cs[..3] && good[..11] == payload + e[..3];
    if code[..11] == good[..11] {
      assert code[..8] == code[..11][..8] && payload == good[..11][..8];
      assert cs[..3] == code[..11][8..] && e[..3] == good[..11][8..];
    }
  }

  lemma EncodedLetters(b: Bits)
    requires |b| == 16
    ensures forall i | 0 <= i < 4 :: IsLetter(EncodeChecksum(b)[i])
  {
    Encode5Inverse(b[11..16]);
    Encode5Inverse(b[6..11]);
    Encode5Inverse(b[1..6]);
    Encode5Inverse([false, false, false, false] + b[..1]);
  }

  /** Decoding to a given sum, character by character. */
  lemma SumFields(cs: seq<byte>, b: Bits)
    requires |cs| == 4 && |b| == 16 && forall i | 0 <= i < 4 :: IsLetter(cs[i])
    ensures DecodeChecksum(cs) == TwoBytes(b) <==> cs[..3] == EncodeChecksum(b)[..3] && Decode5(cs[3])[4] == b[0]
  {
    var d := Decode5(cs[3])[4..] + Decode5(cs[2]) + Decode5(cs[1]) + Decode5(cs[0]);
    assert d[..1] == [Decode5(cs[3])[4]] && d[1..6] == Decode5(cs[2]);
    assert d[6..11] == Decode5(cs[1]) && d[11..16] == Decode5(cs[0]);
    assert b == b[..1] + b[1..6] + b[6..11] + b[11..16] && b[..1] == [b[0]];
    Encode5Inverse(b[11..16]);
    Encode5Inverse(b[6..11]);
    Encode5Inverse(b[1..6]);
    LetterOfBits(cs[0]);
    LetterOfBits(cs[1]);
    LetterOfBits(cs[2]);
    var e := EncodeChecksum(b);
    assert cs[..3] == [cs[0], cs[1], cs[2]] && e[..3] == [e[0], e[1], e[2]];
    assert d == b <==> d[..1] == b[..1] && d[1..6] == b[1..6] && d[6..11] == b[6..11] && d[11..16] == b[11..16];
  }

  lemma LetterOfBits(c: byte)
    requires IsLetter(c)
    ensures Encode5(Decode5(c)) == c
  {
    var v := LetterValue(c);
    assert Pow2(5) == 32;
    NumToNum(Decode5(c));
    var w := ToNum(Decode5(c));
    forall i | 0 <= i < 5 ensures Bit(v, i) == Bit(w, i) {
      assert Num(v, 5)[i] == Num(w, 5)[i];
    }
    NumInjective(v, w, 5);
  }

  // ---- Generating ----

  /** The 40 bits of five bytes, as one big-endian number. */
  function PayloadBits(p: seq<byte>): (b: Bits)
    requires |p| == 5
    ensures |b| == 40
  {
    Num(p[4], 8) + Num(p[3], 8) + Num(p[2], 8) + Num(p[1], 8) + Num(p[0], 8)
  }

  function EncodePayload(p: seq<byte>): (e: seq<byte>)
    requires |p| == 5
    ensures |e| == PAYLOAD_LENGTH
  {
    seq(8, i requires 0 <= i < 8 => Encode5(PayloadBits(p)[35 - 5 * i..40 - 5 * i]))
  }

  /** GenerateCode from the derived payload bytes on. */
  method GenerateCode(p: seq<byte>) returns (code: seq<byte>)
    requires |p| == 5
    ensures code == Assemble(EncodePayload(p)) && Judged(code) == Accepted(EncodePayload(p))
  {
    var bits := PayloadBits(p);
    var encoded: seq<byte> := [];
    for i := 0 to 8
      invariant |encoded| == i
      invariant forall j | 0 <= j < i :: encoded[j] == Encode5(bits[35 - 5 * j..40 - 5 * j])
    {
      encoded := encoded + [Encode5(bits[35 - 5 * i..40 - 5 * i])];
    }
    assert encoded == EncodePayload(p);
    var sum := Checksum(encoded);
    code := encoded + EncodeChecksum(sum[..16]) + [VERSION];
    AssembledAccepted(encoded);
  }

  /** Different payload bytes give different codes: base32 loses nothing. */
  lemma PayloadInjective(p: seq<byte>, q: seq<byte>)
    requires |p| == |q| == 5 && EncodePayload(p) == EncodePayload(q)
    ensures p == q
  {
    var a, b := PayloadBits(p), PayloadBits(q);
    forall i | 0 <= i < 8 ensures a[35 - 5 * i..40 - 5 * i] == b[35 - 5 * i..40 - 5 * i] {
      assert EncodePayload(p)[i] == EncodePayload(q)[i];
      Encode5Inverse(a[35 - 5 * i..40 - 5 * i]);
      Encode5Inverse(b[35 - 5 * i..40 - 5 * i]);
    }
    SameGroups(a, b);
    forall k | 0 <= k < 5 ensures p[k] == q[k] {
      BitsOfByte(p, k);
      BitsOfByte(q, k);
      ByteOfBits(p[k], q[k]);
    }
  }

  lemma SameGroups(a: seq<bool>, b: seq<bool>)
    requires |a| == |b| == 40
    requires forall i | 0 <= i < 8 :: a[35 - 5 * i..40 - 5 * i] == b[35 - 5 * i..40 - 5 * i]
    ensures a == b
  {
    forall i | 0 <= i < 40 ensures a[i] == b[i] {
      var g := 7 - i / 5;
      assert a[35 - 5 * g..40 - 5 * g][i % 5] == b[35 - 5 * g..40 - 5 * g][i % 5];
    }
  }

  lemma BitsOfByte(p: seq<byte>, k: nat)
    requires |p| == 5 && k < 5
    ensures PayloadBits(p)[32 - 8 * k..40 - 8 * k] == Num(p[k], 8)
  {
  }

  lemma ByteOfBits(x: byte, y: byte)
    requires Num(x, 8) == Num(y, 8)
    ensures x == y
  {
    assert Pow2(8) == 256;
    forall i | 0 <= i < 8 ensures Bit(x, i) == Bit(y, i) {
      assert Num(x, 8)[i] == Num(y, 8)[i];
    }
    NumInjective(x, y, 8);
  }
}
