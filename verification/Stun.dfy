/** The STUN Binding Response parser (pkg/discovery/stun.go), against sections 6 and 15 of RFC 5389. */
module Stun {
  import opened Numbers
  import opened Strings

  const HEADER_SIZE := 20
  const MAPPED_ADDRESS := 0x0001
  const XOR_MAPPED_ADDRESS := 0x0020
  const COOKIE: seq<byte> := [0x21, 0x12, 0xA4, 0x42]

  datatype Addr = Addr(ip: seq<byte>, port: nat)

  /** What a call can come to. Go's slice bounds are part of the model: OutOfBounds is a panic, and Diverges is a
      loop that no longer advances, both because lengths are added in 16 bits. */
  datatype Outcome = Found(addr: Addr) | Failed | OutOfBounds | Diverges

  function U16(hi: byte, lo: byte): (r: nat)
    ensures r < 65536
  {
    hi as int * 256 + lo as int
  }

  const COOKIE_TOP := 0x2112

  /** A port against the top half of the magic cookie. */
  function Xor16(a: nat): (r: nat)
    ensures r < 65536
  {
    assert Pow2(8) == 256 && Pow2(16) == 65536;
    XorNum(a, COOKIE_TOP, 16)
  }

  lemma Xor16Bits(a: nat, i: nat)
    requires i < 16
    ensures Bit(Xor16(a), i) == (Bit(a, i) != Bit(0x2112, i))
  {
    XorNumBit(a, COOKIE_TOP, 16, i);
  }

  function XorSeq(a: seq<byte>, b: seq<byte>): (r: seq<byte>)
    requires |a| == |b|
    ensures |r| == |a|
  {
    seq(|a|, i requires 0 <= i < |a| => Xor8(a[i], b[i]))
  }

  lemma XorSeqTwice(a: seq<byte>, b: seq<byte>)
    requires |a| == |b|
    ensures XorSeq(XorSeq(a, b), b) == a
  {
    forall i | 0 <= i < |a| ensures XorSeq(XorSeq(a, b), b)[i] == a[i] {
      assert Pow2(8) == 256;
      XorTwice(a[i], b[i], 8);
    }
  }

  /** parseXORMappedAddress. */
  function DecodeXor(val: seq<byte>, txn: seq<byte>): Option<Addr>
    requires |txn| == 12
  {
    if |val| < 4 then None
    else
      var port := Xor16(U16(val[2], val[3]));
      if val[1] == 1 then (if |val| < 8 then None else Some(Addr(XorSeq(val[4..8], COOKIE), port)))
      else if val[1] == 2 then (if |val| < 20 then None else Some(Addr(XorSeq(val[4..20], COOKIE + txn), port)))
      else None
  }

  /** parseMappedAddress. */
  function DecodeMapped(val: seq<byte>): Option<Addr> {
    if |val| < 4 then None
    else
      var port := U16(val[2], val[3]);
      if val[1] == 1 then (if |val| < 8 then None else Some(Addr(val[4..8], port)))
      else if val[1] == 2 then (if |val| < 20 then None else Some(Addr(val[4..20], port)))
      else None
  }

  /** The XOR loop of parseXORMappedAddress. */
  method XorInto(val: seq<byte>, key: seq<byte>) returns (ip: seq<byte>)
    requires |val| == |key|
    ensures ip == XorSeq(val, key)
  {
    var out := new byte[|val|](_ => 0);
    for i := 0 to |val|
      invariant forall j | 0 <= j < i :: out[j] == Xor8(val[j], key[j])
    {
      out[i] := Xor8(val[i], key[i]);
    }
    ip := out[..];
  }

  method ParseXORMappedAddress(val: seq<byte>, txn: seq<byte>) returns (a: Option<Addr>)
    requires |txn| == 12
    ensures a == DecodeXor(val, txn)
  {
    if |val| < 4 {
      return None;
    }
    var port := Xor16(U16(val[2], val[3]));
    if val[1] == 1 && |val| >= 8 {
      var ip := XorInto(val[4..8], COOKIE);
      return Some(Addr(ip, port));
    } else if val[1] == 2 && |val| >= 20 {
      var ip := XorInto(val[4..20], COOKIE + txn);
      return Some(Addr(ip, port));
    }
    return None;
  }

  // ---- The attribute loop ----

  /** Lengths as the parser adds them: in 16 bits. */
  function Wrap16(x: nat): nat {
    x % 65536
  }

  function Padded(len: nat): nat {
    Wrap16(if len % 4 != 0 then len + (4 - len % 4) else len)
  }

  function Finish(mapped: Option<Addr>): Outcome {
    if mapped.Some? then Found(mapped.value) else Failed
  }

  /** The last decodable MAPPED-ADDRESS so far. */
  function Remember(kind: nat, value: seq<byte>, mapped: Option<Addr>): Option<Addr> {
    if kind == MAPPED_ADDRESS && DecodeMapped(value).Some? then DecodeMapped(value) else mapped
  }

  /** What one turn of the loop does: end it, or go on some bytes further. */
  datatype Turn = End(outcome: Outcome) | Go(step: nat, mapped: Option<Addr>)

  function TurnOf(attrs: seq<byte>, txn: seq<byte>, mapped: Option<Addr>): (t: Turn)
    requires |txn| == 12 && |attrs| >= 4
    ensures t.Go? ==> 0 < t.step <= |attrs|
  {
    var kind, len := U16(attrs[0], attrs[1]), U16(attrs[2], attrs[3]);
    var end, step := Wrap16(4 + len), Wrap16(4 + Padded(len));
    if end > |attrs| then End(Finish(mapped))
    else if end < 4 then End(OutOfBounds)
    else
      var val := attrs[4..end];
      if kind == XOR_MAPPED_ADDRESS && DecodeXor(val, txn).Some? then End(Found(DecodeXor(val, txn).value))
      else if step > |attrs| then End(OutOfBounds)
      else if step == 0 then End(Diverges)
      else Go(step, Remember(kind, val, mapped))
  }

  function Walk(attrs: seq<byte>, txn: seq<byte>, mapped: Option<Addr>): Outcome
    requires |txn| == 12
    decreases |attrs|
  {
    if |attrs| < 4 then Finish(mapped)
    else
      match TurnOf(attrs, txn, mapped)
      case End(outcome) => outcome
      case Go(step, mapped') => Walk(attrs[step..], txn, mapped')
  }

  function Parse(data: seq<byte>, txn: seq<byte>): Outcome
    requires |txn| == 12
  {
    if |data| < HEADER_SIZE then Failed
    else if U16(data[0], data[1]) != 0x0101 || data[4..8] != COOKIE || data[8..20] != txn then Failed
    else
      var len := U16(data[2], data[3]);
      if len > |data| - HEADER_SIZE then Failed
      else Walk(data[HEADER_SIZE..HEADER_SIZE + len], txn, None)
  }

  /** parseBindingResponse. */
  method ParseBindingResponse(data: seq<byte>, txn: seq<byte>) returns (r: Outcome)
    requires |txn| == 12
    ensures r == Parse(data, txn)
  {
    if |data| < HEADER_SIZE {
      return Failed;
    }
    if U16(data[0], data[1]) != 0x0101 {
      return Failed;
    }
    if data[4..8] != COOKIE {
      return Failed;
    }
    if data[8..20] != txn {
      return Failed;
    }
    var len := U16(data[2], data[3]);
    if len > |data| - HEADER_SIZE {
      return Failed;
    }
    r := ParseAttributes(data[HEADER_SIZE..HEADER_SIZE + len], txn);
  }

  method ParseAttributes(all: seq<byte>, txn: seq<byte>) returns (r: Outcome)
    requires |txn| == 12
    ensures r == Walk(all, txn, None)
  {
    var attrs, mapped := all, None;
    while |attrs| >= 4
      invariant Walk(attrs, txn, mapped) == Walk(all, txn, None)
      decreases |attrs|
    {
      var kind, len := U16(attrs[0], attrs[1]), U16(attrs[2], attrs[3]);
      var padLen := Padded(len);
      if Wrap16(4 + len) > |attrs| {
        break;
      }
      if Wrap16(4 + len) < 4 {
        return OutOfBounds;
      }
      var val := attrs[4..Wrap16(4 + len)];
      if kind == XOR_MAPPED_ADDRESS {
        var a := ParseXORMappedAddress(val, txn);
        if a.Some? {
          return Found(a.value);
        }
      } else if kind == MAPPED_ADDRESS {
        var a := DecodeMapped(val);
        if a.Some? {
          mapped := a;
        }
      }
      if Wrap16(4 + padLen) > |attrs| {
        return OutOfBounds;
      }
      if Wrap16(4 + padLen) == 0 {
        return Diverges;
      }
      attrs := attrs[Wrap16(4 + padLen)..];
    }
    r := Finish(mapped);
  }

  // ---- Well-formed messages ----

  /** An attribute as section 15 lays it out: type, length, value, and padding to a multiple of four. */
  datatype Attr = Attr(kind: nat, value: seq<byte>, padding: seq<byte>)

  ghost predicate AttrOk(a: Attr) {
    a.kind < 65536 && |a.value| < 65532 && |a.padding| < 4 && (|a.value| + |a.padding|) % 4 == 0
  }

  function Bytes16(x: nat): seq<byte>
    requires x < 65536
  {
    [x / 256, x % 256]
  }

  function EncodeAttr(a: Attr): seq<byte>
    requires AttrOk(a)
  {
    Bytes16(a.kind) + Bytes16(|a.value|) + a.value + a.padding
  }

  function EncodeAttrs(attrs: seq<Attr>): seq<byte>
    requires forall a | a in attrs :: AttrOk(a)
  {
    if |attrs| == 0 then [] else EncodeAttr(attrs[0]) + EncodeAttrs(attrs[1..])
  }

  /** A Binding Response of section 6; extra bytes after the declared length are allowed. */
  function EncodeResponse(attrs: seq<Attr>, txn: seq<byte>, extra: seq<byte>): seq<byte>
    requires |txn| == 12 && (forall a | a in attrs :: AttrOk(a)) && |EncodeAttrs(attrs)| < 65536
  {
    Bytes16(0x0101) + Bytes16(|EncodeAttrs(attrs)|) + [0x21, 0x12, 0xA4, 0x42] + txn + EncodeAttrs(attrs) + extra
  }

  predicate EndsWalk(a: Attr, txn: seq<byte>)
    requires |txn| == 12
  {
    a.kind == XOR_MAPPED_ADDRESS && DecodeXor(a.value, txn).Some?
  }

  /** The first decodable XOR-MAPPED-ADDRESS. */
  function FirstXor(attrs: seq<Attr>, txn: seq<byte>): Option<Addr>
    requires |txn| == 12
  {
    if |attrs| == 0 then None
    else if EndsWalk(attrs[0], txn) then DecodeXor(attrs[0].value, txn)
    else FirstXor(attrs[1..], txn)
  }

  /** The last decodable MAPPED-ADDRESS. */
  function LastMapped(attrs: seq<Attr>): Option<Addr> {
    if |attrs| == 0 then None
    else
      var last := attrs[|attrs| - 1];
      if last.kind == MAPPED_ADDRESS && DecodeMapped(last.value).Some? then DecodeMapped(last.value)
      else LastMapped(attrs[..|attrs| - 1])
  }

  /** What a response reports. */
  function Reported(attrs: seq<Attr>, txn: seq<byte>): Outcome
    requires |txn| == 12
  {
    if FirstXor(attrs, txn).Some? then Found(FirstXor(attrs, txn).value) else Finish(LastMapped(attrs))
  }

  lemma Bytes16Value(x: nat)
    requires x < 65536
    ensures U16(Bytes16(x)[0], Bytes16(x)[1]) == x
  {
  }

  lemma AttrSizes(a: Attr)
    requires AttrOk(a)
    ensures Padded(|a.value|) == |a.value| + |a.padding| <= 65532
    ensures |EncodeAttr(a)| == 4 + |a.value| + |a.padding|
  {
  }

  /** Reading one encoded attribute off the front. */
  lemma AttrReads(a: Attr, rest: seq<byte>)
    requires AttrOk(a)
    ensures var s := EncodeAttr(a) + rest;
      && U16(s[0], s[1]) == a.kind && U16(s[2], s[3]) == |a.value|
      && s[4..4 + |a.value|] == a.value && s[|EncodeAttr(a)|..] == rest
  {
    Bytes16Value(a.kind);
    Bytes16Value(|a.value|);
    var s := EncodeAttr(a) + rest;
    assert s[0] == Bytes16(a.kind)[0] && s[1] == Bytes16(a.kind)[1];
    assert s[2] == Bytes16(|a.value|)[0] && s[3] == Bytes16(|a.value|)[1];
  }

  lemma {:induction false} LastMappedCons(a: Attr, rest: seq<Attr>)
    ensures LastMapped([a] + rest) ==
      if LastMapped(rest).Some? then LastMapped(rest)
      else if a.kind == MAPPED_ADDRESS then DecodeMapped(a.value) else None
  {
    var s := [a] + rest;
    if |rest| == 0 {
      assert s[..|s| - 1] == [];
    } else {
      assert s[..|s| - 1] == [a] + rest[..|rest| - 1] && s[|s| - 1] == rest[|rest| - 1];
      LastMappedCons(a, rest[..|rest| - 1]);
    }
  }

  /** The loop on encoded attributes, one attribute at a time. */
  lemma WalkOne(a: Attr, rest: seq<byte>, txn: seq<byte>, mapped: Option<Addr>)
    requires AttrOk(a) && |txn| == 12 && |EncodeAttr(a)| < 65536
    ensures Walk(EncodeAttr(a) + rest, txn, mapped) ==
      if EndsWalk(a, txn) then Found(DecodeXor(a.value, txn).value)
      else Walk(rest, txn, Remember(a.kind, a.value, mapped))
  {
    AttrReads(a, rest);
    AttrSizes(a);
    WalkReads(EncodeAttr(a) + rest, txn, mapped, a.kind, a.value, |EncodeAttr(a)|);
  }

  lemma WalkReads(s: seq<byte>, txn: seq<byte>, mapped: Option<Addr>, kind: nat, value: seq<byte>, total: nat)
    requires |txn| == 12 && 4 + |value| <= total < 65536 && total <= |s| && Padded(|value|) == total - 4
    requires U16(s[0], s[1]) == kind && U16(s[2], s[3]) == |value| && s[4..4 + |value|] == value
    ensures Walk(s, txn, mapped) ==
      if kind == XOR_MAPPED_ADDRESS && DecodeXor(value, txn).Some? then Found(DecodeXor(value, txn).value)
      else Walk(s[total..], txn, Remember(kind, value, mapped))
  {
    TurnReads(s, txn, mapped, kind, value, total);
  }

  lemma TurnReads(s: seq<byte>, txn: seq<byte>, mapped: Option<Addr>, kind: nat, value: seq<byte>, total: nat)
    requires |txn| == 12 && 4 + |value| <= total < 65536 && total <= |s| && Padded(|value|) == total - 4
    requires U16(s[0], s[1]) == kind && U16(s[2], s[3]) == |value| && s[4..4 + |value|] == value
    ensures TurnOf(s, txn, mapped) ==
      if kind == XOR_MAPPED_ADDRESS && DecodeXor(value, txn).Some? then End(Found(DecodeXor(value, txn).value))
      else Go(total, Remember(kind, value, mapped))
  {
    assert Wrap16(4 + |value|) == 4 + |value| && Wrap16(total) == total;
  }

  lemma {:induction false} WalkEncoded(attrs: seq<Attr>, txn: seq<byte>, mapped: Option<Addr>)
    requires |txn| == 12 && (forall a | a in attrs :: AttrOk(a)) && |EncodeAttrs(attrs)| < 65536
    ensures Walk(EncodeAttrs(attrs), txn, mapped) ==
      if FirstXor(attrs, txn).Some? then Found(FirstXor(attrs, txn).value)
      else Finish(if LastMapped(attrs).Some? then LastMapped(attrs) else mapped)
  {
    if |attrs| > 0 {
      var a, rest := attrs[0], attrs[1..];
      WalkOne(a, EncodeAttrs(rest), txn, mapped);
      var mapped' := Remember(a.kind, a.value, mapped);
      WalkEncoded(rest, txn, mapped');
      LastMappedCons(a, rest);
      assert [a] + rest == attrs;
    }
  }

  /** Every well-formed response with the right transaction is read in bounds and to the end: the first decodable
      XOR-MAPPED-ADDRESS, else the last decodable MAPPED-ADDRESS, else failure. */
  lemma ParseWellFormed(attrs: seq<Attr>, txn: seq<byte>, extra: seq<byte>)
    requires |txn| == 12 && (forall a | a in attrs :: AttrOk(a)) && |EncodeAttrs(attrs)| < 65536
    ensures Parse(EncodeResponse(attrs, txn, extra), txn) == Reported(attrs, txn)
  {
    HeaderReads(EncodeAttrs(attrs), txn, extra);
    WalkEncoded(attrs, txn, None);
  }

  /** Where the fields of an encoded response sit. */
  lemma HeaderReads(body: seq<byte>, txn: seq<byte>, extra: seq<byte>)
    requires |txn| == 12 && |body| < 65536
    ensures var data := Bytes16(0x0101) + Bytes16(|body|) + [0x21, 0x12, 0xA4, 0x42] + txn + body + extra;
      && |data| >= 20 + |body| && U16(data[0], data[1]) == 0x0101 && U16(data[2], data[3]) == |body|
      && data[4..8] == COOKIE && data[8..20] == txn && data[20..20 + |body|] == body
  {
    var head := Bytes16(0x0101) + Bytes16(|body|);
    var data := head + [0x21, 0x12, 0xA4, 0x42] + txn + body + extra;
    Bytes16Value(0x0101);
    Bytes16Value(|body|);
    assert head == [Bytes16(0x0101)[0], Bytes16(0x0101)[1], Bytes16(|body|)[0], Bytes16(|body|)[1]];
    assert data[..4] == head;
    assert data[4..8] == COOKIE;
    assert data[8..20] == txn;
    assert data[20..20 + |body|] == body;
    assert data[0] == data[..4][0] && data[1] == data[..4][1] && data[2] == data[..4][2] && data[3] == data[..4][3];
  }

  // ---- Malformed messages ----

  /** The loop reads the attributes of pre off the front of attrs, none of them ending it, and comes to tail. */
  ghost predicate Comes(attrs: seq<byte>, txn: seq<byte>, pre: seq<Attr>, tail: seq<byte>)
    requires |txn| == 12
  {
    && (forall a | a in pre :: AttrOk(a)) && FirstXor(pre, txn).None?
    && attrs == EncodeAttrs(pre) + tail && |tail| >= 4
  }

  function RoundUp(len: nat): nat {
    (len + 3) / 4 * 4
  }

  function HeadKind(tail: seq<byte>): nat
    requires |tail| >= 4
  {
    U16(tail[0], tail[1])
  }

  function HeadLen(tail: seq<byte>): nat
    requires |tail| >= 4
  {
    U16(tail[2], tail[3])
  }

  /** The first attribute's value fits, its padding does not, and the value does not end the loop. */
  ghost predicate Unpadded(tail: seq<byte>, txn: seq<byte>)
    requires |txn| == 12 && |tail| >= 4
  {
    && 4 + HeadLen(tail) <= |tail| < 4 + RoundUp(HeadLen(tail))
    && !(HeadKind(tail) == XOR_MAPPED_ADDRESS && DecodeXor(tail[4..4 + HeadLen(tail)], txn).Some?)
  }

  /** The first attribute's length makes the parser slice out of bounds: with the header it passes 16 bits, or the
      padding it implies is not there. */
  ghost predicate Overruns(tail: seq<byte>, txn: seq<byte>)
    requires |txn| == 12 && |tail| >= 4
  {
    HeadLen(tail) >= 65532 || (Unpadded(tail, txn) && HeadLen(tail) < 65529)
  }

  /** The first attribute's padded length with the header is exactly 2^16. */
  ghost predicate Stalls(tail: seq<byte>, txn: seq<byte>)
    requires |txn| == 12 && |tail| >= 4
  {
    Unpadded(tail, txn) && 65529 <= HeadLen(tail) < 65532
  }

  /** The fate of the loop at one attribute, without 16-bit arithmetic. */
  lemma WalkHead(tail: seq<byte>, txn: seq<byte>, mapped: Option<Addr>)
    requires |txn| == 12 && 4 <= |tail| < 65536
    ensures Overruns(tail, txn) ==> Walk(tail, txn, mapped) == OutOfBounds
    ensures Stalls(tail, txn) ==> Walk(tail, txn, mapped) == Diverges
    ensures !Overruns(tail, txn) && !Stalls(tail, txn) ==>
      Walk(tail, txn, mapped).Found? || Walk(tail, txn, mapped).Failed? || 4 + RoundUp(HeadLen(tail)) <= |tail|
  {
    HeadSizes(HeadLen(tail));
  }

  lemma HeadSizes(len: nat)
    requires len < 65536
    ensures len <= RoundUp(len) < len + 4 && RoundUp(len) % 4 == 0
    ensures len < 65532 ==> Wrap16(4 + len) == 4 + len
    ensures len >= 65532 ==> Wrap16(4 + len) < 4
    ensures RoundUp(len) < 65532 ==> Wrap16(4 + Padded(len)) == 4 + RoundUp(len)
    ensures RoundUp(len) == 65532 ==> Wrap16(4 + Padded(len)) == 0
    ensures len < 65529 <==> RoundUp(len) < 65532
    ensures len >= 65533 <==> RoundUp(len) > 65532
  {
  }

  /** The first attribute of a tail that holds it whole. */
  function HeadAttr(tail: seq<byte>): Attr
    requires |tail| >= 4 && 4 + RoundUp(HeadLen(tail)) <= |tail|
  {
    HeadSizes(HeadLen(tail));
    Attr(HeadKind(tail), tail[4..4 + HeadLen(tail)], tail[4 + HeadLen(tail)..4 + RoundUp(HeadLen(tail))])
  }

  lemma HeadEncodes(tail: seq<byte>)
    requires 4 <= |tail| < 65536 && 4 + RoundUp(HeadLen(tail)) <= |tail|
    ensures AttrOk(HeadAttr(tail)) && |EncodeAttr(HeadAttr(tail))| == 4 + RoundUp(HeadLen(tail))
    ensures tail == EncodeAttr(HeadAttr(tail)) + tail[4 + RoundUp(HeadLen(tail))..]
  {
    HeadSizes(HeadLen(tail));
    BytesBack(tail[0], tail[1]);
    BytesBack(tail[2], tail[3]);
    var a := HeadAttr(tail);
    assert Bytes16(a.kind) == tail[..2] && Bytes16(|a.value|) == tail[2..4];
    Joined(tail, 2, 4, 4 + HeadLen(tail), 4 + RoundUp(HeadLen(tail)));
  }

  lemma BytesBack(hi: byte, lo: byte)
    ensures Bytes16(U16(hi, lo)) == [hi, lo]
  {
  }

  lemma Joined<T>(s: seq<T>, i: nat, j: nat, k: nat, l: nat)
    requires i <= j <= k <= l <= |s|
    ensures s == s[..i] + s[i..j] + s[j..k] + s[k..l] + s[l..]
  {
  }

  /** A loop that goes wrong does so at an attribute it comes to. */
  lemma {:induction false} FailureCause(attrs: seq<byte>, txn: seq<byte>, mapped: Option<Addr>)
    returns (pre: seq<Attr>, tail: seq<byte>)
    requires |txn| == 12 && |attrs| < 65536
    requires Walk(attrs, txn, mapped) == OutOfBounds || Walk(attrs, txn, mapped) == Diverges
    ensures Comes(attrs, txn, pre, tail)
    ensures Walk(attrs, txn, mapped) == OutOfBounds ==> Overruns(tail, txn)
    ensures Walk(attrs, txn, mapped) == Diverges ==> Stalls(tail, txn)
    decreases |attrs|
  {
    WalkHead(attrs, txn, mapped);
    if Overruns(attrs, txn) || Stalls(attrs, txn) {
      pre, tail := [], attrs;
    } else {
      HeadEncodes(attrs);
      var a, rest := HeadAttr(attrs), attrs[4 + RoundUp(HeadLen(attrs))..];
      WalkOne(a, rest, txn, mapped);
      var mapped' := Remember(a.kind, a.value, mapped);
      pre, tail := FailureCause(rest, txn, mapped');
      ComesLonger(a, rest, txn, pre, tail);
      pre := [a] + pre;
    }
  }

  lemma ComesLonger(a: Attr, rest: seq<byte>, txn: seq<byte>, pre: seq<Attr>, tail: seq<byte>)
    requires |txn| == 12 && AttrOk(a) && Comes(rest, txn, pre, tail)
    requires !EndsWalk(a, txn)
    ensures Comes(EncodeAttr(a) + rest, txn, [a] + pre, tail)
  {
    assert ([a] + pre)[1..] == pre;
    assert EncodeAttr(a) + rest == EncodeAttr(a) + EncodeAttrs(pre) + tail;
  }

  /** What the loop comes to decides it. */
  lemma {:induction false} WalkComes(attrs: seq<byte>, txn: seq<byte>, mapped: Option<Addr>, pre: seq<Attr>,
                                     tail: seq<byte>)
    returns (mapped': Option<Addr>)
    requires |txn| == 12 && |attrs| < 65536 && Comes(attrs, txn, pre, tail)
    ensures |tail| < 65536 && Walk(attrs, txn, mapped) == Walk(tail, txn, mapped')
    decreases |pre|
  {
    if |pre| == 0 {
      assert attrs == tail;
      mapped' := mapped;
    } else {
      var a, rest := pre[0], EncodeAttrs(pre[1..]) + tail;
      assert attrs == EncodeAttr(a) + rest;
      WalkOne(a, rest, txn, mapped);
      mapped' := WalkComes(rest, txn, Remember(a.kind, a.value, mapped), pre[1..], tail);
    }
  }

  /** The loop slices out of bounds, or stops advancing, exactly when it comes to an attribute whose length does so. */
  lemma WalkFailsIff(attrs: seq<byte>, txn: seq<byte>)
    requires |txn| == 12 && |attrs| < 65536
    ensures Walk(attrs, txn, None) == OutOfBounds <==>
      exists pre, tail :: Comes(attrs, txn, pre, tail) && Overruns(tail, txn)
    ensures Walk(attrs, txn, None) == Diverges <==>
      exists pre, tail :: Comes(attrs, txn, pre, tail) && Stalls(tail, txn)
  {
    if Walk(attrs, txn, None) == OutOfBounds || Walk(attrs, txn, None) == Diverges {
      var pre, tail := FailureCause(attrs, txn, None);
    }
    forall pre, tail | Comes(attrs, txn, pre, tail)
      ensures Overruns(tail, txn) ==> Walk(attrs, txn, None) == OutOfBounds
      ensures Stalls(tail, txn) ==> Walk(attrs, txn, None) == Diverges
    {
      var mapped := WalkComes(attrs, txn, None, pre, tail);
      WalkHead(tail, txn, mapped);
    }
  }

  /** The attributes of a response the parser gets as far as reading. */
  ghost predicate Admitted(data: seq<byte>, txn: seq<byte>) {
    && |txn| == 12 && |data| >= HEADER_SIZE && U16(data[0], data[1]) == 0x0101 && data[4..8] == COOKIE
    && data[8..20] == txn && HEADER_SIZE + U16(data[2], data[3]) <= |data|
  }

  function Body(data: seq<byte>): seq<byte>
    requires |data| >= HEADER_SIZE && HEADER_SIZE + U16(data[2], data[3]) <= |data|
  {
    data[HEADER_SIZE..HEADER_SIZE + U16(data[2], data[3])]
  }

  /** Exactly when parsing panics, and exactly when it never returns, for every byte string. */
  lemma ParseFailsIff(data: seq<byte>, txn: seq<byte>)
    requires |txn| == 12
    ensures Parse(data, txn) == OutOfBounds <==>
      Admitted(data, txn) && exists pre, tail :: Comes(Body(data), txn, pre, tail) && Overruns(tail, txn)
    ensures Parse(data, txn) == Diverges <==>
      Admitted(data, txn) && exists pre, tail :: Comes(Body(data), txn, pre, tail) && Stalls(tail, txn)
  {
    if Admitted(data, txn) {
      WalkFailsIff(Body(data), txn);
    }
  }

  /** A response around some attribute bytes. */
  function Response(body: seq<byte>, txn: seq<byte>): seq<byte>
    requires |txn| == 12 && |body| < 65536
  {
    Bytes16(0x0101) + Bytes16(|body|) + [0x21, 0x12, 0xA4, 0x42] + txn + body + []
  }

  lemma ParseResponse(body: seq<byte>, txn: seq<byte>)
    requires |txn| == 12 && |body| < 65536
    ensures Parse(Response(body, txn), txn) == Walk(body, txn, None)
  {
    HeaderReads(body, txn, []);
  }

  /** Three responses that go wrong: a missing byte of padding, a length that wraps with the header, and a length whose
      padding wraps to no progress. */
  lemma MalformedResponses(txn: seq<byte>, filler: seq<byte>)
    requires |txn| == 12 && |filler| == 65529
    ensures Parse(Response([0, 6, 0, 1, 7], txn), txn) == OutOfBounds
    ensures Parse(Response([0, 6, 255, 252], txn), txn) == OutOfBounds
    ensures Parse(Response([0, 6, 255, 249] + filler, txn), txn) == Diverges
  {
    ParseResponse([0, 6, 0, 1, 7], txn);
    ParseResponse([0, 6, 255, 252], txn);
    ParseResponse([0, 6, 255, 249] + filler, txn);
    WalkHead([0, 6, 0, 1, 7], txn, None);
    WalkHead([0, 6, 255, 252], txn, None);
    var stalled := [0, 6, 255, 249] + filler;
    assert HeadKind(stalled) == 6 && HeadLen(stalled) == 65529;
    WalkHead(stalled, txn, None);
  }

  /** A datagram must be at least 65553 bytes long for parsing never to return; both callers read into 512 bytes, so
      they can meet only the panics. */
  lemma ShortEnds(data: seq<byte>, txn: seq<byte>)
    requires |txn| == 12 && |data| < 65553
    ensures Parse(data, txn) != Diverges
  {
    ParseFailsIff(data, txn);
    if Admitted(data, txn) {
      forall pre, tail | Comes(Body(data), txn, pre, tail) ensures !Stalls(tail, txn) {
        assert |tail| <= |Body(data)| < 65533;
      }
    }
  }

  // ---- Address encodings of sections 15.1 and 15.2 ----

  predicate AddrOk(a: Addr) {
    (|a.ip| == 4 || |a.ip| == 16) && a.port < 65536
  }

  /** Section 15.2 of RFC 5389: the port is masked with the top of the magic cookie, the address with the cookie and,
      where it is longer, the transaction id. */
  function Mask(txn: seq<byte>): seq<byte> {
    [0x21, 0x12, 0xA4, 0x42] + txn
  }

  function EncodeXorAddr(a: Addr, txn: seq<byte>): seq<byte>
    requires |txn| == 12 && AddrOk(a)
  {
    [0, if |a.ip| == 4 then 1 else 2] + MaskPort(a.port)
    + seq(|a.ip|, k requires 0 <= k < |a.ip| => MaskByte(a.ip[k], Mask(txn)[k]))
  }

  function MaskPort(port: nat): seq<byte> {
    assert Pow2(8) == 256 && Pow2(16) == 65536;
    Bytes16(FromBits((i: nat) => Bit(port, i) != Bit(0x2112, i), 16))
  }

  function MaskByte(b: byte, m: byte): byte {
    assert Pow2(8) == 256;
    FromBits((i: nat) => Bit(b, i) != Bit(m, i), 8)
  }

  function EncodeMappedAddr(a: Addr): seq<byte>
    requires AddrOk(a)
  {
    [0, if |a.ip| == 4 then 1 else 2] + Bytes16(a.port) + a.ip
  }

  /** Decoding inverts both encodings, for every IPv4 or IPv6 address and port. */
  lemma AddressRoundTrip(a: Addr, txn: seq<byte>)
    requires |txn| == 12 && AddrOk(a)
    ensures DecodeXor(EncodeXorAddr(a, txn), txn) == Some(a)
    ensures DecodeMapped(EncodeMappedAddr(a)) == Some(a)
  {
    XorAddressRoundTrip(a, txn);
    Layout(if |a.ip| == 4 then 1 else 2, a.port, a.ip);
  }

  /** A value starts with an encoding, its first byte and what follows aside. */
  ghost predicate StartsWith(val: seq<byte>, enc: seq<byte>) {
    0 < |enc| <= |val| && val[1..|enc|] == enc[1..]
  }

  /** Both decoders yield an address exactly from the values that start with its encoding, for all byte strings. */
  lemma DecodesIff(val: seq<byte>, a: Addr, txn: seq<byte>)
    requires |txn| == 12
    ensures DecodeXor(val, txn) == Some(a) <==> AddrOk(a) && StartsWith(val, EncodeXorAddr(a, txn))
    ensures DecodeMapped(val) == Some(a) <==> AddrOk(a) && StartsWith(val, EncodeMappedAddr(a))
  {
    if DecodeXor(val, txn) == Some(a) {
      XorDecoded(val, a, txn);
    }
    if DecodeMapped(val) == Some(a) {
      MappedDecoded(val, a);
    }
    if AddrOk(a) {
      AddressRoundTrip(a, txn);
      if StartsWith(val, EncodeXorAddr(a, txn)) {
        SameStart(val, EncodeXorAddr(a, txn), |a.ip|, txn);
      }
      if StartsWith(val, EncodeMappedAddr(a)) {
        SameStart(val, EncodeMappedAddr(a), |a.ip|, txn);
      }
    }
  }

  lemma SameStart(val: seq<byte>, enc: seq<byte>, size: nat, txn: seq<byte>)
    requires |txn| == 12 && |enc| == 4 + size && StartsWith(val, enc)
    requires (enc[1] == 1 && size == 4) || (enc[1] == 2 && size == 16)
    ensures DecodeXor(val, txn) == DecodeXor(enc, txn) && DecodeMapped(val) == DecodeMapped(enc)
  {
    assert forall i | 1 <= i < |enc| :: val[i] == val[1..|enc|][i - 1] == enc[1..][i - 1] == enc[i];
    assert val[4..4 + size] == enc[4..4 + size];
  }

  lemma XorDecoded(val: seq<byte>, a: Addr, txn: seq<byte>)
    requires |txn| == 12 && DecodeXor(val, txn) == Some(a)
    ensures AddrOk(a) && StartsWith(val, EncodeXorAddr(a, txn))
  {
    XorParts(val, a, txn);
    XorPartsStart(val, a, U16(val[2], val[3]), txn);
  }

  lemma XorParts(val: seq<byte>, a: Addr, txn: seq<byte>)
    requires |txn| == 12 && DecodeXor(val, txn) == Some(a)
    ensures AddrOk(a) && |val| >= 4 + |a.ip| && val[1] == (if |a.ip| == 4 then 1 else 2)
    ensures a == Addr(XorSeq(val[4..4 + |a.ip|], Mask(txn)[..|a.ip|]), Xor16(U16(val[2], val[3])))
  {
    assert Mask(txn)[..4] == COOKIE && Mask(txn)[..16] == COOKIE + txn;
  }

  lemma XorPartsStart(val: seq<byte>, a: Addr, port: nat, txn: seq<byte>)
    requires |txn| == 12 && AddrOk(a) && |val| >= 4 + |a.ip| && val[1] == (if |a.ip| == 4 then 1 else 2)
    requires port == U16(val[2], val[3])
    requires a == Addr(XorSeq(val[4..4 + |a.ip|], Mask(txn)[..|a.ip|]), Xor16(port))
    ensures StartsWith(val, EncodeXorAddr(a, txn))
  {
    MaskedBack(a, port, val[4..4 + |a.ip|], txn);
    StartsLaid(val, port, |a.ip|);
  }

  lemma MaskedBack(a: Addr, port: nat, ip: seq<byte>, txn: seq<byte>)
    requires |txn| == 12 && AddrOk(a) && port < 65536 && |ip| == |a.ip|
    requires a.ip == XorSeq(ip, Mask(txn)[..|ip|]) && a.port == Xor16(port)
    ensures EncodeXorAddr(a, txn) == [0, if |ip| == 4 then 1 else 2] + Bytes16(port) + ip
  {
    MaskedIs(a, txn);
    XorSeqTwice(ip, Mask(txn)[..|ip|]);
    PortTwice(port);
  }

  lemma MappedDecoded(val: seq<byte>, a: Addr)
    requires DecodeMapped(val) == Some(a)
    ensures AddrOk(a) && StartsWith(val, EncodeMappedAddr(a))
  {
    StartsLaid(val, U16(val[2], val[3]), |a.ip|);
  }

  lemma StartsLaid(val: seq<byte>, port: nat, size: nat)
    requires |val| >= 4 + size && port == U16(val[2], val[3])
    ensures StartsWith(val, [0, val[1]] + Bytes16(port) + val[4..4 + size])
  {
    BytesBack(val[2], val[3]);
  }

  lemma XorAddressRoundTrip(a: Addr, txn: seq<byte>)
    requires |txn| == 12 && AddrOk(a)
    ensures DecodeXor(EncodeXorAddr(a, txn), txn) == Some(a)
  {
    var key := Mask(txn)[..|a.ip|];
    MaskedIs(a, txn);
    DecodesLaid(Xor16(a.port), XorSeq(a.ip, key), txn);
    XorSeqTwice(a.ip, key);
    PortTwice(a.port);
    assert key == if |a.ip| == 4 then COOKIE else COOKIE + txn;
  }

  lemma PortTwice(port: nat)
    requires port < 65536
    ensures Xor16(Xor16(port)) == port
  {
    assert Pow2(8) == 256 && Pow2(16) == 65536;
    XorTwice(port, COOKIE_TOP, 16);
  }

  lemma DecodesLaid(port: nat, ip: seq<byte>, txn: seq<byte>)
    requires |txn| == 12 && port < 65536 && (|ip| == 4 || |ip| == 16)
    ensures DecodeXor([0, if |ip| == 4 then 1 else 2] + Bytes16(port) + ip, txn) ==
      Some(Addr(XorSeq(ip, if |ip| == 4 then COOKIE else COOKIE + txn), Xor16(port)))
  {
    Layout(if |ip| == 4 then 1 else 2, port, ip);
  }

  lemma MaskPortIs(port: nat)
    ensures MaskPort(port) == Bytes16(Xor16(port))
  {
    var bits := (i: nat) => Bit(port, i) != Bit(0x2112, i);
    assert Pow2(8) == 256 && Pow2(16) == 65536;
    forall i | 0 <= i < 16 ensures Bit(FromBits(bits, 16), i) == Bit(Xor16(port), i) {
      FromBitsBit(bits, 16, i);
      Xor16Bits(port, i);
    }
    NumInjective(FromBits(bits, 16), Xor16(port), 16);
  }

  lemma MaskByteIs(b: byte, m: byte)
    ensures MaskByte(b, m) == Xor8(b, m)
  {
    var bits := (i: nat) => Bit(b, i) != Bit(m, i);
    assert Pow2(8) == 256;
    forall i | 0 <= i < 8 ensures Bit(FromBits(bits, 8), i) == Bit(Xor8(b, m), i) {
      FromBitsBit(bits, 8, i);
      Xor8Bits(b, m, i);
    }
    NumInjective(FromBits(bits, 8), Xor8(b, m), 8);
  }

  lemma MaskedIs(a: Addr, txn: seq<byte>)
    requires |txn| == 12 && AddrOk(a)
    ensures EncodeXorAddr(a, txn) ==
      [0, if |a.ip| == 4 then 1 else 2] + Bytes16(Xor16(a.port)) + XorSeq(a.ip, Mask(txn)[..|a.ip|])
  {
    MaskPortIs(a.port);
    forall k | 0 <= k < |a.ip| ensures MaskByte(a.ip[k], Mask(txn)[k]) == XorSeq(a.ip, Mask(txn)[..|a.ip|])[k] {
      MaskByteIs(a.ip[k], Mask(txn)[k]);
    }
    assert seq(|a.ip|, k requires 0 <= k < |a.ip| => MaskByte(a.ip[k], Mask(txn)[k]))
        == XorSeq(a.ip, Mask(txn)[..|a.ip|]);
  }

  /** The address of section 2.2 of RFC 5769, 192.0.2.1 port 32853, read from its XOR-MAPPED-ADDRESS, alone and in a
      response, and from a MAPPED-ADDRESS. */
  lemma SampleResponse(txn: seq<byte>)
    requires |txn| == 12
    ensures var head, found := [0x01, 0x01, 0x00, 0x0C, 0x21, 0x12, 0xA4, 0x42] + txn, Addr([192, 0, 2, 1], 32853);
      && DecodeXor([0x00, 0x01, 0xA1, 0x47, 0xE1, 0x12, 0xA6, 0x43], txn) == Some(found)
      && Parse(head + [0x00, 0x20, 0x00, 0x08] + [0x00, 0x01, 0xA1, 0x47, 0xE1, 0x12, 0xA6, 0x43], txn) == Found(found)
      && Parse(head + [0x00, 0x01, 0x00, 0x08] + [0x00, 0x01, 0x80, 0x55, 192, 0, 2, 1], txn) == Found(found)
  {
    SampleBytes(txn);
    SampleXor([0x00, 0x01, 0xA1, 0x47, 0xE1, 0x12, 0xA6, 0x43], txn);
    SampleMapped([0x00, 0x01, 0x80, 0x55, 192, 0, 2, 1], txn);
    assert U16(0x80, 0x55) == 32853;
  }

  lemma SampleXor(val: seq<byte>, txn: seq<byte>)
    requires |txn| == 12 && |val| == 8 && DecodeXor(val, txn).Some?
    ensures var head := [0x01, 0x01, 0x00, 0x0C, 0x21, 0x12, 0xA4, 0x42] + txn;
      Parse(head + [0x00, 0x20, 0x00, 0x08] + val, txn) == Found(DecodeXor(val, txn).value)
  {
    SampleParses(0x0020, val, txn);
  }

  lemma SampleMapped(val: seq<byte>, txn: seq<byte>)
    requires |txn| == 12 && |val| == 8 && val[1] == 1
    ensures var head := [0x01, 0x01, 0x00, 0x0C, 0x21, 0x12, 0xA4, 0x42] + txn;
      Parse(head + [0x00, 0x01, 0x00, 0x08] + val, txn) == Found(Addr(val[4..], U16(val[2], val[3])))
  {
    SampleParses(0x0001, val, txn);
    assert val[4..8] == val[4..];
    var attr := Attr(0x0001, val, []);
    assert FirstXor([attr], txn) == FirstXor([attr][1..], txn) == None;
  }

  lemma SampleBytes(txn: seq<byte>)
    requires |txn| == 12
    ensures DecodeXor([0x00, 0x01, 0xA1, 0x47, 0xE1, 0x12, 0xA6, 0x43], txn) == Some(Addr([192, 0, 2, 1], 32853))
  {
    SamplePort();
    SampleIP();
    var val: seq<byte> := [0x00, 0x01, 0xA1, 0x47, 0xE1, 0x12, 0xA6, 0x43];
    assert val[4..8] == [0xE1, 0x12, 0xA6, 0x43];
    assert U16(val[2], val[3]) == 0xA147;
  }

  /** Exclusive or one hexadecimal digit at a time. */
  lemma XorDigit(x: nat, a: nat, y: nat, b: nat, n: nat)
    requires a < 16 && b < 16
    ensures XorNum(16 * x + a, 16 * y + b, n + 4) == 16 * XorNum(x, y, n) + XorNum(a, b, 4)
  {
    var a1, a0, b1, b0 := a / 4, a % 4, b / 4, b % 4;
    XorPair(4 * x + a1, a0, 4 * y + b1, b0, n + 2);
    XorPair(x, a1, y, b1, n);
    XorPair(a1, a0, b1, b0, 2);
  }

  lemma XorPair(x: nat, a: nat, y: nat, b: nat, n: nat)
    requires a < 4 && b < 4
    ensures XorNum(4 * x + a, 4 * y + b, n + 2) == 4 * XorNum(x, y, n) + XorNum(a, b, 2)
  {
    var a1, a0, b1, b0 := a / 2, a % 2, b / 2, b % 2;
    XorBit(2 * x + a1, a0, 2 * y + b1, b0, n + 1);
    XorBit(x, a1, y, b1, n);
    XorBit(a1, a0, b1, b0, 1);
    XorBit(0, a1, 0, b1, 0);
  }

  lemma XorBit(x: nat, a: nat, y: nat, b: nat, n: nat)
    requires a < 2 && b < 2
    ensures XorNum(2 * x + a, 2 * y + b, n + 1) == (a + b) % 2 + 2 * XorNum(x, y, n)
  {
  }

  lemma SamplePort()
    ensures Xor16(0xA147) == 32853
  {
    SampleDigits();
    XorDigit(0xA14, 0x7, 0x211, 0x2, 12);
    XorDigit(0xA1, 0x4, 0x21, 0x1, 8);
    XorDigit(0xA, 0x1, 0x2, 0x1, 4);
  }

  lemma SampleDigits()
    ensures XorNum(0xA, 0x2, 4) == 8 && XorNum(0x1, 0x1, 4) == 0 && XorNum(0x4, 0x1, 4) == 5 && XorNum(0x7, 0x2, 4) == 5
    ensures XorNum(0xE, 0x2, 4) == 12 && XorNum(0x2, 0x2, 4) == 0 && XorNum(0xA, 0xA, 4) == 0
    ensures XorNum(0x6, 0x4, 4) == 2 && XorNum(0x4, 0x4, 4) == 0 && XorNum(0x3, 0x2, 4) == 1
  {
  }

  lemma SampleIP()
    ensures XorSeq([0xE1, 0x12, 0xA6, 0x43], COOKIE) == [192, 0, 2, 1]
  {
    SampleOctets();
  }

  lemma SampleOctets()
    ensures Xor8(0xE1, 0x21) == 192 && Xor8(0x12, 0x12) == 0 && Xor8(0xA6, 0xA4) == 2 && Xor8(0x43, 0x42) == 1
  {
    SampleDigits();
    XorDigit(0xE, 0x1, 0x2, 0x1, 4);
    XorDigit(0x1, 0x2, 0x1, 0x2, 4);
    XorDigit(0xA, 0x6, 0xA, 0x4, 4);
    XorDigit(0x4, 0x3, 0x4, 0x2, 4);
  }

  /** A response whose one attribute has eight bytes. */
  lemma SampleParses(kind: nat, val: seq<byte>, txn: seq<byte>)
    requires |txn| == 12 && kind < 65536 && |val| == 8
    ensures var head := [0x01, 0x01, 0x00, 0x0C, 0x21, 0x12, 0xA4, 0x42] + txn;
      Parse(head + [kind / 256, kind % 256, 0x00, 0x08] + val, txn) == Reported([Attr(kind, val, [])], txn)
  {
    var attrs := [Attr(kind, val, [])];
    SampleAttribute(kind, val);
    SampleEncoded(attrs, txn, [kind / 256, kind % 256, 0x00, 0x08], val);
    ParseWellFormed(attrs, txn, []);
  }

  lemma SampleAttribute(kind: nat, val: seq<byte>)
    requires kind < 65536 && |val| == 8
    ensures EncodeAttrs([Attr(kind, val, [])]) == [kind / 256, kind % 256, 0x00, 0x08] + val
  {
    var attrs := [Attr(kind, val, [])];
    assert EncodeAttrs(attrs) == EncodeAttr(attrs[0]) + EncodeAttrs(attrs[1..]);
    assert Bytes16(8) == [0, 8];
  }

  lemma SampleEncoded(attrs: seq<Attr>, txn: seq<byte>, head: seq<byte>, val: seq<byte>)
    requires |txn| == 12 && (forall a | a in attrs :: AttrOk(a)) && |head + val| == 12
    requires EncodeAttrs(attrs) == head + val
    ensures EncodeResponse(attrs, txn, []) ==
      [0x01, 0x01, 0x00, 0x0C, 0x21, 0x12, 0xA4, 0x42] + txn + head + val
  {
    assert Bytes16(0x0101) + Bytes16(12) + [0x21, 0x12, 0xA4, 0x42] == [0x01, 0x01, 0x00, 0x0C, 0x21, 0x12, 0xA4, 0x42];
  }

  /** Where the fields of an encoded address sit. */
  lemma Layout(family: byte, port: nat, ip: seq<byte>)
    requires port < 65536
    ensures var s := [0, family] + Bytes16(port) + ip;
      |s| == 4 + |ip| && s[1] == family && U16(s[2], s[3]) == port && s[4..4 + |ip|] == ip
  {
    Bytes16Value(port);
    var s := [0, family] + Bytes16(port) + ip;
    assert s[2] == Bytes16(port)[0] && s[3] == Bytes16(port)[1];
    assert s[4..4 + |ip|] == ip;
  }
}
