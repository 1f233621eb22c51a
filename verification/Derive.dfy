/** Mesh address derivation: big-endian byte addition, ranges, collision retries
    (pkg/crypto/derive.go, pkg/daemon/collision.go, meshIPInSubnet of pkg/daemon/daemon.go).
    An address is its bytes; the hash is an arbitrary function. */
module Derive {
  import opened Numbers
  import opened Strings

  function Pow(b: nat, n: nat): nat {
    if n == 0 then 1 else b * Pow(b, n - 1)
  }

  /** The number a big-endian byte string denotes. */
  function Value(s: seq<byte>): nat {
    if |s| == 0 then 0 else s[0] * Pow(256, |s| - 1) + Value(s[1..])
  }

  lemma Distribute(a: int, b: int, c: int)
    ensures (a + b) * c == a * c + b * c
  {
  }

  lemma Associate(a: int, b: int, c: int)
    ensures a * (b * c) == (a * b) * c
  {
  }

  lemma Scale(a: int, b: int, c: int)
    requires a <= b && c >= 0
    ensures a * c <= b * c
  {
    Distribute(a, b - a, c);
    assert (b - a) * c >= 0;
  }

  lemma {:induction false} PowPositive(b: nat, n: nat)
    requires b > 0
    ensures Pow(b, n) > 0
  {
    if n > 0 {
      PowPositive(b, n - 1);
      Scale(1, b, Pow(b, n - 1));
    }
  }

  lemma {:induction false} ValueBound(s: seq<byte>)
    ensures Value(s) < Pow(256, |s|)
  {
    if |s| > 0 {
      ValueBound(s[1..]);
      DigitBound(s[0], Value(s[1..]), Pow(256, |s| - 1));
    }
  }

  lemma DigitBound(a: int, v: int, p: int)
    requires 0 <= a < 256 && 0 <= v < p
    ensures a * p + v < 256 * p
  {
    Scale(a + 1, 256, p);
    Distribute(a, 1, p);
  }

  lemma {:induction false} ValueConcat(s: seq<byte>, t: seq<byte>)
    ensures Value(s + t) == Value(s) * Pow(256, |t|) + Value(t)
  {
    if |s| == 0 {
      assert s + t == t;
    } else {
      var u := s + t;
      ValueConcat(s[1..], t);
      assert u[1..] == s[1..] + t && u[0] == s[0];
      PowAdd(256, |s| - 1, |t|);
      var a: int, b: int, c: int, v: int := s[0], Pow(256, |s| - 1), Pow(256, |t|), Value(s[1..]);
      assert Value(u) == a * Pow(256, |u| - 1) + Value(u[1..]);
      assert Pow(256, |u| - 1) == b * c;
      Associate(a, b, c);
      Distribute(a * b, v, c);
      assert Value(s) == a * b + v;
    }
  }

  lemma {:induction false} PowAdd(b: nat, m: nat, n: nat)
    ensures Pow(b, m + n) == Pow(b, m) * Pow(b, n)
  {
    if m > 0 {
      PowAdd(b, m - 1, n);
      Associate(b, Pow(b, m - 1), Pow(b, n));
    }
  }

  /** One step of the carry loop keeps the balance. */
  lemma CarryStep(b: int, remaining: nat, rest: int, restIp: int, p: nat, num: int)
    requires 0 <= b < 256 && restIp + remaining * p == rest + num
    ensures var sum := b + remaining % 256;
      (sum % 256) * p + restIp + (remaining / 256 + sum / 256) * (256 * p) == b * p + rest + num
  {
    var sum := b + remaining % 256;
    var d, q := sum % 256, remaining / 256 + sum / 256;
    assert d + q * 256 == b + remaining;
    Associate(q, 256, p);
    Distribute(d, q * 256, p);
    Distribute(b, remaining, p);
  }

  /** The balance the carry loop keeps: what is written and what is still to carry make up the sum so far. */
  ghost predicate Balanced(base: seq<byte>, ip: seq<byte>, i: nat, remaining: nat, hostNum: nat) {
    i <= |base| == |ip| && ip[..i] == base[..i] &&
    Value(ip[i..]) + remaining * Pow(256, |base| - i) == Value(base[i..]) + hostNum
  }

  lemma BalanceStep(base: seq<byte>, ip: seq<byte>, i: nat, remaining: nat, hostNum: nat)
    requires 0 < i && Balanced(base, ip, i, remaining, hostNum)
    ensures var sum := ip[i - 1] as int + remaining % 256;
      Balanced(base, ip[i - 1 := sum % 256], i - 1, remaining / 256 + sum / 256, hostNum)
  {
    var b: int, p: int := ip[i - 1], Pow(256, |base| - i);
    assert b == ip[..i][i - 1] == base[..i][i - 1] == base[i - 1];
    CarryStep(b, remaining, Value(base[i..]), Value(ip[i..]), p, hostNum);
    var sum := b + remaining % 256;
    var ip' := ip[i - 1 := sum % 256];
    assert ip'[i - 1..][1..] == ip[i..] && base[i - 1..][1..] == base[i..];
    assert Value(ip'[i - 1..]) == (sum % 256) * p + Value(ip[i..]);
    assert Value(base[i - 1..]) == b * p + Value(base[i..]);
    assert Pow(256, |base| - (i - 1)) == 256 * p;
    assert ip'[..i - 1] == ip[..i][..i - 1] == base[..i][..i - 1] == base[..i - 1];
  }

  /** The rest of the carry loop, from index i - 1 down. */
  function Carried(ip: seq<byte>, i: nat, remaining: nat): (out: seq<byte>)
    requires i <= |ip|
    ensures |out| == |ip|
    decreases i
  {
    if i == 0 || remaining == 0 then ip
    else
      var sum := ip[i - 1] as int + remaining % 256;
      Carried(ip[i - 1 := sum % 256], i - 1, remaining / 256 + sum / 256)
  }

  lemma {:induction false} CarriedAdds(base: seq<byte>, ip: seq<byte>, i: nat, remaining: nat, hostNum: nat)
    requires Balanced(base, ip, i, remaining, hostNum)
    ensures Pow(256, |base|) > 0 && Value(Carried(ip, i, remaining)) == (Value(base) + hostNum) % Pow(256, |base|)
    decreases i
  {
    if i == 0 || remaining == 0 {
      AddFinish(base, ip, i, remaining, hostNum);
    } else {
      BalanceStep(base, ip, i, remaining, hostNum);
      var sum := ip[i - 1] as int + remaining % 256;
      CarriedAdds(base, ip[i - 1 := sum % 256], i - 1, remaining / 256 + sum / 256, hostNum);
    }
  }

  lemma StartBalanced(base: seq<byte>, hostNum: nat)
    ensures Balanced(base, base, |base|, hostNum, hostNum)
  {
    assert base[|base|..] == [];
  }

  /** The loop of addHostNum. */
  method CarryLoop(base: seq<byte>, hostNum: nat) returns (out: seq<byte>)
    ensures out == Carried(base, |base|, hostNum)
  {
    var n := |base|;
    var ip := new byte[n](i requires 0 <= i < n => base[i]);
    var remaining: nat := hostNum;
    var i := n - 1;
    assert ip[..] == base;
    while i >= 0 && remaining > 0
      invariant -1 <= i < n && ip.Length == n
      invariant Carried(ip[..], i + 1, remaining) == Carried(base, n, hostNum)
    {
      ghost var before := ip[..];
      var sum := ip[i] as int + remaining % 256;
      ip[i] := sum % 256;
      remaining := remaining / 256 + sum / 256;
      assert ip[..] == before[i := sum % 256];
      i := i - 1;
    }
    out := ip[..];
  }

  /** addHostNum: exact big-endian addition, modulo 256^len, for every base and every 64-bit number. */
  method AddHostNum(base: seq<byte>, hostNum: nat) returns (out: seq<byte>)
    requires hostNum < 0x1_0000_0000_0000_0000
    ensures |out| == |base|
    ensures Pow(256, |base|) > 0 && Value(out) == (Value(base) + hostNum) % Pow(256, |base|)
  {
    StartBalanced(base, hostNum);
    CarriedAdds(base, base, |base|, hostNum, hostNum);
    out := CarryLoop(base, hostNum);
  }

  /** When the loop ends, either nothing is left to carry or the whole array was walked. */
  lemma AddFinish(base: seq<byte>, out: seq<byte>, i: nat, remaining: nat, hostNum: nat)
    requires Balanced(base, out, i, remaining, hostNum) && (i == 0 || remaining == 0)
    ensures Pow(256, |base|) > 0 && Value(out) == (Value(base) + hostNum) % Pow(256, |base|)
  {
    PowPositive(256, |base|);
    ValueBound(out);
    if i == 0 {
      assert out[i..] == out && base[i..] == base;
      ModUnique(Value(base) + hostNum, Pow(256, |base|), remaining, Value(out));
    } else {
      NothingCarried(base, out, i, hostNum);
      ModUnique(Value(base) + hostNum, Pow(256, |base|), 0, Value(out));
    }
  }

  lemma NothingCarried(base: seq<byte>, out: seq<byte>, i: nat, hostNum: nat)
    requires Balanced(base, out, i, 0, hostNum)
    ensures Value(out) == Value(base) + hostNum
  {
    ValueConcat(out[..i], out[i..]);
    ValueConcat(base[..i], base[i..]);
    assert out == out[..i] + out[i..] && base == base[..i] + base[i..];
  }

  // ---- Subnets ----

  datatype Subnet = Subnet(ip: seq<byte>, ones: nat, bits: nat)

  /** What net.ParseCIDR returns: a masked address as long as its mask. */
  ghost predicate Masked(s: Subnet) {
    s.ones <= s.bits == 8 * |s.ip| && Pow(2, s.bits - s.ones) > 0 && Value(s.ip) % Pow(2, s.bits - s.ones) == 0
  }

  datatype Result<+T> = Ok(value: T) | Err(error: string)

  /** validateIPv4Subnet. */
  function ValidateIPv4Subnet(s: Subnet): Result<int>
    requires s.ones <= s.bits
  {
    if s.bits != 32 then Err("only IPv4 subnets are supported for mesh IP derivation")
    else if s.bits - s.ones < 2 then Err("subnet too small")
    else Ok(s.bits - s.ones)
  }

  /** IPNet.Contains. */
  predicate InSubnet(ip: seq<byte>, s: Subnet)
    requires s.ones <= s.bits
  {
    PowPositive(2, s.bits - s.ones);
    |ip| == |s.ip| && Value(ip) / Pow(2, s.bits - s.ones) == Value(s.ip) / Pow(2, s.bits - s.ones)
  }

  /** Strictly between the network address and the broadcast address. */
  predicate UsableHost(ip: seq<byte>, s: Subnet)
    requires s.ones <= s.bits
  {
    |ip| == |s.ip| && Value(s.ip) < Value(ip) < Value(s.ip) + Pow(2, s.bits - s.ones) - 1
  }

  lemma {:induction false} PowMono(b: nat, m: nat, n: nat)
    requires b > 0 && m <= n
    ensures Pow(b, m) <= Pow(b, n)
  {
    if m < n {
      PowMono(b, m, n - 1);
      assert b * Pow(b, n - 1) >= Pow(b, n - 1);
    }
  }

  lemma Pow32()
    ensures Pow(2, 32) == 0x1_0000_0000 && Pow(256, 4) == 0x1_0000_0000 && Pow(2, 2) == 4
  {
    PowAdd(2, 16, 16);
    PowAdd(2, 8, 8);
    assert Pow(2, 4) == 16;
    PowAdd(2, 4, 4);
    assert Pow(256, 2) == 65536;
    PowAdd(256, 2, 2);
  }

  /** A host number from 1 to 2^h - 2 above a masked network address stays in the subnet, off both ends. */
  lemma HostInRange(s: Subnet, hostNum: nat, ip: seq<byte>)
    requires Masked(s) && s.bits == 32 && s.bits - s.ones >= 2
    requires 1 <= hostNum <= Pow(2, s.bits - s.ones) - 2
    requires |ip| == 4 && Value(ip) == (Value(s.ip) + hostNum) % Pow(256, 4)
    ensures UsableHost(ip, s) && InSubnet(ip, s) && Value(ip) == Value(s.ip) + hostNum
  {
    var h := s.bits - s.ones;
    var p, v, n := Pow(2, h), Value(s.ip), Pow(2, s.ones);
    Pow32();
    ValueBound(s.ip);
    PowAdd(2, s.ones, h);
    assert |s.ip| == 4;
    MaskedRoom(v, p, n, hostNum);
    ModUnique(v + hostNum, 0x1_0000_0000, 0, v + hostNum);
  }

  /** Arithmetic of HostInRange: a multiple of p below n * p has room for a whole block. */
  lemma MaskedRoom(v: nat, p: nat, n: nat, host: nat)
    requires p > 0 && v % p == 0 && v < n * p && host < p
    ensures v + p <= n * p && (v + host) / p == v / p
  {
    var q := v / p;
    assert v == q * p;
    if q >= n {
      Scale(n, q, p);
      assert false;
    }
    Scale(q + 1, n, p);
    Distribute(q, 1, p);
    ModUnique(v + host, p, q, host);
  }

  /** The address a hash picks among the usable hosts. */
  ghost function HostOf(s: Subnet, hash64: nat): nat
    requires s.bits == 32 && s.ones <= 30
  {
    Room(s);
    Value(s.ip) + 1 + hash64 % (Pow(2, 32 - s.ones) - 2)
  }

  lemma Room(s: Subnet)
    requires s.bits == 32 && s.ones <= 30
    ensures Pow(2, 32 - s.ones) >= 4
  {
    Pow32();
    PowMono(2, 2, 32 - s.ones);
  }

  /** Hashes go through the usable hosts in turn: from the one after the network address up to the one before the
      broadcast address, and round again. */
  lemma HostsInTurn(s: Subnet, hash64: nat)
    requires s.bits == 32 && s.ones <= 30
    ensures HostOf(s, 0) == Value(s.ip) + 1
    ensures HostOf(s, hash64 + 1) ==
      if HostOf(s, hash64) == Value(s.ip) + Pow(2, 32 - s.ones) - 2 then Value(s.ip) + 1 else HostOf(s, hash64) + 1
  {
    Room(s);
    InTurn(hash64, Pow(2, 32 - s.ones) - 2);
  }

  lemma InTurn(h: nat, m: nat)
    requires m > 1
    ensures 0 % m == 0 && (h + 1) % m == if h % m == m - 1 then 0 else h % m + 1
  {
    var q, r := h / m, h % m;
    assert h == q * m + r;
    assert (q + 1) * m == q * m + m;
    ModUnique(0, m, 0, 0);
    if r == m - 1 {
      ModUnique(h + 1, m, q + 1, 0);
    } else {
      ModUnique(h + 1, m, q, r + 1);
    }
  }

  /** The common end of DeriveMeshIPInSubnet and DeriveMeshIPInSubnetWithNonce; hash64 is the hash's first 8 bytes. */
  method HostInSubnet(s: Subnet, hash64: nat) returns (r: Result<seq<byte>>)
    requires Masked(s) && hash64 < 0x1_0000_0000_0000_0000
    ensures r.Ok? <==> s.bits == 32 && s.ones <= 30
    ensures r.Ok? ==> UsableHost(r.value, s) && InSubnet(r.value, s)
    ensures r.Ok? ==> Value(r.value) == HostOf(s, hash64)
  {
    var valid := ValidateIPv4Subnet(s);
    if valid.Err? {
      return Err(valid.error);
    }
    var hostBits := valid.value;
    Pow32();
    PowMono(2, 2, hostBits);
    PowMono(2, hostBits, 32);
    var maxHosts := Pow(2, hostBits) - 2;
    var hostNum := hash64 % maxHosts;
    hostNum := hostNum + 1;
    var ip := AddHostNum(s.ip, hostNum);
    HostInRange(s, hostNum, ip);
    return Ok(ip);
  }

  // ---- Legacy /16 addresses ----

  function LegacySubnet(meshSubnet: (byte, byte)): Subnet {
    Subnet([10, meshSubnet.0, 0, 0], 16, 32)
  }

  /** DeriveMeshIP from the first two bytes of the hash. */
  function LegacyIP(meshSubnet: (byte, byte), h0: byte, h1: byte): seq<byte> {
    [10, meshSubnet.0, Xor8(h0, meshSubnet.1), if h1 == 0 then 1 else if h1 == 255 then 254 else h1]
  }

  /** DeriveMeshIPWithNonce from the first two bytes of the hash. */
  function LegacyIPWithNonce(meshSubnet: (byte, byte), h0: byte, h1: byte): seq<byte> {
    var suffix := h0 * 256 + h1;
    var s := if suffix == 0 then 1 else if suffix == 65535 then 65534 else suffix;
    [10, meshSubnet.0, s / 256, s % 256]
  }

  lemma Value4(s: seq<byte>)
    requires |s| == 4
    ensures Value(s) == s[0] as int * 0x100_0000 + s[1] as int * 0x1_0000 + s[2] as int * 0x100 + s[3] as int
  {
    assert Pow(256, 1) == 256 && Pow(256, 2) == 65536 && Pow(256, 3) == 16777216;
    assert s[1..][1..] == s[2..] && s[2..][1..] == s[3..] && s[3..][1..] == [];
    assert Value(s[3..]) == s[3] as int;
    assert Value(s[2..]) == s[2] as int * 256 + Value(s[3..]);
    assert Value(s[1..]) == s[1] as int * 65536 + Value(s[2..]);
  }

  lemma Pow16()
    ensures Pow(2, 16) == 65536
  {
    assert Pow(2, 4) == 16;
    PowAdd(2, 4, 4);
    PowAdd(2, 8, 8);
  }

  /** Legacy addresses lie in 10.x.0.0/16, off its first and last address; the plain ones also never end in 0 or 255. */
  lemma LegacyInRange(meshSubnet: (byte, byte), h0: byte, h1: byte)
    ensures Masked(LegacySubnet(meshSubnet))
    ensures forall ip | ip in {LegacyIP(meshSubnet, h0, h1), LegacyIPWithNonce(meshSubnet, h0, h1)} ::
      UsableHost(ip, LegacySubnet(meshSubnet)) && InSubnet(ip, LegacySubnet(meshSubnet))
    ensures LegacyIP(meshSubnet, h0, h1)[3] !in {0, 255}
  {
    var s := LegacySubnet(meshSubnet);
    Pow16();
    Value4(s.ip);
    var q := 2560 + meshSubnet.0;
    ModUnique(Value(s.ip), 65536, q, 0);
    forall ip | ip in {LegacyIP(meshSubnet, h0, h1), LegacyIPWithNonce(meshSubnet, h0, h1)}
      ensures UsableHost(ip, s) && InSubnet(ip, s)
    {
      Value4(ip);
      ModUnique(Value(ip), 65536, q, ip[2] * 256 + ip[3]);
    }
  }

  /** What of the hash a plain legacy address shows: each bit of its first byte, flipped where the mesh's second byte
      has that bit, and its second byte, which loses only 0 against 1 and 255 against 254. */
  lemma LegacyFromHash(meshSubnet: (byte, byte), h0: byte, h1: byte, g0: byte, g1: byte)
    ensures var ip := LegacyIP(meshSubnet, h0, h1);
      && |ip| == 4 && ip[0] == 10 && ip[1] == meshSubnet.0
      && (forall i: nat | i < 8 :: Bit(ip[2], i) == (Bit(h0, i) != Bit(meshSubnet.1, i)))
      && (h1 !in {0, 255} ==> ip[3] == h1)
    ensures LegacyIP(meshSubnet, h0, h1) == LegacyIP(meshSubnet, g0, g1) <==>
      h0 == g0 && (h1 == g1 || {h1, g1} == {0, 1} || {h1, g1} == {254, 255})
  {
    forall i: nat | i < 8 ensures Bit(Xor8(h0, meshSubnet.1), i) == (Bit(h0, i) != Bit(meshSubnet.1, i)) {
      Xor8Bits(h0, meshSubnet.1, i);
    }
    assert Pow2(8) == 256;
    XorTwice(h0, meshSubnet.1, 8);
    XorTwice(g0, meshSubnet.1, 8);
  }

  /** An address derived with a nonce shows both hash bytes, and loses only 0.0 against 0.1 and 255.255 against
      255.254; the mesh's second byte no longer matters. */
  lemma LegacyNonceFromHash(meshSubnet: (byte, byte), h0: byte, h1: byte, g0: byte, g1: byte)
    ensures (h0, h1) !in {(0, 0), (255, 255)} ==>
      LegacyIPWithNonce(meshSubnet, h0, h1) == [10, meshSubnet.0, h0, h1]
    ensures LegacyIPWithNonce(meshSubnet, h0, h1) == LegacyIPWithNonce(meshSubnet, g0, g1) <==>
      (|| (h0, h1) == (g0, g1) || {(h0, h1), (g0, g1)} == {(0, 0), (0, 1)}
       || {(h0, h1), (g0, g1)} == {(255, 255), (255, 254)})
  {
    NonceOctets(meshSubnet, h0, h1);
    NonceOctets(meshSubnet, g0, g1);
  }

  lemma NonceOctets(meshSubnet: (byte, byte), h0: byte, h1: byte)
    ensures LegacyIPWithNonce(meshSubnet, h0, h1) ==
      [10, meshSubnet.0, h0,
       if h0 == h1 == 0 then 1 else if h0 == h1 == 255 then 254 else h1]
  {
    var suffix: nat := h0 * 256 + h1;
    ModUnique(suffix, 256, h0, h1);
  }

  // ---- Deriving with collision retries ----

  /** What derivation needs: the custom subnet if any, the mesh's subnet bytes, and the hash of attempt k for this key
      and secret, attempt 0 being the plain derivation and attempt k the one with nonce k. */
  datatype Config = Config(custom: Option<Subnet>, meshSubnet: (byte, byte), hash: nat -> seq<byte>)

  ghost predicate Wellformed(c: Config) {
    (c.custom.Some? ==> Masked(c.custom.value)) && forall k :: |c.hash(k)| == 32
  }

  /** meshIPInSubnet. */
  predicate MeshIPInSubnet(c: Config, ip: seq<byte>)
    requires c.custom.Some? ==> c.custom.value.ones <= c.custom.value.bits
  {
    InSubnet(ip, if c.custom.Some? then c.custom.value else LegacySubnet(c.meshSubnet))
  }

  ghost function AttemptValue(c: Config, k: nat): Option<nat>
    requires Wellformed(c)
  {
    match c.custom
    case None =>
      Some(Value(LegacyOf(c, k)))
    case Some(s) =>
      if s.bits != 32 || s.ones > 30 then None else Some(HostOf(s, Value(c.hash(k)[..8])))
  }

  /** One derivation, plain for k = 0 and with nonce k otherwise: it fails exactly for a custom subnet that is not IPv4
      or smaller than /30, and otherwise gives a host inside the mesh's subnet, off its first and last address. */
  method Attempt(c: Config, k: nat) returns (r: Result<seq<byte>>)
    requires Wellformed(c)
    ensures r.Err? <==> c.custom.Some? && (c.custom.value.bits != 32 || c.custom.value.ones > 30)
    ensures r.Ok? ==> MeshIPInSubnet(c, r.value) && |r.value| == 4 && AttemptValue(c, k) == Some(Value(r.value))
    ensures r.Ok? ==> UsableHost(r.value, if c.custom.Some? then c.custom.value else LegacySubnet(c.meshSubnet))
  {
    match c.custom
    case Some(s) =>
      r := AttemptIn(c, k, s);
    case None =>
      LegacyAttempt(c, k);
      r := Ok(LegacyOf(c, k));
  }

  /** DeriveMeshIPInSubnet and DeriveMeshIPInSubnetWithNonce. */
  method AttemptIn(c: Config, k: nat, s: Subnet) returns (r: Result<seq<byte>>)
    requires Wellformed(c) && c.custom == Some(s)
    ensures r.Err? <==> s.bits != 32 || s.ones > 30
    ensures r.Ok? ==> InSubnet(r.value, s) && |r.value| == 4 && AttemptValue(c, k) == Some(Value(r.value))
    ensures r.Ok? ==> UsableHost(r.value, s)
  {
    HashBound(c, k);
    r := HostInSubnet(s, Value(c.hash(k)[..8]));
  }

  lemma HashBound(c: Config, k: nat)
    requires Wellformed(c)
    ensures Value(c.hash(k)[..8]) < 0x1_0000_0000_0000_0000
  {
    ValueBound(c.hash(k)[..8]);
    PowAdd(256, 4, 4);
    Pow32();
  }

  /** The derivation without a custom subnet. */
  function LegacyOf(c: Config, k: nat): seq<byte>
    requires |c.hash(k)| == 32
  {
    if k == 0 then LegacyIP(c.meshSubnet, c.hash(k)[0], c.hash(k)[1])
    else LegacyIPWithNonce(c.meshSubnet, c.hash(k)[0], c.hash(k)[1])
  }

  lemma LegacyAttempt(c: Config, k: nat)
    requires Wellformed(c) && c.custom.None?
    ensures |LegacyOf(c, k)| == 4 && MeshIPInSubnet(c, LegacyOf(c, k))
    ensures AttemptValue(c, k) == Some(Value(LegacyOf(c, k)))
    ensures UsableHost(LegacyOf(c, k), LegacySubnet(c.meshSubnet))
  {
    LegacyInRange(c.meshSubnet, c.hash(k)[0], c.hash(k)[1]);
  }

  /** The hash of attempt k, and no other, decides the address: the first eight bytes in a custom subnet, the first two
      in the mesh's own. */
  lemma AttemptShowsHash(c: Config, k: nat)
    requires Wellformed(c)
    ensures c.custom.None? ==> AttemptValue(c, k) == Some(Value(LegacyOf(c, k)))
    ensures c.custom.None? && k == 0 ==>
      LegacyOf(c, 0)[..2] == [10, c.meshSubnet.0] && OctetMixes(LegacyOf(c, 0)[2], c.hash(0)[0], c.meshSubnet.1)
      && (c.hash(0)[1] !in {0, 255} ==> LegacyOf(c, 0)[3] == c.hash(0)[1])
    ensures c.custom.None? && k > 0 && (c.hash(k)[0], c.hash(k)[1]) !in {(0, 0), (255, 255)} ==>
      LegacyOf(c, k) == [10, c.meshSubnet.0, c.hash(k)[0], c.hash(k)[1]]
    ensures c.custom.Some? && AttemptValue(c, k).Some? ==>
      AttemptValue(c, k).value == HostOf(c.custom.value, Value(c.hash(k)[..8]))
  {
    var h0, h1 := c.hash(k)[0], c.hash(k)[1];
    LegacyFromHash(c.meshSubnet, h0, h1, h0, h1);
    LegacyNonceFromHash(c.meshSubnet, h0, h1, h0, h1);
  }

  /** Each bit of an octet is the bit of one byte, flipped where another has that bit. */
  ghost predicate OctetMixes(octet: byte, a: byte, b: byte) {
    forall i: nat | i < 8 :: Bit(octet, i) == (Bit(a, i) != Bit(b, i))
  }

  /** An address lies in the mesh's subnet exactly when it is one of the subnet's 2^h addresses, or, without a custom
      subnet, when it begins with 10 and the mesh's first byte. */
  lemma MeshIPInSubnetIff(c: Config, ip: seq<byte>)
    requires Wellformed(c) && |ip| == 4
    ensures c.custom.None? ==> (MeshIPInSubnet(c, ip) <==> ip[..2] == [10, c.meshSubnet.0])
    ensures c.custom.Some? && |c.custom.value.ip| == 4 ==>
      var s := c.custom.value;
      (MeshIPInSubnet(c, ip) <==> Value(s.ip) <= Value(ip) < Value(s.ip) + Pow(2, s.bits - s.ones))
  {
    match c.custom
    case Some(s) =>
      PowPositive(2, s.bits - s.ones);
      SameBlock(Value(s.ip), Value(ip), Pow(2, s.bits - s.ones));
    case None =>
      var own := LegacySubnet(c.meshSubnet).ip;
      Pow16();
      Value4(own);
      Value4(ip);
      ModUnique(Value(own), 65536, 2560 + c.meshSubnet.0, 0);
      var high: nat, low: nat := ip[0] as int * 256 + ip[1] as int, ip[2] as int * 256 + ip[3] as int;
      ModUnique(Value(ip), 65536, high, low);
      assert ip[..2] == [ip[0], ip[1]];
  }

  lemma SameBlock(v: nat, w: nat, p: nat)
    requires p > 0 && v % p == 0
    ensures w / p == v / p <==> v <= w < v + p
  {
    var q := v / p;
    assert v == q * p;
    if w / p == q {
      assert w == q * p + w % p;
    }
    if v <= w < v + p {
      ModUnique(w, p, q, w - v);
    }
  }

  lemma {:induction false} ValueInjective(s: seq<byte>, t: seq<byte>)
    requires |s| == |t| && Value(s) == Value(t)
    ensures s == t
  {
    if |s| > 0 {
      ValueBound(s[1..]);
      ValueBound(t[1..]);
      var p := Pow(256, |s| - 1);
      ModUnique(Value(s), p, s[0], Value(s[1..]));
      ModUnique(Value(t), p, t[0], Value(t[1..]));
      ValueInjective(s[1..], t[1..]);
      assert s == [s[0]] + s[1..] && t == [t[0]] + t[1..];
    }
  }

  /** Nobody else holds the address of attempt k. */
  ghost predicate Free(c: Config, owners: map<seq<byte>, string>, key: string, k: nat)
    requires Wellformed(c)
  {
    AttemptValue(c, k).Some? &&
    forall ip | ip in owners && |ip| == 4 && Value(ip) == AttemptValue(c, k).value :: owners[ip] == key
  }

  const MAX_NONCE := 10

  /** DeriveMeshIPWithCollisionCheck: the first of ten attempts nobody else holds, else the eleventh unchecked; so the
      result collides exactly when all eleven do. */
  method DeriveWithCollisionCheck(c: Config, owners: map<seq<byte>, string>, key: string)
    returns (ip: seq<byte>, ghost k: nat)
    requires Wellformed(c)
    ensures ip == [] <==> c.custom.Some? && (c.custom.value.bits != 32 || c.custom.value.ones > 30)
    ensures ip != [] ==>
      && MeshIPInSubnet(c, ip) && FirstFree(c, owners, key, ip, k)
      && ((ip in owners && owners[ip] != key) <==> forall j | 0 <= j <= 10 :: !Free(c, owners, key, j))
  {
    k := 0;
    var derived := Attempt(c, 0);
    if derived.Err? {
      return [], k;
    }
    ip := derived.value;
    for nonce := 1 to MAX_NONCE + 1
      invariant k == nonce - 1
      invariant |ip| == 4 && MeshIPInSubnet(c, ip) && AttemptValue(c, k) == Some(Value(ip))
      invariant forall j | 0 <= j < k :: !Free(c, owners, key, j)
    {
      FreeIff(c, owners, key, k, ip);
      if ip !in owners || owners[ip] == key {
        break;
      }
      derived := Attempt(c, nonce);
      if derived.Err? {
        assert false;
        return [], k;
      }
      ip := derived.value;
      k := nonce;
    }
    CollidesIff(c, owners, key, ip, k);
  }

  /** ip is what attempt k gives, and k is the first attempt that is free, or the last. */
  ghost predicate FirstFree(c: Config, owners: map<seq<byte>, string>, key: string, ip: seq<byte>, k: nat)
    requires Wellformed(c)
  {
    && |ip| == 4 && k <= 10 && AttemptValue(c, k) == Some(Value(ip))
    && (forall j | 0 <= j < k :: !Free(c, owners, key, j)) && (k == 10 || Free(c, owners, key, k))
  }

  lemma CollidesIff(c: Config, owners: map<seq<byte>, string>, key: string, ip: seq<byte>, k: nat)
    requires Wellformed(c) && FirstFree(c, owners, key, ip, k)
    ensures (ip in owners && owners[ip] != key) <==> forall j | 0 <= j <= 10 :: !Free(c, owners, key, j)
  {
    FreeIff(c, owners, key, k, ip);
  }

  lemma FreeIff(c: Config, owners: map<seq<byte>, string>, key: string, k: nat, ip: seq<byte>)
    requires Wellformed(c) && |ip| == 4 && AttemptValue(c, k) == Some(Value(ip))
    ensures Free(c, owners, key, k) <==> ip !in owners || owners[ip] == key
  {
    forall o | o in owners && |o| == 4 && Value(o) == Value(ip) ensures o == ip {
      ValueInjective(o, ip);
    }
  }
}
