/** IPv4 helpers of the scanner: dotted-quad validation, conversion between
    dotted quads and 32-bit numbers, CIDR blocks, and the expansion of an
    address range into the list of its addresses. The conversions use the
    JavaScript bitwise operators, so `IpToNumber` gives a signed 32-bit
    number (negative when the first octet is 128 or more). */
module Ip {
  import opened Js
  import opened Wrappers

  datatype IpRange = IpRange(startIp: string, endIp: string)

  // ---------------------------------------------------------------------
  // Validation
  // ---------------------------------------------------------------------

  /** A part is accepted when `parseInt` reads a number in 0..255 from its
      start; trailing text after the digits is ignored. */
  predicate IsValidPart(part: string)
  {
    var n := ParseInt(part);
    n.Int? && 0 <= n.val <= 255
  }

  /** `parts.every(...)` with the part check above. */
  predicate AllPartsValid(parts: seq<string>)
  {
    Every(parts, IsValidPart)
  }

  /** `isValidIpAddress`: exactly four dot-separated parts, each valid. */
  predicate IsValidIpAddress(ip: string)
  {
    var parts := Split(ip, '.');
    |parts| == 4 && AllPartsValid(parts)
  }

  // ---------------------------------------------------------------------
  // Numbers and dotted quads
  // ---------------------------------------------------------------------

  /** The operand `parts[k]` after `map(Number)`; a missing part is
      `undefined`, which the bitwise operators read as 0. */
  function PartOperand(parts: seq<string>, k: nat): int
  {
    if k < |parts| then NumericOperand(NumberOfString(parts[k])) else 0
  }

  /** `(p0 << 24) | (p1 << 16) | (p2 << 8) | p3` */
  function PackOperands(p0: int, p1: int, p2: int, p3: int): (n: int)
    ensures -0x8000_0000 <= n < 0x8000_0000
  {
    Or(Or(Or(ShiftLeft(p0, 24), ShiftLeft(p1, 16)), ShiftLeft(p2, 8)), p3)
  }

  /** `ipToNumber`: the dot-separated parts, read with `Number()`, packed
      most significant first. */
  function IpToNumber(ip: string): (n: int)
    ensures -0x8000_0000 <= n < 0x8000_0000
  {
    var parts := Split(ip, '.');
    PackOperands(PartOperand(parts, 0), PartOperand(parts, 1), PartOperand(parts, 2), PartOperand(parts, 3))
  }

  /** `numberToIp`: the four bytes of the 32-bit pattern, most significant first. */
  function NumberToIp(num: int): string
  {
    Join([IntToString(And(ShiftRightUnsigned(num, 24), 0xff)),
          IntToString(And(ShiftRightUnsigned(num, 16), 0xff)),
          IntToString(And(ShiftRightUnsigned(num, 8), 0xff)),
          IntToString(And(num, 0xff))], ".")
  }

  /** The canonical dotted quad of four octets. */
  function Quad(a: nat, b: nat, c: nat, d: nat): string
  {
    Join([NatToString(a), NatToString(b), NatToString(c), NatToString(d)], ".")
  }

  /** The unsigned 32-bit value of four octets, big-endian. */
  function Pack(a: nat, b: nat, c: nat, d: nat): nat
  {
    a * 16777216 + b * 65536 + c * 256 + d
  }

  predicate IsOctet(n: nat) { n < 256 }

  lemma NoSeparatorInDigits(n: nat)
    ensures '.' !in NatToString(n) && '/' !in NatToString(n) && '-' !in NatToString(n)
  {
  }

  lemma SplitQuad(a: nat, b: nat, c: nat, d: nat)
    ensures Split(Quad(a, b, c, d), '.') == [NatToString(a), NatToString(b), NatToString(c), NatToString(d)]
  {
    NoSeparatorInDigits(a);
    NoSeparatorInDigits(b);
    NoSeparatorInDigits(c);
    NoSeparatorInDigits(d);
    SplitJoin([NatToString(a), NatToString(b), NatToString(c), NatToString(d)], '.');
  }

  /** `Number()` reads an octet back from its decimal text. */
  lemma PartOperandOf(parts: seq<string>, k: nat, n: nat)
    requires k < |parts| && parts[k] == NatToString(n)
    ensures PartOperand(parts, k) == n
  {
    NumberOfNat(n);
  }

  /** `Number()` reads the four octets back from the parts of a quad. */
  lemma QuadOperands(a: nat, b: nat, c: nat, d: nat)
    ensures var parts := Split(Quad(a, b, c, d), '.');
      PartOperand(parts, 0) == a && PartOperand(parts, 1) == b &&
      PartOperand(parts, 2) == c && PartOperand(parts, 3) == d
  {
    var parts := Split(Quad(a, b, c, d), '.');
    SplitQuad(a, b, c, d);
    PartOperandOf(parts, 0, a);
    PartOperandOf(parts, 1, b);
    PartOperandOf(parts, 2, c);
    PartOperandOf(parts, 3, d);
  }

  /** Packing four octets with the shifts and ors of `ipToNumber`. */
  lemma PackHigh(a: nat, b: nat)
    requires IsOctet(a) && IsOctet(b)
    ensures ToUint32(Or(ShiftLeft(a, 24), ShiftLeft(b, 16))) == (a * 256 + b) * 65536
  {
    Pow2Values();
    ShiftLeftSmall(a, 24, 16777216);
    ShiftLeftSmall(b, 16, 65536);
    OrDisjoint(ShiftLeft(a, 24), ShiftLeft(b, 16), a, 24, 16777216);
  }

  lemma PackOperandsOctets(a: nat, b: nat, c: nat, d: nat)
    requires IsOctet(a) && IsOctet(b) && IsOctet(c) && IsOctet(d)
    ensures PackOperands(a, b, c, d) == ToInt32(Pack(a, b, c, d))
  {
    Pow2Values();
    PackHigh(a, b);
    ShiftLeftSmall(c, 8, 256);
    var y1 := Or(ShiftLeft(a, 24), ShiftLeft(b, 16));
    var y2 := Or(y1, ShiftLeft(c, 8));
    OrDisjoint(y1, ShiftLeft(c, 8), a * 256 + b, 16, 65536);
    assert ToUint32(y2) == (a * 65536 + b * 256 + c) * 256;
    OrDisjoint(y2, d, a * 65536 + b * 256 + c, 8, 256);
  }

  /** `ipToNumber` of a canonical quad is the signed reading of its packed octets. */
  lemma IpToNumberQuad(a: nat, b: nat, c: nat, d: nat)
    requires IsOctet(a) && IsOctet(b) && IsOctet(c) && IsOctet(d)
    ensures IpToNumber(Quad(a, b, c, d)) == ToInt32(Pack(a, b, c, d))
  {
    QuadOperands(a, b, c, d);
    PackOperandsOctets(a, b, c, d);
  }

  /** The four bytes of an unsigned 32-bit number pack back into it. */
  lemma OctetsPack(x: nat)
    requires x < TwoTo32
    ensures x / 16777216 < 256
    ensures Pack(x / 16777216, (x / 65536) % 256, (x / 256) % 256, x % 256) == x
  {
    DivDiv(x, 256, 256);
    DivDiv(x, 65536, 256);
    var q1 := x / 256;
    var q2 := q1 / 256;
    var q3 := q2 / 256;
    assert x == 256 * q1 + x % 256;
    assert q1 == 256 * q2 + q1 % 256;
    assert q2 == 256 * q3 + q2 % 256;
    assert q3 == x / 16777216;
  }

  /** The bytes of a packed value are the octets that were packed. */
  lemma PackOctets(a: nat, b: nat, c: nat, d: nat)
    requires IsOctet(a) && IsOctet(b) && IsOctet(c) && IsOctet(d)
    ensures Pack(a, b, c, d) < TwoTo32
    ensures Pack(a, b, c, d) / 16777216 == a
    ensures (Pack(a, b, c, d) / 65536) % 256 == b
    ensures (Pack(a, b, c, d) / 256) % 256 == c
    ensures Pack(a, b, c, d) % 256 == d
  {
    var p := Pack(a, b, c, d);
    DivModUnique(p, 16777216, a, b * 65536 + c * 256 + d);
    DivModUnique(p, 65536, a * 256 + b, c * 256 + d);
    DivModUnique(a * 256 + b, 256, a, b);
    DivModUnique(p, 256, a * 65536 + b * 256 + c, d);
    DivModUnique(a * 65536 + b * 256 + c, 256, a * 256 + b, c);
  }

  /** `(num >>> s) & 0xff` is byte `s / 8` of the 32-bit pattern of `num`. */
  lemma ByteOf(num: int, s: nat, p: nat)
    requires s < 32 && p == Pow2(s)
    ensures And(ShiftRightUnsigned(num, s), 0xff) == (ToUint32(num) / p) % 256
  {
    ShiftRightValue(num, s, p);
    AndLowByte(ShiftRightUnsigned(num, s));
  }

  /** `numberToIp` writes the four bytes of the 32-bit pattern. */
  lemma NumberToIpBytes(num: int)
    ensures var x := ToUint32(num);
      NumberToIp(num) == Quad(x / 16777216, (x / 65536) % 256, (x / 256) % 256, x % 256)
  {
    Pow2Values();
    var x := ToUint32(num);
    var o0, o1, o2, o3 := x / 16777216, (x / 65536) % 256, (x / 256) % 256, x % 256;
    ByteOf(num, 24, 16777216);
    ByteOf(num, 16, 65536);
    ByteOf(num, 8, 256);
    AndLowByte(num);
    assert o0 * 16777216 <= x;
    assert o0 < 256;
    DivModUnique(o0, 256, 0, o0);
    var s0 := IntToString(And(ShiftRightUnsigned(num, 24), 0xff));
    var s1 := IntToString(And(ShiftRightUnsigned(num, 16), 0xff));
    var s2 := IntToString(And(ShiftRightUnsigned(num, 8), 0xff));
    var s3 := IntToString(And(num, 0xff));
    assert s0 == NatToString(o0);
    assert s1 == NatToString(o1);
    assert s2 == NatToString(o2);
    assert s3 == NatToString(o3);
    assert [s0, s1, s2, s3] == [NatToString(o0), NatToString(o1), NatToString(o2), NatToString(o3)];
  }

  /** Round trip: a canonical dotted quad survives `ipToNumber` then `numberToIp`. */
  lemma QuadRoundTrip(a: nat, b: nat, c: nat, d: nat)
    requires IsOctet(a) && IsOctet(b) && IsOctet(c) && IsOctet(d)
    ensures NumberToIp(IpToNumber(Quad(a, b, c, d))) == Quad(a, b, c, d)
  {
    IpToNumberQuad(a, b, c, d);
    PackOctets(a, b, c, d);
    NumberToIpBytes(ToInt32(Pack(a, b, c, d)));
  }

  /** `numberToIp` of a packed value writes its octets. */
  lemma NumberToIpPack(a: nat, b: nat, c: nat, d: nat)
    requires IsOctet(a) && IsOctet(b) && IsOctet(c) && IsOctet(d)
    ensures NumberToIp(Pack(a, b, c, d)) == Quad(a, b, c, d)
  {
    PackOctets(a, b, c, d);
    NumberToIpBytes(Pack(a, b, c, d));
  }

  /** Round trip the other way: every number comes back as its signed 32-bit value. */
  lemma NumberRoundTrip(num: int)
    ensures IpToNumber(NumberToIp(num)) == ToInt32(num)
  {
    var x := ToUint32(num);
    OctetsPack(x);
    NumberToIpBytes(num);
    IpToNumberQuad(x / 16777216, (x / 65536) % 256, (x / 256) % 256, x % 256);
  }

  /** The signed packing: a first octet of 128 or more gives a negative number. */
  lemma IpToNumberSign(a: nat, b: nat, c: nat, d: nat)
    requires IsOctet(a) && IsOctet(b) && IsOctet(c) && IsOctet(d)
    ensures IpToNumber(Quad(a, b, c, d)) < 0 <==> a >= 128
    ensures IpToNumber(Quad(a, b, c, d)) ==
      Pack(a, b, c, d) - (if a >= 128 then TwoTo32 else 0)
  {
    IpToNumberQuad(a, b, c, d);
  }

  /** `every` over four parts is the four checks. */
  lemma AllPartsValid4(parts: seq<string>)
    requires |parts| == 4
    ensures AllPartsValid(parts) <==>
      IsValidPart(parts[0]) && IsValidPart(parts[1]) && IsValidPart(parts[2]) && IsValidPart(parts[3])
  {
    EveryAll(parts, IsValidPart);
    if IsValidPart(parts[0]) && IsValidPart(parts[1]) && IsValidPart(parts[2]) && IsValidPart(parts[3]) {
      forall k | 0 <= k < 4
        ensures IsValidPart(parts[k])
      {
        assert k == 0 || k == 1 || k == 2 || k == 3;
      }
    }
  }

  /** The decimal text of a number is a valid part exactly when it is an octet. */
  lemma ValidPartOf(n: nat)
    ensures IsValidPart(NatToString(n)) <==> IsOctet(n)
  {
    ParseIntOfNat(n);
  }

  /** Exactly the quads of four octets are valid. */
  lemma ValidQuad(a: nat, b: nat, c: nat, d: nat)
    ensures IsValidIpAddress(Quad(a, b, c, d)) <==> IsOctet(a) && IsOctet(b) && IsOctet(c) && IsOctet(d)
  {
    var parts := Split(Quad(a, b, c, d), '.');
    SplitQuad(a, b, c, d);
    assert |parts| == 4;
    AllPartsValid4(parts);
    ValidPartOf(a);
    ValidPartOf(b);
    ValidPartOf(c);
    ValidPartOf(d);
    assert parts[0] == NatToString(a) && parts[1] == NatToString(b);
    assert parts[2] == NatToString(c) && parts[3] == NatToString(d);
  }

  /** An address whose first part is any text `p0`, followed by three
      canonical octets: it is valid exactly when `parseInt` reads an octet
      from `p0`, and it is packed with whatever `Number()` reads from `p0`. */
  lemma FirstPartText(p0: string, b: nat, c: nat, d: nat)
    requires '.' !in p0 && IsOctet(b) && IsOctet(c) && IsOctet(d)
    ensures var ip := p0 + "." + Join([NatToString(b), NatToString(c), NatToString(d)], ".");
      (IsValidIpAddress(ip) <==> IsValidPart(p0)) &&
      IpToNumber(ip) == PackOperands(NumericOperand(NumberOfString(p0)), b, c, d)
  {
    var parts := [p0, NatToString(b), NatToString(c), NatToString(d)];
    var ip := p0 + "." + Join([NatToString(b), NatToString(c), NatToString(d)], ".");
    assert parts[1..] == [NatToString(b), NatToString(c), NatToString(d)];
    assert Join(parts, ".") == ip;
    NoSeparatorInDigits(b);
    NoSeparatorInDigits(c);
    NoSeparatorInDigits(d);
    SplitJoin(parts, '.');
    AllPartsValid4(parts);
    ValidPartOf(b);
    ValidPartOf(c);
    ValidPartOf(d);
    PartOperandOf(parts, 1, b);
    PartOperandOf(parts, 2, c);
    PartOperandOf(parts, 3, d);
  }

  /** `parseInt` reads the leading 0 of "0x10". */
  lemma HexPartParse(p0: string)
    requires p0 == "0x10"
    ensures ParseInt(p0) == Int(0) && '.' !in p0
  {
    ParseIntOneDigit(p0);
  }

  /** `Number()` reads "0x10" as sixteen. */
  lemma HexPartNumber(p0: string)
    requires |p0| == 4 && p0[0] == '0' && p0[1] == 'x' && p0[2] == '1' && p0[3] == '0'
    ensures NumericOperand(NumberOfString(p0)) == 16
  {
    assert RadixDigit(p0[2]) == 1 && RadixDigit(p0[3]) == 0;
    NumberOfTwoRadixDigits(p0);
  }

  /** `isValidIpAddress` reads a part with `parseInt` and `ipToNumber` with
      `Number()`, which also reads hexadecimal text: "0x10.b.c.d" is
      accepted, since `parseInt` reads the leading 0, and is read as
      16.b.c.d. */
  lemma HexFirstPart(p0: string, b: nat, c: nat, d: nat)
    requires p0 == "0x10" && IsOctet(b) && IsOctet(c) && IsOctet(d)
    ensures var ip := p0 + "." + Join([NatToString(b), NatToString(c), NatToString(d)], ".");
      IsValidIpAddress(ip) && IpToNumber(ip) == Pack(16, b, c, d)
  {
    HexPartParse(p0);
    HexPartNumber(p0);
    PackOperandsOctets(16, b, c, d);
    FirstPartText(p0, b, c, d);
  }

  /** `parseInt` reads the 1 of "1e2". */
  lemma ExponentPartParse(p0: string)
    requires p0 == "1e2"
    ensures ParseInt(p0) == Int(1) && '.' !in p0
  {
    ParseIntOneDigit(p0);
  }

  /** `Number()` reads "1e2" as a hundred. */
  lemma ExponentPartNumber(p0: string)
    requires |p0| == 3 && p0[0] == '1' && p0[1] == 'e' && p0[2] == '2'
    ensures NumericOperand(NumberOfString(p0)) == 100
  {
    NumberOfOneDigitExponent(p0);
    assert DigitValue(p0[0]) == 1 && DigitValue(p0[2]) == 2;
    assert Pow10(2) == 10 * Pow10(1);
  }

  /** Exponent text is read the same way: "1e2.b.c.d" is accepted, since
      `parseInt` reads 1, and is read as 100.b.c.d. */
  lemma ExponentFirstPart(p0: string, b: nat, c: nat, d: nat)
    requires p0 == "1e2" && IsOctet(b) && IsOctet(c) && IsOctet(d)
    ensures var ip := p0 + "." + Join([NatToString(b), NatToString(c), NatToString(d)], ".");
      IsValidIpAddress(ip) && IpToNumber(ip) == Pack(100, b, c, d)
  {
    ExponentPartParse(p0);
    ExponentPartNumber(p0);
    PackOperandsOctets(100, b, c, d);
    FirstPartText(p0, b, c, d);
  }

  /** Every address `numberToIp` writes passes `isValidIpAddress`. */
  lemma NumberToIpValid(num: int)
    ensures IsValidIpAddress(NumberToIp(num))
  {
    var x := ToUint32(num);
    OctetsPack(x);
    NumberToIpBytes(num);
    ValidQuad(x / 16777216, (x / 65536) % 256, (x / 256) % 256, x % 256);
  }

  // ---------------------------------------------------------------------
  // CIDR blocks
  // ---------------------------------------------------------------------

  /** The prefix of `base/prefix` as `parseInt` reads it (NaN when there is no '/'). */
  function CidrPrefix(cidr: string): JsNumber
  {
    var parts := Split(cidr, '/');
    if |parts| > 1 then ParseInt(parts[1]) else NaN
  }

  /** The mask of `parseCIDR`: `(0xffffffff << (32 - prefix)) >>> 0`. */
  function CidrMask(prefix: int): nat
  {
    ToUint32(ShiftLeft(0xffffffff, 32 - prefix))
  }

  /** The network number of `parseCIDR`: `(base & mask) >>> 0`. */
  function NetworkNumber(baseNum: int, prefix: int): nat
  {
    ToUint32(And(baseNum, CidrMask(prefix)))
  }

  /** The broadcast number of `parseCIDR`: `(network | ~mask) >>> 0`. */
  function BroadcastNumber(baseNum: int, prefix: int): nat
  {
    ToUint32(Or(NetworkNumber(baseNum, prefix), Not(CidrMask(prefix))))
  }

  /** The base address of `base/prefix`, read with `ipToNumber`. */
  function CidrBase(cidr: string): int
  {
    IpToNumber(Split(cidr, '/')[0])
  }

  /** `parseCIDR`: the hosts of the block, from network + 1 to broadcast - 1;
      a missing or out-of-range prefix is an error. */
  function ParseCidr(cidr: string): (r: Result<IpRange>)
    ensures r.Failure? <==> (CidrPrefix(cidr).NaN? || CidrPrefix(cidr).val < 0 || CidrPrefix(cidr).val > 32)
    ensures r.Failure? ==> r.error == "Invalid CIDR notation"
  {
    var prefix := CidrPrefix(cidr);
    if prefix.NaN? || prefix.val < 0 || prefix.val > 32 then Failure("Invalid CIDR notation")
    else
      Success(HostRange(CidrBase(cidr), prefix.val))
  }

  /** The range `parseCIDR` returns for a base number and a valid prefix:
      network + 1 to broadcast - 1, written as dotted quads. */
  function HostRange(baseNum: int, prefix: int): IpRange
  {
    IpRange(NumberToIp(NetworkNumber(baseNum, prefix) + 1),
            NumberToIp(BroadcastNumber(baseNum, prefix) - 1))
  }

  /** The number of host bits of a prefix, once the shift count is reduced modulo 32. */
  function HostBits(prefix: int): nat
    requires 0 <= prefix <= 32
  {
    (32 - prefix) % 32
  }

  /** The network address of a base address: its `k` host bits cleared. */
  function NetworkOf(base: nat, k: nat): nat
  {
    DivParts(base, Pow2(k));
    base - base % Pow2(k)
  }

  /** A multiple of `p` below `x = p * t` is at least `p` below it. */
  lemma AlignedBelow(m: nat, p: nat, t: nat, x: nat)
    requires p > 0 && x == p * t && m * p < x
    ensures m * p + p <= x
  {
    if m >= t {
      MulLe(t, m, p, p);
      assert false;
    }
    MulLe(m + 1, t, p, p);
    assert (m + 1) * p == m * p + p;
    assert t * p == x;
  }

  /** A block of 2^k addresses aligned on 2^k that starts below 2^e ends at or below 2^e. */
  lemma AlignedBlock(m: nat, k: nat, e: nat)
    requires k <= e && m * Pow2(k) < Pow2(e)
    ensures m * Pow2(k) + Pow2(k) <= Pow2(e)
  {
    var j := e - k;
    Pow2Add(k, j);
    assert k + j == e;
    AlignedBelow(m, Pow2(k), Pow2(j), Pow2(e));
  }

  /** Whatever the prefix, the network number clears the host bits of the
      base and the broadcast number sets them. */
  lemma BlockValue(baseNum: int, prefix: int)
    requires 0 <= prefix <= 32
    ensures var k := HostBits(prefix);
      var n := NetworkOf(ToUint32(baseNum), k);
      NetworkNumber(baseNum, prefix) == n && BroadcastNumber(baseNum, prefix) == n + Pow2(k) - 1
  {
    var k := HostBits(prefix);
    var b := ToUint32(baseNum);
    var p := Pow2(k);
    Pow2Of32();
    Pow2Mono(k, 32);
    ShiftLeftOnes(32 - prefix);
    assert ToUint32(32 - prefix) % 32 == k;
    var mask := CidrMask(prefix);
    assert mask == HighMask(k, 32);
    AndHighMask(baseNum, mask, k);
    var n := ToUint32(And(baseNum, mask));
    assert n == NetworkOf(b, k);
    DivParts(b, p);
    var m: int := b / p;
    assert n == m * p;
    assert ToUint32(Not(mask)) == p - 1;
    AlignedBlock(m, k, 32);
    OrDisjoint(n, Not(mask), m, k, p);
  }

  /** Two numbers of a block of `p` addresses that does not straddle the sign
      bit keep their distance when read as signed. */
  lemma SignedHosts(n: nat, p: nat)
    requires 4 <= p
    requires n + p <= 0x8000_0000 || (0x8000_0000 <= n && n + p <= TwoTo32)
    ensures ToInt32(n + p - 2) - ToInt32(n + 1) == p - 3
  {
  }

  /** An aligned block of at most 2^31 addresses lies on one side of the sign bit. */
  lemma AlignedSide(b: nat, k: nat)
    requires b < TwoTo32 && k <= 31
    ensures var n, p := NetworkOf(b, k), Pow2(k);
      n + p <= 0x8000_0000 || (0x8000_0000 <= n && n + p <= TwoTo32)
  {
    var p := Pow2(k);
    DivParts(b, p);
    var m: int := b / p;
    var n := NetworkOf(b, k);
    assert n == m * p;
    Pow2Values();
    if n < 0x8000_0000 {
      AlignedBlock(m, k, 31);
    } else {
      AlignedBlock(m, k, 32);
    }
  }

  /** With 2 to 31 host bits, the first and last host of an aligned block lie
      on the same side of the sign bit, so their signed numbers are 2^k - 3 apart. */
  lemma AlignedHosts(b: nat, k: nat)
    requires b < TwoTo32 && 2 <= k <= 31
    ensures var n := NetworkOf(b, k);
      ToInt32(n + Pow2(k) - 2) - ToInt32(n + 1) == Pow2(k) - 3
  {
    AlignedSide(b, k);
    Pow2Mono(2, k);
    assert Pow2(2) == 4;
    SignedHosts(NetworkOf(b, k), Pow2(k));
  }

  /** For prefixes 1 to 30 the signed numbers of the first and last host differ
      by 2^(32 - prefix) - 3. */
  lemma HostNumbers(baseNum: int, prefix: int)
    requires 1 <= prefix <= 30
    ensures Pow2(32 - prefix) >= 4
    ensures ToInt32(BroadcastNumber(baseNum, prefix) - 1) - ToInt32(NetworkNumber(baseNum, prefix) + 1)
      == Pow2(32 - prefix) - 3
  {
    var k := 32 - prefix;
    assert HostBits(prefix) == k;
    var b := ToUint32(baseNum);
    var n, p := NetworkOf(b, k), Pow2(k);
    BlockValue(baseNum, prefix);
    assert NetworkNumber(baseNum, prefix) + 1 == n + 1;
    assert BroadcastNumber(baseNum, prefix) - 1 == n + p - 2;
    AlignedHosts(b, k);
    Pow2Mono(2, k);
    assert Pow2(2) == 4;
  }

  /** A `/31` block: the broadcast number is the network number plus one. */
  lemma Block31(baseNum: int, prefix: int)
    requires prefix == 31
    ensures NetworkNumber(baseNum, prefix) + 1 < TwoTo32
    ensures BroadcastNumber(baseNum, prefix) == NetworkNumber(baseNum, prefix) + 1
  {
    BlockValue(baseNum, prefix);
    assert HostBits(prefix) == 1;
    assert Pow2(1) == 2;
  }

  /** `/32` and `/0` (a shift by 32 is a shift by 0): network and broadcast
      are the base address itself. */
  lemma BlockNoHostBits(baseNum: int, prefix: int)
    requires prefix == 32 || prefix == 0
    ensures NetworkNumber(baseNum, prefix) == ToUint32(baseNum)
    ensures BroadcastNumber(baseNum, prefix) == ToUint32(baseNum)
  {
    BlockValue(baseNum, prefix);
    assert HostBits(prefix) == 0;
    assert Pow2(0) == 1;
  }

  /** A `/24` block on a network address `a.b.c.0`: hosts `a.b.c.1` to `a.b.c.254`. */
  lemma Block24(a: nat, b: nat, c: nat)
    requires IsOctet(a) && IsOctet(b) && IsOctet(c)
    ensures NetworkNumber(ToInt32(Pack(a, b, c, 0)), 24) + 1 == Pack(a, b, c, 1)
    ensures BroadcastNumber(ToInt32(Pack(a, b, c, 0)), 24) - 1 == Pack(a, b, c, 254)
  {
    var p := Pack(a, b, c, 0);
    PackOctets(a, b, c, 0);
    BlockValue(ToInt32(p), 24);
    assert ToUint32(ToInt32(p)) == p;
    assert HostBits(24) == 8;
    Pow2Values();
    DivModUnique(p, 256, a * 65536 + b * 256 + c, 0);
    assert NetworkOf(p, 8) == p;
  }

  /** `parseCIDR` on a valid prefix: the hosts run from network + 1 to broadcast - 1. */
  lemma CidrBlock(cidr: string)
    requires CidrPrefix(cidr).Int? && 0 <= CidrPrefix(cidr).val <= 32
    ensures ParseCidr(cidr) == Success(HostRange(CidrBase(cidr), CidrPrefix(cidr).val))
  {
  }

  /** `ipToNumber` reads back the number of an address `numberToIp` wrote, as a
      signed 32-bit value. */
  lemma ReadBack(a: string, num: int)
    requires a == NumberToIp(num)
    ensures IpToNumber(a) == ToInt32(num)
  {
    NumberRoundTrip(num);
  }

  /** The two ends of the host range are the texts of network + 1 and broadcast - 1. */
  lemma HostRangeEnds(baseNum: int, prefix: int)
    ensures HostRange(baseNum, prefix).startIp == NumberToIp(NetworkNumber(baseNum, prefix) + 1)
    ensures HostRange(baseNum, prefix).endIp == NumberToIp(BroadcastNumber(baseNum, prefix) - 1)
  {
  }

  /** `ipToNumber` reads back the signed network + 1 and broadcast - 1 from
      the two ends of the host range. */
  lemma HostRangeReadBack(baseNum: int, prefix: int)
    ensures IpToNumber(HostRange(baseNum, prefix).startIp) == ToInt32(NetworkNumber(baseNum, prefix) + 1)
    ensures IpToNumber(HostRange(baseNum, prefix).endIp) == ToInt32(BroadcastNumber(baseNum, prefix) - 1)
  {
    var r := HostRange(baseNum, prefix);
    ReadBack(r.startIp, NetworkNumber(baseNum, prefix) + 1);
    ReadBack(r.endIp, BroadcastNumber(baseNum, prefix) - 1);
  }

  /** For prefixes 1 to 30 the block holds 2^(32 - prefix) - 2 hosts: the
      signed numbers of its first and last host are in order and
      2^(32 - prefix) - 3 apart. */
  lemma HostRangeSpan(baseNum: int, prefix: int)
    requires 1 <= prefix <= 30
    ensures var r := HostRange(baseNum, prefix);
      IpToNumber(r.startIp) < IpToNumber(r.endIp) &&
      IpToNumber(r.endIp) - IpToNumber(r.startIp) == Pow2(32 - prefix) - 3
  {
    HostRangeReadBack(baseNum, prefix);
    HostNumbers(baseNum, prefix);
  }

  /** `/31` gives a start one above its end, so the order check of
      `generateIpRange` refuses every `/31` range. */
  lemma HostRange31(baseNum: int)
    ensures var r := HostRange(baseNum, 31);
      IpToNumber(r.startIp) == IpToNumber(r.endIp) + 1 &&
      ToUint32(IpToNumber(r.startIp)) == ToUint32(IpToNumber(r.endIp)) + 1
  {
    HostRangeReadBack(baseNum, 31);
    Block31(baseNum, 31);
    NetworkEven(baseNum);
    EvenStep(NetworkNumber(baseNum, 31));
  }

  /** A `/31` network number is even. */
  lemma NetworkEven(baseNum: int)
    ensures NetworkNumber(baseNum, 31) % 2 == 0
  {
    BlockValue(baseNum, 31);
    assert HostBits(31) == 1;
    NetworkOfOneEven(ToUint32(baseNum));
  }

  /** Clearing the lowest bit leaves an even number. */
  lemma NetworkOfOneEven(b: nat)
    ensures NetworkOf(b, 1) % 2 == 0
  {
    assert Pow2(1) == 2;
    assert b == (b / 2) * 2 + b % 2;
    assert NetworkOf(b, 1) == (b / 2) * 2;
  }

  /** Stepping from an even number never crosses the sign boundary. */
  lemma EvenStep(n: nat)
    requires n + 1 < TwoTo32 && n % 2 == 0
    ensures ToInt32(n + 1) == ToInt32(n) + 1
  {
    assert ToUint32(n) == n;
    assert ToUint32(n + 1) == n + 1;
  }

  /** The signed ends of base + 1 and base - 1: the start lies above the end,
      except for the two bases next to the sign boundary, where it lies
      2^32 - 2 below it. */
  lemma NeighbourOrder(b: int)
    requires 0 <= b < TwoTo32
    ensures ToInt32(b + 1) <= ToInt32(b - 1) <==> b == 0x7fff_ffff || b == 0x8000_0000
    ensures b == 0x7fff_ffff || b == 0x8000_0000 ==> ToInt32(b - 1) - ToInt32(b + 1) == TwoTo32 - 2
  {
    if b == 0 {
      assert ToInt32(-1) == -1;
    } else if b == TwoTo32 - 1 {
      assert ToUint32(TwoTo32) == 0;
    }
  }

  /** For `/32` and `/0` the order check of `generateIpRange` passes only for
      the bases 127.255.255.255 and 128.0.0.0, and then the range is not one
      address but 2^32 - 1 of them, wrapping through the whole address space. */
  lemma NoHostBitsOrder(baseNum: int, prefix: int)
    requires prefix == 32 || prefix == 0
    ensures var r := HostRange(baseNum, prefix);
      var b := ToUint32(baseNum);
      (IpToNumber(r.startIp) <= IpToNumber(r.endIp) <==> b == 0x7fff_ffff || b == 0x8000_0000) &&
      (b == 0x7fff_ffff || b == 0x8000_0000 ==> IpToNumber(r.endIp) - IpToNumber(r.startIp) + 1 == TwoTo32 - 1)
  {
    var b: int := ToUint32(baseNum);
    var r := HostRange(baseNum, prefix);
    assert IpToNumber(r.startIp) == ToInt32(b + 1) && IpToNumber(r.endIp) == ToInt32(b - 1) by {
      BlockNoHostBits(baseNum, prefix);
      HostRangeReadBack(baseNum, prefix);
    }
    NeighbourOrder(b);
  }

  /** `128.0.0.0/32`, read by `parseCIDR`, gives 128.0.0.1 to 127.255.255.255:
      a range of 2^32 - 1 addresses that passes the order check. */
  lemma Cidr32Wide(prefix: int)
    requires prefix == 32 || prefix == 0
    ensures var r := HostRange(IpToNumber(Quad(128, 0, 0, 0)), prefix);
      IpToNumber(r.startIp) < IpToNumber(r.endIp) &&
      IpToNumber(r.endIp) - IpToNumber(r.startIp) + 1 == TwoTo32 - 1
  {
    IpToNumberQuad(128, 0, 0, 0);
    assert ToUint32(IpToNumber(Quad(128, 0, 0, 0))) == 0x8000_0000;
    NoHostBitsOrder(IpToNumber(Quad(128, 0, 0, 0)), prefix);
  }

  /** `/32` and `/0` give the two neighbours of the base address: the start
      is base + 1 and the end base - 1, modulo 2^32. Which of them the signed
      order check puts first is `NoHostBitsOrder`. */
  lemma HostRangeNoHostBits(baseNum: int, prefix: int)
    requires prefix == 32 || prefix == 0
    ensures var b := ToUint32(baseNum);
      HostRange(baseNum, prefix) == IpRange(NumberToIp(b + 1), NumberToIp(b - 1))
  {
    var b: int := ToUint32(baseNum);
    BlockNoHostBits(baseNum, prefix);
    HostFirstText(baseNum, prefix, b + 1);
    HostLastText(baseNum, prefix, b - 1);
  }

  lemma JoinNoChar(parts: seq<string>, c: char)
    requires forall k :: 0 <= k < |parts| ==> c !in parts[k]
    requires c != '.'
    ensures c !in Join(parts, ".")
  {
    if |parts| > 1 {
      JoinNoChar(parts[1..], c);
    }
  }

  /** `base/n` splits at the slash into the base and the prefix `n`. */
  lemma CidrText(base: string, n: nat)
    requires '/' !in base
    ensures CidrPrefix(base + "/" + NatToString(n)) == Int(n)
    ensures CidrBase(base + "/" + NatToString(n)) == IpToNumber(base)
  {
    var t := NatToString(n);
    NoSeparatorInDigits(n);
    assert Join([base, t], "/") == base + "/" + t;
    SplitJoin([base, t], '/');
    ParseIntOfNat(n);
  }

  /** The text `a.b.c.0/24` has prefix 24 and base `a.b.c.0`. */
  lemma Cidr24Text(a: nat, b: nat, c: nat)
    requires IsOctet(a) && IsOctet(b) && IsOctet(c)
    ensures CidrPrefix(Quad(a, b, c, 0) + "/24") == Int(24)
    ensures CidrBase(Quad(a, b, c, 0) + "/24") == ToInt32(Pack(a, b, c, 0))
  {
    var base := Quad(a, b, c, 0);
    NoSeparatorInDigits(a);
    NoSeparatorInDigits(b);
    NoSeparatorInDigits(c);
    NoSeparatorInDigits(0);
    JoinNoChar([NatToString(a), NatToString(b), NatToString(c), NatToString(0)], '/');
    assert NatToString(24) == "24";
    assert base + "/" + NatToString(24) == base + "/24";
    CidrText(base, 24);
    IpToNumberQuad(a, b, c, 0);
  }

  /** The first host of the `/24` block of `a.b.c.0`, written as a quad. */
  lemma Block24First(a: nat, b: nat, c: nat)
    requires IsOctet(a) && IsOctet(b) && IsOctet(c)
    ensures HostRange(ToInt32(Pack(a, b, c, 0)), 24).startIp == Quad(a, b, c, 1)
  {
    var baseNum := ToInt32(Pack(a, b, c, 0));
    Block24(a, b, c);
    HostFirstText(baseNum, 24, Pack(a, b, c, 1));
    NumberToIpPack(a, b, c, 1);
  }

  /** The last host of the `/24` block of `a.b.c.0`, written as a quad. */
  lemma Block24Last(a: nat, b: nat, c: nat)
    requires IsOctet(a) && IsOctet(b) && IsOctet(c)
    ensures HostRange(ToInt32(Pack(a, b, c, 0)), 24).endIp == Quad(a, b, c, 254)
  {
    var baseNum := ToInt32(Pack(a, b, c, 0));
    Block24(a, b, c);
    HostLastText(baseNum, 24, Pack(a, b, c, 254));
    NumberToIpPack(a, b, c, 254);
  }

  /** The start of the host range is the text of network + 1. */
  lemma HostFirstText(baseNum: int, prefix: int, x: int)
    requires NetworkNumber(baseNum, prefix) + 1 == x
    ensures HostRange(baseNum, prefix).startIp == NumberToIp(x)
  {
    HostRangeEnds(baseNum, prefix);
  }

  /** The end of the host range is the text of broadcast - 1. */
  lemma HostLastText(baseNum: int, prefix: int, x: int)
    requires BroadcastNumber(baseNum, prefix) - 1 == x
    ensures HostRange(baseNum, prefix).endIp == NumberToIp(x)
  {
    HostRangeEnds(baseNum, prefix);
  }

  /** Equal numbers are written as the same text. */
  lemma SameText(x: int, y: int)
    requires x == y
    ensures NumberToIp(x) == NumberToIp(y)
  {
  }

  /** A `/24` block written on its network address gives hosts `.1` to `.254`. */
  lemma Cidr24(a: nat, b: nat, c: nat)
    requires IsOctet(a) && IsOctet(b) && IsOctet(c)
    ensures ParseCidr(Quad(a, b, c, 0) + "/24") == Success(IpRange(Quad(a, b, c, 1), Quad(a, b, c, 254)))
  {
    Block24First(a, b, c);
    Block24Last(a, b, c);
    Cidr24Text(a, b, c);
    CidrBlock(Quad(a, b, c, 0) + "/24");
  }

  // ---------------------------------------------------------------------
  // Ranges
  // ---------------------------------------------------------------------

  /** `generateIpRange`: every number from the start's to the end's, in
      ascending order, written as a dotted quad. */
  method GenerateIpRange(startIp: string, endIp: string) returns (r: Result<seq<string>>)
    ensures r.Failure? <==> IpToNumber(startIp) > IpToNumber(endIp)
    ensures r.Failure? ==> r.error == "Start IP must be less than or equal to end IP"
    ensures r.Success? ==> |r.value| == IpToNumber(endIp) - IpToNumber(startIp) + 1
    ensures r.Success? ==>
      forall i :: 0 <= i < |r.value| ==> r.value[i] == NumberToIp(IpToNumber(startIp) + i)
  {
    r := CollectRange(IpToNumber(startIp), IpToNumber(endIp), NumberToIp);
  }

  /** The body of `generateIpRange` once the two numbers are known: the order
      check, then `format(i)` for every `i` from `startNum` to `endNum`, pushed
      in ascending order. */
  method CollectRange<T>(startNum: int, endNum: int, format: int -> T) returns (r: Result<seq<T>>)
    ensures r.Failure? <==> startNum > endNum
    ensures r.Failure? ==> r.error == "Start IP must be less than or equal to end IP"
    ensures r.Success? ==> |r.value| == endNum - startNum + 1
    ensures r.Success? ==> forall j :: 0 <= j < |r.value| ==> r.value[j] == format(startNum + j)
  {
    if startNum > endNum {
      return Failure("Start IP must be less than or equal to end IP");
    }
    var items: seq<T> := [];
    var i := startNum;
    while i <= endNum
      invariant startNum <= i <= endNum + 1
      invariant |items| == i - startNum
      invariant forall j :: 0 <= j < |items| ==> items[j] == format(startNum + j)
    {
      items := items + [format(i)];
      i := i + 1;
    }
    return Success(items);
  }

  /** `a` is a valid address that `ipToNumber` reads as the signed 32-bit
      value of `num`. */
  predicate ReadsBack(a: string, num: int)
  {
    IsValidIpAddress(a) && IpToNumber(a) == ToInt32(num)
  }

  /** An address written by `numberToIp` reads back as the signed 32-bit value
      of its number and is valid. */
  lemma AddressOf(a: string, num: int)
    requires a == NumberToIp(num)
    ensures IpToNumber(a) == ToInt32(num)
    ensures IsValidIpAddress(a)
  {
    NumberRoundTrip(num);
    NumberToIpValid(num);
  }

  /** The generated addresses are valid and have consecutive numbers, from the
      start's number up. */
  lemma RangeAscending(first: int, addresses: seq<string>)
    requires forall i :: 0 <= i < |addresses| ==> addresses[i] == NumberToIp(first + i)
    ensures forall i :: 0 <= i < |addresses| ==> ReadsBack(addresses[i], first + i)
  {
    EveryAddressReadsBack();
  }

  /** Every address `numberToIp` writes reads back. */
  lemma EveryAddressReadsBack()
    ensures forall num :: ReadsBack(NumberToIp(num), num)
  {
    forall num
      ensures ReadsBack(NumberToIp(num), num)
    {
      AddressOf(NumberToIp(num), num);
    }
  }

  /** `parseIpRange`: CIDR when the text holds '/', else `a-b` when it holds
      '-', else a single address. */
  function ParseIpRange(rangeArg: string): Result<IpRange>
  {
    if '/' in rangeArg then ParseCidr(rangeArg)
    else if '-' in rangeArg then
      var parts := Split(rangeArg, '-');
      Success(IpRange(Trim(parts[0]), Trim(parts[1])))
    else Success(IpRange(rangeArg, rangeArg))
  }

  /** `a-b` gives the trimmed ends. */
  lemma RangeNotation(a: string, b: string)
    requires '/' !in a && '/' !in b && '-' !in a && '-' !in b
    ensures ParseIpRange(a + "-" + b) == Success(IpRange(Trim(a), Trim(b)))
  {
    assert Join([a, b], "-") == a + "-" + b;
    SplitJoin([a, b], '-');
    assert (a + "-" + b)[|a|] == '-';
    assert '/' !in a + "-" + b;
  }

  /** A text without '/' or '-' is a range of one address. */
  lemma SingleAddress(ip: string)
    requires '/' !in ip && '-' !in ip
    ensures ParseIpRange(ip) == Success(IpRange(ip, ip))
  {
  }
}
