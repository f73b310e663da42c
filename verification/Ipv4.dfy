/** IPv4 blocks as the services compute them: 32-bit signed bitwise operators followed by `>>> 0`. */
module Ipv4 {
  import opened Bits

  const TWO_TO_32: nat := 0x1_0000_0000

  // The operators of the language: operands are reduced to 32 bits, results are signed
  // except for the unsigned right shift.

  function ToUint32(n: int): (r: nat)
    ensures r < TWO_TO_32
  {
    n % TWO_TO_32
  }

  function ToInt32(n: int): int {
    if ToUint32(n) >= 0x8000_0000 then ToUint32(n) - TWO_TO_32 else ToUint32(n)
  }

  function ShiftLeft(a: int, s: nat): int {
    ToInt32(ToInt32(a) * Pow2(s % 32))
  }

  function ShiftRightUnsigned(a: int, s: nat): nat {
    Quotient(ToUint32(a), Pow2(s % 32))
  }

  function BitAnd(a: int, b: int): int {
    ToInt32(And(ToUint32(a), ToUint32(b)))
  }

  function BitOr(a: int, b: int): int {
    ToInt32(Or(ToUint32(a), ToUint32(b)))
  }

  function BitNot(a: int): int {
    -ToInt32(a) - 1
  }

  function Mask(prefix: nat): nat
    requires prefix <= 32
  {
    if prefix == 0 then 0 else ToUint32(ShiftLeft(0xffff_ffff, 32 - prefix))
  }

  function NetworkOf(value: nat, prefix: nat): nat
    requires prefix <= 32
  {
    ToUint32(BitAnd(value, Mask(prefix)))
  }

  function BroadcastOf(network: nat, prefix: nat): nat
    requires prefix <= 32
  {
    ToUint32(BitOr(network, ToUint32(BitNot(Mask(prefix)))))
  }

  /** The signed reading is the value in the signed 32-bit range that differs by a multiple of 2^32. */
  lemma SignedValue(n: int)
    ensures -0x8000_0000 <= ToInt32(n) < 0x8000_0000 && (n - ToInt32(n)) % TWO_TO_32 == 0
  {
    var q := n / TWO_TO_32;
    assert n - ToInt32(n) == TWO_TO_32 * q || n - ToInt32(n) == TWO_TO_32 * (q + 1);
  }

  lemma UnsignedOfSigned(n: int)
    ensures ToUint32(ToInt32(n)) == ToUint32(n)
    ensures 0 <= n < TWO_TO_32 ==> ToUint32(n) == n
  {
  }

  /** On unsigned operands, `(a & b) >>> 0` is the plain bitwise operator, and so is `(a | b) >>> 0`. */
  lemma UnsignedAnd(a: nat, b: nat)
    requires a < TWO_TO_32 && b < TWO_TO_32
    ensures ToUint32(BitAnd(a, b)) == And(a, b)
  {
    UnsignedOfSigned(a);
    UnsignedOfSigned(b);
    UnsignedOfSigned(And(a, b));
  }

  lemma UnsignedOr(a: nat, b: nat)
    requires a < TWO_TO_32 && b < TWO_TO_32 && Or(a, b) < TWO_TO_32
    ensures ToUint32(BitOr(a, b)) == Or(a, b)
  {
    UnsignedOfSigned(a);
    UnsignedOfSigned(b);
    UnsignedOfSigned(Or(a, b));
  }

  lemma UnsignedNot(a: nat)
    requires a < TWO_TO_32
    ensures ToUint32(BitNot(a)) == TWO_TO_32 - 1 - a
  {
  }

  lemma Pow2Of32()
    ensures Pow2(32) == TWO_TO_32 && Pow2(16) == 0x1_0000 && Pow2(8) == 256
    ensures Pow2(24) == 0x100_0000 && Pow2(31) == 0x8000_0000
  {
    assert Pow2(8) == 256;
    Pow2Add(8, 8);
    Pow2Add(16, 8);
    Pow2Add(16, 16);
    assert Pow2(32) == 2 * Pow2(31);
  }

  lemma MaskValue(prefix: nat)
    requires prefix <= 32
    ensures Pow2(32 - prefix) <= TWO_TO_32
    ensures Mask(prefix) == TWO_TO_32 - Pow2(32 - prefix)
  {
    Pow2Of32();
    Pow2Monotone(32 - prefix, 32);
    if prefix > 0 {
      ShiftedOnes(32 - prefix);
    }
  }

  lemma ShiftedOnes(s: nat)
    requires s < 32
    ensures Pow2(s) <= TWO_TO_32
    ensures ToUint32(ShiftLeft(0xffff_ffff, s)) == TWO_TO_32 - Pow2(s)
  {
    Pow2Of32();
    Pow2Monotone(s, 31);
    ShiftAmount(0xffff_ffff, s);
    NegatedPower(Pow2(s));
  }

  lemma ShiftAmount(a: int, s: nat)
    requires s < 32
    ensures ShiftLeft(a, s) == ToInt32(ToInt32(a) * Pow2(s))
    ensures ShiftRightUnsigned(a, s) == Quotient(ToUint32(a), Pow2(s))
  {
    assert s % 32 == s;
  }

  lemma NegatedPower(p: nat)
    requires 0 < p <= 0x8000_0000
    ensures ToUint32(ToInt32(ToInt32(0xffff_ffff) * p)) == TWO_TO_32 - p
  {
  }

  lemma ComplementValue(prefix: nat)
    requires prefix <= 32
    ensures ToUint32(BitNot(Mask(prefix))) == Pow2(32 - prefix) - 1
  {
    MaskValue(prefix);
    UnsignedNot(Mask(prefix));
  }

  lemma AlignByMask(value: nat, host: nat)
    requires value < TWO_TO_32 && host <= 32
    ensures Pow2(host) <= TWO_TO_32
    ensures And(value, TWO_TO_32 - Pow2(host)) == AlignDown(value, host)
  {
    Pow2Of32();
    AndHighMask(value, 32, host);
    LowPartIsMod(value, host);
  }

  lemma NetworkValue(value: nat, prefix: nat)
    requires value < TWO_TO_32 && prefix <= 32
    ensures NetworkOf(value, prefix) == AlignDown(value, 32 - prefix)
  {
    MaskValue(prefix);
    AlignByMask(value, 32 - prefix);
    UnsignedAnd(value, Mask(prefix));
  }

  /** The signed-shift formulas describe the aligned block of 2^(32-prefix) addresses. */
  lemma SignedShiftBlock(value: nat, prefix: nat)
    requires value < TWO_TO_32 && prefix <= 32
    ensures NetworkOf(value, prefix) == AlignDown(value, 32 - prefix)
    ensures BroadcastOf(NetworkOf(value, prefix), prefix) == AlignDown(value, 32 - prefix) + Pow2(32 - prefix) - 1
    ensures BroadcastOf(NetworkOf(value, prefix), prefix) < TWO_TO_32
  {
    hide NetworkOf, BroadcastOf, AlignDown, Pow2;
    NetworkValue(value, prefix);
    AlignDownAligned(value, 32 - prefix);
    Pow2Of32();
    BlockFits(value, 32, 32 - prefix);
    LastAddress(NetworkOf(value, prefix), prefix);
  }

  lemma LastAddress(network: nat, prefix: nat)
    requires prefix <= 32 && network % Pow2(32 - prefix) == 0
    requires network + Pow2(32 - prefix) <= TWO_TO_32
    ensures BroadcastOf(network, prefix) == network + Pow2(32 - prefix) - 1
  {
    ComplementValue(prefix);
    LowPartIsMod(network, 32 - prefix);
    OrLowMask(network, 32 - prefix);
    UnsignedOr(network, Pow2(32 - prefix) - 1);
  }

  /** snmp.service: `((ip & mask) >>> 0) === ((network & mask) >>> 0)`. */
  predicate InMaskedBlock(ip: nat, base: nat, prefix: nat)
    requires prefix <= 32
  {
    NetworkOf(ip, prefix) == NetworkOf(base, prefix)
  }

  /** Masking both sides tests the same block as the range test on network and broadcast. */
  lemma MaskTestIsRangeTest(ip: nat, base: nat, prefix: nat)
    requires ip < TWO_TO_32 && base < TWO_TO_32 && prefix <= 32
    ensures InMaskedBlock(ip, base, prefix) <==>
            NetworkOf(base, prefix) <= ip <= BroadcastOf(NetworkOf(base, prefix), prefix)
  {
    SignedShiftBlock(ip, prefix);
    SignedShiftBlock(base, prefix);
    SameBlock(base, ip, 32 - prefix);
  }

  // The four octets of an address, as `value >>> 24`, `(value >>> 16) & 255`, `(value >>> 8) & 255`, `value & 255`.
  function Octets(value: nat): (octets: seq<nat>)
    requires value < TWO_TO_32
    ensures |octets| == 4
    ensures forall i :: 0 <= i < 4 ==> octets[i] < 256
    ensures FromOctets(octets) == value
  {
    OctetValues(value);
    OctetSum(value);
    [ShiftRightUnsigned(value, 24), ToUint32(BitAnd(ShiftRightUnsigned(value, 16), 255)),
     ToUint32(BitAnd(ShiftRightUnsigned(value, 8), 255)), ToUint32(BitAnd(value, 255))]
  }

  // The reduction `n * 256 + Number(part)`.
  function FromOctets(octets: seq<nat>): (value: nat)
    ensures |octets| == 4 && (forall i :: 0 <= i < 4 ==> octets[i] < 256) ==> value < TWO_TO_32
  {
    if |octets| == 4 then ((octets[0] * 256 + octets[1]) * 256 + octets[2]) * 256 + octets[3]
    else 0
  }

  lemma AndByte(x: nat)
    requires x < TWO_TO_32
    ensures ToUint32(BitAnd(x, 255)) == x % 256
  {
    assert Pow2(8) == 256;
    AndLowMask(x, 8);
    LowPartIsMod(x, 8);
    UnsignedAnd(x, 255);
  }

  lemma ShiftDown(value: nat, s: nat, p: nat)
    requires value < TWO_TO_32 && s < 32 && p == Pow2(s)
    ensures ShiftRightUnsigned(value, s) == value / p
  {
    ShiftAmount(value, s);
    UnsignedOfSigned(value);
  }

  lemma OctetValues(value: nat)
    requires value < TWO_TO_32
    ensures ShiftRightUnsigned(value, 24) == value / 0x100_0000 < 256
    ensures ToUint32(BitAnd(ShiftRightUnsigned(value, 16), 255)) == (value / 0x1_0000) % 256
    ensures ToUint32(BitAnd(ShiftRightUnsigned(value, 8), 255)) == (value / 256) % 256
    ensures ToUint32(BitAnd(value, 255)) == value % 256
  {
    Pow2Of32();
    ShiftDown(value, 24, 0x100_0000);
    ShiftDown(value, 16, 0x1_0000);
    ShiftDown(value, 8, 256);
    AndByte(value / 0x1_0000);
    AndByte(value / 256);
    AndByte(value);
  }

  lemma OctetSum(value: nat)
    ensures ((value / 0x100_0000 * 256 + (value / 0x1_0000) % 256) * 256 + (value / 256) % 256) * 256 + value % 256 ==
      value
  {
    assert value / 0x1_0000 == value / 256 / 256 && value / 0x100_0000 == value / 256 / 256 / 256;
  }
}
