/** IPv6 blocks as the IPAM service computes them: strings of 128 binary digits. */
module Ipv6Cidr {
  import opened Arithmetic
  import opened Bits
  import opened Text
  import opened Ipv6Text

  /** `parseInt(x, 16).toString(2).padStart(4, '0')` */
  function HexBits(x: char): string {
    PadStart(ToText(DigitOf(x), 2), 4)
  }

  function BitsOf(hex: string): string {
    if hex == "" then "" else BitsOf(hex[..|hex| - 1]) + HexBits(hex[|hex| - 1])
  }

  function AddressBits(address: string): string
    requires IsIpv6(address)
  {
    BitsOf(Remove(ExpandIpv6(address), ':'))
  }

  /** `bits.slice(0, prefix).padEnd(128, '0')` */
  function MaskBits(bits: string, prefix: nat): string
    requires prefix <= |bits|
  {
    PadEnd(bits[..prefix], 128)
  }

  /** `parseInt(chunk, 2).toString(16).padStart(4, '0')` */
  function HexOf(chunk: string): string {
    PadStart(ToText(ValueOf(chunk, 2), 16), 4)
  }

  /** `bits.match(/.{16}/g)`, each chunk written as four hexadecimal digits. */
  function HexChunks(bits: string): (groups: seq<string>)
    ensures |groups| == |bits| / 16
  {
    if |bits| < 16 then [] else HexChunks(bits[..|bits| - 16]) + [HexOf(bits[|bits| - 16..])]
  }

  function NetworkText(address: string, prefix: nat): string
    requires IsIpv6(address) && prefix <= 128
  {
    AddressBitsShape(address);
    Compress(Join(HexChunks(MaskBits(AddressBits(address), prefix)), ':'))
  }

  // ---- what the text stands for

  /** Eight groups read as one number, most significant group first. */
  function GroupsValue(groups: seq<string>): nat {
    if |groups| == 0 then 0
    else GroupsValue(groups[..|groups| - 1]) * 0x1_0000 + ValueOf(groups[|groups| - 1], 16)
  }

  function AddressValue(address: string): nat
    requires IsIpv6(address)
  {
    GroupsValue(EightGroups(address))
  }

  ghost predicate FourDigits(groups: seq<string>) {
    forall i :: 0 <= i < |groups| ==> IsHextet(groups[i]) && |groups[i]| == 4
  }

  lemma PowersOfSixteen()
    ensures Power(16, 1) == 16 && Power(16, 4) == 0x1_0000 && Power(2, 4) == 16
  {
  }

  lemma {:induction false} PowerOfTwo(k: nat)
    ensures Power(2, k) == Pow2(k)
  {
    if k > 0 {
      PowerOfTwo(k - 1);
    }
  }

  lemma PadNumeral(s: string, base: nat, width: nat)
    requires IsNumeral(s, base) && base >= 1 && |s| <= width
    ensures IsNumeral(PadStart(s, width), base) && |PadStart(s, width)| == width
  {
  }

  lemma HexBitsValue(x: char)
    requires DigitOf(x) < 16
    ensures |HexBits(x)| == 4 && IsNumeral(HexBits(x), 2) && ValueOf(HexBits(x), 2) == DigitOf(x)
  {
    var d := DigitOf(x);
    PowersOfSixteen();
    TextLength(d, 2, 4);
    ValueOfText(d, 2);
    PadNumeral(ToText(d, 2), 2, 4);
    PadKeepsValue(ToText(d, 2), 4, 2);
  }

  lemma NumeralConcat(s: string, t: string, base: nat)
    requires IsNumeral(s, base) && IsNumeral(t, base)
    ensures IsNumeral(s + t, base)
  {
  }

  lemma {:induction false} BitsValue(hex: string)
    requires IsNumeral(hex, 16)
    ensures |BitsOf(hex)| == 4 * |hex| && IsNumeral(BitsOf(hex), 2)
    ensures ValueOf(BitsOf(hex), 2) == ValueOf(hex, 16)
    decreases |hex|
  {
    if hex != "" {
      var h, x := hex[..|hex| - 1], hex[|hex| - 1];
      BitsValue(h);
      HexBitsValue(x);
      NumeralConcat(BitsOf(h), HexBits(x), 2);
      ValueConcat(BitsOf(h), HexBits(x), 2);
      PowersOfSixteen();
    }
  }

  lemma {:induction false} ConcatAppend(groups: seq<string>, g: string)
    ensures Concat(groups + [g]) == Concat(groups) + g
  {
    if |groups| == 0 {
      assert groups + [g] == [g];
      assert g + "" == g;
    } else {
      assert (groups + [g])[1..] == groups[1..] + [g];
      ConcatAppend(groups[1..], g);
    }
  }

  lemma {:induction false} ConcatValue(groups: seq<string>)
    requires FourDigits(groups)
    ensures IsNumeral(Concat(groups), 16) && |Concat(groups)| == 4 * |groups|
    ensures ValueOf(Concat(groups), 16) == GroupsValue(groups)
    decreases |groups|
  {
    if |groups| > 0 {
      var init, g := groups[..|groups| - 1], groups[|groups| - 1];
      ConcatValue(init);
      assert groups == init + [g];
      ConcatAppend(init, g);
      NumeralConcat(Concat(init), g, 16);
      ValueConcat(Concat(init), g, 16);
      PowersOfSixteen();
    }
  }

  lemma {:induction false} PadGroupsValue(groups: seq<string>)
    ensures GroupsValue(PadGroups(groups)) == GroupsValue(groups)
    decreases |groups|
  {
    if |groups| > 0 {
      var n := |groups| - 1;
      PadGroupsValue(groups[..n]);
      PadKeepsValue(groups[n], 4, 16);
      assert PadGroups(groups)[..n] == PadGroups(groups[..n]);
    }
  }

  lemma PaddedGroups(groups: seq<string>)
    requires AllHextets(groups)
    ensures FourDigits(PadGroups(groups)) && Free(PadGroups(groups), ':')
  {
  }

  lemma EightHextets(address: string)
    requires IsIpv6(address)
    ensures AllHextets(EightGroups(address))
  {
  }

  /** The 128 binary digits of an address spell its value. */
  lemma AddressBitsShape(address: string)
    requires IsIpv6(address)
    ensures |AddressBits(address)| == 128 && IsNumeral(AddressBits(address), 2)
    ensures ValueOf(AddressBits(address), 2) == AddressValue(address)
  {
    var groups := EightGroups(address);
    var padded := PadGroups(groups);
    EightHextets(address);
    PaddedGroups(groups);
    RemoveSeparators(padded, ':');
    ConcatValue(padded);
    PadGroupsValue(groups);
    BitsValue(Concat(padded));
  }

  lemma AddressValueBound(address: string)
    requires IsIpv6(address)
    ensures AddressValue(address) < Pow2(128)
  {
    AddressBitsShape(address);
    ValueBound(AddressBits(address), 2);
    PowerOfTwo(128);
  }

  /** Cutting a bit string at `prefix` splits its value into block start and offset. */
  lemma CutValue(bits: string, prefix: nat)
    requires IsNumeral(bits, 2) && prefix <= |bits|
    ensures AlignDown(ValueOf(bits, 2), |bits| - prefix) == ValueOf(bits[..prefix], 2) * Pow2(|bits| - prefix)
  {
    var head, tail := bits[..prefix], bits[prefix..];
    assert bits == head + tail;
    ValueConcat(head, tail, 2);
    ValueBound(tail, 2);
    PowerOfTwo(|tail|);
    DivModUnique(ValueOf(bits, 2), Pow2(|tail|), ValueOf(head, 2), ValueOf(tail, 2));
  }

  /** `slice(0, prefix).padEnd(128, '0')` is the block start. */
  lemma MaskBitsValue(bits: string, prefix: nat)
    requires |bits| == 128 && IsNumeral(bits, 2) && prefix <= 128
    ensures var m := MaskBits(bits, prefix);
      && |m| == 128 && IsNumeral(m, 2) && m[..prefix] == bits[..prefix]
      && ValueOf(m, 2) == AlignDown(ValueOf(bits, 2), 128 - prefix)
  {
    hide IsNumeral, ValueOf, AlignDown, Power, Pow2;
    var head, k := bits[..prefix], 128 - prefix;
    CutValue(bits, prefix);
    assert MaskBits(bits, prefix) == head + Zeros(k);
    PaddedHead(bits, prefix, k);
  }

  lemma PaddedHead(bits: string, prefix: nat, k: nat)
    requires prefix <= |bits| && IsNumeral(bits, 2)
    ensures IsNumeral(bits[..prefix] + Zeros(k), 2)
    ensures ValueOf(bits[..prefix] + Zeros(k), 2) == ValueOf(bits[..prefix], 2) * Pow2(k)
  {
    hide ValueOf, Power, Pow2;
    var head := bits[..prefix];
    assert DigitOf('0') == 0;
    NumeralConcat(head, Zeros(k), 2);
    ValueConcat(head, Zeros(k), 2);
    ZerosAreZero(k);
    PowerOfTwo(k);
  }

  lemma ZerosAreZero(k: nat)
    ensures ValueOf(Zeros(k), 2) == 0
  {
    ValueOfZeros(k, "", 2);
    assert Zeros(k) + "" == Zeros(k);
  }

  /** Comparing the first `prefix` bits compares block starts. */
  lemma PrefixCompare(a: string, b: string, prefix: nat)
    requires |a| == 128 && |b| == 128 && IsNumeral(a, 2) && IsNumeral(b, 2) && prefix <= 128
    ensures a[..prefix] == b[..prefix] <==>
            AlignDown(ValueOf(a, 2), 128 - prefix) == AlignDown(ValueOf(b, 2), 128 - prefix)
  {
    CutValue(a, prefix);
    CutValue(b, prefix);
    var u, v, p := ValueOf(a[..prefix], 2), ValueOf(b[..prefix], 2), Pow2(128 - prefix);
    if u * p == v * p {
      DivModUnique(u * p, p, u, 0);
      DivModUnique(u * p, p, v, 0);
      BinaryInjective(a[..prefix], b[..prefix]);
    }
  }

  lemma SixteenBits()
    ensures Pow2(16) == 0x1_0000
  {
    assert Pow2(8) == 256;
    Pow2Add(8, 8);
  }

  lemma HexOfChunk(chunk: string)
    requires |chunk| == 16 && IsNumeral(chunk, 2)
    ensures IsHextet(HexOf(chunk)) && |HexOf(chunk)| == 4 && BitsOf(HexOf(chunk)) == chunk
  {
    hide ToText, ValueOf, BitsOf, Power, Pow2, PadStart;
    var v := ValueOf(chunk, 2);
    ValueBound(chunk, 2);
    PowerOfTwo(16);
    PowersOfSixteen();
    SixteenBits();
    TextLength(v, 16, 4);
    ValueOfText(v, 16);
    PadNumeral(ToText(v, 16), 16, 4);
    PadKeepsValue(ToText(v, 16), 4, 16);
    BitsValue(HexOf(chunk));
    BinaryInjective(BitsOf(HexOf(chunk)), chunk);
  }

  lemma BitsAppend(s: string, x: char)
    ensures BitsOf(s + [x]) == BitsOf(s) + HexBits(x)
  {
  }

  lemma {:induction false} BitsConcat(s: string, t: string)
    ensures BitsOf(s + t) == BitsOf(s) + BitsOf(t)
    decreases |t|
  {
    if t == "" {
      assert s + t == s;
      assert BitsOf(s) + "" == BitsOf(s);
    } else {
      var u, x := t[..|t| - 1], t[|t| - 1];
      assert t == u + [x];
      ConcatAssoc(s, u, [x]);
      BitsAppend(s + u, x);
      BitsConcat(s, u);
      ConcatAssoc(BitsOf(s), BitsOf(u), HexBits(x));
    }
  }

  lemma {:induction false} ChunksRoundTrip(bits: string, n: nat)
    requires |bits| == 16 * n && IsNumeral(bits, 2)
    ensures FourDigits(HexChunks(bits)) && BitsOf(Concat(HexChunks(bits))) == bits
    decreases n
  {
    hide *;
    if n == 0 {
      NoChunks(bits);
    } else {
      var head, chunk := bits[..|bits| - 16], bits[|bits| - 16..];
      LastChunk(bits);
      ChunksRoundTrip(head, n - 1);
      HexOfChunk(chunk);
      ChunkStep(HexChunks(head), head, chunk);
      assert head + chunk == bits;
    }
  }

  lemma NoChunks(bits: string)
    requires |bits| == 0
    ensures FourDigits(HexChunks(bits)) && BitsOf(Concat(HexChunks(bits))) == bits
  {
  }

  lemma LastChunk(bits: string)
    requires |bits| >= 16 && IsNumeral(bits, 2)
    ensures var head, chunk := bits[..|bits| - 16], bits[|bits| - 16..];
      HexChunks(bits) == HexChunks(head) + [HexOf(chunk)] && IsNumeral(head, 2) && IsNumeral(chunk, 2)
  {
    hide HexOf;
  }

  lemma ChunkStep(groups: seq<string>, head: string, chunk: string)
    requires FourDigits(groups) && IsHextet(HexOf(chunk)) && |HexOf(chunk)| == 4
    requires BitsOf(Concat(groups)) == head && BitsOf(HexOf(chunk)) == chunk
    ensures FourDigits(groups + [HexOf(chunk)])
    ensures BitsOf(Concat(groups + [HexOf(chunk)])) == head + chunk
  {
    hide HexOf, BitsOf, Concat, IsHextet;
    ConcatAppend(groups, HexOf(chunk));
    BitsConcat(Concat(groups), HexOf(chunk));
  }

  /** The printed form of 128 bits is a valid address with exactly those bits. */
  lemma PrintedBits(bits: string)
    requires |bits| == 128 && IsNumeral(bits, 2)
    ensures var text := Compress(Join(HexChunks(bits), ':'));
      IsIpv6(text) && AddressBits(text) == bits
  {
    hide HexChunks, Compress, IsIpv6, BitsOf, FourDigits, Free, Remove, ExpandIpv6, AllHextets;
    var groups := HexChunks(bits);
    ChunksRoundTrip(bits, 8);
    FourDigitsPadded(groups);
    ExpandCompress(groups);
    RemoveSeparators(groups, ':');
  }

  lemma FourDigitsPadded(groups: seq<string>)
    requires FourDigits(groups)
    ensures PadGroups(groups) == groups && AllHextets(groups) && Free(groups, ':')
  {
    assert PadGroups(groups) == groups;
    PaddedGroups(groups);
  }

  /**
   * The network text of a block: a valid address, the block start by value, and a fixed point
   * of the computation, so that normalizing a normalized CIDR changes nothing.
   */
  lemma NetworkTextIsBlockStart(address: string, prefix: nat)
    requires IsIpv6(address) && prefix <= 128
    ensures var text := NetworkText(address, prefix);
      && IsIpv6(text)
      && AddressValue(text) == AlignDown(AddressValue(address), 128 - prefix)
      && NetworkText(text, prefix) == text
  {
    var bits := AddressBits(address);
    AddressBitsShape(address);
    MaskBitsValue(bits, prefix);
    var masked := MaskBits(bits, prefix);
    PrintedBits(masked);
    AddressBitsShape(NetworkText(address, prefix));
    assert MaskBits(masked, prefix) == masked;
  }
}
