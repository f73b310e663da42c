/** CIDR text of both versions: `cidrInfo`, `addressInCidr` and the block each text describes. */
module Cidr {
  import opened Wrappers
  import opened Bits
  import opened Text
  import opened Ipv4
  import opened Ipv4Text
  import opened Ipv6Text
  import opened Ipv6Cidr

  /** `net.isIP` */
  function IpVersion(address: string): nat {
    if IsIpv4(address) then 4 else if IsIpv6(address) then 6 else 0
  }

  /** `Number(text)` of plain digits; the empty text counts as zero. */
  function NumberOf(text: string): Option<nat> {
    if IsNumeral(text, 10) then Some(ValueOf(text, 10)) else None
  }

  /** The part after the first '/', as a number; a missing part is not a number. */
  function PrefixOf(cidr: string): Option<nat> {
    var parts := Split(cidr, '/');
    if |parts| > 1 then NumberOf(parts[1]) else None
  }

  function AddressOf(cidr: string): string {
    Split(cidr, '/')[0]
  }

  function Render(address: string, prefix: nat): string {
    address + ['/'] + ToText(prefix, 10)
  }

  datatype Info =
    | Info4(prefix: nat, network: nat, broadcast: nat, cidr: string)
    | Info6(prefix: nat, networkText: string, cidr: string)
  {
    function Version(): nat {
      if Info4? then 4 else 6
    }
  }

  /** `cidrInfo`; None where the source throws. */
  function CidrInfo(cidr: string): Option<Info> {
    var address := AddressOf(cidr);
    match PrefixOf(cidr)
    case None => None
    case Some(prefix) =>
      if IsIpv4(address) then
        if prefix > 32 then None
        else
          var value := Ipv4Number(address);
          SignedShiftBlock(value, prefix);
          var network := NetworkOf(value, prefix);
          Some(Info4(prefix, network, BroadcastOf(network, prefix), Render(Ipv4Address(network), prefix)))
      else if prefix > 128 || !IsIpv6(address) then None
      else
        var text := NetworkText(address, prefix);
        Some(Info6(prefix, text, Render(text, prefix)))
  }

  /** The address that is compared with other blocks. */
  function NetworkAddress(cidr: string): string
    requires CidrInfo(cidr).Some?
  {
    CidrInfoShape(cidr);
    match CidrInfo(cidr).value
    case Info4(_, network, _, _) => Ipv4Address(network)
    case Info6(_, text, _) => text
  }

  predicate AddressInCidr(address: string, cidr: string)
    requires CidrInfo(cidr).Some?
  {
    CidrInfoShape(cidr);
    match CidrInfo(cidr).value
    case Info4(_, network, broadcast, _) =>
      IpVersion(address) == 4 && network <= Ipv4Number(address) <= broadcast
    case Info6(prefix, text, _) =>
      IpVersion(address) == 6 &&
      (AddressBitsShape(address);
       AddressBitsShape(text);
       AddressBits(address)[..prefix] == AddressBits(text)[..prefix])
  }

  // ---- the block a text describes

  datatype Block = Block(version: nat, first: nat, last: nat)

  function IpValue(address: string): nat
    requires IpVersion(address) != 0
  {
    if IsIpv4(address) then Ipv4Number(address) else AddressValue(address)
  }

  function HostBits(version: nat, prefix: nat): nat
    requires version in {4, 6} && prefix <= (if version == 4 then 32 else 128)
  {
    (if version == 4 then 32 else 128) - prefix
  }

  /** The addresses of a CIDR by value, independently of how each version computes them. */
  function BlockOf(cidr: string): Block
    requires CidrInfo(cidr).Some?
  {
    var version, value := IpVersion(AddressOf(cidr)), IpValue(AddressOf(cidr));
    var host := HostBits(version, PrefixOf(cidr).value);
    Block(version, AlignDown(value, host), AlignDown(value, host) + Pow2(host) - 1)
  }

  predicate InBlock(address: string, block: Block) {
    IpVersion(address) != 0 && IpVersion(address) == block.version && block.first <= IpValue(address) <= block.last
  }

  lemma NoColonNotIpv6(address: string)
    requires ':' !in address
    ensures !IsIpv6(address)
  {
    SplitPlain(address, ':');
    SplitDoublePlain(address);
    assert |GroupsOf(address)| <= 1;
  }

  lemma Ipv6IsNotIpv4(address: string)
    requires IsIpv6(address)
    ensures !IsIpv4(address)
  {
    if IsIpv4(address) {
      Ipv4HasNoColon(address);
      NoColonNotIpv6(address);
    }
  }

  lemma CidrInfoShape(cidr: string)
    requires CidrInfo(cidr).Some?
    ensures var info := CidrInfo(cidr).value;
      && PrefixOf(cidr) == Some(info.prefix)
      && info.prefix <= (if info.Info4? then 32 else 128)
      && (info.Info4? <==> IpVersion(AddressOf(cidr)) == 4)
      && (info.Info6? <==> IpVersion(AddressOf(cidr)) == 6)
      && (info.Info4? ==> info.network <= info.broadcast < TWO_TO_32)
      && (info.Info6? ==> IsIpv6(info.networkText) && !IsIpv4(info.networkText))
  {
    var info := CidrInfo(cidr).value;
    var address := AddressOf(cidr);
    if info.Info4? {
      SignedShiftBlock(Ipv4Number(address), info.prefix);
    } else {
      NetworkTextIsBlockStart(address, info.prefix);
      Ipv6IsNotIpv4(info.networkText);
    }
  }

  /** How a text is taken apart: the address before the first '/', and decimal digits, possibly none, after it. */
  lemma CidrTexts(address: string, prefix: string)
    requires '/' !in address && '/' !in prefix
    ensures AddressOf(address) == AddressOf(address + ['/'] + prefix) == address
    ensures PrefixOf(address) == None
    ensures PrefixOf(address + ['/'] + prefix) ==
      if forall k :: 0 <= k < |prefix| ==> '0' <= prefix[k] <= '9' then Some(ValueOf(prefix, 10)) else None
  {
    hide Split, ValueOf;
    SplitPlain(address, '/');
    SplitFirst(address, prefix, '/');
    SplitPlain(prefix, '/');
  }

  /** Which texts are accepted: an address of either version with a prefix that fits it. */
  lemma CidrAcceptedIff(cidr: string)
    ensures CidrInfo(cidr).Some? <==>
      && PrefixOf(cidr).Some?
      && ((IsIpv4(AddressOf(cidr)) && PrefixOf(cidr).value <= 32) ||
        (IsIpv6(AddressOf(cidr)) && PrefixOf(cidr).value <= 128))
  {
    if IsIpv6(AddressOf(cidr)) {
      Ipv6IsNotIpv4(AddressOf(cidr));
    }
  }

  lemma BlockBounds(cidr: string)
    requires CidrInfo(cidr).Some?
    ensures var info := CidrInfo(cidr).value;
      && BlockOf(cidr).version == info.Version()
      && (info.Info4? ==> BlockOf(cidr).first == info.network && BlockOf(cidr).last == info.broadcast)
      && (info.Info6? ==> IsIpv6(info.networkText) && BlockOf(cidr).first == AddressValue(info.networkText))
  {
    CidrInfoShape(cidr);
    var info := CidrInfo(cidr).value;
    if info.Info4? {
      SignedShiftBlock(Ipv4Number(AddressOf(cidr)), info.prefix);
    } else {
      Ipv6IsNotIpv4(AddressOf(cidr));
      NetworkTextIsBlockStart(AddressOf(cidr), info.prefix);
    }
  }

  /** Equal leading bits mean equal block starts. */
  lemma BitPrefixTest(a: string, b: string, prefix: nat)
    requires IsIpv6(a) && IsIpv6(b) && prefix <= 128
    requires |AddressBits(a)| == 128 && |AddressBits(b)| == 128
    ensures AddressBits(a)[..prefix] == AddressBits(b)[..prefix] <==>
            AlignDown(AddressValue(a), 128 - prefix) == AlignDown(AddressValue(b), 128 - prefix)
  {
    AddressBitsShape(a);
    AddressBitsShape(b);
    PrefixCompare(AddressBits(a), AddressBits(b), prefix);
  }

  lemma Membership6(address: string, cidr: string)
    requires CidrInfo(cidr).Some? && CidrInfo(cidr).value.Info6? && IpVersion(address) == 6
    ensures AddressInCidr(address, cidr) <==> InBlock(address, BlockOf(cidr))
  {
    CidrInfoShape(cidr);
    BlockBounds(cidr);
    var info := CidrInfo(cidr).value;
    var value, host := AddressValue(AddressOf(cidr)), 128 - info.prefix;
    Ipv6IsNotIpv4(AddressOf(cidr));
    AddressBitsShape(address);
    AddressBitsShape(info.networkText);
    BitPrefixTest(address, info.networkText, info.prefix);
    Coarser(value, host, host);
    SameBlock(value, AddressValue(address), host);
  }

  /** The range test of IPv4 and the bit-prefix test of IPv6 both test membership of the block. */
  lemma AddressInCidrIsBlockTest(address: string, cidr: string)
    requires CidrInfo(cidr).Some?
    ensures AddressInCidr(address, cidr) <==> InBlock(address, BlockOf(cidr))
  {
    CidrInfoShape(cidr);
    BlockBounds(cidr);
    if CidrInfo(cidr).value.Info6? && IpVersion(address) == 6 {
      Membership6(address, cidr);
    }
  }

  lemma {:induction false} CharsOfSplitDouble(s: string, c: char)
    requires c != ':' && forall i :: 0 <= i < |SplitDouble(s)| ==> c !in SplitDouble(s)[i]
    ensures c !in s
  {
    var pieces := SplitDouble(s);
    if |s| < 2 {
      assert c !in pieces[0];
    } else if s[0] == ':' && s[1] == ':' {
      var rest := SplitDouble(s[2..]);
      assert pieces[1..] == rest;
      forall i | 0 <= i < |rest| ensures c !in rest[i] {
        assert rest[i] == pieces[i + 1];
      }
      CharsOfSplitDouble(s[2..], c);
    } else {
      var rest := SplitDouble(s[1..]);
      assert pieces[0] == [s[0]] + rest[0];
      forall i | 0 <= i < |rest| ensures c !in rest[i] {
        assert i > 0 ==> rest[i] == pieces[i];
      }
      CharsOfSplitDouble(s[1..], c);
    }
  }

  lemma SideHasNoSlash(side: string)
    requires AllHextets(GroupsOf(side))
    ensures '/' !in side
  {
    assert DigitOf('/') == 16;
    if side != "" {
      CharsOfSplit(side, ':', '/');
    }
  }

  lemma Ipv6HasNoSlash(address: string)
    requires IsIpv6(address)
    ensures '/' !in address
  {
    var pieces := SplitDouble(address);
    SideHasNoSlash(pieces[0]);
    if |pieces| == 2 {
      SideHasNoSlash(pieces[1]);
    }
    CharsOfSplitDouble(address, '/');
  }

  lemma RenderParts(address: string, prefix: nat)
    requires '/' !in address
    ensures AddressOf(Render(address, prefix)) == address && PrefixOf(Render(address, prefix)) == Some(prefix)
  {
    var text := ToText(prefix, 10);
    ValueOfText(prefix, 10);
    assert DigitOf('/') == 16;
    SplitPlain(text, '/');
    SplitFirst(address, text, '/');
  }

  lemma Normalized4(cidr: string)
    requires CidrInfo(cidr).Some? && CidrInfo(cidr).value.Info4?
    ensures var info := CidrInfo(cidr).value;
      && CidrInfo(info.cidr) == Some(info)
      && AddressOf(info.cidr) == NetworkAddress(cidr) && IsIpv4(NetworkAddress(cidr))
      && Ipv4Number(NetworkAddress(cidr)) == info.network
  {
    CidrInfoShape(cidr);
    var info := CidrInfo(cidr).value;
    var v, host := Ipv4Number(AddressOf(cidr)), 32 - info.prefix;
    SignedShiftBlock(v, info.prefix);
    Coarser(v, host, host);
    SignedShiftBlock(info.network, info.prefix);
    Ipv4RoundTrip(info.network);
    RenderParts(Ipv4Address(info.network), info.prefix);
  }

  lemma Normalized6(cidr: string)
    requires CidrInfo(cidr).Some? && CidrInfo(cidr).value.Info6?
    ensures var info := CidrInfo(cidr).value;
      && CidrInfo(info.cidr) == Some(info)
      && AddressOf(info.cidr) == info.networkText
  {
    CidrInfoShape(cidr);
    var info := CidrInfo(cidr).value;
    NetworkTextIsBlockStart(AddressOf(cidr), info.prefix);
    Ipv6HasNoSlash(info.networkText);
    RenderParts(info.networkText, info.prefix);
  }

  /**
   * The normalized CIDR of a text is a fixed point, splits at its '/' into the network address and
   * the prefix, and describes the same block, whose first address is the network address.
   */
  lemma NormalizedCidr(cidr: string)
    requires CidrInfo(cidr).Some?
    ensures var info := CidrInfo(cidr).value;
      && CidrInfo(info.cidr) == Some(info)
      && AddressOf(info.cidr) == NetworkAddress(cidr)
      && BlockOf(info.cidr) == BlockOf(cidr)
      && IpVersion(NetworkAddress(cidr)) == BlockOf(cidr).version
      && IpValue(NetworkAddress(cidr)) == BlockOf(cidr).first
  {
    CidrInfoShape(cidr);
    var info := CidrInfo(cidr).value;
    if info.Info4? {
      Normalized4(cidr);
    } else {
      Normalized6(cidr);
    }
    BlockBounds(cidr);
    BlockBounds(info.cidr);
    CidrInfoShape(info.cidr);
  }

  /** The printed text of an aligned IPv4 block is in normalized form and describes that block. */
  lemma PrintedBlock(start: nat, prefix: nat)
    requires prefix <= 32 && start % Pow2(32 - prefix) == 0 && start < TWO_TO_32
    ensures var text := Render(Ipv4Address(start), prefix);
      CidrInfo(text) == Some(Info4(prefix, start, start + Pow2(32 - prefix) - 1, text))
  {
    hide NetworkOf, BroadcastOf, Ipv4Address, IsIpv4, Ipv4Number, Render, AddressOf, PrefixOf, Pow2;
    Ipv4RoundTrip(start);
    RenderParts(Ipv4Address(start), prefix);
    SignedShiftBlock(start, prefix);
  }
}
