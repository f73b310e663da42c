/** The discovery allowlist: networks as BigInt ranges, `assertDiscoveryAllowed` and its monotonicity. */
module DiscoveryPolicy {
  import opened Wrappers
  import opened Bits
  import opened Text
  import opened Ipv4
  import opened Ipv4Text
  import opened Ipv6Text
  import opened Ipv6Cidr
  import opened Cidr

  datatype Network = Network(version: nat, prefix: nat, first: nat, last: nat)

  datatype PolicyError = CidrInvalid | TargetForbidden | TargetNotAllowed

  function MaxBits(version: nat): nat {
    if version == 4 then 32 else 128
  }

  /** `((1n << maxBits) - 1n) ^ ((1n << hostBits) - 1n)`, zero when every bit is a host bit. */
  function BigMask(maxBits: nat, hostBits: nat): nat
    requires hostBits <= maxBits
  {
    if hostBits == maxBits then 0 else Xor(Pow2(maxBits) - 1, Pow2(hostBits) - 1)
  }

  function NetworkAt(version: nat, value: nat, prefix: nat): Network
    requires prefix <= MaxBits(version)
  {
    var hostBits := MaxBits(version) - prefix;
    var first := And(value, BigMask(MaxBits(version), hostBits));
    Network(version, prefix, first, first + Pow2(hostBits) - 1)
  }

  function ParseNetwork(input: string): Option<Network> {
    var address := AddressOf(input);
    var version := IpVersion(address);
    match PrefixOf(input)
    case None => None
    case Some(prefix) =>
      if version == 0 || prefix > MaxBits(version) then None
      else Some(NetworkAt(version, IpValue(address), prefix))
  }

  predicate NetworksOverlap(left: Network, right: Network) {
    left.version == right.version && left.first <= right.last && right.first <= left.last
  }

  predicate Contained(target: Network, parent: Network) {
    target.version == parent.version && target.first >= parent.first && target.last <= parent.last
  }

  predicate HasAddress(network: Network, version: nat, value: nat) {
    network.version == version && network.first <= value <= network.last
  }

  function V4(a: nat, b: nat, c: nat, d: nat, prefix: nat): Network
    requires prefix <= 32
  {
    NetworkAt(4, FromOctets([a, b, c, d]), prefix)
  }

  function V6(top: nat, low: nat, prefix: nat): Network
    requires prefix <= 128
  {
    NetworkAt(6, top * Pow2(112) + low, prefix)
  }

  /** The special networks that are never probed, as `parseNetwork` reads them. */
  const FORBIDDEN: seq<Network> := [
    V4(0, 0, 0, 0, 8), V4(127, 0, 0, 0, 8), V4(169, 254, 0, 0, 16), V4(192, 0, 0, 0, 24),
    V4(192, 0, 2, 0, 24), V4(198, 18, 0, 0, 15), V4(198, 51, 100, 0, 24), V4(203, 0, 113, 0, 24),
    V4(224, 0, 0, 0, 4), V4(240, 0, 0, 0, 4),
    V6(0, 0, 128), V6(0, 1, 128), V6(0xfe80, 0, 10), V6(0xff00, 0, 8)]

  /** The allowlist that applies when the settings hold none. */
  const DEFAULT_ALLOWED: seq<Network> := [
    V4(10, 0, 0, 0, 8), V4(172, 16, 0, 0, 12), V4(192, 168, 0, 0, 16), V6(0xfc00, 0, 7)]

  /** Blank entries are dropped; any other entry that is not a network is an error. */
  function ParseAll(items: seq<string>): Option<seq<Network>> {
    if |items| == 0 then Some([])
    else if items[0] == "" then ParseAll(items[1..])
    else match ParseNetwork(items[0])
      case None => None
      case Some(network) =>
        match ParseAll(items[1..])
        case None => None
        case Some(rest) => Some([network] + rest)
  }

  function AllowedNetworks(setting: Option<seq<string>>): Option<seq<Network>> {
    match setting
    case None => Some(DEFAULT_ALLOWED)
    case Some(items) => ParseAll(items)
  }

  predicate HitsAny(target: Network, networks: seq<Network>) {
    exists i :: 0 <= i < |networks| && NetworksOverlap(target, networks[i])
  }

  predicate InsideAny(target: Network, networks: seq<Network>) {
    exists i :: 0 <= i < |networks| && Contained(target, networks[i])
  }

  function Decide(target: Network, setting: Option<seq<string>>): Result<Network, PolicyError> {
    if HitsAny(target, FORBIDDEN) then Err(TargetForbidden)
    else match AllowedNetworks(setting)
      case None => Err(CidrInvalid)
      case Some(allowed) => if InsideAny(target, allowed) then Ok(target) else Err(TargetNotAllowed)
  }

  function AssertDiscoveryAllowed(cidr: string, setting: Option<seq<string>>): Result<Network, PolicyError> {
    match ParseNetwork(cidr)
    case None => Err(CidrInvalid)
    case Some(target) => Decide(target, setting)
  }

  // ---- the BigInt masks describe the same blocks

  /** `value & mask` with a BigInt mask is the block start. */
  lemma NetworkAtIsBlock(version: nat, value: nat, prefix: nat)
    requires prefix <= MaxBits(version) && value < Pow2(MaxBits(version))
    ensures var n := NetworkAt(version, value, prefix);
      && n.first == AlignDown(value, MaxBits(version) - prefix)
      && n.last == n.first + Pow2(MaxBits(version) - prefix) - 1
  {
    hide And, BigMask, AlignDown, Pow2, MaxBits;
    BigMaskIsFloor(value, MaxBits(version), MaxBits(version) - prefix);
  }

  lemma BigMaskIsFloor(value: nat, bits: nat, host: nat)
    requires value < Pow2(bits) && host <= bits
    ensures And(value, BigMask(bits, host)) == AlignDown(value, host)
  {
    hide And, Xor, LowPart, Pow2;
    LowPartIsMod(value, host);
    if host == bits {
      NothingBelow(value, bits);
    } else {
      XorMasks(bits, host);
      AndHighMask(value, bits, host);
    }
  }

  lemma NothingBelow(value: nat, bits: nat)
    requires value < Pow2(bits)
    ensures And(value, 0) == 0 && AlignDown(value, bits) == 0
  {
    LowPartIsMod(value, bits);
    LowPartOfSmall(value, bits);
  }

  lemma IpValueBound(address: string)
    requires IpVersion(address) != 0
    ensures IpValue(address) < Pow2(MaxBits(IpVersion(address)))
  {
    Pow2Of32();
    if !IsIpv4(address) {
      AddressValueBound(address);
    }
  }

  lemma SameTexts(input: string)
    ensures ParseNetwork(input).Some? <==> CidrInfo(input).Some?
  {
  }

  /** `parseNetwork` and `cidrInfo` accept the same texts and describe the same block. */
  lemma ParseNetworkIsCidrInfo(input: string)
    ensures ParseNetwork(input).Some? <==> CidrInfo(input).Some?
    ensures CidrInfo(input).Some? ==>
      var n := ParseNetwork(input).value;
      Block(n.version, n.first, n.last) == BlockOf(input) && Some(n.prefix) == PrefixOf(input)
  {
    hide CidrInfo, NetworkAt, IpVersion, IpValue, PrefixOf, AddressOf, AlignDown, Pow2;
    SameTexts(input);
    if CidrInfo(input).Some? {
      IpValueBound(AddressOf(input));
      CidrInfoShape(input);
      NetworkAtIsBlock(IpVersion(AddressOf(input)), IpValue(AddressOf(input)), PrefixOf(input).value);
      NetworkAtVersion(IpVersion(AddressOf(input)), IpValue(AddressOf(input)), PrefixOf(input).value);
    }
  }

  lemma NetworkAtVersion(version: nat, value: nat, prefix: nat)
    requires prefix <= MaxBits(version)
    ensures NetworkAt(version, value, prefix).version == version && NetworkAt(version, value, prefix).prefix == prefix
  {
  }

  // ---- what an accepted target guarantees

  ghost predicate InNone(networks: seq<Network>, version: nat, value: nat) {
    forall i :: 0 <= i < |networks| ==> !HasAddress(networks[i], version, value)
  }

  lemma AddressesOfMiss(target: Network, networks: seq<Network>, value: nat)
    requires !HitsAny(target, networks) && HasAddress(target, target.version, value)
    ensures InNone(networks, target.version, value)
  {
  }

  ghost predicate InOneWithTarget(networks: seq<Network>, target: Network, value: nat) {
    exists i :: 0 <= i < |networks| && Contained(target, networks[i]) && HasAddress(networks[i], target.version, value)
  }

  lemma AddressesOfInside(target: Network, networks: seq<Network>, value: nat)
    requires InsideAny(target, networks) && HasAddress(target, target.version, value)
    ensures InOneWithTarget(networks, target, value)
  {
  }

  lemma AcceptedDecision(cidr: string, setting: Option<seq<string>>)
    requires AssertDiscoveryAllowed(cidr, setting).Ok?
    ensures ParseNetwork(cidr) == Some(AssertDiscoveryAllowed(cidr, setting).value)
    ensures var target := AssertDiscoveryAllowed(cidr, setting).value;
      && !HitsAny(target, FORBIDDEN)
      && AllowedNetworks(setting).Some? && InsideAny(target, AllowedNetworks(setting).value)
  {
    hide ParseNetwork, AllowedNetworks, HitsAny, InsideAny;
  }

  /** Every address of an accepted target lies in no forbidden network and in one allowed network. */
  lemma AcceptedTargetIsSafe(cidr: string, setting: Option<seq<string>>, target: Network, value: nat)
    requires AssertDiscoveryAllowed(cidr, setting) == Ok(target)
    requires HasAddress(target, target.version, value)
    ensures InNone(FORBIDDEN, target.version, value)
    ensures AllowedNetworks(setting).Some? && InOneWithTarget(AllowedNetworks(setting).value, target, value)
  {
    hide *;
    AcceptedDecision(cidr, setting);
    AddressesOfMiss(target, FORBIDDEN, value);
    AddressesOfInside(target, AllowedNetworks(setting).value, value);
  }

  lemma Shrink(target: Network, inner: Network, networks: seq<Network>)
    requires Contained(inner, target)
    ensures HitsAny(inner, networks) && inner.first <= inner.last ==> HitsAny(target, networks)
    ensures InsideAny(target, networks) ==> InsideAny(inner, networks)
  {
  }

  /** Every sub-block of an accepted target is accepted. */
  lemma SubBlockAccepted(cidr: string, sub: string, setting: Option<seq<string>>)
    requires AssertDiscoveryAllowed(cidr, setting).Ok?
    requires ParseNetwork(sub).Some? && Contained(ParseNetwork(sub).value, ParseNetwork(cidr).value)
    ensures AssertDiscoveryAllowed(sub, setting) == Ok(ParseNetwork(sub).value)
  {
    hide AllowedNetworks, HitsAny, InsideAny;
    var target, inner := ParseNetwork(cidr).value, ParseNetwork(sub).value;
    assert inner.first <= inner.last;
    Shrink(target, inner, FORBIDDEN);
    Shrink(target, inner, AllowedNetworks(setting).value);
  }

  // ---- which targets are accepted, in terms of blocks

  ghost predicate Between(first: nat, v: nat, last: nat) {
    first <= v <= last
  }

  /** The network and the block have an address in common. */
  ghost predicate Touches(block: Block, n: Network) {
    block.version == n.version && exists v: nat :: Between(block.first, v, block.last) && Between(n.first, v, n.last)
  }

  ghost predicate LiesIn(block: Block, n: Network) {
    block.version == n.version && forall v: nat :: Between(block.first, v, block.last) ==> Between(n.first, v, n.last)
  }

  ghost predicate IsForbidden(block: Block) {
    exists i :: 0 <= i < |FORBIDDEN| && Touches(block, FORBIDDEN[i])
  }

  /** Every entry of a setting is blank or a CIDR. */
  ghost predicate IsReadable(setting: Option<seq<string>>) {
    setting.Some? ==> forall i :: 0 <= i < |setting.value| ==>
      setting.value[i] == "" || CidrInfo(setting.value[i]).Some?
  }

  ghost predicate IsCovered(block: Block, setting: Option<seq<string>>) {
    if setting.None? then exists i :: 0 <= i < |DEFAULT_ALLOWED| && LiesIn(block, DEFAULT_ALLOWED[i])
    else exists i :: 0 <= i < |setting.value| && IsCoveredBy(block, setting.value[i])
  }

  /** The entry is a CIDR whose block contains every address of the given one. */
  ghost predicate IsCoveredBy(block: Block, entry: string) {
    entry != "" && CidrInfo(entry).Some? &&
    var wider := BlockOf(entry);
    && block.version == wider.version
    && forall v: nat :: Between(block.first, v, block.last) ==> Between(wider.first, v, wider.last)
  }

  lemma OverlapIsTouch(target: Network, block: Block, n: Network)
    requires block == Block(target.version, target.first, target.last)
    requires target.first <= target.last && n.first <= n.last
    ensures NetworksOverlap(target, n) <==> Touches(block, n)
  {
    if NetworksOverlap(target, n) {
      var v := if target.first >= n.first then target.first else n.first;
      assert Between(block.first, v, block.last) && Between(n.first, v, n.last);
    }
  }

  lemma ContainedIsLiesIn(target: Network, block: Block, n: Network)
    requires block == Block(target.version, target.first, target.last) && target.first <= target.last
    ensures Contained(target, n) <==> LiesIn(block, n)
  {
    if LiesIn(block, n) {
      assert Between(block.first, block.first, block.last) && Between(block.first, block.last, block.last);
    }
  }

  lemma NetworkNotEmpty(version: nat, value: nat, prefix: nat)
    requires prefix <= MaxBits(version)
    ensures NetworkAt(version, value, prefix).first <= NetworkAt(version, value, prefix).last
  {
  }

  lemma {:induction false} ParseAllIs(items: seq<string>)
    ensures ParseAll(items).Some? <==> IsReadable(Some(items))
    ensures ParseAll(items).Some? ==> forall n :: n in ParseAll(items).value <==>
      exists i :: 0 <= i < |items| && items[i] != "" && ParseNetwork(items[i]) == Some(n)
  {
    hide ParseNetwork, CidrInfo;
    if |items| > 0 {
      ParseAllIs(items[1..]);
      SameTexts(items[0]);
      assert forall i :: 1 <= i < |items| ==> items[1..][i - 1] == items[i];
    }
  }

  lemma HitsIffForbidden(target: Network, block: Block)
    requires block == Block(target.version, target.first, target.last) && target.first <= target.last
    ensures HitsAny(target, FORBIDDEN) <==> IsForbidden(block)
  {
    hide NetworkAt, NetworksOverlap, Touches, FromOctets;
    forall i | 0 <= i < |FORBIDDEN|
      ensures NetworksOverlap(target, FORBIDDEN[i]) <==> Touches(block, FORBIDDEN[i])
    {
      ForbiddenNotEmpty(i);
      OverlapIsTouch(target, block, FORBIDDEN[i]);
    }
  }

  lemma ForbiddenNotEmpty(i: nat)
    requires i < |FORBIDDEN|
    ensures FORBIDDEN[i].first <= FORBIDDEN[i].last
  {
    hide And, Xor, Pow2, FromOctets;
  }

  lemma InsideIffCovered(target: Network, block: Block, setting: Option<seq<string>>)
    requires block == Block(target.version, target.first, target.last) && target.first <= target.last
    requires AllowedNetworks(setting).Some?
    ensures InsideAny(target, AllowedNetworks(setting).value) <==> IsCovered(block, setting)
  {
    hide ParseAll, ParseNetwork, Contained, LiesIn, IsCoveredBy, NetworkAt;
    match setting
    case None =>
      forall i | 0 <= i < |DEFAULT_ALLOWED|
        ensures Contained(target, DEFAULT_ALLOWED[i]) <==> LiesIn(block, DEFAULT_ALLOWED[i])
      {
        ContainedIsLiesIn(target, block, DEFAULT_ALLOWED[i]);
      }
    case Some(items) =>
      ParseAllIs(items);
      forall i | 0 <= i < |items|
        ensures IsCoveredBy(block, items[i]) <==>
          items[i] != "" && ParseNetwork(items[i]).Some? && Contained(target, ParseNetwork(items[i]).value)
      {
        CoveredByEntry(target, block, items[i]);
      }
      var allowed := ParseAll(items).value;
      if i :| 0 <= i < |items| && IsCoveredBy(block, items[i]) {
        assert ParseNetwork(items[i]).value in allowed;
      }
      if i :| 0 <= i < |allowed| && Contained(target, allowed[i]) {
        assert allowed[i] in allowed;
      }
  }

  lemma CoveredByEntry(target: Network, block: Block, entry: string)
    requires block == Block(target.version, target.first, target.last) && target.first <= target.last
    ensures IsCoveredBy(block, entry) <==>
      entry != "" && ParseNetwork(entry).Some? && Contained(target, ParseNetwork(entry).value)
  {
    hide ParseNetwork, CidrInfo, BlockOf;
    ParseNetworkIsCidrInfo(entry);
    if ParseNetwork(entry).Some? {
      ContainedIsLiesIn(target, block, ParseNetwork(entry).value);
    }
  }

  /**
   * A target is invalid unless its text is a CIDR, forbidden exactly if it has an address in common with a special
   * network, and otherwise accepted exactly if every entry of the setting is readable and the block of one entry, or of
   * the default list, contains the whole target.
   */
  lemma TargetIsDecided(cidr: string, setting: Option<seq<string>>)
    ensures var r := AssertDiscoveryAllowed(cidr, setting);
      if CidrInfo(cidr).None? then r == Err(CidrInvalid)
      else
        var block := BlockOf(cidr);
        if IsForbidden(block) then r == Err(TargetForbidden)
        else if !IsReadable(setting) then r == Err(CidrInvalid)
        else if !IsCovered(block, setting) then r == Err(TargetNotAllowed)
        else r == Ok(Network(block.version, PrefixOf(cidr).value, block.first, block.last))
  {
    hide CidrInfo, BlockOf, ParseNetwork, HitsAny, InsideAny, IsForbidden, IsCovered, PrefixOf, ParseAll;
    ParseNetworkIsCidrInfo(cidr);
    if CidrInfo(cidr).Some? {
      var target, block := ParseNetwork(cidr).value, BlockOf(cidr);
      ParsedNotEmpty(cidr);
      HitsIffForbidden(target, block);
      if setting.Some? {
        ParseAllIs(setting.value);
      }
      if AllowedNetworks(setting).Some? {
        InsideIffCovered(target, block, setting);
      }
    }
  }

  lemma ParsedNotEmpty(cidr: string)
    requires ParseNetwork(cidr).Some?
    ensures ParseNetwork(cidr).value.first <= ParseNetwork(cidr).value.last
  {
    hide IpValue, NetworkAt;
    NetworkNotEmpty(IpVersion(AddressOf(cidr)), IpValue(AddressOf(cidr)), PrefixOf(cidr).value);
  }
}
