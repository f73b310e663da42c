/** The networks that the discovery policy lists as text, and the blocks that parsing them gives. */
module PolicyTexts {
  import opened Wrappers
  import opened Bits
  import opened Text
  import opened Ipv4
  import opened Ipv4Text
  import opened Ipv6Text
  import opened Ipv6Cidr
  import opened Cidr
  import opened DiscoveryPolicy

  const FORBIDDEN_CIDRS: seq<string> := [
    "0.0.0.0/8", "127.0.0.0/8", "169.254.0.0/16", "192.0.0.0/24",
    "192.0.2.0/24", "198.18.0.0/15", "198.51.100.0/24", "203.0.113.0/24",
    "224.0.0.0/4", "240.0.0.0/4", "::/128", "::1/128", "fe80::/10", "ff00::/8"]

  const DEFAULT_CIDRS: seq<string> := ["10.0.0.0/8", "172.16.0.0/12", "192.168.0.0/16", "fc00::/7"]

  // ---- numerals

  lemma OneDigit(a: char, base: nat)
    requires DigitOf(a) < base
    ensures IsNumeral([a], base) && ValueOf([a], base) == DigitOf(a)
  {
  }

  lemma TwoDigits(a: char, b: char, base: nat)
    requires DigitOf(a) < base && DigitOf(b) < base
    ensures IsNumeral([a, b], base) && ValueOf([a, b], base) == DigitOf(a) * base + DigitOf(b)
  {
    hide DigitOf, ValueOf;
    OneDigit(a, base);
    ValueAppend([a], b, base);
    assert [a] + [b] == [a, b];
  }

  lemma ThreeDigits(a: char, b: char, c: char, base: nat)
    requires DigitOf(a) < base && DigitOf(b) < base && DigitOf(c) < base
    ensures IsNumeral([a, b, c], base)
    ensures ValueOf([a, b, c], base) == (DigitOf(a) * base + DigitOf(b)) * base + DigitOf(c)
  {
    hide DigitOf, ValueOf;
    TwoDigits(a, b, base);
    ValueAppend([a, b], c, base);
    assert [a, b] + [c] == [a, b, c];
  }

  // ---- dotted quads

  lemma NoSeparators(text: string)
    requires IsNumeral(text, 10)
    ensures '.' !in text && '/' !in text
  {
    assert DigitOf('.') == 16 && DigitOf('/') == 16;
  }

  ghost predicate IsQuadText(text: string, a: string, b: string, c: string, d: string, p: string) {
    && IsOctet(a) && IsOctet(b) && IsOctet(c) && IsOctet(d) && IsNumeral(p, 10)
    && text == Join([a, b, c, d], '.') + ['/'] + p
  }

  lemma QuadParts(a: string, b: string, c: string, d: string)
    requires IsOctet(a) && IsOctet(b) && IsOctet(c) && IsOctet(d)
    ensures var address := Join([a, b, c, d], '.');
      && '/' !in address && IsIpv4(address)
      && Ipv4Number(address) == FromOctets([ValueOf(a, 10), ValueOf(b, 10), ValueOf(c, 10), ValueOf(d, 10)])
  {
    hide ValueOf, FromOctets, Join, IsNumeral;
    var parts := [a, b, c, d];
    forall i | 0 <= i < 4
      ensures '.' !in parts[i] && '/' !in parts[i]
    {
      NoSeparators(parts[i]);
    }
    SplitJoin(parts, '.');
    CharsOfJoin(parts, '.', '/');
    assert seq(4, i requires 0 <= i < 4 => ValueOf(parts[i], 10)) ==
      [ValueOf(a, 10), ValueOf(b, 10), ValueOf(c, 10), ValueOf(d, 10)];
  }

  lemma TextParts(address: string, p: string)
    requires '/' !in address && IsNumeral(p, 10)
    ensures AddressOf(address + ['/'] + p) == address && PrefixOf(address + ['/'] + p) == Some(ValueOf(p, 10))
  {
    hide ValueOf;
    NoSeparators(p);
    SplitPlain(p, '/');
    SplitFirst(address, p, '/');
  }

  /** Parsing a dotted quad with a prefix gives the block that its octets and its prefix name. */
  lemma ParseQuad(text: string, a: string, b: string, c: string, d: string, p: string)
    requires IsQuadText(text, a, b, c, d, p) && ValueOf(p, 10) <= 32
    ensures ParseNetwork(text) ==
      Some(V4(ValueOf(a, 10), ValueOf(b, 10), ValueOf(c, 10), ValueOf(d, 10), ValueOf(p, 10)))
  {
    hide ValueOf, FromOctets, Join, IsNumeral, IsIpv4, Ipv4Number, AddressOf, PrefixOf, NetworkAt, IsOctet;
    QuadParts(a, b, c, d);
    TextParts(Join([a, b, c, d], '.'), p);
  }

  lemma JoinedQuad(a: string, b: string, c: string, d: string)
    ensures Join([a, b, c, d], '.') == a + "." + (b + "." + (c + "." + d))
  {
    assert [a, b, c, d][1..] == [b, c, d] && [b, c, d][1..] == [c, d] && [c, d][1..] == [d];
    assert Join([d], '.') == d;
    assert Join([c, d], '.') == c + "." + d;
    assert Join([b, c, d], '.') == b + "." + (c + "." + d);
  }

  /** The octets that the lists use. */
  lemma OctetTexts()
    ensures IsOctet("0") && ValueOf("0", 10) == 0 && IsOctet("2") && ValueOf("2", 10) == 2
    ensures IsOctet("10") && ValueOf("10", 10) == 10 && IsOctet("16") && ValueOf("16", 10) == 16
    ensures IsOctet("18") && ValueOf("18", 10) == 18 && IsOctet("51") && ValueOf("51", 10) == 51
    ensures IsOctet("100") && ValueOf("100", 10) == 100 && IsOctet("113") && ValueOf("113", 10) == 113
    ensures IsOctet("127") && ValueOf("127", 10) == 127 && IsOctet("168") && ValueOf("168", 10) == 168
    ensures IsOctet("169") && ValueOf("169", 10) == 169 && IsOctet("172") && ValueOf("172", 10) == 172
    ensures IsOctet("192") && ValueOf("192", 10) == 192 && IsOctet("198") && ValueOf("198", 10) == 198
    ensures IsOctet("203") && ValueOf("203", 10) == 203 && IsOctet("224") && ValueOf("224", 10) == 224
    ensures IsOctet("240") && ValueOf("240", 10) == 240 && IsOctet("254") && ValueOf("254", 10) == 254
  {
    hide ValueOf, IsNumeral;
    OneDigit('0', 10);
    OneDigit('2', 10);
    TwoDigits('1', '0', 10);
    TwoDigits('1', '6', 10);
    TwoDigits('1', '8', 10);
    TwoDigits('5', '1', 10);
    ThreeDigits('1', '0', '0', 10);
    ThreeDigits('1', '1', '3', 10);
    ThreeDigits('1', '2', '7', 10);
    ThreeDigits('1', '6', '8', 10);
    ThreeDigits('1', '6', '9', 10);
    ThreeDigits('1', '7', '2', 10);
    ThreeDigits('1', '9', '2', 10);
    ThreeDigits('1', '9', '8', 10);
    ThreeDigits('2', '0', '3', 10);
    ThreeDigits('2', '2', '4', 10);
    ThreeDigits('2', '4', '0', 10);
    ThreeDigits('2', '5', '4', 10);
  }

  lemma PrefixTexts()
    ensures IsNumeral("4", 10) && ValueOf("4", 10) == 4 && IsNumeral("7", 10) && ValueOf("7", 10) == 7
    ensures IsNumeral("8", 10) && ValueOf("8", 10) == 8 && IsNumeral("10", 10) && ValueOf("10", 10) == 10
    ensures IsNumeral("12", 10) && ValueOf("12", 10) == 12 && IsNumeral("15", 10) && ValueOf("15", 10) == 15
    ensures IsNumeral("16", 10) && ValueOf("16", 10) == 16 && IsNumeral("24", 10) && ValueOf("24", 10) == 24
    ensures IsNumeral("128", 10) && ValueOf("128", 10) == 128
  {
    hide ValueOf, IsNumeral;
    OneDigit('4', 10);
    OneDigit('7', 10);
    OneDigit('8', 10);
    TwoDigits('1', '0', 10);
    TwoDigits('1', '2', 10);
    TwoDigits('1', '5', 10);
    TwoDigits('1', '6', 10);
    TwoDigits('2', '4', 10);
    ThreeDigits('1', '2', '8', 10);
  }

  lemma QuadText(a: string, b: string, c: string, d: string, p: string)
    requires IsOctet(a) && IsOctet(b) && IsOctet(c) && IsOctet(d) && IsNumeral(p, 10) && ValueOf(p, 10) <= 32
    ensures ParseNetwork(a + "." + (b + "." + (c + "." + d)) + "/" + p) ==
      Some(V4(ValueOf(a, 10), ValueOf(b, 10), ValueOf(c, 10), ValueOf(d, 10), ValueOf(p, 10)))
  {
    hide ValueOf, IsNumeral, IsOctet, V4, ParseNetwork, Join;
    JoinedQuad(a, b, c, d);
    ParseQuad(a + "." + (b + "." + (c + "." + d)) + "/" + p, a, b, c, d, p);
  }

  lemma ForbiddenQuads()
    ensures ParseNetwork("0.0.0.0/8") == Some(V4(0, 0, 0, 0, 8))
    ensures ParseNetwork("127.0.0.0/8") == Some(V4(127, 0, 0, 0, 8))
    ensures ParseNetwork("169.254.0.0/16") == Some(V4(169, 254, 0, 0, 16))
    ensures ParseNetwork("192.0.0.0/24") == Some(V4(192, 0, 0, 0, 24))
    ensures ParseNetwork("192.0.2.0/24") == Some(V4(192, 0, 2, 0, 24))
  {
    hide ValueOf, IsNumeral, IsOctet, V4, ParseNetwork;
    OctetTexts();
    PrefixTexts();
    QuadText("0", "0", "0", "0", "8");
    QuadText("127", "0", "0", "0", "8");
    QuadText("169", "254", "0", "0", "16");
    QuadText("192", "0", "0", "0", "24");
    QuadText("192", "0", "2", "0", "24");
    assert "0.0.0.0/8" == "0" + "." + ("0" + "." + ("0" + "." + "0")) + "/" + "8";
    assert "127.0.0.0/8" == "127" + "." + ("0" + "." + ("0" + "." + "0")) + "/" + "8";
    assert "169.254.0.0/16" == "169" + "." + ("254" + "." + ("0" + "." + "0")) + "/" + "16";
    assert "192.0.0.0/24" == "192" + "." + ("0" + "." + ("0" + "." + "0")) + "/" + "24";
    assert "192.0.2.0/24" == "192" + "." + ("0" + "." + ("2" + "." + "0")) + "/" + "24";
  }

  lemma MoreForbiddenQuads()
    ensures ParseNetwork("198.18.0.0/15") == Some(V4(198, 18, 0, 0, 15))
    ensures ParseNetwork("198.51.100.0/24") == Some(V4(198, 51, 100, 0, 24))
    ensures ParseNetwork("203.0.113.0/24") == Some(V4(203, 0, 113, 0, 24))
    ensures ParseNetwork("224.0.0.0/4") == Some(V4(224, 0, 0, 0, 4))
    ensures ParseNetwork("240.0.0.0/4") == Some(V4(240, 0, 0, 0, 4))
  {
    hide ValueOf, IsNumeral, IsOctet, V4, ParseNetwork;
    OctetTexts();
    PrefixTexts();
    QuadText("198", "18", "0", "0", "15");
    QuadText("198", "51", "100", "0", "24");
    QuadText("203", "0", "113", "0", "24");
    QuadText("224", "0", "0", "0", "4");
    QuadText("240", "0", "0", "0", "4");
    assert "198.18.0.0/15" == "198" + "." + ("18" + "." + ("0" + "." + "0")) + "/" + "15";
    assert "198.51.100.0/24" == "198" + "." + ("51" + "." + ("100" + "." + "0")) + "/" + "24";
    assert "203.0.113.0/24" == "203" + "." + ("0" + "." + ("113" + "." + "0")) + "/" + "24";
    assert "224.0.0.0/4" == "224" + "." + ("0" + "." + ("0" + "." + "0")) + "/" + "4";
    assert "240.0.0.0/4" == "240" + "." + ("0" + "." + ("0" + "." + "0")) + "/" + "4";
  }

  lemma DefaultQuads()
    ensures ParseNetwork("10.0.0.0/8") == Some(V4(10, 0, 0, 0, 8))
    ensures ParseNetwork("172.16.0.0/12") == Some(V4(172, 16, 0, 0, 12))
    ensures ParseNetwork("192.168.0.0/16") == Some(V4(192, 168, 0, 0, 16))
  {
    hide ValueOf, IsNumeral, IsOctet, V4, ParseNetwork;
    OctetTexts();
    PrefixTexts();
    QuadText("10", "0", "0", "0", "8");
    QuadText("172", "16", "0", "0", "12");
    QuadText("192", "168", "0", "0", "16");
    assert "10.0.0.0/8" == "10" + "." + ("0" + "." + ("0" + "." + "0")) + "/" + "8";
    assert "172.16.0.0/12" == "172" + "." + ("16" + "." + ("0" + "." + "0")) + "/" + "12";
    assert "192.168.0.0/16" == "192" + "." + ("168" + "." + ("0" + "." + "0")) + "/" + "16";
  }

  // ---- elided IPv6 text

  /** One side of "::": nothing, or a single group. */
  ghost predicate IsSide(side: string) {
    side == "" || IsHextet(side)
  }

  lemma SideGroups(side: string)
    requires IsSide(side)
    ensures ':' !in side && '/' !in side && NoDouble(side)
    ensures GroupsOf(side) == if side == "" then [] else [side]
    ensures AllHextets(GroupsOf(side))
  {
    assert DigitOf(':') == 16 && DigitOf('/') == 16;
    SplitPlain(side, ':');
  }

  lemma ElidedGroups(l: string, r: string)
    requires IsSide(l) && IsSide(r)
    ensures var address := l + "::" + r;
      && '/' !in address && IsIpv6(address) && |GroupsOf(l)| + |GroupsOf(r)| <= 7
      && EightGroups(address) == GroupsOf(l) + ZeroGroups(8 - |GroupsOf(l)| - |GroupsOf(r)|) + GroupsOf(r)
  {
    hide SplitDouble, NoDouble, IsHextet, IsSide, GroupsOf, AllHextets;
    SideGroups(l);
    SideGroups(r);
    SplitDoubleAt(l, r);
  }

  lemma {:induction false} ZerosShift(groups: seq<string>, k: nat)
    ensures GroupsValue(groups + ZeroGroups(k)) == GroupsValue(groups) * Pow2(16 * k)
  {
    hide *;
    if k == 0 {
      NoZeros(groups);
    } else {
      ZerosShift(groups, k - 1);
      OneMoreZero(groups, k);
      GroupsMore(groups + ZeroGroups(k - 1), "0");
      ZeroText();
      SixteenMore(GroupsValue(groups), k - 1);
    }
  }

  lemma ZeroText()
    ensures ValueOf("0", 16) == 0
  {
    OneDigit('0', 16);
  }

  lemma NoZeros(groups: seq<string>)
    ensures groups + ZeroGroups(0) == groups && Pow2(16 * 0) == 1
  {
  }

  lemma OneMoreZero(groups: seq<string>, k: nat)
    requires k > 0
    ensures groups + ZeroGroups(k) == (groups + ZeroGroups(k - 1)) + ["0"]
  {
  }

  lemma GroupsMore(groups: seq<string>, g: string)
    ensures GroupsValue(groups + [g]) == GroupsValue(groups) * 0x1_0000 + ValueOf(g, 16)
  {
    assert (groups + [g])[..|groups|] == groups;
  }

  lemma SixteenMore(v: nat, k: nat)
    ensures v * Pow2(16 * k) * 0x1_0000 == v * Pow2(16 * (k + 1))
  {
    hide Pow2;
    SixteenBits();
    Pow2Add(16 * k, 16);
    assert 16 * (k + 1) == 16 * k + 16;
  }

  lemma FirstGroupValue(g: string)
    ensures GroupsValue([g] + ZeroGroups(7) + []) == ValueOf(g, 16) * Pow2(112)
  {
    hide *;
    ZerosShift([g], 7);
    NothingMore([g] + ZeroGroups(7));
    OneGroup(g);
  }

  lemma OneGroup(g: string)
    ensures GroupsValue([g]) == ValueOf(g, 16) && GroupsValue([]) == 0
  {
    assert [g][..0] == [];
  }

  lemma NothingMore(groups: seq<string>)
    ensures groups + [] == groups
  {
  }

  lemma NoGroupValue()
    ensures GroupsValue([] + ZeroGroups(8) + []) == 0
  {
    hide *;
    ZerosShift([], 8);
    NothingMore([] + ZeroGroups(8));
    OneGroup("");
  }

  lemma LastGroupValue(g: string)
    ensures GroupsValue([] + ZeroGroups(7) + [g]) == ValueOf(g, 16)
  {
    hide *;
    ZerosShift([], 7);
    OneGroup(g);
    GroupsMore([] + ZeroGroups(7), g);
  }

  lemma ElidedValue(l: string, r: string)
    requires IsSide(l) && IsSide(r) && (l == "" || r == "")
    ensures IsIpv6(l + "::" + r)
    ensures AddressValue(l + "::" + r) ==
      (if l == "" then 0 else ValueOf(l, 16)) * Pow2(112) + (if r == "" then 0 else ValueOf(r, 16))
  {
    hide ValueOf, Pow2, IsIpv6, EightGroups, IsSide, GroupsValue, GroupsOf;
    ElidedGroups(l, r);
    SideGroups(l);
    SideGroups(r);
    if r != "" {
      LastGroupValue(r);
    } else if l != "" {
      FirstGroupValue(l);
    } else {
      NoGroupValue();
    }
  }

  /** Parsing an elided address with a prefix gives the block of its first or last group. */
  lemma ParseElided(l: string, r: string, p: string)
    requires IsSide(l) && IsSide(r) && (l == "" || r == "") && IsNumeral(p, 10) && ValueOf(p, 10) <= 128
    ensures ParseNetwork(l + "::" + r + "/" + p) ==
      Some(V6(if l == "" then 0 else ValueOf(l, 16), if r == "" then 0 else ValueOf(r, 16), ValueOf(p, 10)))
  {
    hide ValueOf, IsNumeral, IsIpv4, IsIpv6, AddressValue, AddressOf, PrefixOf, NetworkAt, IsSide, Pow2;
    ElidedGroups(l, r);
    ElidedValue(l, r);
    Ipv6IsNotIpv4(l + "::" + r);
    TextParts(l + "::" + r, p);
  }

  lemma FourHex(a: char, b: char, c: char, d: char)
    requires DigitOf(a) < 16 && DigitOf(b) < 16 && DigitOf(c) < 16 && DigitOf(d) < 16
    ensures IsHextet([a, b, c, d])
    ensures ValueOf([a, b, c, d], 16) == ((DigitOf(a) * 16 + DigitOf(b)) * 16 + DigitOf(c)) * 16 + DigitOf(d)
  {
    hide DigitOf, ValueOf;
    ThreeDigits(a, b, c, 16);
    ValueAppend([a, b, c], d, 16);
    assert [a, b, c] + [d] == [a, b, c, d];
  }

  lemma ElidedTexts()
    ensures ParseNetwork("::/128") == Some(V6(0, 0, 128))
    ensures ParseNetwork("::1/128") == Some(V6(0, 1, 128))
    ensures ParseNetwork("fe80::/10") == Some(V6(0xfe80, 0, 10))
    ensures ParseNetwork("ff00::/8") == Some(V6(0xff00, 0, 8))
    ensures ParseNetwork("fc00::/7") == Some(V6(0xfc00, 0, 7))
  {
    hide ValueOf, IsNumeral, V6, ParseNetwork;
    PrefixTexts();
    OneDigit('1', 16);
    FourHex('f', 'e', '8', '0');
    FourHex('f', 'f', '0', '0');
    FourHex('f', 'c', '0', '0');
    ParseElided("", "", "128");
    ParseElided("", "1", "128");
    ParseElided("fe80", "", "10");
    ParseElided("ff00", "", "8");
    ParseElided("fc00", "", "7");
    assert "::/128" == "" + "::" + "" + "/" + "128" && "::1/128" == "" + "::" + "1" + "/" + "128";
    assert "fe80::/10" == "fe80" + "::" + "" + "/" + "10" && "ff00::/8" == "ff00" + "::" + "" + "/" + "8";
    assert "fc00::/7" == "fc00" + "::" + "" + "/" + "7";
  }

  // ---- the lists

  /** Parsing the forbidden texts gives exactly the blocks that the policy is checked against. */
  lemma ForbiddenTexts()
    ensures |FORBIDDEN_CIDRS| == |FORBIDDEN|
    ensures forall i :: 0 <= i < |FORBIDDEN_CIDRS| ==> ParseNetwork(FORBIDDEN_CIDRS[i]) == Some(FORBIDDEN[i])
  {
    hide ParseNetwork, V4, V6;
    ForbiddenQuads();
    MoreForbiddenQuads();
    ElidedTexts();
  }

  /** Without a setting the allowlist is the parsed default list. */
  lemma DefaultTexts()
    ensures AllowedNetworks(None) == ParseAll(DEFAULT_CIDRS)
  {
    hide ParseNetwork, V4, V6, ParseAll;
    DefaultQuads();
    ElidedTexts();
    var a, b, c, d := DEFAULT_CIDRS[0], DEFAULT_CIDRS[1], DEFAULT_CIDRS[2], DEFAULT_CIDRS[3];
    var n := DEFAULT_ALLOWED;
    ParseNothing();
    assert [d][1..] == [] && [c, d][1..] == [d] && [b, c, d][1..] == [c, d] && DEFAULT_CIDRS[1..] == [b, c, d];
    ParseOne([d], n[3], []);
    ParseOne([c, d], n[2], [n[3]] + []);
    ParseOne([b, c, d], n[1], [n[2]] + ([n[3]] + []));
    ParseOne(DEFAULT_CIDRS, n[0], [n[1]] + ([n[2]] + ([n[3]] + [])));
    assert [n[0]] + ([n[1]] + ([n[2]] + ([n[3]] + []))) == n;
  }

  lemma ParseNothing()
    ensures ParseAll([]) == Some([])
  {
  }

  lemma ParseOne(items: seq<string>, network: Network, rest: seq<Network>)
    requires |items| > 0 && items[0] != "" && ParseNetwork(items[0]) == Some(network)
    requires ParseAll(items[1..]) == Some(rest)
    ensures ParseAll(items) == Some([network] + rest)
  {
    hide ParseNetwork;
  }

  // ---- an empty prefix

  /** A CIDR text that ends with its '/' is read with prefix zero: the whole address space. */
  lemma EmptyPrefix(address: string)
    requires IsIpv4(address) && '/' !in address
    ensures CidrInfo(address + "/").Some? && CidrInfo(address + "/").value.prefix == 0
    ensures BlockOf(address + "/") == Block(4, 0, TWO_TO_32 - 1)
  {
    hide IsIpv4, Ipv4Number, NetworkOf, BroadcastOf, AddressOf, PrefixOf, Ipv4Address, Pow2;
    TextParts(address, "");
    assert address + ['/'] + "" == address + "/";
    SignedShiftBlock(Ipv4Number(address), 0);
    Pow2Of32();
    WholeSpace(Ipv4Number(address));
  }

  lemma WholeSpace(value: nat)
    requires value < TWO_TO_32
    ensures AlignDown(value, 32) == 0
  {
    Pow2Of32();
  }

  /** "10.0.0.0/" is taken for 0.0.0.0/0. */
  lemma TenSlash()
    ensures CidrInfo("10.0.0.0/").Some? && CidrInfo("10.0.0.0/").value.prefix == 0
    ensures BlockOf("10.0.0.0/") == Block(4, 0, TWO_TO_32 - 1)
  {
    hide IsIpv4, CidrInfo, BlockOf, ValueOf, IsNumeral, IsOctet, Join;
    OctetTexts();
    QuadParts("10", "0", "0", "0");
    JoinedQuad("10", "0", "0", "0");
    assert "10.0.0.0" == "10" + "." + ("0" + "." + ("0" + "." + "0"));
    EmptyPrefix("10.0.0.0");
    assert "10.0.0.0/" == "10.0.0.0" + "/";
  }
}
