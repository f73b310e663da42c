/** Whether the gateway of a stored subnet lies in the subnet: always after a creation, not always after an update. */
module Gateways {
  import opened Wrappers
  import opened Bits
  import opened Ipv4
  import opened Ipv4Text
  import opened Cidr
  import opened SubnetRegistry

  predicate GatewayInside(row: Row)
    requires CidrInfo(row.cidr).Some?
  {
    row.gateway.Some? ==> AddressInCidr(row.gateway.value, row.cidr)
  }

  lemma CreatedGatewayInside(rows: Rows, dto: CreateDto)
    requires AllNormalized(rows) && CheckCreate(rows, dto).Ok?
    ensures CidrInfo(CheckCreate(rows, dto).value.cidr).Some? && GatewayInside(CheckCreate(rows, dto).value)
  {
    hide CidrInfo, AddressInCidr, VlanUsed, Overlaps, NetworkAddress, Normalized, AllNormalized, BlockOf, IpVersion,
      IpValue, AddressOf;
    NormalizedCidr(dto.cidr);
  }

  /**
   * An update checks only a gateway that it is given. The stored one lies inside exactly if the request sets or
   * clears it, there was none, or the old one lies in the block that the request asks for.
   */
  lemma UpdatedGatewayInsideIff(rows: Rows, id: nat, dto: UpdateDto)
    requires AllNormalized(rows) && CheckUpdate(rows, id, dto).Ok?
    ensures id in rows && CidrInfo(CheckUpdate(rows, id, dto).value.cidr).Some?
    ensures CidrInfo(Placed(rows[id], dto).cidr).Some?
    ensures GatewayInside(CheckUpdate(rows, id, dto).value) <==>
      || dto.gateway.Some? || rows[id].gateway.None?
      || InBlock(rows[id].gateway.value, BlockOf(Placed(rows[id], dto).cidr))
  {
    hide CidrInfo, AddressInCidr, VlanUsed, Overlaps, NetworkAddress, InBlock, BlockOf, Normalized, AllNormalized;
    var row, wanted := CheckUpdate(rows, id, dto).value, Placed(rows[id], dto).cidr;
    NormalizedCidr(wanted);
    if rows[id].gateway.Some? {
      AddressInCidrIsBlockTest(rows[id].gateway.value, row.cidr);
    }
  }

  const OLD_START: nat := 0x0A00_0000
  const NEW_START: nat := 0x0A00_0100

  function Block24(start: nat): string
    requires start < TWO_TO_32
  {
    Render(Ipv4Address(start), 24)
  }

  lemma Block24Info(start: nat)
    requires start < TWO_TO_32 && start % 256 == 0
    ensures CidrInfo(Block24(start)) == Some(Info4(24, start, start + 255, Block24(start)))
  {
    hide CidrInfo, Ipv4Address, Render;
    assert Pow2(8) == 256;
    PrintedBlock(start, 24);
  }

  /** 10.0.0.0/24 with gateway 10.0.0.1 may become 10.0.1.0/24 and keep that gateway. */
  lemma GatewayLeftOutside()
    ensures exists rows: Rows, dto: UpdateDto ::
      && AllNormalized(rows) && CheckUpdate(rows, 0, dto).Ok?
      && CidrInfo(CheckUpdate(rows, 0, dto).value.cidr).Some? && !GatewayInside(CheckUpdate(rows, 0, dto).value)
  {
    hide CidrInfo, Ipv4Address, Render, AddressInCidr, NetworkAddress;
    Block24Info(OLD_START);
    Block24Info(NEW_START);
    var gateway := Ipv4Address(OLD_START + 1);
    GatewayMisses(gateway);
    var rows: Rows := map[0 := Row(Block24(OLD_START), None, None, None, Some(gateway))];
    var dto := UpdateDto(Some(Block24(NEW_START)), None, None, None, None);
    assert AllNormalized(rows);
    var row := CheckUpdate(rows, 0, dto).value;
    assert row.cidr == Block24(NEW_START) && row.gateway == Some(gateway) && !GatewayInside(row);
  }

  lemma GatewayMisses(gateway: string)
    requires gateway == Ipv4Address(OLD_START + 1)
    ensures CidrInfo(Block24(NEW_START)).Some? && !AddressInCidr(gateway, Block24(NEW_START))
  {
    hide CidrInfo, Ipv4Address, Render;
    Block24Info(NEW_START);
    Ipv4RoundTrip(OLD_START + 1);
  }
}
