# Verification of the infrastructure management services

SIMOES manages the racks, devices, addresses and alerts of an organisation. Most of its services are
forms over database tables, but some hold real algorithms and protocols. This project models those and
proves what they are for. Tables are maps or sequences held in class fields, each database call or
transaction is one atomic step, and time is an integer.

The modules follow the services:

- **Addresses** (`Bits`, `Ipv4`, `Ipv4Text`, `Text`, `Ipv6Text`, `Ipv6Cidr`, `Cidr`, `DiscoveryPolicy`,
  `PolicyTexts`).
  The same CIDR facts are computed with 32-bit signed shifts, bit strings, BigInt masks and range tests;
  all four describe the same aligned block, and printer and parser undo each other.
- **Subnets** (`SubnetRegistry`, `Gateways`, `Sorting`, `FreeGaps`, `SubnetPlan`). The registry that keeps the
  subnets of a (site, VRF) disjoint, the free-gap planner, the splitter and the most specific subnet.
- **Discovery** (`Discovery`). Host enumeration and the worker behind the allowlist.
- **Racks** (`RackPlacement`, `Inventory`, `DevicePlacement`, `BulkMove`, `DeviceImport`). Drag and drop with
  displacement or swap, the first-fit bulk mover, and the batch import.
- **Alerts** (`Alerts`, `Findings`, `Reconciler`, `InterleavedPasses`). Reconciliation of detected conditions with user
  decisions, as whole passes and as the single database calls they consist of.
- **Protocols** (`RoleRequests`, `TrapLimiter`, `DeviceLock`, `Topology`, `TopologyWrites`).
- **Access and export** (`Access`, `AnsibleNames`).

Where the code works by changing state, a method or class does the same and is proved equal to a
specification function; the properties are then lemmas about that function over every run.

Results worth knowing about the code itself:

- Two creations or updates that race past the overlap check can leave overlapping subnets; only equal CIDR text is
  stopped by the database (`SubnetRegistry.RacingWrites`, `SubnetRegistry.RaceLeavesOverlap`,
  `SubnetRegistry.MovesLeaveOverlap`).
- An upsert that looked at an alert before a user acknowledged it can open the alert again
  (`InterleavedPasses.DecisionSurvivesIff`, `InterleavedPasses.LateUpsertReopens`).
- Moving a subnet without naming a gateway can leave the old gateway outside
  (`Gateways.UpdatedGatewayInsideIff`, `Gateways.GatewayLeftOutside`).
- Deleting a connection changes a map without advancing its revision if the association was made after the delete
  had read the associations (`Topology.SilentChangeIff`, `Topology.DeleteOverlooksMap`).
- A bulk move of devices that already stand in the target rack can fail for a device although the plan has room
  for all (`BulkMove.AllPassIff`, `BulkMove.LaterDeviceInTheWay`).
- A rejected role request may have had its roles granted, exactly if an approval read it while the rejecting call
  held the claim and went on to its grant (`RoleRequests.RejectedGrantIff`, `RoleRequests.RejectedAfterGrant`).
- An empty prefix, as in "10.0.0.0/", is read as zero (`PolicyTexts.EmptyPrefix`, `PolicyTexts.TenSlash`).

Rack invariants are about a population: `placeDevice` plans over the rows that are not retired, while the
individual check and the import count every positioned row. `Inventory.Tidy` takes the population as a parameter.

## Model

| member | source | states |
|---|---|---|
| Ipv4.SignedValue | apps/api/src/ipam/ipam-advanced.service.ts:15 | the signed result of a bitwise operator lies in the signed 32-bit range and differs from the value by a multiple of 2^32 |
| Ipv4.SignedShiftBlock | apps/api/src/ipam/ipam-advanced.service.ts:15 | for every address and prefix 0 to 32 the signed 32-bit shift, mask and complement formulas give the aligned block: network v - v mod 2^(32-p), broadcast network + 2^(32-p) - 1, both below 2^32 |
| Ipv4.Octets | apps/api/src/ipam/ipam-advanced.service.ts:14 | the shifts and masks of the printer give four octets below 256 whose base-256 value is the address |
| Ipv4Text.Ipv4RoundTrip | apps/api/src/ipam/ipam-advanced.service.ts:13-14 | printing any 32-bit value gives strict dotted-quad text that reads back as the value |
| Ipv4.MaskTestIsRangeTest | apps/api/src/snmp/snmp.service.ts:364 | masking both addresses tests the same block as comparing with network and broadcast |
| Bits.NestedOrDisjoint | apps/api/src/ipam/ipam-advanced.service.ts:20 | two power-of-two blocks that share an address are nested (section 3.1 of RFC 4632), for blocks of any width |
| Ipv6Text.BestRunIsLeftmostLongest | apps/api/src/ipam/ipam-advanced.service.ts:18 | the run the printer elides is the leftmost among the longest runs of zero groups (section 4.2 of RFC 5952) |
| Ipv6Text.LeftmostLongestUnique | apps/api/src/ipam/ipam-advanced.service.ts:18 | the leftmost longest run is unique, so the scan has one right answer |
| Ipv6Text.FindRun | apps/api/src/ipam/ipam-advanced.service.ts:18 | the scanning loop over i, bestStart and bestLength ends with exactly that run, or with none |
| Ipv6Text.CompressIpv6 | apps/api/src/ipam/ipam-advanced.service.ts:18 | the printing method computes the specification that elides the run only when it is longer than one group |
| Ipv6Text.ExpandCompress | apps/api/src/ipam/ipam-advanced.service.ts:17-18 | for every address of eight hextets the compressed text is a valid address and expanding it gives back every group, padded to four digits |
| Ipv6Text.CompressedForm | apps/api/src/ipam/ipam-advanced.service.ts:18 | the compressed text of eight hextets has no leading zeros in a group and writes the leftmost longest run of two or more zero groups, and nothing else, as a double colon |
| Ipv6Cidr.PrintedBits | apps/api/src/ipam/ipam-advanced.service.ts:16 | printing any 128 bits as an address and reading its bits back is the identity |
| Ipv6Cidr.PrefixCompare | apps/api/src/ipam/ipam-advanced.service.ts:20 | two 128-bit texts agree on their first p bits exactly if their values have the same block start |
| Ipv6Cidr.NetworkTextIsBlockStart | apps/api/src/ipam/ipam-advanced.service.ts:16 | the IPv6 network text is a valid address, its value is the block start, and computing it again changes nothing |
| Cidr.AddressInCidrIsBlockTest | apps/api/src/ipam/ipam-advanced.service.ts:20 | the IPv4 range test and the IPv6 bit-prefix test both decide membership of the same arithmetic block, for every text |
| Cidr.CidrInfoShape | apps/api/src/ipam/ipam-advanced.service.ts:15-19 | which version, prefix range and network text an accepted CIDR has |
| Cidr.CidrTexts | apps/api/src/ipam/ipam-advanced.service.ts:15-17 | the address is the text before the first slash and the prefix the decimal digits after it; other prefix texts are no number |
| Cidr.CidrAcceptedIff | apps/api/src/ipam/ipam-advanced.service.ts:15-19 | a text is accepted exactly if it is an address of either version with a numeric prefix that fits it |
| Cidr.BlockBounds | apps/api/src/ipam/ipam-advanced.service.ts:15-16 | the network and broadcast of an accepted CIDR are the bounds of its arithmetic block |
| Cidr.NormalizedCidr | apps/api/src/ipam/ipam-advanced.service.ts:15-19 | the normalized text of a CIDR is a fixed point that splits into network address and prefix and describes the same block |
| DiscoveryPolicy.NetworkAtIsBlock | apps/api/src/discovery/discovery-policy.ts:46-48 | the BigInt mask built by exclusive-or gives the block start and end for both versions |
| DiscoveryPolicy.ParseNetworkIsCidrInfo | apps/api/src/discovery/discovery-policy.ts:40-50 | `parseNetwork` accepts the same texts as `cidrInfo` and describes the same block |
| SubnetRegistry.ClashIsSharing | apps/api/src/ipam/ipam-advanced.service.ts:64-66 | testing whether each network address lies in the other block decides whether the two subnets share any address, IPv4 or IPv6 |
| SubnetRegistry.CreateKeepsGood | apps/api/src/ipam/ipam-advanced.service.ts:51-79 | a creation keeps scopes disjoint and CIDR text and VLAN unique |
| SubnetRegistry.UpdateKeepsGood | apps/api/src/ipam/ipam-advanced.service.ts:80-98 | so does an update, whatever it changes |
| SubnetRegistry.CreationStores | apps/api/src/ipam/ipam-advanced.service.ts:51-79 | on every consistent store a creation is refused for the first that applies of: no CIDR, gateway outside its block, VLAN in use, text in use, an address shared with a subnet of the scope; otherwise exactly one row is added, with the site, VRF, VLAN and gateway of the request and the block of its text |
| SubnetRegistry.UpdateStores | apps/api/src/ipam/ipam-advanced.service.ts:80-98 | likewise an update: its reasons in their order, else every field that the request names is written, every other is kept, and every other row stays |
| SubnetRegistry.ImportStep | apps/api/src/ipam/ipam-advanced.service.ts:160 | each prefix of an import is an ordinary creation with the given placement and no gateway, in the order of the list |
| SubnetRegistry.ImportStores | apps/api/src/ipam/ipam-advanced.service.ts:160 | every row that an import adds has the text of a selected prefix and the given site, VRF and VLAN, and all earlier rows stay |
| SubnetRegistry.EveryRunStaysDisjoint | apps/api/src/ipam/ipam-advanced.service.ts:51-98 | over every run of create, update, delete and RIPE import, two stored subnets of one (site, VRF) share no address |
| SubnetRegistry.LateWriteIsGoodIff | apps/api/src/ipam/ipam-advanced.service.ts:64-97 | a creation or update whose checks saw an older store, written later: scopes stay disjoint exactly if the database refuses it (its text is stored, or the row is gone) or no other row of its scope clashes at that moment, and VLANs stay unique exactly if it is refused or no other row has its VLAN |
| SubnetRegistry.LateWriteStores | apps/api/src/ipam/ipam-advanced.service.ts:68-97 | a late write that the database does not refuse stores its row field by field; an update leaves an unnamed gateway as it then is |
| SubnetRegistry.RacingWrites | apps/api/src/ipam/ipam-advanced.service.ts:51-98 | two creations or updates, in any combination, that pass their checks on the same store, any store, leave it disjoint exactly if they are for the same row, their scopes differ, their normalized texts are equal (the second is refused) or their blocks do not clash |
| SubnetRegistry.RaceLeavesOverlap | apps/api/src/ipam/ipam-advanced.service.ts:51-79 | 10.0.0.0/24 and 10.0.0.0/16 racing on an empty store leave it overlapping |
| SubnetRegistry.MovesLeaveOverlap | apps/api/src/ipam/ipam-advanced.service.ts:80-98 | two stored subnets of different sites, both moved out of their sites at once, end up overlapping in one scope |
| SubnetRegistry.IpamService.CreateSubnet | apps/api/src/ipam/ipam-advanced.service.ts:51-79 | the stored rows and the answer follow the checks in their order; the invariant is kept |
| SubnetRegistry.IpamService.UpdateSubnet | apps/api/src/ipam/ipam-advanced.service.ts:80-98 | likewise for an update of one row |
| SubnetRegistry.IpamService.ImportRipe | apps/api/src/ipam/ipam-advanced.service.ts:156-165 | the loop creates or skips every prefix, reports each once, and keeps the invariant |
| Gateways.CreatedGatewayInside | apps/api/src/ipam/ipam-advanced.service.ts:54 | a created subnet contains its gateway |
| Gateways.UpdatedGatewayInsideIff | apps/api/src/ipam/ipam-advanced.service.ts:91-96 | after an update the stored gateway lies inside exactly if the request sets or clears it, there was none, or the old one lies in the block that the request asks for |
| Gateways.GatewayLeftOutside | apps/api/src/ipam/ipam-advanced.service.ts:91 | a concrete update after which the stored gateway lies outside the subnet |
| Sorting.SortedDistinct | apps/api/src/ipam/ipam-advanced.service.ts:26 | sorting distinct numbers gives a strictly increasing list of exactly the given numbers |
| FreeGaps.FindGaps | apps/api/src/ipam/ipam-advanced.service.ts:28-30 | the cursor loop yields gaps that are sorted, apart, maximal and exactly the range without the unavailable numbers, and whose counts add up to what is left |
| FreeGaps.CloseGap | apps/api/src/ipam/ipam-advanced.service.ts:29-30 | a stretch from the cursor to a later number is one more maximal gap |
| SubnetPlan.TakenValuesExact | apps/api/src/ipam/ipam-advanced.service.ts:26 | the unavailable addresses are exactly those of rows that are not FREE and lie in the usable range |
| SubnetPlan.HundredthsNearest | apps/api/src/ipam/ipam-advanced.service.ts:32 | the utilization is the percentage rounded to the nearest hundredth |
| SubnetPlan.PlanRange | apps/api/src/ipam/ipam-advanced.service.ts:26-32 | the printed plan of a usable range reads back as such gaps, with unavailable and free counts that add up to the total, the utilization, and the given network and broadcast |
| SubnetPlan.ReadableTexts | apps/api/src/ipam/ipam-advanced.service.ts:12-13 | addresses are read as four parts of decimal digits up to 255, of any length |
| SubnetPlan.CalculateIpv4SubnetPlan | apps/api/src/ipam/ipam-advanced.service.ts:22-33 | the plan succeeds exactly for readable input, prints network and broadcast of the block, and plans the block without its first and last address, or the whole block from prefix 31 on |
| SubnetPlan.PiecesTile | apps/api/src/ipam/ipam-advanced.service.ts:124-130 | consecutive pieces follow each other without gap or overlap, are numbered from one, and each is already normalized |
| SubnetPlan.SplitTiles | apps/api/src/ipam/ipam-advanced.service.ts:121-132 | a split has 2^(new prefix - prefix) pieces, at most 4096, that tile the parent block exactly and in order |
| SubnetPlan.SplitIff | apps/api/src/ipam/ipam-advanced.service.ts:121-133 | a split is refused exactly for text that is no CIDR, for IPv6 or a shorter prefix, and for more than 12 additional bits |
| SubnetPlan.InCidrIsAddressInCidr | apps/api/src/snmp/snmp.service.ts:364 | the SNMP membership test agrees with the IPAM one on well-formed text |
| SubnetPlan.MostSpecificIsBest | apps/api/src/snmp/snmp.service.ts:365-367 | the stable sort by prefix yields the earliest containing subnet of maximal prefix, and none only if none contains the address |
| SubnetPlan.MostSpecificIsInnermost | apps/api/src/snmp/snmp.service.ts:365-367 | that subnet lies inside every other subnet containing the address |
| Discovery.QuadTexts | apps/api/src/discovery/discovery-network.ts:11-24 | four dotted parts of one to three digits up to 255 are accepted, with leading zeros, which the strict IPv4 test refuses |
| Discovery.UsableRange | apps/api/src/discovery/discovery-network.ts:26-33 | the usable addresses of a block are all but the first and last, or all from prefix 31 on, and there is always one |
| Discovery.HostsAreUsable | apps/api/src/discovery/discovery-network.ts:11-40 | the host list is exactly the usable addresses in order |
| Discovery.HostsForIff | apps/api/src/discovery/discovery-network.ts:11-40 | the hosts can be listed exactly for a dotted quad with a prefix from 20 to 32 |
| Discovery.ConsecutiveDistinct | apps/api/src/discovery/discovery-network.ts:39 | no host occurs twice |
| Discovery.ProbeBatch | apps/api/src/discovery/discovery.worker.ts:53-58 | a batch yields one result per answering host and the two counters count its results |
| Discovery.GateIs | apps/api/src/discovery/discovery.worker.ts:43-51 | a job is refused for the first that applies of policy, IPv6, configuration and host list, and otherwise probes the hosts of its target |
| Discovery.ReachedExactly | apps/api/src/discovery/discovery.worker.ts:53-62 | the stored results are one entry for each host that answers a ping or accepts a connection on a listed port, in host order, with what each method of the job found |
| Discovery.CountersAre | apps/api/src/discovery/discovery.worker.ts:53-66 | the counters count the hosts that answered at all, a ping, and a connection |
| Discovery.DiscoveryRun.ProcessJob | apps/api/src/discovery/discovery.worker.ts:43-69 | batches of 32 probe every host once in order; stored results and counters follow, reachable plus unreachable equals scanned; nothing is probed when the gate refuses |
| Discovery.ProbedAddressesAreSafe | apps/api/src/discovery/discovery.worker.ts:45-51 | every probed address lies in the target, in one allowed block and in no forbidden block |
| PolicyTexts.ForbiddenTexts | apps/api/src/discovery/discovery-policy.ts:6-10 | parsing the listed forbidden texts of both versions gives exactly the blocks that targets are compared with |
| PolicyTexts.DefaultTexts | apps/api/src/discovery/discovery-policy.ts:3 | without a setting the allowlist is the parsed default list |
| PolicyTexts.EmptyPrefix | apps/api/src/ipam/ipam-advanced.service.ts:15 | a dotted quad followed by a slash and nothing else is read with prefix zero, as the whole address space |
| PolicyTexts.TenSlash | apps/api/src/ipam/ipam-advanced.service.ts:15 | in particular "10.0.0.0/" |
| DiscoveryPolicy.AcceptedTargetIsSafe | apps/api/src/discovery/discovery-policy.ts:60-70 | every address of an accepted target lies in no forbidden network and in one allowed network |
| DiscoveryPolicy.TargetIsDecided | apps/api/src/discovery/discovery-policy.ts:60-70 | in terms of blocks: no CIDR is invalid, an address in common with a special network is forbidden, an unreadable setting is invalid, and otherwise the target is accepted exactly if one entry of the setting, or of the default list, contains all of it |
| DiscoveryPolicy.SubBlockAccepted | apps/api/src/discovery/discovery-policy.ts:60-70 | every sub-block of an accepted target is accepted |
| RackPlacement.Displace | apps/api/src/infrastructure/rack-placement.ts:93-102 | the displacement loop succeeds exactly if all collided devices can move down by their own heights without meeting anything, whatever the order, and then reports them by start unit |
| RackPlacement.PlanRackPlacement | apps/api/src/infrastructure/rack-placement.ts:63-123 | the planner returns exactly the declaratively specified outcome: error, move, displacement or swap |
| RackPlacement.PlanIsSafe | apps/api/src/infrastructure/rack-placement.ts:63-123 | applied, every plan leaves all devices in bounds and apart whatever slot the moved device had, keeps ids and heights, touches only moved and collided devices, and puts the moved one on the requested unit, on unit 1 below it, or on the last unit that it fits on above it |
| RackPlacement.PlanRefuses | apps/api/src/infrastructure/rack-placement.ts:63-77 | an unknown target rack, then an unknown device, then a device taller than the rack is refused, and nothing else for these reasons |
| RackPlacement.PlanAnswers | apps/api/src/infrastructure/rack-placement.ts:78-123 | in terms of slots only: the device goes to the requested unit, or the nearest between unit 1 and the last that it fits on; nothing in the way is a plain move; otherwise all in the way move down by their own heights, reported by ascending unit, if there is room for all; otherwise the only one in the way takes the old slot if there is room; otherwise the matching refusal |
| RackPlacement.PlanMentions | apps/api/src/infrastructure/rack-placement.ts:63-123 | a plan names only listed devices and known racks, and always the moved device |
| RackPlacement.FindRackImportOverlaps | apps/api/src/infrastructure/rack-placement.ts:35-50 | the nested loops return, sorted and once each, exactly the numbers of rows that overlap another well-formed row of their rack |
| DevicePlacement.PlannerSees | apps/api/src/infrastructure/infrastructure.service.ts:249-266 | the planner is given exactly the positioned rows of its racks that are not retired, and the newcomer |
| DevicePlacement.StoredRow | apps/api/src/infrastructure/infrastructure.service.ts:286-289 | storing the changes gives each named row its planned slot and leaves every other row as it was |
| DevicePlacement.DropIsChecked | apps/api/src/infrastructure/infrastructure.service.ts:235-247 | a drop is planned exactly for a known device and rack of one site where a device from a rack has a position and stays in its room |
| DevicePlacement.DropStores | apps/api/src/infrastructure/infrastructure.service.ts:278-291 | row by row: the device stands, active and at the site of the rack, on the requested or nearest unit; the rows in the way have all moved down by their heights or the only one has the slot that was left; every other row is as it was |
| DevicePlacement.DropKeepsTidy | apps/api/src/infrastructure/infrastructure.service.ts:278-291 | after a drop all rows that are not retired and have a position lie in their racks and apart, with or without a recorded height of the dropped device; heights are kept and the device stands on the requested unit or the nearest that it fits on |
| DevicePlacement.PlacementService.PlaceDevice | apps/api/src/infrastructure/infrastructure.service.ts:235-301 | the transaction stores exactly the changes of the plan or nothing |
| Inventory.CheckedRowKeepsTidy | apps/api/src/infrastructure/infrastructure.service.ts:227 | a row that passed `validateRackPlacement`, or has no position, joins the others without overlap |
| Inventory.RequestIsChecked | apps/api/src/infrastructure/infrastructure.service.ts:227 | the placement check passes exactly without a rack, or with a position in a known rack of the requested site whose units are all free of other rows, and answers the first of these that fails |
| BulkMove.FindStart | apps/api/src/infrastructure/infrastructure.service.ts:208-210 | the start loop finds the lowest start with enough free units, or shows that there is none |
| BulkMove.OccupiedUnits | apps/api/src/infrastructure/infrastructure.service.ts:203-205 | the occupied set holds exactly the units of the unselected positioned devices of the rack |
| BulkMove.PlanUnits | apps/api/src/infrastructure/infrastructure.service.ts:203-213 | every planned start is the lowest that avoids unselected devices and earlier plans; planning fails exactly when a device finds no room |
| BulkMove.PlanIsFirstFit | apps/api/src/infrastructure/infrastructure.service.ts:203-215 | in terms of units: each planned start is the lowest unit at which the device, of its recorded height or one unit, fits beside the rows that are not selected and the earlier plans |
| BulkMove.FullMeansNoFit | apps/api/src/infrastructure/infrastructure.service.ts:213 | planning gives up only when some device fits nowhere beside those |
| BulkMove.PlanSeparates | apps/api/src/infrastructure/infrastructure.service.ts:203-213 | each planned slot lies in the rack and meets neither another planned slot nor an unselected device |
| BulkMove.RunKeepsTidy | apps/api/src/infrastructure/infrastructure.service.ts:215-219 | whichever individual updates fail, every intermediate and final state has all positions in bounds and apart |
| BulkMove.UpdateStores | apps/api/src/infrastructure/infrastructure.service.ts:213-218 | one update of the batch stores the asked rack and unit (none when the rack is cleared), the site of that rack or else the old one, the asked status or else the old one, and the old height, exactly if nothing outside rejects it, the placement check passes and there is a site |
| BulkMove.StepPassesIff | apps/api/src/infrastructure/infrastructure.service.ts:215-219 | an update passes its placement check exactly if nothing outside rejects it, the device is movable, and no selected device not moved yet stands in the way |
| BulkMove.AllPassIff | apps/api/src/infrastructure/infrastructure.service.ts:215-219 | without outside failures all updates pass exactly if all devices are movable and no later one stands in the slot of an earlier one |
| BulkMove.NewcomersPass | apps/api/src/infrastructure/infrastructure.service.ts:215-219 | if no selected device is in the target rack yet, none fails its placement check |
| BulkMove.LaterDeviceInTheWay | apps/api/src/infrastructure/infrastructure.service.ts:215-219 | a concrete move inside one rack whose first update fails |
| BulkMove.ReportIsExact | apps/api/src/infrastructure/bulk-update.ts:15-34 | every device is reported once, as updated exactly if its row was stored; lost audit entries are reported on top of updated devices |
| BulkMove.ReportFollowsOrder | apps/api/src/infrastructure/bulk-update.ts:15-33 | the updated, failed and unaudited devices are listed in the order of the selection |
| BulkMove.FailuresHaveReasons | apps/api/src/infrastructure/bulk-update.ts:22-30 | each failure carries the reason of its own update and each lost audit entry its message |
| BulkMove.DeviceTable.UpdateIndividually | apps/api/src/infrastructure/bulk-update.ts:15-34 | the loop goes on after failures and ends in the state and outcome record of the specification |
| BulkMove.DeviceTable.BulkUpdate | apps/api/src/infrastructure/infrastructure.service.ts:188-224 | selection errors and a full rack change nothing; otherwise a first-fit plan is applied device by device |
| DeviceImport.RowsApart | apps/api/src/infrastructure/infrastructure.service.ts:166-167 | rows outside the batch conflicts do not overlap each other |
| DeviceImport.ImportKeepsTidy | apps/api/src/infrastructure/infrastructure.service.ts:170-187 | if no row of the preview is invalid, every insertion of the batch keeps racks in bounds and free of overlaps |
| DeviceImport.ImportStores | apps/api/src/infrastructure/infrastructure.service.ts:173-181 | after n insertions exactly those rows are new, each with the site, rack, unit, height and retirement of its line, and all others are as they were |
| DeviceImport.ImportedAreUnique | apps/api/src/infrastructure/infrastructure.service.ts:154-158 | after an import no device of the site shares a serial number, asset tag or management address that the import brought in |
| DeviceImport.SharedKeyIff | apps/api/src/infrastructure/infrastructure.service.ts:154 | two rows share one of the prefixed keys exactly if they agree, but for case, on serial number, asset tag or management address |
| DeviceImport.ValidIff | apps/api/src/infrastructure/infrastructure.service.ts:145-167 | a line is valid exactly if its texts, type, status, cells, model and rack are acceptable for the user, no stored device of the site has one of its texts, no earlier line looks like it, and it shares no unit with another line |
| DeviceImport.ImportService.Preview | apps/api/src/infrastructure/infrastructure.service.ts:136-169 | a row is valid exactly if its name, type, status and units are acceptable, the user may import that type, its model can be used, no stored device of the site has its serial number, tag or address, its rack is open to the user and has room, no earlier row of the file agrees on one of those texts, and it overlaps no other row |
| DeviceImport.ImportService.Import | apps/api/src/infrastructure/infrastructure.service.ts:170-187 | the batch is stored as a whole exactly if every row is valid, and nothing otherwise |
| Alerts.ReportedKey | apps/api/src/operations/operations.service.ts:217-223 | the loop over candidates, key by key and with repeated keys: a live alert keeps source, site and status, any other is opened by the first candidate, and the last one gives severity and text |
| Alerts.PassPerKey | apps/api/src/operations/operations.service.ts:217-231 | the effect of a whole pass on every key |
| Alerts.ReportedCarries | apps/api/src/operations/operations.service.ts:198-223 | field by field after any pass: a reported alert that was not stored is open with count 1, both dates now and the source, site and entity of its first candidate; a resolved one likewise but with one more occurrence and its first date; a live one keeps all of these and its decision; severity and text are those of the last candidate |
| Alerts.UnreportedCarries | apps/api/src/operations/operations.service.ts:224-227 | an unreported alert is resolved, with nothing else changed, exactly if the pass resolves, the alert is live and it is of the source and site of the pass |
| Alerts.PassIsExact | apps/api/src/operations/operations.service.ts:217-231 | an unscoped resolving pass leaves live exactly the reported keys of its source and touches no other source |
| Alerts.ScopedPass | apps/api/src/operations/operations.service.ts:224 | a pass of one site resolves an unreported alert exactly if it is recorded for that site |
| Alerts.ReportedStaysLive | apps/api/src/operations/operations.service.ts:217-231 | no pass resolves a key that it was given |
| Alerts.RepeatedPass | apps/api/src/operations/operations.service.ts:217-231 | repeating a pass changes only timestamps |
| Alerts.EveryRunKeeps | apps/api/src/operations/operations.service.ts:198-269 | over every run open and acknowledged alerts have no snooze date, snoozed ones have one, resolved ones have a resolution date |
| Alerts.DecisionStores | apps/api/src/operations/operations.service.ts:233-269 | expiry, acknowledgement, snooze and resolution write status and dates of their alert as asked, the requested date included, and nothing else |
| Alerts.OccurrencesAreReopenings | apps/api/src/operations/operations.service.ts:198-223 | over every run the occurrence count rises by exactly one per reopening by a pass |
| Alerts.StepKeepsDecisionIff | apps/api/src/operations/operations.service.ts:217-239 | a pass, of any source and scope, or an expiry step keeps an acknowledged or snoozed alert exactly if the pass reports it, resolves nothing, or is of another source or site, or the snooze has not ended |
| Alerts.DecisionSurvives | apps/api/src/operations/operations.service.ts:217-269 | over every run with passes of all sources and sites, an acknowledged or unexpired snoozed alert keeps status, dates and count while the passes of its own source and site report it and users decide on other keys |
| Alerts.NoExpiredSnooze | apps/api/src/operations/operations.service.ts:233-239 | after the expiry step no expired snooze is left and nothing else changed |
| Alerts.OperationsService.ReportCandidates | apps/api/src/operations/operations.service.ts:219-223 | the loop reports the candidates one after the other |
| Alerts.OperationsService.ReconcileSource | apps/api/src/operations/operations.service.ts:217-231 | the method computes the pass |
| Alerts.OperationsService.SnoozeAlert | apps/api/src/operations/operations.service.ts:256-262 | refuses unknown alerts and dates that are not in the future, and otherwise snoozes whatever the status |
| Findings.DetectedKeys | apps/api/src/inventory-quality/inventory-quality.service.ts:189-197 | after the candidate loop every detected finding is live and in no expired snooze, and no other changed |
| Findings.DetectedCarries | apps/api/src/inventory-quality/inventory-quality.service.ts:189-197 | a detected finding carries site, severity and text of its last candidate, one occurrence more per detection, its first date, and is open without dates if it was new, resolved or in an expired snooze, else as decided |
| Findings.UndetectedCarries | apps/api/src/inventory-quality/inventory-quality.service.ts:203-205 | an undetected finding is resolved, losing its snooze date, exactly if it is unresolved and of the site of the pass |
| Findings.AlertsAreSerious | apps/api/src/inventory-quality/inventory-quality.service.ts:198-201 | the alert candidates are exactly those of the CRITICAL and HIGH conditions, with their severity, site and text |
| Findings.PassIsExact | apps/api/src/inventory-quality/inventory-quality.service.ts:185-207 | after an unscoped pass the unresolved findings are exactly the detected keys, none in an expired snooze, and the live quality alerts are exactly the prefixed keys of CRITICAL and HIGH candidates |
| Findings.ScopedPass | apps/api/src/inventory-quality/inventory-quality.service.ts:203-205 | a pass of one site resolves a vanished finding exactly if it was live and recorded for that site |
| Findings.EveryRunKeeps | apps/api/src/inventory-quality/inventory-quality.service.ts:154-207 | over every run exactly the snoozed findings have a snooze date and resolved ones have a resolution date |
| Findings.DecisionStores | apps/api/src/inventory-quality/inventory-quality.service.ts:154-178 | acknowledgement and snooze write status and dates of their finding as asked, and nothing else |
| Findings.StepKeepsDecisionIff | apps/api/src/inventory-quality/inventory-quality.service.ts:189-205 | a pass keeps a decision on a finding exactly if it detects it before its snooze ends, or does not detect it and is about another site |
| Findings.DecisionSurvives | apps/api/src/inventory-quality/inventory-quality.service.ts:154-207 | over every run of passes of all sites and user decisions, a decision survives while every operation, as it finds the row, is such a pass or a decision on another key |
| Findings.InventoryQualityService.ReconcileSite | apps/api/src/inventory-quality/inventory-quality.service.ts:185-207 | the method with its loop computes the pass on findings and on alerts |
| Reconciler.CompleteMeansAll | apps/api/src/operations/operations-reconciler.service.ts:24-39 | if no query returned more than 100 records, the candidates of a source are exactly the matching keys |
| Reconciler.GivenIsSystem | apps/api/src/operations/operations-reconciler.service.ts:30-31 | the system source reports one critical alert exactly while Redis is down |
| Reconciler.GivenIsDiscovery | apps/api/src/operations/operations-reconciler.service.ts:32-35 | the discovery source reports the first 100 failed jobs as warnings and then the first 100 to review as information, with their keys, sites and texts, and resolves exactly if neither query found more than 100 |
| Reconciler.GivenIsSnmp | apps/api/src/operations/operations-reconciler.service.ts:36-38 | so do polls (warnings), traps (critical, high or warning, keyed by their deduplication key if any) and drifts (high) |
| Reconciler.PrefixOwner | apps/api/src/operations/operations-reconciler.service.ts:31-39 | the key prefixes tell the sources apart |
| Reconciler.NoFalseResolution | apps/api/src/operations/operations-reconciler.service.ts:20-39 | however many records match and wherever the tick breaks off, between passes or between the candidates of one, an alert whose condition matches its query is not resolved |
| Reconciler.TickIsExact | apps/api/src/operations/operations-reconciler.service.ts:20-39 | after a whole tick every source whose queries were not cut off has exactly its matching keys live |
| Reconciler.WholeTickIsExact | apps/api/src/operations/operations-reconciler.service.ts:20-38 | every one of the five sources has its pass in a whole tick |
| Reconciler.TickEndsSnooze | apps/api/src/operations/operations-reconciler.service.ts:20 | however far a tick gets, an expired snooze is over after it |
| Reconciler.OwnersInEveryRun | apps/api/src/operations/operations-reconciler.service.ts:20-39 | in every reachable table each key belongs to the source of its prefix, so the exactness results always apply |
| Reconciler.QualityPassExactInEveryRun | apps/api/src/inventory-quality/inventory-quality.service.ts:198-202 | in every reachable table an unscoped quality pass leaves live exactly the alerts of the serious conditions |
| Reconciler.DecisionSurvives | apps/api/src/operations/operations-reconciler.service.ts:16-41 | over every history of ticks broken off anywhere, quality passes and user decisions, an acknowledged or unexpired snoozed alert keeps status, dates and count while its condition lasts and users decide on other keys |
| Reconciler.OperationsReconciler.Reconcile | apps/api/src/operations/operations-reconciler.service.ts:16-41 | a second call while one runs changes nothing; otherwise the tick is carried out up to the pass and the candidate that the database lets it reach, and the flag is cleared |
| InterleavedPasses.PassStepKeeps | apps/api/src/operations/operations.service.ts:217-231 | no single database call of a pass resolves a key that the pass reports, and what its stale query found stays unreported keys of its source |
| InterleavedPasses.CallWrites | apps/api/src/operations/operations.service.ts:198-227 | field by field, what each database call of a pass leaves of every alert: refresh, upsert with or without reopening, and the resolution of what was found |
| InterleavedPasses.CallOrder | apps/api/src/operations/operations.service.ts:217-227 | which call comes next and what it looked up |
| InterleavedPasses.ReportedSurvives | apps/api/src/operations/operations.service.ts:217-231 | under any interleaving of the database calls of any number of passes with user decisions and expiry, an alert stays live while every pass of its source reports it or leaves missing ones alone and no user resolves it |
| InterleavedPasses.NoFalseResolution | apps/api/src/operations/operations-reconciler.service.ts:20-39 | call by call, no interleaving of ticks and quality passes, broken off anywhere, resolves an alert whose condition keeps matching |
| InterleavedPasses.CallKeepsDecisionIff | apps/api/src/operations/operations.service.ts:198-231 | one database call keeps a decided alert exactly if it is not the write of an upsert for it or the resolution of a stale list with it; a reopening upsert or a resolution loses the decision, any upsert counts one more |
| InterleavedPasses.DecisionSurvivesIff | apps/api/src/operations/operations.service.ts:198-239 | over every interleaving of calls in which the passes of its source and site report the alert, its snooze lasts and users decide on other keys: decision, dates and count survive exactly if no pass or expiry step that had looked before the decision makes its write afterwards |
| InterleavedPasses.UnwatchedDecisionSurvives | apps/api/src/operations/operations.service.ts:198-239 | if no pass and no expiry step is between such a look and its write when the user decides, the decision survives whatever follows |
| InterleavedPasses.MatchingDecisionSurvives | apps/api/src/operations/operations-reconciler.service.ts:20-39 | with no call under way at first, any number of concurrent ticks and quality passes keep a decision call by call while its condition matches |
| InterleavedPasses.LateUpsertReopens | apps/api/src/operations/operations.service.ts:198-212 | a concrete interleaving: an upsert that looked before an acknowledgement opens the alert again |
| InterleavedPasses.UndisturbedPass | apps/api/src/operations/operations.service.ts:217-231 | without interference the calls of a pass add up to the one-step pass of the exactness results |
| InterleavedPasses.ExpiryCalls | apps/api/src/operations/operations.service.ts:233-239 | the look of an expiry step finds exactly the expired snoozes, and its write opens exactly what that look found, once |
| InterleavedPasses.UndisturbedExpiry | apps/api/src/operations/operations.service.ts:233-239 | so do the two calls of an expiry step |
| RoleRequests.EveryRunKeeps | apps/api/src/settings/role-request.service.ts:27-70 | under any interleaving of any number of deciding administrators and crashes: one notification with the verdict exactly if terminal, approved only after the grant, one open request per user, one claim per request |
| RoleRequests.StatusOnlyAdvances | apps/api/src/settings/role-request.service.ts:45-70 | a request only moves from PENDING over PROCESSING to one terminal status that never changes |
| RoleRequests.AnotherApprovalCompletes | apps/api/src/settings/role-request.service.ts:49-59 | a request left in PROCESSING is completed by any further approval |
| RoleRequests.GranterReadDuringRejection | apps/api/src/settings/role-request.service.ts:45-61 | over every run, a call that asks for the roles of a request that ends rejected has read the request between the claim and the refusal of the rejecting call |
| RoleRequests.RejectedGrantIff | apps/api/src/settings/role-request.service.ts:45-61 | the roles of a request that ends rejected were asked for exactly if an approval read it while the rejecting call held the claim and went on to its grant |
| RoleRequests.QuietRejectionGrantsNothing | apps/api/src/settings/role-request.service.ts:45-61 | if no approval reads in that time, the request leads to no grant, not even a late one |
| RoleRequests.HeldWasGranted | apps/api/src/settings/role-request.service.ts:57 | every role that a user holds came from a grant step for a request of that user naming it |
| RoleRequests.RejectedAfterGrant | apps/api/src/settings/role-request.service.ts:45-61 | a concrete run that ends rejected although its roles were granted |
| RoleRequests.DecisionStores | apps/api/src/settings/role-request.service.ts:45-70 | an undisturbed decision on a pending request, or an approval of one in processing, sets the verdict, sends one notification of it to the user and grants the roles exactly if it approves; any other changes nothing |
| RoleRequests.RoleRequestService.SubmitRequest | apps/api/src/settings/role-request.service.ts:27-43 | a request is created exactly if its roles are among the three eligible ones and not held and every earlier request of the user is approved or rejected |
| RoleRequests.RoleRequestService.Decide | apps/api/src/settings/role-request.service.ts:45-61 | an undisturbed decision succeeds exactly on a pending request, or as an approval on one in processing |
| TrapLimiter.SizeBounded | apps/snmp/src/traps.ts:217-229 | in every run the map stays within the source limit |
| TrapLimiter.EvictionIsInvisible | apps/snmp/src/traps.ts:217-229 | every verdict equals that of an unbounded limiter fed the same traps without those refused for capacity |
| TrapLimiter.RefusedOnlyWhenFull | apps/snmp/src/traps.ts:221-224 | a trap is refused for capacity exactly if its source is new and as many others as the limit have running windows |
| TrapLimiter.AcceptedUpToLimit | apps/snmp/src/traps.ts:227-228 | within the minute that the latest first trap of a source began, exactly the traps up to the rate limit are accepted, counted from that one |
| TrapLimiter.AcceptedWhileRoom | apps/snmp/src/traps.ts:220-226 | a trap of a source without a running minute is never refused for the rate, and is accepted while fewer sources than the limit have one |
| TrapLimiter.RateBound | apps/snmp/src/traps.ts:217-229 | no source gets more than twice the rate limit, at least one, accepted in any closed interval of 60 seconds |
| TrapLimiter.TrapReceiver.Allowed | apps/snmp/src/traps.ts:217-229 | the method on the map field computes verdict and map |
| TrapLimiter.TrapReceiver.DropStale | apps/snmp/src/traps.ts:222 | the clean-up loop removes exactly the stale entries |
| DeviceLock.EveryRunKeeps | apps/snmp/src/locks.ts:7-14 | in every run a call inside its TTL owns the key, and holders follow each other in order |
| DeviceLock.OverlapOnlyAfterTtl | apps/snmp/src/locks.ts:7-14 | two holders overlap in time only if the earlier one had outlived its TTL |
| DeviceLock.HolderExcludesOthers | apps/snmp/src/locks.ts:10-13 | in terms of the events: once an acquisition for a time has succeeded, the key holds its token and every other acquisition is refused until that time has passed or the action has ended |
| DeviceLock.RefusedIff | apps/snmp/src/locks.ts:10 | an acquisition is refused exactly if an earlier one succeeded, its own requested time has not passed, and it has not been released after its action ended |
| DeviceLock.RecordedAsRequested | apps/snmp/src/locks.ts:10-13 | holders are recorded with the time of their acquisition, the time they asked for, and the time of their own end |
| DeviceLock.LockIsKept | apps/snmp/src/locks.ts:7-14 | a call that holds the lock keeps it until its own action ends or its TTL runs out, whatever other acquisitions, ends and releases happen, early or late |
| DeviceLock.LateReleaseIsHarmless | apps/snmp/src/locks.ts:12 | a release never frees the lock of another call, however long after its action it reaches the server |
| DeviceLock.BusyMeansOwned | apps/snmp/src/locks.ts:11 | the device is busy only while some call that got the lock is inside its TTL |
| DeviceLock.DeviceLocks.EndAction | apps/snmp/src/locks.ts:11 | the end of the action is recorded and leaves the key alone |
| DeviceLock.DeviceLocks.CompareAndDelete | apps/snmp/src/locks.ts:12 | the script, when it reaches the server, deletes the key exactly if it still holds the token |
| Topology.OneEndPerInterface | apps/api/src/topology/topology.service.ts:37-58 | in every reachable state each interface is used by at most one connection end |
| Topology.UpdateKeeps | apps/api/src/topology/topology.service.ts:232-262 | an update stays exclusive although its check may look at a stale interface |
| TopologyWrites.CreateMapStores | apps/api/src/topology/topology.service.ts:127-132 | a new map is empty, at revision 0, with an id never used before |
| TopologyWrites.UpdateMapStores | apps/api/src/topology/topology.service.ts:133-141 | exactly on the expected revision the details are written and the revision advances; nodes, associations and other maps stay |
| TopologyWrites.RemoveMapStores | apps/api/src/topology/topology.service.ts:142-149 | exactly on the expected revision the map goes, and nothing else |
| TopologyWrites.ReplaceNodesStores | apps/api/src/topology/topology.service.ts:150-163 | likewise for the nodes |
| TopologyWrites.CreateConnectionStores | apps/api/src/topology/topology.service.ts:164-179 | exactly for two devices at own, unused interfaces and on the expected revision, the connection is stored and associated with the map |
| TopologyWrites.RemoveConnectionStores | apps/api/src/topology/topology.service.ts:180-194 | exactly for an association of the map on the expected revision, that association goes and no other; the connection goes with its last one |
| TopologyWrites.AssociateStores | apps/api/src/topology/topology.service.ts:195-208 | exactly for a stored connection that the map does not have yet, on the expected revision |
| TopologyWrites.CreateStandaloneStores | apps/api/src/topology/topology.service.ts:221-231 | exactly for two devices at own, unused interfaces, one connection is stored |
| TopologyWrites.UpdateStandaloneStores | apps/api/src/topology/topology.service.ts:232-262 | exactly for own interfaces at the changed ends, unused ones at both ends and every association at the revision read for it, the named ends change and each association advances its map |
| TopologyWrites.DeleteStandaloneStores | apps/api/src/topology/topology.service.ts:263-275 | exactly for a stored connection and existing maps, the connection and all its associations go and each association that was read advances its map |
| TopologyWrites.EveryLinkIsStored | apps/api/src/topology/topology.service.ts:164-275 | in every reachable state each association of each map names a stored connection |
| TopologyWrites.RemovalKeepsLinked | apps/api/src/topology/topology.service.ts:180-194 | in every reachable state, after a removal the connection is stored exactly if some map still has it, and every other connection and association stays |
| Topology.SilentChangeIff | apps/api/src/topology/topology.service.ts:133-275 | a committed change of nodes, details or associations of a surviving map comes with a higher revision, except exactly when a standalone delete did not read the association of its connection with the map |
| Topology.OneChangePerRevision | apps/api/src/topology/topology.service.ts:133-275 | over every run, at most one content change per revision of a map, apart from such an overlooking delete |
| Topology.DeleteOverlooksMap | apps/api/src/topology/topology.service.ts:263-275 | a concrete run in which a delete changes a map without advancing it |
| Topology.OneWriterPerRevision | apps/api/src/topology/topology.service.ts:33-36 | of all clients that read one revision of a map, those that update a standalone connection or remove the map included, at most one commits its guarded write, over every interleaving: a later one had read a later revision |
| Topology.RevisionCountsWrites | apps/api/src/topology/topology.service.ts:133-275 | the revision of a map is the number of committed operations that wrote it, counted by kind of operation: updates, node, connection and association writes, and standalone writes that had read the association |
| Topology.AssociationGuards | apps/api/src/topology/topology.service.ts:253-257 | a standalone update that commits found each association at the revision read for it, and moves it past |
| Topology.GuardedWrite | apps/api/src/topology/topology.service.ts:133-262 | a guarded operation commits only on the revision its client expected, and the map is then gone or past that revision; otherwise nothing changes |
| Topology.TopologyService.CreateMapConnection | apps/api/src/topology/topology.service.ts:164-179 | port check, revision check and both inserts succeed together or not at all |
| Topology.TopologyService.RemoveMapConnection | apps/api/src/topology/topology.service.ts:180-194 | the association goes, and the connection with its last association |
| Topology.TopologyService.UpdateStandaloneConnection | apps/api/src/topology/topology.service.ts:232-262 | the loop over the associations that were read advances all of them or rolls back |
| Topology.TopologyService.DeleteStandaloneConnection | apps/api/src/topology/topology.service.ts:263-275 | the loop over the associations that were read advances them whatever their revision |
| Access.VisibleRoomIffReadable | apps/api/src/infrastructure/infrastructure-access.service.ts:90-105 | a room is in `visibleRoomIds` exactly if it is in scope and `assertRoom` READ succeeds |
| Access.VisibleBuildingIffReadable | apps/api/src/infrastructure/infrastructure-access.service.ts:106-113 | a building is in `visibleBuildingIds` exactly if it stands on the site and `assertBuilding` READ succeeds |
| Access.ReadRoomIff | apps/api/src/infrastructure/infrastructure-access.service.ts:67-74 | what READ on a room means |
| Access.ReadableRoomOpensParents | apps/api/src/infrastructure/infrastructure-access.service.ts:44-66 | READ on a room implies READ on its building and site |
| Access.WriteImpliesReadRoom | apps/api/src/infrastructure/infrastructure-access.service.ts:67-74 | an allowed write implies READ, and a refusal says "forbidden" exactly if the room can be read |
| Access.WriteImpliesReadBuilding | apps/api/src/infrastructure/infrastructure-access.service.ts:53-66 | the same for buildings |
| Access.WriteImpliesReadSite | apps/api/src/infrastructure/infrastructure-access.service.ts:44-52 | the same for sites |
| Access.NearestScopeDecides | apps/api/src/infrastructure/infrastructure-access.service.ts:29-39 | room rules override building rules, which override site rules |
| Access.ReadersHaveRoles | apps/api/src/access/access-policy.service.ts:11-18 | the two role predicates agree |
| Access.RoleImpliesRead | apps/api/src/access/access-policy.service.ts:20-28 | a role that may write may read |
| Access.RoomIsDecided | apps/api/src/infrastructure/infrastructure-access.service.ts:67-74 | in terms of roles, rules and groups: a room that no rule of the nearest scope opens to a group of a reading user is not found; any action but READ also needs a role that may write that kind of equipment and a rule with exactly that permission, or is forbidden |
| Access.BuildingIsDecided | apps/api/src/infrastructure/infrastructure-access.service.ts:53-66 | the same for buildings, which are also readable through their rooms |
| Access.SiteIsDecided | apps/api/src/infrastructure/infrastructure-access.service.ts:44-52 | the same for sites, also readable through their buildings |
| Access.AuditorsNeverWrite | apps/api/src/access/access-policy.service.ts:20-28 | auditors and read-only users can do nothing but read, whatever the rules |
| AnsibleNames.Allocate | apps/api/src/settings/exports.service.ts:51-59 | the naming loop ends for every input with the first candidate that is not used |
| AnsibleNames.HostNamesAre | apps/api/src/settings/exports.service.ts:49-59 | a host is called after the host name, else the name, else the id of its device; if that is used, up to eight characters of the id follow, and then the first free number from 2 on |
| AnsibleNames.GroupsAre | apps/api/src/settings/exports.service.ts:60-61 | the group of a host is named after its device type, or "other" |
| AnsibleNames.CandidatesDiffer | apps/api/src/settings/exports.service.ts:54-57 | numbered candidates are pairwise different |
| AnsibleNames.AnsibleInventory | apps/api/src/settings/exports.service.ts:43-77 | host names are pairwise distinct and first free, every named row keeps its variables, and the groups partition the hosts |

## Left out

- User interface, controllers, authentication, Swagger, storage, network probes, Redis and queue internals, audit
  logging, events and notification texts: plumbing, or results that appear here as parameters.
- Text normalization: leading and trailing blanks are taken as trimmed, and `slug` is an arbitrary function.
- Floating-point error in the utilization percentage: it is rounded exactly.
- Other spellings that `Number` accepts in prefixes and octets (signs, exponents, hexadecimal, blanks): the model
  reads plain decimal digits and the empty text.
- IPv6 text with dotted-quad tails or zone identifiers: `expandIpv6` does not read the former, and stored addresses
  have neither.
- The calculator's summary, contains and overlap answers, subnet usage and the IPv6 totals: they follow from the block.
- The printed first and last addresses of the pieces of a split are kept as numbers; only the CIDR text is text.
- `parseCidr` and `assertAddressInSubnet` of apps/api/src/ipam/ipam.service.ts, whose containment test misses an
  unsigned conversion.
- RIPE queries and the selection of previewed prefixes: the import starts from the list of selected prefixes.
- Interleaving of other requests inside one pass of `reconcileSite`, inside one bulk update or between preview and
  insertion of an import: each is modelled as undisturbed. Inside a pass of `reconcileSource` it is modelled, for what
  a pass must not resolve and for the decisions it must not undo; the exactness of a pass holds when nothing
  interferes. The races of subnet writes, role requests, trap limits, locks and topology commits are modelled.
- One reading of the clock serves a whole pass; the code reads it at every write.
- The conditions that `detect` and the reconciler's queries look for are abstract lists of candidates and records.
- Deletion of old resolved alerts and findings by audit retention.
- Scoped quality passes as an exactness claim: a live alert keeps its recorded site, so `Alerts.ScopedPass` and
  `Findings.ScopedPass` state what such a pass resolves instead.
- A dropped device without a recorded height is planned as one unit, which is not written back: its row then has no
  complete position and does not count in `Inventory.Tidy`.
- Rack units and revisions are integers by type, so the code's refusal of fractional units has no counterpart.
- Heights below one unit, which no form accepts for placement, are not represented.
- DevicePlacement.PlacementService.PlaceDevice: takes the order in which the database lists rows as a parameter and puts
  the device's own rack before the target.
- DeviceImport.ImportService.Preview: which models can be used, which racks are open to the user (module `Access`) and
  the lower-case form of a text are parameters.
- Topology.GuardedWrite: labels of connections, the authorization before a transaction and the check, outside the
  transaction, that the ends of a connection are nodes of the map are dropped.
- RoleRequests.AnotherApprovalCompletes: assumes that Keycloak answers; roles are never taken away in the model.
- AnsibleNames.AnsibleInventory: the final sorting of hosts and groups and the list of variables per host are dropped.
- Access rules for subnets, VLANs and NAT, the listing of unplaced sites, and permission editing: they repeat the same
  pattern.
