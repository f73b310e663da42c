/** The stored subnets: create, update, delete and RIPE import, and the rule that keeps them disjoint. */
module SubnetRegistry {
  import opened Wrappers
  import opened Bits
  import opened Ipv4
  import opened Ipv4Text
  import opened Cidr

  datatype Row = Row(cidr: string, site: Option<string>, vrf: Option<string>, vlan: Option<string>,
      gateway: Option<string>)

  type Rows = map<nat, Row>

  /** A new subnet as requested; `cidr` need not be normalized. */
  type CreateDto = Row

  /** None leaves a field as it is; Some(None) clears it. */
  datatype UpdateDto = UpdateDto(cidr: Option<string>, site: Option<Option<string>>, vrf: Option<Option<string>>,
                                 vlan: Option<Option<string>>, gateway: Option<Option<string>>)

  datatype Error = InvalidCidr | GatewayOutside | VlanTaken | DuplicateCidr | Overlapping | NotFound

  predicate SameScope(a: Row, b: Row) {
    a.site == b.site && a.vrf == b.vrf
  }

  /** The service compares only network addresses: each block's start against the other block. */
  predicate Clash(cidr: string, stored: string)
    requires CidrInfo(cidr).Some? && CidrInfo(stored).Some?
  {
    AddressInCidr(NetworkAddress(cidr), stored) || AddressInCidr(AddressOf(stored), cidr)
  }

  ghost predicate ShareAddress(a: string, b: string)
    requires CidrInfo(a).Some? && CidrInfo(b).Some?
  {
    exists address: string :: AddressInCidr(address, a) && AddressInCidr(address, b)
  }

  predicate Normalized(cidr: string) {
    CidrInfo(cidr).Some? && CidrInfo(cidr).value.cidr == cidr
  }

  predicate AllNormalized(rows: Rows) {
    forall id :: id in rows ==> Normalized(rows[id].cidr)
  }

  /** No address belongs to two stored subnets of one (site, VRF). */
  ghost predicate Disjoint(rows: Rows) {
    && AllNormalized(rows)
    && forall i, j :: i in rows && j in rows && i != j && SameScope(rows[i], rows[j])
         ==> !ShareAddress(rows[i].cidr, rows[j].cidr)
  }

  ghost predicate UniqueKeys(rows: Rows) {
    forall i, j :: i in rows && j in rows && i != j ==>
      && rows[i].cidr != rows[j].cidr
      && (rows[i].vlan.Some? ==> rows[i].vlan != rows[j].vlan)
  }

  // ---- the operations

  predicate VlanUsed(rows: Rows, vlan: Option<string>, except: Option<nat>) {
    vlan.Some? && exists id :: id in rows && Some(id) != except && rows[id].vlan == vlan
  }

  predicate Overlaps(rows: Rows, row: Row, cidr: string, except: Option<nat>)
    requires AllNormalized(rows) && CidrInfo(cidr).Some?
  {
    exists id :: id in rows && Some(id) != except && SameScope(rows[id], row) && Clash(cidr, rows[id].cidr)
  }

  predicate GatewayOk(gateway: Option<string>, cidr: string)
    requires CidrInfo(cidr).Some?
  {
    gateway.Some? ==> AddressInCidr(gateway.value, cidr)
  }

  /** The checks of `createSubnet`, in their order; the row to insert if all pass. */
  function CheckCreate(rows: Rows, dto: CreateDto): (r: Result<Row, Error>)
    requires AllNormalized(rows)
    ensures r.Ok? ==> Normalized(r.value.cidr)
  {
    if CidrInfo(dto.cidr).None? then Err(InvalidCidr)
    else
      var cidr := CidrInfo(dto.cidr).value.cidr;
      NormalizedCidr(dto.cidr);
      if !GatewayOk(dto.gateway, cidr) then Err(GatewayOutside)
      else if VlanUsed(rows, dto.vlan, None) then Err(VlanTaken)
      else if exists id :: id in rows && rows[id].cidr == cidr then Err(DuplicateCidr)
      else if Overlaps(rows, dto, cidr, None) then Err(Overlapping)
      else Ok(dto.(cidr := cidr))
  }

  /** The row `updateSubnet` would store, before its checks. */
  function Placed(current: Row, dto: UpdateDto): Row {
    Row(if dto.cidr.Some? then dto.cidr.value else current.cidr,
        if dto.site.Some? then dto.site.value else current.site,
        if dto.vrf.Some? then dto.vrf.value else current.vrf,
        if dto.vlan.Some? then dto.vlan.value else current.vlan,
        if dto.gateway.Some? then dto.gateway.value else current.gateway)
  }

  function CheckUpdate(rows: Rows, id: nat, dto: UpdateDto): (r: Result<Row, Error>)
    requires AllNormalized(rows)
    ensures r.Ok? ==> Normalized(r.value.cidr)
  {
    if id !in rows then Err(NotFound)
    else
      var next := Placed(rows[id], dto);
      if CidrInfo(next.cidr).None? then Err(InvalidCidr)
      else
        var cidr := CidrInfo(next.cidr).value.cidr;
        NormalizedCidr(next.cidr);
        if dto.gateway.Some? && !GatewayOk(dto.gateway.value, cidr) then Err(GatewayOutside)
        else if next.vlan != rows[id].vlan && VlanUsed(rows, next.vlan, Some(id)) then Err(VlanTaken)
        else if Overlaps(rows, next, cidr, Some(id)) then Err(Overlapping)
        else if exists other :: other in rows && other != id && rows[other].cidr == cidr then Err(DuplicateCidr)
        else Ok(next.(cidr := cidr))
  }

  datatype State = State(rows: Rows, next: nat)

  ghost predicate Good(st: State) {
    && Disjoint(st.rows) && UniqueKeys(st.rows)
    && forall id :: id in st.rows ==> id < st.next
  }

  function Create(st: State, dto: CreateDto): (after: State)
    requires AllNormalized(st.rows)
    ensures AllNormalized(after.rows)
  {
    hide Normalized;
    match CheckCreate(st.rows, dto)
    case Err(_) => st
    case Ok(row) => State(st.rows[st.next := row], st.next + 1)
  }

  function Update(st: State, id: nat, dto: UpdateDto): (after: State)
    requires AllNormalized(st.rows)
    ensures AllNormalized(after.rows)
  {
    hide Normalized;
    match CheckUpdate(st.rows, id, dto)
    case Err(_) => st
    case Ok(row) => st.(rows := st.rows[id := row])
  }

  function Delete(st: State, id: nat): State {
    st.(rows := st.rows - {id})
  }

  function Imported(dto: CreateDto, prefix: string): CreateDto {
    dto.(cidr := prefix, gateway := None)
  }

  /** RIPE import: the selected prefixes are created one by one with the same placement and without a gateway. */
  function Import(st: State, prefixes: seq<string>, dto: CreateDto): (after: State)
    requires AllNormalized(st.rows)
    ensures AllNormalized(after.rows)
    decreases |prefixes|
  {
    if |prefixes| == 0 then st
    else Create(Import(st, prefixes[..|prefixes| - 1], dto), Imported(dto, prefixes[|prefixes| - 1]))
  }

  datatype Op =
    | CreateOp(dto: CreateDto)
    | UpdateOp(id: nat, change: UpdateDto)
    | DeleteOp(id: nat)
    | ImportOp(prefixes: seq<string>, dto: CreateDto)

  function Step(st: State, op: Op): (after: State)
    requires AllNormalized(st.rows)
    ensures AllNormalized(after.rows)
  {
    match op
    case CreateOp(dto) => Create(st, dto)
    case UpdateOp(id, change) => Update(st, id, change)
    case DeleteOp(id) => Delete(st, id)
    case ImportOp(prefixes, dto) => Import(st, prefixes, dto)
  }

  /** A whole run from an empty store. */
  function Run(ops: seq<Op>): (st: State)
    ensures AllNormalized(st.rows)
    decreases |ops|
  {
    if |ops| == 0 then State(map[], 0) else Step(Run(ops[..|ops| - 1]), ops[|ops| - 1])
  }

  // ---- comparing network addresses is enough

  /** Two blocks share an address exactly when one of them starts inside the other. */
  lemma ClashIsSharing(cidr: string, stored: string)
    requires CidrInfo(cidr).Some? && Normalized(stored)
    ensures Clash(cidr, stored) <==> ShareAddress(cidr, stored)
  {
    NormalizedCidr(cidr);
    NormalizedCidr(stored);
    var a, b := NetworkAddress(cidr), AddressOf(stored);
    ClashTests(cidr, stored);
    if Clash(cidr, stored) {
      assert AddressInCidr(a, cidr) && AddressInCidr(b, stored);
    }
    if x: string :| AddressInCidr(x, cidr) && AddressInCidr(x, stored) {
      AddressInCidrIsBlockTest(x, cidr);
      AddressInCidrIsBlockTest(x, stored);
    }
  }

  lemma ClashTests(cidr: string, stored: string)
    requires CidrInfo(cidr).Some? && Normalized(stored)
    ensures var p, q := BlockOf(cidr), BlockOf(stored);
      && (AddressInCidr(NetworkAddress(cidr), stored) <==> p.version == q.version && q.first <= p.first <= q.last)
      && (AddressInCidr(AddressOf(stored), cidr) <==> p.version == q.version && p.first <= q.first <= p.last)
      && AddressInCidr(NetworkAddress(cidr), cidr) && AddressInCidr(AddressOf(stored), stored)
  {
    var a, b := NetworkAddress(cidr), AddressOf(stored);
    NormalizedCidr(cidr);
    NormalizedCidr(stored);
    AddressInCidrIsBlockTest(a, cidr);
    AddressInCidrIsBlockTest(a, stored);
    AddressInCidrIsBlockTest(b, cidr);
    AddressInCidrIsBlockTest(b, stored);
  }

  /** What the overlap check establishes about the other rows of the scope. */
  ghost predicate ApartFromOthers(rows: Rows, id: nat, row: Row)
    requires AllNormalized(rows) && Normalized(row.cidr)
  {
    forall other :: other in rows && other != id && SameScope(rows[other], row) ==>
      !ShareAddress(row.cidr, rows[other].cidr) && !ShareAddress(rows[other].cidr, row.cidr)
  }

  lemma SharingIsSymmetric(a: string, b: string)
    requires CidrInfo(a).Some? && CidrInfo(b).Some?
    ensures ShareAddress(a, b) <==> ShareAddress(b, a)
  {
    hide CidrInfo, AddressInCidr;
  }

  lemma AcceptedRow(rows: Rows, id: nat, row: Row)
    requires AllNormalized(rows) && Normalized(row.cidr)
    ensures ApartFromOthers(rows, id, row) <==> !Overlaps(rows, row, row.cidr, Some(id))
  {
    hide CidrInfo, Clash, ShareAddress;
    forall other | other in rows
      ensures Clash(row.cidr, rows[other].cidr) <==> ShareAddress(row.cidr, rows[other].cidr)
      ensures ShareAddress(row.cidr, rows[other].cidr) <==> ShareAddress(rows[other].cidr, row.cidr)
    {
      ClashIsSharing(row.cidr, rows[other].cidr);
      SharingIsSymmetric(row.cidr, rows[other].cidr);
    }
  }

  /** Storing a row keeps the store disjoint exactly when the row is apart from the others. */
  lemma StoreRow(rows: Rows, id: nat, row: Row)
    requires Disjoint(rows) && Normalized(row.cidr)
    ensures Disjoint(rows[id := row]) <==> ApartFromOthers(rows, id, row)
  {
    hide CidrInfo, ShareAddress;
    var after := rows[id := row];
    if Disjoint(after) {
      forall other | other in rows && other != id && SameScope(rows[other], row)
        ensures !ShareAddress(row.cidr, rows[other].cidr) && !ShareAddress(rows[other].cidr, row.cidr)
      {
        assert after[other] == rows[other] && after[id] == row;
      }
    }
  }

  /** The check runs on the text as given, the clash on its normalized form: they agree. */
  lemma OverlapsOfNormalized(rows: Rows, row: Row, cidr: string, except: Option<nat>)
    requires AllNormalized(rows) && CidrInfo(cidr).Some?
    ensures var text := CidrInfo(cidr).value.cidr;
      Normalized(text) && (Overlaps(rows, row, cidr, except) <==> Overlaps(rows, row, text, except))
  {
    NormalizedCidr(cidr);
    var text := CidrInfo(cidr).value.cidr;
    forall id | id in rows
      ensures Clash(cidr, rows[id].cidr) <==> Clash(text, rows[id].cidr)
    {
      ClashTests(cidr, rows[id].cidr);
      ClashTests(text, rows[id].cidr);
    }
  }

  lemma CreateKeepsGood(st: State, dto: CreateDto)
    requires Good(st)
    ensures Good(Create(st, dto))
  {
    hide CidrInfo, Clash, ShareAddress;
    var r := CheckCreate(st.rows, dto);
    if r.Ok? {
      OverlapsOfNormalized(st.rows, r.value, dto.cidr, None);
      SameScopeOverlaps(st.rows, dto, r.value, r.value.cidr, None, Some(st.next));
      AcceptedRow(st.rows, st.next, r.value);
      StoreRow(st.rows, st.next, r.value);
    }
  }

  lemma SameScopeOverlaps(rows: Rows, a: Row, b: Row, cidr: string, except: Option<nat>, also: Option<nat>)
    requires AllNormalized(rows) && CidrInfo(cidr).Some? && SameScope(a, b)
    requires forall id :: id in rows ==> (Some(id) != except <==> Some(id) != also)
    ensures Overlaps(rows, a, cidr, except) <==> Overlaps(rows, b, cidr, also)
  {
    hide CidrInfo, Clash;
  }

  lemma UpdateKeepsGood(st: State, id: nat, dto: UpdateDto)
    requires Good(st)
    ensures Good(Update(st, id, dto))
  {
    hide CidrInfo, Clash, ShareAddress;
    var r := CheckUpdate(st.rows, id, dto);
    if r.Ok? {
      OverlapsOfNormalized(st.rows, r.value, Placed(st.rows[id], dto).cidr, Some(id));
      SameScopeOverlaps(st.rows, Placed(st.rows[id], dto), r.value, r.value.cidr, Some(id), Some(id));
      AcceptedRow(st.rows, id, r.value);
      StoreRow(st.rows, id, r.value);
    }
  }

  lemma {:induction false} ImportKeepsGood(st: State, prefixes: seq<string>, dto: CreateDto)
    requires Good(st)
    ensures Good(Import(st, prefixes, dto))
    decreases |prefixes|
  {
    if |prefixes| > 0 {
      var n := |prefixes| - 1;
      ImportKeepsGood(st, prefixes[..n], dto);
      CreateKeepsGood(Import(st, prefixes[..n], dto), Imported(dto, prefixes[n]));
    }
  }

  lemma StepKeepsGood(st: State, op: Op)
    requires Good(st)
    ensures Good(Step(st, op))
  {
    match op
    case CreateOp(dto) => CreateKeepsGood(st, dto);
    case UpdateOp(id, change) => UpdateKeepsGood(st, id, change);
    case DeleteOp(id) =>
    case ImportOp(prefixes, dto) => ImportKeepsGood(st, prefixes, dto);
  }

  /**
   * Over every run, subnets of one (site, VRF) share no address of either version, and CIDR text
   * and VLAN stay unique across the whole store.
   */
  lemma {:induction false} EveryRunStaysDisjoint(ops: seq<Op>)
    ensures Good(Run(ops))
    decreases |ops|
  {
    if |ops| > 0 {
      EveryRunStaysDisjoint(ops[..|ops| - 1]);
      StepKeepsGood(Run(ops[..|ops| - 1]), ops[|ops| - 1]);
    }
  }

  // ---- what is accepted and what is stored, in terms of rows and blocks only

  /** Some row other than the excepted one has the VLAN. */
  ghost predicate VlanTakenBy(rows: Rows, vlan: string, except: Option<nat>) {
    exists id :: id in rows && Some(id) != except && rows[id].vlan == Some(vlan)
  }

  /** Some row of the site and VRF other than the excepted one has an address in common with the text. */
  ghost predicate SpaceTakenBy(rows: Rows, site: Option<string>, vrf: Option<string>, cidr: string,
      except: Option<nat>)
    requires AllNormalized(rows) && CidrInfo(cidr).Some?
  {
    exists id :: id in rows && Some(id) != except && rows[id].site == site && rows[id].vrf == vrf &&
      ShareAddress(cidr, rows[id].cidr)
  }

  lemma OverlapsIsSpaceTaken(rows: Rows, row: Row, cidr: string, except: Option<nat>)
    requires AllNormalized(rows) && CidrInfo(cidr).Some?
    ensures Overlaps(rows, row, cidr, except) <==> SpaceTakenBy(rows, row.site, row.vrf, cidr, except)
  {
    hide CidrInfo, Clash, ShareAddress;
    forall id | id in rows
      ensures Clash(cidr, rows[id].cidr) <==> ShareAddress(cidr, rows[id].cidr)
    {
      ClashIsSharing(cidr, rows[id].cidr);
    }
  }

  /** The text of a row is the normalized form of the requested one and describes the same block. */
  ghost predicate IsTextOf(stored: string, requested: string) {
    && CidrInfo(requested).Some? && CidrInfo(stored).Some?
    && stored == CidrInfo(requested).value.cidr && BlockOf(stored) == BlockOf(requested)
  }

  /** The first check that a creation fails, in the order in which they are made; None if it passes all. */
  ghost predicate CreationAnswer(rows: Rows, dto: CreateDto, error: Option<Error>)
    requires AllNormalized(rows)
  {
    if CidrInfo(dto.cidr).None? then error == Some(InvalidCidr)
    else if dto.gateway.Some? && !InBlock(dto.gateway.value, BlockOf(dto.cidr)) then error == Some(GatewayOutside)
    else if dto.vlan.Some? && VlanTakenBy(rows, dto.vlan.value, None) then error == Some(VlanTaken)
    else if exists id :: id in rows && IsTextOf(rows[id].cidr, dto.cidr) then error == Some(DuplicateCidr)
    else if SpaceTakenBy(rows, dto.site, dto.vrf, dto.cidr, None) then error == Some(Overlapping)
    else error == None
  }

  /** A creation is refused for the first reason that applies; otherwise one row with the requested fields is added. */
  ghost predicate IsCreation(before: State, dto: CreateDto, after: State, error: Option<Error>)
    requires AllNormalized(before.rows)
  {
    && CreationAnswer(before.rows, dto, error)
    && (error.Some? ==> after == before)
    && (error.None? ==>
          && before.next !in before.rows && after.rows.Keys == before.rows.Keys + {before.next}
          && after.next == before.next + 1
          && (forall id :: id in before.rows ==> after.rows[id] == before.rows[id])
          && IsTextOf(after.rows[before.next].cidr, dto.cidr)
          && after.rows[before.next].site == dto.site && after.rows[before.next].vrf == dto.vrf
          && after.rows[before.next].vlan == dto.vlan && after.rows[before.next].gateway == dto.gateway)
  }

  function ErrorOf<T>(r: Result<T, Error>): Option<Error> {
    if r.Err? then Some(r.error) else None
  }

  /** The checks on rows agree with what the service computes. */
  lemma SameChecks(rows: Rows, row: Row, except: Option<nat>)
    requires AllNormalized(rows) && CidrInfo(row.cidr).Some?
    ensures var cidr := CidrInfo(row.cidr).value.cidr;
      && IsTextOf(cidr, row.cidr) && Normalized(cidr)
      && (Overlaps(rows, row, cidr, except) <==> SpaceTakenBy(rows, row.site, row.vrf, row.cidr, except))
      && (forall id :: id in rows ==> (rows[id].cidr == cidr <==> IsTextOf(rows[id].cidr, row.cidr)))
      && (forall gateway: string :: AddressInCidr(gateway, cidr) <==> InBlock(gateway, BlockOf(row.cidr)))
  {
    hide CidrInfo, Clash, ShareAddress, BlockOf, InBlock, AddressInCidr, SpaceTakenBy, Overlaps;
    NormalizedCidr(row.cidr);
    OverlapsOfNormalized(rows, row, row.cidr, except);
    OverlapsIsSpaceTaken(rows, row, row.cidr, except);
    forall gateway: string
      ensures AddressInCidr(gateway, CidrInfo(row.cidr).value.cidr) <==> InBlock(gateway, BlockOf(row.cidr))
    {
      AddressInCidrIsBlockTest(gateway, CidrInfo(row.cidr).value.cidr);
    }
  }

  lemma CreationIsAnswered(rows: Rows, dto: CreateDto)
    requires AllNormalized(rows)
    ensures CreationAnswer(rows, dto, ErrorOf(CheckCreate(rows, dto)))
    ensures CheckCreate(rows, dto).Ok? ==>
      var row := CheckCreate(rows, dto).value;
      && IsTextOf(row.cidr, dto.cidr) && row.site == dto.site && row.vrf == dto.vrf && row.vlan == dto.vlan
      && row.gateway == dto.gateway
  {
    hide CidrInfo, IsTextOf, BlockOf, InBlock, AddressInCidr, SpaceTakenBy, Overlaps, Normalized;
    if CidrInfo(dto.cidr).Some? {
      SameChecks(rows, dto, None);
    }
  }

  lemma CreationStores(st: State, dto: CreateDto)
    requires Good(st)
    ensures IsCreation(st, dto, Create(st, dto), ErrorOf(CheckCreate(st.rows, dto)))
  {
    hide CreationAnswer, CheckCreate, IsTextOf, Normalized, UniqueKeys, ShareAddress;
    CreationIsAnswered(st.rows, dto);
  }

  lemma GoodIsNormalized(st: State)
    requires Good(st)
    ensures AllNormalized(st.rows)
  {
  }

  function Asked<T>(change: Option<T>, current: T): T {
    if change.Some? then change.value else current
  }

  /** The first check that an update fails; a text that another row has is found by the database, after the overlaps. */
  ghost predicate UpdateAnswer(rows: Rows, id: nat, dto: UpdateDto, error: Option<Error>)
    requires AllNormalized(rows)
  {
    if id !in rows then error == Some(NotFound)
    else
      var cidr, vlan := Asked(dto.cidr, rows[id].cidr), Asked(dto.vlan, rows[id].vlan);
      if CidrInfo(cidr).None? then error == Some(InvalidCidr)
      else if dto.gateway.Some? && dto.gateway.value.Some? && !InBlock(dto.gateway.value.value, BlockOf(cidr)) then
        error == Some(GatewayOutside)
      else if vlan.Some? && VlanTakenBy(rows, vlan.value, Some(id)) then error == Some(VlanTaken)
      else if SpaceTakenBy(rows, Asked(dto.site, rows[id].site), Asked(dto.vrf, rows[id].vrf), cidr, Some(id)) then
        error == Some(Overlapping)
      else if exists other :: other in rows && other != id && IsTextOf(rows[other].cidr, cidr) then
        error == Some(DuplicateCidr)
      else error == None
  }

  /**
   * An update is refused for the first reason that applies; otherwise the row has the fields that the request names
   * and keeps the others, and every other row stays.
   */
  ghost predicate IsUpdate(before: State, id: nat, dto: UpdateDto, after: State, error: Option<Error>)
    requires AllNormalized(before.rows)
  {
    && UpdateAnswer(before.rows, id, dto, error)
    && (error.Some? ==> after == before)
    && (error.None? ==>
          && id in before.rows && after.rows.Keys == before.rows.Keys && after.next == before.next
          && (forall other :: other in before.rows && other != id ==> after.rows[other] == before.rows[other])
          && var was, row := before.rows[id], after.rows[id];
             && IsTextOf(row.cidr, if dto.cidr.Some? then dto.cidr.value else was.cidr)
             && row.site == (if dto.site.Some? then dto.site.value else was.site)
             && row.vrf == (if dto.vrf.Some? then dto.vrf.value else was.vrf)
             && row.vlan == (if dto.vlan.Some? then dto.vlan.value else was.vlan)
             && row.gateway == (if dto.gateway.Some? then dto.gateway.value else was.gateway))
  }

  lemma UpdateIsAnswered(rows: Rows, id: nat, dto: UpdateDto)
    requires AllNormalized(rows) && UniqueKeys(rows)
    ensures UpdateAnswer(rows, id, dto, ErrorOf(CheckUpdate(rows, id, dto)))
  {
    hide CidrInfo, IsTextOf, BlockOf, InBlock, AddressInCidr, SpaceTakenBy, Overlaps, Normalized;
    if id in rows && CidrInfo(Placed(rows[id], dto).cidr).Some? {
      SameChecks(rows, Placed(rows[id], dto), Some(id));
    }
  }

  lemma UpdatedFields(rows: Rows, id: nat, dto: UpdateDto)
    requires AllNormalized(rows) && CheckUpdate(rows, id, dto).Ok?
    ensures id in rows
    ensures var was, row := rows[id], CheckUpdate(rows, id, dto).value;
      && IsTextOf(row.cidr, if dto.cidr.Some? then dto.cidr.value else was.cidr)
      && row.site == (if dto.site.Some? then dto.site.value else was.site)
      && row.vrf == (if dto.vrf.Some? then dto.vrf.value else was.vrf)
      && row.vlan == (if dto.vlan.Some? then dto.vlan.value else was.vlan)
      && row.gateway == (if dto.gateway.Some? then dto.gateway.value else was.gateway)
  {
    hide CidrInfo, IsTextOf, BlockOf, InBlock, AddressInCidr, SpaceTakenBy, Overlaps, Normalized, VlanUsed;
    SameChecks(rows, Placed(rows[id], dto), Some(id));
  }

  lemma UpdateStores(st: State, id: nat, dto: UpdateDto)
    requires Good(st)
    ensures IsUpdate(st, id, dto, Update(st, id, dto), ErrorOf(CheckUpdate(st.rows, id, dto)))
  {
    hide UpdateAnswer, CheckUpdate, IsTextOf, Normalized, UniqueKeys, ShareAddress;
    UpdateIsAnswered(st.rows, id, dto);
    if CheckUpdate(st.rows, id, dto).Ok? {
      UpdatedFields(st.rows, id, dto);
    }
  }

  lemma DeleteRemoves(st: State, id: nat)
    ensures var after := Delete(st, id);
      && after.rows.Keys == st.rows.Keys - {id} && after.next == st.next
      && forall other :: other in after.rows ==> after.rows[other] == st.rows[other]
  {
  }

  /** The row is one that an import with this placement adds for one of the prefixes. */
  ghost predicate IsImported(row: Row, prefixes: seq<string>, dto: CreateDto) {
    && row.site == dto.site && row.vrf == dto.vrf && row.vlan == dto.vlan && row.gateway == None
    && exists k :: 0 <= k < |prefixes| && IsTextOf(row.cidr, prefixes[k])
  }

  lemma ImportedMore(row: Row, prefixes: seq<string>, prefix: string, dto: CreateDto)
    requires IsImported(row, prefixes, dto)
    ensures IsImported(row, prefixes + [prefix], dto)
  {
    hide IsTextOf;
    var k :| 0 <= k < |prefixes| && IsTextOf(row.cidr, prefixes[k]);
    assert (prefixes + [prefix])[k] == prefixes[k];
  }

  lemma ImportedLast(row: Row, prefixes: seq<string>, prefix: string, dto: CreateDto)
    requires row.site == dto.site && row.vrf == dto.vrf && row.vlan == dto.vlan && row.gateway == None
    requires IsTextOf(row.cidr, prefix)
    ensures IsImported(row, prefixes + [prefix], dto)
  {
    hide IsTextOf;
    assert (prefixes + [prefix])[|prefixes|] == prefix;
  }

  /** The prefixes of an import are created one after the other, each by an ordinary creation. */
  lemma ImportStep(st: State, prefixes: seq<string>, dto: CreateDto, k: nat) returns (error: Option<Error>)
    requires Good(st) && k < |prefixes|
    ensures Good(Import(st, prefixes[..k], dto))
    ensures IsCreation(Import(st, prefixes[..k], dto), dto.(cidr := prefixes[k], gateway := None),
      Import(st, prefixes[..k + 1], dto), error)
  {
    hide Good, CheckCreate, IsCreation;
    GoodIsNormalized(st);
    ImportKeepsGood(st, prefixes[..k], dto);
    GoodIsNormalized(Import(st, prefixes[..k], dto));
    var before := Import(st, prefixes[..k], dto);
    CreationStores(before, Imported(dto, prefixes[k]));
    error := ErrorOf(CheckCreate(before.rows, Imported(dto, prefixes[k])));
    assert prefixes[..k + 1][..k] == prefixes[..k];
  }

  /** What was there before the import stays; every other row is one of its rows. */
  ghost predicate AddsImported(before: Rows, after: Rows, prefixes: seq<string>, dto: CreateDto) {
    && before.Keys <= after.Keys && (forall id :: id in before ==> after[id] == before[id])
    && (forall id :: id in after && id !in before ==> IsImported(after[id], prefixes, dto))
  }

  lemma OneMoreImported(before: Rows, st: State, after: State, prefixes: seq<string>, prefix: string, dto: CreateDto,
      error: Option<Error>)
    requires AllNormalized(st.rows) && AddsImported(before, st.rows, prefixes, dto)
    requires IsCreation(st, dto.(cidr := prefix, gateway := None), after, error)
    ensures AddsImported(before, after.rows, prefixes + [prefix], dto)
  {
    hide CreationAnswer, IsTextOf, IsImported, Normalized;
    forall id | id in after.rows && id !in before
      ensures IsImported(after.rows[id], prefixes + [prefix], dto)
    {
      if id in st.rows {
        ImportedMore(after.rows[id], prefixes, prefix, dto);
      } else {
        ImportedLast(after.rows[id], prefixes, prefix, dto);
      }
    }
  }

  /** Every row that an import adds has the text of a selected prefix, the given placement, and no gateway. */
  lemma {:induction false} ImportStores(st: State, prefixes: seq<string>, dto: CreateDto)
    requires Good(st)
    ensures AddsImported(st.rows, Import(st, prefixes, dto).rows, prefixes, dto)
    decreases |prefixes|
  {
    hide IsImported, IsCreation, Create, Good;
    if |prefixes| > 0 {
      var n := |prefixes| - 1;
      ImportStores(st, prefixes[..n], dto);
      var error := ImportStep(st, prefixes, dto, n);
      assert prefixes[..n + 1] == prefixes && prefixes == prefixes[..n] + [prefixes[n]];
      OneMoreImported(st.rows, Import(st, prefixes[..n], dto), Import(st, prefixes, dto), prefixes[..n], prefixes[n],
        dto, error);
    }
  }

  // ---- the checks and the write are separate database calls

  predicate TextStored(rows: Rows, cidr: string, except: Option<nat>) {
    exists id :: id in rows && Some(id) != except && rows[id].cidr == cidr
  }

  /** A request that writes one row: a creation, or an update of a row. */
  datatype Request = Insert(dto: CreateDto) | Change(id: nat, change: UpdateDto)

  function Check(rows: Rows, request: Request): (r: Result<Row, Error>)
    requires AllNormalized(rows)
    ensures r.Ok? ==> Normalized(r.value.cidr)
  {
    match request
    case Insert(dto) => CheckCreate(rows, dto)
    case Change(id, change) => CheckUpdate(rows, id, change)
  }

  function Target(st: State, request: Request): nat {
    if request.Insert? then st.next else request.id
  }

  /** The gateway is the only field of the row that an update leaves to the database when it is not named. */
  function Merged(rows: Rows, request: Request, row: Row): Row {
    if request.Change? && request.change.gateway.None? && request.id in rows
      then row.(gateway := rows[request.id].gateway) else row
  }

  /** The database refuses a stored text, in any scope, and an update of a row that is gone. */
  predicate Refused(st: State, request: Request, row: Row) {
    || (request.Change? && request.id !in st.rows)
    || TextStored(st.rows, row.cidr, Some(Target(st, request)))
  }

  /** Writing the row of a request whose checks saw an older store. */
  function LateWrite(st: State, request: Request, row: Row): State {
    if Refused(st, request, row) then st
    else
      State(st.rows[Target(st, request) := Merged(st.rows, request, row)],
            if request.Insert? then st.next + 1 else st.next)
  }

  /** A late write that is not refused stores its row: an update leaves an unnamed gateway as it then is. */
  lemma LateWriteStores(st: State, request: Request, row: Row)
    requires Good(st)
    ensures var after, id := LateWrite(st, request, row), if request.Insert? then st.next else request.id;
      if request.Change? && id !in st.rows then after == st
      else if exists other :: other in st.rows && other != id && st.rows[other].cidr == row.cidr then after == st
      else
        && after.rows.Keys == st.rows.Keys + {id} && (request.Insert? ==> id !in st.rows)
        && after.next == st.next + (if request.Insert? then 1 else 0)
        && (forall other :: other in st.rows && other != id ==> after.rows[other] == st.rows[other])
        && after.rows[id].cidr == row.cidr && after.rows[id].site == row.site && after.rows[id].vrf == row.vrf
        && after.rows[id].vlan == row.vlan
        && after.rows[id].gateway == (if request.Change? && request.change.gateway.None? then st.rows[id].gateway
             else row.gateway)
  {
    hide CidrInfo, ShareAddress;
  }

  /**
   * After a late write, whatever the earlier checks saw, the store is disjoint exactly when the write is refused or
   * no other stored row of the same scope clashes at that moment, and keeps its keys unique exactly when the write is
   * refused or no other row has the VLAN.
   */
  lemma LateWriteIsGoodIff(st: State, request: Request, row: Row)
    requires Good(st) && Normalized(row.cidr)
    ensures Disjoint(LateWrite(st, request, row).rows) <==>
      Refused(st, request, row) || !Overlaps(st.rows, row, row.cidr, Some(Target(st, request)))
    ensures UniqueKeys(LateWrite(st, request, row).rows) <==>
      Refused(st, request, row) || !VlanUsed(st.rows, row.vlan, Some(Target(st, request)))
  {
    hide CidrInfo, Clash, ShareAddress, UniqueKeys, VlanUsed, TextStored;
    if !Refused(st, request, row) {
      var id, merged := Target(st, request), Merged(st.rows, request, row);
      SameScopeOverlaps(st.rows, row, merged, row.cidr, Some(id), Some(id));
      AcceptedRow(st.rows, id, merged);
      StoreRow(st.rows, id, merged);
      KeysStayUniqueIff(st.rows, id, merged);
    }
  }

  lemma KeysStayUniqueIff(rows: Rows, id: nat, row: Row)
    requires UniqueKeys(rows) && !TextStored(rows, row.cidr, Some(id))
    ensures UniqueKeys(rows[id := row]) <==> !VlanUsed(rows, row.vlan, Some(id))
  {
    var after := rows[id := row];
    if VlanUsed(rows, row.vlan, Some(id)) {
      var other :| other in rows && other != id && rows[other].vlan == row.vlan;
      assert after[other] == rows[other] && after[id] == row;
    }
  }

  /** The first of two requests commits on the store that it checked. */
  function Commit(st: State, request: Request): (after: State)
    requires AllNormalized(st.rows)
    ensures AllNormalized(after.rows)
  {
    match request
    case Insert(dto) => Create(st, dto)
    case Change(id, change) => Update(st, id, change)
  }

  lemma CommitKeepsGood(st: State, request: Request)
    requires Good(st)
    ensures Good(Commit(st, request))
    ensures Check(st.rows, request).Ok? ==>
      && Commit(st, request).rows == st.rows[Target(st, request) := Check(st.rows, request).value]
      && Commit(st, request).next == if request.Insert? then st.next + 1 else st.next
  {
    hide Good, CheckCreate, CheckUpdate;
    match request
    case Insert(dto) => CreateKeepsGood(st, dto);
    case Change(id, change) => UpdateKeepsGood(st, id, change);
  }

  /** An accepted row has no clash and no equal text outside the row it replaces. */
  lemma AcceptedIsApart(st: State, request: Request)
    requires Good(st) && Check(st.rows, request).Ok?
    ensures var row, id := Check(st.rows, request).value, Target(st, request);
      && Normalized(row.cidr) && !Overlaps(st.rows, row, row.cidr, Some(id)) && !TextStored(st.rows, row.cidr, Some(id))
      && (request.Change? ==> request.id in st.rows && request.id < st.next)
  {
    hide CidrInfo, Clash, ShareAddress, UniqueKeys, GatewayOk, VlanUsed;
    var row, id := Check(st.rows, request).value, Target(st, request);
    match request
    case Insert(dto) =>
      OverlapsOfNormalized(st.rows, row, dto.cidr, None);
      SameScopeOverlaps(st.rows, dto, row, row.cidr, None, Some(id));
    case Change(_, change) =>
      OverlapsOfNormalized(st.rows, row, Placed(st.rows[id], change).cidr, Some(id));
      SameScopeOverlaps(st.rows, Placed(st.rows[id], change), row, row.cidr, Some(id), Some(id));
  }

  /**
   * Two requests, creations or updates, that both pass their checks on the same store, one writing after the other:
   * the store stays disjoint exactly when they are for the same row, their scopes differ, their normalized texts are
   * equal (the second is refused) or their blocks do not clash.
   */
  lemma RacingWrites(st: State, a: Request, b: Request)
    requires Good(st) && Check(st.rows, a).Ok? && Check(st.rows, b).Ok?
    ensures var first, second := Check(st.rows, a).value, Check(st.rows, b).value;
      Disjoint(LateWrite(Commit(st, a), b, second).rows) <==>
        || (a.Change? && b.Change? && a.id == b.id)
        || !SameScope(first, second) || first.cidr == second.cidr || !Clash(second.cidr, first.cidr)
  {
    hide CidrInfo, Clash, ShareAddress, UniqueKeys, Check, Commit, Overlaps, TextStored;
    var first, second := Check(st.rows, a).value, Check(st.rows, b).value;
    var after := Commit(st, a);
    AcceptedIsApart(st, a);
    AcceptedIsApart(st, b);
    CommitKeepsGood(st, a);
    LateWriteIsGoodIff(after, b, second);
    StillApart(st, a, b);
    OnlyTheFirst(st.rows, Target(st, a), Target(after, b), first, second);
  }

  /** The id of a new row depends on the moment of its insertion, what it is apart from does not. */
  lemma StillApart(st: State, a: Request, b: Request)
    requires Good(st) && Check(st.rows, a).Ok? && Check(st.rows, b).Ok?
    ensures var second, id := Check(st.rows, b).value, Target(Commit(st, a), b);
      && Normalized(second.cidr) && !Overlaps(st.rows, second, second.cidr, Some(id))
      && !TextStored(st.rows, second.cidr, Some(id))
      && (id == Target(st, a) <==> a.Change? && b.Change? && a.id == b.id)
  {
    hide CidrInfo, Clash, Check, UniqueKeys, Disjoint, Commit, Normalized;
    CommitKeepsGood(st, a);
    AcceptedIsApart(st, a);
    AcceptedIsApart(st, b);
  }

  /** A row that is apart from a store can only clash with what was written to it since. */
  lemma OnlyTheFirst(rows: Rows, i: nat, j: nat, first: Row, second: Row)
    requires AllNormalized(rows) && Normalized(first.cidr) && Normalized(second.cidr)
    requires !Overlaps(rows, second, second.cidr, Some(j)) && !TextStored(rows, second.cidr, Some(j))
    ensures var after := rows[i := first];
      && (Overlaps(after, second, second.cidr, Some(j)) <==>
            i != j && SameScope(first, second) && Clash(second.cidr, first.cidr))
      && (TextStored(after, second.cidr, Some(j)) <==> i != j && first.cidr == second.cidr)
  {
    hide CidrInfo, Clash;
    var after := rows[i := first];
    assert after[i] == first;
    assert forall id :: id in rows && id != i ==> id in after && after[id] == rows[id];
  }

  const RACE_START: nat := 0x0A00_0000

  function RaceDto(prefix: nat): CreateDto {
    Row(Render(Ipv4Address(RACE_START), prefix), None, None, None, None)
  }

  lemma RaceBlock(prefix: nat)
    requires prefix in {16, 24}
    ensures var text := RaceDto(prefix).cidr;
      CidrInfo(text) == Some(Info4(prefix, RACE_START, RACE_START + Pow2(32 - prefix) - 1, text))
  {
    hide CidrInfo, Ipv4Address, Render;
    Pow2Of32();
    PrintedBlock(RACE_START, prefix);
  }

  /** 10.0.0.0/24 and 10.0.0.0/16 both pass on an empty store; inserted one after the other, they overlap. */
  lemma RaceLeavesOverlap()
    ensures var st, a, b := State(map[], 0), Insert(RaceDto(24)), Insert(RaceDto(16));
      && Check(st.rows, a).Ok? && Check(st.rows, b).Ok?
      && !Disjoint(LateWrite(Commit(st, a), b, Check(st.rows, b).value).rows)
  {
    hide CidrInfo, Clash, RaceDto;
    RaceAccepted(24);
    RaceAccepted(16);
    RaceClash();
    RacingWrites(State(map[], 0), Insert(RaceDto(24)), Insert(RaceDto(16)));
  }

  lemma RaceAccepted(prefix: nat)
    requires prefix in {16, 24}
    ensures CheckCreate(map[], RaceDto(prefix)) == Ok(RaceDto(prefix)) && SameScope(RaceDto(16), RaceDto(24))
  {
    hide CidrInfo, Ipv4Address, Render;
    RaceBlock(prefix);
  }

  lemma RaceClash()
    ensures CidrInfo(RaceDto(16).cidr).Some? && CidrInfo(RaceDto(24).cidr).Some?
    ensures RaceDto(16).cidr != RaceDto(24).cidr && Clash(RaceDto(16).cidr, RaceDto(24).cidr)
  {
    hide CidrInfo, RaceDto, AddressInCidr;
    RaceBlock(16);
    RaceBlock(24);
    ClashTests(RaceDto(16).cidr, RaceDto(24).cidr);
    BlockBounds(RaceDto(16).cidr);
    BlockBounds(RaceDto(24).cidr);
    Pow2Of32();
  }

  /** Two subnets of different sites that clash, and a request that moves either of them out of its site. */
  const APART: State := State(
    map[0 := RaceDto(24).(site := Some("A")), 1 := RaceDto(16).(site := Some("B"))], 2)

  function MoveOut(id: nat): Request {
    Change(id, UpdateDto(None, Some(None), None, None, None))
  }

  lemma MoveAccepted(id: nat, prefix: nat)
    requires (id, prefix) == (0, 24) || (id, prefix) == (1, 16)
    ensures Good(APART) && Check(APART.rows, MoveOut(id)) == Ok(RaceDto(prefix))
  {
    hide CidrInfo, Clash, ShareAddress, Ipv4Address, Render;
    RaceBlock(24);
    RaceBlock(16);
    RaceClash();
    assert APART.rows[0].site == Some("A") && APART.rows[1].site == Some("B");
  }

  /** Both moves pass on the same store; one after the other, they leave clashing subnets in one scope. */
  lemma MovesLeaveOverlap()
    ensures Good(APART) && Check(APART.rows, MoveOut(0)).Ok? && Check(APART.rows, MoveOut(1)).Ok?
    ensures !Disjoint(LateWrite(Commit(APART, MoveOut(0)), MoveOut(1), Check(APART.rows, MoveOut(1)).value).rows)
  {
    hide CidrInfo, Clash, RaceDto, Disjoint, UniqueKeys, Check;
    RaceClash();
    RaceAccepted(24);
    MoveAccepted(0, 24);
    MoveAccepted(1, 16);
    RacingWrites(APART, MoveOut(0), MoveOut(1));
  }

  // ---- the service

  /** One of the first n prefixes was refused in its turn, with this error. */
  ghost predicate IsSkipped(start: State, prefixes: seq<string>, dto: CreateDto, n: nat, entry: (string, Error))
    requires AllNormalized(start.rows) && n <= |prefixes|
  {
    exists k :: 0 <= k < n && entry.0 == prefixes[k] &&
      CreationAnswer(Import(start, prefixes[..k], dto).rows, dto.(cidr := prefixes[k], gateway := None), Some(entry.1))
  }

  class IpamService {
    var rows: Rows
    var next: nat

    ghost predicate Valid()
      reads this
    {
      Good(State(rows, next))
    }

    constructor ()
      ensures Valid() && State(rows, next) == Run([])
    {
      rows, next := map[], 0;
    }

    method CreateSubnet(dto: CreateDto) returns (r: Result<nat, Error>)
      requires Valid()
      modifies this
      ensures Valid() && State(rows, next) == Create(old(State(rows, next)), dto)
      ensures r == (match CheckCreate(old(rows), dto) case Ok(_) => Ok(old(next)) case Err(e) => Err(e))
      ensures IsCreation(old(State(rows, next)), dto, State(rows, next), ErrorOf(r))
    {
      hide Normalized, UniqueKeys, CheckCreate, CreationAnswer, IsTextOf;
      CreateKeepsGood(State(rows, next), dto);
      CreationStores(State(rows, next), dto);
      match CheckCreate(rows, dto) {
        case Err(e) => return Err(e);
        case Ok(row) =>
          rows := rows[next := row];
          r := Ok(next);
          next := next + 1;
      }
    }

    method UpdateSubnet(id: nat, dto: UpdateDto) returns (r: Result<Row, Error>)
      requires Valid()
      modifies this
      ensures Valid() && State(rows, next) == Update(old(State(rows, next)), id, dto)
      ensures r == CheckUpdate(old(rows), id, dto)
      ensures IsUpdate(old(State(rows, next)), id, dto, State(rows, next), ErrorOf(r))
      ensures r.Ok? ==> id in rows && r.value == rows[id]
    {
      hide Normalized, UniqueKeys, CheckUpdate, UpdateAnswer, IsTextOf;
      UpdateKeepsGood(State(rows, next), id, dto);
      UpdateStores(State(rows, next), id, dto);
      r := CheckUpdate(rows, id, dto);
      if r.Ok? {
        rows := rows[id := r.value];
      }
    }

    method DeleteSubnet(id: nat)
      requires Valid()
      modifies this
      ensures Valid() && State(rows, next) == Delete(old(State(rows, next)), id)
    {
      rows := rows - {id};
    }

    /** Every selected prefix is either created or skipped with the reason of its check. */
    method ImportRipe(prefixes: seq<string>, dto: CreateDto)
      returns (created: seq<nat>, skipped: seq<(string, Error)>)
      requires Valid()
      modifies this
      ensures Valid() && State(rows, next) == Import(old(State(rows, next)), prefixes, dto)
      ensures |created| + |skipped| == |prefixes|
      ensures forall i :: 0 <= i < |created| ==> old(next) <= created[i] < next && created[i] in rows
      ensures forall i, j :: 0 <= i < j < |created| ==> created[i] < created[j]
      ensures forall i :: 0 <= i < |skipped| ==>
        IsSkipped(old(State(rows, next)), prefixes, dto, |prefixes|, skipped[i])
    {
      hide UniqueKeys, CheckCreate, Normalized, ShareAddress, CreationAnswer, IsTextOf;
      created, skipped := [], [];
      ghost var start := State(rows, next);
      for i := 0 to |prefixes|
        invariant Valid() && old(next) <= next
        invariant State(rows, next) == Import(start, prefixes[..i], dto)
        invariant |created| + |skipped| == i
        invariant forall k :: 0 <= k < |created| ==> old(next) <= created[k] < next && created[k] in rows
        invariant forall j, k :: 0 <= j < k < |created| ==> created[j] < created[k]
        invariant forall k :: 0 <= k < |skipped| ==> IsSkipped(start, prefixes, dto, i, skipped[k])
      {
        assert prefixes[..i + 1][..i] == prefixes[..i];
        var r := CreateSubnet(Imported(dto, prefixes[i]));
        match r {
          case Ok(id) => created := created + [id];
          case Err(e) => skipped := skipped + [(prefixes[i], e)];
        }
      }
      assert prefixes[..|prefixes|] == prefixes;
    }
  }
}
