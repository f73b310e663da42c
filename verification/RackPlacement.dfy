/** Rack placement: the plan for dropping a device on a unit, and overlaps between imported rows. */
module RackPlacement {
  import opened Wrappers
  import opened Sorting

  datatype Device = Device(id: string, rack: string, start: int, size: int) {
    function End(): int {
      start + size - 1
    }
  }

  datatype Rack = Rack(id: string, units: int, devices: seq<Device>)

  datatype Reason = Moved | Displaced | Swapped

  datatype Change = Change(device: Device, reason: Reason)

  datatype Plan = Plan(changes: seq<Change>, target: Change)

  datatype Error = TargetRackNotFound | DeviceNotFound | TooTall | NoRoomToDisplace | SourceRackNotFound | NoRoomToSwap

  predicate Overlaps(left: Device, right: Device) {
    left.start <= right.End() && left.End() >= right.start
  }

  predicate Blocks(item: Device, device: Device) {
    item.rack == device.rack && item.id != device.id && Overlaps(item, device)
  }

  predicate Fits(device: Device, rack: Rack, placed: seq<Device>) {
    && device.start >= 1
    && device.End() <= rack.units
    && !exists item :: item in placed && Blocks(item, device)
  }

  function FindRack(racks: seq<Rack>, id: string): (found: Option<Rack>)
    ensures found.Some? ==> found.value in racks && found.value.id == id
  {
    if |racks| == 0 then None else if racks[0].id == id then Some(racks[0]) else FindRack(racks[1..], id)
  }

  function FindDevice(devices: seq<Device>, id: string): (found: Option<Device>)
    ensures found.Some? ==> found.value in devices && found.value.id == id
    ensures found.None? ==> forall d :: d in devices ==> d.id != id
  {
    if |devices| == 0 then None else if devices[0].id == id then Some(devices[0]) else FindDevice(devices[1..], id)
  }

  function AllDevices(racks: seq<Rack>): seq<Device> {
    if |racks| == 0 then [] else racks[0].devices + AllDevices(racks[1..])
  }

  /** The devices other than the moved one. */
  function Others(devices: seq<Device>, id: string): (others: seq<Device>)
    ensures forall d :: d in others <==> d in devices && d.id != id
  {
    if |devices| == 0 then []
    else (if devices[0].id != id then [devices[0]] else []) + Others(devices[1..], id)
  }

  function Colliding(devices: seq<Device>, moved: Device): (collided: seq<Device>)
    ensures forall d :: d in collided <==> d in devices && d.rack == moved.rack && Overlaps(d, moved)
  {
    if |devices| == 0 then []
    else
      var rest := Colliding(devices[1..], moved);
      if devices[0].rack == moved.rack && Overlaps(devices[0], moved) then [devices[0]] + rest else rest
  }

  predicate HasId(devices: seq<Device>, id: string) {
    exists d :: d in devices && d.id == id
  }

  function Without(devices: seq<Device>, collided: seq<Device>): (rest: seq<Device>)
    ensures forall d :: d in rest <==> d in devices && !HasId(collided, d.id)
  {
    if |devices| == 0 then []
    else (if !HasId(collided, devices[0].id) then [devices[0]] else []) + Without(devices[1..], collided)
  }

  function InsertByStart(device: Device, sorted: seq<Device>): (r: seq<Device>)
    ensures |r| == |sorted| + 1
    ensures forall d :: d in r <==> d == device || d in sorted
  {
    if |sorted| == 0 || device.start <= sorted[0].start then [device] + sorted
    else [sorted[0]] + InsertByStart(device, sorted[1..])
  }

  function SortByStart(devices: seq<Device>): (sorted: seq<Device>)
    ensures |sorted| == |devices|
    ensures forall d :: d in sorted <==> d in devices
  {
    if |devices| == 0 then [] else InsertByStart(devices[0], SortByStart(devices[1..]))
  }

  function Lower(device: Device): Device {
    device.(start := device.start - device.size)
  }

  function Displacements(devices: seq<Device>): (changes: seq<Change>)
    ensures |changes| == |devices|
    ensures forall i :: 0 <= i < |devices| ==> changes[i] == Change(Lower(devices[i]), Displaced)
  {
    if |devices| == 0 then []
      else Displacements(devices[..|devices| - 1]) + [Change(Lower(devices[|devices| - 1]), Displaced)]
  }

  function Max(a: int, b: int): int {
    if a >= b then a else b
  }

  function Min(a: int, b: int): int {
    if a <= b then a else b
  }

  function Clamp(start: int, maximumStart: int): int {
    Max(1, Min(maximumStart, start))
  }

  /** The requested unit, or the nearest one between unit 1 and the last one at which the device fits. */
  ghost predicate IsNearest(unit: int, requested: int, last: int) {
    && (1 <= requested <= last ==> unit == requested)
    && (requested < 1 ==> unit == 1)
    && (requested > last ==> unit == last)
  }

  lemma ClampIsNearest(requested: int, last: int)
    requires last >= 1
    ensures IsNearest(Clamp(requested, last), requested, last)
  {
  }

  // ---- what the plan is, whatever the order of the displaced devices

  /** Every collided device moves down by its own height without meeting another device. */
  ghost predicate DisplacementWorks(collided: seq<Device>, rack: Rack, placed: seq<Device>) {
    && (forall d :: d in collided ==> Fits(Lower(d), rack, placed))
    && (forall d, e :: d in collided && e in collided ==> !Blocks(Lower(d), Lower(e)))
  }

  ghost function Outcome(racks: seq<Rack>, id: string, targetRackId: string, targetStart: int): Result<Plan, Error> {
    var devices := AllDevices(racks);
    match FindRack(racks, targetRackId)
    case None => Err(TargetRackNotFound)
    case Some(rack) =>
      match FindDevice(devices, id)
      case None => Err(DeviceNotFound)
      case Some(moving) =>
        if rack.units < moving.size then Err(TooTall)
        else Resolve(racks, Others(devices, id), moving, rack,
          moving.(rack := targetRackId, start := Clamp(targetStart, rack.units - moving.size + 1)))
  }

  ghost function Resolve(racks: seq<Rack>, remaining: seq<Device>, moving: Device, rack: Rack,
      moved: Device): Result<Plan, Error> {
    var collided := Colliding(remaining, moved);
    var kept := Without(remaining, collided);
    var target := Change(moved, Moved);
    if collided == [] then Ok(Plan([target], target))
    else if DisplacementWorks(collided, rack, kept + [moved]) then
      Ok(Plan([target] + Displacements(SortByStart(collided)), target))
    else if |collided| != 1 then Err(NoRoomToDisplace)
    else
      match FindRack(racks, moving.rack)
      case None => Err(SourceRackNotFound)
      case Some(source) =>
        var swapped := collided[0].(rack := moving.rack, start := moving.start);
        if Fits(swapped, source, kept + [moved]) then Ok(Plan([target, Change(swapped, Swapped)], target))
        else Err(NoRoomToSwap)
  }

  // ---- the planner

  lemma FitsMore(device: Device, rack: Rack, placed: seq<Device>, more: seq<Device>)
    ensures Fits(device, rack, placed + more) <==>
      Fits(device, rack, placed) && forall item :: item in more ==> !Blocks(item, device)
  {
  }

  function Lowered(devices: seq<Device>): (lowered: seq<Device>)
    ensures |lowered| == |devices|
    ensures forall d :: d in devices ==> Lower(d) in lowered
    ensures forall l :: l in lowered ==> exists d :: d in devices && Lower(d) == l
  {
    if |devices| == 0 then [] else Lowered(devices[..|devices| - 1]) + [Lower(devices[|devices| - 1])]
  }

  lemma BlocksSymmetric(a: Device, b: Device)
    ensures Blocks(a, b) <==> Blocks(b, a)
  {
  }

  /** The next device extends the chain exactly if its lowered slot fits beside everything placed so far. */
  lemma ChainStep(chain: seq<Device>, device: Device, rack: Rack, placed: seq<Device>)
    requires DisplacementWorks(chain, rack, placed)
    ensures DisplacementWorks(chain + [device], rack, placed) <==> Fits(Lower(device), rack, placed + Lowered(chain))
  {
    hide Fits, Blocks;
    FitsMore(Lower(device), rack, placed, Lowered(chain));
    var more := chain + [device];
    assert forall d :: d in more <==> d in chain || d == device;
    forall d ensures Blocks(Lower(d), Lower(device)) <==> Blocks(Lower(device), Lower(d)) {
      BlocksSymmetric(Lower(d), Lower(device));
    }
    assert !Blocks(Lower(device), Lower(device)) by {
      NotItself(Lower(device));
    }
  }

  lemma NotItself(device: Device)
    ensures !Blocks(device, device)
  {
  }

  lemma PartOfChain(chain: seq<Device>, part: seq<Device>, rack: Rack, placed: seq<Device>)
    requires forall d :: d in part ==> d in chain
    ensures DisplacementWorks(chain, rack, placed) ==> DisplacementWorks(part, rack, placed)
  {
  }

  /** The displacement loop: `collided` in ascending start order, each lowered by its own height if it fits. */
  method Displace(collided: seq<Device>, rack: Rack, placed: seq<Device>)
    returns (canDisplace: bool, displaced: seq<Change>)
    ensures canDisplace <==> DisplacementWorks(collided, rack, placed)
    ensures canDisplace ==> displaced == Displacements(SortByStart(collided))
  {
    hide DisplacementWorks, SortByStart, Lowered, Displacements, Fits;
    var sorted := SortByStart(collided);
    var occupied := placed;
    canDisplace, displaced := true, [];
    EmptyChain(rack, placed);
    for i := 0 to |sorted|
      invariant canDisplace
      invariant occupied == placed + Lowered(sorted[..i])
      invariant displaced == Displacements(sorted[..i])
      invariant DisplacementWorks(sorted[..i], rack, placed)
    {
      var candidate := Lower(sorted[i]);
      ChainStep(sorted[..i], sorted[i], rack, placed);
      Extend(sorted, i);
      if !Fits(candidate, rack, occupied) {
        canDisplace := false;
        PartOfChain(collided, sorted[..i + 1], rack, placed);
        return;
      }
      occupied := occupied + [candidate];
      displaced := displaced + [Change(candidate, Displaced)];
    }
    assert sorted[..|sorted|] == sorted;
    PartOfChain(sorted, collided, rack, placed);
  }

  lemma EmptyChain(rack: Rack, placed: seq<Device>)
    ensures DisplacementWorks([], rack, placed) && Lowered([]) == [] && Displacements([]) == []
  {
  }

  lemma Extend(devices: seq<Device>, i: nat)
    requires i < |devices|
    ensures devices[..i + 1] == devices[..i] + [devices[i]]
    ensures Lowered(devices[..i + 1]) == Lowered(devices[..i]) + [Lower(devices[i])]
    ensures Displacements(devices[..i + 1]) == Displacements(devices[..i]) + [Change(Lower(devices[i]), Displaced)]
    ensures forall d :: d in devices[..i + 1] ==> d in devices
  {
  }

  /** The plan does not depend on the order in which the displacement loop meets the devices. */
  method PlanRackPlacement(racks: seq<Rack>, id: string, targetRackId: string, targetStart: int)
    returns (r: Result<Plan, Error>)
    ensures r == Outcome(racks, id, targetRackId, targetStart)
  {
    hide DisplacementWorks, SortByStart, Displacements, Fits, Colliding, Without, Others, AllDevices, FindRack,
      FindDevice;
    var targetRack := FindRack(racks, targetRackId);
    if targetRack.None? {
      return Err(TargetRackNotFound);
    }
    var devices := AllDevices(racks);
    var found := FindDevice(devices, id);
    if found.None? {
      return Err(DeviceNotFound);
    }
    var moving, rack := found.value, targetRack.value;
    var maximumStart := rack.units - moving.size + 1;
    if maximumStart < 1 {
      return Err(TooTall);
    }
    var nextMoving := moving.(rack := targetRackId, start := Clamp(targetStart, maximumStart));
    var remaining := Others(devices, moving.id);
    var collided := Colliding(remaining, nextMoving);
    var target := Change(nextMoving, Moved);
    if |collided| == 0 {
      return Ok(Plan([target], target));
    }
    var withoutCollided := Without(remaining, collided);
    var canDisplace, displaced := Displace(collided, rack, withoutCollided + [nextMoving]);
    if canDisplace {
      return Ok(Plan([target] + displaced, target));
    }
    if |collided| != 1 {
      return Err(NoRoomToDisplace);
    }
    var sourceRack := FindRack(racks, moving.rack);
    if sourceRack.None? {
      return Err(SourceRackNotFound);
    }
    var swapped := collided[0].(rack := moving.rack, start := moving.start);
    if !Fits(swapped, sourceRack.value, withoutCollided + [nextMoving]) {
      return Err(NoRoomToSwap);
    }
    r := Ok(Plan([target, Change(swapped, Swapped)], target));
  }

  // ---- applying a plan

  /** One device row after the updates of a plan. */
  function Updated(device: Device, changes: seq<Change>): (r: Device)
    ensures r.id == device.id && r.size == device.size
  {
    if |changes| == 0 then device
    else
      var change := changes[|changes| - 1].device;
      if change.id == device.id then device.(rack := change.rack, start := change.start)
      else Updated(device, changes[..|changes| - 1])
  }

  ghost predicate InBounds(device: Device, racks: seq<Rack>) {
    var rack := FindRack(racks, device.rack);
    rack.Some? && device.start >= 1 && device.End() <= rack.value.units
  }

  /** Every device lies in its rack, and no two devices of a rack overlap. */
  ghost predicate Tidy(devices: set<Device>, racks: seq<Rack>) {
    && (forall d :: d in devices ==> InBounds(d, racks))
    && (forall d, e :: d in devices && e in devices ==> !Blocks(d, e))
  }

  ghost predicate UniqueIds(devices: set<Device>) {
    forall d, e :: d in devices && e in devices && d.id == e.id ==> d == e
  }

  function AsSet(devices: seq<Device>): set<Device> {
    set d | d in devices
  }

  function After(devices: seq<Device>, changes: seq<Change>): set<Device> {
    set d | d in devices :: Updated(d, changes)
  }

  lemma {:induction false} UpdatedTo(device: Device, changes: seq<Change>, to: Device)
    requires forall c :: c in changes && c.device.id == device.id ==>
      c.device.rack == to.rack && c.device.start == to.start
    ensures Updated(device, changes) ==
      if exists c :: c in changes && c.device.id == device.id then device.(rack := to.rack, start := to.start)
        else device
  {
    if |changes| > 0 {
      var last, rest := changes[|changes| - 1], changes[..|changes| - 1];
      assert forall c :: c in changes <==> c == last || c in rest;
      UpdatedTo(device, rest, to);
    }
  }

  /** A plan in parts: what the moved, the collided and the kept devices become. */
  ghost predicate Becomes(changes: seq<Change>, moving: Device, moved: Device, collided: seq<Device>, kept: seq<Device>,
      to: Device -> Device) {
    && Updated(moving, changes) == moved
    && (forall d :: d in collided ==> Updated(d, changes) == to(d))
    && (forall d :: d in kept ==> Updated(d, changes) == d)
  }

  /** The parts do not meet: the moved one misses the kept ones, and the collided ones fit beside both. */
  ghost predicate PartsFit(racks: seq<Rack>, moved: Device, collided: seq<Device>, kept: seq<Device>,
      to: Device -> Device) {
    && InBounds(moved, racks)
    && (forall d :: d in kept ==> InBounds(d, racks) && !Blocks(d, moved))
    && (forall d, e :: d in kept && e in kept ==> !Blocks(d, e))
    && (forall d :: d in collided ==> InBounds(to(d), racks) && !Blocks(moved, to(d)))
    && (forall d, k :: d in collided && k in kept ==> !Blocks(k, to(d)))
    && (forall d, e :: d in collided && e in collided ==> !Blocks(to(d), to(e)))
  }

  lemma PartsAreTidy(racks: seq<Rack>, devices: seq<Device>, changes: seq<Change>, moving: Device, moved: Device,
                     collided: seq<Device>, kept: seq<Device>, to: Device -> Device)
    requires forall d :: d in devices ==> d == moving || d in collided || d in kept
    requires Becomes(changes, moving, moved, collided, kept, to) && PartsFit(racks, moved, collided, kept, to)
    ensures Tidy(After(devices, changes), racks)
  {
  }

  /** What the planner may rely on: ids are unique and the devices that are not moved are in order. */
  ghost predicate Ready(racks: seq<Rack>, id: string) {
    && UniqueIds(AsSet(AllDevices(racks)))
    && Tidy(AsSet(Others(AllDevices(racks), id)), racks)
  }

  /** The devices that a drop touches besides the moved one. */
  function Touched(racks: seq<Rack>, moved: Device): seq<Device> {
    Colliding(Others(AllDevices(racks), moved.id), moved)
  }

  /**
   * Applied, every plan leaves all devices inside their racks and apart, whatever slot the moved device
   * had before; ids and sizes stay, only the moved device and the ones it collides with change, and the
   * moved one lands on the requested unit of the target rack, or the nearest one that it fits on.
   */
  lemma PlanIsSafe(racks: seq<Rack>, id: string, targetRackId: string, targetStart: int)
    requires Ready(racks, id) && Outcome(racks, id, targetRackId, targetStart).Ok?
    ensures var devices, plan := AllDevices(racks), Outcome(racks, id, targetRackId, targetStart).value;
      var moved := plan.target.device;
      && FindDevice(devices, id).Some? && FindRack(racks, targetRackId).Some?
      && Tidy(After(devices, plan.changes), racks)
      && Updated(FindDevice(devices, id).value, plan.changes) == moved
      && moved.rack == targetRackId
      && IsNearest(moved.start, targetStart, FindRack(racks, targetRackId).value.units - moved.size + 1)
      && (forall d :: d in devices && d.id != id && d !in Touched(racks, moved) ==> Updated(d, plan.changes) == d)
  {
    hide Colliding, Without, Others, AllDevices, DisplacementWorks, Fits, Updated, Tidy, UniqueIds, InBounds, Clamp,
      IsNearest;
    var devices := AllDevices(racks);
    var moving, rack := FindDevice(devices, id).value, FindRack(racks, targetRackId).value;
    var moved := moving.(rack := targetRackId, start := Clamp(targetStart, rack.units - moving.size + 1));
    var remaining := Others(devices, id);
    var collided := Colliding(remaining, moved);
    var kept := Without(remaining, collided);
    var plan := Outcome(racks, id, targetRackId, targetStart).value;
    ClampIsNearest(targetStart, rack.units - moving.size + 1);
    MovedInBounds(racks, rack, moved, targetStart);
    KeptParts(racks, remaining, moved, collided, kept);
    PartsCover(devices, id, moving, collided, kept);
    if collided == [] {
      MoveParts(racks, moving, moved, kept);
      PartsAreTidy(racks, devices, plan.changes, moving, moved, collided, kept, Lower);
    } else if DisplacementWorks(collided, rack, kept + [moved]) {
      DisplaceParts(racks, rack, moving, moved, collided, kept);
      PartsAreTidy(racks, devices, plan.changes, moving, moved, collided, kept, Lower);
    } else {
      SwapParts(racks, FindRack(racks, moving.rack).value, moving, moved, collided, kept);
      PartsAreTidy(racks, devices, plan.changes, moving, moved, collided, kept, SwapTo(moving));
    }
  }

  // ---- the outcome in terms of slots only

  ghost predicate InSome(racks: seq<Rack>, d: Device) {
    exists r :: r in racks && d in r.devices
  }

  /** Two slots of one rack begin before the other's end. */
  ghost predicate ShareUnit(a: Device, b: Device) {
    a.rack == b.rack && a.start < b.start + b.size && b.start < a.start + a.size
  }

  ghost predicate InSlot(u: int, d: Device) {
    d.start <= u < d.start + d.size
  }

  /** Another device stands in the way of the moved one. */
  ghost predicate IsHit(racks: seq<Rack>, moved: Device, d: Device) {
    InSome(racks, d) && d.id != moved.id && ShareUnit(d, moved)
  }

  ghost predicate IsKept(racks: seq<Rack>, moved: Device, d: Device) {
    InSome(racks, d) && d.id != moved.id && !ShareUnit(d, moved)
  }

  /** The slot lies in the rack and shares no unit with the moved device or with one that stays. */
  ghost predicate IsRoomFor(racks: seq<Rack>, rack: Rack, moved: Device, slot: Device) {
    && slot.start >= 1 && slot.start + slot.size - 1 <= rack.units && !ShareUnit(slot, moved)
    && forall k :: IsKept(racks, moved, k) ==> !ShareUnit(slot, k)
  }

  /** The slot of a device that moves down by its own height. */
  function OneDown(d: Device): Device {
    Device(d.id, d.rack, d.start - d.size, d.size)
  }

  /** Every device in the way can move down by its own height, all of them at once. */
  ghost predicate AllMoveDown(racks: seq<Rack>, rack: Rack, moved: Device) {
    && (forall d :: IsHit(racks, moved, d) ==> IsRoomFor(racks, rack, moved, OneDown(d)))
    && (forall d, e :: IsHit(racks, moved, d) && IsHit(racks, moved, e) && d != e ==>
          !ShareUnit(OneDown(d), OneDown(e)))
  }

  /** One change for each device in the way, in ascending order of the units where they stood. */
  ghost predicate ReportsDown(racks: seq<Rack>, moved: Device, changes: seq<Change>) {
    && (forall c :: c in changes ==> c.reason == Displaced && exists d ::
          IsHit(racks, moved, d) && c.device == OneDown(d))
    && (forall d :: IsHit(racks, moved, d) ==> Change(OneDown(d), Displaced) in changes)
    && (forall i, j :: 0 <= i < j < |changes| ==>
          changes[i].device.start + changes[i].device.size <= changes[j].device.start + changes[j].device.size)
  }

  /** What the planner answers for a moved device that fits into the target rack. */
  ghost predicate IsAnswer(racks: seq<Rack>, rack: Rack, moving: Device, moved: Device, r: Result<Plan, Error>) {
    var target := Change(moved, Moved);
    if forall d :: !IsHit(racks, moved, d) then r == Ok(Plan([target], target))
    else if AllMoveDown(racks, rack, moved) then
      && r.Ok? && r.value.target == target && |r.value.changes| > 0 && r.value.changes[0] == target
      && ReportsDown(racks, moved, r.value.changes[1..])
    else if exists d, e :: IsHit(racks, moved, d) && IsHit(racks, moved, e) && d != e then r == Err(NoRoomToDisplace)
    else if forall i :: 0 <= i < |racks| ==> racks[i].id != moving.rack then r == Err(SourceRackNotFound)
    else
      forall d, i :: IsHit(racks, moved, d) && IsFirst(racks, moving.rack, i) ==>
        var swapped := Device(d.id, moving.rack, moving.start, d.size);
        r == if IsRoomFor(racks, racks[i], moved, swapped) then Ok(Plan([target, Change(swapped, Swapped)], target))
          else Err(NoRoomToSwap)
  }

  /** The rack that an id names is the first one listed with it. */
  ghost predicate IsFirst(racks: seq<Rack>, id: string, i: int) {
    0 <= i < |racks| && racks[i].id == id && forall j :: 0 <= j < i ==> racks[j].id != id
  }

  lemma {:induction false} FoundIsFirst(racks: seq<Rack>, id: string)
    ensures FindRack(racks, id).None? <==> forall i :: 0 <= i < |racks| ==> racks[i].id != id
    ensures forall i :: IsFirst(racks, id, i) ==> FindRack(racks, id) == Some(racks[i])
  {
    if |racks| > 0 && racks[0].id != id {
      FoundIsFirst(racks[1..], id);
      forall i | IsFirst(racks, id, i)
        ensures FindRack(racks, id) == Some(racks[i])
      {
        assert racks[1..][i - 1] == racks[i] && IsFirst(racks[1..], id, i - 1);
      }
      assert forall j :: 1 <= j < |racks| ==> racks[1..][j - 1] == racks[j];
    }
  }

  lemma {:induction false} AllDevicesAre(racks: seq<Rack>, d: Device)
    ensures d in AllDevices(racks) <==> InSome(racks, d)
  {
    if |racks| > 0 {
      AllDevicesAre(racks[1..], d);
      if r :| r in racks && d in r.devices {
        assert r == racks[0] || r in racks[1..];
      }
    }
  }

  /** For devices of at least one unit this means that some unit belongs to both. */
  lemma SharedUnit(a: Device, b: Device)
    requires a.size >= 1 && b.size >= 1
    ensures ShareUnit(a, b) <==> a.rack == b.rack && exists u :: InSlot(u, a) && InSlot(u, b)
  {
    if ShareUnit(a, b) {
      var u := if a.start >= b.start then a.start else b.start;
      assert InSlot(u, a) && InSlot(u, b);
    }
  }

  ghost predicate Ascends(devices: seq<Device>) {
    forall i, j :: 0 <= i < j < |devices| ==> devices[i].start <= devices[j].start
  }

  lemma {:induction false} InsertedAscends(device: Device, sorted: seq<Device>)
    requires Ascends(sorted)
    ensures Ascends(InsertByStart(device, sorted))
  {
    if |sorted| > 0 && device.start > sorted[0].start {
      InsertedAscends(device, sorted[1..]);
      var rest := InsertByStart(device, sorted[1..]);
      forall j | 0 <= j < |rest|
        ensures sorted[0].start <= rest[j].start
      {
        assert rest[j] in rest;
        assert rest[j] == device || rest[j] in sorted[1..];
      }
    }
  }

  lemma {:induction false} SortAscends(devices: seq<Device>)
    ensures Ascends(SortByStart(devices))
  {
    if |devices| > 0 {
      SortAscends(devices[1..]);
      InsertedAscends(devices[0], SortByStart(devices[1..]));
    }
  }

  lemma Hits(racks: seq<Rack>, moved: Device, d: Device)
    ensures d in Touched(racks, moved) <==> IsHit(racks, moved, d)
  {
    hide AllDevices, Colliding, Others;
    AllDevicesAre(racks, d);
  }

  lemma Keeps(racks: seq<Rack>, moved: Device, d: Device)
    requires UniqueIds(AsSet(AllDevices(racks)))
    ensures d in Without(Others(AllDevices(racks), moved.id), Touched(racks, moved)) <==> IsKept(racks, moved, d)
  {
    hide AllDevices, Colliding, Others, Without, IsHit, ShareUnit;
    AllDevicesAre(racks, d);
    Hits(racks, moved, d);
    if HasId(Touched(racks, moved), d.id) && InSome(racks, d) {
      var e :| e in Touched(racks, moved) && e.id == d.id;
      AllDevicesAre(racks, e);
      Hits(racks, moved, e);
      assert e in AsSet(AllDevices(racks)) && d in AsSet(AllDevices(racks));
    }
    assert IsHit(racks, moved, d) <==> InSome(racks, d) && d.id != moved.id && ShareUnit(d, moved) by {
      HitMeans(racks, moved, d);
    }
  }

  lemma HitMeans(racks: seq<Rack>, moved: Device, d: Device)
    ensures IsHit(racks, moved, d) <==> InSome(racks, d) && d.id != moved.id && ShareUnit(d, moved)
  {
  }

  /** Beside the devices that stay and the moved one, a slot of another device fits exactly if there is room for it. */
  lemma FitsIsRoom(racks: seq<Rack>, rack: Rack, moved: Device, slot: Device)
    requires UniqueIds(AsSet(AllDevices(racks)))
    requires exists d :: IsHit(racks, moved, d) && d.id == slot.id
    ensures Fits(slot, rack, Without(Others(AllDevices(racks), moved.id), Touched(racks, moved)) + [moved]) <==>
      IsRoomFor(racks, rack, moved, slot)
  {
    hide AllDevices, Others, Without, Touched;
    var kept := Without(Others(AllDevices(racks), moved.id), Touched(racks, moved));
    forall k
      ensures k in kept <==> IsKept(racks, moved, k)
    {
      Keeps(racks, moved, k);
    }
    assert forall k :: k in kept + [moved] <==> k in kept || k == moved;
    assert forall k :: k in kept ==> k.id != slot.id by {
      KeptIsNotHit(racks, moved, slot.id);
    }
  }

  lemma KeptIsNotHit(racks: seq<Rack>, moved: Device, id: string)
    requires UniqueIds(AsSet(AllDevices(racks)))
    requires exists d :: IsHit(racks, moved, d) && d.id == id
    ensures forall k :: IsKept(racks, moved, k) ==> k.id != id
  {
    hide AllDevices;
    var d :| IsHit(racks, moved, d) && d.id == id;
    forall k | IsKept(racks, moved, k)
      ensures k.id != id
    {
      AllDevicesAre(racks, d);
      AllDevicesAre(racks, k);
      assert d in AsSet(AllDevices(racks)) && k in AsSet(AllDevices(racks));
    }
  }

  lemma DisplacementIsMoveDown(racks: seq<Rack>, rack: Rack, moved: Device)
    requires UniqueIds(AsSet(AllDevices(racks)))
    ensures DisplacementWorks(Touched(racks, moved), rack,
      Without(Others(AllDevices(racks), moved.id), Touched(racks, moved)) + [moved]) <==>
      AllMoveDown(racks, rack, moved)
  {
    hide AllDevices, Others, Without, Touched, Fits, IsRoomFor;
    forall d
      ensures d in Touched(racks, moved) <==> IsHit(racks, moved, d)
      ensures Lower(d) == OneDown(d)
    {
      Hits(racks, moved, d);
    }
    forall d | IsHit(racks, moved, d)
      ensures Fits(Lower(d), rack, Without(Others(AllDevices(racks), moved.id), Touched(racks, moved)) + [moved]) <==>
        IsRoomFor(racks, rack, moved, OneDown(d))
    {
      FitsIsRoom(racks, rack, moved, Lower(d));
    }
    forall d, e | IsHit(racks, moved, d) && IsHit(racks, moved, e)
      ensures d != e ==> d.id != e.id
    {
      HitsDiffer(racks, moved, d, e);
    }
  }

  lemma HitsDiffer(racks: seq<Rack>, moved: Device, d: Device, e: Device)
    requires UniqueIds(AsSet(AllDevices(racks))) && IsHit(racks, moved, d) && IsHit(racks, moved, e)
    ensures d != e ==> d.id != e.id
  {
    hide AllDevices;
    AllDevicesAre(racks, d);
    AllDevicesAre(racks, e);
    assert d in AsSet(AllDevices(racks)) && e in AsSet(AllDevices(racks));
  }

  lemma ReportedDown(racks: seq<Rack>, moved: Device)
    ensures ReportsDown(racks, moved, Displacements(SortByStart(Touched(racks, moved))))
  {
    hide Touched, IsHit, SortByStart, Displacements;
    var sorted := SortByStart(Touched(racks, moved));
    var changes := Displacements(sorted);
    forall c | c in changes
      ensures c.reason == Displaced && exists d :: IsHit(racks, moved, d) && c.device == OneDown(d)
    {
      var i :| 0 <= i < |changes| && changes[i] == c;
      assert sorted[i] in sorted;
      Hits(racks, moved, sorted[i]);
      assert c.device == OneDown(sorted[i]);
    }
    forall d | IsHit(racks, moved, d)
      ensures Change(OneDown(d), Displaced) in changes
    {
      Hits(racks, moved, d);
      var i :| 0 <= i < |sorted| && sorted[i] == d;
      assert changes[i] == Change(OneDown(d), Displaced);
    }
    SortAscends(Touched(racks, moved));
  }

  /** No id is listed twice. */
  ghost predicate ListedOnce(devices: seq<Device>) {
    forall i, j :: 0 <= i < j < |devices| ==> devices[i].id != devices[j].id
  }

  lemma {:induction false} OthersOnce(devices: seq<Device>, id: string)
    requires ListedOnce(devices)
    ensures ListedOnce(Others(devices, id))
  {
    if |devices| > 0 {
      OthersOnce(devices[1..], id);
      assert forall d :: d in Others(devices[1..], id) ==> d.id != devices[0].id;
    }
  }

  lemma {:induction false} CollidingOnce(devices: seq<Device>, moved: Device)
    requires ListedOnce(devices)
    ensures ListedOnce(Colliding(devices, moved))
  {
    if |devices| > 0 {
      CollidingOnce(devices[1..], moved);
      assert forall d :: d in Colliding(devices[1..], moved) ==> d.id != devices[0].id;
    }
  }

  lemma FoundDevice(racks: seq<Rack>, id: string, moving: Device)
    requires UniqueIds(AsSet(AllDevices(racks))) && InSome(racks, moving) && moving.id == id
    ensures FindDevice(AllDevices(racks), id) == Some(moving)
  {
    hide AllDevices, InSome;
    AllDevicesAre(racks, moving);
    var found := FindDevice(AllDevices(racks), id);
    assert found.value in AsSet(AllDevices(racks)) && moving in AsSet(AllDevices(racks));
  }

  lemma RefusalIs(racks: seq<Rack>, id: string, target: string, start: int)
    ensures var rack, moving, r :=
        FindRack(racks, target), FindDevice(AllDevices(racks), id), Outcome(racks, id, target, start);
      && (r == Err(TargetRackNotFound) <==> rack.None?)
      && (r == Err(DeviceNotFound) <==> rack.Some? && moving.None?)
      && (r == Err(TooTall) <==> rack.Some? && moving.Some? && moving.value.size > rack.value.units)
  {
    hide AllDevices, FindRack, FindDevice, Others, Colliding, Without, DisplacementWorks, Fits, Clamp;
  }

  /** An unknown rack, then an unknown device, then a device taller than the rack is refused. */
  lemma PlanRefuses(racks: seq<Rack>, id: string, target: string, start: int)
    requires UniqueIds(AsSet(AllDevices(racks)))
    ensures Outcome(racks, id, target, start) == Err(TargetRackNotFound) <==>
      forall i :: 0 <= i < |racks| ==> racks[i].id != target
    ensures Outcome(racks, id, target, start) == Err(DeviceNotFound) <==>
      (exists i :: 0 <= i < |racks| && racks[i].id == target) && forall d :: InSome(racks, d) ==> d.id != id
    ensures Outcome(racks, id, target, start) == Err(TooTall) <==>
      exists i, moving ::
        IsFirst(racks, target, i) && InSome(racks, moving) && moving.id == id && moving.size > racks[i].units
  {
    hide AllDevices, FindRack, FindDevice, Outcome, UniqueIds, InSome;
    RefusalIs(racks, id, target, start);
    FoundIsFirst(racks, target);
    var found := FindDevice(AllDevices(racks), id);
    if found.Some? {
      AllDevicesAre(racks, found.value);
    }
    forall moving | InSome(racks, moving) && moving.id == id
      ensures found == Some(moving)
    {
      FoundDevice(racks, id, moving);
    }
    if i :| 0 <= i < |racks| && racks[i].id == target {
      var first := FirstWith(racks, target, i);
    }
  }

  lemma FirstWith(racks: seq<Rack>, id: string, i: int) returns (first: int)
    requires 0 <= i < |racks| && racks[i].id == id
    ensures IsFirst(racks, id, first)
    decreases i
  {
    if j :| 0 <= j < i && racks[j].id == id {
      first := FirstWith(racks, id, j);
    } else {
      first := i;
    }
  }

  /**
   * For every list of racks in which no device is listed twice, and for every accepted drop: a device that fits into
   * the target rack goes to the nearest unit, and the drop is answered by a plain move, by moving all devices in the
   * way down, by exchanging the device with the only one in the way, or by a refusal.
   */
  lemma PlanAnswers(racks: seq<Rack>, target: int, moving: Device, start: int, unit: int)
    requires UniqueIds(AsSet(AllDevices(racks))) && InSome(racks, moving)
    requires 0 <= target < |racks| && IsFirst(racks, racks[target].id, target) && moving.size <= racks[target].units
    requires ListedOnce(AllDevices(racks)) || Outcome(racks, moving.id, racks[target].id, start).Ok?
    requires IsNearest(unit, start, racks[target].units - moving.size + 1)
    ensures IsAnswer(racks, racks[target], moving, Device(moving.id, racks[target].id, unit, moving.size),
      Outcome(racks, moving.id, racks[target].id, start))
  {
    hide AllDevices, FindDevice, FindRack, Resolve, IsAnswer, Clamp, ListedOnce, IsFirst, UniqueIds;
    FoundIsFirst(racks, racks[target].id);
    FoundDevice(racks, moving.id, moving);
    ClampIsNearest(start, racks[target].units - moving.size + 1);
    ResolvedAnswer(racks, racks[target], moving, Device(moving.id, racks[target].id, unit, moving.size));
  }

  lemma TwoHits(racks: seq<Rack>, moved: Device)
    requires ListedOnce(AllDevices(racks)) && |Touched(racks, moved)| > 1
    ensures exists d, e :: IsHit(racks, moved, d) && IsHit(racks, moved, e) && d != e
  {
    hide AllDevices, Others, Colliding, IsHit;
    var collided := Touched(racks, moved);
    OthersOnce(AllDevices(racks), moved.id);
    CollidingOnce(Others(AllDevices(racks), moved.id), moved);
    Hits(racks, moved, collided[0]);
    Hits(racks, moved, collided[1]);
  }

  lemma OnlyHit(racks: seq<Rack>, moved: Device)
    requires |Touched(racks, moved)| == 1
    ensures forall d :: IsHit(racks, moved, d) <==> d == Touched(racks, moved)[0]
  {
    hide Touched, IsHit;
    forall d {
      Hits(racks, moved, d);
    }
  }

  lemma NoHit(racks: seq<Rack>, moved: Device)
    ensures Touched(racks, moved) == [] <==> forall d :: !IsHit(racks, moved, d)
  {
    hide Touched, IsHit;
    forall d {
      Hits(racks, moved, d);
    }
    if Touched(racks, moved) != [] {
      Hits(racks, moved, Touched(racks, moved)[0]);
    }
  }

  lemma ResolvedAnswer(racks: seq<Rack>, rack: Rack, moving: Device, moved: Device)
    requires UniqueIds(AsSet(AllDevices(racks))) && moved.id == moving.id
    requires ListedOnce(AllDevices(racks)) ||
      Resolve(racks, Others(AllDevices(racks), moving.id), moving, rack, moved).Ok?
    ensures IsAnswer(racks, rack, moving, moved,
      Resolve(racks, Others(AllDevices(racks), moving.id), moving, rack, moved))
  {
    hide AllDevices, Others, Without, Colliding, SortByStart, Displacements, DisplacementWorks, Fits, IsRoomFor,
      AllMoveDown, ReportsDown, FindRack, IsHit, UniqueIds, ListedOnce;
    var collided := Touched(racks, moved);
    var kept := Without(Others(AllDevices(racks), moved.id), collided);
    NoHit(racks, moved);
    DisplacementIsMoveDown(racks, rack, moved);
    ReportedDown(racks, moved);
    FoundIsFirst(racks, moving.rack);
    if |collided| == 1 {
      OnlyHit(racks, moved);
      var swapped := Device(collided[0].id, moving.rack, moving.start, collided[0].size);
      forall i | IsFirst(racks, moving.rack, i)
        ensures Fits(swapped, racks[i], kept + [moved]) <==> IsRoomFor(racks, racks[i], moved, swapped)
      {
        FitsIsRoom(racks, racks[i], moved, swapped);
      }
    } else if |collided| > 1 && ListedOnce(AllDevices(racks)) {
      TwoHits(racks, moved);
    }
  }

  /** The three kinds of accepted drops, by their changes. */
  ghost predicate IsPlainMove(racks: seq<Rack>, moved: Device, changes: seq<Change>) {
    (forall d :: !IsHit(racks, moved, d)) && changes == [Change(moved, Moved)]
  }

  ghost predicate IsMoveDown(racks: seq<Rack>, moved: Device, changes: seq<Change>) {
    |changes| > 0 && changes[0] == Change(moved, Moved) && ReportsDown(racks, moved, changes[1..])
  }

  ghost predicate IsExchange(racks: seq<Rack>, moving: Device, moved: Device, changes: seq<Change>) {
    exists d, i :: IsHit(racks, moved, d) && (forall e :: IsHit(racks, moved, e) ==> e == d) &&
      IsFirst(racks, moving.rack, i) &&
      IsRoomFor(racks, racks[i], moved, Device(d.id, moving.rack, moving.start, d.size)) &&
      changes == [Change(moved, Moved), Change(Device(d.id, moving.rack, moving.start, d.size), Swapped)]
  }

  lemma AnswerShape(racks: seq<Rack>, rack: Rack, moving: Device, moved: Device, r: Result<Plan, Error>)
    requires IsAnswer(racks, rack, moving, moved, r) && r.Ok?
    ensures || IsPlainMove(racks, moved, r.value.changes) || IsMoveDown(racks, moved, r.value.changes)
      || IsExchange(racks, moving, moved, r.value.changes)
  {
    hide IsHit, IsFirst, IsRoomFor, AllMoveDown, ReportsDown;
    if d :| IsHit(racks, moved, d) {
      if i :| 0 <= i < |racks| && racks[i].id == moving.rack {
        var first := FirstWith(racks, moving.rack, i);
      }
    }
  }

  function SwapTo(moving: Device): Device -> Device {
    (d: Device) => d.(rack := moving.rack, start := moving.start)
  }

  lemma MovedInBounds(racks: seq<Rack>, rack: Rack, moved: Device, targetStart: int)
    requires FindRack(racks, moved.rack) == Some(rack) && rack.units >= moved.size
    requires moved.start == Clamp(targetStart, rack.units - moved.size + 1)
    ensures InBounds(moved, racks)
  {
  }

  /** The kept devices are in order and miss the moved one. */
  ghost predicate KeptFit(racks: seq<Rack>, moved: Device, kept: seq<Device>) {
    && (forall d :: d in kept ==> InBounds(d, racks) && !Blocks(d, moved))
    && (forall d, e :: d in kept && e in kept ==> !Blocks(d, e))
  }

  lemma KeptParts(racks: seq<Rack>, remaining: seq<Device>, moved: Device, collided: seq<Device>, kept: seq<Device>)
    requires Tidy(AsSet(remaining), racks)
    requires collided == Colliding(remaining, moved) && kept == Without(remaining, collided)
    ensures KeptFit(racks, moved, kept)
  {
  }

  /** Ids tell the parts apart. */
  ghost predicate Apart(moving: Device, collided: seq<Device>, kept: seq<Device>) {
    && (forall d :: d in collided ==> d.id != moving.id)
    && (forall d :: d in kept ==> d.id != moving.id)
    && (forall d, e :: d in collided && e in kept ==> d.id != e.id)
    && (forall d, e :: d in collided && e in collided && d.id == e.id ==> d == e)
  }

  lemma PartsCover(devices: seq<Device>, id: string, moving: Device, collided: seq<Device>, kept: seq<Device>)
    requires UniqueIds(AsSet(devices)) && moving in devices && moving.id == id
    requires exists moved :: collided == Colliding(Others(devices, id), moved)
    requires kept == Without(Others(devices, id), collided)
    ensures forall d :: d in devices ==> d == moving || d in collided || d in kept
    ensures Apart(moving, collided, kept)
  {
    hide Overlaps, Colliding, Without, Others;
    forall d | d in devices
      ensures d == moving || d in collided || d in kept
    {
      assert d in AsSet(devices) && moving in AsSet(devices);
      if HasId(collided, d.id) {
        var e :| e in collided && e.id == d.id;
        assert e in AsSet(devices);
      }
    }
    forall d, e | d in collided && e in collided && d.id == e.id
      ensures d == e
    {
      assert d in AsSet(devices) && e in AsSet(devices);
    }
  }

  lemma MoveParts(racks: seq<Rack>, moving: Device, moved: Device, kept: seq<Device>)
    requires moved == moving.(rack := moved.rack, start := moved.start)
    requires InBounds(moved, racks) && KeptFit(racks, moved, kept) && Apart(moving, [], kept)
    ensures Becomes([Change(moved, Moved)], moving, moved, [], kept, Lower) && PartsFit(racks, moved, [], kept, Lower)
  {
  }

  lemma DisplacementChanges(collided: seq<Device>)
    ensures forall c :: c in Displacements(SortByStart(collided)) ==> exists d ::
      d in collided && c == Change(Lower(d), Displaced)
    ensures forall d :: d in collided ==> Change(Lower(d), Displaced) in Displacements(SortByStart(collided))
  {
  }

  ghost predicate Mentions(changes: seq<Change>, device: Device) {
    exists c :: c in changes && c.device == device
  }

  ghost predicate IsTarget(device: Device, collided: seq<Device>, to: Device -> Device) {
    exists d :: d in collided && device == to(d)
  }

  /** The changes of a plan, without their reasons: one for the moved device and one for each collided one. */
  ghost predicate ChangesAre(changes: seq<Change>, moved: Device, collided: seq<Device>, to: Device -> Device) {
    && Mentions(changes, moved)
    && (forall d :: d in collided ==> Mentions(changes, to(d)))
    && (forall c :: c in changes ==> c.device == moved || IsTarget(c.device, collided, to))
  }

  ghost predicate MovesOnly(to: Device -> Device) {
    forall d :: to(d) == d.(rack := to(d).rack, start := to(d).start)
  }

  lemma MentionedBecomes(device: Device, changes: seq<Change>, to: Device)
    requires to == device.(rack := to.rack, start := to.start) && Mentions(changes, to)
    requires forall c :: c in changes && c.device.id == device.id ==> c.device == to
    ensures Updated(device, changes) == to
  {
  }

  lemma ChangesBecome(changes: seq<Change>, moving: Device, moved: Device, collided: seq<Device>, kept: seq<Device>,
      to: Device -> Device)
    requires moved == moving.(rack := moved.rack, start := moved.start) && MovesOnly(to)
    requires ChangesAre(changes, moved, collided, to) && Apart(moving, collided, kept)
    ensures Becomes(changes, moving, moved, collided, kept, to)
  {
    hide Updated, Mentions, MovesOnly, IsTarget;
    MovingBecomes(changes, moving, moved, collided, kept, to);
    forall d | d in collided
      ensures Updated(d, changes) == to(d)
    {
      CollidedBecomes(changes, moving, moved, collided, kept, to, d);
    }
    forall d | d in kept
      ensures Updated(d, changes) == d
    {
      KeptStays(changes, moving, moved, collided, kept, to, d);
    }
  }

  lemma KeptStays(changes: seq<Change>, moving: Device, moved: Device, collided: seq<Device>, kept: seq<Device>,
                  to: Device -> Device, d: Device)
    requires moved.id == moving.id && MovesOnly(to)
    requires ChangesAre(changes, moved, collided, to) && Apart(moving, collided, kept) && d in kept
    ensures Updated(d, changes) == d
  {
    hide Updated, Mentions, MovesOnly;
    forall c | c in changes
      ensures c.device.id != d.id
    {
      if c.device != moved {
        var e :| e in collided && c.device == to(e);
        OnlyMoved(to, e);
      }
    }
    UpdatedTo(d, changes, d);
  }

  lemma MovingBecomes(changes: seq<Change>, moving: Device, moved: Device, collided: seq<Device>, kept: seq<Device>,
      to: Device -> Device)
    requires moved == moving.(rack := moved.rack, start := moved.start) && MovesOnly(to)
    requires ChangesAre(changes, moved, collided, to) && Apart(moving, collided, kept)
    ensures Updated(moving, changes) == moved
  {
    hide Updated, Mentions;
    MentionedBecomes(moving, changes, moved);
  }

  lemma CollidedBecomes(changes: seq<Change>, moving: Device, moved: Device, collided: seq<Device>, kept: seq<Device>,
                        to: Device -> Device, d: Device)
    requires moved == moving.(rack := moved.rack, start := moved.start) && MovesOnly(to)
    requires ChangesAre(changes, moved, collided, to) && Apart(moving, collided, kept) && d in collided
    ensures Updated(d, changes) == to(d)
  {
    hide Updated, Mentions, MovesOnly, IsTarget, Apart;
    OnlyMoved(to, d);
    forall c | c in changes && c.device.id == d.id
      ensures c.device == to(d)
    {
      TheChangeOf(moving, moved, collided, kept, to, d, c.device);
    }
    MentionedBecomes(d, changes, to(d));
  }

  lemma OnlyMoved(to: Device -> Device, d: Device)
    requires MovesOnly(to)
    ensures to(d) == d.(rack := to(d).rack, start := to(d).start)
  {
  }

  /** Ids say which collided device a change is about. */
  lemma TheChangeOf(moving: Device, moved: Device, collided: seq<Device>, kept: seq<Device>, to: Device -> Device,
      d: Device, changed: Device)
    requires moved.id == moving.id && MovesOnly(to) && Apart(moving, collided, kept) && d in collided
    requires (changed == moved || IsTarget(changed, collided, to)) && changed.id == d.id
    ensures changed == to(d)
  {
    hide MovesOnly;
    if changed != moved {
      var e :| e in collided && changed == to(e);
      OnlyMoved(to, e);
    }
  }

  lemma DisplacementsAre(moved: Device, collided: seq<Device>)
    ensures ChangesAre([Change(moved, Moved)] + Displacements(SortByStart(collided)), moved, collided, Lower)
  {
    hide SortByStart, Displacements, Lower;
    DisplacementChanges(collided);
    var first, rest := [Change(moved, Moved)], Displacements(SortByStart(collided));
    var changes := first + rest;
    assert forall c :: c in changes <==> c == first[0] || c in rest;
    assert Mentions(changes, moved) by {
      assert first[0] in changes;
    }
    forall d | d in collided
      ensures Mentions(changes, Lower(d))
    {
      assert Change(Lower(d), Displaced) in changes;
    }
  }

  lemma DisplaceParts(racks: seq<Rack>, rack: Rack, moving: Device, moved: Device,
                      collided: seq<Device>, kept: seq<Device>)
    requires moved == moving.(rack := moved.rack, start := moved.start)
    requires InBounds(moved, racks) && KeptFit(racks, moved, kept) && Apart(moving, collided, kept)
    requires FindRack(racks, moved.rack) == Some(rack) && forall d :: d in collided ==> d.rack == moved.rack
    requires DisplacementWorks(collided, rack, kept + [moved])
    ensures Becomes([Change(moved, Moved)] + Displacements(SortByStart(collided)), moving, moved, collided, kept, Lower)
    ensures PartsFit(racks, moved, collided, kept, Lower)
  {
    hide Blocks, SortByStart, Displacements, FindRack, Becomes, ChangesAre, InBounds, Fits;
    DisplacementsAre(moved, collided);
    var changes := [Change(moved, Moved)] + Displacements(SortByStart(collided));
    ChangesBecome(changes, moving, moved, collided, kept, Lower);
    forall d | d in collided
      ensures InBounds(Lower(d), racks) && !Blocks(moved, Lower(d)) && forall k :: k in kept ==> !Blocks(k, Lower(d))
    {
      FitsBeside(Lower(d), racks, rack, kept, moved);
    }
  }

  /** A device that fits beside the kept and the moved one lies in its rack and meets neither. */
  lemma FitsBeside(device: Device, racks: seq<Rack>, rack: Rack, kept: seq<Device>, moved: Device)
    requires FindRack(racks, device.rack) == Some(rack) && Fits(device, rack, kept + [moved])
    ensures InBounds(device, racks) && !Blocks(moved, device) && forall k :: k in kept ==> !Blocks(k, device)
  {
  }

  lemma SwapParts(racks: seq<Rack>, source: Rack, moving: Device, moved: Device,
                  collided: seq<Device>, kept: seq<Device>)
    requires moved == moving.(rack := moved.rack, start := moved.start)
    requires InBounds(moved, racks) && KeptFit(racks, moved, kept) && Apart(moving, collided, kept)
    requires FindRack(racks, moving.rack) == Some(source) && |collided| == 1
    requires Fits(SwapTo(moving)(collided[0]), source, kept + [moved])
    ensures Becomes([Change(moved, Moved), Change(SwapTo(moving)(collided[0]), Swapped)], moving, moved, collided, kept,
      SwapTo(moving))
    ensures PartsFit(racks, moved, collided, kept, SwapTo(moving))
  {
    hide Blocks, FindRack, Becomes, Fits;
    var to := SwapTo(moving);
    var swapped := to(collided[0]);
    var changes := [Change(moved, Moved), Change(swapped, Swapped)];
    assert forall d :: d in collided <==> d == collided[0];
    assert Change(moved, Moved) in changes && Change(swapped, Swapped) in changes;
    ChangesBecome(changes, moving, moved, collided, kept, to);
    FitsBeside(swapped, racks, source, kept, moved);
    NotItself(swapped);
  }

  /** A plan only names listed devices and known racks, and it always names the moved device. */
  lemma PlanMentions(racks: seq<Rack>, id: string, targetRackId: string, targetStart: int)
    requires Outcome(racks, id, targetRackId, targetStart).Ok?
    ensures var plan := Outcome(racks, id, targetRackId, targetStart).value;
      && plan.target in plan.changes && plan.target.device.id == id
      && forall c :: c in plan.changes ==> HasId(AllDevices(racks), c.device.id) && FindRack(racks, c.device.rack).Some?
  {
    hide DisplacementWorks, Fits, AllDevices, Overlaps, SortByStart, Displacements, Colliding, Without, Others,
      FindRack, FindDevice, HasId, Clamp;
    var devices := AllDevices(racks);
    var moving, rack := FindDevice(devices, id).value, FindRack(racks, targetRackId).value;
    var moved := moving.(rack := targetRackId, start := Clamp(targetStart, rack.units - moving.size + 1));
    var collided := Colliding(Others(devices, id), moved);
    IdsListed(devices, moving, Others(devices, id), moved, collided);
    DisplacementChanges(collided);
  }

  lemma IdsListed(devices: seq<Device>, moving: Device, remaining: seq<Device>, moved: Device, collided: seq<Device>)
    requires moving in devices && collided == Colliding(remaining, moved) && forall d :: d in remaining ==> d in devices
    ensures HasId(devices, moving.id) && forall d :: d in collided ==> HasId(devices, d.id) && d.rack == moved.rack
  {
    hide Colliding;
  }

  // ---- overlaps between imported rows

  /** A parsed import row; None stands for a value that is not an integer. */
  datatype ImportRow = ImportRow(rowNumber: int, rack: string, start: Option<int>, size: Option<int>)

  predicate WellFormed(row: ImportRow) {
    row.rack != "" && row.start.Some? && row.start.value >= 1 && row.size.Some? && row.size.value >= 1
  }

  predicate RowsOverlap(left: ImportRow, right: ImportRow) {
    && WellFormed(left) && WellFormed(right) && left.rack == right.rack
    && left.start.value <= right.start.value + right.size.value - 1
    && left.start.value + left.size.value - 1 >= right.start.value
  }

  /** Some row numbered `n` overlaps a row at another position. */
  ghost predicate InConflict(rows: seq<ImportRow>, n: int) {
    exists i, j :: 0 <= i < |rows| && 0 <= j < |rows| && i != j && RowsOverlap(rows[i], rows[j]) &&
      rows[i].rowNumber == n
  }

  /** The pairs examined before the pair (left, right). */
  ghost predicate Examined(i: int, j: int, left: int, right: int) {
    i < j && (i < left || (i == left && j < right))
  }

  ghost predicate InExamined(rows: seq<ImportRow>, left: int, right: int, n: int) {
    exists i, j :: 0 <= i < |rows| && 0 <= j < |rows| && Examined(i, j, left, right) && RowsOverlap(rows[i], rows[j]) &&
      (rows[i].rowNumber == n || rows[j].rowNumber == n)
  }

  ghost predicate Collected(conflicts: seq<int>, rows: seq<ImportRow>, left: int, right: int) {
    forall n :: n in conflicts <==> InExamined(rows, left, right, n)
  }

  lemma CollectPair(conflicts: seq<int>, rows: seq<ImportRow>, left: int, right: int)
    requires 0 <= left < right < |rows| && Collected(conflicts, rows, left, right)
    ensures RowsOverlap(rows[left], rows[right]) ==>
      Collected(conflicts + [rows[left].rowNumber, rows[right].rowNumber], rows, left, right + 1)
    ensures !RowsOverlap(rows[left], rows[right]) ==> Collected(conflicts, rows, left, right + 1)
  {
  }

  lemma NextLeft(conflicts: seq<int>, rows: seq<ImportRow>, left: int)
    requires 0 <= left < |rows| && Collected(conflicts, rows, left, |rows|)
    ensures Collected(conflicts, rows, left + 1, left + 2)
  {
  }

  lemma SkipLeft(conflicts: seq<int>, rows: seq<ImportRow>, left: int)
    requires 0 <= left < |rows| && Collected(conflicts, rows, left, left + 1) && !WellFormed(rows[left])
    ensures Collected(conflicts, rows, left + 1, left + 2)
  {
  }

  lemma AllExamined(conflicts: seq<int>, rows: seq<ImportRow>)
    requires Collected(conflicts, rows, |rows|, |rows| + 1)
    ensures forall n :: n in conflicts <==> InConflict(rows, n)
  {
  }

  lemma NothingExamined(rows: seq<ImportRow>)
    ensures Collected([], rows, 0, 1)
  {
  }

  /** Exactly the numbers of the rows that overlap another well-formed row of their rack, sorted, once each. */
  method FindRackImportOverlaps(rows: seq<ImportRow>) returns (result: seq<int>)
    ensures StrictlyIncreasing(result)
    ensures forall n :: n in result <==> InConflict(rows, n)
  {
    hide Collected, InConflict, InExamined, SortDistinct, StrictlyIncreasing;
    var conflicts: seq<int> := [];
    NothingExamined(rows);
    for left := 0 to |rows|
      invariant Collected(conflicts, rows, left, left + 1)
    {
      if !WellFormed(rows[left]) {
        SkipLeft(conflicts, rows, left);
        continue;
      }
      for right := left + 1 to |rows|
        invariant Collected(conflicts, rows, left, right)
      {
        CollectPair(conflicts, rows, left, right);
        if !WellFormed(rows[right]) || rows[left].rack != rows[right].rack {
          continue;
        }
        if rows[left].start.value <= rows[right].start.value + rows[right].size.value - 1 &&
           rows[left].start.value + rows[left].size.value - 1 >= rows[right].start.value {
          conflicts := conflicts + [rows[left].rowNumber, rows[right].rowNumber];
        }
      }
      NextLeft(conflicts, rows, left);
    }
    AllExamined(conflicts, rows);
    SortedDistinct(conflicts);
    result := SortDistinct(conflicts);
  }
}
