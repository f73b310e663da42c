/** Device rows with their rack positions, and the check every individual placement passes. */
module Inventory {
  import opened Wrappers

  /** Recorded heights are at least one unit. */
  type Height = n: int | n >= 1 witness 1

  datatype Device = Device(rack: Option<string>, start: Option<int>, size: Option<Height>, site: Option<string>,
      retired: bool)

  datatype Rack = Rack(units: int, site: string, room: string)

  type Devices = map<string, Device>

  type Racks = map<string, Rack>

  datatype Request = Request(rack: Option<string>, start: Option<int>, size: Option<Height>, site: Option<string>)

  datatype Error = MissingPosition | RackNotFound | OutOfRack | WrongSite | Occupied

  /** A missing start and unit zero both count as no position. */
  predicate HasStart(start: Option<int>) {
    start.Some? && start.value != 0
  }

  predicate Positioned(d: Device) {
    d.rack.Some? && HasStart(d.start) && d.size.Some?
  }

  predicate SlotsMeet(start: int, size: int, otherStart: int, otherSize: int) {
    start <= otherStart + otherSize - 1 && start + size - 1 >= otherStart
  }

  predicate Meets(d: Device, e: Device) {
    && Positioned(d) && Positioned(e) && d.rack == e.rack
    && SlotsMeet(d.start.value, d.size.value, e.start.value, e.size.value)
  }

  predicate InRack(d: Device, racks: Racks)
    requires Positioned(d)
  {
    d.rack.value in racks && d.start.value >= 1 && d.start.value + d.size.value - 1 <= racks[d.rack.value].units
  }

  /** The rows an invariant is about: all positioned ones, or the positioned ones that are not retired. */
  predicate Counts(d: Device, withRetired: bool) {
    Positioned(d) && (withRetired || !d.retired)
  }

  predicate BothCount(devices: Devices, i: string, j: string, withRetired: bool) {
    i in devices && j in devices && i != j && Counts(devices[i], withRetired) && Counts(devices[j], withRetired)
  }

  /** Positions lie inside their racks and no two of them share a unit. */
  ghost predicate Tidy(devices: Devices, racks: Racks, withRetired: bool) {
    && (forall id :: id in devices && Counts(devices[id], withRetired) ==> InRack(devices[id], racks))
    && (forall i, j :: BothCount(devices, i, j, withRetired) ==> !Meets(devices[i], devices[j]))
  }

  predicate IsOccupied(devices: Devices, rack: string, start: int, size: int, self: Option<string>) {
    exists id :: id in devices && Some(id) != self && Positioned(devices[id]) && devices[id].rack == Some(rack) &&
      SlotsMeet(start, size, devices[id].start.value, devices[id].size.value)
  }

  /** `validateRackPlacement`; None where the source returns. */
  function Validate(devices: Devices, racks: Racks, request: Request, self: Option<string>): Option<Error> {
    if request.rack.None? then None
    else if !HasStart(request.start) || request.size.None? then Some(MissingPosition)
    else if request.rack.value !in racks then Some(RackNotFound)
    else
      var rack := racks[request.rack.value];
      if request.start.value < 1 || request.start.value + request.size.value - 1 > rack.units then Some(OutOfRack)
      else if request.site.Some? && request.site.value != rack.site then Some(WrongSite)
      else if IsOccupied(devices, request.rack.value, request.start.value, request.size.value, self) then Some(Occupied)
      else None
  }

  /** Some other row stands in the rack and has a unit in common with the slot. */
  ghost predicate UnitTaken(devices: Devices, rack: string, start: int, size: int, self: Option<string>) {
    exists id, u ::
      && id in devices && Some(id) != self && devices[id].rack == Some(rack)
      && devices[id].start.Some? && devices[id].start.value != 0 && devices[id].size.Some?
      && start <= u < start + size && HasUnit(devices[id].start.value, devices[id].size.value, u)
  }

  ghost predicate HasUnit(start: int, size: int, u: int) {
    start <= u < start + size
  }

  lemma OccupiedIsTaken(devices: Devices, rack: string, start: int, size: Height, self: Option<string>)
    ensures IsOccupied(devices, rack, start, size, self) <==> UnitTaken(devices, rack, start, size, self)
  {
    if IsOccupied(devices, rack, start, size, self) {
      var id :| id in devices && Some(id) != self && Positioned(devices[id]) && devices[id].rack == Some(rack) &&
        SlotsMeet(start, size, devices[id].start.value, devices[id].size.value);
      var u := if start >= devices[id].start.value then start else devices[id].start.value;
      assert HasUnit(devices[id].start.value, devices[id].size.value, u);
    }
  }

  /**
   * A request without a rack passes; one with a rack needs a position inside a known rack of the requested site, if
   * any, with all units free. The first of these that fails is the answer.
   */
  lemma RequestIsChecked(devices: Devices, racks: Racks, request: Request, self: Option<string>)
    ensures var r := Validate(devices, racks, request, self);
      if request.rack == None then r == None
      else if request.start == None || request.start.value == 0 || request.size == None then r == Some(MissingPosition)
      else if request.rack.value !in racks then r == Some(RackNotFound)
      else
        var rack, start, size := racks[request.rack.value], request.start.value, request.size.value;
        if start < 1 || start + size > rack.units + 1 then r == Some(OutOfRack)
        else if request.site.Some? && request.site != Some(rack.site) then r == Some(WrongSite)
        else r == if UnitTaken(devices, request.rack.value, start, size, self) then Some(Occupied) else None
  {
    if request.rack.Some? && request.start.Some? && request.size.Some? {
      OccupiedIsTaken(devices, request.rack.value, request.start.value, request.size.value, self);
    }
  }

  /** A row that passed the check, or that has no position, joins the others without disorder. */
  lemma CheckedRowKeepsTidy(devices: Devices, racks: Racks, id: string, row: Device, site: Option<string>,
      withRetired: bool)
    requires Tidy(devices, racks, withRetired)
    requires Positioned(row) ==> Validate(devices, racks, Request(row.rack, row.start, row.size, site), Some(id)).None?
    ensures Tidy(devices[id := row], racks, withRetired)
  {
  }
}
