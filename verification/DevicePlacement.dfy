/** `placeDevice`: plans a drop over the rows that are not retired and stores every change of the plan. */
module DevicePlacement {
  import opened Wrappers
  import opened Inventory
  import RackPlacement

  datatype PlaceError =
    | DeviceNotFound
    | RackNotFound
    | OtherSite
    | OtherRoom
    | NoPosition
    | NotPlannable(error: RackPlacement.Error)

  /** The planner's view of one row: its id, its rack and its slot. */
  function Slot(id: string, d: Device): RackPlacement.Device
    requires Positioned(d)
  {
    RackPlacement.Device(id, d.rack.value, d.start.value, d.size.value)
  }

  /** `slot` shows the row with its id, which counts and stands in the rack. */
  predicate IsActiveSlot(devices: Devices, rack: string, slot: RackPlacement.Device) {
    slot.id in devices && Counts(devices[slot.id], false) && devices[slot.id].rack == Some(rack) &&
      slot == Slot(slot.id, devices[slot.id])
  }

  /** The rows of one rack that take part, in the order of the query result. */
  function ListRack(rows: seq<string>, devices: Devices, rack: string): (slots: seq<RackPlacement.Device>)
    requires forall id :: id in rows ==> id in devices
    ensures forall s :: s in slots <==> s.id in rows && IsActiveSlot(devices, rack, s)
  {
    if |rows| == 0 then []
    else
      var rest := ListRack(rows[1..], devices, rack);
      var d := devices[rows[0]];
      if Counts(d, false) && d.rack == Some(rack) then [Slot(rows[0], d)] + rest else rest
  }

  function RackFor(rows: seq<string>, devices: Devices, racks: Racks, rack: string): RackPlacement.Rack
    requires rack in racks && forall id :: id in rows ==> id in devices
  {
    RackPlacement.Rack(rack, racks[rack].units, ListRack(rows, devices, rack))
  }

  /** A missing height is planned as one unit, and never written back. */
  function PlannedHeight(d: Device): Height {
    if d.size.Some? then d.size.value else 1
  }

  /** The device that comes from outside joins the target rack at the requested unit, at least one unit high. */
  function WithNewcomer(rack: RackPlacement.Rack, id: string, d: Device, start: int): RackPlacement.Rack {
    rack.(devices := rack.devices + [RackPlacement.Device(id, rack.id, start, PlannedHeight(d))])
  }

  /** The racks that the planner sees: the device's own one, if any, and the target. */
  function PlanningRacks(rows: seq<string>, devices: Devices, racks: Racks, id: string, target: string,
      start: int): seq<RackPlacement.Rack>
    requires id in devices && target in racks && forall row :: row in rows ==> row in devices
    requires devices[id].rack.Some? ==> devices[id].rack.value in racks
  {
    var d := devices[id];
    if d.rack.None? then [WithNewcomer(RackFor(rows, devices, racks, target), id, d, start)]
    else if d.rack.value == target then [RackFor(rows, devices, racks, target)]
    else [RackFor(rows, devices, racks, d.rack.value), RackFor(rows, devices, racks, target)]
  }

  /** Rack references of rows are kept by the database. */
  predicate RacksKnown(devices: Devices, racks: Racks) {
    forall id :: id in devices && devices[id].rack.Some? ==> devices[id].rack.value in racks
  }

  /** The checks of `buildDevicePlacementPlan` before it plans. */
  function CheckDrop(devices: Devices, racks: Racks, id: string, target: string): Option<PlaceError>
    requires RacksKnown(devices, racks)
  {
    if id !in devices then Some(PlaceError.DeviceNotFound)
    else if target !in racks then Some(PlaceError.RackNotFound)
    else
      var d := devices[id];
      if d.rack.Some? then
        if racks[target].site != racks[d.rack.value].site then Some(OtherSite)
        else if racks[target].room != racks[d.rack.value].room then Some(OtherRoom)
        else if !Positioned(d) then Some(NoPosition)
        else None
      else if d.site != Some(racks[target].site) then Some(OtherSite)
      else None
  }

  /**
   * A drop is planned exactly for a known device and rack of one site where a device that stands in a rack has a
   * position and stays in its room; otherwise the first of these that fails is the answer.
   */
  lemma DropIsChecked(devices: Devices, racks: Racks, id: string, target: string)
    requires RacksKnown(devices, racks)
    ensures var error := CheckDrop(devices, racks, id, target);
      if id !in devices then error == Some(PlaceError.DeviceNotFound)
      else if target !in racks then error == Some(PlaceError.RackNotFound)
      else
        var d, to := devices[id], racks[target];
        if d.rack.None? then error == (if d.site == Some(to.site) then None else Some(OtherSite))
        else
          var from, positioned := racks[d.rack.value], d.start.Some? && d.start.value != 0 && d.size.Some?;
          && (error == Some(OtherSite) <==> from.site != to.site)
          && (error == Some(OtherRoom) <==> from.site == to.site && from.room != to.room)
          && (error == Some(NoPosition) <==> from.site == to.site && from.room == to.room && !positioned)
          && (error == None <==> from.site == to.site && from.room == to.room && positioned)
  {
  }

  /** One stored change: rack, unit and site of the row, which becomes active; its height stays. */
  function StoreChange(devices: Devices, racks: Racks, change: RackPlacement.Change): Devices {
    var slot := change.device;
    if slot.id in devices && slot.rack in racks then
      var d := devices[slot.id];
      devices[slot.id := d.(rack := Some(slot.rack), start := Some(slot.start), site := Some(racks[slot.rack].site),
        retired := false)]
    else devices
  }

  function StoreAll(devices: Devices, racks: Racks, changes: seq<RackPlacement.Change>): Devices {
    if |changes| == 0 then devices
    else StoreChange(StoreAll(devices, racks, changes[..|changes| - 1]), racks, changes[|changes| - 1])
  }

  // ---- what the planner sees

  predicate InPlanningRack(d: Device, own: Option<string>, target: string) {
    d.rack == Some(target) || (own.Some? && d.rack == own)
  }

  /** The rows that the planner sees: those that count in the planning racks, and the newcomer. */
  predicate Listed(devices: Devices, id: string, target: string, j: string)
    requires id in devices
  {
    && j in devices
    && ((j == id && devices[id].rack.None?) ||
      (Counts(devices[j], false) && InPlanningRack(devices[j], devices[id].rack, target)))
  }

  function SlotOf(devices: Devices, id: string, target: string, start: int, j: string): RackPlacement.Device
    requires id in devices && Listed(devices, id, target, j)
  {
    if Positioned(devices[j]) then Slot(j, devices[j])
    else RackPlacement.Device(j, target, start, PlannedHeight(devices[j]))
  }

  /** The slot shows a listed row. */
  predicate IsSlot(devices: Devices, id: string, target: string, start: int, slot: RackPlacement.Device)
    requires id in devices
  {
    Listed(devices, id, target, slot.id) && slot == SlotOf(devices, id, target, start, slot.id)
  }

  ghost predicate AllRows(rows: seq<string>, devices: Devices) {
    forall id :: id in rows <==> id in devices
  }

  lemma PlannerSees(rows: seq<string>, devices: Devices, racks: Racks, id: string, target: string, start: int)
    requires AllRows(rows, devices) && id in devices && target in racks && RacksKnown(devices, racks)
    ensures forall s :: s in RackPlacement.AllDevices(PlanningRacks(rows, devices, racks, id, target, start)) <==>
      IsSlot(devices, id, target, start, s)
  {
    hide RackPlacement.AllDevices, ListRack;
    AllOf(PlanningRacks(rows, devices, racks, id, target, start));
  }

  lemma AllOf(racks: seq<RackPlacement.Rack>)
    requires 1 <= |racks| <= 2
    ensures forall d :: d in RackPlacement.AllDevices(racks) <==>
      d in racks[0].devices || (|racks| == 2 && d in racks[1].devices)
  {
  }

  /** The rows besides `id` are in order; the slot that `id` has now may be anything. */
  ghost predicate OthersTidy(devices: Devices, racks: Racks, id: string) {
    Tidy(devices - {id}, racks, false)
  }

  ghost predicate Plannable(rows: seq<string>, devices: Devices, racks: Racks, id: string, target: string) {
    && AllRows(rows, devices) && RacksKnown(devices, racks) && CheckDrop(devices, racks, id, target).None?
    && OthersTidy(devices, racks, id)
  }

  lemma UnitsSeen(rows: seq<string>, devices: Devices, racks: Racks, id: string, target: string, start: int,
      rack: string)
    requires AllRows(rows, devices) && id in devices && target in racks && RacksKnown(devices, racks)
    ensures var found := RackPlacement.FindRack(PlanningRacks(rows, devices, racks, id, target, start), rack);
      && (found.Some? <==> rack == target || devices[id].rack == Some(rack))
      && (found.Some? ==> rack in racks && found.value.units == racks[rack].units)
  {
  }

  lemma MeetsIsBlocks(i: string, d: Device, j: string, e: Device)
    requires Positioned(d) && Positioned(e) && i != j
    ensures Meets(d, e) <==> RackPlacement.Blocks(Slot(i, d), Slot(j, e))
  {
  }

  lemma PlannerReady(rows: seq<string>, devices: Devices, racks: Racks, id: string, target: string, start: int)
    requires Plannable(rows, devices, racks, id, target)
    ensures RackPlacement.Ready(PlanningRacks(rows, devices, racks, id, target, start), id)
  {
    hide RackPlacement.AllDevices, PlanningRacks, Meets, RackPlacement.Blocks, RackPlacement.FindRack, InRack;
    var all := PlanningRacks(rows, devices, racks, id, target, start);
    var others := RackPlacement.Others(RackPlacement.AllDevices(all), id);
    PlannerSees(rows, devices, racks, id, target, start);
    forall s | s in others
      ensures RackPlacement.InBounds(s, all)
    {
      OtherInBounds(rows, devices, racks, id, target, start, s);
    }
    forall s, t | s in others && t in others
      ensures !RackPlacement.Blocks(s, t)
    {
      if s.id == t.id {
        RackPlacement.NotItself(s);
      } else {
        MeetsIsBlocks(s.id, devices[s.id], t.id, devices[t.id]);
        assert s.id in devices - {id} && t.id in devices - {id};
      }
    }
  }

  lemma OtherInBounds(rows: seq<string>, devices: Devices, racks: Racks, id: string, target: string, start: int,
      s: RackPlacement.Device)
    requires Plannable(rows, devices, racks, id, target) && IsSlot(devices, id, target, start, s) && s.id != id
    ensures RackPlacement.InBounds(s, PlanningRacks(rows, devices, racks, id, target, start))
  {
    hide PlanningRacks, Meets;
    UnitsSeen(rows, devices, racks, id, target, start, s.rack);
    assert s.id in devices - {id};
  }

  // ---- what the stored changes make of the rows

  /** Every change names a row and a rack that exist. */
  ghost predicate Storable(changes: seq<RackPlacement.Change>, devices: Devices, racks: Racks) {
    forall c :: c in changes ==> c.device.id in devices && c.device.rack in racks
  }

  ghost predicate Names(changes: seq<RackPlacement.Change>, id: string) {
    exists c :: c in changes && c.device.id == id
  }

  /** The stored rows follow the planner's updated slots; rows that no change names stay as they are. */
  lemma {:induction false} StoredRow(devices: Devices, racks: Racks, changes: seq<RackPlacement.Change>, j: string,
      slot: RackPlacement.Device)
    requires Storable(changes, devices, racks) && j in devices && slot.id == j
    ensures StoreAll(devices, racks, changes).Keys == devices.Keys
    ensures var row, to := StoreAll(devices, racks, changes)[j], RackPlacement.Updated(slot, changes);
      if Names(changes, j) then
        to.rack in racks && row ==
          devices[j].(rack := Some(to.rack), start := Some(to.start), site := Some(racks[to.rack].site),
          retired := false)
      else row == devices[j] && to == slot
  {
    if |changes| > 0 {
      var rest, last := changes[..|changes| - 1], changes[|changes| - 1];
      assert forall c :: c in changes <==> c in rest || c == last;
      StoredRow(devices, racks, rest, j, slot);
      assert Names(changes, j) <==> Names(rest, j) || last.device.id == j;
    }
  }

  /** After the drop a listed row has the planner's updated slot, and any other row is unchanged. */
  lemma RowAfter(rows: seq<string>, devices: Devices, racks: Racks, id: string, target: string, start: int, j: string)
    requires Plannable(rows, devices, racks, id, target) && j in devices
    requires RackPlacement.Outcome(PlanningRacks(rows, devices, racks, id, target, start), id, target, start).Ok?
    ensures var all := PlanningRacks(rows, devices, racks, id, target, start);
      var changes := RackPlacement.Outcome(all, id, target, start).value.changes;
      var after := StoreAll(devices, racks, changes);
      && after.Keys == devices.Keys
      && (Listed(devices, id, target, j) ==>
            var to := RackPlacement.Updated(SlotOf(devices, id, target, start, j), changes);
            after[j].rack == Some(to.rack) && after[j].start == Some(to.start) && !after[j].retired)
      && after[j].size == devices[j].size
      && (!Listed(devices, id, target, j) ==> after[j] == devices[j])
  {
    hide PlanningRacks, RackPlacement.Outcome, RackPlacement.AllDevices, StoreAll, RackPlacement.Updated, OthersTidy;
    var all := PlanningRacks(rows, devices, racks, id, target, start);
    var changes := RackPlacement.Outcome(all, id, target, start).value.changes;
    RackPlacement.PlanMentions(all, id, target, start);
    PlannerSees(rows, devices, racks, id, target, start);
    ChangesStorable(rows, devices, racks, id, target, start, changes);
    var slot := if Listed(devices, id, target, j) then SlotOf(devices, id, target, start, j)
      else RackPlacement.Device(j, target, start, 1);
    StoredRow(devices, racks, changes, j, slot);
  }

  lemma ChangesStorable(rows: seq<string>, devices: Devices, racks: Racks, id: string, target: string, start: int,
                        changes: seq<RackPlacement.Change>)
    requires Plannable(rows, devices, racks, id, target)
    requires var all := PlanningRacks(rows, devices, racks, id, target, start);
      forall c :: c in changes ==>
        RackPlacement.HasId(RackPlacement.AllDevices(all), c.device.id) &&
        RackPlacement.FindRack(all, c.device.rack).Some?
    ensures Storable(changes, devices, racks)
    ensures forall j :: Names(changes, j) ==> Listed(devices, id, target, j)
  {
    hide PlanningRacks, RackPlacement.AllDevices, RackPlacement.FindRack, OthersTidy;
    PlannerSees(rows, devices, racks, id, target, start);
    forall c | c in changes
      ensures c.device.id in devices && c.device.rack in racks && Listed(devices, id, target, c.device.id)
    {
      UnitsSeen(rows, devices, racks, id, target, start, c.device.rack);
    }
  }

  ghost predicate Planned(rows: seq<string>, devices: Devices, racks: Racks, id: string, target: string, start: int) {
    && Plannable(rows, devices, racks, id, target)
    && RackPlacement.Outcome(PlanningRacks(rows, devices, racks, id, target, start), id, target, start).Ok?
  }

  ghost function ChangesOf(rows: seq<string>, devices: Devices, racks: Racks, id: string, target: string,
      start: int): seq<RackPlacement.Change>
    requires Planned(rows, devices, racks, id, target, start)
  {
    RackPlacement.Outcome(PlanningRacks(rows, devices, racks, id, target, start), id, target, start).value.changes
  }

  ghost function AfterDrop(rows: seq<string>, devices: Devices, racks: Racks, id: string, target: string,
      start: int): Devices
    requires Planned(rows, devices, racks, id, target, start)
  {
    StoreAll(devices, racks, ChangesOf(rows, devices, racks, id, target, start))
  }

  /** The slot of a listed row after the drop. */
  ghost function NewSlot(rows: seq<string>, devices: Devices, racks: Racks, id: string, target: string, start: int,
      j: string): RackPlacement.Device
    requires Planned(rows, devices, racks, id, target, start) && Listed(devices, id, target, j)
  {
    RackPlacement.Updated(SlotOf(devices, id, target, start, j), ChangesOf(rows, devices, racks, id, target, start))
  }

  lemma ListedAfter(rows: seq<string>, devices: Devices, racks: Racks, id: string, target: string, start: int,
      j: string)
    requires Planned(rows, devices, racks, id, target, start) && Listed(devices, id, target, j) && devices[j].size.Some?
    ensures var after, slot :=
      AfterDrop(rows, devices, racks, id, target, start), NewSlot(rows, devices, racks, id, target, start, j);
      && j in after && slot.id == j && slot.start >= 1 && !after[j].retired
      && Positioned(after[j]) && slot == Slot(j, after[j])
      && InRack(after[j], racks) && InPlanningRack(after[j], devices[id].rack, target)
      && slot in RackPlacement.After(RackPlacement.AllDevices(PlanningRacks(rows, devices, racks, id, target, start)),
        ChangesOf(rows, devices, racks, id, target, start))
  {
    hide PlanningRacks, RackPlacement.Outcome, RackPlacement.AllDevices, StoreAll, RackPlacement.Updated, OthersTidy,
      RackPlacement.Blocks,
      RackPlacement.Ready, RackPlacement.FindRack;
    var all := PlanningRacks(rows, devices, racks, id, target, start);
    PlannerSees(rows, devices, racks, id, target, start);
    PlannerReady(rows, devices, racks, id, target, start);
    RackPlacement.PlanIsSafe(all, id, target, start);
    RowAfter(rows, devices, racks, id, target, start, j);
    var slot := NewSlot(rows, devices, racks, id, target, start, j);
    assert SlotOf(devices, id, target, start, j) in RackPlacement.AllDevices(all);
    assert slot in RackPlacement.After(RackPlacement.AllDevices(all),
      ChangesOf(rows, devices, racks, id, target, start));
    assert RackPlacement.InBounds(slot, all);
    UnitsSeen(rows, devices, racks, id, target, start, slot.rack);
  }

  lemma MovedIsListed(rows: seq<string>, devices: Devices, racks: Racks, id: string, target: string, start: int)
    requires Planned(rows, devices, racks, id, target, start)
    ensures Listed(devices, id, target, id)
  {
    hide PlanningRacks, RackPlacement.AllDevices, OthersTidy;
    PlannerSees(rows, devices, racks, id, target, start);
    RackPlacement.PlanMentions(PlanningRacks(rows, devices, racks, id, target, start), id, target, start);
  }

  lemma UnlistedAfter(rows: seq<string>, devices: Devices, racks: Racks, id: string, target: string, start: int,
      j: string)
    requires Planned(rows, devices, racks, id, target, start) && j in devices && !Listed(devices, id, target, j)
    ensures var after := AfterDrop(rows, devices, racks, id, target, start);
      && j != id && j in after && after[j] == devices[j]
      && (Counts(devices[j], false) ==>
        InRack(devices[j], racks) && !InPlanningRack(devices[j], devices[id].rack, target))
  {
    hide PlanningRacks, RackPlacement.Outcome, RackPlacement.AllDevices, StoreAll, RackPlacement.Updated;
    MovedIsListed(rows, devices, racks, id, target, start);
    RowAfter(rows, devices, racks, id, target, start, j);
    assert j in devices - {id};
  }

  /**
   * Once its changes are stored, a drop leaves every row that is not retired inside its rack and apart from
   * the others, whatever slot the dropped device had before, and the device stands on the requested unit or the nearest
   * one that it fits on.
   */
  lemma DropKeepsTidy(rows: seq<string>, devices: Devices, racks: Racks, id: string, target: string, start: int)
    requires Planned(rows, devices, racks, id, target, start)
    ensures var after := AfterDrop(rows, devices, racks, id, target, start);
      && after.Keys == devices.Keys && (forall j :: j in devices ==> after[j].size == devices[j].size)
      && Tidy(after, racks, false)
      && after[id].rack == Some(target)
      && after[id].start.Some? && RackPlacement.IsNearest(after[id].start.value, start,
           racks[target].units - PlannedHeight(devices[id]) + 1)
  {
    hide PlanningRacks, RackPlacement.Outcome, RackPlacement.AllDevices, StoreAll, NewSlot, Listed, Meets, InRack,
      OthersTidy,
      RackPlacement.IsNearest, AfterDrop, ChangesOf;
    var after := AfterDrop(rows, devices, racks, id, target, start);
    KeysAndHeights(rows, devices, racks, id, target, start);
    DroppedDevice(rows, devices, racks, id, target, start);
    forall j | j in after && Counts(after[j], false)
      ensures InRack(after[j], racks)
    {
      if Listed(devices, id, target, j) {
        ListedAfter(rows, devices, racks, id, target, start, j);
      } else {
        UnlistedAfter(rows, devices, racks, id, target, start, j);
      }
    }
    forall i, j | i in after && j in after && i != j && Counts(after[i], false) && Counts(after[j], false)
      ensures !Meets(after[i], after[j])
    {
      PairApart(rows, devices, racks, id, target, start, i, j);
    }
  }

  lemma KeysAndHeights(rows: seq<string>, devices: Devices, racks: Racks, id: string, target: string, start: int)
    requires Planned(rows, devices, racks, id, target, start)
    ensures var after := AfterDrop(rows, devices, racks, id, target, start);
      after.Keys == devices.Keys && forall j :: j in devices ==> after[j].size == devices[j].size
  {
    hide PlanningRacks, RackPlacement.Outcome, RackPlacement.AllDevices, StoreAll, RackPlacement.Updated, OthersTidy,
      Listed;
    RowAfter(rows, devices, racks, id, target, start, id);
    var after := AfterDrop(rows, devices, racks, id, target, start);
    forall j | j in devices
      ensures after[j].size == devices[j].size
    {
      RowAfter(rows, devices, racks, id, target, start, j);
    }
  }

  lemma HeightKept(devices: Devices, id: string, target: string, start: int, j: string)
    requires id in devices && Listed(devices, id, target, j)
    ensures SlotOf(devices, id, target, start, j).size == PlannedHeight(devices[j])
  {
  }

  lemma DroppedDevice(rows: seq<string>, devices: Devices, racks: Racks, id: string, target: string, start: int)
    requires Planned(rows, devices, racks, id, target, start)
    ensures var after := AfterDrop(rows, devices, racks, id, target, start);
      id in after && after[id].rack == Some(target)
      && after[id].start.Some? && RackPlacement.IsNearest(after[id].start.value, start,
           racks[target].units - PlannedHeight(devices[id]) + 1)
  {
    hide PlanningRacks, RackPlacement.Outcome, RackPlacement.AllDevices, StoreAll, RackPlacement.Updated, OthersTidy,
      RackPlacement.Tidy, RackPlacement.After, RackPlacement.Touched,
      RackPlacement.FindRack, RackPlacement.IsNearest, RackPlacement.Ready, InRack, Tidy;
    var all := PlanningRacks(rows, devices, racks, id, target, start);
    MovedIsListed(rows, devices, racks, id, target, start);
    PlannerReady(rows, devices, racks, id, target, start);
    PlannerSees(rows, devices, racks, id, target, start);
    RackPlacement.PlanIsSafe(all, id, target, start);
    RowAfter(rows, devices, racks, id, target, start, id);
    UnitsSeen(rows, devices, racks, id, target, start, target);
    HeightKept(devices, id, target, start, id);
  }

  lemma PairApart(rows: seq<string>, devices: Devices, racks: Racks, id: string, target: string, start: int, i: string,
      j: string)
    requires Planned(rows, devices, racks, id, target, start) && i in devices && j in devices && i != j
    requires var after := AfterDrop(rows, devices, racks, id, target, start);
      i in after && j in after && Counts(after[i], false) && Counts(after[j], false)
    ensures !Meets(AfterDrop(rows, devices, racks, id, target, start)[i],
      AfterDrop(rows, devices, racks, id, target, start)[j])
  {
    hide PlanningRacks, RackPlacement.Outcome, RackPlacement.AllDevices, AfterDrop, ChangesOf, NewSlot, Listed, InRack,
      SlotsMeet,
      RackPlacement.After, RackPlacement.Ready;
    KeysAndHeights(rows, devices, racks, id, target, start);
    var after := AfterDrop(rows, devices, racks, id, target, start);
    var iListed, jListed := Listed(devices, id, target, i), Listed(devices, id, target, j);
    if iListed && jListed {
      ListedApart(rows, devices, racks, id, target, start, i, j);
    } else if !iListed && !jListed {
      UnlistedAfter(rows, devices, racks, id, target, start, i);
      UnlistedAfter(rows, devices, racks, id, target, start, j);
      assert i in devices - {id} && j in devices - {id};
    } else if iListed {
      ListedAfter(rows, devices, racks, id, target, start, i);
      UnlistedAfter(rows, devices, racks, id, target, start, j);
    } else {
      ListedAfter(rows, devices, racks, id, target, start, j);
      UnlistedAfter(rows, devices, racks, id, target, start, i);
    }
  }

  lemma ListedApart(rows: seq<string>, devices: Devices, racks: Racks, id: string, target: string, start: int,
      i: string, j: string)
    requires Planned(rows, devices, racks, id, target, start) && Listed(devices, id, target, i) &&
      Listed(devices, id, target, j) && i != j
    requires devices[i].size.Some? && devices[j].size.Some?
    ensures var after := AfterDrop(rows, devices, racks, id, target, start);
      i in after && j in after && !Meets(after[i], after[j])
  {
    hide PlanningRacks, RackPlacement.Outcome, RackPlacement.AllDevices, AfterDrop, ChangesOf, NewSlot, Listed, InRack,
      SlotsMeet,
      RackPlacement.After, RackPlacement.Ready, RackPlacement.Blocks, Meets, OthersTidy;
    var after := AfterDrop(rows, devices, racks, id, target, start);
    ListedAfter(rows, devices, racks, id, target, start, i);
    ListedAfter(rows, devices, racks, id, target, start, j);
    PlanTidy(rows, devices, racks, id, target, start);
    MeetsIsBlocks(i, after[i], j, after[j]);
  }

  lemma PlanTidy(rows: seq<string>, devices: Devices, racks: Racks, id: string, target: string, start: int)
    requires Planned(rows, devices, racks, id, target, start)
    ensures var all := PlanningRacks(rows, devices, racks, id, target, start);
      RackPlacement.Tidy(RackPlacement.After(RackPlacement.AllDevices(all),
        ChangesOf(rows, devices, racks, id, target, start)), all)
  {
    hide PlanningRacks, RackPlacement.Outcome, RackPlacement.AllDevices, RackPlacement.After, RackPlacement.Ready,
      RackPlacement.Tidy, OthersTidy;
    PlannerReady(rows, devices, racks, id, target, start);
    RackPlacement.PlanIsSafe(PlanningRacks(rows, devices, racks, id, target, start), id, target, start);
  }

  // ---- the rows after a drop

  /** The units that a device takes: its recorded height, or one. */
  ghost function Units(d: Device): int {
    if d.size.Some? then d.size.value else 1
  }

  /** The row stands in the target rack, is not retired, and shares a unit with the dropped device's new slot. */
  ghost predicate InTheWay(devices: Devices, id: string, target: string, unit: int, j: string)
    requires id in devices
  {
    && j in devices && j != id && devices[j].rack == Some(target) && !devices[j].retired
    && devices[j].start.Some? && devices[j].start.value != 0 && devices[j].size.Some?
    && devices[j].start.value < unit + Units(devices[id])
    && unit < devices[j].start.value + devices[j].size.value
  }

  /** Every row in the way has moved down by its own height. */
  ghost predicate MovedDown(devices: Devices, racks: Racks, after: Devices, id: string, target: string, unit: int)
    requires id in devices && target in racks
  {
    forall j :: InTheWay(devices, id, target, unit, j) ==>
      j in after && after[j] == devices[j].(
        start := Some(devices[j].start.value - devices[j].size.value), site := Some(racks[target].site))
  }

  /** The only row in the way has gone to the slot that the dropped device left. */
  ghost predicate Exchanged(devices: Devices, racks: Racks, after: Devices, id: string, target: string, unit: int)
    requires id in devices
  {
    exists j :: InTheWay(devices, id, target, unit, j) &&
      (forall k :: InTheWay(devices, id, target, unit, k) ==> k == j) &&
      j in after && devices[id].rack.Some? && devices[id].rack.value in racks &&
      after[j] == devices[j].(rack := devices[id].rack, start := devices[id].start,
        site := Some(racks[devices[id].rack.value].site))
  }

  /** The planner's moved device at the unit where it ends up. */
  ghost function MovedTo(devices: Devices, id: string, target: string, unit: int): RackPlacement.Device
    requires id in devices
  {
    RackPlacement.Device(id, target, unit, Units(devices[id]))
  }

  /** The slot of a row in the way, as the planner sees it. */
  ghost predicate IsHitSlot(devices: Devices, id: string, target: string, unit: int, s: RackPlacement.Device)
    requires id in devices
  {
    && InTheWay(devices, id, target, unit, s.id)
    && s == RackPlacement.Device(s.id, target, devices[s.id].start.value, devices[s.id].size.value)
  }

  lemma HitIsInTheWay(rows: seq<string>, devices: Devices, racks: Racks, id: string, target: string, start: int,
      unit: int, s: RackPlacement.Device)
    requires AllRows(rows, devices) && id in devices && target in racks && RacksKnown(devices, racks)
    ensures RackPlacement.IsHit(PlanningRacks(rows, devices, racks, id, target, start),
      MovedTo(devices, id, target, unit), s) == IsHitSlot(devices, id, target, unit, s)
  {
    hide PlanningRacks, RackPlacement.AllDevices, RackPlacement.InSome, Slot;
    PlannerSees(rows, devices, racks, id, target, start);
    RackPlacement.AllDevicesAre(PlanningRacks(rows, devices, racks, id, target, start), s);
    SlotMeans(devices, id, target, start, s);
  }

  lemma SlotMeans(devices: Devices, id: string, target: string, start: int, s: RackPlacement.Device)
    requires id in devices
    ensures s.id != id ==>
      (IsSlot(devices, id, target, start, s) <==>
        && s.id in devices && Positioned(devices[s.id]) && !devices[s.id].retired
        && InPlanningRack(devices[s.id], devices[id].rack, target)
        && s == RackPlacement.Device(s.id, devices[s.id].rack.value, devices[s.id].start.value,
             devices[s.id].size.value))
  {
  }

  /** The target rack is the first of its id among the planning racks, and has its units. */
  lemma TargetAt(rows: seq<string>, devices: Devices, racks: Racks, id: string, target: string, start: int)
      returns (t: int)
    requires AllRows(rows, devices) && id in devices && target in racks && RacksKnown(devices, racks)
    ensures var all := PlanningRacks(rows, devices, racks, id, target, start);
      && 0 <= t < |all| && all[t].id == target && all[t].units == racks[target].units
      && RackPlacement.IsFirst(all, target, t)
  {
    t := if devices[id].rack.None? || devices[id].rack.value == target then 0 else 1;
  }

  /** What the planner answered, for the unit on which the row ends up. */
  lemma DropAnswer(rows: seq<string>, devices: Devices, racks: Racks, id: string, target: string, start: int,
      unit: int) returns (rack: RackPlacement.Rack, moving: RackPlacement.Device)
    requires Planned(rows, devices, racks, id, target, start)
    requires RackPlacement.IsNearest(unit, start, racks[target].units - Units(devices[id]) + 1)
    ensures Listed(devices, id, target, id) && moving == SlotOf(devices, id, target, start, id)
    ensures var all := PlanningRacks(rows, devices, racks, id, target, start);
      RackPlacement.IsAnswer(all, rack, moving, MovedTo(devices, id, target, unit),
        RackPlacement.Outcome(all, id, target, start))
  {
    hide PlanningRacks, RackPlacement.AllDevices, RackPlacement.Outcome, RackPlacement.IsAnswer, RackPlacement.Tidy,
      RackPlacement.UniqueIds, RackPlacement.IsFirst, OthersTidy, RackPlacement.InSome, RackPlacement.IsNearest;
    var all := PlanningRacks(rows, devices, racks, id, target, start);
    MovedIsListed(rows, devices, racks, id, target, start);
    PlannerReady(rows, devices, racks, id, target, start);
    PlannerSees(rows, devices, racks, id, target, start);
    var t := TargetAt(rows, devices, racks, id, target, start);
    moving := SlotOf(devices, id, target, start, id);
    rack := all[t];
    RackPlacement.AllDevicesAre(all, moving);
    RackPlacement.PlanRefuses(all, id, target, start);
    RackPlacement.PlanAnswers(all, t, moving, start, unit);
  }

  /** A row that all changes for it put on one slot stands there; a row that no change names is as it was. */
  lemma NamedRow(rows: seq<string>, devices: Devices, racks: Racks, id: string, target: string, start: int, j: string,
      to: RackPlacement.Device)
    requires Planned(rows, devices, racks, id, target, start) && j in devices
    requires forall c :: c in ChangesOf(rows, devices, racks, id, target, start) && c.device.id == j ==>
      c.device.rack == to.rack && c.device.start == to.start
    ensures var after := AfterDrop(rows, devices, racks, id, target, start);
      && after.Keys == devices.Keys
      && (Names(ChangesOf(rows, devices, racks, id, target, start), j) ==> to.rack in racks)
      && after[j] == (if Names(ChangesOf(rows, devices, racks, id, target, start), j) then
           devices[j].(rack := Some(to.rack), start := Some(to.start), site := Some(racks[to.rack].site),
             retired := false)
         else devices[j])
  {
    hide PlanningRacks, RackPlacement.Outcome, RackPlacement.AllDevices, StoreAll, RackPlacement.Updated, OthersTidy;
    var all := PlanningRacks(rows, devices, racks, id, target, start);
    var changes := ChangesOf(rows, devices, racks, id, target, start);
    RackPlacement.PlanMentions(all, id, target, start);
    PlannerSees(rows, devices, racks, id, target, start);
    ChangesStorable(rows, devices, racks, id, target, start, changes);
    var slot := RackPlacement.Device(j, target, start, 1);
    StoredRow(devices, racks, changes, j, slot);
    RackPlacement.UpdatedTo(slot, changes, to);
  }

  /** The dropped row: active, on its unit of the target rack. */
  ghost predicate StandsAt(devices: Devices, racks: Racks, after: Devices, id: string, target: string, unit: int)
    requires id in devices && target in racks
  {
    id in after && after[id] == devices[id].(rack := Some(target), start := Some(unit),
      site := Some(racks[target].site), retired := false)
  }

  /** The other rows: those in the way moved down or exchanged, all others as they were. */
  ghost predicate OthersAfter(devices: Devices, racks: Racks, after: Devices, id: string, target: string, unit: int)
    requires id in devices && target in racks
  {
    && (forall j :: j in devices && j != id && !InTheWay(devices, id, target, unit, j) ==>
          j in after && after[j] == devices[j])
    && (MovedDown(devices, racks, after, id, target, unit) || Exchanged(devices, racks, after, id, target, unit))
  }

  lemma PlainRow(rows: seq<string>, devices: Devices, racks: Racks, id: string, target: string, start: int, unit: int,
      j: string)
    requires Planned(rows, devices, racks, id, target, start) && j in devices
    requires RackPlacement.IsPlainMove(PlanningRacks(rows, devices, racks, id, target, start),
      MovedTo(devices, id, target, unit), ChangesOf(rows, devices, racks, id, target, start))
    ensures var after := AfterDrop(rows, devices, racks, id, target, start);
      j in after && if j == id then StandsAt(devices, racks, after, id, target, unit) else after[j] == devices[j]
    ensures !InTheWay(devices, id, target, unit, j)
  {
    hide PlanningRacks, RackPlacement.Outcome, RackPlacement.IsHit, AfterDrop, ChangesOf, OthersTidy, InTheWay;
    NamedRow(rows, devices, racks, id, target, start, j, MovedTo(devices, id, target, unit));
    WayIsHit(rows, devices, racks, id, target, start, unit, j);
  }

  /** A row in the way is a slot in the way, and the only one with its id. */
  lemma WayIsHit(rows: seq<string>, devices: Devices, racks: Racks, id: string, target: string, start: int, unit: int,
      j: string)
    requires AllRows(rows, devices) && id in devices && target in racks && RacksKnown(devices, racks)
    ensures var all, moved :=
        PlanningRacks(rows, devices, racks, id, target, start), MovedTo(devices, id, target, unit);
      && (InTheWay(devices, id, target, unit, j) ==>
            j in devices && devices[j].start.Some? && devices[j].size.Some? &&
            RackPlacement.IsHit(all, moved,
              RackPlacement.Device(j, target, devices[j].start.value, devices[j].size.value)))
      && (forall d :: RackPlacement.IsHit(all, moved, d) && d.id == j ==>
            InTheWay(devices, id, target, unit, j) &&
            d == RackPlacement.Device(j, target, devices[j].start.value, devices[j].size.value))
  {
    hide PlanningRacks, RackPlacement.IsHit;
    if InTheWay(devices, id, target, unit, j) {
      HitIsInTheWay(rows, devices, racks, id, target, start, unit,
        RackPlacement.Device(j, target, devices[j].start.value, devices[j].size.value));
    }
    forall d | RackPlacement.IsHit(PlanningRacks(rows, devices, racks, id, target, start),
        MovedTo(devices, id, target, unit), d) && d.id == j
      ensures IsHitSlot(devices, id, target, unit, d)
    {
      HitIsInTheWay(rows, devices, racks, id, target, start, unit, d);
    }
  }

  lemma DownRow(rows: seq<string>, devices: Devices, racks: Racks, id: string, target: string, start: int, unit: int,
      j: string)
    requires Planned(rows, devices, racks, id, target, start) && j in devices
    requires RackPlacement.IsMoveDown(PlanningRacks(rows, devices, racks, id, target, start),
      MovedTo(devices, id, target, unit), ChangesOf(rows, devices, racks, id, target, start))
    ensures var after := AfterDrop(rows, devices, racks, id, target, start);
      && j in after
      && (j == id ==> StandsAt(devices, racks, after, id, target, unit))
      && (j != id && !InTheWay(devices, id, target, unit, j) ==> after[j] == devices[j])
      && (InTheWay(devices, id, target, unit, j) ==> after[j] == devices[j].(
            start := Some(devices[j].start.value - devices[j].size.value), site := Some(racks[target].site)))
  {
    hide PlanningRacks, RackPlacement.Outcome, RackPlacement.IsHit, AfterDrop, ChangesOf, OthersTidy;
    var all, moved := PlanningRacks(rows, devices, racks, id, target, start), MovedTo(devices, id, target, unit);
    var changes := ChangesOf(rows, devices, racks, id, target, start);
    assert changes == [changes[0]] + changes[1..];
    WayIsHit(rows, devices, racks, id, target, start, unit, j);
    var to := if InTheWay(devices, id, target, unit, j) then
        RackPlacement.Device(j, target, devices[j].start.value - devices[j].size.value, devices[j].size.value)
      else moved;
    forall c | c in changes && c.device.id == j
      ensures c.device == to && (j == id || InTheWay(devices, id, target, unit, j))
    {
      if c in changes[1..] {
        var d :| RackPlacement.IsHit(all, moved, d) && c.device == RackPlacement.OneDown(d);
      }
    }
    NamedRow(rows, devices, racks, id, target, start, j, to);
  }

  /** The slot that a newcomer leaves is only the requested one, where nothing else fits beside it. */
  lemma NoExchangeWithNewcomer(rows: seq<string>, devices: Devices, racks: Racks, id: string, target: string,
      start: int, unit: int, own: RackPlacement.Device, d: RackPlacement.Device, i: int)
    requires Planned(rows, devices, racks, id, target, start) && d.size >= 1
    requires Listed(devices, id, target, id) && own == SlotOf(devices, id, target, start, id)
    requires RackPlacement.IsNearest(unit, start, racks[target].units - Units(devices[id]) + 1)
    requires var all := PlanningRacks(rows, devices, racks, id, target, start);
      && RackPlacement.IsFirst(all, own.rack, i)
      && RackPlacement.IsRoomFor(all, all[i], MovedTo(devices, id, target, unit),
           RackPlacement.Device(d.id, own.rack, own.start, d.size))
    ensures devices[id].rack == Some(own.rack) && devices[id].start == Some(own.start)
  {
    hide PlanningRacks, RackPlacement.Outcome, RackPlacement.IsKept, OthersTidy;
    var t := TargetAt(rows, devices, racks, id, target, start);
  }

  lemma ExchangeRow(rows: seq<string>, devices: Devices, racks: Racks, id: string, target: string, start: int,
      unit: int, own: RackPlacement.Device, j: string)
    requires Planned(rows, devices, racks, id, target, start) && j in devices
    requires Listed(devices, id, target, id) && own == SlotOf(devices, id, target, start, id)
    requires RackPlacement.IsNearest(unit, start, racks[target].units - Units(devices[id]) + 1)
    requires RackPlacement.IsExchange(PlanningRacks(rows, devices, racks, id, target, start), own,
      MovedTo(devices, id, target, unit), ChangesOf(rows, devices, racks, id, target, start))
    ensures var after := AfterDrop(rows, devices, racks, id, target, start);
      && j in after
      && (j == id ==> StandsAt(devices, racks, after, id, target, unit))
      && (j != id && !InTheWay(devices, id, target, unit, j) ==> after[j] == devices[j])
      && (InTheWay(devices, id, target, unit, j) ==>
            && devices[id].rack.Some? && devices[id].rack.value in racks
            && after[j] == devices[j].(rack := devices[id].rack, start := devices[id].start,
                 site := Some(racks[devices[id].rack.value].site))
            && forall k :: InTheWay(devices, id, target, unit, k) ==> k == j)
  {
    hide PlanningRacks, RackPlacement.Outcome, RackPlacement.IsHit, AfterDrop, ChangesOf, OthersTidy, SlotOf,
      RackPlacement.IsRoomFor, RackPlacement.IsNearest;
    var all, moved := PlanningRacks(rows, devices, racks, id, target, start), MovedTo(devices, id, target, unit);
    var changes := ChangesOf(rows, devices, racks, id, target, start);
    var d, i :| RackPlacement.IsHit(all, moved, d) && (forall e :: RackPlacement.IsHit(all, moved, e) ==> e == d) &&
      RackPlacement.IsFirst(all, own.rack, i) &&
      RackPlacement.IsRoomFor(all, all[i], moved, RackPlacement.Device(d.id, own.rack, own.start, d.size)) &&
      changes == [RackPlacement.Change(moved, RackPlacement.Moved),
        RackPlacement.Change(RackPlacement.Device(d.id, own.rack, own.start, d.size), RackPlacement.Swapped)];
    forall k
      ensures InTheWay(devices, id, target, unit, k) <==> k == d.id
    {
      WayIsHit(rows, devices, racks, id, target, start, unit, k);
    }
    assert InTheWay(devices, id, target, unit, d.id);
    assert devices[d.id].size.Some? && d.size >= 1 by {
      WayIsHit(rows, devices, racks, id, target, start, unit, d.id);
    }
    NoExchangeWithNewcomer(rows, devices, racks, id, target, start, unit, own, d, i);
    var to := if j == id then moved else RackPlacement.Device(j, own.rack, own.start, d.size);
    NamedRow(rows, devices, racks, id, target, start, j, to);
  }

  lemma AllRowsAfter(rows: seq<string>, devices: Devices, racks: Racks, id: string, target: string, start: int,
      unit: int, own: RackPlacement.Device)
    requires Planned(rows, devices, racks, id, target, start)
    requires Listed(devices, id, target, id) && own == SlotOf(devices, id, target, start, id)
    requires RackPlacement.IsNearest(unit, start, racks[target].units - Units(devices[id]) + 1)
    requires var all, moved, changes := PlanningRacks(rows, devices, racks, id, target, start),
        MovedTo(devices, id, target, unit), ChangesOf(rows, devices, racks, id, target, start);
      || RackPlacement.IsPlainMove(all, moved, changes) || RackPlacement.IsMoveDown(all, moved, changes)
      || RackPlacement.IsExchange(all, own, moved, changes)
    ensures StandsAt(devices, racks, AfterDrop(rows, devices, racks, id, target, start), id, target, unit)
    ensures OthersAfter(devices, racks, AfterDrop(rows, devices, racks, id, target, start), id, target, unit)
  {
    hide PlanningRacks, RackPlacement.IsPlainMove, RackPlacement.IsMoveDown, RackPlacement.IsExchange, OthersTidy,
      RackPlacement.IsNearest, AfterDrop, ChangesOf, RackPlacement.Outcome, SlotOf, StandsAt;
    var all, moved := PlanningRacks(rows, devices, racks, id, target, start), MovedTo(devices, id, target, unit);
    var changes := ChangesOf(rows, devices, racks, id, target, start);
    if RackPlacement.IsPlainMove(all, moved, changes) {
      forall j | j in devices {
        PlainRow(rows, devices, racks, id, target, start, unit, j);
      }
    } else if RackPlacement.IsMoveDown(all, moved, changes) {
      forall j | j in devices {
        DownRow(rows, devices, racks, id, target, start, unit, j);
      }
    } else {
      forall j | j in devices {
        ExchangeRow(rows, devices, racks, id, target, start, unit, own, j);
      }
      ExchangeHasHit(rows, devices, racks, id, target, start, unit, own);
    }
  }

  lemma ExchangeHasHit(rows: seq<string>, devices: Devices, racks: Racks, id: string, target: string, start: int,
      unit: int, own: RackPlacement.Device)
    requires AllRows(rows, devices) && id in devices && target in racks && RacksKnown(devices, racks)
    requires exists changes :: RackPlacement.IsExchange(PlanningRacks(rows, devices, racks, id, target, start), own,
      MovedTo(devices, id, target, unit), changes)
    ensures exists j :: InTheWay(devices, id, target, unit, j)
  {
    hide PlanningRacks, RackPlacement.IsHit, InTheWay, RackPlacement.IsFirst, RackPlacement.IsRoomFor;
    var all, moved := PlanningRacks(rows, devices, racks, id, target, start), MovedTo(devices, id, target, unit);
    var d :| RackPlacement.IsHit(all, moved, d);
    WayIsHit(rows, devices, racks, id, target, start, unit, d.id);
  }

  /**
   * After a drop the device stands, active, on the requested unit of the target rack or the nearest one that it fits
   * on; the rows in the way have all moved down by their own heights, or the only one has gone to the slot that the
   * device left; every other row is as it was.
   */
  lemma DropStores(rows: seq<string>, devices: Devices, racks: Racks, id: string, target: string, start: int)
      returns (unit: int)
    requires Planned(rows, devices, racks, id, target, start)
    ensures AfterDrop(rows, devices, racks, id, target, start).Keys == devices.Keys
    ensures RackPlacement.IsNearest(unit, start, racks[target].units - Units(devices[id]) + 1)
    ensures StandsAt(devices, racks, AfterDrop(rows, devices, racks, id, target, start), id, target, unit)
    ensures OthersAfter(devices, racks, AfterDrop(rows, devices, racks, id, target, start), id, target, unit)
  {
    hide PlanningRacks, RackPlacement.AllDevices, RackPlacement.IsHit, InTheWay, OthersTidy, AfterDrop,
      RackPlacement.IsNearest, RackPlacement.IsAnswer, RackPlacement.Outcome, SlotOf, RackPlacement.IsPlainMove,
      RackPlacement.IsMoveDown, RackPlacement.IsExchange, StandsAt, OthersAfter;
    var all := PlanningRacks(rows, devices, racks, id, target, start);
    KeysAndHeights(rows, devices, racks, id, target, start);
    DroppedDevice(rows, devices, racks, id, target, start);
    unit := AfterDrop(rows, devices, racks, id, target, start)[id].start.value;
    var rack, own := DropAnswer(rows, devices, racks, id, target, start, unit);
    RackPlacement.AnswerShape(all, rack, own, MovedTo(devices, id, target, unit),
      RackPlacement.Outcome(all, id, target, start));
    AllRowsAfter(rows, devices, racks, id, target, start, unit, own);
  }

  class PlacementService {
    var devices: Devices
    const racks: Racks

    constructor (devices: Devices, racks: Racks)
      ensures this.devices == devices && this.racks == racks
    {
      this.devices, this.racks := devices, racks;
    }

    /** `placeDevice`: one transaction; `rows` is the order in which the database lists the devices. */
    method PlaceDevice(id: string, target: string, start: int, rows: seq<string>)
      returns (r: Result<RackPlacement.Plan, PlaceError>)
      requires AllRows(rows, devices) && RacksKnown(devices, racks)
      modifies this
      ensures r.Err? ==> devices == old(devices)
      ensures CheckDrop(old(devices), racks, id, target).Some? ==>
        r == Err(CheckDrop(old(devices), racks, id, target).value)
      ensures CheckDrop(old(devices), racks, id, target).None? ==>
        match RackPlacement.Outcome(PlanningRacks(rows, old(devices), racks, id, target, start), id, target, start)
        case Ok(plan) => r == Ok(plan) && devices == StoreAll(old(devices), racks, plan.changes)
        case Err(error) => r == Err(NotPlannable(error))
      ensures r.Ok? && OthersTidy(old(devices), racks, id) ==>
        && Tidy(devices, racks, false)
        && exists unit ::
             && RackPlacement.IsNearest(unit, start, racks[target].units - Units(old(devices)[id]) + 1)
             && StandsAt(old(devices), racks, devices, id, target, unit)
             && OthersAfter(old(devices), racks, devices, id, target, unit)
    {
      hide PlanningRacks, RackPlacement.Outcome, Tidy, OthersTidy, RackPlacement.IsNearest, StandsAt, OthersAfter;
      var error := CheckDrop(devices, racks, id, target);
      if error.Some? {
        return Err(error.value);
      }
      var all := PlanningRacks(rows, devices, racks, id, target, start);
      var plan := RackPlacement.PlanRackPlacement(all, id, target, start);
      if plan.Err? {
        return Err(NotPlannable(plan.error));
      }
      var changes := plan.value.changes;
      for i := 0 to |changes|
        invariant devices == StoreAll(old(devices), racks, changes[..i])
      {
        assert changes[..i + 1][..i] == changes[..i];
        devices := StoreChange(devices, racks, changes[i]);
      }
      assert changes[..|changes|] == changes;
      if OthersTidy(old(devices), racks, id) {
        DropKeepsTidy(rows, old(devices), racks, id, target, start);
        var unit := DropStores(rows, old(devices), racks, id, target, start);
      }
      r := Ok(plan.value);
    }
  }
}
