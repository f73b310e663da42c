/** Bulk updates: first-fit planning in a target rack, then one checked update per device. */
module BulkMove {
  import opened Wrappers
  import opened Inventory

  datatype RackChange = Keep | Clear | MoveTo(rack: string)

  datatype Change = Change(rack: RackChange, retired: Option<bool>)

  /**
   * What happens to one update outside placement: nothing, a rejection before the write, or a lost audit entry after
   * it.
   */
  datatype External = Passes | Rejects(message: string) | AuditLost(message: string)

  /** The selected devices in database order, the change, the planned start of each, and the outside events. */
  datatype Job = Job(current: seq<string>, change: Change, starts: seq<int>, external: string -> External)

  datatype UpdateError = Placement(error: Error) | SiteNotFound | Outside(message: string)

  // ---- first fit

  function HeightOf(d: Device): int {
    if d.size.Some? then d.size.value else 1
  }

  /** Unit `u` belongs to a device of the target rack that is not selected, or to one of the first i planned slots. */
  ghost predicate Taken(devices: Devices, target: string, current: seq<string>, starts: seq<int>, i: nat, u: int)
    requires i <= |starts| <= |current| && forall k :: 0 <= k < |current| ==> current[k] in devices
  {
    || (exists id :: id in devices && id !in current && devices[id].rack == Some(target) && Covers(devices[id], u))
    || (exists k :: 0 <= k < i && starts[k] <= u < starts[k] + HeightOf(devices[current[k]]))
  }

  ghost predicate Covers(d: Device, u: int) {
    HasStart(d.start) && d.size.Some? && d.start.value <= u < d.start.value + d.size.value
  }

  predicate IsFree(occupied: set<int>, start: int, size: int) {
    forall u :: start <= u < start + size ==> u !in occupied
  }

  /** The lowest start at which `size` free units fit into the rack. */
  predicate IsLowest(occupied: set<int>, size: int, units: int, start: int) {
    && 1 <= start && start + size - 1 <= units && IsFree(occupied, start, size)
    && forall s :: 1 <= s < start ==> !IsFree(occupied, s, size)
  }

  predicate NoRoom(occupied: set<int>, size: int, units: int) {
    forall s :: 1 <= s <= units - size + 1 ==> !IsFree(occupied, s, size)
  }

  method FindStart(occupied: set<int>, size: int, units: int) returns (found: Option<int>)
    ensures found.Some? ==> IsLowest(occupied, size, units, found.value)
    ensures found.None? ==> NoRoom(occupied, size, units)
  {
    var start := 1;
    while start + size - 1 <= units
      invariant start >= 1
      invariant forall s :: 1 <= s < start ==> !IsFree(occupied, s, size)
    {
      if IsFree(occupied, start, size) {
        return Some(start);
      }
      start := start + 1;
    }
    found := None;
  }

  ghost predicate Holds(occupied: set<int>, devices: Devices, target: string, current: seq<string>, starts: seq<int>)
    requires |starts| <= |current| && forall k :: 0 <= k < |current| ==> current[k] in devices
  {
    forall u :: u in occupied <==> Taken(devices, target, current, starts, |starts|, u)
  }

  /** `start` is the lowest start that avoids the unselected devices and the slots planned so far. */
  ghost predicate FitsNext(devices: Devices, target: string, units: int, current: seq<string>, planned: seq<int>,
      start: int)
    requires |planned| < |current| && forall k :: 0 <= k < |current| ==> current[k] in devices
  {
    exists occupied ::
      Holds(occupied, devices, target, current, planned) &&
        IsLowest(occupied, HeightOf(devices[current[|planned|]]), units, start)
  }

  ghost predicate FirstFit(devices: Devices, target: string, units: int, current: seq<string>, starts: seq<int>)
    requires |starts| <= |current| && forall k :: 0 <= k < |current| ==> current[k] in devices
  {
    forall k :: 0 <= k < |starts| ==> FitsNext(devices, target, units, current, starts[..k], starts[k])
  }

  /** Planning stops at the first device for which no start is left. */
  ghost predicate RackFull(devices: Devices, target: string, units: int, current: seq<string>)
    requires forall k :: 0 <= k < |current| ==> current[k] in devices
  {
    exists starts: seq<int>, occupied ::
      && |starts| < |current| && FirstFit(devices, target, units, current, starts)
      && Holds(occupied, devices, target, current, starts)
      && NoRoom(occupied, HeightOf(devices[current[|starts|]]), units)
  }

  function Range(start: int, size: int): (units: set<int>)
    ensures forall u :: u in units <==> start <= u < start + size
    decreases if size > 0 then size else 0
  {
    if size <= 0 then {} else Range(start, size - 1) + {start + size - 1}
  }

  predicate Distinct(ids: seq<string>) {
    forall i, j :: 0 <= i < j < |ids| ==> ids[i] != ids[j]
  }

  ghost predicate Listed(devices: Devices, current: seq<string>, rackRows: seq<string>, i: nat, u: int)
    requires i <= |rackRows| && forall k :: 0 <= k < |rackRows| ==> rackRows[k] in devices
  {
    exists k :: 0 <= k < i && rackRows[k] !in current && Covers(devices[rackRows[k]], u)
  }

  /** The rows of the target rack that count, filled into the set of occupied units. */
  method OccupiedUnits(devices: Devices, target: string, current: seq<string>, rackRows: seq<string>)
    returns (occupied: set<int>)
    requires forall k :: 0 <= k < |current| ==> current[k] in devices
    requires forall id :: id in rackRows <==> id in devices && devices[id].rack == Some(target)
    ensures Holds(occupied, devices, target, current, [])
  {
    occupied := {};
    for i := 0 to |rackRows|
      invariant forall u :: u in occupied <==> Listed(devices, current, rackRows, i, u)
    {
      assert rackRows[i] in rackRows;
      var d := devices[rackRows[i]];
      if rackRows[i] !in current && HasStart(d.start) && d.size.Some? {
        occupied := occupied + Range(d.start.value, d.size.value);
      }
    }
    forall u
      ensures u in occupied <==> Taken(devices, target, current, [], 0, u)
    {
      if Taken(devices, target, current, [], 0, u) {
        var id :| id in devices && id !in current && devices[id].rack == Some(target) && Covers(devices[id], u);
        assert id in rackRows;
      }
    }
  }

  method PlanUnits(devices: Devices, target: string, units: int, current: seq<string>, rackRows: seq<string>)
    returns (starts: Option<seq<int>>)
    requires forall k :: 0 <= k < |current| ==> current[k] in devices
    requires forall id :: id in rackRows <==> id in devices && devices[id].rack == Some(target)
    ensures starts.Some? ==> |starts.value| == |current| && FirstFit(devices, target, units, current, starts.value)
    ensures starts.None? ==> RackFull(devices, target, units, current)
  {
    hide IsLowest, NoRoom, FirstFit, Holds, Taken;
    var occupied := OccupiedUnits(devices, target, current, rackRows);
    var planned: seq<int> := [];
    NothingPlanned(devices, target, units, current);
    for i := 0 to |current|
      invariant |planned| == i
      invariant Holds(occupied, devices, target, current, planned)
      invariant FirstFit(devices, target, units, current, planned)
    {
      var size := HeightOf(devices[current[i]]);
      var start := FindStart(occupied, size, units);
      if start.None? {
        return None;
      }
      PlanOneMore(occupied, devices, target, units, current, planned, start.value);
      occupied := occupied + Range(start.value, size);
      planned := planned + [start.value];
    }
    starts := Some(planned);
  }

  lemma NothingPlanned(devices: Devices, target: string, units: int, current: seq<string>)
    requires forall k :: 0 <= k < |current| ==> current[k] in devices
    ensures FirstFit(devices, target, units, current, [])
  {
  }

  lemma PlanOneMore(occupied: set<int>, devices: Devices, target: string, units: int, current: seq<string>,
      starts: seq<int>, start: int)
    requires |starts| < |current| && forall k :: 0 <= k < |current| ==> current[k] in devices
    requires Holds(occupied, devices, target, current, starts) && FirstFit(devices, target, units, current, starts)
    requires IsLowest(occupied, HeightOf(devices[current[|starts|]]), units, start)
    ensures FirstFit(devices, target, units, current, starts + [start])
    ensures Holds(occupied + Range(start, HeightOf(devices[current[|starts|]])), devices, target, current,
      starts + [start])
  {
    hide IsLowest;
    var more := starts + [start];
    assert FitsNext(devices, target, units, current, starts, start);
    assert more[..|starts|] == starts;
    forall k | 0 <= k < |more|
      ensures FitsNext(devices, target, units, current, more[..k], more[k])
    {
      if k < |starts| {
        assert more[..k] == starts[..k];
      }
    }
    var size := HeightOf(devices[current[|starts|]]);
    forall u
      ensures Taken(devices, target, current, more, |more|, u) <==>
        (Taken(devices, target, current, starts, |starts|, u) || start <= u < start + size)
    {
      TakenStep(devices, target, current, starts, start, u);
    }
  }

  lemma TakenStep(devices: Devices, target: string, current: seq<string>, starts: seq<int>, start: int, u: int)
    requires |starts| < |current| && forall k :: 0 <= k < |current| ==> current[k] in devices
    ensures Taken(devices, target, current, starts + [start], |starts| + 1, u) <==>
      (Taken(devices, target, current, starts, |starts|, u) ||
        start <= u < start + HeightOf(devices[current[|starts|]]))
  {
  }

  // ---- one checked update per device

  function SiteOf(d: Device, racks: Racks): Option<string> {
    if d.rack.Some? && d.rack.value in racks then Some(racks[d.rack.value].site) else d.site
  }

  /** The placement that the bulk path asks of `updateDevice`. */
  function Wanted(d: Device, racks: Racks, change: RackChange, start: int): Request {
    match change
    case Keep => Request(d.rack, d.start, d.size, SiteOf(d, racks))
    case Clear => Request(None, None, d.size, SiteOf(d, racks))
    case MoveTo(rack) => Request(Some(rack), Some(start), d.size, SiteOf(d, racks))
  }

  /** The row that one update would store. */
  function Attempt(devices: Devices, racks: Racks, id: string, job: Job, start: int): (r: Result<Device, UpdateError>)
    requires id in devices
  {
    var d := devices[id];
    var request := Wanted(d, racks, job.change.rack, start);
    if job.external(id).Rejects? then Err(Outside(job.external(id).message))
    else
      match Validate(devices, racks, request, Some(id))
      case Some(error) => Err(Placement(error))
      case None =>
        var site := if request.rack.Some? then Some(racks[request.rack.value].site) else request.site;
        if site.None? then Err(SiteNotFound)
        else
          var retired := if job.change.retired.Some? then job.change.retired.value else d.retired;
          Ok(Device(request.rack, request.start, d.size, site, retired))
  }

  /** The rack and unit that an update asks for. */
  ghost predicate IsAsked(d: Device, change: RackChange, start: int, rack: Option<string>, unit: Option<int>) {
    match change
    case Keep => rack == d.rack && unit == d.start
    case Clear => rack == None && unit == None
    case MoveTo(target) => rack == Some(target) && unit == Some(start)
  }

  /**
   * A successful update stores the asked rack and unit, the site of that rack or else the site where the device was,
   * the requested status or else the old one, and the old height; it succeeds exactly if nothing outside rejects it,
   * the placement check passes, and there is a site.
   */
  lemma UpdateStores(devices: Devices, racks: Racks, id: string, job: Job, start: int, rack: Option<string>,
      unit: Option<int>)
    requires id in devices && IsAsked(devices[id], job.change.rack, start, rack, unit)
    ensures var d, r := devices[id], Attempt(devices, racks, id, job, start);
      var was := if d.rack.Some? && d.rack.value in racks then Some(racks[d.rack.value].site) else d.site;
      var check := Validate(devices, racks, Request(rack, unit, d.size, was), Some(id));
      if job.external(id).Rejects? then r == Err(Outside(job.external(id).message))
      else if check.Some? then r == Err(Placement(check.value))
      else if rack == None && was == None then r == Err(SiteNotFound)
      else
        && (rack.Some? ==> rack.value in racks)
        && r == Ok(Device(rack, unit, d.size, if rack.Some? then Some(racks[rack.value].site) else was,
             if job.change.retired.Some? then job.change.retired.value else d.retired))
  {
  }

  predicate IsJob(devices: Devices, job: Job) {
    && Distinct(job.current)
    && (forall k :: 0 <= k < |job.current| ==> job.current[k] in devices)
    && |job.starts| == |job.current|
  }

  function StepOn(devices: Devices, racks: Racks, job: Job, k: nat): Devices
    requires k < |job.current| == |job.starts| && job.current[k] in devices
  {
    var attempt := Attempt(devices, racks, job.current[k], job, job.starts[k]);
    if attempt.Ok? then devices[job.current[k] := attempt.value] else devices
  }

  /** The rows after the first n updates. */
  function StateAfter(devices: Devices, racks: Racks, job: Job, n: nat): (r: Devices)
    requires IsJob(devices, job) && n <= |job.current|
    ensures r.Keys == devices.Keys
  {
    if n == 0 then devices else StepOn(StateAfter(devices, racks, job, n - 1), racks, job, n - 1)
  }

  predicate Succeeds(devices: Devices, racks: Racks, job: Job, k: nat)
    requires IsJob(devices, job) && k < |job.current|
  {
    Attempt(StateAfter(devices, racks, job, k), racks, job.current[k], job, job.starts[k]).Ok?
  }

  /** Whichever updates fail, every state on the way and the final one keep all positions in their racks and apart. */
  lemma {:induction false} RunKeepsTidy(devices: Devices, racks: Racks, job: Job, n: nat, withRetired: bool)
    requires IsJob(devices, job) && n <= |job.current| && Tidy(devices, racks, withRetired)
    ensures Tidy(StateAfter(devices, racks, job, n), racks, withRetired)
  {
    hide Tidy, Validate, Positioned;
    if n > 0 {
      RunKeepsTidy(devices, racks, job, n - 1, withRetired);
      var before, id := StateAfter(devices, racks, job, n - 1), job.current[n - 1];
      var attempt := Attempt(before, racks, id, job, job.starts[n - 1]);
      if attempt.Ok? {
        CheckedAttempt(before, racks, id, job, job.starts[n - 1]);
        CheckedRowKeepsTidy(before, racks, id, attempt.value, SiteOf(before[id], racks), withRetired);
      }
    }
  }

  lemma CheckedAttempt(devices: Devices, racks: Racks, id: string, job: Job, start: int)
    requires id in devices && Attempt(devices, racks, id, job, start).Ok?
    ensures var row := Attempt(devices, racks, id, job, start).value;
      Validate(devices, racks, Request(row.rack, row.start, row.size, SiteOf(devices[id], racks)), Some(id)).None?
  {
  }

  /** The row of a selected device: still the old one until its own update succeeds. */
  lemma {:induction false} RowAt(devices: Devices, racks: Racks, job: Job, n: nat, j: nat)
    requires IsJob(devices, job) && n <= |job.current| && j < |job.current|
    ensures var row := StateAfter(devices, racks, job, n)[job.current[j]];
      if j < n && Succeeds(devices, racks, job, j) then
        Attempt(StateAfter(devices, racks, job, j), racks, job.current[j], job, job.starts[j]) == Ok(row)
      else row == devices[job.current[j]]
  {
    hide Attempt;
    if n > 0 {
      RowAt(devices, racks, job, n - 1, j);
    }
  }

  lemma {:induction false} UnselectedStay(devices: Devices, racks: Racks, job: Job, n: nat, id: string)
    requires IsJob(devices, job) && n <= |job.current| && id in devices && id !in job.current
    ensures StateAfter(devices, racks, job, n)[id] == devices[id]
  {
    hide Attempt;
    if n > 0 {
      UnselectedStay(devices, racks, job, n - 1, id);
      assert job.current[n - 1] in job.current;
    }
  }

  // ---- the plan is first fit, in terms of units

  /** A recorded height, or one unit. */
  ghost function Units(d: Device): int {
    if d.size.Some? then d.size.value else 1
  }

  /**
   * The unit belongs to a row of the target rack that is not selected, or to the slot planned for one of the first i
   * selected devices.
   */
  ghost predicate IsUsed(devices: Devices, target: string, current: seq<string>, starts: seq<int>, i: int, u: int)
    requires 0 <= i <= |starts| <= |current| && forall k :: 0 <= k < |current| ==> current[k] in devices
  {
    || (exists id ::
          && id in devices && id !in current && devices[id].rack == Some(target) && devices[id].start.Some?
          && devices[id].start.value != 0 && devices[id].size.Some?
          && HasUnit(devices[id].start.value, devices[id].size.value, u))
    || (exists k :: 0 <= k < i && HasUnit(starts[k], Units(devices[current[k]]), u))
  }

  lemma UsedIsTaken(devices: Devices, target: string, current: seq<string>, starts: seq<int>, i: int, u: int)
    requires 0 <= i <= |starts| <= |current| && forall k :: 0 <= k < |current| ==> current[k] in devices
    ensures IsUsed(devices, target, current, starts, i, u) <==> Taken(devices, target, current, starts, i, u)
  {
  }

  /** All units from `s` on that the device needs are in the rack and unused. */
  ghost predicate FitsAt(devices: Devices, target: string, units: int, current: seq<string>, starts: seq<int>, k: int,
      s: int)
    requires 0 <= k < |current| && k <= |starts| <= |current|
    requires forall i :: 0 <= i < |current| ==> current[i] in devices
  {
    && s >= 1 && s + Units(devices[current[k]]) <= units + 1
    && forall u :: HasUnit(s, Units(devices[current[k]]), u) ==> !IsUsed(devices, target, current, starts, k, u)
  }

  lemma FreeIsFitting(occupied: set<int>, devices: Devices, target: string, units: int, current: seq<string>,
      starts: seq<int>, s: int)
    requires |starts| < |current| && forall k :: 0 <= k < |current| ==> current[k] in devices
    requires Holds(occupied, devices, target, current, starts)
    requires s >= 1 && s + Units(devices[current[|starts|]]) <= units + 1
    ensures FitsAt(devices, target, units, current, starts, |starts|, s) <==>
      IsFree(occupied, s, HeightOf(devices[current[|starts|]]))
  {
    hide Taken, IsUsed;
    forall u
      ensures u in occupied <==> IsUsed(devices, target, current, starts, |starts|, u)
    {
      UsedIsTaken(devices, target, current, starts, |starts|, u);
    }
  }

  /** Each planned start is the lowest unit at which the device fits beside the rows that stay and the earlier plans. */
  lemma PlanIsFirstFit(devices: Devices, target: string, units: int, current: seq<string>, starts: seq<int>, k: nat)
    requires forall i :: 0 <= i < |current| ==> current[i] in devices
    requires |starts| <= |current| && FirstFit(devices, target, units, current, starts) && k < |starts|
    ensures FitsAt(devices, target, units, current, starts[..k], k, starts[k])
    ensures forall s :: s < starts[k] ==> !FitsAt(devices, target, units, current, starts[..k], k, s)
  {
    hide FitsAt, Holds, IsFree;
    var planned := starts[..k];
    assert FitsNext(devices, target, units, current, planned, starts[k]);
    var occupied :| Holds(occupied, devices, target, current, planned) &&
      IsLowest(occupied, HeightOf(devices[current[k]]), units, starts[k]);
    FreeIsFitting(occupied, devices, target, units, current, planned, starts[k]);
    forall s | s < starts[k]
      ensures !FitsAt(devices, target, units, current, planned, k, s)
    {
      if s >= 1 {
        FreeIsFitting(occupied, devices, target, units, current, planned, s);
      } else {
        FitsInRack(devices, target, units, current, planned, k, s);
      }
    }
  }

  lemma FitsInRack(devices: Devices, target: string, units: int, current: seq<string>, starts: seq<int>, k: int, s: int)
    requires 0 <= k < |current| && k <= |starts| <= |current|
    requires forall i :: 0 <= i < |current| ==> current[i] in devices
    ensures FitsAt(devices, target, units, current, starts, k, s) ==>
      s >= 1 && s + Units(devices[current[k]]) <= units + 1
  {
  }

  /** Planning gives up only when some device fits nowhere beside the rows that stay and the earlier plans. */
  lemma FullMeansNoFit(devices: Devices, target: string, units: int, current: seq<string>) returns (starts: seq<int>)
    requires forall k :: 0 <= k < |current| ==> current[k] in devices
    requires RackFull(devices, target, units, current)
    ensures |starts| < |current| && FirstFit(devices, target, units, current, starts)
    ensures forall s :: !FitsAt(devices, target, units, current, starts, |starts|, s)
  {
    hide FitsAt, Holds, IsFree, FirstFit;
    var occupied: set<int>;
    starts, occupied :| |starts| < |current| && FirstFit(devices, target, units, current, starts) &&
      Holds(occupied, devices, target, current, starts) &&
      NoRoom(occupied, HeightOf(devices[current[|starts|]]), units);
    forall s
      ensures !FitsAt(devices, target, units, current, starts, |starts|, s)
    {
      FitsInRack(devices, target, units, current, starts, |starts|, s);
      if s >= 1 && s + Units(devices[current[|starts|]]) <= units + 1 {
        FreeIsFitting(occupied, devices, target, units, current, starts, s);
      }
    }
  }

  // ---- the planned slots

  predicate InSlot(u: int, start: int, size: int) {
    start <= u < start + size
  }

  lemma NoCommonUnit(a: int, m: int, b: int, n: int)
    requires m >= 1 && n >= 1 && forall u :: InSlot(u, a, m) ==> !InSlot(u, b, n)
    ensures !SlotsMeet(a, m, b, n)
  {
    var u := if a >= b then a else b;
    assert InSlot(u, a, m) ==> !InSlot(u, b, n);
  }

  predicate StandsIn(d: Device, rack: string) {
    Positioned(d) && d.rack == Some(rack)
  }

  lemma PlannedSlot(devices: Devices, target: string, units: int, current: seq<string>, starts: seq<int>, k: nat)
    requires forall i :: 0 <= i < |current| ==> current[i] in devices
    requires |starts| == |current| && FirstFit(devices, target, units, current, starts) && k < |starts|
    ensures 1 <= starts[k] && starts[k] + HeightOf(devices[current[k]]) - 1 <= units
    ensures forall u :: InSlot(u, starts[k], HeightOf(devices[current[k]])) ==>
      !Taken(devices, target, current, starts[..k], k, u)
  {
  }

  /** Each planned slot lies inside the rack and meets neither another planned slot nor an unselected device. */
  lemma PlanSeparates(devices: Devices, target: string, units: int, current: seq<string>, starts: seq<int>, k: nat)
    requires forall i :: 0 <= i < |current| ==> current[i] in devices
    requires |starts| == |current| && FirstFit(devices, target, units, current, starts) && k < |starts|
    ensures 1 <= starts[k] && starts[k] + HeightOf(devices[current[k]]) - 1 <= units
    ensures forall i :: 0 <= i < |starts| && i != k ==>
      !SlotsMeet(starts[k], HeightOf(devices[current[k]]), starts[i], HeightOf(devices[current[i]]))
    ensures forall id :: id in devices && id !in current && StandsIn(devices[id], target) ==>
      !SlotsMeet(starts[k], HeightOf(devices[current[k]]), devices[id].start.value, devices[id].size.value)
  {
    hide FirstFit, SlotsMeet;
    PlannedSlot(devices, target, units, current, starts, k);
    forall i | 0 <= i < |starts| && i != k
      ensures !SlotsMeet(starts[k], HeightOf(devices[current[k]]), starts[i], HeightOf(devices[current[i]]))
    {
      if i < k {
        EarlierSlot(devices, target, units, current, starts, i, k);
      } else {
        EarlierSlot(devices, target, units, current, starts, k, i);
        MeetSymmetric(starts[k], HeightOf(devices[current[k]]), starts[i], HeightOf(devices[current[i]]));
      }
    }
    forall id | id in devices && id !in current && Positioned(devices[id]) && devices[id].rack == Some(target)
      ensures !SlotsMeet(starts[k], HeightOf(devices[current[k]]), devices[id].start.value, devices[id].size.value)
    {
      UnselectedSlot(devices, target, units, current, starts, k, id);
    }
  }

  lemma MeetSymmetric(a: int, m: int, b: int, n: int)
    ensures SlotsMeet(a, m, b, n) <==> SlotsMeet(b, n, a, m)
  {
  }

  lemma EarlierSlot(devices: Devices, target: string, units: int, current: seq<string>, starts: seq<int>, i: nat,
      k: nat)
    requires forall j :: 0 <= j < |current| ==> current[j] in devices
    requires |starts| == |current| && FirstFit(devices, target, units, current, starts) && i < k < |starts|
    ensures !SlotsMeet(starts[k], HeightOf(devices[current[k]]), starts[i], HeightOf(devices[current[i]]))
  {
    hide FirstFit, SlotsMeet, HeightOf, Covers;
    var m, n := HeightOf(devices[current[k]]), HeightOf(devices[current[i]]);
    PlannedSlot(devices, target, units, current, starts, k);
    HeightPositive(devices[current[k]]);
    HeightPositive(devices[current[i]]);
    forall u | InSlot(u, starts[k], m)
      ensures !InSlot(u, starts[i], n)
    {
      assert starts[..k][i] == starts[i];
      assert !Taken(devices, target, current, starts[..k], k, u);
    }
    NoCommonUnit(starts[k], m, starts[i], n);
  }

  lemma HeightPositive(d: Device)
    ensures HeightOf(d) >= 1
  {
  }

  lemma UnselectedSlot(devices: Devices, target: string, units: int, current: seq<string>, starts: seq<int>, k: nat,
      id: string)
    requires forall j :: 0 <= j < |current| ==> current[j] in devices
    requires |starts| == |current| && FirstFit(devices, target, units, current, starts) && k < |starts|
    requires id in devices && id !in current && Positioned(devices[id]) && devices[id].rack == Some(target)
    ensures !SlotsMeet(starts[k], HeightOf(devices[current[k]]), devices[id].start.value, devices[id].size.value)
  {
    hide FirstFit, SlotsMeet, HeightOf;
    var m, d := HeightOf(devices[current[k]]), devices[id];
    PlannedSlot(devices, target, units, current, starts, k);
    HeightPositive(devices[current[k]]);
    forall u | InSlot(u, starts[k], m)
      ensures !InSlot(u, d.start.value, d.size.value)
    {
      assert !Taken(devices, target, current, starts[..k], k, u);
    }
    NoCommonUnit(starts[k], m, d.start.value, d.size.value);
  }

  // ---- when a planned move passes its placement check

  ghost predicate IsMove(devices: Devices, racks: Racks, job: Job, target: string) {
    && IsJob(devices, job) && job.change.rack == MoveTo(target) && target in racks
    && FirstFit(devices, target, racks[target].units, job.current, job.starts)
  }

  /** The device itself allows the move: its height is recorded and it belongs to the rack's site, or to none. */
  predicate Movable(d: Device, racks: Racks, target: string)
    requires target in racks
  {
    d.size.Some? && (SiteOf(d, racks).Some? ==> SiteOf(d, racks).value == racks[target].site)
  }

  /** Selected device j already stands in the target rack, and its present slot meets the slot planned for device k. */
  predicate StandsInTheWay(devices: Devices, job: Job, target: string, k: nat, j: nat)
    requires IsJob(devices, job) && k < |job.current| && j < |job.current|
  {
    var d := devices[job.current[j]];
    && Positioned(d) && d.rack == Some(target)
    && SlotsMeet(job.starts[k], HeightOf(devices[job.current[k]]), d.start.value, d.size.value)
  }

  predicate HasMoved(devices: Devices, racks: Racks, job: Job, k: nat, j: nat)
    requires IsJob(devices, job) && k <= |job.current| && j < |job.current|
  {
    j < k && Succeeds(devices, racks, job, j)
  }

  /**
   * Whatever happened to the earlier updates, update k passes exactly if nothing outside rejects it, the
   * device is movable, and no selected device that has not been moved yet stands in the way.
   */
  lemma StepPassesIff(devices: Devices, racks: Racks, job: Job, target: string, k: nat)
    requires IsMove(devices, racks, job, target) && k < |job.current|
    ensures Succeeds(devices, racks, job, k) <==>
      && !job.external(job.current[k]).Rejects?
      && Movable(devices[job.current[k]], racks, target)
      && forall j :: 0 <= j < |job.current| && j != k && !HasMoved(devices, racks, job, k, j) ==>
           !StandsInTheWay(devices, job, target, k, j)
  {
    hide Attempt, FirstFit, StateAfter, Succeeds, Validate, SlotsMeet, Distinct;
    var before, id := StateAfter(devices, racks, job, k), job.current[k];
    PlanSeparates(devices, target, racks[target].units, job.current, job.starts, k);
    RowAt(devices, racks, job, k, k);
    SucceedsMeans(devices, racks, job, target, k);
    if Movable(devices[id], racks, target) {
      OccupiedIff(devices, racks, job, target, k);
    }
  }

  lemma SucceedsMeans(devices: Devices, racks: Racks, job: Job, target: string, k: nat)
    requires IsMove(devices, racks, job, target) && k < |job.current|
    requires 1 <= job.starts[k] && job.starts[k] + HeightOf(devices[job.current[k]]) - 1 <= racks[target].units
    requires StateAfter(devices, racks, job, k)[job.current[k]] == devices[job.current[k]]
    ensures Succeeds(devices, racks, job, k) <==>
      && !job.external(job.current[k]).Rejects?
      && Movable(devices[job.current[k]], racks, target)
      && !IsOccupied(StateAfter(devices, racks, job, k), target, job.starts[k], HeightOf(devices[job.current[k]]),
        Some(job.current[k]))
  {
  }

  lemma OccupiedIff(devices: Devices, racks: Racks, job: Job, target: string, k: nat)
    requires IsMove(devices, racks, job, target) && k < |job.current|
    ensures IsOccupied(StateAfter(devices, racks, job, k), target, job.starts[k], HeightOf(devices[job.current[k]]),
      Some(job.current[k])) <==>
      exists j :: 0 <= j < |job.current| && j != k && !HasMoved(devices, racks, job, k, j) &&
        StandsInTheWay(devices, job, target, k, j)
  {
    hide Attempt, FirstFit, StateAfter, Succeeds, SlotsMeet;
    var before, start, size := StateAfter(devices, racks, job, k), job.starts[k], HeightOf(devices[job.current[k]]);
    if IsOccupied(before, target, start, size, Some(job.current[k])) {
      var id :| id in before && Some(id) != Some(job.current[k]) && Positioned(before[id]) &&
        before[id].rack == Some(target) &&
        SlotsMeet(start, size, before[id].start.value, before[id].size.value);
      PlanSeparates(devices, target, racks[target].units, job.current, job.starts, k);
      if id !in job.current {
        UnselectedStay(devices, racks, job, k, id);
      } else {
        var j :| 0 <= j < |job.current| && job.current[j] == id;
        RowAt(devices, racks, job, k, j);
        if HasMoved(devices, racks, job, k, j) {
          MovedRow(devices, racks, job, target, k, j);
        }
        assert StandsInTheWay(devices, job, target, k, j);
      }
    }
    if j :|
      && 0 <= j < |job.current| && j != k
      && !HasMoved(devices, racks, job, k, j) && StandsInTheWay(devices, job, target, k, j)
    {
      RowAt(devices, racks, job, k, j);
      assert before[job.current[j]] == devices[job.current[j]];
      assert job.current[j] != job.current[k];
    }
  }

  lemma MovedRow(devices: Devices, racks: Racks, job: Job, target: string, k: nat, j: nat)
    requires IsMove(devices, racks, job, target) && k <= |job.current| && j < |job.current| &&
      HasMoved(devices, racks, job, k, j)
    ensures var row := StateAfter(devices, racks, job, k)[job.current[j]];
      row.rack == Some(target) && row.start == Some(job.starts[j]) && row.size == devices[job.current[j]].size &&
        row.size.Some?
  {
    hide FirstFit, StateAfter, SiteOf, IsOccupied;
    RowAt(devices, racks, job, k, j);
    RowAt(devices, racks, job, j, j);
  }

  /** Every device is movable, and none that is processed later stands in the way of an earlier one. */
  predicate ClearWay(devices: Devices, racks: Racks, job: Job, target: string)
    requires IsJob(devices, job) && target in racks
  {
    && (forall k :: 0 <= k < |job.current| ==> Movable(devices[job.current[k]], racks, target))
    && (forall k, j :: 0 <= k < j < |job.current| ==> !StandsInTheWay(devices, job, target, k, j))
  }

  ghost predicate NoneRejected(job: Job) {
    forall k :: 0 <= k < |job.current| ==> !job.external(job.current[k]).Rejects?
  }

  lemma {:induction false} ClearWayPasses(devices: Devices, racks: Racks, job: Job, target: string, n: nat)
    requires IsMove(devices, racks, job, target) && NoneRejected(job) && ClearWay(devices, racks, job, target)
    requires n <= |job.current|
    ensures forall k :: 0 <= k < n ==> Succeeds(devices, racks, job, k)
  {
    hide Succeeds, StandsInTheWay, Movable, FirstFit, Distinct;
    if n > 0 {
      ClearWayPasses(devices, racks, job, target, n - 1);
      StepPassesIff(devices, racks, job, target, n - 1);
    }
  }

  /** If nothing outside interferes, every update passes exactly if the way is clear. */
  lemma AllPassIff(devices: Devices, racks: Racks, job: Job, target: string)
    requires IsMove(devices, racks, job, target) && NoneRejected(job)
    ensures (forall k :: 0 <= k < |job.current| ==> Succeeds(devices, racks, job, k)) <==>
      ClearWay(devices, racks, job, target)
  {
    hide Succeeds, StandsInTheWay, Movable, FirstFit, Distinct;
    if ClearWay(devices, racks, job, target) {
      ClearWayPasses(devices, racks, job, target, |job.current|);
    }
    if forall k :: 0 <= k < |job.current| ==> Succeeds(devices, racks, job, k) {
      forall k | 0 <= k < |job.current|
        ensures Movable(devices[job.current[k]], racks, target)
      {
        StepPassesIff(devices, racks, job, target, k);
      }
      forall k, j | 0 <= k < j < |job.current|
        ensures !StandsInTheWay(devices, job, target, k, j)
      {
        StepPassesIff(devices, racks, job, target, k);
        assert !HasMoved(devices, racks, job, k, j);
      }
    }
  }

  /** No placement fails for want of space if no selected device stands in the target rack yet. */
  lemma NewcomersPass(devices: Devices, racks: Racks, job: Job, target: string)
    requires IsMove(devices, racks, job, target) && NoneRejected(job)
    requires forall k :: 0 <= k < |job.current| ==>
      Movable(devices[job.current[k]], racks, target) && devices[job.current[k]].rack != Some(target)
    ensures forall k :: 0 <= k < |job.current| ==> Succeeds(devices, racks, job, k)
  {
    hide Succeeds, Movable, FirstFit, SlotsMeet;
    ClearWayPasses(devices, racks, job, target, |job.current|);
  }

  /**
   * A move inside one rack can fail: Y stands at unit 2 and X at unit 1; first fit sends Y to unit 1 while X is still
   * there.
   */
  lemma LaterDeviceInTheWay()
    ensures exists devices: Devices, racks: Racks, job: Job, target: string ::
      && Tidy(devices, racks, true) && IsMove(devices, racks, job, target) && NoneRejected(job)
      && (forall k :: 0 <= k < |job.current| ==> Movable(devices[job.current[k]], racks, target))
      && |job.current| > 0 && !Succeeds(devices, racks, job, 0)
  {
    var racks: Racks := map["R" := Rack(2, "S", "M")];
    var x := Device(Some("R"), Some(1), Some(1), Some("S"), false);
    var y := Device(Some("R"), Some(2), Some(1), Some("S"), false);
    var devices: Devices := map["X" := x, "Y" := y];
    var job := Job(["Y", "X"], Change(MoveTo("R"), None), [1, 2], Quiet);
    FirstFitOfTwo(devices, job.current);
    assert StandsInTheWay(devices, job, "R", 0, 1);
    StepPassesIff(devices, racks, job, "R", 0);
    assert NoneRejected(job) && Movable(x, racks, "R") && Movable(y, racks, "R");
  }

  function Quiet(id: string): External {
    Passes
  }

  lemma FirstFitOfTwo(devices: Devices, current: seq<string>)
    requires |current| == 2 && current[0] in devices && current[1] in devices
    requires forall id :: id in devices ==> id in current
    requires devices[current[0]].size == Some(1) && devices[current[1]].size == Some(1)
    ensures FirstFit(devices, "R", 2, current, [1, 2])
  {
    assert Holds({}, devices, "R", current, []);
    assert IsLowest({}, 1, 2, 1);
    assert Holds({1}, devices, "R", current, [1]);
    assert !IsFree({1}, 1, 1);
    assert IsLowest({1}, 1, 2, 2);
    assert [1, 2][..0] == [] && [1, 2][..1] == [1];
    assert FitsNext(devices, "R", 2, current, [1, 2][..0], 1);
    assert FitsNext(devices, "R", 2, current, [1, 2][..1], 2);
  }

  // ---- the outcome record and the operation

  datatype Failure = Failure(id: string, error: UpdateError)

  datatype Outcome = Outcome(updatedIds: seq<string>, failed: seq<Failure>, auditFailed: seq<Failure>)

  /** The selected devices whose update is stored, in order. */
  function Passing(devices: Devices, racks: Racks, job: Job, n: nat): (ids: seq<string>)
    requires IsJob(devices, job) && n <= |job.current|
  {
    if n == 0 then []
    else Passing(devices, racks, job, n - 1) + if Succeeds(devices, racks, job, n - 1) then [job.current[n - 1]] else []
  }

  function Failing(devices: Devices, racks: Racks, job: Job, n: nat): (failed: seq<Failure>)
    requires IsJob(devices, job) && n <= |job.current|
  {
    if n == 0 then []
    else
      var id := job.current[n - 1];
      var attempt := Attempt(StateAfter(devices, racks, job, n - 1), racks, id, job, job.starts[n - 1]);
      Failing(devices, racks, job, n - 1) + if attempt.Err? then [Failure(id, attempt.error)] else []
  }

  function Unaudited(devices: Devices, racks: Racks, job: Job, n: nat): (lost: seq<Failure>)
    requires IsJob(devices, job) && n <= |job.current|
  {
    if n == 0 then []
    else
      var id := job.current[n - 1];
      var lost := Succeeds(devices, racks, job, n - 1) && job.external(id).AuditLost?;
      Unaudited(devices, racks, job, n - 1) + if lost then [Failure(id, Outside(job.external(id).message))] else []
  }

  function Report(devices: Devices, racks: Racks, job: Job, n: nat): Outcome
    requires IsJob(devices, job) && n <= |job.current|
  {
    Outcome(Passing(devices, racks, job, n), Failing(devices, racks, job, n), Unaudited(devices, racks, job, n))
  }

  ghost predicate Lists(failures: seq<Failure>, id: string) {
    exists f :: f in failures && f.id == id
  }

  /**
   * Each selected device is reported exactly once, as updated or as failed; it is updated exactly if its row
   * holds what its update stored; and a lost audit entry is reported on top of an updated device.
   */
  lemma {:induction false} ReportIsExact(devices: Devices, racks: Racks, job: Job, n: nat, k: nat)
    requires IsJob(devices, job) && n <= |job.current| && k < |job.current|
    ensures var report, id := Report(devices, racks, job, n), job.current[k];
      && |report.updatedIds| + |report.failed| == n
      && (id in report.updatedIds <==> HasMoved(devices, racks, job, n, k))
      && (Lists(report.failed, id) <==> k < n && !HasMoved(devices, racks, job, n, k))
      && (Lists(report.auditFailed, id) <==> id in report.updatedIds && job.external(id).AuditLost?)
  {
    hide Attempt, StateAfter, Lists;
    if n == 0 {
      NoneListed(job.current[k]);
    } else {
      ReportIsExact(devices, racks, job, n - 1, k);
      ReportStep(devices, racks, job, n, k);
    }
  }

  lemma NoneListed(id: string)
    ensures !Lists([], id)
  {
  }

  lemma ReportStep(devices: Devices, racks: Racks, job: Job, n: nat, k: nat)
    requires IsJob(devices, job) && 0 < n <= |job.current| && k < |job.current|
    ensures var before, after, id := Report(devices, racks, job, n - 1), Report(devices, racks, job, n), job.current[k];
      var ok := Succeeds(devices, racks, job, n - 1);
      && |after.updatedIds| + |after.failed| == |before.updatedIds| + |before.failed| + 1
      && (id in after.updatedIds <==> id in before.updatedIds || (k == n - 1 && ok))
      && (Lists(after.failed, id) <==> Lists(before.failed, id) || (k == n - 1 && !ok))
      && (Lists(after.auditFailed, id) <==>
        Lists(before.auditFailed, id) || (k == n - 1 && ok && job.external(id).AuditLost?))
  {
  }

  /** The failure is that of one of the first n updates, with its own reason. */
  ghost predicate IsFailureOf(devices: Devices, racks: Racks, job: Job, n: nat, f: Failure)
    requires IsJob(devices, job) && n <= |job.current|
  {
    exists k :: 0 <= k < n && f.id == job.current[k] &&
      Attempt(StateAfter(devices, racks, job, k), racks, job.current[k], job, job.starts[k]) == Err(f.error)
  }

  /** The lists of a report follow the order of the selection. */
  lemma {:induction false} ReportFollowsOrder(devices: Devices, racks: Racks, job: Job, n: nat)
    requires IsJob(devices, job) && n <= |job.current|
    ensures var report := Report(devices, racks, job, n);
      && InOrder(report.updatedIds, job.current[..n])
      && InOrder(IdsOf(report.failed), job.current[..n]) && InOrder(IdsOf(report.auditFailed), job.current[..n])
  {
    hide Attempt, Succeeds, StateAfter, InOrder, IdsOf;
    if n > 0 {
      ReportFollowsOrder(devices, racks, job, n - 1);
      var id := job.current[n - 1];
      assert job.current[..n] == job.current[..n - 1] + [id];
      var report := Report(devices, racks, job, n - 1);
      OneMoreInOrder(report.updatedIds, job.current[..n - 1], id);
      OneMoreInOrder(IdsOf(report.failed), job.current[..n - 1], id);
      OneMoreInOrder(IdsOf(report.auditFailed), job.current[..n - 1], id);
      var attempt := Attempt(StateAfter(devices, racks, job, n - 1), racks, id, job, job.starts[n - 1]);
      if attempt.Err? {
        IdsMore(report.failed, Failure(id, attempt.error));
      }
      if job.external(id).AuditLost? {
        IdsMore(report.auditFailed, Failure(id, Outside(job.external(id).message)));
      }
      NothingMore(report);
    } else {
      NothingReported(devices, racks, job);
    }
  }

  lemma NothingReported(devices: Devices, racks: Racks, job: Job)
    requires IsJob(devices, job)
    ensures var report := Report(devices, racks, job, 0);
      InOrder(report.updatedIds, job.current[..0]) && InOrder(IdsOf(report.failed), job.current[..0]) &&
      InOrder(IdsOf(report.auditFailed), job.current[..0])
  {
  }

  lemma NothingMore(report: Outcome)
    ensures report.updatedIds + [] == report.updatedIds && report.failed + [] == report.failed &&
      report.auditFailed + [] == report.auditFailed
  {
  }

  lemma IdsMore(failures: seq<Failure>, f: Failure)
    ensures IdsOf(failures + [f]) == IdsOf(failures) + [f.id]
  {
  }

  /** Each failure carries the reason of its own update, and each lost audit entry its message. */
  lemma {:induction false} FailuresHaveReasons(devices: Devices, racks: Racks, job: Job, n: nat, f: Failure)
    requires IsJob(devices, job) && n <= |job.current|
    ensures f in Report(devices, racks, job, n).failed ==> IsFailureOf(devices, racks, job, n, f)
    ensures f in Report(devices, racks, job, n).auditFailed ==>
      job.external(f.id).AuditLost? && f.error == Outside(job.external(f.id).message)
  {
    hide Attempt, StateAfter;
    if n > 0 {
      FailuresHaveReasons(devices, racks, job, n - 1, f);
    }
  }

  ghost function IdsOf(failures: seq<Failure>): seq<string> {
    seq(|failures|, i requires 0 <= i < |failures| => failures[i].id)
  }

  /** The ids are some of all, in the same order. */
  ghost predicate InOrder(some: seq<string>, all: seq<string>) {
    if |all| == 0 then some == []
    else
      var rest := all[..|all| - 1];
      InOrder(some, rest) || (|some| > 0 && some[|some| - 1] == all[|all| - 1] && InOrder(some[..|some| - 1], rest))
  }

  lemma OneMoreInOrder(some: seq<string>, all: seq<string>, id: string)
    requires InOrder(some, all)
    ensures InOrder(some, all + [id]) && InOrder(some + [id], all + [id])
  {
    assert (all + [id])[..|all|] == all && (some + [id])[..|some|] == some;
  }

  datatype BulkError = InvalidSelection | DeviceNotFound | TargetNotFound | TargetFull

  const MAX_SELECTION := 100

  class DeviceTable {
    var devices: Devices
    const racks: Racks

    constructor (devices: Devices, racks: Racks)
      ensures this.devices == devices && this.racks == racks
    {
      this.devices, this.racks := devices, racks;
    }

    /** `updateDevice` as the bulk path calls it: the row changes only if every check passes. */
    method UpdateOne(job: Job, k: nat) returns (stored: Option<UpdateError>)
      requires IsJob(devices, job) && k < |job.current|
      modifies this
      ensures devices == StepOn(old(devices), racks, job, k)
      ensures stored == (match Attempt(old(devices), racks, job.current[k], job,
        job.starts[k]) case Ok(_) => None case Err(e) => Some(e))
    {
      var attempt := Attempt(devices, racks, job.current[k], job, job.starts[k]);
      match attempt
      case Ok(row) =>
        devices := devices[job.current[k] := row];
        return None;
      case Err(error) =>
        return Some(error);
    }

    /** `updateDevicesIndividually`: goes on after a failure and reports every device. */
    method UpdateIndividually(job: Job) returns (outcome: Outcome)
      requires IsJob(devices, job)
      modifies this
      ensures devices == StateAfter(old(devices), racks, job, |job.current|)
      ensures outcome == Report(old(devices), racks, job, |job.current|)
    {
      hide Attempt, Distinct;
      outcome := Outcome([], [], []);
      for i := 0 to |job.current|
        invariant IsJob(old(devices), job)
        invariant devices == StateAfter(old(devices), racks, job, i)
        invariant outcome == Report(old(devices), racks, job, i)
      {
        var id := job.current[i];
        var stored := UpdateOne(job, i);
        match stored
        case None =>
          outcome := outcome.(updatedIds := outcome.updatedIds + [id]);
          if job.external(id).AuditLost? {
            outcome := outcome.(auditFailed := outcome.auditFailed + [Failure(id, Outside(job.external(id).message))]);
          }
        case Some(error) =>
          outcome := outcome.(failed := outcome.failed + [Failure(id, error)]);
      }
    }

    /**
     * `bulkUpdateDevices`. `current` is the query result for `ids`, and `rackRows` the rows of the target rack,
     * both in the order the database chose.
     */
    method BulkUpdate(ids: seq<string>, change: Change, current: seq<string>, rackRows: seq<string>,
        external: string -> External)
      returns (r: Result<Outcome, BulkError>, ghost job: Job)
      requires Distinct(current) && forall id :: id in current <==> id in ids && id in devices
      requires change.rack.MoveTo? ==> forall id :: id in rackRows <==>
        id in devices && devices[id].rack == Some(change.rack.rack)
      modifies this
      ensures r.Err? ==> devices == old(devices)
      ensures r == Err(InvalidSelection) <==> |ids| == 0 || |ids| > 100 || !Distinct(ids)
      ensures r == Err(DeviceNotFound) <==>
        1 <= |ids| <= 100 && Distinct(ids) && exists id :: id in ids && id !in old(devices)
      ensures r == Err(TargetNotFound) <==>
        && 1 <= |ids| <= 100 && Distinct(ids) && (forall id :: id in ids ==> id in old(devices))
        && change.rack.MoveTo? && change.rack.rack !in racks
      ensures r == Err(TargetFull) ==>
        && change.rack.MoveTo? && change.rack.rack in racks && (forall id :: id in current ==> id in old(devices))
        && RackFull(old(devices), change.rack.rack, racks[change.rack.rack].units, current)
      ensures r.Ok? ==>
        && (forall id :: id in ids ==> id in old(devices))
        && job.current == current && job.change == change && job.external == external && IsJob(old(devices), job)
        && (change.rack.MoveTo? ==> IsMove(old(devices), racks, job, change.rack.rack))
        && devices == StateAfter(old(devices), racks, job, |current|)
        && r.value == Report(old(devices), racks, job, |current|)
    {
      hide FirstFit, RackFull, Distinct, StateAfter, Report;
      job := Job(current, change, [], external);
      if |ids| == 0 || |ids| > MAX_SELECTION || !Distinct(ids) {
        return Err(InvalidSelection), job;
      }
      if exists id :: id in ids && id !in devices {
        return Err(DeviceNotFound), job;
      }
      var starts := seq(|current|, _ => 0);
      if change.rack.MoveTo? {
        var target := change.rack.rack;
        if target !in racks {
          return Err(TargetNotFound), job;
        }
        var planned := PlanUnits(devices, target, racks[target].units, current, rackRows);
        if planned.None? {
          return Err(TargetFull), job;
        }
        starts := planned.value;
      }
      var bulk := Job(current, change, starts, external);
      job := bulk;
      var outcome := UpdateIndividually(bulk);
      r := Ok(outcome);
    }
  }
}
