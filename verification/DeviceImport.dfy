/** CSV import of devices: the preview's placement checks and the insertion of a whole batch. */
module DeviceImport {
  import opened Wrappers
  import opened Inventory
  import RackPlacement

  /** A cell for a unit number: no such cell, something that is not a number (an empty cell, too), or a number. */
  datatype Cell = Absent | Unreadable | Number(n: int)

  /** Serial number, asset tag and management address; empty texts stand for missing ones. */
  datatype Identity = Identity(serial: string, tag: string, address: string)

  datatype Row = Row(
    name: string, deviceType: string, status: string, model: string, identity: Identity,
    rack: string, start: Cell, size: Cell)

  datatype Stored = Stored(site: Option<string>, identity: Identity)

  /**
   * What the preview asks the rest of the system: the user's roles, the models that can be used, the devices that are
   * already stored, whether the user may put a type of device into a rack, and the lower-case form of a text.
   */
  datatype Context = Context(
    roles: set<string>, models: set<string>, stored: seq<Stored>, opens: (string, string) -> bool,
    lower: string -> string)

  datatype ImportError = BadRequest | ValidationFailed | Cancelled

  const MAX_ROWS := 500
  const FIRST_ROW_NUMBER := 2

  const TYPES: set<string> := {"SWITCH", "ROUTER", "FIREWALL", "SERVER", "STORAGE", "OTHER"}
  const STATUSES: set<string> := {"ACTIVE", "INACTIVE", "MAINTENANCE", "RETIRED", "UNKNOWN"}

  predicate IsUnitCell(cell: Cell) {
    cell.Absent? || (cell.Number? && cell.n >= 1)
  }

  function Value(cell: Cell): Option<int> {
    if cell.Number? then Some(cell.n) else None
  }

  function HeightIn(cell: Cell): Option<Height> {
    if cell.Number? && cell.n >= 1 then Some(cell.n) else None
  }

  function RackOf(row: Row): Option<string> {
    if row.rack == "" then None else Some(row.rack)
  }

  function Wanted(row: Row, site: string): Request {
    Request(RackOf(row), Value(row.start), HeightIn(row.size), Some(site))
  }

  /** `assertDeviceCapability` */
  predicate IsCapable(roles: set<string>, deviceType: string) {
    || "ADMIN" in roles || "SYSTEMS_OPERATOR" in roles
    || ("NETWORK_OPERATOR" in roles && deviceType in {"SWITCH", "ROUTER", "FIREWALL"})
  }

  predicate SharesText(a: string, b: string) {
    a != "" && a == b
  }

  predicate SharesIdentity(a: Identity, b: Identity) {
    SharesText(a.serial, b.serial) || SharesText(a.tag, b.tag) || SharesText(a.address, b.address)
  }

  /** A device of the site has the same serial number, asset tag or management address, letter by letter. */
  predicate IsTaken(stored: seq<Stored>, site: string, identity: Identity) {
    exists d :: d in stored && d.site == Some(site) && SharesIdentity(identity, d.identity)
  }

  /** The row passes every check of the preview except the comparison with the other rows. */
  predicate RowOk(context: Context, devices: Devices, racks: Racks, site: string, row: Row) {
    && row.name != "" && row.deviceType in TYPES && (row.status != "" ==> row.status in STATUSES)
    && IsUnitCell(row.start) && IsUnitCell(row.size) && IsCapable(context.roles, row.deviceType)
    && !IsTaken(context.stored, site, row.identity) && (row.model != "" ==> row.model in context.models)
    && (row.rack != "" ==> context.opens(row.rack, row.deviceType))
    && Validate(devices, racks, Wanted(row, site), None).None?
  }

  function Key(field: string, text: string, lower: string -> string): set<string> {
    if text == "" then {} else {field + ":" + lower(text)}
  }

  /** The keys that no two rows of a file may share. */
  function Keys(row: Row, lower: string -> string): set<string> {
    Key("serialNumber", row.identity.serial, lower) + Key("assetTag", row.identity.tag, lower) +
    Key("managementIp", row.identity.address, lower)
  }

  predicate SameText(a: string, b: string, lower: string -> string) {
    a != "" && b != "" && lower(a) == lower(b)
  }

  /** Two rows of a file have the same serial number, asset tag or management address but for case. */
  predicate AgreeOnText(a: Row, b: Row, lower: string -> string) {
    || SameText(a.identity.serial, b.identity.serial, lower) || SameText(a.identity.tag, b.identity.tag, lower)
    || SameText(a.identity.address, b.identity.address, lower)
  }

  /** Keys of different fields do not meet: rows share a key exactly if they agree on one of the three texts. */
  lemma SharedKeyIff(a: Row, b: Row, lower: string -> string)
    ensures Keys(a, lower) !! Keys(b, lower) <==> !AgreeOnText(a, b, lower)
  {
    hide Key, SameText;
    KeyOfField("serialNumber", a.identity.serial, b.identity.serial, lower);
    KeyOfField("assetTag", a.identity.tag, b.identity.tag, lower);
    KeyOfField("managementIp", a.identity.address, b.identity.address, lower);
    FirstLetters(a, lower);
    FirstLetters(b, lower);
  }

  lemma KeyOfField(field: string, a: string, b: string, lower: string -> string)
    ensures Key(field, a, lower) !! Key(field, b, lower) <==> !SameText(a, b, lower)
  {
    if a != "" && b != "" {
      var x, y := field + ":" + lower(a), field + ":" + lower(b);
      assert x[|field| + 1..] == lower(a) && y[|field| + 1..] == lower(b);
      assert x in Key(field, a, lower) && y in Key(field, b, lower);
    }
  }

  lemma FirstLetters(row: Row, lower: string -> string)
    ensures forall key :: key in Key("serialNumber", row.identity.serial, lower) ==> |key| > 0 && key[0] == 's'
    ensures forall key :: key in Key("assetTag", row.identity.tag, lower) ==> |key| > 0 && key[0] == 'a'
    ensures forall key :: key in Key("managementIp", row.identity.address, lower) ==> |key| > 0 && key[0] == 'm'
  {
  }

  /** The row as the batch comparison sees it; rows are numbered from 2, below the header. */
  function Parsed(row: Row, index: nat): RackPlacement.ImportRow {
    RackPlacement.ImportRow(index + FIRST_ROW_NUMBER, row.rack, Value(row.start), Value(row.size))
  }

  function ParsedRows(rows: seq<Row>): (parsed: seq<RackPlacement.ImportRow>)
    ensures |parsed| == |rows| && forall i :: 0 <= i < |rows| ==> parsed[i] == Parsed(rows[i], i)
  {
    seq(|rows|, i requires 0 <= i < |rows| => Parsed(rows[i], i))
  }

  /** An earlier row agrees on a text; the first row with a text is not a duplicate. */
  predicate IsDuplicate(lower: string -> string, rows: seq<Row>, i: nat)
    requires i < |rows|
  {
    exists j :: 0 <= j < i && AgreeOnText(rows[j], rows[i], lower)
  }

  /** What the preview calls valid. */
  ghost predicate IsValid(context: Context, devices: Devices, racks: Racks, site: string, rows: seq<Row>, i: nat)
    requires i < |rows|
  {
    && RowOk(context, devices, racks, site, rows[i]) && !IsDuplicate(context.lower, rows, i)
    && !RackPlacement.InConflict(ParsedRows(rows), i + FIRST_ROW_NUMBER)
  }

  function NewDevice(row: Row, site: string): Device {
    Device(RackOf(row), Value(row.start), HeightIn(row.size), Some(site), row.status == "RETIRED")
  }

  /** The rows after the first n insertions; `ids` are the ids that the database hands out. */
  function Inserted(devices: Devices, site: string, rows: seq<Row>, ids: seq<string>, n: nat): Devices
    requires n <= |rows| == |ids|
  {
    if n == 0 then devices else Inserted(devices, site, rows, ids, n - 1)[ids[n - 1] := NewDevice(rows[n - 1], site)]
  }

  predicate Fresh(ids: seq<string>, devices: Devices) {
    && (forall k :: 0 <= k < |ids| ==> ids[k] !in devices)
    && (forall i, j :: 0 <= i < j < |ids| ==> ids[i] != ids[j])
  }

  lemma {:induction false} InsertedRows(devices: Devices, site: string, rows: seq<Row>, ids: seq<string>, n: nat,
      id: string)
    requires n <= |rows| == |ids| && Fresh(ids, devices)
    ensures var after := Inserted(devices, site, rows, ids, n);
      && (id in devices ==> id in after && after[id] == devices[id])
      && (id in after && id !in devices ==> exists k ::
        0 <= k < n && id == ids[k] && after[id] == NewDevice(rows[k], site))
  {
    hide NewDevice;
    if n > 0 {
      InsertedRows(devices, site, rows, ids, n - 1, id);
    }
  }

  lemma RowsApart(rows: seq<Row>, site: string, k: nat, n: nat)
    requires k < n < |rows| && !RackPlacement.InConflict(ParsedRows(rows), n + FIRST_ROW_NUMBER)
    requires Positioned(NewDevice(rows[k], site)) && Positioned(NewDevice(rows[n], site))
    requires IsUnitCell(rows[k].start) && IsUnitCell(rows[n].start)
    ensures !Meets(NewDevice(rows[n], site), NewDevice(rows[k], site))
  {
  }

  lemma RowJoins(context: Context, devices: Devices, racks: Racks, site: string, rows: seq<Row>, ids: seq<string>,
      n: nat)
    requires n < |rows| == |ids| && Fresh(ids, devices)
    requires forall i :: 0 <= i < |rows| ==> IsValid(context, devices, racks, site, rows, i)
    requires Positioned(NewDevice(rows[n], site))
    ensures Validate(Inserted(devices, site, rows, ids, n), racks, Wanted(rows[n], site), Some(ids[n])).None?
  {
    hide SlotsMeet, Inserted, RackPlacement.InConflict;
    var before, row := Inserted(devices, site, rows, ids, n), NewDevice(rows[n], site);
    assert IsValid(context, devices, racks, site, rows, n);
    forall id | id in before && Some(id) != Some(ids[n]) && Positioned(before[id]) && before[id].rack == row.rack
      ensures !SlotsMeet(row.start.value, row.size.value, before[id].start.value, before[id].size.value)
    {
      InsertedRows(devices, site, rows, ids, n, id);
      if id !in devices {
        var k :| 0 <= k < n && id == ids[k] && before[id] == NewDevice(rows[k], site);
        assert IsValid(context, devices, racks, site, rows, k);
        RowsApart(rows, site, k, n);
      }
    }
  }

  /**
   * If the preview calls every row valid, each insertion of the batch keeps the racks in bounds and free of overlaps.
   */
  lemma {:induction false} ImportKeepsTidy(context: Context, devices: Devices, racks: Racks, site: string,
      rows: seq<Row>, ids: seq<string>, n: nat, withRetired: bool)
    requires n <= |rows| == |ids| && Fresh(ids, devices) && Tidy(devices, racks, withRetired)
    requires forall i :: 0 <= i < |rows| ==> IsValid(context, devices, racks, site, rows, i)
    ensures Tidy(Inserted(devices, site, rows, ids, n), racks, withRetired)
  {
    hide Tidy, Validate, IsValid;
    if n > 0 {
      ImportKeepsTidy(context, devices, racks, site, rows, ids, n - 1, withRetired);
      var row := NewDevice(rows[n - 1], site);
      if Positioned(row) {
        RowJoins(context, devices, racks, site, rows, ids, n - 1);
      }
      CheckedRowKeepsTidy(Inserted(devices, site, rows, ids, n - 1), racks, ids[n - 1], row, Some(site), withRetired);
    }
  }

  // ---- what an import accepts and stores

  /** The row's own texts and cells are acceptable, for a user, and it can be placed. */
  ghost predicate IsAcceptable(context: Context, devices: Devices, racks: Racks, site: string, row: Row) {
    && row.name != "" && row.deviceType in {"SWITCH", "ROUTER", "FIREWALL", "SERVER", "STORAGE", "OTHER"}
    && (row.status == "" || row.status in {"ACTIVE", "INACTIVE", "MAINTENANCE", "RETIRED", "UNKNOWN"})
    && (row.start == Absent || (row.start.Number? && row.start.n > 0))
    && (row.size == Absent || (row.size.Number? && row.size.n > 0))
    && ("ADMIN" in context.roles || "SYSTEMS_OPERATOR" in context.roles ||
      ("NETWORK_OPERATOR" in context.roles && row.deviceType in {"SWITCH", "ROUTER", "FIREWALL"}))
    && (row.model == "" || row.model in context.models)
    && (row.rack != "" ==>
          && context.opens(row.rack, row.deviceType) && row.rack in racks && racks[row.rack].site == site
          && row.start != Absent && row.size != Absent
          && row.start.n + row.size.n <= racks[row.rack].units + 1
          && !UnitTaken(devices, row.rack, row.start.n, row.size.n, None))
  }

  /** A device of the site shares one of the three texts, as far as the row has them. */
  ghost predicate IsKnown(stored: seq<Stored>, site: string, identity: Identity) {
    exists i :: 0 <= i < |stored| && stored[i].site == Some(site) && ShareText(identity, stored[i].identity)
  }

  ghost predicate ShareText(a: Identity, b: Identity) {
    || (a.serial != "" && a.serial == b.serial) || (a.tag != "" && a.tag == b.tag)
    || (a.address != "" && a.address == b.address)
  }

  /** The slots of two rows share a unit of one rack, as far as both have one. */
  ghost predicate RowsCollide(a: Row, b: Row) {
    && a.rack != "" && a.rack == b.rack && a.start.Number? && a.size.Number? && b.start.Number? && b.size.Number?
    && a.size.n >= 1 && b.size.n >= 1 && a.start.n >= 1 && b.start.n >= 1
    && a.start.n < b.start.n + b.size.n && b.start.n < a.start.n + a.size.n
  }

  lemma RowOkIff(context: Context, devices: Devices, racks: Racks, site: string, row: Row)
    ensures RowOk(context, devices, racks, site, row) <==>
      IsAcceptable(context, devices, racks, site, row) && !IsKnown(context.stored, site, row.identity)
  {
    hide Validate, UnitTaken;
    RequestIsChecked(devices, racks, Wanted(row, site), None);
    if IsKnown(context.stored, site, row.identity) {
      var i :| 0 <= i < |context.stored| && context.stored[i].site == Some(site) &&
        ShareText(row.identity, context.stored[i].identity);
      assert context.stored[i] in context.stored;
    }
  }

  lemma ConflictIff(rows: seq<Row>, i: nat)
    requires i < |rows|
    ensures RackPlacement.InConflict(ParsedRows(rows), i + FIRST_ROW_NUMBER) <==>
      exists j :: 0 <= j < |rows| && j != i && RowsCollide(rows[i], rows[j])
  {
    var parsed := ParsedRows(rows);
    if j :| 0 <= j < |rows| && j != i && RowsCollide(rows[i], rows[j]) {
      assert parsed[i] == Parsed(rows[i], i) && parsed[j] == Parsed(rows[j], j);
    }
  }

  /** Two rows of the file have one of the three texts in common, but for case. */
  ghost predicate LooksLike(a: Identity, b: Identity, lower: string -> string) {
    || (a.serial != "" && b.serial != "" && lower(a.serial) == lower(b.serial))
    || (a.tag != "" && b.tag != "" && lower(a.tag) == lower(b.tag))
    || (a.address != "" && b.address != "" && lower(a.address) == lower(b.address))
  }

  /**
   * The preview calls a row valid exactly if it is acceptable, no stored device of the site has one of its texts, no
   * earlier row looks like it, and it shares no unit with another row.
   */
  lemma ValidIff(context: Context, devices: Devices, racks: Racks, site: string, rows: seq<Row>, i: nat)
    requires i < |rows|
    ensures IsValid(context, devices, racks, site, rows, i) <==>
      && IsAcceptable(context, devices, racks, site, rows[i]) && !IsKnown(context.stored, site, rows[i].identity)
      && (forall j :: 0 <= j < i ==> !LooksLike(rows[j].identity, rows[i].identity, context.lower))
      && (forall j :: 0 <= j < |rows| && j != i ==> !RowsCollide(rows[i], rows[j]))
  {
    hide RowOk, IsAcceptable, IsKnown, RackPlacement.InConflict, RowsCollide;
    RowOkIff(context, devices, racks, site, rows[i]);
    ConflictIff(rows, i);
    forall j | 0 <= j < i
      ensures AgreeOnText(rows[j], rows[i], context.lower) <==>
        LooksLike(rows[j].identity, rows[i].identity, context.lower)
    {
    }
  }

  /** What the first n insertions store: the texts of the rows as positions, at the site, retired only if so asked. */
  lemma {:induction false} ImportStores(devices: Devices, site: string, rows: seq<Row>, ids: seq<string>, n: nat)
    requires n <= |rows| == |ids| && Fresh(ids, devices)
    ensures var after := Inserted(devices, site, rows, ids, n);
      && (forall id :: id in after <==> id in devices || id in ids[..n])
      && (forall id :: id in devices ==> after[id] == devices[id])
      && (forall k :: 0 <= k < n ==> ids[k] in after && IsStoredAs(after[ids[k]], rows[k], site))
  {
    hide IsStoredAs, NewDevice;
    if n > 0 {
      ImportStores(devices, site, rows, ids, n - 1);
      var before := Inserted(devices, site, rows, ids, n - 1);
      assert Inserted(devices, site, rows, ids, n) == before[ids[n - 1] := NewDevice(rows[n - 1], site)];
      InsertionStores(devices, before, ids, n, rows, site);
    }
  }

  lemma InsertionStores(devices: Devices, before: Devices, ids: seq<string>, n: nat, rows: seq<Row>, site: string)
    requires 0 < n <= |rows| == |ids| && Fresh(ids, devices)
    requires forall id :: id in before <==> id in devices || id in ids[..n - 1]
    requires forall id :: id in devices ==> before[id] == devices[id]
    requires forall k :: 0 <= k < n - 1 ==> ids[k] in before && IsStoredAs(before[ids[k]], rows[k], site)
    ensures var after := before[ids[n - 1] := NewDevice(rows[n - 1], site)];
      && (forall id :: id in after <==> id in devices || id in ids[..n])
      && (forall id :: id in devices ==> after[id] == devices[id])
      && (forall k :: 0 <= k < n ==> ids[k] in after && IsStoredAs(after[ids[k]], rows[k], site))
  {
    hide IsStoredAs, NewDevice;
    StoredAs(rows[n - 1], site);
    assert ids[..n] == ids[..n - 1] + [ids[n - 1]];
  }

  ghost predicate IsStoredAs(d: Device, row: Row, site: string) {
    && d.site == Some(site) && (d.retired <==> row.status == "RETIRED")
    && d.rack == (if row.rack == "" then None else Some(row.rack))
    && d.start == (if row.start.Number? then Some(row.start.n) else None)
    && (d.size.Some? <==> row.size.Number? && row.size.n >= 1) && (d.size.Some? ==> d.size.value == row.size.n)
  }

  lemma StoredAs(row: Row, site: string)
    ensures IsStoredAs(NewDevice(row, site), row, site)
  {
  }

  /** The identities stored after an import, those of its rows last. */
  ghost function Known(context: Context, site: string, rows: seq<Row>): seq<Stored> {
    context.stored + seq(|rows|, i requires 0 <= i < |rows| => Stored(Some(site), rows[i].identity))
  }

  /** After an import no device of the site shares a serial number, tag or address that the import brought in. */
  lemma ImportedAreUnique(context: Context, devices: Devices, racks: Racks, site: string, rows: seq<Row>, i: nat,
      j: nat)
    requires forall k :: 0 <= k < |rows| ==> IsValid(context, devices, racks, site, rows, k)
    requires j < |Known(context, site, rows)| && |context.stored| <= i < |Known(context, site, rows)| && i != j
    requires Known(context, site, rows)[j].site == Some(site)
    ensures !ShareText(Known(context, site, rows)[i].identity, Known(context, site, rows)[j].identity)
  {
    hide IsAcceptable, RowsCollide, IsValid;
    var n := |context.stored|;
    ValidIff(context, devices, racks, site, rows, i - n);
    if j < n {
      assert !IsKnown(context.stored, site, rows[i - n].identity);
    } else if i < j {
      ValidIff(context, devices, racks, site, rows, j - n);
      assert !LooksLike(rows[i - n].identity, rows[j - n].identity, context.lower);
    } else {
      assert !LooksLike(rows[j - n].identity, rows[i - n].identity, context.lower);
    }
  }

  class ImportService {
    var devices: Devices
    const racks: Racks

    constructor (devices: Devices, racks: Racks)
      ensures this.devices == devices && this.racks == racks
    {
      this.devices, this.racks := devices, racks;
    }

    /** `previewDeviceImport`: one verdict per row. */
    method Preview(context: Context, site: string, rows: seq<Row>) returns (valid: seq<bool>)
      ensures |valid| == |rows| && forall i :: 0 <= i < |rows| ==>
        (valid[i] <==> IsValid(context, devices, racks, site, rows, i))
    {
      hide RowOk, RackPlacement.InConflict, Keys, AgreeOnText;
      var checked: seq<bool> := [];
      var seen: set<string> := {};
      for i := 0 to |rows|
        invariant |checked| == i
        invariant forall key :: key in seen <==> exists j :: 0 <= j < i && key in Keys(rows[j], context.lower)
        invariant forall k :: 0 <= k < i ==>
          (checked[k] <==> RowOk(context, devices, racks, site, rows[k]) && !IsDuplicate(context.lower, rows, k))
      {
        var keys := Keys(rows[i], context.lower);
        forall j | 0 <= j < i
          ensures AgreeOnText(rows[j], rows[i], context.lower) <==> !(Keys(rows[j], context.lower) !! keys)
        {
          SharedKeyIff(rows[j], rows[i], context.lower);
        }
        checked := checked + [RowOk(context, devices, racks, site, rows[i]) && keys !! seen];
        seen := seen + keys;
      }
      var overlaps := RackPlacement.FindRackImportOverlaps(ParsedRows(rows));
      valid := [];
      for i := 0 to |rows|
        invariant |valid| == i
        invariant forall k :: 0 <= k < i ==> (valid[k] <==> IsValid(context, devices, racks, site, rows, k))
      {
        valid := valid + [checked[i] && i + FIRST_ROW_NUMBER !in overlaps];
      }
    }

    /** `importDevices`: the whole batch in one transaction, which the database may still cancel, or nothing. */
    method Import(context: Context, site: string, rows: seq<Row>, ids: seq<string>, cancelled: bool)
      returns (r: Result<nat, ImportError>)
      requires |ids| == |rows| && Fresh(ids, devices)
      modifies this
      ensures r.Ok? <==> 1 <= |rows| <= 500 && !cancelled && forall i :: 0 <= i < |rows| ==>
        IsValid(context, old(devices), racks, site, rows, i)
      ensures devices == if r.Ok? then Inserted(old(devices), site, rows, ids, |rows|) else old(devices)
      ensures forall withRetired :: Tidy(old(devices), racks, withRetired) ==> Tidy(devices, racks, withRetired)
    {
      hide Tidy, IsValid, Fresh;
      if |rows| == 0 || |rows| > MAX_ROWS {
        return Err(BadRequest);
      }
      var valid := Preview(context, site, rows);
      if exists i :: 0 <= i < |rows| && !valid[i] {
        return Err(ValidationFailed);
      }
      if cancelled {
        return Err(Cancelled);
      }
      for i := 0 to |rows|
        invariant devices == Inserted(old(devices), site, rows, ids, i)
      {
        devices := devices[ids[i] := NewDevice(rows[i], site)];
      }
      forall withRetired | Tidy(old(devices), racks, withRetired)
        ensures Tidy(devices, racks, withRetired)
      {
        ImportKeepsTidy(context, old(devices), racks, site, rows, ids, |rows|, withRetired);
      }
      r := Ok(|rows|);
    }
  }
}
