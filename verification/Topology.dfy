/** Topology maps with compare-and-set revisions, and device connections whose interfaces are exclusive. */
module Topology {
  import opened Wrappers

  datatype Connection = Connection(source: string, target: string, sourceIf: Option<string>, targetIf: Option<string>)

  /** `details` stands for name, type, description, viewport and filters, `links` for the associated connections. */
  datatype Map = Map(revision: nat, details: string, nodes: map<string, (int, int)>, links: set<nat>)

  /** Map ids are never used again. */
  datatype State = State(maps: map<string, Map>, everMaps: set<string>, connections: map<nat, Connection>, nextId: nat)

  /** The fixed device of each interface. */
  type Owners = map<string, string>

  /** An operation at the moment it commits; revisions and interfaces in it may come from a stale read. */
  datatype Op =
    | CreateMap(id: string, details: string)
    | UpdateMap(id: string, expected: nat, details: string)
    | RemoveMap(id: string, expected: nat)
    | ReplaceNodes(id: string, expected: nat, nodes: map<string, (int, int)>)
    | CreateConnection(id: string, expected: nat, dto: Connection)
    | RemoveConnection(id: string, expected: nat, connection: nat)
    | Associate(id: string, expected: nat, connection: nat)
    | CreateStandalone(dto: Connection)
    | UpdateStandalone(connection: nat, seenSource: Option<string>, seenTarget: Option<string>,
                       newSource: Option<Option<string>>, newTarget: Option<Option<string>>,
                         associations: seq<(string, nat)>)
    | DeleteStandalone(connection: nat, seenMaps: seq<string>)

  /** `advanceRevision`: None where the transaction is rolled back. */
  function Advance(st: State, id: string, expected: nat): Option<State> {
    if id in st.maps && st.maps[id].revision == expected then Some(Bump(st, id)) else None
  }

  function Bump(st: State, id: string): State
    requires id in st.maps
  {
    st.(maps := st.maps[id := st.maps[id].(revision := st.maps[id].revision + 1)])
  }

  function AdvanceAll(st: State, expected: seq<(string, nat)>): Option<State> {
    if |expected| == 0 then Some(st)
    else
      match AdvanceAll(st, expected[..|expected| - 1])
      case None => None
      case Some(before) => Advance(before, expected[|expected| - 1].0, expected[|expected| - 1].1)
  }

  /** The unconditional increments of a standalone delete; a map that is gone rolls everything back. */
  function BumpAll(st: State, ids: seq<string>): Option<State> {
    if |ids| == 0 then Some(st)
    else
      match BumpAll(st, ids[..|ids| - 1])
      case None => None
      case Some(before) => if ids[|ids| - 1] in before.maps then Some(Bump(before, ids[|ids| - 1])) else None
  }

  predicate Uses(c: Connection, interface: string) {
    c.sourceIf == Some(interface) || c.targetIf == Some(interface)
  }

  predicate IsFree(st: State, interface: Option<string>, except: Option<nat>) {
    interface.Some? ==> !exists id ::
      id in st.connections && Some(id) != except && Uses(st.connections[id], interface.value)
  }

  /** `validateConnectionPortsAvailable` */
  predicate PortsFree(st: State, source: Option<string>, target: Option<string>, except: Option<nat>) {
    IsFree(st, source, except) && IsFree(st, target, except)
  }

  predicate Belongs(owners: Owners, interface: Option<string>, device: string) {
    interface.Some? ==> interface.value in owners && owners[interface.value] == device
  }

  /** `validateConnectionEndpoints`, the part about devices and interfaces. */
  predicate EndpointsOk(owners: Owners, c: Connection) {
    c.source != c.target && Belongs(owners, c.sourceIf, c.source) && Belongs(owners, c.targetIf, c.target)
  }

  function Insert(st: State, c: Connection): State {
    st.(connections := st.connections[st.nextId := c], nextId := st.nextId + 1)
  }

  function Link(st: State, id: string, connection: nat): State
    requires id in st.maps
  {
    st.(maps := st.maps[id := st.maps[id].(links := st.maps[id].links + {connection})])
  }

  predicate IsLinked(st: State, connection: nat) {
    exists id :: id in st.maps && connection in st.maps[id].links
  }

  function Unlink(st: State, id: string, connection: nat): State
    requires id in st.maps
  {
    var left := st.(maps := st.maps[id := st.maps[id].(links := st.maps[id].links - {connection})]);
    if IsLinked(left, connection) then left else left.(connections := left.connections - {connection})
  }

  /** Deleting a connection deletes its associations with it. */
  function Drop(st: State, connection: nat): State {
    st.(connections := st.connections - {connection},
        maps := map id | id in st.maps :: st.maps[id].(links := st.maps[id].links - {connection}))
  }

  function Chosen(change: Option<Option<string>>, seen: Option<string>): Option<string> {
    if change.Some? then change.value else seen
  }

  function Changed(c: Connection, newSource: Option<Option<string>>, newTarget: Option<Option<string>>): Connection {
    c.(sourceIf := Chosen(newSource, c.sourceIf), targetIf := Chosen(newTarget, c.targetIf))
  }

  /** The new interfaces belong to the connection's devices; unchanged ones are not looked at. */
  predicate ChangesBelong(owners: Owners, c: Connection, newSource: Option<Option<string>>,
      newTarget: Option<Option<string>>) {
    && (newSource.Some? ==> Belongs(owners, newSource.value, c.source))
    && (newTarget.Some? ==> Belongs(owners, newTarget.value, c.target))
  }

  /** The committed effect of an operation; None where it fails and nothing is stored. */
  function Commit(st: State, op: Op, owners: Owners): Option<State> {
    match op
    case CreateMap(id, details) =>
      if id in st.everMaps then None
      else Some(st.(maps := st.maps[id := Map(0, details, map[], {})], everMaps := st.everMaps + {id}))
    case UpdateMap(id, expected, details) =>
      (match Advance(st, id, expected)
       case None => None
       case Some(next) => Some(next.(maps := next.maps[id := next.maps[id].(details := details)])))
    case RemoveMap(id, expected) => if id in st.maps &&
      st.maps[id].revision == expected then Some(st.(maps := st.maps - {id})) else None
    case ReplaceNodes(id, expected, nodes) =>
      (match Advance(st, id, expected)
       case None => None
       case Some(next) => Some(next.(maps := next.maps[id := next.maps[id].(nodes := nodes)])))
    case CreateConnection(id, expected, dto) =>
      if !EndpointsOk(owners, dto) || !PortsFree(st, dto.sourceIf, dto.targetIf, None) then None
      else
        (match Advance(st, id, expected)
         case None => None
         case Some(next) => Some(Link(Insert(next, dto), id, next.nextId)))
    case RemoveConnection(id, expected, connection) =>
      (match Advance(st, id, expected)
       case None => None
       case Some(next) => if connection in next.maps[id].links then Some(Unlink(next, id, connection)) else None)
    case Associate(id, expected, connection) =>
      (match Advance(st, id, expected)
       case None => None
       case Some(next) =>
         if connection !in next.connections || connection in next.maps[id].links then None
           else Some(Link(next, id, connection)))
    case CreateStandalone(dto) =>
      if !EndpointsOk(owners, dto) || !PortsFree(st, dto.sourceIf, dto.targetIf, None) then None
        else Some(Insert(st, dto))
    case UpdateStandalone(connection, seenSource, seenTarget, newSource, newTarget, associations) =>
      if connection !in st.connections ||
        !ChangesBelong(owners, st.connections[connection], newSource, newTarget) then None
      else if (newSource.Some? || newTarget.Some?) &&
              !PortsFree(st, Chosen(newSource, seenSource), Chosen(newTarget, seenTarget), Some(connection)) then None
      else
        (match AdvanceAll(st, associations)
         case None => None
         case Some(next) =>
           Some(next.(connections := next.connections[connection := Changed(st.connections[connection], newSource,
             newTarget)])))
    case DeleteStandalone(connection, seenMaps) =>
      (match BumpAll(st, seenMaps)
       case None => None
       case Some(next) => if connection in next.connections then Some(Drop(next, connection)) else None)
  }

  function Step(st: State, op: Op, owners: Owners): State {
    if Commit(st, op, owners).Some? then Commit(st, op, owners).value else st
  }

  const INITIAL := State(map[], {}, map[], 0)

  function Run(ops: seq<Op>, owners: Owners): State {
    if |ops| == 0 then INITIAL else Step(Run(ops[..|ops| - 1], owners), ops[|ops| - 1], owners)
  }

  // ---- exclusive interfaces

  ghost predicate Exclusive(st: State, owners: Owners) {
    && (forall c :: c in st.connections ==> c < st.nextId && EndpointsOk(owners, st.connections[c]))
    && (forall c, d, interface ::
      c in st.connections && d in st.connections && c != d && Uses(st.connections[c], interface) ==>
          !Uses(st.connections[d], interface))
  }

  lemma AdvanceAllKeeps(st: State, expected: seq<(string, nat)>)
    ensures AdvanceAll(st, expected).Some? ==>
      AdvanceAll(st, expected).value.connections == st.connections && AdvanceAll(st, expected).value.nextId == st.nextId
  {
  }

  lemma BumpAllKeeps(st: State, ids: seq<string>)
    ensures BumpAll(st, ids).Some? ==>
      BumpAll(st, ids).value.connections == st.connections && BumpAll(st, ids).value.nextId == st.nextId
  {
  }

  lemma InsertKeeps(st: State, c: Connection, owners: Owners)
    requires Exclusive(st, owners) && EndpointsOk(owners, c) && PortsFree(st, c.sourceIf, c.targetIf, None)
    ensures Exclusive(Insert(st, c), owners)
  {
  }

  /** The stale interface that the check also looks at does not matter: the unchanged end was exclusive already. */
  lemma UpdateKeeps(st: State, connection: nat, seenSource: Option<string>, seenTarget: Option<string>,
                    newSource: Option<Option<string>>, newTarget: Option<Option<string>>, owners: Owners)
    requires Exclusive(st, owners) && connection in st.connections
    requires ChangesBelong(owners, st.connections[connection], newSource, newTarget)
    requires newSource.Some? || newTarget.Some? ==>
      PortsFree(st, Chosen(newSource, seenSource), Chosen(newTarget, seenTarget), Some(connection))
    ensures Exclusive(st.(connections := st.connections[connection := Changed(st.connections[connection], newSource,
      newTarget)]), owners)
  {
  }

  lemma FewerKeeps(st: State, next: State, owners: Owners)
    requires Exclusive(st, owners) && next.nextId == st.nextId
    requires forall c :: c in next.connections ==> c in st.connections && next.connections[c] == st.connections[c]
    ensures Exclusive(next, owners)
  {
  }

  lemma StepKeepsExclusive(st: State, op: Op, owners: Owners)
    requires Exclusive(st, owners)
    ensures Exclusive(Step(st, op, owners), owners)
  {
    hide Exclusive, EndpointsOk, PortsFree, ChangesBelong, Changed, IsLinked;
    match op
    case CreateConnection(id, expected, dto) =>
      if Commit(st, op, owners).Some? {
        InsertKeeps(st, dto, owners);
        FewerKeeps(Insert(st, dto), Step(st, op, owners), owners);
      }
    case CreateStandalone(dto) =>
      if Commit(st, op, owners).Some? {
        InsertKeeps(st, dto, owners);
      }
    case UpdateStandalone(connection, seenSource, seenTarget, newSource, newTarget, associations) =>
      if Commit(st, op, owners).Some? {
        AdvanceAllKeeps(st, associations);
        UpdateKeeps(st, connection, seenSource, seenTarget, newSource, newTarget, owners);
        FewerKeeps(st.(connections := st.connections[connection := Changed(st.connections[connection], newSource,
          newTarget)]),
                   Step(st, op, owners), owners);
      }
    case DeleteStandalone(connection, seenMaps) =>
      BumpAllKeeps(st, seenMaps);
      FewerKeeps(st, Step(st, op, owners), owners);
    case _ =>
      FewerKeeps(st, Step(st, op, owners), owners);
  }

  lemma {:induction false} RunIsExclusive(ops: seq<Op>, owners: Owners)
    ensures Exclusive(Run(ops, owners), owners)
  {
    hide Exclusive, Step;
    if |ops| == 0 {
      EmptyIsExclusive(owners);
    } else {
      RunIsExclusive(ops[..|ops| - 1], owners);
      StepKeepsExclusive(Run(ops[..|ops| - 1], owners), ops[|ops| - 1], owners);
    }
  }

  lemma EmptyIsExclusive(owners: Owners)
    ensures Exclusive(INITIAL, owners)
  {
  }

  datatype Side = Source | Target

  function EndOf(c: Connection, side: Side): Option<string> {
    if side.Source? then c.sourceIf else c.targetIf
  }

  /**
   * In every reachable state each interface is used by at most one connection end, whatever stale reads the commits
   * relied on.
   */
  lemma OneEndPerInterface(ops: seq<Op>, owners: Owners, c: nat, cSide: Side, d: nat, dSide: Side, interface: string)
    requires var st := Run(ops, owners);
      c in st.connections && d in st.connections &&
      EndOf(st.connections[c], cSide) == Some(interface) && EndOf(st.connections[d], dSide) == Some(interface)
    ensures c == d && cSide == dSide
  {
    hide Run;
    RunIsExclusive(ops, owners);
    var st := Run(ops, owners);
    assert Uses(st.connections[c], interface) && Uses(st.connections[d], interface);
  }

  // ---- revisions

  /** Nodes, details and associations; the revision only counts. */
  predicate SameContent(a: Map, b: Map) {
    a.details == b.details && a.nodes == b.nodes && a.links == b.links
  }

  /** The connection of a standalone delete is associated with the map, but the association was not read. */
  predicate Overlooks(st: State, op: Op, owners: Owners, id: string)
    requires id in st.maps
  {
    && op.DeleteStandalone? && Commit(st, op, owners).Some?
    && op.connection in st.maps[id].links && id !in op.seenMaps
  }

  function Times(ids: seq<string>, id: string): nat {
    if |ids| == 0 then 0 else Times(ids[..|ids| - 1], id) + if ids[|ids| - 1] == id then 1 else 0
  }

  function MapsOf(associations: seq<(string, nat)>): (ids: seq<string>)
    ensures |ids| == |associations|
  {
    if |associations| == 0 then []
      else MapsOf(associations[..|associations| - 1]) + [associations[|associations| - 1].0]
  }

  /** How often an operation writes a map: once for its own map, and once per association that was read. */
  function WritesTo(op: Op, id: string): nat {
    match op
    case CreateMap(_, _) => 0
    case RemoveMap(_, _) => 0
    case CreateStandalone(_) => 0
    case UpdateStandalone(_, _, _, _, _, associations) => Times(MapsOf(associations), id)
    case DeleteStandalone(_, seenMaps) => Times(seenMaps, id)
    case _ => if op.id == id then 1 else 0
  }

  /** The committed writes of one map in a run. */
  function WritesIn(ops: seq<Op>, owners: Owners, id: string): nat {
    if |ops| == 0 then 0
    else
      var n := |ops| - 1;
      WritesIn(ops[..n], owners, id) + if Commit(Run(ops[..n], owners), ops[n], owners).Some? then WritesTo(ops[n], id)
        else 0
  }

  predicate Registered(st: State) {
    st.maps.Keys <= st.everMaps
  }

  /** Advancing the associations of a connection moves revisions and nothing else. */
  ghost predicate Advanced(st: State, next: State, ids: seq<string>) {
    && next.maps.Keys == st.maps.Keys && next.everMaps == st.everMaps
    && next.connections == st.connections && next.nextId == st.nextId
    && (forall id :: Times(ids, id) > 0 ==> id in st.maps)
    && (forall id :: id in st.maps ==>
          SameContent(st.maps[id], next.maps[id]) && next.maps[id].revision == st.maps[id].revision + Times(ids, id))
  }

  lemma TimesMore(ids: seq<string>, last: string, id: string)
    ensures Times(ids + [last], id) == Times(ids, id) + if last == id then 1 else 0
  {
    assert (ids + [last])[..|ids|] == ids;
  }

  lemma BumpAdvances(st: State, before: State, ids: seq<string>, id: string)
    requires Advanced(st, before, ids) && id in before.maps
    ensures Advanced(st, Bump(before, id), ids + [id])
  {
    hide Times;
    forall other ensures Times(ids + [id], other) == Times(ids, other) + if id == other then 1 else 0 {
      TimesMore(ids, id, other);
    }
  }

  lemma {:induction false} AdvanceAllAdvances(st: State, associations: seq<(string, nat)>)
    requires AdvanceAll(st, associations).Some?
    ensures Advanced(st, AdvanceAll(st, associations).value, MapsOf(associations))
  {
    hide Bump, SameContent;
    if |associations| == 0 {
      NothingAdvanced(st);
    } else {
      hide Advanced;
      var n := |associations| - 1;
      AdvanceAllAdvances(st, associations[..n]);
      BumpAdvances(st, AdvanceAll(st, associations[..n]).value, MapsOf(associations[..n]), associations[n].0);
    }
  }

  lemma NothingAdvanced(st: State)
    ensures Advanced(st, st, [])
  {
  }

  lemma {:induction false} BumpAllAdvances(st: State, ids: seq<string>)
    requires BumpAll(st, ids).Some?
    ensures Advanced(st, BumpAll(st, ids).value, ids)
  {
    hide Bump, SameContent;
    if |ids| == 0 {
      NothingAdvanced(st);
    } else {
      hide Advanced;
      var n := |ids| - 1;
      BumpAllAdvances(st, ids[..n]);
      assert ids[..n] + [ids[n]] == ids;
      BumpAdvances(st, BumpAll(st, ids[..n]).value, ids[..n], ids[n]);
    }
  }

  /** What one committed operation does to a map that survives it. */
  lemma StepRevision(st: State, op: Op, owners: Owners, id: string)
    requires Registered(st) && Commit(st, op, owners).Some? && id in st.maps && id in Commit(st, op, owners).value.maps
    ensures Commit(st, op, owners).value.maps[id].revision == st.maps[id].revision + WritesTo(op, id)
    ensures WritesTo(op, id) == 0 ==>
      (SameContent(st.maps[id], Commit(st, op, owners).value.maps[id]) <==> !Overlooks(st, op, owners, id))
  {
    hide EndpointsOk, PortsFree, ChangesBelong, Changed, IsLinked, Times;
    match op
    case UpdateStandalone(_, _, _, _, _, associations) => AdvanceAllAdvances(st, associations);
    case DeleteStandalone(_, seenMaps) =>
      BumpAllAdvances(st, seenMaps);
      SeenIsWritten(seenMaps, id);
    case _ =>
  }

  lemma {:induction false} SeenIsWritten(ids: seq<string>, id: string)
    ensures Times(ids, id) > 0 <==> id in ids
  {
    if |ids| > 0 {
      SeenIsWritten(ids[..|ids| - 1], id);
      assert ids == ids[..|ids| - 1] + [ids[|ids| - 1]];
    }
  }

  /**
   * The content of a surviving map changes without an advance of its revision exactly if a standalone delete
   * overlooks it: every other committed change of nodes, details or associations advances the revision.
   */
  lemma SilentChangeIff(st: State, op: Op, owners: Owners, id: string)
    requires Registered(st) && id in st.maps && id in Step(st, op, owners).maps
    ensures var before, after := st.maps[id], Step(st, op, owners).maps[id];
      && before.revision <= after.revision
      && (!SameContent(before, after) && after.revision == before.revision <==> Overlooks(st, op, owners, id))
  {
    hide Commit, Overlooks, SameContent, WritesTo;
    if Commit(st, op, owners).Some? {
      StepRevision(st, op, owners, id);
      OverlookedIsUnwritten(st, op, owners, id);
    } else {
      NoCommitNoChange(st, op, owners, id);
    }
  }

  lemma OverlookedIsUnwritten(st: State, op: Op, owners: Owners, id: string)
    requires id in st.maps
    ensures Overlooks(st, op, owners, id) ==> WritesTo(op, id) == 0
  {
    if op.DeleteStandalone? {
      SeenIsWritten(op.seenMaps, id);
    }
  }

  lemma NoCommitNoChange(st: State, op: Op, owners: Owners, id: string)
    requires id in st.maps && Commit(st, op, owners).None?
    ensures SameContent(st.maps[id], st.maps[id]) && !Overlooks(st, op, owners, id)
  {
  }

  // ---- revisions over every run

  /** A map appears only by its creation, with an id never used before, and an operation writes existing maps only. */
  lemma StepRegisters(st: State, op: Op, owners: Owners, id: string)
    requires Registered(st)
    ensures var next := Step(st, op, owners);
      && Registered(next) && st.everMaps <= next.everMaps
      && (id in next.maps && id !in st.maps ==> id !in st.everMaps && next.maps[id].revision == 0)
    ensures Commit(st, op, owners).Some? && WritesTo(op, id) > 0 ==> id in st.maps
    ensures Commit(st, op, owners).Some? && id !in st.maps ==> WritesTo(op, id) == 0
  {
    hide EndpointsOk, PortsFree, ChangesBelong, Changed, IsLinked, Times, SameContent;
    if Commit(st, op, owners).Some? {
      match op
      case UpdateStandalone(_, _, _, _, _, associations) => AdvanceAllAdvances(st, associations);
      case DeleteStandalone(_, seenMaps) => BumpAllAdvances(st, seenMaps);
      case _ =>
    }
  }

  lemma {:induction false} RunRegisters(ops: seq<Op>, owners: Owners)
    ensures Registered(Run(ops, owners))
  {
    hide Step;
    if |ops| > 0 {
      RunRegisters(ops[..|ops| - 1], owners);
      StepRegisters(Run(ops[..|ops| - 1], owners), ops[|ops| - 1], owners, "");
    }
  }

  /** The revision of a map counts the committed operations that wrote it. */
  lemma {:induction false} RevisionCountsWrites(ops: seq<Op>, owners: Owners, id: string)
    ensures id in Run(ops, owners).maps ==> Run(ops, owners).maps[id].revision == WritesIn(ops, owners, id)
    ensures id !in Run(ops, owners).everMaps ==> WritesIn(ops, owners, id) == 0
  {
    hide Commit, WritesTo, Overlooks, SameContent;
    if |ops| > 0 {
      var n := |ops| - 1;
      var before := Run(ops[..n], owners);
      RevisionCountsWrites(ops[..n], owners, id);
      RunRegisters(ops[..n], owners);
      StepRegisters(before, ops[n], owners, id);
      if Commit(before, ops[n], owners).Some? && id in before.maps && id in Run(ops, owners).maps {
        StepRevision(before, ops[n], owners, id);
      }
    }
  }

  /** A map that is there later was there before, if it had been created, and its revision has not fallen. */
  lemma {:induction false} RevisionGrows(ops: seq<Op>, owners: Owners, i: nat, k: nat, id: string)
    requires i <= k <= |ops| && id in Run(ops[..i], owners).everMaps && id in Run(ops[..k], owners).maps
    ensures id in Run(ops[..k], owners).everMaps && id in Run(ops[..i], owners).maps
    ensures Run(ops[..i], owners).maps[id].revision <= Run(ops[..k], owners).maps[id].revision
  {
    hide Step, Overlooks, SameContent;
    RunRegisters(ops[..k], owners);
    if i < k {
      assert ops[..k][..k - 1] == ops[..k - 1];
      var before := Run(ops[..k - 1], owners);
      RunRegisters(ops[..k - 1], owners);
      EverGrows(ops, owners, i, k - 1, id);
      StepRegisters(before, ops[k - 1], owners, id);
      SilentChangeIff(before, ops[k - 1], owners, id);
      RevisionGrows(ops, owners, i, k - 1, id);
    }
  }

  lemma {:induction false} EverGrows(ops: seq<Op>, owners: Owners, i: nat, k: nat, id: string)
    requires i <= k <= |ops| && id in Run(ops[..i], owners).everMaps
    ensures id in Run(ops[..k], owners).everMaps
  {
    hide Step;
    if i < k {
      assert ops[..k][..k - 1] == ops[..k - 1];
      EverGrows(ops, owners, i, k - 1, id);
      RunRegisters(ops[..k - 1], owners);
      StepRegisters(Run(ops[..k - 1], owners), ops[k - 1], owners, id);
    }
  }

  /** Step k of the run changes the content of a map that is there before and after. */
  ghost predicate Changes(ops: seq<Op>, owners: Owners, k: nat, id: string)
    requires k < |ops|
  {
    var before, after := Run(ops[..k], owners), Step(Run(ops[..k], owners), ops[k], owners);
    id in before.maps && id in after.maps && !SameContent(before.maps[id], after.maps[id])
  }

  /** At most one change of a map's content per revision, unless a standalone delete overlooked the map. */
  lemma OneChangePerRevision(ops: seq<Op>, owners: Owners, j: nat, k: nat, id: string)
    requires j < k < |ops| && Changes(ops, owners, j, id) && Changes(ops, owners, k, id)
    requires !Overlooks(Run(ops[..j], owners), ops[j], owners, id)
    ensures Run(ops[..j], owners).maps[id].revision < Run(ops[..k], owners).maps[id].revision
  {
    hide Step, Overlooks, SameContent;
    AfterStep(ops, owners, j);
    RunRegisters(ops[..j], owners);
    RunRegisters(ops[..j + 1], owners);
    SilentChangeIff(Run(ops[..j], owners), ops[j], owners, id);
    RevisionGrows(ops, owners, j + 1, k, id);
  }

  lemma NothingRun(ops: seq<Op>, owners: Owners)
    ensures Run(ops[..0], owners) == INITIAL
  {
  }

  lemma AfterStep(ops: seq<Op>, owners: Owners, k: nat)
    requires k < |ops|
    ensures Run(ops[..k + 1], owners) == Step(Run(ops[..k], owners), ops[k], owners)
  {
    assert ops[..k + 1][..k] == ops[..k];
  }

  /** The operation is a write of the map, or its removal, that a client guards with a revision it has read. */
  predicate GuardsMap(op: Op, id: string, expected: nat) {
    match op
    case UpdateMap(target, revision, _) => (target, revision) == (id, expected)
    case RemoveMap(target, revision) => (target, revision) == (id, expected)
    case ReplaceNodes(target, revision, _) => (target, revision) == (id, expected)
    case CreateConnection(target, revision, _) => (target, revision) == (id, expected)
    case RemoveConnection(target, revision, _) => (target, revision) == (id, expected)
    case Associate(target, revision, _) => (target, revision) == (id, expected)
    case UpdateStandalone(_, _, _, _, _, associations) => (id, expected) in associations
    case _ => false
  }

  /** Each association of a standalone update is advanced from the revision that was read for it. */
  lemma {:induction false} AssociationGuards(st: State, associations: seq<(string, nat)>, id: string, expected: nat)
    requires AdvanceAll(st, associations).Some? && (id, expected) in associations
    ensures id in st.maps && id in AdvanceAll(st, associations).value.maps
    ensures st.maps[id].revision <= expected < AdvanceAll(st, associations).value.maps[id].revision
  {
    hide Times, SameContent;
    var n := |associations| - 1;
    AdvanceAllAdvances(st, associations[..n]);
    if associations[n] != (id, expected) {
      assert (id, expected) in associations[..n];
      AssociationGuards(st, associations[..n], id, expected);
    }
  }

  /**
   * A guarded operation commits only on the revision its client expected, and the map, if it is still there, has left
   * that revision; an operation that writes the map once replaces it by the next one.
   */
  lemma GuardedWrite(st: State, op: Op, owners: Owners, id: string, expected: nat)
    requires GuardsMap(op, id, expected)
    ensures Commit(st, op, owners).Some? ==>
      && id in st.maps && st.maps[id].revision <= expected
      && (WritesTo(op, id) <= 1 ==> st.maps[id].revision == expected)
      && (op.RemoveMap? <==> id !in Commit(st, op, owners).value.maps)
    ensures Commit(st, op, owners).Some? && !op.RemoveMap? ==>
      expected < Commit(st, op, owners).value.maps[id].revision == st.maps[id].revision + WritesTo(op, id)
    ensures Commit(st, op, owners).None? ==> Step(st, op, owners) == st
  {
    hide EndpointsOk, PortsFree, IsLinked, ChangesBelong, Changed, Times, SameContent;
    if op.UpdateStandalone? && Commit(st, op, owners).Some? {
      AdvanceAllAdvances(st, op.associations);
      AssociationGuards(st, op.associations, id, expected);
    }
  }

  /**
   * Of all clients that read one revision of a map, at most one commits its guarded write or removal, over every
   * interleaving: whoever commits later had read a later revision.
   */
  lemma OneWriterPerRevision(ops: seq<Op>, owners: Owners, j: nat, k: nat, id: string, e: nat, f: nat)
    requires j < k < |ops| && GuardsMap(ops[j], id, e) && GuardsMap(ops[k], id, f)
    requires Commit(Run(ops[..j], owners), ops[j], owners).Some? && Commit(Run(ops[..k], owners), ops[k], owners).Some?
    ensures e < f
  {
    hide Commit, Run, WritesTo;
    AfterStep(ops, owners, j);
    GuardedWrite(Run(ops[..j], owners), ops[j], owners, id, e);
    GuardedWrite(Run(ops[..k], owners), ops[k], owners, id, f);
    RunRegisters(ops[..j], owners);
    StepRegisters(Run(ops[..j], owners), ops[j], owners, id);
    RevisionGrows(ops, owners, j + 1, k, id);
  }

  const OVERLOOKING: seq<Op> := [
    CreateMap("M", ""), CreateConnection("M", 0, Connection("a", "b", None, None)), DeleteStandalone(0, [])]

  /**
   * A standalone delete that read the associations before the connection was put on a map changes that map silently.
   */
  lemma DeleteOverlooksMap()
    ensures var before := Run(OVERLOOKING[..2], map[]);
      && "M" in before.maps && Overlooks(before, OVERLOOKING[2], map[], "M")
      && Changes(OVERLOOKING, map[], 2, "M")
  {
    hide Run;
    var o := OVERLOOKING;
    NothingRun(o, map[]);
    AfterStep(o, map[], 0);
    AfterStep(o, map[], 1);
    var linked := Run(o[..2], map[]);
    assert linked.maps["M"].links == {0};
  }

  class TopologyService {
    var state: State
    const owners: Owners

    constructor (owners: Owners)
      ensures this.owners == owners && state == Run([], owners)
    {
      this.owners, state := owners, INITIAL;
    }

    /** `advanceRevision` inside a transaction; None where the transaction is rolled back. */
    method AdvanceRevision(tx: State, id: string, expected: nat) returns (next: Option<State>)
      ensures next == Advance(tx, id, expected)
    {
      if id !in tx.maps || tx.maps[id].revision != expected {
        return None;
      }
      next := Some(tx.(maps := tx.maps[id := tx.maps[id].(revision := expected + 1)]));
    }

    method Create(id: string, details: string) returns (ok: bool)
      modifies this
      ensures state == Step(old(state), CreateMap(id, details), owners)
      ensures ok <==> id !in old(state).everMaps
    {
      if id in state.everMaps {
        return false;
      }
      state := state.(maps := state.maps[id := Map(0, details, map[], {})], everMaps := state.everMaps + {id});
      ok := true;
    }

    method Update(id: string, expected: nat, details: string) returns (ok: bool)
      modifies this
      ensures state == Step(old(state), UpdateMap(id, expected, details), owners)
      ensures ok <==> id in old(state).maps && old(state).maps[id].revision == expected
    {
      var next := AdvanceRevision(state, id, expected);
      if next.None? {
        return false;
      }
      var m := next.value.maps[id].(details := details);
      state := next.value.(maps := next.value.maps[id := m]);
      ok := true;
    }

    method Remove(id: string, expected: nat) returns (ok: bool)
      modifies this
      ensures state == Step(old(state), RemoveMap(id, expected), owners)
      ensures ok <==> id in old(state).maps && old(state).maps[id].revision == expected
    {
      if id !in state.maps || state.maps[id].revision != expected {
        return false;
      }
      state := state.(maps := state.maps - {id});
      ok := true;
    }

    method ReplaceMapNodes(id: string, expected: nat, nodes: map<string, (int, int)>) returns (ok: bool)
      modifies this
      ensures state == Step(old(state), ReplaceNodes(id, expected, nodes), owners)
      ensures ok <==> id in old(state).maps && old(state).maps[id].revision == expected
    {
      var next := AdvanceRevision(state, id, expected);
      if next.None? {
        return false;
      }
      var m := next.value.maps[id].(nodes := nodes);
      state := next.value.(maps := next.value.maps[id := m]);
      ok := true;
    }

    /** The port check, the revision check and both inserts are one transaction. */
    method CreateMapConnection(id: string, expected: nat, dto: Connection) returns (ok: bool)
      modifies this
      ensures state == Step(old(state), CreateConnection(id, expected, dto), owners)
      ensures ok <==> Commit(old(state), CreateConnection(id, expected, dto), owners).Some?
    {
      hide PortsFree, EndpointsOk;
      if !EndpointsOk(owners, dto) || !PortsFree(state, dto.sourceIf, dto.targetIf, None) {
        return false;
      }
      var next := AdvanceRevision(state, id, expected);
      if next.None? {
        return false;
      }
      var tx := next.value;
      var created := tx.nextId;
      tx := tx.(connections := tx.connections[created := dto], nextId := created + 1);
      tx := tx.(maps := tx.maps[id := tx.maps[id].(links := tx.maps[id].links + {created})]);
      state := tx;
      ok := true;
    }

    /** The association goes; the connection goes with its last association. */
    method RemoveMapConnection(id: string, expected: nat, connection: nat) returns (ok: bool)
      modifies this
      ensures state == Step(old(state), RemoveConnection(id, expected, connection), owners)
      ensures ok <==> Commit(old(state), RemoveConnection(id, expected, connection), owners).Some?
    {
      var next := AdvanceRevision(state, id, expected);
      if next.None? || connection !in next.value.maps[id].links {
        return false;
      }
      var tx := next.value;
      tx := tx.(maps := tx.maps[id := tx.maps[id].(links := tx.maps[id].links - {connection})]);
      if !exists other :: other in tx.maps && connection in tx.maps[other].links {
        tx := tx.(connections := tx.connections - {connection});
      }
      state := tx;
      ok := true;
    }

    method AssociateConnection(id: string, expected: nat, connection: nat) returns (ok: bool)
      modifies this
      ensures state == Step(old(state), Associate(id, expected, connection), owners)
      ensures ok <==> Commit(old(state), Associate(id, expected, connection), owners).Some?
    {
      var next := AdvanceRevision(state, id, expected);
      if next.None? || connection !in next.value.connections || connection in next.value.maps[id].links {
        return false;
      }
      var tx := next.value;
      state := tx.(maps := tx.maps[id := tx.maps[id].(links := tx.maps[id].links + {connection})]);
      ok := true;
    }

    method CreateStandaloneConnection(dto: Connection) returns (ok: bool)
      modifies this
      ensures state == Step(old(state), CreateStandalone(dto), owners)
      ensures ok <==> EndpointsOk(owners, dto) && PortsFree(old(state), dto.sourceIf, dto.targetIf, None)
    {
      hide PortsFree, EndpointsOk;
      if !EndpointsOk(owners, dto) || !PortsFree(state, dto.sourceIf, dto.targetIf, None) {
        return false;
      }
      state := state.(connections := state.connections[state.nextId := dto], nextId := state.nextId + 1);
      ok := true;
    }

    /** `updateStandaloneConnection`: every map association that was read is advanced from its expected revision. */
    method UpdateStandaloneConnection(connection: nat, seenSource: Option<string>, seenTarget: Option<string>,
                                      newSource: Option<Option<string>>, newTarget: Option<Option<string>>,
                                        associations: seq<(string, nat)>)
      returns (ok: bool)
      modifies this
      ensures state == Step(old(state),
        UpdateStandalone(connection, seenSource, seenTarget, newSource, newTarget, associations), owners)
      ensures ok <==> Commit(old(state),
        UpdateStandalone(connection, seenSource, seenTarget, newSource, newTarget, associations), owners).Some?
    {
      hide Bump, PortsFree, ChangesBelong, Changed;
      if connection !in state.connections ||
        !ChangesBelong(owners, state.connections[connection], newSource, newTarget) {
        return false;
      }
      if (newSource.Some? || newTarget.Some?) &&
         !PortsFree(state, Chosen(newSource, seenSource), Chosen(newTarget, seenTarget), Some(connection)) {
        return false;
      }
      var tx := state;
      for i := 0 to |associations|
        invariant state == old(state)
        invariant AdvanceAll(state, associations[..i]) == Some(tx)
      {
        assert associations[..i + 1][..i] == associations[..i];
        var next := Advance(tx, associations[i].0, associations[i].1);
        if next.None? {
          Stuck(state, associations, i + 1);
          return false;
        }
        tx := next.value;
      }
      assert associations[..|associations|] == associations;
      state := tx.(connections := tx.connections[connection := Changed(state.connections[connection], newSource,
        newTarget)]);
      ok := true;
    }

    /** `deleteStandaloneConnection`: every map association that was read is advanced, whatever its revision. */
    method DeleteStandaloneConnection(connection: nat, seenMaps: seq<string>) returns (ok: bool)
      modifies this
      ensures state == Step(old(state), DeleteStandalone(connection, seenMaps), owners)
      ensures ok <==> Commit(old(state), DeleteStandalone(connection, seenMaps), owners).Some?
    {
      hide Bump, Drop;
      var tx := state;
      for i := 0 to |seenMaps|
        invariant state == old(state)
        invariant BumpAll(state, seenMaps[..i]) == Some(tx)
      {
        assert seenMaps[..i + 1][..i] == seenMaps[..i];
        if seenMaps[i] !in tx.maps {
          StuckDelete(state, seenMaps, i + 1);
          return false;
        }
        tx := Bump(tx, seenMaps[i]);
      }
      assert seenMaps[..|seenMaps|] == seenMaps;
      if connection !in tx.connections {
        return false;
      }
      state := Drop(tx, connection);
      ok := true;
    }
  }

  /** A transaction that failed half-way has no outcome. */
  lemma {:induction false} Stuck(st: State, associations: seq<(string, nat)>, i: nat)
    requires i <= |associations| && AdvanceAll(st, associations[..i]).None?
    ensures AdvanceAll(st, associations).None?
    decreases |associations|
  {
    if i < |associations| {
      var n := |associations| - 1;
      assert associations[..n][..i] == associations[..i];
      Stuck(st, associations[..n], i);
    } else {
      assert associations[..i] == associations;
    }
  }

  lemma {:induction false} StuckDelete(st: State, ids: seq<string>, i: nat)
    requires i <= |ids| && BumpAll(st, ids[..i]).None?
    ensures BumpAll(st, ids).None?
    decreases |ids|
  {
    if i < |ids| {
      var n := |ids| - 1;
      assert ids[..n][..i] == ids[..i];
      StuckDelete(st, ids[..n], i);
    } else {
      assert ids[..i] == ids;
    }
  }
}
