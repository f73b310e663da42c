/** What every topology operation stores, in terms of maps, associations and connections only. */
module TopologyWrites {
  import opened Wrappers
  import opened Topology

  /** Some connection other than the excepted one ends at the interface. */
  ghost predicate InUse(st: State, interface: string, except: Option<nat>) {
    exists c :: c in st.connections && Some(c) != except &&
      (st.connections[c].sourceIf == Some(interface) || st.connections[c].targetIf == Some(interface))
  }

  /** An end of a connection: no interface, or one of the device's own. */
  ghost predicate IsOwn(owners: Owners, device: string, interface: Option<string>) {
    interface == None || (interface.value in owners && owners[interface.value] == device)
  }

  ghost predicate IsUnused(st: State, interface: Option<string>, except: Option<nat>) {
    interface == None || !InUse(st, interface.value, except)
  }

  /** A new connection joins two devices at own, unused interfaces. */
  ghost predicate IsAcceptable(st: State, owners: Owners, c: Connection) {
    && c.source != c.target && IsOwn(owners, c.source, c.sourceIf) && IsOwn(owners, c.target, c.targetIf)
    && IsUnused(st, c.sourceIf, None) && IsUnused(st, c.targetIf, None)
  }

  /** The client's expected revision is the present one. */
  ghost predicate IsAt(st: State, id: string, expected: nat) {
    id in st.maps && st.maps[id].revision == expected
  }

  /** The map is written from `was` to `m`; every other map, and the list of ids ever used, stays. */
  ghost predicate Writes(st: State, after: State, id: string, m: Map) {
    && id in st.maps && after.maps.Keys == st.maps.Keys && after.maps[id] == m && after.everMaps == st.everMaps
    && forall other :: other in st.maps && other != id ==> after.maps[other] == st.maps[other]
  }

  ghost predicate SameConnections(st: State, after: State) {
    after.connections == st.connections && after.nextId == st.nextId
  }

  ghost predicate AddsConnection(st: State, after: State, c: Connection) {
    && after.connections.Keys == st.connections.Keys + {st.nextId} && after.connections[st.nextId] == c
    && (forall other :: other in st.connections && other != st.nextId ==>
          after.connections[other] == st.connections[other])
    && after.nextId == st.nextId + 1
  }

  ghost predicate DropsConnection(st: State, after: State, connection: nat) {
    && after.connections.Keys == st.connections.Keys - {connection} && after.nextId == st.nextId
    && forall other :: other in after.connections ==> after.connections[other] == st.connections[other]
  }

  // ---- maps

  lemma CreateMapStores(st: State, owners: Owners, id: string, details: string)
    ensures var r := Commit(st, CreateMap(id, details), owners);
      && (r.Some? <==> id !in st.everMaps)
      && (r.Some? ==>
            && r.value.maps.Keys == st.maps.Keys + {id} && r.value.maps[id] == Map(0, details, map[], {})
            && (forall other :: other in st.maps && other != id ==> r.value.maps[other] == st.maps[other])
            && r.value.everMaps == st.everMaps + {id} && SameConnections(st, r.value))
  {
  }

  lemma UpdateMapStores(st: State, owners: Owners, id: string, expected: nat, details: string)
    ensures var r := Commit(st, UpdateMap(id, expected, details), owners);
      && (r.Some? <==> IsAt(st, id, expected))
      && (r.Some? ==> SameConnections(st, r.value))
      && (r.Some? ==> Writes(st, r.value, id, Map(expected + 1, details, st.maps[id].nodes, st.maps[id].links)))
  {
  }

  lemma RemoveMapStores(st: State, owners: Owners, id: string, expected: nat)
    ensures var r := Commit(st, RemoveMap(id, expected), owners);
      && (r.Some? <==> IsAt(st, id, expected))
      && (r.Some? ==>
            && r.value.maps.Keys == st.maps.Keys - {id} && r.value.everMaps == st.everMaps
            && (forall other :: other in r.value.maps ==> r.value.maps[other] == st.maps[other])
            && SameConnections(st, r.value))
  {
  }

  lemma ReplaceNodesStores(st: State, owners: Owners, id: string, expected: nat, nodes: map<string, (int, int)>)
    ensures var r := Commit(st, ReplaceNodes(id, expected, nodes), owners);
      && (r.Some? <==> IsAt(st, id, expected))
      && (r.Some? ==> SameConnections(st, r.value))
      && (r.Some? ==> Writes(st, r.value, id, Map(expected + 1, st.maps[id].details, nodes, st.maps[id].links)))
  {
  }

  // ---- connections of a map

  lemma AcceptableIff(st: State, owners: Owners, c: Connection)
    ensures IsAcceptable(st, owners, c) <==> EndpointsOk(owners, c) && PortsFree(st, c.sourceIf, c.targetIf, None)
  {
    if c.sourceIf.Some? {
      UnusedIff(st, c.sourceIf.value, None);
    }
    if c.targetIf.Some? {
      UnusedIff(st, c.targetIf.value, None);
    }
  }

  lemma UnusedIff(st: State, interface: string, except: Option<nat>)
    ensures IsFree(st, Some(interface), except) <==> !InUse(st, interface, except)
  {
    forall c | c in st.connections
      ensures Uses(st.connections[c], interface) <==>
        st.connections[c].sourceIf == Some(interface) || st.connections[c].targetIf == Some(interface)
    {
    }
  }

  lemma CreateConnectionStores(st: State, owners: Owners, id: string, expected: nat, dto: Connection)
    ensures var r := Commit(st, CreateConnection(id, expected, dto), owners);
      && (r.Some? <==> IsAt(st, id, expected) && IsAcceptable(st, owners, dto))
      && (r.Some? ==> AddsConnection(st, r.value, dto))
      && (r.Some? ==> Writes(st, r.value, id, Map(expected + 1, st.maps[id].details, st.maps[id].nodes,
              st.maps[id].links + {st.nextId})))
  {
    hide EndpointsOk, PortsFree, IsAcceptable;
    AcceptableIff(st, owners, dto);
  }

  /** The association goes and no other; the connection goes with its last association. */
  lemma RemoveConnectionStores(st: State, owners: Owners, id: string, expected: nat, connection: nat)
    ensures var r := Commit(st, RemoveConnection(id, expected, connection), owners);
      && (r.Some? <==> IsAt(st, id, expected) && connection in st.maps[id].links)
      && (r.Some? ==>
            && Writes(st, r.value, id, Map(expected + 1, st.maps[id].details, st.maps[id].nodes,
                 st.maps[id].links - {connection}))
            && if exists other :: other in st.maps && other != id && connection in st.maps[other].links
               then SameConnections(st, r.value) else DropsConnection(st, r.value, connection))
  {
    if IsAt(st, id, expected) && connection in st.maps[id].links {
      var left := Bump(st, id).(maps := Bump(st, id).maps[id :=
        Bump(st, id).maps[id].(links := Bump(st, id).maps[id].links - {connection})]);
      LinkedElsewhere(st, left, id, connection);
    }
  }

  lemma LinkedElsewhere(st: State, left: State, id: string, connection: nat)
    requires id in st.maps && left.maps.Keys == st.maps.Keys && connection !in left.maps[id].links
    requires forall other :: other in st.maps && other != id ==> left.maps[other] == st.maps[other]
    ensures IsLinked(left, connection) <==>
      exists other :: other in st.maps && other != id && connection in st.maps[other].links
  {
    if other :| other in st.maps && other != id && connection in st.maps[other].links {
      assert left.maps[other] == st.maps[other];
    }
  }

  lemma AssociateStores(st: State, owners: Owners, id: string, expected: nat, connection: nat)
    ensures var r := Commit(st, Associate(id, expected, connection), owners);
      && (r.Some? <==>
            IsAt(st, id, expected) && connection in st.connections && connection !in st.maps[id].links)
      && (r.Some? ==> SameConnections(st, r.value))
      && (r.Some? ==> Writes(st, r.value, id, Map(expected + 1, st.maps[id].details, st.maps[id].nodes,
              st.maps[id].links + {connection})))
  {
  }

  // ---- connections on their own

  lemma CreateStandaloneStores(st: State, owners: Owners, dto: Connection)
    ensures var r := Commit(st, CreateStandalone(dto), owners);
      && (r.Some? <==> IsAcceptable(st, owners, dto))
      && (r.Some? ==> r.value.maps == st.maps && r.value.everMaps == st.everMaps && AddsConnection(st, r.value, dto))
  {
    hide EndpointsOk, PortsFree, IsAcceptable;
    AcceptableIff(st, owners, dto);
  }

  /** The maps of the associations that were read. */
  ghost function IdsOf(associations: seq<(string, nat)>): (ids: seq<string>)
    ensures |ids| == |associations|
  {
    seq(|associations|, i requires 0 <= i < |associations| => associations[i].0)
  }

  ghost function Places(ids: seq<string>, id: string): set<int> {
    set j | 0 <= j < |ids| && ids[j] == id
  }

  /** How often an id occurs. */
  ghost function Occurrences(ids: seq<string>, id: string): nat {
    |Places(ids, id)|
  }

  /** Every association finds its map at the revision read for it, counting earlier writes of the same operation. */
  ghost predicate AllAsRead(st: State, associations: seq<(string, nat)>) {
    forall i :: 0 <= i < |associations| ==> IsAsRead(st, associations, i)
  }

  ghost predicate IsAsRead(st: State, associations: seq<(string, nat)>, i: int)
    requires 0 <= i < |associations|
  {
    var id := associations[i].0;
    id in st.maps && st.maps[id].revision + Occurrences(IdsOf(associations[..i]), id) == associations[i].1
  }

  lemma {:induction false} MapsAreIds(associations: seq<(string, nat)>)
    ensures MapsOf(associations) == IdsOf(associations)
  {
    if |associations| > 0 {
      MapsAreIds(associations[..|associations| - 1]);
    }
  }

  lemma PlacesMore(ids: seq<string>, last: string, id: string)
    ensures Places(ids + [last], id) == Places(ids, id) + if last == id then {|ids|} else {}
    ensures |ids| !in Places(ids, id)
  {
    var all := ids + [last];
    assert forall j :: 0 <= j < |ids| ==> all[j] == ids[j];
  }

  lemma {:induction false} TimesCounts(ids: seq<string>, id: string)
    ensures Times(ids, id) == Occurrences(ids, id)
  {
    hide Places;
    if |ids| > 0 {
      var n := |ids| - 1;
      TimesCounts(ids[..n], id);
      PlacesMore(ids[..n], ids[n], id);
      assert ids == ids[..n] + [ids[n]];
    } else {
      NoPlaces(id);
    }
  }

  lemma NoPlaces(id: string)
    ensures Places([], id) == {}
  {
  }

  lemma {:induction false} AdvancesIff(st: State, associations: seq<(string, nat)>)
    ensures AdvanceAll(st, associations).Some? <==> AllAsRead(st, associations)
  {
    hide Times, Advanced, Occurrences, IsAsRead, IdsOf;
    if |associations| > 0 {
      var n := |associations| - 1;
      var rest := associations[..n];
      AdvancesIff(st, rest);
      forall i | 0 <= i < n
        ensures IsAsRead(st, rest, i) <==> IsAsRead(st, associations, i)
      {
        SameRead(st, associations, i);
      }
      if AllAsRead(st, rest) {
        LastAdvances(st, associations);
      }
    }
  }

  lemma SameRead(st: State, associations: seq<(string, nat)>, i: int)
    requires 0 <= i < |associations| - 1
    ensures IsAsRead(st, associations[..|associations| - 1], i) <==> IsAsRead(st, associations, i)
  {
    hide Occurrences;
    assert associations[..|associations| - 1][..i] == associations[..i];
  }

  lemma LastAdvances(st: State, associations: seq<(string, nat)>)
    requires |associations| > 0 && AdvanceAll(st, associations[..|associations| - 1]).Some?
    ensures AdvanceAll(st, associations).Some? <==> IsAsRead(st, associations, |associations| - 1)
  {
    hide Times, Advanced, Occurrences;
    var n := |associations| - 1;
    var rest, id := associations[..n], associations[n].0;
    AdvanceAllAdvances(st, rest);
    AdvancedRevision(st, AdvanceAll(st, rest).value, MapsOf(rest), id);
    MapsAreIds(rest);
    TimesCounts(IdsOf(rest), id);
  }

  lemma AdvancedRevision(st: State, next: State, ids: seq<string>, id: string)
    requires Advanced(st, next, ids)
    ensures next.maps.Keys == st.maps.Keys
    ensures id in st.maps ==> next.maps[id].revision == st.maps[id].revision + Times(ids, id)
  {
  }

  /** Maps keep their content, and advance once per association. */
  ghost predicate OnlyAdvances(st: State, after: State, ids: seq<string>) {
    && after.maps.Keys == st.maps.Keys && after.everMaps == st.everMaps
    && forall id :: id in st.maps ==> after.maps[id] == st.maps[id].(
         revision := st.maps[id].revision + Occurrences(ids, id))
  }

  lemma AdvancedOnly(st: State, after: State, ids: seq<string>)
    requires Advanced(st, after, ids)
    ensures OnlyAdvances(st, after, ids)
  {
    hide Times, Occurrences;
    forall id: string {
      TimesCounts(ids, id);
    }
  }

  ghost function After(change: Option<Option<string>>, current: Option<string>): Option<string> {
    if change == None then current else change.value
  }

  /**
   * An update of a standalone connection needs own interfaces for the ends that it changes, unused ones for both ends
   * as far as it changes any (the unchanged one as it was read), and every association as it was read.
   */
  ghost predicate IsUpdatable(st: State, owners: Owners, connection: nat, seenSource: Option<string>,
      seenTarget: Option<string>, newSource: Option<Option<string>>, newTarget: Option<Option<string>>,
      associations: seq<(string, nat)>)
  {
    && connection in st.connections
    && (newSource != None ==> IsOwn(owners, st.connections[connection].source, newSource.value))
    && (newTarget != None ==> IsOwn(owners, st.connections[connection].target, newTarget.value))
    && (newSource != None || newTarget != None ==>
          && IsUnused(st, After(newSource, seenSource), Some(connection))
          && IsUnused(st, After(newTarget, seenTarget), Some(connection)))
    && AllAsRead(st, associations)
  }

  lemma FreeIff(st: State, interface: Option<string>, except: Option<nat>)
    ensures IsFree(st, interface, except) <==> IsUnused(st, interface, except)
  {
    if interface.Some? {
      UnusedIff(st, interface.value, except);
    }
  }

  lemma UpdateStandaloneStores(st: State, owners: Owners, connection: nat, seenSource: Option<string>,
      seenTarget: Option<string>, newSource: Option<Option<string>>, newTarget: Option<Option<string>>,
      associations: seq<(string, nat)>)
    ensures var r := Commit(st,
        UpdateStandalone(connection, seenSource, seenTarget, newSource, newTarget, associations), owners);
      && (r.Some? <==>
            IsUpdatable(st, owners, connection, seenSource, seenTarget, newSource, newTarget, associations))
      && (r.Some? ==>
            && OnlyAdvances(st, r.value, IdsOf(associations)) && r.value.nextId == st.nextId
            && r.value.connections.Keys == st.connections.Keys
            && (forall other :: other in st.connections && other != connection ==>
                  r.value.connections[other] == st.connections[other])
            && var was := st.connections[connection];
               r.value.connections[connection] ==
                 Connection(was.source, was.target, After(newSource, was.sourceIf), After(newTarget, was.targetIf)))
  {
    hide AllAsRead, IsFree, IsUnused, Occurrences, IdsOf, Advanced;
    AdvancesIff(st, associations);
    FreeIff(st, Chosen(newSource, seenSource), Some(connection));
    FreeIff(st, Chosen(newTarget, seenTarget), Some(connection));
    if AdvanceAll(st, associations).Some? {
      AdvanceAllAdvances(st, associations);
      MapsAreIds(associations);
      AdvancedOnly(st, AdvanceAll(st, associations).value, MapsOf(associations));
      AdvanceAllKeeps(st, associations);
    }
  }

  lemma {:induction false} BumpsIff(st: State, ids: seq<string>)
    ensures BumpAll(st, ids).Some? <==> forall i :: 0 <= i < |ids| ==> ids[i] in st.maps
  {
    hide Times, Advanced;
    if |ids| > 0 {
      BumpsIff(st, ids[..|ids| - 1]);
      if BumpAll(st, ids[..|ids| - 1]).Some? {
        BumpAllAdvances(st, ids[..|ids| - 1]);
        AdvancedRevision(st, BumpAll(st, ids[..|ids| - 1]).value, ids[..|ids| - 1], "");
      }
    }
  }

  /** Maps that were read advance once per association, and every map loses its association with the connection. */
  lemma DeleteStandaloneStores(st: State, owners: Owners, connection: nat, seenMaps: seq<string>)
    ensures var r := Commit(st, DeleteStandalone(connection, seenMaps), owners);
      && (r.Some? <==> connection in st.connections && forall i :: 0 <= i < |seenMaps| ==> seenMaps[i] in st.maps)
      && (r.Some? ==>
            && r.value.maps.Keys == st.maps.Keys && r.value.everMaps == st.everMaps
            && (forall id :: id in st.maps ==> r.value.maps[id] == st.maps[id].(
                  revision := st.maps[id].revision + Occurrences(seenMaps, id),
                  links := st.maps[id].links - {connection}))
            && DropsConnection(st, r.value, connection))
  {
    hide Advanced, Occurrences;
    BumpsIff(st, seenMaps);
    if BumpAll(st, seenMaps).Some? {
      BumpAllAdvances(st, seenMaps);
      AdvancedOnly(st, BumpAll(st, seenMaps).value, seenMaps);
      BumpAllKeeps(st, seenMaps);
    }
  }

  // ---- over every run

  /** Every association of every map names a stored connection. */
  ghost predicate LinksAreStored(st: State) {
    forall id, c :: id in st.maps && c in st.maps[id].links ==> c in st.connections
  }

  lemma StepKeepsLinks(st: State, op: Op, owners: Owners)
    requires LinksAreStored(st)
    ensures LinksAreStored(Step(st, op, owners))
  {
    hide Commit, IsAcceptable, IsUpdatable, Occurrences;
    match op
    case CreateMap(id, details) => CreateMapStores(st, owners, id, details);
    case UpdateMap(id, expected, details) => UpdateMapStores(st, owners, id, expected, details);
    case RemoveMap(id, expected) => RemoveMapStores(st, owners, id, expected);
    case ReplaceNodes(id, expected, nodes) => ReplaceNodesStores(st, owners, id, expected, nodes);
    case CreateConnection(id, expected, dto) => CreateConnectionStores(st, owners, id, expected, dto);
    case RemoveConnection(id, expected, connection) => RemoveConnectionStores(st, owners, id, expected, connection);
    case Associate(id, expected, connection) => AssociateStores(st, owners, id, expected, connection);
    case CreateStandalone(dto) => CreateStandaloneStores(st, owners, dto);
    case UpdateStandalone(connection, seenSource, seenTarget, newSource, newTarget, associations) =>
      UpdateStandaloneStores(st, owners, connection, seenSource, seenTarget, newSource, newTarget, associations);
    case DeleteStandalone(connection, seenMaps) => DeleteStandaloneStores(st, owners, connection, seenMaps);
  }

  /** In every reachable state each association of each map names a stored connection. */
  lemma {:induction false} EveryLinkIsStored(ops: seq<Op>, owners: Owners)
    ensures LinksAreStored(Run(ops, owners))
  {
    hide Step;
    if |ops| > 0 {
      EveryLinkIsStored(ops[..|ops| - 1], owners);
      StepKeepsLinks(Run(ops[..|ops| - 1], owners), ops[|ops| - 1], owners);
    }
  }

  /**
   * In every reachable state, a committed removal takes the association and no other, and the connection stays stored
   * exactly if some map still has it; every other connection stays.
   */
  lemma RemovalKeepsLinked(ops: seq<Op>, owners: Owners, id: string, expected: nat, connection: nat)
    requires Commit(Run(ops, owners), RemoveConnection(id, expected, connection), owners).Some?
    ensures var st := Run(ops, owners);
      var after := Commit(st, RemoveConnection(id, expected, connection), owners).value;
      && (connection in after.connections <==> exists m :: m in after.maps && connection in after.maps[m].links)
      && (forall c :: c in st.connections && c != connection ==>
            c in after.connections && after.connections[c] == st.connections[c])
      && after.maps.Keys == st.maps.Keys
      && (forall m :: m in st.maps && m != id ==> after.maps[m].links == st.maps[m].links)
      && after.maps[id].links == st.maps[id].links - {connection}
  {
    hide Commit, Run;
    var st := Run(ops, owners);
    EveryLinkIsStored(ops, owners);
    RemoveConnectionStores(st, owners, id, expected, connection);
    if other :| other in st.maps && other != id && connection in st.maps[other].links {
      assert other in Commit(st, RemoveConnection(id, expected, connection), owners).value.maps;
    }
  }
}
