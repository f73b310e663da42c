/** Infrastructure permissions: the check of one item, and the batched lists of visible rooms and buildings. */
module Access {
  import opened Wrappers

  datatype Action = READ | CREATE | UPDATE | DELETE

  datatype Kind = Physical | Device(deviceType: Option<string>)

  datatype Scope = Site | Building | Room

  datatype User = User(id: string, roles: set<string>)

  datatype Rule = Rule(group: string, scope: Scope, scopeId: string, permission: Action)

  datatype RoomRow = RoomRow(building: string)

  datatype BuildingRow = BuildingRow(site: string)

  /** `members` pairs users with groups, `assignments` groups with sites. */
  datatype Database = Database(
    sites: set<string>, buildings: map<string, BuildingRow>, rooms: map<string, RoomRow>, permissions: set<Rule>,
    members: set<(string, string)>, assignments: set<(string, string)>)

  datatype Denial = NotFound | Forbidden

  /** Parents of rooms and buildings exist. */
  predicate Placed(db: Database) {
    && (forall id :: id in db.rooms ==> db.rooms[id].building in db.buildings)
    && (forall id :: id in db.buildings ==> db.buildings[id].site in db.sites)
  }

  // ---- the role policy

  predicate IsAdmin(user: User) {
    "ADMIN" in user.roles
  }

  predicate HasApplicationRole(user: User) {
    user.roles * {"ADMIN", "NETWORK_OPERATOR", "SYSTEMS_OPERATOR", "AUDITOR", "READ_ONLY"} != {}
  }

  predicate CanReadScoped(user: User) {
    IsAdmin(user) || user.roles * {"NETWORK_OPERATOR", "SYSTEMS_OPERATOR", "AUDITOR", "READ_ONLY"} != {}
  }

  predicate CanManagePhysical(user: User, action: Action) {
    if action.READ? then CanReadScoped(user) else IsAdmin(user) || "SYSTEMS_OPERATOR" in user.roles
  }

  predicate CanManageDevice(user: User, action: Action, deviceType: Option<string>) {
    if action.READ? then CanReadScoped(user)
    else
      || IsAdmin(user) || "SYSTEMS_OPERATOR" in user.roles
      || ("NETWORK_OPERATOR" in user.roles && deviceType.Some? && deviceType.value in {"SWITCH", "ROUTER", "FIREWALL"})
  }

  predicate RoleAllows(user: User, action: Action, kind: Kind) {
    match kind
    case Physical => CanManagePhysical(user, action)
    case Device(deviceType) => CanManageDevice(user, action, deviceType)
  }

  // ---- rules

  function GroupsOf(db: Database, user: User): (groups: set<string>)
    ensures forall g :: g in groups <==> (user.id, g) in db.members
  {
    set m | m in db.members && m.0 == user.id :: m.1
  }

  /** The user's groups at a site; None stands for an administrator, who needs none. */
  function GroupIds(db: Database, user: User, site: string): Option<set<string>> {
    if IsAdmin(user) then None
    else if !HasApplicationRole(user) then Some({})
    else Some(set g | g in GroupsOf(db, user) && (g, site) in db.assignments)
  }

  predicate Allowed(rules: set<Rule>, action: Action, groups: Option<set<string>>) {
    groups.None? || exists rule ::
      rule in rules && (action.READ? || rule.permission == action) && rule.group in groups.value
  }

  function RulesOf(permissions: set<Rule>, scope: Scope, id: string): set<Rule> {
    set rule | rule in permissions && rule.scope == scope && rule.scopeId == id
  }

  /** The nearest scope that has any rule decides. */
  function Effective(site: set<Rule>, building: set<Rule>, room: set<Rule>): set<Rule> {
    if room != {} then room else if building != {} then building else site
  }

  function RoomRules(db: Database, id: string): set<Rule>
    requires Placed(db) && id in db.rooms
  {
    var building := db.rooms[id].building;
    Effective(RulesOf(db.permissions, Site, db.buildings[building].site), RulesOf(db.permissions, Building, building),
      RulesOf(db.permissions, Room, id))
  }

  function BuildingRules(db: Database, id: string): set<Rule>
    requires id in db.buildings
  {
    Effective(RulesOf(db.permissions, Site, db.buildings[id].site), RulesOf(db.permissions, Building, id), {})
  }

  function RoomSite(db: Database, id: string): string
    requires Placed(db) && id in db.rooms
  {
    db.buildings[db.rooms[id].building].site
  }

  // ---- the batched lists

  function RoomsIn(db: Database, site: Option<string>): set<string>
    requires Placed(db)
  {
    set id | id in db.rooms && (site.Some? ==> RoomSite(db, id) == site.value)
  }

  /** `visibleRoomIds`: sites, memberships and rules are fetched for all rooms at once. */
  function VisibleRoomIds(db: Database, user: User, site: Option<string>): set<string>
    requires Placed(db)
  {
    var rooms := RoomsIn(db, site);
    if IsAdmin(user) then rooms
    else if !CanReadScoped(user) then {}
    else
      var siteIds := set id | id in rooms :: RoomSite(db, id);
      var buildingIds := set id | id in rooms :: db.rooms[id].building;
      var memberships := set g | g in GroupsOf(db, user) && exists s :: s in siteIds && (g, s) in db.assignments;
      var rules := set rule | rule in db.permissions &&
        ((rule.scope.Site? && rule.scopeId in siteIds) || (rule.scope.Building? && rule.scopeId in buildingIds) ||
          (rule.scope.Room? && rule.scopeId in rooms));
      set id | id in rooms && RoomPasses(db, rules, memberships, id)
  }

  predicate RoomPasses(db: Database, rules: set<Rule>, memberships: set<string>, id: string)
    requires Placed(db) && id in db.rooms
  {
    var building, site := db.rooms[id].building, RoomSite(db, id);
    var groups := set g | g in memberships && (g, site) in db.assignments;
    Allowed(Effective(RulesOf(rules, Site, site), RulesOf(rules, Building, building), RulesOf(rules, Room, id)), READ,
      Some(groups))
  }

  predicate HasVisibleRoom(db: Database, building: string, visible: set<string>) {
    exists room :: room in visible && room in db.rooms && db.rooms[room].building == building
  }

  function VisibleBuildingIds(db: Database, user: User, site: string): set<string>
    requires Placed(db)
  {
    var buildings := set id | id in db.buildings && db.buildings[id].site == site;
    if IsAdmin(user) then buildings
    else if !CanReadScoped(user) then {}
    else
      var visible := VisibleRoomIds(db, user, Some(site));
      var groups := GroupIds(db, user, site);
      var rules := set rule | rule in db.permissions &&
        ((rule.scope.Site? && rule.scopeId == site) || (rule.scope.Building? && rule.scopeId in buildings));
      var siteRules := set rule | rule in rules && rule.scope.Site?;
      set id | id in buildings && BuildingPasses(db, rules, siteRules, groups, visible, id)
  }

  predicate BuildingPasses(db: Database, rules: set<Rule>, siteRules: set<Rule>, groups: Option<set<string>>,
      visible: set<string>, id: string) {
    var own := RulesOf(rules, Building, id);
    Allowed(if own != {} then own else siteRules, READ, groups) || HasVisibleRoom(db, id, visible)
  }

  // ---- the checks of one item

  function Deny(action: Action): Result<(), Denial> {
    if action.READ? then Err(NotFound) else Err(Forbidden)
  }

  function AssertRoom(db: Database, user: User, action: Action, id: string, kind: Kind): Result<(), Denial>
    requires Placed(db)
  {
    if id !in db.rooms then Err(NotFound)
    else
      var groups, rules := GroupIds(db, user, RoomSite(db, id)), RoomRules(db, id);
      if RoleAllows(user, action, kind) && Allowed(rules, action, groups) then Ok(())
      else if !Allowed(rules, READ, groups) then Deny(READ)
      else Deny(action)
  }

  function AssertBuilding(db: Database, user: User, action: Action, id: string, kind: Kind): Result<(), Denial>
    requires Placed(db)
  {
    if id !in db.buildings then Err(NotFound)
    else
      var site := db.buildings[id].site;
      var groups, rules := GroupIds(db, user, site), BuildingRules(db, id);
      if RoleAllows(user, action, kind) && Allowed(rules, action, groups) then Ok(())
      else
        var visible := Allowed(rules, READ, groups) || HasVisibleRoom(db, id, VisibleRoomIds(db, user, Some(site)));
        if visible && action.READ? && CanReadScoped(user) then Ok(())
        else if !visible then Deny(READ)
        else Deny(action)
  }

  function AssertSite(db: Database, user: User, action: Action, id: string, kind: Kind): Result<(), Denial>
    requires Placed(db)
  {
    if id !in db.sites then Err(NotFound)
    else
      var groups, rules := GroupIds(db, user, id), RulesOf(db.permissions, Site, id);
      if RoleAllows(user, action, kind) && Allowed(rules, action, groups) then Ok(())
      else
        var visible := Allowed(rules, READ, groups) || VisibleBuildingIds(db, user, id) != {};
        if visible && action.READ? && CanReadScoped(user) then Ok(())
        else if !visible then Deny(READ)
        else Deny(action)
  }

  // ---- the batched lists agree with the checks

  /** Fetching rules and memberships for many rooms at once loses none that concern one room. */
  lemma BatchLosesNothing(db: Database, user: User, site: Option<string>, id: string)
    requires Placed(db) && !IsAdmin(user) && CanReadScoped(user) && id in RoomsIn(db, site)
    ensures id in VisibleRoomIds(db, user, site) <==>
      Allowed(RoomRules(db, id), READ, GroupIds(db, user, RoomSite(db, id)))
  {
  }

  lemma ReadersHaveRoles(user: User)
    ensures CanReadScoped(user) <==> HasApplicationRole(user)
  {
    var some, all := {"NETWORK_OPERATOR", "SYSTEMS_OPERATOR", "AUDITOR", "READ_ONLY"},
      {"ADMIN", "NETWORK_OPERATOR", "SYSTEMS_OPERATOR", "AUDITOR", "READ_ONLY"};
    if user.roles * some != {} {
      var r :| r in user.roles * some;
      assert r in user.roles * all;
    }
    if IsAdmin(user) {
      assert "ADMIN" in user.roles * all;
    }
    if user.roles * all != {} && !IsAdmin(user) {
      var r :| r in user.roles * all;
      assert r in user.roles * some;
    }
  }

  /** READ on a room: the role lets the user read, and the nearest scope with rules names one of the user's groups. */
  lemma ReadRoomIff(db: Database, user: User, id: string, kind: Kind)
    requires Placed(db)
    ensures AssertRoom(db, user, READ, id, kind).Ok? <==>
      id in db.rooms && CanReadScoped(user) && Allowed(RoomRules(db, id), READ, GroupIds(db, user, RoomSite(db, id)))
  {
  }

  /** A room is listed as visible exactly if it lies in the scope and the check of that room grants READ. */
  lemma VisibleRoomIffReadable(db: Database, user: User, site: Option<string>, id: string, kind: Kind)
    requires Placed(db)
    ensures id in VisibleRoomIds(db, user, site) <==>
      id in RoomsIn(db, site) && AssertRoom(db, user, READ, id, kind).Ok?
  {
    hide Allowed, RoomRules, RoomPasses, HasApplicationRole, AssertRoom;
    ReadRoomIff(db, user, id, kind);
    if id in RoomsIn(db, site) && !IsAdmin(user) && CanReadScoped(user) {
      BatchLosesNothing(db, user, site, id);
    }
    if IsAdmin(user) && id in db.rooms {
      AdminAllowed(RoomRules(db, id), READ, user, db, RoomSite(db, id));
    }
  }

  lemma AdminAllowed(rules: set<Rule>, action: Action, user: User, db: Database, site: string)
    requires IsAdmin(user)
    ensures Allowed(rules, action, GroupIds(db, user, site)) && CanReadScoped(user)
  {
  }

  lemma ReadBuildingIff(db: Database, user: User, id: string, kind: Kind)
    requires Placed(db) && id in db.buildings
    ensures var site := db.buildings[id].site;
      AssertBuilding(db, user, READ, id, kind).Ok? <==>
        (CanReadScoped(user) &&
         (Allowed(BuildingRules(db, id), READ, GroupIds(db, user, site)) ||
           HasVisibleRoom(db, id, VisibleRoomIds(db, user, Some(site)))))
  {
  }

  /** A building is listed for a site exactly if it stands there and the check of that building grants READ. */
  lemma VisibleBuildingIffReadable(db: Database, user: User, site: string, id: string, kind: Kind)
    requires Placed(db)
    ensures id in VisibleBuildingIds(db, user, site) <==>
      id in db.buildings && db.buildings[id].site == site && AssertBuilding(db, user, READ, id, kind).Ok?
  {
  }

  /** Some room of the building can be read: then so can the building, and its site. */
  lemma ReadableRoomOpensParents(db: Database, user: User, id: string, kind: Kind)
    requires Placed(db) && AssertRoom(db, user, READ, id, kind).Ok?
    ensures id in db.rooms && AssertBuilding(db, user, READ, db.rooms[id].building, kind).Ok?
    ensures AssertSite(db, user, READ, RoomSite(db, id), kind).Ok?
  {
    hide Allowed, GroupIds, VisibleRoomIds, BuildingRules, AssertRoom, AssertBuilding, VisibleBuildingIds, RoomRules,
      CanReadScoped;
    ReadRoomIff(db, user, id, kind);
    var building, site := db.rooms[id].building, RoomSite(db, id);
    VisibleRoomIffReadable(db, user, Some(site), id, kind);
    ReadBuildingIff(db, user, building, kind);
    VisibleBuildingIffReadable(db, user, site, building, kind);
    assert building in VisibleBuildingIds(db, user, site);
  }

  // ---- writing implies reading

  lemma RoleImpliesRead(user: User, action: Action, kind: Kind)
    requires RoleAllows(user, action, kind)
    ensures CanReadScoped(user)
  {
    if "SYSTEMS_OPERATOR" in user.roles {
      assert "SYSTEMS_OPERATOR" in user.roles * {"NETWORK_OPERATOR", "SYSTEMS_OPERATOR", "AUDITOR", "READ_ONLY"};
    }
    if "NETWORK_OPERATOR" in user.roles {
      assert "NETWORK_OPERATOR" in user.roles * {"NETWORK_OPERATOR", "SYSTEMS_OPERATOR", "AUDITOR", "READ_ONLY"};
    }
  }

  /** An allowed write implies READ, and a refused one answers "forbidden" exactly if the room can be read. */
  lemma WriteImpliesReadRoom(db: Database, user: User, action: Action, id: string, kind: Kind)
    requires Placed(db)
    ensures AssertRoom(db, user, READ, id, kind).Ok? <==> AssertRoom(db, user, action, id, kind) != Err(NotFound)
  {
  }

  lemma WriteImpliesReadBuilding(db: Database, user: User, action: Action, id: string, kind: Kind)
    requires Placed(db)
    ensures AssertBuilding(db, user, READ, id, kind).Ok? <==>
      AssertBuilding(db, user, action, id, kind) != Err(NotFound)
  {
  }

  lemma WriteImpliesReadSite(db: Database, user: User, action: Action, id: string, kind: Kind)
    requires Placed(db)
    ensures AssertSite(db, user, READ, id, kind).Ok? <==> AssertSite(db, user, action, id, kind) != Err(NotFound)
  {
  }

  /** Room rules override building rules, which override site rules: rules of a farther scope make no difference. */
  lemma NearestScopeDecides(db: Database, changed: Database, user: User, action: Action, id: string, kind: Kind)
    requires Placed(db) && changed == db.(permissions := changed.permissions) && id in db.rooms
    requires RulesOf(db.permissions, Room, id) != {} || RulesOf(db.permissions, Building, db.rooms[id].building) != {}
    requires RulesOf(changed.permissions, Room, id) == RulesOf(db.permissions, Room, id)
    requires RulesOf(db.permissions, Room, id) != {} ||
      RulesOf(changed.permissions, Building, db.rooms[id].building) ==
        RulesOf(db.permissions, Building, db.rooms[id].building)
    ensures AssertRoom(changed, user, action, id, kind) == AssertRoom(db, user, action, id, kind)
  {
  }

  // ---- who may do what, in terms of roles, rules and groups

  /** The roles that may read infrastructure. */
  ghost predicate IsReader(user: User) {
    || "ADMIN" in user.roles || "NETWORK_OPERATOR" in user.roles || "SYSTEMS_OPERATOR" in user.roles
    || "AUDITOR" in user.roles || "READ_ONLY" in user.roles
  }

  /** The roles that may write: network operators only network devices. */
  ghost predicate IsWriter(user: User, kind: Kind) {
    || "ADMIN" in user.roles || "SYSTEMS_OPERATOR" in user.roles
    || ("NETWORK_OPERATOR" in user.roles &&
      (kind == Device(Some("SWITCH")) || kind == Device(Some("ROUTER")) || kind == Device(Some("FIREWALL"))))
  }

  /** The rule belongs to the scope. */
  ghost predicate IsRuleOf(db: Database, rule: Rule, scope: Scope, id: string) {
    rule in db.permissions && rule.scope == scope && rule.scopeId == id
  }

  ghost predicate HasRules(db: Database, scope: Scope, id: string) {
    exists rule :: IsRuleOf(db, rule, scope, id)
  }

  /** The rule is one of the nearest scope with any: the room's, else its building's, else its site's. */
  ghost predicate GovernsRoom(db: Database, rule: Rule, id: string)
    requires Placed(db) && id in db.rooms
  {
    var building := db.rooms[id].building;
    if HasRules(db, Room, id) then IsRuleOf(db, rule, Room, id) else GovernsBuilding(db, rule, building)
  }

  ghost predicate GovernsBuilding(db: Database, rule: Rule, id: string)
    requires Placed(db) && id in db.buildings
  {
    if HasRules(db, Building, id) then IsRuleOf(db, rule, Building, id)
    else IsRuleOf(db, rule, Site, db.buildings[id].site)
  }

  /**
   * The rule is for this action, or any at all for reading, and for a group of the user that is assigned to the site.
   */
  ghost predicate Grants(db: Database, rule: Rule, user: User, action: Action, site: string) {
    && (action == READ || rule.permission == action)
    && (user.id, rule.group) in db.members && (rule.group, site) in db.assignments
  }

  lemma GroupsAre(db: Database, user: User, site: string, g: string)
    requires "ADMIN" !in user.roles && IsReader(user)
    ensures GroupIds(db, user, site).Some?
    ensures g in GroupIds(db, user, site).value <==> (user.id, g) in db.members && (g, site) in db.assignments
  {
    hide HasApplicationRole, CanReadScoped, IsReader;
    RoleSets(user);
    ReadersHaveRoles(user);
  }

  lemma AllowedIff(db: Database, rules: set<Rule>, user: User, action: Action, site: string)
    requires IsReader(user)
    ensures Allowed(rules, action, GroupIds(db, user, site)) <==>
      "ADMIN" in user.roles || exists rule :: rule in rules && Grants(db, rule, user, action, site)
  {
    hide GroupsOf;
    if "ADMIN" !in user.roles {
      forall rule | rule in rules
        ensures rule.group in GroupIds(db, user, site).value <==>
          (user.id, rule.group) in db.members && (rule.group, site) in db.assignments
      {
        GroupsAre(db, user, site, rule.group);
      }
      GroupsAre(db, user, site, "");
    }
  }

  lemma RulesAre(db: Database, scope: Scope, id: string)
    ensures forall rule :: rule in RulesOf(db.permissions, scope, id) <==> IsRuleOf(db, rule, scope, id)
    ensures RulesOf(db.permissions, scope, id) != {} <==> HasRules(db, scope, id)
  {
    if rule :| rule in RulesOf(db.permissions, scope, id) {
      assert IsRuleOf(db, rule, scope, id);
    }
  }

  lemma RoomRulesAre(db: Database, id: string, rule: Rule)
    requires Placed(db) && id in db.rooms
    ensures rule in RoomRules(db, id) <==> GovernsRoom(db, rule, id)
  {
    hide RulesOf, HasRules, IsRuleOf;
    var building := db.rooms[id].building;
    RulesAre(db, Room, id);
    RulesAre(db, Building, building);
    RulesAre(db, Site, db.buildings[building].site);
  }

  lemma BuildingRulesAre(db: Database, id: string, rule: Rule)
    requires Placed(db) && id in db.buildings
    ensures rule in BuildingRules(db, id) <==> GovernsBuilding(db, rule, id)
  {
    hide RulesOf, HasRules, IsRuleOf;
    RulesAre(db, Building, id);
    RulesAre(db, Site, db.buildings[id].site);
  }

  lemma RolesAre(user: User, action: Action, kind: Kind)
    ensures RoleAllows(user, action, kind) <==> if action == READ then IsReader(user) else IsWriter(user, kind)
    ensures CanReadScoped(user) <==> IsReader(user)
    ensures IsWriter(user, kind) ==> IsReader(user)
  {
    RoleSets(user);
  }

  lemma RoleSets(user: User)
    ensures CanReadScoped(user) <==> IsReader(user)
  {
    var some := user.roles * {"NETWORK_OPERATOR", "SYSTEMS_OPERATOR", "AUDITOR", "READ_ONLY"};
    if "NETWORK_OPERATOR" in user.roles {
      assert "NETWORK_OPERATOR" in some;
    } else if "SYSTEMS_OPERATOR" in user.roles {
      assert "SYSTEMS_OPERATOR" in some;
    } else if "AUDITOR" in user.roles {
      assert "AUDITOR" in some;
    } else if "READ_ONLY" in user.roles {
      assert "READ_ONLY" in some;
    }
  }

  /** A rule of the nearest scope lets the user do this in the room; administrators need none. */
  ghost predicate RoomIsOpen(db: Database, user: User, action: Action, id: string)
    requires Placed(db) && id in db.rooms
  {
    "ADMIN" in user.roles || exists rule ::
      GovernsRoom(db, rule, id) && Grants(db, rule, user, action, db.buildings[db.rooms[id].building].site)
  }

  /**
   * READ on a room needs a reading role and a rule of the nearest scope; any other action needs a writing role for that
   * kind of equipment and a rule with exactly that permission. A room that cannot be read is not found.
   */
  lemma RoomIsDecided(db: Database, user: User, action: Action, id: string, kind: Kind)
    requires Placed(db)
    ensures var r := AssertRoom(db, user, action, id, kind);
      if id !in db.rooms || !IsReader(user) || !RoomIsOpen(db, user, READ, id) then r == Err(NotFound)
      else if action == READ || (IsWriter(user, kind) && RoomIsOpen(db, user, action, id)) then r == Ok(())
      else r == Err(Forbidden)
  {
    hide RoleAllows, CanReadScoped, RoomRules, GroupIds, GovernsRoom, Allowed, IsReader, IsWriter, Grants, RoomSite;
    RolesAre(user, action, kind);
    if id in db.rooms {
      WriteImpliesReadRoom(db, user, action, id, kind);
      ReadRoomIff(db, user, id, kind);
      if IsReader(user) {
        RoomOpenIff(db, user, READ, id);
        RoomOpenIff(db, user, action, id);
      }
    }
  }

  lemma RoomOpenIff(db: Database, user: User, action: Action, id: string)
    requires Placed(db) && id in db.rooms && IsReader(user)
    ensures RoomIsOpen(db, user, action, id) <==>
      Allowed(RoomRules(db, id), action, GroupIds(db, user, RoomSite(db, id)))
  {
    hide RoomRules, GroupIds, GovernsRoom, Allowed, IsReader, Grants;
    forall rule {
      RoomRulesAre(db, id, rule);
    }
    AllowedIff(db, RoomRules(db, id), user, action, RoomSite(db, id));
  }

  /** A rule of the building, or else of its site, lets the user do this; administrators need none. */
  ghost predicate BuildingIsOpen(db: Database, user: User, action: Action, id: string)
    requires Placed(db) && id in db.buildings
  {
    "ADMIN" in user.roles || exists rule ::
      GovernsBuilding(db, rule, id) && Grants(db, rule, user, action, db.buildings[id].site)
  }

  /** A building can be read by its own rules or through any room in it that can be read. */
  ghost predicate BuildingIsReadable(db: Database, user: User, id: string)
    requires Placed(db) && id in db.buildings
  {
    BuildingIsOpen(db, user, READ, id) ||
    exists room :: room in db.rooms && db.rooms[room].building == id && RoomIsOpen(db, user, READ, room)
  }

  lemma BuildingIsDecided(db: Database, user: User, action: Action, id: string, kind: Kind)
    requires Placed(db)
    ensures var r := AssertBuilding(db, user, action, id, kind);
      if id !in db.buildings || !IsReader(user) || !BuildingIsReadable(db, user, id) then r == Err(NotFound)
      else if action == READ || (IsWriter(user, kind) && BuildingIsOpen(db, user, action, id)) then r == Ok(())
      else r == Err(Forbidden)
  {
    hide RoleAllows, CanReadScoped, BuildingRules, GroupIds, GovernsBuilding, Allowed, IsReader, IsWriter, Grants,
      RoomIsOpen, VisibleRoomIds;
    RolesAre(user, action, kind);
    if id in db.buildings {
      WriteImpliesReadBuilding(db, user, action, id, kind);
      ReadBuildingIff(db, user, id, kind);
      if IsReader(user) {
        BuildingOpenIff(db, user, READ, id);
        BuildingOpenIff(db, user, action, id);
        VisibleRoomOpens(db, user, id, kind);
      }
    }
  }

  lemma BuildingOpenIff(db: Database, user: User, action: Action, id: string)
    requires Placed(db) && id in db.buildings && IsReader(user)
    ensures BuildingIsOpen(db, user, action, id) <==>
      Allowed(BuildingRules(db, id), action, GroupIds(db, user, db.buildings[id].site))
  {
    hide BuildingRules, GroupIds, GovernsBuilding, Allowed, IsReader, Grants;
    forall rule {
      BuildingRulesAre(db, id, rule);
    }
    AllowedIff(db, BuildingRules(db, id), user, action, db.buildings[id].site);
  }

  lemma VisibleRoomOpens(db: Database, user: User, id: string, kind: Kind)
    requires Placed(db) && id in db.buildings && IsReader(user)
    ensures HasVisibleRoom(db, id, VisibleRoomIds(db, user, Some(db.buildings[id].site))) <==>
      exists room :: room in db.rooms && db.rooms[room].building == id && RoomIsOpen(db, user, READ, room)
  {
    hide VisibleRoomIds, RoomIsOpen, IsReader, RoleAllows, AssertRoom;
    var site := Some(db.buildings[id].site);
    forall room
      ensures room in VisibleRoomIds(db, user, site) && room in db.rooms && db.rooms[room].building == id <==>
        room in db.rooms && db.rooms[room].building == id && RoomIsOpen(db, user, READ, room)
    {
      VisibleRoomIffReadable(db, user, site, room, kind);
      if room in db.rooms {
        RoomIsDecided(db, user, READ, room, kind);
      }
    }
  }

  /** A site can be read by its rules or through any building of it that can be read. */
  ghost predicate SiteIsOpen(db: Database, user: User, action: Action, id: string) {
    "ADMIN" in user.roles || exists rule :: IsRuleOf(db, rule, Site, id) && Grants(db, rule, user, action, id)
  }

  lemma SiteIsDecided(db: Database, user: User, action: Action, id: string, kind: Kind)
    requires Placed(db)
    ensures var r := AssertSite(db, user, action, id, kind);
      if id !in db.sites || !IsReader(user) || !(SiteIsOpen(db, user, READ, id) || exists b ::
          b in db.buildings && db.buildings[b].site == id && BuildingIsReadable(db, user, b)) then r == Err(NotFound)
      else if action == READ || (IsWriter(user, kind) && SiteIsOpen(db, user, action, id)) then r == Ok(())
      else r == Err(Forbidden)
  {
    hide RoleAllows, CanReadScoped, RulesOf, GroupIds, Allowed, IsReader, IsWriter, Grants, BuildingIsReadable,
      VisibleBuildingIds, AssertBuilding;
    RolesAre(user, action, kind);
    RolesAre(user, READ, kind);
    WriteImpliesReadSite(db, user, action, id, kind);
    if id in db.sites && IsReader(user) {
      SiteOpenIff(db, user, READ, id);
      SiteOpenIff(db, user, action, id);
      forall b
        ensures b in VisibleBuildingIds(db, user, id) <==>
          b in db.buildings && db.buildings[b].site == id && BuildingIsReadable(db, user, b)
      {
        VisibleBuildingIffReadable(db, user, id, b, kind);
        BuildingIsDecided(db, user, READ, b, kind);
      }
    }
  }

  lemma SiteOpenIff(db: Database, user: User, action: Action, id: string)
    requires IsReader(user)
    ensures SiteIsOpen(db, user, action, id) <==>
      Allowed(RulesOf(db.permissions, Site, id), action, GroupIds(db, user, id))
  {
    hide RulesOf, GroupIds, Allowed, IsReader, Grants, IsRuleOf;
    RulesAre(db, Site, id);
    AllowedIff(db, RulesOf(db.permissions, Site, id), user, action, id);
  }

  /** Auditors and read-only users never write, whatever the rules say. */
  lemma AuditorsNeverWrite(db: Database, user: User, action: Action, id: string, kind: Kind)
    requires Placed(db) && action != READ && user.roles <= {"AUDITOR", "READ_ONLY"}
    ensures AssertRoom(db, user, action, id, kind).Err? && AssertBuilding(db, user, action, id, kind).Err? &&
      AssertSite(db, user, action, id, kind).Err?
  {
    hide AssertRoom, AssertBuilding, AssertSite, RoomIsOpen, BuildingIsOpen, SiteIsOpen, BuildingIsReadable;
    RoomIsDecided(db, user, action, id, kind);
    BuildingIsDecided(db, user, action, id, kind);
    SiteIsDecided(db, user, action, id, kind);
  }
}
