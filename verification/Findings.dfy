/** Inventory-quality findings and the alerts that follow from them. */
module Findings {
  import opened Wrappers
  import Alerts

  datatype Status = Open | Acknowledged | Snoozed | Resolved

  /** One detected condition; `text` stands for rule, entity, title, detail and metadata. */
  datatype Candidate = Candidate(key: string, site: Option<string>, severity: string, text: string)

  datatype Finding = Finding(
    site: Option<string>, severity: string, text: string, status: Status, occurrenceCount: nat,
    firstDetectedAt: int, lastDetectedAt: int, acknowledgedAt: Option<int>, snoozedUntil: Option<int>,
      resolvedAt: Option<int>)

  type Table = map<string, Finding>

  const QUALITY := "INVENTORY_QUALITY"

  predicate Expired(f: Finding, now: int) {
    f.status.Snoozed? && f.snoozedUntil.Some? && f.snoozedUntil.value <= now
  }

  predicate IsLive(table: Table, key: string) {
    key in table && !table[key].status.Resolved?
  }

  function Detected(table: Table, c: Candidate, now: int): Finding {
    if c.key !in table then Finding(c.site, c.severity, c.text, Open, 1, now, now, None, None, None)
    else
      var updated := table[c.key].(site := c.site, severity := c.severity, text := c.text, lastDetectedAt := now,
                                   occurrenceCount := table[c.key].occurrenceCount + 1);
      if updated.status.Resolved? || Expired(updated, now) then
        updated.(status := Open, resolvedAt := None, acknowledgedAt := None, snoozedUntil := None)
      else updated
  }

  function DetectAll(table: Table, candidates: seq<Candidate>, now: int): Table {
    if |candidates| == 0 then table
    else
      var before, c := DetectAll(table, candidates[..|candidates| - 1], now), candidates[|candidates| - 1];
      before[c.key := Detected(before, c, now)]
  }

  predicate HasKey(candidates: seq<Candidate>, key: string) {
    exists c :: c in candidates && c.key == key
  }

  predicate IsGone(table: Table, candidates: seq<Candidate>, scope: Option<string>, key: string) {
    IsLive(table, key) && (scope.Some? ==> table[key].site == scope) && !HasKey(candidates, key)
  }

  function ResolveGone(table: Table, candidates: seq<Candidate>, scope: Option<string>, now: int): Table {
    map key | key in table ::
      if IsGone(table, candidates, scope, key)
        then table[key].(status := Resolved, resolvedAt := Some(now), snoozedUntil := None)
      else table[key]
  }

  predicate Alerting(c: Candidate) {
    c.severity == "CRITICAL" || c.severity == "HIGH"
  }

  function AlertKey(key: string): string {
    "quality:" + key
  }

  /** The alert candidates of the serious conditions, in order. */
  function AlertsOf(candidates: seq<Candidate>): (alerts: seq<Alerts.Candidate>)
    ensures forall a :: a in alerts <==> exists c :: c in candidates && Alerting(c) && a == AlertOf(c)
  {
    if |candidates| == 0 then []
    else
      var rest := AlertsOf(candidates[..|candidates| - 1]);
      var last := candidates[|candidates| - 1];
      if Alerting(last) then rest + [AlertOf(last)] else rest
  }

  function AlertOf(c: Candidate): Alerts.Candidate {
    Alerts.Candidate(AlertKey(c.key), QUALITY, c.severity, c.site, c.key, c.text)
  }

  function PassFindings(table: Table, candidates: seq<Candidate>, scope: Option<string>, now: int): Table {
    ResolveGone(DetectAll(table, candidates, now), candidates, scope, now)
  }

  function PassAlerts(alerts: Alerts.Table, candidates: seq<Candidate>, scope: Option<string>, now: int): Alerts.Table {
    Alerts.Reconciled(alerts, QUALITY, AlertsOf(candidates), scope, true, now)
  }

  // ---- what a pass leaves behind

  /** A detected finding is live and not in an expired snooze. */
  ghost predicate IsCurrent(table: Table, key: string, now: int) {
    IsLive(table, key) && !Expired(table[key], now)
  }

  lemma HasKeyMore(candidates: seq<Candidate>, c: Candidate, key: string)
    ensures HasKey(candidates + [c], key) <==> HasKey(candidates, key) || c.key == key
  {
  }

  lemma DetectedIsCurrent(table: Table, c: Candidate, now: int)
    ensures !Detected(table, c, now).status.Resolved? && !Expired(Detected(table, c, now), now)
  {
  }

  lemma {:induction false} DetectedKeys(table: Table, candidates: seq<Candidate>, now: int, key: string)
    ensures var after := DetectAll(table, candidates, now);
      && (HasKey(candidates, key) ==> IsCurrent(after, key, now))
      && (!HasKey(candidates, key) ==> (key in after <==> key in table) && (key in table ==> after[key] == table[key]))
  {
    hide HasKey, Detected, Expired;
    if |candidates| == 0 {
      NoKey(key);
    } else {
      var n := |candidates| - 1;
      DetectedKeys(table, candidates[..n], now, key);
      HasKeyMore(candidates[..n], candidates[n], key);
      assert candidates == candidates[..n] + [candidates[n]];
      DetectedIsCurrent(DetectAll(table, candidates[..n], now), candidates[n], now);
    }
  }

  lemma NoKey(key: string)
    ensures !HasKey([], key)
  {
  }

  ghost predicate HasAlert(candidates: seq<Candidate>, alertKey: string) {
    exists c :: c in candidates && IsSerious(c) && alertKey == "quality:" + c.key
  }

  ghost predicate IsSerious(c: Candidate) {
    c.severity in {"CRITICAL", "HIGH"}
  }

  /** The alert candidates are those of the CRITICAL and HIGH conditions, with their severity, site and text. */
  lemma AlertsAreSerious(candidates: seq<Candidate>, a: Alerts.Candidate)
    ensures a in AlertsOf(candidates) <==> exists c :: c in candidates && IsSerious(c) && IsAlertFor(a, c)
  {
    if c :| c in candidates && IsSerious(c) && IsAlertFor(a, c) {
      assert Alerting(c) && a == AlertOf(c);
    }
  }

  ghost predicate IsAlertFor(a: Alerts.Candidate, c: Candidate) {
    && a.key == "quality:" + c.key && a.source == "INVENTORY_QUALITY" && a.severity == c.severity
    && a.site == c.site && a.entity == c.key && a.text == c.text
  }

  lemma AlertKeysOf(candidates: seq<Candidate>, alertKey: string)
    ensures Alerts.HasKey(AlertsOf(candidates), alertKey) <==> HasAlert(candidates, alertKey)
  {
  }

  /**
   * After an unscoped pass the findings that are not resolved are exactly the detected ones, none of them in an
   * expired snooze, and the live alerts of the source are exactly those of the serious conditions.
   */
  lemma PassIsExact(table: Table, alerts: Alerts.Table, candidates: seq<Candidate>, now: int, owner: string -> string)
    requires Alerts.Owned(alerts, owner) && forall key :: owner(AlertKey(key)) == QUALITY
    ensures var after := PassFindings(table, candidates, None, now);
      forall key :: (IsLive(after, key) <==> HasKey(candidates, key)) &&
        (HasKey(candidates, key) ==> IsCurrent(after, key, now))
    ensures forall key :: Alerts.LiveOf(PassAlerts(alerts, candidates, None, now), QUALITY, key) <==>
      HasAlert(candidates, key)
  {
    FindingsExact(table, candidates, now);
    AlertsExact(alerts, candidates, now, owner);
  }

  lemma FindingsExact(table: Table, candidates: seq<Candidate>, now: int)
    ensures var after := PassFindings(table, candidates, None, now);
      forall key :: (IsLive(after, key) <==> HasKey(candidates, key)) &&
        (HasKey(candidates, key) ==> IsCurrent(after, key, now))
  {
    hide HasKey, DetectAll, Expired;
    var after := PassFindings(table, candidates, None, now);
    forall key
      ensures IsLive(after, key) <==> HasKey(candidates, key)
      ensures HasKey(candidates, key) ==> IsCurrent(after, key, now)
    {
      DetectedKeys(table, candidates, now, key);
    }
  }

  lemma AlertsExact(alerts: Alerts.Table, candidates: seq<Candidate>, now: int, owner: string -> string)
    requires Alerts.Owned(alerts, owner) && forall key :: owner(AlertKey(key)) == QUALITY
    ensures forall key :: Alerts.LiveOf(PassAlerts(alerts, candidates, None, now), QUALITY, key) <==>
      HasAlert(candidates, key)
  {
    hide Alerts.Reconciled, Alerts.LiveOf, HasAlert, Alerts.HasKey, AlertKey;
    var given := AlertsOf(candidates);
    assert Alerts.OwnedBy(given, QUALITY, owner);
    Alerts.PassIsExact(alerts, QUALITY, given, now, owner);
    forall key
      ensures Alerts.LiveOf(PassAlerts(alerts, candidates, None, now), QUALITY, key) <==> HasAlert(candidates, key)
    {
      AlertKeysOf(candidates, key);
    }
  }

  /** A pass of one site resolves a vanished finding exactly if it was live and recorded for that site. */
  lemma ScopedPass(table: Table, candidates: seq<Candidate>, site: string, now: int, key: string)
    ensures var after := PassFindings(table, candidates, Some(site), now);
      && (HasKey(candidates, key) ==> IsCurrent(after, key, now))
      && (!HasKey(candidates, key) ==> (IsLive(after, key) <==> IsLive(table, key) && table[key].site != Some(site)))
  {
    hide HasKey, DetectAll, Expired;
    DetectedKeys(table, candidates, now, key);
  }

  // ---- what the findings carry after a pass, field by field

  ghost function Places(candidates: seq<Candidate>, key: string): set<int> {
    set j | 0 <= j < |candidates| && candidates[j].key == key
  }

  /** Candidate k is the last with the key. */
  ghost predicate IsLast(candidates: seq<Candidate>, key: string, k: int) {
    0 <= k < |candidates| && candidates[k].key == key && forall j :: k < j < |candidates| ==> candidates[j].key != key
  }

  /** A finding that was detected n times in one pass, last by c. */
  ghost predicate IsFound(before: Option<Finding>, f: Finding, c: Candidate, n: nat, now: int) {
    && f.site == c.site && f.severity == c.severity && f.text == c.text && f.lastDetectedAt == now
    && match before
       case None =>
         f.status == Open && f.occurrenceCount == n && f.firstDetectedAt == now && f.acknowledgedAt == None &&
         f.snoozedUntil == None && f.resolvedAt == None
       case Some(was) =>
         && f.occurrenceCount == was.occurrenceCount + n && f.firstDetectedAt == was.firstDetectedAt
         && if was.status == Resolved ||
               (was.status == Snoozed && was.snoozedUntil.Some? && was.snoozedUntil.value <= now) then
              f.status == Open && f.acknowledgedAt == None && f.snoozedUntil == None && f.resolvedAt == None
            else
              f.status == was.status && f.acknowledgedAt == was.acknowledgedAt &&
              f.snoozedUntil == was.snoozedUntil && f.resolvedAt == was.resolvedAt
  }

  ghost function Stored(table: Table, key: string): Option<Finding> {
    if key in table then Some(table[key]) else None
  }

  lemma PlacesMore(candidates: seq<Candidate>, c: Candidate, key: string)
    ensures Places(candidates + [c], key) == Places(candidates, key) + if c.key == key then {|candidates|} else {}
    ensures |candidates| !in Places(candidates, key)
  {
    var more := candidates + [c];
    assert forall j :: 0 <= j < |candidates| ==> more[j] == candidates[j];
  }

  lemma FoundAgain(before: Option<Finding>, table: Table, c: Candidate, last: Candidate, n: nat, now: int)
    requires c.key in table && IsFound(before, table[c.key], last, n, now)
    ensures IsFound(before, Detected(table, c, now), c, n + 1, now)
  {
  }

  lemma FoundFirst(table: Table, before: Table, c: Candidate, now: int)
    requires Stored(table, c.key) == Stored(before, c.key)
    ensures IsFound(Stored(before, c.key), Detected(table, c, now), c, 1, now)
  {
  }

  lemma {:induction false} DetectionCarries(table: Table, candidates: seq<Candidate>, now: int, key: string, k: int)
    requires IsLast(candidates, key, k)
    ensures key in DetectAll(table, candidates, now)
    ensures IsFound(Stored(table, key), DetectAll(table, candidates, now)[key], candidates[k],
      |Places(candidates, key)|, now)
  {
    hide Detected, IsFound, Places;
    var n := |candidates| - 1;
    var rest := candidates[..n];
    assert candidates == rest + [candidates[n]];
    PlacesMore(rest, candidates[n], key);
    if k < n {
      DetectionCarries(table, rest, now, key, k);
    } else if i :| 0 <= i < n && rest[i].key == key {
      var last := LastBefore(rest, key, i);
      DetectionCarries(table, rest, now, key, last);
      FoundAgain(Stored(table, key), DetectAll(table, rest, now), candidates[n], rest[last],
        |Places(rest, key)|, now);
    } else {
      NoPlaces(rest, key);
      DetectedKeys(table, rest, now, key);
      FoundFirst(DetectAll(table, rest, now), table, candidates[n], now);
    }
  }

  lemma NoPlaces(candidates: seq<Candidate>, key: string)
    requires forall i :: 0 <= i < |candidates| ==> candidates[i].key != key
    ensures Places(candidates, key) == {} && !HasKey(candidates, key)
  {
  }

  lemma LastBefore(candidates: seq<Candidate>, key: string, i: int) returns (k: int)
    requires 0 <= i < |candidates| && candidates[i].key == key
    ensures IsLast(candidates, key, k)
    decreases |candidates| - i
  {
    if j :| i < j < |candidates| && candidates[j].key == key {
      k := LastBefore(candidates, key, j);
    } else {
      k := i;
    }
  }

  /** A detected finding carries its last candidate, one occurrence more per detection, and is open if it was over. */
  lemma DetectedCarries(table: Table, candidates: seq<Candidate>, scope: Option<string>, now: int, key: string, k: int)
    requires IsLast(candidates, key, k)
    ensures key in PassFindings(table, candidates, scope, now)
    ensures IsFound(Stored(table, key), PassFindings(table, candidates, scope, now)[key], candidates[k],
      |Places(candidates, key)|, now)
  {
    hide DetectAll, IsFound, Places;
    DetectionCarries(table, candidates, now, key, k);
    assert HasKey(candidates, key) by {
      assert candidates[k] in candidates;
    }
  }

  /** A finding that a pass does not detect is resolved exactly if it is unresolved and of the pass's site. */
  lemma UndetectedCarries(table: Table, candidates: seq<Candidate>, scope: Option<string>, now: int, key: string)
    requires forall c :: c in candidates ==> c.key != key
    ensures var after := PassFindings(table, candidates, scope, now);
      && (key in after <==> key in table)
      && (key in table ==>
            after[key] == if table[key].status != Resolved && (scope == None || table[key].site == scope) then
              table[key].(status := Resolved, resolvedAt := Some(now), snoozedUntil := None) else table[key])
  {
    hide DetectAll;
    DetectedKeys(table, candidates, now, key);
  }

  // ---- every run of passes and user decisions

  datatype Op =
    | Pass(candidates: seq<Candidate>, scope: Option<string>, now: int)
    | Acknowledge(key: string, now: int)
    | Snooze(key: string, until: int, now: int)

  function Step(table: Table, op: Op): Table {
    match op
    case Pass(candidates, scope, now) => PassFindings(table, candidates, scope, now)
    case Acknowledge(key, now) =>
      if key in table then table[key := table[key].(status := Acknowledged, acknowledgedAt := Some(now),
        snoozedUntil := None)] else table
    case Snooze(key, until, now) =>
      if key in table && until > now then table[key := table[key].(status := Snoozed, snoozedUntil := Some(until))]
        else table
  }

  function Run(table: Table, ops: seq<Op>): Table {
    if |ops| == 0 then table else Step(Run(table, ops[..|ops| - 1]), ops[|ops| - 1])
  }

  /** What the users' decisions write: status and dates of their finding, nothing else. */
  lemma DecisionStores(table: Table, op: Op, key: string)
    requires !op.Pass?
    ensures var after := Step(table, op);
      && after.Keys == table.Keys
      && (key in table ==>
            after[key] == match op
              case Acknowledge(k, now) =>
                if k == key then
                  table[key].(status := Acknowledged, acknowledgedAt := Some(now), snoozedUntil := None)
                else table[key]
              case Snooze(k, until, now) =>
                if k == key && until > now then table[key].(status := Snoozed, snoozedUntil := Some(until))
                else table[key]
              case Pass(_, _, _) => table[key])
  {
  }

  /** A snooze date belongs to a snoozed finding, a resolution date to a resolved one. */
  predicate WellKept(f: Finding) {
    && (f.status.Snoozed? <==> f.snoozedUntil.Some?)
    && (f.status.Resolved? ==> f.resolvedAt.Some?)
    && f.occurrenceCount >= 1
  }

  ghost predicate AllWellKept(table: Table) {
    forall key :: key in table ==> WellKept(table[key])
  }

  lemma {:induction false} DetectionKeeps(table: Table, candidates: seq<Candidate>, now: int)
    requires AllWellKept(table)
    ensures AllWellKept(DetectAll(table, candidates, now))
  {
    if |candidates| > 0 {
      var n := |candidates| - 1;
      DetectionKeeps(table, candidates[..n], now);
      assert WellKept(Detected(DetectAll(table, candidates[..n], now), candidates[n], now));
    }
  }

  lemma {:induction false} EveryRunKeeps(table: Table, ops: seq<Op>)
    requires AllWellKept(table)
    ensures AllWellKept(Run(table, ops))
  {
    hide DetectAll, HasKey;
    if |ops| > 0 {
      var n := |ops| - 1;
      EveryRunKeeps(table, ops[..n]);
      if ops[n].Pass? {
        DetectionKeeps(Run(table, ops[..n]), ops[n].candidates, ops[n].now);
      }
    }
  }

  /** Status and dates of the decision. */
  predicate SameDecision(before: Finding, after: Finding) {
    && after.status == before.status && after.acknowledgedAt == before.acknowledgedAt
    && after.snoozedUntil == before.snoozedUntil && after.resolvedAt == before.resolvedAt
  }

  predicate IsDecided(f: Finding) {
    f.status.Acknowledged? || f.status.Snoozed?
  }

  /**
   * The operation leaves the decision on this finding alone: a pass that detects it before its snooze ends, a pass
   * of another site that does not detect it, or a decision on another key.
   */
  predicate Spares(op: Op, key: string, f: Finding) {
    match op
    case Pass(candidates, scope, now) =>
      if HasKey(candidates, key) then !Expired(f, now) else scope.Some? && f.site != scope
    case Acknowledge(k, _) => k != key
    case Snooze(k, _, _) => k != key
  }

  lemma {:induction false} DetectionSpares(table: Table, candidates: seq<Candidate>, now: int, key: string)
    requires IsCurrent(table, key, now)
    ensures var after := DetectAll(table, candidates, now);
      IsCurrent(after, key, now) && SameDecision(table[key], after[key])
  {
    if |candidates| > 0 {
      DetectionSpares(table, candidates[..|candidates| - 1], now, key);
    }
  }

  /** A detection reopens an expired snooze, and later ones in the same pass leave it open. */
  lemma {:induction false} DetectionReopens(table: Table, candidates: seq<Candidate>, now: int, key: string)
    requires key in table && Expired(table[key], now) && HasKey(candidates, key)
    ensures key in DetectAll(table, candidates, now) && DetectAll(table, candidates, now)[key].status.Open?
  {
    hide HasKey;
    var n := |candidates| - 1;
    if n < 0 {
      NoKey(key);
      assert false;
    } else {
      assert candidates == candidates[..n] + [candidates[n]];
      HasKeyMore(candidates[..n], candidates[n], key);
      if HasKey(candidates[..n], key) {
        DetectionReopens(table, candidates[..n], now, key);
      } else {
        DetectedKeys(table, candidates[..n], now, key);
      }
    }
  }

  /** A pass keeps a decision exactly if it spares it; so does a decision on another key. */
  lemma StepKeepsDecisionIff(table: Table, op: Op, key: string)
    requires key in table && IsDecided(table[key])
    ensures key in Step(table, op)
    ensures Spares(op, key, table[key]) ==> SameDecision(table[key], Step(table, op)[key])
    ensures op.Pass? ==> (SameDecision(table[key], Step(table, op)[key]) <==> Spares(op, key, table[key]))
  {
    hide HasKey, Expired, DetectAll;
    if op.Pass? {
      if !HasKey(op.candidates, key) {
        DetectedKeys(table, op.candidates, op.now, key);
      } else if Expired(table[key], op.now) {
        DetectionReopens(table, op.candidates, op.now, key);
      } else {
        DetectionSpares(table, op.candidates, op.now, key);
      }
    }
  }

  /** Every operation of the run spares the decision on the key as it finds it. */
  ghost predicate AllSpare(table: Table, ops: seq<Op>, key: string) {
    forall i :: 0 <= i < |ops| ==>
      var before := Run(table, ops[..i]);
      key in before ==> Spares(ops[i], key, before[key])
  }

  /**
   * Over every run, an acknowledged or snoozed finding keeps its decision while every pass detects it before its
   * snooze ends, or is about another site than the one it is recorded for, and users decide on other keys.
   */
  lemma {:induction false} DecisionSurvives(table: Table, ops: seq<Op>, key: string)
    requires key in table && IsDecided(table[key]) && AllSpare(table, ops, key)
    ensures key in Run(table, ops) && SameDecision(table[key], Run(table, ops)[key])
  {
    hide Step, Spares;
    if |ops| > 0 {
      var n := |ops| - 1;
      assert AllSpare(table, ops[..n], key) by {
        assert forall i :: 0 <= i < n ==> ops[..n][..i] == ops[..i];
      }
      DecisionSurvives(table, ops[..n], key);
      StepKeepsDecisionIff(Run(table, ops[..n]), ops[n], key);
    }
  }

  class InventoryQualityService {
    var findings: Table
    const operations: Alerts.OperationsService

    constructor (operations: Alerts.OperationsService)
      ensures this.operations == operations && findings == map[]
    {
      this.operations, findings := operations, map[];
    }

    /** `reconcileSite` with its detected candidates given. */
    method ReconcileSite(candidates: seq<Candidate>, scope: Option<string>, now: int)
      modifies this, operations
      ensures findings == PassFindings(old(findings), candidates, scope, now)
      ensures operations.table == PassAlerts(old(operations.table), candidates, scope, now)
    {
      hide Detected, ResolveGone, Alerts.Reconciled;
      for i := 0 to |candidates|
        invariant findings == DetectAll(old(findings), candidates[..i], now)
        invariant operations.table == old(operations.table)
      {
        assert candidates[..i + 1][..i] == candidates[..i];
        findings := findings[candidates[i].key := Detected(findings, candidates[i], now)];
      }
      assert candidates[..|candidates|] == candidates;
      var _ := operations.ReconcileSource(QUALITY, AlertsOf(candidates), scope, true, now);
      findings := ResolveGone(findings, candidates, scope, now);
    }
  }
}
