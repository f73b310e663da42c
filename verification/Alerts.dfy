/**
 * Operational alerts: user decisions, snooze expiry and the reconciliation of a source with its detected conditions.
 */
module Alerts {
  import opened Wrappers

  datatype Status = Open | Acknowledged | Snoozed | Resolved

  /** `entity` stands for entity type and id, `text` for title, detail and link. */
  datatype Alert = Alert(
    source: string, severity: string, site: Option<string>, entity: string, text: string, status: Status,
    occurrenceCount: nat, firstOccurredAt: int, lastOccurredAt: int,
    acknowledgedAt: Option<int>, snoozedUntil: Option<int>, resolvedAt: Option<int>)

  datatype Candidate = Candidate(key: string, source: string, severity: string, site: Option<string>, entity: string,
      text: string)

  /** The table, by its unique `dedupKey`. */
  type Table = map<string, Alert>

  predicate IsLive(table: Table, key: string) {
    key in table && !table[key].status.Resolved?
  }

  /** `upsert`; a resolved alert opens again, a new one starts with one occurrence. */
  function Upserted(table: Table, c: Candidate, now: int): Alert {
    if c.key !in table then
      Alert(c.source, c.severity, c.site, c.entity, c.text, Open, 1, now, now, None, None, None)
    else
      var updated := table[c.key].(source := c.source, severity := c.severity, site := c.site, entity := c.entity,
        text := c.text,
                                   occurrenceCount := table[c.key].occurrenceCount + 1, lastOccurredAt := now);
      if updated.status.Resolved? then
        updated.(status := Open, acknowledgedAt := None, snoozedUntil := None, resolvedAt := None)
      else updated
  }

  /** What a pass does to one reported condition: a live alert keeps its source, site, entity and status. */
  function Reported(table: Table, c: Candidate, now: int): Alert {
    if IsLive(table, c.key) then table[c.key].(severity := c.severity, text := c.text, lastOccurredAt := now)
    else Upserted(table, c, now)
  }

  function ReportAll(table: Table, candidates: seq<Candidate>, now: int): Table {
    if |candidates| == 0 then table
    else
      var before, c := ReportAll(table, candidates[..|candidates| - 1], now), candidates[|candidates| - 1];
      before[c.key := Reported(before, c, now)]
  }

  predicate HasKey(candidates: seq<Candidate>, key: string) {
    exists c :: c in candidates && c.key == key
  }

  predicate IsStale(table: Table, source: string, candidates: seq<Candidate>, scope: Option<string>, key: string) {
    && IsLive(table, key) && table[key].source == source
    && (scope.Some? ==> table[key].site == scope)
    && !HasKey(candidates, key)
  }

  /** The snooze date of an automatically resolved alert stays. */
  function AutoResolved(alert: Alert, now: int): Alert {
    alert.(status := Resolved, resolvedAt := Some(now))
  }

  function ResolveStale(table: Table, source: string, candidates: seq<Candidate>, scope: Option<string>,
      now: int): Table {
    map key | key in table ::
      if IsStale(table, source, candidates, scope, key) then AutoResolved(table[key], now) else table[key]
  }

  function Reconciled(table: Table, source: string, candidates: seq<Candidate>, scope: Option<string>,
      resolveMissing: bool, now: int): Table {
    var reported := ReportAll(table, candidates, now);
    if resolveMissing then ResolveStale(reported, source, candidates, scope, now) else reported
  }

  predicate Expired(alert: Alert, now: int) {
    alert.status.Snoozed? && alert.snoozedUntil.Some? && alert.snoozedUntil.value <= now
  }

  function SnoozesReopened(table: Table, now: int): Table {
    map key | key in table ::
      if Expired(table[key], now) then table[key].(status := Open, snoozedUntil := None, acknowledgedAt := None)
        else table[key]
  }

  // ---- the effect of a pass on one key

  function FirstOf(candidates: seq<Candidate>, key: string): (c: Candidate)
    requires HasKey(candidates, key)
    ensures c in candidates && c.key == key
  {
    if candidates[0].key == key then candidates[0] else FirstOf(candidates[1..], key)
  }

  function LastOf(candidates: seq<Candidate>, key: string): (c: Candidate)
    requires HasKey(candidates, key)
    ensures c in candidates && c.key == key
  {
    var c := candidates[|candidates| - 1];
    if c.key == key then c else LastOf(candidates[..|candidates| - 1], key)
  }

  /**
   * The alert of a reported key: the live one or the first candidate's, with the severity and text of the last
   * candidate.
   */
  function Outcome(table: Table, candidates: seq<Candidate>, now: int, key: string): Alert
    requires HasKey(candidates, key)
  {
    var base := if IsLive(table, key) then table[key] else Upserted(table, FirstOf(candidates, key), now);
    var last := LastOf(candidates, key);
    base.(severity := last.severity, text := last.text, lastOccurredAt := now)
  }

  lemma {:induction false} FirstOfMore(candidates: seq<Candidate>, c: Candidate, key: string)
    requires HasKey(candidates, key)
    ensures HasKey(candidates + [c], key) && FirstOf(candidates + [c], key) == FirstOf(candidates, key)
  {
    assert forall d :: d in candidates ==> d in candidates + [c];
    if candidates[0].key != key {
      assert (candidates + [c])[1..] == candidates[1..] + [c];
      FirstOfMore(candidates[1..], c, key);
    }
  }

  lemma HasKeyMore(candidates: seq<Candidate>, c: Candidate, key: string)
    ensures HasKey(candidates + [c], key) <==> HasKey(candidates, key) || c.key == key
  {
  }

  lemma LastOfMore(candidates: seq<Candidate>, c: Candidate, key: string)
    requires HasKey(candidates + [c], key)
    ensures c.key == key ==> LastOf(candidates + [c], key) == c
    ensures c.key != key ==> HasKey(candidates, key) && LastOf(candidates + [c], key) == LastOf(candidates, key)
  {
  }

  /** One more candidate for an already reported key only refreshes severity and text. */
  lemma OutcomeMore(table: Table, candidates: seq<Candidate>, c: Candidate, now: int, key: string)
    requires HasKey(candidates, key)
    ensures HasKey(candidates + [c], key)
    ensures var before := Outcome(table, candidates, now, key);
      Outcome(table, candidates + [c], now, key) ==
        if c.key == key then before.(severity := c.severity, text := c.text, lastOccurredAt := now) else before
  {
    hide HasKey, LastOf, FirstOf, Upserted;
    FirstOfMore(candidates, c, key);
    LastOfMore(candidates, c, key);
  }

  lemma OutcomeFresh(table: Table, candidates: seq<Candidate>, c: Candidate, now: int)
    requires !HasKey(candidates, c.key)
    ensures HasKey(candidates + [c], c.key)
    ensures Outcome(table, candidates + [c], now, c.key) == Reported(table, c, now)
  {
  }

  lemma SameReport(before: Table, table: Table, c: Candidate, now: int)
    requires (c.key in before <==> c.key in table) && (c.key in table ==> before[c.key] == table[c.key])
    ensures Reported(before, c, now) == Reported(table, c, now)
  {
  }

  lemma {:induction false} ReportedKey(table: Table, candidates: seq<Candidate>, now: int, key: string)
    ensures var after := ReportAll(table, candidates, now);
      && (!HasKey(candidates, key) ==> (key in after <==> key in table) && (key in table ==> after[key] == table[key]))
      && (HasKey(candidates, key) ==> key in after && after[key] == Outcome(table, candidates, now, key))
  {
    if |candidates| > 0 {
      hide HasKey, Outcome, Reported;
      var n := |candidates| - 1;
      var rest, c := candidates[..n], candidates[n];
      assert candidates == rest + [c];
      ReportedKey(table, rest, now, key);
      HasKeyMore(rest, c, key);
      if HasKey(rest, key) {
        OutcomeMore(table, rest, c, now, key);
        if c.key == key {
          OutcomeIsLive(table, rest, now, key);
          LiveReport(ReportAll(table, rest, now), c, now);
        }
      } else if c.key == key {
        OutcomeFresh(table, rest, c, now);
        SameReport(ReportAll(table, rest, now), table, c, now);
      }
    }
  }

  lemma LiveReport(table: Table, c: Candidate, now: int)
    requires IsLive(table, c.key)
    ensures Reported(table, c, now) == table[c.key].(severity := c.severity, text := c.text, lastOccurredAt := now)
  {
  }

  lemma OutcomeIsLive(table: Table, candidates: seq<Candidate>, now: int, key: string)
    requires HasKey(candidates, key)
    ensures !Outcome(table, candidates, now, key).status.Resolved?
  {
  }

  /** A pass, key by key: reported keys are refreshed or opened, stale ones resolved, and all others left alone. */
  lemma PassPerKey(table: Table, source: string, candidates: seq<Candidate>, scope: Option<string>,
      resolveMissing: bool, now: int, key: string)
    ensures var after := Reconciled(table, source, candidates, scope, resolveMissing, now);
      && (key in after <==> key in table || HasKey(candidates, key))
      && (HasKey(candidates, key) ==> after[key] == Outcome(table, candidates, now, key) && IsLive(after, key))
      && (key in table && !HasKey(candidates, key) ==>
            after[key] == if resolveMissing &&
              IsStale(table, source, candidates, scope, key) then AutoResolved(table[key], now) else table[key])
  {
    hide Outcome, ReportAll, HasKey;
    ReportedKey(table, candidates, now, key);
    if HasKey(candidates, key) {
      OutcomeIsLive(table, candidates, now, key);
    }
  }

  // ---- what the alerts carry after a pass, field by field

  /** Candidate i is the first with the key, and candidate k the last. */
  ghost predicate IsRange(candidates: seq<Candidate>, key: string, i: int, k: int) {
    && 0 <= i <= k < |candidates| && candidates[i].key == key && candidates[k].key == key
    && (forall j :: 0 <= j < i ==> candidates[j].key != key)
    && (forall j :: k < j < |candidates| ==> candidates[j].key != key)
  }

  lemma {:induction false} FirstIs(candidates: seq<Candidate>, key: string, i: int)
    requires 0 <= i < |candidates| && candidates[i].key == key && forall j :: 0 <= j < i ==> candidates[j].key != key
    ensures HasKey(candidates, key) && FirstOf(candidates, key) == candidates[i]
  {
    if i > 0 {
      assert forall j :: 0 <= j < i - 1 ==> candidates[1..][j] == candidates[j + 1];
      FirstIs(candidates[1..], key, i - 1);
    }
  }

  lemma {:induction false} LastIs(candidates: seq<Candidate>, key: string, k: int)
    requires 0 <= k < |candidates| && candidates[k].key == key
    requires forall j :: k < j < |candidates| ==> candidates[j].key != key
    ensures HasKey(candidates, key) && LastOf(candidates, key) == candidates[k]
  {
    if k < |candidates| - 1 {
      LastIs(candidates[..|candidates| - 1], key, k);
    }
  }

  /** A new alert: open, with one occurrence, no dates, and what its candidate says. */
  ghost predicate IsOpened(alert: Alert, c: Candidate, now: int) {
    && alert.source == c.source && alert.site == c.site && alert.entity == c.entity
    && alert.status == Open && alert.occurrenceCount == 1
    && alert.firstOccurredAt == now && alert.lastOccurredAt == now
    && alert.acknowledgedAt == None && alert.snoozedUntil == None && alert.resolvedAt == None
  }

  /** A resolved alert that occurs again: open, one occurrence more, no dates but the first occurrence. */
  ghost predicate IsReopened(before: Alert, alert: Alert, c: Candidate, now: int) {
    && alert.source == c.source && alert.site == c.site && alert.entity == c.entity
    && alert.status == Open && alert.occurrenceCount == before.occurrenceCount + 1
    && alert.firstOccurredAt == before.firstOccurredAt && alert.lastOccurredAt == now
    && alert.acknowledgedAt == None && alert.snoozedUntil == None && alert.resolvedAt == None
  }

  /** A live alert that is reported keeps everything but severity, text and the time of the last occurrence. */
  ghost predicate IsRefreshed(before: Alert, alert: Alert, now: int) {
    && alert.source == before.source && alert.site == before.site && alert.entity == before.entity
    && alert.status == before.status && alert.occurrenceCount == before.occurrenceCount
    && alert.firstOccurredAt == before.firstOccurredAt && alert.lastOccurredAt == now
    && alert.acknowledgedAt == before.acknowledgedAt && alert.snoozedUntil == before.snoozedUntil
    && alert.resolvedAt == before.resolvedAt
  }

  /** Only status and resolution date differ. */
  ghost predicate IsAutoResolved(before: Alert, alert: Alert, now: int) {
    && alert.status == Resolved && alert.resolvedAt == Some(now)
    && alert.source == before.source && alert.site == before.site && alert.entity == before.entity
    && alert.severity == before.severity && alert.text == before.text
    && alert.occurrenceCount == before.occurrenceCount && alert.firstOccurredAt == before.firstOccurredAt
    && alert.lastOccurredAt == before.lastOccurredAt && alert.acknowledgedAt == before.acknowledgedAt
    && alert.snoozedUntil == before.snoozedUntil
  }

  /**
   * After a pass a reported alert is a new one, a reopened one or a refreshed one, with the severity and the text of
   * its last candidate and, unless it was live, the source, site and entity of its first.
   */
  lemma ReportedCarries(table: Table, source: string, candidates: seq<Candidate>, scope: Option<string>,
      resolveMissing: bool, now: int, key: string, i: int, k: int)
    requires IsRange(candidates, key, i, k)
    ensures var after := Reconciled(table, source, candidates, scope, resolveMissing, now);
      && key in after && after[key].severity == candidates[k].severity && after[key].text == candidates[k].text
      && if key !in table then IsOpened(after[key], candidates[i], now)
         else if table[key].status == Resolved then IsReopened(table[key], after[key], candidates[i], now)
         else IsRefreshed(table[key], after[key], now)
  {
    hide Reconciled;
    FirstIs(candidates, key, i);
    LastIs(candidates, key, k);
    PassPerKey(table, source, candidates, scope, resolveMissing, now, key);
  }

  /** An alert that a pass does not report is resolved exactly if it is live and of the pass's source and site. */
  lemma UnreportedCarries(table: Table, source: string, candidates: seq<Candidate>, scope: Option<string>,
      resolveMissing: bool, now: int, key: string)
    requires forall c :: c in candidates ==> c.key != key
    ensures var after := Reconciled(table, source, candidates, scope, resolveMissing, now);
      && (key in after <==> key in table)
      && (key in table ==>
            if resolveMissing && table[key].status != Resolved && table[key].source == source &&
               (scope == None || table[key].site == scope) then IsAutoResolved(table[key], after[key], now)
            else after[key] == table[key])
  {
    hide Reconciled;
    PassPerKey(table, source, candidates, scope, resolveMissing, now, key);
  }

  // ---- sources and their keys

  /** Every key belongs to one source; the stored alerts and the candidates of a pass keep to that. */
  ghost predicate Owned(table: Table, owner: string -> string) {
    forall key :: key in table ==> table[key].source == owner(key)
  }

  ghost predicate OwnedBy(candidates: seq<Candidate>, source: string, owner: string -> string) {
    forall c :: c in candidates ==> c.source == source && owner(c.key) == source
  }

  lemma PassKeepsOwners(table: Table, source: string, candidates: seq<Candidate>, scope: Option<string>,
      resolveMissing: bool, now: int,
                        owner: string -> string)
    requires Owned(table, owner) && OwnedBy(candidates, source, owner)
    ensures Owned(Reconciled(table, source, candidates, scope, resolveMissing, now), owner)
  {
    hide Reconciled;
    var after := Reconciled(table, source, candidates, scope, resolveMissing, now);
    forall key | key in after
      ensures after[key].source == owner(key)
    {
      PassPerKey(table, source, candidates, scope, resolveMissing, now, key);
    }
  }

  /** The live keys of a source. */
  ghost predicate LiveOf(table: Table, source: string, key: string) {
    IsLive(table, key) && table[key].source == source
  }

  /**
   * An unscoped resolving pass leaves live exactly the reported keys of its source, whatever users did before
   * and however often a key is reported, and touches no other source.
   */
  lemma PassIsExact(table: Table, source: string, candidates: seq<Candidate>, now: int, owner: string -> string)
    requires Owned(table, owner) && OwnedBy(candidates, source, owner)
    ensures var after := Reconciled(table, source, candidates, None, true, now);
      && (forall key :: LiveOf(after, source, key) <==> HasKey(candidates, key))
      && (forall key :: key in table && owner(key) != source ==> key in after && after[key] == table[key])
  {
    hide Reconciled;
    var after := Reconciled(table, source, candidates, None, true, now);
    PassKeepsOwners(table, source, candidates, None, true, now, owner);
    forall key
      ensures LiveOf(after, source, key) <==> HasKey(candidates, key)
      ensures key in table && owner(key) != source ==> key in after && after[key] == table[key]
    {
      PassPerKey(table, source, candidates, None, true, now, key);
    }
  }

  /**
   * A pass of one site resolves an unreported alert of the source exactly if it was live and recorded for that site.
   */
  lemma ScopedPass(table: Table, source: string, candidates: seq<Candidate>, site: string, now: int, key: string)
    requires key in table && table[key].source == source && !HasKey(candidates, key)
    ensures var after := Reconciled(table, source, candidates, Some(site), true, now);
      IsLive(after, key) <==> IsLive(table, key) && table[key].site != Some(site)
  {
    hide Reconciled;
    PassPerKey(table, source, candidates, Some(site), true, now, key);
  }

  /** Whatever the scope and the guard, a pass never resolves a key that it was given. */
  lemma ReportedStaysLive(table: Table, source: string, candidates: seq<Candidate>, scope: Option<string>,
      resolveMissing: bool, now: int, c: Candidate)
    requires c in candidates
    ensures IsLive(Reconciled(table, source, candidates, scope, resolveMissing, now), c.key)
  {
    hide Reconciled;
    PassPerKey(table, source, candidates, scope, resolveMissing, now, c.key);
  }

  /** Equal but for the time of the last occurrence. */
  ghost predicate SameButTimes(a: Table, b: Table) {
    a.Keys == b.Keys && forall key :: key in a ==> a[key].(lastOccurredAt := 0) == b[key].(lastOccurredAt := 0)
  }

  /** Repeating a pass changes nothing but timestamps. */
  lemma RepeatedPass(table: Table, source: string, candidates: seq<Candidate>, scope: Option<string>,
      resolveMissing: bool, now: int, later: int)
    ensures var once := Reconciled(table, source, candidates, scope, resolveMissing, now);
      SameButTimes(Reconciled(once, source, candidates, scope, resolveMissing, later), once)
  {
    hide Reconciled;
    var once := Reconciled(table, source, candidates, scope, resolveMissing, now);
    var twice := Reconciled(once, source, candidates, scope, resolveMissing, later);
    forall key
      ensures key in twice <==> key in once
      ensures key in once ==> twice[key].(lastOccurredAt := 0) == once[key].(lastOccurredAt := 0)
    {
      PassPerKey(table, source, candidates, scope, resolveMissing, now, key);
      PassPerKey(once, source, candidates, scope, resolveMissing, later, key);
    }
  }

  // ---- every run

  datatype Op =
    | Reconcile(source: string, candidates: seq<Candidate>, scope: Option<string>, resolveMissing: bool, now: int)
    | ReopenExpired(now: int)
    | Acknowledge(key: string, now: int)
    | Snooze(key: string, until: int, now: int)
    | Resolve(key: string, now: int)

  function MarkAcknowledged(alert: Alert, now: int): Alert {
    alert.(status := Acknowledged, acknowledgedAt := Some(now), snoozedUntil := None)
  }

  /** The operations do not look at the present status; an unknown alert or a snooze into the past changes nothing. */
  function Step(table: Table, op: Op): Table {
    match op
    case Reconcile(source, candidates, scope, resolveMissing, now) => Reconciled(table, source, candidates, scope,
      resolveMissing, now)
    case ReopenExpired(now) => SnoozesReopened(table, now)
    case Acknowledge(key, now) => if key in table then table[key := MarkAcknowledged(table[key], now)] else table
    case Snooze(key, until, now) =>
      if key in table && until > now then table[key := table[key].(status := Snoozed, snoozedUntil := Some(until))]
        else table
    case Resolve(key, now) =>
      if key in table then table[key := table[key].(status := Resolved, resolvedAt := Some(now), snoozedUntil := None)]
        else table
  }

  function Run(table: Table, ops: seq<Op>): Table {
    if |ops| == 0 then table else Step(Run(table, ops[..|ops| - 1]), ops[|ops| - 1])
  }

  /** What expiry and the users' decisions write: status and dates, nothing else, and only on their alert. */
  lemma DecisionStores(table: Table, op: Op, key: string)
    requires !op.Reconcile?
    ensures var after := Step(table, op);
      && after.Keys == table.Keys
      && (key in table ==>
            var was, alert := table[key], after[key];
            && alert == was.(status := alert.status, acknowledgedAt := alert.acknowledgedAt,
                 snoozedUntil := alert.snoozedUntil, resolvedAt := alert.resolvedAt)
            && match op
               case ReopenExpired(now) =>
                 if was.status == Snoozed && was.snoozedUntil.Some? && was.snoozedUntil.value <= now then
                   alert.status == Open && alert.acknowledgedAt == None && alert.snoozedUntil == None &&
                   alert.resolvedAt == was.resolvedAt
                 else alert == was
               case Acknowledge(k, now) =>
                 if k == key then
                   alert.status == Acknowledged && alert.acknowledgedAt == Some(now) && alert.snoozedUntil == None &&
                   alert.resolvedAt == was.resolvedAt
                 else alert == was
               case Snooze(k, until, now) =>
                 if k == key && until > now then
                   alert.status == Snoozed && alert.snoozedUntil == Some(until) &&
                   alert.acknowledgedAt == was.acknowledgedAt && alert.resolvedAt == was.resolvedAt
                 else alert == was
               case Resolve(k, now) =>
                 if k == key then
                   alert.status == Resolved && alert.resolvedAt == Some(now) && alert.snoozedUntil == None &&
                   alert.acknowledgedAt == was.acknowledgedAt
                 else alert == was
               case Reconcile(_, _, _, _, _) => true)
  {
  }

  /** Dates match the status; an alert has occurred at least once. */
  predicate WellKept(alert: Alert) {
    && (alert.status.Open? || alert.status.Acknowledged? ==> alert.snoozedUntil.None?)
    && (alert.status.Snoozed? ==> alert.snoozedUntil.Some?)
    && (alert.status.Resolved? ==> alert.resolvedAt.Some?)
    && (alert.status.Acknowledged? ==> alert.acknowledgedAt.Some?)
    && alert.occurrenceCount >= 1
  }

  ghost predicate AllWellKept(table: Table) {
    forall key :: key in table ==> WellKept(table[key])
  }

  lemma StepKeeps(table: Table, op: Op)
    requires AllWellKept(table)
    ensures AllWellKept(Step(table, op))
  {
    hide Reconciled;
    if op.Reconcile? {
      var after := Step(table, op);
      forall key | key in after
        ensures WellKept(after[key])
      {
        PassPerKey(table, op.source, op.candidates, op.scope, op.resolveMissing, op.now, key);
      }
    }
  }

  lemma {:induction false} EveryRunKeeps(table: Table, ops: seq<Op>)
    requires AllWellKept(table)
    ensures AllWellKept(Run(table, ops))
  {
    hide Step, AllWellKept;
    if |ops| > 0 {
      EveryRunKeeps(table, ops[..|ops| - 1]);
      StepKeeps(Run(table, ops[..|ops| - 1]), ops[|ops| - 1]);
    }
  }

  /** The step is a pass that reports the key while its alert is resolved. */
  predicate Reopens(table: Table, op: Op, key: string) {
    op.Reconcile? && HasKey(op.candidates, key) && key in table && table[key].status.Resolved?
  }

  function Reopenings(table: Table, ops: seq<Op>, key: string): nat {
    if |ops| == 0 then 0
    else
      var before := ops[..|ops| - 1];
      Reopenings(table, before, key) + if Reopens(Run(table, before), ops[|ops| - 1], key) then 1 else 0
  }

  lemma StepCounts(table: Table, op: Op, key: string)
    requires key in table
    ensures key in Step(table, op)
    ensures Step(table, op)[key].occurrenceCount == table[key].occurrenceCount + if Reopens(table, op, key) then 1
      else 0
  {
    hide Reconciled;
    if op.Reconcile? {
      PassPerKey(table, op.source, op.candidates, op.scope, op.resolveMissing, op.now, key);
    }
  }

  /** Over every run, the occurrence count rises by one for each reopening, and only then. */
  lemma {:induction false} OccurrencesAreReopenings(table: Table, ops: seq<Op>, key: string)
    requires key in table
    ensures key in Run(table, ops)
    ensures Run(table, ops)[key].occurrenceCount == table[key].occurrenceCount + Reopenings(table, ops, key)
  {
    hide Step, Reopens;
    if |ops| > 0 {
      OccurrencesAreReopenings(table, ops[..|ops| - 1], key);
      StepCounts(Run(table, ops[..|ops| - 1]), ops[|ops| - 1], key);
    }
  }

  predicate IsDecided(alert: Alert) {
    alert.status.Acknowledged? || alert.status.Snoozed?
  }

  /** Status, dates and count are those of the decision; source and site tell which passes the alert is subject to. */
  predicate SameDecision(before: Alert, after: Alert) {
    && after.status == before.status && after.acknowledgedAt == before.acknowledgedAt
    && after.snoozedUntil == before.snoozedUntil && after.resolvedAt == before.resolvedAt
    && after.occurrenceCount == before.occurrenceCount && after.source == before.source && after.site == before.site
  }

  /**
   * The operation leaves the decision on this alert alone: a pass that reports it or resolves nothing, a pass of
   * another source or another site, an expiry step before the snooze ends, or a decision on another key.
   */
  predicate Spares(op: Op, key: string, alert: Alert) {
    match op
    case Reconcile(source, candidates, scope, resolveMissing, _) =>
      || HasKey(candidates, key) || !resolveMissing
      || source != alert.source || (scope.Some? && alert.site != scope)
    case ReopenExpired(now) => !Expired(alert, now)
    case Acknowledge(k, _) => k != key
    case Snooze(k, _, _) => k != key
    case Resolve(k, _) => k != key
  }

  /** A pass or an expiry step keeps a decision exactly if it spares it; so does a decision on another key. */
  lemma StepKeepsDecisionIff(table: Table, op: Op, key: string)
    requires key in table && IsDecided(table[key])
    ensures key in Step(table, op)
    ensures Spares(op, key, table[key]) ==> SameDecision(table[key], Step(table, op)[key])
    ensures op.Reconcile? || op.ReopenExpired? ==>
      (SameDecision(table[key], Step(table, op)[key]) <==> Spares(op, key, table[key]))
  {
    hide Reconciled, HasKey;
    if op.Reconcile? {
      PassPerKey(table, op.source, op.candidates, op.scope, op.resolveMissing, op.now, key);
    }
  }

  /**
   * Over every run, an acknowledged or snoozed alert keeps its decision, dates and count while the passes of its own
   * source and site report it, its snooze lasts and users decide on other keys only.
   */
  lemma {:induction false} DecisionSurvives(table: Table, ops: seq<Op>, key: string)
    requires key in table && IsDecided(table[key])
    requires forall i :: 0 <= i < |ops| ==> Spares(ops[i], key, table[key])
    ensures key in Run(table, ops) && SameDecision(table[key], Run(table, ops)[key])
  {
    hide Step, HasKey;
    if |ops| > 0 {
      var n := |ops| - 1;
      DecisionSurvives(table, ops[..n], key);
      StepKeepsDecisionIff(Run(table, ops[..n]), ops[n], key);
    }
  }

  /** After expired snoozes are reopened none is left, and only those changed. */
  lemma NoExpiredSnooze(table: Table, now: int)
    ensures var after := SnoozesReopened(table, now);
      && after.Keys == table.Keys && (forall key :: key in after ==> !Expired(after[key], now))
      && (forall key :: key in table ==> (after[key] != table[key] <==> Expired(table[key], now)))
  {
  }

  datatype SnoozeError = NotFound | NotInFuture

  class OperationsService {
    var table: Table

    constructor ()
      ensures table == map[]
    {
      table := map[];
    }

    method Upsert(c: Candidate, now: int)
      modifies this
      ensures table == old(table)[c.key := Upserted(old(table), c, now)]
    {
      table := table[c.key := Upserted(table, c, now)];
    }

    /** The loop of `reconcileSource` over its candidates. */
    method ReportCandidates(candidates: seq<Candidate>, now: int)
      modifies this
      ensures table == ReportAll(old(table), candidates, now)
    {
      hide Upserted;
      for i := 0 to |candidates|
        invariant table == ReportAll(old(table), candidates[..i], now)
      {
        var c := candidates[i];
        assert candidates[..i + 1][..i] == candidates[..i];
        if c.key !in table || table[c.key].status.Resolved? {
          Upsert(c, now);
        } else {
          table := table[c.key := table[c.key].(severity := c.severity, text := c.text, lastOccurredAt := now)];
        }
      }
      assert candidates[..|candidates|] == candidates;
    }

    method ReconcileSource(source: string, candidates: seq<Candidate>, scope: Option<string>, resolveMissing: bool,
        now: int)
      returns (active: nat)
      modifies this
      ensures table == Reconciled(old(table), source, candidates, scope, resolveMissing, now)
      ensures active == |candidates|
    {
      hide ResolveStale, ReportAll;
      ReportCandidates(candidates, now);
      if resolveMissing {
        table := ResolveStale(table, source, candidates, scope, now);
      }
      active := |candidates|;
    }

    method ReopenExpiredSnoozes(now: int)
      modifies this
      ensures table == Step(old(table), ReopenExpired(now))
    {
      table := SnoozesReopened(table, now);
    }

    method AcknowledgeAlert(key: string, now: int) returns (found: bool)
      modifies this
      ensures found <==> key in old(table)
      ensures table == Step(old(table), Acknowledge(key, now))
    {
      if key !in table {
        return false;
      }
      table := table[key := table[key].(status := Acknowledged, acknowledgedAt := Some(now), snoozedUntil := None)];
      found := true;
    }

    method SnoozeAlert(key: string, until: int, now: int) returns (error: Option<SnoozeError>)
      modifies this
      ensures error == if key !in old(table) then Some(NotFound) else if until <= now then Some(NotInFuture) else None
      ensures table == Step(old(table), Snooze(key, until, now))
    {
      if key !in table {
        return Some(NotFound);
      }
      if until <= now {
        return Some(NotInFuture);
      }
      table := table[key := table[key].(status := Snoozed, snoozedUntil := Some(until))];
      error := None;
    }

    method ResolveAlert(key: string, now: int) returns (found: bool)
      modifies this
      ensures found <==> key in old(table)
      ensures table == Step(old(table), Resolve(key, now))
    {
      if key !in table {
        return false;
      }
      table := table[key := table[key].(status := Resolved, resolvedAt := Some(now), snoozedUntil := None)];
      found := true;
    }
  }
}
