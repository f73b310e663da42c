/** The periodic reconciler: truncated queries, the resolve guard and the five sources it reports. */
module Reconciler {
  import opened Wrappers
  import Alerts
  import Findings

  const TAKE := 101
  const LIMIT := 100

  /** One record that a query matches; only traps have a severity of their own. */
  datatype Record = Record(id: string, dedupKey: Option<string>, severity: string, site: Option<string>, text: string)

  /** Everything that matches at the time of the queries, newest first, of any length. */
  datatype Conditions = Conditions(
    redisUp: bool, failedDiscovery: seq<Record>, pendingDiscovery: seq<Record>,
    failedSnmp: seq<Record>, traps: seq<Record>, drifts: seq<Record>)

  datatype Source = SystemHealth | Discovery | SnmpPoll | SnmpTrap | SnmpDrift

  const SOURCES: seq<Source> := [SystemHealth, Discovery, SnmpPoll, SnmpTrap, SnmpDrift]

  function Name(source: Source): string {
    match source
    case SystemHealth => "SYSTEM_HEALTH"
    case Discovery => "DISCOVERY"
    case SnmpPoll => "SNMP_POLL"
    case SnmpTrap => "SNMP_TRAP"
    case SnmpDrift => "SNMP_DRIFT"
  }

  function Take(records: seq<Record>, n: nat): seq<Record> {
    if |records| <= n then records else records[..n]
  }

  /** Each kind of condition has a fixed severity, except that critical and high traps keep theirs. */
  function SeverityOf(prefix: string, record: Record): string {
    if prefix == "discovery:review:" then "INFO"
    else if prefix == "snmp:drift:" then "HIGH"
    else if prefix == "snmp:trap:" && record.severity in {"CRITICAL", "HIGH"} then record.severity
    else "WARNING"
  }

  /** Traps are keyed by their own deduplication key where they have one. */
  function KeyOf(prefix: string, record: Record): string {
    prefix + if prefix == "snmp:trap:" && record.dedupKey.Some? then record.dedupKey.value else record.id
  }

  function Reported(prefix: string, source: Source, records: seq<Record>): (candidates: seq<Alerts.Candidate>)
    ensures |candidates| == |records|
    ensures forall i :: 0 <= i < |records| ==>
      candidates[i].key == KeyOf(prefix, records[i]) && candidates[i].source == Name(source)
  {
    if |records| == 0 then []
    else
      var n := |records| - 1;
      Reported(prefix, source, records[..n]) +
      [Alerts.Candidate(KeyOf(prefix, records[n]), Name(source), SeverityOf(prefix, records[n]), records[n].site,
        records[n].id, records[n].text)]
  }

  function SystemAlerts(cond: Conditions): seq<Alerts.Candidate> {
    if cond.redisUp then []
    else [Alerts.Candidate("system:redis-unavailable", Name(SystemHealth), "CRITICAL", None, "", "Redis / BullMQ")]
  }

  /** The candidates of a source if each query returned `Take(records, n)`. */
  function CandidatesOf(source: Source, cond: Conditions, n: nat): seq<Alerts.Candidate> {
    match source
    case SystemHealth => SystemAlerts(cond)
    case Discovery =>
      Reported("discovery:failed:", source, Take(cond.failedDiscovery, n)) +
        Reported("discovery:review:", source, Take(cond.pendingDiscovery, n))
    case SnmpPoll => Reported("snmp:failed:", source, Take(cond.failedSnmp, n))
    case SnmpTrap => Reported("snmp:trap:", source, Take(cond.traps, n))
    case SnmpDrift => Reported("snmp:drift:", source, Take(cond.drifts, n))
  }

  /** The pass gets at most 100 records a query. */
  function Given(source: Source, cond: Conditions): seq<Alerts.Candidate> {
    CandidatesOf(source, cond, LIMIT)
  }

  /** The guard: a query that took 101 records was cut off. */
  predicate Complete(source: Source, cond: Conditions) {
    match source
    case SystemHealth => true
    case Discovery => |Take(cond.failedDiscovery, TAKE)| <= LIMIT && |Take(cond.pendingDiscovery, TAKE)| <= LIMIT
    case SnmpPoll => |Take(cond.failedSnmp, TAKE)| <= LIMIT
    case SnmpTrap => |Take(cond.traps, TAKE)| <= LIMIT
    case SnmpDrift => |Take(cond.drifts, TAKE)| <= LIMIT
  }

  function PassOf(table: Alerts.Table, source: Source, cond: Conditions, now: int): Alerts.Table {
    Alerts.Reconciled(table, Name(source), Given(source, cond), None, Complete(source, cond), now)
  }

  /** Expired snoozes are reopened first; then the first n sources are reconciled, in order. */
  function Tick(table: Alerts.Table, cond: Conditions, now: int, n: nat): Alerts.Table
    requires n <= |SOURCES|
  {
    if n == 0 then Alerts.SnoozesReopened(table, now)
      else PassOf(Tick(table, cond, now, n - 1), SOURCES[n - 1], cond, now)
  }

  function First(candidates: seq<Alerts.Candidate>, m: nat): seq<Alerts.Candidate> {
    if m <= |candidates| then candidates[..m] else candidates
  }

  /** A tick that fails inside pass n, after m of its candidates and before it resolves anything. */
  function BrokenTick(table: Alerts.Table, cond: Conditions, now: int, n: nat, m: nat): Alerts.Table
    requires n <= |SOURCES|
  {
    var reached := Tick(table, cond, now, n);
    if n == |SOURCES| then reached else Alerts.ReportAll(reached, First(Given(SOURCES[n], cond), m), now)
  }

  // ---- the conditions themselves

  ghost predicate HasRecord(prefix: string, records: seq<Record>, key: string) {
    exists r :: r in records && key == KeyOf(prefix, r)
  }

  /** Some record matches the query of the source and has this key, whether or not the query returned it. */
  ghost predicate Matches(source: Source, cond: Conditions, key: string) {
    match source
    case SystemHealth => !cond.redisUp && key == "system:redis-unavailable"
    case Discovery => HasRecord("discovery:failed:", cond.failedDiscovery, key) ||
      HasRecord("discovery:review:", cond.pendingDiscovery, key)
    case SnmpPoll => HasRecord("snmp:failed:", cond.failedSnmp, key)
    case SnmpTrap => HasRecord("snmp:trap:", cond.traps, key)
    case SnmpDrift => HasRecord("snmp:drift:", cond.drifts, key)
  }

  lemma ReportedKeys(prefix: string, source: Source, records: seq<Record>, key: string)
    ensures Alerts.HasKey(Reported(prefix, source, records), key) <==> HasRecord(prefix, records, key)
  {
  }

  lemma EitherKey(a: seq<Alerts.Candidate>, b: seq<Alerts.Candidate>, key: string)
    ensures Alerts.HasKey(a + b, key) <==> Alerts.HasKey(a, key) || Alerts.HasKey(b, key)
  {
  }

  /** If no query was cut off, the pass gets exactly the matching keys. */
  lemma CompleteMeansAll(source: Source, cond: Conditions, key: string)
    requires Complete(source, cond)
    ensures Alerts.HasKey(Given(source, cond), key) <==> Matches(source, cond, key)
  {
    hide Alerts.HasKey, Reported, KeyOf, HasRecord;
    match source
    case SystemHealth =>
      SystemKeys(cond, key);
    case Discovery =>
      ReportedKeys("discovery:failed:", source, cond.failedDiscovery, key);
      ReportedKeys("discovery:review:", source, cond.pendingDiscovery, key);
      EitherKey(Reported("discovery:failed:", source, cond.failedDiscovery),
        Reported("discovery:review:", source, cond.pendingDiscovery), key);
    case SnmpPoll => ReportedKeys("snmp:failed:", source, cond.failedSnmp, key);
    case SnmpTrap => ReportedKeys("snmp:trap:", source, cond.traps, key);
    case SnmpDrift => ReportedKeys("snmp:drift:", source, cond.drifts, key);
  }

  lemma SystemKeys(cond: Conditions, key: string)
    ensures Alerts.HasKey(SystemAlerts(cond), key) <==> Matches(SystemHealth, cond, key)
  {
  }

  // ---- what each source is given, field by field

  /** The candidates from position `from` on are those of the first 100 records, in order. */
  ghost predicate AreFor(given: seq<Alerts.Candidate>, from: nat, records: seq<Record>,
      to: Record -> Alerts.Candidate) {
    forall i :: 0 <= i < |records| && i < 100 ==> from + i < |given| && given[from + i] == to(records[i])
  }

  ghost function Count(records: seq<Record>): nat {
    if |records| < 100 then |records| else 100
  }

  lemma {:induction false} ReportedAre(prefix: string, source: Source, records: seq<Record>, i: int)
    requires 0 <= i < |records|
    ensures Reported(prefix, source, records)[i] == Alerts.Candidate(KeyOf(prefix, records[i]), Name(source),
      SeverityOf(prefix, records[i]), records[i].site, records[i].id, records[i].text)
  {
    if i < |records| - 1 {
      ReportedAre(prefix, source, records[..|records| - 1], i);
    }
  }

  lemma FirstHundred(prefix: string, source: Source, records: seq<Record>)
    ensures |Reported(prefix, source, Take(records, LIMIT))| == Count(records)
    ensures forall i :: 0 <= i < Count(records) ==>
      Reported(prefix, source, Take(records, LIMIT))[i] == Alerts.Candidate(KeyOf(prefix, records[i]), Name(source),
        SeverityOf(prefix, records[i]), records[i].site, records[i].id, records[i].text)
  {
    hide Name, SeverityOf, KeyOf, Reported;
    forall i | 0 <= i < Count(records) {
      ReportedAre(prefix, source, Take(records, LIMIT), i);
    }
  }

  lemma GivenIsSystem(cond: Conditions)
    ensures Given(SystemHealth, cond) == if cond.redisUp then [] else
      [Alerts.Candidate("system:redis-unavailable", "SYSTEM_HEALTH", "CRITICAL", None, "", "Redis / BullMQ")]
    ensures Complete(SystemHealth, cond)
  {
  }

  lemma GivenIsDiscovery(cond: Conditions)
    ensures var given := Given(Discovery, cond);
      && |given| == Count(cond.failedDiscovery) + Count(cond.pendingDiscovery)
      && AreFor(given, 0, cond.failedDiscovery, (r: Record) =>
           Alerts.Candidate("discovery:failed:" + r.id, "DISCOVERY", "WARNING", r.site, r.id, r.text))
      && AreFor(given, Count(cond.failedDiscovery), cond.pendingDiscovery, (r: Record) =>
           Alerts.Candidate("discovery:review:" + r.id, "DISCOVERY", "INFO", r.site, r.id, r.text))
    ensures Complete(Discovery, cond) <==> |cond.failedDiscovery| <= 100 && |cond.pendingDiscovery| <= 100
  {
    hide Reported;
    FirstHundred("discovery:failed:", Discovery, cond.failedDiscovery);
    FirstHundred("discovery:review:", Discovery, cond.pendingDiscovery);
  }

  lemma GivenIsSnmp(cond: Conditions)
    ensures |Given(SnmpPoll, cond)| == Count(cond.failedSnmp) && |Given(SnmpTrap, cond)| == Count(cond.traps) &&
      |Given(SnmpDrift, cond)| == Count(cond.drifts)
    ensures AreFor(Given(SnmpPoll, cond), 0, cond.failedSnmp, (r: Record) =>
      Alerts.Candidate("snmp:failed:" + r.id, "SNMP_POLL", "WARNING", r.site, r.id, r.text))
    ensures AreFor(Given(SnmpTrap, cond), 0, cond.traps, (r: Record) =>
      Alerts.Candidate("snmp:trap:" + (if r.dedupKey.Some? then r.dedupKey.value else r.id), "SNMP_TRAP",
        if r.severity in {"CRITICAL", "HIGH"} then r.severity else "WARNING", r.site, r.id, r.text))
    ensures AreFor(Given(SnmpDrift, cond), 0, cond.drifts, (r: Record) =>
      Alerts.Candidate("snmp:drift:" + r.id, "SNMP_DRIFT", "HIGH", r.site, r.id, r.text))
    ensures (Complete(SnmpPoll, cond) <==> |cond.failedSnmp| <= 100) &&
      (Complete(SnmpTrap, cond) <==> |cond.traps| <= 100) && (Complete(SnmpDrift, cond) <==> |cond.drifts| <= 100)
  {
    hide Reported;
    FirstHundred("snmp:failed:", SnmpPoll, cond.failedSnmp);
    FirstHundred("snmp:trap:", SnmpTrap, cond.traps);
    FirstHundred("snmp:drift:", SnmpDrift, cond.drifts);
  }

  // ---- each key belongs to one source

  function Owner(key: string): string {
    if "system:" <= key then Name(SystemHealth)
    else if "discovery:" <= key then Name(Discovery)
    else if "snmp:failed:" <= key then Name(SnmpPoll)
    else if "snmp:trap:" <= key then Name(SnmpTrap)
    else if "snmp:drift:" <= key then Name(SnmpDrift)
    else if "quality:" <= key then Findings.QUALITY
    else ""
  }

  /** The prefixes that the reconciler and the quality service use tell the sources apart. */
  lemma PrefixOwner(rest: string)
    ensures Owner("discovery:failed:" + rest) == Name(Discovery) && Owner("discovery:review:" + rest) == Name(Discovery)
    ensures Owner("snmp:failed:" + rest) == Name(SnmpPoll)
    ensures Owner("snmp:trap:" + rest) == Name(SnmpTrap)
    ensures Owner("snmp:drift:" + rest) == Name(SnmpDrift)
    ensures Owner(Findings.AlertKey(rest)) == Findings.QUALITY
  {
    DiscoveryOwner("failed:" + rest);
    DiscoveryOwner("review:" + rest);
    assert "discovery:" + ("failed:" + rest) == "discovery:failed:" + rest;
    assert "discovery:" + ("review:" + rest) == "discovery:review:" + rest;
    SnmpOwner(rest);
    QualityOwner(rest);
  }

  lemma DiscoveryOwner(rest: string)
    ensures Owner("discovery:" + rest) == Name(Discovery)
  {
    assert ("discovery:" + rest)[0] == 'd';
  }

  lemma SnmpOwner(rest: string)
    ensures Owner("snmp:failed:" + rest) == Name(SnmpPoll)
    ensures Owner("snmp:trap:" + rest) == Name(SnmpTrap)
    ensures Owner("snmp:drift:" + rest) == Name(SnmpDrift)
  {
    var poll, trap, drift := "snmp:failed:" + rest, "snmp:trap:" + rest, "snmp:drift:" + rest;
    assert poll[0] == 's' && trap[0] == 's' && drift[0] == 's';
    assert poll[1] == 'n' && trap[1] == 'n' && drift[1] == 'n';
    assert trap[5] == 't' && drift[5] == 'd';
  }

  lemma QualityOwner(rest: string)
    ensures Owner(Findings.AlertKey(rest)) == Findings.QUALITY
  {
    assert Findings.AlertKey(rest)[0] == 'q';
  }

  lemma ReportedOwned(prefix: string, source: Source, records: seq<Record>)
    requires forall rest :: Owner(prefix + rest) == Name(source)
    ensures Alerts.OwnedBy(Reported(prefix, source, records), Name(source), Owner)
  {
  }

  lemma Prefixes()
    ensures forall rest :: Owner("discovery:failed:" + rest) == Name(Discovery)
    ensures forall rest :: Owner("discovery:review:" + rest) == Name(Discovery)
    ensures forall rest :: Owner("snmp:failed:" + rest) == Name(SnmpPoll)
    ensures forall rest :: Owner("snmp:trap:" + rest) == Name(SnmpTrap)
    ensures forall rest :: Owner("snmp:drift:" + rest) == Name(SnmpDrift)
  {
    hide Owner, Name;
    forall rest: string {
      PrefixOwner(rest);
    }
  }

  lemma GivenOwned(source: Source, cond: Conditions)
    ensures Alerts.OwnedBy(Given(source, cond), Name(source), Owner)
  {
    hide Owner, Name, Reported, Take;
    Prefixes();
    match source
    case SystemHealth => SystemOwned(cond);
    case Discovery =>
      ReportedOwned("discovery:failed:", source, Take(cond.failedDiscovery, LIMIT));
      ReportedOwned("discovery:review:", source, Take(cond.pendingDiscovery, LIMIT));
    case SnmpPoll => ReportedOwned("snmp:failed:", source, Take(cond.failedSnmp, LIMIT));
    case SnmpTrap => ReportedOwned("snmp:trap:", source, Take(cond.traps, LIMIT));
    case SnmpDrift => ReportedOwned("snmp:drift:", source, Take(cond.drifts, LIMIT));
  }

  lemma SystemOwned(cond: Conditions)
    ensures Alerts.OwnedBy(SystemAlerts(cond), Name(SystemHealth), Owner)
  {
  }

  lemma RecordOwned(prefix: string, source: Source, records: seq<Record>, key: string)
    requires HasRecord(prefix, records, key) && forall rest :: Owner(prefix + rest) == Name(source)
    ensures Owner(key) == Name(source)
  {
  }

  lemma MatchOwned(source: Source, cond: Conditions, key: string)
    requires Matches(source, cond, key)
    ensures Owner(key) == Name(source)
  {
    hide Name, HasRecord, Owner;
    Prefixes();
    match source
    case SystemHealth => SystemOwned(cond); SystemKeys(cond, key);
    case Discovery =>
      if HasRecord("discovery:failed:", cond.failedDiscovery, key) {
        RecordOwned("discovery:failed:", source, cond.failedDiscovery, key);
      } else {
        RecordOwned("discovery:review:", source, cond.pendingDiscovery, key);
      }
    case SnmpPoll => RecordOwned("snmp:failed:", source, cond.failedSnmp, key);
    case SnmpTrap => RecordOwned("snmp:trap:", source, cond.traps, key);
    case SnmpDrift => RecordOwned("snmp:drift:", source, cond.drifts, key);
  }

  // ---- one pass, one tick

  /** A pass does not resolve an alert whose condition still matches a query, however many records match. */
  lemma PassSpares(table: Alerts.Table, pass: Source, cond: Conditions, now: int, source: Source, key: string)
    requires Alerts.Owned(table, Owner) && Matches(source, cond, key) && Alerts.IsLive(table, key)
    ensures Alerts.IsLive(PassOf(table, pass, cond, now), key)
  {
    hide Alerts.Reconciled, Given, Complete, Matches, Owner, Alerts.Outcome;
    MatchOwned(source, cond, key);
    Alerts.PassPerKey(table, Name(pass), Given(pass, cond), None, Complete(pass, cond), now, key);
    if pass == source && Complete(source, cond) {
      CompleteMeansAll(source, cond, key);
    }
  }

  lemma PassKeepsOwners(table: Alerts.Table, pass: Source, cond: Conditions, now: int)
    requires Alerts.Owned(table, Owner)
    ensures Alerts.Owned(PassOf(table, pass, cond, now), Owner)
  {
    hide Alerts.Reconciled, Given, Complete, Owner, Alerts.Owned;
    GivenOwned(pass, cond);
    Alerts.PassKeepsOwners(table, Name(pass), Given(pass, cond), None, Complete(pass, cond), now, Owner);
  }

  lemma {:induction false} TickKeepsOwners(table: Alerts.Table, cond: Conditions, now: int, n: nat)
    requires Alerts.Owned(table, Owner) && n <= |SOURCES|
    ensures Alerts.Owned(Tick(table, cond, now, n), Owner)
  {
    hide Owner, PassOf;
    if n > 0 {
      TickKeepsOwners(table, cond, now, n - 1);
      PassKeepsOwners(Tick(table, cond, now, n - 1), SOURCES[n - 1], cond, now);
    }
  }

  lemma {:induction false} TickSpares(table: Alerts.Table, cond: Conditions, now: int, n: nat, source: Source,
      key: string)
    requires Alerts.Owned(table, Owner) && n <= |SOURCES|
    requires Matches(source, cond, key) && Alerts.IsLive(table, key)
    ensures Alerts.IsLive(Tick(table, cond, now, n), key)
  {
    hide Owner, PassOf, Matches;
    if n > 0 {
      TickSpares(table, cond, now, n - 1, source, key);
      TickKeepsOwners(table, cond, now, n - 1);
      PassSpares(Tick(table, cond, now, n - 1), SOURCES[n - 1], cond, now, source, key);
    }
  }

  lemma ReportingSpares(table: Alerts.Table, source: Source, cond: Conditions, now: int, m: nat, key: string)
    requires Alerts.Owned(table, Owner)
    ensures var after := Alerts.ReportAll(table, First(Given(source, cond), m), now);
      Alerts.Owned(after, Owner) && (Alerts.IsLive(table, key) ==> Alerts.IsLive(after, key))
  {
    hide Given, Owner, Alerts.ReportAll, Alerts.Outcome, Alerts.Owned;
    var given := First(Given(source, cond), m);
    GivenOwned(source, cond);
    Alerts.PassKeepsOwners(table, Name(source), given, None, false, now, Owner);
    Alerts.PassPerKey(table, Name(source), given, None, false, now, key);
  }

  /** However many records match and wherever the tick breaks off, no alert with a matching condition is resolved. */
  lemma NoFalseResolution(table: Alerts.Table, cond: Conditions, now: int, n: nat, m: nat, source: Source, key: string)
    requires Alerts.Owned(table, Owner) && n <= |SOURCES|
    requires Matches(source, cond, key) && Alerts.IsLive(table, key)
    ensures Alerts.IsLive(BrokenTick(table, cond, now, n, m), key)
  {
    hide Owner, Matches, Tick, Alerts.ReportAll, First, Given, Alerts.Owned;
    TickSpares(table, cond, now, n, source, key);
    TickKeepsOwners(table, cond, now, n);
    if n < |SOURCES| {
      ReportingSpares(Tick(table, cond, now, n), SOURCES[n], cond, now, m, key);
    }
  }

  lemma BrokenTickKeepsOwners(table: Alerts.Table, cond: Conditions, now: int, n: nat, m: nat)
    requires Alerts.Owned(table, Owner) && n <= |SOURCES|
    ensures Alerts.Owned(BrokenTick(table, cond, now, n, m), Owner)
  {
    hide Owner, Tick, Alerts.ReportAll, First, Given, Alerts.Owned;
    TickKeepsOwners(table, cond, now, n);
    if n < |SOURCES| {
      ReportingSpares(Tick(table, cond, now, n), SOURCES[n], cond, now, m, "");
    }
  }

  /** A pass whose queries returned everything leaves live exactly the matching keys of its source. */
  lemma CompletePassExact(table: Alerts.Table, source: Source, cond: Conditions, now: int, key: string)
    requires Alerts.Owned(table, Owner) && Complete(source, cond)
    ensures Alerts.LiveOf(PassOf(table, source, cond, now), Name(source), key) <==> Matches(source, cond, key)
  {
    hide Alerts.Reconciled, Given, Matches, Owner, Alerts.LiveOf, Alerts.HasKey;
    GivenOwned(source, cond);
    Alerts.PassIsExact(table, Name(source), Given(source, cond), now, Owner);
    CompleteMeansAll(source, cond, key);
  }

  /** The other passes of a tick leave the source's alerts alone. */
  lemma OtherPass(table: Alerts.Table, pass: Source, source: Source, cond: Conditions, now: int, key: string)
    requires Alerts.Owned(table, Owner) && pass != source
    ensures Alerts.LiveOf(PassOf(table, pass, cond, now), Name(source), key) <==>
      Alerts.LiveOf(table, Name(source), key)
  {
    hide Alerts.Reconciled, Given, Complete, Owner, Alerts.Outcome;
    GivenOwned(pass, cond);
    PassKeepsOwners(table, pass, cond, now);
    Alerts.PassPerKey(table, Name(pass), Given(pass, cond), None, Complete(pass, cond), now, key);
    assert Name(pass) != Name(source);
  }

  /**
   * After a whole tick, the live alerts of every source whose queries returned everything are exactly the matching
   * ones.
   */
  lemma {:induction false} TickIsExact(table: Alerts.Table, cond: Conditions, now: int, n: nat, i: nat, key: string)
    requires Alerts.Owned(table, Owner) && i < n <= |SOURCES| && Complete(SOURCES[i], cond)
    ensures Alerts.LiveOf(Tick(table, cond, now, n), Name(SOURCES[i]), key) <==> Matches(SOURCES[i], cond, key)
  {
    hide Owner, PassOf, Matches, Name, Alerts.LiveOf, Complete;
    TickKeepsOwners(table, cond, now, n - 1);
    if i == n - 1 {
      CompletePassExact(Tick(table, cond, now, n - 1), SOURCES[i], cond, now, key);
    } else {
      TickIsExact(table, cond, now, n - 1, i, key);
      OtherPass(Tick(table, cond, now, n - 1), SOURCES[n - 1], SOURCES[i], cond, now, key);
    }
  }

  lemma EverySourceHasItsPass(source: Source) returns (i: nat)
    ensures i < |SOURCES| && SOURCES[i] == source
  {
    i := match source
      case SystemHealth => 0
      case Discovery => 1
      case SnmpPoll => 2
      case SnmpTrap => 3
      case SnmpDrift => 4;
  }

  /** After a whole tick, every source whose queries returned everything has exactly its matching keys live. */
  lemma WholeTickIsExact(table: Alerts.Table, cond: Conditions, now: int, source: Source, key: string)
    requires Alerts.Owned(table, Owner) && Complete(source, cond)
    ensures Alerts.LiveOf(Tick(table, cond, now, |SOURCES|), Name(source), key) <==> Matches(source, cond, key)
  {
    hide Owner, Tick, Matches, Name, Alerts.LiveOf, Complete;
    var i := EverySourceHasItsPass(source);
    TickIsExact(table, cond, now, |SOURCES|, i, key);
  }

  /** A tick, however far it gets, begins by ending expired snoozes, and none of its passes snoozes anything. */
  lemma {:induction false} TickEndsSnooze(table: Alerts.Table, cond: Conditions, now: int, n: nat, key: string)
    requires n <= |SOURCES| && key in table
    requires table[key].status == Alerts.Snoozed ==>
      table[key].snoozedUntil.Some? && table[key].snoozedUntil.value <= now
    ensures key in Tick(table, cond, now, n) && Tick(table, cond, now, n)[key].status != Alerts.Snoozed
  {
    hide Given, Complete, Name, Alerts.Reconciled, Alerts.HasKey, Alerts.LastOf, Alerts.FirstOf;
    if n > 0 {
      TickEndsSnooze(table, cond, now, n - 1, key);
      var source := SOURCES[n - 1];
      Alerts.PassPerKey(Tick(table, cond, now, n - 1), Name(source), Given(source, cond), None, Complete(source, cond),
        now, key);
    }
  }

  // ---- every run of ticks, quality passes and user decisions

  datatype Event =
    | TickEvent(cond: Conditions, now: int, passes: nat, reported: nat)
    | QualityEvent(candidates: seq<Findings.Candidate>, scope: Option<string>, now: int)
    | UserEvent(op: Alerts.Op)

  predicate IsEvent(e: Event) {
    && (e.TickEvent? ==> e.passes <= |SOURCES|)
    && (e.UserEvent? ==> e.op.Acknowledge? || e.op.Snooze? || e.op.Resolve?)
  }

  function Happen(table: Alerts.Table, e: Event): Alerts.Table
    requires IsEvent(e)
  {
    match e
    case TickEvent(cond, now, passes, reported) => BrokenTick(table, cond, now, passes, reported)
    case QualityEvent(candidates, scope, now) => Findings.PassAlerts(table, candidates, scope, now)
    case UserEvent(op) => Alerts.Step(table, op)
  }

  function History(events: seq<Event>): Alerts.Table
    requires forall i :: 0 <= i < |events| ==> IsEvent(events[i])
  {
    if |events| == 0 then map[] else Happen(History(events[..|events| - 1]), events[|events| - 1])
  }

  /** In every reachable table each key belongs to the source its prefix names, so the guarantees above always apply. */
  lemma {:induction false} OwnersInEveryRun(events: seq<Event>)
    requires forall i :: 0 <= i < |events| ==> IsEvent(events[i])
    ensures Alerts.Owned(History(events), Owner)
  {
    hide Owner, BrokenTick, Alerts.Reconciled;
    if |events| > 0 {
      var n := |events| - 1;
      OwnersInEveryRun(events[..n]);
      var before := History(events[..n]);
      match events[n]
      case TickEvent(cond, now, passes, reported) => BrokenTickKeepsOwners(before, cond, now, passes, reported);
      case QualityEvent(candidates, scope, now) => QualityKeepsOwners(before, candidates, scope, now);
      case UserEvent(op) =>
    }
  }

  lemma QualityKeepsOwners(table: Alerts.Table, candidates: seq<Findings.Candidate>, scope: Option<string>, now: int)
    requires Alerts.Owned(table, Owner)
    ensures Alerts.Owned(Findings.PassAlerts(table, candidates, scope, now), Owner)
  {
    hide Owner, Alerts.Reconciled, Alerts.Owned;
    var alerts := Findings.AlertsOf(candidates);
    forall a | a in alerts
      ensures a.source == Findings.QUALITY && Owner(a.key) == Findings.QUALITY
    {
      var c :| c in candidates && Findings.Alerting(c) && a == Findings.AlertOf(c);
      PrefixOwner(c.key);
    }
    Alerts.PassKeepsOwners(table, Findings.QUALITY, alerts, scope, true, now, Owner);
  }

  /** Among the tables that can arise, an unscoped quality pass meets its exactness claim. */
  lemma QualityPassExactInEveryRun(events: seq<Event>, candidates: seq<Findings.Candidate>, now: int)
    requires forall i :: 0 <= i < |events| ==> IsEvent(events[i])
    ensures forall key ::
      Alerts.LiveOf(Findings.PassAlerts(History(events), candidates, None, now), Findings.QUALITY, key) <==>
      Findings.HasAlert(candidates, key)
  {
    hide Owner, Findings.PassAlerts, Findings.HasAlert, Alerts.LiveOf, Alerts.Owned;
    OwnersInEveryRun(events);
    forall key: string
      ensures Owner(Findings.AlertKey(key)) == Findings.QUALITY
    {
      PrefixOwner(key);
    }
    Findings.AlertsExact(History(events), candidates, now, Owner);
  }

  // ---- decisions over every history

  /** The condition of the key lasts: every source that the key may belong to still matches it. */
  ghost predicate Lasts(cond: Conditions, key: string) {
    forall source :: Owner(key) == Name(source) ==> Matches(source, cond, key)
  }

  lemma PassSparesDecision(pass: Source, cond: Conditions, now: int, key: string, alert: Alerts.Alert)
    requires alert.source == Owner(key) && Lasts(cond, key)
    ensures Alerts.Spares(
      Alerts.Reconcile(Name(pass), Given(pass, cond), None, Complete(pass, cond), now), key, alert)
  {
    hide Given, Complete, Matches, Owner, Name, Alerts.HasKey;
    if Name(pass) == alert.source && Complete(pass, cond) {
      assert Matches(pass, cond, key);
      CompleteMeansAll(pass, cond, key);
    }
  }

  lemma {:induction false} TickKeepsDecision(table: Alerts.Table, cond: Conditions, now: int, n: nat, key: string)
    requires n <= |SOURCES| && Alerts.Owned(table, Owner) && key in table && Alerts.IsDecided(table[key])
    requires !Alerts.Expired(table[key], now) && Lasts(cond, key)
    ensures key in Tick(table, cond, now, n) && Alerts.SameDecision(table[key], Tick(table, cond, now, n)[key])
  {
    hide Given, Complete, Lasts, Owner, Name, Alerts.Reconciled, Alerts.SnoozesReopened, Alerts.HasKey;
    if n == 0 {
      Alerts.StepKeepsDecisionIff(table, Alerts.ReopenExpired(now), key);
    } else {
      TickKeepsDecision(table, cond, now, n - 1, key);
      var before, pass := Tick(table, cond, now, n - 1), SOURCES[n - 1];
      PassSparesDecision(pass, cond, now, key, before[key]);
      Alerts.StepKeepsDecisionIff(before,
        Alerts.Reconcile(Name(pass), Given(pass, cond), None, Complete(pass, cond), now), key);
    }
  }

  lemma BrokenTickKeepsDecision(table: Alerts.Table, cond: Conditions, now: int, n: nat, m: nat, key: string)
    requires n <= |SOURCES| && Alerts.Owned(table, Owner) && key in table && Alerts.IsDecided(table[key])
    requires !Alerts.Expired(table[key], now) && Lasts(cond, key)
    ensures key in BrokenTick(table, cond, now, n, m)
    ensures Alerts.SameDecision(table[key], BrokenTick(table, cond, now, n, m)[key])
  {
    hide Given, First, Lasts, Owner, Name, Tick, Alerts.ReportAll, Alerts.HasKey;
    TickKeepsDecision(table, cond, now, n, key);
    if n < |SOURCES| {
      Alerts.StepKeepsDecisionIff(Tick(table, cond, now, n),
        Alerts.Reconcile(Name(SOURCES[n]), First(Given(SOURCES[n], cond), m), None, false, now), key);
    }
  }

  /**
   * The event leaves the decision alone: a tick while the condition lasts and before the snooze ends, broken off
   * anywhere; a quality pass that still finds the condition or is about another site; a decision on another key.
   */
  ghost predicate LeavesDecision(e: Event, key: string, alert: Alerts.Alert) {
    match e
    case TickEvent(cond, now, _, _) => Lasts(cond, key) && !Alerts.Expired(alert, now)
    case QualityEvent(candidates, scope, _) =>
      || Owner(key) != Findings.QUALITY || Findings.HasAlert(candidates, key)
      || (scope.Some? && alert.site != scope)
    case UserEvent(op) => Alerts.Spares(op, key, alert)
  }

  lemma EventKeepsDecision(table: Alerts.Table, e: Event, key: string)
    requires IsEvent(e) && Alerts.Owned(table, Owner) && key in table && Alerts.IsDecided(table[key])
    requires LeavesDecision(e, key, table[key])
    ensures key in Happen(table, e) && Alerts.SameDecision(table[key], Happen(table, e)[key])
  {
    hide Lasts, Owner, BrokenTick, Alerts.Reconciled, Alerts.HasKey, Findings.HasAlert, Findings.AlertsOf;
    match e
    case TickEvent(cond, now, passes, reported) => BrokenTickKeepsDecision(table, cond, now, passes, reported, key);
    case QualityEvent(candidates, scope, now) =>
      Findings.AlertKeysOf(candidates, key);
      Alerts.StepKeepsDecisionIff(table,
        Alerts.Reconcile(Findings.QUALITY, Findings.AlertsOf(candidates), scope, true, now), key);
    case UserEvent(op) => Alerts.StepKeepsDecisionIff(table, op, key);
  }

  /**
   * Over every history of ticks, broken off anywhere, quality passes and user decisions: once acknowledged or snoozed,
   * an alert keeps status, dates and count while its condition lasts, its snooze lasts and users decide on other keys.
   */
  lemma {:induction false} DecisionSurvives(events: seq<Event>, i: nat, key: string)
    requires forall k :: 0 <= k < |events| ==> IsEvent(events[k])
    requires i <= |events| && key in History(events[..i]) && Alerts.IsDecided(History(events[..i])[key])
    requires forall k :: i <= k < |events| ==> LeavesDecision(events[k], key, History(events[..i])[key])
    ensures key in History(events) && Alerts.SameDecision(History(events[..i])[key], History(events)[key])
  {
    hide LeavesDecision, Happen, Owner, Alerts.Owned;
    var n := |events|;
    if i == n {
      assert events[..i] == events;
    } else {
      assert events[..n - 1][..i] == events[..i];
      DecisionSurvives(events[..n - 1], i, key);
      OwnersInEveryRun(events[..n - 1]);
      assert LeavesDecision(events[n - 1], key, History(events[..i])[key]);
      SameSubjection(events[n - 1], key, History(events[..i])[key], History(events[..n - 1])[key]);
      EventKeepsDecision(History(events[..n - 1]), events[n - 1], key);
    }
  }

  lemma SameSubjection(e: Event, key: string, alert: Alerts.Alert, later: Alerts.Alert)
    requires Alerts.SameDecision(alert, later) && LeavesDecision(e, key, alert)
    ensures LeavesDecision(e, key, later)
  {
  }

  class OperationsReconciler {
    var running: bool
    const operations: Alerts.OperationsService

    constructor (operations: Alerts.OperationsService)
      ensures this.operations == operations && !running
    {
      this.operations, running := operations, false;
    }

    /** `reconcile`; the database may fail after `reached` passes and `reported` candidates of the next one. */
    method Reconcile(cond: Conditions, now: int, reached: nat, reported: nat)
      requires reached <= |SOURCES|
      modifies this, operations
      ensures old(running) ==> running && operations.table == old(operations.table)
      ensures !old(running) ==>
        !running && operations.table == BrokenTick(old(operations.table), cond, now, reached, reported)
    {
      hide Given, Complete, Alerts.Reconciled, Alerts.SnoozesReopened, Alerts.ReportAll, First;
      if running {
        return;
      }
      running := true;
      operations.ReopenExpiredSnoozes(now);
      for i := 0 to reached
        invariant running == true && !old(running)
        invariant operations.table == Tick(old(operations.table), cond, now, i)
      {
        var _ := operations.ReconcileSource(Name(SOURCES[i]), Given(SOURCES[i], cond), None, Complete(SOURCES[i], cond),
          now);
      }
      if reached < |SOURCES| {
        operations.ReportCandidates(First(Given(SOURCES[reached], cond), reported), now);
      }
      running := false;
    }
  }
}
