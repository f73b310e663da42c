/**
 * `reconcileSource` as the sequence of database calls it is: any number of passes, user decisions and expiry
 * steps interleave, and a pass may stop anywhere.
 */
module InterleavedPasses {
  import opened Wrappers
  import Alerts
  import Findings
  import Reconciler

  /** What a pass does next: look a candidate up, write it, or resolve what its stale query found. */
  datatype Phase =
    | Looking(k: nat)
    | Refreshing(k: nat)
    | LookingAgain(k: nat)
    | Upserting(k: nat, reopen: bool)
    | Resolving(stale: set<string>)
    | Done

  datatype Pass = Pass(
    source: string, candidates: seq<Alerts.Candidate>, scope: Option<string>, resolveMissing: bool, phase: Phase)

  /** `expiries` holds what each expiry step has found and not yet reopened. */
  datatype State = State(table: Alerts.Table, passes: seq<Pass>, expiries: seq<set<string>>)

  datatype Event =
    | Begin(source: string, candidates: seq<Alerts.Candidate>, scope: Option<string>, resolveMissing: bool)
    | Advance(pass: nat, now: int)
    | LookForExpired(now: int)
    | ReopenFound(look: nat)
    | User(op: Alerts.Op)

  predicate IsDecision(op: Alerts.Op) {
    op.Acknowledge? || op.Snooze? || op.Resolve?
  }

  /** The update of an alert that was live when it was looked up; its status is not written. */
  function Refresh(table: Alerts.Table, c: Alerts.Candidate, now: int): Alerts.Table {
    if c.key !in table then table
    else table[c.key := table[c.key].(severity := c.severity, text := c.text, lastOccurredAt := now)]
  }

  /** The database upsert; whether it reopens was decided by an earlier look. */
  function Upsert(table: Alerts.Table, c: Alerts.Candidate, reopen: bool, now: int): Alerts.Table {
    if c.key !in table then table[c.key := Alerts.Upserted(table, c, now)]
    else
      var alert := table[c.key];
      var updated := alert.(source := c.source, severity := c.severity, site := c.site, entity := c.entity,
        text := c.text,
                            occurrenceCount := alert.occurrenceCount + 1, lastOccurredAt := now);
      if !reopen then table[c.key := updated]
      else
        table[c.key := updated.(status := Alerts.Open, acknowledgedAt := None, snoozedUntil := None,
          resolvedAt := None)]
  }

  function FindStale(table: Alerts.Table, pass: Pass): set<string> {
    set key | key in table && Alerts.IsStale(table, pass.source, pass.candidates, pass.scope, key)
  }

  function ResolveFound(table: Alerts.Table, stale: set<string>, now: int): Alerts.Table {
    map key | key in table :: if key in stale then Alerts.AutoResolved(table[key], now) else table[key]
  }

  function FindExpired(table: Alerts.Table, now: int): set<string> {
    set key | key in table && Alerts.Expired(table[key], now)
  }

  /** The update goes by the ids found before, whatever their status is now. */
  function Reopened(table: Alerts.Table, expired: set<string>): Alerts.Table {
    map key | key in table ::
      if key in expired then table[key].(status := Alerts.Open, snoozedUntil := None, acknowledgedAt := None)
      else table[key]
  }

  /** One database call of a pass. */
  function StepPass(table: Alerts.Table, pass: Pass, now: int): (Alerts.Table, Pass) {
    var n := |pass.candidates|;
    match pass.phase
    case Looking(k) =>
      if k < n then
        var live := Alerts.IsLive(table, pass.candidates[k].key);
        (table, pass.(phase := if live then Refreshing(k) else LookingAgain(k)))
      else if pass.resolveMissing then (table, pass.(phase := Resolving(FindStale(table, pass))))
      else (table, pass.(phase := Done))
    case Refreshing(k) => if k < n then (Refresh(table, pass.candidates[k], now), pass.(phase := Looking(k + 1)))
      else (table, pass)
    case LookingAgain(k) =>
      if k < n then
        var key := pass.candidates[k].key;
        (table, pass.(phase := Upserting(k, key in table && table[key].status.Resolved?)))
      else (table, pass)
    case Upserting(k, reopen) =>
      if k < n then (Upsert(table, pass.candidates[k], reopen, now), pass.(phase := Looking(k + 1))) else (table, pass)
    case Resolving(stale) => (ResolveFound(table, stale, now), pass.(phase := Done))
    case Done => (table, pass)
  }

  function Step(st: State, e: Event): State {
    match e
    case Begin(source, candidates, scope, resolveMissing) =>
      st.(passes := st.passes + [Pass(source, candidates, scope, resolveMissing, Looking(0))])
    case Advance(p, now) =>
      if p >= |st.passes| then st
      else
        var (table, pass) := StepPass(st.table, st.passes[p], now);
        st.(table := table, passes := st.passes[p := pass])
    case LookForExpired(now) => st.(expiries := st.expiries + [FindExpired(st.table, now)])
    case ReopenFound(look) =>
      if look >= |st.expiries| then st
      else st.(table := Reopened(st.table, st.expiries[look]), expiries := st.expiries[look := {}])
    case User(op) => if IsDecision(op) then st.(table := Alerts.Step(st.table, op)) else st
  }

  function Run(st: State, events: seq<Event>): State {
    if |events| == 0 then st else Step(Run(st, events[..|events| - 1]), events[|events| - 1])
  }

  // ---- no pass resolves a condition that it reports

  /** The pass reports the key, does not resolve, or belongs to another source. */
  predicate Spares(pass: Pass, key: string, owner: string -> string) {
    owner(key) != pass.source || Alerts.HasKey(pass.candidates, key) || !pass.resolveMissing
  }

  /** What a pass has found to be stale belongs to its source and was not reported to it. */
  ghost predicate PassOk(pass: Pass, owner: string -> string) {
    && Alerts.OwnedBy(pass.candidates, pass.source, owner)
    && (pass.phase.Resolving? ==> pass.resolveMissing && forall key :: key in pass.phase.stale ==>
          owner(key) == pass.source && !Alerts.HasKey(pass.candidates, key))
  }

  ghost predicate Ok(st: State, owner: string -> string) {
    Alerts.Owned(st.table, owner) && forall p :: 0 <= p < |st.passes| ==> PassOk(st.passes[p], owner)
  }

  ghost predicate AllSpare(st: State, key: string, owner: string -> string) {
    forall p :: 0 <= p < |st.passes| ==> Spares(st.passes[p], key, owner)
  }

  /** The event begins no pass that could resolve the key, keys keep their owners, and no user resolves it. */
  ghost predicate Harmless(e: Event, key: string, owner: string -> string) {
    match e
    case Begin(source, candidates, scope, resolveMissing) =>
      Alerts.OwnedBy(candidates, source, owner) &&
        Spares(Pass(source, candidates, scope, resolveMissing, Looking(0)), key, owner)
    case User(op) => !(op.Resolve? && op.key == key)
    case _ => true
  }

  lemma PassStepKeeps(table: Alerts.Table, pass: Pass, now: int, key: string, owner: string -> string)
    requires Alerts.Owned(table, owner) && PassOk(pass, owner) && Spares(pass, key, owner)
    ensures var (after, next) := StepPass(table, pass, now);
      && Alerts.Owned(after, owner) && PassOk(next, owner) && Spares(next, key, owner)
      && (Alerts.IsLive(table, key) ==> Alerts.IsLive(after, key))
  {
    hide Alerts.HasKey;
  }

  lemma StepKeeps(st: State, e: Event, key: string, owner: string -> string)
    requires Ok(st, owner) && AllSpare(st, key, owner) && Harmless(e, key, owner)
    ensures Ok(Step(st, e), owner) && AllSpare(Step(st, e), key, owner)
    ensures Alerts.IsLive(st.table, key) ==> Alerts.IsLive(Step(st, e).table, key)
  {
    hide StepPass, PassOk, Spares;
    match e
    case Begin(source, candidates, scope, resolveMissing) => FreshPassOk(source, candidates, scope, resolveMissing,
      owner);
    case Advance(p, now) =>
      if p < |st.passes| {
        PassStepKeeps(st.table, st.passes[p], now, key, owner);
      }
    case LookForExpired(now) =>
    case ReopenFound(look) =>
    case User(op) =>
  }

  lemma FreshPassOk(source: string, candidates: seq<Alerts.Candidate>, scope: Option<string>, resolveMissing: bool,
      owner: string -> string)
    requires Alerts.OwnedBy(candidates, source, owner)
    ensures PassOk(Pass(source, candidates, scope, resolveMissing, Looking(0)), owner)
  {
  }

  /**
   * However passes, user decisions and expiry steps interleave and wherever a pass stops: an alert stays live
   * as long as every pass of its source reports it or leaves missing ones alone, and no user resolves it.
   */
  lemma {:induction false} ReportedSurvives(st: State, events: seq<Event>, key: string, owner: string -> string)
    requires Ok(st, owner) && AllSpare(st, key, owner) && Alerts.IsLive(st.table, key)
    requires forall i :: 0 <= i < |events| ==> Harmless(events[i], key, owner)
    ensures var after := Run(st, events);
      Ok(after, owner) && AllSpare(after, key, owner) && Alerts.IsLive(after.table, key)
  {
    hide Step, Ok, AllSpare, Harmless;
    if |events| > 0 {
      var n := |events| - 1;
      ReportedSurvives(st, events[..n], key, owner);
      StepKeeps(Run(st, events[..n]), events[n], key, owner);
    }
  }

  // ---- what each call writes, field by field

  /** An upsert that finds the alert in the table writes it over; whether it reopens was decided before. */
  ghost predicate IsWrittenOver(before: Alerts.Alert, alert: Alerts.Alert, c: Alerts.Candidate, reopen: bool,
      now: int) {
    && alert.source == c.source && alert.site == c.site && alert.entity == c.entity
    && alert.severity == c.severity && alert.text == c.text
    && alert.occurrenceCount == before.occurrenceCount + 1
    && alert.firstOccurredAt == before.firstOccurredAt && alert.lastOccurredAt == now
    && (if reopen then
          alert.status == Alerts.Open && alert.acknowledgedAt == None && alert.snoozedUntil == None &&
          alert.resolvedAt == None
        else
          alert.status == before.status && alert.acknowledgedAt == before.acknowledgedAt &&
          alert.snoozedUntil == before.snoozedUntil && alert.resolvedAt == before.resolvedAt)
  }

  /** What one call leaves of the alert of a key: only the writing calls change one, and only that of their key. */
  lemma CallWrites(table: Alerts.Table, pass: Pass, now: int, key: string)
    ensures var after := StepPass(table, pass, now).0;
      match pass.phase
      case Refreshing(k) =>
        if k < |pass.candidates| && pass.candidates[k].key == key && key in table then
          key in after && Alerts.IsRefreshed(table[key], after[key], now) &&
          after[key].severity == pass.candidates[k].severity && after[key].text == pass.candidates[k].text
        else (key in after <==> key in table) && (key in table ==> after[key] == table[key])
      case Upserting(k, reopen) =>
        if k < |pass.candidates| && pass.candidates[k].key == key then
          key in after && after[key].severity == pass.candidates[k].severity &&
          after[key].text == pass.candidates[k].text &&
          if key in table then IsWrittenOver(table[key], after[key], pass.candidates[k], reopen, now)
          else Alerts.IsOpened(after[key], pass.candidates[k], now)
        else (key in after <==> key in table) && (key in table ==> after[key] == table[key])
      case Resolving(stale) =>
        && (key in after <==> key in table)
        && (key in table ==>
              if key in stale then Alerts.IsAutoResolved(table[key], after[key], now) else after[key] == table[key])
      case _ => after == table
  {
  }

  /** The order of the calls: look, then refresh a live alert or look again and upsert; then the stale ones. */
  lemma CallOrder(table: Alerts.Table, pass: Pass, now: int)
    ensures var next, n := StepPass(table, pass, now).1, |pass.candidates|;
      && next == pass.(phase := next.phase)
      && match pass.phase
         case Looking(k) =>
           if k < n then
             var key := pass.candidates[k].key;
             var live := key in table && table[key].status != Alerts.Resolved;
             next.phase == if live then Refreshing(k) else LookingAgain(k)
           else if !pass.resolveMissing then next.phase == Done
           else
             && next.phase.Resolving?
             && forall key :: key in next.phase.stale <==>
                  && key in table && table[key].status != Alerts.Resolved && table[key].source == pass.source
                  && (pass.scope == None || table[key].site == pass.scope)
                  && forall c :: c in pass.candidates ==> c.key != key
         case LookingAgain(k) =>
           k < n ==>
             var key := pass.candidates[k].key;
             next.phase == Upserting(k, key in table && table[key].status == Alerts.Resolved)
         case Refreshing(k) => k < n ==> next.phase == Looking(k + 1)
         case Upserting(k, _) => k < n ==> next.phase == Looking(k + 1)
         case _ => next.phase == Done
  {
  }

  /** The two calls of an expiry step: what the first finds, and that the second writes exactly that, once. */
  lemma ExpiryCalls(st: State, look: nat, now: int, key: string)
    ensures var next := Step(st, LookForExpired(now));
      && next.table == st.table && next.passes == st.passes && |next.expiries| == |st.expiries| + 1
      && (forall i :: 0 <= i < |st.expiries| ==> next.expiries[i] == st.expiries[i])
      && (key in next.expiries[|st.expiries|] <==>
            && key in st.table && st.table[key].status == Alerts.Snoozed
            && st.table[key].snoozedUntil.Some? && st.table[key].snoozedUntil.value <= now)
    ensures look < |st.expiries| ==>
      var next := Step(st, ReopenFound(look));
      && next.passes == st.passes && |next.expiries| == |st.expiries| && next.expiries[look] == {}
      && (forall i :: 0 <= i < |st.expiries| && i != look ==> next.expiries[i] == st.expiries[i])
      && (key in next.table <==> key in st.table)
      && (key in st.table && key !in st.expiries[look] ==> next.table[key] == st.table[key])
      && (key in st.table && key in st.expiries[look] ==>
            next.table[key] == st.table[key].(status := Alerts.Open, snoozedUntil := None, acknowledgedAt := None))
  {
  }

  // ---- user decisions between the calls

  /** The next call of the pass writes the alert of the key with what an earlier call had looked up. */
  predicate Overwrites(pass: Pass, key: string) {
    match pass.phase
    case Upserting(k, _) => k < |pass.candidates| && pass.candidates[k].key == key
    case Resolving(stale) => key in stale
    case _ => false
  }

  /** The pass has looked the key up, saw no live alert or found it to be stale, and has yet to write. */
  predicate HasLooked(pass: Pass, key: string) {
    || Overwrites(pass, key)
    || (pass.phase.LookingAgain? && pass.phase.k < |pass.candidates| && pass.candidates[pass.phase.k].key == key)
  }

  /** What becomes of a decision if a call overwrites it: the alert is open or resolved, or counts one more. */
  predicate Overwritten(before: Alerts.Alert, after: Alerts.Alert) {
    after.status.Open? || after.status.Resolved? || after.occurrenceCount > before.occurrenceCount
  }

  /**
   * One call keeps decision, dates, count, source and site exactly if it does not overwrite them; an upsert that is to
   * reopen, or a resolution, loses the decision itself, and any upsert counts an occurrence.
   */
  lemma CallKeepsDecisionIff(table: Alerts.Table, pass: Pass, now: int, key: string)
    requires key in table && Alerts.IsDecided(table[key])
    ensures var after := StepPass(table, pass, now).0;
      && key in after && (Alerts.SameDecision(table[key], after[key]) <==> !Overwrites(pass, key))
      && (Overwrites(pass, key) ==> Overwritten(table[key], after[key]))
      && (after[key].status != table[key].status <==>
            Overwrites(pass, key) && (pass.phase.Resolving? || pass.phase.reopen))
      && (after[key].occurrenceCount != table[key].occurrenceCount <==> Overwrites(pass, key) && pass.phase.Upserting?)
  {
    hide Alerts.HasKey;
  }

  /** Once overwritten, no call of any pass restores the decision. */
  lemma CallKeepsOverwritten(table: Alerts.Table, pass: Pass, now: int, key: string, decided: Alerts.Alert)
    requires key in table && Overwritten(decided, table[key])
    ensures var after := StepPass(table, pass, now).0;
      key in after && Overwritten(decided, after[key])
  {
    hide Alerts.HasKey;
  }

  /** Passes of the alert's source and site report the key or leave missing ones alone. */
  predicate Reports(pass: Pass, key: string, alert: Alerts.Alert) {
    || Alerts.HasKey(pass.candidates, key) || !pass.resolveMissing
    || pass.source != alert.source || (pass.scope.Some? && alert.site != pass.scope)
  }

  /** While the alert is live, a reporting pass does not come to a look that it could overwrite it with later. */
  lemma NoNewLook(table: Alerts.Table, pass: Pass, now: int, key: string)
    requires Alerts.IsLive(table, key) && Reports(pass, key, table[key])
    ensures HasLooked(StepPass(table, pass, now).1, key) ==> HasLooked(pass, key)
  {
    hide Alerts.HasKey;
  }

  /** The event is not a user's decision on the key, nor the end of its snooze, nor a pass that misses the key. */
  predicate Spared(e: Event, key: string, alert: Alerts.Alert) {
    match e
    case Begin(source, candidates, scope, resolveMissing) =>
      Reports(Pass(source, candidates, scope, resolveMissing, Looking(0)), key, alert)
    case LookForExpired(now) => !Alerts.Expired(alert, now)
    case User(op) => IsDecision(op) ==> Alerts.Spares(op, key, alert)
    case _ => true
  }

  /** The event is the overwriting call of a pass, or of an expiry step, that had already looked in state `st`. */
  predicate LateCall(st: State, before: State, e: Event, key: string) {
    match e
    case Advance(p, _) =>
      p < |st.passes| && HasLooked(st.passes[p], key) && p < |before.passes| && Overwrites(before.passes[p], key)
    case ReopenFound(look) =>
      look < |st.expiries| && key in st.expiries[look] && look < |before.expiries| && key in before.expiries[look]
    case _ => false
  }

  /** All passes report the key, and whatever has looked for it had done so in state `st`. */
  ghost predicate OnlyOldLooks(st: State, now: State, key: string) {
    && (forall p :: 0 <= p < |now.passes| ==>
          && (key in st.table ==> Reports(now.passes[p], key, st.table[key]))
          && (HasLooked(now.passes[p], key) ==> p < |st.passes| && HasLooked(st.passes[p], key)))
    && (forall q :: 0 <= q < |now.expiries| && key in now.expiries[q] ==>
          q < |st.expiries| && key in st.expiries[q])
  }

  /** The decision of state `st` is intact, or it has been overwritten. */
  ghost predicate Intact(st: State, now: State, key: string) {
    key in st.table && key in now.table && Alerts.SameDecision(st.table[key], now.table[key])
  }

  ghost predicate Lost(st: State, now: State, key: string) {
    key in st.table && key in now.table && Overwritten(st.table[key], now.table[key])
  }

  lemma PassReportsOn(table: Alerts.Table, pass: Pass, now: int, key: string, alert: Alerts.Alert)
    requires Reports(pass, key, alert)
    ensures Reports(StepPass(table, pass, now).1, key, alert)
  {
    hide Alerts.HasKey;
  }

  lemma SparedStep(st: State, before: State, e: Event, key: string)
    requires key in st.table && Alerts.IsDecided(st.table[key]) && Spared(e, key, st.table[key])
    requires Intact(st, before, key) && OnlyOldLooks(st, before, key)
    ensures LateCall(st, before, e, key) ==> Lost(st, Step(before, e), key)
    ensures !LateCall(st, before, e, key) ==> Intact(st, Step(before, e), key) && OnlyOldLooks(st, Step(before, e), key)
  {
    hide StepPass, Reports, HasLooked, Overwrites;
    match e
    case Begin(source, candidates, scope, resolveMissing) =>
      FreshHasNotLooked(source, candidates, scope, resolveMissing, key);
    case Advance(p, now) =>
      if p < |before.passes| {
        CallKeepsDecisionIff(before.table, before.passes[p], now, key);
        OverwritingHasLooked(before.passes[p], key);
        SameReports(before.passes[p], key, st.table[key], before.table[key]);
        NoNewLook(before.table, before.passes[p], now, key);
        PassReportsOn(before.table, before.passes[p], now, key, st.table[key]);
      }
    case LookForExpired(now) =>
    case ReopenFound(look) =>
    case User(op) =>
      if IsDecision(op) {
        Alerts.StepKeepsDecisionIff(before.table, op, key);
      }
  }

  lemma FreshHasNotLooked(source: string, candidates: seq<Alerts.Candidate>, scope: Option<string>,
      resolveMissing: bool, key: string)
    ensures !HasLooked(Pass(source, candidates, scope, resolveMissing, Looking(0)), key)
  {
  }

  lemma OverwritingHasLooked(pass: Pass, key: string)
    ensures Overwrites(pass, key) ==> HasLooked(pass, key)
  {
  }

  lemma SameReports(pass: Pass, key: string, alert: Alerts.Alert, later: Alerts.Alert)
    requires Alerts.SameDecision(alert, later) && Reports(pass, key, alert)
    ensures Reports(pass, key, later)
  {
  }

  lemma LostStays(st: State, before: State, e: Event, key: string)
    requires key in st.table && Spared(e, key, st.table[key]) && Lost(st, before, key)
    ensures Lost(st, Step(before, e), key)
  {
    hide StepPass, Reports;
    match e
    case Begin(_, _, _, _) =>
    case Advance(p, now) =>
      if p < |before.passes| {
        CallKeepsOverwritten(before.table, before.passes[p], now, key, st.table[key]);
      }
    case LookForExpired(now) =>
    case ReopenFound(look) =>
    case User(op) =>
  }

  /** Some pass or expiry step that had looked before the decision made its overwriting call during the run. */
  ghost predicate CalledLate(st: State, events: seq<Event>, key: string) {
    exists i :: 0 <= i < |events| && LateCall(st, Run(st, events[..i]), events[i], key)
  }

  lemma CalledLateMore(st: State, events: seq<Event>, key: string)
    requires |events| > 0
    ensures var n := |events| - 1;
      CalledLate(st, events, key) <==>
        CalledLate(st, events[..n], key) || LateCall(st, Run(st, events[..n]), events[n], key)
  {
    hide Run, LateCall;
    var n := |events| - 1;
    assert forall i :: 0 <= i < n ==> events[..n][..i] == events[..i];
    if CalledLate(st, events[..n], key) {
      var i :| 0 <= i < n && LateCall(st, Run(st, events[..n][..i]), events[..n][i], key);
      assert LateCall(st, Run(st, events[..i]), events[i], key);
    }
    if CalledLate(st, events, key) && !LateCall(st, Run(st, events[..n]), events[n], key) {
      var i :| 0 <= i < |events| && LateCall(st, Run(st, events[..i]), events[i], key);
      assert LateCall(st, Run(st, events[..n][..i]), events[..n][i], key);
    }
  }

  lemma {:induction false} IntactOrLost(st: State, events: seq<Event>, key: string)
    requires key in st.table && Alerts.IsDecided(st.table[key]) && OnlyOldLooks(st, st, key)
    requires forall i :: 0 <= i < |events| ==> Spared(events[i], key, st.table[key])
    ensures CalledLate(st, events, key) ==> Lost(st, Run(st, events), key)
    ensures !CalledLate(st, events, key) ==>
      Intact(st, Run(st, events), key) && OnlyOldLooks(st, Run(st, events), key)
  {
    hide Step, LateCall, CalledLate, OnlyOldLooks, Spared, Lost;
    if |events| > 0 {
      var n := |events| - 1;
      IntactOrLost(st, events[..n], key);
      CalledLateMore(st, events, key);
      if CalledLate(st, events[..n], key) {
        LostStays(st, Run(st, events[..n]), events[n], key);
      } else {
        SparedStep(st, Run(st, events[..n]), events[n], key);
      }
    } else {
      NothingCalled(st, key);
    }
  }

  lemma NothingCalled(st: State, key: string)
    ensures !CalledLate(st, [], key)
  {
  }

  /**
   * Over every interleaving in which the passes of its source and site report an acknowledged or snoozed alert, its
   * snooze lasts and users decide on other keys: decision, dates and count survive exactly if no pass that had looked
   * before and had not seen the alert live, or had found it stale, and no expiry step that had found its earlier
   * snooze expired, makes its write afterwards.
   */
  lemma DecisionSurvivesIff(st: State, events: seq<Event>, key: string)
    requires key in st.table && Alerts.IsDecided(st.table[key])
    requires forall p :: 0 <= p < |st.passes| ==> Reports(st.passes[p], key, st.table[key])
    requires forall i :: 0 <= i < |events| ==> Spared(events[i], key, st.table[key])
    ensures Intact(st, Run(st, events), key) <==> !CalledLate(st, events, key)
  {
    hide Run, CalledLate, HasLooked, Reports, Spared;
    IntactOrLost(st, events, key);
  }

  /** With no such pass or expiry step at the moment of the decision, it survives whatever follows. */
  lemma UnwatchedDecisionSurvives(st: State, events: seq<Event>, key: string)
    requires key in st.table && Alerts.IsDecided(st.table[key])
    requires forall p :: 0 <= p < |st.passes| ==> Reports(st.passes[p], key, st.table[key])
    requires forall i :: 0 <= i < |events| ==> Spared(events[i], key, st.table[key])
    requires forall p :: 0 <= p < |st.passes| ==> !HasLooked(st.passes[p], key)
    requires forall q :: 0 <= q < |st.expiries| ==> key !in st.expiries[q]
    ensures Intact(st, Run(st, events), key)
  {
    hide Run, HasLooked, Reports, Spared, Intact, Overwrites;
    DecisionSurvivesIff(st, events, key);
  }

  const RESOLVED: Alerts.Alert := Alerts.Alert(
    "SNMP_POLL", "WARNING", None, "", "", Alerts.Resolved, 1, 0, 0, None, None, Some(1))

  const FOUND: Alerts.Candidate := Alerts.Candidate("k", "SNMP_POLL", "WARNING", None, "", "")

  /** A pass reports the resolved alert again; a user acknowledges it between the upsert's look and its write. */
  const CROSSED: seq<Event> := [
    Begin("SNMP_POLL", [FOUND], None, true), Advance(0, 2), Advance(0, 3), User(Alerts.Acknowledge("k", 4)),
    Advance(0, 5)]

  lemma NextState(st: State, events: seq<Event>, n: nat)
    requires n < |events|
    ensures Run(st, events[..n + 1]) == Step(Run(st, events[..n]), events[n])
  {
    assert events[..n + 1][..n] == events[..n];
  }

  /** The late upsert opens an acknowledged alert again. */
  lemma LateUpsertReopens()
    ensures var st := State(map["k" := RESOLVED], [], []);
      var decided, after := Run(st, CROSSED[..4]), Run(st, CROSSED);
      && "k" in decided.table && decided.table["k"].status == Alerts.Acknowledged
      && LateCall(decided, decided, CROSSED[4], "k")
      && "k" in after.table && after.table["k"].status == Alerts.Open && after.table["k"].occurrenceCount == 2
  {
    hide Run;
    var st := State(map["k" := RESOLVED], [], []);
    assert Run(st, CROSSED[..0]) == st by {
      NothingRun(st, CROSSED);
    }
    NextState(st, CROSSED, 0);
    NextState(st, CROSSED, 1);
    NextState(st, CROSSED, 2);
    NextState(st, CROSSED, 3);
    NextState(st, CROSSED, 4);
    assert CROSSED[..5] == CROSSED;
  }

  lemma NothingRun(st: State, events: seq<Event>)
    ensures Run(st, events[..0]) == st
  {
  }

  // ---- the passes of the reconciler

  /** The pass that a tick begins for one of its sources. */
  function TickBegins(source: Reconciler.Source, cond: Reconciler.Conditions): Event {
    Begin(Reconciler.Name(source), Reconciler.Given(source, cond), None, Reconciler.Complete(source, cond))
  }

  lemma TickIsHarmless(pass: Reconciler.Source, cond: Reconciler.Conditions, source: Reconciler.Source, key: string)
    requires Reconciler.Matches(source, cond, key)
    ensures Harmless(TickBegins(pass, cond), key, Reconciler.Owner)
  {
    hide Reconciler.Given, Reconciler.Complete, Reconciler.Owner, Reconciler.Matches, Alerts.HasKey;
    Reconciler.GivenOwned(pass, cond);
    Reconciler.MatchOwned(source, cond, key);
    if pass == source && Reconciler.Complete(source, cond) {
      Reconciler.CompleteMeansAll(source, cond, key);
    }
  }

  /**
   * What may happen while the condition lasts: ticks whose queries match it, quality passes, expiry, other decisions.
   */
  ghost predicate WhileMatching(e: Event, source: Reconciler.Source, key: string) {
    match e
    case Begin(_, _, _, _) =>
      || (exists pass, cond :: e == TickBegins(pass, cond) && Reconciler.Matches(source, cond, key))
      || (exists found, scope :: e == Begin(Findings.QUALITY, Findings.AlertsOf(found), scope, true))
    case User(op) => !(op.Resolve? && op.key == key)
    case _ => true
  }

  lemma QualityIsHarmless(found: seq<Findings.Candidate>, scope: Option<string>, source: Reconciler.Source, key: string)
    requires Reconciler.Owner(key) == Reconciler.Name(source)
    ensures Harmless(Begin(Findings.QUALITY, Findings.AlertsOf(found), scope, true), key, Reconciler.Owner)
  {
    hide Reconciler.Owner, Alerts.HasKey;
    var alerts := Findings.AlertsOf(found);
    forall a | a in alerts
      ensures a.source == Findings.QUALITY && Reconciler.Owner(a.key) == Findings.QUALITY
    {
      var c :| c in found && Findings.Alerting(c) && a == Findings.AlertOf(c);
      Reconciler.PrefixOwner(c.key);
    }
  }

  /**
   * While a condition keeps matching its query, its alert is not resolved by any reconciliation, for any number
   * of records, any number of ticks and quality passes at once, and any point at which one of them breaks off.
   */
  lemma NoFalseResolution(table: Alerts.Table, events: seq<Event>, source: Reconciler.Source, key: string)
    requires Alerts.Owned(table, Reconciler.Owner) && Alerts.IsLive(table, key)
    requires Reconciler.Owner(key) == Reconciler.Name(source)
    requires forall i :: 0 <= i < |events| ==> WhileMatching(events[i], source, key)
    ensures Alerts.IsLive(Run(State(table, [], []), events).table, key)
  {
    hide Run, WhileMatching, Harmless, Reconciler.Owner;
    forall i | 0 <= i < |events|
      ensures Harmless(events[i], key, Reconciler.Owner)
    {
      MatchingIsHarmless(events[i], source, key);
    }
    ReportedSurvives(State(table, [], []), events, key, Reconciler.Owner);
  }

  lemma MatchingIsHarmless(e: Event, source: Reconciler.Source, key: string)
    requires Reconciler.Owner(key) == Reconciler.Name(source) && WhileMatching(e, source, key)
    ensures Harmless(e, key, Reconciler.Owner)
  {
    hide Reconciler.Owner, TickBegins, Spares;
    if e.Begin? {
      if pass, cond :| e == TickBegins(pass, cond) && Reconciler.Matches(source, cond, key) {
        TickIsHarmless(pass, cond, source, key);
      } else {
        var found, scope :| e == Begin(Findings.QUALITY, Findings.AlertsOf(found), scope, true);
        QualityIsHarmless(found, scope, source, key);
      }
    }
  }

  /** The condition lasts, the snooze lasts and users decide on other keys. */
  ghost predicate WhileDecided(e: Event, source: Reconciler.Source, key: string, alert: Alerts.Alert) {
    && WhileMatching(e, source, key)
    && (e.LookForExpired? ==> !Alerts.Expired(alert, e.now))
    && (e.User? && IsDecision(e.op) ==> Alerts.Spares(e.op, key, alert))
  }

  lemma MatchingIsSpared(e: Event, source: Reconciler.Source, key: string, alert: Alerts.Alert)
    requires alert.source == Reconciler.Name(source) && WhileDecided(e, source, key, alert)
    ensures Spared(e, key, alert)
  {
    hide Reconciler.Owner, Reconciler.Given, Reconciler.Complete, Reconciler.Matches, Alerts.HasKey;
    if e.Begin? {
      if pass, cond :| e == TickBegins(pass, cond) && Reconciler.Matches(source, cond, key) {
        if pass == source && Reconciler.Complete(source, cond) {
          Reconciler.CompleteMeansAll(source, cond, key);
        }
      } else {
        var found, scope :| e == Begin(Findings.QUALITY, Findings.AlertsOf(found), scope, true);
      }
    }
  }

  /**
   * However many ticks and quality passes run at once from here on, call by call: an acknowledged or snoozed alert of
   * the reconciler keeps decision, dates and count while its condition lasts.
   */
  lemma MatchingDecisionSurvives(table: Alerts.Table, events: seq<Event>, source: Reconciler.Source, key: string)
    requires key in table && Alerts.IsDecided(table[key]) && table[key].source == Reconciler.Name(source)
    requires forall i :: 0 <= i < |events| ==> WhileDecided(events[i], source, key, table[key])
    ensures Intact(State(table, [], []), Run(State(table, [], []), events), key)
  {
    hide Run, WhileDecided, Spared, Reconciler.Name, Intact;
    forall i | 0 <= i < |events|
      ensures Spared(events[i], key, table[key])
    {
      MatchingIsSpared(events[i], source, key, table[key]);
    }
    UnwatchedDecisionSurvives(State(table, [], []), events, key);
  }

  // ---- undisturbed, the calls add up to the whole pass

  /** The first m calls of a pass with nothing in between. */
  function Alone(table: Alerts.Table, pass: Pass, now: int, m: nat): (Alerts.Table, Pass) {
    if m == 0 then (table, pass)
    else
      var (before, phase) := Alone(table, pass, now, m - 1);
      StepPass(before, phase, now)
  }

  lemma WriteAlone(table: Alerts.Table, pass: Pass, now: int, k: nat)
    requires k < |pass.candidates| && pass.phase == Looking(k)
    ensures var written := (table[pass.candidates[k].key := Alerts.Reported(table, pass.candidates[k], now)],
      pass.(phase := Looking(k + 1)));
      var (one, looked) := StepPass(table, pass, now);
      var (two, next) := StepPass(one, looked, now);
      if Alerts.IsLive(table, pass.candidates[k].key) then (two, next) == written
      else StepPass(two, next, now) == written
  {
  }

  /** Some number of calls later the first k candidates have been reported. */
  lemma {:induction false} ReportsAlone(table: Alerts.Table, pass: Pass, now: int, k: nat) returns (m: nat)
    requires k <= |pass.candidates| && pass.phase == Looking(0)
    ensures Alone(table, pass, now, m) ==
      (Alerts.ReportAll(table, pass.candidates[..k], now), pass.(phase := Looking(k)))
  {
    hide StepPass;
    if k == 0 {
      m := 0;
    } else {
      m := ReportsAlone(table, pass, now, k - 1);
      assert pass.candidates[..k][..k - 1] == pass.candidates[..k - 1];
      var (before, phase) := Alone(table, pass, now, m);
      WriteAlone(before, phase, now, k - 1);
      var (one, next) := StepPass(before, phase, now);
      assert Alone(table, pass, now, m + 1) == (one, next);
      assert Alone(table, pass, now, m + 2) == StepPass(one, next, now);
      if Alerts.IsLive(before, pass.candidates[k - 1].key) {
        m := m + 2;
      } else {
        m := m + 3;
      }
    }
  }

  lemma ResolvesAlone(table: Alerts.Table, pass: Pass, now: int)
    requires pass.phase == Looking(|pass.candidates|)
    ensures var (one, next) := StepPass(table, pass, now);
      var whole := if pass.resolveMissing then Alerts.ResolveStale(table, pass.source, pass.candidates, pass.scope, now)
        else table;
      (if pass.resolveMissing then StepPass(one, next, now) else (one, next)) == (whole, pass.(phase := Done))
  {
    hide Alerts.IsStale;
    FoundIsStale(table, pass, now);
  }

  lemma FoundIsStale(table: Alerts.Table, pass: Pass, now: int)
    ensures ResolveFound(table, FindStale(table, pass), now) ==
      Alerts.ResolveStale(table, pass.source, pass.candidates, pass.scope, now)
  {
    hide Alerts.IsStale;
    var found, whole := ResolveFound(table, FindStale(table, pass), now),
      Alerts.ResolveStale(table, pass.source, pass.candidates, pass.scope, now);
    assert found.Keys == whole.Keys;
    assert forall key :: key in found ==> found[key] == whole[key];
  }

  /** Without interference the two calls of an expiry step add up to the one-step reopening. */
  lemma UndisturbedExpiry(table: Alerts.Table, now: int)
    ensures Reopened(table, FindExpired(table, now)) == Alerts.SnoozesReopened(table, now)
  {
    hide Alerts.Expired;
    var found, whole := Reopened(table, FindExpired(table, now)), Alerts.SnoozesReopened(table, now);
    assert found.Keys == whole.Keys;
    assert forall key :: key in found ==> found[key] == whole[key];
  }

  /** Without interference the calls of a pass add up to the one-step pass that the exactness results are about. */
  lemma UndisturbedPass(table: Alerts.Table, pass: Pass, now: int) returns (m: nat)
    requires pass.phase == Looking(0)
    ensures Alone(table, pass, now, m) ==
      (Alerts.Reconciled(table, pass.source, pass.candidates, pass.scope, pass.resolveMissing, now),
        pass.(phase := Done))
  {
    hide StepPass, Alerts.ReportAll, Alerts.ResolveStale;
    var k := ReportsAlone(table, pass, now, |pass.candidates|);
    assert pass.candidates[..|pass.candidates|] == pass.candidates;
    var (reported, looked) := Alone(table, pass, now, k);
    ResolvesAlone(reported, looked, now);
    var (one, next) := StepPass(reported, looked, now);
    assert Alone(table, pass, now, k + 1) == (one, next);
    assert Alone(table, pass, now, k + 2) == StepPass(one, next, now);
    assert looked.(phase := Done) == pass.(phase := Done);
    m := if pass.resolveMissing then k + 2 else k + 1;
  }
}
