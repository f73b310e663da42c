/**
 * Role requests: administrators claim, grant and finalize in separate steps that interleave and may break off anywhere.
 */
module RoleRequests {

  datatype Status = Pending | Processing | Approved | Rejected {
    predicate Terminal() {
      Approved? || Rejected?
    }
  }

  datatype Decision = Approve | Reject

  datatype Request = Request(user: string, roles: set<string>, status: Status)

  datatype Notification = Notification(request: nat, user: string, status: Status)

  /** Where one `decide` call stands. */
  datatype Point =
    | Claiming
    | Reading(claimed: bool)
    | Granting(claimed: bool)
    | Finalizing(claimed: bool)
    | Finished(claimed: bool, ok: bool)

  /** One `decide` call and what it has read; a crashed call simply takes no further step. */
  datatype Call = Call(request: nat, decision: Decision, point: Point)

  datatype State = State(
    requests: seq<Request>, notifications: seq<Notification>, granted: map<string, set<string>>, calls: seq<Call>)

  const SELF_REQUEST_ROLES: set<string> := {"NETWORK_OPERATOR", "SYSTEMS_OPERATOR", "AUDITOR"}

  datatype Event =
    | Submit(user: string, roles: set<string>, alreadyHeld: bool)
    | Begin(request: nat, decision: Decision)
    | Claim(call: nat)
    | Read(call: nat)
    | Grant(call: nat)
    | GrantFails(call: nat, partly: set<string>)
    | Finalize(call: nat)

  function Held(st: State, user: string): set<string> {
    if user in st.granted then st.granted[user] else {}
  }

  predicate Active(r: Request) {
    !r.status.Terminal()
  }

  /** The partial unique index: one open request a user. */
  predicate HasActive(st: State, user: string) {
    exists i :: 0 <= i < |st.requests| && st.requests[i].user == user && Active(st.requests[i])
  }

  predicate At(st: State, call: nat) {
    call < |st.calls|
  }

  function Moved(st: State, call: nat, point: Point): seq<Call>
    requires At(st, call)
  {
    st.calls[call := st.calls[call].(point := point)]
  }

  function WithStatus(st: State, id: nat, status: Status): seq<Request>
    requires id < |st.requests|
  {
    st.requests[id := st.requests[id].(status := status)]
  }

  function DoSubmit(st: State, user: string, roles: set<string>, alreadyHeld: bool): State {
    if roles == {} || !(roles <= SELF_REQUEST_ROLES) || alreadyHeld || HasActive(st, user) then st
    else st.(requests := st.requests + [Request(user, roles, Pending)])
  }

  /** `updateMany` with `status: PENDING`: at most one call finds the request pending. */
  function DoClaim(st: State, call: nat): State
    requires At(st, call)
  {
    var id := st.calls[call].request;
    if id < |st.requests| && st.requests[id].status.Pending? then
      st.(requests := WithStatus(st, id, Processing), calls := Moved(st, call, Reading(true)))
    else st.(calls := Moved(st, call, Reading(false)))
  }

  /** The request is read after the claim; an approval may go on with a request that another call is processing. */
  function DoRead(st: State, call: nat): State
    requires At(st, call) && st.calls[call].point.Reading?
  {
    var c := st.calls[call];
    var claimed := c.point.claimed;
    if c.request >= |st.requests| ||
      (!claimed && !(c.decision.Approve? && st.requests[c.request].status.Processing?)) then
      st.(calls := Moved(st, call, Finished(claimed, false)))
    else if c.decision.Reject? then st.(calls := Moved(st, call, Finalizing(claimed)))
    else st.(calls := Moved(st, call, Granting(claimed)))
  }

  function DoGrant(st: State, call: nat, roles: set<string>, point: Point): State
    requires At(st, call) && st.calls[call].request < |st.requests|
  {
    var user := st.requests[st.calls[call].request].user;
    st.(granted := st.granted[user := Held(st, user) + roles], calls := Moved(st, call, point))
  }

  function Verdict(decision: Decision): Status {
    if decision.Approve? then Approved else Rejected
  }

  /** One transaction: the status changes only from PROCESSING, and the notification is written with it. */
  function DoFinalize(st: State, call: nat): State
    requires At(st, call) && st.calls[call].point.Finalizing? && st.calls[call].request < |st.requests|
  {
    var c := st.calls[call];
    var request := st.requests[c.request];
    if request.status.Processing? then
      var status := Verdict(c.decision);
      st.(requests := WithStatus(st, c.request, status),
          notifications := st.notifications + [Notification(c.request, request.user, status)],
          calls := Moved(st, call, Finished(c.point.claimed, true)))
    else st.(calls := Moved(st, call, Finished(c.point.claimed, false)))
  }

  predicate Enabled(st: State, e: Event) {
    match e
    case Submit(_, _, _) => true
    case Begin(_, _) => true
    case Claim(call) => At(st, call) && st.calls[call].point.Claiming?
    case Read(call) => At(st, call) && st.calls[call].point.Reading?
    case Grant(call) => At(st, call) && st.calls[call].point.Granting? && st.calls[call].request < |st.requests|
    case GrantFails(call, partly) =>
      At(st, call) && st.calls[call].point.Granting? && st.calls[call].request < |st.requests| &&
      partly <= st.requests[st.calls[call].request].roles
    case Finalize(call) => At(st, call) && st.calls[call].point.Finalizing? && st.calls[call].request < |st.requests|
  }

  /** An event that is not possible changes nothing, so every sequence of events is a run. */
  function Step(st: State, e: Event): State {
    if !Enabled(st, e) then st
    else
      match e
      case Submit(user, roles, alreadyHeld) => DoSubmit(st, user, roles, alreadyHeld)
      case Begin(request, decision) => st.(calls := st.calls + [Call(request, decision, Claiming)])
      case Claim(call) => DoClaim(st, call)
      case Read(call) => DoRead(st, call)
      case Grant(call) => DoGrant(st, call, st.requests[st.calls[call].request].roles,
        Finalizing(st.calls[call].point.claimed))
      case GrantFails(call, partly) => DoGrant(st, call, partly, Finished(st.calls[call].point.claimed, false))
      case Finalize(call) => DoFinalize(st, call)
  }

  function Run(st: State, events: seq<Event>): State {
    if |events| == 0 then st else Step(Run(st, events[..|events| - 1]), events[|events| - 1])
  }

  const INITIAL := State([], [], map[], [])

  // ---- what every run keeps

  ghost predicate Granted(st: State, id: nat)
    requires id < |st.requests|
  {
    st.requests[id].roles <= Held(st, st.requests[id].user)
  }

  /** The notifications about a request. */
  function About(notifications: seq<Notification>, id: nat): seq<Notification> {
    if |notifications| == 0 then []
    else
      var n := |notifications| - 1;
      About(notifications[..n], id) + if notifications[n].request == id then [notifications[n]] else []
  }

  /** A request has one notification, to its user and with its verdict, exactly if it is terminal. */
  ghost predicate Notified(st: State, id: nat)
    requires id < |st.requests|
  {
    var r := st.requests[id];
    About(st.notifications, id) == if r.status.Terminal() then [Notification(id, r.user, r.status)] else []
  }

  ghost predicate RequestOk(st: State, id: nat)
    requires id < |st.requests|
  {
    && Notified(st, id)
    && (st.requests[id].status.Approved? ==> Granted(st, id))
    && st.requests[id].roles != {} && st.requests[id].roles <= SELF_REQUEST_ROLES
  }

  predicate HasClaimed(c: Call) {
    !c.point.Claiming? && c.point.claimed
  }

  ghost predicate CallOk(st: State, k: nat)
    requires At(st, k)
  {
    var c := st.calls[k];
    && (c.point.Granting? || c.point.Finalizing? ==>
      c.request < |st.requests| && !st.requests[c.request].status.Pending?)
    && (c.point.Granting? ==> c.decision.Approve?)
    && (c.point.Finalizing? && c.decision.Approve? ==> Granted(st, c.request))
    && (c.point.Finalizing? && c.decision.Reject? ==> c.point.claimed)
    && (HasClaimed(c) ==> c.request < |st.requests| && !st.requests[c.request].status.Pending?)
  }

  ghost predicate OneActive(st: State) {
    forall i, j :: 0 <= i < j < |st.requests| && Active(st.requests[i]) && Active(st.requests[j]) ==>
      st.requests[i].user != st.requests[j].user
  }

  ghost predicate OneClaim(st: State) {
    forall j, k :: 0 <= j < k < |st.calls| && HasClaimed(st.calls[j]) && HasClaimed(st.calls[k]) ==>
      st.calls[j].request != st.calls[k].request
  }

  ghost predicate NoStray(st: State) {
    forall n :: n in st.notifications ==> n.request < |st.requests|
  }

  ghost predicate Inv(st: State) {
    && (forall id :: 0 <= id < |st.requests| ==> RequestOk(st, id))
    && (forall k :: 0 <= k < |st.calls| ==> CallOk(st, k))
    && OneActive(st) && OneClaim(st) && NoStray(st)
  }

  lemma {:induction false} AboutNone(notifications: seq<Notification>, id: nat)
    requires forall n :: n in notifications ==> n.request != id
    ensures About(notifications, id) == []
  {
    if |notifications| > 0 {
      AboutNone(notifications[..|notifications| - 1], id);
    }
  }

  lemma AboutMore(notifications: seq<Notification>, n: Notification, id: nat)
    ensures About(notifications + [n], id) == About(notifications, id) + if n.request == id then [n] else []
  {
  }

  lemma SubmitKeeps(st: State, user: string, roles: set<string>, alreadyHeld: bool)
    requires Inv(st)
    ensures Inv(DoSubmit(st, user, roles, alreadyHeld))
  {
    hide About, Held;
    var after := DoSubmit(st, user, roles, alreadyHeld);
    if after != st {
      AboutNone(st.notifications, |st.requests|);
      forall id | 0 <= id < |after.requests|
        ensures RequestOk(after, id)
      {
        assert id < |st.requests| ==> RequestOk(st, id);
        SameHeld(st, after, if id < |st.requests| then st.requests[id].user else user);
      }
      forall k | 0 <= k < |after.calls|
        ensures CallOk(after, k)
      {
        assert CallOk(st, k);
        if st.calls[k].request < |st.requests| {
          SameHeld(st, after, st.requests[st.calls[k].request].user);
        }
      }
    }
  }

  lemma SameHeld(a: State, b: State, user: string)
    requires a.granted == b.granted
    ensures Held(a, user) == Held(b, user)
  {
  }

  /** A step that only moves one call keeps the requests in order. */
  lemma MoveKeeps(st: State, call: nat, point: Point)
    requires Inv(st) && At(st, call)
    requires !point.Claiming? && (point.claimed ==> HasClaimed(st.calls[call]))
    requires CallOk(st.(calls := Moved(st, call, point)), call)
    ensures Inv(st.(calls := Moved(st, call, point)))
  {
    hide About, Held;
    var after := st.(calls := Moved(st, call, point));
    forall id | 0 <= id < |after.requests|
      ensures RequestOk(after, id)
    {
      assert RequestOk(st, id);
      SameHeld(st, after, st.requests[id].user);
    }
    forall k | 0 <= k < |after.calls|
      ensures CallOk(after, k)
    {
      if k != call {
        assert CallOk(st, k);
        if st.calls[k].request < |st.requests| {
          SameHeld(st, after, st.requests[st.calls[k].request].user);
        }
      }
    }
  }

  lemma BeginKeeps(st: State, request: nat, decision: Decision)
    requires Inv(st)
    ensures Inv(st.(calls := st.calls + [Call(request, decision, Claiming)]))
  {
    hide About, Held;
    var after := st.(calls := st.calls + [Call(request, decision, Claiming)]);
    forall id | 0 <= id < |after.requests|
      ensures RequestOk(after, id)
    {
      assert RequestOk(st, id);
      SameHeld(st, after, st.requests[id].user);
    }
    forall k | 0 <= k < |after.calls|
      ensures CallOk(after, k)
    {
      if k < |st.calls| {
        assert CallOk(st, k) && after.calls[k] == st.calls[k];
        if st.calls[k].request < |st.requests| {
          SameHeld(st, after, st.requests[st.calls[k].request].user);
        }
      }
    }
  }

  /** A status change from an open status to a later one, without a notification, keeps everything else. */
  lemma ClaimKeeps(st: State, call: nat)
    requires Inv(st) && At(st, call) && st.calls[call].point.Claiming?
    ensures Inv(DoClaim(st, call))
  {
    var id := st.calls[call].request;
    if id < |st.requests| && st.requests[id].status.Pending? {
      ClaimSucceeds(st, call);
    } else {
      MoveKeeps(st, call, Reading(false));
    }
  }

  lemma ClaimSucceeds(st: State, call: nat)
    requires Inv(st) && At(st, call) && st.calls[call].point.Claiming?
    requires st.calls[call].request < |st.requests| && st.requests[st.calls[call].request].status.Pending?
    ensures Inv(DoClaim(st, call))
  {
    hide About, Held;
    var claimedId := st.calls[call].request;
    var after := DoClaim(st, call);
    forall id | 0 <= id < |after.requests|
      ensures RequestOk(after, id)
    {
      assert RequestOk(st, id);
      SameHeld(st, after, st.requests[id].user);
    }
    forall k | 0 <= k < |after.calls|
      ensures CallOk(after, k)
    {
      assert CallOk(st, k);
      if st.calls[k].request < |st.requests| {
        SameHeld(st, after, st.requests[st.calls[k].request].user);
      }
    }
    forall j, k | 0 <= j < k < |after.calls| && HasClaimed(after.calls[j]) && HasClaimed(after.calls[k])
      ensures after.calls[j].request != after.calls[k].request
    {
      assert CallOk(st, j) && CallOk(st, k);
    }
  }

  lemma ReadKeeps(st: State, call: nat)
    requires Inv(st) && At(st, call) && st.calls[call].point.Reading?
    ensures Inv(DoRead(st, call))
  {
    hide Inv, Granted;
    CallIsOk(st, call);
    var c := st.calls[call];
    if c.request >= |st.requests| ||
      (!c.point.claimed && !(c.decision.Approve? && st.requests[c.request].status.Processing?)) {
      MoveKeeps(st, call, Finished(c.point.claimed, false));
    } else if c.decision.Reject? {
      MoveKeeps(st, call, Finalizing(c.point.claimed));
    } else {
      MoveKeeps(st, call, Granting(c.point.claimed));
    }
  }

  lemma CallIsOk(st: State, k: nat)
    requires Inv(st) && At(st, k)
    ensures CallOk(st, k)
  {
  }

  /** Granting more roles to a user takes nothing from anyone. */
  lemma GrantKeeps(st: State, call: nat, roles: set<string>)
    requires Inv(st) && At(st, call) && st.calls[call].request < |st.requests|
    ensures var user := st.requests[st.calls[call].request].user;
      Inv(st.(granted := st.granted[user := Held(st, user) + roles]))
  {
    hide About;
    var user := st.requests[st.calls[call].request].user;
    var after := st.(granted := st.granted[user := Held(st, user) + roles]);
    forall id | 0 <= id < |after.requests|
      ensures RequestOk(after, id)
    {
      assert RequestOk(st, id);
    }
    forall k | 0 <= k < |after.calls|
      ensures CallOk(after, k)
    {
      assert CallOk(st, k);
    }
  }

  lemma DoGrantKeeps(st: State, call: nat, roles: set<string>, point: Point)
    requires Inv(st) && At(st, call) && st.calls[call].point.Granting? && st.calls[call].request < |st.requests|
    requires point == Finished(st.calls[call].point.claimed, false) ||
             (point == Finalizing(st.calls[call].point.claimed) && roles == st.requests[st.calls[call].request].roles)
    ensures Inv(DoGrant(st, call, roles, point))
  {
    hide Inv;
    var user := st.requests[st.calls[call].request].user;
    var middle := st.(granted := st.granted[user := Held(st, user) + roles]);
    CallIsOk(st, call);
    GrantKeeps(st, call, roles);
    MoveKeeps(middle, call, point);
  }

  lemma FinalizeKeeps(st: State, call: nat)
    requires Inv(st) && At(st, call) && st.calls[call].point.Finalizing? && st.calls[call].request < |st.requests|
    ensures Inv(DoFinalize(st, call))
  {
    hide Inv, Granted;
    CallIsOk(st, call);
    if st.requests[st.calls[call].request].status.Processing? {
      FinalizeSucceeds(st, call);
    } else {
      MoveKeeps(st, call, Finished(st.calls[call].point.claimed, false));
    }
  }

  lemma FinalizeSucceeds(st: State, call: nat)
    requires Inv(st) && At(st, call) && st.calls[call].point.Finalizing? && st.calls[call].request < |st.requests|
    requires st.requests[st.calls[call].request].status.Processing?
    ensures Inv(DoFinalize(st, call))
  {
    hide About, Held;
    var c := st.calls[call];
    var after := DoFinalize(st, call);
    assert CallOk(st, call) && RequestOk(st, c.request);
    forall id | 0 <= id < |after.requests|
      ensures RequestOk(after, id)
    {
      assert RequestOk(st, id);
      SameHeld(st, after, st.requests[id].user);
      AboutMore(st.notifications, Notification(c.request, st.requests[c.request].user, Verdict(c.decision)), id);
    }
    forall k | 0 <= k < |after.calls|
      ensures CallOk(after, k)
    {
      assert CallOk(st, k);
      if st.calls[k].request < |st.requests| {
        SameHeld(st, after, st.requests[st.calls[k].request].user);
      }
    }
  }

  lemma StepKeeps(st: State, e: Event)
    requires Inv(st)
    ensures Inv(Step(st, e))
  {
    hide Inv, Held, HasActive;
    if Enabled(st, e) {
      match e
      case Submit(user, roles, alreadyHeld) => SubmitKeeps(st, user, roles, alreadyHeld);
      case Begin(request, decision) => BeginKeeps(st, request, decision);
      case Claim(call) => ClaimKeeps(st, call);
      case Read(call) => ReadKeeps(st, call);
      case Grant(call) => DoGrantKeeps(st, call, st.requests[st.calls[call].request].roles,
        Finalizing(st.calls[call].point.claimed));
      case GrantFails(call, partly) => DoGrantKeeps(st, call, partly, Finished(st.calls[call].point.claimed, false));
      case Finalize(call) => FinalizeKeeps(st, call);
    }
  }

  /**
   * In every run of any number of administrators and crashes: a request has exactly one notification if it is
   * terminal and none otherwise, it is approved only after its roles were granted, a user has at most one
   * open request, and at most one call has claimed a request.
   */
  lemma {:induction false} EveryRunKeeps(events: seq<Event>)
    ensures Inv(Run(INITIAL, events))
  {
    hide Inv, Step;
    if |events| == 0 {
      InitialOk();
    } else {
      EveryRunKeeps(events[..|events| - 1]);
      StepKeeps(Run(INITIAL, events[..|events| - 1]), events[|events| - 1]);
    }
  }

  lemma InitialOk()
    ensures Inv(INITIAL)
  {
  }

  predicate Follows(a: Status, b: Status) {
    a == b || a.Pending? || (a.Processing? && b.Terminal())
  }

  lemma StatusStep(st: State, e: Event, id: nat)
    requires id < |st.requests|
    ensures id < |Step(st, e).requests|
    ensures var before, after := st.requests[id], Step(st, e).requests[id];
      && after.user == before.user && after.roles == before.roles
      && (after.status == before.status || (before.status.Pending? && after.status.Processing?) ||
        (before.status.Processing? && after.status.Terminal()))
  {
  }

  /** A request only moves from PENDING over PROCESSING to one terminal status, which never changes again. */
  lemma {:induction false} StatusOnlyAdvances(st: State, events: seq<Event>, id: nat)
    requires id < |st.requests|
    ensures id < |Run(st, events).requests|
    ensures var before, after := st.requests[id], Run(st, events).requests[id];
      after.user == before.user && after.roles == before.roles && Follows(before.status, after.status)
  {
    hide Step;
    if |events| > 0 {
      StatusOnlyAdvances(st, events[..|events| - 1], id);
      StatusStep(Run(st, events[..|events| - 1]), events[|events| - 1], id);
    }
  }

  /** The steps of one `decide` call that nothing interrupts, as call number k. */
  function DecideAlone(k: nat, id: nat, decision: Decision): seq<Event> {
    [Begin(id, decision), Claim(k), Read(k)] + (if decision.Approve? then [Grant(k)] else []) + [Finalize(k)]
  }

  lemma RunOfFive(st: State, a: Event, b: Event, c: Event, d: Event, e: Event)
    ensures Run(st, [a, b, c, d, e]) == Step(Step(Step(Step(Step(st, a), b), c), d), e)
  {
    assert [a, b, c, d, e][..4] == [a, b, c, d] && [a, b, c, d][..3] == [a, b, c];
    assert [a, b, c][..2] == [a, b] && [a, b][..1] == [a] && [a][..0] == [];
    assert Run(st, [a]) == Step(st, a);
    assert Run(st, [a, b]) == Step(Step(st, a), b);
    assert Run(st, [a, b, c]) == Step(Step(Step(st, a), b), c);
    assert Run(st, [a, b, c, d]) == Step(Step(Step(Step(st, a), b), c), d);
  }

  /** A request that some call left in PROCESSING can always be completed by another approval. */
  lemma AnotherApprovalCompletes(st: State, id: nat)
    requires id < |st.requests| && st.requests[id].status.Processing?
    ensures var after := Run(st, DecideAlone(|st.calls|, id, Approve));
      id < |after.requests| && after.requests[id].status.Approved? && Granted(after, id)
  {
    hide Run;
    var k := |st.calls|;
    RunOfFive(st, Begin(id, Approve), Claim(k), Read(k), Grant(k), Finalize(k));
    assert DecideAlone(k, id, Approve) == [Begin(id, Approve), Claim(k), Read(k), Grant(k), Finalize(k)];
  }

  lemma {:induction false} RunAppend(st: State, a: seq<Event>, b: seq<Event>)
    ensures Run(st, a + b) == Run(Run(st, a), b)
  {
    if |b| == 0 {
      assert a + b == a;
    } else {
      assert (a + b)[..|a + b| - 1] == a + b[..|b| - 1];
      RunAppend(st, a, b[..|b| - 1]);
    }
  }

  const CLAIMED_REJECTION: seq<Event> :=
    [Submit("u", {"AUDITOR"}, false), Begin(0, Reject), Claim(0), Read(0), Begin(0, Approve)]
  const RACING_APPROVAL: seq<Event> := [Claim(1), Read(1), Grant(1), Finalize(0), Finalize(1)]

  lemma RejectionClaimed() returns (st: State)
    ensures st == Run(INITIAL, CLAIMED_REJECTION)
    ensures st.requests == [Request("u", {"AUDITOR"}, Processing)] && st.granted == map[] && st.notifications == []
    ensures st.calls == [Call(0, Reject, Finalizing(true)), Call(0, Approve, Claiming)]
  {
    hide Run;
    var e := CLAIMED_REJECTION;
    RunOfFive(INITIAL, e[0], e[1], e[2], e[3], e[4]);
    st := Run(INITIAL, e);
    var submitted := Step(INITIAL, e[0]);
    assert submitted.requests == [Request("u", {"AUDITOR"}, Pending)];
  }

  /** REJECTED does not mean that nothing was granted: an approval can grant while a claimed rejection is under way. */
  lemma RejectedAfterGrant()
    ensures var st := Run(INITIAL, CLAIMED_REJECTION + RACING_APPROVAL);
      |st.requests| == 1 && st.requests[0].status.Rejected? && Granted(st, 0)
  {
    hide Run;
    var e := RACING_APPROVAL;
    var st := RejectionClaimed();
    RunAppend(INITIAL, CLAIMED_REJECTION, RACING_APPROVAL);
    RunOfFive(st, e[0], e[1], e[2], e[3], e[4]);
    var granted := Step(Step(Step(st, e[0]), e[1]), e[2]);
    assert granted.calls == [Call(0, Reject, Finalizing(true)), Call(0, Approve, Finalizing(false))];
    assert Granted(granted, 0);
  }

  // ---- when a rejection leaves the roles ungranted

  function StateAt(events: seq<Event>, k: nat): State
    requires k <= |events|
  {
    Run(INITIAL, events[..k])
  }

  /** The call that a step belongs to. */
  predicate IsStepOf(e: Event, call: nat) {
    match e
    case Submit(_, _, _) => false
    case Begin(_, _) => false
    case Claim(c) => c == call
    case Read(c) => c == call
    case Grant(c) => c == call
    case GrantFails(c, _) => c == call
    case Finalize(c) => c == call
  }

  /** Event k is a step that this call, which is about request `id`, really takes. */
  predicate Takes(events: seq<Event>, k: nat, call: nat, id: nat) {
    && k < |events| && IsStepOf(events[k], call) && Enabled(StateAt(events, k), events[k])
    && StateAt(events, k).calls[call].request == id
  }

  predicate HasStatus(st: State, id: nat, status: Status) {
    id < |st.requests| && st.requests[id].status == status
  }

  /** The call claims the request. */
  predicate Claims(events: seq<Event>, k: nat, call: nat, id: nat) {
    Takes(events, k, call, id) && events[k].Claim? && HasStatus(StateAt(events, k), id, Pending)
  }

  /** An approval reads the request. */
  predicate ReadsToApprove(events: seq<Event>, k: nat, call: nat, id: nat) {
    Takes(events, k, call, id) && events[k].Read? && StateAt(events, k).calls[call].decision.Approve?
  }

  /** The call asks for the roles to be granted, with or without full success. */
  predicate Grants(events: seq<Event>, k: nat, call: nat, id: nat) {
    Takes(events, k, call, id) && (events[k].Grant? || events[k].GrantFails?)
  }

  /** The call makes the request rejected. */
  predicate Refuses(events: seq<Event>, k: nat, call: nat, id: nat) {
    && Takes(events, k, call, id) && events[k].Finalize? && StateAt(events, k).calls[call].decision.Reject?
    && HasStatus(StateAt(events, k), id, Processing)
  }

  /** The approval reads while the call that will reject the request holds the claim. */
  ghost predicate ReadsDuringRejection(events: seq<Event>, r: nat, call: nat, id: nat) {
    && ReadsToApprove(events, r, call, id)
    && exists c: nat, f: nat, rejecter: nat ::
      c < r < f && Claims(events, c, rejecter, id) && Refuses(events, f, rejecter, id)
  }

  lemma NextState(events: seq<Event>, k: nat)
    requires k < |events|
    ensures StateAt(events, k + 1) == Step(StateAt(events, k), events[k])
  {
    assert events[..k + 1][..k] == events[..k];
  }

  lemma FirstState(events: seq<Event>)
    ensures StateAt(events, 0) == INITIAL
  {
  }

  /** A step keeps what the calls are about, and a claim once made. */
  lemma CallStays(st: State, e: Event, call: nat)
    requires At(st, call)
    ensures var next := Step(st, e);
      && At(next, call) && next.calls[call].request == st.calls[call].request
      && next.calls[call].decision == st.calls[call].decision
      && (HasClaimed(st.calls[call]) ==> HasClaimed(next.calls[call]))
  {
    hide Held, HasActive;
  }

  lemma {:induction false} CallPersists(events: seq<Event>, i: nat, j: nat, call: nat)
    requires i <= j <= |events| && At(StateAt(events, i), call)
    ensures var before, after := StateAt(events, i), StateAt(events, j);
      && At(after, call) && after.calls[call].request == before.calls[call].request
      && after.calls[call].decision == before.calls[call].decision
      && (HasClaimed(before.calls[call]) ==> HasClaimed(after.calls[call]))
  {
    hide StateAt, Step, HasClaimed;
    if i < j {
      CallPersists(events, i, j - 1, call);
      NextState(events, j - 1);
      CallStays(StateAt(events, j - 1), events[j - 1], call);
    }
  }

  lemma {:induction false} StatusPersists(events: seq<Event>, i: nat, j: nat, id: nat)
    requires i <= j <= |events| && id < |StateAt(events, i).requests|
    ensures id < |StateAt(events, j).requests|
    ensures Follows(StateAt(events, i).requests[id].status, StateAt(events, j).requests[id].status)
  {
    hide StateAt, Step;
    if i < j {
      StatusPersists(events, i, j - 1, id);
      NextState(events, j - 1);
      StatusStep(StateAt(events, j - 1), events[j - 1], id);
    }
  }

  /** A step by which a call becomes a claimer is its successful claim. */
  lemma ClaimStep(st: State, e: Event, call: nat)
    requires At(Step(st, e), call) && HasClaimed(Step(st, e).calls[call])
    requires !(At(st, call) && HasClaimed(st.calls[call]))
    ensures e == Claim(call) && At(st, call) && Enabled(st, e) && HasStatus(st, st.calls[call].request, Pending)
  {
    hide Held, HasActive;
  }

  lemma {:induction false} ClaimedSince(events: seq<Event>, n: nat, call: nat) returns (c: nat)
    requires n <= |events| && At(StateAt(events, n), call) && HasClaimed(StateAt(events, n).calls[call])
    ensures c < n && Claims(events, c, call, StateAt(events, n).calls[call].request)
  {
    hide Step, HasClaimed, StateAt, Enabled;
    if n == 0 {
      FirstState(events);
      assert false;
    } else {
      NextState(events, n - 1);
      var before := StateAt(events, n - 1);
      if At(before, call) {
        CallStays(before, events[n - 1], call);
      }
      if At(before, call) && HasClaimed(before.calls[call]) {
        c := ClaimedSince(events, n - 1, call);
      } else {
        ClaimStep(before, events[n - 1], call);
        CallStays(before, events[n - 1], call);
        c := n - 1;
      }
    }
  }

  /**
   * A step by which a call comes to grant is the read of an approval that claimed or found the request in processing.
   */
  lemma GrantingStep(st: State, e: Event, call: nat)
    requires At(Step(st, e), call) && Step(st, e).calls[call].point.Granting?
    requires !(At(st, call) && st.calls[call].point.Granting?)
    ensures e == Read(call) && At(st, call) && Enabled(st, e) && st.calls[call].decision.Approve?
    ensures HasClaimed(st.calls[call]) || HasStatus(st, st.calls[call].request, Processing)
  {
    hide Held, HasActive;
  }

  lemma {:induction false} GrantingSince(events: seq<Event>, n: nat, call: nat) returns (r: nat)
    requires n <= |events| && At(StateAt(events, n), call) && StateAt(events, n).calls[call].point.Granting?
    ensures r < n && ReadsToApprove(events, r, call, StateAt(events, n).calls[call].request)
    ensures HasClaimed(StateAt(events, r).calls[call]) ||
      HasStatus(StateAt(events, r), StateAt(events, n).calls[call].request, Processing)
  {
    hide Step, HasClaimed, StateAt, Enabled;
    if n == 0 {
      FirstState(events);
      assert false;
    } else {
      NextState(events, n - 1);
      var before := StateAt(events, n - 1);
      if At(before, call) {
        CallStays(before, events[n - 1], call);
      }
      if At(before, call) && before.calls[call].point.Granting? {
        r := GrantingSince(events, n - 1, call);
      } else {
        GrantingStep(before, events[n - 1], call);
        CallStays(before, events[n - 1], call);
        r := n - 1;
      }
    }
  }

  lemma RefusalStep(st: State, e: Event, id: nat)
    requires HasStatus(Step(st, e), id, Rejected) && !HasStatus(st, id, Rejected)
    ensures e.Finalize? && Enabled(st, e) && st.calls[e.call].request == id && st.calls[e.call].decision.Reject?
    ensures HasStatus(st, id, Processing)
  {
    hide Held, HasActive;
  }

  lemma {:induction false} RejectedSince(events: seq<Event>, n: nat, id: nat) returns (f: nat, rejecter: nat)
    requires n <= |events| && HasStatus(StateAt(events, n), id, Rejected)
    ensures f < n && Refuses(events, f, rejecter, id)
  {
    hide Step, StateAt, Enabled, HasStatus;
    if n == 0 {
      FirstState(events);
      NotAtFirst(id);
      assert false;
    } else {
      NextState(events, n - 1);
      if HasStatus(StateAt(events, n - 1), id, Rejected) {
        f, rejecter := RejectedSince(events, n - 1, id);
      } else {
        RefusalStep(StateAt(events, n - 1), events[n - 1], id);
        f, rejecter := n - 1, events[n - 1].call;
      }
    }
  }

  lemma NotAtFirst(id: nat)
    ensures !HasStatus(INITIAL, id, Rejected)
  {
  }

  /** The call that rejects has claimed; nobody else has. */
  lemma RejecterClaimed(events: seq<Event>, f: nat, rejecter: nat, id: nat) returns (c: nat)
    requires Refuses(events, f, rejecter, id)
    ensures c < f && Claims(events, c, rejecter, id) && HasClaimed(StateAt(events, f).calls[rejecter])
  {
    hide StateAt, Step, Granted;
    StateIsOk(events, f);
    CallIsOk(StateAt(events, f), rejecter);
    c := ClaimedSince(events, f, rejecter);
  }

  lemma StateIsOk(events: seq<Event>, k: nat)
    requires k <= |events|
    ensures Inv(StateAt(events, k))
  {
    EveryRunKeeps(events[..k]);
  }

  lemma NotTwoClaims(events: seq<Event>, i: nat, j: nat, a: nat, b: nat)
    requires i <= |events| && j <= |events| && At(StateAt(events, i), a) && At(StateAt(events, j), b)
    requires HasClaimed(StateAt(events, i).calls[a]) && HasClaimed(StateAt(events, j).calls[b])
    requires StateAt(events, i).calls[a].request == StateAt(events, j).calls[b].request
    ensures a == b
  {
    hide StateAt, HasClaimed;
    var n := |events|;
    CallPersists(events, i, n, a);
    CallPersists(events, j, n, b);
    StateIsOk(events, n);
    assert OneClaim(StateAt(events, n));
  }

  /** While the status is PROCESSING, the claim lies behind and the refusal ahead. */
  lemma ProcessingLiesBetween(events: seq<Event>, c: nat, r: nat, f: nat, claimer: nat, refuser: nat, id: nat)
    requires Claims(events, c, claimer, id) && Refuses(events, f, refuser, id)
    requires r < |events| && HasStatus(StateAt(events, r), id, Processing) && events[r].Read?
    ensures c < r < f
  {
    hide StateAt, Step, Enabled;
    if r <= c {
      StatusPersists(events, r, c, id);
    }
    if f < r {
      RefusalTakesEffect(events, f, refuser, id);
      StatusPersists(events, f + 1, r, id);
    }
  }

  lemma RefusalTakesEffect(events: seq<Event>, f: nat, refuser: nat, id: nat)
    requires Refuses(events, f, refuser, id)
    ensures HasStatus(StateAt(events, f + 1), id, Rejected)
  {
    hide StateAt;
    NextState(events, f);
  }

  /** Whoever grants for a request that ends rejected has read it while the rejecting call held the claim. */
  lemma GranterReadDuringRejection(events: seq<Event>, id: nat, g: nat, call: nat) returns (r: nat)
    requires HasStatus(StateAt(events, |events|), id, Rejected) && Grants(events, g, call, id)
    ensures r < g && ReadsDuringRejection(events, r, call, id)
  {
    hide StateAt, Step, HasClaimed, HasStatus;
    var f, rejecter := RejectedSince(events, |events|, id);
    var c := RejecterClaimed(events, f, rejecter, id);
    StateIsOk(events, g);
    CallIsOk(StateAt(events, g), call);
    r := GrantingSince(events, g, call);
    ApproverIsNotRejecter(events, r, f, call, rejecter, id);
    ProcessingLiesBetween(events, c, r, f, rejecter, rejecter, id);
  }

  lemma ApproverIsNotRejecter(events: seq<Event>, r: nat, f: nat, call: nat, rejecter: nat, id: nat)
    requires ReadsToApprove(events, r, call, id) && Refuses(events, f, rejecter, id)
    requires HasClaimed(StateAt(events, f).calls[rejecter])
    ensures !HasClaimed(StateAt(events, r).calls[call])
  {
    hide StateAt, HasClaimed, Step;
    if HasClaimed(StateAt(events, r).calls[call]) {
      NotTwoClaims(events, r, f, call, rejecter);
      if r <= f {
        CallPersists(events, r, f, call);
      } else {
        CallPersists(events, f, r, call);
      }
    }
  }

  /**
   * A request that ends rejected had its roles asked for exactly if some approval read it while the rejecting
   * call held the claim and went on to its grant.
   */
  lemma RejectedGrantIff(events: seq<Event>, id: nat)
    requires HasStatus(StateAt(events, |events|), id, Rejected)
    ensures (exists g: nat, call: nat :: Grants(events, g, call, id)) <==>
      exists r: nat, g: nat, call: nat ::
        r < g && ReadsDuringRejection(events, r, call, id) && Grants(events, g, call, id)
  {
    hide StateAt, Grants, ReadsDuringRejection;
    if g: nat, call: nat :| Grants(events, g, call, id) {
      var r := GranterReadDuringRejection(events, id, g, call);
    }
  }

  /**
   * If no approval reads while the rejecting call holds the claim, the request leads to no grant, not even a late one.
   */
  lemma QuietRejectionGrantsNothing(events: seq<Event>, id: nat)
    requires HasStatus(StateAt(events, |events|), id, Rejected)
    requires forall r: nat, call: nat :: !ReadsDuringRejection(events, r, call, id)
    ensures forall g: nat, call: nat :: !Grants(events, g, call, id)
  {
    hide StateAt, Grants, ReadsDuringRejection;
    RejectedGrantIff(events, id);
  }

  lemma GrantStep(st: State, e: Event, user: string, role: string)
    requires role in Held(Step(st, e), user) && role !in Held(st, user)
    ensures (e.Grant? || e.GrantFails?) && Enabled(st, e)
    ensures var r := st.requests[st.calls[e.call].request]; r.user == user && role in r.roles
  {
    hide HasActive;
  }

  /** Every role that a user holds came from a grant step for a request of that user that names the role. */
  lemma {:induction false} HeldWasGranted(events: seq<Event>, n: nat, user: string, role: string)
    returns (g: nat, call: nat, id: nat)
    requires n <= |events| && role in Held(StateAt(events, n), user)
    ensures g < n && Grants(events, g, call, id) && id < |StateAt(events, g).requests|
    ensures StateAt(events, g).requests[id].user == user && role in StateAt(events, g).requests[id].roles
  {
    hide StateAt, Step, Held;
    if n == 0 {
      FirstState(events);
      NobodyHolds(user);
      assert false;
    } else {
      NextState(events, n - 1);
      if role in Held(StateAt(events, n - 1), user) {
        g, call, id := HeldWasGranted(events, n - 1, user, role);
      } else {
        var e := events[n - 1];
        GrantStep(StateAt(events, n - 1), e, user, role);
        g, call, id := n - 1, e.call, StateAt(events, n - 1).calls[e.call].request;
      }
    }
  }

  lemma NobodyHolds(user: string)
    ensures Held(INITIAL, user) == {}
  {
  }

  predicate CanDecide(st: State, id: nat, decision: Decision) {
    id < |st.requests| && (st.requests[id].status.Pending? || (st.requests[id].status.Processing? && decision.Approve?))
  }

  /** After its read, the call goes on with a request in PROCESSING. */
  predicate InHand(st: State, k: nat)
    requires At(st, k)
  {
    var c := st.calls[k];
    && c.request < |st.requests| && st.requests[c.request].status.Processing?
    && (if c.decision.Approve? then c.point.Granting? else c.point.Finalizing?)
  }

  lemma DecideReads(st: State, id: nat, decision: Decision)
    ensures var k, read := |st.calls|, Step(Step(Step(st, Begin(id, decision)), Claim(|st.calls|)), Read(|st.calls|));
      && At(read, k) && |read.requests| == |st.requests| && read.calls[k].request == id &&
        read.calls[k].decision == decision
      && (CanDecide(st, id, decision) ==> InHand(read, k))
      && (!CanDecide(st, id, decision) ==> read.calls[k].point.Finished? && !read.calls[k].point.ok)
  {
  }

  lemma DecideEnds(read: State, k: nat)
    requires At(read, k)
    requires InHand(read, k) || (read.calls[k].point.Finished? && !read.calls[k].point.ok)
    ensures var ended := Step(if read.calls[k].decision.Approve? then Step(read, Grant(k)) else read, Finalize(k));
      At(ended, k) && ended.calls[k].point.Finished? && ended.calls[k].point.ok == !read.calls[k].point.Finished?
  {
  }

  /**
   * An undisturbed decision on a pending request, or an approval of one in processing, gives it the verdict, sends its
   * user one notification of it, and grants the roles exactly if it is an approval; any other decision changes nothing
   * but the list of calls.
   */
  lemma DecisionStores(st: State, id: nat, decision: Decision)
    ensures var after := Run(st, DecideAlone(|st.calls|, id, decision));
      if id < |st.requests| && (st.requests[id].status == Pending ||
          (decision == Approve && st.requests[id].status == Processing)) then
        var r, verdict := st.requests[id], if decision == Approve then Approved else Rejected;
        && after.requests == st.requests[id := Request(r.user, r.roles, verdict)]
        && after.notifications == st.notifications + [Notification(id, r.user, verdict)]
        && after.granted == if decision == Approve then
             st.granted[r.user := (if r.user in st.granted then st.granted[r.user] else {}) + r.roles]
           else st.granted
      else
        after.requests == st.requests && after.notifications == st.notifications && after.granted == st.granted
  {
    hide Run, DecideAlone;
    RunOfDecide(st, |st.calls|, id, decision);
    ReadStores(st, id, decision);
    var read := Step(Step(Step(st, Begin(id, decision)), Claim(|st.calls|)), Read(|st.calls|));
    FinishStores(read, |st.calls|);
  }

  lemma ReadStores(st: State, id: nat, decision: Decision)
    ensures var k, read := |st.calls|, Step(Step(Step(st, Begin(id, decision)), Claim(|st.calls|)), Read(|st.calls|));
      && At(read, k) && read.calls[k].request == id && read.calls[k].decision == decision
      && read.notifications == st.notifications && read.granted == st.granted
      && if id < |st.requests| && (st.requests[id].status == Pending ||
             (decision == Approve && st.requests[id].status == Processing)) then
           InHand(read, k) && read.requests == st.requests[id := st.requests[id].(status := Processing)]
         else read.requests == st.requests && read.calls[k].point.Finished?
  {
  }

  lemma FinishStores(read: State, k: nat)
    requires At(read, k) && (InHand(read, k) || read.calls[k].point.Finished?)
    ensures var c := read.calls[k];
      var ended := Step(if c.decision.Approve? then Step(read, Grant(k)) else read, Finalize(k));
      if c.point.Finished? then ended == read
      else
        var r, verdict := read.requests[c.request], if c.decision == Approve then Approved else Rejected;
        && ended.requests == read.requests[c.request := r.(status := verdict)]
        && ended.notifications == read.notifications + [Notification(c.request, r.user, verdict)]
        && ended.granted == if c.decision == Approve then
             read.granted[r.user := (if r.user in read.granted then read.granted[r.user] else {}) + r.roles]
           else read.granted
  {
  }

  // ---- the service

  class RoleRequestService {
    var state: State

    constructor ()
      ensures state == INITIAL
    {
      state := INITIAL;
    }

    /** `submit`, with the answer of Keycloak about roles already held. */
    method SubmitRequest(user: string, roles: set<string>, alreadyHeld: bool) returns (id: nat, created: bool)
      modifies this
      ensures state == Step(old(state), Submit(user, roles, alreadyHeld))
      ensures created <==>
        && roles != {} && roles <= {"NETWORK_OPERATOR", "SYSTEMS_OPERATOR", "AUDITOR"} && !alreadyHeld
        && forall r :: r in old(state).requests && r.user == user ==> r.status.Approved? || r.status.Rejected?
      ensures created ==>
        && id == |old(state).requests|
        && state.requests == old(state).requests + [Request(user, roles, Pending)]
      ensures !created ==> state == old(state)
    {
      id := |state.requests|;
      if roles == {} || !(roles <= SELF_REQUEST_ROLES) || alreadyHeld || HasActive(state, user) {
        created := false;
        return;
      }
      state := state.(requests := state.requests + [Request(user, roles, Pending)]);
      created := true;
    }

    /** `decide` when no other call comes between its steps and nothing fails. */
    method Decide(id: nat, decision: Decision) returns (ok: bool)
      modifies this
      ensures state == Run(old(state), DecideAlone(|old(state).calls|, id, decision))
      ensures ok <==> CanDecide(old(state), id, decision)
    {
      hide HasActive, Held, Run, Step;
      var k := |state.calls|;
      DecideReads(state, id, decision);
      state := Step(state, Begin(id, decision));
      state := Step(state, Claim(k));
      state := Step(state, Read(k));
      DecideEnds(state, k);
      if decision.Approve? {
        state := Step(state, Grant(k));
      }
      state := Step(state, Finalize(k));
      RunOfDecide(old(state), k, id, decision);
      ok := state.calls[k].point.ok;
    }
  }

  lemma RunOfDecide(st: State, k: nat, id: nat, decision: Decision)
    ensures Run(st, DecideAlone(k, id, decision)) ==
      (var read := Step(Step(Step(st, Begin(id, decision)), Claim(k)), Read(k));
       Step(if decision.Approve? then Step(read, Grant(k)) else read, Finalize(k)))
  {
    hide Step;
    if decision.Approve? {
      RunOfFive(st, Begin(id, decision), Claim(k), Read(k), Grant(k), Finalize(k));
      assert DecideAlone(k, id, decision) == [Begin(id, decision), Claim(k), Read(k), Grant(k), Finalize(k)];
    } else {
      var events := [Begin(id, decision), Claim(k), Read(k), Finalize(k)];
      assert DecideAlone(k, id, decision) == events;
      assert events[..3] == [Begin(id, decision), Claim(k), Read(k)] &&
        events[..3][..2] == [Begin(id, decision), Claim(k)];
      assert events[..3][..2][..1] == [Begin(id, decision)] && events[..3][..2][..1][..0] == [];
      assert Run(st, events[..3][..2][..1]) == Step(st, Begin(id, decision));
      assert Run(st, events[..3][..2]) == Step(Step(st, Begin(id, decision)), Claim(k));
    }
  }
}
