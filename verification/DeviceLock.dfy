/** The expiring token lock of one device: SET NX PX to acquire, compare-and-delete to release. */
module DeviceLock {
  import opened Wrappers

  /** The key's value while it exists; it vanishes by itself when it expires. */
  datatype Lock = Lock(token: nat, expires: int)

  /** One `withLock` call that got the lock; calls are numbered by their random tokens. */
  datatype Holder = Holder(acquired: int, ttl: nat, finished: Option<int>)

  datatype State = State(now: int, key: Option<Lock>, holders: seq<Holder>)

  datatype Event =
    | Pass(ms: nat)
    | Acquire(ttl: nat)
    | Finish(token: nat)
    | Release(token: nat)

  predicate IsSet(st: State) {
    st.key.Some? && st.now < st.key.value.expires
  }

  /** SET NX: succeeds only if the key does not exist; otherwise the device is busy. */
  function DoAcquire(st: State, ttl: nat): State {
    if IsSet(st) then st
    else st.(key := Some(Lock(|st.holders|, st.now + ttl)), holders := st.holders + [Holder(st.now, ttl, None)])
  }

  /** The action ends; the release is sent only then. */
  function DoFinish(st: State, token: nat): State {
    if token >= |st.holders| || st.holders[token].finished.Some? then st
    else st.(holders := st.holders[token := st.holders[token].(finished := Some(st.now))])
  }

  predicate HasFinished(st: State, token: nat) {
    token < |st.holders| && st.holders[token].finished.Some?
  }

  /**
   * The script of a finished call reaches the server, at any later time or never: it deletes the key only if the key
   * still holds the caller's token.
   */
  function DoRelease(st: State, token: nat): State {
    if HasFinished(st, token) && IsSet(st) && st.key.value.token == token then st.(key := None) else st
  }

  function Step(st: State, e: Event): State {
    match e
    case Pass(ms) => st.(now := st.now + ms)
    case Acquire(ttl) => DoAcquire(st, ttl)
    case Finish(token) => DoFinish(st, token)
    case Release(token) => DoRelease(st, token)
  }

  function Run(st: State, events: seq<Event>): State {
    if |events| == 0 then st else Step(Run(st, events[..|events| - 1]), events[|events| - 1])
  }

  const INITIAL := State(0, None, [])

  // ---- what every run keeps

  function Deadline(h: Holder): int {
    h.acquired + h.ttl
  }

  /** While a call runs inside its TTL, the key carries its token. */
  ghost predicate Protected(st: State) {
    forall i :: 0 <= i < |st.holders| && st.holders[i].finished.None? && st.now < Deadline(st.holders[i]) ==>
      st.key == Some(Lock(i, Deadline(st.holders[i])))
  }

  /** An existing key belongs to a call that got the lock, until that call's deadline. */
  ghost predicate KeyOwned(st: State) {
    IsSet(st) ==> st.key.value.token < |st.holders| && st.key.value.expires == Deadline(st.holders[st.key.value.token])
  }

  /** Call j got the lock only after call i had ended or outlived its TTL. */
  predicate InOrder(earlier: Holder, later: Holder) {
    (earlier.finished.Some? && earlier.finished.value <= later.acquired) || Deadline(earlier) <= later.acquired
  }

  ghost predicate Inv(st: State) {
    && Protected(st) && KeyOwned(st)
    && (forall i :: 0 <= i < |st.holders| ==> st.holders[i].acquired <= st.now)
    && (forall i :: 0 <= i < |st.holders| && st.holders[i].finished.Some? ==>
      st.holders[i].acquired <= st.holders[i].finished.value <= st.now)
    && (forall i, j :: 0 <= i < j < |st.holders| ==> InOrder(st.holders[i], st.holders[j]))
  }

  lemma AcquireKeeps(st: State, ttl: nat)
    requires Inv(st)
    ensures Inv(DoAcquire(st, ttl))
  {
  }

  lemma FinishKeeps(st: State, token: nat)
    requires Inv(st)
    ensures Inv(DoFinish(st, token))
  {
  }

  lemma ReleaseKeeps(st: State, token: nat)
    requires Inv(st)
    ensures Inv(DoRelease(st, token))
  {
  }

  lemma {:induction false} EveryRunKeeps(events: seq<Event>)
    ensures Inv(Run(INITIAL, events))
  {
    if |events| > 0 {
      hide Protected, KeyOwned, InOrder, DoAcquire, DoFinish, DoRelease;
      var n := |events| - 1;
      EveryRunKeeps(events[..n]);
      var before := Run(INITIAL, events[..n]);
      match events[n]
      case Pass(ms) => PassKeeps(before, ms);
      case Acquire(ttl) => AcquireKeeps(before, ttl);
      case Finish(token) => FinishKeeps(before, token);
      case Release(token) => ReleaseKeeps(before, token);
    }
  }

  lemma PassKeeps(st: State, ms: nat)
    requires Inv(st)
    ensures Inv(st.(now := st.now + ms))
  {
  }

  /** The calls overlap: both run at time t. */
  predicate RunsAt(h: Holder, t: int) {
    h.acquired <= t && (h.finished.None? || t < h.finished.value)
  }

  /**
   * Two holders of one device overlap in time only if the earlier one had outlived its TTL before the later one began.
   */
  lemma OverlapOnlyAfterTtl(events: seq<Event>, i: nat, j: nat, t: int)
    requires i < j < |Run(INITIAL, events).holders|
    requires RunsAt(Run(INITIAL, events).holders[i], t) && RunsAt(Run(INITIAL, events).holders[j], t)
    ensures var holders := Run(INITIAL, events).holders;
      holders[i].acquired <= holders[j].acquired && Deadline(holders[i]) <= holders[j].acquired <= t
  {
    EveryRunKeeps(events);
    assert InOrder(Run(INITIAL, events).holders[i], Run(INITIAL, events).holders[j]);
  }

  /** The call got the lock, still runs and is inside its TTL. */
  predicate Holds(st: State, token: nat) {
    token < |st.holders| && st.holders[token].finished.None? && st.now < Deadline(st.holders[token])
  }

  /**
   * Whatever happens, a call that holds the lock keeps it until its own action ends or its TTL runs out: acquisitions,
   * ends of other actions and releases that reach the server arbitrarily late do not free it.
   */
  lemma {:induction false} LockIsKept(before: seq<Event>, after: seq<Event>, token: nat)
    requires Holds(Run(INITIAL, before), token) && Finish(token) !in after
    ensures var st := Run(INITIAL, before + after);
      st.now < Deadline(Run(INITIAL, before).holders[token]) ==>
        Holds(st, token) && IsSet(st) && st.key.value.token == token
    ensures var st := Run(INITIAL, before + after);
      token < |st.holders| && st.holders[token] == Run(INITIAL, before).holders[token]
  {
    hide Step;
    EveryRunKeeps(before + after);
    if |after| == 0 {
      assert before + after == before;
    } else {
      var n := |after| - 1;
      assert (before + after)[..|before| + n] == before + after[..n];
      LockIsKept(before, after[..n], token);
      OtherEvent(Run(INITIAL, before + after[..n]), after[n], token);
    }
  }

  lemma OtherEvent(st: State, e: Event, token: nat)
    requires token < |st.holders| && e != Finish(token)
    ensures token < |Step(st, e).holders| && Step(st, e).holders[token] == st.holders[token]
  {
  }

  /** A release, however late it reaches the server, never frees a lock that another call holds. */
  lemma LateReleaseIsHarmless(events: seq<Event>, token: nat, other: nat)
    requires Holds(Run(INITIAL, events), other)
    ensures var after := Step(Run(INITIAL, events), Release(token));
      Holds(after, other) && IsSet(after) && after.key.value.token == other
  {
    hide Run;
    EveryRunKeeps(events);
  }

  /** A device is busy for newcomers only while a call that got the lock is inside its TTL. */
  lemma BusyMeansOwned(events: seq<Event>, ttl: nat)
    ensures var st := Run(INITIAL, events);
      DoAcquire(st, ttl) == st ==> exists i ::
        0 <= i < |st.holders| && st.holders[i].acquired <= st.now < Deadline(st.holders[i])
  {
    hide Run;
    EveryRunKeeps(events);
    var st := Run(INITIAL, events);
    if IsSet(st) {
      assert st.holders[st.key.value.token].acquired <= st.now < Deadline(st.holders[st.key.value.token]);
    } else {
      assert |DoAcquire(st, ttl).holders| == |st.holders| + 1;
    }
  }

  // ---- mutual exclusion in terms of the events and the requested times

  /** The time that has passed. */
  function Clock(events: seq<Event>): nat {
    if |events| == 0 then 0
    else
      var last := events[|events| - 1];
      Clock(events[..|events| - 1]) + if last.Pass? then last.ms else 0
  }

  /** Event i is an acquisition for `ttl` that succeeds, with token k. */
  ghost predicate Succeeds(events: seq<Event>, i: nat, ttl: nat, k: nat) {
    && i < |events| && events[i] == Acquire(ttl)
    && |Run(INITIAL, events[..i]).holders| == k && |Run(INITIAL, events[..i + 1]).holders| == k + 1
  }

  /** Between events i and j the action with token k ended and its release reached the server after that. */
  ghost predicate Released(events: seq<Event>, i: nat, j: nat, k: nat) {
    exists n, m :: i < n < m < j <= |events| && events[n] == Finish(k) && events[m] == Release(k)
  }

  lemma NextState(events: seq<Event>, n: nat)
    requires n < |events|
    ensures Run(INITIAL, events[..n + 1]) == Step(Run(INITIAL, events[..n]), events[n])
    ensures Clock(events[..n + 1]) == Clock(events[..n]) + if events[n].Pass? then events[n].ms else 0
  {
    assert events[..n + 1][..n] == events[..n];
  }

  lemma {:induction false} NowIsClock(events: seq<Event>)
    ensures Run(INITIAL, events).now == Clock(events)
  {
    if |events| > 0 {
      NowIsClock(events[..|events| - 1]);
    }
  }

  /** A call that is recorded as ended was ended by its own event. */
  lemma {:induction false} EndedBy(events: seq<Event>, i: nat, ttl: nat, k: nat, j: nat) returns (n: nat)
    requires Succeeds(events, i, ttl, k) && i < j <= |events| && HasFinished(Run(INITIAL, events[..j]), k)
    ensures i < n < j && events[n] == Finish(k)
    decreases j
  {
    hide Run;
    NextState(events, j - 1);
    if j == i + 1 {
      NewIsRunning(Run(INITIAL, events[..i]), ttl);
      assert false;
    } else if events[j - 1] == Finish(k) {
      n := j - 1;
    } else {
      n := EndedBy(events, i, ttl, k, j - 1);
    }
  }

  lemma NewIsRunning(st: State, ttl: nat)
    requires |Step(st, Acquire(ttl)).holders| == |st.holders| + 1
    ensures !HasFinished(Step(st, Acquire(ttl)), |st.holders|)
    ensures Step(st, Acquire(ttl)).key == Some(Lock(|st.holders|, st.now + ttl)) && !IsSet(st)
  {
  }

  /** Until the requested time has passed, the key holds the token of a successful acquisition, unless released. */
  lemma {:induction false} KeyIsHeld(events: seq<Event>, i: nat, ttl: nat, k: nat, j: nat)
    requires Succeeds(events, i, ttl, k) && i < j <= |events| && !Released(events, i, j, k)
    requires Clock(events[..j]) < Clock(events[..i]) + ttl
    ensures Run(INITIAL, events[..j]).key == Some(Lock(k, Clock(events[..i]) + ttl))
    ensures IsSet(Run(INITIAL, events[..j]))
    decreases j
  {
    hide Run, Clock;
    NextState(events, j - 1);
    NowIsClock(events[..j]);
    NowIsClock(events[..i]);
    if j == i + 1 {
      NewIsRunning(Run(INITIAL, events[..i]), ttl);
    } else {
      assert !Released(events, i, j - 1, k);
      KeyIsHeld(events, i, ttl, k, j - 1);
      if events[j - 1] == Release(k) && HasFinished(Run(INITIAL, events[..j - 1]), k) {
        var n := EndedBy(events, i, ttl, k, j - 1);
        assert false;
      }
    }
  }

  /**
   * Once `Acquire(ttl)` has succeeded, the key holds its token in every later state before the requested time has
   * passed and the action has ended, and every acquisition there is refused.
   */
  lemma HolderExcludesOthers(events: seq<Event>, i: nat, ttl: nat, k: nat, j: nat)
    requires Succeeds(events, i, ttl, k) && i < j <= |events|
    requires Clock(events[..j]) < Clock(events[..i]) + ttl && forall n :: i < n < j ==> events[n] != Finish(k)
    ensures var st := Run(INITIAL, events[..j]);
      && IsSet(st) && st.key.value.token == k
      && forall other: nat :: Step(st, Acquire(other)) == st
  {
    hide Run, Clock;
    KeyIsHeld(events, i, ttl, k, j);
  }

  /** The key does not hold the token of a call that is over, now or later. */
  predicate IsGone(st: State, k: nat) {
    k < |st.holders| && !(IsSet(st) && st.key.value.token == k)
  }

  lemma {:induction false} StaysGone(events: seq<Event>, n: nat, j: nat, k: nat)
    requires n <= j <= |events| && IsGone(Run(INITIAL, events[..n]), k)
    ensures IsGone(Run(INITIAL, events[..j]), k)
    decreases j
  {
    hide Run;
    if n < j {
      StaysGone(events, n, j - 1, k);
      NextState(events, j - 1);
    }
  }

  /** A call that has ended stays recorded as ended. */
  lemma {:induction false} StaysEnded(events: seq<Event>, n: nat, j: nat, k: nat)
    requires n <= j <= |events| && HasFinished(Run(INITIAL, events[..n]), k)
    ensures HasFinished(Run(INITIAL, events[..j]), k)
    decreases j
  {
    hide Run;
    if n < j {
      StaysEnded(events, n, j - 1, k);
      NextState(events, j - 1);
    }
  }

  lemma {:induction false} StaysKnown(events: seq<Event>, i: nat, ttl: nat, k: nat, j: nat)
    requires Succeeds(events, i, ttl, k) && i < j <= |events|
    ensures k < |Run(INITIAL, events[..j]).holders|
    decreases j
  {
    hide Run;
    if i + 1 < j {
      StaysKnown(events, i, ttl, k, j - 1);
      NextState(events, j - 1);
    }
  }

  lemma ReleasedIsGone(events: seq<Event>, i: nat, ttl: nat, k: nat, j: nat)
    requires Succeeds(events, i, ttl, k) && Released(events, i, j, k)
    ensures IsGone(Run(INITIAL, events[..j]), k)
  {
    hide Run;
    var n, m :| i < n < m < j <= |events| && events[n] == Finish(k) && events[m] == Release(k);
    StaysKnown(events, i, ttl, k, n);
    NextState(events, n);
    StaysEnded(events, n + 1, m, k);
    NextState(events, m);
    StaysGone(events, m + 1, j, k);
  }

  /** The holder of an existing key got it by a successful acquisition, for the time that is left. */
  lemma {:induction false} KeyCameFrom(events: seq<Event>, j: nat) returns (i: nat, ttl: nat)
    requires j <= |events| && IsSet(Run(INITIAL, events[..j]))
    ensures i < j && Succeeds(events, i, ttl, Run(INITIAL, events[..j]).key.value.token)
    ensures Run(INITIAL, events[..j]).key.value.expires == Clock(events[..i]) + ttl
    decreases j
  {
    hide Run, Clock;
    i, ttl := 0, 0;
    if j == 0 {
      NothingRun(events);
      assert false;
    } else {
      NextState(events, j - 1);
      NowIsClock(events[..j - 1]);
      var before := Run(INITIAL, events[..j - 1]);
      if IsSet(before) {
        i, ttl := KeyCameFrom(events, j - 1);
      } else {
        NewKey(before, events[j - 1]);
        i, ttl := j - 1, events[j - 1].ttl;
      }
    }
  }

  lemma NothingRun(events: seq<Event>)
    ensures Run(INITIAL, events[..0]) == INITIAL
  {
  }

  lemma NewKey(st: State, e: Event)
    requires !IsSet(st) && IsSet(Step(st, e))
    ensures e.Acquire? && Step(st, e).key == Some(Lock(|st.holders|, st.now + e.ttl))
    ensures |Step(st, e).holders| == |st.holders| + 1
  {
  }

  /** A call is recorded with the time of its acquisition and the time it asked for, and its end with its own event. */
  lemma {:induction false} RecordedAsRequested(events: seq<Event>, i: nat, ttl: nat, k: nat, j: nat)
    requires Succeeds(events, i, ttl, k) && i < j <= |events|
    ensures k < |Run(INITIAL, events[..j]).holders|
    ensures var h := Run(INITIAL, events[..j]).holders[k];
      && h.acquired == Clock(events[..i]) && h.ttl == ttl
      && (h.finished == None <==> forall n :: i < n < j ==> events[n] != Finish(k))
      && (h.finished.Some? ==>
            exists n :: i < n < j && events[n] == Finish(k) && h.finished.value == Clock(events[..n]))
    decreases j
  {
    hide Run, Clock;
    NextState(events, j - 1);
    NowIsClock(events[..j - 1]);
    if i + 1 < j {
      RecordedAsRequested(events, i, ttl, k, j - 1);
    }
  }

  /**
   * An acquisition is refused exactly if some earlier one succeeded, its own requested time has not passed since, and
   * it has not been released after its action ended.
   */
  lemma RefusedIff(events: seq<Event>, j: nat)
    requires j < |events| && events[j].Acquire?
    ensures !Succeeds(events, j, events[j].ttl, |Run(INITIAL, events[..j]).holders|) <==>
      exists i: nat, ttl: nat, k: nat ::
        && i < j && Succeeds(events, i, ttl, k) && !Released(events, i, j, k)
        && Clock(events[..j]) < Clock(events[..i]) + ttl
  {
    hide Run, Clock, Released;
    NextState(events, j);
    NowIsClock(events[..j]);
    if IsSet(Run(INITIAL, events[..j])) {
      var i, ttl := KeyCameFrom(events, j);
      var k := Run(INITIAL, events[..j]).key.value.token;
      if Released(events, i, j, k) {
        ReleasedIsGone(events, i, ttl, k, j);
      }
    }
    if i: nat, ttl: nat, k: nat :|
        && i < j && Succeeds(events, i, ttl, k) && !Released(events, i, j, k)
        && Clock(events[..j]) < Clock(events[..i]) + ttl {
      KeyIsHeld(events, i, ttl, k, j);
    }
  }

  class DeviceLocks {
    var state: State

    constructor ()
      ensures state == INITIAL
    {
      state := INITIAL;
    }

    /** The first half of `withLock`; None stands for SNMP_DEVICE_BUSY. */
    method TryAcquire(ttl: nat) returns (token: Option<nat>)
      modifies this
      ensures state == Step(old(state), Acquire(ttl))
      ensures token == if IsSet(old(state)) then None else Some(|old(state).holders|)
    {
      if IsSet(state) {
        return None;
      }
      token := Some(|state.holders|);
      state := state.(key := Some(Lock(|state.holders|, state.now + ttl)),
        holders := state.holders + [Holder(state.now, ttl, None)]);
    }

    /** The action of the call has ended, with or without an exception. */
    method EndAction(token: nat)
      requires token < |state.holders| && state.holders[token].finished.None?
      modifies this
      ensures state == Step(old(state), Finish(token))
    {
      state := state.(holders := state.holders[token := state.holders[token].(finished := Some(state.now))]);
    }

    /** The compare-and-delete of the `finally` half, at the time it reaches the server. */
    method CompareAndDelete(token: nat) returns (deleted: bool)
      requires HasFinished(state, token)
      modifies this
      ensures state == Step(old(state), Release(token))
      ensures deleted <==> IsSet(old(state)) && old(state).key.value.token == token
    {
      deleted := IsSet(state) && state.key.value.token == token;
      if deleted {
        state := state.(key := None);
      }
    }
  }
}
