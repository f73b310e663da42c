/** The trap receiver's rate limiter: one window a source, in a map of bounded size. */
module TrapLimiter {
  import opened Wrappers

  const WINDOW_MS := 60_000

  datatype Entry = Entry(window: int, count: int)

  type Limits = map<string, Entry>

  datatype Config = Config(sourceLimit: int, rateLimit: int)

  datatype Verdict = Accepted | OverRate | NoCapacity

  predicate Stale(entry: Entry, now: int) {
    now - entry.window > WINDOW_MS
  }

  function Evict(limits: Limits, now: int): Limits {
    map source | source in limits && !Stale(limits[source], now) :: limits[source]
  }

  /** A source with a running window: the count goes up whatever the verdict. */
  function CountUp(limits: Limits, address: string, config: Config): (Limits, Verdict)
    requires address in limits
  {
    var count := limits[address].count + 1;
    (limits[address := limits[address].(count := count)], if count <= config.rateLimit then Accepted else OverRate)
  }

  /** `allowed`, as a function of the map. */
  function Allow(limits: Limits, address: string, now: int, config: Config): (Limits, Verdict) {
    if address in limits && !Stale(limits[address], now) then CountUp(limits, address, config)
    else
      var room := if address !in limits && |limits| >= config.sourceLimit then Evict(limits, now) else limits;
      if address !in limits && |room| >= config.sourceLimit then (room, NoCapacity)
      else (room[address := Entry(now, 1)], Accepted)
  }

  /** The limiter without a bound on its map: nothing is evicted, nobody is refused for capacity. */
  function AllowUnbounded(limits: Limits, address: string, now: int, config: Config): (Limits, Verdict) {
    if address in limits && !Stale(limits[address], now) then CountUp(limits, address, config)
    else (limits[address := Entry(now, 1)], Accepted)
  }

  // ---- runs

  datatype Trap = Trap(address: string, now: int)

  ghost predicate Timed(traps: seq<Trap>) {
    forall i, j :: 0 <= i < j < |traps| ==> traps[i].now <= traps[j].now
  }

  function Run(traps: seq<Trap>, config: Config): Limits {
    if |traps| == 0 then map[] else
      var last := traps[|traps| - 1];
      Allow(Run(traps[..|traps| - 1], config), last.address, last.now, config).0
  }

  /** The verdict on the last trap. */
  function VerdictOf(traps: seq<Trap>, config: Config): Verdict
    requires |traps| > 0
  {
    var last := traps[|traps| - 1];
    Allow(Run(traps[..|traps| - 1], config), last.address, last.now, config).1
  }

  /** The unbounded limiter, fed the same traps without those refused for capacity. */
  function Shadow(traps: seq<Trap>, config: Config): Limits {
    if |traps| == 0 then map[] else
      var before, last := Shadow(traps[..|traps| - 1], config), traps[|traps| - 1];
      if VerdictOf(traps, config).NoCapacity? then before else AllowUnbounded(before, last.address, last.now, config).0
  }

  function Max(a: int, b: int): int {
    if a >= b then a else b
  }

  /** The bound on the map holds in every run. */
  lemma {:induction false} SizeBounded(traps: seq<Trap>, config: Config)
    ensures |Run(traps, config)| <= Max(config.sourceLimit, 0)
  {
    if |traps| > 0 {
      var n := |traps| - 1;
      SizeBounded(traps[..n], config);
      AllowBounded(Run(traps[..n], config), traps[n].address, traps[n].now, config);
    }
  }

  lemma EvictShrinks(limits: Limits, now: int)
    ensures |Evict(limits, now)| <= |limits|
  {
    SubsetSize(Evict(limits, now).Keys, limits.Keys);
  }

  lemma {:induction false} SubsetSize<T>(a: set<T>, b: set<T>)
    requires a <= b
    ensures |a| <= |b|
  {
    if a != {} {
      var x :| x in a;
      SubsetSize(a - {x}, b - {x});
    }
  }

  lemma AllowBounded(limits: Limits, address: string, now: int, config: Config)
    requires |limits| <= Max(config.sourceLimit, 0)
    ensures |Allow(limits, address, now, config).0| <= Max(config.sourceLimit, 0)
  {
    hide Evict, Stale;
    EvictShrinks(limits, now);
    UpdateSize(limits, address, Entry(now, 1));
    UpdateSize(Evict(limits, now), address, Entry(now, 1));
    if address in limits {
      UpdateSize(limits, address, limits[address].(count := limits[address].count + 1));
    }
  }

  lemma UpdateSize(limits: Limits, address: string, entry: Entry)
    ensures |limits[address := entry]| == |limits| + if address in limits then 0 else 1
  {
  }

  /** What the bounded map has forgotten was stale. */
  ghost predicate Remembers(limits: Limits, shadow: Limits, now: int) {
    && (forall source :: source in limits ==> source in shadow && shadow[source] == limits[source])
    && (forall source :: source in shadow && source !in limits ==> Stale(shadow[source], now))
  }

  lemma AllowRemembers(limits: Limits, shadow: Limits, before: int, address: string, now: int, config: Config)
    requires Remembers(limits, shadow, before) && before <= now
    ensures var (after, verdict) := Allow(limits, address, now, config);
      var (shadowAfter, shadowVerdict) := AllowUnbounded(shadow, address, now, config);
      if verdict.NoCapacity? then Remembers(after, shadow, now)
      else verdict == shadowVerdict && Remembers(after, shadowAfter, now)
  {
  }

  lemma {:induction false} RunRemembers(traps: seq<Trap>, config: Config, now: int)
    requires Timed(traps) && (|traps| > 0 ==> traps[|traps| - 1].now <= now)
    ensures Remembers(Run(traps, config), Shadow(traps, config), now)
  {
    hide Allow, AllowUnbounded;
    if |traps| > 0 {
      var n := |traps| - 1;
      RunRemembers(traps[..n], config, traps[n].now);
      AllowRemembers(Run(traps[..n], config), Shadow(traps[..n], config), traps[n].now, traps[n].address, traps[n].now,
        config);
      assert Remembers(Run(traps, config), Shadow(traps, config), traps[n].now);
    }
  }

  /**
   * Evicting stale windows never changes a verdict: the unbounded limiter agrees on every trap not refused for
   * capacity.
   */
  lemma EvictionIsInvisible(traps: seq<Trap>, config: Config)
    requires Timed(traps) && |traps| > 0 && !VerdictOf(traps, config).NoCapacity?
    ensures var n := |traps| - 1;
      VerdictOf(traps, config) == AllowUnbounded(Shadow(traps[..n], config), traps[n].address, traps[n].now, config).1
  {
    hide Allow, AllowUnbounded;
    var n := |traps| - 1;
    RunRemembers(traps[..n], config, traps[n].now);
    AllowRemembers(Run(traps[..n], config), Shadow(traps[..n], config), traps[n].now, traps[n].address, traps[n].now,
      config);
  }

  /**
   * A trap is refused for capacity only if its source is unknown and as many others as the limit have running windows.
   */
  lemma RefusedOnlyWhenFull(limits: Limits, address: string, now: int, config: Config)
    ensures Allow(limits, address, now, config).1.NoCapacity? <==>
      address !in limits && |limits| >= config.sourceLimit && |Evict(limits, now)| >= config.sourceLimit
  {
  }

  // ---- the rate over any minute

  /** Traps of a source accepted at times from `from` to `from` + 60 s, both included. */
  function AcceptedIn(traps: seq<Trap>, config: Config, address: string, from: int): nat {
    if |traps| == 0 then 0 else
      var last := traps[|traps| - 1];
      AcceptedIn(traps[..|traps| - 1], config, address, from) +
      if last.address == address && from <= last.now <= from + WINDOW_MS && VerdictOf(traps, config).Accepted? then 1
        else 0
  }

  /** How many traps of one window can be accepted: the first always, later ones up to the rate limit. */
  function WindowBound(config: Config): int {
    Max(config.rateLimit, 1)
  }

  function Min(a: int, b: int): int {
    if a <= b then a else b
  }

  /** What the accepted traps of a source amount to, given its latest window in the unbounded limiter. */
  ghost predicate Bounded(accepted: nat, shadow: Limits, address: string, from: int, now: int, config: Config) {
    if address !in shadow then accepted == 0
    else
      var entry, bound := shadow[address], WindowBound(config);
      && entry.window <= now && entry.count >= 1
      && (entry.window + WINDOW_MS < from ==> accepted == 0)
      && (entry.window <= from ==> accepted <= Min(entry.count, bound))
      && (from < entry.window <= from + WINDOW_MS ==> accepted <= bound + Min(entry.count, bound))
      && accepted <= 2 * bound
  }

  lemma StepBounded(accepted: nat, shadow: Limits, address: string, from: int, before: int, now: int, config: Config)
    requires Bounded(accepted, shadow, address, from, before, config) && before <= now
    ensures var (after, verdict) := AllowUnbounded(shadow, address, now, config);
      var more := if from <= now <= from + WINDOW_MS && verdict.Accepted? then 1 else 0;
      Bounded(accepted + more, after, address, from, now, config)
  {
  }

  lemma OtherSource(accepted: nat, shadow: Limits, address: string, other: string, from: int, before: int, now: int,
      config: Config)
    requires Bounded(accepted, shadow, address, from, before, config) && before <= now && other != address
    ensures Bounded(accepted, AllowUnbounded(shadow, other, now, config).0, address, from, now, config)
    ensures Bounded(accepted, shadow, address, from, now, config)
  {
  }

  lemma {:induction false} RunBounded(traps: seq<Trap>, config: Config, address: string, from: int, now: int)
    requires Timed(traps) && (|traps| > 0 ==> traps[|traps| - 1].now <= now)
    ensures Bounded(AcceptedIn(traps, config, address, from), Shadow(traps, config), address, from, now, config)
  {
    hide AllowUnbounded, Allow, Bounded, VerdictOf, Run;
    if |traps| == 0 {
      NothingAccepted(address, from, now, config);
    } else {
      var n := |traps| - 1;
      var last := traps[n];
      var accepted, shadow := AcceptedIn(traps[..n], config, address, from), Shadow(traps[..n], config);
      RunBounded(traps[..n], config, address, from, last.now);
      if !VerdictOf(traps, config).NoCapacity? {
        EvictionIsInvisible(traps, config);
        if last.address == address {
          StepBounded(accepted, shadow, address, from, last.now, last.now, config);
        } else {
          OtherSource(accepted, shadow, address, last.address, from, last.now, last.now, config);
        }
      }
      Later(AcceptedIn(traps, config, address, from), Shadow(traps, config), address, from, last.now, now, config);
    }
  }

  lemma NothingAccepted(address: string, from: int, now: int, config: Config)
    ensures Bounded(0, map[], address, from, now, config)
  {
  }

  lemma Later(accepted: nat, shadow: Limits, address: string, from: int, before: int, now: int, config: Config)
    requires Bounded(accepted, shadow, address, from, before, config) && before <= now
    ensures Bounded(accepted, shadow, address, from, now, config)
  {
  }

  /**
   * No source gets more than twice the rate limit, taken as at least one, accepted in any closed 60-second interval.
   */
  lemma RateBound(traps: seq<Trap>, config: Config, address: string, from: int)
    requires Timed(traps)
    ensures AcceptedIn(traps, config, address, from) <= 2 * Max(config.rateLimit, 1)
  {
    hide Shadow, AcceptedIn;
    RunBounded(traps, config, address, from, if |traps| > 0 then traps[|traps| - 1].now else 0);
  }

  // ---- the verdicts in terms of the traps

  /** The trap of a source that began its latest minute: an accepted one with no such trap in the minute before. */
  ghost function Latest(traps: seq<Trap>, config: Config, address: string): Option<nat> {
    if |traps| == 0 then None
    else
      var n := |traps| - 1;
      var before := Latest(traps[..n], config, address);
      if traps[n].address == address && VerdictOf(traps, config) == Accepted &&
        !Covers(traps[..n], before, traps[n].now) then Some(n) else before
  }

  /** The minute that began with the trap is still running. */
  ghost predicate Covers(traps: seq<Trap>, from: Option<nat>, now: int) {
    from.Some? && from.value < |traps| && now - traps[from.value].now <= 60_000
  }

  /** The traps of a source from position `from` on, whatever their verdicts. */
  ghost function CountFrom(traps: seq<Trap>, address: string, from: nat): nat {
    if |traps| <= from then 0
    else CountFrom(traps[..|traps| - 1], address, from) + if traps[|traps| - 1].address == address then 1 else 0
  }

  lemma {:induction false} LatestIsTrap(traps: seq<Trap>, config: Config, address: string)
    ensures var j := Latest(traps, config, address);
      j.Some? ==> j.value < |traps| && traps[j.value].address == address && CountFrom(traps, address, j.value) >= 1
  {
    hide VerdictOf, Covers;
    if |traps| > 0 {
      var n := |traps| - 1;
      LatestIsTrap(traps[..n], config, address);
    }
  }

  /** What the map knows of a source is when its latest minute began and how many traps came since. */
  ghost predicate Tracks(limits: Limits, traps: seq<Trap>, config: Config, address: string, now: int) {
    var j := Latest(traps, config, address);
    if address in limits then
      && j.Some? && j.value < |traps| && limits[address].window == traps[j.value].now
      && limits[address].count == CountFrom(traps, address, j.value)
    else !Covers(traps, j, now)
  }

  lemma StepTracks(limits: Limits, traps: seq<Trap>, last: Trap, config: Config, address: string, before: int)
    requires limits == Run(traps, config) && Tracks(limits, traps, config, address, before) && before <= last.now
    ensures Tracks(Run(traps + [last], config), traps + [last], config, address, last.now)
  {
    hide Run;
    var all := traps + [last];
    assert all[..|traps|] == traps;
    RunNext(traps, last, config);
    LatestIsTrap(traps, config, address);
    var j := Latest(traps, config, address);
    if j.Some? {
      CountMore(traps, last, address, j.value);
    }
    CountOne(traps, last, address);
  }

  lemma RunNext(traps: seq<Trap>, last: Trap, config: Config)
    ensures Run(traps + [last], config) == Allow(Run(traps, config), last.address, last.now, config).0
    ensures VerdictOf(traps + [last], config) == Allow(Run(traps, config), last.address, last.now, config).1
  {
    assert (traps + [last])[..|traps|] == traps;
  }

  lemma CountMore(traps: seq<Trap>, last: Trap, address: string, from: nat)
    requires from < |traps|
    ensures CountFrom(traps + [last], address, from) ==
      CountFrom(traps, address, from) + if last.address == address then 1 else 0
  {
    assert (traps + [last])[..|traps|] == traps;
  }

  lemma CountOne(traps: seq<Trap>, last: Trap, address: string)
    ensures CountFrom(traps + [last], address, |traps|) == if last.address == address then 1 else 0
  {
    assert (traps + [last])[..|traps|] == traps;
  }

  lemma {:induction false} RunTracks(traps: seq<Trap>, config: Config, address: string, now: int)
    requires Timed(traps) && (|traps| > 0 ==> traps[|traps| - 1].now <= now)
    ensures Tracks(Run(traps, config), traps, config, address, now)
  {
    hide Run, Latest, CountFrom;
    if |traps| > 0 {
      var n := |traps| - 1;
      RunTracks(traps[..n], config, address, traps[n].now);
      assert traps[..n] + [traps[n]] == traps;
      StepTracks(Run(traps[..n], config), traps[..n], traps[n], config, address, traps[n].now);
    } else {
      NothingTracked(config, address, now);
    }
  }

  lemma NothingTracked(config: Config, address: string, now: int)
    ensures Tracks(Run([], config), [], config, address, now)
  {
  }

  /**
   * Within the minute that a source's latest accepted first trap began, exactly the traps up to the rate limit are
   * accepted, counted from that first one, and the later ones refused for the rate.
   */
  lemma AcceptedUpToLimit(traps: seq<Trap>, last: Trap, config: Config)
    requires Timed(traps + [last]) && Covers(traps, Latest(traps, config, last.address), last.now)
    ensures VerdictOf(traps + [last], config) ==
      if CountFrom(traps, last.address, Latest(traps, config, last.address).value) < config.rateLimit then Accepted
      else OverRate
  {
    hide Run, Latest, CountFrom;
    TimedPrefix(traps, last);
    RunTracks(traps, config, last.address, last.now);
    RunNext(traps, last, config);
  }

  lemma TimedPrefix(traps: seq<Trap>, last: Trap)
    requires Timed(traps + [last])
    ensures Timed(traps) && (|traps| > 0 ==> traps[|traps| - 1].now <= last.now)
  {
    var all := traps + [last];
    assert forall i :: 0 <= i < |traps| ==> all[i] == traps[i];
    assert all[|traps|] == last;
  }

  /** The sources whose minute is running. */
  ghost predicate AreRunning(sources: set<string>, traps: seq<Trap>, config: Config, now: int) {
    forall source :: source in sources <==> Covers(traps, Latest(traps, config, source), now)
  }

  /**
   * A trap of a source whose minute is over, or that is new, is accepted unless as many other sources as the limit have
   * a running minute; it is never refused for the rate.
   */
  lemma AcceptedWhileRoom(traps: seq<Trap>, last: Trap, config: Config, running: set<string>)
    requires Timed(traps + [last]) && !Covers(traps, Latest(traps, config, last.address), last.now)
    requires AreRunning(running, traps, config, last.now)
    ensures VerdictOf(traps + [last], config) != OverRate
    ensures |running| < config.sourceLimit ==> VerdictOf(traps + [last], config) == Accepted
  {
    hide Run, Latest, CountFrom;
    TimedPrefix(traps, last);
    RunTracks(traps, config, last.address, last.now);
    RunNext(traps, last, config);
    var limits := Run(traps, config);
    if last.address !in limits {
      forall source | source in Evict(limits, last.now)
        ensures source in running
      {
        RunTracks(traps, config, source, last.now);
      }
      SubsetSize(Evict(limits, last.now).Keys, running);
    }
  }

  class TrapReceiver {
    var limits: Limits
    const config: Config

    constructor (config: Config)
      ensures this.config == config && limits == map[]
    {
      this.config, limits := config, map[];
    }

    /** `allowed` at time `now`. */
    method Allowed(address: string, now: int) returns (ok: bool)
      modifies this
      ensures limits == Allow(old(limits), address, now, config).0
      ensures ok <==> Allow(old(limits), address, now, config).1.Accepted?
    {
      if address !in limits || Stale(limits[address], now) {
        if address !in limits && |limits| >= config.sourceLimit {
          DropStale(now);
          if |limits| >= config.sourceLimit {
            return false;
          }
        }
        limits := limits[address := Entry(now, 1)];
        return true;
      }
      var count := limits[address].count + 1;
      limits := limits[address := limits[address].(count := count)];
      ok := count <= config.rateLimit;
    }

    /** The clean-up loop over the entries. */
    method DropStale(now: int)
      modifies this
      ensures limits == Evict(old(limits), now)
    {
      var left := limits.Keys;
      while left != {}
        invariant left <= old(limits).Keys
        invariant forall source :: source in limits <==>
          source in old(limits) && (source in left || !Stale(old(limits)[source], now))
        invariant forall source :: source in limits ==> limits[source] == old(limits)[source]
        decreases |left|
      {
        var source :| source in left;
        if Stale(limits[source], now) {
          limits := limits - {source};
        }
        left := left - {source};
      }
    }
  }
}
