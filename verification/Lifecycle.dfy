/** The process lifecycle and dependency-health machine, over every run of its calls. */
module Lifecycle {
  import opened Wrappers

  datatype Status = Starting | Running | Draining | Stopping

  datatype Health = Disabled | HealthStarting | Healthy | HealthDraining | Unavailable

  datatype State = State(
    status: Status, redis: Health, database: Health, drainStartedAt: Option<int>, drainReason: Option<string>)

  datatype Dependency = Redis | Database

  datatype Call =
    | MarkRunning
    | MarkStopping
    | MarkDependency(dependency: Dependency, observed: Observation)
    | StartDraining(reason: string, now: int)

  datatype Observation = SawStarting | SawHealthy | SawUnavailable | SawDraining | SawDisabled

  const INIT := State(Starting, Disabled, Disabled, None, None)

  function DrainDependency(h: Health): Health {
    if h.Healthy? then HealthDraining else h
  }

  predicate DependencyIsReady(h: Health) {
    h.Disabled? || h.Healthy?
  }

  predicate IsReady(s: State) {
    s.status.Running? && DependencyIsReady(s.redis) && DependencyIsReady(s.database)
  }

  function HealthyStatus(status: Status): Health {
    if status.Draining? || status.Stopping? then HealthDraining else Healthy
  }

  function Observed(status: Status, h: Health, o: Observation): Health {
    match o
    case SawStarting => HealthStarting
    case SawHealthy => HealthyStatus(status)
    case SawUnavailable => Unavailable
    case SawDraining => DrainDependency(h)
    case SawDisabled => Disabled
  }

  /** Whether `start_draining` would answer True. */
  predicate CanStartDraining(s: State) {
    !s.status.Draining? && !s.status.Stopping?
  }

  function Apply(s: State, call: Call): State {
    match call
    case MarkRunning => if s.status.Starting? || s.status.Stopping? then s.(status := Running) else s
    case MarkStopping =>
      s.(status := Stopping, redis := DrainDependency(s.redis), database := DrainDependency(s.database))
    case MarkDependency(Redis, o) => s.(redis := Observed(s.status, s.redis, o))
    case MarkDependency(Database, o) => s.(database := Observed(s.status, s.database, o))
    case StartDraining(reason, now) =>
      if CanStartDraining(s) then
        State(Draining, DrainDependency(s.redis), DrainDependency(s.database), Some(now), Some(reason))
      else s
  }

  function Run(s: State, calls: seq<Call>): State {
    if calls == [] then s else Apply(Run(s, calls[..|calls| - 1]), calls[|calls| - 1])
  }

  /** The state `LifecycleState` objects are in before call number `k` of a run. */
  function Before(calls: seq<Call>, k: nat): State
    requires k <= |calls|
  {
    Run(INIT, calls[..k])
  }

  class LifecycleState {
    var status: Status
    var redisStatus: Health
    var databaseStatus: Health
    var drainStartedAt: Option<int>
    var drainReason: Option<string>

    ghost function Snapshot(): State
      reads this
    {
      State(status, redisStatus, databaseStatus, drainStartedAt, drainReason)
    }

    constructor ()
      ensures Snapshot() == INIT
    {
      status, redisStatus, databaseStatus, drainStartedAt, drainReason := Starting, Disabled, Disabled, None, None;
    }

    method MarkRunning()
      modifies this
      ensures Snapshot() == Apply(old(Snapshot()), Call.MarkRunning)
    {
      if status.Starting? || status.Stopping? {
        status := Running;
      }
    }

    method MarkStopping()
      modifies this
      ensures Snapshot() == Apply(old(Snapshot()), Call.MarkStopping)
    {
      status := Stopping;
      redisStatus := DrainDependency(redisStatus);
      databaseStatus := DrainDependency(databaseStatus);
    }

    /** The ten `mark_redis_*` and `mark_database_*` methods: one per dependency and observation. */
    method MarkDependency(dependency: Dependency, observed: Observation)
      modifies this
      ensures Snapshot() == Apply(old(Snapshot()), Call.MarkDependency(dependency, observed))
      ensures status == old(status)
      ensures status.Draining? || status.Stopping? ==>
                match dependency case Redis => !redisStatus.Healthy? case Database => !databaseStatus.Healthy?
    {
      match dependency
      case Redis => redisStatus := Observed(status, redisStatus, observed);
      case Database => databaseStatus := Observed(status, databaseStatus, observed);
    }

    method StartDraining(reason: string, now: int) returns (started: bool)
      modifies this
      ensures Snapshot() == Apply(old(Snapshot()), Call.StartDraining(reason, now))
      ensures started <==> CanStartDraining(old(Snapshot()))
    {
      if status.Draining? {
        return false;
      }
      if status.Stopping? {
        return false;
      }
      status := Draining;
      redisStatus := DrainDependency(redisStatus);
      databaseStatus := DrainDependency(databaseStatus);
      drainStartedAt := Some(now);
      drainReason := Some(reason);
      return true;
    }
  }

  // ---------------------------------------------------------------- every run

  lemma RunSnoc(calls: seq<Call>, k: nat)
    requires k < |calls|
    ensures Before(calls, k + 1) == Apply(Before(calls, k), calls[k])
  {
    assert calls[..k + 1][..k] == calls[..k];
  }

  /** While draining or stopping, no dependency is reported healthy and the process is not ready. */
  lemma {:induction false} DrainingIsNeverReady(calls: seq<Call>)
    ensures var s := Run(INIT, calls);
            s.status.Draining? || s.status.Stopping? ==> !s.redis.Healthy? && !s.database.Healthy? && !IsReady(s)
  {
    if calls == [] {
    } else {
      DrainingIsNeverReady(calls[..|calls| - 1]);
    }
  }

  predicate StartsDrain(calls: seq<Call>, k: nat)
    requires k < |calls|
  {
    calls[k].StartDraining? && CanStartDraining(Before(calls, k))
  }

  ghost predicate IsLastStart(calls: seq<Call>, k: nat) {
    k < |calls| && StartsDrain(calls, k) && forall j :: k < j < |calls| ==> !StartsDrain(calls, j)
  }

  /** The drain record is that of the last call that started a drain, and empty before the first. */
  lemma {:induction false} DrainRecordIsLastStart(calls: seq<Call>)
    ensures var s := Run(INIT, calls);
            && (s.drainReason.None? <==> s.drainStartedAt.None?)
            && (s.drainReason.None? ==> forall k :: 0 <= k < |calls| ==> !StartsDrain(calls, k))
            && (s.drainReason.Some? ==>
                 exists k: nat :: IsLastStart(calls, k) && s.drainReason == Some(calls[k].reason)
                   && s.drainStartedAt == Some(calls[k].now))
  {
    if calls == [] {
    } else {
      var n := |calls| - 1;
      var init := calls[..n];
      DrainRecordIsLastStart(init);
      forall k | 0 <= k < n ensures StartsDrain(calls, k) <==> StartsDrain(init, k) {
        assert calls[..k] == init[..k];
      }
      if StartsDrain(calls, n) {
        assert IsLastStart(calls, n);
      } else if Run(INIT, init).drainReason.Some? {
        var k: nat :| IsLastStart(init, k) && Run(INIT, init).drainReason == Some(init[k].reason)
                 && Run(INIT, init).drainStartedAt == Some(init[k].now);
        assert IsLastStart(calls, k);
      }
    }
  }

  function HealthOf(s: State, d: Dependency): Health {
    match d case Redis => s.redis case Database => s.database
  }

  /** The call reports what was seen of the dependency; asking it to drain reports nothing. */
  predicate Observes(call: Call, d: Dependency) {
    call.MarkDependency? && call.dependency == d && !call.observed.SawDraining?
  }

  ghost predicate IsLastObservation(calls: seq<Call>, d: Dependency, k: nat) {
    k < |calls| && Observes(calls[k], d) && forall j :: k < j < |calls| ==> !Observes(calls[j], d)
  }

  /** The call drains a healthy dependency. */
  predicate DrainsAt(calls: seq<Call>, d: Dependency, j: nat)
    requires j < |calls|
  {
    calls[j].MarkStopping? || StartsDrain(calls, j) || calls[j] == MarkDependency(d, SawDraining)
  }

  ghost predicate DrainedSince(calls: seq<Call>, d: Dependency, k: nat) {
    exists j: nat :: k < j < |calls| && DrainsAt(calls, d, j)
  }

  /** The dependency was healthy when last observed, and nothing has drained it before or since. */
  ghost predicate StaysHealthy(calls: seq<Call>, d: Dependency, k: nat)
    requires k < |calls|
  {
    && calls[k].MarkDependency? && calls[k].observed.SawHealthy?
    && !Before(calls, k).status.Draining? && !Before(calls, k).status.Stopping?
    && !DrainedSince(calls, d, k)
  }

  /** What a last observation leaves a dependency in. */
  ghost predicate IsLeftIn(calls: seq<Call>, d: Dependency, k: nat, h: Health)
    requires k < |calls| && calls[k].MarkDependency?
  {
    match calls[k].observed
    case SawStarting => h == HealthStarting
    case SawUnavailable => h == Unavailable
    case SawDisabled => h == Disabled
    case SawHealthy => h == if StaysHealthy(calls, d, k) then Healthy else HealthDraining
    case SawDraining => false
  }

  /** The health of a dependency after any run is told by its last observation, and by drains since. */
  lemma {:induction false} HealthMeaning(calls: seq<Call>, d: Dependency)
    ensures (forall k :: 0 <= k < |calls| ==> !Observes(calls[k], d)) ==> HealthOf(Run(INIT, calls), d) == Disabled
    ensures forall k: nat :: IsLastObservation(calls, d, k) ==> IsLeftIn(calls, d, k, HealthOf(Run(INIT, calls), d))
  {
    if calls == [] {
    } else {
      var n := |calls| - 1;
      var init := calls[..n];
      HealthMeaning(init, d);
      assert forall k :: 0 <= k < n ==> calls[k] == init[k];
      if Observes(calls[n], d) {
        assert Before(calls, n) == Run(INIT, init);
        assert !DrainedSince(calls, d, n);
      } else {
        forall k: nat | IsLastObservation(calls, d, k) ensures IsLeftIn(calls, d, k, HealthOf(Run(INIT, calls), d)) {
          assert IsLastObservation(init, d, k);
          DrainedSinceSnoc(calls, d, k);
        }
      }
    }
  }

  lemma DrainedSinceSnoc(calls: seq<Call>, d: Dependency, k: nat)
    requires k < |calls| - 1
    ensures DrainedSince(calls, d, k) <==> DrainedSince(calls[..|calls| - 1], d, k) || DrainsAt(calls, d, |calls| - 1)
    ensures Before(calls, k) == Before(calls[..|calls| - 1], k)
  {
    var n := |calls| - 1;
    var init := calls[..n];
    forall j: nat | j < n ensures DrainsAt(calls, d, j) <==> DrainsAt(init, d, j) {
      assert calls[..j] == init[..j];
    }
    assert calls[..k] == init[..k];
    if DrainedSince(init, d, k) {
      var j: nat :| k < j < n && DrainsAt(init, d, j);
      assert DrainsAt(calls, d, j);
    }
    if DrainedSince(calls, d, k) && !DrainsAt(calls, d, n) {
      var j: nat :| k < j <= n && DrainsAt(calls, d, j);
      assert DrainsAt(init, d, j);
    }
  }

  /** Call `j` set the process running, and no later call stops it or asks it to drain. */
  predicate RunsSince(calls: seq<Call>, j: nat) {
    && j < |calls| && calls[j].MarkRunning? && !Before(calls, j).status.Draining?
    && forall i :: j < i < |calls| ==> !calls[i].MarkStopping? && !calls[i].StartDraining?
  }

  ghost predicate HasBeenStarted(calls: seq<Call>) {
    exists j: nat :: RunsSince(calls, j)
  }

  lemma RunsSinceSnoc(calls: seq<Call>, j: nat)
    requires calls != [] && j < |calls| - 1
    ensures RunsSince(calls, j) <==>
            RunsSince(calls[..|calls| - 1], j) && !calls[|calls| - 1].MarkStopping? && !calls[|calls| - 1].StartDraining?
  {
    assert calls[..j] == calls[..|calls| - 1][..j];
  }

  lemma HasBeenStartedSnoc(calls: seq<Call>)
    requires calls != []
    ensures var n := |calls| - 1;
            HasBeenStarted(calls) <==>
            || (calls[n].MarkRunning? && !Before(calls, n).status.Draining?)
            || (HasBeenStarted(calls[..n]) && !calls[n].MarkStopping? && !calls[n].StartDraining?)
  {
    var n := |calls| - 1;
    forall j: nat | j < n
      ensures RunsSince(calls, j) <==>
              RunsSince(calls[..n], j) && !calls[n].MarkStopping? && !calls[n].StartDraining?
    {
      RunsSinceSnoc(calls, j);
    }
    if calls[n].MarkRunning? && !Before(calls, n).status.Draining? {
      assert RunsSince(calls, n);
    }
  }

  /** When a process is running. */
  lemma {:induction false} RunningMeaning(calls: seq<Call>)
    ensures Run(INIT, calls).status.Running? <==> HasBeenStarted(calls)
  {
    if calls == [] {
    } else {
      RunningMeaning(calls[..|calls| - 1]);
      HasBeenStartedSnoc(calls);
    }
  }

  /** The dependency was never observed, was last seen disabled, or is healthy still. */
  ghost predicate IsUsable(calls: seq<Call>, d: Dependency) {
    forall k: nat :: IsLastObservation(calls, d, k) ==> calls[k].observed.SawDisabled? || StaysHealthy(calls, d, k)
  }

  lemma {:induction false} LastObservationExists(calls: seq<Call>, d: Dependency) returns (k: nat)
    requires exists j :: 0 <= j < |calls| && Observes(calls[j], d)
    ensures IsLastObservation(calls, d, k)
  {
    var n := |calls| - 1;
    if Observes(calls[n], d) {
      k := n;
    } else {
      var j :| 0 <= j < |calls| && Observes(calls[j], d);
      assert Observes(calls[..n][j], d);
      k := LastObservationExists(calls[..n], d);
    }
  }

  lemma UsableIff(calls: seq<Call>, d: Dependency)
    ensures DependencyIsReady(HealthOf(Run(INIT, calls), d)) <==> IsUsable(calls, d)
  {
    HealthMeaning(calls, d);
    if exists j :: 0 <= j < |calls| && Observes(calls[j], d) {
      var k := LastObservationExists(calls, d);
      assert IsLeftIn(calls, d, k, HealthOf(Run(INIT, calls), d));
    }
  }

  /** When a process is ready, told by the calls alone. */
  lemma ReadyMeaning(calls: seq<Call>)
    ensures IsReady(Run(INIT, calls)) <==>
            HasBeenStarted(calls) && IsUsable(calls, Redis) && IsUsable(calls, Database)
  {
    RunningMeaning(calls);
    UsableIff(calls, Redis);
    UsableIff(calls, Database);
  }

  /** From a draining state the only way out is a stop: without one the process keeps draining. */
  lemma {:induction false} DrainingLastsUntilStop(calls: seq<Call>, from: nat, to: nat)
    requires from <= to <= |calls| && Before(calls, from).status.Draining?
    requires forall k :: from <= k < to ==> !calls[k].MarkStopping?
    ensures Before(calls, to).status.Draining?
  {
    if from == to {
    } else {
      DrainingLastsUntilStop(calls, from, to - 1);
      RunSnoc(calls, to - 1);
    }
  }

  lemma {:induction false} StoppingLastsUntilRunning(calls: seq<Call>, from: nat, to: nat)
    requires from <= to <= |calls| && Before(calls, from).status.Stopping?
    requires forall k :: from <= k < to ==> !calls[k].MarkRunning?
    ensures Before(calls, to).status.Stopping?
  {
    if from == to {
    } else {
      StoppingLastsUntilRunning(calls, from, to - 1);
      RunSnoc(calls, to - 1);
    }
  }

  /**
    After a drain the process is outside draining and stopping again (ready, or able to
    drain anew) only if a stop came in between and, after it, a return to running.
  */
  lemma DrainEndsByStopThenRestart(calls: seq<Call>, i: nat, j: nat) returns (stop: nat, run: nat)
    requires i < j <= |calls| && i < |calls| && StartsDrain(calls, i) && CanStartDraining(Before(calls, j))
    ensures i < stop < run < j && calls[stop].MarkStopping? && calls[run].MarkRunning?
  {
    RunSnoc(calls, i);
    if forall k :: i < k < j ==> !calls[k].MarkStopping? {
      DrainingLastsUntilStop(calls, i + 1, j);
      assert false;
    }
    stop :| i < stop < j && calls[stop].MarkStopping?;
    RunSnoc(calls, stop);
    if forall k :: stop < k < j ==> !calls[k].MarkRunning? {
      StoppingLastsUntilRunning(calls, stop + 1, j);
      assert false;
    }
    run :| stop < run < j && calls[run].MarkRunning?;
  }

  /** Two calls that both start a drain are separated by a stop and then a restart. */
  lemma DrainsAreSeparated(calls: seq<Call>, i: nat, j: nat) returns (stop: nat, run: nat)
    requires i < j < |calls| && StartsDrain(calls, i) && StartsDrain(calls, j)
    ensures i < stop < run < j && calls[stop].MarkStopping? && calls[run].MarkRunning?
  {
    stop, run := DrainEndsByStopThenRestart(calls, i, j);
  }
}
