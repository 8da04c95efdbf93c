/** What the ingestion protocol guarantees: safety over every run, and progress once failures stop. */
module DeliveryGuarantees {
  import opened Wrappers
  import opened Events
  import opened EventStore
  import opened StreamProtocol
  import opened PollProgram
  import GeneratedViews

  // ---------------------------------------------------------------- safety

  /** The stored prefix reaches past every valid entry that was delivered and is not pending. */
  ghost predicate CoversDelivered(c: Config, b: Broker, p: nat) {
    b.group.Some? ==>
      forall i: nat ::
        i < b.group.value.lastDelivered && IsValid(c, b, i) && i !in b.group.value.pending ==> i < p
  }

  /**
    Main safety theorem. Whatever the interleaving of appends, reads, failed or silently
    successful commits, failed acks, crashes and loss of the group: the table is the
    first-write-wins fold of a stream prefix, no id is stored twice, and that prefix
    reaches past everything delivered and no longer pending.
  */
  lemma EveryRunStoresAPrefix(c: Config, steps: seq<Step>) returns (p: nat)
    ensures var s := Run(c, INIT, steps);
            && p <= |s.broker.entries|
            && s.rows == Stored(c, s.broker, p)
            && DistinctIds(s.rows)
            && CoversDelivered(c, s.broker, p)
  {
    p := ReachableInv(c, steps);
    var s := Run(c, INIT, steps);
    TableIsFirstWriteWins(EventsAt(c, s.broker, Range(0, p)));
  }

  /**
    The same, read off the raw stream: after every run the table has one row for each entry of a
    stream prefix that carries an event with a new id, holding that event, in stream order.
  */
  lemma EveryRunStoresFirstWrites(c: Config, steps: seq<Step>) returns (p: nat, from: seq<nat>)
    ensures var s := Run(c, INIT, steps);
            p <= |s.broker.entries| && AreFirstCarriers(c, s.broker, p, s.rows, from)
  {
    p := EveryRunStoresAPrefix(c, steps);
    from := StoredMeaning(c, Run(c, INIT, steps).broker, p);
  }

  /** Nothing valid is lost: the event of a delivered entry is in the table unless still pending. */
  lemma NothingValidIsLost(c: Config, steps: seq<Step>, i: nat)
    requires var b := Run(c, INIT, steps).broker;
             && b.group.Some? && i < b.group.value.lastDelivered && i !in b.group.value.pending
             && IsValid(c, b, i)
    ensures var s := Run(c, INIT, steps);
            HasId(s.rows, Coerce(c.codec, s.broker.entries[i]).value.eventId)
    ensures var s := Run(c, INIT, steps);
            forall event :: Carries(c, s.broker, i, event) ==> HasId(s.rows, event.eventId)
  {
    CarriesIff(c, Run(c, INIT, steps).broker, i);
    var p := EveryRunStoresAPrefix(c, steps);
    StoredHasId(c, Run(c, INIT, steps).broker, p, i);
  }

  /** Stored rows are never changed, reordered or removed by any continuation of a run. */
  lemma {:induction false} RowsOnlyGrow(c: Config, s: State, steps: seq<Step>)
    ensures s.rows <= Run(c, s, steps).rows
  {
    if steps == [] {
    } else {
      var mid, step := Run(c, s, steps[..|steps| - 1]), steps[|steps| - 1];
      RowsOnlyGrow(c, s, steps[..|steps| - 1]);
      if step.Command? && mid.phase.Store? {
        InsertKeepsRows(mid.rows, EventsAt(c, mid.broker, mid.phase.batch));
      }
    }
  }

  /** The step delivers new entries to the group. */
  predicate Delivers(c: Config, s: State, step: Step) {
    && step.Command? && !step.outcome.Refused? && s.phase == ReadNew && s.broker.group.Some?
    && NewIds(s.broker, s.broker.group.value, c.batchSize) != []
  }

  /** The batch delivered most recently in a run. */
  function LastDelivery(c: Config, steps: seq<Step>): seq<nat> {
    if steps == [] then []
    else
      var n := |steps| - 1;
      var before := Run(c, INIT, steps[..n]);
      if Delivers(c, before, steps[n]) then NewIds(before.broker, before.broker.group.value, c.batchSize)
      else LastDelivery(c, steps[..n])
  }

  /** The pending ids belong to the batch `ids`, the stretch that ends at last-delivered. */
  ghost predicate PendingIn(c: Config, b: Broker, ids: seq<nat>) {
    b.group.Some? && b.group.value.pending != [] ==>
      var g := b.group.value;
      && |ids| <= c.batchSize && |ids| <= g.lastDelivered
      && ids == Range(g.lastDelivered - |ids|, g.lastDelivered)
      && forall x :: x in g.pending ==> x in ids
  }

  /** Without a delivery the pending list only loses ids and last-delivered stays, or the group is new. */
  lemma OtherStepsKeepBatch(c: Config, s: State, step: Step, ids: seq<nat>)
    requires PendingIn(c, s.broker, ids) && !Delivers(c, s, step)
    ensures PendingIn(c, Apply(c, s, step).broker, ids)
  {
    var b, b' := s.broker, Apply(c, s, step).broker;
    if step.Command? && (s.phase.AckInvalid? || s.phase.AckValid?) && b.group.Some? {
      WithoutMeaning(b.group.value.pending, Select(c, b, s.phase.batch, s.phase.AckValid?));
      EmptyOrInhabited(b'.group.value.pending);
    }
  }

  /** Right after a delivery to a group without pending entries, the batch is what is pending. */
  lemma DeliveryIsPending(c: Config, b: Broker, g: Group)
    requires b.group == Some(g) && g.pending == [] && b.first <= |b.entries| && g.lastDelivered <= |b.entries|
    requires NewIds(b, g, c.batchSize) != []
    ensures PendingIn(c, NewDelivered(b, g, c.batchSize), NewIds(b, g, c.batchSize))
  {
    var ids, lo := NewIds(b, g, c.batchSize), FirstUndelivered(b, g);
    var hi := Min(lo + c.batchSize, |b.entries|);
    assert ids == Range(lo, hi) && |ids| == hi - lo && ids[|ids| - 1] == hi - 1;
    NothingPlus(ids);
    assert NewDelivered(b, g, c.batchSize).group == Some(Group(hi, ids));
  }

  lemma NothingPlus(ids: seq<nat>)
    ensures [] + ids == ids
  {
  }

  /** Whatever is pending lies in the batch delivered most recently, which is contiguous. */
  lemma {:induction false} PendingStaysInLastBatch(c: Config, steps: seq<Step>)
    ensures PendingIn(c, Run(c, INIT, steps).broker, LastDelivery(c, steps))
  {
    if steps == [] {
    } else {
      var n := |steps| - 1;
      var before := Run(c, INIT, steps[..n]);
      if Delivers(c, before, steps[n]) {
        var p := ReachableInv(c, steps[..n]);
        DeliveryIsPending(c, before.broker, before.broker.group.value);
      } else {
        PendingStaysInLastBatch(c, steps[..n]);
        OtherStepsKeepBatch(c, before, steps[n], LastDelivery(c, steps));
      }
    }
  }

  /** A step that delivers new entries is taken only when nothing is pending. */
  lemma NewEntriesWaitForPending(c: Config, steps: seq<Step>, step: Step)
    requires var b, b' := Run(c, INIT, steps).broker, Apply(c, Run(c, INIT, steps), step).broker;
             b.group.Some? && b'.group.Some? && b'.group.value.lastDelivered > b.group.value.lastDelivered
    ensures Run(c, INIT, steps).broker.group.value.pending == []
  {
    var p := ReachableInv(c, steps);
  }

  // ---------------------------------------------------------------- progress

  /** The quotient rounded up: how many batches of `d` it takes to read `n` entries. */
  function CeilDiv(n: nat, d: nat): (q: nat)
    requires d > 0
    ensures d * q - d < n + (if n == 0 then 1 else 0) && n <= d * q
  {
    if n == 0 then 0 else if n <= d then 1 else CeilDiv(n - d, d) + 1
  }

  /** Entries the group has not delivered yet; a missing group starts over at the stream's first entry. */
  function Undelivered(b: Broker): nat {
    var lo := if b.group.Some? then FirstUndelivered(b, b.group.value) else b.first;
    if lo < |b.entries| then |b.entries| - lo else 0
  }

  /** One poll per batch still to read, one more for pending entries, one more to notice a lost group. */
  function PollsNeeded(c: Config, s: State): nat
    requires c.batchSize > 0
  {
    CeilDiv(Undelivered(s.broker), c.batchSize)
    + (if s.broker.group.Some? && s.broker.group.value.pending != [] then 1 else 0)
    + (if s.broker.group.None? && s.phase != LoopTop(false) && s.phase != Down then 1 else 0)
  }

  predicate IsUndelivered(b: Broker, i: int) {
    b.group.Some? ==> b.group.value.lastDelivered <= i
  }

  /** Positions of entries that are in the stream and were not delivered to the group. */
  function UndeliveredIds(b: Broker): set<int> {
    set i | b.first <= i < |b.entries| && IsUndelivered(b, i)
  }

  /** The bound in numbers: the undelivered entries in batches, rounded up, and at most two more polls. */
  lemma PollsNeededMeaning(c: Config, s: State)
    requires c.batchSize > 0
    ensures PollsNeeded(c, s) ==
            CeilDiv(|UndeliveredIds(s.broker)|, c.batchSize)
            + (if s.broker.group.Some? && s.broker.group.value.pending != [] then 1 else 0)
            + (if s.broker.group.None? && s.phase != LoopTop(false) && s.phase != Down then 1 else 0)
  {
    UndeliveredMeaning(s.broker);
  }

  lemma UndeliveredMeaning(b: Broker)
    ensures Undelivered(b) == |UndeliveredIds(b)|
  {
    var lo := if b.group.Some? then FirstUndelivered(b, b.group.value) else b.first;
    assert UndeliveredIds(b) == Interval(lo, |b.entries|);
  }

  function Interval(lo: nat, hi: nat): (ids: set<int>)
    ensures forall i :: i in ids <==> lo <= i < hi
    ensures |ids| == if lo < hi then hi - lo else 0
    decreases hi
  {
    if hi <= lo then {} else Interval(lo, hi - 1) + {hi - 1}
  }

  lemma AckAllClears(c: Config, b: Broker, ids: seq<nat>)
    ensures Without(Without(ids, Select(c, b, ids, false)), Select(c, b, ids, true)) == []
  {
    var once := Without(ids, Select(c, b, ids, false));
    var twice := Without(once, Select(c, b, ids, true));
    WithoutMeaning(ids, Select(c, b, ids, false));
    WithoutMeaning(once, Select(c, b, ids, true));
    SelectMeaning(c, b, ids, true);
    SelectMeaning(c, b, ids, false);
    EmptyOrInhabited(twice);
  }

  lemma EmptyOrInhabited(ids: seq<nat>)
    ensures ids == [] || exists x :: x in ids
  {
    if ids != [] {
      assert ids[0] in ids;
    }
  }

  /** Acks of nothing may be skipped: they would remove nothing. */
  lemma WithoutNothing(ids: seq<nat>)
    ensures Without(ids, []) == ids
  {
    if ids == [] {
    } else {
      WithoutNothing(ids[..|ids| - 1]);
    }
  }

  function WithPending(b: Broker, g: Group, pending: seq<nat>): Broker {
    b.(group := Some(g.(pending := pending)))
  }

  /** A failure-free poll takes its commands one by one, each carried out and answered. */
  lemma CalmCommand(c: Config, s: State)
    requires Rank(s.phase) > 0
    ensures Continue(c, s, CALM_POLL) == Continue(c, CommandApply(c, s, Done), CALM_POLL)
  {
    assert AwaitOf(s.phase, CALM_POLL) == CALM;
    assert OneCommand(c, s, CALM) == CommandApply(c, s, Done);
  }

  /** Storing and acking the valid part of a batch without failure. */
  lemma CalmStoreClears(c: Config, s: State, g: Group, ids: seq<nat>)
    requires s.broker.group == Some(g) && s.phase == AfterAckInvalid(c, s.broker, ids)
    requires Without(g.pending, Select(c, s.broker, ids, true)) == []
    ensures var t := Continue(c, s, CALM_POLL);
            t.phase == LoopTop(true) && t.broker == WithPending(s.broker, g, [])
  {
    SelectMeaning(c, s.broker, ids, true);
    if s.phase.Store? {
      var s2 := CommandApply(c, s, Done);
      assert s2.phase == AckValid(ids) && s2.broker == s.broker;
      var s3 := CommandApply(c, s2, Done);
      assert s3.phase == LoopTop(true) && s3.broker == WithPending(s.broker, g, []);
      CalmCommand(c, s);
      CalmCommand(c, s2);
    } else {
      assert Select(c, s.broker, ids, true) == [];
      WithoutNothing(g.pending);
    }
  }

  /** A poll that meets no failure acknowledges the whole batch it read. */
  lemma CalmBatchIsCleared(c: Config, s: State, ids: seq<nat>)
    requires s.broker.group.Some? && s.broker.group.value.pending == ids
    requires s.phase == AfterRead(c, s.broker, ids) && forall k :: 0 <= k < |ids| ==> ids[k] < |s.broker.entries|
    ensures var t := Continue(c, s, CALM_POLL);
            t.phase == LoopTop(true) && t.broker == WithPending(s.broker, s.broker.group.value, [])
  {
    var b, g, bad := s.broker, s.broker.group.value, Select(c, s.broker, ids, false);
    var b1 := WithPending(b, g, Without(ids, bad));
    EventsAtStable(c, b, b1, ids);
    AckAllClears(c, b, ids);
    var s1 := s.(broker := b1, phase := AfterAckInvalid(c, b1, ids));
    if bad != [] {
      assert s1 == CommandApply(c, s, Done);
      CalmCommand(c, s);
    } else {
      WithoutNothing(ids);
      assert s1 == s;
    }
    CalmStoreClears(c, s1, b1.group.value, ids);
  }

  /** A failure-free poll with pending entries retires all of them and delivers nothing. */
  lemma CalmPendingPoll(c: Config, s: State, p: nat)
    requires Inv(c, s, p) && s.phase == ReadPending
    requires s.broker.group.Some? && s.broker.group.value.pending != []
    ensures Continue(c, s, CALM_POLL).phase == LoopTop(true)
    ensures Continue(c, s, CALM_POLL).broker == WithPending(s.broker, s.broker.group.value, [])
  {
    var g := s.broker.group.value;
    assert PendingIds(g, c.batchSize) == g.pending;
    var s1 := CommandApply(c, s, Done);
    CalmCommand(c, s);
    CalmBatchIsCleared(c, s1, g.pending);
  }

  /** The group after a failure-free poll that found nothing pending. */
  function Advanced(b: Broker, g: Group, count: nat): Group {
    var ids := NewIds(b, g, count);
    Group(if ids == [] then g.lastDelivered else ids[|ids| - 1] + 1, [])
  }

  /** A failure-free poll without pending entries reads the next batch and leaves nothing pending. */
  lemma CalmNewPoll(c: Config, s: State, g: Group)
    requires s.phase == ReadPending && s.broker.group == Some(g) && g.pending == []
    ensures var t := Continue(c, s, CALM_POLL);
            t.phase == LoopTop(true) && t.broker == s.broker.(group := Some(Advanced(s.broker, g, c.batchSize)))
  {
    var ids, b2 := NewIds(s.broker, g, c.batchSize), NewDelivered(s.broker, g, c.batchSize);
    var s1, s2 := s.(phase := ReadNew), s.(broker := b2, phase := AfterRead(c, b2, ids));
    assert PendingIds(g, c.batchSize) == [];
    assert CommandApply(c, s, Done) == s1 && CommandApply(c, s1, Done) == s2;
    CalmCommand(c, s);
    CalmCommand(c, s1);
    CalmDelivery(s.broker, g, c.batchSize);
    CalmBatchIsCleared(c, s2, ids);
  }

  /** What is pending after a delivery to a group without pending entries. */
  lemma CalmDelivery(b: Broker, g: Group, count: nat)
    requires b.group == Some(g) && g.pending == []
    ensures var b', ids := NewDelivered(b, g, count), NewIds(b, g, count);
            && b'.entries == b.entries && b'.group.Some? && b'.group.value.pending == ids
            && WithPending(b', b'.group.value, []) == b.(group := Some(Advanced(b, g, count)))
            && forall k :: 0 <= k < |ids| ==> ids[k] < |b.entries|
  {
    assert [] + NewIds(b, g, count) == NewIds(b, g, count);
  }

  /** The number of batches left drops by one with every failure-free poll. */
  lemma AdvancedBatches(b: Broker, g: Group, count: nat)
    requires count > 0 && b.first <= |b.entries| && g.lastDelivered <= |b.entries|
    ensures var b' := b.(group := Some(Advanced(b, g, count)));
            var n := CeilDiv(Undelivered(b.(group := Some(g))), count);
            CeilDiv(Undelivered(b'), count) == if n > 0 then n - 1 else 0
  {
  }

  /** What a failure-free iteration does to the broker and to the group-ready flag. */
  lemma CalmIterationEffect(c: Config, s: State, p: nat)
    requires Inv(c, s, p) && s.phase.LoopTop?
    ensures var t, b := Iterate(c, s, CALM_ITERATION), GroupCreated(s.broker);
            if s.broker.group.None? && s.phase == LoopTop(true)
            then t.phase == LoopTop(false) && t.broker == s.broker
            else
              && t.phase == LoopTop(true)
              && t.broker ==
                 if b.group.value.pending != [] then WithPending(b, b.group.value, [])
                 else b.(group := Some(Advanced(b, b.group.value, c.batchSize)))
  {
    var b := GroupCreated(s.broker);
    if s.broker.group.None? && s.phase == LoopTop(true) {
      var s0 := s.(phase := ReadPending);
      assert Iterate(c, s, CALM_ITERATION) == Continue(c, s0, CALM_POLL);
      assert CommandApply(c, s0, Done) == s.(phase := LoopTop(false));
      CalmCommand(c, s0);
    } else {
      var s0 := State(b, s.rows, ReadPending);
      assert Iterate(c, s, CALM_ITERATION) == Continue(c, s0, CALM_POLL);
      if b.group.value.pending != [] {
        CalmPendingPoll(c, s0, p);
      } else {
        CalmNewPoll(c, s0, b.group.value);
      }
    }
  }

  /** One failure-free loop iteration brings the loop strictly closer to being drained. */
  lemma CalmIterationProgresses(c: Config, s: State, p: nat)
    requires c.batchSize > 0 && Inv(c, s, p) && s.phase.LoopTop?
    ensures var t := Iterate(c, s, CALM_ITERATION);
            && t.phase.LoopTop? && t.broker.entries == s.broker.entries
            && PollsNeeded(c, t) == (if PollsNeeded(c, s) > 0 then PollsNeeded(c, s) - 1 else 0)
            && (t.broker.group.None? ==> PollsNeeded(c, s) > 0 && t.phase == LoopTop(false))
            && (s.broker.group.Some? ==> t.broker.group.Some?)
  {
    CalmIterationEffect(c, s, p);
    var b := GroupCreated(s.broker);
    assert Undelivered(b) == Undelivered(s.broker);
    if b.group.value.pending == [] {
      AdvancedBatches(b, b.group.value, c.batchSize);
    }
  }

  // ---------------------------------------------------------------- progress despite failures

  /** Outside steps that neither append entries nor drop the group. */
  predicate IsQuiet(a: Await) {
    forall k :: 0 <= k < |a.before| ==> a.before[k].Trim? || a.before[k].CreateGroup?
  }

  predicate IsQuietPoll(f: PollScript) {
    IsQuiet(f.readPending) && IsQuiet(f.readNew) && IsQuiet(f.ackInvalid) && IsQuiet(f.store) && IsQuiet(f.ackValid)
  }

  predicate IsQuietIteration(it: Iteration) {
    IsQuiet(it.ensureGroup) && IsQuietPoll(it.poll)
  }

  /** A loop iteration, or any other steps: crashes and restarts, at any point of a poll. */
  datatype Round = Looping(it: Iteration) | Disturbed(steps: seq<Step>)

  predicate IsQuietStep(step: Step) {
    step.Env? ==> step.env.Trim? || step.env.CreateGroup?
  }

  /** Commands may fail in any way and the process may die, but nothing is appended and the group is not lost. */
  predicate IsQuietRound(round: Round) {
    match round
    case Looping(it) => IsQuietIteration(it)
    case Disturbed(steps) => forall k :: 0 <= k < |steps| ==> IsQuietStep(steps[k])
  }

  predicate AreQuiet(rounds: seq<Round>) {
    forall k :: 0 <= k < |rounds| ==> IsQuietRound(rounds[k])
  }

  function RunRound(c: Config, s: State, round: Round): State {
    match round
    case Looping(it) => Iterate(c, s, it)
    case Disturbed(steps) => Run(c, s, steps)
  }

  function RunRounds(c: Config, s: State, rounds: seq<Round>): State {
    if rounds == [] then s
    else RunRound(c, RunRounds(c, s, rounds[..|rounds| - 1]), rounds[|rounds| - 1])
  }

  /** A running process is at its loop top and its next iteration meets no failure. */
  predicate IsCalm(s: State, round: Round) {
    s.phase.LoopTop? && round == Looping(CALM_ITERATION)
  }

  /** How many iterations of a run met no failure. */
  function CalmCount(c: Config, s: State, rounds: seq<Round>): nat {
    if rounds == [] then 0
    else
      var n := |rounds| - 1;
      CalmCount(c, s, rounds[..n]) + if IsCalm(RunRounds(c, s, rounds[..n]), rounds[n]) then 1 else 0
  }

  predicate CalmAt(c: Config, s: State, rounds: seq<Round>, k: int) {
    0 <= k < |rounds| && IsCalm(RunRounds(c, s, rounds[..k]), rounds[k])
  }

  /** The rounds taken calmly. */
  function CalmRounds(c: Config, s: State, rounds: seq<Round>): set<int> {
    set k | 0 <= k < |rounds| && CalmAt(c, s, rounds, k)
  }

  lemma CalmInInit(c: Config, s: State, rounds: seq<Round>, k: int)
    requires rounds != [] && 0 <= k < |rounds| - 1
    ensures CalmAt(c, s, rounds[..|rounds| - 1], k) <==> CalmAt(c, s, rounds, k)
  {
    assert rounds[..|rounds| - 1][..k] == rounds[..k];
  }

  lemma CalmRoundsSnoc(c: Config, s: State, rounds: seq<Round>)
    requires rounds != []
    ensures var n := |rounds| - 1;
            CalmRounds(c, s, rounds) ==
            if IsCalm(RunRounds(c, s, rounds[..n]), rounds[n]) then CalmRounds(c, s, rounds[..n]) + {n}
            else CalmRounds(c, s, rounds[..n])
  {
    var n := |rounds| - 1;
    forall k | 0 <= k < n ensures CalmAt(c, s, rounds[..n], k) <==> CalmAt(c, s, rounds, k) {
      CalmInInit(c, s, rounds, k);
    }
  }

  /** The count of calm iterations is the number of rounds taken calmly. */
  lemma {:induction false} CalmCountMeaning(c: Config, s: State, rounds: seq<Round>)
    ensures CalmCount(c, s, rounds) == |CalmRounds(c, s, rounds)|
  {
    if rounds == [] {
      assert CalmRounds(c, s, rounds) == {};
    } else {
      var n := |rounds| - 1;
      CalmCountMeaning(c, s, rounds[..n]);
      CalmRoundsSnoc(c, s, rounds);
      assert n !in CalmRounds(c, s, rounds[..n]);
    }
  }

  /** Nothing was appended, and `n` fewer polls are needed than before, down to none. */
  ghost predicate IsCloser(c: Config, s: State, t: State, n: nat)
    requires c.batchSize > 0
  {
    t.broker.entries == s.broker.entries && PollsNeeded(c, t) <= Max(0, PollsNeeded(c, s) - n)
  }

  ghost predicate NoSetback(c: Config, s: State, t: State)
    requires c.batchSize > 0
  {
    IsCloser(c, s, t, 0)
  }

  lemma CloserAddsUp(c: Config, s: State, t: State, u: State, m: nat, n: nat)
    requires c.batchSize > 0 && IsCloser(c, s, t, m) && IsCloser(c, t, u, n)
    ensures IsCloser(c, s, u, m + n)
  {
  }

  lemma {:induction false} QuietEnvIsNoSetback(c: Config, s: State, env: seq<EnvStep>)
    requires c.batchSize > 0 && IsQuiet(Await(env, Done))
    ensures NoSetback(c, s, s.(broker := EnvRun(s.broker, env)))
  {
    if env == [] {
    } else {
      var n := |env| - 1;
      assert forall k :: 0 <= k < n ==> env[..n][k] == Await(env, Done).before[k];
      QuietEnvIsNoSetback(c, s, env[..n]);
      assert env[n] == Await(env, Done).before[n];
      var b := EnvRun(s.broker, env[..n]);
      assert Undelivered(EnvApply(b, env[n])) == Undelivered(b);
    }
  }

  /** A batch lost on the way is no setback: it is pending now, and no longer undelivered. */
  lemma ReadNewIsNoSetback(c: Config, s: State, o: Outcome, p: nat)
    requires c.batchSize > 0 && Inv(c, s, p) && s.phase == ReadNew
    ensures NoSetback(c, s, CommandApply(c, s, o))
  {
    if s.broker.group.Some? {
      AdvancedBatches(s.broker, s.broker.group.value, c.batchSize);
    }
  }

  lemma AckIsNoSetback(c: Config, s: State, o: Outcome)
    requires c.batchSize > 0 && (s.phase.AckInvalid? || s.phase.AckValid?)
    ensures NoSetback(c, s, CommandApply(c, s, o))
  {
    if s.broker.group.Some? {
      var acked := Select(c, s.broker, s.phase.batch, s.phase.AckValid?);
      WithoutMeaning(s.broker.group.value.pending, acked);
      assert Undelivered(Acked(s.broker, acked)) == Undelivered(s.broker);
    }
  }

  lemma CommandIsNoSetback(c: Config, s: State, o: Outcome, p: nat)
    requires c.batchSize > 0 && Inv(c, s, p)
    ensures NoSetback(c, s, CommandApply(c, s, o))
  {
    match s.phase
    case ReadNew => ReadNewIsNoSetback(c, s, o, p);
    case AckInvalid(_) => AckIsNoSetback(c, s, o);
    case AckValid(_) => AckIsNoSetback(c, s, o);
    case _ =>
  }

  lemma OneCommandIsNoSetback(c: Config, s: State, a: Await, p: nat) returns (q: nat)
    requires c.batchSize > 0 && Inv(c, s, p) && IsQuiet(a)
    ensures Inv(c, OneCommand(c, s, a), q) && NoSetback(c, s, OneCommand(c, s, a))
  {
    var mid := s.(broker := EnvRun(s.broker, a.before));
    QuietEnvIsNoSetback(c, s, a.before);
    q := AwaitKeepsInv(c, s, a.before, p);
    CommandIsNoSetback(c, mid, a.outcome, q);
    q := StepKeepsInv(c, mid, Command(a.outcome), q);
  }

  lemma AwaitOfIsQuiet(phase: Phase, f: PollScript)
    requires IsQuietPoll(f)
    ensures IsQuiet(AwaitOf(phase, f))
  {
  }

  lemma {:induction false} ContinueIsNoSetback(c: Config, s: State, f: PollScript, p: nat)
    requires c.batchSize > 0 && Inv(c, s, p) && IsQuietPoll(f)
    ensures NoSetback(c, s, Continue(c, s, f))
    decreases Rank(s.phase)
  {
    if Rank(s.phase) == 0 {
    } else {
      var a := AwaitOf(s.phase, f);
      var next := OneCommand(c, s, a);
      AwaitOfIsQuiet(s.phase, f);
      var q := OneCommandIsNoSetback(c, s, a, p);
      ContinueIsNoSetback(c, next, f, q);
      CloserAddsUp(c, s, next, Continue(c, s, f), 0, 0);
    }
  }

  lemma AwaitKeepsInv(c: Config, s: State, env: seq<EnvStep>, p: nat) returns (q: nat)
    requires Inv(c, s, p)
    ensures Inv(c, s.(broker := EnvRun(s.broker, env)), q)
  {
    var steps := EnvRunIsRun(c, s, env);
    q := RunKeepsInv(c, s, steps, p);
  }

  /** A failing iteration is no setback: the loop still needs at most as many polls. */
  lemma IterationIsNoSetback(c: Config, s: State, it: Iteration, p: nat)
    requires c.batchSize > 0 && Inv(c, s, p) && IsQuietIteration(it)
    ensures NoSetback(c, s, Iterate(c, s, it))
  {
    if s.phase == LoopTop(false) {
      var mid := s.(broker := EnvRun(s.broker, it.ensureGroup.before));
      var next := Apply(c, mid, EnsureGroup(it.ensureGroup.outcome));
      var q := EnsureIsNoSetback(c, s, it.ensureGroup, p);
      ContinueIsNoSetback(c, next, it.poll, q);
      CloserAddsUp(c, s, next, Continue(c, next, it.poll), 0, 0);
    } else {
      var next := Apply(c, s, BeginPoll);
      var q := StepKeepsInv(c, s, BeginPoll, p);
      ContinueIsNoSetback(c, next, it.poll, q);
      CloserAddsUp(c, s, next, Continue(c, next, it.poll), 0, 0);
    }
  }

  lemma EnsureIsNoSetback(c: Config, s: State, a: Await, p: nat) returns (q: nat)
    requires c.batchSize > 0 && Inv(c, s, p) && IsQuiet(a) && s.phase == LoopTop(false)
    ensures var next := Apply(c, s.(broker := EnvRun(s.broker, a.before)), EnsureGroup(a.outcome));
            Inv(c, next, q) && NoSetback(c, s, next)
  {
    var mid := s.(broker := EnvRun(s.broker, a.before));
    QuietEnvIsNoSetback(c, s, a.before);
    q := AwaitKeepsInv(c, s, a.before, p);
    assert Undelivered(GroupCreated(mid.broker)) == Undelivered(mid.broker);
    q := StepKeepsInv(c, mid, EnsureGroup(a.outcome), q);
  }

  /** Dying, stopping and starting again is no setback: a lost batch is pending. */
  lemma StepIsNoSetback(c: Config, s: State, step: Step, p: nat)
    requires c.batchSize > 0 && Inv(c, s, p) && IsQuietStep(step)
    ensures NoSetback(c, s, Apply(c, s, step))
  {
    match step
    case Env(e) =>
      QuietEnvIsNoSetback(c, s, [e]);
      assert [e][..0] == [];
    case Command(o) => CommandIsNoSetback(c, s, o, p);
    case _ =>
      assert Undelivered(GroupCreated(s.broker)) == Undelivered(s.broker);
  }

  lemma {:induction false} StepsAreNoSetback(c: Config, s: State, steps: seq<Step>, p: nat)
    requires c.batchSize > 0 && Inv(c, s, p) && IsQuietRound(Disturbed(steps))
    ensures NoSetback(c, s, Run(c, s, steps))
  {
    if steps == [] {
    } else {
      var n := |steps| - 1;
      var last := Disturbed(steps).steps[n];
      StepsAreNoSetback(c, s, steps[..n], p);
      var q := RunKeepsInv(c, s, steps[..n], p);
      StepIsNoSetback(c, Run(c, s, steps[..n]), last, q);
    }
  }

  /** One round, calm or not. */
  lemma OneRoundCounts(c: Config, s: State, round: Round, p: nat) returns (q: nat)
    requires c.batchSize > 0 && Inv(c, s, p) && IsQuietRound(round)
    ensures var t := RunRound(c, s, round);
            Inv(c, t, q) && IsCloser(c, s, t, if IsCalm(s, round) then 1 else 0)
  {
    match round
    case Looping(it) =>
      IterationIsNoSetback(c, s, it, p);
      if IsCalm(s, round) {
        CalmIterationProgresses(c, s, p);
      }
      q := IterateKeepsInv(c, s, it, p);
    case Disturbed(steps) =>
      StepsAreNoSetback(c, s, steps, p);
      q := RunKeepsInv(c, s, steps, p);
  }

  /** Every calm iteration counts, wherever it stands. */
  lemma {:induction false} CalmIterationsCount(c: Config, s: State, rounds: seq<Round>, p: nat) returns (q: nat)
    requires c.batchSize > 0 && Inv(c, s, p) && AreQuiet(rounds)
    ensures var t := RunRounds(c, s, rounds);
            Inv(c, t, q) && IsCloser(c, s, t, CalmCount(c, s, rounds))
  {
    if rounds == [] {
      q := p;
    } else {
      var n := |rounds| - 1;
      q := CalmIterationsCount(c, s, rounds[..n], p);
      var mid := RunRounds(c, s, rounds[..n]);
      q := OneRoundCounts(c, mid, rounds[n], q);
      CloserAddsUp(c, s, mid, RunRounds(c, s, rounds),
                   CalmCount(c, s, rounds[..n]), if IsCalm(mid, rounds[n]) then 1 else 0);
    }
  }

  /** Nothing is undelivered or pending, and the table is the fold of the whole stream. */
  ghost predicate IsDrained(c: Config, s: State) {
    && Undelivered(s.broker) == 0
    && (s.broker.group.Some? ==> s.broker.group.value.pending == [])
    && s.rows == Stored(c, s.broker, |s.broker.entries|)
  }

  /** Where no poll is needed, everything is stored. */
  lemma NothingNeededIsDrained(c: Config, s: State, p: nat)
    requires c.batchSize > 0 && Inv(c, s, p) && PollsNeeded(c, s) == 0
    ensures IsDrained(c, s)
  {
    StoredSkipsInvalid(c, s.broker, p, |s.broker.entries|);
  }

  lemma QuietRoundsDrain(c: Config, s: State, rounds: seq<Round>, p: nat)
    requires c.batchSize > 0 && Inv(c, s, p)
    requires AreQuiet(rounds) && CalmCount(c, s, rounds) >= PollsNeeded(c, s)
    ensures IsDrained(c, RunRounds(c, s, rounds)) && RunRounds(c, s, rounds).broker.entries == s.broker.entries
  {
    var q := CalmIterationsCount(c, s, rounds, p);
    NothingNeededIsDrained(c, RunRounds(c, s, rounds), q);
  }

  /**
    Progress theorem. Take any reachable state, in the middle of a poll or with the process down.
    Once appends and group losses stop, commands may still fail in any way and the process may
    still die and restart anywhere: as soon as `PollsNeeded` iterations met no failure, nothing is
    pending or undelivered and the table is the first-write-wins fold of the whole stream.
  */
  lemma LoopDrainsTheStream(c: Config, steps: seq<Step>, rounds: seq<Round>)
    requires c.batchSize > 0 && AreQuiet(rounds)
    requires var s := Run(c, INIT, steps); CalmCount(c, s, rounds) >= PollsNeeded(c, s)
    ensures var s := Run(c, INIT, steps);
            IsDrained(c, RunRounds(c, s, rounds)) && RunRounds(c, s, rounds).broker.entries == s.broker.entries
  {
    var p := ReachableInv(c, steps);
    QuietRoundsDrain(c, Run(c, INIT, steps), rounds, p);
  }

  /**
    End to end: once drained, any count a generated view takes over the table is the number
    of first writes in the stream, however often entries were delivered or batches retried.
  */
  lemma DrainedViewsCountTheStream(c: Config, steps: seq<Step>, rounds: seq<Round>, p: WebEvent -> bool)
    requires c.batchSize > 0 && AreQuiet(rounds)
    requires var s := Run(c, INIT, steps); CalmCount(c, s, rounds) >= PollsNeeded(c, s)
    ensures var t := RunRounds(c, Run(c, INIT, steps), rounds);
            var stream := EventsAt(c, t.broker, Range(0, |t.broker.entries|));
            GeneratedViews.CountWhere(t.rows, p) == |GeneratedViews.FirstWrites(stream, p)|
  {
    LoopDrainsTheStream(c, steps, rounds);
    var t := RunRounds(c, Run(c, INIT, steps), rounds);
    GeneratedViews.ViewsCountFirstWrites(EventsAt(c, t.broker, Range(0, |t.broker.entries|)), p);
  }
}
