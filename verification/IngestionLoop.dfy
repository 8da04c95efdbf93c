/**
  The ingestion loop as the program runs it: a consumer over a Redis server, the event
  repository, and the poll/store/ack loop, each proved equal to the step machine.

  Every awaited command takes an `Await`: the outside steps that happen meanwhile and
  whether the command is carried out and answered.
*/
module IngestionLoop {
  import opened Wrappers
  import opened Events
  import opened EventStore
  import opened StreamProtocol
  import opened PollProgram

  datatype RedisError = BusyGroup | NoGroup | ConnectionLost

  datatype StreamMessage = StreamMessage(id: nat, payload: JsonObject)

  datatype PollResult = PollResult(
    readCount: nat, validCount: nat, invalidCount: nat, ackedCount: nat, insertedCount: nat, storeFailed: bool)

  /** Every pending id refers to an entry of the stream. */
  ghost predicate PendingInRange(b: Broker) {
    b.group.Some? ==>
      && b.group.value.lastDelivered <= |b.entries|
      && forall k :: 0 <= k < |b.group.value.pending| ==> b.group.value.pending[k] < |b.entries|
  }

  /** The commands of one stream key and one consumer group. */
  class RedisServer {
    var broker: Broker

    constructor ()
      ensures broker == INIT.broker
    {
      broker := INIT.broker;
    }

    method Outside(steps: seq<EnvStep>)
      modifies this
      ensures broker == EnvRun(old(broker), steps)
    {
      var i := 0;
      while i < |steps|
        invariant 0 <= i <= |steps|
        invariant broker == EnvRun(old(broker), steps[..i])
      {
        broker := EnvApply(broker, steps[i]);
        assert steps[..i + 1][..i] == steps[..i];
        i := i + 1;
      }
      assert steps[..|steps|] == steps;
    }

    method XGroupCreate(a: Await) returns (r: Result<(), RedisError>)
      modifies this
      ensures var b := EnvRun(old(broker), a.before);
              && broker == (if a.outcome.Refused? then b else GroupCreated(b))
              && (r.Ok? <==> a.outcome.Done? && b.group.None?)
              && (r == Err(BusyGroup) <==> a.outcome.Done? && b.group.Some?)
    {
      Outside(a.before);
      var busy := broker.group.Some?;
      if !a.outcome.Refused? {
        broker := GroupCreated(broker);
      }
      r := if !a.outcome.Done? then Err(ConnectionLost) else if busy then Err(BusyGroup) else Ok(());
    }

    /** XREADGROUP with id `0`. */
    method XReadPending(count: nat, a: Await) returns (r: Result<seq<nat>, RedisError>)
      modifies this
      ensures broker == EnvRun(old(broker), a.before)
      ensures r.Ok? <==> a.outcome.Done? && broker.group.Some?
      ensures r.Ok? ==> r.value == PendingIds(broker.group.value, count)
    {
      Outside(a.before);
      if a.outcome.Done? && broker.group.Some? {
        r := Ok(PendingIds(broker.group.value, count));
      } else {
        r := Err(if broker.group.None? then NoGroup else ConnectionLost);
      }
    }

    /** XREADGROUP with id `>`. */
    method XReadNew(count: nat, a: Await) returns (r: Result<seq<nat>, RedisError>)
      modifies this
      ensures var b := EnvRun(old(broker), a.before);
              && broker == (if b.group.None? || a.outcome.Refused? then b else NewDelivered(b, b.group.value, count))
              && (r.Ok? <==> a.outcome.Done? && b.group.Some?)
              && (r.Ok? ==> r.value == NewIds(b, b.group.value, count))
    {
      Outside(a.before);
      if broker.group.None? || a.outcome.Refused? {
        return Err(if broker.group.None? then NoGroup else ConnectionLost);
      }
      var ids := NewIds(broker, broker.group.value, count);
      broker := NewDelivered(broker, broker.group.value, count);
      r := if a.outcome.Done? then Ok(ids) else Err(ConnectionLost);
    }

    /** XACK answers with the number of ids it removed from the pending list. */
    method XAck(ids: seq<nat>, a: Await) returns (r: Result<nat, RedisError>)
      modifies this
      ensures var b := EnvRun(old(broker), a.before);
              && broker == (if a.outcome.Refused? then b else Acked(b, ids))
              && (r.Ok? <==> a.outcome.Done?)
              && (r.Ok? ==> r.value + PendingCount(broker) == PendingCount(b))
    {
      Outside(a.before);
      if a.outcome.Refused? {
        return Err(ConnectionLost);
      }
      var before := PendingCount(broker);
      if broker.group.Some? {
        WithoutMeaning(broker.group.value.pending, ids);
      }
      broker := Acked(broker, ids);
      r := if a.outcome.Done? then Ok(before - PendingCount(broker)) else Err(ConnectionLost);
    }
  }

  function PendingCount(b: Broker): nat {
    if b.group.Some? then |b.group.value.pending| else 0
  }

  /** No outside step touches the group while the poll acks and stores. */
  predicate Undisturbed(f: PollScript) {
    f.ackInvalid.before == [] && f.store.before == [] && f.ackValid.before == []
  }

  /** How many entries the answered acks of a poll take off the pending list. */
  function AckedDuring(c: Config, s: State, f: PollScript): int
    decreases Rank(s.phase)
  {
    if Rank(s.phase) == 0 then 0
    else
      var a := AwaitOf(s.phase, f);
      var next := OneCommand(c, s, a);
      AckedDuring(c, next, f)
      + if (s.phase.AckInvalid? || s.phase.AckValid?) && a.outcome.Done?
        then PendingCount(EnvRun(s.broker, a.before)) - PendingCount(next.broker) else 0
  }

  /** Whether the poll of a batch runs to its end: every answer it waits for outside the store arrives. */
  predicate Completes(c: Config, b: Broker, ids: seq<nat>, f: PollScript) {
    && (Select(c, b, ids, false) != [] ==> f.ackInvalid.outcome.Done?)
    && (Select(c, b, ids, true) != [] && f.store.outcome.Done? ==> f.ackValid.outcome.Done?)
  }

  class RedisStreamEventConsumer {
    const redis: RedisServer
    const config: Config

    constructor (redis: RedisServer, config: Config)
      ensures this.redis == redis && this.config == config
    {
      this.redis := redis;
      this.config := config;
    }

    method EnsureGroup(a: Await) returns (r: Result<(), RedisError>)
      modifies redis
      ensures var b := EnvRun(old(redis.broker), a.before);
              redis.broker == if a.outcome.Refused? then b else GroupCreated(b)
      ensures r.Ok? <==> a.outcome.Done?
    {
      r := redis.XGroupCreate(a);
      if r == Err(BusyGroup) {
        r := Ok(());
      }
    }

    /** Pending retries first, then never-delivered messages. */
    method ReadBatch(pending: Await, unread: Await) returns (r: Result<seq<StreamMessage>, RedisError>)
      requires PendingInRange(redis.broker)
      modifies redis
      ensures old(redis.broker).entries <= redis.broker.entries
      ensures var e := ReadEffect(config, old(redis.broker), pending, unread);
              && redis.broker == e.0
              && (r.Ok? <==> e.1.Some?)
              && (r.Ok? ==> AreMessages(config, redis.broker, e.1.value, r.value))
    {
      EnvRunInRange(redis.broker, pending.before);
      EnvRunOnlyAppends(redis.broker, pending.before);
      var first := redis.XReadPending(config.batchSize, pending);
      if first.Err? {
        return Err(first.error);
      }
      if first.value != [] {
        var messages := Decode(first.value);
        return Ok(messages);
      }
      EnvRunInRange(redis.broker, unread.before);
      EnvRunOnlyAppends(redis.broker, unread.before);
      var second := redis.XReadNew(config.batchSize, unread);
      if second.Err? {
        return Err(second.error);
      }
      var messages := Decode(second.value);
      return Ok(messages);
    }

    method Decode(ids: seq<nat>) returns (messages: seq<StreamMessage>)
      requires forall k :: 0 <= k < |ids| ==> ids[k] < |redis.broker.entries|
      ensures AreMessages(config, redis.broker, ids, messages)
    {
      messages := [];
      for i := 0 to |ids|
        invariant AreMessages(config, redis.broker, ids[..i], messages)
      {
        DecodingMeaning(config.codec, redis.broker.entries[ids[i]]);
        messages := messages + [StreamMessage(ids[i], DecodePayload(config.codec, redis.broker.entries[ids[i]]))];
      }
      assert ids[..|ids|] == ids;
    }

    /** One call for all ids, and no call at all for none. */
    method AckMany(ids: seq<nat>, a: Await) returns (r: Result<nat, RedisError>)
      modifies redis
      ensures ids == [] ==> redis.broker == old(redis.broker) && r == Ok(0)
      ensures ids != [] ==>
                var b := EnvRun(old(redis.broker), a.before);
                && redis.broker == (if a.outcome.Refused? then b else Acked(b, ids))
                && (r.Ok? <==> a.outcome.Done?)
                && (r.Ok? ==> r.value + PendingCount(redis.broker) == PendingCount(b))
    {
      if ids == [] {
        return Ok(0);
      }
      r := redis.XAck(ids, a);
    }
  }

  /** The broker after `read_batch`, and the ids it returned unless it raised. */
  function ReadEffect(c: Config, b: Broker, pending: Await, unread: Await): (Broker, Option<seq<nat>>) {
    var b1 := EnvRun(b, pending.before);
    if !pending.outcome.Done? || b1.group.None? then (b1, None)
    else if PendingIds(b1.group.value, c.batchSize) != [] then (b1, Some(PendingIds(b1.group.value, c.batchSize)))
    else
      var b2 := EnvRun(b1, unread.before);
      if b2.group.None? || unread.outcome.Refused? then (b2, None)
      else
        (NewDelivered(b2, b2.group.value, c.batchSize),
         if unread.outcome.Done? then Some(NewIds(b2, b2.group.value, c.batchSize)) else None)
  }

  ghost predicate AreMessages(c: Config, b: Broker, ids: seq<nat>, messages: seq<StreamMessage>) {
    && |messages| == |ids|
    && forall k :: 0 <= k < |ids| ==>
         && ids[k] < |b.entries|
         && messages[k].id == ids[k]
         && IsDecoded(c.codec, b.entries[ids[k]], messages[k].payload)
  }

  lemma {:induction false} EnvRunInRange(b: Broker, steps: seq<EnvStep>)
    requires PendingInRange(b)
    ensures PendingInRange(EnvRun(b, steps))
  {
    if steps == [] {
    } else {
      EnvRunInRange(b, steps[..|steps| - 1]);
    }
  }

  /** `read_batch` is the first one or two commands of the machine's poll. */
  lemma ReadEffectIsMachine(c: Config, b: Broker, rows: seq<WebEvent>, f: PollScript)
    ensures var e := ReadEffect(c, b, f.readPending, f.readNew);
            Continue(c, State(b, rows, ReadPending), f) ==
            Continue(c, State(e.0, rows, if e.1.Some? then AfterRead(c, e.0, e.1.value) else LoopTop(false)), f)
    ensures var e := ReadEffect(c, b, f.readPending, f.readNew);
            AckedDuring(c, State(b, rows, ReadPending), f) ==
            AckedDuring(c, State(e.0, rows, if e.1.Some? then AfterRead(c, e.0, e.1.value) else LoopTop(false)), f)
  {
    var s := State(b, rows, ReadPending);
    var s1 := OneCommand(c, s, f.readPending);
    assert Continue(c, s, f) == Continue(c, s1, f);
    if s1.phase == ReadNew {
      var s2 := OneCommand(c, s1, f.readNew);
      assert Continue(c, s1, f) == Continue(c, s2, f);
    }
  }

  /** The rest of the poll from its store phase: at most a commit and one acknowledgement. */
  lemma StoreEffect(c: Config, s: State, f: PollScript)
    requires s.phase.Store?
    ensures var b2, ids := EnvRun(s.broker, f.store.before), s.phase.batch;
            var rows := if f.store.outcome.Refused? then s.rows else Insert(s.rows, EventsAt(c, b2, ids));
            if !f.store.outcome.Done?
            then Continue(c, s, f) == State(b2, rows, LoopTop(true)) && AckedDuring(c, s, f) == 0
            else
              var b3, done := EnvRun(b2, f.ackValid.before), f.ackValid.outcome.Done?;
              var b4 := if f.ackValid.outcome.Refused? then b3 else Acked(b3, Select(c, b3, ids, true));
              && Continue(c, s, f) == State(b4, rows, LoopTop(done))
              && AckedDuring(c, s, f) == if done then PendingCount(b3) - PendingCount(b4) else 0
  {
    var s2 := OneCommand(c, s, f.store);
    assert Continue(c, s, f) == Continue(c, s2, f) && AckedDuring(c, s, f) == AckedDuring(c, s2, f);
    if f.store.outcome.Done? {
      var s3 := OneCommand(c, s2, f.ackValid);
      assert Continue(c, s2, f) == Continue(c, s3, f) == s3 && AckedDuring(c, s3, f) == 0;
    }
  }

  class EventStreamIngestionLoop {
    const consumer: RedisStreamEventConsumer
    const repository: PostgresEventRepository

    constructor (consumer: RedisStreamEventConsumer, repository: PostgresEventRepository)
      ensures this.consumer == consumer && this.repository == repository
    {
      this.consumer := consumer;
      this.repository := repository;
    }

    /** The machine state these objects stand for, in a given phase. */
    ghost function StateAt(phase: Phase): State
      reads consumer.redis, repository
    {
      State(consumer.redis.broker, repository.rows, phase)
    }

    /**
      Read one batch, drop and ack the invalid messages, store the valid events, ack them.
      An `Err` is an exception that escapes `poll_once`; a failed store does not escape.
    */
    method PollOnce(f: PollScript) returns (r: Result<PollResult, RedisError>)
      requires PendingInRange(consumer.redis.broker)
      modifies consumer.redis, repository
      ensures StateAt(LoopTop(r.Ok?)) == Continue(consumer.config, old(StateAt(ReadPending)), f)
      ensures var e := ReadEffect(consumer.config, old(consumer.redis.broker), f.readPending, f.readNew);
              r.Ok? <==> e.1.Some? && Completes(consumer.config, e.0, e.1.value, f)
      ensures r.Ok? ==>
                var e := ReadEffect(consumer.config, old(consumer.redis.broker), f.readPending, f.readNew);
                && e.1.Some? && CountsBatch(r.value, consumer.config, e.0, e.1.value)
                && CountsRows(r.value, f.store.outcome, |old(repository.rows)|, |repository.rows|)
      ensures r.Ok? ==> r.value.ackedCount == AckedDuring(consumer.config, old(StateAt(ReadPending)), f)
      ensures r.Ok? && Undisturbed(f) ==>
                r.value.ackedCount + PendingCount(consumer.redis.broker) ==
                PendingCount(ReadEffect(consumer.config, old(consumer.redis.broker), f.readPending, f.readNew).0)
    {
      ReadEffectIsMachine(consumer.config, consumer.redis.broker, repository.rows, f);
      ghost var e := ReadEffect(consumer.config, consumer.redis.broker, f.readPending, f.readNew);
      var read := consumer.ReadBatch(f.readPending, f.readNew);
      if read.Err? {
        return Err(read.error);
      }
      r := Settle(read.value, e.1.value, f);
    }

    /** The message counters of a completed poll describe the batch that was read. */
    ghost predicate CountsBatch(result: PollResult, c: Config, b: Broker, ids: seq<nat>) {
      && result.readCount == |ids|
      && result.validCount == |Select(c, b, ids, true)|
      && result.invalidCount == |Select(c, b, ids, false)|
    }

    /** The row counter describes what the poll did to the table, as far as the client knows. */
    ghost predicate CountsRows(result: PollResult, store: Outcome, before: nat, after: nat) {
      && (result.storeFailed <==> result.validCount > 0 && !store.Done?)
      && (if result.storeFailed then result.insertedCount == 0 else after == before + result.insertedCount)
    }

    /** The part of `poll_once` after the read: split the batch, ack the invalid ids, store the rest. */
    method Settle(messages: seq<StreamMessage>, ghost ids: seq<nat>, f: PollScript)
      returns (r: Result<PollResult, RedisError>)
      requires AreMessages(consumer.config, consumer.redis.broker, ids, messages)
      modifies consumer.redis, repository
      ensures StateAt(LoopTop(r.Ok?)) ==
              Continue(consumer.config, old(StateAt(AfterRead(consumer.config, consumer.redis.broker, ids))), f)
      ensures r.Ok? <==> Completes(consumer.config, old(consumer.redis.broker), ids, f)
      ensures r.Ok? ==>
                && CountsBatch(r.value, consumer.config, old(consumer.redis.broker), ids)
                && CountsRows(r.value, f.store.outcome, |old(repository.rows)|, |repository.rows|)
      ensures r.Ok? ==>
                r.value.ackedCount ==
                AckedDuring(consumer.config, old(StateAt(AfterRead(consumer.config, consumer.redis.broker, ids))), f)
      ensures r.Ok? && Undisturbed(f) ==>
                r.value.ackedCount + PendingCount(consumer.redis.broker) == PendingCount(old(consumer.redis.broker))
    {
      ghost var c, b := consumer.config, consumer.redis.broker;
      ghost var s1 := StateAt(AfterRead(c, b, ids));
      var validEvents, validIds, invalidIds := Partition(messages, ids);
      SelectMeaning(c, b, ids, true);
      EnvRunOnlyAppends(b, f.ackInvalid.before);
      EventsAtStable(c, b, EnvRun(b, f.ackInvalid.before), ids);
      var dropped := consumer.AckMany(invalidIds, f.ackInvalid);
      if dropped.Err? {
        assert StateAt(LoopTop(false)) == OneCommand(c, s1, f.ackInvalid);
        return Err(dropped.error);
      }
      EventsAtStable(c, b, consumer.redis.broker, ids);
      ghost var s2 := StateAt(AfterAckInvalid(c, consumer.redis.broker, ids));
      assert Continue(c, s1, f) == Continue(c, s2, f) by {
        if invalidIds != [] {
          assert s2 == OneCommand(c, s1, f.ackInvalid);
        }
      }
      if validEvents == [] {
        return Ok(PollResult(|messages|, 0, |invalidIds|, dropped.value, 0, false));
      }
      var stored := StoreThenAck(validEvents, validIds, ids, f);
      if stored.Err? {
        return Err(stored.error);
      }
      var (inserted, acked, failed) := stored.value;
      return Ok(PollResult(|messages|, |validEvents|, |invalidIds|, dropped.value + acked, inserted, failed));
    }

    /** Commit the valid events in one transaction; only then acknowledge them. */
    method StoreThenAck(events: seq<WebEvent>, validIds: seq<nat>, ghost ids: seq<nat>, f: PollScript)
      returns (r: Result<(nat, nat, bool), RedisError>)
      requires events == EventsAt(consumer.config, consumer.redis.broker, ids) && events != []
      requires validIds == Select(consumer.config, consumer.redis.broker, ids, true)
      requires forall k :: 0 <= k < |ids| ==> ids[k] < |consumer.redis.broker.entries|
      modifies consumer.redis, repository
      ensures StateAt(LoopTop(r.Ok?)) == Continue(consumer.config, old(StateAt(Store(ids))), f)
      ensures r.Ok? <==> (f.store.outcome.Done? ==> f.ackValid.outcome.Done?)
      ensures r.Ok? && !r.value.2 ==> |repository.rows| == |old(repository.rows)| + r.value.0
      ensures r.Ok? && r.value.2 ==> r.value.0 == 0
      ensures r.Ok? ==> (r.value.2 <==> !f.store.outcome.Done?)
      ensures r.Ok? ==> r.value.1 == AckedDuring(consumer.config, old(StateAt(Store(ids))), f)
      ensures r.Ok? && Undisturbed(f) ==>
                r.value.1 + PendingCount(consumer.redis.broker) == PendingCount(old(consumer.redis.broker))
    {
      ghost var c, b := consumer.config, consumer.redis.broker;
      StoreEffect(c, StateAt(Store(ids)), f);
      consumer.redis.Outside(f.store.before);
      ghost var b2 := consumer.redis.broker;
      EnvRunOnlyAppends(b, f.store.before);
      EventsAtStable(c, b, b2, ids);
      var stored := repository.SaveBatch(events, !f.store.outcome.Refused?, f.store.outcome.Done?);
      if stored.Err? {
        return Ok((0, 0, true));
      }
      SelectMeaning(c, b, ids, true);
      EnvRunOnlyAppends(b2, f.ackValid.before);
      EventsAtStable(c, b2, EnvRun(b2, f.ackValid.before), ids);
      var acked := consumer.AckMany(validIds, f.ackValid);
      r := if acked.Ok? then Ok((stored.value, acked.value, false)) else Err(acked.error);
    }

    method Partition(messages: seq<StreamMessage>, ghost ids: seq<nat>)
      returns (validEvents: seq<WebEvent>, validIds: seq<nat>, invalidIds: seq<nat>)
      requires AreMessages(consumer.config, consumer.redis.broker, ids, messages)
      ensures validEvents == EventsAt(consumer.config, consumer.redis.broker, ids)
      ensures validIds == Select(consumer.config, consumer.redis.broker, ids, true)
      ensures invalidIds == Select(consumer.config, consumer.redis.broker, ids, false)
      ensures |validEvents| == |validIds|
      ensures forall k :: 0 <= k < |validIds| ==>
                Carries(consumer.config, consumer.redis.broker, validIds[k], validEvents[k])
      ensures forall id :: id in invalidIds ==>
                id in ids && forall event :: !Carries(consumer.config, consumer.redis.broker, id, event)
    {
      ghost var c, b := consumer.config, consumer.redis.broker;
      validEvents, validIds, invalidIds := [], [], [];
      for i := 0 to |messages|
        invariant validEvents == EventsAt(c, b, ids[..i])
        invariant validIds == Select(c, b, ids[..i], true)
        invariant invalidIds == Select(c, b, ids[..i], false)
      {
        assert ids[..i + 1][..i] == ids[..i];
        CoerceMeaning(c.codec, b.entries[ids[i]], messages[i].payload);
        var event := consumer.config.codec.validate(messages[i].payload);
        if event.None? {
          invalidIds := invalidIds + [messages[i].id];
        } else {
          validEvents := validEvents + [event.value];
          validIds := validIds + [messages[i].id];
        }
      }
      assert ids[..|messages|] == ids;
      EventsAtMeaning(c, b, ids);
      SelectMeaning(c, b, ids, false);
      forall id | id in invalidIds ensures forall event :: !Carries(c, b, id, event) {
        CarriesIff(c, b, id);
      }
    }

    /**
      The retry loop: it makes sure the group exists, polls, and starts over whatever fails.
      The stop flag ends it after the iterations of `script`.
    */
    method RunForever(script: seq<Iteration>, ghost p: nat) returns (groupReady: bool, ghost q: nat)
      requires Inv(consumer.config, StateAt(LoopTop(false)), p)
      modifies consumer.redis, repository
      ensures StateAt(LoopTop(groupReady)) == RunScript(consumer.config, old(StateAt(LoopTop(false))), script)
      ensures p <= q && Inv(consumer.config, StateAt(LoopTop(groupReady)), q)
    {
      ghost var c, s0 := consumer.config, StateAt(LoopTop(false));
      groupReady, q := false, p;
      var i := 0;
      while i < |script|
        invariant 0 <= i <= |script|
        invariant StateAt(LoopTop(groupReady)) == RunScript(c, s0, script[..i])
        invariant p <= q && Inv(c, StateAt(LoopTop(groupReady)), q)
      {
        ghost var s := StateAt(LoopTop(groupReady));
        assert script[..i + 1][..i] == script[..i];
        q := IterateKeepsInv(c, s, script[i], q);
        groupReady := RunOnce(script[i], groupReady);
        i := i + 1;
      }
      assert script[..|script|] == script;
    }

    /** The body of the retry loop. */
    method RunOnce(it: Iteration, ready: bool) returns (groupReady: bool)
      requires PendingInRange(consumer.redis.broker)
      modifies consumer.redis, repository
      ensures StateAt(LoopTop(groupReady)) == Iterate(consumer.config, old(StateAt(LoopTop(ready))), it)
    {
      groupReady := ready;
      if !groupReady {
        EnvRunInRange(consumer.redis.broker, it.ensureGroup.before);
        var ensured := consumer.EnsureGroup(it.ensureGroup);
        if ensured.Err? {
          return false;
        }
        groupReady := true;
      }
      var polled := PollOnce(it.poll);
      groupReady := polled.Ok?;
    }
  }
}
