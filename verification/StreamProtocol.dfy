/**
  The ingestion protocol as a step machine: a Redis Stream with one consumer group,
  the `events` table, and the phase the single consumer process is in.

  `Apply` is total: a step that does not fit the current phase changes nothing, so a
  statement about all step sequences covers every interleaving of the process with
  appends, trimming, loss of the group, failed or half-successful commands and crashes.
*/
module StreamProtocol {
  import opened Wrappers
  import opened Events
  import opened EventStore

  datatype Config = Config(batchSize: nat, codec: Codec)

  /** A message id is its position in the stream; Redis ids grow with the position. */
  datatype Group = Group(lastDelivered: nat, pending: seq<nat>)

  /** `entries` is the whole history; entries before `first` have been trimmed away. */
  datatype Broker = Broker(entries: seq<RawFields>, first: nat, group: Option<Group>)

  /** What the process does next; a batch is held in memory between awaits. */
  datatype Phase =
    | Down
    | LoopTop(groupReady: bool)
    | ReadPending
    | ReadNew
    | AckInvalid(batch: seq<nat>)
    | Store(batch: seq<nat>)
    | AckValid(batch: seq<nat>)

  datatype State = State(broker: Broker, rows: seq<WebEvent>, phase: Phase)

  const INIT := State(Broker([], 0, None), [], Down)

  /** One awaited command: carried out and answered, not carried out, or carried out but unanswered. */
  datatype Outcome = Done | Refused | LostReply

  datatype EnvStep =
    | Append(raw: RawFields)
    | Trim(upTo: nat)
    | DropGroup
    | CreateGroup

  datatype Step =
    | Env(env: EnvStep)
    | Crash
    | Start(startup: Outcome)
    | Stop
    | EnsureGroup(outcome: Outcome)
    | BeginPoll
    | Command(outcome: Outcome)

  // ---------------------------------------------------------------- broker commands

  predicate IsValid(c: Config, b: Broker, id: nat) {
    id < |b.entries| && Coerce(c.codec, b.entries[id]).Some?
  }

  /** XGROUP CREATE at 0-0; an existing group (BUSYGROUP) is left alone. */
  function GroupCreated(b: Broker): Broker {
    if b.group.None? then b.(group := Some(Group(0, []))) else b
  }

  function FirstUndelivered(b: Broker, g: Group): nat {
    Max(b.first, g.lastDelivered)
  }

  function Range(lo: nat, hi: nat): (ids: seq<nat>)
    requires lo <= hi
    ensures |ids| == hi - lo && forall k :: 0 <= k < |ids| ==> ids[k] == lo + k
  {
    seq(hi - lo, i requires 0 <= i => lo + i)
  }

  /** Up to `count` never-delivered entries, in stream order. */
  function NewIds(b: Broker, g: Group, count: nat): seq<nat> {
    var lo := FirstUndelivered(b, g);
    if lo < |b.entries| then Range(lo, Min(lo + count, |b.entries|)) else []
  }

  /** XREADGROUP with id `>`: deliver the new entries and add them to the pending list. */
  function NewDelivered(b: Broker, g: Group, count: nat): Broker {
    var ids := NewIds(b, g, count);
    if ids == [] then b
    else b.(group := Some(Group(ids[|ids| - 1] + 1, g.pending + ids)))
  }

  /** XREADGROUP with id `0`: the first `count` pending ids in id order. */
  function PendingIds(g: Group, count: nat): seq<nat> {
    g.pending[..Min(count, |g.pending|)]
  }

  function Without(ids: seq<nat>, acked: seq<nat>): seq<nat> {
    if ids == [] then []
    else
      var rest := Without(ids[..|ids| - 1], acked);
      if ids[|ids| - 1] in acked then rest else rest + [ids[|ids| - 1]]
  }

  /** XACK: one atomic removal; acknowledging in a missing group removes nothing. */
  function Acked(b: Broker, ids: seq<nat>): Broker {
    match b.group
    case None => b
    case Some(g) => b.(group := Some(g.(pending := Without(g.pending, ids))))
  }

  /** Trimming may only pass entries that are delivered and no longer pending. */
  predicate MayTrim(b: Broker, upTo: nat) {
    && b.first <= upTo <= |b.entries|
    && b.group.Some?
    && upTo <= FirstUndelivered(b, b.group.value)
    && forall k :: 0 <= k < |b.group.value.pending| ==> upTo <= b.group.value.pending[k]
  }

  function EnvApply(b: Broker, e: EnvStep): Broker {
    match e
    case Append(raw) => b.(entries := b.entries + [raw])
    case Trim(upTo) => if MayTrim(b, upTo) then b.(first := upTo) else b
    case DropGroup => b.(group := None)
    case CreateGroup => GroupCreated(b)
  }

  // ---------------------------------------------------------------- process steps

  /** The ids of a batch whose payload is a valid event (`valid`), or is not. */
  function Select(c: Config, b: Broker, batch: seq<nat>, valid: bool): seq<nat> {
    if batch == [] then []
    else
      var rest := Select(c, b, batch[..|batch| - 1], valid);
      if IsValid(c, b, batch[|batch| - 1]) == valid then rest + [batch[|batch| - 1]] else rest
  }

  /** The events a batch carries, in batch order. */
  function EventsAt(c: Config, b: Broker, batch: seq<nat>): seq<WebEvent> {
    if batch == [] then []
    else
      var rest, id := EventsAt(c, b, batch[..|batch| - 1]), batch[|batch| - 1];
      if IsValid(c, b, id) then rest + [Coerce(c.codec, b.entries[id]).value] else rest
  }

  function AfterAckInvalid(c: Config, b: Broker, batch: seq<nat>): Phase {
    if EventsAt(c, b, batch) != [] then Store(batch) else LoopTop(true)
  }

  function AfterRead(c: Config, b: Broker, batch: seq<nat>): Phase {
    if Select(c, b, batch, false) != [] then AckInvalid(batch) else AfterAckInvalid(c, b, batch)
  }

  /** The next command of `poll_once`, whatever it is in the current phase. */
  function CommandApply(c: Config, s: State, o: Outcome): State {
    match s.phase
    case ReadPending =>
      if o.Done? && s.broker.group.Some? then
        var ids := PendingIds(s.broker.group.value, c.batchSize);
        s.(phase := if ids != [] then AfterRead(c, s.broker, ids) else ReadNew)
      else s.(phase := LoopTop(false))
    case ReadNew =>
      if s.broker.group.None? || o.Refused? then s.(phase := LoopTop(false))
      else
        var ids := NewIds(s.broker, s.broker.group.value, c.batchSize);
        var delivered := NewDelivered(s.broker, s.broker.group.value, c.batchSize);
        s.(broker := delivered, phase := if o.Done? then AfterRead(c, delivered, ids) else LoopTop(false))
    case AckInvalid(batch) =>
      if o.Refused? then s.(phase := LoopTop(false))
      else
        var acked := Acked(s.broker, Select(c, s.broker, batch, false));
        s.(broker := acked, phase := if o.Done? then AfterAckInvalid(c, acked, batch) else LoopTop(false))
    case Store(batch) =>
      if o.Refused? then s.(phase := LoopTop(true))
      else
        s.(rows := Insert(s.rows, EventsAt(c, s.broker, batch)),
           phase := if o.Done? then AckValid(batch) else LoopTop(true))
    case AckValid(batch) =>
      if o.Refused? then s.(phase := LoopTop(false))
      else
        s.(broker := Acked(s.broker, Select(c, s.broker, batch, true)), phase := LoopTop(o.Done?))
    case _ => s
  }

  function Apply(c: Config, s: State, step: Step): State {
    match step
    case Env(e) => s.(broker := EnvApply(s.broker, e))
    case Crash => s.(phase := Down)
    case Start(o) =>
      if !s.phase.Down? then s
      else
        s.(broker := if o.Refused? then s.broker else GroupCreated(s.broker),
           phase := if o.Done? then LoopTop(false) else Down)
    case Stop => if s.phase.LoopTop? then s.(phase := Down) else s
    case EnsureGroup(o) =>
      if s.phase != LoopTop(false) then s
      else
        s.(broker := if o.Refused? then s.broker else GroupCreated(s.broker),
           phase := if o.Done? then ReadPending else LoopTop(false))
    case BeginPoll => if s.phase == LoopTop(true) then s.(phase := ReadPending) else s
    case Command(o) => CommandApply(c, s, o)
  }

  function Run(c: Config, s: State, steps: seq<Step>): State {
    if steps == [] then s
    else Apply(c, Run(c, s, steps[..|steps| - 1]), steps[|steps| - 1])
  }

  // ---------------------------------------------------------------- invariant

  /** The specification: first write wins over the valid entries of a stream prefix. */
  function Stored(c: Config, b: Broker, p: nat): seq<WebEvent>
    requires p <= |b.entries|
  {
    Insert([], EventsAt(c, b, Range(0, p)))
  }

  ghost predicate Increasing(ids: seq<nat>) {
    forall i, j :: 0 <= i < j < |ids| ==> ids[i] < ids[j]
  }

  /** Every valid entry delivered and no longer pending lies in the stored prefix. */
  ghost predicate GroupOk(c: Config, b: Broker, g: Group, p: nat) {
    && g.lastDelivered <= |b.entries|
    && Increasing(g.pending)
    && |g.pending| <= c.batchSize
    && (forall k :: 0 <= k < |g.pending| ==>
         b.first <= g.pending[k] < g.lastDelivered <= g.pending[k] + c.batchSize)
    && (forall i: nat :: i < g.lastDelivered && IsValid(c, b, i) && i !in g.pending ==> i < p)
  }

  /** A batch in memory misses no valid entry between the stored prefix and its own end. */
  ghost predicate BatchCovers(c: Config, b: Broker, batch: seq<nat>, p: nat) {
    && batch != []
    && Increasing(batch)
    && batch[|batch| - 1] < |b.entries|
    && CoversFrom(c, b, batch, p)
  }

  ghost predicate PhaseOk(c: Config, s: State, p: nat) {
    match s.phase
    case ReadNew => s.broker.group.Some? ==> s.broker.group.value.pending == []
    case AckInvalid(batch) => BatchCovers(c, s.broker, batch, p)
    case Store(batch) => BatchCovers(c, s.broker, batch, p)
    case AckValid(batch) =>
      forall k :: 0 <= k < |batch| ==>
        batch[k] < |s.broker.entries| && (IsValid(c, s.broker, batch[k]) ==> batch[k] < p)
    case _ => true
  }

  ghost predicate Inv(c: Config, s: State, p: nat) {
    && p <= |s.broker.entries|
    && s.rows == Stored(c, s.broker, p)
    && s.broker.first <= |s.broker.entries|
    && (forall i: nat :: i < s.broker.first && IsValid(c, s.broker, i) ==> i < p)
    && (s.broker.group.Some? ==> GroupOk(c, s.broker, s.broker.group.value, p))
    && PhaseOk(c, s, p)
  }

  // ---------------------------------------------------------------- helper lemmas

  /** Acknowledging removes exactly the acknowledged ids and keeps the order of the rest. */
  lemma WithoutMeaning(ids: seq<nat>, acked: seq<nat>)
    ensures forall x :: x in Without(ids, acked) <==> x in ids && x !in acked
    ensures |Without(ids, acked)| <= |ids|
    ensures Increasing(ids) ==> Increasing(Without(ids, acked))
  {
    WithoutMembers(ids, acked);
    if Increasing(ids) {
      WithoutOrder(ids, acked);
    }
  }

  lemma {:induction false} WithoutMembers(ids: seq<nat>, acked: seq<nat>)
    ensures forall x :: x in Without(ids, acked) <==> x in ids && x !in acked
    ensures |Without(ids, acked)| <= |ids|
  {
    if ids == [] {
    } else {
      var init, last := ids[..|ids| - 1], ids[|ids| - 1];
      WithoutMembers(init, acked);
      assert ids == init + [last];
    }
  }

  lemma {:induction false} WithoutOrder(ids: seq<nat>, acked: seq<nat>)
    requires Increasing(ids)
    ensures Increasing(Without(ids, acked))
  {
    if ids == [] {
    } else {
      var init, last := ids[..|ids| - 1], ids[|ids| - 1];
      WithoutOrder(init, acked);
      WithoutMembers(init, acked);
      var rest := Without(init, acked);
      forall k | 0 <= k < |rest| ensures rest[k] < last {
        assert rest[k] in init;
      }
      IncreasingSnoc(rest, last);
    }
  }

  lemma IncreasingSnoc(ids: seq<nat>, last: nat)
    requires Increasing(ids) && forall k :: 0 <= k < |ids| ==> ids[k] < last
    ensures Increasing(ids + [last])
  {
  }

  lemma {:induction false} SelectMeaning(c: Config, b: Broker, batch: seq<nat>, valid: bool)
    ensures forall x :: x in Select(c, b, batch, valid) <==> x in batch && IsValid(c, b, x) == valid
    ensures |Select(c, b, batch, true)| + |Select(c, b, batch, false)| == |batch|
    ensures |EventsAt(c, b, batch)| == |Select(c, b, batch, true)|
  {
    if batch == [] {
    } else {
      var n := |batch| - 1;
      SelectMeaning(c, b, batch[..n], valid);
      assert batch == batch[..n] + [batch[n]];
    }
  }

  /** Appends never change what an already delivered batch carries. */
  lemma {:induction false} EventsAtStable(c: Config, b: Broker, b': Broker, batch: seq<nat>)
    requires b.entries <= b'.entries
    requires forall k :: 0 <= k < |batch| ==> batch[k] < |b.entries|
    ensures EventsAt(c, b', batch) == EventsAt(c, b, batch)
    ensures forall valid :: Select(c, b', batch, valid) == Select(c, b, batch, valid)
  {
    if batch == [] {
    } else {
      EventsAtStable(c, b, b', batch[..|batch| - 1]);
    }
  }

  lemma StoredStable(c: Config, b: Broker, b': Broker, p: nat)
    requires b.entries <= b'.entries && p <= |b.entries|
    ensures Stored(c, b', p) == Stored(c, b, p)
  {
    EventsAtStable(c, b, b', Range(0, p));
  }

  /** One more entry: nothing when it is invalid, one conflict-ignoring insert when it is valid. */
  lemma StoredNext(c: Config, b: Broker, p: nat)
    requires p < |b.entries|
    ensures Stored(c, b, p + 1) ==
            if IsValid(c, b, p) then InsertOne(Stored(c, b, p), Coerce(c.codec, b.entries[p]).value)
            else Stored(c, b, p)
  {
    var r := Range(0, p + 1);
    assert r[..p] == Range(0, p);
    var xs := EventsAt(c, b, Range(0, p));
    if IsValid(c, b, p) {
      var e := Coerce(c.codec, b.entries[p]).value;
      assert EventsAt(c, b, r) == xs + [e];
      assert (xs + [e])[..|xs|] == xs;
    }
  }

  // ---------------------------------------------------------------- what is stored, read off the raw entries

  /** Entry `i` holds an object that the schema turns into `event`. */
  ghost predicate Carries(c: Config, b: Broker, i: nat, event: WebEvent) {
    && i < |b.entries|
    && exists payload :: IsDecoded(c.codec, b.entries[i], payload) && c.codec.validate(payload) == Some(event)
  }

  lemma CarriesIff(c: Config, b: Broker, i: nat)
    ensures IsValid(c, b, i) <==> exists event :: Carries(c, b, i, event)
    ensures forall event :: Carries(c, b, i, event) ==> event == Coerce(c.codec, b.entries[i]).value
    ensures IsValid(c, b, i) ==> Carries(c, b, i, Coerce(c.codec, b.entries[i]).value)
  {
    if i < |b.entries| {
      DecodingMeaning(c.codec, b.entries[i]);
      if IsValid(c, b, i) {
        var payload := DecodePayload(c.codec, b.entries[i]);
        assert IsDecoded(c.codec, b.entries[i], payload) && c.codec.validate(payload).Some?;
        assert Carries(c, b, i, Coerce(c.codec, b.entries[i]).value);
      }
    }
  }

  /** Entry `i` carries an event, and no entry before it carries one with the same id. */
  ghost predicate IsFirstCarrier(c: Config, b: Broker, i: nat) {
    exists event :: Carries(c, b, i, event) && !CarriedBefore(c, b, i, event.eventId)
  }

  ghost predicate CarriedBefore(c: Config, b: Broker, i: nat, id: string) {
    exists j: nat, event :: j < i && Carries(c, b, j, event) && event.eventId == id
  }

  /** `from` are the entries the rows of the table came from: the first carriers, in stream order. */
  ghost predicate AreFirstCarriers(c: Config, b: Broker, p: nat, rows: seq<WebEvent>, from: seq<nat>) {
    && Increasing(from) && |from| == |rows|
    && (forall k :: 0 <= k < |rows| ==> from[k] < p && Carries(c, b, from[k], rows[k]))
    && (forall i: nat :: i in from <==> i < p && IsFirstCarrier(c, b, i))
  }

  /**
    What the fold over a stream prefix is, without folding: one row for each entry that carries
    an event with a new id, holding exactly that event, in stream order.
  */
  lemma {:induction false} StoredMeaning(c: Config, b: Broker, p: nat) returns (from: seq<nat>)
    requires p <= |b.entries|
    ensures AreFirstCarriers(c, b, p, Stored(c, b, p), from)
  {
    if p == 0 {
      from := [];
      assert Range(0, 0) == [];
    } else {
      from := StoredMeaning(c, b, p - 1);
      StoredByCarrier(c, b, p - 1);
      if IsFirstCarrier(c, b, p - 1) {
        CarriesIff(c, b, p - 1);
        NextCarrier(c, b, p - 1, Stored(c, b, p - 1), from, Coerce(c.codec, b.entries[p - 1]).value);
        from := from + [p - 1];
      } else {
        NoCarrier(c, b, p - 1, Stored(c, b, p - 1), from);
      }
    }
  }

  lemma StoredByCarrier(c: Config, b: Broker, i: nat)
    requires i < |b.entries|
    ensures IsFirstCarrier(c, b, i) ==> IsValid(c, b, i)
    ensures Stored(c, b, i + 1) ==
            if IsFirstCarrier(c, b, i) then Stored(c, b, i) + [Coerce(c.codec, b.entries[i]).value] else Stored(c, b, i)
  {
    StoredNext(c, b, i);
    FirstCarrierIff(c, b, i);
  }

  lemma NextCarrier(c: Config, b: Broker, p: nat, rows: seq<WebEvent>, from: seq<nat>, event: WebEvent)
    requires AreFirstCarriers(c, b, p, rows, from) && IsFirstCarrier(c, b, p) && Carries(c, b, p, event)
    ensures AreFirstCarriers(c, b, p + 1, rows + [event], from + [p])
  {
    forall k | 0 <= k < |from| ensures from[k] < p {
      assert from[k] in from;
    }
    IncreasingSnoc(from, p);
    assert forall i :: i in from + [p] <==> i in from || i == p;
  }

  lemma NoCarrier(c: Config, b: Broker, p: nat, rows: seq<WebEvent>, from: seq<nat>)
    requires AreFirstCarriers(c, b, p, rows, from) && !IsFirstCarrier(c, b, p)
    ensures AreFirstCarriers(c, b, p + 1, rows, from)
  {
  }

  /** An entry is the first carrier of its id exactly when it is valid and its id is not stored yet. */
  lemma FirstCarrierIff(c: Config, b: Broker, i: nat)
    requires i < |b.entries|
    ensures IsFirstCarrier(c, b, i) <==>
            IsValid(c, b, i) && !HasId(Stored(c, b, i), Coerce(c.codec, b.entries[i]).value.eventId)
  {
    CarriesIff(c, b, i);
    if IsValid(c, b, i) {
      CarriedBeforeIff(c, b, i, Coerce(c.codec, b.entries[i]).value.eventId);
    }
  }

  lemma {:induction false} CarriedBeforeIff(c: Config, b: Broker, p: nat, id: string)
    requires p <= |b.entries|
    ensures CarriedBefore(c, b, p, id) <==> HasId(Stored(c, b, p), id)
  {
    if p == 0 {
      assert Range(0, 0) == [];
    } else {
      CarriedBeforeIff(c, b, p - 1, id);
      StoredNext(c, b, p - 1);
      CarriesIff(c, b, p - 1);
      assert CarriedBefore(c, b, p, id) <==>
             CarriedBefore(c, b, p - 1, id) || exists event :: Carries(c, b, p - 1, event) && event.eventId == id;
      if IsValid(c, b, p - 1) {
        InsertOneIds(Stored(c, b, p - 1), Coerce(c.codec, b.entries[p - 1]).value, id);
      }
    }
  }

  /** The events of a batch are those its valid entries carry, and ids keep their order. */
  lemma {:induction false} EventsAtMeaning(c: Config, b: Broker, batch: seq<nat>)
    ensures var ids, events := Select(c, b, batch, true), EventsAt(c, b, batch);
            |events| == |ids| && forall k :: 0 <= k < |ids| ==> Carries(c, b, ids[k], events[k])
    ensures forall valid :: Increasing(batch) ==> Increasing(Select(c, b, batch, valid))
  {
    if batch == [] {
    } else {
      var init, last := batch[..|batch| - 1], batch[|batch| - 1];
      EventsAtMeaning(c, b, init);
      CarriesIff(c, b, last);
      forall valid | Increasing(batch) ensures Increasing(Select(c, b, batch, valid)) {
        SelectMeaning(c, b, init, valid);
        var rest := Select(c, b, init, valid);
        forall k | 0 <= k < |rest| ensures rest[k] < last {
          assert rest[k] in init;
        }
      }
    }
  }

  lemma {:induction false} StoredSkipsInvalid(c: Config, b: Broker, p: nat, q: nat)
    requires p <= q <= |b.entries|
    requires forall i: nat :: p <= i < q ==> !IsValid(c, b, i)
    ensures Stored(c, b, q) == Stored(c, b, p)
    decreases q - p
  {
    if p == q {
    } else {
      StoredSkipsInvalid(c, b, p, q - 1);
      StoredSkipsOne(c, b, q - 1);
    }
  }

  lemma StoredSkipsOne(c: Config, b: Broker, p: nat)
    requires p < |b.entries| && !IsValid(c, b, p)
    ensures Stored(c, b, p + 1) == Stored(c, b, p)
  {
    StoredNext(c, b, p);
  }

  /** One more entry never removes an id. */
  lemma StoredKeepsId(c: Config, b: Broker, p: nat, id: string)
    requires p < |b.entries| && HasId(Stored(c, b, p), id)
    ensures HasId(Stored(c, b, p + 1), id)
  {
    StoredNext(c, b, p);
    if IsValid(c, b, p) {
      InsertOneIds(Stored(c, b, p), Coerce(c.codec, b.entries[p]).value, id);
    }
  }

  lemma {:induction false} StoredHasId(c: Config, b: Broker, p: nat, i: nat)
    requires i < p <= |b.entries| && IsValid(c, b, i)
    ensures HasId(Stored(c, b, p), Coerce(c.codec, b.entries[i]).value.eventId)
    decreases p
  {
    var id := Coerce(c.codec, b.entries[i]).value.eventId;
    if i == p - 1 {
      StoredNext(c, b, i);
      InsertOneIds(Stored(c, b, i), Coerce(c.codec, b.entries[i]).value, id);
    } else {
      StoredHasId(c, b, p - 1, i);
      StoredKeepsId(c, b, p - 1, id);
    }
  }

  /**
    The commit step: inserting the events of a covering batch on top of a stored prefix
    gives the stored prefix that ends with the batch, even when part of the batch was
    stored before.
  */
  lemma {:induction false} CommitExtendsPrefix(c: Config, b: Broker, batch: seq<nat>, p: nat)
    requires p <= |b.entries| && Increasing(batch)
    requires forall k :: 0 <= k < |batch| ==> batch[k] < |b.entries|
    requires batch != [] ==> CoversFrom(c, b, batch, p)
    ensures Insert(Stored(c, b, p), EventsAt(c, b, batch)) == Stored(c, b, EndOf(batch, p))
  {
    if batch == [] {
    } else {
      var n := |batch| - 1;
      var init, id := batch[..n], batch[n];
      if init != [] {
        forall i: nat | p <= i <= init[n - 1] && IsValid(c, b, i) ensures i in init {
          assert i in batch;
        }
      }
      CommitExtendsPrefix(c, b, init, p);
      InsertLast(c, b, Stored(c, b, p), batch);
      CommitOneMore(c, b, batch, p);
    }
  }

  /** No valid entry from `p` to the end of the batch is missing from the batch. */
  ghost predicate CoversFrom(c: Config, b: Broker, batch: seq<nat>, p: nat)
    requires batch != []
  {
    forall i: nat :: p <= i <= batch[|batch| - 1] && IsValid(c, b, i) ==> i in batch
  }

  /** How long a prefix is stored once the batch is. */
  function EndOf(batch: seq<nat>, p: nat): nat {
    if batch == [] then p else Max(p, batch[|batch| - 1] + 1)
  }

  lemma InsertLast(c: Config, b: Broker, rows: seq<WebEvent>, batch: seq<nat>)
    requires batch != [] && batch[|batch| - 1] < |b.entries|
    ensures var before, id := Insert(rows, EventsAt(c, b, batch[..|batch| - 1])), batch[|batch| - 1];
            Insert(rows, EventsAt(c, b, batch)) ==
            if IsValid(c, b, id) then InsertOne(before, Coerce(c.codec, b.entries[id]).value) else before
  {
    var xs, id := EventsAt(c, b, batch[..|batch| - 1]), batch[|batch| - 1];
    if IsValid(c, b, id) {
      assert (xs + [Coerce(c.codec, b.entries[id]).value])[..|xs|] == xs;
    }
  }

  lemma CommitOneMore(c: Config, b: Broker, batch: seq<nat>, p: nat)
    requires p <= |b.entries| && Increasing(batch) && batch != [] && CoversFrom(c, b, batch, p)
    requires batch[|batch| - 1] < |b.entries|
    ensures EndOf(batch[..|batch| - 1], p) <= |b.entries|
    ensures var hi, id := EndOf(batch[..|batch| - 1], p), batch[|batch| - 1];
            Stored(c, b, EndOf(batch, p)) ==
            if IsValid(c, b, id) then InsertOne(Stored(c, b, hi), Coerce(c.codec, b.entries[id]).value)
            else Stored(c, b, hi)
  {
    var hi, id := EndOf(batch[..|batch| - 1], p), batch[|batch| - 1];
    if id < p {
      assert EndOf(batch, p) == hi == p;
      if IsValid(c, b, id) {
        StoredHasId(c, b, p, id);
      }
    } else {
      GapIsInvalid(c, b, batch, p, hi);
      StoredSkipsInvalid(c, b, hi, id);
      StoredNext(c, b, id);
    }
  }

  /** Between the last two ids of a covering batch there is no valid entry beyond `p`. */
  lemma GapIsInvalid(c: Config, b: Broker, batch: seq<nat>, p: nat, lo: nat)
    requires batch != [] && Increasing(batch) && CoversFrom(c, b, batch, p)
    requires p <= lo && (|batch| > 1 ==> batch[|batch| - 2] < lo)
    ensures forall i: nat :: lo <= i < batch[|batch| - 1] ==> !IsValid(c, b, i)
  {
    forall i: nat | lo <= i < batch[|batch| - 1] ensures !IsValid(c, b, i) {
      forall k | 0 <= k < |batch| ensures batch[k] != i {
        if k < |batch| - 2 {
          assert batch[k] < batch[|batch| - 2];
        }
      }
    }
  }

  // ---------------------------------------------------------------- every step keeps the invariant

  lemma EnvKeepsInv(c: Config, s: State, e: EnvStep, p: nat)
    requires Inv(c, s, p)
    ensures Inv(c, s.(broker := EnvApply(s.broker, e)), p)
  {
    var b, b' := s.broker, EnvApply(s.broker, e);
    StoredStable(c, b, b', p);
    assert forall i: nat :: i < |b.entries| ==> IsValid(c, b', i) == IsValid(c, b, i);
    match e
    case Append(raw) =>
    case Trim(upTo) =>
      if MayTrim(b, upTo) {
        forall i: nat | i < upTo && IsValid(c, b', i) ensures i < p {
          assert i !in b.group.value.pending;
        }
      }
    case DropGroup =>
    case CreateGroup =>
  }

  lemma ReadPendingKeepsInv(c: Config, s: State, o: Outcome, p: nat)
    requires Inv(c, s, p) && s.phase == ReadPending
    ensures Inv(c, CommandApply(c, s, o), p)
  {
    if o.Done? && s.broker.group.Some? {
      var g := s.broker.group.value;
      var ids := PendingIds(g, c.batchSize);
      assert ids == g.pending;
      if ids != [] {
        forall i: nat | p <= i <= ids[|ids| - 1] && IsValid(c, s.broker, i) ensures i in ids {
          assert i < g.lastDelivered;
        }
        assert BatchCovers(c, s.broker, ids, p);
      }
    }
  }

  lemma NewDeliveredMeaning(c: Config, b: Broker, g: Group)
    requires b.first <= |b.entries| && g.lastDelivered <= |b.entries|
    ensures var ids := NewIds(b, g, c.batchSize);
            && |ids| <= c.batchSize
            && (forall k :: 0 <= k < |ids| ==> ids[k] == FirstUndelivered(b, g) + k && ids[k] < |b.entries|)
            && (forall i: nat :: ids != [] && FirstUndelivered(b, g) <= i <= ids[|ids| - 1] ==> i in ids)
  {
    var ids, lo := NewIds(b, g, c.batchSize), FirstUndelivered(b, g);
    forall i: nat | ids != [] && lo <= i <= ids[|ids| - 1] ensures i in ids {
      assert ids[i - lo] == i;
    }
  }

  lemma ReadNewKeepsInv(c: Config, s: State, o: Outcome, p: nat)
    requires Inv(c, s, p) && s.phase == ReadNew
    ensures Inv(c, CommandApply(c, s, o), p)
  {
    if s.broker.group.Some? && !o.Refused? && NewIds(s.broker, s.broker.group.value, c.batchSize) != [] {
      ReadNewDelivers(c, s, s.broker.group.value, p);
    }
  }

  /** A delivered batch may be held in memory, or be lost on the way. */
  lemma ReadNewDelivers(c: Config, s: State, g: Group, p: nat)
    requires Inv(c, s, p) && s.phase == ReadNew
    requires s.broker.group == Some(g) && NewIds(s.broker, g, c.batchSize) != []
    ensures var b', ids := NewDelivered(s.broker, g, c.batchSize), NewIds(s.broker, g, c.batchSize);
            && Inv(c, s.(broker := b', phase := LoopTop(false)), p)
            && Inv(c, s.(broker := b', phase := AfterRead(c, b', ids)), p)
  {
    var b, b' := s.broker, NewDelivered(s.broker, g, c.batchSize);
    ReadNewCovers(c, b, g, p);
    StoredStable(c, b, b', p);
    assert forall i: nat :: IsValid(c, b', i) == IsValid(c, b, i);
  }

  /** Every valid entry before the batch that is read is stored. */
  lemma ReadNewStored(c: Config, b: Broker, g: Group, p: nat)
    requires GroupOk(c, b, g, p) && g.pending == []
    requires forall i: nat :: i < b.first && IsValid(c, b, i) ==> i < p
    ensures forall i: nat :: i < FirstUndelivered(b, g) && IsValid(c, b, i) ==> i < p
  {
  }

  lemma ReadNewCovers(c: Config, b: Broker, g: Group, p: nat)
    requires b.group == Some(g) && GroupOk(c, b, g, p) && g.pending == []
    requires b.first <= |b.entries| && NewIds(b, g, c.batchSize) != []
    requires forall i: nat :: i < b.first && IsValid(c, b, i) ==> i < p
    ensures var b' := NewDelivered(b, g, c.batchSize);
            GroupOk(c, b', b'.group.value, p) && BatchCovers(c, b', NewIds(b, g, c.batchSize), p)
  {
    var ids, b' := NewIds(b, g, c.batchSize), NewDelivered(b, g, c.batchSize);
    NewDeliveredMeaning(c, b, g);
    ReadNewStored(c, b, g, p);
    assert b'.group.value == Group(ids[|ids| - 1] + 1, ids) by {
      assert [] + ids == ids;
    }
    assert forall i: nat :: IsValid(c, b', i) == IsValid(c, b, i);
    ReadNewGroupOk(c, b', ids, FirstUndelivered(b, g), p);
    assert CoversFrom(c, b', ids, p);
  }

  lemma ReadNewGroupOk(c: Config, b: Broker, ids: seq<nat>, lo: nat, p: nat)
    requires ids != [] && |ids| <= c.batchSize && b.first <= lo
    requires forall k :: 0 <= k < |ids| ==> ids[k] == lo + k && ids[k] < |b.entries|
    requires forall i: nat :: lo <= i <= ids[|ids| - 1] ==> i in ids
    requires forall i: nat :: i < lo && IsValid(c, b, i) ==> i < p
    ensures GroupOk(c, b, Group(ids[|ids| - 1] + 1, ids), p)
  {
  }

  lemma AckKeepsGroup(c: Config, b: Broker, ids: seq<nat>, p: nat)
    requires b.group.Some? && GroupOk(c, b, b.group.value, p)
    requires forall k :: 0 <= k < |ids| && IsValid(c, b, ids[k]) ==> ids[k] < p
    ensures GroupOk(c, Acked(b, ids), Acked(b, ids).group.value, p)
  {
    var g, b' := b.group.value, Acked(b, ids);
    var g' := b'.group.value;
    WithoutMeaning(g.pending, ids);
    assert forall i: nat :: IsValid(c, b', i) == IsValid(c, b, i);
    forall k | 0 <= k < |g'.pending|
      ensures b.first <= g'.pending[k] < g.lastDelivered <= g'.pending[k] + c.batchSize
    {
      assert g'.pending[k] in g.pending;
    }
    forall i: nat | i < g.lastDelivered && IsValid(c, b, i) && i !in g'.pending ensures i < p {
    }
  }

  /** Acking ids that are invalid or stored leaves everything but the pending list as it was. */
  lemma AckedKeepsInv(c: Config, s: State, ids: seq<nat>, phase: Phase, p: nat)
    requires Inv(c, s, p)
    requires forall k :: 0 <= k < |ids| && IsValid(c, s.broker, ids[k]) ==> ids[k] < p
    requires PhaseOk(c, s.(phase := phase), p) && phase != ReadNew
    ensures Inv(c, s.(broker := Acked(s.broker, ids), phase := phase), p)
  {
    var b, b' := s.broker, Acked(s.broker, ids);
    StoredStable(c, b, b', p);
    assert forall i: nat :: IsValid(c, b', i) == IsValid(c, b, i);
    if b.group.Some? {
      AckKeepsGroup(c, b, ids, p);
    }
    match phase
    case Store(batch) => assert BatchCovers(c, b', batch, p);
    case AckInvalid(batch) => assert BatchCovers(c, b', batch, p);
    case _ =>
  }

  lemma AckKeepsInv(c: Config, s: State, o: Outcome, p: nat)
    requires Inv(c, s, p) && (s.phase.AckInvalid? || s.phase.AckValid?)
    ensures Inv(c, CommandApply(c, s, o), p)
  {
    if !o.Refused? {
      var ids := Select(c, s.broker, s.phase.batch, s.phase.AckValid?);
      SelectMeaning(c, s.broker, s.phase.batch, s.phase.AckValid?);
      forall k | 0 <= k < |ids| && IsValid(c, s.broker, ids[k]) ensures ids[k] < p {
        assert ids[k] in s.phase.batch;
      }
      var next := CommandApply(c, s, o);
      AckedKeepsInv(c, s, ids, next.phase, p);
    }
  }

  lemma StoreKeepsInv(c: Config, s: State, o: Outcome, p: nat) returns (q: nat)
    requires Inv(c, s, p) && s.phase.Store?
    ensures p <= q && Inv(c, CommandApply(c, s, o), q)
    ensures q == if o.Refused? then p else Max(p, s.phase.batch[|s.phase.batch| - 1] + 1)
  {
    q := p;
    if !o.Refused? {
      var batch := s.phase.batch;
      forall k | 0 <= k < |batch| ensures batch[k] < |s.broker.entries| {
        assert k < |batch| - 1 ==> batch[k] < batch[|batch| - 1];
      }
      CommitExtendsPrefix(c, s.broker, batch, p);
      q := Max(p, batch[|batch| - 1] + 1);
    }
  }

  /** `q` is how long a stream prefix is stored after the step; it never shrinks. */
  lemma StepKeepsInv(c: Config, s: State, step: Step, p: nat) returns (q: nat)
    requires Inv(c, s, p)
    ensures p <= q && Inv(c, Apply(c, s, step), q)
  {
    q := p;
    match step
    case Env(e) => EnvKeepsInv(c, s, e, p);
    case Crash =>
    case Start(o) => EnvKeepsInv(c, s, CreateGroup, p);
    case Stop =>
    case EnsureGroup(o) => EnvKeepsInv(c, s, CreateGroup, p);
    case BeginPoll =>
    case Command(o) =>
      match s.phase
      case ReadPending => ReadPendingKeepsInv(c, s, o, p);
      case ReadNew => ReadNewKeepsInv(c, s, o, p);
      case AckInvalid(_) => AckKeepsInv(c, s, o, p);
      case AckValid(_) => AckKeepsInv(c, s, o, p);
      case Store(_) => q := StoreKeepsInv(c, s, o, p);
      case _ =>
  }

  lemma {:induction false} RunKeepsInv(c: Config, s: State, steps: seq<Step>, p: nat) returns (q: nat)
    requires Inv(c, s, p)
    ensures p <= q && Inv(c, Run(c, s, steps), q)
  {
    q := p;
    if steps == [] {
    } else {
      var mid := RunKeepsInv(c, s, steps[..|steps| - 1], p);
      q := StepKeepsInv(c, Run(c, s, steps[..|steps| - 1]), steps[|steps| - 1], mid);
    }
  }

  /** Every run from the initial state satisfies the invariant, for some stored prefix. */
  lemma ReachableInv(c: Config, steps: seq<Step>) returns (p: nat)
    ensures Inv(c, Run(c, INIT, steps), p)
  {
    assert Range(0, 0) == [];
    p := RunKeepsInv(c, INIT, steps, 0);
  }
}
