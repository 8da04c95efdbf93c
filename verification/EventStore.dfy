/** The `events` table: one atomic batch insert that ignores event ids already present. */
module EventStore {
  import opened Wrappers
  import opened Events

  predicate HasId(rows: seq<WebEvent>, id: string) {
    exists i :: 0 <= i < |rows| && rows[i].eventId == id
  }

  function InsertOne(rows: seq<WebEvent>, event: WebEvent): seq<WebEvent> {
    if HasId(rows, event.eventId) then rows else rows + [event]
  }

  /** INSERT ... VALUES (batch) ON CONFLICT (event_id) DO NOTHING, row by row. */
  function Insert(rows: seq<WebEvent>, batch: seq<WebEvent>): seq<WebEvent> {
    if batch == [] then rows
    else InsertOne(Insert(rows, batch[..|batch| - 1]), batch[|batch| - 1])
  }

  ghost predicate DistinctIds(rows: seq<WebEvent>) {
    forall i, j :: 0 <= i < j < |rows| ==> rows[i].eventId != rows[j].eventId
  }

  /** Position `i` holds the first event of `events` that carries its id. */
  ghost predicate IsFirstWrite(events: seq<WebEvent>, i: int) {
    0 <= i < |events| && forall j :: 0 <= j < i ==> events[j].eventId != events[i].eventId
  }

  lemma {:induction false} InsertAppends(rows: seq<WebEvent>, xs: seq<WebEvent>, ys: seq<WebEvent>)
    ensures Insert(Insert(rows, xs), ys) == Insert(rows, xs + ys)
  {
    if ys == [] {
      assert xs + ys == xs;
    } else {
      var n := |ys| - 1;
      InsertAppends(rows, xs, ys[..n]);
      assert (xs + ys)[..|xs + ys| - 1] == xs + ys[..n];
    }
  }

  /** Rows are never changed or removed, and the batch adds exactly the ids it carries. */
  lemma {:induction false} InsertKeepsRows(rows: seq<WebEvent>, batch: seq<WebEvent>)
    ensures rows <= Insert(rows, batch)
    ensures forall id :: HasId(Insert(rows, batch), id) <==> HasId(rows, id) || HasId(batch, id)
  {
    if batch == [] {
    } else {
      var n := |batch| - 1;
      InsertKeepsRows(rows, batch[..n]);
      var before, event := Insert(rows, batch[..n]), batch[n];
      forall id ensures HasId(InsertOne(before, event), id) <==> HasId(rows, id) || HasId(batch, id) {
        InsertOneIds(before, event, id);
        SnocIds(batch, id);
      }
    }
  }

  lemma InsertOneIds(rows: seq<WebEvent>, event: WebEvent, id: string)
    ensures HasId(InsertOne(rows, event), id) <==> HasId(rows, id) || event.eventId == id
  {
    var after := InsertOne(rows, event);
    if HasId(rows, id) {
      var i :| 0 <= i < |rows| && rows[i].eventId == id;
      assert after[i].eventId == id;
    }
    if event.eventId == id && !HasId(rows, id) {
      assert after[|rows|].eventId == id;
    }
  }

  lemma SnocIds(batch: seq<WebEvent>, id: string)
    requires batch != []
    ensures HasId(batch, id) <==> HasId(batch[..|batch| - 1], id) || batch[|batch| - 1].eventId == id
  {
    var init := batch[..|batch| - 1];
    if HasId(init, id) {
      var i :| 0 <= i < |init| && init[i].eventId == id;
      assert batch[i].eventId == id;
    }
    if HasId(batch, id) && batch[|batch| - 1].eventId != id {
      var i :| 0 <= i < |batch| && batch[i].eventId == id;
      assert init[i].eventId == id;
    }
  }

  /** Writing again what is already stored changes nothing: redelivery is harmless. */
  lemma {:induction false} InsertAbsorbs(rows: seq<WebEvent>, batch: seq<WebEvent>)
    requires forall k :: 0 <= k < |batch| ==> HasId(rows, batch[k].eventId)
    ensures Insert(rows, batch) == rows
  {
    if batch == [] {
    } else {
      InsertAbsorbs(rows, batch[..|batch| - 1]);
    }
  }

  /** Events with distinct ids are all stored, in order. */
  lemma {:induction false} DistinctEventsAreAllStored(events: seq<WebEvent>)
    requires DistinctIds(events)
    ensures Insert([], events) == events
  {
    if events == [] {
    } else {
      var n := |events| - 1;
      DistinctEventsAreAllStored(events[..n]);
      assert !HasId(events[..n], events[n].eventId);
    }
  }

  /** The rows a table should hold: the events nobody with the same id precedes. */
  ghost predicate IsFirstWriteOf(events: seq<WebEvent>, row: WebEvent) {
    exists i :: IsFirstWrite(events, i) && events[i] == row
  }

  lemma FirstWritesSnoc(events: seq<WebEvent>, last: WebEvent, row: WebEvent)
    ensures IsFirstWriteOf(events + [last], row) <==>
            IsFirstWriteOf(events, row) || (row == last && !HasId(events, last.eventId))
  {
    var all, n := events + [last], |events|;
    if IsFirstWriteOf(events, row) {
      var i :| IsFirstWrite(events, i) && events[i] == row;
      assert IsFirstWrite(all, i) && all[i] == row;
    }
    if row == last && !HasId(events, last.eventId) {
      assert forall j :: 0 <= j < n ==> all[j] == events[j];
      assert IsFirstWrite(all, n) && all[n] == row;
    }
    if IsFirstWriteOf(all, row) {
      var i :| IsFirstWrite(all, i) && all[i] == row;
      assert forall j :: 0 <= j < n ==> all[j] == events[j];
      if i < n {
        assert IsFirstWrite(events, i) && events[i] == row;
      }
    }
  }

  /**
    Meaning of the table: its ids are distinct and its rows are exactly the first
    writes of the events inserted so far, each with the contents it was first sent with.
  */
  lemma {:induction false} TableIsFirstWriteWins(events: seq<WebEvent>)
    ensures DistinctIds(Insert([], events))
    ensures forall row :: row in Insert([], events) <==> IsFirstWriteOf(events, row)
  {
    if events == [] {
    } else {
      var n := |events| - 1;
      var init, last := events[..n], events[n];
      TableIsFirstWriteWins(init);
      InsertKeepsRows([], init);
      assert events == init + [last];
      assert HasId(Insert([], init), last.eventId) <==> HasId(init, last.eventId);
      forall row ensures row in Insert([], events) <==> IsFirstWriteOf(events, row) {
        FirstWritesSnoc(init, last, row);
      }
    }
  }

  /** The repository object; `rows` is the committed content of the table. */
  class PostgresEventRepository {
    var rows: seq<WebEvent>

    constructor ()
      ensures rows == []
    {
      rows := [];
    }

    /**
      One transaction. It commits when `committed`, and the caller learns the
      inserted count only when `reported` as well: a commit can succeed on the
      server while the client sees an error.
    */
    method SaveBatch(events: seq<WebEvent>, committed: bool, reported: bool)
      returns (r: Result<nat, ()>)
      modifies this
      ensures rows == if committed || events == [] then Insert(old(rows), events) else old(rows)
      ensures r.Ok? <==> events == [] || (committed && reported)
      ensures r.Ok? ==> |rows| == |old(rows)| + r.value
    {
      if events == [] {
        return Ok(0);
      }
      if !committed {
        return Err(());
      }
      var before := |rows|;
      InsertKeepsRows(rows, events);
      rows := Insert(rows, events);
      r := if reported then Ok(|rows| - before) else Err(());
    }
  }
}
