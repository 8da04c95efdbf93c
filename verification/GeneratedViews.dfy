/** The six generated views as aggregates over the stored events, and how their totals fit together. */
module GeneratedViews {
  import opened Wrappers
  import opened Events
  import opened EventStore

  datatype Group<K> = Group(key: K, count: nat)

  /**
    GROUP BY: one row per key that occurs, with the number of its rows that are `counted`:
    all of them under COUNT(*), those without a NULL under COUNT(column).
  */
  function GroupCounts<R, K(==)>(rows: seq<R>, key: R -> K, counted: R -> bool): seq<Group<K>> {
    if rows == [] then []
    else
      var last := rows[|rows| - 1];
      Bump(GroupCounts(rows[..|rows| - 1], key, counted), key(last), if counted(last) then 1 else 0)
  }

  function Bump<K(==)>(groups: seq<Group<K>>, key: K, amount: nat): seq<Group<K>> {
    if groups == [] then [Group(key, amount)]
    else if groups[0].key == key then [Group(key, groups[0].count + amount)] + groups[1..]
    else [groups[0]] + Bump(groups[1..], key, amount)
  }

  function CountWhere<R>(rows: seq<R>, p: R -> bool): nat {
    if rows == [] then 0
    else CountWhere(rows[..|rows| - 1], p) + if p(rows[|rows| - 1]) then 1 else 0
  }

  function Where<R>(rows: seq<R>, p: R -> bool): seq<R> {
    if rows == [] then []
    else Where(rows[..|rows| - 1], p) + if p(rows[|rows| - 1]) then [rows[|rows| - 1]] else []
  }

  /** The sum of the counts of the groups whose key satisfies `p`. */
  function SumWhere<K>(groups: seq<Group<K>>, p: K -> bool): nat {
    if groups == [] then 0
    else (if p(groups[0].key) then groups[0].count else 0) + SumWhere(groups[1..], p)
  }

  function OnKey<R, K>(p: K -> bool, key: R -> K): R -> bool {
    row => p(key(row))
  }

  function Both<R>(p: R -> bool, q: R -> bool): R -> bool {
    row => p(row) && q(row)
  }

  function Is<K(==)>(value: K): K -> bool {
    key => key == value
  }

  function Every<K>(): K -> bool {
    key => true
  }

  // ---------------------------------------------------------------- the views

  const HOUR_MICROSECONDS := 3_600_000_000

  /** `date_trunc('hour', t)`: the full hour that `t` lies in. */
  function TruncatedToHour(t: int): (hour: int)
    ensures hour % HOUR_MICROSECONDS == 0 && hour <= t < hour + HOUR_MICROSECONDS
  {
    t - t % HOUR_MICROSECONDS
  }

  function TypeOf(): WebEvent -> EventType {
    (row: WebEvent) => row.eventType
  }

  function UserOf(): WebEvent -> string {
    (row: WebEvent) => row.userId
  }

  function HourAndTypeOf(): WebEvent -> (int, EventType) {
    (row: WebEvent) => (TruncatedToHour(row.occurredAt), row.eventType)
  }

  function ProductAndTypeOf(): WebEvent -> (Option<string>, EventType) {
    (row: WebEvent) => (row.productId, row.eventType)
  }

  function EventTypeCounts(rows: seq<WebEvent>): seq<Group<EventType>> {
    GroupCounts(rows, TypeOf(), Every())
  }

  function UserEventCounts(rows: seq<WebEvent>): seq<Group<string>> {
    GroupCounts(rows, UserOf(), Every())
  }

  function HourlyEventCounts(rows: seq<WebEvent>): seq<Group<(int, EventType)>> {
    GroupCounts(rows, HourAndTypeOf(), Every())
  }

  function HasProduct(): WebEvent -> bool {
    (row: WebEvent) => row.productId.Some?
  }

  function ProductEventCounts(rows: seq<WebEvent>): seq<Group<(Option<string>, EventType)>> {
    GroupCounts(Where(rows, HasProduct()), ProductAndTypeOf(), Every())
  }

  datatype FunnelStep = FunnelStep(sortOrder: nat, title: string, eventType: EventType)

  /** A row of the funnel joined with the events; without an event it carries NULLs. */
  datatype FunnelRow = FunnelRow(step: FunnelStep, event: Option<WebEvent>)

  const FUNNEL := [
    FunnelStep(1, "Page view", PageView), FunnelStep(2, "Product click", ProductClick),
    FunnelStep(3, "Add to cart", AddToCart), FunnelStep(4, "Purchase", Purchase),
    FunnelStep(5, "Checkout error", CheckoutError)]

  function OfType(t: EventType): WebEvent -> bool {
    OnKey(Is(t), TypeOf())
  }

  /** The LEFT JOIN of funnel steps with events on the event type. */
  function FunnelJoin(steps: seq<FunnelStep>, rows: seq<WebEvent>): seq<FunnelRow> {
    if steps == [] then []
    else
      var last := steps[|steps| - 1];
      FunnelJoin(steps[..|steps| - 1], rows) + JoinStep(last, Where(rows, OfType(last.eventType)))
  }

  function JoinStep(step: FunnelStep, found: seq<WebEvent>): seq<FunnelRow> {
    if found == [] then [FunnelRow(step, None)]
    else seq(|found|, i requires 0 <= i < |found| => FunnelRow(step, Some(found[i])))
  }

  function StepOf(): FunnelRow -> FunnelStep {
    (row: FunnelRow) => row.step
  }

  function HasEvent(): FunnelRow -> bool {
    (row: FunnelRow) => row.event.Some?
  }

  /** COUNT(events.event_id) per step of the LEFT JOIN: rows without an event are not counted. */
  function CommerceFunnelCounts(rows: seq<WebEvent>): seq<Group<FunnelStep>> {
    GroupCounts(FunnelJoin(FUNNEL, rows), StepOf(), HasEvent())
  }

  /** `ratio` is in ten-thousandths, and NULL on an empty table. */
  datatype ErrorRatio = ErrorRatio(errors: nat, total: nat, ratio: Option<nat>)

  function ErrorEventRatio(rows: seq<WebEvent>): ErrorRatio {
    var errors, total := CountWhere(rows, OfType(CheckoutError)), |rows|;
    ErrorRatio(errors, total, if total == 0 then None else Some((2 * 10000 * errors + total) / (2 * total)))
  }

  // ---------------------------------------------------------------- counting

  lemma {:induction false} CountAgrees<R(!new)>(rows: seq<R>, p: R -> bool, q: R -> bool)
    requires forall row :: p(row) == q(row)
    ensures CountWhere(rows, p) == CountWhere(rows, q)
  {
    if rows == [] {
    } else {
      CountAgrees(rows[..|rows| - 1], p, q);
    }
  }

  lemma {:induction false} CountAll<R(!new)>(rows: seq<R>, p: R -> bool)
    requires forall row :: p(row)
    ensures CountWhere(rows, p) == |rows|
  {
    if rows == [] {
    } else {
      CountAll(rows[..|rows| - 1], p);
    }
  }

  lemma {:induction false} CountAtMostAll<R>(rows: seq<R>, p: R -> bool)
    ensures CountWhere(rows, p) <= |rows|
  {
    if rows == [] {
    } else {
      CountAtMostAll(rows[..|rows| - 1], p);
    }
  }

  /** A count is zero exactly when no row satisfies the predicate. */
  lemma {:induction false} CountIsZero<R(!new)>(rows: seq<R>, p: R -> bool)
    ensures CountWhere(rows, p) == 0 <==> forall row :: row in rows ==> !p(row)
  {
    if rows == [] {
    } else {
      var init, last := rows[..|rows| - 1], rows[|rows| - 1];
      CountIsZero(init, p);
      assert rows == init + [last];
    }
  }

  lemma {:induction false} CountSplits<R(!new)>(rows: seq<R>, p: R -> bool, q: R -> bool, r: R -> bool)
    requires forall row :: p(row) == (q(row) || r(row)) && !(q(row) && r(row))
    ensures CountWhere(rows, p) == CountWhere(rows, q) + CountWhere(rows, r)
  {
    if rows == [] {
    } else {
      CountSplits(rows[..|rows| - 1], p, q, r);
    }
  }

  lemma {:induction false} CountConcat<R>(xs: seq<R>, ys: seq<R>, p: R -> bool)
    ensures CountWhere(xs + ys, p) == CountWhere(xs, p) + CountWhere(ys, p)
  {
    if ys == [] {
      assert xs + ys == xs;
    } else {
      CountConcat(xs, ys[..|ys| - 1], p);
      assert (xs + ys)[..|xs + ys| - 1] == xs + ys[..|ys| - 1];
    }
  }

  lemma {:induction false} WhereCounts<R>(rows: seq<R>, p: R -> bool)
    ensures |Where(rows, p)| == CountWhere(rows, p)
  {
    if rows == [] {
    } else {
      WhereCounts(rows[..|rows| - 1], p);
    }
  }

  // ---------------------------------------------------------------- grouping is exact

  lemma {:induction false} BumpAdds<K>(groups: seq<Group<K>>, key: K, amount: nat, p: K -> bool)
    ensures SumWhere(Bump(groups, key, amount), p) == SumWhere(groups, p) + if p(key) then amount else 0
  {
    if groups == [] {
      assert [Group(key, amount)][1..] == [];
    } else if groups[0].key != key {
      BumpAdds(groups[1..], key, amount, p);
      assert Bump(groups, key, amount)[1..] == Bump(groups[1..], key, amount);
    }
  }

  /** The one fact behind all marginals: summing groups by any property of the key counts rows by it. */
  lemma {:induction false} GroupSumsCountRows<R, K>(rows: seq<R>, key: R -> K, counted: R -> bool, p: K -> bool)
    ensures SumWhere(GroupCounts(rows, key, counted), p) == CountWhere(rows, Both(OnKey(p, key), counted))
  {
    if rows == [] {
    } else {
      var init, last := rows[..|rows| - 1], rows[|rows| - 1];
      GroupSumsCountRows(init, key, counted, p);
      BumpAdds(GroupCounts(init, key, counted), key(last), if counted(last) then 1 else 0, p);
    }
  }

  lemma StarSumsCountRows<R(!new), K>(rows: seq<R>, key: R -> K, p: K -> bool)
    ensures SumWhere(GroupCounts(rows, key, Every()), p) == CountWhere(rows, OnKey(p, key))
  {
    GroupSumsCountRows(rows, key, Every(), p);
    CountAgrees(rows, Both(OnKey(p, key), Every()), OnKey(p, key));
  }

  ghost predicate DistinctKeys<K(!new)>(groups: seq<Group<K>>) {
    forall i, j :: 0 <= i < j < |groups| ==> groups[i].key != groups[j].key
  }

  ghost predicate HasKey<K(!new)>(groups: seq<Group<K>>, key: K) {
    exists i :: 0 <= i < |groups| && groups[i].key == key
  }

  ghost predicate Occurs<R(!new), K(!new)>(rows: seq<R>, key: R -> K, k: K) {
    exists i :: 0 <= i < |rows| && key(rows[i]) == k
  }

  lemma {:induction false} BumpKeys<K(!new)>(groups: seq<Group<K>>, key: K, amount: nat)
    requires DistinctKeys(groups)
    ensures DistinctKeys(Bump(groups, key, amount))
    ensures forall k :: HasKey(Bump(groups, key, amount), k) <==> HasKey(groups, k) || k == key
  {
    var bumped := Bump(groups, key, amount);
    if groups == [] {
      assert bumped[0].key == key;
    } else {
      var rest := groups[1..];
      BumpKeys(rest, key, amount);
      forall k ensures HasKey(bumped, k) <==> HasKey(groups, k) || k == key {
        HeadKey(groups, k);
        HeadKey(bumped, k);
      }
      if groups[0].key != key {
        assert !HasKey(rest, groups[0].key);
        forall j | 0 < j < |bumped| ensures bumped[j].key != groups[0].key {
          assert HasKey(bumped[1..], bumped[1..][j - 1].key);
        }
      }
    }
  }

  lemma HeadKey<K(!new)>(groups: seq<Group<K>>, k: K)
    requires groups != []
    ensures HasKey(groups, k) <==> groups[0].key == k || HasKey(groups[1..], k)
  {
    if HasKey(groups[1..], k) {
      var i :| 0 <= i < |groups| - 1 && groups[1..][i].key == k;
      assert groups[i + 1].key == k;
    }
    if HasKey(groups, k) && groups[0].key != k {
      var i :| 0 <= i < |groups| && groups[i].key == k;
      assert groups[1..][i - 1].key == k;
    }
  }

  lemma {:induction false} GroupKeys<R(!new), K(!new)>(rows: seq<R>, key: R -> K, counted: R -> bool)
    ensures DistinctKeys(GroupCounts(rows, key, counted))
    ensures forall k :: HasKey(GroupCounts(rows, key, counted), k) <==> Occurs(rows, key, k)
  {
    if rows == [] {
    } else {
      var n := |rows| - 1;
      GroupKeys(rows[..n], key, counted);
      BumpKeys(GroupCounts(rows[..n], key, counted), key(rows[n]), if counted(rows[n]) then 1 else 0);
      forall k ensures Occurs(rows, key, k) <==> Occurs(rows[..n], key, k) || k == key(rows[n]) {
        if Occurs(rows[..n], key, k) {
          var i :| 0 <= i < n && key(rows[..n][i]) == k;
          assert key(rows[i]) == k;
        }
        if Occurs(rows, key, k) && k != key(rows[n]) {
          var i :| 0 <= i <= n && key(rows[i]) == k;
          assert key(rows[..n][i]) == k;
        }
      }
    }
  }

  /** A view row exists for exactly the keys that occur, once each, with the exact number of rows counted. */
  lemma GroupsAreExact<R(!new), K(!new)>(rows: seq<R>, key: R -> K, counted: R -> bool)
    ensures DistinctKeys(GroupCounts(rows, key, counted))
    ensures forall k :: HasKey(GroupCounts(rows, key, counted), k) <==> Occurs(rows, key, k)
    ensures forall g :: g in GroupCounts(rows, key, counted) ==>
              g.count == CountWhere(rows, Both(OnKey(Is(g.key), key), counted))
  {
    GroupKeys(rows, key, counted);
    var groups := GroupCounts(rows, key, counted);
    forall g | g in groups ensures g.count == CountWhere(rows, Both(OnKey(Is(g.key), key), counted)) {
      var i :| 0 <= i < |groups| && groups[i] == g;
      SumOfDistinctKey(groups, i);
      GroupSumsCountRows(rows, key, counted, Is(g.key));
    }
  }

  lemma {:induction false} SumOfDistinctKey<K(!new)>(groups: seq<Group<K>>, i: nat)
    requires i < |groups| && DistinctKeys(groups)
    ensures SumWhere(groups, Is(groups[i].key)) == groups[i].count
  {
    if i == 0 {
      SumOfAbsentKey(groups[1..], groups[0].key);
    } else {
      SumOfDistinctKey(groups[1..], i - 1);
    }
  }

  lemma {:induction false} SumOfAbsentKey<K(!new)>(groups: seq<Group<K>>, key: K)
    requires forall k :: 0 <= k < |groups| ==> groups[k].key != key
    ensures SumWhere(groups, Is(key)) == 0
  {
    if groups == [] {
    } else {
      SumOfAbsentKey(groups[1..], key);
    }
  }

  // ---------------------------------------------------------------- what each view shows, on the event fields

  /** Positions of the rows that satisfy a predicate. */
  function Positions<R>(rows: seq<R>, p: R -> bool): set<int> {
    set i | 0 <= i < |rows| && p(rows[i])
  }

  lemma {:induction false} CountIsPositions<R>(rows: seq<R>, p: R -> bool)
    ensures CountWhere(rows, p) == |Positions(rows, p)|
  {
    if rows == [] {
      assert Positions(rows, p) == {};
    } else {
      var n := |rows| - 1;
      CountIsPositions(rows[..n], p);
      assert Positions(rows, p) == if p(rows[n]) then Positions(rows[..n], p) + {n} else Positions(rows[..n], p);
    }
  }

  /** The rows of a COUNT(*) view, for one key: it has a row when `mine` holds of an event, and counts those events. */
  ghost predicate Shows<K(!new)>(view: seq<Group<K>>, key: K, rows: seq<WebEvent>, mine: WebEvent -> bool) {
    && DistinctKeys(view)
    && (HasKey(view, key) <==> exists i :: 0 <= i < |rows| && mine(rows[i]))
    && (forall g :: g in view && g.key == key ==> g.count == |Positions(rows, mine)|)
  }

  lemma StarShows<K(!new)>(rows: seq<WebEvent>, key: WebEvent -> K, k: K, mine: WebEvent -> bool)
    requires forall row :: mine(row) <==> key(row) == k
    ensures Shows(GroupCounts(rows, key, Every()), k, rows, mine)
  {
    GroupsAreExact(rows, key, Every());
    CountAgrees(rows, Both(OnKey(Is(k), key), Every()), mine);
    CountIsPositions(rows, mine);
  }

  lemma {:induction false} WhereCountsBoth<R>(rows: seq<R>, p: R -> bool, q: R -> bool)
    ensures CountWhere(Where(rows, p), q) == CountWhere(rows, Both(p, q))
  {
    if rows == [] {
    } else {
      var init, last := rows[..|rows| - 1], rows[|rows| - 1];
      WhereCountsBoth(init, p, q);
      if p(last) {
        assert (Where(init, p) + [last])[..|Where(init, p)|] == Where(init, p);
      } else {
        assert Where(rows, p) == Where(init, p);
      }
    }
  }

  function HasType(t: EventType): WebEvent -> bool {
    (row: WebEvent) => row.eventType == t
  }

  function HasUser(user: string): WebEvent -> bool {
    (row: WebEvent) => row.userId == user
  }

  function InHour(hour: int, t: EventType): WebEvent -> bool {
    (row: WebEvent) =>
      row.eventType == t && hour % 3_600_000_000 == 0 && hour <= row.occurredAt < hour + 3_600_000_000
  }

  function OfProduct(product: string, t: EventType): WebEvent -> bool {
    (row: WebEvent) => row.productId == Some(product) && row.eventType == t
  }

  lemma TypeViewMeaning(rows: seq<WebEvent>, t: EventType)
    ensures Shows(EventTypeCounts(rows), t, rows, HasType(t))
  {
    StarShows(rows, TypeOf(), t, HasType(t));
  }

  lemma UserViewMeaning(rows: seq<WebEvent>, user: string)
    ensures Shows(UserEventCounts(rows), user, rows, HasUser(user))
  {
    StarShows(rows, UserOf(), user, HasUser(user));
  }

  /** The hourly view has a row for a whole hour and a type exactly when an event of the type lies in the hour. */
  lemma HourlyViewMeaning(rows: seq<WebEvent>, hour: int, t: EventType)
    ensures Shows(HourlyEventCounts(rows), (hour, t), rows, InHour(hour, t))
  {
    forall row ensures InHour(hour, t)(row) <==> HourAndTypeOf()(row) == (hour, t) {
      if hour % HOUR_MICROSECONDS == 0 && hour <= row.occurredAt < hour + HOUR_MICROSECONDS {
        HoursAreApart(TruncatedToHour(row.occurredAt), hour, row.occurredAt);
      }
    }
    StarShows(rows, HourAndTypeOf(), (hour, t), InHour(hour, t));
  }

  lemma HoursAreApart(h: int, k: int, t: int)
    requires h % HOUR_MICROSECONDS == 0 && k % HOUR_MICROSECONDS == 0
    requires h <= t < h + HOUR_MICROSECONDS && k <= t < k + HOUR_MICROSECONDS
    ensures h == k
  {
  }

  /** The product view counts the events of a product and a type; events without a product do not show. */
  lemma ProductViewMeaning(rows: seq<WebEvent>, product: string, t: EventType)
    ensures Shows(ProductEventCounts(rows), (Some(product), t), rows, OfProduct(product, t))
    ensures !HasKey(ProductEventCounts(rows), (None, t))
  {
    var sold, key := Where(rows, HasProduct()), (Some(product), t);
    GroupsAreExact(sold, ProductAndTypeOf(), Every());
    ProductsSold(rows, product, t);
    ProductsCounted(rows, product, t);
  }

  lemma ProductsSold(rows: seq<WebEvent>, product: string, t: EventType)
    ensures Occurs(Where(rows, HasProduct()), ProductAndTypeOf(), (Some(product), t)) <==>
            exists i :: 0 <= i < |rows| && OfProduct(product, t)(rows[i])
    ensures !Occurs(Where(rows, HasProduct()), ProductAndTypeOf(), (None, t))
  {
    var sold, key := Where(rows, HasProduct()), (Some(product), t);
    WhereKeeps(rows, HasProduct());
    if Occurs(sold, ProductAndTypeOf(), key) {
      var i :| 0 <= i < |sold| && ProductAndTypeOf()(sold[i]) == key;
      assert sold[i] in rows;
    }
    if exists i :: 0 <= i < |rows| && OfProduct(product, t)(rows[i]) {
      var i :| 0 <= i < |rows| && OfProduct(product, t)(rows[i]);
      assert rows[i] in sold;
      var k :| 0 <= k < |sold| && sold[k] == rows[i];
      assert ProductAndTypeOf()(sold[k]) == key;
    }
    forall i | 0 <= i < |sold| ensures HasProduct()(sold[i]) {
      assert sold[i] in sold;
    }
  }

  lemma ProductsCounted(rows: seq<WebEvent>, product: string, t: EventType)
    ensures CountWhere(Where(rows, HasProduct()), Both(OnKey(Is((Some(product), t)), ProductAndTypeOf()), Every())) ==
            |Positions(rows, OfProduct(product, t))|
  {
    var mine := Both(OnKey(Is((Some(product), t)), ProductAndTypeOf()), Every());
    WhereCountsBoth(rows, HasProduct(), mine);
    CountAgrees(rows, Both(HasProduct(), mine), OfProduct(product, t));
    CountIsPositions(rows, OfProduct(product, t));
  }

  lemma {:induction false} WhereKeeps<R(!new)>(rows: seq<R>, p: R -> bool)
    ensures forall row :: row in Where(rows, p) <==> row in rows && p(row)
  {
    if rows == [] {
    } else {
      var init, last := rows[..|rows| - 1], rows[|rows| - 1];
      WhereKeeps(init, p);
      assert rows == init + [last];
    }
  }

  // ---------------------------------------------------------------- the views are consistent

  function TypeIs(t: EventType): ((int, EventType)) -> bool {
    (key: (int, EventType)) => key.1 == t
  }

  /** Summing the hourly counts of a type over all hours gives that type's count. */
  lemma HourlyCountsSumToTypeCounts(rows: seq<WebEvent>, t: EventType)
    ensures SumWhere(HourlyEventCounts(rows), TypeIs(t)) == SumWhere(EventTypeCounts(rows), Is(t))
  {
    StarSumsCountRows(rows, HourAndTypeOf(), TypeIs(t));
    StarSumsCountRows(rows, TypeOf(), Is(t));
    CountAgrees(rows, OnKey(TypeIs(t), HourAndTypeOf()), OfType(t));
  }

  lemma StarTotal<R(!new), K>(rows: seq<R>, key: R -> K)
    ensures SumWhere(GroupCounts(rows, key, Every()), Every()) == |rows|
  {
    StarSumsCountRows(rows, key, Every());
    CountAll(rows, OnKey(Every(), key));
  }

  /** Type, user, hourly and funnel totals are all the number of stored events. */
  lemma TotalsAgree(rows: seq<WebEvent>)
    ensures SumWhere(EventTypeCounts(rows), Every()) == |rows|
    ensures SumWhere(UserEventCounts(rows), Every()) == |rows|
    ensures SumWhere(HourlyEventCounts(rows), Every()) == |rows|
    ensures SumWhere(CommerceFunnelCounts(rows), Every()) == |rows|
    ensures SumWhere(ProductEventCounts(rows), Every()) == CountWhere(rows, HasProduct())
  {
    StarTotal(rows, TypeOf());
    StarTotal(rows, UserOf());
    StarTotal(rows, HourAndTypeOf());
    FunnelTotal(rows);
    StarTotal(Where(rows, HasProduct()), ProductAndTypeOf());
    WhereCounts(rows, HasProduct());
  }

  // ---------------------------------------------------------------- the funnel

  /** No step and no event type twice. */
  ghost predicate DistinctSteps(steps: seq<FunnelStep>) {
    forall i, j :: 0 <= i < j < |steps| ==> steps[i].eventType != steps[j].eventType
  }

  function TypeAmong(steps: seq<FunnelStep>): WebEvent -> bool {
    (row: WebEvent) => exists i :: 0 <= i < |steps| && steps[i].eventType == row.eventType
  }

  lemma JoinStepCounts(step: FunnelStep, found: seq<WebEvent>, p: FunnelRow -> bool)
    requires forall row :: p(row) == (row.step == step && row.event.Some?) || forall row :: p(row) == row.event.Some?
    ensures CountWhere(JoinStep(step, found), p) == |found|
  {
    if found == [] {
      assert JoinStep(step, found)[..0] == [];
    } else {
      EveryRowCounts(JoinStep(step, found), p);
    }
  }

  lemma {:induction false} EveryRowCounts<R>(rows: seq<R>, p: R -> bool)
    requires forall i :: 0 <= i < |rows| ==> p(rows[i])
    ensures CountWhere(rows, p) == |rows|
  {
    if rows == [] {
    } else {
      EveryRowCounts(rows[..|rows| - 1], p);
    }
  }

  lemma JoinStepOfOther(step: FunnelStep, other: FunnelStep, found: seq<WebEvent>)
    requires step != other
    ensures CountWhere(JoinStep(other, found), Both(OnKey(Is(step), StepOf()), HasEvent())) == 0
  {
    var joined := JoinStep(other, found);
    forall row | row in joined ensures row.step == other {
    }
    CountIsZero(joined, Both(OnKey(Is(step), StepOf()), HasEvent()));
  }

  /** The join pairs a step with exactly the events of its type. */
  lemma {:induction false} FunnelJoinCounts(steps: seq<FunnelStep>, rows: seq<WebEvent>, step: FunnelStep)
    requires DistinctSteps(steps)
    ensures CountWhere(FunnelJoin(steps, rows), Both(OnKey(Is(step), StepOf()), HasEvent())) ==
            if step in steps then CountWhere(rows, OfType(step.eventType)) else 0
  {
    if steps == [] {
    } else {
      var init, last := steps[..|steps| - 1], steps[|steps| - 1];
      var found, p := Where(rows, OfType(last.eventType)), Both(OnKey(Is(step), StepOf()), HasEvent());
      FunnelJoinCounts(init, rows, step);
      CountConcat(FunnelJoin(init, rows), JoinStep(last, found), p);
      if step == last {
        JoinStepCounts(last, found, p);
        WhereCounts(rows, OfType(last.eventType));
      } else {
        JoinStepOfOther(step, last, found);
      }
    }
  }

  lemma LastTypeAmong(steps: seq<FunnelStep>)
    requires DistinctSteps(steps) && steps != []
    ensures var p, q := TypeAmong(steps[..|steps| - 1]), OfType(steps[|steps| - 1].eventType);
            forall row :: TypeAmong(steps)(row) == (p(row) || q(row)) && !(p(row) && q(row))
  {
    var n := |steps| - 1;
    var p, q := TypeAmong(steps[..n]), OfType(steps[n].eventType);
    forall row ensures TypeAmong(steps)(row) == (p(row) || q(row)) && !(p(row) && q(row)) {
      if p(row) {
        var i :| 0 <= i < n && steps[..n][i].eventType == row.eventType;
        assert steps[i].eventType == row.eventType;
      }
      if TypeAmong(steps)(row) && !q(row) {
        var i :| 0 <= i <= n && steps[i].eventType == row.eventType;
        assert steps[..n][i].eventType == row.eventType;
      }
    }
  }

  lemma {:induction false} FunnelJoinTotal(steps: seq<FunnelStep>, rows: seq<WebEvent>)
    requires DistinctSteps(steps)
    ensures CountWhere(FunnelJoin(steps, rows), HasEvent()) == CountWhere(rows, TypeAmong(steps))
  {
    if steps == [] {
      CountIsZero(rows, TypeAmong(steps));
    } else {
      var n := |steps| - 1;
      var found := Where(rows, OfType(steps[n].eventType));
      FunnelJoinTotal(steps[..n], rows);
      CountConcat(FunnelJoin(steps[..n], rows), JoinStep(steps[n], found), HasEvent());
      JoinStepCounts(steps[n], found, HasEvent());
      WhereCounts(rows, OfType(steps[n].eventType));
      LastTypeAmong(steps);
      CountSplits(rows, TypeAmong(steps), TypeAmong(steps[..n]), OfType(steps[n].eventType));
    }
  }

  lemma FunnelTotal(rows: seq<WebEvent>)
    ensures SumWhere(CommerceFunnelCounts(rows), Every()) == |rows|
  {
    var joined := FunnelJoin(FUNNEL, rows);
    GroupSumsCountRows(joined, StepOf(), HasEvent(), Every());
    CountAgrees(joined, Both(OnKey(Every(), StepOf()), HasEvent()), HasEvent());
    FunnelIsComplete();
    FunnelJoinTotal(FUNNEL, rows);
    CountAll(rows, TypeAmong(FUNNEL));
  }

  /** The five steps are the five event types, each once. */
  lemma FunnelIsComplete()
    ensures DistinctSteps(FUNNEL)
    ensures forall row :: TypeAmong(FUNNEL)(row)
  {
    forall row ensures TypeAmong(FUNNEL)(row) {
      var i := match row.eventType
        case PageView => 0 case ProductClick => 1 case AddToCart => 2 case Purchase => 3 case CheckoutError => 4;
      assert FUNNEL[i].eventType == row.eventType;
    }
  }

  /** Every step is joined at least once, so none is missing from the view. */
  lemma {:induction false} EveryStepOccurs(steps: seq<FunnelStep>, rows: seq<WebEvent>)
    ensures forall step :: Occurs(FunnelJoin(steps, rows), StepOf(), step) <==> step in steps
  {
    if steps == [] {
    } else {
      var init, last := steps[..|steps| - 1], steps[|steps| - 1];
      EveryStepOccurs(init, rows);
      var before, joined := FunnelJoin(init, rows), FunnelJoin(steps, rows);
      assert joined[|before|].step == last;
      assert forall i :: 0 <= i < |before| ==> joined[i] == before[i];
      assert forall i :: |before| <= i < |joined| ==> joined[i].step == last;
      forall step ensures Occurs(joined, StepOf(), step) <==> Occurs(before, StepOf(), step) || step == last {
        if Occurs(before, StepOf(), step) {
          var i :| 0 <= i < |before| && StepOf()(before[i]) == step;
          assert StepOf()(joined[i]) == step;
        }
        if step == last {
          assert StepOf()(joined[|before|]) == step;
        }
      }
    }
  }

  /**
    The funnel has one row per step, with the count its type has in the type view, and zero
    exactly when the type has no row there.
  */
  lemma FunnelAgreesWithTypes(rows: seq<WebEvent>)
    ensures DistinctKeys(CommerceFunnelCounts(rows))
    ensures forall step :: HasKey(CommerceFunnelCounts(rows), step) <==> step in FUNNEL
    ensures forall g :: g in CommerceFunnelCounts(rows) ==> AgreesWithType(g, rows)
  {
    FunnelIsComplete();
    EveryStepOccurs(FUNNEL, rows);
    GroupsAreExact(FunnelJoin(FUNNEL, rows), StepOf(), HasEvent());
    var groups := CommerceFunnelCounts(rows);
    forall g | g in groups ensures AgreesWithType(g, rows) {
      var i :| 0 <= i < |groups| && groups[i] == g;
      assert HasKey(groups, g.key);
      StepAgreesWithType(FUNNEL, g, rows);
    }
  }

  ghost predicate AgreesWithType(g: Group<FunnelStep>, rows: seq<WebEvent>) {
    && g.count == CountWhere(rows, OfType(g.key.eventType)) == |Positions(rows, HasType(g.key.eventType))|
    && g.count == SumWhere(EventTypeCounts(rows), Is(g.key.eventType))
    && (g.count == 0 <==> !HasKey(EventTypeCounts(rows), g.key.eventType))
  }

  lemma StepAgreesWithType(steps: seq<FunnelStep>, g: Group<FunnelStep>, rows: seq<WebEvent>)
    requires DistinctSteps(steps) && g.key in steps
    requires g.count == CountWhere(FunnelJoin(steps, rows), Both(OnKey(Is(g.key), StepOf()), HasEvent()))
    ensures AgreesWithType(g, rows)
  {
    FunnelJoinCounts(steps, rows, g.key);
    CountOfType(rows, g.key.eventType);
    TypeRowIffOccurs(rows, g.key.eventType);
  }

  lemma CountOfType(rows: seq<WebEvent>, t: EventType)
    ensures CountWhere(rows, OfType(t)) == |Positions(rows, HasType(t))|
  {
    CountAgrees(rows, OfType(t), HasType(t));
    CountIsPositions(rows, HasType(t));
  }

  lemma TypeRowIffOccurs(rows: seq<WebEvent>, t: EventType)
    ensures HasKey(EventTypeCounts(rows), t) <==> CountWhere(rows, OfType(t)) > 0
    ensures SumWhere(EventTypeCounts(rows), Is(t)) == CountWhere(rows, OfType(t))
  {
    StarSumsCountRows(rows, TypeOf(), Is(t));
    GroupsAreExact(rows, TypeOf(), Every());
    CountIsZero(rows, OfType(t));
    if Occurs(rows, TypeOf(), t) {
      var i :| 0 <= i < |rows| && TypeOf()(rows[i]) == t;
      assert OfType(t)(rows[i]) && rows[i] in rows;
    }
    if exists row :: row in rows && OfType(t)(row) {
      var row :| row in rows && OfType(t)(row);
      var i :| 0 <= i < |rows| && rows[i] == row;
      assert TypeOf()(rows[i]) == t;
    }
  }

  /**
    The ratio is missing exactly on the empty table, is a proportion, and is within half a
    ten-thousandth of errors over total; the errors are the funnel's last step.
  */
  lemma ErrorRatioIsProportion(rows: seq<WebEvent>)
    ensures var e := ErrorEventRatio(rows);
            && e.errors == |Positions(rows, HasType(CheckoutError))| <= e.total == |rows|
            && (forall g :: g in CommerceFunnelCounts(rows) && g.key == FUNNEL[4] ==> g.count == e.errors)
            && (e.ratio.None? <==> rows == [])
            && (e.ratio.Some? ==> e.ratio.value <= 10000)
            && (e.ratio.Some? ==>
                 && 2 * (e.ratio.value * e.total - 10000 * e.errors) <= e.total
                 && 2 * (10000 * e.errors - e.ratio.value * e.total) <= e.total)
  {
    CountAtMostAll(rows, OfType(CheckoutError));
    CountOfType(rows, CheckoutError);
    FunnelAgreesWithTypes(rows);
    var e := ErrorEventRatio(rows);
    if rows != [] {
      RatioBound(e.errors, e.total);
    }
  }

  lemma QuotientBetween(n: nat, d: nat, low: nat, high: nat)
    requires d > 0 && low * d <= n < high * d
    ensures low <= n / d < high
  {
    var q := n / d;
    assert n == q * d + n % d;
    if q < low {
      ProductGrows(q + 1, low, d);
    }
    if q >= high {
      ProductGrows(high, q, d);
    }
  }

  lemma ProductGrows(a: nat, b: nat, d: nat)
    requires a <= b
    ensures a * d <= b * d
  {
  }

  lemma RatioBound(errors: nat, total: nat)
    requires errors <= total && total > 0
    ensures (2 * 10000 * errors + total) / (2 * total) <= 10000
    ensures var ratio := (2 * 10000 * errors + total) / (2 * total);
            && 2 * (ratio * total - 10000 * errors) <= total
            && 2 * (10000 * errors - ratio * total) <= total
  {
    var n, d := 2 * 10000 * errors + total, 2 * total;
    QuotientBetween(n, d, 0, 10001);
    var ratio := n / d;
    assert n == ratio * d + n % d;
    assert ratio * d == 2 * (ratio * total);
  }

  // ---------------------------------------------------------------- views and the stored stream

  /** A stored batch raises every count by its newly inserted rows, and the total by the count returned. */
  lemma BatchMovesCounts(rows: seq<WebEvent>, batch: seq<WebEvent>, p: WebEvent -> bool)
    ensures rows <= Insert(rows, batch)
    ensures CountWhere(Insert(rows, batch), p) ==
            CountWhere(rows, p) + CountWhere(Insert(rows, batch)[|rows|..], p)
    ensures SumWhere(EventTypeCounts(Insert(rows, batch)), Every()) ==
            SumWhere(EventTypeCounts(rows), Every()) + (|Insert(rows, batch)| - |rows|)
  {
    InsertKeepsRows(rows, batch);
    var after := Insert(rows, batch);
    assert after == rows + after[|rows|..];
    CountConcat(rows, after[|rows|..], p);
    TotalsAgree(rows);
    TotalsAgree(after);
  }

  ghost function FirstWrites(events: seq<WebEvent>, p: WebEvent -> bool): set<int> {
    set i | 0 <= i < |events| && IsFirstWrite(events, i) && p(events[i])
  }

  lemma FirstWritesOfSnoc(init: seq<WebEvent>, last: WebEvent, p: WebEvent -> bool)
    ensures FirstWrites(init + [last], p) ==
            FirstWrites(init, p) + if !HasId(init, last.eventId) && p(last) then {|init|} else {}
  {
    var events, n := init + [last], |init|;
    assert forall j :: 0 <= j < n ==> events[j] == init[j];
    assert forall i :: 0 <= i < n ==> (IsFirstWrite(events, i) <==> IsFirstWrite(init, i));
    assert IsFirstWrite(events, n) <==> !HasId(init, last.eventId);
  }

  /**
    Duplicated deliveries never inflate a view: any count over the table of a stream is the
    number of events nobody with the same id precedes.
  */
  lemma {:induction false} ViewsCountFirstWrites(events: seq<WebEvent>, p: WebEvent -> bool)
    ensures CountWhere(Insert([], events), p) == |FirstWrites(events, p)|
  {
    if events == [] {
      assert FirstWrites(events, p) == {};
    } else {
      var n := |events| - 1;
      var init, last := events[..n], events[n];
      ViewsCountFirstWrites(init, p);
      InsertKeepsRows([], init);
      assert events == init + [last];
      FirstWritesOfSnoc(init, last, p);
      assert HasId(Insert([], init), last.eventId) <==> HasId(init, last.eventId);
      assert n !in FirstWrites(init, p);
    }
  }
}
