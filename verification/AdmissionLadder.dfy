/**
 Which sessions an import admits, when they arrive, and the merged trace.  The admission draw
 and the uniform arrival draw are functions of the session's index.
 */
module AdmissionLadder {
  import opened Strings
  import opened Sequences
  import opened StableSort
  import opened TraceSchema
  import opened CodexTrial
  import Names
  import VanDerCorput

  datatype Config = Config(
    trials: nat,
    messages: nat -> Messages,
    params: Params,
    admitUnit: nat -> real,
    arrivalUnit: nat -> real,
    stratified: bool,
    span: real,
    preRoll: real)

  /** A row and the session it belongs to. */
  datatype Row = Row(key: Key, record: TraceRecord)

  // ---------- admission ----------

  function ReplicaPool(trials: nat, r: nat): seq<Key> {
    seq(trials, t requires 0 <= t < trials => Key(t, r))
  }

  function Pool(trials: nat, replicas: nat): seq<Key> {
    if replicas == 0 then [] else Pool(trials, replicas - 1) + ReplicaPool(trials, replicas - 1)
  }

  function IndexIn(c: Config, key: Key): nat {
    key.replica * c.trials + key.trial
  }

  /** By replica first, then by the session's own draw. */
  function AdmitLe(c: Config): (Key, Key) -> bool {
    (a: Key, b: Key) =>
      a.replica < b.replica
      || (a.replica == b.replica && c.admitUnit(IndexIn(c, a)) <= c.admitUnit(IndexIn(c, b)))
  }

  /** By replica, then by trial. */
  predicate KeyLe(a: Key, b: Key) {
    a.replica < b.replica || (a.replica == b.replica && a.trial <= b.trial)
  }

  function Order(c: Config, replicas: nat): seq<Key> {
    Sort(Pool(c.trials, replicas), AdmitLe(c))
  }

  predicate Unlimited(sessions: Option<nat>) {
    sessions.None? || sessions.value == 0
  }

  /** How many are kept: no limit, and a limit of zero, both mean everything. */
  function Keep(sessions: Option<nat>, pool: nat): nat {
    var want := if Unlimited(sessions) then pool else sessions.value;
    if want < pool then want else pool
  }

  function Selected(c: Config, replicas: nat, keep: nat): seq<Key>
    requires keep <= |Order(c, replicas)|
  {
    Sort(Order(c, replicas)[..keep], KeyLe)
  }

  // ---------- arrivals and rows ----------

  function IndexOf<T(==)>(s: seq<T>, x: T): nat
    requires x in s
    ensures IndexOf(s, x) < |s| && s[IndexOf(s, x)] == x
  {
    if s[0] == x then 0 else 1 + IndexOf(s[1..], x)
  }

  ghost function Unit(c: Config, order: seq<Key>, key: Key): real
    requires key in order
  {
    if c.stratified then VanDerCorput.Mirror(IndexOf(order, key)) else c.arrivalUnit(IndexIn(c, key))
  }

  ghost function Arrival(c: Config, order: seq<Key>, key: Key): real
    requires key in order
  {
    ArrivalAt(c, Unit(c, order, key))
  }

  /** The arrivals cover the span and the pre-roll before it. */
  function ArrivalAt(c: Config, unit: real): real {
    unit * (c.preRoll + c.span) - c.preRoll
  }

  function Tag(key: Key, records: seq<TraceRecord>): seq<Row> {
    seq(|records|, i requires 0 <= i < |records| => Row(key, records[i]))
  }

  /** The rows of a session that arrives at the given time. */
  ghost function RowsOf(c: Config, key: Key, arrival: real): seq<TraceRecord> {
    KeptRows(c.params, key, c.messages(key.trial), arrival, |c.messages(key.trial)| / 2)
  }

  ghost function RowsFor(c: Config, order: seq<Key>, keys: seq<Key>): seq<Row>
    requires forall k :: k in keys ==> k in order
  {
    if keys == [] then []
    else
      var last := keys[|keys| - 1];
      RowsFor(c, order, keys[..|keys| - 1]) + Tag(last, RowsOf(c, last, Arrival(c, order, last)))
  }

  /** By time, then by chat id. */
  predicate RowLe(a: Row, b: Row) {
    a.record.timestamp < b.record.timestamp
    || (a.record.timestamp == b.record.timestamp && a.record.chatId <= b.record.chatId)
  }

  ghost predicate IsTrace(c: Config, replicas: nat, keep: nat, trace: seq<Row>) {
    && keep <= |Order(c, replicas)|
    && (forall k :: k in Selected(c, replicas, keep) ==> k in Order(c, replicas))
    && trace == Sort(RowsFor(c, Order(c, replicas), Selected(c, replicas, keep)), RowLe)
  }

  method ArrivalOf(c: Config, order: seq<Key>, key: Key) returns (arrival: real)
    requires key in order
    ensures arrival == Arrival(c, order, key)
  {
    hide ArrivalAt;
    var unit;
    if c.stratified {
      unit := VanDerCorput.Compute(IndexOf(order, key));
    } else {
      unit := c.arrivalUnit(IndexIn(c, key));
    }
    arrival := ArrivalAt(c, unit);
  }

  method Import(c: Config, replicas: nat, sessions: Option<nat>) returns (trace: seq<Row>, selected: seq<Key>)
    ensures IsTrace(c, replicas, Keep(sessions, |Pool(c.trials, replicas)|), trace)
    ensures selected == Selected(c, replicas, Keep(sessions, |Pool(c.trials, replicas)|))
  {
    hide Sort, Pool, Arrival, Tag, KeptRows;
    var order := Order(c, replicas);
    OrderFacts(c, replicas);
    var keep := Keep(sessions, |order|);
    selected := Selected(c, replicas, keep);
    SelectedFacts(c, replicas, keep);
    var rows: seq<Row> := [];
    for i := 0 to |selected|
      invariant rows == RowsFor(c, order, selected[..i])
    {
      var key := selected[i];
      assert key in selected;
      var arrival := ArrivalOf(c, order, key);
      var records := TrialRows(c.params, key, c.messages(key.trial), arrival);
      rows := rows + Tag(key, records);
      RowsForNext(c, order, selected, i);
    }
    assert selected[..|selected|] == selected;
    trace := Sort(rows, RowLe);
  }

  lemma RowsForNext(c: Config, order: seq<Key>, keys: seq<Key>, i: nat)
    requires i < |keys| && forall k :: k in keys ==> k in order
    ensures RowsFor(c, order, keys[..i + 1])
              == RowsFor(c, order, keys[..i]) + Tag(keys[i], RowsOf(c, keys[i], Arrival(c, order, keys[i])))
  {
    assert keys[..i + 1][..i] == keys[..i];
  }

  // ---------- the orders are orders ----------

  lemma AdmitPreorder(c: Config)
    ensures TotalPreorder(AdmitLe(c))
  {}

  lemma KeyPreorder()
    ensures TotalPreorder(KeyLe)
  {}

  lemma RowPreorder()
    ensures TotalPreorder(RowLe)
  {}

  lemma {:induction false} PoolFacts(trials: nat, replicas: nat)
    ensures Distinct(Pool(trials, replicas))
    ensures forall k :: k in Pool(trials, replicas) ==> k.replica < replicas
  {
    if replicas > 0 {
      PoolFacts(trials, replicas - 1);
      var a, b := Pool(trials, replicas - 1), ReplicaPool(trials, replicas - 1);
      forall k ensures k in Pool(trials, replicas) <==> k in a || k in b { InEither(a, b, k); }
      DistinctAppend(a, b);
    }
  }

  lemma OrderFacts(c: Config, replicas: nat)
    ensures |Order(c, replicas)| == |Pool(c.trials, replicas)|
    ensures forall k :: k in Order(c, replicas) <==> k in Pool(c.trials, replicas)
  {
    AdmitPreorder(c);
    SortSorts(Pool(c.trials, replicas), AdmitLe(c));
    BagMembers(Order(c, replicas), Pool(c.trials, replicas));
  }

  lemma SelectedFacts(c: Config, replicas: nat, keep: nat)
    requires keep <= |Order(c, replicas)|
    ensures forall k :: k in Selected(c, replicas, keep) <==> k in Order(c, replicas)[..keep]
    ensures forall k :: k in Selected(c, replicas, keep) ==> k in Order(c, replicas)
  {
    KeyPreorder();
    SortSorts(Order(c, replicas)[..keep], KeyLe);
    BagMembers(Selected(c, replicas, keep), Order(c, replicas)[..keep]);
  }

  // ---------- raising the number of replicas ----------

  lemma InsertConcat<T>(x: T, a: seq<T>, b: seq<T>, le: (T, T) -> bool)
    requires b == [] || le(x, b[0])
    ensures Insert(x, a + b, le) == Insert(x, a, le) + b
  {
    if a == [] {
      assert a + b == b;
    } else if !le(x, a[0]) {
      assert (a + b)[1..] == a[1..] + b;
      InsertConcat(x, a[1..], b, le);
    }
  }

  /** Two sequences of which one lies wholly before the other are sorted one by one. */
  lemma {:induction false} SortConcat<T(!new)>(a: seq<T>, b: seq<T>, le: (T, T) -> bool)
    requires TotalPreorder(le) && forall x, y :: x in a && y in b ==> le(x, y)
    ensures Sort(a + b, le) == Sort(a, le) + Sort(b, le)
  {
    if a == [] {
      assert a + b == b;
    } else {
      assert (a + b)[1..] == a[1..] + b;
      SortConcat(a[1..], b, le);
      SortSorts(b, le);
      BagMembers(Sort(b, le), b);
      InsertConcat(a[0], Sort(a[1..], le), Sort(b, le), le);
    }
  }

  lemma OrderGrows(c: Config, replicas: nat)
    ensures Order(c, replicas) <= Order(c, replicas + 1)
  {
    var a, b := Pool(c.trials, replicas), ReplicaPool(c.trials, replicas);
    PoolFacts(c.trials, replicas);
    AdmitPreorder(c);
    SortConcat(a, b, AdmitLe(c));
  }

  /** More replicas only append to the admission order: ranks of those already in it stay. */
  lemma {:induction false} OrderNests(c: Config, fewer: nat, more: nat)
    requires fewer <= more
    ensures Order(c, fewer) <= Order(c, more)
    decreases more - fewer
  {
    if fewer < more {
      OrderNests(c, fewer, more - 1);
      OrderGrows(c, more - 1);
    }
  }

  lemma {:induction false} IndexInPrefix<T>(s: seq<T>, l: seq<T>, x: T)
    requires s <= l && x in s
    ensures x in l && IndexOf(l, x) == IndexOf(s, x)
  {
    assert s[0] == l[0];
    if s[0] != x {
      assert s[1..] == l[..|s|][1..];
      assert s[1..] <= l[1..];
      IndexInPrefix(s[1..], l[1..], x);
    }
  }

  lemma SameArrival(c: Config, small: seq<Key>, large: seq<Key>, key: Key)
    requires small <= large && key in small
    ensures key in large && Arrival(c, small, key) == Arrival(c, large, key)
  {
    IndexInPrefix(small, large, key);
  }

  // ---------- the ladder nests ----------

  function AmongKeys(keys: seq<Key>): Key -> bool {
    (k: Key) => k in keys
  }

  function OfKeys(keys: seq<Key>): Row -> bool {
    (r: Row) => r.key in keys
  }

  lemma {:induction false} FilterPrefix(s: seq<Key>, l: seq<Key>)
    requires s <= l && Distinct(l)
    ensures Filter(l, AmongKeys(s)) == s
  {
    var rest := l[|s|..];
    assert l == s + rest;
    FilterConcat(s, rest, AmongKeys(s));
    FilterAll(s, AmongKeys(s));
    forall x | x in rest ensures x !in s {
      var j :| 0 <= j < |rest| && rest[j] == x;
      assert l[|s| + j] == x;
    }
    FilterAll(rest, AmongKeys(s));
  }

  lemma OrderDistinct(c: Config, replicas: nat)
    ensures Distinct(Order(c, replicas))
  {
    PoolFacts(c.trials, replicas);
    AdmitPreorder(c);
    SortSorts(Pool(c.trials, replicas), AdmitLe(c));
    BagDistinct(Pool(c.trials, replicas), Order(c, replicas));
  }

  lemma SelectedDistinct(c: Config, replicas: nat, keep: nat)
    requires keep <= |Order(c, replicas)|
    ensures Distinct(Selected(c, replicas, keep))
  {
    KeyPreorder();
    OrderDistinct(c, replicas);
    SortSorts(Order(c, replicas)[..keep], KeyLe);
    BagDistinct(Order(c, replicas)[..keep], Selected(c, replicas, keep));
  }

  /** The smaller selection is what the larger one has of it, in the same order. */
  lemma SelectionNests(c: Config, fewer: nat, keep: nat, more: nat, keep': nat)
    requires fewer <= more && keep <= keep' && keep <= |Order(c, fewer)| && keep' <= |Order(c, more)|
    ensures Filter(Selected(c, more, keep'), AmongKeys(Order(c, fewer)[..keep])) == Selected(c, fewer, keep)
  {
    OrderNests(c, fewer, more);
    OrderDistinct(c, more);
    var small, large := Order(c, fewer)[..keep], Order(c, more)[..keep'];
    assert small <= large;
    KeyPreorder();
    SortFilter(large, KeyLe, AmongKeys(small));
    FilterPrefix(small, large);
  }

  lemma {:induction false} FilterTagged(key: Key, records: seq<TraceRecord>, keys: seq<Key>)
    ensures Filter(Tag(key, records), OfKeys(keys)) == if key in keys then Tag(key, records) else []
  {
    FilterAll(Tag(key, records), OfKeys(keys));
  }

  lemma ChosenMembers(order: seq<Key>, keys: seq<Key>, chosen: seq<Key>)
    requires forall k :: k in keys ==> k in order
    ensures forall k :: k in Filter(keys, AmongKeys(chosen)) ==> k in order
  {
    var p := AmongKeys(chosen);
    forall k | k in Filter(keys, p) ensures k in order {
      var i :| 0 <= i < |Filter(keys, p)| && Filter(keys, p)[i] == k;
      FilterMember(keys, p, i);
    }
  }

  lemma ChosenSnoc(keys: seq<Key>, last: Key, chosen: seq<Key>)
    ensures Filter(keys + [last], AmongKeys(chosen))
              == Filter(keys, AmongKeys(chosen)) + if last in chosen then [last] else []
  {
    FilterConcat(keys, [last], AmongKeys(chosen));
  }

  lemma RowsForSnoc(c: Config, order: seq<Key>, keys: seq<Key>, last: Key)
    requires last in order && forall k :: k in keys ==> k in order
    ensures forall k :: k in keys + [last] ==> k in order
    ensures RowsFor(c, order, keys + [last])
              == RowsFor(c, order, keys) + Tag(last, RowsOf(c, last, Arrival(c, order, last)))
  {
    assert (keys + [last])[..|keys|] == keys;
  }

  /** Selecting rows by session is selecting the sessions first. */
  lemma {:induction false} FilterRows(c: Config, order: seq<Key>, keys: seq<Key>, chosen: seq<Key>)
    requires forall k :: k in keys ==> k in order
    ensures forall k :: k in Filter(keys, AmongKeys(chosen)) ==> k in order
    ensures Filter(RowsFor(c, order, keys), OfKeys(chosen)) == RowsFor(c, order, Filter(keys, AmongKeys(chosen)))
  {
    hide Arrival, Tag, RowsOf;
    ChosenMembers(order, keys, chosen);
    if keys != [] {
      hide RowsFor, Filter;
      var rest, last := keys[..|keys| - 1], keys[|keys| - 1];
      var records := RowsOf(c, last, Arrival(c, order, last));
      assert keys == rest + [last];
      FilterRows(c, order, rest, chosen);
      RowsForSnoc(c, order, rest, last);
      FilterConcat(RowsFor(c, order, rest), Tag(last, records), OfKeys(chosen));
      FilterTagged(last, records, chosen);
      ChosenSnoc(rest, last, chosen);
      var kept := Filter(rest, AmongKeys(chosen));
      if last in chosen {
        RowsForSnoc(c, order, kept, last);
      } else {
        assert kept + [] == kept && RowsFor(c, order, kept) + [] == RowsFor(c, order, kept);
      }
    }
  }

  /** Rows do not move when the admission order grows at its end. */
  lemma {:induction false} RowsStay(c: Config, small: seq<Key>, large: seq<Key>, keys: seq<Key>)
    requires small <= large && forall k :: k in keys ==> k in small
    ensures (forall k :: k in keys ==> k in large) && RowsFor(c, small, keys) == RowsFor(c, large, keys)
  {
    if keys != [] {
      RowsStay(c, small, large, keys[..|keys| - 1]);
      SameArrival(c, small, large, keys[|keys| - 1]);
      assert keys == keys[..|keys| - 1] + [keys[|keys| - 1]];
    }
  }

  /**
   Raising the number of sessions or of replicas only adds sessions: the smaller trace is the
   larger one with the new sessions left out, row by row and in the same order.
   */
  lemma LadderNests(c: Config, fewer: nat, keep: nat, trace: seq<Row>, more: nat, keep': nat, trace': seq<Row>)
    requires fewer <= more && keep <= keep'
    requires IsTrace(c, fewer, keep, trace) && IsTrace(c, more, keep', trace')
    ensures trace == Filter(trace', OfKeys(Order(c, fewer)[..keep]))
  {
    var order, order' := Order(c, fewer), Order(c, more);
    var selected, selected' := Selected(c, fewer, keep), Selected(c, more, keep');
    var chosen := order[..keep];
    OrderNests(c, fewer, more);
    SelectionNests(c, fewer, keep, more, keep');
    FilterRows(c, order', selected', chosen);
    RowsStay(c, order, order', selected);
    RowPreorder();
    SortFilter(RowsFor(c, order', selected'), RowLe, OfKeys(chosen));
  }

  /** Raising either knob keeps at least as many, unless the limit goes up from zero, which means no limit. */
  lemma KeepGrows(sessions: Option<nat>, pool: nat, sessions': Option<nat>, pool': nat)
    requires pool <= pool'
    ensures var keep := Keep(sessions, pool);
            keep <= Keep(sessions', pool') <==> Unlimited(sessions') || keep <= sessions'.value
  {}

  lemma {:induction false} PoolGrows(trials: nat, fewer: nat, more: nat)
    requires fewer <= more
    ensures |Pool(trials, fewer)| <= |Pool(trials, more)|
    decreases more - fewer
  {
    if fewer < more { PoolGrows(trials, fewer, more - 1); }
  }

  /** The knobs of an import in place of the number of sessions they amount to. */
  ghost predicate IsImport(c: Config, replicas: nat, sessions: Option<nat>, trace: seq<Row>) {
    IsTrace(c, replicas, Keep(sessions, |Pool(c.trials, replicas)|), trace)
  }

  ghost function Admitted(c: Config, replicas: nat, sessions: Option<nat>): seq<Key> {
    OrderFacts(c, replicas);
    Order(c, replicas)[..Keep(sessions, |Pool(c.trials, replicas)|)]
  }

  /**
   Exactly when does raising the knobs only admit: no more replicas are lost, and the new limit is
   absent, zero, or at least what was admitted before.
   */
  lemma AdmitsMoreIff(c: Config, fewer: nat, sessions: Option<nat>, more: nat, sessions': Option<nat>)
    requires fewer <= more
    ensures (forall key :: key in Admitted(c, fewer, sessions) ==> key in Admitted(c, more, sessions')) <==>
            Unlimited(sessions') || Keep(sessions, |Pool(c.trials, fewer)|) <= sessions'.value
  {
    hide Pool, Sort;
    var small, large := Admitted(c, fewer, sessions), Admitted(c, more, sessions');
    OrderFacts(c, fewer);
    OrderFacts(c, more);
    OrderNests(c, fewer, more);
    PoolGrows(c.trials, fewer, more);
    KeepGrows(sessions, |Pool(c.trials, fewer)|, sessions', |Pool(c.trials, more)|);
    OrderDistinct(c, more);
    PrefixOrLonger(small, large, Order(c, more));
  }

  lemma PrefixOrLonger(small: seq<Key>, large: seq<Key>, order: seq<Key>)
    requires small <= order && large <= order && Distinct(order)
    ensures (forall key :: key in small ==> key in large) <==> |small| <= |large|
  {
    if |small| <= |large| {
      forall key | key in small ensures key in large {
        var i :| 0 <= i < |small| && small[i] == key;
        assert large[i] == key;
      }
    } else {
      var key := small[|large|];
      assert key in small;
      assert key !in large;
    }
  }

  /** The written trace: the rows without their tags. */
  function Records(rows: seq<Row>): seq<TraceRecord> {
    seq(|rows|, i requires 0 <= i < |rows| => rows[i].record)
  }

  function OfSessions(keys: seq<Key>): TraceRecord -> bool {
    (r: TraceRecord) => exists key :: key in keys && r.sessionId == Some(Names.SessionName(key.trial, key.replica))
  }

  /** A row's record names the session it belongs to. */
  ghost predicate Named(row: Row) {
    row.record.sessionId == Some(Names.SessionName(row.key.trial, row.key.replica))
  }

  lemma SameSelection(row: Row, keys: seq<Key>)
    requires Named(row)
    ensures OfSessions(keys)(row.record) <==> row.key in keys
  {
    forall key | key in keys && row.record.sessionId == Some(Names.SessionName(key.trial, key.replica))
      ensures key == row.key
    {
      Names.SessionNameInjective(key.trial, key.replica, row.key.trial, row.key.replica);
    }
  }

  lemma {:induction false} FilterRecords(rows: seq<Row>, keys: seq<Key>)
    requires forall row :: row in rows ==> Named(row)
    ensures Filter(Records(rows), OfSessions(keys)) == Records(Filter(rows, OfKeys(keys)))
  {
    if rows != [] {
      assert rows[0] in rows;
      SameSelection(rows[0], keys);
      assert Records(rows)[1..] == Records(rows[1..]);
      FilterRecords(rows[1..], keys);
    }
  }

  lemma {:induction false} KeptNamed(p: Params, key: Key, messages: seq<seq<int>>, arrival: real, k: nat)
    requires 2 * k <= |messages|
    ensures forall r :: r in KeptRows(p, key, messages, arrival, k) ==> Named(Row(key, r))
  {
    hide RowAt, Kept;
    if k > 0 {
      KeptNamed(p, key, messages, arrival, k - 1);
      RowLabels(p, key, messages, arrival, k - 1);
    }
  }

  lemma {:induction false} RowsNamed(c: Config, order: seq<Key>, keys: seq<Key>)
    requires forall k :: k in keys ==> k in order
    ensures forall row :: row in RowsFor(c, order, keys) ==> Named(row)
  {
    hide Arrival, Named;
    if keys != [] {
      var rest, last := keys[..|keys| - 1], keys[|keys| - 1];
      RowsNamed(c, order, rest);
      KeptNamed(c.params, last, c.messages(last.trial), Arrival(c, order, last), |c.messages(last.trial)| / 2);
    }
  }

  lemma TraceNamed(c: Config, replicas: nat, keep: nat, trace: seq<Row>)
    requires IsTrace(c, replicas, keep, trace)
    ensures forall row :: row in trace ==> Named(row)
  {
    hide RowsFor, Named;
    var rows := RowsFor(c, Order(c, replicas), Selected(c, replicas, keep));
    RowsNamed(c, Order(c, replicas), Selected(c, replicas, keep));
    RowPreorder();
    SortSorts(rows, RowLe);
    BagMembers(trace, rows);
  }

  /**
   The load ladder in the knobs a caller turns: with at least as many replicas, and a limit that is
   absent, zero or no smaller than what was admitted, the smaller trace is the larger one restricted
   to its sessions, record by record and in the same order.
   */
  lemma RaisingKnobsNests(c: Config, fewer: nat, sessions: Option<nat>, trace: seq<Row>,
                          more: nat, sessions': Option<nat>, trace': seq<Row>)
    requires fewer <= more && IsImport(c, fewer, sessions, trace) && IsImport(c, more, sessions', trace')
    requires Unlimited(sessions') || Keep(sessions, |Pool(c.trials, fewer)|) <= sessions'.value
    ensures trace == Filter(trace', OfKeys(Admitted(c, fewer, sessions)))
    ensures Records(trace) == Filter(Records(trace'), OfSessions(Admitted(c, fewer, sessions)))
  {
    hide Pool, Sort, RowsFor, Keep;
    var keep, keep' := Keep(sessions, |Pool(c.trials, fewer)|), Keep(sessions', |Pool(c.trials, more)|);
    PoolGrows(c.trials, fewer, more);
    KeepGrows(sessions, |Pool(c.trials, fewer)|, sessions', |Pool(c.trials, more)|);
    LadderNests(c, fewer, keep, trace, more, keep', trace');
    TraceNamed(c, more, keep', trace');
    FilterRecords(trace', Admitted(c, fewer, sessions));
  }

  /** One session is fewer than "zero": the step from 0 to 1 shrinks the trace. */
  lemma ZeroIsEverything()
    ensures Keep(Some(1), 2) < Keep(Some(0), 2)
  {}

  // ---------- stratified arrivals ----------

  /** The time is in the `j`-th of `2^m` equal parts of pre-roll and span together. */
  ghost predicate InPart(c: Config, time: real, j: nat, m: nat) {
    var width, parts := c.preRoll + c.span, VanDerCorput.Pow2(m) as real;
    j as real * width <= (time + c.preRoll) * parts < (j + 1) as real * width
  }

  lemma {:induction false} IndexOfDistinct<T>(s: seq<T>, i: nat)
    requires Distinct(s) && i < |s|
    ensures IndexOf(s, s[i]) == i
  {
    if i > 0 {
      assert s[1..][i - 1] == s[i];
      IndexOfDistinct(s[1..], i - 1);
    }
  }

  lemma PartOfUnit(c: Config, unit: real, j: nat, m: nat)
    requires c.preRoll + c.span > 0.0
    ensures InPart(c, ArrivalAt(c, unit), j, m) <==> VanDerCorput.Scale(unit, m).Floor == j
  {
    hide VanDerCorput.Pow2, VanDerCorput.Scale, ArrivalAt, Share;
    VanDerCorput.ScaleIsProduct(unit, m);
    var x := Share(unit, VanDerCorput.Pow2(m) as real);
    assert VanDerCorput.Scale(unit, m) == x by { ShareIs(unit, VanDerCorput.Pow2(m) as real); }
    PartIs(c, unit, j, m);
    ShareOrder(j as real, x, c.preRoll + c.span);
    ShareOrder((j + 1) as real, x, c.preRoll + c.span);
  }

  lemma ShareIs(unit: real, width: real)
    ensures Share(unit, width) == unit * width
  {}

  /** The part a session falls into, in products that are kept as they are. */
  lemma PartIs(c: Config, unit: real, j: nat, m: nat)
    ensures var width, x := c.preRoll + c.span, Share(unit, VanDerCorput.Pow2(m) as real);
            InPart(c, ArrivalAt(c, unit), j, m) <==>
            Share(j as real, width) <= Share(x, width) < Share((j + 1) as real, width)
  {
    hide VanDerCorput.Pow2, ArrivalAt;
    ScaledArrival(c, unit, VanDerCorput.Pow2(m) as real);
  }

  lemma ShareOrder(a: real, x: real, w: real)
    requires w > 0.0
    ensures Share(a, w) <= Share(x, w) <==> a <= x
  {
    TimesPositive(a, x, w);
  }

  function Share(unit: real, width: real): real { unit * width }

  lemma TimesPositive(a: real, x: real, w: real)
    requires w > 0.0
    ensures a * w <= x * w <==> a <= x
  {
    assert x * w - a * w == (x - a) * w;
    if a > x { PositiveProduct(a - x, w); }
  }

  lemma PositiveProduct(d: real, w: real)
    requires d > 0.0 && w > 0.0
    ensures d * w > 0.0
  {}

  lemma ScaledArrival(c: Config, unit: real, parts: real)
    ensures (ArrivalAt(c, unit) + c.preRoll) * parts == (unit * parts) * (c.preRoll + c.span)
  {
    var width := c.preRoll + c.span;
    assert ArrivalAt(c, unit) + c.preRoll == unit * width;
    assert (unit * width) * parts == (unit * parts) * width;
  }

  /**
   In a stratified import every aligned block of `2^m` admitted sessions puts exactly one arrival
   into each of the `2^m` equal parts of the time there is, for every `m`.
   */
  lemma StratifiedArrivals(c: Config, replicas: nat, sessions: Option<nat>, block: nat, j: nat, m: nat) returns (r: nat)
    requires c.stratified && c.preRoll + c.span > 0.0 && j < VanDerCorput.Pow2(m)
    requires (block + 1) * VanDerCorput.Pow2(m) <= |Admitted(c, replicas, sessions)|
    ensures block * VanDerCorput.Pow2(m) <= r < (block + 1) * VanDerCorput.Pow2(m)
    ensures var order := Order(c, replicas);
            && |Admitted(c, replicas, sessions)| <= |order|
            && InPart(c, Arrival(c, order, order[r]), j, m)
            && forall l | block * VanDerCorput.Pow2(m) <= l < (block + 1) * VanDerCorput.Pow2(m) ::
                 InPart(c, Arrival(c, order, order[l]), j, m) ==> l == r
  {
    hide Sort, Pool, InPart, ArrivalAt, Keep, VanDerCorput.Pow2, VanDerCorput.Scale, VanDerCorput.Mirror;
    var order := Order(c, replicas);
    AdmittedPrefix(c, replicas, sessions);
    OrderDistinct(c, replicas);
    r := VanDerCorput.OneArrivalPerStratum(block, j, m);
    forall l: nat | l < |order|
      ensures InPart(c, Arrival(c, order, order[l]), j, m) <==> VanDerCorput.Scale(VanDerCorput.Mirror(l), m).Floor == j
    {
      IndexOfDistinct(order, l);
      PartOfUnit(c, VanDerCorput.Mirror(l), j, m);
    }
  }

  /** The first `2^m` sessions arrive at the starts of the parts. */
  lemma FirstArrivalsOnGrid(c: Config, replicas: nat, r: nat, m: nat)
    requires c.stratified && r < VanDerCorput.Pow2(m) && r < |Order(c, replicas)|
    ensures var order := Order(c, replicas);
            (Arrival(c, order, order[r]) + c.preRoll) * VanDerCorput.Pow2(m) as real
              == VanDerCorput.Reverse(r, m) as real * (c.preRoll + c.span)
  {
    hide Sort, Pool, ArrivalAt, VanDerCorput.Pow2, VanDerCorput.Scale, VanDerCorput.Mirror, VanDerCorput.Reverse;
    var order := Order(c, replicas);
    OrderDistinct(c, replicas);
    IndexOfDistinct(order, r);
    VanDerCorput.OnTheGrid(r, m);
    var unit, parts := VanDerCorput.Mirror(r), VanDerCorput.Pow2(m) as real;
    VanDerCorput.ScaleIsProduct(unit, m);
    ScaledArrival(c, unit, parts);
  }

  // ---------- who is admitted, and in which order ----------

  /** The pool is every trial in every replica. */
  lemma {:induction false} PoolMembers(trials: nat, replicas: nat)
    ensures forall key: Key :: key in Pool(trials, replicas) <==> key.trial < trials && key.replica < replicas
    ensures |Pool(trials, replicas)| == trials * replicas
  {
    if replicas > 0 {
      PoolMembers(trials, replicas - 1);
      var a, b := Pool(trials, replicas - 1), ReplicaPool(trials, replicas - 1);
      assert trials * replicas == trials * (replicas - 1) + trials;
      forall key: Key ensures key in a + b <==> key.trial < trials && key.replica < replicas {
        InEither(a, b, key);
        if key.replica == replicas - 1 && key.trial < trials { assert b[key.trial] == key; }
      }
    }
  }

  /** As many are admitted as there are, or as the limit says. */
  lemma AdmittedCount(c: Config, replicas: nat, sessions: Option<nat>)
    ensures var all := c.trials * replicas;
            |Admitted(c, replicas, sessions)| ==
            if sessions.None? || sessions.value == 0 || all < sessions.value then all else sessions.value
  {
    hide Pool, Sort;
    PoolMembers(c.trials, replicas);
    OrderFacts(c, replicas);
  }

  /** A session comes before another if its replica is lower, or its replica is the same and its draw no larger. */
  ghost predicate DrawnBefore(c: Config, a: Key, b: Key) {
    a.replica <= b.replica &&
    (a.replica == b.replica ==>
       c.admitUnit(a.replica * c.trials + a.trial) <= c.admitUnit(b.replica * c.trials + b.trial))
  }

  lemma AdmitLeIs(c: Config, a: Key, b: Key)
    requires AdmitLe(c)(a, b)
    ensures DrawnBefore(c, a, b)
  {
    assert IndexIn(c, a) == a.replica * c.trials + a.trial && IndexIn(c, b) == b.replica * c.trials + b.trial;
  }

  lemma OrderSorted(c: Config, replicas: nat, i: nat, j: nat)
    requires i < j < |Order(c, replicas)|
    ensures DrawnBefore(c, Order(c, replicas)[i], Order(c, replicas)[j])
  {
    hide Pool, Sort, AdmitLe, DrawnBefore;
    AdmitPreorder(c);
    SortSorts(Pool(c.trials, replicas), AdmitLe(c));
    AdmitLeIs(c, Order(c, replicas)[i], Order(c, replicas)[j]);
  }

  /** The sessions admitted are those with the least replicas and, among these, the least draws. */
  lemma LeastDrawsAdmitted(c: Config, replicas: nat, sessions: Option<nat>, a: Key, b: Key)
    requires a in Admitted(c, replicas, sessions) && b !in Admitted(c, replicas, sessions)
    requires b.trial < c.trials && b.replica < replicas
    ensures DrawnBefore(c, a, b)
  {
    hide Pool, Sort, AdmitLe, DrawnBefore, Keep;
    var order, admitted := Order(c, replicas), Admitted(c, replicas, sessions);
    InOrder(c, replicas, b);
    var i :| 0 <= i < |admitted| && admitted[i] == a;
    var j :| 0 <= j < |order| && order[j] == b;
    AdmittedPrefix(c, replicas, sessions);
    PrefixHas(admitted, order, j);
    OrderSorted(c, replicas, i, j);
  }

  lemma PrefixHas<T>(s: seq<T>, l: seq<T>, j: nat)
    requires s <= l && j < |l|
    ensures j < |s| ==> l[j] in s
  {
    if j < |s| { assert s[j] == l[j]; }
  }

  lemma AdmittedPrefix(c: Config, replicas: nat, sessions: Option<nat>)
    ensures Admitted(c, replicas, sessions) <= Order(c, replicas)
  {
    hide Pool, Sort;
    OrderFacts(c, replicas);
  }

  lemma InOrder(c: Config, replicas: nat, key: Key)
    requires key.trial < c.trials && key.replica < replicas
    ensures key in Order(c, replicas)
  {
    hide Pool, Sort;
    PoolMembers(c.trials, replicas);
    OrderFacts(c, replicas);
  }

  /** Without stratification a session arrives where its own draw says, whoever else is admitted. */
  lemma UniformArrival(c: Config, order: seq<Key>, key: Key)
    requires !c.stratified && key in order
    ensures Arrival(c, order, key) + c.preRoll
              == c.arrivalUnit(key.replica * c.trials + key.trial) * (c.preRoll + c.span)
  {}

  lemma ShareBelow(unit: real, width: real)
    requires 0.0 <= unit < 1.0 && width > 0.0
    ensures 0.0 <= Share(unit, width) < width
  {
    assert width - unit * width == (1.0 - unit) * width;
    PositiveProduct(1.0 - unit, width);
    TimesPositive(0.0, unit, width);
  }

  lemma ArrivalIsShare(c: Config, unit: real)
    ensures ArrivalAt(c, unit) == Share(unit, c.preRoll + c.span) - c.preRoll
  {}

  lemma ArrivalInSpan(c: Config, unit: real)
    requires 0.0 <= unit < 1.0 && c.preRoll + c.span > 0.0
    ensures -c.preRoll <= ArrivalAt(c, unit) < c.span
  {
    hide ArrivalAt, Share;
    ArrivalIsShare(c, unit);
    ShareBelow(unit, c.preRoll + c.span);
  }

  /** Either way every session arrives between the start of the pre-roll and the end of the span. */
  lemma ArrivalsInSpan(c: Config, order: seq<Key>, key: Key)
    requires key in order && c.preRoll + c.span > 0.0
    requires forall i :: 0.0 <= c.arrivalUnit(i) < 1.0
    ensures -c.preRoll <= Arrival(c, order, key) < c.span
  {
    hide ArrivalAt, VanDerCorput.Mirror;
    VanDerCorput.MirrorRange(IndexOf(order, key));
    ArrivalInSpan(c, Unit(c, order, key));
  }

  /** The trace is in the order of time, and at one time in the order of chat ids. */
  lemma TraceInOrder(c: Config, replicas: nat, keep: nat, trace: seq<Row>, i: nat, j: nat)
    requires IsTrace(c, replicas, keep, trace) && i < j < |trace|
    ensures var (a, b) := (Records(trace)[i], Records(trace)[j]);
            a.timestamp <= b.timestamp && (a.timestamp == b.timestamp ==> a.chatId <= b.chatId)
  {
    hide Sort, RowsFor, Pool;
    RowPreorder();
    SortSorts(RowsFor(c, Order(c, replicas), Selected(c, replicas, keep)), RowLe);
  }
}
