/** The per-worker and program-wide statistics of a traced program, as the
    statistics dataflow holds them at one logical time. Every input
    collection is a consolidated snapshot (record to multiplicity), every
    event stream the sequence of events logged so far. */
module StatsAggregation {
  import opened Wrappers
  import opened Bags
  import opened LogEvents

  /** One more than the largest `usize`. */
  const USIZE_RANGE: int := 0x1_0000_0000_0000_0000

  /** A 64-bit unsigned count. */
  type Usize = x: int | 0 <= x < USIZE_RANGE

  /** The `as usize` cast of a signed count: the two's-complement bits read as
      unsigned, which is the count modulo 2^64. */
  function AsUsize(x: int): (r: Usize)
    ensures 0 <= x < USIZE_RANGE ==> r == x
  {
    x % USIZE_RANGE
  }

  /** The statistics of one worker. */
  datatype WorkerStats = WorkerStats(
    id: WorkerId,
    dataflows: Usize,
    operators: Usize,
    subgraphs: Usize,
    channels: Usize,
    arrangements: Usize,
    events: Usize,
    runtime: nat,
    dataflowAddrs: set<OperatorAddr>)

  /** The statistics of the whole program. */
  datatype ProgramStats = ProgramStats(
    workers: Usize,
    dataflows: Usize,
    operators: Usize,
    subgraphs: Usize,
    channels: Usize,
    arrangements: Usize,
    events: Usize,
    runtime: nat)

  /** A collection of records keyed by worker, such as `(worker, addr)`. */
  type WorkerBag<T(==)> = map<(WorkerId, T), int>

  /** The worker a keyed record belongs to. */
  function WorkerOf<T>(p: (WorkerId, T)): WorkerId {
    p.0
  }

  /* ------------------------------------------------------------------------ */
  /* Operator addresses                                                        */
  /* ------------------------------------------------------------------------ */

  /** `only_dataflows`: the subgraph addresses that are top-level. */
  function OnlyDataflows(operatorAddrs: WorkerBag<OperatorAddr>, subgraphAddrs: WorkerBag<OperatorAddr>)
    : (r: WorkerBag<OperatorAddr>)
    ensures Consolidated(r)
    ensures forall p :: Get(r, p) == if IsTopLevel(p.1) then Get(operatorAddrs, p) * Get(subgraphAddrs, p) else 0
  {
    Filter(Semijoin(operatorAddrs, subgraphAddrs), (p: (WorkerId, OperatorAddr)) => IsTopLevel(p.1))
  }

  /** With set-like subgraph addresses, `only_operators` (antijoin) and
      `only_subgraphs` (semijoin) split the operator addresses into two
      disjoint parts that together are all of them, each record keeping its
      multiplicity; `only_dataflows` is exactly the top-level part of
      `only_subgraphs`. */
  lemma AddressPartition(operatorAddrs: WorkerBag<OperatorAddr>, subgraphAddrs: WorkerBag<OperatorAddr>)
    requires Consolidated(operatorAddrs) && SetLike(subgraphAddrs)
    ensures Antijoin(operatorAddrs, subgraphAddrs).Keys * Semijoin(operatorAddrs, subgraphAddrs).Keys == {}
    ensures Antijoin(operatorAddrs, subgraphAddrs).Keys + Semijoin(operatorAddrs, subgraphAddrs).Keys
      == operatorAddrs.Keys
    ensures Semijoin(operatorAddrs, subgraphAddrs).Keys == operatorAddrs.Keys * subgraphAddrs.Keys
    ensures Concat(Antijoin(operatorAddrs, subgraphAddrs), Semijoin(operatorAddrs, subgraphAddrs)) == operatorAddrs
    ensures OnlyDataflows(operatorAddrs, subgraphAddrs).Keys
      == set p | p in Semijoin(operatorAddrs, subgraphAddrs) && IsTopLevel(p.1)
  {
    SetLikeKeysSplit(operatorAddrs, subgraphAddrs);
    AntijoinSemijoinPartition(operatorAddrs, subgraphAddrs);
    var s := Semijoin(operatorAddrs, subgraphAddrs);
    var d := OnlyDataflows(operatorAddrs, subgraphAddrs);
    forall p ensures p in d <==> p in s && IsTopLevel(p.1) {
      assert Get(d, p) == if IsTopLevel(p.1) then Get(s, p) else 0;
    }
  }

  /** `dataflow_addrs`: for every worker with a record in `only_dataflows`, the
      addresses it holds with multiplicity at least 1. */
  function DataflowAddrs(dataflows: WorkerBag<OperatorAddr>): (r: map<WorkerId, set<OperatorAddr>>)
    ensures forall w :: w in r <==> exists a :: Get(dataflows, (w, a)) != 0
    ensures forall w, a :: w in r ==> (a in r[w] <==> Get(dataflows, (w, a)) >= 1)
  {
    var workers := set p | p in dataflows && dataflows[p] != 0 :: p.0;
    assert forall w, a :: Get(dataflows, (w, a)) != 0 ==> w in workers;
    map w | w in workers :: set p | p in dataflows && p.0 == w && dataflows[p] >= 1 :: p.1
  }

  /** The records of worker `w` in a keyed set, as pairs. */
  lemma {:induction false} PairedCard<T(!new)>(w: WorkerId, s: set<T>)
    ensures |set x | x in s :: (w, x)| == |s|
    decreases s
  {
    if s != {} {
      var x :| x in s;
      PairedCard(w, s - {x});
      assert (set y | y in s :: (w, y)) == (set y | y in s - {x} :: (w, y)) + {(w, x)};
    }
  }

  /** The records of `w` in `m`, as the set of their second components. */
  function Seconds<T(!new,==)>(m: WorkerBag<T>, w: WorkerId): (r: set<T>)
    ensures forall x :: x in r <==> (w, x) in m
  {
    set p | p in m && p.0 == w :: p.1
  }

  /** On a set-like collection, the `count_total` of a worker is the number of
      its records, and every worker with a record has a row. */
  lemma CountPerWorker<T(!new)>(m: WorkerBag<T>, w: WorkerId)
    requires SetLike(m)
    ensures w in CountTotal(m, WorkerOf) <==> Seconds(m, w) != {}
    ensures w in CountTotal(m, WorkerOf) ==> CountTotal(m, WorkerOf)[w] == |Seconds(m, w)|
  {
    CountTotalSetLike(m, WorkerOf);
    var pre := Preimage(m, WorkerOf, w);
    assert pre == set x | x in Seconds(m, w) :: (w, x);
    PairedCard(w, Seconds(m, w));
    if Seconds(m, w) != {} {
      var x :| x in Seconds(m, w);
      assert WorkerOf((w, x)) == w;
    }
  }

  /* ------------------------------------------------------------------------ */
  /* Arrangements                                                              */
  /* ------------------------------------------------------------------------ */

  /** The `(worker, operator)` pairs with a non-negative trace share, each
      once (`distinct_total`). */
  function SharedOperators(events: seq<LogRecord<DifferentialEvent>>): (s: set<(WorkerId, nat)>)
    ensures forall w, op :: (w, op) in s <==>
      exists i :: 0 <= i < |events| && events[i].worker == w && SignalsArrangement(events[i].event)
        && events[i].event.operator == op
  {
    set i | 0 <= i < |events| && SignalsArrangement(events[i].event) :: (events[i].worker, events[i].event.operator)
  }

  /** An event that is not a non-negative trace share (a negative share, a
      batch, a merge, a merge shortfall or a drop) changes no arrangement
      count, and neither does a repeated share of the same operator. */
  lemma SharedOperatorsAppend(events: seq<LogRecord<DifferentialEvent>>, e: LogRecord<DifferentialEvent>)
    ensures !SignalsArrangement(e.event) ==> SharedOperators(events + [e]) == SharedOperators(events)
    ensures SignalsArrangement(e.event) ==>
      SharedOperators(events + [e]) == SharedOperators(events) + {(e.worker, e.event.operator)}
  {
    var s, t := SharedOperators(events), SharedOperators(events + [e]);
    forall w, op ensures (w, op) in t <==> (w, op) in s || (SignalsArrangement(e.event) && (w, op) == (e.worker, e.event.operator)) {
      if (w, op) in s {
        var i :| 0 <= i < |events| && events[i].worker == w && SignalsArrangement(events[i].event)
          && events[i].event.operator == op;
        assert (events + [e])[i] == events[i];
      }
      if (w, op) in t {
        var i :| 0 <= i < |events| + 1 && (events + [e])[i].worker == w
          && SignalsArrangement((events + [e])[i].event) && (events + [e])[i].event.operator == op;
        if i < |events| {
          assert (events + [e])[i] == events[i];
        }
      }
      if SignalsArrangement(e.event) && (w, op) == (e.worker, e.event.operator) {
        assert (events + [e])[|events|] == e;
      }
    }
  }

  /** A set seen as a collection: every element once. */
  function AsCollection<T(!new)>(s: set<T>): (m: map<T, int>)
    ensures SetLike(m) && m.Keys == s
  {
    map x | x in s :: 1
  }

  /** `total_arrangements` before the back-fill: from the differential stream,
      the number of distinct operators with a non-negative share per worker;
      without it, a zero for every worker that has a channel count. */
  ghost function ArrangementTotals(differential: Option<seq<LogRecord<DifferentialEvent>>>, channelTotals: map<WorkerId, int>)
    : (r: map<WorkerId, int>)
    ensures differential.Some? ==> forall w :: w in r ==> r[w] > 0
    ensures differential.None? ==> r.Keys == channelTotals.Keys && forall w :: w in r ==> r[w] == 0
  {
    match differential
    case Some(events) =>
      CountTotalPositive(AsCollection(SharedOperators(events)), WorkerOf);
      CountTotal(AsCollection(SharedOperators(events)), WorkerOf)
    case None => map w | w in channelTotals :: 0
  }

  /** With a differential stream, a worker has an arrangement row exactly when
      it shared some operator non-negatively, and the row counts the distinct
      operators it shared; without one, every worker with channels gets 0 and
      no other worker gets a row. */
  lemma ArrangementTotalsMeaning(differential: Option<seq<LogRecord<DifferentialEvent>>>, channelTotals: map<WorkerId, int>, w: WorkerId)
    ensures differential.Some? ==>
      (w in ArrangementTotals(differential, channelTotals) <==> Seconds(AsCollection(SharedOperators(differential.value)), w) != {})
    ensures differential.Some? && w in ArrangementTotals(differential, channelTotals) ==>
      ArrangementTotals(differential, channelTotals)[w] == |Seconds(AsCollection(SharedOperators(differential.value)), w)| > 0
    ensures differential.None? ==>
      (w in ArrangementTotals(differential, channelTotals) <==> w in channelTotals)
    ensures differential.None? && w in ArrangementTotals(differential, channelTotals) ==>
      ArrangementTotals(differential, channelTotals)[w] == 0
  {
    if differential.Some? {
      CountPerWorker(AsCollection(SharedOperators(differential.value)), w);
    }
  }

  /** The back-fill as it is written: the arrangement rows, plus a zero row for
      every worker that has arrangement rows but no channel count. For a worker
      with a channel count (the only workers the join keeps) it holds exactly
      the arrangement rows: a channel worker without arrangements gets nothing.
      A worker without a channel count keeps its arrangement row and gains a
      zero row (the two coincide, as a set, when its arrangement count is 0). */
  function BackfillAsWritten(arrangements: map<WorkerId, int>, channelTotals: map<WorkerId, int>)
    : (rows: set<(WorkerId, int)>)
    ensures forall w, c :: w in channelTotals ==>
      ((w, c) in rows <==> w in arrangements && c == arrangements[w])
    ensures forall w, c :: w !in channelTotals ==>
      ((w, c) in rows <==> w in arrangements && (c == arrangements[w] || c == 0))
  {
    (set w | w in arrangements :: (w, arrangements[w]))
      + (set w | w in arrangements && w !in channelTotals :: (w, 0))
  }

  /** What the inner join by worker with the channel counts takes from a set
      of `(worker, count)` rows: the count of every worker with a channel
      count and a row. The join keeps no other worker, and it needs each such
      worker to have a single row, which the as-written back-fill guarantees. */
  ghost function JoinedArrangements(rows: set<(WorkerId, int)>, channelTotals: map<WorkerId, int>)
    : (r: map<WorkerId, int>)
    requires forall w, c, c' :: w in channelTotals && (w, c) in rows && (w, c') in rows ==> c == c'
    ensures forall w :: w in r <==> w in channelTotals && exists c :: (w, c) in rows
    ensures forall w, c :: w in r && (w, c) in rows ==> r[w] == c
  {
    map w | w in channelTotals && (exists c :: (w, c) in rows) :: var c :| (w, c) in rows; c
  }

  /** On the workers the join keeps, the as-written back-fill is the
      arrangement totals alone: a channel worker has an arrangement count
      exactly when it has an arrangement row, and it is that row's. */
  lemma JoinedBackfillAsWritten(arrangements: map<WorkerId, int>, channelTotals: map<WorkerId, int>)
    ensures JoinedArrangements(BackfillAsWritten(arrangements, channelTotals), channelTotals)
      == map w | w in arrangements && w in channelTotals :: arrangements[w]
  {
    var rows := BackfillAsWritten(arrangements, channelTotals);
    var joined := JoinedArrangements(rows, channelTotals);
    forall w | w in joined ensures w in arrangements && joined[w] == arrangements[w] {
      var c :| (w, c) in rows;
    }
    forall w | w in arrangements && w in channelTotals ensures w in joined {
      var c := arrangements[w];
      assert (w, c) in rows;
      assert exists c' :: (w, c') in rows;
    }
  }

  /** The back-fill as intended: every worker with a channel count but no
      arrangement row gets a zero row; all other rows are kept. */
  function Backfill(arrangements: map<WorkerId, int>, channelTotals: map<WorkerId, int>): (r: map<WorkerId, int>)
    ensures r.Keys == arrangements.Keys + channelTotals.Keys
    ensures forall w :: w in arrangements ==> r[w] == arrangements[w]
    ensures forall w :: w in channelTotals && w !in arrangements ==> r[w] == 0
  {
    map w | w in arrangements.Keys + channelTotals.Keys :: if w in arrangements then arrangements[w] else 0
  }

  /* ------------------------------------------------------------------------ */
  /* Events and runtime                                                        */
  /* ------------------------------------------------------------------------ */

  /** `combine_events`: the timely events mapped by `mapTimely`, followed, when
      the differential stream is present, by its events mapped by
      `mapDifferential`. */
  function CombineEvents<E, X>(
    timely: seq<LogRecord<E>>,
    mapTimely: LogRecord<E> -> X,
    differential: Option<seq<LogRecord<DifferentialEvent>>>,
    mapDifferential: LogRecord<DifferentialEvent> -> X): (r: seq<X>)
    ensures |r| == |timely| + (if differential.Some? then |differential.value| else 0)
    ensures forall i :: 0 <= i < |timely| ==> r[i] == mapTimely(timely[i])
    ensures differential.Some? ==>
      forall j :: 0 <= j < |differential.value| ==> r[|timely| + j] == mapDifferential(differential.value[j])
  {
    var head := seq(|timely|, i requires 0 <= i < |timely| => mapTimely(timely[i]));
    match differential
    case None => head
    case Some(events) => head + seq(|events|, j requires 0 <= j < |events| => mapDifferential(events[j]))
  }

  /** The workers of a stream, one per event. */
  function Workers<E>(events: seq<LogRecord<E>>): (r: seq<WorkerId>)
    ensures |r| == |events| && forall i :: 0 <= i < |events| ==> r[i] == events[i].worker
  {
    seq(|events|, i requires 0 <= i < |events| => events[i].worker)
  }

  /** `count_total` of a stream in which every event has multiplicity 1: one
      row per value, holding its number of occurrences. */
  function Tally(xs: seq<WorkerId>): (r: map<WorkerId, int>)
    ensures forall w :: w in r <==> w in xs
    ensures forall w :: w in r ==> r[w] == multiset(xs)[w] > 0
  {
    map w | w in xs :: multiset(xs)[w]
  }

  /** `total_events`: per worker, the number of its events in both streams. */
  function EventTotals<E>(timely: seq<LogRecord<E>>, differential: Option<seq<LogRecord<DifferentialEvent>>>)
    : (r: map<WorkerId, int>)
    ensures forall w :: w in r ==> r[w] > 0
    ensures forall i :: 0 <= i < |timely| ==> timely[i].worker in r
    ensures differential.Some? ==> forall j :: 0 <= j < |differential.value| ==> differential.value[j].worker in r
  {
    Tally(CombineEvents(timely, RecordWorker, differential, RecordWorker))
  }

  /** A worker's event count is its timely events plus its differential
      events, and a worker has a row exactly when it logged some event. */
  lemma EventTotalsSplit<E>(timely: seq<LogRecord<E>>, differential: Option<seq<LogRecord<DifferentialEvent>>>, w: WorkerId)
    ensures (w in EventTotals(timely, differential) <==>
        w in Workers(timely) || (differential.Some? && w in Workers(differential.value)))
      && (w in EventTotals(timely, differential) ==>
        EventTotals(timely, differential)[w]
          == multiset(Workers(timely))[w] + (if differential.Some? then multiset(Workers(differential.value))[w] else 0))
  {
    var all := CombineEvents(timely, RecordWorker, differential, RecordWorker);
    match differential
    case None =>
      assert all == Workers(timely);
    case Some(events) =>
      assert all == Workers(timely) + Workers(events);
  }

  /** The `(Max, Min)` pair of the event times of worker `w`, or `None` when
      `w` logged no event. */
  function Extent(times: seq<(WorkerId, nat)>, w: WorkerId): (r: Option<(nat, nat)>)
    ensures r.None? <==> forall i :: 0 <= i < |times| ==> times[i].0 != w
    ensures r.Some? ==> forall i :: 0 <= i < |times| && times[i].0 == w ==> r.value.1 <= times[i].1 <= r.value.0
    ensures r.Some? ==> exists i :: 0 <= i < |times| && times[i] == (w, r.value.0)
    ensures r.Some? ==> exists i :: 0 <= i < |times| && times[i] == (w, r.value.1)
    decreases |times|
  {
    if |times| == 0 then None
    else
      var rest := Extent(times[1..], w);
      assert forall i :: 1 <= i < |times| ==> times[i] == times[1..][i - 1];
      if times[0].0 != w then rest
      else if rest.None? then Some((times[0].1, times[0].1))
      else
        var hi := if times[0].1 >= rest.value.0 then times[0].1 else rest.value.0;
        var lo := if times[0].1 <= rest.value.1 then times[0].1 else rest.value.1;
        Some((hi, lo))
  }

  /** The worker and event time of every event in both streams. */
  function EventTimes<E>(timely: seq<LogRecord<E>>, differential: Option<seq<LogRecord<DifferentialEvent>>>)
    : (r: seq<(WorkerId, nat)>)
    ensures |r| == |timely| + (if differential.Some? then |differential.value| else 0)
    ensures forall i :: 0 <= i < |timely| ==> r[i] == (timely[i].worker, timely[i].eventTime)
    ensures differential.Some? ==> forall j :: 0 <= j < |differential.value| ==>
      r[|timely| + j] == (differential.value[j].worker, differential.value[j].eventTime)
  {
    CombineEvents(timely, WorkerAndTime, differential, WorkerAndTime)
  }

  /** The workers with an event count are the workers with an event time. */
  lemma EventTimesWorkers<E>(timely: seq<LogRecord<E>>, differential: Option<seq<LogRecord<DifferentialEvent>>>)
    ensures forall w :: w in EventTotals(timely, differential) <==>
      exists i :: 0 <= i < |EventTimes(timely, differential)| && EventTimes(timely, differential)[i].0 == w
  {
    var times := EventTimes(timely, differential);
    var all := CombineEvents(timely, RecordWorker, differential, RecordWorker);
    assert |all| == |times|;
    forall i | 0 <= i < |all| ensures all[i] == times[i].0 {
      if i >= |timely| {
        assert all[|timely| + (i - |timely|)] == times[|timely| + (i - |timely|)].0;
      }
    }
  }

  /** `total_runtime`: per worker, the latest and the earliest of its event
      times over both streams. */
  function RuntimeTotals<E>(timely: seq<LogRecord<E>>, differential: Option<seq<LogRecord<DifferentialEvent>>>)
    : (r: map<WorkerId, (nat, nat)>)
    ensures forall w :: w in r <==> w in EventTotals(timely, differential)
    ensures forall w :: w in r ==> Extent(EventTimes(timely, differential), w) == Some(r[w]) && r[w].1 <= r[w].0
  {
    map w | w in EventTotals(timely, differential) :: WorkerExtent(timely, differential, w)
  }

  /** The `(Max, Min)` event times of a worker with an event count. */
  function WorkerExtent<E>(timely: seq<LogRecord<E>>, differential: Option<seq<LogRecord<DifferentialEvent>>>, w: WorkerId)
    : (r: (nat, nat))
    requires w in EventTotals(timely, differential)
    ensures Extent(EventTimes(timely, differential), w) == Some(r) && r.1 <= r.0
  {
    EventTimesWorkers(timely, differential);
    Extent(EventTimes(timely, differential), w).value
  }

  /* ------------------------------------------------------------------------ */
  /* Worker join and program fold                                             */
  /* ------------------------------------------------------------------------ */

  /** One joined row projected into `WorkerStats`: the counts cast to
      `usize`, the runtime the latest minus the earliest event time. */
  function Project(
    w: WorkerId, addrs: set<OperatorAddr>, dataflows: int, operators: int, subgraphs: int,
    channels: int, arrangements: int, events: int, runtime: (nat, nat)): (s: WorkerStats)
    requires runtime.1 <= runtime.0
    ensures s.id == w && s.runtime + runtime.1 == runtime.0
  {
    WorkerStats(w, AsUsize(dataflows), AsUsize(operators), AsUsize(subgraphs), AsUsize(channels),
      AsUsize(arrangements), AsUsize(events), runtime.0 - runtime.1, addrs)
  }

  /** The inner join by worker of the eight per-worker collections: a worker
      has a row exactly when it has one in each. */
  function JoinWorkers(
    addrs: map<WorkerId, set<OperatorAddr>>,
    dataflows: map<WorkerId, int>,
    operators: map<WorkerId, int>,
    subgraphs: map<WorkerId, int>,
    channels: map<WorkerId, int>,
    arrangements: map<WorkerId, int>,
    events: map<WorkerId, int>,
    runtimes: map<WorkerId, (nat, nat)>): (r: map<WorkerId, WorkerStats>)
    requires forall w :: w in runtimes ==> runtimes[w].1 <= runtimes[w].0
    ensures forall w :: w in r <==>
      w in addrs && w in dataflows && w in operators && w in subgraphs
      && w in channels && w in arrangements && w in events && w in runtimes
    ensures forall w :: w in r ==> r[w] == Project(w, addrs[w], dataflows[w], operators[w], subgraphs[w],
      channels[w], arrangements[w], events[w], runtimes[w])
  {
    map w | w in addrs && w in dataflows && w in operators && w in subgraphs
      && w in channels && w in arrangements && w in events && w in runtimes
      :: Project(w, addrs[w], dataflows[w], operators[w], subgraphs[w],
        channels[w], arrangements[w], events[w], runtimes[w])
  }

  /** The worker rows built from the inputs, joined with the given arrangement
      collection. */
  ghost function JoinInputs<E>(
    timely: seq<LogRecord<E>>,
    differential: Option<seq<LogRecord<DifferentialEvent>>>,
    channels: WorkerBag<Channel>,
    subgraphAddrs: WorkerBag<OperatorAddr>,
    operatorAddrs: WorkerBag<OperatorAddr>,
    arrangements: map<WorkerId, int>): (r: map<WorkerId, WorkerStats>)
    ensures forall w :: w in r ==> r[w].id == w && w in arrangements && r[w].arrangements == AsUsize(arrangements[w])
    ensures forall w :: w in r ==> w in CountTotal(channels, WorkerOf) && w in EventTotals(timely, differential)
  {
    var dataflows := OnlyDataflows(operatorAddrs, subgraphAddrs);
    JoinWorkers(
      DataflowAddrs(dataflows),
      CountTotal(dataflows, WorkerOf),
      CountTotal(Antijoin(operatorAddrs, subgraphAddrs), WorkerOf),
      CountTotal(Semijoin(operatorAddrs, subgraphAddrs), WorkerOf),
      CountTotal(channels, WorkerOf),
      arrangements,
      EventTotals(timely, differential),
      RuntimeTotals(timely, differential))
  }

  /** `worker_stats`, with the back-fill as intended: every row is keyed by
      its worker, who has channels and events, and a worker without a
      differential stream has no arrangements. */
  ghost function WorkerStatsOf<E>(
    timely: seq<LogRecord<E>>,
    differential: Option<seq<LogRecord<DifferentialEvent>>>,
    channels: WorkerBag<Channel>,
    subgraphAddrs: WorkerBag<OperatorAddr>,
    operatorAddrs: WorkerBag<OperatorAddr>): (r: map<WorkerId, WorkerStats>)
    ensures forall w :: w in r ==> r[w].id == w && w in CountTotal(channels, WorkerOf) && w in EventTotals(timely, differential)
    ensures differential.None? ==> forall w :: w in r ==> r[w].arrangements == 0
  {
    var channelTotals := CountTotal(channels, WorkerOf);
    JoinInputs(timely, differential, channels, subgraphAddrs, operatorAddrs,
      Backfill(ArrangementTotals(differential, channelTotals), channelTotals))
  }

  /** `worker_stats` with the back-fill as written: the as-written back-fill
      rows, as the inner join with the channel counts takes them. Every row is
      keyed by its worker, who has channels, events and an arrangement count. */
  ghost function WorkerStatsAsWritten<E>(
    timely: seq<LogRecord<E>>,
    differential: Option<seq<LogRecord<DifferentialEvent>>>,
    channels: WorkerBag<Channel>,
    subgraphAddrs: WorkerBag<OperatorAddr>,
    operatorAddrs: WorkerBag<OperatorAddr>): (r: map<WorkerId, WorkerStats>)
    ensures forall w :: w in r ==> r[w].id == w && w in CountTotal(channels, WorkerOf) && w in EventTotals(timely, differential)
    ensures forall w :: w in r ==> w in ArrangementTotals(differential, CountTotal(channels, WorkerOf))
  {
    var channelTotals := CountTotal(channels, WorkerOf);
    var backfilled := BackfillAsWritten(ArrangementTotals(differential, channelTotals), channelTotals);
    JoinInputs(timely, differential, channels, subgraphAddrs, operatorAddrs,
      JoinedArrangements(backfilled, channelTotals))
  }

  /** The summed columns of `WorkerStats`. */
  datatype Column = Dataflows | Operators | Subgraphs | Channels | Arrangements | Events

  /** The value of a summed column in one worker row. */
  function Cell(s: WorkerStats, c: Column): Usize {
    match c
    case Dataflows => s.dataflows
    case Operators => s.operators
    case Subgraphs => s.subgraphs
    case Channels => s.channels
    case Arrangements => s.arrangements
    case Events => s.events
  }

  /** The sum of a column over all worker rows. */
  ghost function ColumnSum(rows: map<WorkerId, WorkerStats>, c: Column): int {
    Sum(rows.Keys, w => if w in rows then Cell(rows[w], c) else 0)
  }

  /** The largest worker runtime. */
  ghost function LongestRuntime(rows: map<WorkerId, WorkerStats>): int
    requires rows != map[]
  {
    assert rows.Keys != {} by {
      var w :| w in rows;
    }
    Largest(rows.Keys, w => if w in rows then rows[w].runtime else 0)
  }

  /** `program_stats`: the worker rows exploded into one composite difference
      and accumulated: the number of workers, the column sums (each cast back
      to `usize`) and the longest runtime. There is a row exactly when there
      is a worker row, and its runtime is the runtime of some worker and at
      least that of every worker. */
  ghost function ProgramStatsOf(rows: map<WorkerId, WorkerStats>): (r: Option<ProgramStats>)
    ensures r.None? <==> rows == map[]
    ensures r.Some? ==> r.value.workers == AsUsize(|rows|)
    ensures r.Some? ==> forall w :: w in rows ==> rows[w].runtime <= r.value.runtime
    ensures r.Some? ==> exists w :: w in rows && rows[w].runtime == r.value.runtime
  {
    if rows == map[] then None else Some(Accumulated(rows))
  }

  /** The accumulated composite difference of a non-empty set of worker rows:
      one worker per row, and the runtime of the slowest worker. */
  ghost function Accumulated(rows: map<WorkerId, WorkerStats>): (p: ProgramStats)
    requires rows != map[]
    ensures p.workers == AsUsize(|rows|)
    ensures forall w :: w in rows ==> rows[w].runtime <= p.runtime
    ensures exists w :: w in rows && rows[w].runtime == p.runtime
  {
    LongestBounds(rows);
    ProgramStats(
      AsUsize(|rows|),
      AsUsize(ColumnSum(rows, Dataflows)),
      AsUsize(ColumnSum(rows, Operators)),
      AsUsize(ColumnSum(rows, Subgraphs)),
      AsUsize(ColumnSum(rows, Channels)),
      AsUsize(ColumnSum(rows, Arrangements)),
      AsUsize(ColumnSum(rows, Events)),
      LongestRuntime(rows))
  }

  /** The longest runtime is that of some worker and at least every worker's. */
  lemma LongestBounds(rows: map<WorkerId, WorkerStats>)
    requires rows != map[]
    ensures forall w :: w in rows ==> rows[w].runtime <= LongestRuntime(rows)
    ensures exists w :: w in rows && rows[w].runtime == LongestRuntime(rows)
  {
    assert rows.Keys != {} by {
      var w :| w in rows;
    }
    LargestBounds(rows.Keys, w => if w in rows then rows[w].runtime else 0);
  }

  /** `aggregate_worker_stats` as written: the program statistics and the
      worker rows. The rows are the intended ones of the workers that have an
      arrangement count before the back-fill; the others are lost. */
  ghost function AggregateWorkerStats<E>(
    timely: seq<LogRecord<E>>,
    differential: Option<seq<LogRecord<DifferentialEvent>>>,
    channels: WorkerBag<Channel>,
    subgraphAddrs: WorkerBag<OperatorAddr>,
    operatorAddrs: WorkerBag<OperatorAddr>): (r: (Option<ProgramStats>, map<WorkerId, WorkerStats>))
    ensures forall w :: w in r.1 <==>
      w in WorkerStatsOf(timely, differential, channels, subgraphAddrs, operatorAddrs)
      && w in ArrangementTotals(differential, CountTotal(channels, WorkerOf))
    ensures forall w :: w in r.1 ==> r.1[w] == WorkerStatsOf(timely, differential, channels, subgraphAddrs, operatorAddrs)[w]
    ensures r.0.None? <==> r.1 == map[]
    ensures r.0.Some? ==> r.0.value.workers == AsUsize(|r.1|)
  {
    var rows := WorkerStatsAsWritten(timely, differential, channels, subgraphAddrs, operatorAddrs);
    AsWrittenRestricts(timely, differential, channels, subgraphAddrs, operatorAddrs);
    (ProgramStatsOf(rows), rows)
  }

  /** `aggregate_worker_stats` with the back-fill as intended. */
  ghost function AggregateWorkerStatsIntended<E>(
    timely: seq<LogRecord<E>>,
    differential: Option<seq<LogRecord<DifferentialEvent>>>,
    channels: WorkerBag<Channel>,
    subgraphAddrs: WorkerBag<OperatorAddr>,
    operatorAddrs: WorkerBag<OperatorAddr>): (r: (Option<ProgramStats>, map<WorkerId, WorkerStats>))
    ensures r.1 == WorkerStatsOf(timely, differential, channels, subgraphAddrs, operatorAddrs)
    ensures r.0.None? <==> r.1 == map[]
    ensures r.0.Some? ==> r.0.value.workers == AsUsize(|r.1|)
  {
    var rows := WorkerStatsOf(timely, differential, channels, subgraphAddrs, operatorAddrs);
    (ProgramStatsOf(rows), rows)
  }

  /** Casting to `usize` after adding equals adding after casting. */
  lemma AsUsizeAdd(x: int, y: int)
    ensures AsUsize(AsUsize(x) + y) == AsUsize(x + y)
  {
    var q := (x - AsUsize(x)) / USIZE_RANGE;
    assert x == AsUsize(x) + q * USIZE_RANGE;
    assert (AsUsize(x) + y) + q * USIZE_RANGE == x + y;
    ModShift(AsUsize(x) + y, q);
  }

  /** Adding a multiple of the range does not change the remainder. */
  lemma {:induction false} ModShift(a: int, q: int)
    ensures (a + q * USIZE_RANGE) % USIZE_RANGE == a % USIZE_RANGE
    decreases if q < 0 then -q else q
  {
    if q > 0 {
      ModShift(a, q - 1);
      assert a + q * USIZE_RANGE == (a + (q - 1) * USIZE_RANGE) + USIZE_RANGE;
    } else if q < 0 {
      ModShift(a, q + 1);
      assert a + q * USIZE_RANGE == (a + (q + 1) * USIZE_RANGE) - USIZE_RANGE;
    }
  }

  /** A new worker row adds its cell to every column sum. */
  lemma ColumnInsert(rows: map<WorkerId, WorkerStats>, w: WorkerId, s: WorkerStats, c: Column)
    requires w !in rows
    ensures ColumnSum(rows[w := s], c) == ColumnSum(rows, c) + Cell(s, c)
  {
    var grown := rows[w := s];
    var f := x => if x in grown then Cell(grown[x], c) else 0;
    var g := x => if x in rows then Cell(rows[x], c) else 0;
    assert grown.Keys == rows.Keys + {w};
    SumInsert(rows.Keys, f, w);
    SumExt(rows.Keys, f, g);
  }

  /** A single worker row is its own column sum. */
  lemma ColumnSingle(w: WorkerId, s: WorkerStats, c: Column)
    ensures ColumnSum(map[w := s], c) == Cell(s, c)
  {
    var rows := map[w := s];
    assert rows.Keys == {w};
    SumSingle(w, x => if x in rows then Cell(rows[x], c) else 0);
  }

  /** A single worker row has the longest runtime. */
  lemma LongestSingle(w: WorkerId, s: WorkerStats)
    ensures w in map[w := s] && LongestRuntime(map[w := s]) == s.runtime
  {
    var rows := map[w := s];
    assert rows.Keys == {w};
    LargestSingle(w, x => if x in rows then rows[x].runtime else 0);
  }

  /** The composite difference of one worker row: one worker and its own
      values. */
  function Single(s: WorkerStats): (p: ProgramStats) {
    ProgramStats(1, s.dataflows, s.operators, s.subgraphs, s.channels, s.arrangements, s.events, s.runtime)
  }

  /** Adding the composite difference of one more worker row: one more worker,
      each column grows by the row's cell (modulo 2^64, as the casts do) and
      the runtime is the larger of the two. */
  function Combine(p: ProgramStats, s: WorkerStats): (q: ProgramStats) {
    ProgramStats(
      AsUsize(p.workers + 1),
      AsUsize(p.dataflows + s.dataflows),
      AsUsize(p.operators + s.operators),
      AsUsize(p.subgraphs + s.subgraphs),
      AsUsize(p.channels + s.channels),
      AsUsize(p.arrangements + s.arrangements),
      AsUsize(p.events + s.events),
      MaxInt(s.runtime, p.runtime))
  }

  /** The program statistics of a single worker row are its own values. */
  lemma ProgramStatsSingle(w: WorkerId, s: WorkerStats)
    ensures ProgramStatsOf(map[w := s]) == Some(Single(s))
  {
    ColumnSingle(w, s, Dataflows);
    ColumnSingle(w, s, Operators);
    ColumnSingle(w, s, Subgraphs);
    ColumnSingle(w, s, Channels);
    ColumnSingle(w, s, Arrangements);
    ColumnSingle(w, s, Events);
    LongestSingle(w, s);
    assert |map[w := s]| == 1 by {
      assert map[w := s].Keys == {w};
    }
    assert ProgramStatsOf(map[w := s]) == Some(Accumulated(map[w := s]));
  }

  /** A new worker row combines its runtime into the longest one by `max`. */
  lemma LongestInsert(rows: map<WorkerId, WorkerStats>, w: WorkerId, s: WorkerStats)
    requires w !in rows && rows != map[]
    ensures LongestRuntime(rows[w := s]) == MaxInt(s.runtime, LongestRuntime(rows))
  {
    var grown := rows[w := s];
    assert rows.Keys != {} by {
      var x :| x in rows;
    }
    var f := x => if x in grown then grown[x].runtime else 0;
    var g := x => if x in rows then rows[x].runtime else 0;
    assert grown.Keys == rows.Keys + {w};
    LargestInsert(rows.Keys, f, w);
    LargestExt(rows.Keys, f, g);
  }

  /** Accumulating one more worker row combines its composite difference
      into the program statistics of the others. */
  lemma ProgramStatsInsert(rows: map<WorkerId, WorkerStats>, w: WorkerId, s: WorkerStats)
    requires w !in rows && rows != map[]
    ensures ProgramStatsOf(rows).Some? && ProgramStatsOf(rows[w := s]) == Some(Combine(ProgramStatsOf(rows).value, s))
  {
    var grown := rows[w := s];
    assert w in grown;
    AccumulatedInsert(rows, w, s);
  }

  /** `ProgramStatsInsert` on the accumulated differences. */
  lemma AccumulatedInsert(rows: map<WorkerId, WorkerStats>, w: WorkerId, s: WorkerStats)
    requires w !in rows && rows != map[]
    ensures w in rows[w := s] && Accumulated(rows[w := s]) == Combine(Accumulated(rows), s)
  {
    var grown := rows[w := s];
    assert w in grown;
    var p, q := Combine(Accumulated(rows), s), Accumulated(grown);
    forall c ensures Total(q, c) == Total(p, c) {
      ColumnStep(rows, w, s, c);
    }
    WorkersStep(rows, w, s);
    ProgramStatsExt(q, p);
  }

  /** The worker count and runtime of `AccumulatedInsert`. */
  lemma WorkersStep(rows: map<WorkerId, WorkerStats>, w: WorkerId, s: WorkerStats)
    requires w !in rows && rows != map[]
    ensures w in rows[w := s]
    ensures Accumulated(rows[w := s]).workers == Combine(Accumulated(rows), s).workers
    ensures Accumulated(rows[w := s]).runtime == Combine(Accumulated(rows), s).runtime
  {
    var grown := rows[w := s];
    assert w in grown;
    calc {
      Accumulated(grown).workers;
      AsUsize(|grown|);
      { CountStep(rows, w, s); }
      AsUsize(|rows| + 1);
      { AsUsizeAdd(|rows|, 1); }
      AsUsize(AsUsize(|rows|) + 1);
      Combine(Accumulated(rows), s).workers;
    }
    LongestInsert(rows, w, s);
  }

  /** A new worker row adds one to the number of rows. */
  lemma CountStep(rows: map<WorkerId, WorkerStats>, w: WorkerId, s: WorkerStats)
    requires w !in rows
    ensures |rows[w := s]| == |rows| + 1
  {
    assert rows[w := s].Keys == rows.Keys + {w};
  }

  /** The summed column `c` of the program statistics. */
  function Total(p: ProgramStats, c: Column): Usize {
    match c
    case Dataflows => p.dataflows
    case Operators => p.operators
    case Subgraphs => p.subgraphs
    case Channels => p.channels
    case Arrangements => p.arrangements
    case Events => p.events
  }

  /** Program statistics that agree on the worker count, every summed column
      and the runtime are equal. */
  lemma ProgramStatsExt(p: ProgramStats, q: ProgramStats)
    requires p.workers == q.workers && p.runtime == q.runtime
    requires forall c :: Total(p, c) == Total(q, c)
    ensures p == q
  {
    assert Total(p, Dataflows) == Total(q, Dataflows);
    assert Total(p, Operators) == Total(q, Operators);
    assert Total(p, Subgraphs) == Total(q, Subgraphs);
    assert Total(p, Channels) == Total(q, Channels);
    assert Total(p, Arrangements) == Total(q, Arrangements);
    assert Total(p, Events) == Total(q, Events);
  }

  /** One column of `AccumulatedInsert`. */
  lemma ColumnStep(rows: map<WorkerId, WorkerStats>, w: WorkerId, s: WorkerStats, c: Column)
    requires w !in rows && rows != map[]
    ensures w in rows[w := s]
    ensures Total(Accumulated(rows[w := s]), c) == Total(Combine(Accumulated(rows), s), c)
  {
    var grown := rows[w := s];
    assert w in grown;
    var x, y := ColumnSum(rows, c), Cell(s, c);
    calc {
      Total(Accumulated(grown), c);
      { AccumulatedTotal(grown, c); }
      AsUsize(ColumnSum(grown, c));
      { ColumnInsert(rows, w, s, c); }
      AsUsize(x + y);
      { AsUsizeAdd(x, y); }
      AsUsize(AsUsize(x) + y);
      { AccumulatedTotal(rows, c); }
      AsUsize(Total(Accumulated(rows), c) + y);
      { CombineTotal(Accumulated(rows), s, c); }
      Total(Combine(Accumulated(rows), s), c);
    }
  }

  /** A summed column of the accumulated statistics is the column sum, cast. */
  lemma AccumulatedTotal(rows: map<WorkerId, WorkerStats>, c: Column)
    requires rows != map[]
    ensures Total(Accumulated(rows), c) == AsUsize(ColumnSum(rows, c))
  {
  }

  /** `Combine` adds the row's cell to every summed column, cast. */
  lemma CombineTotal(p: ProgramStats, s: WorkerStats, c: Column)
    ensures Total(Combine(p, s), c) == AsUsize(Total(p, c) + Cell(s, c))
  {
  }




  /* ------------------------------------------------------------------------ */
  /* What the worker rows hold                                                */
  /* ------------------------------------------------------------------------ */

  /** The top-level dataflow addresses of `w`: subgraph addresses of length at
      most one. */
  function TopLevelOf(operatorAddrs: WorkerBag<OperatorAddr>, subgraphAddrs: WorkerBag<OperatorAddr>, w: WorkerId)
    : (r: set<OperatorAddr>)
    ensures forall a :: a in r <==> (w, a) in operatorAddrs && (w, a) in subgraphAddrs && IsTopLevel(a)
  {
    set a | a in Seconds(operatorAddrs, w) * Seconds(subgraphAddrs, w) && IsTopLevel(a)
  }

  /** With set-like address collections the three derived address collections
      are set-like, and a worker's records in them are its operator addresses
      outside the subgraphs, inside them, and its top-level dataflows. */
  lemma DerivedAddresses(operatorAddrs: WorkerBag<OperatorAddr>, subgraphAddrs: WorkerBag<OperatorAddr>, w: WorkerId)
    requires SetLike(operatorAddrs) && SetLike(subgraphAddrs)
    ensures SetLike(Antijoin(operatorAddrs, subgraphAddrs))
    ensures SetLike(Semijoin(operatorAddrs, subgraphAddrs))
    ensures SetLike(OnlyDataflows(operatorAddrs, subgraphAddrs))
    ensures Seconds(Antijoin(operatorAddrs, subgraphAddrs), w) == Seconds(operatorAddrs, w) - Seconds(subgraphAddrs, w)
    ensures Seconds(Semijoin(operatorAddrs, subgraphAddrs), w) == Seconds(operatorAddrs, w) * Seconds(subgraphAddrs, w)
    ensures Seconds(OnlyDataflows(operatorAddrs, subgraphAddrs), w) == TopLevelOf(operatorAddrs, subgraphAddrs, w)
  {
    SetLikeKeysSplit(operatorAddrs, subgraphAddrs);
    AddressPartition(operatorAddrs, subgraphAddrs);
    var d := OnlyDataflows(operatorAddrs, subgraphAddrs);
    forall p | p in d ensures d[p] == 1 {
      assert Get(d, p) == Get(operatorAddrs, p) * Get(subgraphAddrs, p);
    }
  }

  /** The dataflow addresses of a worker are its top-level dataflows. */
  lemma DataflowAddrsOf(operatorAddrs: WorkerBag<OperatorAddr>, subgraphAddrs: WorkerBag<OperatorAddr>, w: WorkerId)
    requires SetLike(operatorAddrs) && SetLike(subgraphAddrs)
    ensures w in DataflowAddrs(OnlyDataflows(operatorAddrs, subgraphAddrs))
      <==> TopLevelOf(operatorAddrs, subgraphAddrs, w) != {}
    ensures w in DataflowAddrs(OnlyDataflows(operatorAddrs, subgraphAddrs)) ==>
      DataflowAddrs(OnlyDataflows(operatorAddrs, subgraphAddrs))[w] == TopLevelOf(operatorAddrs, subgraphAddrs, w)
  {
    DerivedAddresses(operatorAddrs, subgraphAddrs, w);
    var d := OnlyDataflows(operatorAddrs, subgraphAddrs);
    forall a ensures Get(d, (w, a)) != 0 <==> a in TopLevelOf(operatorAddrs, subgraphAddrs, w) {
      assert a in Seconds(d, w) <==> (w, a) in d;
    }
    forall a ensures Get(d, (w, a)) >= 1 <==> a in TopLevelOf(operatorAddrs, subgraphAddrs, w) {
      assert a in Seconds(d, w) <==> (w, a) in d;
    }
  }

  /** A worker has a joined row exactly when it has a row in each of the eight
      joined collections. */
  lemma JoinInputsKeys<E>(
    timely: seq<LogRecord<E>>,
    differential: Option<seq<LogRecord<DifferentialEvent>>>,
    channels: WorkerBag<Channel>,
    subgraphAddrs: WorkerBag<OperatorAddr>,
    operatorAddrs: WorkerBag<OperatorAddr>,
    arrangements: map<WorkerId, int>,
    w: WorkerId)
    ensures w in JoinInputs(timely, differential, channels, subgraphAddrs, operatorAddrs, arrangements) <==>
      w in DataflowAddrs(OnlyDataflows(operatorAddrs, subgraphAddrs))
      && w in CountTotal(OnlyDataflows(operatorAddrs, subgraphAddrs), WorkerOf)
      && w in CountTotal(Antijoin(operatorAddrs, subgraphAddrs), WorkerOf)
      && w in CountTotal(Semijoin(operatorAddrs, subgraphAddrs), WorkerOf)
      && w in CountTotal(channels, WorkerOf)
      && w in arrangements
      && w in EventTotals(timely, differential)
  {
  }

  /** The four address collections of the join have a row for `w` exactly
      when it has a top-level dataflow and an operator that is not a subgraph. */
  lemma AddressPresence(operatorAddrs: WorkerBag<OperatorAddr>, subgraphAddrs: WorkerBag<OperatorAddr>, w: WorkerId)
    requires SetLike(operatorAddrs) && SetLike(subgraphAddrs)
    ensures (w in DataflowAddrs(OnlyDataflows(operatorAddrs, subgraphAddrs))
      && w in CountTotal(OnlyDataflows(operatorAddrs, subgraphAddrs), WorkerOf)
      && w in CountTotal(Antijoin(operatorAddrs, subgraphAddrs), WorkerOf)
      && w in CountTotal(Semijoin(operatorAddrs, subgraphAddrs), WorkerOf))
      <==> TopLevelOf(operatorAddrs, subgraphAddrs, w) != {} && Seconds(operatorAddrs, w) - Seconds(subgraphAddrs, w) != {}
  {
    var top := TopLevelOf(operatorAddrs, subgraphAddrs, w);
    DerivedAddresses(operatorAddrs, subgraphAddrs, w);
    DataflowAddrsOf(operatorAddrs, subgraphAddrs, w);
    CountPerWorker(OnlyDataflows(operatorAddrs, subgraphAddrs), w);
    CountPerWorker(Antijoin(operatorAddrs, subgraphAddrs), w);
    CountPerWorker(Semijoin(operatorAddrs, subgraphAddrs), w);
    if top != {} {
      var a :| a in top;
      assert a in Seconds(operatorAddrs, w) * Seconds(subgraphAddrs, w);
    }
  }

  /** After the back-fill, a worker with channels always has an arrangement
      row. */
  lemma ChannelPresence(differential: Option<seq<LogRecord<DifferentialEvent>>>, channels: WorkerBag<Channel>, w: WorkerId)
    requires SetLike(channels)
    ensures (w in CountTotal(channels, WorkerOf)
      && w in Backfill(ArrangementTotals(differential, CountTotal(channels, WorkerOf)), CountTotal(channels, WorkerOf)))
      <==> Seconds(channels, w) != {}
  {
    CountPerWorker(channels, w);
  }

  /** With set-like address and channel collections, a worker has a row
      exactly when it has a top-level dataflow, an operator that is not a
      subgraph, a channel, and at least one logged event. Arrangements play no
      part: the back-fill gives every worker with channels a row. */
  lemma WorkerPresence<E>(
    timely: seq<LogRecord<E>>,
    differential: Option<seq<LogRecord<DifferentialEvent>>>,
    channels: WorkerBag<Channel>,
    subgraphAddrs: WorkerBag<OperatorAddr>,
    operatorAddrs: WorkerBag<OperatorAddr>,
    w: WorkerId)
    requires SetLike(operatorAddrs) && SetLike(subgraphAddrs) && SetLike(channels)
    ensures w in WorkerStatsOf(timely, differential, channels, subgraphAddrs, operatorAddrs) <==>
      TopLevelOf(operatorAddrs, subgraphAddrs, w) != {}
      && Seconds(operatorAddrs, w) - Seconds(subgraphAddrs, w) != {}
      && Seconds(channels, w) != {}
      && (w in Workers(timely) || (differential.Some? && w in Workers(differential.value)))
  {
    var channelTotals := CountTotal(channels, WorkerOf);
    var arrangements := Backfill(ArrangementTotals(differential, channelTotals), channelTotals);
    JoinInputsKeys(timely, differential, channels, subgraphAddrs, operatorAddrs, arrangements, w);
    AddressPresence(operatorAddrs, subgraphAddrs, w);
    ChannelPresence(differential, channels, w);
    EventTotalsSplit(timely, differential, w);
  }

  /** The joined row of a worker, column by column. */
  lemma JoinInputsRow<E>(
    timely: seq<LogRecord<E>>,
    differential: Option<seq<LogRecord<DifferentialEvent>>>,
    channels: WorkerBag<Channel>,
    subgraphAddrs: WorkerBag<OperatorAddr>,
    operatorAddrs: WorkerBag<OperatorAddr>,
    arrangements: map<WorkerId, int>,
    w: WorkerId)
    requires w in JoinInputs(timely, differential, channels, subgraphAddrs, operatorAddrs, arrangements)
    ensures w in DataflowAddrs(OnlyDataflows(operatorAddrs, subgraphAddrs))
      && w in CountTotal(OnlyDataflows(operatorAddrs, subgraphAddrs), WorkerOf)
      && w in CountTotal(Antijoin(operatorAddrs, subgraphAddrs), WorkerOf)
      && w in CountTotal(Semijoin(operatorAddrs, subgraphAddrs), WorkerOf)
      && w in CountTotal(channels, WorkerOf)
      && w in arrangements
      && w in RuntimeTotals(timely, differential)
      && w in EventTotals(timely, differential)
    ensures JoinInputs(timely, differential, channels, subgraphAddrs, operatorAddrs, arrangements)[w] == Project(
      w,
      DataflowAddrs(OnlyDataflows(operatorAddrs, subgraphAddrs))[w],
      CountTotal(OnlyDataflows(operatorAddrs, subgraphAddrs), WorkerOf)[w],
      CountTotal(Antijoin(operatorAddrs, subgraphAddrs), WorkerOf)[w],
      CountTotal(Semijoin(operatorAddrs, subgraphAddrs), WorkerOf)[w],
      CountTotal(channels, WorkerOf)[w],
      arrangements[w],
      EventTotals(timely, differential)[w],
      RuntimeTotals(timely, differential)[w])
  {
  }

  /** With set-like address collections, a worker row holds the worker's
      top-level dataflow addresses, and counts them, its operators that are
      not subgraphs, and its subgraphs. */
  lemma AddressFields<E>(
    timely: seq<LogRecord<E>>,
    differential: Option<seq<LogRecord<DifferentialEvent>>>,
    channels: WorkerBag<Channel>,
    subgraphAddrs: WorkerBag<OperatorAddr>,
    operatorAddrs: WorkerBag<OperatorAddr>,
    w: WorkerId)
    requires SetLike(operatorAddrs) && SetLike(subgraphAddrs)
    requires w in WorkerStatsOf(timely, differential, channels, subgraphAddrs, operatorAddrs)
    ensures WorkerStatsOf(timely, differential, channels, subgraphAddrs, operatorAddrs)[w].dataflowAddrs
      == TopLevelOf(operatorAddrs, subgraphAddrs, w)
    ensures WorkerStatsOf(timely, differential, channels, subgraphAddrs, operatorAddrs)[w].dataflows
      == AsUsize(|TopLevelOf(operatorAddrs, subgraphAddrs, w)|)
    ensures WorkerStatsOf(timely, differential, channels, subgraphAddrs, operatorAddrs)[w].operators
      == AsUsize(|Seconds(operatorAddrs, w) - Seconds(subgraphAddrs, w)|)
    ensures WorkerStatsOf(timely, differential, channels, subgraphAddrs, operatorAddrs)[w].subgraphs
      == AsUsize(|Seconds(operatorAddrs, w) * Seconds(subgraphAddrs, w)|)
  {
    var channelTotals := CountTotal(channels, WorkerOf);
    var arrangements := Backfill(ArrangementTotals(differential, channelTotals), channelTotals);
    JoinInputsRow(timely, differential, channels, subgraphAddrs, operatorAddrs, arrangements, w);
    DerivedAddresses(operatorAddrs, subgraphAddrs, w);
    DataflowAddrsOf(operatorAddrs, subgraphAddrs, w);
    CountPerWorker(OnlyDataflows(operatorAddrs, subgraphAddrs), w);
    CountPerWorker(Antijoin(operatorAddrs, subgraphAddrs), w);
    CountPerWorker(Semijoin(operatorAddrs, subgraphAddrs), w);
  }

  /** With a set-like channel collection, a worker row counts the worker's
      channels and the distinct operators it shared non-negatively, which is 0
      without a differential stream or without such a share. */
  lemma ChannelFields<E>(
    timely: seq<LogRecord<E>>,
    differential: Option<seq<LogRecord<DifferentialEvent>>>,
    channels: WorkerBag<Channel>,
    subgraphAddrs: WorkerBag<OperatorAddr>,
    operatorAddrs: WorkerBag<OperatorAddr>,
    w: WorkerId)
    requires SetLike(channels)
    requires w in WorkerStatsOf(timely, differential, channels, subgraphAddrs, operatorAddrs)
    ensures WorkerStatsOf(timely, differential, channels, subgraphAddrs, operatorAddrs)[w].channels
      == AsUsize(|Seconds(channels, w)|)
    ensures WorkerStatsOf(timely, differential, channels, subgraphAddrs, operatorAddrs)[w].arrangements
      == if differential.Some? then AsUsize(|Seconds(AsCollection(SharedOperators(differential.value)), w)|) else 0
  {
    var channelTotals := CountTotal(channels, WorkerOf);
    var totals := ArrangementTotals(differential, channelTotals);
    var arrangements := Backfill(totals, channelTotals);
    JoinInputsRow(timely, differential, channels, subgraphAddrs, operatorAddrs, arrangements, w);
    CountPerWorker(channels, w);
    ArrangementTotalsMeaning(differential, channelTotals, w);
    if differential.Some? && w !in totals {
      assert |Seconds(AsCollection(SharedOperators(differential.value)), w)| == 0;
    }
  }

  /** A worker row counts the worker's events in both streams, and its
      runtime is the latest minus the earliest of their event times. */
  lemma EventFields<E>(
    timely: seq<LogRecord<E>>,
    differential: Option<seq<LogRecord<DifferentialEvent>>>,
    channels: WorkerBag<Channel>,
    subgraphAddrs: WorkerBag<OperatorAddr>,
    operatorAddrs: WorkerBag<OperatorAddr>,
    w: WorkerId)
    requires w in WorkerStatsOf(timely, differential, channels, subgraphAddrs, operatorAddrs)
    ensures WorkerStatsOf(timely, differential, channels, subgraphAddrs, operatorAddrs)[w].events
      == AsUsize(multiset(Workers(timely))[w]
        + (if differential.Some? then multiset(Workers(differential.value))[w] else 0))
    ensures Extent(EventTimes(timely, differential), w).Some?
    ensures WorkerStatsOf(timely, differential, channels, subgraphAddrs, operatorAddrs)[w].runtime
      == Extent(EventTimes(timely, differential), w).value.0 - Extent(EventTimes(timely, differential), w).value.1
  {
    var channelTotals := CountTotal(channels, WorkerOf);
    var arrangements := Backfill(ArrangementTotals(differential, channelTotals), channelTotals);
    JoinInputsRow(timely, differential, channels, subgraphAddrs, operatorAddrs, arrangements, w);
    EventTotalsSplit(timely, differential, w);
  }

  /** Without a differential stream every worker row has zero arrangements,
      and so do the program statistics. */
  lemma NoDifferentialNoArrangements<E>(
    timely: seq<LogRecord<E>>,
    channels: WorkerBag<Channel>,
    subgraphAddrs: WorkerBag<OperatorAddr>,
    operatorAddrs: WorkerBag<OperatorAddr>)
    ensures forall w :: w in WorkerStatsOf(timely, None, channels, subgraphAddrs, operatorAddrs) ==>
      WorkerStatsOf(timely, None, channels, subgraphAddrs, operatorAddrs)[w].arrangements == 0
    ensures ProgramStatsOf(WorkerStatsOf(timely, None, channels, subgraphAddrs, operatorAddrs)).Some? ==>
      ProgramStatsOf(WorkerStatsOf(timely, None, channels, subgraphAddrs, operatorAddrs)).value.arrangements == 0
  {
    var rows := WorkerStatsOf(timely, None, channels, subgraphAddrs, operatorAddrs);
    forall w | w in rows ensures rows[w].arrangements == 0 {
      NoDifferentialRow(timely, channels, subgraphAddrs, operatorAddrs, w);
    }
    NoArrangementsProgram(rows);
  }

  /** One row of `NoDifferentialNoArrangements`. */
  lemma NoDifferentialRow<E>(
    timely: seq<LogRecord<E>>,
    channels: WorkerBag<Channel>,
    subgraphAddrs: WorkerBag<OperatorAddr>,
    operatorAddrs: WorkerBag<OperatorAddr>,
    w: WorkerId)
    requires w in WorkerStatsOf(timely, None, channels, subgraphAddrs, operatorAddrs)
    ensures WorkerStatsOf(timely, None, channels, subgraphAddrs, operatorAddrs)[w].arrangements == 0
  {
    var channelTotals := CountTotal(channels, WorkerOf);
    var arrangements := Backfill(ArrangementTotals(None, channelTotals), channelTotals);
    JoinInputsRow(timely, None, channels, subgraphAddrs, operatorAddrs, arrangements, w);
    ArrangementTotalsMeaning(None, channelTotals, w);
  }

  /** Worker rows without arrangements accumulate to zero arrangements. */
  lemma NoArrangementsProgram(rows: map<WorkerId, WorkerStats>)
    requires forall w :: w in rows ==> rows[w].arrangements == 0
    ensures ProgramStatsOf(rows).Some? ==> ProgramStatsOf(rows).value.arrangements == 0
  {
    if rows != map[] {
      SumZeros(rows.Keys, w => if w in rows then Cell(rows[w], Arrangements) else 0);
      assert ProgramStatsOf(rows) == Some(Accumulated(rows));
    }
  }

  /** With the back-fill as written, a worker that shared no operator
      non-negatively has no row, however many channels, operators and events
      it has. It follows from the contracts of `WorkerStatsAsWritten`,
      `ArrangementTotals` and `CountTotal`. */
  lemma AsWrittenDropsWorker<E>(
    timely: seq<LogRecord<E>>,
    events: seq<LogRecord<DifferentialEvent>>,
    channels: WorkerBag<Channel>,
    subgraphAddrs: WorkerBag<OperatorAddr>,
    operatorAddrs: WorkerBag<OperatorAddr>,
    w: WorkerId)
    requires Seconds(AsCollection(SharedOperators(events)), w) == {}
    ensures w !in WorkerStatsAsWritten(timely, Some(events), channels, subgraphAddrs, operatorAddrs)
  {
  }

  /** A worker row as written is the intended row of the same worker, and a
      worker has one exactly when it has an intended row and an arrangement
      count before the back-fill. */
  lemma AsWrittenRow<E>(
    timely: seq<LogRecord<E>>,
    differential: Option<seq<LogRecord<DifferentialEvent>>>,
    channels: WorkerBag<Channel>,
    subgraphAddrs: WorkerBag<OperatorAddr>,
    operatorAddrs: WorkerBag<OperatorAddr>,
    w: WorkerId)
    ensures w in WorkerStatsAsWritten(timely, differential, channels, subgraphAddrs, operatorAddrs) <==>
      w in WorkerStatsOf(timely, differential, channels, subgraphAddrs, operatorAddrs)
      && w in ArrangementTotals(differential, CountTotal(channels, WorkerOf))
    ensures w in WorkerStatsAsWritten(timely, differential, channels, subgraphAddrs, operatorAddrs) ==>
      WorkerStatsAsWritten(timely, differential, channels, subgraphAddrs, operatorAddrs)[w]
        == WorkerStatsOf(timely, differential, channels, subgraphAddrs, operatorAddrs)[w]
  {
    var channelTotals := CountTotal(channels, WorkerOf);
    var totals := ArrangementTotals(differential, channelTotals);
    var joined := JoinedArrangements(BackfillAsWritten(totals, channelTotals), channelTotals);
    var filled := Backfill(totals, channelTotals);
    JoinedBackfillAsWritten(totals, channelTotals);
    JoinInputsKeys(timely, differential, channels, subgraphAddrs, operatorAddrs, joined, w);
    JoinInputsKeys(timely, differential, channels, subgraphAddrs, operatorAddrs, filled, w);
    if w in JoinInputs(timely, differential, channels, subgraphAddrs, operatorAddrs, joined) {
      JoinInputsRow(timely, differential, channels, subgraphAddrs, operatorAddrs, joined, w);
      JoinInputsRow(timely, differential, channels, subgraphAddrs, operatorAddrs, filled, w);
    }
  }

  /** The worker rows as written are the intended rows restricted to the
      workers with an arrangement count before the back-fill. */
  lemma AsWrittenRestricts<E>(
    timely: seq<LogRecord<E>>,
    differential: Option<seq<LogRecord<DifferentialEvent>>>,
    channels: WorkerBag<Channel>,
    subgraphAddrs: WorkerBag<OperatorAddr>,
    operatorAddrs: WorkerBag<OperatorAddr>)
    ensures WorkerStatsAsWritten(timely, differential, channels, subgraphAddrs, operatorAddrs)
      == map w | w in WorkerStatsOf(timely, differential, channels, subgraphAddrs, operatorAddrs)
          && w in ArrangementTotals(differential, CountTotal(channels, WorkerOf))
        :: WorkerStatsOf(timely, differential, channels, subgraphAddrs, operatorAddrs)[w]
  {
    var written := WorkerStatsAsWritten(timely, differential, channels, subgraphAddrs, operatorAddrs);
    var intended := WorkerStatsOf(timely, differential, channels, subgraphAddrs, operatorAddrs);
    var totals := ArrangementTotals(differential, CountTotal(channels, WorkerOf));
    forall w ensures (w in written <==> w in intended && w in totals) && (w in written ==> written[w] == intended[w]) {
      AsWrittenRow(timely, differential, channels, subgraphAddrs, operatorAddrs, w);
    }
    RestrictedRows(written, intended, totals);
  }

  /** Rows that are exactly the rows of `intended` whose worker is in `keep`
      form the restriction of `intended` to `keep`. */
  lemma RestrictedRows(written: map<WorkerId, WorkerStats>, intended: map<WorkerId, WorkerStats>, keep: map<WorkerId, int>)
    requires forall w :: w in written <==> w in intended && w in keep
    requires forall w :: w in written ==> written[w] == intended[w]
    ensures written == map w | w in intended && w in keep :: intended[w]
  {
  }

  /** With set-like address and channel collections, a worker has a row as
      written exactly when it has one as intended (`WorkerPresence`) and, when
      there is a differential stream, it also shared some operator
      non-negatively. */
  lemma WorkerPresenceAsWritten<E>(
    timely: seq<LogRecord<E>>,
    differential: Option<seq<LogRecord<DifferentialEvent>>>,
    channels: WorkerBag<Channel>,
    subgraphAddrs: WorkerBag<OperatorAddr>,
    operatorAddrs: WorkerBag<OperatorAddr>,
    w: WorkerId)
    requires SetLike(operatorAddrs) && SetLike(subgraphAddrs) && SetLike(channels)
    ensures w in WorkerStatsAsWritten(timely, differential, channels, subgraphAddrs, operatorAddrs) <==>
      TopLevelOf(operatorAddrs, subgraphAddrs, w) != {}
      && Seconds(operatorAddrs, w) - Seconds(subgraphAddrs, w) != {}
      && Seconds(channels, w) != {}
      && (w in Workers(timely) || (differential.Some? && w in Workers(differential.value)))
      && (differential.Some? ==> Seconds(AsCollection(SharedOperators(differential.value)), w) != {})
  {
    AsWrittenRow(timely, differential, channels, subgraphAddrs, operatorAddrs, w);
    WorkerPresence(timely, differential, channels, subgraphAddrs, operatorAddrs, w);
    ArrangementTotalsMeaning(differential, CountTotal(channels, WorkerOf), w);
    CountPerWorker(channels, w);
  }

  /** With the back-fill as written, a differential stream without a single
      non-negative trace share (an empty one, say) leaves no worker row and no
      program statistics at all, whereas with the intended back-fill every
      worker keeps its row (`WorkerPresence`) with zero arrangements. */
  lemma AsWrittenLosesEverything<E>(
    timely: seq<LogRecord<E>>,
    events: seq<LogRecord<DifferentialEvent>>,
    channels: WorkerBag<Channel>,
    subgraphAddrs: WorkerBag<OperatorAddr>,
    operatorAddrs: WorkerBag<OperatorAddr>)
    requires forall i :: 0 <= i < |events| ==> !SignalsArrangement(events[i].event)
    ensures WorkerStatsAsWritten(timely, Some(events), channels, subgraphAddrs, operatorAddrs) == map[]
    ensures ProgramStatsOf(WorkerStatsAsWritten(timely, Some(events), channels, subgraphAddrs, operatorAddrs)) == None
    ensures forall w :: w in WorkerStatsOf(timely, Some(events), channels, subgraphAddrs, operatorAddrs) ==>
      WorkerStatsOf(timely, Some(events), channels, subgraphAddrs, operatorAddrs)[w].arrangements == 0
  {
    var rows := WorkerStatsAsWritten(timely, Some(events), channels, subgraphAddrs, operatorAddrs);
    assert SharedOperators(events) == {};
    forall w ensures w !in rows {
      AsWrittenDropsWorker(timely, events, channels, subgraphAddrs, operatorAddrs, w);
    }
    var fixed := WorkerStatsOf(timely, Some(events), channels, subgraphAddrs, operatorAddrs);
    forall w | w in fixed ensures fixed[w].arrangements == 0 {
      UnsharedRow(timely, events, channels, subgraphAddrs, operatorAddrs, w);
    }
  }

  /** With the intended back-fill, a worker that shared no operator
      non-negatively has zero arrangements. */
  lemma UnsharedRow<E>(
    timely: seq<LogRecord<E>>,
    events: seq<LogRecord<DifferentialEvent>>,
    channels: WorkerBag<Channel>,
    subgraphAddrs: WorkerBag<OperatorAddr>,
    operatorAddrs: WorkerBag<OperatorAddr>,
    w: WorkerId)
    requires Seconds(AsCollection(SharedOperators(events)), w) == {}
    requires w in WorkerStatsOf(timely, Some(events), channels, subgraphAddrs, operatorAddrs)
    ensures WorkerStatsOf(timely, Some(events), channels, subgraphAddrs, operatorAddrs)[w].arrangements == 0
  {
    var channelTotals := CountTotal(channels, WorkerOf);
    var arrangements := Backfill(ArrangementTotals(Some(events), channelTotals), channelTotals);
    JoinInputsRow(timely, Some(events), channels, subgraphAddrs, operatorAddrs, arrangements, w);
    ArrangementTotalsMeaning(Some(events), channelTotals, w);
  }

  /** Two workers, each with one dataflow, three operators, one subgraph, two
      channels, no arrangements and ten events spanning 400 nanoseconds, make
      2 workers, 2 dataflows, 6 operators, 2 subgraphs, 4 channels, 0
      arrangements, 20 events and a runtime of 400. */
  lemma TwoWorkerProgram()
    ensures ProgramStatsOf(map[
      0 := WorkerStats(0, 1, 3, 1, 2, 0, 10, 400, {[0]}),
      1 := WorkerStats(1, 1, 3, 1, 2, 0, 10, 400, {[0]})])
      == Some(ProgramStats(2, 2, 6, 2, 4, 0, 20, 400))
  {
    var a := WorkerStats(0, 1, 3, 1, 2, 0, 10, 400, {[0]});
    var b := WorkerStats(1, 1, 3, 1, 2, 0, 10, 400, {[0]});
    ProgramStatsSingle(0, a);
    ProgramStatsInsert(map[0 := a], 1, b);
    assert map[0 := a][1 := b] == map[0 := a, 1 := b];
  }
}
