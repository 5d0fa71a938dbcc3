/** Exactly-once reporting for all nodes together: nodes come into being between ticks, each is written to and
    refreshed at any time, and every tick hands the merged records of all of them to the log writer. */
module AggregatorRuns {
  import opened Aggregator
  import opened Clock
  import opened LeapArrays
  import opened LeapRing
  import opened MetricBuckets

  datatype Node = Node(ring: Ring<MetricBucket>, log: seq<Entry<MetricOp>>, born: nat)

  /** All nodes, the last fetched second, and every map handed to the writer so far. */
  datatype Fleet = Fleet(nodes: seq<Node>, lastFetch: int, written: seq<map<nat, seq<(nat, Item)>>>)

  /** `maps` is what the tick merges; the order of records in it is the order of the nodes. */
  datatype FleetEvent =
    | Create(now: Millis, n: nat, len: nat)
    | Put(node: nat, now: Millis, op: MetricOp)
    | Refresh(node: nat, now: Millis)
    | Fetch(now: Millis, maps: map<nat, seq<(nat, Item)>>)

  /** What every node contributes to a tick. */
  function Contributions(nodes: seq<Node>, now: nat, lastFetch: int, current: nat): seq<map<nat, Item>> {
    if |nodes| == 0 then []
    else
      Contributions(nodes[..|nodes| - 1], now, lastFetch, current) +
      [Collect(nodes[|nodes| - 1].ring, now, lastFetch, current)]
  }

  /** A tick comes before the buckets of the node since the last fetch, or since its creation, go out of reach. */
  predicate FetchInTime(node: Node, lastFetch: int, now: nat)
    requires node.ring.len > 0
  {
    var from := Align(node.born, node.ring.len);
    now < (if lastFetch < from then from else lastFetch) + node.ring.interval
  }

  ghost predicate Allowed(f: Fleet, last: nat, e: FleetEvent) {
    && last <= e.now && 0 < e.now
    && match e
       case Create(now, n, len) => Config(len, n * len, n) && 1000 % len == 0
       case Put(node, now, op) => node < |f.nodes| && f.nodes[node].ring.len > 0 && |f.nodes[node].ring.slots| > 0
       case Refresh(node, now) => node < |f.nodes| && f.nodes[node].ring.len > 0 && |f.nodes[node].ring.slots| > 0
       case Fetch(now, maps) =>
         SecondOf(now) > f.lastFetch ==>
           && (forall i :: 0 <= i < |f.nodes| ==> f.nodes[i].ring.len > 0 && FetchInTime(f.nodes[i], f.lastFetch, now))
           && Aggregates(maps, Contributions(f.nodes, now, f.lastFetch, SecondOf(now)))
  }

  ghost function FleetStep(f: Fleet, last: nat, e: FleetEvent): Fleet
    requires Allowed(f, last, e)
  {
    match e
    case Create(now, n, len) => f.(nodes := f.nodes + [Node(NewRing(n, len, now, NEW_BUCKET), [], now)])
    case Put(i, now, op) =>
      var node := f.nodes[i];
      f.(nodes := f.nodes[i := Node(Record(node.ring, now, op, METRIC), node.log + [Entry(now, op)], node.born)])
    case Refresh(i, now) =>
      var node := f.nodes[i];
      if Touch(node.ring, now, NEW_BUCKET).Some? then
        f.(nodes := f.nodes[i := node.(ring := Touch(node.ring, now, NEW_BUCKET).value)])
      else f
    case Fetch(now, maps) =>
      if SecondOf(now) <= f.lastFetch then f
      else f.(lastFetch := SecondOf(now), written := if maps == map[] then f.written else f.written + [maps])
  }

  /** A run: every event is allowed in the state it meets. */
  ghost predicate FleetLegal(f: Fleet, last: nat, events: seq<FleetEvent>)
    decreases |events|
  {
    |events| == 0 ||
    (Allowed(f, last, events[0]) && FleetLegal(FleetStep(f, last, events[0]), events[0].now, events[1..]))
  }

  ghost function FleetRun(f: Fleet, last: nat, events: seq<FleetEvent>): Fleet
    requires FleetLegal(f, last, events)
    decreases |events|
  {
    if |events| == 0 then f else FleetRun(FleetStep(f, last, events[0]), events[0].now, events[1..])
  }

  // ---------------------------------------------------------------- what the writer got

  /** The records of one node, in order. */
  function OfNode(items: seq<(nat, Item)>, node: nat): seq<Item> {
    if |items| == 0 then []
    else OfNode(items[..|items| - 1], node) + (if items[|items| - 1].0 == node then [items[|items| - 1].1] else [])
  }

  /** All records of one node for one second, over everything written. */
  function RecordsOf(written: seq<map<nat, seq<(nat, Item)>>>, node: nat, sec: nat): seq<Item> {
    if |written| == 0 then []
    else RecordsOf(written[..|written| - 1], node, sec) + OfNode(Lookup(written[|written| - 1], sec), node)
  }

  function LogOf(f: Fleet, node: nat): seq<Entry<MetricOp>> {
    if node < |f.nodes| then f.nodes[node].log else []
  }

  /** The second of the node has been written once, in full, if it has been fetched and something happened in it, and
      not at all otherwise. */
  ghost predicate WrittenOnce(f: Fleet, node: nat, sec: nat) {
    RecordsOf(f.written, node, sec) ==
    if sec < f.lastFetch && Active(RecordOf(LogOf(f, node), sec)) then [RecordOf(LogOf(f, node), sec)] else []
  }

  ghost predicate NodeOk(node: Node, last: nat) {
    Represents(node.ring, node.log, node.born, last, 0, METRIC) && 1000 % node.ring.len == 0
  }

  ghost predicate FleetInv(f: Fleet, last: nat) {
    && f.lastFetch <= last
    && (f.lastFetch == -1 || f.lastFetch % 1000 == 0)
    && (forall i :: 0 <= i < |f.nodes| ==> NodeOk(f.nodes[i], last))
    && (forall node: nat, sec: nat :: sec % 1000 == 0 ==> WrittenOnce(f, node, sec))
  }

  lemma {:induction false} OfNodeAppend(items: seq<(nat, Item)>, more: seq<(nat, Item)>, node: nat)
    ensures OfNode(items + more, node) == OfNode(items, node) + OfNode(more, node)
  {
    if |more| == 0 {
      assert items + more == items;
    } else {
      OfNodeAppend(items, more[..|more| - 1], node);
      assert (items + more)[..|items + more| - 1] == items + more[..|more| - 1];
    }
  }

  /** Of the merged records of one second, a node has the one it contributed. */
  lemma {:induction false} OfNodeTagged(collects: seq<map<nat, Item>>, node: nat, sec: nat)
    ensures OfNode(Tagged(collects, sec), node) ==
            if node < |collects| && sec in collects[node] then [collects[node][sec]] else []
  {
    if |collects| > 0 {
      var m := |collects| - 1;
      OfNodeTagged(collects[..m], node, sec);
      OfNodeAppend(Tagged(collects[..m], sec), TagOf(collects[m], m, sec), node);
      if sec in collects[m] {
        assert TagOf(collects[m], m, sec)[..0] == [];
      }
    }
  }

  lemma {:induction false} ContributionOf(nodes: seq<Node>, now: nat, lastFetch: int, current: nat, i: nat)
    ensures |Contributions(nodes, now, lastFetch, current)| == |nodes|
    ensures i < |nodes| ==>
              Contributions(nodes, now, lastFetch, current)[i] == Collect(nodes[i].ring, now, lastFetch, current)
  {
    if |nodes| > 0 {
      var init := nodes[..|nodes| - 1];
      ContributionOf(init, now, lastFetch, current, i);
      assert i < |init| ==> init[i] == nodes[i];
    }
  }

  // ---------------------------------------------------------------- every event keeps it

  lemma {:induction false} LaterOk(node: Node, last: nat, now: nat)
    requires NodeOk(node, last) && last <= now
    ensures NodeOk(node, now)
  {
    LaterLast(node.ring, node.log, node.born, last, now, 0, METRIC);
  }

  lemma {:induction false} CreateKeepsInv(f: Fleet, last: nat, e: FleetEvent)
    requires FleetInv(f, last) && Allowed(f, last, e) && e.Create?
    ensures FleetInv(FleetStep(f, last, e), e.now)
  {
    var f' := FleetStep(f, last, e);
    NewRepresents(e.n, e.len, e.now, METRIC);
    forall i | 0 <= i < |f'.nodes|
      ensures NodeOk(f'.nodes[i], e.now)
    {
      if i < |f.nodes| {
        LaterOk(f.nodes[i], last, e.now);
      }
    }
    forall node: nat, sec: nat | sec % 1000 == 0
      ensures WrittenOnce(f', node, sec)
    {
      assert WrittenOnce(f, node, sec) && LogOf(f', node) == LogOf(f, node);
    }
  }

  lemma {:induction false} PutReports(f: Fleet, f': Fleet, node: nat, e: Entry<MetricOp>, sec: nat)
    requires WrittenOnce(f, node, sec) && sec % 1000 == 0
    requires f.lastFetch <= e.time && (f.lastFetch == -1 || f.lastFetch % 1000 == 0)
    requires f'.lastFetch == f.lastFetch && f'.written == f.written
    requires LogOf(f', node) == LogOf(f, node) || LogOf(f', node) == LogOf(f, node) + [e]
    ensures WrittenOnce(f', node, sec)
  {
    if sec < f.lastFetch {
      NextSecond(sec, f.lastFetch);
      SecondUnique(e.time, sec);
      RecordUnchanged(LogOf(f, node), e, sec);
    }
  }

  lemma {:induction false} PutKeepsInv(f: Fleet, last: nat, e: FleetEvent)
    requires FleetInv(f, last) && Allowed(f, last, e) && e.Put?
    ensures FleetInv(FleetStep(f, last, e), e.now)
  {
    var f', target := FleetStep(f, last, e), f.nodes[e.node];
    assert NodeOk(target, last);
    RecordRepresents(target.ring, target.log, target.born, last, 0, METRIC, e.now, e.op);
    forall i | 0 <= i < |f'.nodes|
      ensures NodeOk(f'.nodes[i], e.now)
    {
      if i != e.node {
        LaterOk(f.nodes[i], last, e.now);
      }
    }
    forall node: nat, sec: nat | sec % 1000 == 0
      ensures WrittenOnce(f', node, sec)
    {
      PutReports(f, f', node, Entry(e.now, e.op), sec);
    }
  }

  lemma {:induction false} RefreshKeepsInv(f: Fleet, last: nat, e: FleetEvent)
    requires FleetInv(f, last) && Allowed(f, last, e) && e.Refresh?
    ensures FleetInv(FleetStep(f, last, e), e.now)
  {
    var f', target := FleetStep(f, last, e), f.nodes[e.node];
    assert NodeOk(target, last);
    TouchRepresents(target.ring, target.log, target.born, last, 0, METRIC, e.now);
    forall i | 0 <= i < |f'.nodes|
      ensures NodeOk(f'.nodes[i], e.now)
    {
      if i != e.node {
        LaterOk(f.nodes[i], last, e.now);
      }
    }
    forall node: nat, sec: nat | sec % 1000 == 0
      ensures WrittenOnce(f', node, sec)
    {
      assert WrittenOnce(f, node, sec) && LogOf(f', node) == LogOf(f, node);
    }
  }

  lemma {:induction false} FetchAdds(f: Fleet, maps: map<nat, seq<(nat, Item)>>, collects: seq<map<nat, Item>>,
                                     node: nat, sec: nat)
    requires Aggregates(maps, collects)
    ensures RecordsOf(if maps == map[] then f.written else f.written + [maps], node, sec) ==
            RecordsOf(f.written, node, sec) +
            (if node < |collects| && sec in collects[node] then [collects[node][sec]] else [])
  {
    OfNodeTagged(collects, node, sec);
    assert Lookup(maps, sec) == Tagged(collects, sec);
    assert (f.written + [maps])[..|f.written|] == f.written;
  }

  lemma {:induction false} FetchReports(f: Fleet, f': Fleet, maps: map<nat, seq<(nat, Item)>>,
                                        collects: seq<map<nat, Item>>, current: nat, node: nat, sec: nat)
    requires WrittenOnce(f, node, sec) && f.lastFetch < current && Aggregates(maps, collects) && |collects| == |f.nodes|
    requires node < |collects| ==> CollectedExactly(collects[node], f.nodes[node].log, f.lastFetch, current, sec)
    requires f' == f.(lastFetch := current, written := if maps == map[] then f.written else f.written + [maps])
    ensures WrittenOnce(f', node, sec)
  {
    FetchAdds(f, maps, collects, node, sec);
  }

  lemma {:induction false} ContributionExact(node: Node, last: nat, now: Millis, lastFetch: int, sec: nat)
    requires NodeOk(node, last) && last <= now && 0 < now && sec % 1000 == 0
    requires lastFetch < SecondOf(now) && (lastFetch == -1 || lastFetch % 1000 == 0)
    requires FetchInTime(node, lastFetch, now)
    ensures CollectedExactly(Collect(node.ring, now, lastFetch, SecondOf(now)), node.log, lastFetch, SecondOf(now), sec)
  {
    LaterLast(node.ring, node.log, node.born, last, now, 0, METRIC);
    AlignFacts(now, 1000);
    AlignFacts(now, node.ring.len);
    CollectExact(node.ring, node.log, node.born, now, now, lastFetch, SecondOf(now), sec);
  }

  lemma {:induction false} FetchKeepsInv(f: Fleet, last: nat, e: FleetEvent)
    requires FleetInv(f, last) && Allowed(f, last, e) && e.Fetch?
    ensures FleetInv(FleetStep(f, last, e), e.now)
  {
    var f', current := FleetStep(f, last, e), SecondOf(e.now);
    AlignFacts(e.now, 1000);
    forall i | 0 <= i < |f.nodes|
      ensures NodeOk(f.nodes[i], e.now)
    {
      LaterOk(f.nodes[i], last, e.now);
    }
    if current > f.lastFetch {
      var collects := Contributions(f.nodes, e.now, f.lastFetch, current);
      forall node: nat, sec: nat | sec % 1000 == 0
        ensures WrittenOnce(f', node, sec)
      {
        ContributionOf(f.nodes, e.now, f.lastFetch, current, node);
        if node < |f.nodes| {
          ContributionExact(f.nodes[node], last, e.now, f.lastFetch, sec);
        }
        FetchReports(f, f', e.maps, collects, current, node, sec);
      }
    }
  }

  lemma {:induction false} FleetKeepsInv(f: Fleet, last: nat, events: seq<FleetEvent>)
    requires FleetInv(f, last) && FleetLegal(f, last, events)
    ensures FleetInv(FleetRun(f, last, events), if |events| == 0 then last else events[|events| - 1].now)
    decreases |events|
  {
    if |events| > 0 {
      var e := events[0];
      if e.Create? {
        CreateKeepsInv(f, last, e);
      } else if e.Put? {
        PutKeepsInv(f, last, e);
      } else if e.Refresh? {
        RefreshKeepsInv(f, last, e);
      } else {
        FetchKeepsInv(f, last, e);
      }
      FleetKeepsInv(FleetStep(f, last, e), e.now, events[1..]);
    }
  }

  const START := Fleet([], -1, [])

  /** Exactly once, for all nodes: over every run from the start, whichever nodes are created when, every fetched second
      of every node has been handed to the writer once with its full totals if anything happened in it, and nothing else
      has been handed to it. */
  lemma {:induction false} AllExactlyOnce(events: seq<FleetEvent>, node: nat, sec: nat)
    requires FleetLegal(START, 0, events) && sec % 1000 == 0
    ensures WrittenOnce(FleetRun(START, 0, events), node, sec)
  {
    forall n: nat, t: nat | t % 1000 == 0
      ensures WrittenOnce(START, n, t)
    {
    }
    FleetKeepsInv(START, 0, events);
  }

  // ---------------------------------------------------------------- the aggregator object takes these ticks

  lemma {:induction false} SameContributions(arrays: seq<LeapArray<MetricBucket>>, nodes: seq<Node>, now: nat,
                                             lastFetch: int, current: nat)
    requires |arrays| == |nodes| && forall i :: 0 <= i < |arrays| ==> arrays[i].Contents() == nodes[i].ring
    ensures Collected(arrays, now, lastFetch, current) == Contributions(nodes, now, lastFetch, current)
  {
    if |arrays| > 0 {
      SameContributions(arrays[..|arrays| - 1], nodes[..|nodes| - 1], now, lastFetch, current);
    }
  }

  /** Whatever the aggregator object writes in a tick over the arrays of the nodes is such a step. */
  lemma {:induction false} ObjectTakesStep(f: Fleet, last: nat, now: Millis, arrays: seq<LeapArray<MetricBucket>>,
                                           after: seq<map<nat, seq<(nat, Item)>>>)
    requires |arrays| == |f.nodes| && forall i :: 0 <= i < |arrays| ==> arrays[i].Contents() == f.nodes[i].ring
    requires last <= now && 0 < now && SecondOf(now) > f.lastFetch
    requires forall i :: 0 <= i < |f.nodes| ==> f.nodes[i].ring.len > 0 && FetchInTime(f.nodes[i], f.lastFetch, now)
    requires Wrote(f.written, after, Collected(arrays, now, f.lastFetch, SecondOf(now)))
    ensures exists maps :: Allowed(f, last, Fetch(now, maps)) &&
                           FleetStep(f, last, Fetch(now, maps)) == f.(lastFetch := SecondOf(now), written := after)
  {
    var collects := Collected(arrays, now, f.lastFetch, SecondOf(now));
    SameContributions(arrays, f.nodes, now, f.lastFetch, SecondOf(now));
    var maps :| Writes(f.written, after, maps) && Aggregates(maps, collects);
    assert Allowed(f, last, Fetch(now, maps));
    assert FleetStep(f, last, Fetch(now, maps)) == f.(lastFetch := SecondOf(now), written := after);
  }
}
