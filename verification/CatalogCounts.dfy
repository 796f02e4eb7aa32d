/** When the realm catalog equals a fold over the stored blocks. */
module CatalogCounts {
  import opened Wrappers
  import opened RealmCatalog
  import opened HeightWriter
  import opened Database
  import opened HeightInvariants

  // ----- the fold -----

  /** The events of a stored height. */
  function EventsAt(txs: map<int, seq<Transaction>>, h: int): seq<Event> {
    if h in txs then Events(Inputs(txs[h])) else []
  }

  /** How many calls of a path with this outcome the stored heights 1..n hold. */
  function Total(txs: map<int, seq<Transaction>>, path: string, k: CallOutcome, n: nat): nat {
    if n == 0 then 0 else Total(txs, path, k, n - 1) + CountCalls(EventsAt(txs, n), path, k)
  }

  function AllCalls(events: seq<Event>, path: string): nat {
    CountCalls(events, path, Success) + CountCalls(events, path, Failed) + CountCalls(events, path, UnknownResult)
  }

  predicate CalledAt(txs: map<int, seq<Transaction>>, path: string, h: int) { AllCalls(EventsAt(txs, h), path) > 0 }

  ghost predicate LastCalledIs(txs: map<int, seq<Transaction>>, path: string, last: Option<int>) {
    && (last.Some? ==> last.value >= 1 && CalledAt(txs, path, last.value))
    && (forall h :: CalledAt(txs, path, h) ==> last.Some? && h <= last.value)
  }

  datatype Counters = Counters(calls: nat, success: nat, failed: nat, unknown: nat, lastCounted: Option<int>)

  function CountersOf(row: Option<CatalogRow>): Counters {
    if row.None? then Counters(0, 0, 0, 0, None)
    else Counters(row.value.calls, row.value.success, row.value.failed, row.value.unknown, row.value.lastCounted)
  }

  /** The counters of a path are the totals over the stored blocks. */
  ghost predicate CountersAre(c: Counters, txs: map<int, seq<Transaction>>, path: string, n: nat) {
    && c.success == Total(txs, path, Success, n)
    && c.failed == Total(txs, path, Failed, n)
    && c.unknown == Total(txs, path, UnknownResult, n)
    && c.calls == c.success + c.failed + c.unknown
    && LastCalledIs(txs, path, c.lastCounted)
  }

  function Checkpoint(t: Tables): nat {
    if t.state.Some? && t.state.value.checkpoint >= 0 then t.state.value.checkpoint else 0
  }

  ghost predicate CountersExact(t: Tables) {
    forall path :: CountersAre(CountersOf(Find(t.catalog, path)), t.txs, path, Checkpoint(t))
  }

  // ----- replacing one height -----

  lemma {:induction false} TotalBelow(a: map<int, seq<Transaction>>, b: map<int, seq<Transaction>>, path: string,
                                      k: CallOutcome, n: nat)
    requires forall h :: 1 <= h <= n ==> EventsAt(a, h) == EventsAt(b, h)
    ensures Total(a, path, k, n) == Total(b, path, k, n)
  {
    if n > 0 { TotalBelow(a, b, path, k, n - 1); }
  }

  /** Replacing a height changes the total by the difference at that height. */
  lemma {:induction false} TotalReplaced(a: map<int, seq<Transaction>>, b: map<int, seq<Transaction>>, path: string,
                                         k: CallOutcome, n: nat, at: nat)
    requires 1 <= at <= n && forall h :: h != at ==> EventsAt(a, h) == EventsAt(b, h)
    ensures Total(b, path, k, n) + CountCalls(EventsAt(a, at), path, k)
         == Total(a, path, k, n) + CountCalls(EventsAt(b, at), path, k)
  {
    if n == at {
      TotalBelow(a, b, path, k, n - 1);
    } else {
      TotalReplaced(a, b, path, k, n - 1, at);
    }
  }

  lemma {:induction false} TotalExtended(txs: map<int, seq<Transaction>>, path: string, k: CallOutcome, n: nat,
                                         m: nat)
    requires n <= m && forall h :: n < h <= m ==> h !in txs
    ensures Total(txs, path, k, m) == Total(txs, path, k, n)
  {
    if m > n { TotalExtended(txs, path, k, n, m - 1); }
  }

  /** The totals up to the new checkpoint after a height was written. */
  lemma TotalAfter(a: map<int, seq<Transaction>>, b: map<int, seq<Transaction>>, path: string, k: CallOutcome, n: nat,
                   at: nat)
    requires at >= 1 && (forall h :: h != at ==> EventsAt(a, h) == EventsAt(b, h))
    requires forall h :: h in a ==> 1 <= h <= n
    ensures Total(b, path, k, if at > n then at else n) + CountCalls(EventsAt(a, at), path, k)
         == Total(a, path, k, n) + CountCalls(EventsAt(b, at), path, k)
  {
    var m := if at > n then at else n;
    TotalExtended(a, path, k, n, m);
    TotalReplaced(a, b, path, k, m, at);
  }

  // ----- the counters after one write -----

  /** What the upsert does to the counters of a path, given how the height's calls count. */
  function Counted(c: Counters, height: int, events: seq<Event>, path: string): Counters {
    if AllCalls(events, path) > 0 && height > (if c.lastCounted.Some? then c.lastCounted.value else 0) then
      Counters(c.calls + AllCalls(events, path),
               c.success + CountCalls(events, path, Success),
               c.failed + CountCalls(events, path, Failed),
               c.unknown + CountCalls(events, path, UnknownResult), Some(height))
    else c
  }

  lemma CountersAfter(catalog: map<string, CatalogRow>, height: int, time: int, events: seq<Event>, path: string)
    requires height >= 1
    ensures CountersOf(Find(MergedCatalog(catalog, height, time, events), path))
         == Counted(CountersOf(Find(catalog, path)), height, events, path)
  {
    hide MergedCatalog, Aggregate, CountCalls;
    RowInCatalog(catalog, height, time, events, path);
    CountsMean(events, path);
  }

  predicate SameCounts(x: seq<Event>, y: seq<Event>, path: string) {
    && CountCalls(x, path, Success) == CountCalls(y, path, Success)
    && CountCalls(x, path, Failed) == CountCalls(y, path, Failed)
    && CountCalls(x, path, UnknownResult) == CountCalls(y, path, UnknownResult)
  }

  /** What has to hold of the stored and the incoming data for the counters of a path to stay exact:
      if a stored block at or above the height calls the path, then the write must not change the
      height's counts; otherwise the incoming counts must be the ones that are going to be stored. */
  ghost predicate CountsOnce(a: map<int, seq<Transaction>>, b: map<int, seq<Transaction>>, incoming: seq<Event>,
                             path: string, height: int) {
    if exists h :: h >= height && CalledAt(a, path, h) then SameCounts(EventsAt(b, height), EventsAt(a, height), path)
    else SameCounts(EventsAt(b, height), incoming, path)
  }

  /** Merging results into a height adds and removes no calls. */
  predicate SameNumber(b: map<int, seq<Transaction>>, incoming: seq<Event>, path: string, height: int) {
    AllCalls(EventsAt(b, height), path) == AllCalls(incoming, path)
  }

  lemma LastBelow(a: map<int, seq<Transaction>>, path: string, last: Option<int>, height: int)
    requires LastCalledIs(a, path, last) && height >= 1
    ensures (exists h :: h >= height && CalledAt(a, path, h)) <==> last.Some? && last.value >= height
  {
  }

  lemma LastAfter(a: map<int, seq<Transaction>>, b: map<int, seq<Transaction>>, incoming: seq<Event>, path: string,
                  height: int,
                  c: Counters)
    requires height >= 1 && (forall h :: h != height ==> EventsAt(a, h) == EventsAt(b, h))
    requires LastCalledIs(a, path, c.lastCounted) && SameNumber(b, incoming, path, height)
    requires c.lastCounted.Some? && c.lastCounted.value >= height ==>
      AllCalls(EventsAt(b, height), path) == AllCalls(EventsAt(a, height), path)
    ensures LastCalledIs(b, path, Counted(c, height, incoming, path).lastCounted)
  {
    hide EventsAt, CountCalls, AllCalls;
    var last := Counted(c, height, incoming, path).lastCounted;
    assert forall h :: h != height ==> CalledAt(a, path, h) == CalledAt(b, path, h);
    assert CalledAt(b, path, height) <==> AllCalls(incoming, path) > 0;
    assert c.lastCounted.Some? && c.lastCounted.value >= height ==>
      (CalledAt(a, path, height) <==> CalledAt(b, path, height));
  }

  /** The counters of one path stay exact if and only if its calls count once. */
  lemma CountersOfPath(a: map<int, seq<Transaction>>, b: map<int, seq<Transaction>>, incoming: seq<Event>,
                       path: string,
                       height: nat, n: nat, c: Counters)
    requires height >= 1 && (forall h :: h in a ==> 1 <= h <= n) &&
      (forall h :: h != height ==> EventsAt(a, h) == EventsAt(b, h))
    requires CountersAre(c, a, path, n) && SameNumber(b, incoming, path, height)
    ensures CountersAre(Counted(c, height, incoming, path), b, path, if height > n then height else n)
      <==> CountsOnce(a, b, incoming, path, height)
  {
    hide EventsAt, CountCalls, LastCalledIs, CalledAt;
    LastBelow(a, path, c.lastCounted, height);
    TotalAfter(a, b, path, Success, n, height);
    TotalAfter(a, b, path, Failed, n, height);
    TotalAfter(a, b, path, UnknownResult, n, height);
    var later := c.lastCounted.Some? && c.lastCounted.value >= height;
    if !later {
      Uncalled(a, path, height, c.lastCounted);
    }
    if later ==> AllCalls(EventsAt(b, height), path) == AllCalls(EventsAt(a, height), path) {
      LastAfter(a, b, incoming, path, height, c);
    }
  }

  lemma Uncalled(a: map<int, seq<Transaction>>, path: string, height: int, last: Option<int>)
    requires LastCalledIs(a, path, last) && !(last.Some? && last.value >= height)
    ensures forall k :: CountCalls(EventsAt(a, height), path, k) == 0
  {
    hide EventsAt, CountCalls;
    assert !CalledAt(a, path, height);
    forall k ensures CountCalls(EventsAt(a, height), path, k) == 0 {
      match k
      case Success =>
      case Failed =>
      case UnknownResult =>
    }
  }

  // ----- results do not change the number of calls -----

  predicate SameButStatus(x: seq<Event>, y: seq<Event>) {
    |x| == |y| && forall i :: 0 <= i < |x| ==> x[i].observation == y[i].observation && x[i].txIndex == y[i].txIndex
  }

  lemma SameEventsOf(x: CatalogInput, y: CatalogInput)
    requires x.summary == y.summary && x.txIndex == y.txIndex
    ensures SameButStatus(EventsOf(x), EventsOf(y))
  {
    hide Observations, MessagesOf;
  }

  lemma {:induction false} SameEvents(x: seq<CatalogInput>, y: seq<CatalogInput>)
    requires |x| == |y| && forall i :: 0 <= i < |x| ==> x[i].summary == y[i].summary && x[i].txIndex == y[i].txIndex
    ensures SameButStatus(Events(x), Events(y))
  {
    if x != [] {
      hide Events, EventsOf, SameButStatus;
      var n := |x| - 1;
      SameEvents(x[..n], y[..n]);
      SameEventsOf(x[n], y[n]);
      LastEvents(x);
      LastEvents(y);
      SameConcat(Events(x[..n]), Events(y[..n]), EventsOf(x[n]), EventsOf(y[n]));
    }
  }

  lemma LastEvents(x: seq<CatalogInput>)
    requires x != []
    ensures Events(x) == Events(x[..|x| - 1]) + EventsOf(x[|x| - 1])
  {
    hide EventsOf;
  }

  lemma SameConcat(a: seq<Event>, b: seq<Event>, c: seq<Event>, d: seq<Event>)
    requires SameButStatus(a, b) && SameButStatus(c, d)
    ensures SameButStatus(a + c, b + d)
  {
  }

  lemma {:induction false} SameCalls(x: seq<Event>, y: seq<Event>, path: string)
    requires SameButStatus(x, y)
    ensures AllCalls(x, path) == AllCalls(y, path)
  {
    if x != [] {
      SameCalls(x[..|x| - 1], y[..|y| - 1], path);
    }
  }

  /** What a write says of a path's first observation, deployment and last call. */
  function Marks(a: Option<PathAggregate>): (Option<nat>, Option<(nat, Option<string>)>, Option<nat>) {
    if a.None? then (None, None, None) else (Some(a.value.first), a.value.deploy, a.value.last)
  }

  lemma {:induction false} SameMarks(x: seq<Event>, y: seq<Event>, path: string)
    requires SameButStatus(x, y)
    ensures Marks(Aggregate(x, path)) == Marks(Aggregate(y, path))
  {
    if x != [] {
      SameMarks(x[..|x| - 1], y[..|y| - 1], path);
    }
  }

  lemma StoredEvents(txs: map<int, seq<Transaction>>, p: Parsed)
    ensures var b := txs[p.height := MergedTransactions(txs, p)];
            && SameButStatus(EventsAt(b, p.height), Events(Inputs(p.transactions)))
            && (forall h :: h != p.height ==> EventsAt(txs, h) == EventsAt(b, h))
  {
    hide Events;
    SameEvents(Inputs(MergedTransactions(txs, p)), Inputs(p.transactions));
  }

  // ----- the counters of the whole catalog -----

  function Incoming(p: Parsed): seq<Event> { Events(Inputs(p.transactions)) }

  /** A write of any height keeps the counters of the catalog equal to the fold over the stored
      blocks if and only if every path's calls count once. */
  lemma CountersExactIff(t: Tables, p: Parsed, chain: string, tip: int, clean: bool)
    requires Valid(t) && CountersExact(t) && Refusal(t, p, chain, clean).None?
    ensures var stored, incoming := t.txs[p.height := MergedTransactions(t.txs, p)], Incoming(p);
            CountersExact(Written(t, p, chain, tip)) <==>
              forall path :: CountsOnce(t.txs, stored, incoming, path, p.height)
  {
    hide Events, MergedCatalog, MergedTransactions, ReplacedCalls, CallIndexExact, CountersAre, CountsOnce,
      EventsAt, DistinctHashes, HashFree;
    AcceptedWrite(t, p, chain, clean);
    var after := Written(t, p, chain, tip);
    forall path
      ensures CountersAre(CountersOf(Find(after.catalog, path)), after.txs, path, Checkpoint(after))
        <==> CountsOnce(t.txs, after.txs, Incoming(p), path, p.height)
    {
      CountersOfWrite(t, p, chain, tip, path);
    }
  }

  lemma CheckpointAfter(t: Tables, p: Parsed, chain: string, tip: int)
    requires Valid(t) && p.height >= 1
    ensures Checkpoint(Written(t, p, chain, tip)) == (if p.height > Checkpoint(t) then p.height else Checkpoint(t))
    ensures forall h :: h in t.txs ==> 1 <= h <= Checkpoint(t)
  {
    hide MergedCatalog, MergedTransactions, ReplacedCalls, CallIndexExact, DistinctHashes;
  }

  lemma CountersOfWrite(t: Tables, p: Parsed, chain: string, tip: int, path: string)
    requires Valid(t) && p.height >= 1
    requires CountersAre(CountersOf(Find(t.catalog, path)), t.txs, path, Checkpoint(t))
    ensures var after := Written(t, p, chain, tip);
            CountersAre(CountersOf(Find(after.catalog, path)), after.txs, path, Checkpoint(after)) <==>
            CountsOnce(t.txs, after.txs, Incoming(p), path, p.height)
  {
    hide Events, MergedCatalog, MergedTransactions, ReplacedCalls, Valid, CountersAre, CountsOnce, EventsAt,
      CountersOf, Counted;
    CheckpointAfter(t, p, chain, tip);
    StoredEvents(t.txs, p);
    var b := Written(t, p, chain, tip).txs;
    SameCalls(EventsAt(b, p.height), Incoming(p), path);
    CountersAfter(t.catalog, p.height, p.block.time, Incoming(p), path);
    CountersOfPath(t.txs, b, Incoming(p), path, p.height, Checkpoint(t), CountersOf(Find(t.catalog, path)));
  }

  // ----- first sight, deployment and last call -----

  function MarksAt(txs: map<int, seq<Transaction>>, path: string, h: int): (Option<nat>,
                   Option<(nat, Option<string>)>, Option<nat>) {
    Marks(Aggregate(EventsAt(txs, h), path))
  }

  predicate SeenAt(txs: map<int, seq<Transaction>>, path: string, h: int) { MarksAt(txs, path, h).0.Some? }
  function DeployAtHeight(txs: map<int, seq<Transaction>>, path: string,
                          h: int): Option<(nat, Option<string>)> { MarksAt(txs, path, h).1 }
  function LastAtHeight(txs: map<int, seq<Transaction>>, path: string, h: int): Option<nat> { MarksAt(txs, path,
                        h).2 }

  /** The least height at which the path was observed. */
  ghost predicate FirstSeenIs(txs: map<int, seq<Transaction>>, path: string, first: Option<int>) {
    && (first.Some? ==> SeenAt(txs, path, first.value))
    && (forall h :: SeenAt(txs, path, h) ==> first.Some? && first.value <= h)
  }

  /** The lexicographically first deployment, with its sender. */
  ghost predicate DeployedIs(txs: map<int, seq<Transaction>>, path: string, deploy: Option<(int, nat)>,
                             deployer: Option<string>) {
    && (deploy.Some? ==> DeployAtHeight(txs, path, deploy.value.0) == Some((deploy.value.1, deployer)))
    && (deploy.None? ==> deployer.None?)
    && (forall h :: DeployAtHeight(txs, path, h).Some? ==> deploy.Some? && deploy.value.0 <= h)
  }

  /** The lexicographically last call, with the time of its block. */
  ghost predicate LastActivityIs(txs: map<int, seq<Transaction>>, blocks: map<int, Block>, path: string,
                                 last: Option<(int, nat)>, at: Option<int>) {
    && (last.Some? ==> LastAtHeight(txs, path, last.value.0) == Some(last.value.1)
                       && last.value.0 in blocks && at == Some(blocks[last.value.0].time))
    && (last.None? ==> at.None?)
    && (forall h :: LastAtHeight(txs, path, h).Some? ==> last.Some? && h <= last.value.0)
  }

  function FirstOf(row: Option<CatalogRow>): Option<int> { if row.Some? then Some(row.value.firstSeen) else None }

  function DeployOf(row: Option<CatalogRow>): Option<(int, nat)> { if row.Some? then row.value.deploy else None }

  function DeployerOf(row: Option<CatalogRow>): Option<string> { if row.Some? then row.value.deployer else None }

  function LastOf(row: Option<CatalogRow>): Option<(int, nat)> { if row.Some? then row.value.last else None }

  function LastAtOf(row: Option<CatalogRow>): Option<int> { if row.Some? then row.value.lastAt else None }

  ghost predicate PositionsAre(row: Option<CatalogRow>, txs: map<int, seq<Transaction>>, blocks: map<int, Block>,
                               path: string) {
    && FirstSeenIs(txs, path, FirstOf(row))
    && DeployedIs(txs, path, DeployOf(row), DeployerOf(row))
    && LastActivityIs(txs, blocks, path, LastOf(row), LastAtOf(row))
  }

  ghost predicate PositionsExact(t: Tables) {
    forall path :: PositionsAre(Find(t.catalog, path), t.txs, t.blocks, path)
  }

  lemma {:induction false} LastIffCalls(events: seq<Event>, path: string)
    ensures var a := Aggregate(events, path); a.Some? ==> (a.value.last.Some? <==> a.value.Calls() > 0)
  {
    if events != [] { LastIffCalls(events[..|events| - 1], path); }
  }

  /** What a height says of a path goes into its row. */
  function RowWith(row: Option<CatalogRow>, height: int, time: int, agg: Option<PathAggregate>): Option<CatalogRow> {
    if agg.Some? then Some(UpsertedRow(row, height, time, agg.value)) else row
  }

  /** The height is new for the path, or says what is already stored of it. */
  ghost predicate MarksKept(a: map<int, seq<Transaction>>, b: map<int, seq<Transaction>>, path: string, height: int,
                            agg: Option<PathAggregate>) {
    && (forall h :: h != height ==> MarksAt(a, path, h) == MarksAt(b, path, h))
    && (MarksAt(a, path, height) == (None, None, None) || MarksAt(a, path, height) == MarksAt(b, path, height))
    && MarksAt(b, path, height) == Marks(agg)
  }

  lemma FirstSeenAfter(row: Option<CatalogRow>, a: map<int, seq<Transaction>>, b: map<int, seq<Transaction>>,
                       path: string,
                       height: int, time: int, agg: Option<PathAggregate>)
    requires FirstSeenIs(a, path, FirstOf(row)) && MarksKept(a, b, path, height, agg)
    ensures var r := RowWith(row, height, time, agg); FirstSeenIs(b, path, FirstOf(r))
  {
    hide MarksAt;
    assert forall h :: h != height ==> SeenAt(a, path, h) == SeenAt(b, path, h);
    assert SeenAt(b, path, height) <==> agg.Some?;
    assert SeenAt(a, path, height) ==> SeenAt(b, path, height);
  }

  lemma DeployedAfter(row: Option<CatalogRow>, a: map<int, seq<Transaction>>, b: map<int, seq<Transaction>>,
                      path: string,
                      height: int, time: int, agg: Option<PathAggregate>)
    requires DeployedIs(a, path, DeployOf(row), DeployerOf(row))
    requires MarksKept(a, b, path, height, agg)
    ensures var r := RowWith(row, height, time, agg); DeployedIs(b, path, DeployOf(r), DeployerOf(r))
  {
    hide MarksAt;
    assert forall h :: h != height ==> DeployAtHeight(a, path, h) == DeployAtHeight(b, path, h);
    assert DeployAtHeight(b, path, height) == Marks(agg).1;
    assert DeployAtHeight(a, path, height).Some? ==> DeployAtHeight(a, path, height) == DeployAtHeight(b, path, height);
  }

  lemma LastActivityAfter(row: Option<CatalogRow>, a: map<int, seq<Transaction>>, b: map<int, seq<Transaction>>,
                          before: map<int, Block>, after: map<int, Block>, path: string,
                          height: int, time: int, agg: Option<PathAggregate>)
    requires LastActivityIs(a, before, path, LastOf(row), LastAtOf(row))
    requires MarksKept(a, b, path, height, agg)
    requires agg.Some? ==> (agg.value.last.Some? <==> agg.value.Calls() > 0)
    requires height in after && after[height].time == time
    requires forall h :: h in before ==> h in after && after[h] == before[h]
    ensures var r := RowWith(row, height, time, agg); LastActivityIs(b, after, path, LastOf(r), LastAtOf(r))
  {
    hide MarksAt;
    assert forall h :: h != height ==> LastAtHeight(a, path, h) == LastAtHeight(b, path, h);
    assert LastAtHeight(b, path, height) == Marks(agg).2;
    assert LastAtHeight(a, path, height).Some? ==> LastAtHeight(a, path, height) == LastAtHeight(b, path, height);
  }

  /** A write that is new at its height, or repeats what is stored there, keeps a path's positions,
      whatever the order of the heights. */
  lemma PositionsOfPath(row: Option<CatalogRow>, a: map<int, seq<Transaction>>, b: map<int, seq<Transaction>>,
                        before: map<int, Block>, after: map<int, Block>, path: string, height: int, time: int,
                        incoming: seq<Event>)
    requires PositionsAre(row, a, before, path) && MarksKept(a, b, path, height, Aggregate(incoming, path))
    requires height in after && after[height].time == time
    requires forall h :: h in before ==> h in after && after[h] == before[h]
    ensures PositionsAre(RowWith(row, height, time, Aggregate(incoming, path)), b, after, path)
  {
    hide Aggregate, MarksKept, FirstSeenIs, DeployedIs, LastActivityIs, RowWith;
    LastIffCalls(incoming, path);
    var agg := Aggregate(incoming, path);
    FirstSeenAfter(row, a, b, path, height, time, agg);
    DeployedAfter(row, a, b, path, height, time, agg);
    LastActivityAfter(row, a, b, before, after, path, height, time, agg);
  }

  // ----- faithful runs -----

  /** The height is stored, with this time, and the write leaves its transactions as they are: it brings
      the same summaries and no new result, but may omit a result. Or the height is not stored, and it is
      not below the first indexed one. */
  ghost predicate Faithful(t: Tables, p: Parsed) {
    if p.height in t.txs then
      && p.height in t.blocks && t.blocks[p.height].time == p.block.time
      && MergedTransactions(t.txs, p) == t.txs[p.height]
    else t.coverage.Some? ==> p.height >= t.coverage.value.0
  }

  /** What a faithful write stores: the same rows again, or the incoming ones at a height above all others. */
  lemma FaithfulStores(t: Tables, p: Parsed, chain: string, clean: bool)
    requires Valid(t) && Faithful(t, p) && Refusal(t, p, chain, clean).None?
    ensures if p.height in t.txs then MergedTransactions(t.txs, p) == t.txs[p.height]
            else MergedTransactions(t.txs, p) == p.transactions && forall h :: h in t.txs ==> h < p.height
  {
    hide CallIndexExact, DistinctHashes, HashFree;
    AcceptedWrite(t, p, chain, clean);
  }

  /** Nothing calls the path at the stored height, so nothing does in the incoming data. */
  lemma UncalledIncoming(t: Tables, p: Parsed, path: string)
    requires p.height in t.txs && MergedTransactions(t.txs, p) == t.txs[p.height]
    requires !CalledAt(t.txs, path, p.height)
    ensures SameCounts(EventsAt(t.txs, p.height), Incoming(p), path)
  {
    hide Events, MergedTransactions, CountCalls;
    StoredEvents(t.txs, p);
    assert t.txs[p.height := MergedTransactions(t.txs, p)] == t.txs;
    SameCalls(EventsAt(t.txs, p.height), Incoming(p), path);
  }

  lemma FaithfulCountsOnce(t: Tables, p: Parsed, chain: string, clean: bool, path: string)
    requires Valid(t) && Faithful(t, p) && Refusal(t, p, chain, clean).None?
    ensures CountsOnce(t.txs, t.txs[p.height := MergedTransactions(t.txs, p)], Incoming(p), path, p.height)
  {
    hide Refusal, Valid, MergedTransactions, Events, CountCalls, Faithful;
    FaithfulStores(t, p, chain, clean);
    if p.height !in t.txs {
      NothingAbove(t.txs, path, p.height);
    } else if !CalledAt(t.txs, path, p.height) {
      UncalledIncoming(t, p, path);
    }
  }

  lemma NothingAbove(txs: map<int, seq<Transaction>>, path: string, height: int)
    requires forall h :: h in txs ==> h < height
    ensures forall h :: h >= height ==> !CalledAt(txs, path, h)
  {
  }

  lemma FaithfulMarksKept(t: Tables, p: Parsed, chain: string, clean: bool, path: string)
    requires Valid(t) && Faithful(t, p) && Refusal(t, p, chain, clean).None?
    ensures MarksKept(t.txs, t.txs[p.height := MergedTransactions(t.txs, p)], path, p.height,
                      Aggregate(Incoming(p), path))
  {
    hide Refusal, Valid, MergedTransactions, Events, Faithful, Aggregate;
    FaithfulStores(t, p, chain, clean);
    StoredEvents(t.txs, p);
    SameMarks(EventsAt(t.txs[p.height := MergedTransactions(t.txs, p)], p.height), Incoming(p), path);
    if p.height in t.txs {
      assert t.txs[p.height := MergedTransactions(t.txs, p)] == t.txs;
    } else {
      NoMarks(t.txs, path, p.height);
    }
  }

  lemma NoMarks(txs: map<int, seq<Transaction>>, path: string, h: int)
    requires h !in txs
    ensures MarksAt(txs, path, h) == (None, None, None)
  {
  }

  lemma FaithfulWriteKeepsExact(t: Tables, p: Parsed, chain: string, tip: int, clean: bool)
    requires Valid(t) && CountersExact(t) && PositionsExact(t) && Faithful(t, p) && Refusal(t, p, chain, clean).None?
    ensures CountersExact(Written(t, p, chain, tip)) && PositionsExact(Written(t, p, chain, tip))
  {
    hide Refusal, Valid, CountersExact, PositionsAre, MergedTransactions, MergedCatalog, Events, Faithful,
      CountsOnce, ReplacedCalls, MarksKept, RowWith;
    var after := Written(t, p, chain, tip);
    forall path ensures CountsOnce(t.txs, after.txs, Incoming(p), path, p.height) {
      FaithfulCountsOnce(t, p, chain, clean, path);
    }
    CountersExactIff(t, p, chain, tip, clean);
    forall path ensures PositionsAre(Find(after.catalog, path), after.txs, after.blocks, path) {
      PositionsOfWrite(t, p, chain, tip, clean, path);
    }
  }

  lemma PositionsOfWrite(t: Tables, p: Parsed, chain: string, tip: int, clean: bool, path: string)
    requires Valid(t) && Faithful(t, p) && Refusal(t, p, chain, clean).None?
    requires PositionsAre(Find(t.catalog, path), t.txs, t.blocks, path)
    ensures var after := Written(t, p, chain, tip);
            PositionsAre(Find(after.catalog, path), after.txs, after.blocks, path)
  {
    hide Refusal, Valid, PositionsAre, MergedTransactions, MergedCatalog, Events, Faithful, ReplacedCalls,
      MarksKept, RowWith, Aggregate;
    var after := Written(t, p, chain, tip);
    FaithfulMarksKept(t, p, chain, clean, path);
    FaithfulTime(t, p);
    RowInCatalog(t.catalog, p.height, p.block.time, Incoming(p), path);
    RowAfterIs(t.catalog, p.height, p.block.time, Incoming(p), path);
    PositionsOfPath(Find(t.catalog, path), t.txs, after.txs, t.blocks, after.blocks, path, p.height, p.block.time,
                    Incoming(p));
  }

  lemma RowAfterIs(catalog: map<string, CatalogRow>, height: int, time: int, events: seq<Event>, path: string)
    ensures RowAfter(catalog, height, time, events, path) ==
      RowWith(Find(catalog, path), height, time, Aggregate(events, path))
  {
  }

  lemma FaithfulTime(t: Tables, p: Parsed)
    requires Valid(t) && Faithful(t, p)
    ensures p.height in t.blocks ==> t.blocks[p.height].time == p.block.time
  {
  }

  /** Every attempt of the run that was accepted was faithful to what was stored then. */
  ghost predicate FaithfulRun(attempts: seq<Attempt>) {
    forall i :: 0 <= i < |attempts| ==>
      var t, a := Run(Empty(), attempts[..i]), attempts[i];
      Refusal(t, a.parsed, a.chain, a.clean).None? ==> Faithful(t, a.parsed)
  }

  lemma EmptyIsExact()
    ensures CountersExact(Empty()) && PositionsExact(Empty())
  {
    forall path ensures CountersAre(Counters(0, 0, 0, 0, None), map[], path, 0) {
    }
  }

  /** From an empty database, after any faithful run, every path's counters are the totals over the
      stored blocks, and its first height, deployment and last call are the first and last stored ones. */
  lemma {:induction false} CatalogIsFold(attempts: seq<Attempt>)
    requires FaithfulRun(attempts)
    ensures CountersExact(Run(Empty(), attempts)) && PositionsExact(Run(Empty(), attempts))
  {
    if attempts == [] {
      EmptyIsExact();
    } else {
      hide CountersExact, PositionsExact, Refusal, Written, Faithful, Valid;
      var n := |attempts| - 1;
      var before, a := attempts[..n], attempts[n];
      assert forall i :: 0 <= i < n ==> before[..i] == attempts[..i];
      CatalogIsFold(before);
      EmptyIsValid();
      RunKeepsValid(Empty(), before);
      if Refusal(Run(Empty(), before), a.parsed, a.chain, a.clean).None? {
        FaithfulWriteKeepsExact(Run(Empty(), before), a.parsed, a.chain, a.tip, a.clean);
      }
    }
  }

  // ----- a late call is lost -----

  const DEMO := "gno.land/r/demo"

  function DemoMessage(): Json {
    Object(map["type" := Text("gno.vm.MsgCall"), "package_path" := Text(DEMO), "package_path_complete" := Bool(true)])
  }

  /** A summary with all the fields that normalization leaves. */
  function Summary(family: string, status: string, count: Json, primary: Json, messages: seq<Json>): Json {
    Object(map[
      "schema_version" := Int(1), "chain_family" := Text(family), "parse_status" := Text(status),
      "message_count" := count, "messages_truncated" := Bool(false), "primary" := primary,
      "messages" := List(messages)])
  }

  function Primary(kind: string, category: string, action: string, name: string): Json {
    Object(map["type" := Text(kind), "category" := Text(category), "action" := Text(action), "label" := Text(name)])
  }

  /** The fallback for a transaction that no adapter could read. */
  function GenericSummary(): Json {
    Summary("unknown", "unparsed", Null, Primary("unknown", "unknown", "unknown", "Transaction"), [])
  }

  function CallSummary(): Json {
    Summary("gno", "parsed", Int(1), Primary("gno.vm.MsgCall", "vm", "call", "Contract Call"), [DemoMessage()])
  }

  /** The SHA-256 digest of "abc", which is the transaction below. */
  const DIGEST := "BA7816BF8F01CFEA414140DE5DAE2223B00361A396177A9CB410FF61F20015AD"

  /** A transaction with one call of the demo realm, and no result. */
  function CallTransaction(): Transaction {
    Transaction(Raw("YWJj", 4, Some(3), "decoded", Some(DIGEST)), CallSummary(), None)
  }

  /** The same transaction when it could not be read. */
  function UnreadTransaction(): Transaction { CallTransaction().(summary := GenericSummary()) }

  const FIRST_BASE64 := "AAAAAAAAAAAAAAAAAAAAAAAAAAAAAAAAAAAAAAAAAAA="
  const FIRST_HEX := "0000000000000000000000000000000000000000000000000000000000000000"
  const SECOND_BASE64 := "ERERERERERERERERERERERERERERERERERERERERERE="
  const SECOND_HEX := "1111111111111111111111111111111111111111111111111111111111111111"

  function FirstBlock(): Parsed { Parsed(1, Block(FIRST_BASE64, FIRST_HEX, "", 0), [CallTransaction()]) }

  function SecondBlock(): Parsed { Parsed(2, Block(SECOND_BASE64, SECOND_HEX, FIRST_HEX, 5), [CallTransaction()]) }

  lemma DistinctDemoHashes()
    ensures FIRST_HEX != SECOND_HEX && FIRST_BASE64 != SECOND_BASE64
  {
    assert FIRST_HEX[63] == '0' && SECOND_HEX[63] == '1';
    assert FIRST_BASE64[0] == 'A' && SECOND_BASE64[0] == 'E';
  }

  lemma DemoIsRealm()
    ensures PathKind(Text(DEMO)) == Some(Realm)
  {
    assert DEMO[..11] == "gno.land/r/" && DEMO[11..] == "demo";
  }

  lemma DemoMessageFields()
    ensures DemoMessage().Object? && Get(DemoMessage(), "type") == Text("gno.vm.MsgCall")
    ensures Get(DemoMessage(), "package_path") == Text(DEMO)
    ensures Get(DemoMessage(), "package_path_complete") == Bool(true) && Get(DemoMessage(), "sender") == Null
  {
  }

  lemma DemoObserved()
    ensures ObservationAt(0, DemoMessage()) == Some(Observation(DEMO, Realm, 0, Call, None))
  {
    hide PathKind, DemoMessage, Get;
    DemoMessageFields();
    DemoIsRealm();
  }

  lemma OneObservation()
    ensures Observations(MessagesOf(CallTransaction().summary)) == [Observation(DEMO, Realm, 0, Call, None)]
  {
    hide ObservationAt, DemoMessage, DIGEST;
    DemoObserved();
    var messages := MessagesOf(CallTransaction().summary);
    assert messages == [DemoMessage()] && messages[..0] == [];
  }

  lemma OneCall(p: Parsed)
    requires p.transactions == [CallTransaction()]
    ensures CountCalls(Incoming(p), DEMO, UnknownResult) == 1
  {
    hide Observations, MessagesOf, CallTransaction;
    OneObservation();
    var input := CatalogInput(0, CallTransaction().summary, None);
    CallHasNoResult();
    assert Inputs(p.transactions) == [input];
    assert EventsOf(input) == [Event(0, None, Observation(DEMO, Realm, 0, Call, None))];
    assert Events([input]) == Events([]) + EventsOf(input);
    assert Incoming(p)[..0] == [];
  }

  lemma CallHasNoResult()
    ensures CallTransaction().result.None?
  {
  }

  /** Height 2, then height 1, with one call each. */
  function LateCalls(): seq<Attempt> {
    [Attempt(SecondBlock(), "gno-demo", 2, true), Attempt(FirstBlock(), "gno-demo", 2, true)]
  }

  /** A run of two attempts, the first of them on an empty database. */
  lemma RunOfTwo(first: Attempt, second: Attempt)
    requires Refusal(Empty(), first.parsed, first.chain, first.clean).None?
    requires var t := Written(Empty(), first.parsed, first.chain, first.tip);
             Refusal(t, second.parsed, second.chain, second.clean).None?
    ensures Run(Empty(), [first, second])
         == Written(Written(Empty(), first.parsed, first.chain, first.tip), second.parsed, second.chain, second.tip)
  {
    hide Refusal, Written;
    assert [first, second][..1] == [first] && [first][..0] == [];
    assert Run(Empty(), [first]) == Written(Empty(), first.parsed, first.chain, first.tip);
  }

  /** The first write leaves exact counters. */
  lemma ExactAfterFirst(a: Attempt)
    requires Refusal(Empty(), a.parsed, a.chain, a.clean).None?
    ensures var t := Written(Empty(), a.parsed, a.chain, a.tip); Valid(t) && CountersExact(t)
  {
    EmptyIsValid();
    EmptyIsExact();
    assert Faithful(Empty(), a.parsed);
    hide Refusal, Written, Valid, CountersExact, PositionsExact, Faithful;
    WriteKeepsValid(Empty(), a.parsed, a.chain, a.tip, a.clean);
    FaithfulWriteKeepsExact(Empty(), a.parsed, a.chain, a.tip, a.clean);
  }

  /** A height below the first one is accepted, but its calls are not counted: writing height 2 and
      then height 1, with one call each, leaves a catalog that is not the fold over the two blocks. */
  lemma LateCallIsLost()
    ensures var t := Run(Empty(), LateCalls());
            1 in t.txs && 2 in t.txs && !CountersExact(t)
  {
    hide CallTransaction, MergedCatalog, ReplacedCalls, CountersExact, Incoming, CountCalls, Valid;
    hide FIRST_BASE64, FIRST_HEX, SECOND_BASE64, SECOND_HEX, Run;
    DistinctDemoHashes();
    var second, first := LateCalls()[0], LateCalls()[1];
    var t := Written(Empty(), second.parsed, second.chain, second.tip);
    ExactAfterFirst(second);
    RunOfTwo(second, first);
    CountersExactIff(t, first.parsed, first.chain, first.tip, first.clean);
    LateCallsDoNotCount(t.txs, t.txs[1 := MergedTransactions(t.txs, first.parsed)], Incoming(first.parsed));
  }

  lemma LateCallsDoNotCount(a: map<int, seq<Transaction>>, b: map<int, seq<Transaction>>, incoming: seq<Event>)
    requires 1 !in a && 2 in a && a[2] == [CallTransaction()] && 1 in b && b[1] == [CallTransaction()]
    ensures !CountsOnce(a, b, incoming, DEMO, 1)
  {
    hide CallTransaction, Events;
    OneCall(SecondBlock());
    OneCall(FirstBlock());
    assert CalledAt(a, DEMO, 2);
  }

  // ----- a height that is stored again -----

  /** Height 1 with one call, and once more when its transaction could not be read. */
  function UnreadableAgain(): seq<Attempt> {
    [Attempt(FirstBlock(), "gno-demo", 1, true), Attempt(UnreadBlock(), "gno-demo", 1, true)]
  }

  function UnreadBlock(): Parsed { FirstBlock().(transactions := [UnreadTransaction()]) }

  lemma NothingRead(p: Parsed)
    requires p.transactions == [UnreadTransaction()]
    ensures Incoming(p) == []
  {
    hide DIGEST;
    var input := CatalogInput(0, GenericSummary(), None);
    assert Inputs(p.transactions) == [input];
    assert MessagesOf(GenericSummary()) == [] && EventsOf(input) == [];
    assert Events([input]) == Events([]) + EventsOf(input);
  }

  lemma UnreadKeepsTheRest()
    ensures UnreadTransaction().raw == CallTransaction().raw
    ensures UnreadTransaction().result.None? && CallTransaction().result.None?
  {
  }

  /** A height that is stored again with an unreadable transaction is accepted, but the catalog still
      counts the call that no stored summary shows any more. */
  lemma RereadCallStays()
    ensures var t := Run(Empty(), UnreadableAgain());
            1 in t.txs && t.txs[1] == [UnreadTransaction()] && !CountersExact(t)
  {
    hide CallTransaction, UnreadTransaction, MergedCatalog, ReplacedCalls, CountersExact, Incoming, CountCalls, Valid;
    hide FIRST_BASE64, FIRST_HEX, Run;
    UnreadKeepsTheRest();
    var first, again := UnreadableAgain()[0], UnreadableAgain()[1];
    var t := Written(Empty(), first.parsed, first.chain, first.tip);
    ExactAfterFirst(first);
    RunOfTwo(first, again);
    CountersExactIff(t, again.parsed, again.chain, again.tip, again.clean);
    MergedUnread(t.txs);
    UnreadDoesNotCount(t.txs, t.txs[1 := MergedTransactions(t.txs, again.parsed)], Incoming(again.parsed));
  }

  lemma MergedUnread(txs: map<int, seq<Transaction>>)
    requires 1 in txs && txs[1] == [CallTransaction()]
    ensures MergedTransactions(txs, UnreadBlock()) == [UnreadTransaction()]
  {
    hide CallTransaction, GenericSummary;
    UnreadKeepsTheRest();
    assert MergedTransactions(txs, UnreadBlock())[0] == UnreadTransaction();
  }

  lemma UnreadDoesNotCount(a: map<int, seq<Transaction>>, b: map<int, seq<Transaction>>, incoming: seq<Event>)
    requires 1 in a && a[1] == [CallTransaction()] && 1 in b && b[1] == [UnreadTransaction()]
    ensures !CountsOnce(a, b, incoming, DEMO, 1)
  {
    hide CallTransaction, UnreadTransaction, Events;
    OneCall(FirstBlock());
    NothingRead(UnreadBlock());
    assert CalledAt(a, DEMO, 1);
  }
}
