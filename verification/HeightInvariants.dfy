/** What every run of height writes keeps: contiguous coverage, and a call index that is exactly
    what the stored summaries say. */
module HeightInvariants {
  import opened Wrappers
  import opened RealmCatalog
  import opened HeightWriter
  import opened Database

  /** One attempt to write a height. */
  datatype Attempt = Attempt(parsed: Parsed, chain: string, tip: int, clean: bool)

  function Run(t: Tables, attempts: seq<Attempt>): Tables {
    if attempts == [] then t
    else
      var a := attempts[|attempts| - 1];
      Write(Run(t, attempts[..|attempts| - 1]), a.parsed, a.chain, a.tip, a.clean).0
  }

  // ----- the invariant -----

  /** Coverage is the range from the first height written to the checkpoint, and every height of it
      is stored; a height below the first may be stored too, but is not covered. */
  ghost predicate Covered(state: Option<State>, coverage: Option<(int, int)>, heights: set<int>) {
    if state.None? then coverage.None? && heights == {}
    else
      && coverage.Some? && coverage.value.1 == state.value.checkpoint
      && 1 <= coverage.value.0 <= coverage.value.1
      && (forall h :: coverage.value.0 <= h <= coverage.value.1 ==> h in heights)
      && (forall h :: h in heights ==> 1 <= h <= coverage.value.1)
  }

  /** The call index holds, for every stored message, exactly the call that is located there. */
  ghost predicate CallIndexExact(calls: map<CallId, RealmCall>, txs: map<int, seq<Transaction>>) {
    forall k: CallId :: Find(calls, k) == if k.0 in txs then CallAt(txs[k.0], k.1, k.2) else None
  }

  ghost predicate DistinctHashes(blocks: map<int, Block>) {
    forall g, h :: g in blocks && h in blocks && g != h ==>
      blocks[g].hashHex != blocks[h].hashHex && blocks[g].hashBase64 != blocks[h].hashBase64
  }

  ghost predicate Valid(t: Tables) {
    && t.txs.Keys == t.blocks.Keys
    && Covered(t.state, t.coverage, t.blocks.Keys)
    && CallIndexExact(t.calls, t.txs)
    && DistinctHashes(t.blocks)
  }

  lemma EmptyIsValid()
    ensures Valid(Empty())
  {
  }

  // ----- one write -----

  lemma CoveredAfter(state: Option<State>, coverage: Option<(int, int)>, heights: set<int>, height: int,
                     chain: string, tip: int)
    requires Covered(state, coverage, heights)
    requires height >= 1 && (state.Some? ==> height <= state.value.checkpoint + 1)
    ensures Covered(Some(StateAfter(state, height, chain, tip)), CoverageAfter(coverage, state.None?, height),
                    heights + {height})
  {
  }

  lemma CallAtMerged(txs: map<int, seq<Transaction>>, p: Parsed, i: nat, m: nat)
    ensures CallAt(MergedTransactions(txs, p), i, m) == CallAt(p.transactions, i, m)
  {
  }

  lemma CallIndexAfter(calls: map<CallId, RealmCall>, txs: map<int, seq<Transaction>>, p: Parsed)
    requires CallIndexExact(calls, txs)
    ensures CallIndexExact(ReplacedCalls(calls, p.height, p.transactions), txs[p.height := MergedTransactions(txs, p)])
  {
    hide ReplacedCalls, CallAt, MergedTransactions;
    var after := txs[p.height := MergedTransactions(txs, p)];
    forall k: CallId
      ensures Find(ReplacedCalls(calls, p.height, p.transactions), k)
           == if k.0 in after then CallAt(after[k.0], k.1, k.2) else None
    {
      ReplacedAt(calls, p.height, p.transactions, k);
      CallAtMerged(txs, p, k.1, k.2);
    }
  }

  lemma AcceptedWrite(t: Tables, p: Parsed, chain: string, clean: bool)
    requires Refusal(t, p, chain, clean).None?
    ensures p.height >= 1 && (t.state.Some? ==> p.height <= t.state.value.checkpoint + 1)
    ensures Agreeing(t.blocks, t.txs, p, clean) && (p.height !in t.blocks ==> HashFree(t.blocks, p))
    ensures t.state.Some? ==> t.state.value.chain == chain
  {
  }

  lemma HashesAfter(blocks: map<int, Block>, p: Parsed)
    requires DistinctHashes(blocks) && (p.height !in blocks ==> HashFree(blocks, p))
    ensures DistinctHashes(if p.height in blocks then blocks else blocks[p.height := p.block])
  {
  }

  lemma WriteKeepsValid(t: Tables, p: Parsed, chain: string, tip: int, clean: bool)
    requires Valid(t)
    ensures Valid(Write(t, p, chain, tip, clean).0)
  {
    if Refusal(t, p, chain, clean).None? {
      hide Refusal, Covered, CallIndexExact, ReplacedCalls, MergedCatalog, MergedTransactions, CoverageAfter,
        StateAfter, DistinctHashes, HashFree;
      AcceptedWrite(t, p, chain, clean);
      CoveredAfter(t.state, t.coverage, t.blocks.Keys, p.height, chain, tip);
      CallIndexAfter(t.calls, t.txs, p);
      HashesAfter(t.blocks, p);
      assert Written(t, p, chain, tip).blocks.Keys == t.blocks.Keys + {p.height};
    }
  }

  // ----- all runs -----

  lemma {:induction false} RunKeepsValid(t: Tables, attempts: seq<Attempt>)
    requires Valid(t)
    ensures Valid(Run(t, attempts))
  {
    if attempts != [] {
      var n := |attempts| - 1;
      RunKeepsValid(t, attempts[..n]);
      var a := attempts[n];
      WriteKeepsValid(Run(t, attempts[..n]), a.parsed, a.chain, a.tip, a.clean);
    }
  }

  /** From an empty database, after any attempts, a stored message has an index row exactly when it
      is a well-formed realm call of its stored summary, and then that row; no other rows exist. */
  lemma {:induction false} CallIndexFollowsSummaries(attempts: seq<Attempt>, height: int, i: nat, m: nat)
    ensures var t := Run(Empty(), attempts);
            Find(t.calls, (height, i, m)) == if height in t.txs then CallAt(t.txs[height], i, m) else None
  {
    EmptyIsValid();
    RunKeepsValid(Empty(), attempts);
    var k: CallId := (height, i, m);
    assert Find(Run(Empty(), attempts).calls, k)
        == if k.0 in Run(Empty(), attempts).txs then CallAt(Run(Empty(), attempts).txs[k.0], k.1, k.2) else None;
  }

  // ----- where coverage starts -----

  /** The height of the first attempt that is accepted; until then the database is empty. */
  function FirstWritten(attempts: seq<Attempt>): Option<int> {
    if attempts == [] then None
    else if Refusal(Empty(), attempts[0].parsed, attempts[0].chain, attempts[0].clean).None?
    then Some(attempts[0].parsed.height)
    else FirstWritten(attempts[1..])
  }

  lemma {:induction false} FirstWrittenSoFar(attempts: seq<Attempt>, a: Attempt)
    ensures FirstWritten(attempts + [a]) == if FirstWritten(attempts).Some? then FirstWritten(attempts)
                                            else if Refusal(Empty(), a.parsed, a.chain, a.clean).None?
                                            then Some(a.parsed.height) else None
  {
    hide Refusal;
    if attempts != [] {
      assert (attempts + [a])[1..] == attempts[1..] + [a];
      FirstWrittenSoFar(attempts[1..], a);
    }
  }

  /** The start of the coverage never moves; only the first write sets it. */
  lemma WriteKeepsStart(t: Tables, p: Parsed, chain: string, tip: int, clean: bool)
    ensures var after := Write(t, p, chain, tip, clean).0;
            && (t.coverage.Some? ==> after.coverage.Some? && after.coverage.value.0 == t.coverage.value.0)
            && (t == Empty() && after != t ==> after.coverage == Some((p.height, p.height)))
  {
    hide Refusal, ReplacedCalls, MergedCatalog, MergedTransactions;
  }

  /** From any database whose coverage is set, it starts at the same height in all later states. */
  lemma {:induction false} StartNeverMoves(t: Tables, attempts: seq<Attempt>, i: nat)
    requires i <= |attempts| && Run(t, attempts[..i]).coverage.Some?
    ensures Run(t, attempts).coverage.Some?
    ensures Run(t, attempts).coverage.value.0 == Run(t, attempts[..i]).coverage.value.0
  {
    if i == |attempts| {
      assert attempts[..i] == attempts;
    } else {
      hide Write;
      var n := |attempts| - 1;
      var a := attempts[n];
      assert attempts[..n][..i] == attempts[..i];
      StartNeverMoves(t, attempts[..n], i);
      WriteKeepsStart(Run(t, attempts[..n]), a.parsed, a.chain, a.tip, a.clean);
    }
  }

  lemma {:induction false} CoverageStartsAtFirst(attempts: seq<Attempt>)
    ensures var t := Run(Empty(), attempts);
            if FirstWritten(attempts).None? then t == Empty()
            else t.coverage.Some? && Some(t.coverage.value.0) == FirstWritten(attempts)
  {
    if attempts != [] {
      var n := |attempts| - 1;
      var before, a := attempts[..n], attempts[n];
      CoverageStartsAtFirst(before);
      assert attempts == before + [a];
      FirstWrittenSoFar(before, a);
      hide Refusal, Written, FirstWritten;
      WriteKeepsStart(Run(Empty(), before), a.parsed, a.chain, a.tip, a.clean);
      if FirstWritten(before).None? { FirstWriteChanges(a); }
    }
  }

  lemma FirstWriteChanges(a: Attempt)
    ensures Written(Empty(), a.parsed, a.chain, a.tip) != Empty()
  {
    assert Written(Empty(), a.parsed, a.chain, a.tip).state.Some?;
  }

  /** From an empty database, coverage is always from the height of the first accepted attempt to the
      checkpoint and every height in between is stored; a stored height outside of it is below the first. */
  lemma {:induction false} CoverageIsContiguous(attempts: seq<Attempt>)
    ensures var t, first := Run(Empty(), attempts), FirstWritten(attempts);
            && t.state.Some? == t.coverage.Some? == first.Some?
            && (first.None? ==> t == Empty())
            && (first.Some? ==>
                  && t.coverage.value == (first.value, t.state.value.checkpoint)
                  && (forall h :: first.value <= h <= t.state.value.checkpoint ==> h in t.blocks && h in t.txs)
                  && (forall h :: h in t.blocks && !(first.value <= h <= t.state.value.checkpoint) ==> h < first.value))
  {
    EmptyIsValid();
    RunKeepsValid(Empty(), attempts);
    CoverageStartsAtFirst(attempts);
  }

  // ----- catalog kinds -----

  /** Every catalog row is of a canonical path and has its kind. */
  ghost predicate KindsExact(catalog: map<string, CatalogRow>) {
    forall path :: path in catalog ==> PathKind(Text(path)) == Some(catalog[path].kind)
  }

  lemma KindsAfter(catalog: map<string, CatalogRow>, height: int, time: int, txs: seq<Transaction>)
    requires KindsExact(catalog)
    ensures KindsExact(MergedCatalog(catalog, height, time, Events(Inputs(txs))))
  {
    hide MergedCatalog, Events, Aggregate, PathKind;
    var events := Events(Inputs(txs));
    var after := MergedCatalog(catalog, height, time, events);
    EventKinds(Inputs(txs));
    forall path | path in after ensures PathKind(Text(path)) == Some(after[path].kind) {
      RowInCatalog(catalog, height, time, events, path);
      AggregateKind(events, path);
    }
  }

  /** After any attempts the catalog holds canonical paths only, each with its kind. */
  lemma {:induction false} CatalogKindsFollowPaths(attempts: seq<Attempt>)
    ensures KindsExact(Run(Empty(), attempts).catalog)
  {
    if attempts != [] {
      hide KindsExact, MergedCatalog, ReplacedCalls, MergedTransactions, Refusal;
      var n := |attempts| - 1;
      var a := attempts[n];
      CatalogKindsFollowPaths(attempts[..n]);
      KindsAfter(Run(Empty(), attempts[..n]).catalog, a.parsed.height, a.parsed.block.time, a.parsed.transactions);
    }
  }

  // ----- between two states of a run -----

  /** What is finalized stays: blocks never change, the raw columns and stored results of
      transactions never change, and the checkpoint never goes back. */
  ghost predicate Extends(a: Tables, b: Tables) {
    && (a.state.Some? ==> b.state.Some? && b.state.value.chain == a.state.value.chain
                          && a.state.value.checkpoint <= b.state.value.checkpoint)
    && (forall h :: h in a.blocks ==> h in b.blocks && b.blocks[h] == a.blocks[h])
    && (forall h :: h in a.txs ==> h in b.txs && SameFinalized(a.txs[h], b.txs[h]))
  }

  ghost predicate SameFinalized(a: seq<Transaction>, b: seq<Transaction>) {
    |a| == |b| && forall i :: 0 <= i < |a| ==>
      a[i].raw == b[i].raw && (a[i].result.Some? ==> b[i].result == a[i].result)
  }

  lemma WriteExtends(t: Tables, p: Parsed, chain: string, tip: int, clean: bool)
    ensures Extends(t, Write(t, p, chain, tip, clean).0)
  {
    if Refusal(t, p, chain, clean).None? {
      hide Refusal, ReplacedCalls, MergedCatalog, CoverageAfter, HashFree;
      AcceptedWrite(t, p, chain, clean);
    }
  }

  lemma ExtendsTransitive(a: Tables, b: Tables, c: Tables)
    requires Extends(a, b) && Extends(b, c)
    ensures Extends(a, c)
  {
  }

  lemma {:induction false} RunExtends(t: Tables, attempts: seq<Attempt>, i: nat)
    requires i <= |attempts|
    ensures Extends(Run(t, attempts[..i]), Run(t, attempts))
  {
    if i == |attempts| {
      assert attempts[..i] == attempts;
    } else {
      hide Extends;
      var n := |attempts| - 1;
      var a := attempts[n];
      assert attempts[..n][..i] == attempts[..i];
      RunExtends(t, attempts[..n], i);
      WriteExtends(Run(t, attempts[..n]), a.parsed, a.chain, a.tip, a.clean);
      ExtendsTransitive(Run(t, attempts[..i]), Run(t, attempts[..n]), Run(t, attempts));
    }
  }

  // ----- repeating a write -----

  lemma UpsertTwice(row: Option<CatalogRow>, height: int, time: int, a: PathAggregate)
    requires height >= 1
    ensures UpsertedRow(Some(UpsertedRow(row, height, time, a)), height, time, a) == UpsertedRow(row, height, time, a)
  {
  }

  lemma CatalogTwice(catalog: map<string, CatalogRow>, height: int, time: int, events: seq<Event>)
    requires height >= 1
    ensures MergedCatalog(MergedCatalog(catalog, height, time, events), height, time, events)
         == MergedCatalog(catalog, height, time, events)
  {
    hide MergedCatalog, UpsertedRow;
    var once := MergedCatalog(catalog, height, time, events);
    var twice := MergedCatalog(once, height, time, events);
    forall path ensures Find(twice, path) == Find(once, path) {
      RowInCatalog(catalog, height, time, events, path);
      RowInCatalog(once, height, time, events, path);
      var a := Aggregate(events, path);
      if a.Some? { UpsertTwice(Find(catalog, path), height, time, a.value); }
    }
    SameMaps(once, twice);
  }

  lemma CallsTwice(calls: map<CallId, RealmCall>, height: int, txs: seq<Transaction>)
    ensures ReplacedCalls(ReplacedCalls(calls, height, txs), height, txs) == ReplacedCalls(calls, height, txs)
  {
    hide ReplacedCalls, CallAt;
    var once := ReplacedCalls(calls, height, txs);
    forall k: CallId ensures Find(ReplacedCalls(once, height, txs), k) == Find(once, k) {
      ReplacedAt(calls, height, txs, k);
      ReplacedAt(once, height, txs, k);
    }
    SameMaps(ReplacedCalls(once, height, txs), once);
  }

  lemma TransactionsTwice(txs: map<int, seq<Transaction>>, p: Parsed)
    requires p.height in txs ==>
      && |txs[p.height]| == |p.transactions|
      && forall i :: 0 <= i < |p.transactions| ==> SameStored(txs[p.height][i], p.transactions[i])
    ensures var once := txs[p.height := MergedTransactions(txs, p)];
            && MergedTransactions(once, p) == once[p.height]
            && forall i :: 0 <= i < |p.transactions| ==> SameStored(once[p.height][i], p.transactions[i])
  {
  }

  /** Writing the same height twice, as a restart after a lost acknowledgement does, changes nothing. */
  lemma RepeatedWriteUnchanged(t: Tables, p: Parsed, chain: string, tip: int, clean: bool)
    requires Write(t, p, chain, tip, clean).1.None?
    ensures var (once, _) := Write(t, p, chain, tip, clean);
            Write(once, p, chain, tip, clean) == (once, None)
  {
    hide ReplacedCalls, MergedCatalog, MergedTransactions, Events, Inputs;
    var once := Written(t, p, chain, tip);
    AcceptedWrite(t, p, chain, clean);
    TransactionsTwice(t.txs, p);
    CallsTwice(t.calls, p.height, p.transactions);
    CatalogTwice(t.catalog, p.height, p.block.time, Events(Inputs(p.transactions)));
    hide HashFree;
    assert once.txs[p.height := MergedTransactions(once.txs, p)] == once.txs;
    assert Agreeing(once.blocks, once.txs, p, clean);
  }
}
