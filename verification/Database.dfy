/** The writer itself, statement by statement, against `HeightWriter.Write`. */
module Database {
  import opened Wrappers
  import opened RealmCatalog
  import opened HeightWriter

  // ----- single statements -----

  /** `_verify_transaction_conflicts` and `_verify_execution_result_conflicts`. */
  method TransactionsAgree(stored: seq<Transaction>, incoming: seq<Transaction>) returns (ok: bool)
    requires |stored| == |incoming|
    ensures ok <==> forall i :: 0 <= i < |incoming| ==> SameStored(stored[i], incoming[i])
  {
    for i := 0 to |incoming|
      invariant forall j :: 0 <= j < i ==> SameStored(stored[j], incoming[j])
    {
      if !SameStored(stored[i], incoming[i]) {
        return false;
      }
    }
    return true;
  }

  /** `_verify_finalized_conflicts`. */
  method VerifyConflicts(blocks: map<int, Block>, txs: map<int, seq<Transaction>>, p: Parsed, clean: bool)
    returns (ok: bool)
    ensures ok <==> Agreeing(blocks, txs, p, clean)
  {
    ok := clean;
    if p.height in blocks
       && (blocks[p.height].hashBase64 != p.block.hashBase64 || blocks[p.height].hashHex != p.block.hashHex) {
      ok := false;
    }
    if ok && p.height in txs {
      if |txs[p.height]| != |p.transactions| {
        return false;
      }
      ok := TransactionsAgree(txs[p.height], p.transactions);
    }
  }

  /** `_upsert_transactions` for one height. */
  method UpsertTransactions(txs: map<int, seq<Transaction>>, p: Parsed) returns (out: map<int, seq<Transaction>>)
    requires p.height in txs ==> |txs[p.height]| == |p.transactions|
    ensures out == txs[p.height := MergedTransactions(txs, p)]
  {
    var rows: seq<Transaction> := [];
    for i := 0 to |p.transactions|
      invariant rows == MergedTransactions(txs, p)[..i]
    {
      var incoming := p.transactions[i];
      var row := incoming;
      if p.height in txs {
        row := txs[p.height][i].(summary := incoming.summary);
        if row.result.None? {
          row := row.(result := incoming.result);
        }
      }
      rows := rows + [row];
    }
    assert MergedTransactions(txs, p)[..|p.transactions|] == MergedTransactions(txs, p);
    out := txs[p.height := rows];
  }

  /** The rows of the paths in `done` have been upserted. */
  ghost predicate Upserted(out: map<string, CatalogRow>, catalog: map<string, CatalogRow>, height: int, time: int,
                           events: seq<Event>, todo: set<string>) {
    forall path ::
      Find(out, path) == if path in todo then Find(catalog, path) else RowAfter(catalog, height, time, events, path)
  }

  lemma UpsertedAll(out: map<string, CatalogRow>, catalog: map<string, CatalogRow>, height: int, time: int,
                    events: seq<Event>)
    requires Upserted(out, catalog, height, time, events, {})
    ensures out == MergedCatalog(catalog, height, time, events)
  {
    hide MergedCatalog;
    forall path ensures Find(out, path) == Find(MergedCatalog(catalog, height, time, events), path) {
      RowInCatalog(catalog, height, time, events, path);
    }
    SameMaps(out, MergedCatalog(catalog, height, time, events));
  }

  lemma RowInCatalog(catalog: map<string, CatalogRow>, height: int, time: int, events: seq<Event>, path: string)
    ensures Find(MergedCatalog(catalog, height, time, events), path) == RowAfter(catalog, height, time, events, path)
  {
    FirstMeans(events, path);
    if Aggregate(events, path).Some? {
      var i :| 0 <= i < |events| && events[i].observation.path == path;
      assert path in Paths(events);
    }
  }

  lemma UpsertedOne(out: map<string, CatalogRow>, catalog: map<string, CatalogRow>, height: int, time: int,
                    events: seq<Event>, todo: set<string>, path: string, a: PathAggregate)
    requires Upserted(out, catalog, height, time, events, todo) && path in todo && Aggregate(events, path) == Some(a)
    ensures Upserted(out[path := UpsertedRow(Find(out, path), height, time, a)], catalog, height, time, events,
                     todo - {path})
  {
  }

  lemma UpsertedNone(catalog: map<string, CatalogRow>, height: int, time: int, events: seq<Event>,
                     aggregates: map<string, PathAggregate>)
    requires Aggregated(aggregates, events)
    ensures Upserted(catalog, catalog, height, time, events, aggregates.Keys)
  {
  }

  /** `_upsert_realm_catalog`: at most one row for each touched path. */
  method UpsertCatalog(catalog: map<string, CatalogRow>, height: int, time: int, txs: seq<Transaction>)
    returns (out: map<string, CatalogRow>)
    ensures out == MergedCatalog(catalog, height, time, Events(Inputs(txs)))
  {
    hide Upserted, UpsertedRow, Events;
    var inputs := Inputs(txs);
    var aggregates := AggregateBlock(inputs);
    out := catalog;
    var todo := aggregates.Keys;
    UpsertedNone(catalog, height, time, Events(inputs), aggregates);
    while todo != {}
      invariant todo <= aggregates.Keys
      invariant Upserted(out, catalog, height, time, Events(inputs), todo)
      decreases |todo|
    {
      var path :| path in todo;
      UpsertedOne(out, catalog, height, time, Events(inputs), todo, path, aggregates[path]);
      out := out[path := UpsertedRow(Find(out, path), height, time, aggregates[path])];
      todo := todo - {path};
    }
    UpsertedAll(out, catalog, height, time, Events(inputs));
  }

  // ----- the database -----

  class PostgresDatabase {
    var state: Option<State>
    var blocks: map<int, Block>
    var txs: map<int, seq<Transaction>>
    var calls: map<CallId, RealmCall>
    var catalog: map<string, CatalogRow>
    var coverage: Option<(int, int)>

    constructor ()
      ensures View() == Empty()
    {
      state, blocks, txs, calls, catalog, coverage := None, map[], map[], map[], map[], None;
    }

    ghost function View(): Tables
      reads this
    {
      Tables(state, blocks, txs, calls, catalog, coverage)
    }

    /** `write_height_cursor` and its commit; an exception leaves every table as it was. */
    method WriteHeight(p: Parsed, chain: string, tip: int, clean: bool) returns (error: Option<Error>)
      modifies this
      ensures (View(), error) == Write(old(View()), p, chain, tip, clean)
    {
      hide ReplacedCalls, MergedCatalog, MergedTransactions, HashFree, Events, Inputs;
      if state.Some? && state.value.chain != chain {
        return Some(ChainIdentity);
      }
      if state.Some? && p.height > state.value.checkpoint + 1 {
        return Some(SkippedHeight);
      }
      var ok := VerifyConflicts(blocks, txs, p, clean);
      if !ok {
        return Some(FinalizedConflict);
      }
      var newBlocks := blocks;
      if p.height !in blocks {
        if !HashFree(blocks, p) {
          return Some(DuplicateHash);
        }
        newBlocks := blocks[p.height := p.block];
      }
      var newTxs := UpsertTransactions(txs, p);
      var newCalls := ReplaceRealmCalls(calls, p.height, p.transactions);
      var newCatalog := UpsertCatalog(catalog, p.height, p.block.time, p.transactions);
      if p.height < 1 {
        return Some(InvalidHeight);
      }
      var newCoverage := coverage;
      if coverage.None? {
        if state.None? {
          newCoverage := Some((p.height, p.height));
        }
      } else if p.height > coverage.value.1 {
        if p.height != coverage.value.1 + 1 {
          return Some(CoverageGap);
        }
        newCoverage := Some((coverage.value.0, p.height));
      }
      blocks, txs, calls, catalog, coverage := newBlocks, newTxs, newCalls, newCatalog, newCoverage;
      if state.None? || p.height > state.value.checkpoint {
        state := Some(State(chain, p.height, tip));
      }
      return None;
    }
  }
}
