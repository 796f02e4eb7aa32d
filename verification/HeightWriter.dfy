/** `write_height_cursor`: one finalized height and everything derived from it in one transaction. */
module HeightWriter {
  import opened Wrappers
  import opened RealmCatalog

  // ----- rows -----

  /** The columns of a transaction that never change once it is stored. */
  datatype Raw = Raw(
    base64: string, base64Length: nat, decodedLength: Option<nat>, decodeStatus: string, hash: Option<string>)

  datatype ExecutionResult = ExecutionResult(status: string, details: string)

  /** A transaction with its normalized summary; its index is its position in the block. */
  datatype Transaction = Transaction(raw: Raw, summary: Json, result: Option<ExecutionResult>)

  /** `parentHex` is what the retained response says of the previous block. */
  datatype Block = Block(hashBase64: string, hashHex: string, parentHex: string, time: int)

  datatype Parsed = Parsed(height: int, block: Block, transactions: seq<Transaction>)

  /** Height, transaction index and message index. */
  type CallId = (int, nat, nat)

  datatype CatalogRow = CatalogRow(
    kind: Kind, deployer: Option<string>, deploy: Option<(int, nat)>, firstSeen: int,
    last: Option<(int, nat)>, lastAt: Option<int>,
    calls: nat, success: nat, failed: nat, unknown: nat, lastCounted: Option<int>)

  datatype State = State(chain: string, checkpoint: int, tip: int)

  datatype Tables = Tables(
    state: Option<State>, blocks: map<int, Block>, txs: map<int, seq<Transaction>>,
    calls: map<CallId, RealmCall>, catalog: map<string, CatalogRow>, coverage: Option<(int, int)>)

  function Empty(): Tables { Tables(None, map[], map[], map[], map[], None) }

  datatype Error = ChainIdentity | SkippedHeight | FinalizedConflict | DuplicateHash | InvalidHeight | CoverageGap

  // ----- checks -----

  predicate SameStored(stored: Transaction, incoming: Transaction) {
    && stored.raw == incoming.raw
    && (stored.result.Some? && incoming.result.Some? ==> stored.result == incoming.result)
  }

  /** What is stored of this height agrees with the incoming data. `clean` says the same of the
      validators, members and signatures. */
  predicate Agreeing(blocks: map<int, Block>, txs: map<int, seq<Transaction>>, p: Parsed, clean: bool) {
    && clean
    && (p.height in blocks ==>
          blocks[p.height].hashBase64 == p.block.hashBase64 && blocks[p.height].hashHex == p.block.hashHex)
    && (p.height in txs ==>
          && |txs[p.height]| == |p.transactions|
          && forall i :: 0 <= i < |p.transactions| ==> SameStored(txs[p.height][i], p.transactions[i]))
  }

  /** The unique constraints on block hashes. */
  predicate HashFree(blocks: map<int, Block>, p: Parsed) {
    forall h :: h in blocks && h != p.height ==>
      blocks[h].hashHex != p.block.hashHex && blocks[h].hashBase64 != p.block.hashBase64
  }

  function Refusal(t: Tables, p: Parsed, chain: string, clean: bool): Option<Error> {
    if t.state.Some? && t.state.value.chain != chain then Some(ChainIdentity)
    else if t.state.Some? && p.height > t.state.value.checkpoint + 1 then Some(SkippedHeight)
    else if !Agreeing(t.blocks, t.txs, p, clean) then Some(FinalizedConflict)
    else if p.height !in t.blocks && !HashFree(t.blocks, p) then Some(DuplicateHash)
    else if p.height < 1 then Some(InvalidHeight)
    else if t.coverage.Some? && p.height > t.coverage.value.1 + 1 then Some(CoverageGap)
    else None
  }

  // ----- what a write leaves -----

  function MergedTransaction(stored: Transaction, incoming: Transaction): Transaction {
    Transaction(stored.raw, incoming.summary, if stored.result.Some? then stored.result else incoming.result)
  }

  /** The transactions of the height after the upserts: only summaries are replaced. */
  function MergedTransactions(txs: map<int, seq<Transaction>>, p: Parsed): (rows: seq<Transaction>)
    ensures |rows| == |p.transactions|
  {
    if p.height in txs && |txs[p.height]| == |p.transactions| then
      seq(|p.transactions|,
          i requires 0 <= i < |p.transactions| => MergedTransaction(txs[p.height][i], p.transactions[i]))
    else p.transactions
  }

  /** The call that a stored message is located as. */
  function CallAt(txs: seq<Transaction>, i: nat, m: nat): Option<RealmCall> {
    if i >= |txs| then None
    else
      var messages := MessagesOf(txs[i].summary);
      if m < |messages| then RealmCallAt(m, messages[m]) else None
  }

  function Positions(height: int, txs: seq<Transaction>): set<CallId> {
    set i: nat, m: nat | i < |txs| && m < MAX_MESSAGES && CallAt(txs, i, m).Some? :: (height, i, m)
  }

  /** The call index with the rows of one height replaced. */
  function ReplacedCalls(calls: map<CallId, RealmCall>, height: int, txs: seq<Transaction>): map<CallId, RealmCall> {
    map k | k in (set k | k in calls && k.0 != height) + Positions(height, txs) ::
      var c := CallAt(txs, k.1, k.2);
      if k.0 == height && c.Some? then c.value
      else if k in calls then calls[k]
      else RealmCall("", 0, None, None, None, None)
  }

  function StatusOf(tx: Transaction): Option<string> {
    if tx.result.Some? then Some(tx.result.value.status) else None
  }

  function Inputs(txs: seq<Transaction>): seq<CatalogInput> {
    seq(|txs|, i requires 0 <= i < |txs| => CatalogInput(i, txs[i].summary, StatusOf(txs[i])))
  }

  predicate Before(a: (int, nat), b: (int, nat)) { a.0 < b.0 || (a.0 == b.0 && a.1 < b.1) }

  /** The catalog upsert of one path: `row` is the stored row, `a` what this height has to say. */
  function UpsertedRow(row: Option<CatalogRow>, height: int, time: int, a: PathAggregate): CatalogRow {
    var deploy := if a.deploy.Some? then Some((height, a.deploy.value.0)) else None;
    var deployer := if a.deploy.Some? then a.deploy.value.1 else None;
    var last := if a.last.Some? && a.Calls() > 0 then Some((height, a.last.value)) else None;
    var lastAt := if a.Calls() > 0 then Some(time) else None;
    var counted := if a.Calls() > 0 then Some(height) else None;
    if row.None? then
      CatalogRow(a.kind, deployer, deploy, height, last, lastAt, a.Calls(), a.success, a.failed, a.unknown, counted)
    else
      var r := row.value;
      var deploysFirst := r.deploy.None? || (deploy.Some? && Before(deploy.value, r.deploy.value));
      var movesOn := last.Some? && (r.last.None? || Before(r.last.value, last.value));
      var movesTime := last.Some? && (r.last.None? || height >= r.last.value.0);
      var counts := counted.Some? && height > (if r.lastCounted.Some? then r.lastCounted.value else 0);
      CatalogRow(
        a.kind,
        if deploysFirst then deployer else r.deployer,
        if deploysFirst then deploy else r.deploy,
        if height < r.firstSeen then height else r.firstSeen,
        if movesOn then last else r.last,
        if movesTime then lastAt else r.lastAt,
        r.calls + (if counts then a.Calls() else 0),
        r.success + (if counts then a.success else 0),
        r.failed + (if counts then a.failed else 0),
        r.unknown + (if counts then a.unknown else 0),
        if counts then counted else r.lastCounted)
  }

  function Find<K, V>(m: map<K, V>, k: K): Option<V> { if k in m then Some(m[k]) else None }

  lemma SameMaps<K, V>(a: map<K, V>, b: map<K, V>)
    requires forall k :: Find(a, k) == Find(b, k)
    ensures a == b
  {
    assert forall k :: k in a <==> Find(a, k).Some?;
    assert forall k :: k in b <==> Find(b, k).Some?;
    assert forall k :: k in a ==> a[k] == Find(a, k).value;
  }

  function Paths(events: seq<Event>): set<string> {
    set i | 0 <= i < |events| :: events[i].observation.path
  }

  /** The catalog row of a path after a height with these events. */
  function RowAfter(catalog: map<string, CatalogRow>, height: int, time: int, events: seq<Event>,
                    path: string): Option<CatalogRow> {
    var a := Aggregate(events, path);
    if a.Some? then Some(UpsertedRow(Find(catalog, path), height, time, a.value)) else Find(catalog, path)
  }

  function MergedCatalog(catalog: map<string, CatalogRow>, height: int, time: int, events: seq<Event>): map<string,
                         CatalogRow> {
    map path | path in catalog.Keys + Paths(events) && RowAfter(catalog, height, time, events, path).Some? ::
      RowAfter(catalog, height, time, events, path).value
  }

  /** `advance_realm_call_coverage`. */
  function CoverageAfter(coverage: Option<(int, int)>, first: bool, height: int): Option<(int, int)> {
    if coverage.None? then (if first then Some((height, height)) else None)
    else if height <= coverage.value.1 then coverage
    else Some((coverage.value.0, height))
  }

  /** `_advance_checkpoint`. */
  function StateAfter(state: Option<State>, height: int, chain: string, tip: int): State {
    if state.Some? && height <= state.value.checkpoint then state.value else State(chain, height, tip)
  }

  function Written(t: Tables, p: Parsed, chain: string, tip: int): Tables {
    Tables(
      Some(StateAfter(t.state, p.height, chain, tip)),
      if p.height in t.blocks then t.blocks else t.blocks[p.height := p.block],
      t.txs[p.height := MergedTransactions(t.txs, p)],
      ReplacedCalls(t.calls, p.height, p.transactions),
      MergedCatalog(t.catalog, p.height, p.block.time, Events(Inputs(p.transactions))),
      CoverageAfter(t.coverage, t.state.None?, p.height))
  }

  /** The whole transaction: a refusal rolls back. */
  function Write(t: Tables, p: Parsed, chain: string, tip: int, clean: bool): (Tables, Option<Error>) {
    var e := Refusal(t, p, chain, clean);
    if e.Some? then (t, e) else (Written(t, p, chain, tip), None)
  }

  // ----- the loops -----

  lemma ReplacedAt(calls: map<CallId, RealmCall>, height: int, txs: seq<Transaction>, k: CallId)
    ensures k in ReplacedCalls(calls, height, txs)
      <==> if k.0 == height then CallAt(txs, k.1, k.2).Some? else k in calls
    ensures k in ReplacedCalls(calls, height, txs) ==>
      Some(ReplacedCalls(calls, height, txs)[k]) == if k.0 == height then CallAt(txs, k.1, k.2) else Find(calls, k)
  {
    assert (k.0, k.1, k.2) == k;
  }

  /** The calls of the first `done` transactions and of the next one's messages before `some` are in. */
  ghost predicate Inserted(out: map<CallId, RealmCall>, calls: map<CallId, RealmCall>, height: int,
                           txs: seq<Transaction>,
                           done: nat, some: nat) {
    forall k: CallId :: Find(out, k) == (
      if k.0 != height then Find(calls, k)
      else if k.1 < done || (k.1 == done && k.2 < some) then CallAt(txs, k.1, k.2)
      else None)
  }

  lemma InsertedAll(out: map<CallId, RealmCall>, calls: map<CallId, RealmCall>, height: int, txs: seq<Transaction>)
    requires Inserted(out, calls, height, txs, |txs|, 0)
    ensures out == ReplacedCalls(calls, height, txs)
  {
    hide ReplacedCalls;
    forall k: CallId ensures Find(out, k) == Find(ReplacedCalls(calls, height, txs), k) {
      ReplacedAt(calls, height, txs, k);
    }
    SameMaps(out, ReplacedCalls(calls, height, txs));
  }

  ghost function Bound(cs: seq<RealmCall>, j: nat): nat {
    if j < |cs| then cs[j].messageIndex else MAX_MESSAGES
  }

  lemma LocatedIndex(messages: seq<Json>, cs: seq<RealmCall>, m: nat) returns (l: nat)
    requires cs == RealmCalls(messages) && m < |messages| && RealmCallAt(m, messages[m]).Some?
    ensures l < |cs| && cs[l].messageIndex == m
  {
    RealmCallsAreThese(messages);
    var c := RealmCallAt(m, messages[m]).value;
    assert c in cs;
    l :| l < |cs| && cs[l] == c;
  }

  /** There is no call before the first located one, nor between two neighbours. */
  lemma NoCallBetween(messages: seq<Json>, cs: seq<RealmCall>, j: nat, m: nat)
    requires cs == RealmCalls(messages) && j <= |cs| && m < |messages|
    requires (j > 0 ==> cs[j - 1].messageIndex < m) && m < Bound(cs, j)
    ensures RealmCallAt(m, messages[m]).None?
  {
    if RealmCallAt(m, messages[m]).Some? {
      hide RealmCallAt, RealmCalls;
      RealmCallsAreThese(messages);
      var l := LocatedIndex(messages, cs, m);
      NoIndexBetween(cs, j, m, l);
    }
  }

  lemma NoIndexBetween(cs: seq<RealmCall>, j: nat, m: nat, l: nat)
    requires forall i, k :: 0 <= i < k < |cs| ==> cs[i].messageIndex < cs[k].messageIndex
    requires j <= |cs| && (j > 0 ==> cs[j - 1].messageIndex < m) && m < Bound(cs, j)
    requires l < |cs|
    ensures cs[l].messageIndex != m
  {
  }

  lemma LocatedHere(txs: seq<Transaction>, done: nat, cs: seq<RealmCall>, j: nat)
    requires done < |txs| && cs == RealmCalls(MessagesOf(txs[done].summary)) && j < |cs|
    ensures CallAt(txs, done, cs[j].messageIndex) == Some(cs[j]) && cs[j].messageIndex < Bound(cs, j + 1)
  {
    RealmCallsAreThese(MessagesOf(txs[done].summary));
    assert cs[j] in cs;
  }

  /** One insertion of `_replace_realm_calls_for_height`. */
  lemma InsertOne(out: map<CallId, RealmCall>, calls: map<CallId, RealmCall>, height: int, txs: seq<Transaction>,
                  done: nat, cs: seq<RealmCall>, j: nat)
    requires done < |txs| && cs == RealmCalls(MessagesOf(txs[done].summary)) && j < |cs|
    requires Inserted(out, calls, height, txs, done, Bound(cs, j))
    ensures (height, done, cs[j].messageIndex) !in out
    ensures Inserted(out[(height, done, cs[j].messageIndex) := cs[j]], calls, height, txs, done, Bound(cs, j + 1))
  {
    hide RealmCalls;
    LocatedHere(txs, done, cs, j);
    var k := (height, done, cs[j].messageIndex);
    assert Find(out, k) == None;
    forall m: nat | cs[j].messageIndex < m < Bound(cs, j + 1) ensures CallAt(txs, done, m).None? {
      if m < |MessagesOf(txs[done].summary)| {
        NoCallBetween(MessagesOf(txs[done].summary), cs, j + 1, m);
      }
    }
  }

  lemma InsertFirst(out: map<CallId, RealmCall>, calls: map<CallId, RealmCall>, height: int, txs: seq<Transaction>,
                    done: nat, cs: seq<RealmCall>)
    requires done < |txs| && cs == RealmCalls(MessagesOf(txs[done].summary))
    requires Inserted(out, calls, height, txs, done, 0)
    ensures Inserted(out, calls, height, txs, done, Bound(cs, 0))
  {
    hide RealmCalls;
    forall m: nat | m < Bound(cs, 0) ensures CallAt(txs, done, m).None? {
      if m < |MessagesOf(txs[done].summary)| {
        NoCallBetween(MessagesOf(txs[done].summary), cs, 0, m);
      }
    }
  }

  lemma InsertedNext(out: map<CallId, RealmCall>, calls: map<CallId, RealmCall>, height: int, txs: seq<Transaction>,
                     done: nat)
    requires Inserted(out, calls, height, txs, done, MAX_MESSAGES) && done < |txs|
    ensures Inserted(out, calls, height, txs, done + 1, 0)
  {
  }

  /** `_replace_realm_calls_for_height`: delete the height's rows, then insert what its summaries say. */
  method ReplaceRealmCalls(calls: map<CallId, RealmCall>, height: int, txs: seq<Transaction>)
    returns (out: map<CallId, RealmCall>)
    ensures out == ReplacedCalls(calls, height, txs)
  {
    out := map k | k in calls && k.0 != height :: calls[k];
    assert Inserted(out, calls, height, txs, 0, 0);
    hide Inserted, ReplacedCalls, RealmCalls;
    for i := 0 to |txs|
      invariant Inserted(out, calls, height, txs, i, 0)
    {
      var cs := ExtractRealmCalls(txs[i].summary);
      InsertFirst(out, calls, height, txs, i, cs);
      for j := 0 to |cs|
        invariant Inserted(out, calls, height, txs, i, Bound(cs, j))
      {
        InsertOne(out, calls, height, txs, i, cs, j);
        out := out[(height, i, cs[j].messageIndex) := cs[j]];
      }
      InsertedNext(out, calls, height, txs, i);
    }
    InsertedAll(out, calls, height, txs);
  }
}
