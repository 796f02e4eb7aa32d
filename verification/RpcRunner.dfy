/** `run_cycle`: fetching consecutive heights from untrusted endpoints. Whatever the endpoints
    answer, what is stored stays one contiguous hash chain, and the realm catalog its fold. */
module RpcRunner {
  import opened Wrappers
  import opened RealmCatalog
  import opened HeightWriter
  import opened Database
  import opened HeightInvariants
  import opened RpcSelection
  import CatalogCounts

  // ----- the world: what endpoints and the database connection may do -----

  /** What `parse_height` reads from the payloads besides the two hashes. */
  datatype Content = Content(height: int, hashBase64: string, time: int, transactions: seq<Transaction>)

  /** A fetched height. A hash is None when it is missing or malformed, the content when parsing fails. */
  datatype Payload = Payload(hash: Option<string>, parent: Option<string>, content: Option<Content>)

  /** An answer, an endpoint failure that is caught, or an exception that leaves the cycle. */
  datatype Answer<T> = Answered(value: T) | EndpointFails | Escapes

  /** A failing commit may have stored the height or not, and the failure is taken for the endpoint's
      or leaves the cycle. */
  datatype Commit = Commits | FailsBefore | FailsAfter | LostBefore | LostAfter

  /** Everything is decided anew for each height and candidate position. The reads and the probe record
      at the start of a cycle and the read at its end may fail too. */
  datatype World = World(
    startFails: bool, endFails: bool, anchor: (int, nat) -> Answer<Option<string>>, select: (int, nat) -> Answer<()>,
    fetch: (int, nat) -> Answer<Payload>, clean: (int, nat) -> bool, commit: (int, nat) -> Commit,
    rejectFails: (int, nat) -> bool, stop: int -> bool)

  datatype Config = Config(startHeight: Option<int>, batchSize: int)

  predicate HexDigit(c: char) { '0' <= c <= '9' || 'A' <= c <= 'F' }

  /** An uppercase SHA-256 digest. */
  predicate IsHash(s: string) { |s| == 64 && forall i :: 0 <= i < 64 ==> HexDigit(s[i]) }

  /** `canonical_block_hash_hex` and `parent_block_hash_hex`: None for their exceptions. */
  function Canonical(hash: Option<string>): (h: Option<string>)
    ensures h.Some? ==> IsHash(h.value)
  {
    if hash.Some? && IsHash(hash.value) then hash else None
  }

  /** `verify_parent_continuity`, or only the block hash when nothing is stored yet. */
  function VerifiedHash(p: Payload, expected: Option<string>): (h: Option<string>)
    ensures h.Some? ==> IsHash(h.value) && (expected.Some? ==> p.parent == expected)
  {
    if expected.None? then Canonical(p.hash)
    else if Canonical(p.parent) != expected then None
    else Canonical(p.hash)
  }

  /** `parse_height`, which reads the block hash from the same field. */
  function ParseHeight(height: int, p: Payload): Option<Parsed> {
    if p.content.None? || p.content.value.height != height || p.hash.None? then None
    else
      var c := p.content.value;
      Some(Parsed(height, Block(c.hashBase64, p.hash.value, if p.parent.Some? then p.parent.value else "", c.time),
                  c.transactions))
  }

  /** What an endpoint answers for a height. */
  function AnswerOf(world: World, height: int, i: nat): Option<Parsed> {
    var fetched := world.fetch(height, i);
    if fetched.Answered? then ParseHeight(height, fetched.value) else None
  }

  /** An answer is a payload with this height, a block hash and parsed content, and holds its fields. */
  lemma AnswerIs(world: World, height: int, i: nat, p: Parsed)
    ensures AnswerOf(world, height, i) == Some(p) <==>
      && world.fetch(height, i).Answered?
      && var payload := world.fetch(height, i).value;
         && payload.content.Some? && payload.content.value.height == height && payload.hash.Some?
         && p.height == height && p.block.hashHex == payload.hash.value
         && p.block.hashBase64 == payload.content.value.hashBase64 && p.block.time == payload.content.value.time
         && p.block.parentHex == (match payload.parent case Some(h) => h case None => "")
         && p.transactions == payload.content.value.transactions
  {
  }

  /** Sixty-four digits of the hexadecimal system, with capital letters. */
  predicate Digest(s: string) {
    |s| == 64 && forall c :: c in s ==> 48 <= c as int <= 57 || 65 <= c as int <= 70
  }

  /** A hash is taken over exactly if it is a digest and the parent is the expected digest, if one is expected. */
  lemma VerifiedHashIs(p: Payload, expected: Option<string>, h: string)
    ensures VerifiedHash(p, expected) == Some(h) <==>
      p.hash == Some(h) && Digest(h) && (expected.Some? ==> p.parent == expected && Digest(expected.value))
  {
    DigestIs(h);
    if expected.Some? { DigestIs(expected.value); }
    if p.hash.Some? { DigestIs(p.hash.value); }
    if p.parent.Some? { DigestIs(p.parent.value); }
    hide Digest, IsHash;
  }

  lemma DigestIs(s: string)
    ensures IsHash(s) <==> Digest(s)
  {
    if Digest(s) {
      forall i | 0 <= i < 64 ensures HexDigit(s[i]) {
        assert s[i] in s;
      }
    }
  }

  /** When a commit stores a height but is taken for a failure of its endpoint, the others answer the
      same transactions and time for that height. */
  ghost predicate Agreed(world: World) {
    forall height, i: nat, j: nat :: world.commit(height, i).FailsAfter? ==>
      SameAnswer(AnswerOf(world, height, i), AnswerOf(world, height, j))
  }

  predicate SameAnswer(a: Option<Parsed>, b: Option<Parsed>) {
    a.Some? && b.Some? ==> a.value.transactions == b.value.transactions && a.value.block.time == b.value.block.time
  }

  // ----- what is kept -----

  /** The stored heights are one range, and each block names the stored hash below it as its parent. */
  ghost predicate HashChain(t: Tables) {
    && Valid(t)
    && forall h :: h in t.blocks ==>
         && t.coverage.Some? && t.coverage.value.0 <= h
         && IsHash(t.blocks[h].hashHex)
         && (h > t.coverage.value.0 ==> h - 1 in t.blocks && t.blocks[h].parentHex == t.blocks[h - 1].hashHex)
  }

  /** The store is ready for `height`, and `expected` is the hash that it has to name as its parent. */
  ghost predicate Ready(t: Tables, height: int, expected: Option<string>) {
    && HashChain(t)
    && if expected.None? then t.state.None?
       else t.state.Some? && t.state.value.checkpoint == height - 1
            && height - 1 in t.blocks && t.blocks[height - 1].hashHex == expected.value
  }

  /** An empty store satisfies what every cycle requires and keeps. */
  lemma EmptyIsChain()
    ensures HashChain(Empty())
  {
  }

  lemma WrittenBlocks(t: Tables, p: Parsed, chain: string, tip: int)
    ensures var after := Written(t, p, chain, tip);
            && after.blocks == (if p.height in t.blocks then t.blocks else t.blocks[p.height := p.block])
            && after.state == Some(StateAfter(t.state, p.height, chain, tip))
            && after.coverage == CoverageAfter(t.coverage, t.state.None?, p.height)
  {
  }

  /** The realm catalog is the fold over the stored blocks. */
  ghost predicate Exact(t: Tables) { CatalogCounts.CountersExact(t) && CatalogCounts.PositionsExact(t) }

  /** Storing a height whose parent hash was checked makes the store ready for the next one. */
  lemma StoredNext(t: Tables, p: Parsed, chain: string, tip: int, clean: bool, expected: Option<string>)
    requires Ready(t, p.height, expected) && Refusal(t, p, chain, clean).None?
    requires IsHash(p.block.hashHex) && (expected.Some? ==> p.block.parentHex == expected.value)
    ensures Ready(Written(t, p, chain, tip), p.height + 1, Some(p.block.hashHex))
    ensures p.height !in t.blocks && Written(t, p, chain, tip).blocks == t.blocks[p.height := p.block]
  {
    WriteKeepsValid(t, p, chain, tip, clean);
    WrittenBlocks(t, p, chain, tip);
    AcceptedWrite(t, p, chain, clean);
    hide Written, Refusal, CallIndexExact, DistinctHashes, Agreeing, HashFree, IsHash;
  }

  /** Storing the same height again, as another endpoint answers it, leaves the chain as it is. */
  lemma StoredAgain(t: Tables, p: Parsed, chain: string, tip: int, clean: bool, hash: string)
    requires Ready(t, p.height + 1, Some(hash)) && Refusal(t, p, chain, clean).None?
    ensures Ready(Written(t, p, chain, tip), p.height + 1, Some(hash))
    ensures p.block.hashHex == hash && Written(t, p, chain, tip).blocks == t.blocks
  {
    WriteKeepsValid(t, p, chain, tip, clean);
    WrittenBlocks(t, p, chain, tip);
    AcceptedWrite(t, p, chain, clean);
    hide Written, Refusal, CallIndexExact, DistinctHashes, HashFree, IsHash;
  }

  /** A height that is new, or that repeats the stored transactions and time, keeps the catalog exact. */
  lemma StoredExact(t: Tables, p: Parsed, chain: string, tip: int, clean: bool, expected: Option<string>)
    requires Exact(t) && Refusal(t, p, chain, clean).None?
    requires if p.height in t.txs then Valid(t) && Repeats(t, p) else Ready(t, p.height, expected)
    ensures Exact(Written(t, p, chain, tip))
  {
    hide Refusal, Written, CatalogCounts.CountersExact, CatalogCounts.PositionsExact, CallIndexExact, DistinctHashes,
      IsHash;
    assert CatalogCounts.Faithful(t, p);
    hide Valid, CatalogCounts.Faithful, HashChain;
    CatalogCounts.FaithfulWriteKeepsExact(t, p, chain, tip, clean);
  }

  /** The stored transactions and time of the height. */
  ghost predicate Repeats(t: Tables, p: Parsed) {
    p.height in t.txs && p.height in t.blocks && t.txs[p.height] == p.transactions &&
      t.blocks[p.height].time == p.block.time
  }

  // ----- one endpoint: what it does to a height -----

  /** One height to be stored, and the hash that it has to name as its parent. */
  datatype Task = Task(world: World, chain: string, height: int, expected: Option<string>)
  {
    /** The endpoint knows the block below with the stored hash. */
    predicate Anchored(i: nat) {
      expected.Some? ==> world.anchor(height, i).Answered? && Canonical(world.anchor(height, i).value) == expected
    }

    predicate Activates(i: nat) { Anchored(i) && world.select(height, i).Answered? }

    predicate ActivationEscapes(i: nat) {
      (expected.Some? && world.anchor(height, i).Escapes?) || (Anchored(i) && world.select(height, i).Escapes?)
    }

    /** The endpoint answers the height, and its block names the expected parent. */
    predicate Offers(i: nat) {
      && world.fetch(height, i).Answered?
      && VerifiedHash(world.fetch(height, i).value, expected).Some? && AnswerOf(world, height, i).Some?
    }

    /** The writer does not refuse the answer. */
    predicate Accepted(t: Tables, i: nat) {
      AnswerOf(world, height, i).Some?
        && Refusal(t, AnswerOf(world, height, i).value, chain, world.clean(height, i)).None?
    }

    predicate FetchWrites(t: Tables, i: nat) {
      var commit := world.commit(height, i);
      Offers(i) && Accepted(t, i) && (commit.Commits? || commit.FailsAfter? || commit.LostAfter?)
    }

    /** A failure that is taken for the endpoint's. */
    predicate FetchFails(i: nat) {
      var commit := world.commit(height, i);
      !world.fetch(height, i).Escapes? && (!Offers(i) || commit.FailsBefore? || commit.FailsAfter?)
    }

    /** An escaping answer, a lost commit or a refused write. */
    predicate FetchLeaves(t: Tables, i: nat) {
      var commit := world.commit(height, i);
      || world.fetch(height, i).Escapes?
      || (Offers(i) && (commit.LostBefore? || commit.LostAfter? || (!commit.FailsBefore? && !Accepted(t, i))))
    }

    predicate Writes(t: Tables, i: nat, active: bool) { (active || Activates(i)) && FetchWrites(t, i) }

    predicate Fails(i: nat) { (!Activates(i) && !ActivationEscapes(i)) || FetchFails(i) }

    /** What ends the whole cycle at an endpoint; a failure does when it cannot be recorded. */
    predicate Leaves(t: Tables, i: nat, active: bool) {
      if active || Activates(i) then FetchLeaves(t, i) || (FetchFails(i) && world.rejectFails(height, i))
      else ActivationEscapes(i) || world.rejectFails(height, i)
    }
  }

  /** `_activate_candidate`: the endpoint has to know the block below with the stored hash. */
  method Activate(k: Task, i: nat) returns (r: Answer<()>)
    ensures r.Answered? <==> k.Activates(i)
    ensures r.Escapes? <==> k.ActivationEscapes(i)
  {
    if k.expected.Some? {
      var answer := k.world.anchor(k.height, i);
      match answer
      case Escapes => return Escapes;
      case EndpointFails => return EndpointFails;
      case Answered(hash) =>
        if Canonical(hash) != k.expected {
          return EndpointFails;
        }
    }
    r := k.world.select(k.height, i);
  }

  /** What one attempt on one endpoint did; `written` says whether the height is stored afterwards. */
  datatype Attempted = Stored(hash: string) | NotStored(written: bool) | Left(written: bool)

  /** The stored block of a height is what this endpoint answered. */
  ghost predicate FromEndpoint(block: Block, world: World, height: int, i: nat) {
    AnswerOf(world, height, i).Some? && block == AnswerOf(world, height, i).value.block
  }

  ghost predicate FromOneOf(block: Block, world: World, height: int, n: nat) {
    exists i: nat :: i < n && FromEndpoint(block, world, height, i)
  }

  ghost predicate KeepsExact(before: Tables, after: Tables, world: World) {
    Exact(before) && Agreed(world) ==> Exact(after)
  }

  /** The height was added, as one of the endpoints answered it. */
  ghost predicate Added(before: Tables, after: Tables, world: World, height: int, n: nat) {
    && height in after.blocks && after.blocks == before.blocks[height := after.blocks[height]]
    && Ready(after, height + 1, Some(after.blocks[height].hashHex))
    && FromOneOf(after.blocks[height], world, height, n)
    && KeepsExact(before, after, world)
  }

  /** Every endpoint that answers the height repeats what is stored. */
  ghost predicate Pinned(t: Tables, world: World, height: int) {
    forall i: nat :: AnswerOf(world, height, i).Some? ==> Repeats(t, AnswerOf(world, height, i).value)
  }

  /** Some commit of the height stored it but failed. */
  ghost predicate Unacknowledged(world: World, height: int) {
    exists i: nat :: world.commit(height, i).FailsAfter? || world.commit(height, i).LostAfter?
  }

  /** The store while the endpoints are tried: as before, or with the height in it, stored by a commit
      that was taken for a failure. */
  ghost predicate Trying(before: Tables, now: Tables, world: World, height: int, n: nat, stored: bool) {
    if stored then
      && Added(before, now, world, height, n) && Unacknowledged(world, height)
      && (Agreed(world) ==> Pinned(now, world, height))
    else now == before
  }

  ghost predicate AttemptDone(before: Tables, after: Tables, world: World, height: int, n: nat, r: Attempted) {
    match r
    case Stored(hash) => Added(before, after, world, height, n) && hash == after.blocks[height].hashHex
    case NotStored(written) => Trying(before, after, world, height, n, written)
    case Left(written) =>
      if written then Added(before, after, world, height, n) && Unacknowledged(world, height) else after == before
  }

  lemma AnswersOfHeight(world: World, height: int, i: nat)
    ensures AnswerOf(world, height, i).Some? ==> AnswerOf(world, height, i).value.height == height
  {
  }

  /** After a first write of a height, the other endpoints repeat it if they agree. */
  lemma PinnedByFirst(t: Tables, p: Parsed, chain: string, tip: int, world: World, i: nat)
    requires AnswerOf(world, p.height, i) == Some(p) && world.commit(p.height, i).FailsAfter? && Agreed(world)
    requires p.height !in t.txs && p.height !in t.blocks
    ensures Pinned(Written(t, p, chain, tip), world, p.height)
  {
    hide AnswerOf, ReplacedCalls, MergedCatalog, StateAfter, CoverageAfter;
    forall j: nat | AnswerOf(world, p.height, j).Some?
      ensures Repeats(Written(t, p, chain, tip), AnswerOf(world, p.height, j).value)
    {
      AnswersOfHeight(world, p.height, j);
      assert SameAnswer(AnswerOf(world, p.height, i), AnswerOf(world, p.height, j));
    }
  }

  lemma PinnedAgain(t: Tables, p: Parsed, chain: string, tip: int, world: World)
    requires Pinned(t, world, p.height) && Repeats(t, p)
    ensures Pinned(Written(t, p, chain, tip), world, p.height)
  {
    hide AnswerOf, ReplacedCalls, MergedCatalog, StateAfter, CoverageAfter;
    forall j: nat | AnswerOf(world, p.height, j).Some?
      ensures Repeats(Written(t, p, chain, tip), AnswerOf(world, p.height, j).value)
    {
      AnswersOfHeight(world, p.height, j);
      assert MergedTransactions(t.txs, p) == t.txs[p.height];
    }
  }

  /** The first write of a height. */
  lemma FirstWrite(before: Tables, p: Parsed, chain: string, tip: int, clean: bool, world: World, i: nat, n: nat,
                   expected: Option<string>)
    requires Ready(before, p.height, expected) && Refusal(before, p, chain, clean).None? && i < n
    requires AnswerOf(world, p.height, i) == Some(p)
    requires IsHash(p.block.hashHex) && (expected.Some? ==> p.block.parentHex == expected.value)
    ensures var after := Written(before, p, chain, tip);
            && Added(before, after, world, p.height, n) && p.block.hashHex == after.blocks[p.height].hashHex
            && (Agreed(world) && world.commit(p.height, i).FailsAfter? ==> Pinned(after, world, p.height))
  {
    StoredNext(before, p, chain, tip, clean, expected);
    assert before.txs.Keys == before.blocks.Keys;
    hide Written, Refusal, Ready, AnswerOf, Exact, IsHash, Agreed, Pinned;
    var after := Written(before, p, chain, tip);
    assert FromEndpoint(after.blocks[p.height], world, p.height, i);
    if Exact(before) {
      StoredExact(before, p, chain, tip, clean, expected);
    }
    if Agreed(world) && world.commit(p.height, i).FailsAfter? {
      PinnedByFirst(before, p, chain, tip, world, i);
    }
  }

  /** A later write of a height that a failed endpoint has stored. */
  lemma LaterWrite(before: Tables, now: Tables, p: Parsed, chain: string, tip: int, clean: bool, world: World,
                   i: nat, n: nat)
    requires Trying(before, now, world, p.height, n, true) && Refusal(now, p, chain, clean).None?
    requires AnswerOf(world, p.height, i) == Some(p)
    ensures var after := Written(now, p, chain, tip);
            && Trying(before, after, world, p.height, n, true) && p.block.hashHex == after.blocks[p.height].hashHex
  {
    StoredAgain(now, p, chain, tip, clean, now.blocks[p.height].hashHex);
    assert Valid(now);
    hide Written, Refusal, Ready, AnswerOf, Exact, Agreed, Valid;
    if Agreed(world) {
      assert Repeats(now, p);
      PinnedAgain(now, p, chain, tip, world);
      if Exact(before) {
        StoredExact(now, p, chain, tip, clean, None);
      }
    }
  }

  method FetchAndStore(db: PostgresDatabase, k: Task, i: nat, probe: Probe, n: nat, stored: bool, ghost before: Tables)
    returns (r: Attempted)
    requires Ready(before, k.height, k.expected) && probe.latest.Some? && i < n
    requires Trying(before, db.View(), k.world, k.height, n, stored)
    modifies db
    ensures AttemptDone(before, db.View(), k.world, k.height, n, r)
    ensures (r.Stored? || r.written) <==> stored || k.FetchWrites(old(db.View()), i)
    ensures r.Left? ==> k.FetchLeaves(old(db.View()), i) && k.FetchLeaves(db.View(), i)
    ensures r.NotStored? ==> k.FetchFails(i) && !k.FetchLeaves(old(db.View()), i)
    ensures r.Stored? ==> k.Offers(i) && k.world.commit(k.height, i).Commits?
  {
    hide Ready, Trying, Added, Agreed, Pinned, Refusal;
    NothingAdded(before, db.View(), k.world, k.height, n, stored);
    var fetched := k.world.fetch(k.height, i);
    if fetched.Escapes? {
      return Left(stored);
    }
    if fetched.EndpointFails? {
      return NotStored(stored);
    }
    var hash := VerifiedHash(fetched.value, k.expected);
    if hash.None? {
      return NotStored(stored);
    }
    var parsed := ParseHeight(k.height, fetched.value);
    if parsed.None? {
      return NotStored(stored);
    }
    var commit := k.world.commit(k.height, i);
    if commit.FailsBefore? {
      return NotStored(stored);
    }
    if commit.LostBefore? {
      return Left(stored);
    }
    ghost var now := db.View();
    var error := db.WriteHeight(parsed.value, k.chain, probe.latest.value - 1, k.world.clean(k.height, i));
    if error.Some? {
      return Left(stored);
    }
    AttemptStores(before, now, parsed.value, k.chain, probe.latest.value - 1, k.world.clean(k.height, i), k.world, i, n,
                  k.expected, stored);
    if commit.FailsAfter? {
      return NotStored(true);
    }
    if commit.LostAfter? {
      return Left(true);
    }
    return Stored(hash.value);
  }

  lemma NothingAdded(before: Tables, now: Tables, world: World, height: int, n: nat, stored: bool)
    requires Trying(before, now, world, height, n, stored)
    ensures if stored then Added(before, now, world, height, n) && Unacknowledged(world, height) else now == before
  {
  }

  /** An accepted write, whether it is the first one of the height or not. */
  lemma AttemptStores(before: Tables, now: Tables, p: Parsed, chain: string, tip: int, clean: bool, world: World,
                      i: nat, n: nat, expected: Option<string>, stored: bool)
    requires Ready(before, p.height, expected) && Trying(before, now, world, p.height, n, stored) && i < n
    requires AnswerOf(world, p.height, i) == Some(p) && Refusal(now, p, chain, clean).None?
    requires IsHash(p.block.hashHex) && (expected.Some? ==> p.block.parentHex == expected.value)
    ensures var after := Written(now, p, chain, tip);
            && AttemptDone(before, after, world, p.height, n, Stored(p.block.hashHex))
            && (world.commit(p.height, i).FailsAfter? ==> Trying(before, after, world, p.height, n, true))
  {
    hide Ready, Added, Agreed, Pinned, Refusal, Written, AnswerOf, IsHash;
    if stored {
      LaterWrite(before, now, p, chain, tip, clean, world, i, n);
    } else {
      FirstWrite(before, p, chain, tip, clean, world, i, n, expected);
    }
  }

  // ----- one height: failover -----

  /** The order in which endpoints are tried: the active one first, then the others. */
  function TryOrder(active: Option<nat>, count: nat): (order: seq<nat>)
    requires active.Some? ==> active.value < count
    ensures |order| == count && (forall j :: 0 <= j < count ==> order[j] < count)
  {
    if active.None? then seq(count, i requires 0 <= i => i)
    else [active.value] + seq(count - 1, i requires 0 <= i => if i >= active.value then i + 1 else i)
  }

  /** Every candidate has its turn. */
  lemma TryOrderCovers(active: Option<nat>, count: nat, i: nat) returns (j: nat)
    requires (active.Some? ==> active.value < count) && i < count
    ensures j < count && TryOrder(active, count)[j] == i
  {
    j := if active.None? then i else if i == active.value then 0 else if i < active.value then i + 1 else i;
  }

  /** The active endpoint has the first turn, and the others follow in their order. */
  lemma TryOrderIs(active: Option<nat>, count: nat)
    requires active.Some? ==> active.value < count
    ensures var order := TryOrder(active, count);
            && (active.Some? ==> order[0] == active.value)
            && forall i, j :: (if active.Some? then 1 else 0) <= i < j < count ==> order[i] < order[j]
  {
  }

  /** What changes from endpoint to endpoint within a cycle. */
  datatype Failover = Failover(excluded: set<string>, activated: set<string>, pending: bool)

  /** A height that failed may be stored nevertheless; `written` says so. */
  datatype HeightResult = Done(active: nat, hash: string) | AllFailed(written: bool) | LeftCycle(written: bool)
  {
    predicate Stores() { Done? || written }
  }

  predicate Servable(p: Probe, f: Failover, height: int) {
    p.url !in f.excluded && p.latest.Some? && p.latest.value - 1 >= height
  }

  ghost predicate HeightDone(before: Tables, after: Tables, world: World, height: int, n: nat, r: HeightResult) {
    && (if r.Stores() then Added(before, after, world, height, n) else after == before)
    && (if r.Done? then r.hash == after.blocks[height].hashHex && r.active < n
        else r.written ==> Unacknowledged(world, height))
  }

  lemma AttemptEndsHeight(before: Tables, after: Tables, world: World, height: int, i: nat, n: nat, a: Attempted,
                          r: HeightResult)
    requires AttemptDone(before, after, world, height, n, a) && i < n
    requires match a
             case Stored(hash) => r == Done(i, hash)
             case NotStored(written) => r == AllFailed(written)
             case Left(written) => r == LeftCycle(written)
    ensures HeightDone(before, after, world, height, n, r)
  {
    hide Ready, FromOneOf, KeepsExact, Unacknowledged;
  }

  lemma TryingEndsHeight(before: Tables, now: Tables, world: World, height: int, n: nat, stored: bool)
    requires Trying(before, now, world, height, n, stored)
    ensures HeightDone(before, now, world, height, n, AllFailed(stored))
    ensures HeightDone(before, now, world, height, n, LeftCycle(stored))
  {
    hide Ready, FromOneOf, KeepsExact, Unacknowledged;
  }

  /** The candidates of a height in the order in which they are tried, and what is known before. */
  datatype Lineup = Lineup(candidates: seq<Probe>, order: seq<nat>, start: Failover)
  {
    predicate Valid() { forall j :: 0 <= j < |order| ==> order[j] < |candidates| }

    function Url(j: nat): string
      requires Valid() && j < |order|
    {
      candidates[order[j]].url
    }

    predicate Eligible(j: nat, height: int)
      requires Valid() && j < |order|
    {
      Servable(candidates[order[j]], start, height)
    }

    predicate Active(j: nat)
      requires Valid() && j < |order|
    {
      Url(j) in start.activated
    }

    /** A candidate is tried unless its endpoint was tried before. */
    predicate HasTurn(j: nat, height: int)
      requires Valid() && j < |order|
    {
      Eligible(j, height) && forall m :: 0 <= m < j ==> !(Eligible(m, height) && Url(m) == Url(j))
    }
  }

  /** The candidate stores the height, and none that is tried before it ends the cycle. */
  ghost predicate ObtainedAt(t: Tables, k: Task, l: Lineup, j: nat)
    requires l.Valid() && j < |l.order|
  {
    && l.HasTurn(j, k.height) && k.Writes(t, l.order[j], l.Active(j))
    && forall m :: 0 <= m < j && l.HasTurn(m, k.height) ==> !k.Leaves(t, l.order[m], l.Active(m))
  }

  ghost predicate Obtainable(t: Tables, k: Task, l: Lineup)
    requires l.Valid()
  {
    exists j: nat :: j < |l.order| && ObtainedAt(t, k, l, j)
  }

  /** Every endpoint that was excluded on the way has failed. */
  ghost predicate ExcludedFailed(k: Task, candidates: seq<Probe>, before: set<string>, after: set<string>) {
    forall url :: url in after && url !in before ==>
      exists i: nat :: i < |candidates| && candidates[i].url == url && k.Fails(i)
  }

  /** What is known before the `n`th candidate, in a store that was `t` at first. */
  ghost predicate Tried(t: Tables, k: Task, l: Lineup, f: Failover, n: nat, stored: bool)
    requires l.Valid() && n <= |l.order|
  {
    && (forall m :: 0 <= m < n && l.Eligible(m, k.height) ==> l.Url(m) in f.excluded)
    && (forall url :: url in f.excluded ==>
          url in l.start.excluded || exists m :: 0 <= m < n && l.Eligible(m, k.height) && l.Url(m) == url)
    && l.start.excluded <= f.excluded && l.start.activated <= f.activated <= l.start.activated + f.excluded
    && ExcludedFailed(k, l.candidates, l.start.excluded, f.excluded)
    && (if stored then Obtainable(t, k, l)
        else forall m :: 0 <= m < n && l.HasTurn(m, k.height) ==>
               !k.Leaves(t, l.order[m], l.Active(m)) && !k.Writes(t, l.order[m], l.Active(m)))
  }

  lemma NothingTried(t: Tables, k: Task, l: Lineup)
    requires l.Valid()
    ensures Tried(t, k, l, l.start, 0, false)
  {
  }

  /** The next candidate is tried exactly if it has a turn. */
  lemma TurnIs(t: Tables, k: Task, l: Lineup, f: Failover, n: nat, stored: bool)
    requires l.Valid() && n < |l.order| && Tried(t, k, l, f, n, stored)
    ensures Servable(l.candidates[l.order[n]], f, k.height) <==> l.HasTurn(n, k.height)
    ensures l.HasTurn(n, k.height) ==> (l.Url(n) in f.activated <==> l.Active(n))
    ensures !l.HasTurn(n, k.height) ==> Tried(t, k, l, f, n + 1, stored)
  {
    hide Obtainable, ExcludedFailed;
  }

  /** The turn ends the height. */
  lemma TurnEnds(t: Tables, k: Task, l: Lineup, f: Failover, n: nat, stored: bool)
    requires l.Valid() && n < |l.order| && Tried(t, k, l, f, n, stored) && l.HasTurn(n, k.height)
    requires !stored && !k.Writes(t, l.order[n], l.Active(n)) ==> k.Leaves(t, l.order[n], l.Active(n))
    ensures Obtainable(t, k, l) <==> stored || k.Writes(t, l.order[n], l.Active(n))
  {
    hide ExcludedFailed;
    if !stored && k.Writes(t, l.order[n], l.Active(n)) {
      assert ObtainedAt(t, k, l, n);
    }
  }

  /** The turn failed and the next candidate follows. */
  lemma TurnFails(t: Tables, k: Task, l: Lineup, f: Failover, n: nat, stored: bool, g: Failover, stored': bool)
    requires l.Valid() && n < |l.order| && Tried(t, k, l, f, n, stored) && l.HasTurn(n, k.height)
    requires k.Fails(l.order[n]) && g.excluded == f.excluded + {l.Url(n)}
    requires f.activated <= g.activated <= f.activated + {l.Url(n)}
    requires !stored ==> (stored' <==> k.Writes(t, l.order[n], l.Active(n)))
    requires stored ==> stored'
    requires !stored' ==> !k.Leaves(t, l.order[n], l.Active(n))
    ensures Tried(t, k, l, g, n + 1, stored')
  {
    hide Obtainable;
    if !stored && stored' {
      assert ObtainedAt(t, k, l, n);
      ObtainedThere(t, k, l, n);
    }
  }

  lemma ObtainedThere(t: Tables, k: Task, l: Lineup, n: nat)
    requires l.Valid() && n < |l.order| && ObtainedAt(t, k, l, n)
    ensures Obtainable(t, k, l)
  {
  }

  /** No candidate is left. */
  lemma AllTried(t: Tables, k: Task, l: Lineup, f: Failover, stored: bool)
    requires l.Valid() && Tried(t, k, l, f, |l.order|, stored)
    ensures Obtainable(t, k, l) <==> stored
  {
  }

  /** Every failing candidate was excluded for a failure. */
  lemma ExcludedOne(k: Task, candidates: seq<Probe>, before: set<string>, after: set<string>, i: nat)
    requires ExcludedFailed(k, candidates, before, after) && i < |candidates| && k.Fails(i)
    ensures ExcludedFailed(k, candidates, before, after + {candidates[i].url})
  {
  }

  lemma TriedExcluded(t: Tables, k: Task, l: Lineup, f: Failover, n: nat, stored: bool)
    requires l.Valid() && n <= |l.order| && Tried(t, k, l, f, n, stored)
    ensures ExcludedFailed(k, l.candidates, l.start.excluded, f.excluded) && l.start.excluded <= f.excluded
    ensures forall m :: 0 <= m < n ==> !Servable(l.candidates[l.order[m]], f, k.height)
  {
    hide Obtainable, ExcludedFailed;
    forall m | 0 <= m < n ensures !Servable(l.candidates[l.order[m]], f, k.height) {
      assert l.Eligible(m, k.height) ==> l.Url(m) in f.excluded;
    }
  }

  /** What trying one candidate comes to. */
  datatype Turned = Next(written: bool) | Ends(r: HeightResult)

  /** One turn of the loop over the candidates. */
  method TakeTurn(db: PostgresDatabase, selection: RpcSelectionState, k: Task, candidates: seq<Probe>, i: nat,
                  start: Failover, stored: bool, ghost before: Tables)
    returns (t: Turned, f: Failover)
    requires Ready(before, k.height, k.expected) && i < |candidates| && Servable(candidates[i], start, k.height)
    requires Trying(before, db.View(), k.world, k.height, |candidates|, stored)
    modifies db, selection
    ensures var active := candidates[i].url in start.activated;
      match t
      case Next(written) =>
        && Trying(before, db.View(), k.world, k.height, |candidates|, written)
        && (written <==> stored || k.Writes(old(db.View()), i, active))
        && k.Fails(i) && !k.Leaves(old(db.View()), i, active) && f.excluded == start.excluded + {candidates[i].url}
        && start.activated <= f.activated <= start.activated + {candidates[i].url}
      case Ends(r) =>
        && HeightDone(before, db.View(), k.world, k.height, |candidates|, r) && !r.AllFailed?
        && (r.Stores() <==> stored || k.Writes(old(db.View()), i, active))
        && (r.LeftCycle? ==> k.Leaves(old(db.View()), i, active) && k.Leaves(db.View(), i, active))
        && (f.excluded == start.excluded || (k.Fails(i) && f.excluded == start.excluded + {candidates[i].url}))
  {
    hide Ready, AttemptDone, HeightDone, Trying;
    hide Task.FetchWrites, Task.FetchFails, Task.FetchLeaves, Task.Activates, Task.ActivationEscapes;
    var probe, written := candidates[i], stored;
    f := start;
    TryingEndsHeight(before, db.View(), k.world, k.height, |candidates|, stored);
    var ready := probe.url in f.activated;
    if !ready {
      var activation := Activate(k, i);
      if activation.Escapes? {
        return Ends(LeftCycle(stored)), f;
      }
      ready := activation.Answered?;
      if ready {
        f := f.(activated := f.activated + {probe.url});
      }
    }
    if ready {
      var attempted := FetchAndStore(db, k, i, probe, |candidates|, stored, before);
      if !attempted.NotStored? {
        var r := if attempted.Stored? then Done(i, attempted.hash) else LeftCycle(attempted.written);
        AttemptEndsHeight(before, db.View(), k.world, k.height, i, |candidates|, attempted, r);
        if attempted.Stored? {
          selection.RecordSelectionSuccess(probe.url, f.pending);
          f := f.(pending := false);
        }
        return Ends(r), f;
      }
      written := attempted.written;
      AttemptContinues(before, db.View(), k.world, k.height, |candidates|, written);
    }
    f := f.(excluded := f.excluded + {probe.url}, pending := true);
    selection.Reject();
    t := if k.world.rejectFails(k.height, i) then Ends(LeftCycle(written)) else Next(written);
  }

  /** The loop over the candidates of one height. */
  method RunHeight(db: PostgresDatabase, selection: RpcSelectionState, k: Task, candidates: seq<Probe>,
                   active: Option<nat>, start: Failover)
    returns (r: HeightResult, f: Failover)
    requires Ready(db.View(), k.height, k.expected) && (active.Some? ==> active.value < |candidates|)
    modifies db, selection
    ensures HeightDone(old(db.View()), db.View(), k.world, k.height, |candidates|, r)
    ensures r.Stores() <==> Obtainable(old(db.View()), k, Lineup(candidates, TryOrder(active, |candidates|), start))
    ensures r.LeftCycle? ==>
      exists i: nat :: i < |candidates| && Servable(candidates[i], start, k.height)
                       && k.Leaves(db.View(), i, candidates[i].url in start.activated)
    ensures r.AllFailed? ==> forall i :: 0 <= i < |candidates| ==> !Servable(candidates[i], f, k.height)
    ensures ExcludedFailed(k, candidates, start.excluded, f.excluded)
  {
    hide Ready, HeightDone, Obtainable, Tried, ExcludedFailed, Trying, Task.Writes, Task.Leaves, Task.Fails;
    f := start;
    var order := TryOrder(active, |candidates|);
    var j, stored := 0, false;
    ghost var before, n, l := db.View(), |candidates|, Lineup(candidates, order, start);
    NothingStored(before, k.world, k.height, n);
    NothingTried(before, k, l);
    while j < |order|
      invariant j <= |order| && Trying(before, db.View(), k.world, k.height, n, stored)
      invariant Tried(before, k, l, f, j, stored)
    {
      TriedExcluded(before, k, l, f, j, stored);
      TurnIs(before, k, l, f, j, stored);
      StillBefore(before, db.View(), k.world, k.height, n, stored);
      if Servable(candidates[order[j]], f, k.height) {
        ghost var was := stored;
        var turned, g := TakeTurn(db, selection, k, candidates, order[j], f, stored, before);
        if k.Fails(order[j]) {
          ExcludedOne(k, candidates, start.excluded, f.excluded, order[j]);
        }
        if turned.Ends? {
          TurnEnds(before, k, l, f, j, was);
          return turned.r, g;
        }
        stored := turned.written;
        TurnFails(before, k, l, f, j, was, g, stored);
        f := g;
      }
      j := j + 1;
    }
    AllTried(before, k, l, f, stored);
    TriedExcluded(before, k, l, f, j, stored);
    TryingEndsHeight(before, db.View(), k.world, k.height, n, stored);
    forall i: nat | i < |candidates| ensures !Servable(candidates[i], f, k.height) {
      var m := TryOrderCovers(active, |candidates|, i);
    }
    return AllFailed(stored), f;
  }

  lemma NothingStored(t: Tables, world: World, height: int, n: nat)
    ensures Trying(t, t, world, height, n, false)
  {
  }

  lemma StillBefore(before: Tables, now: Tables, world: World, height: int, n: nat, stored: bool)
    requires Trying(before, now, world, height, n, stored)
    ensures !stored ==> now == before
  {
  }

  /** A candidate that can serve the height and is written is enough when no endpoint ends the cycle. */
  lemma ServedIsObtainable(t: Tables, k: Task, candidates: seq<Probe>, active: Option<nat>, start: Failover, i: nat)
    requires (active.Some? ==> active.value < |candidates|) && i < |candidates|
    requires Servable(candidates[i], start, k.height) && k.Writes(t, i, candidates[i].url in start.activated)
    requires forall m :: 0 <= m < |candidates| && m != i ==> candidates[m].url != candidates[i].url
    requires forall m :: 0 <= m < |candidates| ==> !k.Leaves(t, m, candidates[m].url in start.activated)
    ensures Obtainable(t, k, Lineup(candidates, TryOrder(active, |candidates|), start))
  {
    hide Task.Writes, Task.Leaves;
    var l := Lineup(candidates, TryOrder(active, |candidates|), start);
    var j := TryOrderCovers(active, |candidates|, i);
    TryOrderDistinct(active, |candidates|);
    assert forall m :: 0 <= m < j ==> l.order[m] != i;
    assert ObtainedAt(t, k, l, j);
  }

  lemma TryOrderDistinct(active: Option<nat>, count: nat)
    requires active.Some? ==> active.value < count
    ensures var order := TryOrder(active, count); forall i, j :: 0 <= i < j < count ==> order[i] != order[j]
  {
  }

  lemma AttemptContinues(before: Tables, now: Tables, world: World, height: int, n: nat, stored: bool)
    requires AttemptDone(before, now, world, height, n, NotStored(stored))
    ensures Trying(before, now, world, height, n, stored)
    ensures HeightDone(before, now, world, height, n, AllFailed(stored))
    ensures HeightDone(before, now, world, height, n, LeftCycle(stored))
  {
    hide Trying, HeightDone;
    TryingEndsHeight(before, now, world, height, n, stored);
  }

  // ----- one cycle -----

  /** The candidates that reach a height. */
  function Reaching(probes: seq<Probe>, height: int): seq<Probe> {
    if probes == [] then []
    else
      var reaches := probes[0].latest.Some? && probes[0].latest.value >= height;
      (if reaches then [probes[0]] else []) + Reaching(probes[1..], height)
  }

  /** The probes that reach the height, each as often as it is there. */
  lemma {:induction false} ReachingIs(probes: seq<Probe>, height: int)
    ensures forall p :: p in Reaching(probes, height) <==> p in probes && p.latest.Some? && p.latest.value >= height
    ensures multiset(Reaching(probes, height)) <= multiset(probes)
  {
    if probes != [] {
      ReachingIs(probes[1..], height);
      assert probes == [probes[0]] + probes[1..];
    }
  }

  /** The highest finalized tip, None without candidates. */
  function HighestTip(probes: seq<Probe>): Option<int> {
    if probes == [] then None
    else
      var rest := HighestTip(probes[1..]);
      if probes[0].latest.None? then rest
      else if rest.None? || probes[0].latest.value - 1 > rest.value then Some(probes[0].latest.value - 1)
      else rest
  }

  /** It is one below the greatest observed height. */
  lemma {:induction false} HighestTipIs(probes: seq<Probe>)
    ensures var tip := HighestTip(probes);
            && (tip.None? <==> forall p :: p in probes ==> p.latest.None?)
            && (tip.Some? ==> exists p :: p in probes && p.latest == Some(tip.value + 1))
            && (tip.Some? ==> forall p :: p in probes && p.latest.Some? ==> p.latest.value <= tip.value + 1)
  {
    if probes != [] {
      HighestTipIs(probes[1..]);
      assert forall p :: p in probes <==> p == probes[0] || p in probes[1..];
    }
  }

  datatype CycleResult = CycleResult(
    processed: seq<int>, checkpointBefore: Option<int>, checkpointAfter: Option<int>, planned: Option<(int, int)>)

  /** A cycle that raises has stored `processed`, and one more height when its commit was not acknowledged. */
  datatype Outcome = Completed(result: CycleResult) | Raised(processed: seq<int>, unacknowledged: bool)
  {
    function Processed(): seq<int> { if Completed? then result.processed else processed }
    function Count(): nat { |Processed()| + (if Raised? && unacknowledged then 1 else 0) }
  }

  /** Some endpoint answered this block for the height. */
  ghost predicate FromSomeEndpoint(block: Block, world: World, height: int) {
    exists i: nat :: FromEndpoint(block, world, height, i)
  }

  /** The heights from `next` on were stored, each as an endpoint answered it, and nothing else changed. */
  ghost predicate StoredRange(before: map<int, Block>, after: map<int, Block>, world: World, next: int, count: nat) {
    && (forall h :: h in after <==> h in before || next <= h < next + count)
    && (forall h :: h in before && !(next <= h < next + count) ==> after[h] == before[h])
    && (forall h :: next <= h < next + count ==> FromSomeEndpoint(after[h], world, h))
  }

  lemma StoredOne(before: map<int, Block>, middle: map<int, Block>, after: map<int, Block>, world: World, next: int,
                  count: nat)
    requires StoredRange(before, middle, world, next, count)
    requires next + count in after && after == middle[next + count := after[next + count]]
    requires FromSomeEndpoint(after[next + count], world, next + count)
    ensures StoredRange(before, after, world, next, count + 1)
  {
    hide FromSomeEndpoint;
  }

  predicate Consecutive(processed: seq<int>, next: int) {
    forall j :: 0 <= j < |processed| ==> processed[j] == next + j
  }

  /** Where a cycle starts. */
  function NextHeight(state: Option<State>, config: Config): int {
    if state.Some? then state.value.checkpoint + 1 else if config.startHeight.Some? then config.startHeight.value else 0
  }

  ghost predicate CycleDone(before: Tables, after: Tables, world: World, next: int, o: Outcome) {
    && HashChain(after)
    && Consecutive(o.Processed(), next)
    && StoredRange(before.blocks, after.blocks, world, next, o.Count())
    && (if o.Count() == 0 then after == before
        else after.state.Some? && after.state.value.checkpoint == next + o.Count() - 1)
    && KeepsExact(before, after, world)
    && (o.Raised? && o.unacknowledged ==> Unacknowledged(world, next + |o.processed|))
  }

  lemma NothingDone(t: Tables, world: World, next: int, o: Outcome)
    requires HashChain(t) && o.Count() == 0
    ensures CycleDone(t, t, world, next, o)
  {
  }

  /** The state of a cycle before `height` is tried. */
  ghost predicate Underway(before: Tables, now: Tables, world: World, next: int, height: int,
                           expected: Option<string>, processed: seq<int>) {
    && next <= height && |processed| == height - next && Consecutive(processed, next)
    && Ready(now, height, expected)
    && StoredRange(before.blocks, now.blocks, world, next, height - next)
    && (if height == next then now == before else expected.Some?)
    && KeepsExact(before, now, world)
  }

  lemma HeightEnds(before: Tables, middle: Tables, after: Tables, world: World, next: int, height: int,
                   expected: Option<string>, processed: seq<int>, n: nat, r: HeightResult)
    requires Underway(before, middle, world, next, height, expected, processed)
    requires HeightDone(middle, after, world, height, n, r)
    ensures r.Done? ==> Underway(before, after, world, next, height + 1, Some(r.hash), processed + [height])
    ensures r.Done? ==> r.active < n && Ready(after, height + 1, Some(r.hash))
    ensures !r.Done? ==> CycleDone(before, after, world, next, Raised(processed, r.written))
  {
    hide StoredRange, FromEndpoint, HashChain, Exact, Agreed, Unacknowledged;
    if r.Stores() {
      assert FromSomeEndpoint(after.blocks[height], world, height);
      StoredOne(before.blocks, middle.blocks, after.blocks, world, next, height - next);
    } else {
      Interrupted(before, after, world, next, height, expected, processed);
    }
  }

  /** A cycle may end before any height. */
  lemma Interrupted(before: Tables, now: Tables, world: World, next: int, height: int, expected: Option<string>,
                    processed: seq<int>)
    requires Underway(before, now, world, next, height, expected, processed)
    ensures HashChain(now) && Consecutive(processed, next) &&
      StoredRange(before.blocks, now.blocks, world, next, |processed|)
    ensures if |processed| == 0 then now == before
            else now.state.Some? && now.state.value.checkpoint == next + |processed| - 1
    ensures KeepsExact(before, now, world)
  {
    hide StoredRange, HashChain, KeepsExact;
  }

  lemma ReadyToStart(t: Tables, chain: string, world: World, config: Config) returns (expected: Option<string>)
    requires HashChain(t)
    ensures expected == if t.state.Some? && t.state.value.checkpoint in t.blocks
                        then Some(t.blocks[t.state.value.checkpoint].hashHex) else None
    ensures Ready(t, NextHeight(t.state, config), expected)
    ensures Underway(t, t, world, NextHeight(t.state, config), NextHeight(t.state, config), expected, [])
    ensures t.state.Some? ==> t.state.value.checkpoint in t.blocks && IsHash(t.blocks[t.state.value.checkpoint].hashHex)
  {
    hide IsHash, CallIndexExact, DistinctHashes;
    expected := if t.state.Some? && t.state.value.checkpoint in t.blocks
                then Some(t.blocks[t.state.value.checkpoint].hashHex) else None;
  }

  /** The branch that has nothing to fetch succeeds: an endpoint knows the checkpoint, and none before it
      ends the cycle. */
  ghost predicate AnchorKnown(k: Task, count: nat) {
    exists i: nat :: i < count && KnownAt(k, i)
  }

  ghost predicate KnownAt(k: Task, i: nat) {
    k.Activates(i) && forall m: nat :: m < i ==> !k.ActivationEscapes(m) && !k.world.rejectFails(k.height, m)
  }

  /** The branch of a cycle that has nothing to fetch: one endpoint has to confirm the checkpoint. */
  method ConfirmAnchor(selection: RpcSelectionState, k: Task, candidates: seq<Probe>) returns (r: Answer<()>)
    modifies selection
    ensures r.Answered? <==> AnchorKnown(k, |candidates|)
  {
    ghost var was := selection.View();
    var ordered, reason := selection.OrderCandidates(candidates);
    OrderingLength(candidates, was);
    var fallback := false;
    for i := 0 to |ordered|
      invariant forall m: nat :: m < i ==>
        !k.Activates(m) && !k.ActivationEscapes(m) && !k.world.rejectFails(k.height, m)
    {
      var activation := Activate(k, i);
      if activation.Escapes? {
        return Escapes;
      }
      if activation.Answered? {
        selection.RecordSelectionSuccess(ordered[i].url, fallback);
        assert KnownAt(k, i);
        return Answered(());
      }
      selection.Reject();
      if k.world.rejectFails(k.height, i) {
        return Escapes;
      }
      fallback := true;
    }
    return EndpointFails;
  }

  lemma OrderingLength(candidates: seq<Probe>, s: Selection)
    ensures |Ordering(candidates, s).0| == |candidates|
  {
    OrderingPermutes(candidates, s);
    assert |multiset(candidates)| == |candidates|;
  }

  /** How many heights a range holds. */
  function Width(first: int, last: int): nat { if last >= first then last - first + 1 else 0 }

  // ----- why a cycle raises -----

  /** The stored hash below a height. */
  function HashBelow(blocks: map<int, Block>, height: int): Option<string> {
    if height - 1 in blocks then Some(blocks[height - 1].hashHex) else None
  }

  /** What a height was tried with, read off the store that the cycle leaves. */
  function TaskAt(t: Tables, world: World, chain: string, height: int): Task {
    Task(world, chain, height, HashBelow(t.blocks, height))
  }

  lemma ExpectedIsBelow(t: Tables, height: int, expected: Option<string>)
    requires Ready(t, height, expected)
    ensures expected == HashBelow(t.blocks, height)
  {
    hide CallIndexExact, DistinctHashes, IsHash;
  }

  /** This endpoint failed at one of the heights of the cycle. */
  ghost predicate FailedAtSome(t: Tables, world: World, chain: string, candidates: seq<Probe>, next: int, height: int,
                               url: string) {
    exists g: int, m: nat :: next <= g <= height && m < |candidates| && candidates[m].url == url
                             && TaskAt(t, world, chain, g).Fails(m)
  }

  ghost predicate AllReachingFailed(t: Tables, world: World, chain: string, candidates: seq<Probe>, next: int,
                                    height: int) {
    forall i :: 0 <= i < |candidates| && candidates[i].latest.Some? && candidates[i].latest.value - 1 >= height ==>
      FailedAtSome(t, world, chain, candidates, next, height, candidates[i].url)
  }

  ghost predicate SomeLeaves(t: Tables, k: Task, count: nat) {
    exists i: nat, active: bool :: i < count && k.Leaves(t, i, active)
  }

  /** Why a cycle raises at a height: its last read fails, an endpoint's answer or its write ends the cycle,
      or every endpoint that reaches the height has failed. */
  ghost predicate RangeFails(t: Tables, world: World, chain: string, candidates: seq<Probe>, next: int, height: int) {
    || world.endFails
    || SomeLeaves(t, TaskAt(t, world, chain, height), |candidates|)
    || AllReachingFailed(t, world, chain, candidates, next, height)
  }

  /** An endpoint that reaches the height and never fails keeps a cycle going that nothing else ends. */
  lemma ReliableEndpoint(t: Tables, world: World, chain: string, candidates: seq<Probe>, next: int, height: int, i: nat)
    requires i < |candidates| && candidates[i].latest.Some? && candidates[i].latest.value - 1 >= height
    requires !world.endFails && !SomeLeaves(t, TaskAt(t, world, chain, height), |candidates|)
    requires forall g: int, m: nat ::
               next <= g <= height && m < |candidates| && candidates[m].url == candidates[i].url ==>
               !TaskAt(t, world, chain, g).Fails(m)
    ensures !RangeFails(t, world, chain, candidates, next, height)
  {
    hide SomeLeaves, Task.Fails, TaskAt;
  }

  /** Every endpoint that was excluded so far failed at a height of this cycle. */
  ghost predicate AllExcludedFailed(t: Tables, world: World, chain: string, candidates: seq<Probe>, next: int,
                                    height: int, excluded: set<string>) {
    forall url :: url in excluded ==> FailedAtSome(t, world, chain, candidates, next, height, url)
  }

  /** What a cycle knew of lower heights holds after a further one was stored or not. */
  lemma ExcludedAfter(before: Tables, after: Tables, world: World, chain: string, candidates: seq<Probe>, next: int,
                      height: int, expected: Option<string>, was: set<string>, now: set<string>, count: nat,
                      r: HeightResult)
    requires next <= height && Ready(before, height, expected) && HeightDone(before, after, world, height, count, r)
    requires AllExcludedFailed(before, world, chain, candidates, next, height - 1, was)
    requires ExcludedFailed(Task(world, chain, height, expected), candidates, was, now)
    ensures TaskAt(after, world, chain, height) == Task(world, chain, height, expected)
    ensures AllExcludedFailed(after, world, chain, candidates, next, height, now)
  {
    ExpectedIsBelow(before, height, expected);
    SameBelow(before, after, world, height, count, r);
    hide Ready, HeightDone;
    forall url | url in now ensures FailedAtSome(after, world, chain, candidates, next, height, url) {
      if url in was {
        var g: int, m: nat :| next <= g <= height - 1 && m < |candidates| && candidates[m].url == url
                              && TaskAt(before, world, chain, g).Fails(m);
        assert TaskAt(after, world, chain, g) == TaskAt(before, world, chain, g);
      } else {
        var m: nat :| m < |candidates| && candidates[m].url == url && Task(world, chain, height, expected).Fails(m);
        assert TaskAt(after, world, chain, height).Fails(m);
      }
    }
  }

  lemma SameBelow(before: Tables, after: Tables, world: World, height: int, count: nat, r: HeightResult)
    requires HeightDone(before, after, world, height, count, r)
    ensures forall g :: g <= height ==> HashBelow(after.blocks, g) == HashBelow(before.blocks, g)
  {
    hide Ready, FromOneOf, KeepsExact, Unacknowledged;
  }

  /** A height that is not done makes the cycle raise. */
  lemma HeightFails(t: Tables, world: World, chain: string, candidates: seq<Probe>, next: int, height: int,
                    start: Failover, f: Failover, r: HeightResult)
    requires AllExcludedFailed(t, world, chain, candidates, next, height, f.excluded) && !r.Done?
    requires var k := TaskAt(t, world, chain, height);
             r.LeftCycle? ==> exists i: nat :: i < |candidates| && Servable(candidates[i], start, height)
                                               && k.Leaves(t, i, candidates[i].url in start.activated)
    requires r.AllFailed? ==> forall i :: 0 <= i < |candidates| ==> !Servable(candidates[i], f, height)
    ensures RangeFails(t, world, chain, candidates, next, height)
  {
    hide FailedAtSome;
    if r.LeftCycle? {
      var i: nat :| i < |candidates| && Servable(candidates[i], start, height)
                    && TaskAt(t, world, chain, height).Leaves(t, i, candidates[i].url in start.activated);
      assert SomeLeaves(t, TaskAt(t, world, chain, height), |candidates|);
    }
  }

  /** The loop of `run_cycle` over the planned range. */
  method ProcessRange(db: PostgresDatabase, selection: RpcSelectionState, world: World, chain: string, next: int,
                      last: int, candidates: seq<Probe>, start: Option<string>, checkpoint: Option<int>)
    returns (o: Outcome)
    requires Ready(db.View(), next, start)
    requires Underway(db.View(), db.View(), world, next, next, start, [])
    modifies db, selection
    ensures CycleDone(old(db.View()), db.View(), world, next, o)
    ensures o.Count() <= Width(next, last)
    ensures o.Completed? ==> o.result.planned == Some((next, last))
    ensures o.Completed? && (forall h :: next <= h <= last ==> !world.stop(h)) ==> |o.Processed()| == Width(next, last)
    ensures o.Raised? ==> RangeFails(db.View(), world, chain, candidates, next, next + |o.processed|)
  {
    hide CycleDone, Underway, Ready, HeightDone, Obtainable, AllExcludedFailed, ExcludedFailed, RangeFails;
    ghost var before := db.View();
    var expected := start;
    var processed: seq<int> := [];
    var active: Option<nat> := None;
    var failover := Failover({}, {}, false);
    var height := next;
    NothingExcluded(before, world, chain, candidates, next);
    while height <= last && !world.stop(height)
      invariant next <= height && (height <= last + 1 || height == next) && |processed| == height - next
      invariant active.Some? ==> active.value < |candidates|
      invariant Underway(before, db.View(), world, next, height, expected, processed)
      invariant Ready(db.View(), height, expected)
      invariant AllExcludedFailed(db.View(), world, chain, candidates, next, height - 1, failover.excluded)
      decreases last - height
    {
      ghost var middle, was := db.View(), failover;
      var r, f := RunHeight(db, selection, Task(world, chain, height, expected), candidates, active, failover);
      failover := f;
      ExcludedAfter(middle, db.View(), world, chain, candidates, next, height, expected, was.excluded, f.excluded,
                    |candidates|, r);
      HeightEnds(before, middle, db.View(), world, next, height, expected, processed, |candidates|, r);
      if !r.Done? {
        HeightFails(db.View(), world, chain, candidates, next, height, was, f, r);
        return Raised(processed, r.written);
      }
      active, expected, processed, height := Some(r.active), Some(r.hash), processed + [height], height + 1;
    }
    if world.endFails {
      o := Raised(processed, false);
      Finished(before, db.View(), world, next, height, expected, processed, o);
      EndReadFails(db.View(), world, chain, candidates, next, height);
      return o;
    }
    var after := if db.state.Some? then Some(db.state.value.checkpoint) else None;
    o := Completed(CycleResult(processed, checkpoint, after, Some((next, last))));
    Finished(before, db.View(), world, next, height, expected, processed, o);
    return o;
  }

  lemma NothingExcluded(t: Tables, world: World, chain: string, candidates: seq<Probe>, next: int)
    ensures AllExcludedFailed(t, world, chain, candidates, next, next - 1, {})
  {
  }

  lemma EndReadFails(t: Tables, world: World, chain: string, candidates: seq<Probe>, next: int, height: int)
    requires world.endFails
    ensures RangeFails(t, world, chain, candidates, next, height)
  {
  }

  /** The candidates of a cycle, and among them those that can serve its first height. */
  function Candidates(probes: seq<Probe>, next: int): seq<Probe> { Reaching(SuitableProbes(probes), next - 1) }

  function Fetchable(probes: seq<Probe>, next: int): seq<Probe> { Reaching(Candidates(probes, next), next + 1) }

  /** A cycle starts behind the checkpoint, or at the configured height of an empty store; its candidates are
      the suitable endpoints that know the height below, and those that have it finalized are fetched from. */
  lemma StartsAt(state: Option<State>, config: Config, probes: seq<Probe>, p: Probe)
    ensures state.Some? ==> NextHeight(state, config) - 1 == state.value.checkpoint
    ensures state.None? && config.startHeight.Some? ==> Some(NextHeight(state, config)) == config.startHeight
    ensures var next := NextHeight(state, config);
            && (p in Candidates(probes, next) <==>
                  p in SuitableProbes(probes) && p.latest.Some? && p.latest.value + 1 >= next)
            && (p in Fetchable(probes, next) <==>
                  p in SuitableProbes(probes) && p.latest.Some? && p.latest.value - 1 >= next)
  {
    hide SuitableProbes, Reaching;
    var next := NextHeight(state, config);
    ReachingIs(SuitableProbes(probes), next - 1);
    ReachingIs(Candidates(probes, next), next + 1);
  }

  /** A plan ends at the highest finalized tip, or with the batch if that is lower. */
  ghost predicate IsEnd(candidates: seq<Probe>, limit: int, last: int) {
    && last <= limit
    && (exists p :: p in candidates && p.latest.Some? && p.latest.value - 1 >= last)
    && (last == limit || forall p :: p in candidates && p.latest.Some? ==> p.latest.value - 1 <= last)
  }

  lemma PlanEnds(candidates: seq<Probe>, ordered: seq<Probe>, limit: int, last: int)
    requires multiset(ordered) == multiset(candidates) && exists p :: p in candidates && p.latest.Some?
    requires var end := HighestTip(ordered); last == if end.Some? && end.value < limit then end.value else limit
    ensures IsEnd(candidates, limit, last)
  {
    HighestTipIs(ordered);
    assert forall p :: p in ordered <==> p in multiset(ordered);
    assert forall p :: p in candidates <==> p in multiset(candidates);
    var p :| p in candidates && p.latest.Some?;
    assert p in ordered;
  }

  /** Where there is something to be fetched, somebody can serve it. */
  lemma SomebodyServes(probes: seq<Probe>, next: int)
    requires var tip := HighestTip(Candidates(probes, next)); tip.Some? && next <= tip.value
    ensures exists p :: p in Fetchable(probes, next) && p.latest.Some?
  {
    HighestTipIs(Candidates(probes, next));
    ReachingIs(Candidates(probes, next), next + 1);
  }

  /** Nothing is to be fetched. */
  predicate CaughtUp(probes: seq<Probe>, next: int) {
    var tip := HighestTip(Candidates(probes, next));
    tip.Some? && next > tip.value
  }

  /** That is so exactly if there are candidates and none of them has the height finalized. */
  lemma CaughtUpIs(probes: seq<Probe>, next: int)
    ensures var known := Candidates(probes, next);
            CaughtUp(probes, next) <==>
              && (exists p :: p in known && p.latest.Some?)
              && forall p :: p in known && p.latest.Some? ==> p.latest.value - 1 < next
  {
    hide Candidates;
    HighestTipIs(Candidates(probes, next));
  }

  /** Why a cycle raises. */
  ghost predicate CycleFails(before: Tables, after: Tables, world: World, chain: string, probes: seq<Probe>,
                             config: Config, selection: Selection, processed: seq<int>) {
    var next := NextHeight(before.state, config);
    || world.startFails
    || (before.state.Some? && before.state.value.chain != chain)
    || (before.state.None? && config.startHeight.None?)
    || HighestTip(Candidates(probes, next)).None?
    || (if CaughtUp(probes, next) then !AnchorKnown(TaskAt(before, world, chain, next), |Candidates(probes, next)|)
        else RangeFails(after, world, chain, Ordering(Fetchable(probes, next), selection).0, next, next + |processed|))
  }

  /** `run_cycle`. */
  method RunCycle(db: PostgresDatabase, selection: RpcSelectionState, world: World, chain: string, probes: seq<Probe>,
                  config: Config)
    returns (o: Outcome)
    requires HashChain(db.View()) && config.batchSize >= 1
    modifies db, selection
    ensures CycleDone(old(db.View()), db.View(), world, NextHeight(old(db.state), config), o)
    ensures o.Count() <= config.batchSize
    ensures o.Raised? ==>
      CycleFails(old(db.View()), db.View(), world, chain, probes, config, old(selection.View()), o.processed)
    ensures o.Completed? ==>
      && !world.startFails && (old(db.state).Some? ==> old(db.state).value.chain == chain)
      && (o.result.planned.None? <==> CaughtUp(probes, NextHeight(old(db.state), config)))
    ensures o.Completed? && o.result.planned.None? ==>
      var next := NextHeight(old(db.state), config);
      AnchorKnown(TaskAt(old(db.View()), world, chain, next), |Candidates(probes, next)|)
    ensures o.Completed? && o.result.planned.Some? ==>
      && var (first, last) := o.result.planned.value;
         && first == NextHeight(old(db.state), config)
         && IsEnd(Fetchable(probes, first), first + config.batchSize - 1, last)
         && |o.Processed()| <= Width(first, last)
         && ((forall h :: first <= h <= last ==> !world.stop(h)) ==> |o.Processed()| == Width(first, last))
  {
    hide IsEnd;
    hide CycleDone, Underway, HashChain, Ready, RangeFails, AnchorKnown, Reaching, HighestTip, SuitableProbes, Ordering,
      IsHash;
    ghost var before := db.View();
    var next := NextHeight(db.state, config);
    NothingDone(before, world, next, Raised([], false));
    if world.startFails {
      return Raised([], false);
    }
    var checkpoint := if db.state.Some? then Some(db.state.value.checkpoint) else None;
    if db.state.Some? && db.state.value.chain != chain {
      return Raised([], false);
    }
    if db.state.None? && config.startHeight.None? {
      return Raised([], false);
    }
    ghost var ready := ReadyToStart(before, chain, world, config);
    var expected := if db.state.Some? then Some(db.blocks[db.state.value.checkpoint].hashHex) else None;
    ExpectedIsBelow(before, next, ready);
    var candidates := Reaching(SuitableProbes(probes), next - 1);
    var tip := HighestTip(candidates);
    if tip.None? {
      return Raised([], false);
    }
    if next > tip.value {
      var confirmed := ConfirmAnchor(selection, Task(world, chain, next, expected), candidates);
      if !confirmed.Answered? {
        return Raised([], false);
      }
      o := Completed(CycleResult([], checkpoint, checkpoint, None));
      NothingDone(before, world, next, o);
      return o;
    }
    candidates := Reaching(candidates, next + 1);
    SomebodyServes(probes, next);
    OrderingPermutes(candidates, selection.View());
    var ordered, reason := selection.OrderCandidates(candidates);
    var end := HighestTip(ordered);
    var last := if end.Some? && end.value < next + config.batchSize - 1 then end.value else next + config.batchSize - 1;
    PlanEnds(candidates, ordered, next + config.batchSize - 1, last);
    o := ProcessRange(db, selection, world, chain, next, last, ordered, expected, checkpoint);
  }

  lemma Finished(before: Tables, now: Tables, world: World, next: int, height: int, expected: Option<string>,
                 processed: seq<int>, o: Outcome)
    requires Underway(before, now, world, next, height, expected, processed)
    requires o.Processed() == processed && o.Count() == |processed|
    ensures CycleDone(before, now, world, next, o)
  {
    hide StoredRange, HashChain, Ready, KeepsExact;
    Interrupted(before, now, world, next, height, expected, processed);
  }

  // ----- all cycles -----

  /** One cycle's probes and everything the world does in it. */
  datatype Round = Round(world: World, probes: seq<Probe>)

  /** Nothing stored has changed, and whatever is new was answered by an endpoint in one of the first `n` rounds. */
  ghost predicate Grown(before: map<int, Block>, after: map<int, Block>, rounds: seq<Round>, n: nat) {
    && (forall h :: h in before ==> h in after && after[h] == before[h])
    && (forall h :: h in after && h !in before ==>
          exists r :: 0 <= r < n && r < |rounds| && FromSomeEndpoint(after[h], rounds[r].world, h))
  }

  /** The endpoints of every round agree where it matters. */
  ghost predicate AllAgreed(rounds: seq<Round>, n: nat) {
    forall r :: 0 <= r < n && r < |rounds| ==> Agreed(rounds[r].world)
  }

  lemma GrownByCycle(start: map<int, Block>, before: Tables, after: Tables, rounds: seq<Round>, n: nat, next: int,
                     o: Outcome)
    requires n < |rounds| && HashChain(before) && CycleDone(before, after, rounds[n].world, next, o)
    requires Grown(start, before.blocks, rounds, n) &&
      (before.state.Some? ==> next == before.state.value.checkpoint + 1)
    ensures Grown(start, after.blocks, rounds, n + 1) && HashChain(after)
    ensures Exact(before) && AllAgreed(rounds, n + 1) ==> Exact(after)
  {
    hide FromSomeEndpoint, CallIndexExact, DistinctHashes, IsHash, Exact, Agreed;
    assert forall h :: h in before.blocks ==> h < next;
  }

  /** `run_continuous`, which may also end after any round: from an empty or chained store, every
      cycle of every run leaves a chain, whatever endpoints and connections did. A catalog that was
      the fold over the stored blocks stays so, unless a height is stored twice with other content. */
  method RunContinuous(db: PostgresDatabase, selection: RpcSelectionState, chain: string, config: Config,
                       rounds: seq<Round>)
    requires HashChain(db.View()) && config.batchSize >= 1
    modifies db, selection
    ensures HashChain(db.View())
    ensures Grown(old(db.blocks), db.blocks, rounds, |rounds|)
    ensures Exact(old(db.View())) && AllAgreed(rounds, |rounds|) ==> Exact(db.View())
  {
    hide HashChain, CycleDone, Grown, Exact, Agreed;
    NothingGrown(db.blocks, rounds);
    for i := 0 to |rounds|
      invariant HashChain(db.View())
      invariant Grown(old(db.blocks), db.blocks, rounds, i)
      invariant Exact(old(db.View())) && AllAgreed(rounds, i) ==> Exact(db.View())
    {
      ghost var before := db.View();
      var o := RunCycle(db, selection, rounds[i].world, chain, rounds[i].probes, config);
      GrownByCycle(old(db.blocks), before, db.View(), rounds, i, NextHeight(before.state, config), o);
    }
  }

  /** A run on a new database: all it stores is one chain of answered blocks, and their realm catalog. */
  method RunFromEmpty(chain: string, selection: RpcSelectionState, config: Config, rounds: seq<Round>)
    returns (db: PostgresDatabase)
    requires config.batchSize >= 1
    modifies selection
    ensures HashChain(db.View())
    ensures Grown(map[], db.blocks, rounds, |rounds|)
    ensures AllAgreed(rounds, |rounds|) ==> Exact(db.View())
  {
    db := new PostgresDatabase();
    EmptyIsChain();
    CatalogCounts.EmptyIsExact();
    hide HashChain, Grown, Agreed;
    RunContinuous(db, selection, chain, config, rounds);
  }

  lemma NothingGrown(blocks: map<int, Block>, rounds: seq<Round>)
    ensures Grown(blocks, blocks, rounds, 0)
  {
  }

  // ----- what a chain is good for -----

  /** A block hash commits to the parent hash. */
  ghost predicate CollisionFree(a: map<int, Block>, b: map<int, Block>) {
    forall g, h :: g in a && h in b && a[g].hashHex == b[h].hashHex ==> a[g].parentHex == b[h].parentHex
  }

  /** Two stores that agree on the hash of one height agree on every lower height that both cover. */
  lemma {:induction false} TipDeterminesHistory(a: Tables, b: Tables, low: int, high: int)
    requires HashChain(a) && HashChain(b) && CollisionFree(a.blocks, b.blocks)
    requires high in a.blocks && high in b.blocks && a.blocks[high].hashHex == b.blocks[high].hashHex
    requires low in a.blocks && low in b.blocks && low <= high
    ensures a.blocks[low].hashHex == b.blocks[low].hashHex
    decreases high - low
  {
    if low < high {
      hide IsHash, CallIndexExact, DistinctHashes;
      assert a.blocks[high].parentHex == b.blocks[high].parentHex;
      TipDeterminesHistory(a, b, low, high - 1);
    }
  }
}
