# Verification of the Gno explorer's indexer and caches

This project models the parts of the explorer whose correctness depends on more than one function:
the governance store with its two writers and the list walk in front of it, the finalized-height
writer with its derived call index and catalog, the continuous runner that reads from untrusted
endpoints, the metadata publisher, the session pool and the single-flight caches, Bech32 address
validation, the comment stripper and the JSONL frame reader.

`dafny verify dfyconfig.toml` checks the whole project.

## How the model is built

- A PostgreSQL table is a map, and a writer is one transaction: a raised exception leaves every
  table as it was. Each writer is a class method that works through its loops statement by
  statement; it is proved equal to a function from tables to tables, and the results about all
  runs are lemmas about that function.
- Clocks, endpoints, pipes, the scheduler and failing database connections are inputs without any
  assumption. `now()` is fixed when a transaction begins, so governance writes may commit with times
  that run backwards; the `times_check` constraints (`database/schema.sql:369` and `:388`) refuse such
  a row, and that refusal is part of the writers.
- Concurrency is a state machine whose steps are the lock-protected sections of the code; a run is
  any sequence of steps of any threads.
- SHA-256, Unicode case folding and the analysis of source files are parameters. Where a result
  needs that the digest has no collisions, its contract says so.

## What is proved

**Governance.** From any store that loads, any interleaving of full and quick writes at any times
leaves a store that loads, so the full writer's check after the write never fails and the quick writer
needs none. From any store at all, no proposal disappears, statuses only make the five allowed moves
and terminal ones stay. For each writer it is stated exactly when a write is applied, unchanged or
refused, in terms of the incoming and stored statuses, ids, columns and times, and what an applied one
stores in which column. Both writers leave the same content for the same scan if and only if the rows that the
quick writer did not have to refresh are still what the full scan finds. The list walk fetches exactly
the reachable pages when it says that it is complete, and what it returns passes the quick writer's
checks; a failing walk has a cause in its last request, and none before it.

**Finalized heights.** After any attempts from an empty database the call index holds exactly the
calls of the stored summaries, each column being the value of one message field, and coverage is the range from the height of the first accepted write,
which never moves, to the checkpoint. The catalog's counters equal the totals over the stored blocks
as long as every write counts once, which is stated as an exact condition on a single write.

**Runner.** Whatever endpoints answer, whenever they fail or are switched, and even if a commit fails
after it has stored the height, what is stored stays one contiguous hash chain of answered blocks. A
run on a new database leaves the realm catalog equal to the fold over these blocks, unless a commit
that did store its height is taken for a failure of the endpoint and another endpoint then answers
the same height with other transactions or another time.

A height is stored exactly if some candidate writes it and none that is tried before ends the cycle; a
cycle raises only for a failing read at its start or end, another chain, a missing start height, no
suitable endpoint, an answer that escapes, a lost commit, a refused write, a failure that cannot be
recorded, or because every endpoint that reaches the height has failed.

**Metadata.** The fingerprint's input is injective up to the order of the files, and therefore
skipping unchanged files leaves the same tables as always rewriting them.

**Addresses.** One step of the checksum is multiplication by x modulo the generator of BIP 173 over the
field of 32 elements. Under the default profile the accepted addresses are the ones with remainder one,
exactly one for each payload; an address that the repository's tests use is one of them.

**Comments.** A token is described by where it ends: a literal at its first quote that is not escaped, a
line comment before the first newline, a block comment at the first closing pair. Stripping keeps
exactly the other tokens.

**Endpoint order, pool, caches, decoder.** See the table.

### Where the code does not do what one might expect

- Repeating a quick governance write that was just applied is refused as a conflict when a detail
  page contradicts the list, for example when the list did not recognize a status: `GovernanceRuns.QuickRetryIff`
  gives the exact condition for any targets that are selected again, `GovernanceRuns.QuickRetrySame` for
  the same ones, and `GovernanceRefresh.QuickRetryCanBeRefused` an input. The comment at
  `indexer/governance_persistence.py:388-389` speaks of idempotent retries.
- A height below the first indexed one is accepted, but its calls may never be counted, and it stays
  outside the coverage: `HeightInvariants.CoverageIsContiguous`, `CatalogCounts.CountersExactIff`,
  `CatalogCounts.LateCallIsLost`.
- A height that is stored again with other summaries, as after a commit that stored it and failed,
  replaces the call index but takes no call back from the catalog: `CatalogCounts.RereadCallStays`, with the
  same exact condition. If it repeats what is stored, nothing is lost: `RpcRunner.StoredExact`.
- The block lookup reads the clock before it takes the lock, so a delayed thread can be given an entry
  that has outlived its lifetime: `SingleFlight.SampleHitCanBeStale`. Before the lock section runs,
  `SingleFlight.SampleHitFreshIff` says exactly when its hit will be fresh: the delay has to be shorter
  than the lifetime that is left. Hits at a given delay are fresh in every schedule if and only if that
  delay is zero: `SingleFlight.HitsFreshIffUndelayed`, with the schedule of `SingleFlight.DelayedHitExists`.
  The account service reads the clock inside the lock and cannot: `SingleFlight.AccountHitsAreFresh`.
- `GnoRpcClient.close` drains the queue while threads that wait in `queue.get` can still take from it;
  they take sessions out of a closed client, and the count stays right: `SessionPool.RunKeepsInvariant`.

## Model

| member | source | states |
|---|---|---|
| `GovernanceModel.NormalizedVotesStored` | indexer/governance_persistence.py:152-163 | Every vote that normalization accepts passes the checks of a stored vote, its key being the voter key of its own columns and its power below 10^78. |
| `GovernanceModel.NormalizedDetailStorable` | indexer/governance_persistence.py:120-165 | A proposal that normalization accepts passes every check that loading makes of a stored row, including the agreement of its vote status with its votes. |
| `GovernanceModel.RowIsItsDetail` | indexer/governance_persistence.py:118-124 | With distinct ids each normalized row is the one of its own proposal; none is overwritten by another. |
| `GovernanceModel.VoteIsItsBallot` | indexer/governance_persistence.py:160-163 | With distinct voter keys each stored vote is the one of its own ballot. |
| `GovernanceFields.KeysDiffer` | indexer/governance_persistence.py:75-77 | Two valid voters have the same key if and only if they have the same address, or neither has one and their folded names are equal. |
| `GovernanceFields.PercentageIs` | indexer/governance_persistence.py:80-92 | A percentage is stored as the nearest ten-thousandth, the upper one if two are as near. |
| `GovernanceFields.AcceptableIff` | indexer/governance_persistence.py:95-117 | A discovery is accepted if and only if it is complete, of this chain, at a height from 1 on, with 1 to 100 pages and at most 1000 proposals of distinct ids, each accepted, and with renders of at most one mebibyte and sixteen in all. |
| `GovernanceFields.AcceptableDetailIff` | indexer/governance_persistence.py:118-163 | A proposal is accepted if and only if its status is one of the four, its percentages are from 0 to 100, its renders were captured, its vote status says whether it has votes, and its texts and votes, with distinct keys, are accepted. |
| `GovernanceFields.LoadableIff` | indexer/governance_persistence.py:177-248 | Stored rows are loaded if and only if there is neither state nor row, or the state describes rows that all pass, were observed between height 1 and its own, and say rightly whether they have votes. |
| `GovernanceInvariants.PairsFit` | indexer/governance_persistence.py:110-116 | The renders stored for the proposals together are no larger than the captured renders they are part of. |
| `GovernanceInvariants.WrittenIsLoadable` | indexer/governance_persistence.py:177-248 | Storable rows, written at a later height over a store that loads, within the raw-byte limit, for exactly the listed ids and with no time that the tables refuse, leave a store that loads. |
| `GovernanceInvariants.FullKeepsLoadable` | indexer/governance_persistence.py:271-306 | A full write of any discovery at any time never ends in the post-write error, and a store that loads still loads afterwards. |
| `GovernanceInvariants.QuickKeepsLoadable` | indexer/governance_persistence.py:337-436 | A quick write of any list and targets at any time leaves a store that loads, although nothing is checked after it. |
| `GovernanceRuns.RunStaysLoadable` | indexer/governance_persistence.py:177-248 | From a store that loads, every state of every interleaving of full and quick writes loads, for any inputs and any transaction times. |
| `GovernanceRuns.RunOnlyAdvances` | indexer/governance_persistence.py:23 | From any store, between any two states of any run no proposal disappears, every status stays or makes one of the five moves ACTIVE to ACCEPTED or REJECTED and UNKNOWN to ACTIVE, ACCEPTED or REJECTED, first observations stay, and the source height does not fall. |
| `GovernanceOutcomes.FullOutcome` | indexer/governance_persistence.py:288-306 | A full write at a new height is applied if and only if no stored proposal is missing from the scan, none goes back from its status, and no time is before a first observation. A missing proposal, or one that goes back while no time is too early, is a conflict; nothing else happens. |
| `GovernanceOutcomes.QuickOutcome` | indexer/governance_persistence.py:414-436 | A quick write at a new height is a conflict if and only if some listed status goes back: a decided proposal listed otherwise, or an active one no longer known. Else it is invalid if and only if other proposals were refreshed than the new, active and unknown ones; else it is refused by the tables for its times or chain id, or applied. |
| `GovernanceOutcomes.FullSameHeight` | indexer/governance_persistence.py:284-287 | A full write at the stored height is unchanged if and only if metadata, rows and votes are those of the scan, column by column, and a conflict otherwise. |
| `GovernanceOutcomes.QuickSameHeight` | indexer/governance_persistence.py:387-413 | A quick write at the stored height is unchanged if and only if metadata and listed columns are stored, everything that has to be refreshed was, and each refreshed proposal was due or decided at this height and is stored column by column; it is a conflict otherwise. |
| `GovernanceOutcomes.QuickPrecheckIff` | indexer/governance_persistence.py:337-383 | The checks before the stored height is compared pass if and only if each condition holds on the fields of list, targets and store, with its limits. |
| `GovernanceOutcomes.FullStores` | indexer/governance_persistence.py:290-301 | After an applied full write every scanned proposal is stored: each text, status, percentage and render in its own column, and exactly its votes with their own display, address, option, tier and power. |
| `GovernanceOutcomes.QuickStores` | indexer/governance_persistence.py:422-434 | The same for each refreshed proposal of an applied quick write. |
| `GovernanceRuns.TerminalStays` | indexer/governance_persistence.py:23 | An accepted or rejected proposal keeps its status in the rest of every run. |
| `GovernanceRuns.QuickFollowsList` | indexer/governance_persistence.py:370-421 | After an applied quick write every listed proposal is stored with its listed status unless the list says UNKNOWN. |
| `GovernanceRuns.QuickObserves` | indexer/governance_persistence.py:422-434 | After an applied quick write exactly the proposals that had to be refreshed were last observed at its height. |
| `GovernanceRuns.QuickEqualsFullIff` | indexer/governance_persistence.py:271-436 | For the same scan from the same store, an applied quick and an applied full write leave the same content, votes and metadata if and only if each row that did not have to be refreshed is stored as the full scan finds it. |
| `GovernanceRuns.FullRetryUnchanged` | indexer/governance_persistence.py:284-287 | Repeating an applied full write is accepted as unchanged and changes nothing. |
| `GovernanceRuns.QuickRetryIff` | indexer/governance_persistence.py:387-413 | After an applied quick write, a quick write of the same list with any targets changes nothing; it is accepted if and only if its input is well formed, its targets give the stored rows and cover what has to be refreshed now, and every listed proposal agrees with the stored rows; without that agreement alone it is refused as a conflict. |
| `GovernanceRuns.QuickRetrySame` | indexer/governance_persistence.py:387-413 | Repeating an applied quick write as it was is accepted as unchanged if every listed proposal agrees with the row that it left, and is a conflict otherwise. |
| `GovernanceRefresh.QuickRetryCanBeRefused` | indexer/governance_persistence.py:392-400 | A concrete list and target that are applied to an empty store and refused as a conflict when they are repeated. |
| `GovernanceStore.NormalizeDiscovery` | indexer/governance_persistence.py:95-170 | The nested loops accept exactly the acceptable discoveries and return their rows by id. |
| `GovernanceStore.Load` | indexer/governance_persistence.py:177-248 | The loops over stored rows accept exactly the stores that satisfy the load conditions. |
| `GovernanceStore.PairBytes` | indexer/governance_persistence.py:321-334 | The loop computes the total UTF-8 size of the retained renders. |
| `GovernanceStore.SelectRefreshIds` | indexer/governance_persistence.py:309-318 | The loop selects exactly the listed proposals that are not stored yet, or are active or unknown in the store or in the list. |
| `GovernanceStore.WriteRows` | indexer/governance_persistence.py:290-301 | The upsert loop with its vote deletions leaves the merged tables, first observations kept, or stops with the conflict or the refused time of the first row, by id, that causes one. |
| `GovernanceStore.RetryIsAccepted` | indexer/governance_persistence.py:387-413 | The same-height checks accept exactly the repetitions described by the list, the required ids and the stored rows. |
| `GovernanceStore.ListedSize` | indexer/governance_persistence.py:345-346 | The dictionary of summaries is as large as the list if and only if no id occurs twice. |
| `GovernanceStore.GovernanceTables.PersistSnapshot` | indexer/governance_persistence.py:271-306 | The full writer, on mutable tables, does exactly what the full transition says, and changes nothing when it raises. |
| `GovernanceStore.GovernanceTables.PersistIncremental` | indexer/governance_persistence.py:337-436 | The quick writer, on mutable tables, does exactly what the quick transition says, and changes nothing when it raises. |
| `GovernanceList.DiscoverList` | governance/gno.py:345-402 | The walk ends for every link graph. Whatever it returns, the requested pages are distinct, reachable and no more than allowed. A result holds exactly the items of the requested pages, with distinct ids in descending order; it is complete if and only if all reachable pages were requested and the pager was recognized; a reachable page is left out only at the page limit. A failure has a cause in the last request (a page that fails, conflicting items, too many proposals or, when raw text is captured, too many bytes), and the requests before it have none; limits are refused exactly when they are out of range. |
| `GovernanceList.HarmlessOrFails` | governance/gno.py:358-391 | Requests that give a result give no error: the causes of failure are excluded by what a result ensures. |
| `GovernanceList.AllFetched` | governance/gno.py:371-395 | When the queue is empty the fetched pages are exactly the reachable ones. |
| `GovernanceList.AddItems` | governance/gno.py:386-390 | Items are collected by id, or two shown items with one id differ. |
| `GovernanceList.DiscoveredListAcceptable` | governance/gno.py:400-402 | Whatever the walk returns passes the quick writer's checks of the list. |
| `RealmCatalog.ExtractObservations` | indexer/realm_catalog.py:50-72 | The loop returns the observations of the first twenty messages. |
| `RealmCatalog.ObservationsAreThese` | indexer/realm_catalog.py:56-72 | Exactly the messages that show a deployment or a call are observed, once each and in order. |
| `HeightFields.ObservedIs` | indexer/realm_catalog.py:50-72 | A message shows a deployment or a call if and only if its type, its whole canonical path and, for a call, its realm path say so; the sender counts exactly if it is an address. |
| `HeightFields.PathKindIs` | indexer/realm_catalog.py:24-31 | A path has a kind if and only if it is the realm or package prefix with non-empty segments of visible characters, at most 256 in all. |
| `RealmCatalog.ExtractRealmCalls` | indexer/realm_catalog.py:143-171 | The loop returns the located calls of the first twenty messages. |
| `RealmCatalog.RealmCallsAreThese` | indexer/realm_catalog.py:151-171 | Exactly the messages that can be located are, once each and in order. |
| `RealmCatalog.LocatedIffCounted` | indexer/realm_catalog.py:50-171 | A message is located as a call of a path if and only if the catalog counts it as one and its call fields are well formed. |
| `RealmCatalog.AggregateBlock` | indexer/realm_catalog.py:89-104 | The nested loops leave, for every path, the aggregate of the block's events of that path and nothing for others. |
| `RealmCatalog.AggregateMeans` | indexer/realm_catalog.py:92-101 | An aggregate is the least transaction index, the first deployment with its sender, the last call and the number of calls of each outcome; there is none if and only if the path was not observed. |
| `HeightWriter.ReplaceRealmCalls` | indexer/database.py:629-658 | Deleting and inserting leaves, at the height, exactly the located calls of the given transactions, and other heights untouched. |
| `HeightWriter.InsertOne` | indexer/database.py:640-655 | No inserted position is there already, so the duplicate error cannot be raised. |
| `Database.UpsertCatalog` | indexer/database.py:615-707 | Upserting each touched path once gives the catalog that merges the block's aggregates into the stored rows. |
| `Database.UpsertTransactions` | indexer/database.py:566-612 | Stored transactions keep their raw columns and results and take the new summaries. |
| `Database.VerifyConflicts` | indexer/database.py:444-507 | The checks accept exactly the data that agrees with what is finalized at the height. |
| `Database.PostgresDatabase.WriteHeight` | indexer/database.py:317-332 | The writer does exactly what the transaction function says: the same refusal, the same six tables, and no change when it raises. |
| `HeightFields.WriteIff` | indexer/database.py:317-332 | A height is written if and only if the chain is the same, the height is from 1 to the one after the checkpoint, nothing stored at it differs, no other block has one of its hashes, and coverage keeps no gap. |
| `HeightFields.WrittenIs` | indexer/database.py:425-441 | A written height has its block, the incoming summaries, and the raw columns and results that were stored or else the incoming ones; other heights stay, and the checkpoint and tip change only for a height above it. |
| `HeightFields.NextRowIs` | indexer/database.py:661-707 | A later write of a path keeps the earlier deployment with its sender and the later activity, by height and then transaction, the stored one if they are the same; the time follows the activity's height, and calls are added only above all counted heights. |
| `HeightInvariants.CallIndexFollowsSummaries` | indexer/database.py:629-658 | After any attempts from an empty database, re-writes with other summaries included, a stored message has an index row if and only if its stored summary shows a well-formed call there, and then exactly that row; no other rows exist. |
| `HeightFields.IndexHoldsFields` | indexer/realm_catalog.py:136-171 | After any attempts from an empty database a row of the call index is, for its height, transaction and message, exactly the record whose path, caller, function, number of arguments and send amount are the values of the message fields of those names, none exactly for null; it is there if and only if such a record exists: a call of a canonical realm path with well-formed fields among the first twenty messages of a parsed summary. |
| `HeightInvariants.CoverageIsContiguous` | indexer/database.py:375-441 | After any attempts from an empty database coverage is the range from the height of the first accepted attempt to the checkpoint, or unset if there was none; every covered height is stored, and other stored heights are below the first. |
| `HeightInvariants.StartNeverMoves` | indexer/database.py:375-441 | From any database, once coverage is set it starts at the same height in all later states of every run. |
| `HeightInvariants.CatalogKindsFollowPaths` | indexer/realm_catalog.py:24-31 | After any attempts the catalog holds canonical paths only, each with the kind that its path has. |
| `HeightInvariants.WriteKeepsValid` | indexer/database.py:317-332 | One write of any height keeps contiguous coverage, the exact call index, equal key sets and distinct hashes. |
| `HeightInvariants.RunExtends` | indexer/database.py:554-612 | Along every run stored blocks, raw transactions and stored results never change and the checkpoint never falls. |
| `HeightInvariants.RepeatedWriteUnchanged` | indexer/database.py:317-332 | Writing an accepted height again is accepted and changes no table. |
| `CatalogCounts.CountersExactIff` | indexer/database.py:661-707 | A write keeps the counters of all paths equal to the totals over the stored blocks if and only if, comparing the stored rows, the incoming ones and their merge, for each path either no stored block at or above the height calls it and the incoming counts are the merged ones, or the merge does not change the height's counts. |
| `CatalogCounts.CatalogIsFold` | indexer/database.py:661-707 | After any run whose re-writes leave the stored transactions of their height as they are, though they may omit a stored result, and whose new heights are not below the first, counters equal the totals over all stored blocks, the deployment is the first and the last activity the last one stored, with its sender and block time, and first-seen is the least height. |
| `CatalogCounts.PositionsOfPath` | indexer/database.py:674-699 | Deployment, last activity and first height stay right for a new height in any order. |
| `CatalogCounts.LateCallIsLost` | indexer/database.py:420-422 | Two named blocks with one call each, as the parser and the normalization leave them, the second below the first, leave counters that are not the totals. |
| `CatalogCounts.RereadCallStays` | indexer/database.py:566-612 | Storing a named height again, now with the fallback summary of a transaction that can no longer be read, is accepted and leaves a counter for a call that no stored summary shows. |
| `RpcSelection.FailoverOrder` | indexer/rpc.py:115-130 | The failover order holds exactly the suitable probes, each as often as it was given, in the order of the rank. |
| `RpcSelection.FailoverByLatency` | indexer/rpc.py:115-130 | The failover order is the healthy, complete and fresh probes from the least latency to the greatest, those without a valid latency last. |
| `RpcSelection.FailoverIsStable` | indexer/rpc.py:128-130 | Probes of equal latency keep the order of the input. |
| `RpcSelection.SelectedHasLeastLatency` | indexer/rpc.py:196-201 | The selected probe has the least latency among the healthy ones within the lag, and none before it has the same. |
| `RpcSelection.SelectedIsFirst` | indexer/rpc.py:61-71 | The endpoint that a probe round flags as selected is the first in its failover order. |
| `RpcSelection.OrderingPermutes` | indexer/runner.py:114-172 | The ordering is a permutation of the candidates. |
| `RpcSelection.ImprovesIff` | indexer/runner.py:141-147 | An endpoint qualifies as better if and only if both latencies are valid and it is faster by at least 50 ms and by at least a quarter. |
| `RpcSelection.RpcSelectionState.OrderCandidates` | indexer/runner.py:114-172 | The method returns the ordering and updates the candidate and its streak as specified. |
| `RpcSelection.RpcSelectionState.RecordSelectionSuccess` | indexer/runner.py:175-194 | Adoption or a fallback resets the pending candidate; otherwise nothing changes. |
| `RpcSelection.SwitchIffConfirmed` | indexer/runner.py:114-172 | In every run an available selected endpoint comes first unless the best alternative has three confirmations, and then that alternative comes first and the selected one second. |
| `RpcSelection.ConfirmationsMean` | indexer/runner.py:147-168 | There are n confirmations if and only if the run ends with a stretch of at least n orderings in which that endpoint was the best alternative and met both thresholds, without rejection, fallback or adoption. |
| `RpcRunner.StoredNext` | indexer/rpc.py:248-252 | Storing a height whose parent hash was checked makes the store ready for the next one, and the height is new. |
| `RpcRunner.StoredAgain` | indexer/runner.py:392-424 | When a height was stored although its commit failed, an accepted write of it by another endpoint has the stored hash and leaves the chain as it is. |
| `RpcRunner.StoredExact` | indexer/database.py:661-707 | A write of a new height after the checkpoint, or one that repeats the stored transactions and time, keeps the realm catalog equal to the fold over the stored blocks. |
| `RpcRunner.Activate` | indexer/runner.py:316-322 | An endpoint is activated if and only if it knows the block below with the stored hash and its selection is recorded; exactly an escaping answer of either ends the cycle. |
| `RpcRunner.AnswerIs` | indexer/runner.py:409-411 | A height is parsed if and only if the payload has content of that height and a block hash; hashes, time, parent and transactions are those of the payload. |
| `RpcRunner.VerifiedHashIs` | indexer/rpc.py:212-252 | A block hash is taken over if and only if it is 64 capital hexadecimal digits and the parent is the expected such hash, if one is expected. |
| `RpcRunner.RunHeight` | indexer/runner.py:392-435 | Failover at one height stores one block that an endpoint answered and that names the expected parent, or nothing. The height is stored if and only if some candidate that has a turn writes it and no earlier one ends the cycle. The cycle is left only for an escaping answer, a lost commit, a refused write or a failure that cannot be recorded; otherwise all candidates fail only when none is left that could serve the height, and every excluded endpoint failed. |
| `RpcRunner.ServedIsObtainable` | indexer/runner.py:392-435 | A candidate that reaches the height, knows the block below, answers a block that names it and is accepted and committed is enough for the height to be stored, if no endpoint ends the cycle. |
| `RpcRunner.RunCycle` | indexer/runner.py:325-439 | Whatever the world does, a cycle leaves a contiguous hash chain; the stored heights are a prefix of the planned range, which ends with the batch or at the highest finalized tip, and all of it unless it was stopped; a cycle that raises has stored one height more than it processed only if a commit stored it and failed; nothing else changes; an exact catalog stays exact if the endpoints agree on each height that may be stored twice. A cycle raises only for one of the listed causes, and without a height to fetch it completes only if an endpoint confirms the checkpoint. |
| `RpcRunner.ReliableEndpoint` | indexer/runner.py:392-439 | With an endpoint that reaches the height and has failed at no height of the cycle, and no endpoint that ends the cycle, the cycle does not raise at that height. |
| `RpcRunner.RunContinuous` | indexer/runner.py:442-536 | From an empty or chained store every sequence of cycles leaves a hash chain in which old blocks are unchanged and every new one was answered by an endpoint, and an exact catalog stays exact if the endpoints agree on each height that is stored twice. |
| `RpcRunner.RunFromEmpty` | indexer/runner.py:442-536 | On a new database every sequence of cycles leaves one chain of blocks that endpoints answered and, under the same condition, the catalog that is their fold. |
| `RpcRunner.TipDeterminesHistory` | indexer/rpc.py:248-252 | Two chained stores that agree on the hash of one height agree on every lower height that both hold, if block hashes commit to parent hashes. |
| `MetadataFingerprint.FingerprintInput` | indexer/realm_metadata_persistence.py:162-183 | The digest is fed the sorted length-prefixed files, and fails if and only if a length does not fit in eight bytes. |
| `MetadataFingerprint.DecodeConcatenated` | indexer/realm_metadata_persistence.py:177-182 | Decoding the fed bytes gives the files back. |
| `MetadataFingerprint.SortedUnique` | indexer/realm_metadata_persistence.py:178 | There is one sorted sequence of the same files. |
| `MetadataFingerprint.BytesBeforeIs` | indexer/realm_metadata_persistence.py:178 | Files are sorted by the first byte that differs, and a proper beginning comes first. |
| `MetadataFingerprint.SameBytesIffSameFiles` | indexer/realm_metadata_persistence.py:3-5 | Two collections are fed as the same bytes if and only if they hold the same names and contents equally often. |
| `MetadataPublish.MetadataStore.Publish` | indexer/realm_metadata_persistence.py:452-571 | The publisher refuses or writes exactly as specified, rewriting files only when the fingerprint differs. |
| `MetadataPublish.PublishIff` | indexer/realm_metadata_persistence.py:452-479 | A publish is accepted if and only if the snapshot is well formed with distinct names, the catalog knows the path with its kind, and no greater height and no later time at its height was published. |
| `MetadataPublish.CurrentIs` | indexer/realm_metadata_persistence.py:403-445 | Each column of the current row shows the status of its own query, with the value and height of this success or else of the last one. |
| `MetadataPublish.ImportRowsAre` | indexer/realm_metadata_persistence.py:544-570 | The import rows are the imports of each file under the name of that file. |
| `MetadataPublish.PublishedIsRewritten` | indexer/realm_metadata_persistence.py:544-570 | If the fingerprint did not change, rewriting would not change a file or import row. |
| `MetadataPublish.SkippingRefinesRewriting` | indexer/realm_metadata_persistence.py:544-570 | After any sequence of publishes, skipping leaves the same tables as always rewriting. |
| `MetadataPublish.RunReflectsAccepted` | indexer/realm_metadata_persistence.py:403-445 | After any sequence of publishes the file and import rows are those of the last accepted snapshot and each capability keeps the value and height of its last success. |
| `MetadataPublish.RunReflectsCurrent` | indexer/realm_metadata_persistence.py:403-445 | For every digest function, the current row has the heights, time and kind of the last accepted snapshot and keeps the value and height of each capability's last success. |
| `MetadataPublish.AcceptedInOrder` | indexer/realm_metadata_persistence.py:472-479 | Accepted snapshots are ordered by height and then by collection time, for every digest function. |
| `MetadataPublish.SuccessNotAboveObserved` | indexer/realm_metadata_persistence.py:403-445 | No retained value is from above the observed height, for every digest function. |
| `SessionPool.GnoRpcClient.CheckoutUnderLock` | scripts/inspect_rpc.py:100-119 | The lock section takes the newest idle session, opens one below the limit, waits, or refuses when closed. |
| `SessionPool.GnoRpcClient.ReturnUnderLock` | scripts/inspect_rpc.py:134-140 | The lock section puts the session back, or drops it from the count when the client is closed. |
| `SessionPool.StepsAreSections` | scripts/inspect_rpc.py:100-142 | The steps of the interleavings are the lock sections of the client, with the thread and session they concern. |
| `SessionPool.GnoRpcClient.CloseUnderLock` | scripts/inspect_rpc.py:144-158 | The lock section of `close`, run without interruption, closes the client, drains the queue newest first and takes the drained sessions off the count; a second close changes nothing. |
| `SessionPool.CloseStepsAreSection` | scripts/inspect_rpc.py:144-158 | In any run, the single steps of an uninterrupted close leave the pool that the section describes, and each drained session out of the pool with just its own `close()` to come. |
| `SessionPool.RunKeepsInvariant` | scripts/inspect_rpc.py:95-158 | In every interleaving of checkout, waiting, return, failed return and close, each opened session is in exactly one place and the count is the number of those in the pool, with threads or being drained. |
| `SessionPool.PoolIsConserved` | scripts/inspect_rpc.py:95-158 | At most twelve sessions are counted, `put_nowait` never finds the queue full, and a closed client keeps no idle session. |
| `SessionPool.SessionsAreExclusive` | scripts/inspect_rpc.py:100-142 | No session is with two threads, or idle while a thread holds it. |
| `SessionPool.ClosedClientLeaksNothing` | scripts/inspect_rpc.py:126-158 | Once a closed client has its sessions back the count is zero and every session ever opened is closed or about to be. |
| `SingleFlight.RunKeepsInvariant` | api/account_service.py:78-136 | Every interleaving keeps leaders, keys in flight, futures, cache entries and hits consistent. |
| `SingleFlight.LookupIs` | api/account_service.py:78-97 | A lookup hits if and only if the key has an entry younger than the lifetime, joins the load in flight otherwise, and else starts one; expired entries are forgotten. |
| `SingleFlight.PublishedIs` | api/account_service.py:126-135 | A loaded value is cached under the clock of its publication if it may be cached; if not, the key is forgotten, and an exception leaves the cache alone. |
| `SingleFlight.AccountCachesSuitable` | api/account_service.py:126-135 | In runs of the account service alone every cached entry was loaded with a suitable candidate. |
| `SingleFlight.OneLoaderPerKey` | api/account_service.py:88-112 | At most one loader of a key is in progress. |
| `SingleFlight.NoOrphanedFollower` | api/gno_block_lookup.py:89-113 | A follower waits on a future of its key that is settled or has a live leader. |
| `SingleFlight.SharedResult` | api/gno_block_lookup.py:99-113 | Every lookup that ended as leader or follower, in any later state of any run, has the outcome that the loader of its future returned, settled and recorded for its key. |
| `SingleFlight.LoadedByLeader` | api/gno_block_lookup.py:99-113 | What a future recorded as loaded was returned by the loader of its own leader. |
| `SingleFlight.HitIsFresh` | api/gno_block_lookup.py:91-96 | A hit returns what a leader loaded for that key and was younger than the lifetime by the clock reading that was compared. |
| `SingleFlight.SampleHitFreshIff` | api/gno_block_lookup.py:90-96 | In any state before the lock section of a block lookup that will hit, the hit will be fresh if and only if the delay since the clock reading is shorter than the lifetime that is left. |
| `SingleFlight.DelayedHitExists` | api/gno_block_lookup.py:90-96 | For every lifetime and every delay there is a schedule whose hit, delayed by that much, has the age lifetime - 1 + delay. |
| `SingleFlight.HitsFreshIffUndelayed` | api/gno_block_lookup.py:90-96 | Hits with a given delay are fresh in all schedules if and only if the delay is zero. |
| `SingleFlight.AccountHitsAreFresh` | api/account_service.py:78-97 | Hits of the account service are younger than the lifetime when they are returned. |
| `SingleFlight.SampleHitCanBeStale` | api/gno_block_lookup.py:90-96 | A named schedule in which the block lookup returns an entry that has outlived its lifetime. |
| `BitRegrouping.ConvertBits` | api/network_profile.py:40-55 | The loop returns the digits that denote the same bit string in the other width, padded or with few zero bits dropped, and None if and only if there are none. |
| `BitRegrouping.RegroupedUnique` | api/network_profile.py:40-55 | At most one digit string meets that description. |
| `BitRegrouping.DecodeUndoesEncode` | api/network_profile.py:40-55 | Regrouping to narrower digits with padding and back without gives the input. |
| `BitRegrouping.EncodeUndoesDecode` | api/network_profile.py:40-55 | A string that decodes is the encoding of what it decodes to. |
| `Bech32Checksum.Polymod` | api/network_profile.py:24-33 | The loop over shifts and generators computes the polynomial remainder register. |
| `Bech32Checksum.GeneratorsDouble` | api/network_profile.py:25 | The five generators are the polynomial of BIP 173 and its doubles in the field of 32 elements. |
| `Bech32Checksum.StepMultiplies` | api/network_profile.py:28-32 | Reading a symbol multiplies the remainder by x, adds the symbol and reduces by x^6 + {29}x^5 + {22}x^4 + {20}x^3 + {21}x^2 + {29}x + {18}, in the field modulo x^5 + x^3 + 1. |
| `Bech32Checksum.StepInjective` | api/network_profile.py:28-32 | Reading the same symbol keeps different registers different. |
| `Bech32Checksum.WindowDifference` | api/network_profile.py:28-32 | The registers after two windows of at most six symbols differ by the differences of the symbols, as no feedback reaches them. |
| `Bech32Checksum.BurstDetected` | api/network_profile.py:24-33 | Changing symbols only inside a window of six, in a string of any length, changes the remainder. |
| `Bech32Checksum.ChecksumExists` | api/network_profile.py:70 | Every prefix has six closing symbols with remainder one. |
| `Bech32Checksum.ChecksumUnique` | api/network_profile.py:70 | No prefix has two. |
| `NetworkProfile.ValidateAccountAddress` | api/network_profile.py:58-73 | The validator accepts exactly the addresses that are framed, spelled, checksummed and regrouped as required. |
| `NetworkProfile.AcceptedIffSplit` | api/network_profile.py:58-73 | An address is accepted if and only if it is the prefix of the profile, a separator and at least six data characters, 8 to 90 in all, whose remainder is one and whose payload has the length of the profile. |
| `NetworkProfile.ExpandedPrefix` | api/network_profile.py:36-37 | Each character of the prefix is fed as its high and its low five bits, with a zero in between. |
| `NetworkProfile.AcceptedIffCanonical` | api/network_profile.py:58-73 | Under the default profile acceptance means `g1`, 38 charset symbols and remainder one, and nothing else. |
| `NetworkProfile.AcceptedIsAddress` | indexer/realm_catalog.py:11 | The address pattern of the indexer is acceptance without the checksum. |
| `NamedAddress.NamedIsAccepted` | api/network_profile.py:58-73 | The address that the tests of account transactions use is accepted. |
| `NetworkProfile.AddressUnique` | api/network_profile.py:58-73 | Two accepted addresses with the same payload are equal. |
| `NetworkProfile.AddressExists` | api/network_profile.py:58-73 | Every payload of twenty octets has an accepted address. |
| `NetworkProfile.BurstRejected` | api/network_profile.py:58-73 | Replacing characters only inside six neighbouring places, anywhere in an accepted address, never gives another accepted address. |
| `CommentStripper.StripComments` | api/token_identity.py:22-48 | The scanner returns the text of the tokens outside comments, and nothing when a block comment stays open. |
| `CommentStripper.FirstTokenIs` | api/token_identity.py:22-48 | The first token is a literal up to its first quote that is not escaped by an odd number of backslashes, a line comment up to the first newline, a block comment up to the first closing pair behind its opening one, or one other character. |
| `CommentStripper.NoTokenIs` | api/token_identity.py:40-44 | There is no first token if and only if a block comment begins and no closing pair follows. |
| `CommentStripper.StripBetween` | api/token_identity.py:40-44 | Code between two block comments is kept. |
| `CommentStripper.UncommentedTokens` | api/token_identity.py:22-48 | The text outside comments is the text of the tokens that are not comments. |
| `CommentStripper.StripKeepsTheOtherTokens` | api/token_identity.py:22-48 | The tokens of the stripped text are the other tokens of the source, in order, with literals unchanged. |
| `CommentStripper.StripIdempotent` | api/token_identity.py:22-48 | Stripping stripped source changes nothing, for every string. |
| `TransactionDecoder.RunReturnsFrames` | indexer/transaction_decoder.py:146-166 | However a stream is cut into reads, consecutive calls return its newline-separated lines up to the first over the limit. |
| `TransactionDecoder.ChunkingIrrelevant` | indexer/transaction_decoder.py:146-166 | Two runs over the same bytes return the same lines and end alike. |
| `TransactionDecoder.Decoder.ReadLine` | indexer/transaction_decoder.py:146-166 | A call hands out the first line of what was and will be received, keeps the rest, and never buffers more than the limit and one read; a failure is the turn that caused it. |
| `TransactionDecoder.Decoder.ReadLines` | indexer/transaction_decoder.py:146-166 | Consecutive calls on one process, until one returns no line, return the frames of all bytes that were buffered or delivered. |
| `TransactionDecoder.Decoder.Decode` | indexer/transaction_decoder.py:62-99 | A request is skipped, fails for a dead process, a failed start or a broken pipe, or gives what reading one line and validating it for this very request gives; after a failure there is neither a process nor a byte left for a later request. |
| `TransactionDecoder.ValidateIs` | indexer/transaction_decoder.py:168-194 | A response is taken if and only if it has version 1 and this request's id, and reports a summary within the bounds, or a safe error code and then nothing. |

## Left out

- HTTP, sockets, pipes, signals, logging, metrics and configuration loading: their outcomes are inputs of the model.
- The text of SQL statements: only what they do to the tables of one chain and realm or path is modelled.
- JSON, Markdown and Gno parsing (`parse_detail`, `parse_votes`, `parse_proposal_list`, `pager_paths`, imports, token calls): the parsed values are inputs.
- `normalize_summary`: summaries are inputs after normalization; both derived tables and the stored row come from the same normalized value.
- Unicode: `casefold` and the joining of white space are one parameter of the voter key; `strip` and `lower` are modelled for ASCII characters.
- Errors inside `normalize_discovery`: they are one error; the order in which its checks are made is not modelled.
- Row order of SELECT results and sorted tuples: rows are keyed by id, voter key or path.
- Column checks of the governance tables on values that the code does not check itself: the length of a folded voter key, integer ranges and NUL characters. A row that they refuse ends the write like a refused time.
- The counts in results of the governance writers (inserted, updated, votes) and `updated_at` columns.
- Parse warnings that the merge of list and detail adds to a refreshed proposal.
- Activity coverage (`advance_realm_activity_coverage`): it stays unset until a rebuild script sets it; the rebuild scripts are not part of this model.
- Validators, validator sets and signatures of a height: whether they agree with what is stored is an input of the height writer.
- Catalog rows written by the RPC path inventory: only the transaction-derived columns of the catalog are modelled.
- Endpoint tables, advisory locks, backoff and the reasons recorded for endpoint switches.
- Some reasons that are only logged are not told apart: a decoder response that is no JSON or no object, and its two unexpected error codes.
- File kinds, sizes, declarations and imports of a metadata file: a function of the file that is a parameter; `validate` checks of single fields are an input.
- Latencies are real numbers or absent; rounding of floating point is not modelled.
- `suitable_rpc_candidates` in `api/account_service.py:128` runs after the future was published and outside the `try`; it is taken not to raise. If it did, that future would stay unsettled.
- `clear_gno_eta_cache` and interrupts that are not exceptions in the single-flight caches.
- `indexer/valopers_persistence.py`: a simpler form of the governance snapshot store.
- FastAPI endpoints, schemas, migrations, probes and backups.
- SessionPool.GnoRpcClient.CloseUnderLock: the method is stated for a drain that no waiting thread interrupts; the interrupted drain is part of the interleavings.
- RpcRunner.RunContinuous: says nothing of the catalog when a height is stored twice with other transactions or another time, where the catalog need not be the fold; it does not decide which exceptions end the run; every sequence of cycles is covered, so every early end is too.
- GovernanceStore.GovernanceTables.PersistSnapshot: the display of the outcome is the action only, not the counters of the result object.
