/** The two governance writers as state transitions of one chain and realm: the full snapshot
    and the quick one, a list scan plus refreshed proposals. A raised exception rolls back. */
module GovernancePersistence {
  import opened Wrappers
  import opened GovernanceModel

  datatype Error =
    | ChainIdentity | IncompleteSnapshot | StaleSnapshot | SnapshotConflict | StoredState | Invalid | PostWriteCheck
    | TableCheck

  datatype Action = Applied | Unchanged

  type Outcome = Result<Action, Error>

  /** The rows of the three tables for one chain and realm, and the chain that owns the indexer state. */
  datatype Store = Store(
    identity: Option<string>, sync: Option<Sync>, proposals: map<int, ProposalRow>, votes: map<VoteId, VoteRow>)

  // ----- what is read back: `_load` -----

  ghost predicate HasVotes(votes: map<VoteId, VoteRow>, id: int) {
    exists key :: (id, key) in votes
  }

  type RawPairs = map<int, (string, string)>

  function StoredRaw(proposals: map<int, ProposalRow>): RawPairs {
    map id | id in proposals :: (proposals[id].content.rawDetail, proposals[id].content.rawVotes)
  }

  ghost function PairTotal(pairs: RawPairs): nat
    decreases |pairs|
  {
    if pairs == map[] then 0
    else
      var id := Pick(pairs.Keys);
      Utf8Length(pairs[id].0) + Utf8Length(pairs[id].1) + PairTotal(pairs - {id})
  }

  ghost predicate IsLeast(ids: set<int>, m: int) { m in ids && forall x :: x in ids ==> m <= x }
  ghost predicate IsGreatest(ids: set<int>, m: int) { m in ids && forall x :: x in ids ==> x <= m }

  /** The metadata columns describe exactly these ids. */
  ghost predicate Describes(sync: Sync, ids: set<int>) {
    && sync.proposalCount == |ids|
    && if ids == {} then sync.firstId.None? && sync.latestId.None?
       else sync.firstId.Some? && sync.latestId.Some?
            && IsLeast(ids, sync.firstId.value) && IsGreatest(ids, sync.latestId.value)
  }

  ghost predicate SyncOk(sync: Sync, ids: set<int>) {
    && sync.sourceHeight >= 1 && 1 <= sync.pageCount <= MAX_GOVERNANCE_PAGES
    && sync.proposalCount <= MAX_GOVERNANCE_PROPOSALS
    && Describes(sync, ids)
  }

  ghost predicate ProposalsOk(proposals: map<int, ProposalRow>, votes: map<VoteId, VoteRow>, height: int) {
    forall id :: id in proposals ==>
      && id >= 0 && StoredContentOk(proposals[id].content) && SeenOk(proposals[id].seen, height)
      && (proposals[id].content.votesStatus == VotesParsed <==> HasVotes(votes, id))
  }

  ghost predicate VotesOk(fold: Folding, ids: set<int>, votes: map<VoteId, VoteRow>, height: int) {
    forall v :: v in votes ==>
      v.0 in ids && StoredVoteOk(fold, v.1, votes[v].content) && SeenOk(votes[v].seen, height)
  }

  /** `_load` accepts the stored rows. */
  ghost predicate Loadable(fold: Folding, s: Store) {
    if s.sync.None? then s.proposals == map[] && s.votes == map[]
    else
      && SyncOk(s.sync.value, s.proposals.Keys)
      && ProposalsOk(s.proposals, s.votes, s.sync.value.sourceHeight)
      && PairTotal(StoredRaw(s.proposals)) <= MAX_TOTAL_RAW_BYTES
      && VotesOk(fold, s.proposals.Keys, s.votes, s.sync.value.sourceHeight)
  }

  // ----- what a write leaves -----

  /** The observation columns after an upsert. */
  function SeenAgain(known: bool, before: Seen, height: int, now: int): Seen {
    if known then before.(lastHeight := height, lastAt := now) else Seen(height, height, now, now)
  }

  function UpsertedProposal(proposals: map<int, ProposalRow>, id: int, c: Content, height: int,
                            now: int): ProposalRow {
    if id in proposals then ProposalRow(c, SeenAgain(true, proposals[id].seen, height, now))
    else ProposalRow(c, Seen(height, height, now, now))
  }

  function UpsertedVote(votes: map<VoteId, VoteRow>, v: VoteId, c: VoteContent, height: int, now: int): VoteRow {
    if v in votes then VoteRow(c, SeenAgain(true, votes[v].seen, height, now))
    else VoteRow(c, Seen(height, height, now, now))
  }

  /** The proposals after the rows were upserted. */
  function MergedProposals(proposals: map<int, ProposalRow>, rows: map<int, Normalized>, height: int,
                           now: int): map<int, ProposalRow> {
    map id | id in proposals.Keys + rows.Keys ::
      if id in rows then UpsertedProposal(proposals, id, rows[id].content, height, now) else proposals[id]
  }

  function RowVotes(rows: map<int, Normalized>): set<VoteId> {
    set id, key | id in rows && key in rows[id].votes :: (id, key)
  }

  /** The votes after each row's votes replaced the stored ones of its proposal. */
  function MergedVotes(votes: map<VoteId, VoteRow>, rows: map<int, Normalized>, height: int, now: int): map<VoteId,
                       VoteRow> {
    map v | v in (set v | v in votes && v.0 !in rows) + RowVotes(rows) ::
      if v.0 in rows && v.1 in rows[v.0].votes then UpsertedVote(votes, v, rows[v.0].votes[v.1], height, now)
      else if v in votes then votes[v] else VoteRow(VoteContent("", None, Yes, "", 0), Seen(0, 0, 0, 0))
  }

  ghost function SyncAfter(height: int, pageCount: int, ids: set<int>): (sync: Sync)
    ensures sync.sourceHeight == height && sync.pageCount == pageCount && Describes(sync, ids)
  {
    if ids == {} then Sync(height, pageCount, 0, None, None)
    else
      var (least, greatest) := Extremes(ids);
      Sync(height, pageCount, |ids|, Some(least), Some(greatest))
  }

  ghost function Extremes(ids: set<int>): (r: (int, int))
    requires ids != {}
    ensures IsLeast(ids, r.0) && IsGreatest(ids, r.1)
    decreases |ids|
  {
    var x := Pick(ids);
    var rest := ids - {x};
    if rest == {} then
      assert ids == {x};
      (x, x)
    else
      var r := Extremes(rest);
      assert forall y :: y in ids ==> y == x || y in rest;
      (if x < r.0 then x else r.0, if x > r.1 then x else r.1)
  }

  lemma DescribesUnique(a: Sync, b: Sync, ids: set<int>)
    requires Describes(a, ids) && Describes(b, ids)
    ensures a.proposalCount == b.proposalCount && a.firstId == b.firstId && a.latestId == b.latestId
  {
  }

  ghost function Written(s: Store, rows: map<int, Normalized>, height: int, pageCount: int, ids: set<int>,
                         now: int): Store {
    s.(sync := Some(SyncAfter(height, pageCount, ids)),
       proposals := MergedProposals(s.proposals, rows, height, now),
       votes := MergedVotes(s.votes, rows, height, now))
  }

  // ----- the status machine -----

  /** `_TRANSITIONS`, and staying put. */
  predicate Allowed(before: Status, after: Status) {
    || before == after
    || (before == Active && (after == Accepted || after == Rejected))
    || (before == Unknown && (after == Active || after == Accepted || after == Rejected))
  }

  predicate Forbidden(proposals: map<int, ProposalRow>, rows: map<int, Normalized>, id: int) {
    id in rows && id in proposals && !Allowed(proposals[id].content.status, rows[id].content.status)
  }

  // ----- what the tables refuse -----

  /** Upserting the row would date a last observation before the first one. Transaction times are
      taken before the writers queue for their lock, so they need not follow the order of the writes;
      the `times` constraints of the two tables refuse such an upsert. */
  predicate Late(proposals: map<int, ProposalRow>, votes: map<VoteId, VoteRow>, id: int, row: Normalized, now: int) {
    || (id in proposals && now < proposals[id].seen.firstAt)
    || exists key :: key in row.votes && (id, key) in votes && now < votes[(id, key)].seen.firstAt
  }

  predicate NoneLate(proposals: map<int, ProposalRow>, votes: map<VoteId, VoteRow>, rows: map<int, Normalized>,
                     now: int) {
    forall id :: id in rows ==> !Late(proposals, votes, id, rows[id], now)
  }

  /** A forbidden transition is met before any late row; rows are written in the order of their ids. */
  predicate ForbiddenFirst(proposals: map<int, ProposalRow>, votes: map<VoteId, VoteRow>, rows: map<int, Normalized>,
                           now: int) {
    exists id :: id in rows && Forbidden(proposals, rows, id)
      && forall x :: x in rows && x < id ==> !Late(proposals, votes, x, rows[x], now)
  }

  /** Why the write loop ends early. Only the full writer checks transitions in it. */
  function RowsRefusal(proposals: map<int, ProposalRow>, votes: map<VoteId, VoteRow>, rows: map<int, Normalized>,
                       now: int, checked: bool): Option<Error> {
    if checked && ForbiddenFirst(proposals, votes, rows, now) then Some(SnapshotConflict)
    else if !NoneLate(proposals, votes, rows, now) then Some(TableCheck)
    else None
  }

  /** The constraint on chain ids in every governance table. */
  predicate StorableChain(chain: string) { 1 <= |chain| <= 128 }

  // ----- the full writer -----

  /** The stored proposals and votes have the content of the incoming rows, and there are no others. */
  predicate SameContent(proposals: map<int, ProposalRow>, votes: map<VoteId, VoteRow>, rows: map<int, Normalized>) {
    && proposals.Keys == rows.Keys
    && (forall id :: id in rows ==> proposals[id].content == rows[id].content)
    && votes.Keys == RowVotes(rows)
    && (forall v :: v in votes ==> votes[v].content == rows[v.0].votes[v.1])
  }

  /** The metadata columns of a sync row agree with a page count and a set of ids. */
  ghost predicate SameMetadata(sync: Sync, pageCount: int, ids: set<int>) {
    sync.pageCount == pageCount && Describes(sync, ids)
  }

  ghost function PersistFull(fold: Folding, s: Store, d: Discovery, chain: string, now: int): (r: (Store, Outcome))
    ensures r.1 != Ok(Applied) ==> r.0 == s
  {
    if !Acceptable(fold, d, chain) then (s, Err(Invalid))
    else
      var rows := RowsById(fold, d.proposals, d.rawRenders);
      var height := d.source.observedHeight;
      if s.identity.Some? && s.identity.value != d.source.chainId then (s, Err(ChainIdentity))
      else if !Loadable(fold, s) then (s, Err(StoredState))
      else if s.sync.Some? && s.sync.value.sourceHeight > height then (s, Err(StaleSnapshot))
      else if s.sync.Some? && s.sync.value.sourceHeight == height then
        if SameMetadata(s.sync.value, d.pageCount, rows.Keys) && SameContent(s.proposals, s.votes, rows)
        then (s, Ok(Unchanged)) else (s, Err(SnapshotConflict))
      else if !(s.proposals.Keys <= rows.Keys) then (s, Err(SnapshotConflict))
      else if RowsRefusal(s.proposals, s.votes, rows, now, true).Some?
      then (s, Err(RowsRefusal(s.proposals, s.votes, rows, now, true).value))
      else
        var t := Written(s, rows, height, d.pageCount, rows.Keys, now);
        if !Loadable(fold, t) || !SameContent(t.proposals, t.votes, rows) then (s, Err(PostWriteCheck))
        else (t, Ok(Applied))
  }

  // ----- the quick writer -----

  predicate DistinctSummaries(summaries: seq<Summary>) {
    forall i, j :: 0 <= i < j < |summaries| ==> summaries[i].id != summaries[j].id
  }

  function Listed(summaries: seq<Summary>): (m: map<int, Summary>)
    ensures forall i :: 0 <= i < |summaries| ==> summaries[i].id in m
    ensures forall id :: id in m ==> m[id].id == id && m[id] in summaries
  {
    if summaries == [] then map[]
    else
      var n := |summaries| - 1;
      Listed(summaries[..n])[summaries[n].id := summaries[n]]
  }

  predicate NeedsRefresh(listed: map<int, Summary>, proposals: map<int, ProposalRow>, id: int) {
    id in listed &&
    (|| id !in proposals
     || proposals[id].content.status == Active || proposals[id].content.status == Unknown
     || listed[id].status == Active || listed[id].status == Unknown)
  }

  /** `select_governance_refresh_ids`: what has to be refreshed, given the stored rows. */
  function Required(listed: map<int, Summary>, proposals: map<int, ProposalRow>): set<int> {
    set id | id in listed && NeedsRefresh(listed, proposals, id)
  }

  predicate TargetsWellFormed(targeted: seq<Discovery>, source: Source, listed: map<int, Summary>) {
    && (forall i :: 0 <= i < |targeted| ==>
          targeted[i].source == source && |targeted[i].proposals| == 1 && targeted[i].proposals[0].id in listed)
    && (forall i, j :: 0 <= i < j < |targeted| && |targeted[i].proposals| == 1 && |targeted[j].proposals| == 1 ==>
          targeted[i].proposals[0].id != targeted[j].proposals[0].id)
  }

  /** The complete one-page discovery that a targeted one is normalized as. */
  function Candidate(source: Source, t: Discovery): Discovery {
    Discovery(source, true, 1, t.proposals, t.rawRenders)
  }

  ghost predicate TargetAcceptable(fold: Folding, source: Source, t: Discovery, chain: string,
                                   listed: map<int, Summary>) {
    && Acceptable(fold, Candidate(source, t), chain)
    && |t.proposals| == 1 && t.proposals[0].id in listed
    && (t.proposals[0].status == listed[t.proposals[0].id].status || listed[t.proposals[0].id].status == Unknown)
  }

  /** The normalized refreshed proposals by id. */
  function TargetRows(fold: Folding, targeted: seq<Discovery>): (rows: map<int, Normalized>)
    ensures forall i :: 0 <= i < |targeted| && |targeted[i].proposals| == 1 ==> targeted[i].proposals[0].id in rows
    ensures forall id :: id in rows ==>
      exists i :: 0 <= i < |targeted| && |targeted[i].proposals| == 1 && targeted[i].proposals[0].id == id
  {
    if targeted == [] then map[]
    else
      var n := |targeted| - 1;
      var rest := TargetRows(fold, targeted[..n]);
      if |targeted[n].proposals| != 1 then rest
      else rest[targeted[n].proposals[0].id := NormalizedDetail(fold, targeted[n].proposals[0], targeted[n].rawRenders)]
  }

  /** `_final_incremental_raw_bytes`: stored renders overlaid with the refreshed ones. */
  function FinalRaw(proposals: map<int, ProposalRow>, rows: map<int, Normalized>): RawPairs {
    map id | id in proposals.Keys + rows.Keys ::
      if id in rows then (rows[id].content.rawDetail, rows[id].content.rawVotes)
      else (proposals[id].content.rawDetail, proposals[id].content.rawVotes)
  }

  /** The six columns that a list summary shares with a stored row. */
  predicate Agrees(listed: Summary, c: Content) {
    && listed.title == c.texts.title
    && listed.authorDisplay == c.texts.authorDisplay && listed.authorAddress == c.texts.authorAddress
    && listed.status == c.status && listed.eligibleTiers == c.texts.eligibleTiers
  }

  /** The stored content of one proposal equals one refreshed row. */
  ghost predicate SameRow(proposals: map<int, ProposalRow>, votes: map<VoteId, VoteRow>, id: int, row: Normalized) {
    && id in proposals && proposals[id].content == row.content
    && (forall key :: (id, key) in votes <==> key in row.votes)
    && (forall key :: key in row.votes ==> (id, key) in votes && votes[(id, key)].content == row.votes[key])
  }

  ghost predicate ListAcceptable(l: Listing) {
    && l.source.realmPath != "" && Bounded(l.source.realmPath, 512)
    && l.source.observedHeight >= 1
    && 1 <= l.pageCount <= MAX_GOVERNANCE_PAGES
    && DistinctSummaries(l.proposals) && |l.proposals| <= MAX_GOVERNANCE_PROPOSALS
  }

  /** Everything that is checked before the writer looks at the stored height. */
  ghost function QuickPrecheck(fold: Folding, s: Store, l: Listing, targeted: seq<Discovery>,
                               chain: string): Option<Error> {
    var listed := Listed(l.proposals);
    if !l.complete then Some(IncompleteSnapshot)
    else if l.source.chainId != chain then Some(ChainIdentity)
    else if !ListAcceptable(l) then Some(Invalid)
    else if s.identity.Some? && s.identity.value != l.source.chainId then Some(ChainIdentity)
    else if !Loadable(fold, s) then Some(StoredState)
    else if s.sync.Some? && s.sync.value.sourceHeight > l.source.observedHeight then Some(StaleSnapshot)
    else if !(s.proposals.Keys <= listed.Keys) then Some(SnapshotConflict)
    else if !TargetsWellFormed(targeted, l.source, listed) then Some(Invalid)
    else if exists i :: 0 <= i < |targeted| && !TargetAcceptable(fold, l.source, targeted[i], chain, listed)
    then Some(Invalid)
    else if PairTotal(FinalRaw(s.proposals, TargetRows(fold, targeted))) > MAX_TOTAL_RAW_BYTES
    then Some(IncompleteSnapshot)
    else None
  }

  /** Every listed proposal is stored and agrees with its row in the shared columns. */
  predicate ListedAgrees(listed: map<int, Summary>, proposals: map<int, ProposalRow>) {
    forall id :: id in listed ==> id in proposals && Agrees(listed[id], proposals[id].content)
  }

  /** The refreshed proposals include the required ones, were terminal at this height otherwise,
      and are stored as they are. */
  ghost predicate TargetsRepeat(proposals: map<int, ProposalRow>, votes: map<VoteId, VoteRow>, required: set<int>,
                                rows: map<int, Normalized>, height: int) {
    && required <= rows.Keys
    && (forall id :: id in rows.Keys - required ==>
          && id in proposals
          && (proposals[id].content.status == Accepted || proposals[id].content.status == Rejected)
          && proposals[id].seen.lastHeight == height)
    && (forall id :: id in rows ==> SameRow(proposals, votes, id, rows[id]))
  }

  /** Accepting a repeated quick write at the stored height. */
  ghost predicate RetryAccepted(s: Store, l: Listing, rows: map<int, Normalized>)
    requires s.sync.Some?
  {
    var listed := Listed(l.proposals);
    && SameMetadata(s.sync.value, l.pageCount, listed.Keys)
    && ListedAgrees(listed, s.proposals)
    && TargetsRepeat(s.proposals, s.votes, Required(listed, s.proposals), rows, l.source.observedHeight)
  }

  ghost function PersistQuick(fold: Folding, s: Store, l: Listing, targeted: seq<Discovery>, chain: string,
                              now: int): (r: (Store, Outcome))
    ensures r.1 != Ok(Applied) ==> r.0 == s
  {
    var e := QuickPrecheck(fold, s, l, targeted, chain);
    if e.Some? then (s, Err(e.value))
    else
      var listed := Listed(l.proposals);
      var rows := TargetRows(fold, targeted);
      var height := l.source.observedHeight;
      if s.sync.Some? && s.sync.value.sourceHeight == height then
        if RetryAccepted(s, l, rows) then (s, Ok(Unchanged)) else (s, Err(SnapshotConflict))
      else if exists id :: id in s.proposals && !Allowed(s.proposals[id].content.status, listed[id].status)
      then (s, Err(SnapshotConflict))
      else if rows.Keys != Required(listed, s.proposals) then (s, Err(Invalid))
      else if RowsRefusal(s.proposals, s.votes, rows, now, false).Some? || !StorableChain(l.source.chainId)
      then (s, Err(TableCheck))
      else (Written(s, rows, height, l.pageCount, listed.Keys, now), Ok(Applied))
  }
}
