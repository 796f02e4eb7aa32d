/** The main results about the governance store: what any interleaving of full and quick writes
    keeps, when the quick writer gives what the full one would, and when a retry is accepted. */
module GovernanceRuns {
  import opened Wrappers
  import opened GovernanceModel
  import opened GovernancePersistence
  import opened GovernanceInvariants

  // ----- one write -----

  datatype Write =
    | Full(discovery: Discovery, chain: string, now: int)
    | Quick(listing: Listing, targeted: seq<Discovery>, chain: string, now: int)

  ghost function Apply(fold: Folding, s: Store, w: Write): (Store, Outcome) {
    match w
    case Full(d, chain, now) => PersistFull(fold, s, d, chain, now)
    case Quick(l, targeted, chain, now) => PersistQuick(fold, s, l, targeted, chain, now)
  }

  /** The same status, or one of the five moves. */
  predicate Forward(a: Status, b: Status) {
    || a == b
    || (a, b) == (Active, Accepted) || (a, b) == (Active, Rejected)
    || (a, b) == (Unknown, Active) || (a, b) == (Unknown, Accepted) || (a, b) == (Unknown, Rejected)
  }

  ghost predicate Advances(a: map<int, ProposalRow>, b: map<int, ProposalRow>) {
    a.Keys <= b.Keys && forall id :: id in a ==>
      && Forward(a[id].content.status, b[id].content.status)
      && a[id].seen.firstHeight == b[id].seen.firstHeight && a[id].seen.firstAt == b[id].seen.firstAt
  }

  /** No proposal disappears, statuses move forward only, and so does the source height; the first
      observation of a proposal stays. */
  ghost predicate Progress(s: Store, t: Store) {
    && t.identity == s.identity
    && Advances(s.proposals, t.proposals)
    && (s.sync.Some? ==> t.sync.Some? && s.sync.value.sourceHeight <= t.sync.value.sourceHeight)
  }

  lemma ProgressTransitive(a: Store, b: Store, c: Store)
    requires Progress(a, b) && Progress(b, c)
    ensures Progress(a, c)
  {
  }

  lemma FullAdvances(proposals: map<int, ProposalRow>, rows: map<int, Normalized>, height: int, now: int)
    requires proposals.Keys <= rows.Keys
    requires forall id :: id in proposals ==> Allowed(proposals[id].content.status, rows[id].content.status)
    ensures Advances(proposals, MergedProposals(proposals, rows, height, now))
  {
  }

  lemma FullMoves(fold: Folding, s: Store, d: Discovery, chain: string, now: int)
    requires PersistFull(fold, s, d, chain, now).1 == Ok(Applied)
    ensures var rows := RowsById(fold, d.proposals, d.rawRenders);
            forall id :: id in s.proposals ==>
              id in rows && Allowed(s.proposals[id].content.status, rows[id].content.status)
  {
    hide Acceptable, Loadable, RowsById, SameContent, SameMetadata, Written, NoneLate;
    var rows := RowsById(fold, d.proposals, d.rawRenders);
    NoneForbidden(s.proposals, s.votes, rows, now);
    hide ForbiddenFirst;
    assert forall id :: id in s.proposals ==> !Forbidden(s.proposals, rows, id);
  }

  lemma NoneForbidden(proposals: map<int, ProposalRow>, votes: map<VoteId, VoteRow>, rows: map<int, Normalized>,
                      now: int)
    requires RowsRefusal(proposals, votes, rows, now, true).None?
    ensures forall id :: !Forbidden(proposals, rows, id)
  {
    hide Late, Allowed;
    forall id ensures !Forbidden(proposals, rows, id) {
      if Forbidden(proposals, rows, id) {
        ForbiddenIsFirst(proposals, votes, rows, now, id);
        assert false;
      }
    }
  }

  lemma ForbiddenIsFirst(proposals: map<int, ProposalRow>, votes: map<VoteId, VoteRow>, rows: map<int, Normalized>,
                         now: int, id: int)
    requires NoneLate(proposals, votes, rows, now) && Forbidden(proposals, rows, id)
    ensures ForbiddenFirst(proposals, votes, rows, now)
  {
    hide Late, Allowed;
    assert forall x :: x in rows && x < id ==> !Late(proposals, votes, x, rows[x], now);
  }

  lemma FullProgress(fold: Folding, s: Store, d: Discovery, chain: string, now: int)
    ensures Progress(s, PersistFull(fold, s, d, chain, now).0)
  {
    if PersistFull(fold, s, d, chain, now).1 == Ok(Applied) {
      var rows := FullResult(fold, s, d, chain, now);
      FullMoves(fold, s, d, chain, now);
      FullAdvances(s.proposals, rows, d.source.observedHeight, now);
      hide PersistFull, Advances, RowsById, Loadable, Acceptable;
    } else {
      ProgressReflexive(s);
    }
  }

  lemma MergedAdvances(proposals: map<int, ProposalRow>, rows: map<int, Normalized>, listed: map<int, Summary>,
                       height: int, now: int)
    requires proposals.Keys <= listed.Keys
    requires forall id :: id in proposals ==> Allowed(proposals[id].content.status, listed[id].status)
    requires FollowsList(rows, listed) && forall id :: id in rows ==> !rows[id].content.status.OtherStatus?
    ensures Advances(proposals, MergedProposals(proposals, rows, height, now))
  {
  }

  lemma StorableStatus(fold: Folding, rows: map<int, Normalized>)
    requires AllStorable(fold, rows)
    ensures forall id :: id in rows ==> !rows[id].content.status.OtherStatus?
  {
  }

  lemma QuickProgress(fold: Folding, s: Store, l: Listing, targeted: seq<Discovery>, chain: string, now: int)
    ensures Progress(s, PersistQuick(fold, s, l, targeted, chain, now).0)
  {
    if PersistQuick(fold, s, l, targeted, chain, now).1 == Ok(Applied) {
      var rows := QuickResult(fold, s, l, targeted, chain, now);
      StorableStatus(fold, rows);
      MergedAdvances(s.proposals, rows, Listed(l.proposals), l.source.observedHeight, now);
    } else {
      ProgressReflexive(s);
    }
  }

  lemma QuickResult(fold: Folding, s: Store, l: Listing, targeted: seq<Discovery>, chain: string, now: int)
    returns (rows: map<int, Normalized>)
    requires PersistQuick(fold, s, l, targeted, chain, now).1 == Ok(Applied)
    ensures rows == TargetRows(fold, targeted) && QuickReady(fold, s, l, rows)
    ensures NoneLate(s.proposals, s.votes, rows, now)
    ensures PersistQuick(fold, s, l, targeted, chain, now).0
         == Written(s, rows, l.source.observedHeight, l.pageCount, Listed(l.proposals).Keys, now)
  {
    rows := TargetRows(fold, targeted);
    hide PersistQuick, TargetRows, QuickReady;
    QuickChecked(fold, s, l, targeted, chain, now);
    QuickWritten(fold, s, l, targeted, chain, now);
  }

  lemma FullResult(fold: Folding, s: Store, d: Discovery, chain: string, now: int)
    returns (rows: map<int, Normalized>)
    requires PersistFull(fold, s, d, chain, now).1 == Ok(Applied)
    ensures rows == RowsById(fold, d.proposals, d.rawRenders) && FullReady(fold, s, d, chain)
    ensures PersistFull(fold, s, d, chain, now).0
         == Written(s, rows, d.source.observedHeight, d.pageCount, rows.Keys, now)
  {
    hide Acceptable, Loadable, RowsById, SameContent, SameMetadata, Written, ForbiddenFirst, NoneLate;
    rows := RowsById(fold, d.proposals, d.rawRenders);
  }

  lemma WrittenFollowsList(fold: Folding, proposals: map<int, ProposalRow>, rows: map<int, Normalized>,
                           listed: map<int, Summary>,
                           height: int, now: int, id: int)
    requires rows.Keys == Required(listed, proposals) && FollowsList(rows, listed)
    requires proposals.Keys <= listed.Keys
    requires forall x :: x in proposals ==>
      !proposals[x].content.status.OtherStatus? && Allowed(proposals[x].content.status, listed[x].status)
    requires id in listed && listed[id].status != Unknown
    ensures var t := MergedProposals(proposals, rows, height, now); id in t && t[id].content.status == listed[id].status
  {
  }

  /** After a quick write every proposal has its listed status, unless the list does not know it. */
  lemma QuickFollowsList(fold: Folding, s: Store, l: Listing, targeted: seq<Discovery>, chain: string, now: int,
                         id: int)
    requires PersistQuick(fold, s, l, targeted, chain, now).1 == Ok(Applied)
    requires id in Listed(l.proposals) && Listed(l.proposals)[id].status != Unknown
    ensures var t := PersistQuick(fold, s, l, targeted, chain, now).0;
            id in t.proposals && t.proposals[id].content.status == Listed(l.proposals)[id].status
  {
    var rows := QuickResult(fold, s, l, targeted, chain, now);
    StoredStatusOk(fold, s);
    WrittenFollowsList(fold, s.proposals, rows, Listed(l.proposals), l.source.observedHeight, now, id);
  }

  lemma MergedObserved(proposals: map<int, ProposalRow>, rows: map<int, Normalized>, height: int, now: int, id: int)
    requires id in proposals && id !in rows ==> proposals[id].seen.lastHeight < height
    requires id in proposals || id in rows
    ensures MergedProposals(proposals, rows, height, now)[id].seen.lastHeight == height <==> id in rows
  {
  }

  lemma SeenBefore(fold: Folding, s: Store, height: int, id: int)
    requires Loadable(fold, s) && (s.sync.Some? ==> s.sync.value.sourceHeight < height) && id in s.proposals
    ensures s.proposals[id].seen.lastHeight < height
  {
    hide StoredContentOk, StoredVoteOk, HasVotes, PairTotal, SyncOk, VotesOk;
  }

  /** A quick write leaves its height as the last observation on the refreshed proposals and on no others. */
  lemma QuickObserves(fold: Folding, s: Store, l: Listing, targeted: seq<Discovery>, chain: string, now: int, id: int)
    requires PersistQuick(fold, s, l, targeted, chain, now).1 == Ok(Applied)
    requires id in PersistQuick(fold, s, l, targeted, chain, now).0.proposals
    ensures PersistQuick(fold, s, l, targeted, chain, now).0.proposals[id].seen.lastHeight == l.source.observedHeight
      <==> id in Required(Listed(l.proposals), s.proposals)
  {
    var rows := QuickResult(fold, s, l, targeted, chain, now);
    hide PersistQuick, Listed, TargetRows, Loadable, Required, ListAcceptable, AllStorable, FollowsList, PairTotal,
      FinalRaw;
    MergedRaw(s.proposals, rows, l.source.observedHeight, now);
    if id in s.proposals { SeenBefore(fold, s, l.source.observedHeight, id); }
    MergedObserved(s.proposals, rows, l.source.observedHeight, now, id);
  }

  lemma StoredStatusOk(fold: Folding, s: Store)
    requires Loadable(fold, s)
    ensures forall id :: id in s.proposals ==> !s.proposals[id].content.status.OtherStatus?
  {
    var before := LoadableTables(fold, s);
  }

  // ----- any interleaving of writes -----

  ghost function Run(fold: Folding, s: Store, writes: seq<Write>): Store {
    if writes == [] then s else Apply(fold, Run(fold, s, writes[..|writes| - 1]), writes[|writes| - 1]).0
  }

  /** What one write keeps. */
  ghost predicate Kept(fold: Folding, s: Store, t: Store, r: Outcome) {
    && (Loadable(fold, s) ==> Loadable(fold, t))
    && Progress(s, t) && r != Err(PostWriteCheck)
  }

  lemma FullKeeps(fold: Folding, s: Store, d: Discovery, chain: string, now: int)
    ensures Kept(fold, s, PersistFull(fold, s, d, chain, now).0, PersistFull(fold, s, d, chain, now).1)
  {
    hide PersistFull, Loadable, Progress;
    FullProgress(fold, s, d, chain, now);
    FullKeepsLoadable(fold, s, d, chain, now);
  }

  lemma QuickNeverChecks(fold: Folding, s: Store, l: Listing, targeted: seq<Discovery>, chain: string, now: int)
    ensures PersistQuick(fold, s, l, targeted, chain, now).1 != Err(PostWriteCheck)
  {
    hide Loadable, ListAcceptable, TargetsWellFormed, TargetAcceptable, PairTotal, Required, RetryAccepted, Late,
      Written;
  }

  lemma QuickKeeps(fold: Folding, s: Store, l: Listing, targeted: seq<Discovery>, chain: string, now: int)
    ensures Kept(fold, s, PersistQuick(fold, s, l, targeted, chain, now).0,
                 PersistQuick(fold, s, l, targeted, chain, now).1)
  {
    hide PersistQuick, Loadable, Progress;
    QuickProgress(fold, s, l, targeted, chain, now);
    QuickNeverChecks(fold, s, l, targeted, chain, now);
    if Loadable(fold, s) {
      QuickKeepsLoadable(fold, s, l, targeted, chain, now);
    }
  }

  lemma ApplyKeeps(fold: Folding, s: Store, w: Write)
    ensures Kept(fold, s, Apply(fold, s, w).0, Apply(fold, s, w).1)
  {
    hide PersistFull, PersistQuick, Kept;
    match w
    case Full(d, chain, now) => FullKeeps(fold, s, d, chain, now);
    case Quick(l, targeted, chain, now) => QuickKeeps(fold, s, l, targeted, chain, now);
  }

  /** From any state that loads, every state of every run loads, whatever the transaction times are. */
  lemma {:induction false} RunStaysLoadable(fold: Folding, s: Store, writes: seq<Write>)
    requires Loadable(fold, s)
    ensures Loadable(fold, Run(fold, s, writes))
  {
    if writes != [] {
      hide Loadable, Apply, Progress;
      var n := |writes| - 1;
      RunStaysLoadable(fold, s, writes[..n]);
      ApplyKeeps(fold, Run(fold, s, writes[..n]), writes[n]);
    }
  }

  lemma ProgressReflexive(s: Store)
    ensures Progress(s, s)
  {
  }

  /** Between any two states of a run, from any store at all, no proposal disappears, no status goes
      back, first observations stay, and the source height does not fall. */
  lemma {:induction false} RunOnlyAdvances(fold: Folding, s: Store, writes: seq<Write>, i: nat)
    requires i <= |writes|
    ensures Progress(Run(fold, s, writes[..i]), Run(fold, s, writes))
  {
    hide Loadable, Apply, Progress;
    var n := |writes| - 1;
    if i == |writes| {
      assert writes[..i] == writes;
      ProgressReflexive(Run(fold, s, writes));
    } else {
      var shorter := writes[..n];
      assert shorter[..i] == writes[..i];
      RunOnlyAdvances(fold, s, shorter, i);
      ApplyKeeps(fold, Run(fold, s, shorter), writes[n]);
      ProgressTransitive(Run(fold, s, writes[..i]), Run(fold, s, shorter), Run(fold, s, writes));
    }
  }

  /** An accepted or rejected proposal keeps its status for the rest of every run. */
  lemma TerminalStays(fold: Folding, s: Store, writes: seq<Write>, i: nat, id: int)
    requires i <= |writes|
    requires var p := Run(fold, s, writes[..i]).proposals;
             id in p && (p[id].content.status == Accepted || p[id].content.status == Rejected)
    ensures id in Run(fold, s, writes).proposals
    ensures Run(fold, s, writes).proposals[id].content.status == Run(fold, s, writes[..i]).proposals[id].content.status
  {
    RunOnlyAdvances(fold, s, writes, i);
    hide Run;
  }

  // ----- the quick writer against the full one -----

  /** The same content, votes and metadata; observation heights and times may differ. */
  ghost predicate SameTables(a: Store, b: Store) {
    && a.sync == b.sync
    && a.proposals.Keys == b.proposals.Keys
    && (forall id :: id in a.proposals ==> a.proposals[id].content == b.proposals[id].content)
    && a.votes.Keys == b.votes.Keys
    && (forall v :: v in a.votes ==> a.votes[v].content == b.votes[v].content)
  }

  /** Both writers saw the same chain at the same height: the same pages, the same proposals, and the
      same rows for the proposals that the quick writer refreshed. */
  ghost predicate SameScan(fold: Folding, l: Listing, targeted: seq<Discovery>, d: Discovery) {
    var listed, rows, all := Listed(l.proposals), TargetRows(fold, targeted), RowsById(fold, d.proposals, d.rawRenders);
    && l.source.observedHeight == d.source.observedHeight && l.pageCount == d.pageCount
    && listed.Keys == all.Keys && rows.Keys <= all.Keys
    && forall id :: id in rows ==> rows[id] == all[id]
  }

  /** The rows that were not refreshed are what `all` says. */
  ghost predicate RestUnchanged(s: Store, rows: map<int, Normalized>, all: map<int, Normalized>) {
    forall id :: id in all && id !in rows ==> SameRow(s.proposals, s.votes, id, all[id])
  }

  lemma MergedContentOnlyIf(s: Store, rows: map<int, Normalized>, all: map<int, Normalized>, height: int, now: int,
                            id: int)
    requires s.proposals.Keys + rows.Keys == all.Keys
    requires SameContent(MergedProposals(s.proposals, rows, height, now), MergedVotes(s.votes, rows, height, now), all)
    requires id in all && id !in rows
    ensures SameRow(s.proposals, s.votes, id, all[id])
  {
    var p, v := MergedProposals(s.proposals, rows, height, now), MergedVotes(s.votes, rows, height, now);
    assert p[id] == s.proposals[id];
    forall key ensures (id, key) in s.votes <==> key in all[id].votes {
      assert (id, key) in s.votes <==> (id, key) in v;
    }
    forall key | key in all[id].votes ensures s.votes[(id, key)].content == all[id].votes[key] {
      assert (id, key) in v;
    }
  }

  lemma MergedContentIf(s: Store, rows: map<int, Normalized>, all: map<int, Normalized>, height: int, now: int)
    requires s.proposals.Keys + rows.Keys == all.Keys
    requires forall id :: id in rows ==> rows[id] == all[id]
    requires forall v :: v in s.votes ==> v.0 in s.proposals
    requires RestUnchanged(s, rows, all)
    ensures SameContent(MergedProposals(s.proposals, rows, height, now), MergedVotes(s.votes, rows, height, now), all)
  {
    var v := MergedVotes(s.votes, rows, height, now);
    forall x: VoteId
      ensures x in v <==> x in RowVotes(all)
      ensures x in v ==> v[x].content == all[x.0].votes[x.1]
    {
      assert (x.0, x.1) == x;
      if x.0 in all && x.0 !in rows {
        assert SameRow(s.proposals, s.votes, x.0, all[x.0]);
      }
    }
  }

  lemma MergedContent(s: Store, rows: map<int, Normalized>, all: map<int, Normalized>, height: int, now: int)
    requires s.proposals.Keys + rows.Keys == all.Keys
    requires forall id :: id in rows ==> rows[id] == all[id]
    requires forall v :: v in s.votes ==> v.0 in s.proposals
    ensures SameContent(MergedProposals(s.proposals, rows, height, now), MergedVotes(s.votes, rows, height, now), all)
      <==> RestUnchanged(s, rows, all)
  {
    if SameContent(MergedProposals(s.proposals, rows, height, now), MergedVotes(s.votes, rows, height, now), all) {
      forall id | id in all && id !in rows ensures SameRow(s.proposals, s.votes, id, all[id]) {
        MergedContentOnlyIf(s, rows, all, height, now, id);
      }
    }
    if RestUnchanged(s, rows, all) {
      MergedContentIf(s, rows, all, height, now);
    }
  }

  lemma WritesCompared(fold: Folding, s: Store, l: Listing, rows: map<int, Normalized>, all: map<int, Normalized>,
                       height: int, pageCount: int, now: int, later: int)
    requires QuickReady(fold, s, l, rows) && Listed(l.proposals).Keys == all.Keys
    requires forall id :: id in rows ==> id in all && rows[id] == all[id]
    ensures SameTables(Written(s, rows, height, pageCount, all.Keys, now),
                       Written(s, all, height, pageCount, all.Keys, later))
      <==> RestUnchanged(s, rows, all)
  {
    QuickIds(fold, s, l, rows);
    VotesBelong(fold, s);
    FullWriteStores(fold, s, height, later, all);
    MergedContent(s, rows, all, height, now);
    SameContentTables(Written(s, rows, height, pageCount, all.Keys, now),
                      Written(s, all, height, pageCount, all.Keys, later), all);
  }

  /** Two writes of the same scan from the same state leave the same content exactly when the rows
      that the quick writer did not have to refresh are still what the full scan finds. */
  lemma QuickEqualsFullIff(fold: Folding, s: Store, l: Listing, targeted: seq<Discovery>, d: Discovery, chain: string,
                           now: int, later: int)
    requires PersistQuick(fold, s, l, targeted, chain, now).1 == Ok(Applied)
    requires PersistFull(fold, s, d, chain, later).1 == Ok(Applied)
    requires SameScan(fold, l, targeted, d)
    ensures var found := RowsById(fold, d.proposals, d.rawRenders);
            var refreshed := Required(Listed(l.proposals), s.proposals);
            SameTables(PersistQuick(fold, s, l, targeted, chain, now).0, PersistFull(fold, s, d, chain, later).0) <==>
            forall id :: id in found && id !in refreshed ==> SameRow(s.proposals, s.votes, id, found[id])
  {
    var rows := QuickResult(fold, s, l, targeted, chain, now);
    var all := FullResult(fold, s, d, chain, later);
    WritesCompared(fold, s, l, rows, all, l.source.observedHeight, l.pageCount, now, later);
  }

  lemma SameContentTables(q: Store, f: Store, all: map<int, Normalized>)
    requires q.sync == f.sync && q.proposals.Keys == all.Keys && SameContent(f.proposals, f.votes, all)
    ensures SameTables(q, f) <==> SameContent(q.proposals, q.votes, all)
  {
  }

  // ----- retries -----

  /** Repeating an applied full write changes nothing and is accepted. */
  lemma FullRetryUnchanged(fold: Folding, s: Store, d: Discovery, chain: string, now: int, later: int)
    requires PersistFull(fold, s, d, chain, now).1 == Ok(Applied)
    ensures var t := PersistFull(fold, s, d, chain, now).0; PersistFull(fold, t, d, chain, later) == (t, Ok(Unchanged))
  {
    hide Acceptable, Loadable, RowsById, SameContent, RowsRefusal, MergedProposals, MergedVotes, SyncAfter;
    assert s.proposals.Keys <= RowsById(fold, d.proposals, d.rawRenders).Keys;
  }

  /** The retried rows include the required ones, and are rows that were written. */
  ghost predicate Repeats(again: map<int, Normalized>, rows: map<int, Normalized>, required: set<int>) {
    required <= again.Keys <= rows.Keys && forall id :: id in again ==> again[id] == rows[id]
  }

  lemma FinalRawAgain(proposals: map<int, ProposalRow>, rows: map<int, Normalized>, again: map<int, Normalized>,
                      height: int, now: int)
    requires again.Keys <= rows.Keys && forall id :: id in again ==> again[id] == rows[id]
    ensures FinalRaw(MergedProposals(proposals, rows, height, now), again) == FinalRaw(proposals, rows)
  {
  }

  /** The checks of a quick write that do not depend on what is stored. */
  ghost predicate InputOk(fold: Folding, l: Listing, targeted: seq<Discovery>, chain: string) {
    && l.complete && l.source.chainId == chain && ListAcceptable(l)
    && TargetsWellFormed(targeted, l.source, Listed(l.proposals))
    && TargetsAcceptable(fold, l.source, targeted, chain, Listed(l.proposals))
  }

  lemma PrecheckedInput(fold: Folding, s: Store, l: Listing, targeted: seq<Discovery>, chain: string)
    requires QuickPrecheck(fold, s, l, targeted, chain).None?
    ensures InputOk(fold, l, targeted, chain) && (s.identity.Some? ==> s.identity.value == l.source.chainId)
    ensures PairTotal(FinalRaw(s.proposals, TargetRows(fold, targeted))) <= MAX_TOTAL_RAW_BYTES
  {
  }

  lemma InputPasses(fold: Folding, l: Listing, targeted: seq<Discovery>, chain: string, t: Store)
    requires InputOk(fold, l, targeted, chain) && (t.identity.Some? ==> t.identity.value == l.source.chainId)
    requires Loadable(fold, t) && t.sync.Some? && t.sync.value.sourceHeight == l.source.observedHeight
    requires t.proposals.Keys == Listed(l.proposals).Keys
    requires PairTotal(FinalRaw(t.proposals, TargetRows(fold, targeted))) <= MAX_TOTAL_RAW_BYTES
    ensures QuickPrecheck(fold, t, l, targeted, chain).None?
  {
  }

  /** The stored rows that a quick write leaves agree with the list in the six shared columns. */
  ghost predicate ListAgrees(listed: map<int, Summary>, proposals: map<int, ProposalRow>,
                             rows: map<int, Normalized>) {
    forall id :: id in listed ==>
      if id in rows then Agrees(listed[id], rows[id].content)
      else id in proposals && Agrees(listed[id], proposals[id].content)
  }

  lemma WrittenRow(s: Store, rows: map<int, Normalized>, height: int, now: int, id: int)
    requires id in rows
    ensures SameRow(MergedProposals(s.proposals, rows, height, now), MergedVotes(s.votes, rows, height, now), id,
                    rows[id])
  {
    var v := MergedVotes(s.votes, rows, height, now);
    forall key ensures (id, key) in v <==> key in rows[id].votes {
    }
  }

  lemma RequiredAgain(listed: map<int, Summary>, proposals: map<int, ProposalRow>, rows: map<int, Normalized>,
                      height: int, now: int)
    requires rows.Keys == Required(listed, proposals)
    ensures Required(listed, MergedProposals(proposals, rows, height, now)) <= rows.Keys
  {
  }

  lemma WrittenRepeats(fold: Folding, s: Store, rows: map<int, Normalized>, listed: map<int, Summary>, height: int,
                       now: int)
    requires rows.Keys == Required(listed, s.proposals) && AllStorable(fold, rows)
    ensures var m := MergedProposals(s.proposals, rows, height, now);
            TargetsRepeat(m, MergedVotes(s.votes, rows, height, now), Required(listed, m), rows, height)
  {
    var m := MergedProposals(s.proposals, rows, height, now);
    RequiredAgain(listed, s.proposals, rows, height, now);
    forall id | id in rows
      ensures SameRow(m, MergedVotes(s.votes, rows, height, now), id, rows[id])
    {
      WrittenRow(s, rows, height, now, id);
    }
    forall id | id in rows.Keys - Required(listed, m)
      ensures (m[id].content.status == Accepted || m[id].content.status == Rejected) && m[id].seen.lastHeight == height
    {
      assert Storable(fold, rows[id]);
    }
  }

  lemma MergedListedAgrees(proposals: map<int, ProposalRow>, rows: map<int, Normalized>, listed: map<int, Summary>,
                           height: int, now: int)
    requires listed.Keys == proposals.Keys + rows.Keys
    ensures ListedAgrees(listed, MergedProposals(proposals, rows, height, now)) <==> ListAgrees(listed, proposals, rows)
  {
    var m := MergedProposals(proposals, rows, height, now);
    assert forall id :: id in listed && id in rows ==> m[id].content == rows[id].content;
    assert forall id :: id in listed && id !in rows ==> id in proposals && m[id] == proposals[id];
  }

  /** A stored row determines the normalized row that it equals. */
  lemma SameRowUnique(proposals: map<int, ProposalRow>, votes: map<VoteId, VoteRow>, id: int, a: Normalized,
                      b: Normalized)
    requires SameRow(proposals, votes, id, a) && SameRow(proposals, votes, id, b)
    ensures a == b
  {
    assert forall key :: key in a.votes <==> (id, key) in votes;
    assert forall key :: key in b.votes <==> (id, key) in votes;
    assert a.votes == b.votes;
  }

  lemma RepeatedIf(proposals: map<int, ProposalRow>, votes: map<VoteId, VoteRow>, required: set<int>,
                   rows: map<int, Normalized>, again: map<int, Normalized>, height: int)
    requires TargetsRepeat(proposals, votes, required, rows, height) && Repeats(again, rows, required)
    ensures TargetsRepeat(proposals, votes, required, again, height)
  {
    hide SameRow;
    assert forall id :: id in again.Keys - required ==> id in rows.Keys - required;
  }

  lemma RepeatedOnlyIf(proposals: map<int, ProposalRow>, votes: map<VoteId, VoteRow>, required: set<int>,
                       rows: map<int, Normalized>, again: map<int, Normalized>, height: int)
    requires TargetsRepeat(proposals, votes, required, rows, height)
    requires TargetsRepeat(proposals, votes, required, again, height)
    requires forall id :: id in proposals && id !in rows ==> proposals[id].seen.lastHeight < height
    ensures Repeats(again, rows, required)
  {
    hide SameRow;
    forall id | id in again ensures id in rows && again[id] == rows[id] {
      assert id !in rows ==> id in again.Keys - required;
      SameRowUnique(proposals, votes, id, again[id], rows[id]);
    }
  }

  lemma UnwrittenSeenBefore(fold: Folding, s: Store, rows: map<int, Normalized>, height: int, now: int)
    requires Loadable(fold, s) && (s.sync.Some? ==> s.sync.value.sourceHeight < height)
    ensures var m := MergedProposals(s.proposals, rows, height, now);
            forall id :: id in m && id !in rows ==> m[id].seen.lastHeight < height
  {
    hide Loadable;
    forall id | id in s.proposals && id !in rows ensures s.proposals[id].seen.lastHeight < height {
      SeenBefore(fold, s, height, id);
    }
  }

  lemma RetryDecision(fold: Folding, s: Store, l: Listing, rows: map<int, Normalized>, again: map<int, Normalized>,
                      now: int)
    requires QuickReady(fold, s, l, rows)
    ensures var listed := Listed(l.proposals);
            var t := Written(s, rows, l.source.observedHeight, l.pageCount, listed.Keys, now);
            RetryAccepted(t, l, again) <==>
            ListAgrees(listed, s.proposals, rows) && Repeats(again, rows, Required(listed, t.proposals))
  {
    var listed, height := Listed(l.proposals), l.source.observedHeight;
    QuickIds(fold, s, l, rows);
    hide Listed, Loadable, ListAcceptable, FollowsList, PairTotal, FinalRaw, Required, TargetsRepeat, Repeats,
      ListAgrees, ListedAgrees, AllStorable, MergedProposals, MergedVotes;
    WrittenRepeats(fold, s, rows, listed, height, now);
    MergedListedAgrees(s.proposals, rows, listed, height, now);
    UnwrittenSeenBefore(fold, s, rows, height, now);
    var m, v := MergedProposals(s.proposals, rows, height, now), MergedVotes(s.votes, rows, height, now);
    if Repeats(again, rows, Required(listed, m)) { RepeatedIf(m, v, Required(listed, m), rows, again, height); }
    if TargetsRepeat(m, v, Required(listed, m), again, height) {
      RepeatedOnlyIf(m, v, Required(listed, m), rows, again, height);
    }
  }

  lemma PrecheckWasPassed(fold: Folding, s: Store, l: Listing, targeted: seq<Discovery>, chain: string, now: int)
    requires PersistQuick(fold, s, l, targeted, chain, now).1 == Ok(Applied)
    ensures QuickPrecheck(fold, s, l, targeted, chain).None?
  {
    hide QuickPrecheck;
  }

  /** What a repetition finds: a store that loads, at the same height, with the listed ids. */
  lemma WrittenStore(fold: Folding, s: Store, l: Listing, targeted: seq<Discovery>, chain: string, now: int)
    returns (t: Store, rows: map<int, Normalized>)
    requires PersistQuick(fold, s, l, targeted, chain, now).1 == Ok(Applied)
    ensures t == PersistQuick(fold, s, l, targeted, chain, now).0 && rows == TargetRows(fold, targeted)
    ensures t == Written(s, rows, l.source.observedHeight, l.pageCount, Listed(l.proposals).Keys, now)
    ensures QuickReady(fold, s, l, rows) && InputOk(fold, l, targeted, chain)
    ensures Loadable(fold, t) && t.sync.Some? && t.sync.value.sourceHeight == l.source.observedHeight
    ensures t.proposals.Keys == Listed(l.proposals).Keys
    ensures t.identity.Some? ==> t.identity.value == l.source.chainId
  {
    rows := QuickResult(fold, s, l, targeted, chain, now);
    t := Written(s, rows, l.source.observedHeight, l.pageCount, Listed(l.proposals).Keys, now);
    PrecheckWasPassed(fold, s, l, targeted, chain, now);
    hide PersistQuick, QuickPrecheck, QuickReady, Loadable, TargetRows, Listed, NoneLate, InputOk;
    QuickWrite(fold, s, l, rows, now);
    QuickIds(fold, s, l, rows);
    MergedRaw(s.proposals, rows, l.source.observedHeight, now);
    PrecheckedInput(fold, s, l, targeted, chain);
  }

  /** A repeated row that was written passes every check before the retry comparison. */
  lemma RetryPasses(fold: Folding, s: Store, l: Listing, rows: map<int, Normalized>, again: seq<Discovery>,
                    chain: string, now: int, t: Store)
    requires QuickReady(fold, s, l, rows) && InputOk(fold, l, again, chain)
    requires t == Written(s, rows, l.source.observedHeight, l.pageCount, Listed(l.proposals).Keys, now)
    requires Loadable(fold, t) && t.sync.Some? && t.sync.value.sourceHeight == l.source.observedHeight
    requires t.proposals.Keys == Listed(l.proposals).Keys && (t.identity.Some? ==> t.identity.value == l.source.chainId)
    requires Repeats(TargetRows(fold, again), rows, Required(Listed(l.proposals), t.proposals))
    ensures QuickPrecheck(fold, t, l, again, chain).None?
  {
    hide Loadable, InputOk, TargetRows, Listed, Required, QuickPrecheck, AllStorable, FollowsList, FinalRaw,
      MergedProposals, MergedVotes;
    FinalRawAgain(s.proposals, rows, TargetRows(fold, again), l.source.observedHeight, now);
    InputPasses(fold, l, again, chain, t);
  }

  lemma RetryOutcome(fold: Folding, t: Store, l: Listing, again: seq<Discovery>, chain: string, later: int)
    requires t.sync.Some? && t.sync.value.sourceHeight == l.source.observedHeight
    ensures var (after, r) := PersistQuick(fold, t, l, again, chain, later);
            && after == t
            && r == (if QuickPrecheck(fold, t, l, again, chain).Some?
                     then Err(QuickPrecheck(fold, t, l, again, chain).value)
                     else if RetryAccepted(t, l, TargetRows(fold, again)) then Ok(Unchanged) else Err(SnapshotConflict))
  {
    hide QuickPrecheck, RetryAccepted, TargetRows;
  }

  /** Repeating an applied quick write, with the same targets or with others, never changes anything.
      It is accepted exactly when the targets pass the checks of their own, include the ones that are
      still required, are rows that were written, and the rows that the write left agree with the list. */
  lemma QuickRetryIff(fold: Folding, s: Store, l: Listing, targeted: seq<Discovery>, again: seq<Discovery>,
                      chain: string, now: int, later: int)
    requires PersistQuick(fold, s, l, targeted, chain, now).1 == Ok(Applied)
    ensures var t := PersistQuick(fold, s, l, targeted, chain, now).0;
            var rows, listed := TargetRows(fold, targeted), Listed(l.proposals);
            var (after, r) := PersistQuick(fold, t, l, again, chain, later);
            var repeats := InputOk(fold, l, again, chain) &&
              Repeats(TargetRows(fold, again), rows, Required(listed, t.proposals));
            && after == t
            && (r == Ok(Unchanged) <==> repeats && ListAgrees(listed, s.proposals, rows))
            && (repeats && !ListAgrees(listed, s.proposals, rows) ==> r == Err(SnapshotConflict))
  {
    var t, rows := WrittenStore(fold, s, l, targeted, chain, now);
    hide PersistQuick, QuickPrecheck, RetryAccepted, TargetRows, Listed, Required, InputOk, Repeats, ListAgrees,
      QuickReady, Loadable, Written;
    RetryDecision(fold, s, l, rows, TargetRows(fold, again), now);
    RetryOutcome(fold, t, l, again, chain, later);
    if QuickPrecheck(fold, t, l, again, chain).None? {
      PrecheckedInput(fold, t, l, again, chain);
    }
    if InputOk(fold, l, again, chain) &&
      Repeats(TargetRows(fold, again), rows, Required(Listed(l.proposals), t.proposals)) {
      RetryPasses(fold, s, l, rows, again, chain, now, t);
    }
  }

  lemma RepeatsItself(fold: Folding, s: Store, l: Listing, rows: map<int, Normalized>, now: int, t: Store)
    requires QuickReady(fold, s, l, rows)
    requires t == Written(s, rows, l.source.observedHeight, l.pageCount, Listed(l.proposals).Keys, now)
    ensures Repeats(rows, rows, Required(Listed(l.proposals), t.proposals))
  {
    RequiredAgain(Listed(l.proposals), s.proposals, rows, l.source.observedHeight, now);
    hide Loadable, ListAcceptable, AllStorable, FollowsList, PairTotal, FinalRaw, Listed, Required, MergedProposals,
      MergedVotes;
  }

  /** The very same input is accepted again exactly when the rows it left agree with the list: for a
      refreshed proposal the detail page decides, not the list. Otherwise it is refused as a conflict. */
  lemma QuickRetrySame(fold: Folding, s: Store, l: Listing, targeted: seq<Discovery>, chain: string, now: int,
                       later: int)
    requires PersistQuick(fold, s, l, targeted, chain, now).1 == Ok(Applied)
    ensures var t := PersistQuick(fold, s, l, targeted, chain, now).0;
            PersistQuick(fold, t, l, targeted, chain, later)
              == (t, if ListAgrees(Listed(l.proposals), s.proposals, TargetRows(fold, targeted)) then Ok(Unchanged)
                     else Err(SnapshotConflict))
  {
    var t, rows := WrittenStore(fold, s, l, targeted, chain, now);
    hide PersistQuick, TargetRows, Listed, Required, InputOk, ListAgrees, Loadable, QuickReady, Written, Repeats;
    RepeatsItself(fold, s, l, rows, now, t);
    QuickRetryIff(fold, s, l, targeted, targeted, chain, now, later);
  }
}
