/** Whatever either governance writer leaves is accepted by the next load. */
module GovernanceInvariants {
  import opened Wrappers
  import opened GovernanceModel
  import opened GovernancePersistence

  // ----- sums of sizes -----

  lemma {:induction false} RawBytesRemove(raw: map<RawKey, string>, k: RawKey)
    requires k in raw
    ensures RawBytes(raw) == Utf8Length(raw[k]) + RawBytes(raw - {k})
    decreases |raw|
  {
    var p := Pick(raw.Keys);
    if p != k {
      RawBytesRemove(raw - {p}, k);
      RawBytesRemove(raw - {k}, p);
      assert raw - {p} - {k} == raw - {k} - {p};
    }
  }

  /** Each proposal's two renders are separate entries of the dictionary, so together they are no larger. */
  lemma {:induction false} PairsFit(pairs: RawPairs, raw: map<RawKey, string>)
    requires forall id :: id in pairs ==>
      && DetailRender(id) in raw && raw[DetailRender(id)] == pairs[id].0
      && VotesRender(id) in raw && raw[VotesRender(id)] == pairs[id].1
    ensures PairTotal(pairs) <= RawBytes(raw)
    decreases |pairs|
  {
    if pairs != map[] {
      var id := Pick(pairs.Keys);
      RawBytesRemove(raw, DetailRender(id));
      var rest := raw - {DetailRender(id)};
      RawBytesRemove(rest, VotesRender(id));
      PairsFit(pairs - {id}, rest - {VotesRender(id)});
    }
  }

  // ----- normalized rows can be stored -----

  ghost predicate AllStorable(fold: Folding, rows: map<int, Normalized>) {
    forall id :: id in rows ==> id >= 0 && Storable(fold, rows[id])
  }

  lemma FullRowsStorable(fold: Folding, d: Discovery, chain: string)
    requires Acceptable(fold, d, chain)
    ensures AllStorable(fold, RowsById(fold, d.proposals, d.rawRenders))
  {
    var rows := RowsById(fold, d.proposals, d.rawRenders);
    forall id | id in rows ensures id >= 0 && Storable(fold, rows[id]) {
      var i :| 0 <= i < |d.proposals| && d.proposals[i].id == id;
      RowIsItsDetail(fold, d.proposals, d.rawRenders, i);
      NormalizedDetailStorable(fold, d.proposals[i], d.rawRenders);
    }
  }

  lemma {:induction false} RowCount(fold: Folding, proposals: seq<Detail>, raw: map<RawKey, string>)
    ensures |RowsById(fold, proposals, raw).Keys| <= |proposals|
  {
    if proposals != [] {
      var n := |proposals| - 1;
      RowCount(fold, proposals[..n], raw);
      assert RowsById(fold, proposals, raw).Keys == RowsById(fold, proposals[..n], raw).Keys + {proposals[n].id};
    }
  }

  lemma {:induction false} ListedCount(summaries: seq<Summary>)
    ensures |Listed(summaries).Keys| <= |summaries|
  {
    if summaries != [] {
      var n := |summaries| - 1;
      ListedCount(summaries[..n]);
      assert Listed(summaries).Keys == Listed(summaries[..n]).Keys + {summaries[n].id};
    }
  }

  ghost predicate TargetsAcceptable(fold: Folding, source: Source, targeted: seq<Discovery>, chain: string,
                                    listed: map<int, Summary>) {
    forall i :: 0 <= i < |targeted| ==> TargetAcceptable(fold, source, targeted[i], chain, listed)
  }

  lemma OneRow(fold: Folding, source: Source, t: Discovery, chain: string, listed: map<int, Summary>)
    requires TargetAcceptable(fold, source, t, chain, listed)
    ensures t.proposals[0].id >= 0 && !t.proposals[0].status.OtherStatus?
    ensures Storable(fold, NormalizedDetail(fold, t.proposals[0], t.rawRenders))
  {
    NormalizedDetailStorable(fold, t.proposals[0], t.rawRenders);
  }

  ghost predicate FollowsList(rows: map<int, Normalized>, listed: map<int, Summary>) {
    forall id :: id in rows ==>
      id in listed && (rows[id].content.status == listed[id].status || listed[id].status == Unknown)
  }

  /** A refreshed proposal is listed, and has the listed status unless the list does not know it. */
  lemma {:induction false} TargetRowsStorable(fold: Folding, source: Source, targeted: seq<Discovery>, chain: string,
                                              listed: map<int, Summary>)
    requires TargetsAcceptable(fold, source, targeted, chain, listed)
    ensures AllStorable(fold, TargetRows(fold, targeted))
    ensures FollowsList(TargetRows(fold, targeted), listed)
  {
    if targeted != [] {
      var n := |targeted| - 1;
      TargetRowsStorable(fold, source, targeted[..n], chain, listed);
      AddTargetRow(fold, source, TargetRows(fold, targeted[..n]), targeted[n], chain, listed);
    }
  }

  lemma AddTargetRow(fold: Folding, source: Source, rows: map<int, Normalized>, t: Discovery, chain: string,
                     listed: map<int, Summary>)
    requires AllStorable(fold, rows) && FollowsList(rows, listed)
    requires TargetAcceptable(fold, source, t, chain, listed)
    ensures var more := rows[t.proposals[0].id := NormalizedDetail(fold, t.proposals[0], t.rawRenders)];
            AllStorable(fold, more) && FollowsList(more, listed)
  {
    OneRow(fold, source, t, chain, listed);
  }

  // ----- a write keeps the store loadable -----

  lemma MergedProposalsOk(fold: Folding, proposals: map<int, ProposalRow>, votes: map<VoteId, VoteRow>, before: int,
                          rows: map<int, Normalized>, height: int, now: int)
    requires ProposalsOk(proposals, votes, before) && 0 <= before <= height && height >= 1
    requires AllStorable(fold, rows)
    requires forall id :: id in proposals && id in rows ==> proposals[id].seen.firstAt <= now
    ensures ProposalsOk(MergedProposals(proposals, rows, height, now), MergedVotes(votes, rows, height, now), height)
  {
    var merged, mergedVotes := MergedProposals(proposals, rows, height, now), MergedVotes(votes, rows, height, now);
    forall id | id in merged
      ensures HasVotes(mergedVotes, id) <==> if id in rows then rows[id].votes != map[] else HasVotes(votes, id)
    {
      MergedHasVotes(votes, rows, height, now, id);
    }
  }

  lemma MergedHasVotes(votes: map<VoteId, VoteRow>, rows: map<int, Normalized>, height: int, now: int, id: int)
    ensures HasVotes(MergedVotes(votes, rows, height, now), id)
      <==> if id in rows then rows[id].votes != map[] else HasVotes(votes, id)
  {
    var merged := MergedVotes(votes, rows, height, now);
    if id in rows {
      if rows[id].votes != map[] {
        var key :| key in rows[id].votes;
        assert (id, key) in merged;
      }
    } else if HasVotes(votes, id) {
      var key :| (id, key) in votes;
      assert (id, key) in merged;
    }
  }

  lemma MergedVotesOk(fold: Folding, ids: set<int>, votes: map<VoteId, VoteRow>, before: int,
                      rows: map<int, Normalized>, height: int, now: int)
    requires VotesOk(fold, ids, votes, before) && 0 <= before <= height && height >= 1
    requires AllStorable(fold, rows)
    requires forall v :: v in votes && v.0 in rows && v.1 in rows[v.0].votes ==> votes[v].seen.firstAt <= now
    ensures VotesOk(fold, ids + rows.Keys, MergedVotes(votes, rows, height, now), height)
  {
    var merged := MergedVotes(votes, rows, height, now);
    forall v | v in merged
      ensures v.0 in ids + rows.Keys && StoredVoteOk(fold, v.1, merged[v].content) && SeenOk(merged[v].seen, height)
    {
    }
  }

  /** No late row means that no upsert dates a last observation before the first. */
  lemma NoneLateTimes(proposals: map<int, ProposalRow>, votes: map<VoteId, VoteRow>, rows: map<int, Normalized>,
                      now: int)
    requires NoneLate(proposals, votes, rows, now)
    ensures forall id :: id in proposals && id in rows ==> proposals[id].seen.firstAt <= now
    ensures forall v :: v in votes && v.0 in rows && v.1 in rows[v.0].votes ==> votes[v].seen.firstAt <= now
  {
    forall v | v in votes && v.0 in rows && v.1 in rows[v.0].votes ensures votes[v].seen.firstAt <= now {
      assert !Late(proposals, votes, v.0, rows[v.0], now);
      assert (v.0, v.1) == v;
    }
  }

  lemma MergedRaw(proposals: map<int, ProposalRow>, rows: map<int, Normalized>, height: int, now: int)
    ensures StoredRaw(MergedProposals(proposals, rows, height, now)) == FinalRaw(proposals, rows)
    ensures MergedProposals(proposals, rows, height, now).Keys == proposals.Keys + rows.Keys
  {
  }

  /** The part of `Loadable` that is about the two content tables. */
  ghost predicate TablesOk(fold: Folding, proposals: map<int, ProposalRow>, votes: map<VoteId, VoteRow>,
                           height: int) {
    ProposalsOk(proposals, votes, height) && VotesOk(fold, proposals.Keys, votes, height)
  }

  lemma LoadableTables(fold: Folding, s: Store) returns (before: int)
    requires Loadable(fold, s)
    ensures TablesOk(fold, s.proposals, s.votes, before) && 0 <= before
    ensures before == if s.sync.Some? then s.sync.value.sourceHeight else 0
  {
    before := if s.sync.Some? then s.sync.value.sourceHeight else 0;
  }

  lemma MergedTablesOk(fold: Folding, proposals: map<int, ProposalRow>, votes: map<VoteId, VoteRow>, before: int,
                       rows: map<int, Normalized>, height: int, now: int)
    requires TablesOk(fold, proposals, votes, before) && 0 <= before <= height && height >= 1
    requires AllStorable(fold, rows)
    requires NoneLate(proposals, votes, rows, now)
    ensures TablesOk(fold, MergedProposals(proposals, rows, height, now), MergedVotes(votes, rows, height, now), height)
  {
    NoneLateTimes(proposals, votes, rows, now);
    MergedProposalsOk(fold, proposals, votes, before, rows, height, now);
    MergedVotesOk(fold, proposals.Keys, votes, before, rows, height, now);
    MergedRaw(proposals, rows, height, now);
  }

  lemma WrittenIsLoadable(fold: Folding, s: Store, rows: map<int, Normalized>, height: int, pageCount: int,
                          ids: set<int>, now: int)
    requires Loadable(fold, s) && NoneLate(s.proposals, s.votes, rows, now)
    requires s.sync.Some? ==> s.sync.value.sourceHeight <= height
    requires height >= 1 && 1 <= pageCount <= MAX_GOVERNANCE_PAGES
    requires ids == s.proposals.Keys + rows.Keys && |ids| <= MAX_GOVERNANCE_PROPOSALS
    requires AllStorable(fold, rows)
    requires PairTotal(FinalRaw(s.proposals, rows)) <= MAX_TOTAL_RAW_BYTES
    ensures Loadable(fold, Written(s, rows, height, pageCount, ids, now))
  {
    var before := LoadableTables(fold, s);
    MergedTablesOk(fold, s.proposals, s.votes, before, rows, height, now);
    MergedRaw(s.proposals, rows, height, now);
  }

  // ----- the two writers -----

  lemma FullVotes(votes: map<VoteId, VoteRow>, rows: map<int, Normalized>, height: int, now: int)
    requires forall v :: v in votes ==> v.0 in rows
    ensures var m := MergedVotes(votes, rows, height, now);
            m.Keys == RowVotes(rows) && forall v :: v in m ==> m[v].content == rows[v.0].votes[v.1]
  {
  }

  /** After a full write the stored content is exactly the incoming one. */
  lemma FullWritesItsContent(proposals: map<int, ProposalRow>, votes: map<VoteId, VoteRow>,
                             rows: map<int, Normalized>, height: int, now: int)
    requires proposals.Keys <= rows.Keys && forall v :: v in votes ==> v.0 in proposals
    ensures SameContent(MergedProposals(proposals, rows, height, now), MergedVotes(votes, rows, height, now), rows)
  {
    FullVotes(votes, rows, height, now);
  }

  lemma VotesBelong(fold: Folding, s: Store)
    requires Loadable(fold, s)
    ensures forall v :: v in s.votes ==> v.0 in s.proposals
  {
    var before := LoadableTables(fold, s);
  }

  lemma FullRawFits(fold: Folding, proposals: map<int, ProposalRow>, d: Discovery, chain: string)
    requires Acceptable(fold, d, chain)
    requires proposals.Keys <= RowsById(fold, d.proposals, d.rawRenders).Keys
    ensures PairTotal(FinalRaw(proposals, RowsById(fold, d.proposals, d.rawRenders))) <= MAX_TOTAL_RAW_BYTES
  {
    var rows := RowsById(fold, d.proposals, d.rawRenders);
    var pairs := FinalRaw(proposals, rows);
    forall id | id in pairs
      ensures DetailRender(id) in d.rawRenders && d.rawRenders[DetailRender(id)] == pairs[id].0
      ensures VotesRender(id) in d.rawRenders && d.rawRenders[VotesRender(id)] == pairs[id].1
    {
      var i :| 0 <= i < |d.proposals| && d.proposals[i].id == id;
      RowIsItsDetail(fold, d.proposals, d.rawRenders, i);
    }
    PairsFit(pairs, d.rawRenders);
  }

  /** The checks that the full writer passes before it writes. */
  ghost predicate FullReady(fold: Folding, s: Store, d: Discovery, chain: string) {
    && Acceptable(fold, d, chain) && Loadable(fold, s)
    && (s.sync.Some? ==> s.sync.value.sourceHeight < d.source.observedHeight)
    && s.proposals.Keys <= RowsById(fold, d.proposals, d.rawRenders).Keys
  }

  lemma FullRowsFit(fold: Folding, proposals: map<int, ProposalRow>, d: Discovery, chain: string)
    returns (rows: map<int, Normalized>)
    requires Acceptable(fold, d, chain) && proposals.Keys <= RowsById(fold, d.proposals, d.rawRenders).Keys
    ensures rows == RowsById(fold, d.proposals, d.rawRenders)
    ensures AllStorable(fold, rows) && |rows.Keys| <= MAX_GOVERNANCE_PROPOSALS
    ensures PairTotal(FinalRaw(proposals, rows)) <= MAX_TOTAL_RAW_BYTES
  {
    rows := RowsById(fold, d.proposals, d.rawRenders);
    FullRowsStorable(fold, d, chain);
    FullRawFits(fold, proposals, d, chain);
    RowCount(fold, d.proposals, d.rawRenders);
  }

  lemma FullWriteLoads(fold: Folding, s: Store, d: Discovery, chain: string, now: int, rows: map<int, Normalized>)
    requires FullReady(fold, s, d, chain) && rows == RowsById(fold, d.proposals, d.rawRenders)
    requires NoneLate(s.proposals, s.votes, rows, now)
    ensures Loadable(fold, Written(s, rows, d.source.observedHeight, d.pageCount, rows.Keys, now))
  {
    assert rows.Keys == s.proposals.Keys + rows.Keys;
    var same := FullRowsFit(fold, s.proposals, d, chain);
    WrittenIsLoadable(fold, s, rows, d.source.observedHeight, d.pageCount, rows.Keys, now);
  }

  lemma FullWriteStores(fold: Folding, s: Store, height: int, now: int, rows: map<int, Normalized>)
    requires Loadable(fold, s) && s.proposals.Keys <= rows.Keys
    ensures SameContent(MergedProposals(s.proposals, rows, height, now), MergedVotes(s.votes, rows, height, now), rows)
  {
    VotesBelong(fold, s);
    FullWritesItsContent(s.proposals, s.votes, rows, height, now);
  }

  lemma FullWrite(fold: Folding, s: Store, d: Discovery, chain: string, now: int)
    requires FullReady(fold, s, d, chain)
    requires NoneLate(s.proposals, s.votes, RowsById(fold, d.proposals, d.rawRenders), now)
    ensures var rows := RowsById(fold, d.proposals, d.rawRenders);
            var t := Written(s, rows, d.source.observedHeight, d.pageCount, rows.Keys, now);
            Loadable(fold, t) && SameContent(t.proposals, t.votes, rows)
  {
    var rows := RowsById(fold, d.proposals, d.rawRenders);
    FullWriteStores(fold, s, d.source.observedHeight, now, rows);
    FullWriteLoads(fold, s, d, chain, now, rows);
  }

  /** A full write leaves a loadable store, and its post-write check cannot fail. */
  lemma FullKeepsLoadable(fold: Folding, s: Store, d: Discovery, chain: string, now: int)
    ensures var (t, r) := PersistFull(fold, s, d, chain, now);
            && r != Err(PostWriteCheck)
            && (Loadable(fold, s) ==> Loadable(fold, t))
  {
    hide Acceptable, Loadable, RowsById, SameContent, Written, ForbiddenFirst, NoneLate, SameMetadata;
    if FullReady(fold, s, d, chain) && NoneLate(s.proposals, s.votes, RowsById(fold, d.proposals, d.rawRenders), now) {
      FullWrite(fold, s, d, chain, now);
    }
  }

  /** What the checks of the quick writer establish before it writes. */
  ghost predicate QuickReady(fold: Folding, s: Store, l: Listing, rows: map<int, Normalized>) {
    var listed := Listed(l.proposals);
    && Loadable(fold, s) && ListAcceptable(l)
    && (s.sync.Some? ==> s.sync.value.sourceHeight < l.source.observedHeight)
    && s.proposals.Keys <= listed.Keys && rows.Keys == Required(listed, s.proposals)
    && AllStorable(fold, rows) && FollowsList(rows, listed)
    && (forall id :: id in s.proposals ==> Allowed(s.proposals[id].content.status, listed[id].status))
    && PairTotal(FinalRaw(s.proposals, rows)) <= MAX_TOTAL_RAW_BYTES
  }

  lemma QuickChecked(fold: Folding, s: Store, l: Listing, targeted: seq<Discovery>, chain: string, now: int)
    requires PersistQuick(fold, s, l, targeted, chain, now).1 == Ok(Applied)
    ensures QuickReady(fold, s, l, TargetRows(fold, targeted))
    ensures NoneLate(s.proposals, s.votes, TargetRows(fold, targeted), now)
  {
    hide TargetAcceptable, Loadable, TargetRows, Listed, Required, PairTotal, FinalRaw, ForbiddenFirst, NoneLate,
      ListAcceptable, AllStorable, FollowsList, TargetsWellFormed, Written, RetryAccepted, StorableChain;
    assert QuickPrecheck(fold, s, l, targeted, chain).None?;
    QuickTargets(fold, s, l, targeted, chain);
  }

  lemma QuickWritten(fold: Folding, s: Store, l: Listing, targeted: seq<Discovery>, chain: string, now: int)
    requires PersistQuick(fold, s, l, targeted, chain, now).1 == Ok(Applied)
    ensures PersistQuick(fold, s, l, targeted, chain, now).0
         == Written(s, TargetRows(fold, targeted), l.source.observedHeight, l.pageCount, Listed(l.proposals).Keys, now)
  {
    hide QuickPrecheck, TargetRows, Listed, Required, RowsRefusal, Written, RetryAccepted, StorableChain;
  }

  lemma QuickTargets(fold: Folding, s: Store, l: Listing, targeted: seq<Discovery>, chain: string)
    requires QuickPrecheck(fold, s, l, targeted, chain).None?
    ensures AllStorable(fold, TargetRows(fold, targeted)) &&
      FollowsList(TargetRows(fold, targeted), Listed(l.proposals))
  {
    TargetRowsStorable(fold, l.source, targeted, chain, Listed(l.proposals));
  }

  lemma QuickIds(fold: Folding, s: Store, l: Listing, rows: map<int, Normalized>)
    requires QuickReady(fold, s, l, rows)
    ensures Listed(l.proposals).Keys == s.proposals.Keys + rows.Keys
    ensures |Listed(l.proposals).Keys| <= MAX_GOVERNANCE_PROPOSALS
  {
    ListedCount(l.proposals);
  }

  lemma QuickWrite(fold: Folding, s: Store, l: Listing, rows: map<int, Normalized>, now: int)
    requires QuickReady(fold, s, l, rows) && NoneLate(s.proposals, s.votes, rows, now)
    ensures Loadable(fold, Written(s, rows, l.source.observedHeight, l.pageCount, Listed(l.proposals).Keys, now))
  {
    QuickIds(fold, s, l, rows);
    WrittenIsLoadable(fold, s, rows, l.source.observedHeight, l.pageCount, Listed(l.proposals).Keys, now);
  }

  /** A quick write leaves a loadable store although nothing is checked after it. */
  lemma QuickKeepsLoadable(fold: Folding, s: Store, l: Listing, targeted: seq<Discovery>, chain: string, now: int)
    requires Loadable(fold, s)
    ensures Loadable(fold, PersistQuick(fold, s, l, targeted, chain, now).0)
  {
    if PersistQuick(fold, s, l, targeted, chain, now).1 == Ok(Applied) {
      QuickWritten(fold, s, l, targeted, chain, now);
      QuickChecked(fold, s, l, targeted, chain, now);
      hide PersistQuick, QuickReady, Loadable, NoneLate, Written, TargetRows, Listed;
      QuickWrite(fold, s, l, TargetRows(fold, targeted), now);
    }
  }
}
