/** The two governance writers statement by statement, against `PersistFull` and `PersistQuick`. */
module GovernanceStore {
  import opened Wrappers
  import opened GovernanceModel
  import opened GovernancePersistence
  import opened GovernanceInvariants

  // ----- sums -----

  lemma {:induction false} PairTotalRemove(pairs: RawPairs, id: int)
    requires id in pairs
    ensures PairTotal(pairs) == Utf8Length(pairs[id].0) + Utf8Length(pairs[id].1) + PairTotal(pairs - {id})
    decreases |pairs|
  {
    var p := Pick(pairs.Keys);
    if p != id {
      PairTotalRemove(pairs - {p}, id);
      PairTotalRemove(pairs - {id}, p);
      assert pairs - {p} - {id} == pairs - {id} - {p};
    }
  }

  /** `_final_incremental_raw_bytes` and the sum in `_load`. */
  method PairBytes(pairs: RawPairs) returns (total: nat)
    ensures total == PairTotal(pairs)
  {
    total := 0;
    var rest := pairs;
    while rest != map[]
      invariant total + PairTotal(rest) == PairTotal(pairs)
      decreases |rest|
    {
      var id := AnyOf(rest.Keys);
      PairTotalRemove(rest, id);
      total := total + Utf8Length(rest[id].0) + Utf8Length(rest[id].1);
      rest := rest - {id};
    }
  }

  /** The first loop of `normalize_discovery`. */
  method RawFits(raw: map<RawKey, string>) returns (ok: bool)
    ensures ok <==> AcceptableRaw(raw)
  {
    hide Utf8Length;
    var total := 0;
    var rest := raw;
    while rest != map[]
      invariant total + RawBytes(rest) == RawBytes(raw)
      invariant forall k :: k in rest ==> k in raw && rest[k] == raw[k]
      invariant forall k :: k in raw && k !in rest ==> Utf8Length(raw[k]) <= MAX_RENDER_BYTES
      decreases |rest|
    {
      var k := AnyOf(rest.Keys);
      var size := Utf8Length(rest[k]);
      if size > MAX_RENDER_BYTES {
        return false;
      }
      RawBytesRemove(rest, k);
      total := total + size;
      rest := rest - {k};
    }
    return total <= MAX_TOTAL_RAW_BYTES;
  }

  // ----- normalization -----

  lemma NextVote(fold: Folding, votes: seq<Vote>, i: nat, keys: map<string, VoteContent>)
    requires i < |votes| && DistinctKeys(fold, votes[..i]) && keys == VotesByKey(fold, votes[..i])
    ensures Key(fold, votes[i]) !in keys <==> DistinctKeys(fold, votes[..i + 1])
    ensures VotesByKey(fold, votes[..i + 1]) == keys[Key(fold, votes[i]) := NormalizedVote(votes[i])]
  {
    assert votes[..i + 1][..i] == votes[..i];
    VoteKeys(fold, votes[..i], Key(fold, votes[i]));
  }

  lemma {:induction false} VoteKeys(fold: Folding, votes: seq<Vote>, key: string)
    ensures key in VotesByKey(fold, votes) <==> exists i :: 0 <= i < |votes| && Key(fold, votes[i]) == key
  {
    if votes != [] {
      VoteKeys(fold, votes[..|votes| - 1], key);
    }
  }

  lemma VotesPrefix(fold: Folding, votes: seq<Vote>, i: nat)
    requires i <= |votes| && !DistinctKeys(fold, votes[..i])
    ensures !DistinctKeys(fold, votes)
  {
  }

  method NormalizeVotes(fold: Folding, votes: seq<Vote>) returns (r: Option<map<string, VoteContent>>)
    ensures r.Some? <==> AcceptableVotes(fold, votes)
    ensures r.Some? ==> r.value == VotesByKey(fold, votes)
  {
    hide AcceptableVote, VotesByKey, DistinctKeys, Key, NormalizedVote;
    var keys: map<string, VoteContent> := map[];
    NoVotes(fold);
    for i := 0 to |votes|
      invariant forall j :: 0 <= j < i ==> AcceptableVote(fold, votes[j])
      invariant DistinctKeys(fold, votes[..i]) && keys == VotesByKey(fold, votes[..i])
    {
      var vote := votes[i];
      NextVote(fold, votes, i, keys);
      if !AcceptableVote(fold, vote) {
        return None;
      }
      if Key(fold, vote) in keys {
        VotesPrefix(fold, votes, i + 1);
        return None;
      }
      keys := keys[Key(fold, vote) := NormalizedVote(vote)];
    }
    assert votes[..|votes|] == votes;
    return Some(keys);
  }

  lemma NoVotes(fold: Folding)
    ensures DistinctKeys(fold, []) && VotesByKey(fold, []) == map[]
  {
  }

  method NormalizeProposal(fold: Folding, p: Detail, raw: map<RawKey, string>) returns (r: Option<Normalized>)
    ensures r.Some? <==> AcceptableDetail(fold, p, raw)
    ensures r.Some? ==> r.value == NormalizedDetail(fold, p, raw)
  {
    hide AcceptableTexts, AcceptableVotes, Percentage;
    if !AcceptableColumns(p, raw) {
      return None;
    }
    var votes := NormalizeVotes(fold, p.votes);
    if votes.None? {
      return None;
    }
    return Some(Normalized(
      Content(p.texts, p.status, CanonicalPercentage(p.yes), CanonicalPercentage(p.no), CanonicalPercentage(p.abstain),
              p.detailStatus, p.votesStatus, RawText(raw, DetailRender(p.id)), RawText(raw, VotesRender(p.id))),
      votes.value));
  }

  lemma {:induction false} RowIds(fold: Folding, proposals: seq<Detail>, raw: map<RawKey, string>, id: int)
    ensures id in RowsById(fold, proposals, raw) <==> exists i :: 0 <= i < |proposals| && proposals[i].id == id
  {
  }

  lemma NextIds(proposals: seq<Detail>, i: nat)
    requires i < |proposals| && DistinctIds(proposals[..i])
    ensures DistinctIds(proposals[..i + 1]) <==> forall j :: 0 <= j < i ==> proposals[j].id != proposals[i].id
  {
  }

  lemma NextRow(fold: Folding, proposals: seq<Detail>, raw: map<RawKey, string>, i: nat, rows: map<int, Normalized>)
    requires i < |proposals| && DistinctIds(proposals[..i]) && rows == RowsById(fold, proposals[..i], raw)
    ensures proposals[i].id !in rows <==> DistinctIds(proposals[..i + 1])
    ensures RowsById(fold, proposals[..i + 1], raw) ==
      rows[proposals[i].id := NormalizedDetail(fold, proposals[i], raw)]
  {
    hide NormalizedDetail;
    NextIds(proposals, i);
    RowIds(fold, proposals[..i], raw, proposals[i].id);
    LastRow(fold, proposals[..i + 1], raw);
    assert proposals[..i + 1][..i] == proposals[..i];
    hide RowsById, DistinctIds;
    assert forall j :: 0 <= j < i ==> proposals[..i][j] == proposals[j];
  }

  lemma LastRow(fold: Folding, proposals: seq<Detail>, raw: map<RawKey, string>)
    requires proposals != []
    ensures var n := |proposals| - 1;
            RowsById(fold, proposals, raw)
              == RowsById(fold, proposals[..n], raw)[proposals[n].id := NormalizedDetail(fold, proposals[n], raw)]
  {
    hide NormalizedDetail;
  }

  lemma IdsPrefix(proposals: seq<Detail>, i: nat)
    requires i <= |proposals| && !DistinctIds(proposals[..i])
    ensures !DistinctIds(proposals)
  {
  }

  lemma NoRows(fold: Folding, raw: map<RawKey, string>)
    ensures DistinctIds([]) && RowsById(fold, [], raw) == map[]
  {
  }

  method NormalizeProposals(fold: Folding, proposals: seq<Detail>, raw: map<RawKey, string>)
    returns (r: Option<map<int, Normalized>>)
    ensures r.Some? <==>
      (forall i :: 0 <= i < |proposals| ==> AcceptableDetail(fold, proposals[i], raw)) && DistinctIds(proposals)
    ensures r.Some? ==> r.value == RowsById(fold, proposals, raw)
  {
    hide AcceptableDetail, NormalizedDetail, RowsById, DistinctIds;
    var rows: map<int, Normalized> := map[];
    NoRows(fold, raw);
    for i := 0 to |proposals|
      invariant forall j :: 0 <= j < i ==> AcceptableDetail(fold, proposals[j], raw)
      invariant DistinctIds(proposals[..i]) && rows == RowsById(fold, proposals[..i], raw)
    {
      var p := proposals[i];
      NextRow(fold, proposals, raw, i, rows);
      if p.id in rows {
        IdsPrefix(proposals, i + 1);
        return None;
      }
      var row := NormalizeProposal(fold, p, raw);
      if row.None? {
        return None;
      }
      rows := rows[p.id := row.value];
    }
    assert proposals[..|proposals|] == proposals;
    return Some(rows);
  }

  /** `normalize_discovery`. */
  method NormalizeDiscovery(fold: Folding, d: Discovery, chain: string) returns (r: Option<map<int, Normalized>>)
    ensures r.Some? <==> Acceptable(fold, d, chain)
    ensures r.Some? ==> r.value == RowsById(fold, d.proposals, d.rawRenders)
  {
    hide AcceptableDetail, RowsById, DistinctIds, AcceptableRaw;
    if !d.complete || !AcceptableSource(d.source, chain) || !(1 <= d.pageCount <= MAX_GOVERNANCE_PAGES)
       || |d.proposals| > MAX_GOVERNANCE_PROPOSALS {
      return None;
    }
    var fits := RawFits(d.rawRenders);
    if !fits {
      return None;
    }
    r := NormalizeProposals(fold, d.proposals, d.rawRenders);
  }

  // ----- loading -----

  method MinMax(ids: set<int>) returns (least: int, greatest: int)
    requires ids != {}
    ensures IsLeast(ids, least) && IsGreatest(ids, greatest)
  {
    var rest := ids;
    var x := AnyOf(rest);
    least, greatest, rest := x, x, rest - {x};
    while rest != {}
      invariant rest <= ids && least in ids && greatest in ids
      invariant forall y :: y in ids && y !in rest ==> least <= y <= greatest
      decreases |rest|
    {
      x := AnyOf(rest);
      rest := rest - {x};
      if x < least { least := x; }
      if x > greatest { greatest := x; }
    }
  }

  /** The metadata tuple of a write. */
  method Metadata(height: int, pageCount: int, ids: set<int>) returns (sync: Sync)
    ensures sync == SyncAfter(height, pageCount, ids)
  {
    if ids == {} {
      sync := Sync(height, pageCount, 0, None, None);
    } else {
      var least, greatest := MinMax(ids);
      sync := Sync(height, pageCount, |ids|, Some(least), Some(greatest));
    }
    DescribesUnique(sync, SyncAfter(height, pageCount, ids), ids);
  }

  lemma MetadataAgrees(sync: Sync, height: int, pageCount: int, ids: set<int>)
    ensures SameMetadata(sync, pageCount, ids)
      <==> sync == SyncAfter(height, pageCount, ids).(sourceHeight := sync.sourceHeight)
  {
    if SameMetadata(sync, pageCount, ids) {
      DescribesUnique(sync, SyncAfter(height, pageCount, ids), ids);
    }
  }

  predicate ProposalOk(id: int, row: ProposalRow, voted: bool, height: int) {
    && id >= 0 && StoredContentOk(row.content) && SeenOk(row.seen, height)
    && (row.content.votesStatus == VotesParsed <==> voted)
  }

  lemma ProposalsOkMeans(proposals: map<int, ProposalRow>, votes: map<VoteId, VoteRow>, height: int)
    ensures ProposalsOk(proposals, votes, height) <==>
      forall id :: id in proposals ==> ProposalOk(id, proposals[id], id in (set v | v in votes :: v.0), height)
  {
    hide StoredContentOk, SeenOk;
    forall id ensures id in (set v | v in votes :: v.0) <==> HasVotes(votes, id) {
      if id in (set v | v in votes :: v.0) {
        var v :| v in votes && v.0 == id;
        assert (id, v.1) == v;
      }
      if HasVotes(votes, id) {
        var key :| (id, key) in votes;
        assert (id, key).0 == id;
      }
    }
  }

  method CheckProposals(proposals: map<int, ProposalRow>, votes: map<VoteId, VoteRow>, height: int) returns (ok: bool)
    ensures ok <==> ProposalsOk(proposals, votes, height)
  {
    hide StoredContentOk, SeenOk, ProposalsOk, ProposalOk;
    ProposalsOkMeans(proposals, votes, height);
    var voted := set v | v in votes :: v.0;
    var todo := proposals.Keys;
    while todo != {}
      invariant todo <= proposals.Keys
      invariant forall id :: id in proposals && id !in todo ==> ProposalOk(id, proposals[id], id in voted, height)
      decreases |todo|
    {
      var id := AnyOf(todo);
      if !ProposalOk(id, proposals[id], id in voted, height) {
        return false;
      }
      todo := todo - {id};
    }
    return true;
  }

  method CheckVotes(fold: Folding, ids: set<int>, votes: map<VoteId, VoteRow>, height: int) returns (ok: bool)
    ensures ok <==> VotesOk(fold, ids, votes, height)
  {
    hide StoredVoteOk, SeenOk;
    var todo := votes.Keys;
    while todo != {}
      invariant todo <= votes.Keys
      invariant forall v :: v in votes && v !in todo ==>
        v.0 in ids && StoredVoteOk(fold, v.1, votes[v].content) && SeenOk(votes[v].seen, height)
      decreases |todo|
    {
      var v: VoteId := AnyOf(todo);
      if !(v.0 in ids && StoredVoteOk(fold, v.1, votes[v].content) && SeenOk(votes[v].seen, height)) {
        return false;
      }
      todo := todo - {v};
    }
    return true;
  }

  /** `_load` without its queries: do the stored rows pass? */
  method Load(fold: Folding, s: Store) returns (ok: bool)
    ensures ok <==> Loadable(fold, s)
  {
    hide ProposalsOk, VotesOk, StoredRaw, PairTotal, SyncAfter;
    if s.sync.None? {
      return s.proposals == map[] && s.votes == map[];
    }
    var sync := s.sync.value;
    var expected := Metadata(sync.sourceHeight, sync.pageCount, s.proposals.Keys);
    MetadataAgrees(sync, sync.sourceHeight, sync.pageCount, s.proposals.Keys);
    if !(sync.sourceHeight >= 1 && 1 <= sync.pageCount <= MAX_GOVERNANCE_PAGES
         && sync.proposalCount <= MAX_GOVERNANCE_PROPOSALS && sync == expected) {
      return false;
    }
    var proposalsOk := CheckProposals(s.proposals, s.votes, sync.sourceHeight);
    if !proposalsOk {
      return false;
    }
    var total := PairBytes(StoredRaw(s.proposals));
    if total > MAX_TOTAL_RAW_BYTES {
      return false;
    }
    ok := CheckVotes(fold, s.proposals.Keys, s.votes, sync.sourceHeight);
  }

  // ----- writing rows -----

  /** The votes of one proposal after its rows were replaced. */
  ghost predicate VotesReplaced(out: map<VoteId, VoteRow>, votes: map<VoteId, VoteRow>, id: int,
                                row: map<string, VoteContent>,
                                height: int, now: int, todo: set<string>) {
    forall v: VoteId ::
      && (v in out <==> if v.0 == id then v.1 in row && (v.1 in todo ==> v in votes) else v in votes)
      && (v in out && v.0 == id && v.1 in row && v.1 !in todo ==>
          out[v] == UpsertedVote(votes, v, row[v.1], height, now))
      && (v in out && v in votes && (v.0 != id || v.1 in todo) ==> out[v] == votes[v])
  }

  method ReplaceVotes(votes: map<VoteId, VoteRow>, id: int, row: map<string, VoteContent>, height: int, now: int)
    returns (out: map<VoteId, VoteRow>)
    ensures VotesReplaced(out, votes, id, row, height, now, {})
  {
    out := map v | v in votes && (v.0 != id || v.1 in row) :: votes[v];
    var todo := row.Keys;
    while todo != {}
      invariant todo <= row.Keys && VotesReplaced(out, votes, id, row, height, now, todo)
      decreases |todo|
    {
      var key := AnyOf(todo);
      out := out[(id, key) := UpsertedVote(votes, (id, key), row[key], height, now)];
      todo := todo - {key};
    }
  }

  lemma VotesMerged(out: map<VoteId, VoteRow>, votes: map<VoteId, VoteRow>, done: map<int, Normalized>, id: int,
                    row: Normalized,
                    height: int, now: int)
    requires id !in done && VotesReplaced(out, MergedVotes(votes, done, height, now), id, row.votes, height, now, {})
    ensures out == MergedVotes(votes, done[id := row], height, now)
  {
    var before, after := MergedVotes(votes, done, height, now), MergedVotes(votes, done[id := row], height, now);
    forall v: VoteId
      ensures v in out <==> v in after
      ensures v in out ==> out[v] == after[v]
    {
      MergedVoteAt(votes, done, height, now, v);
      MergedVoteAt(votes, done[id := row], height, now, v);
    }
  }

  lemma RowVotesAt(rows: map<int, Normalized>, v: VoteId)
    ensures v in RowVotes(rows) <==> v.0 in rows && v.1 in rows[v.0].votes
  {
    if v.0 in rows && v.1 in rows[v.0].votes {
      var (id, key) := v;
      assert id in rows && key in rows[id].votes && (id, key) == v;
    }
  }

  lemma MergedVoteAt(votes: map<VoteId, VoteRow>, rows: map<int, Normalized>, height: int, now: int, v: VoteId)
    ensures v in MergedVotes(votes, rows, height, now) <==> if v.0 in rows then v.1 in rows[v.0].votes else v in votes
    ensures v in MergedVotes(votes, rows, height, now) ==>
      MergedVotes(votes, rows, height, now)[v]
        == if v.0 in rows then UpsertedVote(votes, v, rows[v.0].votes[v.1], height, now) else votes[v]
  {
    RowVotesAt(rows, v);
    hide RowVotes;
  }

  lemma ProposalMerged(proposals: map<int, ProposalRow>, done: map<int, Normalized>, id: int, row: Normalized,
                       height: int, now: int)
    requires id !in done
    ensures var merged := MergedProposals(proposals, done, height, now);
            MergedProposals(proposals, done[id := row], height, now) ==
              merged[id := UpsertedProposal(proposals, id, row.content, height, now)]
  {
  }

  lemma NothingMerged(s: Store, height: int, now: int)
    ensures MergedProposals(s.proposals, map[], height, now) == s.proposals
    ensures MergedVotes(s.votes, map[], height, now) == s.votes
  {
    forall v: VoteId
      ensures v in MergedVotes(s.votes, map[], height, now) <==> v in s.votes
      ensures v in s.votes ==> MergedVotes(s.votes, map[], height, now)[v] == s.votes[v]
    {
      MergedVoteAt(s.votes, map[], height, now, v);
    }
  }

  /** The rows that are not to do any more. */
  function Done(rows: map<int, Normalized>, todo: set<int>): map<int, Normalized> {
    map id | id in rows && id !in todo :: rows[id]
  }

  lemma DoneNext(rows: map<int, Normalized>, todo: set<int>, id: int)
    requires id in rows && id in todo
    ensures Done(rows, todo - {id}) == Done(rows, todo)[id := rows[id]] && id !in Done(rows, todo)
  {
  }

  lemma DoneAll(rows: map<int, Normalized>)
    ensures Done(rows, {}) == rows && Done(rows, rows.Keys) == map[]
  {
  }

  /** Every row below the ones that are still to do is done. */
  predicate InOrder(rows: map<int, Normalized>, todo: set<int>) {
    forall x, y :: x in rows && x !in todo && y in todo ==> x < y
  }

  /** The write loop, in the order of the ids: each row is upserted and its votes are replaced. With
      `checked`, a forbidden status transition ends it; a late row always does. */
  method WriteRows(s: Store, rows: map<int, Normalized>, height: int, now: int, checked: bool)
    returns (r: Result<(map<int, ProposalRow>, map<VoteId, VoteRow>), Error>)
    ensures r.Err? <==> RowsRefusal(s.proposals, s.votes, rows, now, checked).Some?
    ensures r.Err? ==> Some(r.error) == RowsRefusal(s.proposals, s.votes, rows, now, checked)
    ensures r.Ok? ==>
      r.value == (MergedProposals(s.proposals, rows, height, now), MergedVotes(s.votes, rows, height, now))
  {
    hide MergedProposals, MergedVotes, VotesReplaced, UpsertedProposal, Done, Late, Allowed, RowsRefusal, InOrder;
    var proposals, votes := s.proposals, s.votes;
    var todo := rows.Keys;
    NothingMerged(s, height, now);
    DoneAll(rows);
    OrderStarts(rows);
    while todo != {}
      invariant todo <= rows.Keys && InOrder(rows, todo)
      invariant checked ==> forall id :: id in rows && id !in todo ==> !Forbidden(s.proposals, rows, id)
      invariant forall id :: id in rows && id !in todo ==> !Late(s.proposals, s.votes, id, rows[id], now)
      invariant proposals == MergedProposals(s.proposals, Done(rows, todo), height, now)
      invariant votes == MergedVotes(s.votes, Done(rows, todo), height, now)
      decreases |todo|
    {
      var id, greatest := MinMax(todo);
      OrderNext(rows, todo, id);
      var row := rows[id];
      if checked && Forbidden(s.proposals, rows, id) {
        RefusedForbidden(s, rows, now, todo, id);
        return Err(SnapshotConflict);
      }
      if Late(s.proposals, s.votes, id, row, now) {
        RefusedLate(s, rows, now, todo, id, checked);
        return Err(TableCheck);
      }
      var replaced := ReplaceVotes(votes, id, row.votes, height, now);
      DoneNext(rows, todo, id);
      VotesMerged(replaced, s.votes, Done(rows, todo), id, row, height, now);
      ProposalMerged(s.proposals, Done(rows, todo), id, row, height, now);
      proposals := proposals[id := UpsertedProposal(s.proposals, id, row.content, height, now)];
      votes := replaced;
      todo := todo - {id};
    }
    NotRefused(s, rows, now, checked);
    return Ok((proposals, votes));
  }

  lemma OrderStarts(rows: map<int, Normalized>)
    ensures InOrder(rows, rows.Keys)
  {
  }

  lemma OrderNext(rows: map<int, Normalized>, todo: set<int>, id: int)
    requires InOrder(rows, todo) && todo <= rows.Keys && IsLeast(todo, id)
    ensures InOrder(rows, todo - {id}) && forall x :: x in rows && x < id ==> x !in todo
  {
  }

  lemma RefusedForbidden(s: Store, rows: map<int, Normalized>, now: int, todo: set<int>, id: int)
    requires id in rows && Forbidden(s.proposals, rows, id) && forall x :: x in rows && x < id ==> x !in todo
    requires forall x :: x in rows && x !in todo ==> !Late(s.proposals, s.votes, x, rows[x], now)
    ensures RowsRefusal(s.proposals, s.votes, rows, now, true) == Some(SnapshotConflict)
  {
    hide Late, Forbidden;
    assert forall x :: x in rows && x < id ==> !Late(s.proposals, s.votes, x, rows[x], now);
  }

  lemma RefusedLate(s: Store, rows: map<int, Normalized>, now: int, todo: set<int>, id: int, checked: bool)
    requires id in rows && Late(s.proposals, s.votes, id, rows[id], now)
    requires forall x :: x in rows && x < id ==> x !in todo
    requires checked ==> !Forbidden(s.proposals, rows, id)
    requires checked ==> forall x :: x in rows && x !in todo ==> !Forbidden(s.proposals, rows, x)
    ensures RowsRefusal(s.proposals, s.votes, rows, now, checked) == Some(TableCheck)
  {
    hide Late, Forbidden;
  }

  lemma NotRefused(s: Store, rows: map<int, Normalized>, now: int, checked: bool)
    requires forall id :: id in rows ==> !Late(s.proposals, s.votes, id, rows[id], now)
    requires checked ==> forall id :: id in rows ==> !Forbidden(s.proposals, rows, id)
    ensures RowsRefusal(s.proposals, s.votes, rows, now, checked).None?
  {
    hide Late, Forbidden;
  }

  // ----- the inputs of the quick writer -----

  predicate Occurs(summaries: seq<Summary>, id: int) {
    exists i :: 0 <= i < |summaries| && summaries[i].id == id
  }

  lemma {:induction false} ListedIds(summaries: seq<Summary>, id: int)
    ensures id in Listed(summaries) <==> Occurs(summaries, id)
  {
    if summaries != [] {
      ListedIds(summaries[..|summaries| - 1], id);
    }
  }

  /** The last summary adds an id unless it occurred before. */
  lemma ListedGrows(summaries: seq<Summary>, rest: seq<Summary>, id: int)
    requires summaries != [] && rest == summaries[..|summaries| - 1] && id == summaries[|summaries| - 1].id
    ensures |Listed(summaries).Keys| == |Listed(rest).Keys| + if Occurs(rest, id) then 0 else 1
    ensures DistinctSummaries(summaries) <==> DistinctSummaries(rest) && !Occurs(rest, id)
  {
    ListedIds(rest, id);
    LastDistinct(summaries);
    AddedKey(Listed(rest), id, summaries[|summaries| - 1]);
  }

  lemma AddedKey<K, V>(m: map<K, V>, k: K, v: V)
    ensures |m[k := v].Keys| == |m.Keys| + if k in m then 0 else 1
  {
    assert m[k := v].Keys == m.Keys + {k};
  }

  /** A dictionary as large as the list means that no id occurs twice. */
  lemma {:induction false} ListedSize(summaries: seq<Summary>)
    ensures |Listed(summaries).Keys| <= |summaries|
    ensures |Listed(summaries).Keys| == |summaries| <==> DistinctSummaries(summaries)
  {
    if summaries != [] {
      hide Listed, DistinctSummaries, Occurs;
      var rest := summaries[..|summaries| - 1];
      ListedSize(rest);
      ListedGrows(summaries, rest, summaries[|summaries| - 1].id);
    }
  }

  lemma LastDistinct(summaries: seq<Summary>)
    requires summaries != []
    ensures var n := |summaries| - 1;
            DistinctSummaries(summaries) <==>
              DistinctSummaries(summaries[..n]) && !Occurs(summaries[..n], summaries[n].id)
  {
    var n := |summaries| - 1;
    assert forall i :: 0 <= i < n ==> summaries[..n][i] == summaries[i];
  }

  /** The dictionary of summaries by id. */
  method BuildSummaries(summaries: seq<Summary>) returns (listed: map<int, Summary>)
    ensures listed == Listed(summaries)
  {
    listed := map[];
    for i := 0 to |summaries|
      invariant listed == Listed(summaries[..i])
    {
      assert summaries[..i + 1][..i] == summaries[..i];
      listed := listed[summaries[i].id := summaries[i]];
    }
    assert summaries[..|summaries|] == summaries;
  }

  lemma RequiredIs(listed: map<int, Summary>, proposals: map<int, ProposalRow>, id: int)
    ensures id in Required(listed, proposals) <==> NeedsRefresh(listed, proposals, id)
  {
  }

  lemma RequiredEnds(listed: map<int, Summary>, proposals: map<int, ProposalRow>)
    ensures Required(listed, proposals) - listed.Keys == {} &&
      Required(listed, proposals) - {} == Required(listed, proposals)
  {
  }

  /** `select_governance_refresh_ids`. */
  method SelectRefreshIds(listed: map<int, Summary>, proposals: map<int, ProposalRow>) returns (selected: set<int>)
    ensures selected == Required(listed, proposals)
  {
    hide Required, NeedsRefresh;
    selected := {};
    var todo := listed.Keys;
    RequiredEnds(listed, proposals);
    while todo != {}
      invariant todo <= listed.Keys
      invariant selected == Required(listed, proposals) - todo
      decreases |todo|
    {
      var id := AnyOf(todo);
      RequiredIs(listed, proposals, id);
      if NeedsRefresh(listed, proposals, id) {
        selected := selected + {id};
      }
      todo := todo - {id};
    }
  }

  method CheckTargets(targeted: seq<Discovery>, source: Source, listed: map<int, Summary>) returns (ok: bool)
    ensures ok <==> TargetsWellFormed(targeted, source, listed)
  {
    var seen: set<int> := {};
    for i := 0 to |targeted|
      invariant forall j :: 0 <= j < i ==>
        targeted[j].source == source && |targeted[j].proposals| == 1 && targeted[j].proposals[0].id in listed
      invariant forall j, k :: 0 <= j < k < i ==> targeted[j].proposals[0].id != targeted[k].proposals[0].id
      invariant forall id :: id in seen <==> exists j :: 0 <= j < i && targeted[j].proposals[0].id == id
    {
      var t := targeted[i];
      if t.source != source || |t.proposals| != 1 || t.proposals[0].id in seen || t.proposals[0].id !in listed {
        return false;
      }
      seen := seen + {t.proposals[0].id};
    }
    return true;
  }

  method NormalizeTarget(fold: Folding, source: Source, t: Discovery, chain: string, listed: map<int, Summary>)
    returns (r: Option<Normalized>)
    requires |t.proposals| == 1 && t.proposals[0].id in listed
    ensures r.Some? <==> TargetAcceptable(fold, source, t, chain, listed)
    ensures r.Some? ==> r.value == NormalizedDetail(fold, t.proposals[0], t.rawRenders)
  {
    hide Acceptable, NormalizedDetail, RowsById;
    var rows := NormalizeDiscovery(fold, Candidate(source, t), chain);
    if rows.None? {
      return None;
    }
    var id := t.proposals[0].id;
    if t.proposals[0].status != listed[id].status && listed[id].status != Unknown {
      return None;
    }
    OnlyRow(fold, t.proposals, t.rawRenders);
    return Some(rows.value[id]);
  }

  lemma OnlyRow(fold: Folding, proposals: seq<Detail>, raw: map<RawKey, string>)
    requires |proposals| == 1
    ensures RowsById(fold, proposals, raw) == map[proposals[0].id := NormalizedDetail(fold, proposals[0], raw)]
  {
    LastRow(fold, proposals, raw);
    NoRows(fold, raw);
    hide NormalizedDetail, RowsById;
    assert proposals[..0] == [];
  }

  lemma NextTarget(fold: Folding, targeted: seq<Discovery>, i: nat)
    requires i < |targeted| && |targeted[i].proposals| == 1
    ensures TargetRows(fold, targeted[..i + 1])
         == TargetRows(fold, targeted[..i])[targeted[i].proposals[0].id :=
              NormalizedDetail(fold, targeted[i].proposals[0], targeted[i].rawRenders)]
  {
    hide NormalizedDetail;
    assert targeted[..i + 1][..i] == targeted[..i];
  }

  method NormalizeTargets(fold: Folding, source: Source, targeted: seq<Discovery>, chain: string,
                          listed: map<int, Summary>)
    returns (r: Option<map<int, Normalized>>)
    requires TargetsWellFormed(targeted, source, listed)
    ensures r.Some? <==> forall i :: 0 <= i < |targeted| ==> TargetAcceptable(fold, source, targeted[i], chain, listed)
    ensures r.Some? ==> r.value == TargetRows(fold, targeted)
  {
    hide TargetAcceptable, TargetRows, NormalizedDetail;
    var rows: map<int, Normalized> := map[];
    NoTargets(fold);
    assert targeted[..0] == [];
    for i := 0 to |targeted|
      invariant forall j :: 0 <= j < i ==> TargetAcceptable(fold, source, targeted[j], chain, listed)
      invariant rows == TargetRows(fold, targeted[..i])
    {
      var row := NormalizeTarget(fold, source, targeted[i], chain, listed);
      if row.None? {
        return None;
      }
      NextTarget(fold, targeted, i);
      rows := rows[targeted[i].proposals[0].id := row.value];
    }
    assert targeted[..|targeted|] == targeted;
    return Some(rows);
  }

  lemma NoTargets(fold: Folding)
    ensures TargetRows(fold, []) == map[]
  {
  }

  // ----- the retry check -----

  /** The stored content of one proposal and its votes equals one refreshed row. */
  method RowIsStored(proposals: map<int, ProposalRow>, votes: map<VoteId, VoteRow>, id: int, row: Normalized)
    returns (ok: bool)
    ensures ok <==> SameRow(proposals, votes, id, row)
  {
    if id !in proposals || proposals[id].content != row.content {
      return false;
    }
    var stored := set v | v in votes && v.0 == id :: v.1;
    assert forall key :: key in stored <==> (id, key) in votes by {
      assert forall key :: (id, key) in votes ==> (id, key).0 == id && (id, key).1 == key;
      assert forall v: VoteId :: v.0 == id ==> v == (id, v.1);
    }
    ok := stored == row.votes.Keys && forall key :: key in row.votes ==> votes[(id, key)].content == row.votes[key];
  }

  /** A refreshed proposal that did not have to be was terminal at this height. */
  predicate TerminalAt(proposals: map<int, ProposalRow>, id: int, height: int) {
    && id in proposals
    && (proposals[id].content.status == Accepted || proposals[id].content.status == Rejected)
    && proposals[id].seen.lastHeight == height
  }

  method TargetsAreRepeated(s: Store, rows: map<int, Normalized>, required: set<int>, height: int) returns (ok: bool)
    ensures ok <==> TargetsRepeat(s.proposals, s.votes, required, rows, height)
  {
    hide SameRow;
    if !(required <= rows.Keys) {
      return false;
    }
    var todo := rows.Keys;
    while todo != {}
      invariant todo <= rows.Keys
      invariant forall id :: id in rows && id !in todo ==> SameRow(s.proposals, s.votes, id, rows[id])
      invariant forall id :: id in rows.Keys - required && id !in todo ==> TerminalAt(s.proposals, id, height)
      decreases |todo|
    {
      var id := AnyOf(todo);
      if id !in required && !TerminalAt(s.proposals, id, height) {
        assert id in rows.Keys - required;
        return false;
      }
      var same := RowIsStored(s.proposals, s.votes, id, rows[id]);
      if !same {
        return false;
      }
      todo := todo - {id};
    }
    return true;
  }

  method RetryIsAccepted(s: Store, l: Listing, listed: map<int, Summary>, rows: map<int, Normalized>,
                         required: set<int>) returns (ok: bool)
    requires s.sync.Some? && listed == Listed(l.proposals) && required == Required(listed, s.proposals)
    ensures ok <==> RetryAccepted(s, l, rows)
  {
    hide SyncAfter, ListedAgrees, TargetsRepeat, Listed, Required, SameMetadata;
    var metadata := Metadata(s.sync.value.sourceHeight, l.pageCount, listed.Keys);
    MetadataAgrees(s.sync.value, s.sync.value.sourceHeight, l.pageCount, listed.Keys);
    if s.sync.value != metadata || !ListedAgrees(listed, s.proposals) {
      return false;
    }
    ok := TargetsAreRepeated(s, rows, required, l.source.observedHeight);
  }

  method MovesAllowed(proposals: map<int, ProposalRow>, listed: map<int, Summary>) returns (ok: bool)
    requires proposals.Keys <= listed.Keys
    ensures ok <==> !exists id :: id in proposals && !Allowed(proposals[id].content.status, listed[id].status)
  {
    var todo := proposals.Keys;
    while todo != {}
      invariant todo <= proposals.Keys
      invariant forall id :: id in proposals && id !in todo ==> Allowed(proposals[id].content.status, listed[id].status)
      decreases |todo|
    {
      var id := AnyOf(todo);
      if !Allowed(proposals[id].content.status, listed[id].status) {
        return false;
      }
      todo := todo - {id};
    }
    return true;
  }

  // ----- the store -----

  class GovernanceTables {
    var identity: Option<string>
    var sync: Option<Sync>
    var proposals: map<int, ProposalRow>
    var votes: map<VoteId, VoteRow>

    constructor (identity: Option<string>)
      ensures View() == Store(identity, None, map[], map[])
    {
      this.identity, sync, proposals, votes := identity, None, map[], map[];
    }

    function View(): Store
      reads this
    {
      Store(identity, sync, proposals, votes)
    }

    /** `persist_governance_snapshot_cursor`: everything is written in one transaction, which an exception rolls
        back. */
    method PersistSnapshot(fold: Folding, d: Discovery, chain: string, now: int) returns (r: Outcome)
      modifies this
      ensures (View(), r) == PersistFull(fold, old(View()), d, chain, now)
    {
      hide Acceptable, Loadable, SameContent, MergedProposals, MergedVotes, RowsById, SyncAfter, SameMetadata,
        RowsRefusal;
      var rows := NormalizeDiscovery(fold, d, chain);
      if rows.None? {
        return Err(Invalid);
      }
      var height := d.source.observedHeight;
      if identity.Some? && identity.value != d.source.chainId {
        return Err(ChainIdentity);
      }
      var loaded := Load(fold, View());
      if !loaded {
        return Err(StoredState);
      }
      if sync.Some? && sync.value.sourceHeight > height {
        return Err(StaleSnapshot);
      }
      var metadata := Metadata(height, d.pageCount, rows.value.Keys);
      if sync.Some? && sync.value.sourceHeight == height {
        MetadataAgrees(sync.value, height, d.pageCount, rows.value.Keys);
        if sync.value == metadata && SameContent(proposals, votes, rows.value) {
          return Ok(Unchanged);
        }
        return Err(SnapshotConflict);
      }
      if !(proposals.Keys <= rows.value.Keys) {
        return Err(SnapshotConflict);
      }
      var written := WriteRows(View(), rows.value, height, now, true);
      if written.Err? {
        return Err(written.error);
      }
      var after := Store(identity, Some(metadata), written.value.0, written.value.1);
      var verified := Load(fold, after);
      if !verified || !SameContent(after.proposals, after.votes, rows.value) {
        return Err(PostWriteCheck);
      }
      sync, proposals, votes := after.sync, after.proposals, after.votes;
      return Ok(Applied);
    }

    /** `persist_governance_incremental_cursor`, which checks nothing after it has written. */
    method PersistIncremental(fold: Folding, l: Listing, targeted: seq<Discovery>, chain: string, now: int)
      returns (r: Outcome)
      modifies this
      ensures (View(), r) == PersistQuick(fold, old(View()), l, targeted, chain, now)
    {
      hide TargetAcceptable, Loadable, MergedProposals, MergedVotes, TargetRows, SyncAfter, PairTotal, FinalRaw,
        RetryAccepted, TargetsWellFormed, DistinctSummaries, Listed, Required, Allowed;
      if !l.complete {
        return Err(IncompleteSnapshot);
      }
      if l.source.chainId != chain {
        return Err(ChainIdentity);
      }
      var listed := BuildSummaries(l.proposals);
      ListedSize(l.proposals);
      if l.source.realmPath == "" || !Bounded(l.source.realmPath, 512) || l.source.observedHeight < 1
         || !(1 <= l.pageCount <= MAX_GOVERNANCE_PAGES)
         || |listed.Keys| != |l.proposals| || |listed.Keys| > MAX_GOVERNANCE_PROPOSALS {
        return Err(Invalid);
      }
      if identity.Some? && identity.value != l.source.chainId {
        return Err(ChainIdentity);
      }
      var loaded := Load(fold, View());
      if !loaded {
        return Err(StoredState);
      }
      var height := l.source.observedHeight;
      if sync.Some? && sync.value.sourceHeight > height {
        return Err(StaleSnapshot);
      }
      if !(proposals.Keys <= listed.Keys) {
        return Err(SnapshotConflict);
      }
      var wellFormed := CheckTargets(targeted, l.source, listed);
      if !wellFormed {
        return Err(Invalid);
      }
      var rows := NormalizeTargets(fold, l.source, targeted, chain, listed);
      if rows.None? {
        return Err(Invalid);
      }
      var total := PairBytes(FinalRaw(proposals, rows.value));
      if total > MAX_TOTAL_RAW_BYTES {
        return Err(IncompleteSnapshot);
      }
      var required := SelectRefreshIds(listed, proposals);
      if sync.Some? && sync.value.sourceHeight == height {
        var accepted := RetryIsAccepted(View(), l, listed, rows.value, required);
        return if accepted then Ok(Unchanged) else Err(SnapshotConflict);
      }
      var allowed := MovesAllowed(proposals, listed);
      if !allowed {
        return Err(SnapshotConflict);
      }
      if rows.value.Keys != required {
        return Err(Invalid);
      }
      var metadata := Metadata(height, l.pageCount, listed.Keys);
      var written := WriteRows(View(), rows.value, height, now, false);
      if written.Err? || !StorableChain(l.source.chainId) {
        return Err(TableCheck);
      }
      sync, proposals, votes := Some(metadata), written.value.0, written.value.1;
      return Ok(Applied);
    }
  }
}
