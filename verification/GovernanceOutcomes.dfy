/** When exactly a governance write is applied and when it is refused, and what an applied one stores,
    all in terms of the incoming and the stored statuses, ids and times. */
module GovernanceOutcomes {
  import opened Wrappers
  import opened GovernanceModel
  import opened GovernancePersistence
  import opened GovernanceInvariants
  import opened GovernanceFields
  import opened GovernanceRuns

  /** The stored proposal was decided otherwise, or was active and is no longer known to be. */
  predicate GoesBack(before: Status, after: Status) {
    || (before == Accepted && after != Accepted)
    || (before == Rejected && after != Rejected)
    || (before == Active && after != Active && after != Accepted && after != Rejected)
    || (before == Unknown && after.OtherStatus?)
    || (before.OtherStatus? && after != before)
  }

  lemma AllowedIff(before: Status, after: Status)
    ensures Allowed(before, after) <==> !GoesBack(before, after)
    ensures Allowed(before, after) <==> Forward(before, after)
  {
  }

  // ----- the full writer -----

  /** What the full writer checks before it compares the scan with the stored rows of a lower height. */
  ghost predicate FullMayWrite(fold: Folding, s: Store, d: Discovery, chain: string) {
    && Acceptable(fold, d, chain) && Loadable(fold, s)
    && (s.identity.Some? ==> s.identity.value == chain)
    && (s.sync.Some? ==> s.sync.value.sourceHeight < d.source.observedHeight)
  }

  /** Some stored proposal is not in the scan. */
  predicate Missing(s: Store, d: Discovery) {
    exists id :: id in s.proposals && !Scanned(d, id)
  }

  predicate Scanned(d: Discovery, id: int) { exists i :: 0 <= i < |d.proposals| && d.proposals[i].id == id }

  predicate BackAt(s: Store, p: Detail) { p.id in s.proposals && GoesBack(s.proposals[p.id].content.status, p.status) }

  /** Writing this proposal now would be before its own or one of its votes' first observation. */
  predicate TooEarly(fold: Folding, s: Store, p: Detail, now: int) {
    || (p.id in s.proposals && now < s.proposals[p.id].seen.firstAt)
    || exists v :: v in p.votes && (p.id, Key(fold, v)) in s.votes && now < s.votes[(p.id, Key(fold, v))].seen.firstAt
  }

  lemma ScanRows(fold: Folding, d: Discovery, chain: string, i: nat)
    requires Acceptable(fold, d, chain) && i < |d.proposals|
    ensures var rows, p := RowsById(fold, d.proposals, d.rawRenders), d.proposals[i];
            && p.id in rows && rows[p.id] == NormalizedDetail(fold, p, d.rawRenders)
            && rows[p.id].content.status == p.status && rows[p.id].votes == VotesByKey(fold, p.votes)
  {
    hide AcceptableDetail, AcceptableRaw, RowsById, VotesByKey, CanonicalPercentage;
    RowIsItsDetail(fold, d.proposals, d.rawRenders, i);
  }

  lemma ScanVotes(fold: Folding, p: Detail, raw: map<RawKey, string>)
    requires AcceptableDetail(fold, p, raw)
    ensures forall key :: key in VotesByKey(fold, p.votes) <==> exists v :: v in p.votes && Key(fold, v) == key
  {
    hide AcceptableVote, AcceptableColumns, Key, VotesByKey;
    VotesByKeyIs(fold, p.votes);
  }

  lemma LateIff(fold: Folding, s: Store, d: Discovery, chain: string, now: int, i: nat)
    requires Acceptable(fold, d, chain) && i < |d.proposals|
    ensures var p := d.proposals[i];
            Late(s.proposals, s.votes, p.id, NormalizedDetail(fold, p, d.rawRenders), now) <==>
              TooEarly(fold, s, p, now)
  {
    var p := d.proposals[i];
    assert AcceptableDetail(fold, p, d.rawRenders);
    ScanVotes(fold, p, d.rawRenders);
    hide AcceptableDetail, AcceptableRaw, Key, VotesByKey, CanonicalPercentage, Acceptable;
  }

  lemma RowsAreScanned(fold: Folding, d: Discovery, id: int)
    ensures id in RowsById(fold, d.proposals, d.rawRenders) <==> Scanned(d, id)
  {
    hide RowsById;
  }

  /** The row of a scanned proposal is too early or goes back exactly if the proposal does. */
  lemma ScannedRow(fold: Folding, s: Store, d: Discovery, chain: string, now: int, i: nat)
    requires Acceptable(fold, d, chain) && i < |d.proposals|
    ensures var rows, p := RowsById(fold, d.proposals, d.rawRenders), d.proposals[i];
            && p.id in rows && (Late(s.proposals, s.votes, p.id, rows[p.id], now) <==> TooEarly(fold, s, p, now))
            && (Forbidden(s.proposals, rows, p.id) <==> BackAt(s, p))
  {
    ScanRows(fold, d, chain, i);
    LateIff(fold, s, d, chain, now, i);
    var p := d.proposals[i];
    if p.id in s.proposals { AllowedIff(s.proposals[p.id].content.status, p.status); }
    hide Acceptable, Late, TooEarly, Allowed, GoesBack, RowsById;
  }

  lemma LateInRows(fold: Folding, s: Store, d: Discovery, chain: string, now: int)
    requires Acceptable(fold, d, chain)
    ensures var rows := RowsById(fold, d.proposals, d.rawRenders);
            NoneLate(s.proposals, s.votes, rows, now) <==> forall p :: p in d.proposals ==> !TooEarly(fold, s, p, now)
  {
    var rows := RowsById(fold, d.proposals, d.rawRenders);
    hide Acceptable, Late, TooEarly, RowsById, Forbidden, BackAt;
    if NoneLate(s.proposals, s.votes, rows, now) {
      forall p | p in d.proposals ensures !TooEarly(fold, s, p, now) {
        var i :| 0 <= i < |d.proposals| && d.proposals[i] == p;
        ScannedRow(fold, s, d, chain, now, i);
      }
    }
    if forall p :: p in d.proposals ==> !TooEarly(fold, s, p, now) {
      forall id | id in rows ensures !Late(s.proposals, s.votes, id, rows[id], now) {
        RowsAreScanned(fold, d, id);
        var i :| 0 <= i < |d.proposals| && d.proposals[i].id == id;
        ScannedRow(fold, s, d, chain, now, i);
      }
    }
  }

  lemma BackInRows(fold: Folding, s: Store, d: Discovery, chain: string, now: int)
    requires Acceptable(fold, d, chain)
    ensures var rows := RowsById(fold, d.proposals, d.rawRenders);
            (exists id :: Forbidden(s.proposals, rows, id)) <==> exists p :: p in d.proposals && BackAt(s, p)
  {
    var rows := RowsById(fold, d.proposals, d.rawRenders);
    ForbiddenInRows(s.proposals, rows);
    hide Acceptable, Late, TooEarly, RowsById, Forbidden, BackAt;
    if id :| Forbidden(s.proposals, rows, id) {
      RowsAreScanned(fold, d, id);
      var i :| 0 <= i < |d.proposals| && d.proposals[i].id == id;
      ScannedRow(fold, s, d, chain, now, i);
    }
    if p :| p in d.proposals && BackAt(s, p) {
      var i :| 0 <= i < |d.proposals| && d.proposals[i] == p;
      ScannedRow(fold, s, d, chain, now, i);
    }
  }

  lemma MissingInRows(fold: Folding, s: Store, d: Discovery)
    ensures s.proposals.Keys <= RowsById(fold, d.proposals, d.rawRenders).Keys <==> !Missing(s, d)
  {
    hide RowsById, Scanned;
    var rows := RowsById(fold, d.proposals, d.rawRenders);
    if s.proposals.Keys <= rows.Keys {
      forall id | id in s.proposals ensures Scanned(d, id) {
        assert id in rows.Keys;
        RowsAreScanned(fold, d, id);
      }
    }
    if !Missing(s, d) {
      forall id | id in s.proposals.Keys ensures id in rows.Keys {
        RowsAreScanned(fold, d, id);
      }
    }
  }

  lemma ForbiddenInRows(proposals: map<int, ProposalRow>, rows: map<int, Normalized>)
    ensures forall id :: Forbidden(proposals, rows, id) ==> id in rows
  {
  }

  /** A full write at a new height is applied exactly if no stored proposal is missing from the scan, none
      goes back, and no time is before a first observation; then it never fails. Without a time that is too
      early, anything else is a conflict. */
  lemma FullOutcome(fold: Folding, s: Store, d: Discovery, chain: string, now: int)
    requires FullMayWrite(fold, s, d, chain)
    ensures var r := PersistFull(fold, s, d, chain, now).1;
            var back := exists p :: p in d.proposals && BackAt(s, p);
            var early := exists p :: p in d.proposals && TooEarly(fold, s, p, now);
            && (r == Ok(Applied) <==> !Missing(s, d) && !back && !early)
            && (Missing(s, d) || (back && !early) ==> r == Err(SnapshotConflict))
            && (!Missing(s, d) && !back && early ==> r == Err(TableCheck))
            && (r == Ok(Applied) || r == Err(SnapshotConflict) || r == Err(TableCheck))
  {
    hide Acceptable, Loadable, RowsById, BackAt, TooEarly, Missing, NoneLate, Forbidden, ForbiddenFirst, PersistFull;
    LateInRows(fold, s, d, chain, now);
    BackInRows(fold, s, d, chain, now);
    MissingInRows(fold, s, d);
    FirstForbidden(s, RowsById(fold, d.proposals, d.rawRenders), now);
    FullDecision(fold, s, d, chain, now);
    FullKeepsLoadable(fold, s, d, chain, now);
  }

  /** The last part of the full writer. */
  lemma FullDecision(fold: Folding, s: Store, d: Discovery, chain: string, now: int)
    requires FullMayWrite(fold, s, d, chain)
    ensures var rows, r := RowsById(fold, d.proposals, d.rawRenders), PersistFull(fold, s, d, chain, now).1;
            var refusal := RowsRefusal(s.proposals, s.votes, rows, now, true);
            if !(s.proposals.Keys <= rows.Keys) then r == Err(SnapshotConflict)
            else if refusal.Some? then r == Err(refusal.value)
            else r == Ok(Applied) || r == Err(PostWriteCheck)
  {
    hide AcceptableDetail, AcceptableRaw, Loadable, RowsById, SameContent, SameMetadata, Written, RowsRefusal;
  }

  lemma FirstForbidden(s: Store, rows: map<int, Normalized>, now: int)
    ensures NoneLate(s.proposals, s.votes, rows, now) ==>
      (ForbiddenFirst(s.proposals, s.votes, rows, now) <==> exists id :: Forbidden(s.proposals, rows, id))
    ensures ForbiddenFirst(s.proposals, s.votes, rows, now) ==> exists id :: Forbidden(s.proposals, rows, id)
  {
    hide Late, Allowed;
    if NoneLate(s.proposals, s.votes, rows, now) && exists id :: Forbidden(s.proposals, rows, id) {
      var id :| Forbidden(s.proposals, rows, id);
      ForbiddenIsFirst(s.proposals, s.votes, rows, now, id);
    }
  }

  /** What an applied full write stores of a scanned proposal. */
  lemma FullStores(fold: Folding, s: Store, d: Discovery, chain: string, now: int, i: nat)
    requires PersistFull(fold, s, d, chain, now).1 == Ok(Applied) && i < |d.proposals|
    ensures var t, p := PersistFull(fold, s, d, chain, now).0, d.proposals[i];
            && p.id in t.proposals && StoredAs(fold, t, p, d.rawRenders)
            && t.proposals[p.id].seen.lastHeight == d.source.observedHeight
            && (p.id !in s.proposals ==> t.proposals[p.id].seen.firstHeight == d.source.observedHeight)
  {
    var rows := FullResult(fold, s, d, chain, now);
    var p := d.proposals[i];
    ScanRows(fold, d, chain, i);
    assert AcceptableDetail(fold, p, d.rawRenders);
    StoredAsWritten(fold, s, p, d.rawRenders, rows, d.source.observedHeight, d.pageCount, rows.Keys, now);
    hide PersistFull, Written;
    WrittenProposal(s, rows, d.source.observedHeight, d.pageCount, rows.Keys, now, p.id);
  }

  /** The stored row and votes of a proposal hold, column by column, what its page and renders say. */
  ghost predicate StoredAs(fold: Folding, t: Store, p: Detail, raw: map<RawKey, string>) {
    && p.id in t.proposals && DetailRender(p.id) in raw && VotesRender(p.id) in raw
    && var c := t.proposals[p.id].content;
       && c.texts == p.texts && c.status == p.status && c.detailStatus == p.detailStatus &&
            c.votesStatus == p.votesStatus
       && c.yes == CanonicalPercentage(p.yes) && c.no == CanonicalPercentage(p.no)
       && c.abstain == CanonicalPercentage(p.abstain)
       && c.rawDetail == raw[DetailRender(p.id)] && c.rawVotes == raw[VotesRender(p.id)]
       && (forall key :: (p.id, key) in t.votes <==> exists v :: v in p.votes && Key(fold, v) == key)
       && forall v :: v in p.votes ==> VoteStoredAs(t, (p.id, Key(fold, v)), v)
  }

  predicate VoteStoredAs(t: Store, id: VoteId, v: Vote) {
    && id in t.votes
    && var c := t.votes[id].content;
       c.display == v.display && c.address == v.address && c.option == v.option && c.tier == v.tier
       && c.power == DecimalValue(v.power)
  }

  lemma StoredAsWritten(fold: Folding, s: Store, p: Detail, raw: map<RawKey, string>, rows: map<int, Normalized>,
                        height: int, pageCount: int, ids: set<int>, now: int)
    requires AcceptableDetail(fold, p, raw) && p.id in rows && rows[p.id] == NormalizedDetail(fold, p, raw)
    ensures StoredAs(fold, Written(s, rows, height, pageCount, ids, now), p, raw)
  {
    hide AcceptableVote, Key, VotesByKey, CanonicalPercentage, Written, DecimalValue;
    var t := Written(s, rows, height, pageCount, ids, now);
    WrittenProposal(s, rows, height, pageCount, ids, now, p.id);
    VotesByKeyIs(fold, p.votes);
    forall key ensures (p.id, key) in t.votes <==> exists v :: v in p.votes && Key(fold, v) == key {
      WrittenVote(s, rows, height, pageCount, ids, now, p.id, key);
    }
    forall v | v in p.votes ensures VoteStoredAs(t, (p.id, Key(fold, v)), v) {
      WrittenVote(s, rows, height, pageCount, ids, now, p.id, Key(fold, v));
    }
  }

  // ----- the quick writer -----

  predicate IsListed(l: Listing, id: int) { exists i :: 0 <= i < |l.proposals| && l.proposals[i].id == id }

  /** A stored proposal whose listed status goes back. */
  predicate ListedBack(s: Store, l: Listing) {
    exists i :: 0 <= i < |l.proposals| && l.proposals[i].id in s.proposals
                && GoesBack(s.proposals[l.proposals[i].id].content.status, l.proposals[i].status)
  }

  predicate IsTargeted(targeted: seq<Discovery>, id: int) {
    exists i :: 0 <= i < |targeted| && |targeted[i].proposals| == 1 && targeted[i].proposals[0].id == id
  }

  /** It is listed, and new, or active or unknown in the store or in the list. */
  predicate MustRefresh(s: Store, l: Listing, id: int) {
    exists i :: 0 <= i < |l.proposals| && l.proposals[i].id == id && Open(s, l.proposals[i])
  }

  predicate Open(s: Store, listed: Summary) {
    || listed.id !in s.proposals
    || s.proposals[listed.id].content.status == Active || s.proposals[listed.id].content.status == Unknown
    || listed.status == Active || listed.status == Unknown
  }

  ghost predicate RefreshedExactly(s: Store, l: Listing, targeted: seq<Discovery>) {
    forall id :: IsTargeted(targeted, id) <==> MustRefresh(s, l, id)
  }

  lemma ListedKeys(l: Listing)
    ensures forall id :: id in Listed(l.proposals) <==> IsListed(l, id)
    ensures DistinctSummaries(l.proposals) ==>
      forall i :: 0 <= i < |l.proposals| ==> Listed(l.proposals)[l.proposals[i].id] == l.proposals[i]
  {
    hide Listed;
    forall id ensures id in Listed(l.proposals) <==> IsListed(l, id) {
      if id in Listed(l.proposals) {
        var i :| 0 <= i < |l.proposals| && l.proposals[i] == Listed(l.proposals)[id];
      }
    }
    if DistinctSummaries(l.proposals) {
      forall i | 0 <= i < |l.proposals| ensures Listed(l.proposals)[l.proposals[i].id] == l.proposals[i] {
        var j :| 0 <= j < |l.proposals| && l.proposals[j] == Listed(l.proposals)[l.proposals[i].id];
      }
    }
  }

  lemma MustRefreshIff(s: Store, l: Listing, id: int)
    requires DistinctSummaries(l.proposals)
    ensures id in Required(Listed(l.proposals), s.proposals) <==> MustRefresh(s, l, id)
  {
    RequiredIff(Listed(l.proposals), s.proposals, id);
    ListedKeys(l);
    hide Required, Listed;
  }

  lemma TargetedIff(fold: Folding, targeted: seq<Discovery>, id: int)
    ensures id in TargetRows(fold, targeted) <==> IsTargeted(targeted, id)
  {
    hide TargetRows;
  }

  lemma RefreshedIff(fold: Folding, s: Store, l: Listing, targeted: seq<Discovery>)
    requires DistinctSummaries(l.proposals)
    ensures TargetRows(fold, targeted).Keys == Required(Listed(l.proposals), s.proposals) <==>
      RefreshedExactly(s, l, targeted)
  {
    hide TargetRows, Required, Listed, IsTargeted, MustRefresh;
    var rows, required := TargetRows(fold, targeted).Keys, Required(Listed(l.proposals), s.proposals);
    if rows == required {
      forall id ensures IsTargeted(targeted, id) <==> MustRefresh(s, l, id) {
        TargetedIff(fold, targeted, id);
        MustRefreshIff(s, l, id);
        assert id in rows <==> id in TargetRows(fold, targeted);
      }
    }
    if RefreshedExactly(s, l, targeted) {
      forall id ensures id in rows <==> id in required {
        TargetedIff(fold, targeted, id);
        MustRefreshIff(s, l, id);
        assert id in rows <==> id in TargetRows(fold, targeted);
      }
    }
  }

  lemma ListedBackIff(s: Store, l: Listing)
    requires DistinctSummaries(l.proposals) && s.proposals.Keys <= Listed(l.proposals).Keys
    ensures (exists id :: id in s.proposals && !Allowed(s.proposals[id].content.status, Listed(l.proposals)[id].status))
      <==> ListedBack(s, l)
  {
    ListedKeys(l);
    hide Listed, Allowed, GoesBack;
    forall a, b ensures Allowed(a, b) <==> !GoesBack(a, b) {
      AllowedIff(a, b);
    }
    if id :| id in s.proposals && !Allowed(s.proposals[id].content.status, Listed(l.proposals)[id].status) {
      var i :| 0 <= i < |l.proposals| && l.proposals[i].id == id;
      assert l.proposals[i].id in s.proposals;
    }
  }

  /** No two discoveries of one proposal are of the same one. */
  predicate DistinctTargets(targeted: seq<Discovery>) {
    forall i, j :: 0 <= i < j < |targeted| ==>
      (|targeted[i].proposals| == 1 && |targeted[j].proposals| == 1 ==>
         targeted[i].proposals[0].id != targeted[j].proposals[0].id)
  }

  /** Everything that the quick writer checks first, on the fields. */
  lemma QuickPrecheckIff(fold: Folding, s: Store, l: Listing, targeted: seq<Discovery>, chain: string)
    ensures QuickPrecheck(fold, s, l, targeted, chain).None? <==>
      && l.complete && l.source.chainId == chain
      && 1 <= |l.source.realmPath| <= 512 && 1 <= l.source.observedHeight && 1 <= l.pageCount <= 100
      && |l.proposals| <= 1000 && (forall i, j :: 0 <= i < j < |l.proposals| ==> l.proposals[i].id != l.proposals[j].id)
      && (s.identity.Some? ==> s.identity.value == chain) && Loadable(fold, s)
      && (s.sync.Some? ==> s.sync.value.sourceHeight <= l.source.observedHeight)
      && (forall id :: id in s.proposals ==> IsListed(l, id))
      && (forall i :: 0 <= i < |targeted| ==> TargetFits(fold, l, targeted[i], chain))
      && DistinctTargets(targeted)
      && PairTotal(FinalRaw(s.proposals, TargetRows(fold, targeted))) <= 16_777_216
  {
    hide Loadable, PairTotal, FinalRaw, TargetRows, Listed, TargetsWellFormed, TargetAcceptable, TargetFits, IsListed;
    StoredAreListed(s, l);
    if DistinctSummaries(l.proposals) {
      TargetsFitIff(fold, l, targeted, chain);
    }
  }

  lemma StoredAreListed(s: Store, l: Listing)
    ensures s.proposals.Keys <= Listed(l.proposals).Keys <==> forall id :: id in s.proposals ==> IsListed(l, id)
  {
    hide Listed, IsListed;
    ListedKeys(l);
    var listed := Listed(l.proposals);
    if s.proposals.Keys <= listed.Keys {
      forall id | id in s.proposals ensures IsListed(l, id) {
        assert id in listed.Keys;
      }
    }
    if forall id :: id in s.proposals ==> IsListed(l, id) {
      forall id | id in s.proposals.Keys ensures id in listed.Keys {
        assert id in s.proposals;
      }
    }
  }

  lemma TargetsFitIff(fold: Folding, l: Listing, targeted: seq<Discovery>, chain: string)
    requires DistinctSummaries(l.proposals)
    ensures var listed := Listed(l.proposals);
            && TargetsWellFormed(targeted, l.source, listed)
            && (forall i :: 0 <= i < |targeted| ==> TargetAcceptable(fold, l.source, targeted[i], chain, listed))
            <==>
            && (forall i :: 0 <= i < |targeted| ==> TargetFits(fold, l, targeted[i], chain))
            && DistinctTargets(targeted)
  {
    hide Listed, TargetAcceptable, TargetFits;
    var listed := Listed(l.proposals);
    forall i | 0 <= i < |targeted|
      ensures TargetFits(fold, l, targeted[i], chain) <==>
        && targeted[i].source == l.source && |targeted[i].proposals| == 1 && targeted[i].proposals[0].id in listed
        && TargetAcceptable(fold, l.source, targeted[i], chain, listed)
    {
      TargetFitsIff(fold, l, targeted[i], chain);
    }
  }

  /** A refreshed proposal is of this source, listed, acceptable by itself, and has the listed status unless
      that is UNKNOWN. */
  ghost predicate TargetFits(fold: Folding, l: Listing, t: Discovery, chain: string) {
    && t.source == l.source && |t.proposals| == 1
    && Acceptable(fold, Discovery(l.source, true, 1, t.proposals, t.rawRenders), chain)
    && exists i :: 0 <= i < |l.proposals| && l.proposals[i].id == t.proposals[0].id
                   && (l.proposals[i].status == t.proposals[0].status || l.proposals[i].status == Unknown)
  }

  lemma TargetFitsIff(fold: Folding, l: Listing, t: Discovery, chain: string)
    requires DistinctSummaries(l.proposals)
    ensures var listed := Listed(l.proposals);
            TargetFits(fold, l, t, chain) <==>
              && t.source == l.source && |t.proposals| == 1 && t.proposals[0].id in listed
              && TargetAcceptable(fold, l.source, t, chain, listed)
  {
    hide Acceptable, Listed;
    ListedKeys(l);
  }

  /** A quick write at a new height conflicts exactly if a listed status goes back. Otherwise it is refused as
      invalid exactly if other proposals were refreshed than had to be, and then by the tables exactly if a
      time is before a first observation or the chain id cannot be stored; in all other cases it is applied. */
  lemma QuickOutcome(fold: Folding, s: Store, l: Listing, targeted: seq<Discovery>, chain: string, now: int)
    requires QuickPrecheck(fold, s, l, targeted, chain).None?
    requires s.sync.Some? ==> s.sync.value.sourceHeight < l.source.observedHeight
    ensures var r := PersistQuick(fold, s, l, targeted, chain, now).1;
            if ListedBack(s, l) then r == Err(SnapshotConflict)
            else if !RefreshedExactly(s, l, targeted) then r == Err(Invalid)
            else if TargetTooEarly(fold, s, targeted, now) || |chain| < 1 || |chain| > 128 then r == Err(TableCheck)
            else r == Ok(Applied)
  {
    hide TargetAcceptable, Loadable, PairTotal, FinalRaw;
    QuickChain(fold, s, l, targeted, chain);
    ListedBackIff(s, l);
    RefreshedIff(fold, s, l, targeted);
    LateTargets(fold, s, l, targeted, chain, now);
    QuickDecision(fold, s, l, targeted, chain, now);
    hide QuickPrecheck, PersistQuick, Allowed, ListedBack, RefreshedExactly, TargetTooEarly, TargetRows, Listed,
      Required,
      RetryAccepted, NoneLate;
  }

  /** The last part of the quick writer. */
  lemma QuickDecision(fold: Folding, s: Store, l: Listing, targeted: seq<Discovery>, chain: string, now: int)
    requires QuickPrecheck(fold, s, l, targeted, chain).None? && s.proposals.Keys <= Listed(l.proposals).Keys
    requires s.sync.Some? ==> s.sync.value.sourceHeight < l.source.observedHeight
    ensures var rows, listed := TargetRows(fold, targeted), Listed(l.proposals);
            var r := PersistQuick(fold, s, l, targeted, chain, now).1;
            if exists id :: id in s.proposals && !Allowed(s.proposals[id].content.status, listed[id].status)
            then r == Err(SnapshotConflict)
            else if rows.Keys != Required(listed, s.proposals) then r == Err(Invalid)
            else if !NoneLate(s.proposals, s.votes, rows, now) ||
              !StorableChain(l.source.chainId) then r == Err(TableCheck)
            else r == Ok(Applied)
  {
    hide QuickPrecheck, Allowed, TargetRows, Listed, Required, RetryAccepted, Written, NoneLate;
  }

  lemma QuickChain(fold: Folding, s: Store, l: Listing, targeted: seq<Discovery>, chain: string)
    requires QuickPrecheck(fold, s, l, targeted, chain).None?
    ensures l.source.chainId == chain && DistinctSummaries(l.proposals) && s.proposals.Keys <= Listed(l.proposals).Keys
  {
    hide Loadable, PairTotal, TargetAcceptable, FinalRaw, TargetRows;
  }

  /** A refreshed proposal is dated before a first observation. */
  ghost predicate TargetTooEarly(fold: Folding, s: Store, targeted: seq<Discovery>, now: int) {
    exists i :: 0 <= i < |targeted| && |targeted[i].proposals| == 1 && TooEarly(fold, s, targeted[i].proposals[0], now)
  }

  /** Distinct targets keep their own rows. */
  lemma {:induction false} TargetRowIs(fold: Folding, targeted: seq<Discovery>, i: nat)
    requires i < |targeted| && forall j :: 0 <= j < |targeted| ==> |targeted[j].proposals| == 1
    requires forall j, k :: 0 <= j < k < |targeted| ==> targeted[j].proposals[0].id != targeted[k].proposals[0].id
    ensures var p := targeted[i].proposals[0];
            p.id in TargetRows(fold, targeted)
            && TargetRows(fold, targeted)[p.id] == NormalizedDetail(fold, p, targeted[i].rawRenders)
  {
    hide NormalizedDetail;
    var n := |targeted| - 1;
    if i < n {
      assert targeted[..n][i] == targeted[i];
      TargetRowIs(fold, targeted[..n], i);
      assert targeted[i].proposals[0].id != targeted[n].proposals[0].id;
    }
  }

  lemma TargetsChecked(fold: Folding, s: Store, l: Listing, targeted: seq<Discovery>, chain: string)
    requires QuickPrecheck(fold, s, l, targeted, chain).None?
    ensures forall i :: 0 <= i < |targeted| ==>
      && |targeted[i].proposals| == 1
      && AcceptableDetail(fold, targeted[i].proposals[0], targeted[i].rawRenders)
    ensures forall j, k :: 0 <= j < k < |targeted| ==> targeted[j].proposals[0].id != targeted[k].proposals[0].id
  {
    hide Loadable, PairTotal, FinalRaw, TargetRows, Listed, AcceptableDetail, AcceptableRaw;
  }

  lemma LateTarget(fold: Folding, s: Store, p: Detail, raw: map<RawKey, string>, now: int)
    requires AcceptableDetail(fold, p, raw)
    ensures Late(s.proposals, s.votes, p.id, NormalizedDetail(fold, p, raw), now) <==> TooEarly(fold, s, p, now)
  {
    ScanVotes(fold, p, raw);
    hide AcceptableDetail, Key, VotesByKey, CanonicalPercentage;
  }

  lemma LateTargets(fold: Folding, s: Store, l: Listing, targeted: seq<Discovery>, chain: string, now: int)
    requires QuickPrecheck(fold, s, l, targeted, chain).None?
    ensures NoneLate(s.proposals, s.votes, TargetRows(fold, targeted), now) <==> !TargetTooEarly(fold, s, targeted, now)
  {
    TargetsChecked(fold, s, l, targeted, chain);
    hide QuickPrecheck, Late, TooEarly, TargetRows, NormalizedDetail, AcceptableDetail;
    var rows := TargetRows(fold, targeted);
    forall i | 0 <= i < |targeted|
      ensures var p := targeted[i].proposals[0];
              p.id in rows && (Late(s.proposals, s.votes, p.id, rows[p.id], now) <==> TooEarly(fold, s, p, now))
    {
      TargetRowIs(fold, targeted, i);
      LateTarget(fold, s, targeted[i].proposals[0], targeted[i].rawRenders, now);
    }
    if i :| 0 <= i < |targeted| && TooEarly(fold, s, targeted[i].proposals[0], now) {
      assert targeted[i].proposals[0].id in rows;
    }
    if !NoneLate(s.proposals, s.votes, rows, now) {
      var id :| id in rows && Late(s.proposals, s.votes, id, rows[id], now);
      TargetedIff(fold, targeted, id);
      var i :| 0 <= i < |targeted| && targeted[i].proposals[0].id == id;
      assert TooEarly(fold, s, targeted[i].proposals[0], now);
    }
  }

  /** What an applied quick write stores of a refreshed proposal. */
  lemma QuickStores(fold: Folding, s: Store, l: Listing, targeted: seq<Discovery>, chain: string, now: int, i: nat)
    requires PersistQuick(fold, s, l, targeted, chain, now).1 == Ok(Applied) && i < |targeted|
    ensures |targeted[i].proposals| == 1
    ensures StoredAs(fold, PersistQuick(fold, s, l, targeted, chain, now).0, targeted[i].proposals[0],
                     targeted[i].rawRenders)
  {
    var rows := QuickResult(fold, s, l, targeted, chain, now);
    QuickApplied(fold, s, l, targeted, chain, now);
    TargetsChecked(fold, s, l, targeted, chain);
    hide PersistQuick, QuickPrecheck, TargetRows, AcceptableDetail, Written;
    TargetRowIs(fold, targeted, i);
    StoredAsWritten(fold, s, targeted[i].proposals[0], targeted[i].rawRenders, rows, l.source.observedHeight,
                    l.pageCount,
                    Listed(l.proposals).Keys, now);
  }

  lemma QuickApplied(fold: Folding, s: Store, l: Listing, targeted: seq<Discovery>, chain: string, now: int)
    requires PersistQuick(fold, s, l, targeted, chain, now).1 == Ok(Applied)
    ensures QuickPrecheck(fold, s, l, targeted, chain).None?
  {
    hide QuickPrecheck, RetryAccepted, Written, TargetRows, Required, Listed;
  }

  // ----- the same height again -----

  /** A stored row and its votes are those of a proposal exactly if they hold its columns. */
  lemma SameRowIff(fold: Folding, t: Store, p: Detail, raw: map<RawKey, string>)
    requires AcceptableDetail(fold, p, raw)
    ensures SameRow(t.proposals, t.votes, p.id, NormalizedDetail(fold, p, raw)) <==> StoredAs(fold, t, p, raw)
  {
    DistinctVotes(fold, p, raw);
    hide AcceptableDetail, VotesByKey, CanonicalPercentage, Key, StoredAs, SameRow, NormalizedDetail;
    var row := NormalizedDetail(fold, p, raw);
    if SameRow(t.proposals, t.votes, p.id, row) {
      SameRowHolds(fold, t, p, raw);
    }
    if StoredAs(fold, t, p, raw) {
      HoldsSameRow(fold, t, p, raw);
    }
  }

  lemma SameRowHolds(fold: Folding, t: Store, p: Detail, raw: map<RawKey, string>)
    requires AcceptableDetail(fold, p, raw) && SameRow(t.proposals, t.votes, p.id, NormalizedDetail(fold, p, raw))
    requires forall i, j :: 0 <= i < j < |p.votes| ==> Key(fold, p.votes[i]) != Key(fold, p.votes[j])
    ensures StoredAs(fold, t, p, raw)
  {
    VotesByKeyIs(fold, p.votes);
    hide AcceptableTexts, AcceptableVotes, VotesByKey, CanonicalPercentage, Key, DecimalValue;
    forall v | v in p.votes ensures VoteStoredAs(t, (p.id, Key(fold, v)), v) {
      assert Key(fold, v) in NormalizedDetail(fold, p, raw).votes;
    }
  }

  lemma HoldsSameRow(fold: Folding, t: Store, p: Detail, raw: map<RawKey, string>)
    requires StoredAs(fold, t, p, raw)
    requires forall i, j :: 0 <= i < j < |p.votes| ==> Key(fold, p.votes[i]) != Key(fold, p.votes[j])
    ensures SameRow(t.proposals, t.votes, p.id, NormalizedDetail(fold, p, raw))
  {
    VotesByKeyIs(fold, p.votes);
    hide VotesByKey, CanonicalPercentage, Key, DecimalValue;
    var row := NormalizedDetail(fold, p, raw);
    forall key | key in row.votes
      ensures (p.id, key) in t.votes && t.votes[(p.id, key)].content == row.votes[key]
    {
      var v :| v in p.votes && Key(fold, v) == key;
      assert VoteStoredAs(t, (p.id, Key(fold, v)), v);
    }
  }

  lemma DistinctVotes(fold: Folding, p: Detail, raw: map<RawKey, string>)
    requires AcceptableDetail(fold, p, raw)
    ensures forall i, j :: 0 <= i < j < |p.votes| ==> Key(fold, p.votes[i]) != Key(fold, p.votes[j])
  {
    hide AcceptableColumns, AcceptableVote, Key;
  }

  /** The stored rows are exactly the scanned ones. */
  ghost predicate HoldsScan(fold: Folding, s: Store, d: Discovery) {
    && (forall id :: id in s.proposals ==> Scanned(d, id))
    && (forall v: VoteId :: v in s.votes ==> Scanned(d, v.0))
    && forall i :: 0 <= i < |d.proposals| ==> StoredAs(fold, s, d.proposals[i], d.rawRenders)
  }

  lemma SameContentIff(fold: Folding, s: Store, d: Discovery, chain: string)
    requires Acceptable(fold, d, chain)
    ensures SameContent(s.proposals, s.votes, RowsById(fold, d.proposals, d.rawRenders)) <==> HoldsScan(fold, s, d)
  {
    var rows := RowsById(fold, d.proposals, d.rawRenders);
    forall i | 0 <= i < |d.proposals|
      ensures var p := d.proposals[i];
              && p.id in rows && (SameRow(s.proposals, s.votes, p.id, rows[p.id]) <==>
                                  StoredAs(fold, s, p, d.rawRenders))
    {
      ScanRows(fold, d, chain, i);
      assert AcceptableDetail(fold, d.proposals[i], d.rawRenders);
      SameRowIff(fold, s, d.proposals[i], d.rawRenders);
    }
    hide Acceptable, RowsById, StoredAs, SameContent, SameRow, Scanned;
    forall id ensures id in rows.Keys <==> Scanned(d, id) {
      RowsAreScanned(fold, d, id);
      assert id in rows.Keys <==> id in RowsById(fold, d.proposals, d.rawRenders);
    }
    RowByRow(s, rows);
    SameScanned(fold, s, d, rows);
  }

  lemma SameScanned(fold: Folding, s: Store, d: Discovery, rows: map<int, Normalized>)
    requires forall id :: id in rows.Keys <==> Scanned(d, id)
    requires forall i :: 0 <= i < |d.proposals| ==>
      var p := d.proposals[i];
      && p.id in rows && (SameRow(s.proposals, s.votes, p.id, rows[p.id]) <==> StoredAs(fold, s, p, d.rawRenders))
    ensures (&& (forall id :: id in s.proposals ==> id in rows)
             && (forall v: VoteId :: v in s.votes ==> v.0 in rows)
             && forall id :: id in rows ==> SameRow(s.proposals, s.votes, id, rows[id]))
      <==> HoldsScan(fold, s, d)
  {
    hide StoredAs, SameRow;
    forall id ensures id in rows <==> Scanned(d, id) {
      assert id in rows <==> id in rows.Keys;
    }
    if HoldsScan(fold, s, d) {
      forall id | id in rows ensures SameRow(s.proposals, s.votes, id, rows[id]) {
        var i :| 0 <= i < |d.proposals| && d.proposals[i].id == id;
      }
    }
  }

  /** The same content, row by row. */
  lemma RowByRow(s: Store, rows: map<int, Normalized>)
    ensures SameContent(s.proposals, s.votes, rows) <==>
      && (forall id :: id in s.proposals ==> id in rows)
      && (forall v: VoteId :: v in s.votes ==> v.0 in rows)
      && forall id :: id in rows ==> SameRow(s.proposals, s.votes, id, rows[id])
  {
    if SameContent(s.proposals, s.votes, rows) {
      forall id | id in rows ensures SameRow(s.proposals, s.votes, id, rows[id]) {
        forall key ensures (id, key) in s.votes <==> key in rows[id].votes {
          assert (id, key) in s.votes <==> (id, key) in RowVotes(rows);
        }
      }
    }
    if && (forall id :: id in s.proposals ==> id in rows)
       && (forall v: VoteId :: v in s.votes ==> v.0 in rows)
       && forall id :: id in rows ==> SameRow(s.proposals, s.votes, id, rows[id])
    {
      assert s.proposals.Keys == rows.Keys;
      forall v: VoteId ensures v in s.votes.Keys <==> v in RowVotes(rows) {
        assert (v.0, v.1) == v;
        if v.0 in rows { assert SameRow(s.proposals, s.votes, v.0, rows[v.0]); }
      }
      assert s.votes.Keys == RowVotes(rows);
      forall v | v in s.votes ensures s.votes[v].content == rows[v.0].votes[v.1] {
        assert (v.0, v.1) == v;
        assert SameRow(s.proposals, s.votes, v.0, rows[v.0]);
      }
    }
  }

  /** The stored metadata is that of these pages and ids. */
  ghost predicate HoldsMetadata(s: Store, pageCount: int, ids: set<int>)
    requires s.sync.Some?
  {
    var m := s.sync.value;
    && m.pageCount == pageCount && m.proposalCount == |ids|
    && (m.firstId.Some? <==> ids != {}) && (m.latestId.Some? <==> ids != {})
    && (ids != {} ==> m.firstId.value in ids && m.latestId.value in ids
                      && forall x :: x in ids ==> m.firstId.value <= x <= m.latestId.value)
  }

  /** A full write at the stored height is unchanged exactly if metadata, rows and votes are those of the scan,
      column by column; otherwise it is a conflict. */
  lemma FullSameHeight(fold: Folding, s: Store, d: Discovery, chain: string, now: int)
    requires Acceptable(fold, d, chain) && Loadable(fold, s) && (s.identity.Some? ==> s.identity.value == chain)
    requires s.sync.Some? && s.sync.value.sourceHeight == d.source.observedHeight
    ensures var ids := RowsById(fold, d.proposals, d.rawRenders).Keys;
            && (forall id :: id in ids <==> Scanned(d, id))
            && PersistFull(fold, s, d, chain, now)
               == (s, if HoldsMetadata(s, d.pageCount, ids) && HoldsScan(fold, s, d) then Ok(Unchanged)
                      else Err(SnapshotConflict))
  {
    hide Acceptable, Loadable, RowsById, SameContent, HoldsScan, Scanned, PersistFull, SameMetadata, HoldsMetadata;
    IdsAreScanned(fold, d);
    SameContentIff(fold, s, d, chain);
    MetadataIff(s, d.pageCount, RowsById(fold, d.proposals, d.rawRenders).Keys);
    FullAgain(fold, s, d, chain, now);
  }

  lemma IdsAreScanned(fold: Folding, d: Discovery)
    ensures forall id :: id in RowsById(fold, d.proposals, d.rawRenders).Keys <==> Scanned(d, id)
  {
    hide RowsById, Scanned;
    forall id ensures id in RowsById(fold, d.proposals, d.rawRenders).Keys <==> Scanned(d, id) {
      RowsAreScanned(fold, d, id);
    }
  }

  lemma MetadataIff(s: Store, pageCount: int, ids: set<int>)
    requires s.sync.Some?
    ensures SameMetadata(s.sync.value, pageCount, ids) <==> HoldsMetadata(s, pageCount, ids)
  {
  }

  lemma FullAgain(fold: Folding, s: Store, d: Discovery, chain: string, now: int)
    requires Acceptable(fold, d, chain) && Loadable(fold, s) && (s.identity.Some? ==> s.identity.value == chain)
    requires s.sync.Some? && s.sync.value.sourceHeight == d.source.observedHeight
    ensures var rows := RowsById(fold, d.proposals, d.rawRenders);
            PersistFull(fold, s, d, chain, now)
              == (s, if SameMetadata(s.sync.value, d.pageCount, rows.Keys) && SameContent(s.proposals, s.votes, rows)
                     then Ok(Unchanged) else Err(SnapshotConflict))
  {
    hide AcceptableDetail, AcceptableRaw, Loadable, RowsById, SameContent, SameMetadata, Written, RowsRefusal;
  }

  /** The listed columns are those of the stored row. */
  predicate ListedAsStored(s: Store, listed: Summary) {
    && listed.id in s.proposals
    && var c := s.proposals[listed.id].content;
       (listed.title, listed.authorDisplay, listed.authorAddress, listed.status, listed.eligibleTiers)
       == (c.texts.title, c.texts.authorDisplay, c.texts.authorAddress, c.status, c.texts.eligibleTiers)
  }

  /** It has to be refreshed now, or was decided and last seen at this height. */
  predicate MayRepeat(s: Store, l: Listing, id: int) {
    MustRefresh(s, l, id) ||
    (&& id in s.proposals && s.proposals[id].content.status in {Accepted, Rejected}
     && s.proposals[id].seen.lastHeight == l.source.observedHeight)
  }

  /** A quick write at the stored height is unchanged exactly if metadata and listed columns are stored, all
      that has to be refreshed was, and each refreshed proposal may repeat and is stored column by column. */
  lemma QuickSameHeight(fold: Folding, s: Store, l: Listing, targeted: seq<Discovery>, chain: string, now: int)
    requires QuickPrecheck(fold, s, l, targeted, chain).None?
    requires s.sync.Some? && s.sync.value.sourceHeight == l.source.observedHeight
    ensures var ids := Listed(l.proposals).Keys;
            && (forall id :: id in ids <==> IsListed(l, id))
            && PersistQuick(fold, s, l, targeted, chain, now)
               == (s, if HoldsMetadata(s, l.pageCount, ids) && HoldsTargets(fold, s, l, targeted) then Ok(Unchanged)
                      else Err(SnapshotConflict))
  {
    hide TargetAcceptable, Loadable, PairTotal, FinalRaw, QuickPrecheck, PersistQuick, TargetRows, Listed, Required,
      ListedAgrees, TargetsRepeat, HoldsTargets, SameMetadata, HoldsMetadata, IsListed;
    ListedKeys(l);
    QuickAgain(fold, s, l, targeted, chain, now);
    QuickChain(fold, s, l, targeted, chain);
    RepeatIff(fold, s, l, targeted, chain);
    MetadataIff(s, l.pageCount, Listed(l.proposals).Keys);
    KeysAreListed(l);
  }

  lemma KeysAreListed(l: Listing)
    ensures forall id :: id in Listed(l.proposals).Keys <==> IsListed(l, id)
  {
    hide Listed, IsListed;
    ListedKeys(l);
    forall id ensures id in Listed(l.proposals).Keys <==> IsListed(l, id) {
      assert id in Listed(l.proposals).Keys <==> id in Listed(l.proposals);
    }
  }

  ghost predicate HoldsTargets(fold: Folding, s: Store, l: Listing, targeted: seq<Discovery>) {
    && (forall i :: 0 <= i < |l.proposals| ==> ListedAsStored(s, l.proposals[i]))
    && (forall id :: MustRefresh(s, l, id) ==> IsTargeted(targeted, id))
    && forall i :: 0 <= i < |targeted| ==>
         && |targeted[i].proposals| == 1 && MayRepeat(s, l, targeted[i].proposals[0].id)
         && StoredAs(fold, s, targeted[i].proposals[0], targeted[i].rawRenders)
  }

  lemma QuickAgain(fold: Folding, s: Store, l: Listing, targeted: seq<Discovery>, chain: string, now: int)
    requires QuickPrecheck(fold, s, l, targeted, chain).None?
    requires s.sync.Some? && s.sync.value.sourceHeight == l.source.observedHeight
    ensures var listed, rows := Listed(l.proposals), TargetRows(fold, targeted);
            PersistQuick(fold, s, l, targeted, chain, now)
              == (s, if && SameMetadata(s.sync.value, l.pageCount, listed.Keys) && ListedAgrees(listed, s.proposals)
                        && TargetsRepeat(s.proposals, s.votes, Required(listed, s.proposals), rows,
                                         l.source.observedHeight)
                     then Ok(Unchanged) else Err(SnapshotConflict))
  {
    hide QuickPrecheck, TargetRows, Listed, Required, ListedAgrees, TargetsRepeat, SameMetadata, Written;
  }

  lemma RepeatIff(fold: Folding, s: Store, l: Listing, targeted: seq<Discovery>, chain: string)
    requires QuickPrecheck(fold, s, l, targeted, chain).None? && DistinctSummaries(l.proposals)
    ensures var listed, rows := Listed(l.proposals), TargetRows(fold, targeted);
            ListedAgrees(listed, s.proposals) &&
            TargetsRepeat(s.proposals, s.votes, Required(listed, s.proposals), rows, l.source.observedHeight) <==>
            HoldsTargets(fold, s, l, targeted)
  {
    TargetsChecked(fold, s, l, targeted, chain);
    hide QuickPrecheck;
    ListedAgreesIff(s, l);
    hide ListedAgrees, Listed, Required, TargetRows, MustRefresh, StoredAs, SameRow, NormalizedDetail, ListedAsStored,
      AcceptableDetail;
    var rows, required := TargetRows(fold, targeted), Required(Listed(l.proposals), s.proposals);
    forall id ensures (id in rows <==> IsTargeted(targeted, id)) && (id in required <==> MustRefresh(s, l, id)) {
      TargetedIff(fold, targeted, id);
      MustRefreshIff(s, l, id);
    }
    forall i | 0 <= i < |targeted|
      ensures var p := targeted[i].proposals[0];
              && p.id in rows
              && (SameRow(s.proposals, s.votes, p.id, rows[p.id]) <==> StoredAs(fold, s, p, targeted[i].rawRenders))
    {
      TargetRowIs(fold, targeted, i);
      SameRowIff(fold, s, targeted[i].proposals[0], targeted[i].rawRenders);
    }
    RepeatByTarget(fold, s, l, targeted, rows, required);
  }

  lemma RepeatByTarget(fold: Folding, s: Store, l: Listing, targeted: seq<Discovery>, rows: map<int, Normalized>,
                       required: set<int>)
    requires forall i :: 0 <= i < |targeted| ==> |targeted[i].proposals| == 1
    requires forall id :: (id in rows <==> IsTargeted(targeted, id)) && (id in required <==> MustRefresh(s, l, id))
    requires forall i :: 0 <= i < |targeted| ==>
      var p := targeted[i].proposals[0];
      && p.id in rows
      && (SameRow(s.proposals, s.votes, p.id, rows[p.id]) <==> StoredAs(fold, s, p, targeted[i].rawRenders))
    ensures TargetsRepeat(s.proposals, s.votes, required, rows, l.source.observedHeight) <==>
      && (forall id :: MustRefresh(s, l, id) ==> IsTargeted(targeted, id))
      && forall i :: 0 <= i < |targeted| ==>
           && MayRepeat(s, l, targeted[i].proposals[0].id)
           && StoredAs(fold, s, targeted[i].proposals[0], targeted[i].rawRenders)
  {
    hide MustRefresh, StoredAs, SameRow;
    var height := l.source.observedHeight;
    if TargetsRepeat(s.proposals, s.votes, required, rows, height) {
      forall i | 0 <= i < |targeted|
        ensures MayRepeat(s, l, targeted[i].proposals[0].id)
        ensures StoredAs(fold, s, targeted[i].proposals[0], targeted[i].rawRenders)
      {
        var id := targeted[i].proposals[0].id;
        assert id in rows;
        if id !in required { assert id in rows.Keys - required; }
      }
      forall id | MustRefresh(s, l, id) ensures IsTargeted(targeted, id) {
        assert id in required && id in rows.Keys;
      }
    }
    if && (forall id :: MustRefresh(s, l, id) ==> IsTargeted(targeted, id))
       && forall i :: 0 <= i < |targeted| ==>
            && MayRepeat(s, l, targeted[i].proposals[0].id)
            && StoredAs(fold, s, targeted[i].proposals[0], targeted[i].rawRenders)
    {
      forall id | id in required ensures id in rows.Keys {
        assert MustRefresh(s, l, id);
      }
      forall id | id in rows
        ensures SameRow(s.proposals, s.votes, id, rows[id])
        ensures MayRepeat(s, l, id)
      {
        var i :| 0 <= i < |targeted| && |targeted[i].proposals| == 1 && targeted[i].proposals[0].id == id;
      }
    }
  }

  lemma ListedAgreesIff(s: Store, l: Listing)
    requires DistinctSummaries(l.proposals)
    ensures ListedAgrees(Listed(l.proposals), s.proposals) <==>
      forall i :: 0 <= i < |l.proposals| ==> ListedAsStored(s, l.proposals[i])
  {
    ListedKeys(l);
    hide Listed;
    var listed := Listed(l.proposals);
    if forall i :: 0 <= i < |l.proposals| ==> ListedAsStored(s, l.proposals[i]) {
      forall id | id in listed ensures id in s.proposals && Agrees(listed[id], s.proposals[id].content) {
        assert IsListed(l, id);
        var i :| 0 <= i < |l.proposals| && l.proposals[i].id == id;
      }
    }
    if ListedAgrees(listed, s.proposals) {
      forall i | 0 <= i < |l.proposals| ensures ListedAsStored(s, l.proposals[i]) {
        assert l.proposals[i].id in listed;
      }
    }
  }
}
