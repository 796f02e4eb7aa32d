/** The single checks and columns of governance data, stated on the fields themselves: what exactly a
    vote, a proposal, a source and a stored row have to look like, and which column holds what. */
module GovernanceFields {
  import opened Wrappers
  import opened Address
  import opened GovernanceModel
  import opened GovernancePersistence
  import opened GovernanceInvariants

  // ----- text -----

  /** The bytes that UTF-8 takes for a character, by the highest character of each length. */
  lemma CharBytesIs(c: char)
    ensures var n := c as int;
            && (CharBytes(c) == 1 <==> n <= 127) && (CharBytes(c) <= 2 <==> n <= 2047)
            && (CharBytes(c) <= 3 <==> n <= 65535)
  {
  }

  lemma Utf8LengthIs(s: string, c: char)
    ensures Utf8Length("") == 0 && Utf8Length(s + [c]) == Utf8Length(s) + CharBytes(c)
  {
    assert (s + [c])[..|s|] == s;
  }

  /** The totals of dictionaries of texts, entry by entry. */
  lemma TotalsAre(raw: map<RawKey, string>, k: RawKey)
    requires k in raw
    ensures RawBytes(map[]) == 0 && RawBytes(raw) == Utf8Length(raw[k]) + RawBytes(raw - {k})
    ensures PairTotal(map[]) == 0
  {
    RawBytesRemove(raw, k);
  }

  /** Blank, or one of tab, line feed, vertical tab, form feed and carriage return. */
  predicate White(c: char) { c as int in {9, 10, 11, 12, 13, 32} }

  /** The text of a number in decimal digits. */
  lemma DecimalIs(s: string, c: char)
    requires '0' <= c <= '9'
    ensures DecimalValue("") == 0 && DecimalValue("1") == 1
    ensures DecimalValue(s + [c]) == 10 * DecimalValue(s) + (c as int - 48)
  {
    assert (s + [c])[..|s|] == s && "1"[..0] == "";
  }

  /** A percentage is stored as the nearest ten-thousandth, and the upper one when two are as near. */
  lemma PercentageIs(v: Option<real>)
    ensures var c := CanonicalPercentage(v);
            && (c.Some? <==> v.Some?)
            && (v.Some? ==> c.value as real - 0.5 <= v.value * 10000.0 < c.value as real + 0.5)
  {
  }

  // ----- votes -----

  /** A voter with an address is keyed by it alone, any other by the folded name; the two never meet. */
  lemma KeyIs(fold: Folding, v: Vote)
    requires v.address.Some? ==> IsAddress(v.address.value)
    ensures Key(fold, v) == match v.address case Some(a) => "address:" + a case None => "display:" + fold(v.display)
  {
    if v.address.Some? {
      LowerAddress(v.address.value);
    }
  }

  lemma NoCapital(a: string, i: nat)
    requires IsAddress(a) && i < |a|
    ensures !('A' <= a[i] <= 'Z')
  {
    if i >= 2 {
      AddressCharsAre(a[i]);
      hide ADDRESS_CHARS;
    }
  }

  lemma LowerAddress(a: string)
    requires IsAddress(a)
    ensures Lower(a) == a
  {
    hide IsAddress, ADDRESS_CHARS;
    forall i | 0 <= i < |a| ensures !('A' <= a[i] <= 'Z') {
      NoCapital(a, i);
    }
  }

  lemma KeysDiffer(fold: Folding, v: Vote, w: Vote)
    requires (v.address.Some? ==> IsAddress(v.address.value)) && (w.address.Some? ==> IsAddress(w.address.value))
    ensures Key(fold, v) == Key(fold, w) <==>
      v.address == w.address && (v.address.None? ==> fold(v.display) == fold(w.display))
  {
    KeyIs(fold, v);
    KeyIs(fold, w);
    var x, y := Key(fold, v), Key(fold, w);
    assert x[8..] == (match v.address case Some(a) => a case None => fold(v.display));
    assert y[8..] == (match w.address case Some(a) => a case None => fold(w.display));
    assert x[0] == if v.address.Some? then 'a' else 'd';
    assert y[0] == if w.address.Some? then 'a' else 'd';
  }

  /** A vote is accepted exactly if its voter is not blank, its option is known, its tier is trimmed and its
      power has 1 to 78 digits, within the lengths. */
  lemma AcceptableVoteIff(fold: Folding, v: Vote)
    ensures AcceptableVote(fold, v) <==>
      && (exists i :: 0 <= i < |v.display| && !White(v.display[i])) && |v.display| <= 1000
      && (v.address.Some? ==> IsAddress(v.address.value))
      && (v.option == Yes || v.option == No || v.option == Abstain)
      && 1 <= |v.tier| <= 64 && !White(v.tier[0]) && !White(v.tier[|v.tier| - 1])
      && 1 <= |v.power| <= 78 && (forall i :: 0 <= i < |v.power| ==> 48 <= v.power[i] as int <= 57)
      && |Key(fold, v)| <= 1100
  {
    assert forall c :: IsSpace(c) <==> White(c);
  }

  lemma AddressIs(s: string)
    ensures IsAddress(s) <==> |s| == 40 && s[..2] == "g1" && forall i :: 2 <= i < 40 ==> s[i] in ADDRESS_CHARS
  {
    if |s| == 40 { assert s[..2] == [s[0], s[1]]; }
  }

  /** The columns of a vote. */
  lemma VoteColumns(v: Vote)
    ensures var c := NormalizedVote(v);
            && c.display == v.display && c.address == v.address && c.option == v.option && c.tier == v.tier
            && c.power == DecimalValue(v.power)
  {
  }

  // ----- proposals -----

  predicate NoLonger(s: Option<string>, maximum: nat) { s.None? || |s.value| <= maximum }

  lemma AcceptableTextsIff(t: Texts)
    ensures AcceptableTexts(t) <==>
      && 1 <= |t.title| <= 1000 && NoLonger(t.authorDisplay, 1000) &&
           (t.authorAddress.None? || IsAddress(t.authorAddress.value))
      && (forall tier :: tier in t.eligibleTiers ==> 1 <= |tier| <= 64 && !White(tier[0]) && !White(tier[|tier| - 1]))
      && |t.description| <= 100_000 && NoLonger(t.executorText, 100_000) && NoLonger(t.executorRealm, 1000)
      && NoLonger(t.rejectionReason, 10_000)
      && |t.parseWarnings| <= 50 && forall w :: w in t.parseWarnings ==> |w| <= 1000
  {
    assert forall c :: IsSpace(c) <==> White(c);
  }

  predicate InPercent(v: Option<real>) { v.None? || (v.value >= 0.0 && v.value <= 100.0) }

  /** A proposal is accepted exactly if its texts and votes are, its statuses are known, its percentages in
      range, its renders captured, and its vote status says whether there are votes. */
  lemma AcceptableDetailIff(fold: Folding, p: Detail, raw: map<RawKey, string>)
    ensures AcceptableDetail(fold, p, raw) <==>
      && p.id >= 0 && AcceptableTexts(p.texts)
      && (p.status == Active || p.status == Accepted || p.status == Rejected || p.status == Unknown)
      && InPercent(p.yes) && InPercent(p.no) && InPercent(p.abstain)
      && (p.detailStatus == DetailParsed || p.detailStatus == DetailPartial)
      && p.votesStatus == (if p.votes == [] then VotesEmpty else VotesParsed)
      && DetailRender(p.id) in raw && VotesRender(p.id) in raw
      && (forall v :: v in p.votes ==> AcceptableVote(fold, v))
      && forall i, j :: 0 <= i < j < |p.votes| ==> Key(fold, p.votes[i]) != Key(fold, p.votes[j])
  {
    hide AcceptableTexts, AcceptableVote, Key;
  }

  /** The columns of a proposal. */
  lemma ProposalColumns(fold: Folding, p: Detail, raw: map<RawKey, string>)
    requires DetailRender(p.id) in raw && VotesRender(p.id) in raw
    ensures var row := NormalizedDetail(fold, p, raw);
            var c := row.content;
            && c.texts == p.texts && c.status == p.status && c.detailStatus == p.detailStatus &&
                 c.votesStatus == p.votesStatus
            && c.yes == CanonicalPercentage(p.yes) && c.no == CanonicalPercentage(p.no)
            && c.abstain == CanonicalPercentage(p.abstain)
            && c.rawDetail == raw[DetailRender(p.id)] && c.rawVotes == raw[VotesRender(p.id)]
            && row.votes == VotesByKey(fold, p.votes)
  {
  }

  lemma VotesByKeyIs(fold: Folding, votes: seq<Vote>)
    requires forall i, j :: 0 <= i < j < |votes| ==> Key(fold, votes[i]) != Key(fold, votes[j])
    ensures forall key :: key in VotesByKey(fold, votes) <==> exists v :: v in votes && Key(fold, v) == key
    ensures forall v :: v in votes ==>
      Key(fold, v) in VotesByKey(fold, votes) && VotesByKey(fold, votes)[Key(fold, v)] == NormalizedVote(v)
  {
    hide Key, NormalizedVote;
    KeysAre(fold, votes);
    forall v | v in votes ensures Key(fold, v) in VotesByKey(fold, votes) &&
      VotesByKey(fold, votes)[Key(fold, v)] == NormalizedVote(v) {
      var i :| 0 <= i < |votes| && votes[i] == v;
      VoteIsItsBallot(fold, votes, i);
    }
  }

  lemma {:induction false} KeysAre(fold: Folding, votes: seq<Vote>)
    ensures forall key :: key in VotesByKey(fold, votes) ==> exists v :: v in votes && Key(fold, v) == key
  {
    if votes != [] {
      hide Key, NormalizedVote;
      KeysAre(fold, votes[..|votes| - 1]);
      assert votes[|votes| - 1] in votes;
    }
  }

  // ----- discoveries -----

  /** A discovery is accepted exactly if it is complete, of this chain, of a bounded realm at a height from 1
      on, with 1 to 100 pages and at most 1000 distinct proposals, each accepted, and renders within limits. */
  lemma AcceptableIff(fold: Folding, d: Discovery, chain: string)
    ensures Acceptable(fold, d, chain) <==>
      && d.complete && d.source.chainId == chain && 1 <= |chain| <= 128
      && 1 <= |d.source.realmPath| <= 512 && 1 <= d.source.observedHeight
      && 1 <= d.pageCount <= 100 && |d.proposals| <= 1000
      && (forall k :: k in d.rawRenders ==> Utf8Length(d.rawRenders[k]) <= 1_048_576)
      && RawBytes(d.rawRenders) <= 16_777_216
      && (forall p :: p in d.proposals ==> AcceptableDetail(fold, p, d.rawRenders))
      && forall i, j :: 0 <= i < j < |d.proposals| ==> d.proposals[i].id != d.proposals[j].id
  {
    hide AcceptableDetail, RawBytes, Utf8Length;
  }

  // ----- stored rows -----

  predicate InRange(v: Option<int>) { v.None? || (v.value >= 0 && v.value <= 1_000_000) }

  lemma StoredContentIff(c: Content)
    ensures StoredContentOk(c) <==>
      && 1 <= |c.texts.title| <= 1000 && NoLonger(c.texts.authorDisplay, 1000)
      && (c.texts.authorAddress.None? || IsAddress(c.texts.authorAddress.value))
      && (forall tier :: tier in c.texts.eligibleTiers ==> 1 <= |tier| <= 64)
      && |c.texts.description| <= 100_000 && NoLonger(c.texts.executorText, 100_000)
      && NoLonger(c.texts.executorRealm, 1000) && NoLonger(c.texts.rejectionReason, 10_000)
      && (forall w :: w in c.texts.parseWarnings ==> |w| <= 1000)
      && (c.status == Active || c.status == Accepted || c.status == Rejected || c.status == Unknown)
      && InRange(c.yes) && InRange(c.no) && InRange(c.abstain)
      && (c.detailStatus == DetailParsed || c.detailStatus == DetailPartial)
      && (c.votesStatus == VotesParsed || c.votesStatus == VotesEmpty)
      && Utf8Length(c.rawDetail) <= 1_048_576 && Utf8Length(c.rawVotes) <= 1_048_576
  {
    hide Utf8Length;
  }

  lemma StoredVoteIff(fold: Folding, key: string, v: VoteContent)
    ensures StoredVoteOk(fold, key, v) <==>
      && 1 <= |key| <= 1100 && 1 <= |v.display| <= 1000 && (v.address.None? || IsAddress(v.address.value))
      && key == Key(fold, Vote(v.display, v.address, v.option, v.tier, ""))
      && (v.option == Yes || v.option == No || v.option == Abstain) && 1 <= |v.tier| <= 64
      && v.power < Pow10(78)
  {
    hide VoterKey;
  }

  lemma Pow10Is(n: nat)
    ensures Pow10(0) == 1 && Pow10(n + 1) == 10 * Pow10(n)
  {
  }

  /** Stored rows are loaded exactly if there is no state and no row, or the state describes rows that are
      all in order: `n` is the height of the state. */
  lemma LoadableIff(fold: Folding, s: Store)
    ensures Loadable(fold, s) <==>
      if s.sync.None? then s.proposals == map[] && s.votes == map[]
      else
        var n := s.sync.value.sourceHeight;
        && n >= 1 && 1 <= s.sync.value.pageCount <= 100 && s.sync.value.proposalCount <= 1000
        && Describes(s.sync.value, s.proposals.Keys) && PairTotal(StoredRaw(s.proposals)) <= 16_777_216
        && (forall id :: id in s.proposals ==>
              && id >= 0 && StoredContentOk(s.proposals[id].content) && Observed(s.proposals[id].seen, n)
              && (s.proposals[id].content.votesStatus == VotesParsed <==> exists key :: (id, key) in s.votes))
        && forall v :: v in s.votes ==>
             v.0 in s.proposals && StoredVoteOk(fold, v.1, s.votes[v].content) && Observed(s.votes[v].seen, n)
  {
    hide StoredContentOk, StoredVoteOk, Describes, PairTotal, StoredRaw;
    assert forall id :: HasVotes(s.votes, id) <==> exists key :: (id, key) in s.votes;
  }

  /** First seen at a height from 1 on, last seen not before that nor after the state, and in that order in time. */
  predicate Observed(seen: Seen, height: int) {
    && seen.firstHeight >= 1 && seen.lastHeight >= seen.firstHeight && height >= seen.lastHeight
    && seen.lastAt >= seen.firstAt
  }

  // ----- what a write changes -----

  /** A written proposal has the new content, was last seen now, and keeps its first observation if it has one. */
  lemma WrittenProposal(s: Store, rows: map<int, Normalized>, height: int, pageCount: int, ids: set<int>, now: int,
                        id: int)
    requires id in rows
    ensures var t := Written(s, rows, height, pageCount, ids, now);
            && id in t.proposals && t.proposals[id].content == rows[id].content
            && t.proposals[id].seen.lastHeight == height && t.proposals[id].seen.lastAt == now
            && t.proposals[id].seen.firstHeight ==
                 (if id in s.proposals then s.proposals[id].seen.firstHeight else height)
            && t.proposals[id].seen.firstAt == (if id in s.proposals then s.proposals[id].seen.firstAt else now)
  {
  }

  /** The votes of a written proposal are the new ones, with the same rule for their observations. */
  lemma WrittenVote(s: Store, rows: map<int, Normalized>, height: int, pageCount: int, ids: set<int>, now: int,
                    id: int, key: string)
    requires id in rows
    ensures var t := Written(s, rows, height, pageCount, ids, now);
            && ((id, key) in t.votes <==> key in rows[id].votes)
            && (key in rows[id].votes ==>
                  && t.votes[(id, key)].content == rows[id].votes[key]
                  && t.votes[(id, key)].seen.lastHeight == height && t.votes[(id, key)].seen.lastAt == now
                  && t.votes[(id, key)].seen.firstHeight
                     == (if (id, key) in s.votes then s.votes[(id, key)].seen.firstHeight else height)
                  && t.votes[(id, key)].seen.firstAt ==
                       (if (id, key) in s.votes then s.votes[(id, key)].seen.firstAt else now))
  {
  }

  /** Everything else stays, and the state describes the given ids at the given height. */
  lemma WrittenRest(s: Store, rows: map<int, Normalized>, height: int, pageCount: int, ids: set<int>, now: int)
    ensures var t := Written(s, rows, height, pageCount, ids, now);
            && t.identity == s.identity
            && t.sync.Some? && t.sync.value.sourceHeight == height && t.sync.value.pageCount == pageCount
            && t.sync.value.proposalCount == |ids|
            && (ids == {} ==> t.sync.value.firstId.None? && t.sync.value.latestId.None?)
            && (ids != {} ==>
                  && t.sync.value.firstId.Some? && t.sync.value.firstId.value in ids
                  && t.sync.value.latestId.Some? && t.sync.value.latestId.value in ids
                  && forall x :: x in ids ==> t.sync.value.firstId.value <= x <= t.sync.value.latestId.value)
            && (forall id :: id !in rows ==> (id in t.proposals <==> id in s.proposals))
            && (forall id :: id !in rows && id in s.proposals ==> t.proposals[id] == s.proposals[id])
            && (forall v: VoteId :: v.0 !in rows ==> (v in t.votes <==> v in s.votes))
            && (forall v: VoteId :: v.0 !in rows && v in s.votes ==> t.votes[v] == s.votes[v])
  {
  }

  // ----- what the quick writer compares -----

  /** A listed proposal has to be refreshed exactly if it is not stored yet or not terminal on both sides. */
  lemma RequiredIff(listed: map<int, Summary>, proposals: map<int, ProposalRow>, id: int)
    ensures id in Required(listed, proposals) <==>
      id in listed &&
      (id in proposals ==>
        || proposals[id].content.status in {Active, Unknown} || listed[id].status in {Active, Unknown})
  {
  }

  lemma AgreesIff(listed: Summary, c: Content)
    ensures Agrees(listed, c) <==>
      (listed.title, listed.authorDisplay, listed.authorAddress, listed.status, listed.eligibleTiers)
      == (c.texts.title, c.texts.authorDisplay, c.texts.authorAddress, c.status, c.texts.eligibleTiers)
  {
  }

  /** The renders that are kept in the end: the new ones of written proposals and the stored ones of the rest. */
  lemma FinalRawIs(proposals: map<int, ProposalRow>, rows: map<int, Normalized>, id: int)
    ensures var raw := FinalRaw(proposals, rows);
            && (id in raw <==> id in proposals || id in rows)
            && (id in rows ==> raw[id] == (rows[id].content.rawDetail, rows[id].content.rawVotes))
            && (id in proposals && id !in rows ==>
                  raw[id] == (proposals[id].content.rawDetail, proposals[id].content.rawVotes))
    ensures var raw := StoredRaw(proposals);
            && (id in raw <==> id in proposals)
            && (id in proposals ==> raw[id] == (proposals[id].content.rawDetail, proposals[id].content.rawVotes))
  {
  }
}
