/** What governance discoveries and stored rows look like, and the two validations: the one a
    discovery passes before it is written and the one stored rows pass when they are loaded. */
module GovernanceModel {
  import opened Wrappers
  import opened Address

  const MAX_GOVERNANCE_PAGES: nat := 100
  const MAX_GOVERNANCE_PROPOSALS: nat := 1000
  const MAX_RENDER_BYTES: nat := 1024 * 1024
  const MAX_TOTAL_RAW_BYTES: nat := 16 * 1024 * 1024
  const MAX_TEXT_CHARS: nat := 100_000
  const MAX_WARNINGS: nat := 50

  datatype Status = Active | Accepted | Rejected | Unknown | OtherStatus(text: string)
  datatype DetailStatus = DetailParsed | DetailPartial | OtherDetail(text: string)
  datatype VotesStatus = VotesParsed | VotesEmpty | VotesUnparsed | OtherVotes(text: string)
  datatype VoteOption = Yes | No | Abstain | OtherOption(text: string)

  // ----- text -----

  function CharBytes(c: char): (n: nat)
    ensures 1 <= n <= 4
  {
    if c as int < 0x80 then 1 else if c as int < 0x800 then 2 else if c as int < 0x10000 then 3 else 4
  }

  /** `len(s.encode("utf-8"))` */
  function Utf8Length(s: string): nat {
    if s == "" then 0 else Utf8Length(s[..|s| - 1]) + CharBytes(s[|s| - 1])
  }

  predicate IsSpace(c: char) { c == ' ' || ('\t' <= c && c <= '\r') }

  /** `s.strip() == s` for a non-empty string. */
  predicate Trimmed(s: string) {
    s != "" && !IsSpace(s[0]) && !IsSpace(s[|s| - 1])
  }

  predicate Bounded(s: string, maximum: nat) { |s| <= maximum }

  predicate BoundedOption(s: Option<string>, maximum: nat) { s.Some? ==> |s.value| <= maximum }

  predicate AddressOption(s: Option<string>) { s.Some? ==> IsAddress(s.value) }

  function Lower(s: string): string {
    seq(|s|, i requires 0 <= i < |s| => if 'A' <= s[i] <= 'Z' then (s[i] as int + 32) as char else s[i])
  }

  function Pow10(n: nat): nat {
    if n == 0 then 1 else 10 * Pow10(n - 1)
  }

  predicate AllDigits(s: string) { forall i :: 0 <= i < |s| ==> '0' <= s[i] <= '9' }

  predicate IsPower(s: string) { 1 <= |s| <= 78 && AllDigits(s) }

  function DigitValue(c: char): nat { if '0' <= c <= '9' then c as int - '0' as int else 0 }

  /** `Decimal(s)` for a digit string. */
  function DecimalValue(s: string): (n: nat)
    ensures n < Pow10(|s|)
  {
    if s == "" then 0 else DecimalValue(s[..|s| - 1]) * 10 + DigitValue(s[|s| - 1])
  }

  lemma {:induction false} Pow10Monotone(a: nat, b: nat)
    requires a <= b
    ensures Pow10(a) <= Pow10(b)
  {
    if a < b { Pow10Monotone(a, b - 1); }
  }

  /** `_percentage`: the canonical value in ten-thousandths, rounded half up. */
  function Percentage(v: real): int { (v * 10000.0 + 0.5).Floor }

  predicate ValidPercentage(v: Option<real>) { v.Some? ==> 0.0 <= v.value <= 100.0 }

  function CanonicalPercentage(v: Option<real>): (c: Option<int>)
    ensures ValidPercentage(v) && c.Some? ==> 0 <= c.value <= 1_000_000
  {
    if v.None? then None else Some(Percentage(v.value))
  }

  // ----- discoveries -----

  datatype Source = Source(chainId: string, rpcUrl: string, observedHeight: int, realmPath: string)

  /** The text columns, which normalization passes through unchanged. */
  datatype Texts = Texts(
    title: string, authorDisplay: Option<string>, authorAddress: Option<string>, eligibleTiers: seq<string>,
    description: string, executorText: Option<string>, executorRealm: Option<string>,
    rejectionReason: Option<string>, parseWarnings: seq<string>)

  datatype Vote = Vote(display: string, address: Option<string>, option: VoteOption, tier: string, power: string)

  datatype Detail = Detail(
    id: int, texts: Texts, status: Status, yes: Option<real>, no: Option<real>, abstain: Option<real>,
    detailStatus: DetailStatus, votesStatus: VotesStatus, votes: seq<Vote>)

  /** The keys of `raw_renders`. */
  datatype RawKey = ListPage(path: string) | DetailRender(id: int) | VotesRender(id: int)

  datatype Discovery = Discovery(
    source: Source, complete: bool, pageCount: int, proposals: seq<Detail>, rawRenders: map<RawKey, string>)

  datatype Summary = Summary(
    id: int, title: string, authorDisplay: Option<string>, authorAddress: Option<string>, status: Status,
    eligibleTiers: seq<string>)

  datatype Listing = Listing(source: Source, complete: bool, pageCount: int, proposals: seq<Summary>)

  // ----- stored rows -----

  /** The content columns of a proposal, without its id and its observation heights and times. */
  datatype Content = Content(
    texts: Texts, status: Status, yes: Option<int>, no: Option<int>, abstain: Option<int>,
    detailStatus: DetailStatus, votesStatus: VotesStatus, rawDetail: string, rawVotes: string)

  datatype VoteContent = VoteContent(display: string, address: Option<string>, option: VoteOption, tier: string,
                                     power: nat)

  /** First and last observation, as heights and as transaction times. */
  datatype Seen = Seen(firstHeight: int, lastHeight: int, firstAt: int, lastAt: int)

  datatype ProposalRow = ProposalRow(content: Content, seen: Seen)
  datatype VoteRow = VoteRow(content: VoteContent, seen: Seen)
  type VoteId = (int, string)

  datatype Sync = Sync(sourceHeight: int, pageCount: int, proposalCount: int, firstId: Option<int>,
                       latestId: Option<int>)

  // ----- normalization of a discovery -----

  /** `casefold` of the whitespace-joined display name is a parameter of the model. */
  type Folding = string -> string

  function VoterKey(fold: Folding, display: string, address: Option<string>): (key: string)
    ensures key != ""
  {
    if address.Some? && address.value != "" then "address:" + Lower(address.value) else "display:" + fold(display)
  }

  predicate AcceptableVote(fold: Folding, v: Vote) {
    && (exists i :: 0 <= i < |v.display| && !IsSpace(v.display[i])) && Bounded(v.display, 1000)
    && AddressOption(v.address)
    && !v.option.OtherOption?
    && Trimmed(v.tier) && Bounded(v.tier, 64)
    && IsPower(v.power)
    && |VoterKey(fold, v.display, v.address)| <= 1100
  }

  function Key(fold: Folding, v: Vote): string { VoterKey(fold, v.display, v.address) }

  function NormalizedVote(v: Vote): VoteContent {
    VoteContent(v.display, v.address, v.option, v.tier, DecimalValue(v.power))
  }

  predicate DistinctKeys(fold: Folding, votes: seq<Vote>) {
    forall i, j :: 0 <= i < j < |votes| ==> Key(fold, votes[i]) != Key(fold, votes[j])
  }

  predicate AcceptableVotes(fold: Folding, votes: seq<Vote>) {
    && (forall i :: 0 <= i < |votes| ==> AcceptableVote(fold, votes[i]))
    && DistinctKeys(fold, votes)
  }

  /** The votes of a proposal by voter key. */
  function VotesByKey(fold: Folding, votes: seq<Vote>): (m: map<string, VoteContent>)
    ensures forall i :: 0 <= i < |votes| ==> Key(fold, votes[i]) in m
    ensures votes == [] ==> m == map[]
  {
    if votes == [] then map[]
    else
      var n := |votes| - 1;
      VotesByKey(fold, votes[..n])[Key(fold, votes[n]) := NormalizedVote(votes[n])]
  }

  predicate AcceptableTexts(t: Texts) {
    && t.title != "" && Bounded(t.title, 1000)
    && BoundedOption(t.authorDisplay, 1000) && AddressOption(t.authorAddress)
    && (forall i :: 0 <= i < |t.eligibleTiers| ==> Trimmed(t.eligibleTiers[i]) && Bounded(t.eligibleTiers[i], 64))
    && Bounded(t.description, MAX_TEXT_CHARS) && BoundedOption(t.executorText, MAX_TEXT_CHARS)
    && BoundedOption(t.executorRealm, 1000) && BoundedOption(t.rejectionReason, 10_000)
    && |t.parseWarnings| <= MAX_WARNINGS
    && (forall i :: 0 <= i < |t.parseWarnings| ==> Bounded(t.parseWarnings[i], 1000))
  }

  /** The checks of a proposal that are not about the single votes. */
  predicate AcceptableColumns(p: Detail, raw: map<RawKey, string>) {
    && p.id >= 0
    && AcceptableTexts(p.texts)
    && !p.status.OtherStatus?
    && ValidPercentage(p.yes) && ValidPercentage(p.no) && ValidPercentage(p.abstain)
    && !p.detailStatus.OtherDetail?
    && (p.votesStatus == VotesParsed || p.votesStatus == VotesEmpty)
    && DetailRender(p.id) in raw && VotesRender(p.id) in raw
    && (p.votesStatus == VotesEmpty <==> p.votes == [])
  }

  predicate AcceptableDetail(fold: Folding, p: Detail, raw: map<RawKey, string>) {
    AcceptableColumns(p, raw) && AcceptableVotes(fold, p.votes)
  }

  /** A proposal as it is going to be stored. */
  datatype Normalized = Normalized(content: Content, votes: map<string, VoteContent>)

  function RawText(raw: map<RawKey, string>, key: RawKey): string { if key in raw then raw[key] else "" }

  function NormalizedDetail(fold: Folding, p: Detail, raw: map<RawKey, string>): Normalized {
    Normalized(
      Content(p.texts, p.status, CanonicalPercentage(p.yes), CanonicalPercentage(p.no), CanonicalPercentage(p.abstain),
              p.detailStatus, p.votesStatus, RawText(raw, DetailRender(p.id)), RawText(raw, VotesRender(p.id))),
      VotesByKey(fold, p.votes))
  }

  /** The sum of the sizes of a dictionary of texts. */
  ghost function RawBytes(raw: map<RawKey, string>): nat
    decreases |raw|
  {
    if raw == map[] then 0
    else
      var k := Pick(raw.Keys);
      Utf8Length(raw[k]) + RawBytes(raw - {k})
  }

  predicate AcceptableSource(source: Source, chain: string) {
    && source.chainId == chain && chain != "" && Bounded(source.chainId, 128)
    && source.realmPath != "" && Bounded(source.realmPath, 512)
    && source.observedHeight >= 1
  }

  ghost predicate AcceptableRaw(raw: map<RawKey, string>) {
    && (forall k :: k in raw ==> Utf8Length(raw[k]) <= MAX_RENDER_BYTES)
    && RawBytes(raw) <= MAX_TOTAL_RAW_BYTES
  }

  ghost predicate Acceptable(fold: Folding, d: Discovery, chain: string) {
    && d.complete && AcceptableSource(d.source, chain)
    && 1 <= d.pageCount <= MAX_GOVERNANCE_PAGES
    && |d.proposals| <= MAX_GOVERNANCE_PROPOSALS
    && AcceptableRaw(d.rawRenders)
    && (forall i :: 0 <= i < |d.proposals| ==> AcceptableDetail(fold, d.proposals[i], d.rawRenders))
    && DistinctIds(d.proposals)
  }

  /** The normalized proposals by id. */
  function RowsById(fold: Folding, proposals: seq<Detail>, raw: map<RawKey, string>): (rows: map<int, Normalized>)
    ensures forall i :: 0 <= i < |proposals| ==> proposals[i].id in rows
    ensures forall id :: id in rows ==> exists i :: 0 <= i < |proposals| && proposals[i].id == id
  {
    if proposals == [] then map[]
    else
      var n := |proposals| - 1;
      RowsById(fold, proposals[..n], raw)[proposals[n].id := NormalizedDetail(fold, proposals[n], raw)]
  }

  predicate DistinctIds(proposals: seq<Detail>) {
    forall k, l :: 0 <= k < l < |proposals| ==> proposals[k].id != proposals[l].id
  }

  lemma {:induction false} RowIsItsDetail(fold: Folding, proposals: seq<Detail>, raw: map<RawKey, string>, i: nat)
    requires DistinctIds(proposals) && i < |proposals|
    ensures RowsById(fold, proposals, raw)[proposals[i].id] == NormalizedDetail(fold, proposals[i], raw)
  {
    var n := |proposals| - 1;
    if i < n {
      var rest := proposals[..n];
      assert rest[i] == proposals[i] && DistinctIds(rest);
      RowIsItsDetail(fold, rest, raw, i);
      assert proposals[i].id != proposals[n].id;
    }
  }

  lemma {:induction false} VoteIsItsBallot(fold: Folding, votes: seq<Vote>, i: nat)
    requires DistinctKeys(fold, votes) && i < |votes|
    ensures VotesByKey(fold, votes)[Key(fold, votes[i])] == NormalizedVote(votes[i])
  {
    var n := |votes| - 1;
    if i < n {
      assert votes[..n][i] == votes[i];
      VoteIsItsBallot(fold, votes[..n], i);
    }
  }

  // ----- validation of stored rows -----

  predicate StoredTextsOk(t: Texts) {
    && t.title != "" && Bounded(t.title, 1000)
    && BoundedOption(t.authorDisplay, 1000) && AddressOption(t.authorAddress)
    && (forall i :: 0 <= i < |t.eligibleTiers| ==> t.eligibleTiers[i] != "" && Bounded(t.eligibleTiers[i], 64))
    && Bounded(t.description, MAX_TEXT_CHARS) && BoundedOption(t.executorText, MAX_TEXT_CHARS)
    && BoundedOption(t.executorRealm, 1000) && BoundedOption(t.rejectionReason, 10_000)
    && (forall i :: 0 <= i < |t.parseWarnings| ==> Bounded(t.parseWarnings[i], 1000))
  }

  predicate StoredPercentageOk(v: Option<int>) { v.Some? ==> 0 <= v.value <= 1_000_000 }

  predicate StoredContentOk(c: Content) {
    && StoredTextsOk(c.texts)
    && !c.status.OtherStatus?
    && StoredPercentageOk(c.yes) && StoredPercentageOk(c.no) && StoredPercentageOk(c.abstain)
    && !c.detailStatus.OtherDetail?
    && (c.votesStatus == VotesParsed || c.votesStatus == VotesEmpty)
    && Utf8Length(c.rawDetail) <= MAX_RENDER_BYTES && Utf8Length(c.rawVotes) <= MAX_RENDER_BYTES
  }

  predicate StoredVoteOk(fold: Folding, key: string, v: VoteContent) {
    && key != "" && Bounded(key, 1100)
    && v.display != "" && Bounded(v.display, 1000)
    && AddressOption(v.address)
    && key == VoterKey(fold, v.display, v.address)
    && !v.option.OtherOption?
    && v.tier != "" && Bounded(v.tier, 64)
    && v.power < Pow10(78)
  }

  predicate SeenOk(s: Seen, sourceHeight: int) {
    1 <= s.firstHeight <= s.lastHeight <= sourceHeight && s.firstAt <= s.lastAt
  }

  // ----- what is normalized passes as stored -----

  lemma NormalizedVoteStored(fold: Folding, v: Vote)
    requires AcceptableVote(fold, v)
    ensures StoredVoteOk(fold, Key(fold, v), NormalizedVote(v))
  {
    Pow10Monotone(|v.power|, 78);
  }

  lemma {:induction false} NormalizedVotesStored(fold: Folding, votes: seq<Vote>)
    requires forall i :: 0 <= i < |votes| ==> AcceptableVote(fold, votes[i])
    ensures forall k :: k in VotesByKey(fold, votes) ==> StoredVoteOk(fold, k, VotesByKey(fold, votes)[k])
  {
    if votes != [] {
      var n := |votes| - 1;
      NormalizedVotesStored(fold, votes[..n]);
      NormalizedVoteStored(fold, votes[n]);
    }
  }

  /** A row that a write may store: its content and votes pass the load checks and agree on whether there are votes. */
  ghost predicate Storable(fold: Folding, row: Normalized) {
    && StoredContentOk(row.content)
    && (forall k :: k in row.votes ==> StoredVoteOk(fold, k, row.votes[k]))
    && (row.content.votesStatus == VotesEmpty <==> row.votes == map[])
  }

  lemma NormalizedDetailStorable(fold: Folding, p: Detail, raw: map<RawKey, string>)
    requires AcceptableDetail(fold, p, raw)
    requires AcceptableRaw(raw)
    ensures Storable(fold, NormalizedDetail(fold, p, raw))
  {
    NormalizedVotesStored(fold, p.votes);
    if p.votes != [] {
      assert Key(fold, p.votes[0]) in VotesByKey(fold, p.votes);
    }
  }
}
