/** What a refreshed proposal takes from the list and from its detail page, and what that means for
    repeating a quick write. */
module GovernanceRefresh {
  import opened Wrappers
  import opened GovernanceModel
  import opened GovernancePersistence
  import opened GovernanceInvariants
  import opened GovernanceRuns

  /** The merge in `discover_governance_proposal`: the list fills in what the detail page leaves open. */
  function Merged(listed: Summary, page: Detail): Detail {
    var texts := page.texts;
    var noAuthor := texts.authorDisplay.None?;
    page.(
      status := if page.status == Unknown then listed.status else page.status,
      texts := texts.(
        eligibleTiers := if texts.eligibleTiers == [] then listed.eligibleTiers else texts.eligibleTiers,
        authorDisplay := if noAuthor then listed.authorDisplay else texts.authorDisplay,
        authorAddress := if noAuthor then listed.authorAddress else texts.authorAddress))
  }

  /** The detail page contradicts nothing that the list says. */
  predicate Confirms(page: Detail, listed: Summary) {
    && page.texts.title == listed.title
    && (page.status == Unknown || page.status == listed.status)
    && (page.texts.eligibleTiers == [] || page.texts.eligibleTiers == listed.eligibleTiers)
    && (page.texts.authorDisplay.None?
        || (page.texts.authorDisplay == listed.authorDisplay && page.texts.authorAddress == listed.authorAddress))
  }

  /** The row of a refreshed proposal agrees with the list exactly when its detail page confirms it. */
  lemma MergedAgreesIff(fold: Folding, listed: Summary, page: Detail, raw: map<RawKey, string>)
    ensures Agrees(listed, NormalizedDetail(fold, Merged(listed, page), raw).content) <==> Confirms(page, listed)
  {
    hide VotesByKey, CanonicalPercentage;
  }

  /** The quick writer's comparison of statuses fails exactly when both are known and differ. */
  lemma MergedStatusAccepted(listed: Summary, page: Detail)
    ensures Merged(listed, page).status == listed.status || listed.status == Unknown
      <==> page.status == Unknown || listed.status == Unknown || page.status == listed.status
  {
  }

  // ----- a write whose repetition is refused -----

  const CHAIN := "c"

  function DemoSource(): Source { Source(CHAIN, "", 1, "r") }

  function DemoTexts(): Texts { Texts("title", None, None, [], "", None, None, None, []) }

  /** The list does not recognize the status, the detail page does. */
  function DemoPage(): Detail { Detail(0, DemoTexts(), Active, None, None, None, DetailParsed, VotesEmpty, []) }

  function DemoListed(): Summary { Summary(0, "title", None, None, Unknown, []) }

  function DemoList(): Listing { Listing(DemoSource(), true, 1, [DemoListed()]) }

  function DemoRaw(): map<RawKey, string> { map[DetailRender(0) := "", VotesRender(0) := ""] }

  function DemoTarget(): Discovery { Discovery(DemoSource(), true, 0, [Merged(DemoListed(), DemoPage())], DemoRaw()) }

  lemma DemoRawFits()
    ensures AcceptableRaw(DemoRaw())
  {
    RawBytesRemove(DemoRaw(), DetailRender(0));
    var rest := DemoRaw() - {DetailRender(0)};
    RawBytesRemove(rest, VotesRender(0));
    assert rest - {VotesRender(0)} == map[];
  }

  lemma DemoAcceptable(fold: Folding)
    ensures TargetAcceptable(fold, DemoSource(), DemoTarget(), CHAIN, Listed(DemoList().proposals))
  {
    DemoRawFits();
    hide RawBytes, Utf8Length;
    assert AcceptableVotes(fold, []);
    DemoListedMap();
  }

  lemma DemoListedMap()
    ensures Listed(DemoList().proposals) == map[0 := DemoListed()]
  {
    assert DemoList().proposals[..0] == [];
  }

  lemma DemoRows(fold: Folding)
    ensures TargetRows(fold, [DemoTarget()]) ==
      map[0 := NormalizedDetail(fold, Merged(DemoListed(), DemoPage()), DemoRaw())]
  {
    hide NormalizedDetail;
    assert [DemoTarget()][..0] == [];
  }

  lemma DemoTotal(fold: Folding)
    ensures PairTotal(FinalRaw(map[], TargetRows(fold, [DemoTarget()]))) <= MAX_TOTAL_RAW_BYTES
  {
    DemoRows(fold);
    hide TargetRows;
    var pairs := FinalRaw(map[], TargetRows(fold, [DemoTarget()]));
    assert pairs == map[0 := ("", "")];
    assert pairs.Keys == {0} && pairs - {0} == map[];
  }

  lemma DemoApplied(fold: Folding, now: int)
    ensures PersistQuick(fold, Store(None, None, map[], map[]), DemoList(), [DemoTarget()], CHAIN, now).1 == Ok(Applied)
  {
    DemoAcceptable(fold);
    DemoListedMap();
    DemoRows(fold);
    DemoTotal(fold);
    hide TargetAcceptable, NormalizedDetail, TargetRows, Listed, PairTotal, FinalRaw, Merged;
    assert Required(map[0 := DemoListed()], map[]) == {0};
    assert TargetRows(fold, [DemoTarget()]).Keys == {0};
  }

  /** A quick write is applied to an empty store, and the very same input is then refused as a
      conflict, because the list said UNKNOWN where the stored row has the status of the detail page. */
  lemma QuickRetryCanBeRefused(fold: Folding, now: int, later: int)
    ensures var s := Store(None, None, map[], map[]);
            var (t, first) := PersistQuick(fold, s, DemoList(), [DemoTarget()], CHAIN, now);
            first == Ok(Applied) &&
              PersistQuick(fold, t, DemoList(), [DemoTarget()], CHAIN, later) == (t, Err(SnapshotConflict))
  {
    var s := Store(None, None, map[], map[]);
    DemoApplied(fold, now);
    QuickRetrySame(fold, s, DemoList(), [DemoTarget()], CHAIN, now, later);
    DemoDisagrees(fold);
    hide PersistQuick, ListAgrees, TargetRows, Listed;
  }

  lemma DemoDisagrees(fold: Folding)
    ensures !ListAgrees(Listed(DemoList().proposals), map[], TargetRows(fold, [DemoTarget()]))
  {
    DemoListedMap();
    DemoRows(fold);
    MergedAgreesIff(fold, DemoListed(), DemoPage(), DemoRaw());
    hide NormalizedDetail, TargetRows, Listed, Agrees, Merged;
    assert 0 in Listed(DemoList().proposals);
  }
}
