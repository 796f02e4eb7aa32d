/** Choosing an RPC endpoint: the failover order of one probe round, and the hysteresis that keeps
    the selected endpoint until a better one is confirmed. */
module RpcSelection {
  import opened Wrappers

  /** `latency` is None when it is absent or not a finite number. */
  datatype Probe = Probe(
    url: string, healthy: bool, selected: bool, latest: Option<int>, lag: Option<int>, error: Option<string>,
    hasClient: bool, hasStatus: bool, latency: Option<real>)

  // ----- one probe round -----

  predicate ValidLatency(p: Probe) { p.latency.Some? && p.latency.value >= 0.0 }

  /** `_probe_rank` without the input index, which breaks ties; no valid latency is infinitely slow. */
  predicate Faster(p: Probe, q: Probe) {
    ValidLatency(p) && (!ValidLatency(q) || p.latency.value < q.latency.value)
  }

  predicate Suitable(p: Probe) {
    && p.healthy && p.hasClient && p.hasStatus && p.latest.Some?
    && p.lag.Some? && p.lag.value >= 0 && p.error != Some("stale endpoint")
  }

  function Insert(p: Probe, sorted: seq<Probe>): seq<Probe> {
    if sorted == [] || !Faster(sorted[0], p) then [p] + sorted else [sorted[0]] + Insert(p, sorted[1..])
  }

  /** `suitable_rpc_probes`: the suitable probes by latency, ties in input order. */
  function SuitableProbes(probes: seq<Probe>): seq<Probe> {
    if probes == [] then []
    else if Suitable(probes[0]) then Insert(probes[0], SuitableProbes(probes[1..]))
    else SuitableProbes(probes[1..])
  }

  ghost predicate InOrder(s: seq<Probe>) {
    forall i, j :: 0 <= i < j < |s| ==> !Faster(s[j], s[i])
  }

  lemma {:induction false} InsertAdds(p: Probe, sorted: seq<Probe>)
    ensures multiset(Insert(p, sorted)) == multiset(sorted) + multiset{p}
    ensures forall x :: x in Insert(p, sorted) ==> x == p || x in sorted
  {
    if sorted != [] && Faster(sorted[0], p) {
      InsertAdds(p, sorted[1..]);
      assert sorted == [sorted[0]] + sorted[1..];
    }
  }

  lemma OrderedCons(p: Probe, rest: seq<Probe>)
    requires InOrder(rest) && forall x :: x in rest ==> !Faster(x, p)
    ensures InOrder([p] + rest)
  {
  }

  lemma {:induction false} InsertKeepsOrder(p: Probe, sorted: seq<Probe>)
    requires InOrder(sorted)
    ensures InOrder(Insert(p, sorted))
  {
    if sorted == [] || !Faster(sorted[0], p) {
      OrderedCons(p, sorted);
    } else {
      var rest := sorted[1..];
      InsertKeepsOrder(p, rest);
      InsertAdds(p, rest);
      OrderedCons(sorted[0], Insert(p, rest));
    }
  }

  function Chosen(probes: seq<Probe>): multiset<Probe> {
    if probes == [] then multiset{}
    else Chosen(probes[1..]) + (if Suitable(probes[0]) then multiset{probes[0]} else multiset{})
  }

  /** The failover order holds exactly the suitable probes, none faster than one before it. */
  lemma {:induction false} FailoverOrder(probes: seq<Probe>)
    ensures InOrder(SuitableProbes(probes)) && multiset(SuitableProbes(probes)) == Chosen(probes)
  {
    if probes != [] {
      FailoverOrder(probes[1..]);
      if Suitable(probes[0]) {
        InsertKeepsOrder(probes[0], SuitableProbes(probes[1..]));
        InsertAdds(probes[0], SuitableProbes(probes[1..]));
      }
    }
  }

  // ----- the failover order on the latencies -----

  /** The latency that counts, None if it is absent, not finite or negative. */
  function Rank(p: Probe): Option<real> {
    if p.latency.Some? && p.latency.value >= 0.0 then Some(p.latency.value) else None
  }

  /** The probes of this rank, in their order. */
  function OfRank(s: seq<Probe>, rank: Option<real>): seq<Probe> {
    if s == [] then [] else (if Rank(s[0]) == rank then [s[0]] else []) + OfRank(s[1..], rank)
  }

  /** The probes that may serve, in their order. */
  function Serving(probes: seq<Probe>): seq<Probe> {
    if probes == [] then []
    else
      var p := probes[0];
      var serves := p.healthy && p.latest.Some? && p.hasClient && p.hasStatus
                    && p.lag.Some? && p.lag.value >= 0 && p.error != Some("stale endpoint");
      (if serves then [p] else []) + Serving(probes[1..])
  }

  lemma {:induction false} InsertKeepsRanks(p: Probe, sorted: seq<Probe>, rank: Option<real>)
    ensures OfRank(Insert(p, sorted), rank) == (if Rank(p) == rank then [p] else []) + OfRank(sorted, rank)
  {
    if sorted != [] && Faster(sorted[0], p) {
      InsertKeepsRanks(p, sorted[1..], rank);
      assert Insert(p, sorted)[1..] == Insert(p, sorted[1..]);
    } else {
      assert ([p] + sorted)[1..] == sorted;
    }
  }

  /** Probes of equal latency stay in the order of the input. */
  lemma {:induction false} FailoverIsStable(probes: seq<Probe>, rank: Option<real>)
    ensures OfRank(SuitableProbes(probes), rank) == OfRank(Serving(probes), rank)
  {
    if probes != [] {
      FailoverIsStable(probes[1..], rank);
      if Suitable(probes[0]) {
        InsertKeepsRanks(probes[0], SuitableProbes(probes[1..]), rank);
        assert ([probes[0]] + Serving(probes[1..]))[1..] == Serving(probes[1..]);
      } else {
        assert [] + Serving(probes[1..]) == Serving(probes[1..]);
      }
    }
  }

  lemma {:induction false} ServingIsChosen(probes: seq<Probe>)
    ensures multiset(Serving(probes)) == Chosen(probes)
  {
    if probes != [] {
      ServingIsChosen(probes[1..]);
    }
  }

  /** The failover order is the probes that may serve, from the least latency to the greatest, and those
      without a latency last. */
  lemma FailoverByLatency(probes: seq<Probe>)
    ensures var s := SuitableProbes(probes);
            && multiset(s) == multiset(Serving(probes))
            && forall i, j :: 0 <= i < j < |s| && Rank(s[j]).Some? ==>
                 Rank(s[i]).Some? && s[i].latency.value <= s[j].latency.value
  {
    FailoverOrder(probes);
    ServingIsChosen(probes);
  }

  // ----- the flag and the failover order agree -----

  function WithLag(p: Probe, highest: int, maxLag: int): Probe {
    if !p.healthy || p.latest.None? then p
    else
      var lag := highest - p.latest.value;
      if lag > maxLag then p.(healthy := false, lag := Some(lag), error := Some("stale endpoint"))
      else p.(lag := Some(lag))
  }

  predicate Candidate(p: Probe, maxLag: int) { p.healthy && p.lag.Some? && p.lag.value <= maxLag }

  /** `_selected_probe_index`: the first of the fastest candidates. */
  function SelectedIndex(probes: seq<Probe>, maxLag: int): (i: Option<nat>)
    ensures i.Some? ==> i.value < |probes| && Candidate(probes[i.value], maxLag)
  {
    if probes == [] then None
    else
      var rest := SelectedIndex(probes[1..], maxLag);
      if !Candidate(probes[0], maxLag) then (if rest.None? then None else Some(rest.value + 1))
      else if rest.None? || !Faster(probes[1..][rest.value], probes[0]) then Some(0)
      else Some(rest.value + 1)
  }

  /** The selected probe has the least latency of the healthy ones within the lag, and is the first such one. */
  lemma {:induction false} SelectedHasLeastLatency(probes: seq<Probe>, maxLag: int, j: nat)
    requires j < |probes| && probes[j].healthy && probes[j].lag.Some? && probes[j].lag.value <= maxLag
    ensures var i := SelectedIndex(probes, maxLag);
            && i.Some? && probes[i.value].healthy && probes[i.value].lag.Some? && probes[i.value].lag.value <= maxLag
            && (Rank(probes[j]).Some? ==>
                  Rank(probes[i.value]).Some? && probes[i.value].latency.value <= probes[j].latency.value)
            && (j < i.value ==> Rank(probes[j]) != Rank(probes[i.value]))
  {
    if j > 0 {
      SelectedHasLeastLatency(probes[1..], maxLag, j - 1);
    } else {
      var rest := SelectedIndex(probes[1..], maxLag);
    }
  }

  /** What the lag does to a probe. */
  lemma LagIs(p: Probe, highest: int, maxLag: int)
    ensures var q := WithLag(p, highest, maxLag);
            && q.url == p.url && q.latest == p.latest && q.latency == p.latency && q.selected == p.selected
            && q.hasClient == p.hasClient && q.hasStatus == p.hasStatus
            && (p.healthy && p.latest.Some? ==> q.lag == Some(highest - p.latest.value))
            && (q.healthy <==> p.healthy && (p.latest.Some? ==> highest - p.latest.value <= maxLag))
            && q.error == (if p.healthy && !q.healthy then Some("stale endpoint") else p.error)
            && (!(p.healthy && p.latest.Some?) ==> q == p)
  {
  }

  /** What a probe gives before lags are known. */
  predicate Raw(p: Probe) {
    && !p.selected && p.lag.None?
    && (p.healthy ==> p.hasClient && p.hasStatus && p.latest.Some? && p.error.None?)
  }

  ghost predicate Highest(probes: seq<Probe>, highest: int) {
    && (exists i :: 0 <= i < |probes| && probes[i].healthy && probes[i].latest == Some(highest))
    && (forall i :: 0 <= i < |probes| && probes[i].healthy && probes[i].latest.Some? ==>
        probes[i].latest.value <= highest)
  }

  function Lagging(probes: seq<Probe>, highest: int, maxLag: int): (r: seq<Probe>)
    ensures |r| == |probes|
  {
    seq(|probes|, i requires 0 <= i < |probes| => WithLag(probes[i], highest, maxLag))
  }

  lemma LaggingSuitable(p: Probe, highest: int, maxLag: int)
    requires Raw(p) && (p.healthy ==> p.latest.value <= highest)
    ensures Suitable(WithLag(p, highest, maxLag)) <==> Candidate(WithLag(p, highest, maxLag), maxLag)
  {
  }

  lemma {:induction false} HeadIsFastest(probes: seq<Probe>, maxLag: int)
    requires forall i :: 0 <= i < |probes| ==> (Suitable(probes[i]) <==> Candidate(probes[i], maxLag))
    ensures var i := SelectedIndex(probes, maxLag);
            if i.None? then SuitableProbes(probes) == []
            else SuitableProbes(probes) != [] && SuitableProbes(probes)[0] == probes[i.value]
  {
    if probes != [] { HeadIsFastest(probes[1..], maxLag); }
  }

  /** The endpoint that a probe round flags as selected is the first one in its failover order. */
  lemma SelectedIsFirst(raw: seq<Probe>, highest: int, maxLag: int)
    requires Highest(raw, highest) && forall i :: 0 <= i < |raw| ==> Raw(raw[i])
    ensures var probes := Lagging(raw, highest, maxLag);
            var i := SelectedIndex(probes, maxLag);
            if i.None? then SuitableProbes(probes) == []
            else SuitableProbes(probes) != [] && SuitableProbes(probes)[0] == probes[i.value]
  {
    var probes := Lagging(raw, highest, maxLag);
    forall i | 0 <= i < |probes| ensures Suitable(probes[i]) <==> Candidate(probes[i], maxLag) {
      LaggingSuitable(raw[i], highest, maxLag);
    }
    HeadIsFastest(probes, maxLag);
  }

  // ----- hysteresis -----

  const MIN_IMPROVEMENT_SECONDS := 0.050
  const MIN_RELATIVE_IMPROVEMENT := 0.25
  const CONFIRMATION_CYCLES: nat := 3

  datatype Reason = SelectedUnavailable | InitialSelection | LatencyHysteresis

  datatype Selection = Selection(selectedUrl: Option<string>, candidateUrl: Option<string>, streak: nat)

  /** The first probe of the selected URL. */
  function SelectedAt(candidates: seq<Probe>, url: Option<string>): (i: Option<nat>)
    ensures i.Some? ==> i.value < |candidates| && Some(candidates[i.value].url) == url
    ensures i.Some? ==> forall j :: 0 <= j < i.value ==> Some(candidates[j].url) != url
    ensures i.None? ==> forall j :: 0 <= j < |candidates| ==> Some(candidates[j].url) != url
  {
    if candidates == [] then None
    else if Some(candidates[0].url) == url then Some(0)
    else
      var rest := SelectedAt(candidates[1..], url);
      if rest.None? then None else Some(rest.value + 1)
  }

  function Without(candidates: seq<Probe>, i: nat): seq<Probe>
    requires i < |candidates|
  {
    candidates[..i] + candidates[i + 1..]
  }

  /** Both thresholds are met. */
  predicate Improves(selected: Probe, candidate: Probe) {
    && ValidLatency(selected) && ValidLatency(candidate)
    && var improvement := selected.latency.value - candidate.latency.value;
       var relative := if selected.latency.value != 0.0 then improvement / selected.latency.value else 0.0;
       improvement >= MIN_IMPROVEMENT_SECONDS && relative >= MIN_RELATIVE_IMPROVEMENT
  }

  /** The candidate is faster by at least fifty milliseconds and by at least a quarter. */
  lemma ImprovesIff(selected: Probe, candidate: Probe)
    ensures Improves(selected, candidate) <==>
      && Rank(selected).Some? && Rank(candidate).Some?
      && candidate.latency.value + 0.05 <= selected.latency.value
      && 4.0 * candidate.latency.value <= 3.0 * selected.latency.value
  {
    if Rank(selected).Some? && Rank(candidate).Some? && selected.latency.value > 0.0 {
      QuarterFaster(selected.latency.value, candidate.latency.value);
    }
  }

  lemma QuarterFaster(s: real, c: real)
    requires s > 0.0
    ensures (s - c) / s >= 0.25 <==> 4.0 * c <= 3.0 * s
  {
    var q := (s - c) / s;
    assert q * s == s - c;
    var d := q - 0.25;
    assert d * s == (s - c) - 0.25 * s;
    if d >= 0.0 { Products(d, s); } else { Products(-d, s); }
  }

  lemma Products(x: real, y: real)
    requires x >= 0.0 && y > 0.0
    ensures x * y >= 0.0 && (x > 0.0 ==> x * y > 0.0) && (-x) * y == -(x * y)
  {
  }

  /** The best alternative of this round is `url`, and it improves on the available selected endpoint. */
  predicate Qualifies(candidates: seq<Probe>, selectedUrl: Option<string>, url: string) {
    var i := SelectedAt(candidates, selectedUrl);
    && i.Some?
    && var alternatives := Without(candidates, i.value);
       alternatives != [] && alternatives[0].url == url && Improves(candidates[i.value], alternatives[0])
  }

  /** `order_indexer_candidates`. */
  function Ordering(candidates: seq<Probe>, s: Selection): (seq<Probe>, Reason, Selection) {
    var reset := s.(candidateUrl := None, streak := 0);
    var i := SelectedAt(candidates, s.selectedUrl);
    if i.None? then (candidates, if s.selectedUrl.Some? then SelectedUnavailable else InitialSelection, reset)
    else
      var selected, alternatives := candidates[i.value], Without(candidates, i.value);
      if alternatives == [] || !Improves(selected, alternatives[0])
      then ([selected] + alternatives, InitialSelection, reset)
      else
        var url := alternatives[0].url;
        var streak := if s.candidateUrl == Some(url) then s.streak + 1 else 1;
        var s' := s.(candidateUrl := Some(url), streak := streak);
        if streak < CONFIRMATION_CYCLES then ([selected] + alternatives, InitialSelection, s')
        else ([alternatives[0], selected] + alternatives[1..], LatencyHysteresis, s')
  }

  /** `record_selection_success`. */
  function Recorded(s: Selection, url: string, fallback: bool): Selection {
    var adopted := s.selectedUrl != Some(url);
    if adopted || fallback then Selection(Some(url), None, 0) else s
  }

  /** After a success the URL is selected; the pending candidate stays exactly if that was no change and
      nothing had failed. */
  lemma RecordedIs(s: Selection, url: string, fallback: bool)
    ensures var t := Recorded(s, url, fallback);
            && t.selectedUrl == Some(url)
            && (if s.selectedUrl == Some(url) && !fallback then t.candidateUrl == s.candidateUrl && t.streak == s.streak
                else t.candidateUrl.None? && t.streak == 0)
  {
  }

  class RpcSelectionState {
    var selectedUrl: Option<string>
    var candidateUrl: Option<string>
    var candidateStreak: nat

    constructor (selectedUrl: Option<string>)
      ensures View() == Selection(selectedUrl, None, 0)
    {
      this.selectedUrl, candidateUrl, candidateStreak := selectedUrl, None, 0;
    }

    ghost function View(): Selection
      reads this
    {
      Selection(selectedUrl, candidateUrl, candidateStreak)
    }

    method OrderCandidates(candidates: seq<Probe>) returns (ordered: seq<Probe>, reason: Reason)
      modifies this`candidateUrl, this`candidateStreak
      ensures (ordered, reason, View()) == Ordering(candidates, old(View()))
    {
      var i := SelectedAt(candidates, selectedUrl);
      if i.None? {
        candidateUrl, candidateStreak := None, 0;
        return candidates, if selectedUrl.Some? then SelectedUnavailable else InitialSelection;
      }
      var selected, alternatives := candidates[i.value], Without(candidates, i.value);
      if alternatives == [] {
        candidateUrl, candidateStreak := None, 0;
        assert [selected] + alternatives == [selected];
        return [selected], InitialSelection;
      }
      var candidate := alternatives[0];
      if !Improves(selected, candidate) {
        candidateUrl, candidateStreak := None, 0;
        return [selected] + alternatives, InitialSelection;
      }
      if candidateUrl == Some(candidate.url) {
        candidateStreak := candidateStreak + 1;
      } else {
        candidateUrl := Some(candidate.url);
        candidateStreak := 1;
      }
      if candidateStreak < CONFIRMATION_CYCLES {
        return [selected] + alternatives, InitialSelection;
      }
      return [candidate, selected] + alternatives[1..], LatencyHysteresis;
    }

    method RecordSelectionSuccess(url: string, fallback: bool)
      modifies this
      ensures View() == Recorded(old(View()), url, fallback)
    {
      var adopted := selectedUrl != Some(url);
      if adopted {
        selectedUrl := Some(url);
      }
      if adopted || fallback {
        candidateUrl, candidateStreak := None, 0;
      }
    }

    /** The part of `reject` that concerns the selection. */
    method Reject()
      modifies this`candidateUrl, this`candidateStreak
      ensures View() == old(View()).(candidateUrl := None, streak := 0)
    {
      candidateUrl, candidateStreak := None, 0;
    }
  }

  // ----- one ordering -----

  lemma SplitAt(s: seq<Probe>, i: nat)
    requires i < |s|
    ensures multiset(s) == multiset([s[i]] + Without(s, i))
  {
    assert s == s[..i] + [s[i]] + s[i + 1..];
  }

  lemma SwapFirst(p: Probe, rest: seq<Probe>)
    requires rest != []
    ensures multiset([rest[0], p] + rest[1..]) == multiset([p] + rest)
  {
    assert rest == [rest[0]] + rest[1..];
    assert [p] + rest == [p] + [rest[0]] + rest[1..];
  }

  /** The result is a permutation of the input. */
  lemma OrderingPermutes(candidates: seq<Probe>, s: Selection)
    ensures multiset(Ordering(candidates, s).0) == multiset(candidates)
  {
    var i := SelectedAt(candidates, s.selectedUrl);
    if i.Some? {
      var rest := Without(candidates, i.value);
      SplitAt(candidates, i.value);
      if rest != [] {
        SwapFirst(candidates[i.value], rest);
      }
    }
  }

  // ----- all runs -----

  datatype Event =
    | Ordered(candidates: seq<Probe>)
    | Succeeded(url: string, fallback: bool)
    | Rejected

  function After(s: Selection, e: Event): Selection {
    match e
    case Ordered(candidates) => Ordering(candidates, s).2
    case Succeeded(url, fallback) => Recorded(s, url, fallback)
    case Rejected => s.(candidateUrl := None, streak := 0)
  }

  function Run(start: Option<string>, events: seq<Event>): Selection {
    if events == [] then Selection(start, None, 0)
    else After(Run(start, events[..|events| - 1]), events[|events| - 1])
  }

  /** The endpoint that was adopted last. */
  function SelectedAfter(start: Option<string>, events: seq<Event>): Option<string> {
    if events == [] then start
    else
      var e := events[|events| - 1];
      if e.Succeeded? then Some(e.url) else SelectedAfter(start, events[..|events| - 1])
  }

  /** The event leaves a confirmation of `url` standing: it is a qualifying ordering, or the selected
      endpoint served without a fallback. */
  predicate Keeps(start: Option<string>, before: seq<Event>, e: Event, url: string) {
    match e
    case Ordered(candidates) => Qualifies(candidates, SelectedAfter(start, before), url)
    case Succeeded(u, fallback) => !fallback && SelectedAfter(start, before) == Some(u)
    case Rejected => false
  }

  /** How many orderings confirmed `url` since something last broke the confirmation. */
  function Confirmations(start: Option<string>, events: seq<Event>, url: string): nat {
    if events == [] then 0
    else
      var before, e := events[..|events| - 1], events[|events| - 1];
      if !Keeps(start, before, e, url) then 0
      else Confirmations(start, before, url) + (if e.Ordered? then 1 else 0)
  }

  /** The three fields say who was adopted last and who has how many confirmations. */
  ghost predicate Tracks(s: Selection, start: Option<string>, events: seq<Event>) {
    && s.selectedUrl == SelectedAfter(start, events)
    && forall url :: Confirmations(start, events, url) == if s.candidateUrl == Some(url) then s.streak else 0
  }

  lemma TracksNext(s: Selection, start: Option<string>, before: seq<Event>, e: Event)
    requires Tracks(s, start, before)
    ensures Tracks(After(s, e), start, before + [e])
  {
    var events := before + [e];
    assert events[..|events| - 1] == before;
  }

  lemma {:induction false} RunTracks(start: Option<string>, events: seq<Event>)
    ensures Tracks(Run(start, events), start, events)
  {
    if events != [] {
      var before, e := events[..|events| - 1], events[|events| - 1];
      RunTracks(start, before);
      TracksNext(Run(start, before), start, before, e);
      assert before + [e] == events;
    }
  }

  lemma OrderingByStreak(candidates: seq<Probe>, s: Selection, i: nat, alternatives: seq<Probe>)
    requires SelectedAt(candidates, s.selectedUrl) == Some(i) && alternatives == Without(candidates, i)
    ensures var (ordered, _, s') := Ordering(candidates, s);
            if alternatives != [] && s'.candidateUrl == Some(alternatives[0].url) && s'.streak >= CONFIRMATION_CYCLES
            then ordered == [alternatives[0], candidates[i]] + alternatives[1..]
            else ordered == [candidates[i]] + alternatives
  {
    hide Improves, SelectedAt, Without;
  }

  /** In every run: when the selected endpoint is available, the ordering starts with it unless the
      best alternative now has three confirmations, and then exactly that alternative comes first. */
  lemma SwitchIffConfirmed(start: Option<string>, events: seq<Event>, candidates: seq<Probe>)
    requires SelectedAt(candidates, SelectedAfter(start, events)).Some?
    ensures var selected := candidates[SelectedAt(candidates, SelectedAfter(start, events)).value];
            var alternatives := Without(candidates, SelectedAt(candidates, SelectedAfter(start, events)).value);
            var ordered := Ordering(candidates, Run(start, events)).0;
            if alternatives != [] && Confirmations(start, events + [Ordered(candidates)], alternatives[0].url) >= 3
            then ordered == [alternatives[0], selected] + alternatives[1..]
            else ordered == [selected] + alternatives
  {
    var i := SelectedAt(candidates, SelectedAfter(start, events)).value;
    var s := Run(start, events);
    hide Improves, Ordering, Confirmations, SelectedAfter, Run, SelectedAt, Without;
    RunTracks(start, events);
    TracksNext(s, start, events, Ordered(candidates));
    OrderingByStreak(candidates, s, i, Without(candidates, i));
  }

  function Orderings(events: seq<Event>): nat {
    if events == [] then 0 else Orderings(events[..|events| - 1]) + (if events[|events| - 1].Ordered? then 1 else 0)
  }

  ghost predicate KeptSince(start: Option<string>, events: seq<Event>, from: nat, url: string) {
    forall i :: from <= i < |events| ==> Keeps(start, events[..i], events[i], url)
  }

  /** From `from` on nothing broke the confirmation of `url`, and there were at least `n` orderings. */
  ghost predicate Stretch(start: Option<string>, events: seq<Event>, from: nat, url: string, n: nat) {
    from <= |events| && KeptSince(start, events, from, url) && Orderings(events[from..]) >= n
  }

  /** So many confirmations mean: at the end of the run there is an uninterrupted stretch with so
      many orderings, each of which had `url` as its best alternative and met both thresholds. */
  lemma {:induction false} ConfirmationsMean(start: Option<string>, events: seq<Event>, url: string, n: nat)
    ensures Confirmations(start, events, url) >= n <==> exists from: nat :: Stretch(start, events, from, url, n)
  {
    if events == [] {
      if n == 0 { assert Stretch(start, events, 0, url, n); }
    } else {
      var m := |events| - 1;
      var before, e := events[..m], events[m];
      if Keeps(start, before, e, url) {
        var k := if e.Ordered? && n > 0 then n - 1 else n;
        ConfirmationsMean(start, before, url, k);
        if exists from: nat :: Stretch(start, before, from, url, k) {
          var from: nat :| Stretch(start, before, from, url, k);
          StretchOn(start, events, from, url, n, k);
        }
        if exists from: nat :: Stretch(start, events, from, url, n) {
          var from: nat :| Stretch(start, events, from, url, n);
          StretchBack(start, before, events, from, url, n, k);
        }
      } else {
        StretchBroken(start, events, url, n);
      }
    }
  }

  lemma StretchBroken(start: Option<string>, events: seq<Event>, url: string, n: nat)
    requires events != [] && !Keeps(start, events[..|events| - 1], events[|events| - 1], url)
    ensures n == 0 <==> exists from: nat :: Stretch(start, events, from, url, n)
  {
    if n == 0 { assert Stretch(start, events, |events|, url, n); }
    forall from: nat | from < |events| ensures !Stretch(start, events, from, url, n) {
      StretchStops(start, events, from, url, n);
    }
  }

  lemma StretchStops(start: Option<string>, events: seq<Event>, from: nat, url: string, n: nat)
    requires from < |events| && !Keeps(start, events[..|events| - 1], events[|events| - 1], url)
    ensures !Stretch(start, events, from, url, n)
  {
  }

  lemma LastOrdering(events: seq<Event>, from: nat)
    requires from < |events|
    ensures Orderings(events[from..])
         == Orderings(events[..|events| - 1][from..]) + (if events[|events| - 1].Ordered? then 1 else 0)
  {
    assert events[from..][..|events| - 1 - from] == events[..|events| - 1][from..];
  }

  lemma StretchOn(start: Option<string>, events: seq<Event>, from: nat, url: string, n: nat, k: nat)
    requires events != [] && Keeps(start, events[..|events| - 1], events[|events| - 1], url)
    requires k == if events[|events| - 1].Ordered? && n > 0 then n - 1 else n
    requires Stretch(start, events[..|events| - 1], from, url, k)
    ensures Stretch(start, events, from, url, n)
  {
    hide Keeps;
    var before := events[..|events| - 1];
    LastOrdering(events, from);
    forall i | from <= i < |events| ensures Keeps(start, events[..i], events[i], url) {
      if i < |before| { assert before[..i] == events[..i]; }
    }
  }

  lemma StretchBack(start: Option<string>, before: seq<Event>, events: seq<Event>, from: nat, url: string, n: nat,
                    k: nat)
    requires events != [] && before == events[..|events| - 1] && Stretch(start, events, from, url, n)
    requires k == if events[|events| - 1].Ordered? && n > 0 then n - 1 else n
    ensures exists from: nat :: Stretch(start, before, from, url, k)
  {
    hide Keeps;
    if from < |events| {
      LastOrdering(events, from);
      forall i | from <= i < |before| ensures Keeps(start, before[..i], before[i], url) {
        assert before[..i] == events[..i];
      }
      assert Stretch(start, before, from, url, k);
    } else {
      assert Stretch(start, before, |before|, url, k);
    }
  }
}
