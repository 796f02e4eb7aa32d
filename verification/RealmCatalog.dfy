/** What one block tells about realms and packages: observations, the calls to be located, and
    their aggregation by path. */
module RealmCatalog {
  import opened Wrappers
  import opened Address

  const MAX_MESSAGES: nat := 20

  /** The values that a stored summary may hold. */
  datatype Json =
    | Null
    | Bool(truth: bool)
    | Int(number: int)
    | Float(value: real)
    | Text(text: string)
    | List(items: seq<Json>)
    | Object(fields: map<string, Json>)

  /** `dict.get`, which does not tell a missing key from a null. */
  function Get(j: Json, key: string): Json {
    if j.Object? && key in j.fields then j.fields[key] else Null
  }

  // ----- paths -----

  datatype Kind = Realm | Package

  predicate PathChar(c: char) { '!' <= c <= '~' && c != '?' && c != '#' }

  /** Non-empty segments of printable characters. */
  predicate Segments(s: string) {
    && s != "" && s[0] != '/' && s[|s| - 1] != '/'
    && (forall i :: 0 <= i < |s| ==> PathChar(s[i]))
    && (forall i :: 0 < i < |s| ==> !(s[i - 1] == '/' && s[i] == '/'))
  }

  function PathKind(path: Json): (kind: Option<Kind>)
    ensures kind.Some? ==> path.Text?
  {
    if !path.Text? || !(11 <= |path.text| <= 256) || !Segments(path.text[11..]) then None
    else if path.text[..11] == "gno.land/r/" then Some(Realm)
    else if path.text[..11] == "gno.land/p/" then Some(Package)
    else None
  }

  predicate IsCompletePackagePath(message: Json, path: Json) {
    var completeness := Get(message, "package_path_complete");
    message.Object? && (completeness == Bool(true) || (completeness == Null && path.Text? && |path.text| < 160))
  }

  // ----- observations -----

  datatype ObservationType = Deployment | Call

  datatype Observation = Observation(
    path: string, kind: Kind, messageIndex: nat, observed: ObservationType, sender: Option<string>)

  /** The messages that are looked at. */
  function MessagesOf(summary: Json): (messages: seq<Json>)
    ensures |messages| <= MAX_MESSAGES
  {
    var messages := Get(summary, "messages");
    if Get(summary, "parse_status") != Text("parsed") || !messages.List? then []
    else if |messages.items| <= MAX_MESSAGES then messages.items
    else messages.items[..MAX_MESSAGES]
  }

  function SenderOf(message: Json): Option<string> {
    var sender := Get(message, "sender");
    if sender.Text? && IsAddress(sender.text) then Some(sender.text) else None
  }

  function ObservationAt(index: nat, message: Json): (o: Option<Observation>)
    ensures o.Some? ==> o.value.messageIndex == index && PathKind(Text(o.value.path)) == Some(o.value.kind)
  {
    var path := Get(message, "package_path");
    var kind := PathKind(path);
    if !IsCompletePackagePath(message, path) || kind.None? then None
    else if Get(message, "type") == Text("gno.vm.MsgAddPackage") then
      Some(Observation(path.text, kind.value, index, Deployment, SenderOf(message)))
    else if Get(message, "type") == Text("gno.vm.MsgCall") && kind == Some(Realm) then
      Some(Observation(path.text, Realm, index, Call, SenderOf(message)))
    else None
  }

  function AsSeq<T>(o: Option<T>): seq<T> { if o.None? then [] else [o.value] }

  function Observations(messages: seq<Json>): seq<Observation> {
    if messages == [] then []
    else
      var n := |messages| - 1;
      Observations(messages[..n]) + AsSeq(ObservationAt(n, messages[n]))
  }

  method ExtractObservations(summary: Json) returns (result: seq<Observation>)
    ensures result == Observations(MessagesOf(summary))
  {
    hide ObservationAt;
    result := [];
    var messages := Get(summary, "messages");
    if Get(summary, "parse_status") != Text("parsed") || !messages.List? {
      return;
    }
    var index := 0;
    while index < |messages.items| && index < MAX_MESSAGES
      invariant index <= |MessagesOf(summary)| && index <= MAX_MESSAGES
      invariant result == Observations(MessagesOf(summary)[..index])
    {
      var o := ObservationAt(index, messages.items[index]);
      assert MessagesOf(summary)[..index + 1][..index] == MessagesOf(summary)[..index];
      if o.Some? {
        result := result + [o.value];
      }
      index := index + 1;
    }
    assert MessagesOf(summary)[..index] == MessagesOf(summary);
  }

  /** The message of this index shows this observation. */
  ghost predicate ObservedIn(messages: seq<Json>, x: Observation) {
    x.messageIndex < |messages| && ObservationAt(x.messageIndex, messages[x.messageIndex]) == Some(x)
  }

  lemma {:induction false} ObservationsAscend(messages: seq<Json>)
    ensures forall j :: 0 <= j < |Observations(messages)| ==> Observations(messages)[j].messageIndex < |messages|
    ensures forall j, k :: 0 <= j < k < |Observations(messages)| ==>
      Observations(messages)[j].messageIndex < Observations(messages)[k].messageIndex
  {
    if messages != [] {
      hide ObservationAt;
      ObservationsAscend(messages[..|messages| - 1]);
    }
  }

  /** Exactly the messages that show something are observed, each once and in order. */
  lemma {:induction false} ObservationsAreThese(messages: seq<Json>)
    ensures forall x :: x in Observations(messages) <==> ObservedIn(messages, x)
    ensures forall j, k :: 0 <= j < k < |Observations(messages)| ==>
      Observations(messages)[j].messageIndex < Observations(messages)[k].messageIndex
  {
    ObservationsAscend(messages);
    if messages != [] {
      hide ObservationAt;
      var n := |messages| - 1;
      var rest := messages[..n];
      ObservationsAreThese(rest);
      forall x ensures x in Observations(messages) <==> ObservedIn(messages, x) {
        assert x in Observations(messages) <==> x in Observations(rest) || ObservationAt(n, messages[n]) == Some(x);
        assert ObservedIn(messages, x) <==> ObservedIn(rest, x) || ObservationAt(n, messages[n]) == Some(x);
      }
    }
  }

  // ----- calls to be located -----

  datatype RealmCall = RealmCall(
    path: string, messageIndex: nat, caller: Option<string>, function_: Option<string>,
    argsCount: Option<int>, send: Option<string>)

  predicate TextUpTo(j: Json, maximum: nat) { j.Null? || (j.Text? && 1 <= |j.text| <= maximum) }

  function TextOption(j: Json): Option<string> { if j.Text? then Some(j.text) else None }

  predicate WellFormedCall(message: Json) {
    var args := Get(message, "args_count");
    var sender := Get(message, "sender");
    && (sender.Null? || (sender.Text? && IsAddress(sender.text)))
    && TextUpTo(Get(message, "function"), 160)
    && (args.Null? || (args.Int? && 0 <= args.number <= 100_000))
    && TextUpTo(Get(message, "send"), 160)
  }

  function RealmCallAt(index: nat, message: Json): (c: Option<RealmCall>)
    ensures c.Some? ==> c.value.messageIndex == index
  {
    var path := Get(message, "package_path");
    var args := Get(message, "args_count");
    if !message.Object? || Get(message, "type") != Text("gno.vm.MsgCall") then None
    else if !IsCompletePackagePath(message, path) || PathKind(path) != Some(Realm) then None
    else if !WellFormedCall(message) then None
    else Some(RealmCall(path.text, index, TextOption(Get(message, "sender")), TextOption(Get(message, "function")),
                        if args.Int? then Some(args.number) else None, TextOption(Get(message, "send"))))
  }

  function RealmCalls(messages: seq<Json>): seq<RealmCall> {
    if messages == [] then []
    else
      var n := |messages| - 1;
      RealmCalls(messages[..n]) + AsSeq(RealmCallAt(n, messages[n]))
  }

  method ExtractRealmCalls(summary: Json) returns (calls: seq<RealmCall>)
    ensures calls == RealmCalls(MessagesOf(summary))
  {
    hide RealmCallAt;
    calls := [];
    var messages := Get(summary, "messages");
    if Get(summary, "parse_status") != Text("parsed") || !messages.List? {
      return;
    }
    var index := 0;
    while index < |messages.items| && index < MAX_MESSAGES
      invariant index <= |MessagesOf(summary)| && index <= MAX_MESSAGES
      invariant calls == RealmCalls(MessagesOf(summary)[..index])
    {
      var c := RealmCallAt(index, messages.items[index]);
      assert MessagesOf(summary)[..index + 1][..index] == MessagesOf(summary)[..index];
      if c.Some? {
        calls := calls + [c.value];
      }
      index := index + 1;
    }
    assert MessagesOf(summary)[..index] == MessagesOf(summary);
  }

  /** The message of this index is this call. */
  ghost predicate LocatedIn(messages: seq<Json>, x: RealmCall) {
    x.messageIndex < |messages| && RealmCallAt(x.messageIndex, messages[x.messageIndex]) == Some(x)
  }

  lemma {:induction false} RealmCallsAscend(messages: seq<Json>)
    ensures forall j :: 0 <= j < |RealmCalls(messages)| ==> RealmCalls(messages)[j].messageIndex < |messages|
    ensures forall j, k :: 0 <= j < k < |RealmCalls(messages)| ==>
      RealmCalls(messages)[j].messageIndex < RealmCalls(messages)[k].messageIndex
  {
    if messages != [] {
      hide RealmCallAt;
      RealmCallsAscend(messages[..|messages| - 1]);
    }
  }

  /** Exactly the messages that can be located are, each once and in order. */
  lemma {:induction false} RealmCallsAreThese(messages: seq<Json>)
    ensures forall x :: x in RealmCalls(messages) <==> LocatedIn(messages, x)
    ensures forall j, k :: 0 <= j < k < |RealmCalls(messages)| ==>
      RealmCalls(messages)[j].messageIndex < RealmCalls(messages)[k].messageIndex
  {
    RealmCallsAscend(messages);
    if messages != [] {
      hide RealmCallAt;
      var n := |messages| - 1;
      var rest := messages[..n];
      RealmCallsAreThese(rest);
      forall x ensures x in RealmCalls(messages) <==> LocatedIn(messages, x) {
        assert x in RealmCalls(messages) <==> x in RealmCalls(rest) || RealmCallAt(n, messages[n]) == Some(x);
        assert LocatedIn(messages, x) <==> LocatedIn(rest, x) || RealmCallAt(n, messages[n]) == Some(x);
      }
    }
  }

  /** A message is located exactly when the catalog counts it as a call of the same path and its
      call fields are well formed. */
  lemma LocatedIffCounted(index: nat, message: Json, path: string)
    ensures (exists c :: RealmCallAt(index, message) == Some(c) && c.path == path)
      <==> WellFormedCall(message)
           && exists o :: ObservationAt(index, message) == Some(o) && o.path == path && o.observed == Call
  {
    var c, o := RealmCallAt(index, message), ObservationAt(index, message);
    if c.Some? && c.value.path == path {
      assert o.Some? && o == Some(o.value) && o.value.path == path;
    }
    if WellFormedCall(message) && o.Some? && o.value.path == path && o.value.observed == Call {
      assert c == Some(c.value) && c.value.path == path;
    }
  }

  // ----- aggregation -----

  datatype CatalogInput = CatalogInput(txIndex: nat, summary: Json, status: Option<string>)

  datatype PathAggregate = PathAggregate(
    kind: Kind, first: nat, deploy: Option<(nat, Option<string>)>, last: Option<nat>,
    success: nat, failed: nat, unknown: nat)
  {
    function Calls(): nat { success + failed + unknown }
  }

  datatype Event = Event(txIndex: nat, status: Option<string>, observation: Observation)

  function EventsOf(tx: CatalogInput): seq<Event> {
    var os := Observations(MessagesOf(tx.summary));
    seq(|os|, i requires 0 <= i < |os| => Event(tx.txIndex, tx.status, os[i]))
  }

  /** The events of a block in order. */
  function Events(txs: seq<CatalogInput>): seq<Event> {
    if txs == [] then [] else Events(txs[..|txs| - 1]) + EventsOf(txs[|txs| - 1])
  }

  function Min(a: nat, b: nat): nat { if a <= b then a else b }
  function Max(a: nat, b: nat): nat { if a >= b then a else b }

  /** The record of a path after one more event of it. */
  function Observed(before: Option<PathAggregate>, e: Event): PathAggregate {
    var o := e.observation;
    var v := if before.Some? then before.value else PathAggregate(o.kind, e.txIndex, None, None, 0, 0, 0);
    var v1 := v.(first := Min(v.first, e.txIndex));
    if o.observed == Deployment then
      if v1.deploy.None? || e.txIndex < v1.deploy.value.0 then v1.(deploy := Some((e.txIndex, o.sender))) else v1
    else
      var v2 := v1.(last := Some(if v1.last.None? then e.txIndex else Max(v1.last.value, e.txIndex)));
      if e.status == Some("success") then v2.(success := v2.success + 1)
      else if e.status == Some("failed") then v2.(failed := v2.failed + 1)
      else v2.(unknown := v2.unknown + 1)
  }

  /** The record of a path after some events, None when it was not observed. */
  function Aggregate(events: seq<Event>, path: string): Option<PathAggregate> {
    if events == [] then None
    else
      var e := events[|events| - 1];
      var rest := Aggregate(events[..|events| - 1], path);
      if e.observation.path == path then Some(Observed(rest, e)) else rest
  }

  /** A dictionary of records holds the aggregate of every path. */
  ghost predicate Aggregated(values: map<string, PathAggregate>, events: seq<Event>) {
    forall path ::
      && (path in values <==> Aggregate(events, path).Some?)
      && (path in values ==> Aggregate(events, path) == Some(values[path]))
  }

  lemma AggregatedNext(values: map<string, PathAggregate>, events: seq<Event>, e: Event)
    requires Aggregated(values, events)
    ensures var path := e.observation.path;
            Aggregated(values[path := Observed(if path in values then Some(values[path]) else None, e)], events + [e])
  {
    assert (events + [e])[..|events|] == events;
  }

  lemma AggregatedNone()
    ensures Aggregated(map[], Events([]))
  {
  }

  lemma EventsNext(txs: seq<CatalogInput>, i: nat)
    requires i < |txs|
    ensures Events(txs[..i + 1]) == Events(txs[..i]) + EventsOf(txs[i])
  {
    assert txs[..i + 1][..i] == txs[..i];
  }

  /** `aggregate_block`, whose result is keyed by path here instead of sorted by it. */
  method AggregateBlock(txs: seq<CatalogInput>) returns (values: map<string, PathAggregate>)
    ensures Aggregated(values, Events(txs))
  {
    hide Aggregated, Observed, Events, Observations;
    values := map[];
    AggregatedNone();
    for i := 0 to |txs|
      invariant Aggregated(values, Events(txs[..i]))
    {
      var tx := txs[i];
      ghost var before := Events(txs[..i]);
      assert before + EventsOf(tx)[..0] == before;
      var observations := ExtractObservations(tx.summary);
      for j := 0 to |observations|
        invariant Aggregated(values, before + EventsOf(tx)[..j])
      {
        var o := observations[j];
        var e := Event(tx.txIndex, tx.status, o);
        AggregatedNext(values, before + EventsOf(tx)[..j], e);
        assert before + EventsOf(tx)[..j] + [e] == before + EventsOf(tx)[..j + 1];
        values := values[o.path := Observed(if o.path in values then Some(values[o.path]) else None, e)];
      }
      assert EventsOf(tx)[..|observations|] == EventsOf(tx);
      EventsNext(txs, i);
    }
    assert txs[..|txs|] == txs;
  }

  // ----- what an aggregate means -----

  predicate Deploys(e: Event, path: string) { e.observation.path == path && e.observation.observed == Deployment }
  predicate Calls(e: Event, path: string) { e.observation.path == path && e.observation.observed == Call }

  datatype CallOutcome = Success | Failed | UnknownResult

  function OutcomeOf(status: Option<string>): CallOutcome {
    if status == Some("success") then Success else if status == Some("failed") then Failed else UnknownResult
  }

  /** How many calls of the path had this outcome. */
  function CountCalls(events: seq<Event>, path: string, outcome: CallOutcome): nat {
    if events == [] then 0
    else
      var e := events[|events| - 1];
      CountCalls(events[..|events| - 1], path, outcome)
        + (if Calls(e, path) && OutcomeOf(e.status) == outcome then 1 else 0)
  }

  ghost predicate FirstIs(events: seq<Event>, path: string, first: nat) {
    && (exists i :: 0 <= i < |events| && events[i].observation.path == path && events[i].txIndex == first)
    && (forall i :: 0 <= i < |events| && events[i].observation.path == path ==> first <= events[i].txIndex)
  }

  /** The event at `i` is the deployment with the least transaction index, and the first such one. */
  ghost predicate DeployAt(events: seq<Event>, path: string, i: nat, deploy: (nat, Option<string>)) {
    && i < |events| && Deploys(events[i], path) && deploy == (events[i].txIndex, events[i].observation.sender)
    && (forall j :: 0 <= j < |events| && Deploys(events[j], path) ==> events[i].txIndex <= events[j].txIndex)
    && (forall j :: 0 <= j < i && Deploys(events[j], path) ==> events[i].txIndex < events[j].txIndex)
  }

  ghost predicate DeployIs(events: seq<Event>, path: string, deploy: Option<(nat, Option<string>)>) {
    if deploy.None? then forall i :: 0 <= i < |events| ==> !Deploys(events[i], path)
    else exists i: nat :: DeployAt(events, path, i, deploy.value)
  }

  ghost predicate LastIs(events: seq<Event>, path: string, last: Option<nat>) {
    if last.None? then forall i :: 0 <= i < |events| ==> !Calls(events[i], path)
    else
      && (exists i :: 0 <= i < |events| && Calls(events[i], path) && events[i].txIndex == last.value)
      && (forall i :: 0 <= i < |events| && Calls(events[i], path) ==> events[i].txIndex <= last.value)
  }

  /** An aggregate is the least index, the first deployment, the last call and the number of
      calls of each outcome. */
  ghost predicate Describes(a: PathAggregate, events: seq<Event>, path: string) {
    && FirstIs(events, path, a.first) && DeployIs(events, path, a.deploy) && LastIs(events, path, a.last)
    && a.success == CountCalls(events, path, Success)
    && a.failed == CountCalls(events, path, Failed)
    && a.unknown == CountCalls(events, path, UnknownResult)
  }

  lemma {:induction false} FirstMeans(events: seq<Event>, path: string)
    ensures Aggregate(events, path).None? <==> forall i :: 0 <= i < |events| ==> events[i].observation.path != path
    ensures Aggregate(events, path).Some? ==> FirstIs(events, path, Aggregate(events, path).value.first)
  {
    if events != [] {
      var n := |events| - 1;
      FirstMeans(events[..n], path);
    }
  }

  lemma DeployNext(events: seq<Event>, e: Event, path: string, d: Option<(nat, Option<string>)>)
    requires DeployIs(events, path, d) && Deploys(e, path)
    ensures DeployIs(events + [e], path,
              if d.None? || e.txIndex < d.value.0 then Some((e.txIndex, e.observation.sender)) else d)
  {
    var more := events + [e];
    if d.None? || e.txIndex < d.value.0 {
      assert DeployAt(more, path, |events|, (e.txIndex, e.observation.sender));
    } else {
      var i: nat :| DeployAt(events, path, i, d.value);
      assert DeployAt(more, path, i, d.value);
    }
  }

  lemma DeploySame(events: seq<Event>, e: Event, path: string, d: Option<(nat, Option<string>)>)
    requires DeployIs(events, path, d) && !Deploys(e, path)
    ensures DeployIs(events + [e], path, d)
  {
    if d.Some? {
      var i: nat :| DeployAt(events, path, i, d.value);
      assert DeployAt(events + [e], path, i, d.value);
    }
  }

  lemma {:induction false} DeployMeans(events: seq<Event>, path: string)
    ensures var a := Aggregate(events, path); DeployIs(events, path, if a.Some? then a.value.deploy else None)
  {
    if events != [] {
      hide DeployIs;
      var rest, e := events[..|events| - 1], events[|events| - 1];
      assert events == rest + [e];
      DeployMeans(rest, path);
      var a := Aggregate(rest, path);
      var d := if a.Some? then a.value.deploy else None;
      if Deploys(e, path) { DeployNext(rest, e, path, d); } else { DeploySame(rest, e, path, d); }
    }
  }

  lemma {:induction false} LastMeans(events: seq<Event>, path: string)
    ensures Aggregate(events, path).Some? ==> LastIs(events, path, Aggregate(events, path).value.last)
    ensures Aggregate(events, path).None? ==> LastIs(events, path, None)
  {
    if events != [] {
      var n := |events| - 1;
      LastMeans(events[..n], path);
    }
  }

  lemma {:induction false} CountsMean(events: seq<Event>, path: string)
    ensures var a := Aggregate(events, path);
            && CountCalls(events, path, Success) == (if a.Some? then a.value.success else 0)
            && CountCalls(events, path, Failed) == (if a.Some? then a.value.failed else 0)
            && CountCalls(events, path, UnknownResult) == (if a.Some? then a.value.unknown else 0)
  {
    if events != [] {
      CountsMean(events[..|events| - 1], path);
    }
  }

  /** The aggregate of a block says what happened to a path in it, and there is none exactly when
      nothing did. */
  lemma AggregateMeans(events: seq<Event>, path: string)
    ensures Aggregate(events, path).None? <==> forall i :: 0 <= i < |events| ==> events[i].observation.path != path
    ensures Aggregate(events, path).Some? ==> Describes(Aggregate(events, path).value, events, path)
  {
    hide Aggregate, FirstIs, DeployIs, LastIs, CountCalls;
    FirstMeans(events, path);
    DeployMeans(events, path);
    LastMeans(events, path);
    CountsMean(events, path);
  }

  /** Every event is of a canonical path, with the kind of that path. */
  ghost predicate KindsFit(events: seq<Event>) {
    forall i :: 0 <= i < |events| ==> PathKind(Text(events[i].observation.path)) == Some(events[i].observation.kind)
  }

  lemma KindsOf(tx: CatalogInput)
    ensures KindsFit(EventsOf(tx))
  {
    hide PathKind;
    var messages := MessagesOf(tx.summary);
    ObservationsAreThese(messages);
    forall i | 0 <= i < |EventsOf(tx)|
      ensures PathKind(Text(EventsOf(tx)[i].observation.path)) == Some(EventsOf(tx)[i].observation.kind)
    {
      var o := Observations(messages)[i];
      assert o in Observations(messages);
      assert ObservationAt(o.messageIndex, messages[o.messageIndex]) == Some(o);
    }
  }

  lemma {:induction false} EventKinds(txs: seq<CatalogInput>)
    ensures KindsFit(Events(txs))
  {
    if txs != [] {
      hide PathKind, EventsOf;
      EventKinds(txs[..|txs| - 1]);
      KindsOf(txs[|txs| - 1]);
    }
  }

  /** An aggregate has the kind of its path. */
  lemma {:induction false} AggregateKind(events: seq<Event>, path: string)
    requires KindsFit(events)
    ensures Aggregate(events, path).Some? ==> PathKind(Text(path)) == Some(Aggregate(events, path).value.kind)
  {
    if events != [] {
      hide PathKind;
      AggregateKind(events[..|events| - 1], path);
    }
  }
}
