/** What the realm index and catalog take from which field of a stored summary, and when a height is
    written, stated on the fields themselves. */
module HeightFields {
  import opened Wrappers
  import opened Address
  import opened RealmCatalog
  import opened HeightWriter
  import opened Database
  import opened HeightInvariants

  // ----- fields -----

  /** The object has this value in the field. */
  predicate Has(j: Json, key: string, value: Json) { j.Object? && key in j.fields && j.fields[key] == value }

  /** The object has no such field, or null in it. */
  predicate Lacks(j: Json, key: string) { j.Object? && (key in j.fields ==> j.fields[key] == Null) }

  /** A message of a parsed summary, among the first twenty. */
  predicate MessageIs(summary: Json, m: nat, message: Json) {
    && Has(summary, "parse_status", Text("parsed"))
    && "messages" in summary.fields && summary.fields["messages"].List?
    && m < |summary.fields["messages"].items| && m < 20 && summary.fields["messages"].items[m] == message
  }

  lemma MessagesAre(summary: Json, m: nat, message: Json)
    ensures MessageIs(summary, m, message) <==> m < |MessagesOf(summary)| && MessagesOf(summary)[m] == message
  {
  }

  /** A path of at most 256 characters: the prefix and non-empty segments of visible characters other
      than the question mark and the number sign. */
  predicate PathOf(prefix: string, path: string) {
    && 11 < |path| <= 256 && path[..11] == prefix
    && path[11] != '/' && path[|path| - 1] != '/'
    && forall i :: 11 <= i < |path| ==>
         && 33 <= path[i] as int <= 126 && path[i] != '?' && path[i] != '#'
         && !(i > 11 && path[i] == '/' && path[i - 1] == '/')
  }

  lemma PathKindIs(path: string)
    ensures PathKind(Text(path)) == Some(Realm) <==> PathOf("gno.land/r/", path)
    ensures PathKind(Text(path)) == Some(Package) <==> PathOf("gno.land/p/", path)
  {
    if 11 <= |path| {
      SegmentsAre(path);
      assert "gno.land/r/" != "gno.land/p/" by { assert "gno.land/r/"[9] != "gno.land/p/"[9]; }
    }
  }

  lemma SegmentsAre(path: string)
    requires 11 <= |path|
    ensures Segments(path[11..]) <==>
      && 11 < |path| && path[11] != '/' && path[|path| - 1] != '/'
      && forall i :: 11 <= i < |path| ==>
           && 33 <= path[i] as int <= 126 && path[i] != '?' && path[i] != '#'
           && !(i > 11 && path[i] == '/' && path[i - 1] == '/')
  {
    var rest := path[11..];
    if Segments(rest) {
      forall i | 11 <= i < |path|
        ensures 33 <= path[i] as int <= 126 && path[i] != '?' && path[i] != '#'
        ensures !(i > 11 && path[i] == '/' && path[i - 1] == '/')
      {
        assert rest[i - 11] == path[i];
        if i > 11 { assert rest[i - 12] == path[i - 1]; }
      }
    } else if 11 < |path| {
      assert forall i :: 0 <= i < |rest| ==> rest[i] == path[i + 11];
    }
  }

  /** The path of the message is stored whole: it is marked so, or it is not marked and shorter than the limit
      of older summaries. */
  predicate WholePath(message: Json, path: string) {
    && Has(message, "package_path", Text(path))
    && (Has(message, "package_path_complete", Bool(true)) || (Lacks(message, "package_path_complete") && |path| < 160))
  }

  // ----- located calls -----

  /** A text of 1 to 160 characters, or nothing. */
  predicate FieldIs(message: Json, key: string, value: Option<string>) {
    match value
    case None => Lacks(message, key)
    case Some(text) => Has(message, key, Text(text))
  }

  predicate ArgsAre(message: Json, count: Option<int>) {
    match count
    case None => Lacks(message, "args_count")
    case Some(n) => Has(message, "args_count", Int(n)) && 0 <= n <= 100_000
  }

  /** The message is a call of a realm, and the record holds the values of its fields. */
  predicate CallIs(message: Json, c: RealmCall) {
    && Has(message, "type", Text("gno.vm.MsgCall"))
    && WholePath(message, c.path) && PathOf("gno.land/r/", c.path)
    && FieldIs(message, "sender", c.caller) && (c.caller.Some? ==> IsAddress(c.caller.value))
    && FieldIs(message, "function", c.function_) && (c.function_.Some? ==> 1 <= |c.function_.value| <= 160)
    && ArgsAre(message, c.argsCount)
    && FieldIs(message, "send", c.send) && (c.send.Some? ==> 1 <= |c.send.value| <= 160)
  }

  /** A record is located at a message exactly if it is of that message and holds its fields. */
  lemma LocatedIs(index: nat, message: Json, c: RealmCall)
    ensures RealmCallAt(index, message) == Some(c) <==> c.messageIndex == index && CallIs(message, c)
  {
    hide PathOf, CallIs, RealmCallAt;
    var found := RealmCallAt(index, message);
    if found.Some? {
      LocatedHolds(index, message, found.value);
      if CallIs(message, c) { SameCall(message, c, found.value); }
    }
    if c.messageIndex == index && CallIs(message, c) {
      HeldIsLocated(index, message, c);
    }
  }

  lemma LocatedHolds(index: nat, message: Json, c: RealmCall)
    requires RealmCallAt(index, message) == Some(c)
    ensures c.messageIndex == index && CallIs(message, c)
  {
    PathKindIs(c.path);
    hide PathKind, PathOf, IsAddress;
  }

  lemma HeldIsLocated(index: nat, message: Json, c: RealmCall)
    requires CallIs(message, c) && c.messageIndex == index
    ensures RealmCallAt(index, message).Some?
  {
    PathKindIs(c.path);
    hide PathKind, PathOf, IsAddress;
  }

  /** A message has one record. */
  lemma SameCall(message: Json, a: RealmCall, b: RealmCall)
    requires CallIs(message, a) && CallIs(message, b)
    ensures a.(messageIndex := b.messageIndex) == b
  {
    hide PathOf, IsAddress;
  }

  /** After any attempts from an empty database, a row of the call index at a height, transaction and message
      is exactly the record of the stored message there: its path, caller, function, number of arguments and
      send amount are the values of the message's fields, and a row is there whenever such a record exists. */
  lemma IndexHoldsFields(attempts: seq<Attempt>, height: int, i: nat, m: nat, c: RealmCall)
    ensures var t := Run(Empty(), attempts);
            (height, i, m) in t.calls && t.calls[(height, i, m)] == c <==>
              && height in t.txs && i < |t.txs[height]| && c.messageIndex == m
              && exists message :: MessageIs(t.txs[height][i].summary, m, message) && CallIs(message, c)
  {
    CallIndexFollowsSummaries(attempts, height, i, m);
    var t := Run(Empty(), attempts);
    hide Run, CallIs, MessageIs;
    if height in t.txs && i < |t.txs[height]| {
      CallAtIs(t.txs[height], i, m, c);
    }
    hide CallAt;
  }

  lemma CallAtIs(txs: seq<Transaction>, i: nat, m: nat, c: RealmCall)
    requires i < |txs|
    ensures CallAt(txs, i, m) == Some(c) <==>
      c.messageIndex == m && exists message :: MessageIs(txs[i].summary, m, message) && CallIs(message, c)
  {
    var messages := MessagesOf(txs[i].summary);
    if m < |messages| {
      MessagesAre(txs[i].summary, m, messages[m]);
      LocatedIs(m, messages[m], c);
    }
    hide RealmCallAt, CallIs, MessageIs, MessagesOf;
    if message :| MessageIs(txs[i].summary, m, message) && CallIs(message, c) {
      MessagesAre(txs[i].summary, m, message);
    }
  }

  // ----- observations -----

  /** The sender counts if it is an address. */
  ghost predicate SenderIs(message: Json, sender: Option<string>) {
    match sender
    case Some(a) => Has(message, "sender", Text(a)) && IsAddress(a)
    case None => forall a :: Has(message, "sender", Text(a)) ==> !IsAddress(a)
  }

  /** A deployment shows a realm or a package, a call a realm only. */
  ghost predicate ObservationIs(message: Json, o: Observation) {
    && Has(message, "type", Text(if o.observed == Deployment then "gno.vm.MsgAddPackage" else "gno.vm.MsgCall"))
    && WholePath(message, o.path)
    && PathOf(if o.kind == Realm then "gno.land/r/" else "gno.land/p/", o.path)
    && (o.observed == Call ==> o.kind == Realm)
    && SenderIs(message, o.sender)
  }

  lemma ObservedIs(index: nat, message: Json, o: Observation)
    ensures ObservationAt(index, message) == Some(o) <==> o.messageIndex == index && ObservationIs(message, o)
  {
    PathKindIs(o.path);
    var path := Get(message, "package_path");
    if path.Text? { PathKindIs(path.text); }
    assert "gno.vm.MsgCall" != "gno.vm.MsgAddPackage" by { assert |"gno.vm.MsgCall"| != |"gno.vm.MsgAddPackage"|; }
    SenderOfIs(message, o.sender);
    hide PathKind, PathOf, IsAddress, SenderOf, SenderIs;
  }

  lemma SenderOfIs(message: Json, sender: Option<string>)
    ensures SenderOf(message) == sender <==> SenderIs(message, sender)
  {
    hide IsAddress;
    var j := Get(message, "sender");
    if sender.None? && j.Text? {
      assert Has(message, "sender", Text(j.text));
    }
  }

  /** The inputs of the catalog: each transaction's position, stored summary and result status. */
  lemma InputsAre(txs: seq<Transaction>, i: nat)
    requires i < |txs|
    ensures var x := Inputs(txs);
            && |x| == |txs| && x[i].txIndex == i && x[i].summary == txs[i].summary
            && x[i].status == match txs[i].result case None => None case Some(r) => Some(r.status)
  {
  }

  // ----- writing a height -----

  /** The stored transaction has the incoming raw columns, and no other result if both have one. */
  predicate Compatible(a: Transaction, b: Transaction) {
    && a.raw == b.raw && (a.result.None? || b.result.None? || a.result == b.result)
  }

  /** A height is written exactly if the chain is the same, the height is at most the one after the checkpoint,
      nothing stored differs, no other block has one of its hashes, and coverage is not left with a gap. */
  lemma WriteIff(t: Tables, p: Parsed, chain: string, clean: bool)
    ensures Refusal(t, p, chain, clean).None? <==>
      && p.height >= 1 && (t.state.Some? ==> t.state.value.chain == chain && p.height <= t.state.value.checkpoint + 1)
      && (t.coverage.Some? ==> p.height <= t.coverage.value.1 + 1)
      && clean
      && (p.height in t.blocks ==>
            (t.blocks[p.height].hashBase64, t.blocks[p.height].hashHex) == (p.block.hashBase64, p.block.hashHex))
      && (p.height in t.txs ==>
            && |t.txs[p.height]| == |p.transactions|
            && forall i :: 0 <= i < |p.transactions| ==> Compatible(t.txs[p.height][i], p.transactions[i]))
      && (p.height !in t.blocks ==> forall h :: h in t.blocks && h != p.height ==>
            t.blocks[h].hashHex != p.block.hashHex && t.blocks[h].hashBase64 != p.block.hashBase64)
  {
  }

  predicate SharesHash(a: Block, b: Block) { a.hashHex == b.hashHex || a.hashBase64 == b.hashBase64 }

  /** Why a height is refused, in the order of the checks. */
  lemma RefusalIs(t: Tables, p: Parsed, chain: string, clean: bool)
    ensures var e := Refusal(t, p, chain, clean);
            && (e == Some(ChainIdentity) <==> t.state.Some? && t.state.value.chain != chain)
            && (e == Some(SkippedHeight) <==>
                  t.state.Some? && t.state.value.chain == chain && p.height > t.state.value.checkpoint + 1)
            && (e == Some(InvalidHeight) ==> p.height < 1)
            && (e == Some(CoverageGap) ==> t.coverage.Some? && p.height > t.coverage.value.1 + 1)
            && (e == Some(DuplicateHash) ==>
                p.height !in t.blocks && exists h :: h in t.blocks && SharesHash(t.blocks[h], p.block))
  {
  }

  /** What a write leaves: the block unless the height was stored, the incoming summaries, the raw columns and
      results that were stored or else the incoming ones, and the higher checkpoint with its tip. */
  lemma WrittenIs(t: Tables, p: Parsed, chain: string, tip: int, clean: bool)
    requires Refusal(t, p, chain, clean).None?
    ensures var u := Written(t, p, chain, tip);
            && u.state.Some?
            && (if t.state.Some? && p.height <= t.state.value.checkpoint then u.state == t.state
                else u.state.value.chain == chain && u.state.value.checkpoint == p.height && u.state.value.tip == tip)
            && u.blocks.Keys == t.blocks.Keys + {p.height} && u.txs.Keys == t.txs.Keys + {p.height}
            && (p.height !in t.blocks ==> u.blocks[p.height] == p.block)
            && (forall h :: h in t.blocks ==> u.blocks[h] == t.blocks[h])
            && (forall h :: h in t.txs && h != p.height ==> u.txs[h] == t.txs[h])
            && |u.txs[p.height]| == |p.transactions|
            && forall i :: 0 <= i < |p.transactions| ==>
                 && u.txs[p.height][i].summary == p.transactions[i].summary
                 && u.txs[p.height][i].raw == p.transactions[i].raw
                 && u.txs[p.height][i].result
                    == (if p.height in t.txs && t.txs[p.height][i].result.Some? then t.txs[p.height][i].result
                        else p.transactions[i].result)
  {
    WriteIff(t, p, chain, clean);
    hide Refusal, ReplacedCalls, MergedCatalog;
  }

  // ----- a catalog row -----

  /** The first row of a path holds what its height says: without a call there is neither last activity nor
      counted height. */
  lemma FirstRowIs(height: int, time: int, a: PathAggregate)
    requires a.last.Some? <==> a.success + a.failed + a.unknown > 0
    ensures var r := UpsertedRow(None, height, time, a);
            && r.kind == a.kind && r.firstSeen == height
            && r.deploy == (match a.deploy case Some(d) => Some((height, d.0)) case None => None)
            && r.deployer == (match a.deploy case Some(d) => d.1 case None => None)
            && r.last == (match a.last case Some(i) => Some((height, i)) case None => None)
            && r.lastAt == (if a.last.Some? then Some(time) else None)
            && r.lastCounted == (if a.last.Some? then Some(height) else None)
            && (r.success, r.failed, r.unknown) == (a.success, a.failed, a.unknown)
            && r.calls == a.success + a.failed + a.unknown
  {
  }

  /** A later write of the path keeps the earlier deployment, with its sender, and the later activity, by height
      and then by transaction; the stored one stays if they are the same. The time of the activity follows its
      height. Calls are added only at a height above all counted ones. */
  lemma NextRowIs(r: CatalogRow, height: int, time: int, a: PathAggregate)
    requires height >= 1 && (a.last.Some? <==> a.success + a.failed + a.unknown > 0)
    ensures var u := UpsertedRow(Some(r), height, time, a);
            && u.kind == a.kind
            && u.firstSeen <= height && u.firstSeen <= r.firstSeen
            && (u.firstSeen == height || u.firstSeen == r.firstSeen)
            && (if a.deploy.Some? && (r.deploy.None? || height < r.deploy.value.0
                                      || (height == r.deploy.value.0 && a.deploy.value.0 < r.deploy.value.1))
                then u.deploy == Some((height, a.deploy.value.0)) && u.deployer == a.deploy.value.1
                else u.deploy == r.deploy && (r.deploy.Some? ==> u.deployer == r.deployer))
            && (if a.last.Some? && (r.last.None? || height > r.last.value.0
                                    || (height == r.last.value.0 && a.last.value > r.last.value.1))
                then u.last == Some((height, a.last.value)) else u.last == r.last)
            && (if a.last.Some? && (r.last.None? || height >= r.last.value.0) then u.lastAt == Some(time)
                else u.lastAt == r.lastAt)
            && (if a.last.Some? && (r.lastCounted.None? || height > r.lastCounted.value)
                then && u.lastCounted == Some(height)
                     && (u.success, u.failed, u.unknown)
                        == (r.success + a.success, r.failed + a.failed, r.unknown + a.unknown)
                     && u.calls == r.calls + a.success + a.failed + a.unknown
                else (u.lastCounted, u.calls, u.success, u.failed, u.unknown)
                     == (r.lastCounted, r.calls, r.success, r.failed, r.unknown))
  {
  }
}
