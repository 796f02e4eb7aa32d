/** The bytes that a metadata fingerprint is computed from: sorted, length-prefixed names and contents. */
module MetadataFingerprint {
  import opened Wrappers

  type Bytes = seq<Byte>

  /** A file by the exact UTF-8 bytes of its name and content. */
  datatype File = File(name: Bytes, content: Bytes)

  // ----- eight-byte lengths -----

  const LENGTH_BYTES: nat := 8
  const LENGTH_LIMIT: nat := 0x1_0000_0000_0000_0000

  function Pow256(k: nat): nat { if k == 0 then 1 else 256 * Pow256(k - 1) }

  /** `n.to_bytes(k, "big")` for a number that fits. */
  function BigEndian(n: nat, k: nat): (bytes: Bytes)
    ensures |bytes| == k
  {
    if k == 0 then [] else BigEndian(n / 256, k - 1) + [(n % 256) as Byte]
  }

  function FromBigEndian(bytes: Bytes): nat {
    if bytes == [] then 0 else FromBigEndian(bytes[..|bytes| - 1]) * 256 + bytes[|bytes| - 1] as nat
  }

  lemma {:induction false} LengthRoundTrip(n: nat, k: nat)
    requires n < Pow256(k)
    ensures FromBigEndian(BigEndian(n, k)) == n
  {
    if k > 0 {
      LengthRoundTrip(n / 256, k - 1);
      var bytes := BigEndian(n, k);
      assert bytes[..|bytes| - 1] == BigEndian(n / 256, k - 1);
    }
  }

  /** The last byte is the lowest, and a length takes eight bytes. */
  lemma BigEndianIs(n: nat, k: nat)
    ensures BigEndian(n, k + 1)[..k] == BigEndian(n / 256, k) && BigEndian(n, k + 1)[k] as int == n % 256
    ensures LENGTH_BYTES == 8 && LENGTH_LIMIT == 18_446_744_073_709_551_616
  {
  }

  lemma LengthsFit()
    ensures Pow256(LENGTH_BYTES) == LENGTH_LIMIT
  {
    assert Pow256(4) == 0x1_0000_0000;
    assert Pow256(6) == 0x1_0000_0000_0000;
  }

  // ----- order -----

  /** The order of Python's `bytes`. */
  predicate BytesBefore(a: Bytes, b: Bytes) {
    if a == [] then true
    else if b == [] then false
    else a[0] < b[0] || (a[0] == b[0] && BytesBefore(a[1..], b[1..]))
  }

  predicate Before(f: File, g: File) {
    if f.name == g.name then BytesBefore(f.content, g.content) else BytesBefore(f.name, g.name)
  }

  lemma {:induction false} BytesTotal(a: Bytes, b: Bytes)
    ensures BytesBefore(a, b) || BytesBefore(b, a)
    ensures BytesBefore(a, b) && BytesBefore(b, a) ==> a == b
  {
    if a != [] && b != [] {
      BytesTotal(a[1..], b[1..]);
      assert a == [a[0]] + a[1..] && b == [b[0]] + b[1..];
    }
  }

  lemma {:induction false} BytesTransitive(a: Bytes, b: Bytes, c: Bytes)
    requires BytesBefore(a, b) && BytesBefore(b, c)
    ensures BytesBefore(a, c)
  {
    if a != [] && a[0] == b[0] && b[0] == c[0] {
      BytesTransitive(a[1..], b[1..], c[1..]);
    }
  }

  /** The first difference decides, and a proper beginning comes first. */
  lemma {:induction false} BytesBeforeIs(a: Bytes, b: Bytes, i: nat)
    requires i <= |a| && i <= |b| && a[..i] == b[..i]
    ensures i == |a| ==> BytesBefore(a, b)
    ensures i == |b| && i < |a| ==> !BytesBefore(a, b)
    ensures i < |a| && i < |b| && a[i] < b[i] ==> BytesBefore(a, b)
    ensures i < |a| && i < |b| && a[i] > b[i] ==> !BytesBefore(a, b)
  {
    if i > 0 {
      assert a[0] == a[..i][0] && b[0] == b[..i][0];
      assert a[1..][..i - 1] == a[..i][1..] && b[1..][..i - 1] == b[..i][1..];
      BytesBeforeIs(a[1..], b[1..], i - 1);
    }
  }

  lemma BeforeTotal(f: File, g: File)
    ensures Before(f, g) || Before(g, f)
    ensures Before(f, g) && Before(g, f) ==> f == g
  {
    BytesTotal(f.name, g.name);
    BytesTotal(f.content, g.content);
  }

  lemma BeforeTransitive(f: File, g: File, h: File)
    requires Before(f, g) && Before(g, h)
    ensures Before(f, h)
  {
    if f.name == g.name && g.name == h.name {
      BytesTransitive(f.content, g.content, h.content);
    } else {
      BytesTotal(f.name, g.name);
      BytesTotal(g.name, h.name);
      BytesTransitive(f.name, g.name, h.name);
    }
  }

  // ----- sorting -----

  ghost predicate Sorted(files: seq<File>) {
    forall i, j :: 0 <= i < j < |files| ==> Before(files[i], files[j])
  }

  function Insert(f: File, sorted: seq<File>): seq<File> {
    if sorted == [] || Before(f, sorted[0]) then [f] + sorted else [sorted[0]] + Insert(f, sorted[1..])
  }

  /** `sorted`. */
  function SortFiles(files: seq<File>): seq<File> {
    if files == [] then [] else Insert(files[0], SortFiles(files[1..]))
  }

  lemma {:induction false} InsertAdds(f: File, sorted: seq<File>)
    ensures multiset(Insert(f, sorted)) == multiset(sorted) + multiset{f}
    ensures forall g :: g in Insert(f, sorted) ==> g == f || g in sorted
  {
    if sorted != [] && !Before(f, sorted[0]) {
      InsertAdds(f, sorted[1..]);
      assert sorted == [sorted[0]] + sorted[1..];
    }
  }

  lemma SortedCons(f: File, rest: seq<File>)
    requires Sorted(rest) && forall g :: g in rest ==> Before(f, g)
    ensures Sorted([f] + rest)
  {
  }

  lemma {:induction false} InsertSorts(f: File, sorted: seq<File>)
    requires Sorted(sorted)
    ensures Sorted(Insert(f, sorted))
  {
    if sorted == [] {
    } else if Before(f, sorted[0]) {
      forall g | g in sorted ensures Before(f, g) {
        if g != sorted[0] { BeforeTransitive(f, sorted[0], g); }
      }
      SortedCons(f, sorted);
    } else {
      var rest := sorted[1..];
      BeforeTotal(f, sorted[0]);
      InsertSorts(f, rest);
      InsertAdds(f, rest);
      SortedCons(sorted[0], Insert(f, rest));
    }
  }

  lemma {:induction false} SortSorts(files: seq<File>)
    ensures Sorted(SortFiles(files)) && multiset(SortFiles(files)) == multiset(files)
  {
    if files != [] {
      SortSorts(files[1..]);
      InsertSorts(files[0], SortFiles(files[1..]));
      InsertAdds(files[0], SortFiles(files[1..]));
      assert files == [files[0]] + files[1..];
    }
  }

  lemma Tail(a: seq<File>)
    requires a != [] && Sorted(a)
    ensures multiset(a[1..]) == multiset(a) - multiset{a[0]} && Sorted(a[1..]) && a == [a[0]] + a[1..]
  {
    assert a == [a[0]] + a[1..];
  }

  lemma SameFirst(a: seq<File>, b: seq<File>)
    requires Sorted(a) && Sorted(b) && a != [] && b != [] && a[0] in b && b[0] in a
    ensures a[0] == b[0]
  {
    FirstBefore(a, b[0]);
    FirstBefore(b, a[0]);
    BeforeTotal(a[0], b[0]);
  }

  /** There is only one sorted sequence of the same files. */
  lemma {:induction false} SortedUnique(a: seq<File>, b: seq<File>)
    requires Sorted(a) && Sorted(b) && multiset(a) == multiset(b)
    ensures a == b
  {
    hide Sorted;
    assert |a| == |multiset(a)| && |b| == |multiset(b)|;
    if a != [] {
      assert a[0] in multiset(b) && b[0] in multiset(a);
      SameFirst(a, b);
      Tail(a);
      Tail(b);
      SortedUnique(a[1..], b[1..]);
    }
  }

  lemma FirstBefore(a: seq<File>, f: File)
    requires Sorted(a) && f in a
    ensures f == a[0] || Before(a[0], f)
  {
  }

  // ----- encoding -----

  predicate Encodable(files: seq<File>) {
    forall i :: 0 <= i < |files| ==> |files[i].name| < LENGTH_LIMIT && |files[i].content| < LENGTH_LIMIT
  }

  function Prefixed(bytes: Bytes): Bytes { BigEndian(|bytes|, LENGTH_BYTES) + bytes }

  function Concatenated(files: seq<File>): Bytes {
    if files == [] then [] else Prefixed(files[0].name) + Prefixed(files[0].content) + Concatenated(files[1..])
  }

  /** What the digest is fed, in any number of updates. */
  function Preimage(files: seq<File>): Bytes { Concatenated(SortFiles(files)) }

  lemma {:induction false} ConcatenatedSnoc(files: seq<File>, f: File)
    ensures Concatenated(files + [f]) == Concatenated(files) + Prefixed(f.name) + Prefixed(f.content)
  {
    hide Prefixed;
    if files == [] {
      assert [f][1..] == [];
    } else {
      assert (files + [f])[1..] == files[1..] + [f];
      ConcatenatedSnoc(files[1..], f);
    }
  }

  /** Feeding one more file to the digest. */
  lemma FedNext(sorted: seq<File>, i: nat, digest: Bytes)
    requires i < |sorted| && digest == Concatenated(sorted[..i])
    ensures var f := sorted[i];
            digest + BigEndian(|f.name|, LENGTH_BYTES) + f.name + BigEndian(|f.content|, LENGTH_BYTES) + f.content
            == Concatenated(sorted[..i + 1])
  {
    hide Concatenated, BigEndian;
    assert sorted[..i + 1] == sorted[..i] + [sorted[i]];
    ConcatenatedSnoc(sorted[..i], sorted[i]);
  }

  /** The loop of `metadata_fingerprint`; None for the exception of a length that does not fit. */
  method Feed(sorted: seq<File>) returns (fed: Option<Bytes>)
    ensures fed.Some? <==> Encodable(sorted)
    ensures fed.Some? ==> fed.value == Concatenated(sorted)
  {
    var digest: Bytes := [];
    assert sorted[..0] == [] && Concatenated([]) == [];
    hide BigEndian, Concatenated;
    for i := 0 to |sorted|
      invariant digest == Concatenated(sorted[..i])
      invariant forall j :: 0 <= j < i ==> |sorted[j].name| < LENGTH_LIMIT && |sorted[j].content| < LENGTH_LIMIT
    {
      var file := sorted[i];
      if |file.name| >= LENGTH_LIMIT || |file.content| >= LENGTH_LIMIT {
        return None;
      }
      FedNext(sorted, i, digest);
      digest := digest + BigEndian(|file.name|, LENGTH_BYTES) + file.name;
      digest := digest + BigEndian(|file.content|, LENGTH_BYTES) + file.content;
    }
    assert sorted[..|sorted|] == sorted;
    return Some(digest);
  }

  /** `metadata_fingerprint` up to the digest. */
  method FingerprintInput(files: seq<File>) returns (fed: Option<Bytes>)
    ensures fed.Some? <==> Encodable(files)
    ensures fed.Some? ==> fed.value == Preimage(files)
  {
    hide Concatenated, SortFiles, Sorted, Encodable;
    var sorted := SortFiles(files);
    SortSorts(files);
    SameMembers(sorted, files);
    fed := Feed(sorted);
  }

  lemma SameMembers(a: seq<File>, b: seq<File>)
    requires multiset(a) == multiset(b)
    ensures Encodable(a) <==> Encodable(b)
  {
    assert forall f :: f in a <==> f in multiset(a);
    assert forall f :: f in b <==> f in multiset(b);
    assert Encodable(a) <==> forall f :: f in a ==> |f.name| < LENGTH_LIMIT && |f.content| < LENGTH_LIMIT;
    assert Encodable(b) <==> forall f :: f in b ==> |f.name| < LENGTH_LIMIT && |f.content| < LENGTH_LIMIT;
  }

  // ----- decoding -----

  /** One length-prefixed string from the front, and the rest. */
  function Unprefixed(bytes: Bytes): (r: Option<(Bytes, Bytes)>)
    ensures r.Some? ==> |r.value.1| < |bytes|
  {
    if |bytes| < LENGTH_BYTES then None
    else
      var n := FromBigEndian(bytes[..LENGTH_BYTES]);
      if |bytes| < LENGTH_BYTES + n then None
      else Some((bytes[LENGTH_BYTES..LENGTH_BYTES + n], bytes[LENGTH_BYTES + n..]))
  }

  function Decode(bytes: Bytes): Option<seq<File>>
    decreases |bytes|
  {
    if bytes == [] then Some([])
    else
      var name := Unprefixed(bytes);
      if name.None? then None
      else
        var content := Unprefixed(name.value.1);
        if content.None? then None
        else
          var rest := Decode(content.value.1);
          if rest.None? then None else Some([File(name.value.0, content.value.0)] + rest.value)
  }

  lemma UnprefixedPrefixed(bytes: Bytes, rest: Bytes)
    requires |bytes| < LENGTH_LIMIT
    ensures Unprefixed(Prefixed(bytes) + rest) == Some((bytes, rest))
  {
    LengthsFit();
    LengthRoundTrip(|bytes|, LENGTH_BYTES);
    hide BigEndian, FromBigEndian, Pow256;
    var s := Prefixed(bytes) + rest;
    assert s[..LENGTH_BYTES] == BigEndian(|bytes|, LENGTH_BYTES);
    assert s[LENGTH_BYTES..LENGTH_BYTES + |bytes|] == bytes;
    assert s[LENGTH_BYTES + |bytes|..] == rest;
  }

  lemma {:induction false} DecodeConcatenated(files: seq<File>)
    requires Encodable(files)
    ensures Decode(Concatenated(files)) == Some(files)
  {
    if files != [] {
      hide Unprefixed, Prefixed;
      var f, rest := files[0], files[1..];
      DecodeConcatenated(rest);
      assert Concatenated(files) == Prefixed(f.name) + (Prefixed(f.content) + Concatenated(rest));
      UnprefixedPrefixed(f.name, Prefixed(f.content) + Concatenated(rest));
      UnprefixedPrefixed(f.content, Concatenated(rest));
      assert files == [f] + rest;
    }
  }

  /** The bytes determine the files up to their order, and do not depend on it: two collections are
      fed as the same bytes exactly when they hold the same names and contents equally often. */
  lemma SameBytesIffSameFiles(a: seq<File>, b: seq<File>)
    requires Encodable(a) && Encodable(b)
    ensures Preimage(a) == Preimage(b) <==> multiset(a) == multiset(b)
  {
    SortSorts(a);
    SortSorts(b);
    SameMembers(a, SortFiles(a));
    SameMembers(b, SortFiles(b));
    DecodeConcatenated(SortFiles(a));
    DecodeConcatenated(SortFiles(b));
    if multiset(a) == multiset(b) {
      SortedUnique(SortFiles(a), SortFiles(b));
    }
  }
}
