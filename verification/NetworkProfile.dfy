/** The strict account-address validator and what it accepts. */
module NetworkProfile {
  import opened Wrappers
  import opened BitRegrouping
  import opened Bech32Checksum
  import opened Address

  const CHARSET: string := "qpzry9x8gf2tvdw0s3jn54khce6mua7l"

  datatype Profile = Profile(accountHrp: string, accountPayloadLength: nat)

  /** The profile that `gno_profile` builds from the dataclass defaults. */
  const GNO := Profile("g", 20)

  // ----- Python string primitives -----

  /** `str.rfind` of one character. */
  function LastIndex(s: string, c: char): (i: int)
    ensures -1 <= i < |s|
    ensures i >= 0 ==> s[i] == c
    ensures forall j :: i < j < |s| ==> s[j] != c
  {
    if s == "" then -1
    else if s[|s| - 1] == c then |s| - 1
    else LastIndex(s[..|s| - 1], c)
  }

  /** `str.index` of one character, None for the ValueError. */
  function Index(s: string, c: char, start: nat): (i: Option<nat>)
    requires start <= |s|
    ensures i.Some? ==> start <= i.value < |s| && s[i.value] == c && forall j :: start <= j < i.value ==> s[j] != c
    ensures i.None? ==> forall j :: start <= j < |s| ==> s[j] != c
    decreases |s| - start
  {
    if start == |s| then None
    else if s[start] == c then Some(start)
    else Index(s, c, start + 1)
  }

  function Lower(c: char): char {
    if 'A' <= c <= 'Z' then (c as int + 32) as char else c
  }

  predicate Printable(c: char) { 33 <= c as int <= 126 }

  // ----- specification -----

  function HighBits(c: char): Symbol {
    if c as int < 1024 then (c as int / 32) as bv5 else 0
  }

  function ExpandHrp(hrp: string): seq<Symbol>
    requires forall c :: c in hrp ==> Printable(c)
  {
    seq(|hrp|, i requires 0 <= i < |hrp| => HighBits(hrp[i]))
    + [0]
    + seq(|hrp|, i requires 0 <= i < |hrp| => (hrp[i] as int % 32) as bv5)
  }

  predicate InCharset(s: string) {
    forall i :: 0 <= i < |s| ==> s[i] in CHARSET
  }

  /** The position of a charset character. */
  function Code(c: char): (v: nat)
    requires c in CHARSET
    ensures v < 32 && CHARSET[v] == c
  {
    Index(CHARSET, c, 0).value
  }

  function Codes(s: string): (values: seq<int>)
    requires InCharset(s)
    ensures |values| == |s| && forall i :: 0 <= i < |s| ==> 0 <= values[i] < 32 && values[i] == Code(s[i])
  {
    seq(|s|, i requires 0 <= i < |s| => Code(s[i]))
  }

  function Symbols(values: seq<int>): (symbols: seq<Symbol>)
    requires forall i :: 0 <= i < |values| ==> 0 <= values[i] < 32
    ensures |symbols| == |values|
  {
    seq(|values|, i requires 0 <= i < |values| => values[i] as bv5)
  }

  /** What is checked before the data part is read. */
  predicate WellFramed(address: string, hrp: string) {
    var separator := LastIndex(address, '1');
    && 8 <= |address| <= 90
    && (forall c :: c in address ==> Printable(c) && Lower(c) == c)
    && 1 <= separator <= |address| - 7
    && address[..separator] == hrp
  }

  function Data(address: string): string {
    address[LastIndex(address, '1') + 1..]
  }

  /** The payload of a data part: all but the six checksum symbols, regrouped to octets. */
  ghost function PayloadOf(data: string): Option<seq<int>>
    requires InCharset(data) && |data| >= 6
  {
    Regroup(Codes(data)[..|data| - 6], 5, 8, false)
  }

  ghost predicate DataAccepted(data: string, profile: Profile)
    requires forall c :: c in profile.accountHrp ==> Printable(c)
    requires |data| >= 6
  {
    && InCharset(data)
    && Absorb(ONE, ExpandHrp(profile.accountHrp) + Symbols(Codes(data))) == ONE
    && PayloadOf(data).Some? && |PayloadOf(data).value| == profile.accountPayloadLength
  }

  ghost predicate Accepted(address: string, profile: Profile) {
    && WellFramed(address, profile.accountHrp)
    && (forall c :: c in profile.accountHrp ==> Printable(c))
    && DataAccepted(Data(address), profile)
  }

  // ----- the validator -----

  /** The list comprehension over `BECH32_CHARSET.index`, None for its ValueError. */
  method ReadCodes(data: string) returns (values: Option<seq<int>>)
    ensures values.Some? <==> InCharset(data)
    ensures values.Some? ==> values.value == Codes(data)
  {
    var read: seq<int> := [];
    for i := 0 to |data|
      invariant InCharset(data[..i]) && read == Codes(data[..i])
    {
      var index := Index(CHARSET, data[i], 0);
      if index.None? {
        assert data[i] !in CHARSET;
        return None;
      }
      read := read + [index.value];
    }
    assert data[..|data|] == data;
    return Some(read);
  }

  method CheckData(data: string, profile: Profile) returns (ok: bool)
    requires forall c :: c in profile.accountHrp ==> Printable(c)
    requires |data| >= 6
    ensures ok <==> DataAccepted(data, profile)
  {
    var values := ReadCodes(data);
    if values.None? {
      return false;
    }
    var checksum := Polymod(ExpandHrp(profile.accountHrp) + Symbols(values.value));
    SplitOne(checksum);
    if checksum != 1 {
      return false;
    }
    var payload := ConvertBits(values.value[..|values.value| - 6], 5, 8, false);
    return payload.Some? && |payload.value| == profile.accountPayloadLength;
  }

  method ValidateAccountAddress(address: string, profile: Profile) returns (ok: bool)
    ensures ok <==> Accepted(address, profile)
  {
    hide DataAccepted, Printable, Lower, LastIndex;
    if !(8 <= |address| <= 90) || exists c :: c in address && Lower(c) != c {
      return false;
    }
    if exists c :: c in address && !Printable(c) {
      return false;
    }
    var separator := LastIndex(address, '1');
    if separator < 1 || separator + 7 > |address| || address[..separator] != profile.accountHrp {
      return false;
    }
    assert forall c :: c in profile.accountHrp ==> c in address;
    ok := CheckData(address[separator + 1..], profile);
  }

  // ----- accepted addresses under any profile -----

  /** Each character of the prefix is fed as its high and its low five bits. */
  lemma ExpandedPrefix(hrp: string)
    requires forall c :: c in hrp ==> Printable(c)
    ensures var x := ExpandHrp(hrp);
            && |x| == 2 * |hrp| + 1 && x[|hrp|] == 0
            && forall i :: 0 <= i < |hrp| ==> x[i] as int * 32 + x[|hrp| + 1 + i] as int == hrp[i] as int
  {
    var x := ExpandHrp(hrp);
    forall i | 0 <= i < |hrp| ensures x[i] as int * 32 + x[|hrp| + 1 + i] as int == hrp[i] as int {
      assert hrp[i] in hrp;
      BitsOfCharacter(hrp[i]);
    }
  }

  lemma BitsOfCharacter(c: char)
    requires Printable(c)
    ensures HighBits(c) as int * 32 + ((c as int % 32) as bv5) as int == c as int
  {
  }

  /** What follows the prefix and a separator, without the separator's position. */
  ghost predicate DataFits(prefix: string, data: string, profile: Profile) {
    && 1 <= |prefix| && 6 <= |data| && |prefix| + 1 + |data| <= 90 && 8 <= |prefix| + 1 + |data|
    && (forall i :: 0 <= i < |prefix| ==> 33 <= prefix[i] as int <= 126 && !('A' <= prefix[i] <= 'Z'))
    && (forall i :: 0 <= i < |data| ==> data[i] in CHARSET)
    && Absorb(ONE, ExpandHrp(prefix) + Symbols(Codes(data))) == ONE
    && PayloadOf(data).Some? && |PayloadOf(data).value| == profile.accountPayloadLength
  }

  /** An address is accepted exactly if it is the prefix of the profile, a separator and fitting data. */
  lemma AcceptedIffSplit(address: string, profile: Profile)
    ensures Accepted(address, profile)
      <==> exists data :: address == profile.accountHrp + "1" + data && DataFits(profile.accountHrp, data, profile)
  {
    hide Accepted, DataFits;
    if Accepted(address, profile) {
      SplitOnce(address, profile);
    }
    if data :| address == profile.accountHrp + "1" + data && DataFits(profile.accountHrp, data, profile) {
      SplitFits(address, data, profile);
    }
  }

  lemma SplitOnce(address: string, profile: Profile)
    requires Accepted(address, profile)
    ensures DataFits(profile.accountHrp, Data(address), profile)
    ensures address == profile.accountHrp + "1" + Data(address)
  {
    hide Absorb, Codes, Symbols, CHARSET, PayloadOf, ExpandHrp;
    var separator := LastIndex(address, '1');
    assert address == address[..separator] + "1" + Data(address);
    forall i | 0 <= i < |profile.accountHrp|
      ensures 33 <= profile.accountHrp[i] as int <= 126 && !('A' <= profile.accountHrp[i] <= 'Z')
    {
      assert profile.accountHrp[i] == address[i] && address[i] in address;
    }
  }

  lemma PrefixCharacters(prefix: string, data: string, profile: Profile)
    requires DataFits(prefix, data, profile)
    ensures forall c :: c in prefix ==> Printable(c) && Lower(c) == c
  {
    hide Absorb, Codes, Symbols, CHARSET, PayloadOf, ExpandHrp;
    forall c | c in prefix ensures Printable(c) && Lower(c) == c {
      var i :| 0 <= i < |prefix| && prefix[i] == c;
    }
  }

  lemma DataCharacters(data: string)
    requires InCharset(data)
    ensures forall c :: c in data ==> c != '1' && Printable(c) && Lower(c) == c
  {
    forall c | c in data ensures c != '1' && Printable(c) && Lower(c) == c {
      CharsetCharacters(c);
    }
  }

  lemma SplitAtSeparator(prefix: string, data: string)
    requires '1' !in data
    ensures var address := prefix + "1" + data;
            LastIndex(address, '1') == |prefix| && address[..|prefix|] == prefix && Data(address) == data
  {
    var address, n := prefix + "1" + data, |prefix|;
    assert address[n] == '1';
    forall i | n < i < |address| ensures address[i] != '1' {
      assert address[i] == data[i - n - 1];
    }
    assert LastIndex(address, '1') == n;
  }

  lemma SplitFits(address: string, data: string, profile: Profile)
    requires address == profile.accountHrp + "1" + data && DataFits(profile.accountHrp, data, profile)
    ensures Accepted(address, profile)
  {
    hide Absorb, CHARSET, PayloadOf, ExpandHrp, WellFramed, Data;
    PrefixCharacters(profile.accountHrp, data, profile);
    Framed(profile.accountHrp, data, profile);
    DataCharacters(data);
    SplitAtSeparator(profile.accountHrp, data);
  }

  lemma Framed(prefix: string, data: string, profile: Profile)
    requires DataFits(prefix, data, profile)
    ensures WellFramed(prefix + "1" + data, prefix)
  {
    hide Absorb, Codes, Symbols, CHARSET, PayloadOf, ExpandHrp, LastIndex, Data;
    PrefixCharacters(prefix, data, profile);
    assert InCharset(data);
    hide InCharset;
    DataCharacters(data);
    SplitAtSeparator(prefix, data);
    hide Printable, Lower;
    FramedCharacters(prefix, data);
  }

  lemma FramedCharacters(prefix: string, data: string)
    requires forall c :: c in prefix ==> Printable(c) && Lower(c) == c
    requires forall c :: c in data ==> c != '1' && Printable(c) && Lower(c) == c
    ensures forall c :: c in prefix + "1" + data ==> Printable(c) && Lower(c) == c
  {
  }

  // ----- accepted addresses under the default profile -----

  /** The characters of the charset, numbered. */
  function Number(c: char): nat {
    match c
    case 'q' => 0
    case 'p' => 1
    case 'z' => 2
    case 'r' => 3
    case 'y' => 4
    case '9' => 5
    case 'x' => 6
    case '8' => 7
    case 'g' => 8
    case 'f' => 9
    case '2' => 10
    case 't' => 11
    case 'v' => 12
    case 'd' => 13
    case 'w' => 14
    case '0' => 15
    case 's' => 16
    case '3' => 17
    case 'j' => 18
    case 'n' => 19
    case '5' => 20
    case '4' => 21
    case 'k' => 22
    case 'h' => 23
    case 'c' => 24
    case 'e' => 25
    case '6' => 26
    case 'm' => 27
    case 'u' => 28
    case 'a' => 29
    case '7' => 30
    case _ => 31
  }

  lemma CharsetNumbered(v: nat)
    requires v < 32
    ensures CHARSET[v] in CHARSET && Code(CHARSET[v]) == v && CHARSET[v] != '1'
    ensures Printable(CHARSET[v]) && Lower(CHARSET[v]) == CHARSET[v]
  {
    Numbered(v);
    Numbered(Code(CHARSET[v]));
  }

  lemma Numbered(v: nat)
    requires v < 32
    ensures Number(CHARSET[v]) == v && CHARSET[v] != '1'
    ensures Printable(CHARSET[v]) && Lower(CHARSET[v]) == CHARSET[v]
  {
  }

  lemma ExpandGno()
    ensures (forall c :: c in GNO.accountHrp ==> Printable(c)) && ExpandHrp("g") == [3, 0, 7]
  {
    assert HighBits('g') == 3 && ('g' as int % 32) as bv5 == 7;
  }

  /** Thirty-two symbols are exactly the width of twenty octets, and no other number fits. */
  lemma PayloadWidth(codes: seq<int>)
    requires InRange(codes, 5)
    ensures |codes| == 32 ==> Regroup(codes, 5, 8, false).Some?
    ensures Regroup(codes, 5, 8, false).Some? ==>
      (|Regroup(codes, 5, 8, false).value| == 20 <==> |codes| == 32)
  {
    if |codes| == 32 {
      ValueBound(codes, 5);
      WidthIsProduct(20, 8);
      var octets := DigitsExist(Value(codes, 5), 20, 8);
      RegroupIs(codes, 5, 8, false, octets);
    }
  }

  ghost predicate Canonical(address: string) {
    && |address| == 40 && address[0] == 'g' && address[1] == '1' && InCharset(address[2..])
    && Absorb(ONE, [3, 0, 7] + Symbols(Codes(address[2..]))) == ONE
  }

  lemma CodesInRange(data: string)
    requires InCharset(data)
    ensures InRange(Codes(data), 5)
  {
    assert Pow2(5) == 32;
  }

  lemma CharsetCharacters(c: char)
    requires c in CHARSET
    ensures c != '1' && Printable(c) && Lower(c) == c
  {
    CharsetNumbered(Code(c));
  }

  lemma AcceptedIsCanonical(address: string)
    requires Accepted(address, GNO)
    ensures Canonical(address)
  {
    hide Absorb, Regroup, Code, Symbols;
    ExpandGno();
    var separator, data := LastIndex(address, '1'), Data(address);
    CodesInRange(data);
    PayloadWidth(Codes(data)[..|data| - 6]);
    assert address[..separator] == "g";
    assert address[0] == address[..separator][0];
  }

  lemma CanonicalCharacters(address: string)
    requires Canonical(address)
    ensures forall j :: 2 <= j < 40 ==> address[j] != '1' && Printable(address[j]) && Lower(address[j]) == address[j]
  {
    forall j | 2 <= j < 40 ensures address[j] != '1' && Printable(address[j]) && Lower(address[j]) == address[j] {
      assert address[j] == address[2..][j - 2];
      CharsetCharacters(address[j]);
    }
  }

  lemma PayloadFits(data: string)
    requires InCharset(data) && |data| == 38
    ensures PayloadOf(data).Some? && |PayloadOf(data).value| == 20
  {
    CodesInRange(data);
    PayloadWidth(Codes(data)[..32]);
  }

  lemma CanonicalIsAccepted(address: string)
    requires Canonical(address)
    ensures Accepted(address, GNO)
  {
    hide Absorb, Codes, Symbols, CHARSET, Accepted, PayloadOf, ExpandHrp;
    var data := address[2..];
    PayloadFits(data);
    ExpandGno();
    assert address == "g" + "1" + data;
    SplitFits(address, data, GNO);
  }

  /** Under the default profile acceptance means: `g1`, 38 charset symbols, remainder one. */
  lemma AcceptedIffCanonical(address: string)
    ensures Accepted(address, GNO) <==> Canonical(address)
  {
    if Accepted(address, GNO) { AcceptedIsCanonical(address); }
    if Canonical(address) { CanonicalIsAccepted(address); }
  }

  // ----- one address for each payload -----

  lemma SymbolsSplit(codes: seq<int>, n: nat)
    requires InRange(codes, 5) && n <= |codes| && Pow2(5) == 32
    ensures Symbols(codes) == Symbols(codes[..n]) + Symbols(codes[n..])
  {
  }

  lemma SymbolsInjective(a: seq<int>, b: seq<int>)
    requires InRange(a, 5) && InRange(b, 5) && Pow2(5) == 32
    requires Symbols(a) == Symbols(b)
    ensures a == b
  {
    assert |a| == |b|;
    forall i | 0 <= i < |a| ensures a[i] == b[i] {
      assert Symbols(a)[i] == Symbols(b)[i];
      assert (a[i] as bv5) as int == a[i];
      assert (b[i] as bv5) as int == b[i];
    }
  }

  lemma CodesInjective(a: string, b: string)
    requires InCharset(a) && InCharset(b) && Codes(a) == Codes(b)
    ensures a == b
  {
    assert |a| == |b|;
    forall i | 0 <= i < |a| ensures a[i] == b[i] {
      assert Codes(a)[i] == Codes(b)[i];
    }
  }

  /** The payload and the checksum rule leave no freedom: one address for a payload at most. */
  lemma AddressUnique(a: string, b: string)
    requires Accepted(a, GNO) && Accepted(b, GNO)
    requires PayloadOf(Data(a)) == PayloadOf(Data(b))
    ensures a == b
  {
    hide Absorb, Regroup, Code, Value;
    AcceptedIffCanonical(a);
    AcceptedIffCanonical(b);
    DataOfCanonical(a);
    DataOfCanonical(b);
    var x, y := Codes(a[2..]), Codes(b[2..]);
    CodesInRange(a[2..]);
    CodesInRange(b[2..]);
    assert Pow2(5) == 32;
    PayloadWidth(x[..32]);
    EncodeUndoesDecode(x[..32], 5, 8);
    EncodeUndoesDecode(y[..32], 5, 8);
    assert x[..32] == y[..32];
    SymbolsSplit(x, 32);
    SymbolsSplit(y, 32);
    var prefix: seq<Symbol> := [3, 0, 7] + Symbols(x[..32]);
    assert [3, 0, 7] + Symbols(x) == prefix + Symbols(x[32..]);
    assert [3, 0, 7] + Symbols(y) == prefix + Symbols(y[32..]);
    ChecksumUnique(prefix, Symbols(x[32..]), Symbols(y[32..]));
    SymbolsInjective(x[32..], y[32..]);
    assert x == x[..32] + x[32..] && y == y[..32] + y[32..];
    CodesInjective(a[2..], b[2..]);
    assert a == a[..2] + a[2..] && b == b[..2] + b[2..];
  }

  lemma DataOfCanonical(a: string)
    requires Canonical(a)
    ensures LastIndex(a, '1') == 1 && Data(a) == a[2..]
  {
    CanonicalCharacters(a);
  }

  function Spell(codes: seq<int>): (s: string)
    requires forall i :: 0 <= i < |codes| ==> 0 <= codes[i] < 32
    ensures |s| == |codes|
  {
    seq(|codes|, i requires 0 <= i < |codes| => CHARSET[codes[i]])
  }

  lemma CodesOfSpelling(codes: seq<int>)
    requires forall i :: 0 <= i < |codes| ==> 0 <= codes[i] < 32
    ensures InCharset(Spell(codes)) && Codes(Spell(codes)) == codes
  {
    forall i | 0 <= i < |codes|
      ensures Spell(codes)[i] in CHARSET && Code(Spell(codes)[i]) == codes[i]
    {
      CharsetNumbered(codes[i]);
    }
  }

  lemma CodesOf(symbols: seq<Symbol>) returns (codes: seq<int>)
    ensures |codes| == |symbols| && (forall i :: 0 <= i < |codes| ==> 0 <= codes[i] < 32)
    ensures Symbols(codes) == symbols
  {
    codes := seq(|symbols|, i requires 0 <= i < |symbols| => symbols[i] as int);
    forall i | 0 <= i < |symbols| ensures (codes[i] as bv5) == symbols[i] {
    }
  }

  /** Every payload of twenty octets has an accepted address, so with `AddressUnique` exactly one. */
  lemma AddressExists(payload: seq<int>) returns (address: string)
    requires |payload| == 20 && InRange(payload, 8)
    ensures Accepted(address, GNO) && PayloadOf(Data(address)) == Some(payload)
  {
    hide Absorb, Regroup, Code, Value, CHARSET;
    DecodeUndoesEncode(payload, 8, 5);
    var codes := Regroup(payload, 8, 5, true).value;
    assert Pow2(5) == 32;
    assert |codes| == 32;
    var check := ChecksumExists([3, 0, 7] + Symbols(codes));
    var checkCodes := CodesOf(check);
    var all := codes + checkCodes;
    CodesOfSpelling(all);
    address := "g1" + Spell(all);
    assert address[2..] == Spell(all);
    assert all[..32] == codes && all[32..] == checkCodes;
    SymbolsSplit(all, 32);
    assert [3, 0, 7] + Symbols(all) == [3, 0, 7] + Symbols(codes) + check;
    AcceptedIffCanonical(address);
    DataOfCanonical(address);
  }

  // ----- mistyped addresses -----

  /** Two symbol strings that differ, but only inside a window of six, are not both valid. */
  lemma WindowRejected(x: seq<Symbol>, y: seq<Symbol>, k: nat)
    requires |x| == |y| && k + 6 <= |x| && x != y
    requires forall j :: 0 <= j < |x| && (j < k || j >= k + 6) ==> x[j] == y[j]
    ensures Absorb(ONE, x) != Absorb(ONE, y)
  {
    SplitWindow(x, k, x);
    SplitWindow(y, k, x);
    BurstDetected(x[..k], x[k..k + 6], y[k..k + 6], x[k + 6..]);
  }

  lemma SplitWindow<T>(y: seq<T>, k: nat, x: seq<T>)
    requires |x| == |y| && k + 6 <= |x|
    requires forall j :: 0 <= j < |x| && (j < k || j >= k + 6) ==> x[j] == y[j]
    ensures y == x[..k] + y[k..k + 6] + x[k + 6..]
  {
  }

  /** What the checksum of a canonical address is computed over. */
  function Expanded(address: string): (x: seq<Symbol>)
    requires |address| == 40 && InCharset(address[2..])
    ensures |x| == 41
  {
    [3, 0, 7] + Symbols(Codes(address[2..]))
  }

  lemma SymbolValue(v: nat)
    requires v < 32
    ensures (v as bv5) as int == v
  {
  }

  lemma ExpandedAt(address: string, j: nat)
    requires |address| == 40 && InCharset(address[2..]) && 2 <= j < 40
    ensures address[j] in CHARSET && Expanded(address)[j + 1] == Code(address[j]) as bv5
  {
    hide Code;
    assert address[2..][j - 2] == address[j];
  }

  /** The expanded symbols agree exactly where the characters do. */
  lemma ExpandedAgree(a: string, b: string, j: nat)
    requires |a| == 40 && InCharset(a[2..]) && |b| == 40 && InCharset(b[2..]) && 2 <= j < 40
    ensures Expanded(a)[j + 1] == Expanded(b)[j + 1] <==> a[j] == b[j]
  {
    hide Code, Symbols, Codes, Expanded;
    ExpandedAt(a, j);
    ExpandedAt(b, j);
    SymbolValue(Code(a[j]));
    SymbolValue(Code(b[j]));
  }

  /** Replacing characters inside six neighbouring places of an accepted address never gives another
      accepted address. */
  lemma BurstRejected(a: string, b: string, i: nat)
    requires Accepted(a, GNO) && |b| == |a| && a != b
    requires forall j :: 0 <= j < |a| && (j < i || j >= i + 6) ==> a[j] == b[j]
    ensures !Accepted(b, GNO)
  {
    hide Accepted, Expanded, Absorb, InCharset;
    if Accepted(b, GNO) {
      AcceptedChecked(a);
      AcceptedChecked(b);
      BurstDiffers(a, b, if i >= 2 then i else 2);
    }
  }

  lemma AcceptedChecked(a: string)
    requires Accepted(a, GNO)
    ensures |a| == 40 && a[0] == 'g' && a[1] == '1' && InCharset(a[2..]) && Absorb(ONE, Expanded(a)) == ONE
  {
    hide Accepted, Absorb, Codes, Symbols;
    AcceptedIffCanonical(a);
  }

  lemma BurstDiffers(a: string, b: string, i: nat)
    requires |a| == 40 && InCharset(a[2..]) && |b| == 40 && InCharset(b[2..]) && a != b
    requires i >= 2 && forall j :: 0 <= j < 40 && (j < i || j >= i + 6) ==> a[j] == b[j]
    ensures Absorb(ONE, Expanded(a)) != Absorb(ONE, Expanded(b))
  {
    var k := if i <= 34 then i else 34;
    forall j | 0 <= j < 41 && (j < k + 1 || j >= k + 7) ensures Expanded(a)[j] == Expanded(b)[j] {
      if j >= 3 { ExpandedAgree(a, b, j - 1); }
    }
    var d: nat :| d < 40 && a[d] != b[d];
    ExpandedAgree(a, b, d);
    WindowRejected(Expanded(a), Expanded(b), k + 1);
  }

  // ----- the pattern of addresses elsewhere -----

  /** The data characters are the digits and the small letters without four that are easily confused. */
  lemma CharsetIs(c: char)
    ensures c in CHARSET
      <==> ('0' <= c <= '9' && c != '1') || ('a' <= c <= 'z' && c != 'b' && c != 'i' && c != 'o')
  {
    if ('0' <= c <= '9' && c != '1') || ('a' <= c <= 'z' && c != 'b' && c != 'i' && c != 'o') {
      var v := Number(c);
      Numbered(v);
      SameNumber(c, CHARSET[v]);
    }
    if c in CHARSET {
      var v :| 0 <= v < 32 && CHARSET[v] == c;
      LetterOrDigit(v);
    }
  }

  lemma LetterOrDigit(v: nat)
    requires v < 32
    ensures var c := CHARSET[v];
            ('0' <= c <= '9' && c != '1') || ('a' <= c <= 'z' && c != 'b' && c != 'i' && c != 'o')
  {
  }

  lemma SameNumber(c: char, d: char)
    requires Number(c) == Number(d)
    requires ('0' <= c <= '9' && c != '1') || ('a' <= c <= 'z' && c != 'b' && c != 'i' && c != 'o')
    requires ('0' <= d <= '9' && d != '1') || ('a' <= d <= 'z' && d != 'b' && d != 'i' && d != 'o')
    ensures c == d
  {
  }

  /** The indexer's own address pattern is acceptance without the checksum. */
  lemma AcceptedIsAddress(address: string)
    ensures Accepted(address, GNO)
      <==> IsAddress(address) && InCharset(address[2..])
           && Absorb(ONE, [3, 0, 7] + Symbols(Codes(address[2..]))) == ONE
    ensures IsAddress(address) ==> InCharset(address[2..])
  {
    AcceptedIffCanonical(address);
    hide Absorb, Codes, Symbols, CHARSET, Accepted;
    forall i | 2 <= i < |address| ensures address[i] in ADDRESS_CHARS <==> address[2..][i - 2] in CHARSET {
      CharsetIs(address[i]);
      AddressCharsAre(address[i]);
    }
  }
}
