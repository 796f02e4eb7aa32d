/** `_strip_comments`: a scanner that drops line and block comments outside quotes. */
module CommentStripper {
  import opened Wrappers

  /** `str.startswith` of a two-character needle. */
  predicate Pair(source: string, index: nat, first: char, second: char) {
    index + 1 < |source| && source[index] == first && source[index + 1] == second
  }

  /** `str.find` of a two-character needle, None for -1. */
  function FindPair(source: string, first: char, second: char, start: nat): (i: Option<nat>)
    ensures i.Some? ==> start <= i.value && Pair(source, i.value, first, second)
    decreases |source| - start
  {
    if start + 1 >= |source| then None
    else if Pair(source, start, first, second) then Some(start)
    else FindPair(source, first, second, start + 1)
  }

  /** `str.find` of one character, None for -1. */
  function FindChar(source: string, c: char, start: nat): (i: Option<nat>)
    ensures i.Some? ==> start <= i.value < |source| && source[i.value] == c
    decreases |source| - start
  {
    if start >= |source| then None
    else if source[start] == c then Some(start)
    else FindChar(source, c, start + 1)
  }

  /** It is the first one, and None means that there is none. */
  lemma {:induction false} FindPairIsFirst(source: string, first: char, second: char, start: nat)
    ensures var i := FindPair(source, first, second, start);
            forall j :: start <= j && (i.Some? ==> j < i.value) ==> !Pair(source, j, first, second)
    decreases |source| - start
  {
    if start + 1 < |source| && !Pair(source, start, first, second) {
      FindPairIsFirst(source, first, second, start + 1);
    }
  }

  lemma {:induction false} FindCharIsFirst(source: string, c: char, start: nat)
    ensures var i := FindChar(source, c, start);
            forall j :: start <= j < (if i.Some? then i.value else |source|) ==> source[j] != c
    decreases |source| - start
  {
    if start < |source| && source[start] != c {
      FindCharIsFirst(source, c, start + 1);
    }
  }

  lemma {:induction false} FindPairInSuffix(source: string, first: char, second: char, index: nat, start: nat)
    requires index <= |source|
    ensures FindPair(source, first, second, index + start)
         == match FindPair(source[index..], first, second, start) case None => None case Some(i) => Some(index + i)
    decreases |source| - start
  {
    if index + start + 1 < |source| && !Pair(source, index + start, first, second) {
      FindPairInSuffix(source, first, second, index, start + 1);
    }
  }

  lemma {:induction false} FindCharInSuffix(source: string, c: char, index: nat, start: nat)
    requires index <= |source|
    ensures FindChar(source, c, index + start)
         == match FindChar(source[index..], c, start) case None => None case Some(i) => Some(index + i)
    decreases |source| - start
  {
    if index + start < |source| && source[index + start] != c {
      FindCharInSuffix(source, c, index, start + 1);
    }
  }

  predicate IsQuote(c: char) { c == '"' || c == '\'' }

  // ----- specification: the tokens of a source text -----

  datatype Token =
    | Plain(c: char)
    | Literal(text: string)
    | Comment(text: string)

  function Text(t: Token): string {
    match t
    case Plain(c) => [c]
    case Literal(text) => text
    case Comment(text) => text
  }

  /** Inside a quote: the characters up to and including the closing quote, or all of them. */
  function QuotedLength(s: string, quote: char): (n: nat)
    ensures n <= |s|
  {
    if s == "" then 0
    else if s[0] == '\\' && |s| > 1 then 2 + QuotedLength(s[2..], quote)
    else if s[0] == quote then 1
    else 1 + QuotedLength(s[1..], quote)
  }

  predicate QuoteCloses(s: string, quote: char) {
    if s == "" then false
    else if s[0] == '\\' && |s| > 1 then QuoteCloses(s[2..], quote)
    else s[0] == quote || QuoteCloses(s[1..], quote)
  }

  /** The first token, None when it is a block comment that is never closed. */
  function FirstToken(s: string): (t: Option<Token>)
    requires s != ""
    ensures t.Some? ==> |Text(t.value)| > 0 && Text(t.value) <= s
  {
    if IsQuote(s[0]) then
      Some(Literal(s[..1 + QuotedLength(s[1..], s[0])]))
    else if Pair(s, 0, '/', '/') then
      var end := FindChar(s, '\n', 0);
      assert end.Some? ==> end.value > 0;
      Some(Comment(if end.None? then s else s[..end.value]))
    else if Pair(s, 0, '/', '*') then
      var end := FindPair(s, '*', '/', 2);
    FindPairIsFirst(s, '*', '/', 2);
      if end.None? then None else Some(Comment(s[..end.value + 2]))
    else Some(Plain(s[0]))
  }

  function Tokens(s: string): (ts: Option<seq<Token>>)
    decreases |s|
  {
    if s == "" then Some([])
    else
      var t := FirstToken(s);
      if t.None? then None
      else
        var rest := Tokens(s[|Text(t.value)|..]);
        if rest.None? then None else Some([t.value] + rest.value)
  }

  function TextOf(ts: seq<Token>): string {
    if ts == [] then "" else Text(ts[0]) + TextOf(ts[1..])
  }

  function WithoutComments(ts: seq<Token>): seq<Token> {
    if ts == [] then []
    else if ts[0].Comment? then WithoutComments(ts[1..])
    else [ts[0]] + WithoutComments(ts[1..])
  }

  function Prepend(text: string, rest: Option<string>): Option<string> {
    if rest.None? then None else Some(text + rest.value)
  }

  /** The text outside comments, None when a block comment stays open. */
  function Uncommented(s: string): Option<string>
    decreases |s|
  {
    if s == "" then Some("")
    else
      var t := FirstToken(s);
      if t.None? then None
      else Prepend(if t.value.Comment? then "" else Text(t.value), Uncommented(s[|Text(t.value)|..]))
  }

  /** What stripping must give: nothing at all when a block comment is left open. */
  function Stripped(s: string): string {
    var text := Uncommented(s);
    if text.None? then "" else text.value
  }

  lemma KeptCons(t: Token, rest: seq<Token>)
    ensures WithoutComments([t] + rest) == if t.Comment? then WithoutComments(rest) else [t] + WithoutComments(rest)
    ensures TextOf([t] + rest) == Text(t) + TextOf(rest)
  {
    assert ([t] + rest)[1..] == rest;
  }

  /** The stripped text is the text of the tokens that are not comments. */
  lemma {:induction false} UncommentedTokens(s: string)
    ensures Uncommented(s) == if Tokens(s).None? then None else Some(TextOf(WithoutComments(Tokens(s).value)))
    decreases |s|
  {
    if s != "" && FirstToken(s).Some? {
      UncommentedStep(s, FirstToken(s).value);
    }
  }

  lemma {:induction false} UncommentedStep(s: string, t: Token)
    requires s != "" && FirstToken(s) == Some(t)
    ensures Uncommented(s) == if Tokens(s).None? then None else Some(TextOf(WithoutComments(Tokens(s).value)))
    decreases |s|, 0
  {
    var next := s[|Text(t)|..];
    UncommentedTokens(next);
    if Tokens(next).Some? {
      assert "" + Uncommented(next).value == Uncommented(next).value;
      KeptCons(t, Tokens(next).value);
      KeptCons(t, WithoutComments(Tokens(next).value));
    }
  }

  // ----- what the tokens are -----

  /** How many backslashes end `s`. */
  function TrailingBackslashes(s: string): nat {
    if s == "" || s[|s| - 1] != '\\' then 0 else 1 + TrailingBackslashes(s[..|s| - 1])
  }

  /** A quote inside a literal is escaped by an odd number of backslashes in front of it. */
  predicate ClosesAt(inside: string, quote: char, n: nat) {
    n < |inside| && inside[n] == quote && TrailingBackslashes(inside[..n]) % 2 == 0
  }

  /** The literal ends with its first quote that is not escaped, or with the text. */
  ghost predicate IsLiteral(s: string, text: string) {
    && text != "" && text <= s
    && var inside := s[1..];
       if exists n: nat :: ClosesAt(inside, s[0], n) then
         && |text| >= 2 && ClosesAt(inside, s[0], |text| - 2)
         && forall m: nat :: m < |text| - 2 ==> !ClosesAt(inside, s[0], m)
       else text == s
  }

  /** A line comment ends before the first newline, or with the text. */
  predicate IsLineComment(s: string, text: string) {
    && text <= s && |text| >= 2 && text[0] == '/' && text[1] == '/'
    && (forall i :: 0 <= i < |text| ==> text[i] != '\n')
    && (|text| < |s| ==> s[|text|] == '\n')
  }

  /** A block comment ends with the first pair that closes it, which shares no character with the opening one. */
  predicate IsBlockComment(s: string, text: string) {
    && text <= s && |text| >= 4 && text[0] == '/' && text[1] == '*'
    && text[|text| - 2] == '*' && text[|text| - 1] == '/'
    && forall i :: 2 <= i < |text| - 2 ==> !(text[i] == '*' && text[i + 1] == '/')
  }

  lemma {:induction false} TrailingOfConcat(a: string, s: string)
    ensures TrailingBackslashes(a + s) ==
      TrailingBackslashes(s) + (if TrailingBackslashes(s) == |s| then TrailingBackslashes(a) else 0)
  {
    if s == "" {
      assert a + s == a;
    } else {
      var n := |s| - 1;
      TrailingOfConcat(a, s[..n]);
      TrailingAtMost(s[..n]);
      assert (a + s)[..|a + s| - 1] == a + s[..n] && (a + s)[|a + s| - 1] == s[n];
    }
  }

  lemma {:induction false} TrailingAtMost(s: string)
    ensures TrailingBackslashes(s) <= |s|
  {
    if s != "" { TrailingAtMost(s[..|s| - 1]); }
  }

  /** Leaving out a beginning that escapes nothing behind it. */
  lemma ClosesBehind(inside: string, quote: char, k: nat, n: nat)
    requires k <= |inside| && k <= n && TrailingBackslashes(inside[..k]) % 2 == 0
    ensures ClosesAt(inside, quote, n) <==> ClosesAt(inside[k..], quote, n - k)
  {
    if n < |inside| {
      TrailingOfConcat(inside[..k], inside[k..][..n - k]);
      assert inside[..n] == inside[..k] + inside[k..][..n - k];
    }
  }

  /** The length of a quoted text is where its first closing quote ends. */
  lemma {:induction false} QuotedIs(inside: string, quote: char)
    requires IsQuote(quote)
    ensures var n := QuotedLength(inside, quote);
            if QuoteCloses(inside, quote) then n >= 1 && ClosesAt(inside, quote, n - 1) else n == |inside|
    ensures forall m: nat :: m < QuotedLength(inside, quote) - (if QuoteCloses(inside, quote) then 1 else 0) ==>
              !ClosesAt(inside, quote, m)
    decreases |inside|
  {
    if inside != "" && !(inside[0] == quote) {
      var k := if inside[0] == '\\' && |inside| > 1 then 2 else 1;
      QuotedIs(inside[k..], quote);
      Opening(inside, quote, k);
      forall m: nat | m < QuotedLength(inside, quote) - (if QuoteCloses(inside, quote) then 1 else 0)
        ensures !ClosesAt(inside, quote, m)
      {
        if m >= k && k <= |inside| && TrailingBackslashes(inside[..k]) % 2 == 0 {
          ClosesBehind(inside, quote, k, m);
        }
      }
      if QuoteCloses(inside, quote) && TrailingBackslashes(inside[..k]) % 2 == 0 {
        ClosesBehind(inside, quote, k, QuotedLength(inside, quote) - 1);
      }
    }
  }

  /** What the first one or two characters of a quoted text do. */
  lemma Opening(inside: string, quote: char, k: nat)
    requires IsQuote(quote) && inside != "" && inside[0] != quote
    requires k == if inside[0] == '\\' && |inside| > 1 then 2 else 1
    ensures |inside| > 1 ==> TrailingBackslashes(inside[..k]) % 2 == 0
    ensures forall m: nat :: m < k ==> !ClosesAt(inside, quote, m)
  {
    assert inside[..1][0] == inside[0] && inside[..1][..0] == "" && TrailingBackslashes("") == 0;
    if |inside| > 1 {
      assert inside[..2][1] == inside[1] && inside[..2][..1] == inside[..1];
      assert inside[0] == '\\' ==> TrailingBackslashes(inside[..1]) == 1;
      assert TrailingBackslashes(inside[..2])
          == if inside[1] == '\\' then 1 + TrailingBackslashes(inside[..1]) else 0;
    }
    assert inside[..0] == "";
  }

  lemma LiteralIs(s: string)
    requires s != "" && IsQuote(s[0])
    ensures IsLiteral(s, s[..1 + QuotedLength(s[1..], s[0])])
  {
    QuotedIs(s[1..], s[0]);
    var text := s[..1 + QuotedLength(s[1..], s[0])];
    if QuoteCloses(s[1..], s[0]) {
      assert ClosesAt(s[1..], s[0], |text| - 2);
    } else {
      forall n: nat ensures !ClosesAt(s[1..], s[0], n) {
      }
    }
  }

  lemma LiteralUnique(s: string, a: string, b: string)
    requires IsLiteral(s, a) && IsLiteral(s, b)
    ensures a == b
  {
    hide ClosesAt;
    assert a == s[..|a|] && b == s[..|b|];
  }

  /** The first token is a literal, a comment or one plain character, by what the text starts with and
      where that ends; there is none exactly when a block comment is never closed. */
  lemma FirstTokenIs(s: string, t: Token)
    requires s != ""
    ensures FirstToken(s) == Some(t) <==>
      match t
      case Literal(text) => (s[0] == '"' || s[0] == '\'') && IsLiteral(s, text)
      case Comment(text) => IsLineComment(s, text) || IsBlockComment(s, text)
      case Plain(c) => c == s[0] && c != '"' && c != '\'' && !(|s| > 1 && c == '/' && (s[1] == '/' || s[1] == '*'))
  {
    match t
    case Literal(text) =>
      if IsQuote(s[0]) {
        LiteralIs(s);
        if IsLiteral(s, text) { LiteralUnique(s, text, s[..1 + QuotedLength(s[1..], s[0])]); }
      }
    case Comment(text) => CommentIs(s, text);
    case Plain(c) =>
  }

  lemma CommentIs(s: string, text: string)
    requires s != ""
    ensures FirstToken(s) == Some(Comment(text)) <==> IsLineComment(s, text) || IsBlockComment(s, text)
  {
    if Pair(s, 0, '/', '/') {
      LineCommentIs(s, text);
    } else if Pair(s, 0, '/', '*') {
      BlockCommentIs(s, text);
    }
  }

  lemma LineCommentIs(s: string, text: string)
    requires Pair(s, 0, '/', '/')
    ensures FirstToken(s) == Some(Comment(text)) <==> IsLineComment(s, text)
  {
    var end := FindChar(s, '\n', 0);
    var found := if end.None? then s else s[..end.value];
    FindCharIsFirst(s, '\n', 0);
    assert FirstToken(s) == Some(Comment(found));
    assert IsLineComment(s, found);
    if IsLineComment(s, text) {
      assert text == s[..|text|] && found == s[..|found|];
    }
  }

  lemma BlockCommentIs(s: string, text: string)
    requires Pair(s, 0, '/', '*')
    ensures FirstToken(s) == Some(Comment(text)) <==> IsBlockComment(s, text)
  {
    var end := FindPair(s, '*', '/', 2);
    FindPairIsFirst(s, '*', '/', 2);
    if end.Some? {
      BlockCommentFound(s, end.value);
    }
    if IsBlockComment(s, text) {
      BlockCommentFirst(s, text);
    }
  }

  lemma BlockCommentFound(s: string, end: nat)
    requires Pair(s, 0, '/', '*') && FindPair(s, '*', '/', 2) == Some(end)
    ensures IsBlockComment(s, s[..end + 2])
  {
    var text := s[..end + 2];
    FindPairIsFirst(s, '*', '/', 2);
    forall i | 2 <= i < |text| - 2 ensures !(text[i] == '*' && text[i + 1] == '/') {
      assert !Pair(s, i, '*', '/');
    }
  }

  lemma BlockCommentFirst(s: string, text: string)
    requires Pair(s, 0, '/', '*') && IsBlockComment(s, text)
    ensures FindPair(s, '*', '/', 2) == Some(|text| - 2) && text == s[..|text|]
  {
    FindPairIsFirst(s, '*', '/', 2);
    assert Pair(s, |text| - 2, '*', '/');
  }

  /** No first token: a block comment begins and no closing pair follows. */
  lemma NoTokenIs(s: string)
    requires s != ""
    ensures FirstToken(s).None? <==>
      |s| > 1 && s[0] == '/' && s[1] == '*' && forall i :: 2 <= i < |s| - 1 ==> !(s[i] == '*' && s[i + 1] == '/')
  {
    if Pair(s, 0, '/', '*') {
      var end := FindPair(s, '*', '/', 2);
    FindPairIsFirst(s, '*', '/', 2);
      if end.None? {
        forall i | 2 <= i < |s| - 1 ensures !(s[i] == '*' && s[i + 1] == '/') {
          assert !Pair(s, i, '*', '/');
        }
      } else {
        assert Pair(s, end.value, '*', '/');
      }
    }
  }

  /** Leaving out comments goes token by token. */
  lemma {:induction false} WithoutCommentsIs(a: seq<Token>, t: Token)
    ensures WithoutComments([]) == []
    ensures WithoutComments(a + [t]) == WithoutComments(a) + match t case Comment(_) => [] case _ => [t]
  {
    if a == [] {
      assert [] + [t] == [t] && [t][1..] == [];
    } else {
      WithoutCommentsIs(a[1..], t);
      assert (a + [t])[1..] == a[1..] + [t];
    }
  }

  lemma {:induction false} TextOfIs(a: seq<Token>, t: Token)
    ensures TextOf([]) == ""
    ensures TextOf(a + [t]) == TextOf(a) + match t case Plain(c) => [c] case Literal(text) => text case Comment(text) =>
      text
  {
    if a == [] {
      assert [] + [t] == [t] && [t][1..] == [] && Text(t) + "" == Text(t);
    } else {
      TextOfIs(a[1..], t);
      assert (a + [t])[1..] == a[1..] + [t];
    }
  }

  // ----- the scanner -----

  /** What is still to be emitted for `s`. */
  function Remaining(s: string, quote: Option<char>): Option<string> {
    if quote.None? then Uncommented(s)
    else
      var n := QuotedLength(s, quote.value);
      Prepend(s[..n], Uncommented(s[n..]))
  }

  /** Emitting `text` and going on with `rest` is what remains to be done for `s`. */
  predicate Emits(s: string, quote: Option<char>, text: string, rest: string, after: Option<char>) {
    Remaining(s, quote) == Prepend(text, Remaining(rest, after))
  }

  lemma PrependTwice(a: string, b: string, rest: Option<string>)
    ensures Prepend(a, Prepend(b, rest)) == Prepend(a + b, rest)
  {
    if rest.Some? { assert a + (b + rest.value) == (a + b) + rest.value; }
  }

  lemma EmitsThen(s: string, quote: Option<char>, text: string, middle: string, between: Option<char>,
                  more: string, rest: string, after: Option<char>)
    requires Emits(s, quote, text, middle, between) && Emits(middle, between, more, rest, after)
    ensures Emits(s, quote, text + more, rest, after)
  {
    PrependTwice(text, more, Remaining(rest, after));
  }

  lemma EmitsNothing(s: string, quote: Option<char>)
    ensures Emits(s, quote, "", s, quote)
  {
    var r := Remaining(s, quote);
    if r.Some? { assert "" + r.value == r.value; }
  }

  lemma EmitsQuotedSome(s: string, quote: char, k: nat)
    requires k <= |s| && QuotedLength(s, quote) == k + QuotedLength(s[k..], quote)
    ensures Emits(s, Some(quote), s[..k], s[k..], Some(quote))
  {
    var n := QuotedLength(s[k..], quote);
    assert s[k..][n..] == s[n + k..];
    assert s[..n + k] == s[..k] + s[k..][..n];
    PrependTwice(s[..k], s[k..][..n], Uncommented(s[n + k..]));
  }

  lemma EmitsQuoted(s: string, quote: char)
    requires s != ""
    ensures s[0] == '\\' && |s| > 1 ==> Emits(s, Some(quote), s[..2], s[2..], Some(quote))
    ensures !(s[0] == '\\' && |s| > 1) ==>
      Emits(s, Some(quote), s[..1], s[1..], if s[0] == quote then None else Some(quote))
  {
    if s[0] == '\\' && |s| > 1 {
      EmitsQuotedSome(s, quote, 2);
    } else if s[0] != quote {
      EmitsQuotedSome(s, quote, 1);
    }
  }

  lemma EmitsToken(s: string)
    requires s != "" && FirstToken(s).Some?
    ensures var t := FirstToken(s).value;
            Emits(s, None, if t.Comment? then "" else Text(t), s[|Text(t)|..], None)
  {
  }

  lemma EmitsOpenQuote(s: string)
    requires s != "" && IsQuote(s[0])
    ensures Emits(s, None, s[..1], s[1..], Some(s[0]))
  {
    EmitsToken(s);
    var n := QuotedLength(s[1..], s[0]);
    assert s[1..][n..] == s[1 + n..];
    assert s[..1 + n] == s[..1] + s[1..][..n];
    PrependTwice(s[..1], s[1..][..n], Uncommented(s[1 + n..]));
  }

  function Suffix(source: string, index: nat): string {
    if index <= |source| then source[index..] else ""
  }

  /** The scanner's invariant: what it has emitted, followed by what remains, is the answer. */
  predicate Scanned(source: string, output: string, index: nat, quote: Option<char>) {
    Emits(source, None, output, Suffix(source, index), quote)
  }

  lemma ScanEscape(source: string, output: string, index: nat, quote: char)
    requires index + 1 < |source| && Scanned(source, output, index, Some(quote))
    requires source[index] == '\\'
    ensures Scanned(source, output + [source[index]] + [source[index + 1]], index + 2, Some(quote))
  {
    hide Emits;
    var s := source[index..];
    EmitsQuoted(s, quote);
    EmitsThen(source, None, output, s, Some(quote), s[..2], s[2..], Some(quote));
    assert s[..2] == [source[index]] + [source[index + 1]];
    assert output + s[..2] == output + [source[index]] + [source[index + 1]];
    assert s[2..] == source[index + 2..];
  }

  lemma ScanQuoted(source: string, output: string, index: nat, quote: char)
    requires index < |source| && Scanned(source, output, index, Some(quote))
    requires !(source[index] == '\\' && index + 1 < |source|)
    ensures Scanned(source, output + [source[index]], index + 1, if source[index] == quote then None else Some(quote))
  {
    hide Emits;
    var s := source[index..];
    var after := if s[0] == quote then None else Some(quote);
    EmitsQuoted(s, quote);
    EmitsThen(source, None, output, s, Some(quote), s[..1], s[1..], after);
    assert s[..1] == [source[index]];
    assert s[1..] == source[index + 1..];
  }

  lemma ScanOpenQuote(source: string, output: string, index: nat)
    requires index < |source| && Scanned(source, output, index, None) && IsQuote(source[index])
    ensures Scanned(source, output + [source[index]], index + 1, Some(source[index]))
  {
    hide Emits;
    var s := source[index..];
    EmitsOpenQuote(s);
    EmitsThen(source, None, output, s, None, s[..1], s[1..], Some(s[0]));
    assert s[..1] == [source[index]];
  }

  lemma ScanToken(source: string, output: string, index: nat, next: nat)
    requires index < |source| && Scanned(source, output, index, None)
    requires FirstToken(source[index..]).Some?
    requires Suffix(source, next) == source[index..][|Text(FirstToken(source[index..]).value)|..]
    ensures var t := FirstToken(source[index..]).value;
            Scanned(source, output + (if t.Comment? then "" else Text(t)), next, None)
  {
    hide Emits;
    var s := source[index..];
    var t := FirstToken(s).value;
    EmitsToken(s);
    EmitsThen(source, None, output, s, None, if t.Comment? then "" else Text(t), s[|Text(t)|..], None);
  }

  lemma LineToken(s: string)
    requires Pair(s, 0, '/', '/')
    ensures FirstToken(s)
         == Some(Comment(match FindChar(s, '\n', 0) case None => s case Some(end) => s[..end]))
  {
  }

  lemma LineEnd(source: string, index: nat)
    requires index < |source|
    ensures var end := FindChar(source, '\n', index);
            (match FindChar(source[index..], '\n', 0) case None => source[index..] case Some(e) => source[index..][..e])
              == if end.None? then source[index..] else source[index..end.value]
  {
    FindCharInSuffix(source, '\n', index, 0);
    var end := FindChar(source, '\n', index);
    if end.Some? {
      SuffixSlice(source, index, end.value - index);
    }
  }

  lemma LineComment(source: string, index: nat, s: string)
    requires index < |source| && s == source[index..] && Pair(source, index, '/', '/')
    ensures var end := FindChar(source, '\n', index);
            FirstToken(s) == Some(Comment(if end.None? then s else source[index..end.value]))
  {
    LineToken(s);
    LineEnd(source, index);
  }

  lemma ScanLineComment(source: string, output: string, index: nat)
    requires index < |source| && Scanned(source, output, index, None)
    requires Pair(source, index, '/', '/')
    ensures var end := FindChar(source, '\n', index);
            && (end.Some? ==> end.value > index)
            && Scanned(source, output, if end.None? then |source| + 1 else end.value, None)
  {
    LineComment(source, index, source[index..]);
    var end := FindChar(source, '\n', index);
    if end.Some? {
      ScanClosed(source, output, index, end.value, source[index..end.value]);
    } else {
      ScanClosed(source, output, index, |source|, source[index..]);
      assert Suffix(source, |source| + 1) == Suffix(source, |source|);
    }
  }

  lemma ScanUnclosed(source: string, output: string, index: nat)
    requires index < |source| && Scanned(source, output, index, None)
    requires FirstToken(source[index..]).None?
    ensures Stripped(source) == ""
  {
    assert Uncommented(source[index..]).None?;
  }

  lemma BlockToken(s: string)
    requires Pair(s, 0, '/', '*')
    ensures FirstToken(s)
         == match FindPair(s, '*', '/', 2) case None => None case Some(end) => Some(Comment(s[..end + 2]))
  {
  }

  lemma SuffixSlice(source: string, index: nat, length: nat)
    requires index + length <= |source|
    ensures source[index..][..length] == source[index..index + length]
  {
  }

  lemma BlockEnd(source: string, index: nat, s: string)
    requires index < |source| && s == source[index..]
    ensures var end := FindPair(source, '*', '/', index + 2);
            match FindPair(s, '*', '/', 2)
            case None => end.None?
            case Some(e) => end.Some? && s[..e + 2] == source[index..end.value + 2]
  {
    FindPairInSuffix(source, '*', '/', index, 2);
    var end := FindPair(source, '*', '/', index + 2);
    if end.Some? {
      SuffixSlice(source, index, end.value + 2 - index);
    }
  }

  lemma BlockComment(source: string, index: nat, s: string)
    requires index < |source| && s == source[index..] && Pair(source, index, '/', '*')
    ensures var end := FindPair(source, '*', '/', index + 2);
            FirstToken(s) == if end.None? then None else Some(Comment(source[index..end.value + 2]))
  {
    BlockToken(s);
    BlockEnd(source, index, s);
  }

  lemma ScanClosed(source: string, output: string, index: nat, next: nat, text: string)
    requires index < |source| && Scanned(source, output, index, None)
    requires FirstToken(source[index..]) == Some(Comment(text)) && next == index + |text| <= |source|
    ensures Scanned(source, output, next, None)
  {
    hide Emits, FirstToken;
    assert source[next..] == source[index..][|text|..];
    ScanToken(source, output, index, next);
    assert output + "" == output;
  }

  lemma ScanPlain(source: string, output: string, index: nat)
    requires index < |source| && Scanned(source, output, index, None)
    requires !Pair(source, index, '/', '*') && !Pair(source, index, '/', '/') && !IsQuote(source[index])
    ensures Scanned(source, output + [source[index]], index + 1, None)
  {
    ScanToken(source, output, index, index + 1);
  }

  /** One character inside a quote. */
  method StepInQuote(source: string, output: string, index: nat, quote: char)
    returns (output': string, index': nat, quote': Option<char>)
    requires index < |source| && Scanned(source, output, index, Some(quote))
    ensures index < index' && Scanned(source, output', index', quote')
  {
    hide *;
    var c := source[index];
    output', index', quote' := output + [c], index, Some(quote);
    if c == '\\' && index + 1 < |source| {
      ScanEscape(source, output, index, quote);
      index' := index + 1;
      output' := output' + [source[index']];
    } else {
      ScanQuoted(source, output, index, quote);
      if c == quote {
        quote' := None;
      }
    }
    index' := index' + 1;
  }

  /** The end of a block comment, None if it is never closed. */
  method BlockCommentEnd(source: string, output: string, index: nat) returns (end: Option<nat>)
    requires index < |source| && Scanned(source, output, index, None) && Pair(source, index, '/', '*')
    ensures end.Some? ==> index < end.value && Scanned(source, output, end.value + 2, None)
    ensures end.None? ==> Stripped(source) == ""
  {
    hide Scanned, Stripped, FirstToken;
    BlockComment(source, index, source[index..]);
    end := FindPair(source, '*', '/', index + 2);
    if end.None? {
      ScanUnclosed(source, output, index);
    } else {
      ScanClosed(source, output, index, end.value + 2, source[index..end.value + 2]);
    }
  }

  /** The last character of a line comment. */
  method LineCommentEnd(source: string, output: string, index: nat) returns (last: nat)
    requires index < |source| && Scanned(source, output, index, None) && Pair(source, index, '/', '/')
    ensures index <= last && Scanned(source, output, last + 1, None)
  {
    hide *;
    ScanLineComment(source, output, index);
    var end := FindChar(source, '\n', index);
    last := if end.None? then |source| else end.value - 1;
  }

  lemma ScanStart(source: string)
    ensures Scanned(source, "", 0, None)
  {
    EmitsNothing(source, None);
    assert source[0..] == source;
  }

  lemma ScannedAll(source: string, output: string, index: nat, quote: Option<char>)
    requires index >= |source| && Scanned(source, output, index, quote)
    ensures output == Stripped(source)
  {
    assert Suffix(source, index) == "";
    assert ""[0..] == "";
  }

  method StripComments(source: string) returns (r: string)
    ensures r == Stripped(source)
  {
    hide *;
    var output, index: nat, quote: Option<char> := "", 0, None;
    ScanStart(source);
    while index < |source|
      invariant Scanned(source, output, index, quote)
    {
      if quote.Some? {
        output, index, quote := StepInQuote(source, output, index, quote.value);
      } else if IsQuote(source[index]) {
        ScanOpenQuote(source, output, index);
        quote := Some(source[index]);
        output := output + [source[index]];
        index := index + 1;
      } else if Pair(source, index, '/', '/') {
        index := LineCommentEnd(source, output, index);
        index := index + 1;
      } else if Pair(source, index, '/', '*') {
        var end := BlockCommentEnd(source, output, index);
        if end.None? {
          return "";
        }
        index := end.value + 1 + 1;
      } else {
        ScanPlain(source, output, index);
        output := output + [source[index]];
        index := index + 1;
      }
    }
    ScannedAll(source, output, index, quote);
    return output;
  }

  // ----- what stripping keeps -----

  /** The tokens cover the text. */
  lemma {:induction false} TokensCover(s: string)
    requires Tokens(s).Some?
    ensures TextOf(Tokens(s).value) == s
    decreases |s|
  {
    hide FirstToken, TextOf;
    if s == "" {
      NoText();
    } else {
      var t := FirstToken(s).value;
      var next := s[|Text(t)|..];
      TokensCover(next);
      CoverNext(s, t, Tokens(next).value);
    }
  }

  lemma NoText()
    ensures TextOf([]) == ""
  {
  }

  lemma CoverNext(s: string, t: Token, rest: seq<Token>)
    requires Text(t) <= s && TextOf(rest) == s[|Text(t)|..]
    ensures TextOf([t] + rest) == s
  {
    KeptCons(t, rest);
    hide TextOf;
  }

  lemma {:induction false} QuotedLocal(s: string, quote: char, rest: string)
    requires IsQuote(quote) && QuoteCloses(s, quote)
    ensures var n := QuotedLength(s, quote); QuotedLength(s[..n] + rest, quote) == n
    decreases |s|
  {
    var n := QuotedLength(s, quote);
    var t := s[..n] + rest;
    if s[0] == '\\' && |s| > 1 {
      QuotedLocal(s[2..], quote, rest);
      assert t[2..] == s[2..][..n - 2] + rest;
    } else if s[0] != quote {
      QuotedLocal(s[1..], quote, rest);
      assert t[1..] == s[1..][..n - 1] + rest;
    }
  }

  lemma {:induction false} UnclosedQuote(s: string, quote: char)
    requires !QuoteCloses(s, quote)
    ensures QuotedLength(s, quote) == |s|
    decreases |s|
  {
    if s != "" {
      UnclosedQuote(s[if s[0] == '\\' && |s| > 1 then 2 else 1..], quote);
    }
  }

  /** A token that is kept is still the first one in front of the stripped rest. */
  lemma KeptLiteralFirst(s: string, rest: string)
    requires s != "" && IsQuote(s[0])
    requires var n := QuotedLength(s[1..], s[0]); 1 + n == |s| ==> rest == ""
    ensures FirstToken(s[..1 + QuotedLength(s[1..], s[0])] + rest) == FirstToken(s)
  {
    var n := QuotedLength(s[1..], s[0]);
    var o := s[..1 + n] + rest;
    if QuoteCloses(s[1..], s[0]) {
      QuotedLocal(s[1..], s[0], rest);
      assert o[1..] == s[1..][..n] + rest;
    } else {
      UnclosedQuote(s[1..], s[0]);
      assert o == s;
    }
  }

  lemma KeptPlainFirst(s: string, rest: string)
    requires s != "" && FirstToken(s) == Some(Plain(s[0]))
    requires |s| > 1 && s[0] == '/' ==> rest != "" && rest[0] == s[1]
    requires |s| == 1 ==> rest == ""
    ensures FirstToken([s[0]] + rest) == Some(Plain(s[0]))
  {
    var o := [s[0]] + rest;
    if s[0] == '/' && |s| > 1 {
      assert o[..2] == [s[0], s[1]] && s[..2] == [s[0], s[1]];
    } else if |o| > 1 {
      assert o[..2][0] != '/';
    }
  }

  lemma RestStartsAlike(s: string)
    requires s != "" && Tokens(s).Some? && s[0] != '/'
    ensures var rest := TextOf(WithoutComments(Tokens(s).value)); rest != "" && rest[0] == s[0]
  {
    if |s| > 1 { assert s[..2][0] == s[0]; }
    var t := FirstToken(s).value;
    assert !t.Comment?;
    assert Text(t)[0] == s[0];
    var tail := Tokens(s[|Text(t)|..]).value;
    assert WithoutComments([t] + tail)[0] == t;
  }

  /** A kept token of the source is a kept token of the stripped text. */
  lemma KeptTokenFirst(s: string, t: Token)
    requires s != "" && FirstToken(s) == Some(t) && !t.Comment? && Tokens(s[|Text(t)|..]).Some?
    ensures FirstToken(Text(t) + TextOf(WithoutComments(Tokens(s[|Text(t)|..]).value))) == Some(t)
  {
    var next := s[|Text(t)|..];
    var rest := TextOf(WithoutComments(Tokens(next).value));
    if t.Literal? {
      KeptLiteralFirst(s, rest);
    } else {
      if |s| > 1 && s[0] == '/' {
        RestStartsAlike(next);
      }
      KeptPlainFirst(s, rest);
    }
  }

  lemma TokensCons(s: string, t: Token, rest: string)
    requires s == Text(t) + rest && Text(t) != "" && FirstToken(s) == Some(t) && Tokens(rest).Some?
    ensures Tokens(s) == Some([t] + Tokens(rest).value)
  {
    assert s[|Text(t)|..] == rest;
  }

  /** The tokens of the kept text are the tokens that were kept. */
  lemma {:induction false} KeptTextTokens(s: string)
    requires Tokens(s).Some?
    ensures Tokens(TextOf(WithoutComments(Tokens(s).value))) == Some(WithoutComments(Tokens(s).value))
    decreases |s|
  {
    if s != "" {
      KeptTextStep(s, FirstToken(s).value);
    }
  }

  lemma {:induction false} KeptTextStep(s: string, t: Token)
    requires s != "" && FirstToken(s) == Some(t) && Tokens(s).Some?
    ensures Tokens(TextOf(WithoutComments(Tokens(s).value))) == Some(WithoutComments(Tokens(s).value))
    decreases |s|, 0
  {
    var next := s[|Text(t)|..];
    KeptTextTokens(next);
    var kept := WithoutComments(Tokens(next).value);
    KeptCons(t, Tokens(next).value);
    if !t.Comment? {
      KeptCons(t, kept);
      KeptTokenFirst(s, t);
      TokensCons(Text(t) + TextOf(kept), t, TextOf(kept));
    }
  }

  /** The result is the text of the tokens that are no comments, and nothing if a comment is left open. */
  lemma StrippedIs(s: string)
    ensures Stripped(s) == if Tokens(s).Some? then TextOf(WithoutComments(Tokens(s).value)) else ""
  {
    UncommentedTokens(s);
  }

  /** Stripping removes the comments and nothing else: the tokens of the stripped text
      are the other tokens of the source, in order, literals unchanged. */
  lemma StripKeepsTheOtherTokens(s: string)
    requires Tokens(s).Some?
    ensures Tokens(Stripped(s)) == Some(WithoutComments(Tokens(s).value))
  {
    UncommentedTokens(s);
    KeptTextTokens(s);
  }

  lemma {:induction false} NothingLeftToDrop(ts: seq<Token>)
    ensures WithoutComments(WithoutComments(ts)) == WithoutComments(ts)
  {
    if ts != [] { NothingLeftToDrop(ts[1..]); }
  }

  /** Stripping stripped source changes nothing. */
  lemma StripIdempotent(s: string)
    ensures Stripped(Stripped(s)) == Stripped(s)
  {
    UncommentedTokens(s);
    if Tokens(s).Some? {
      StripKeepsTheOtherTokens(s);
      NothingLeftToDrop(Tokens(s).value);
      UncommentedTokens(Stripped(s));
    }
  }

  /** Code between two comments is kept. */
  lemma StripBetween()
    ensures Stripped("/*a*/x/*b*/") == "x"
  {
    var s := "/*a*/x/*b*/";
    assert IsBlockComment(s, "/*a*/") && s[5..] == "x/*b*/";
    FirstTokenIs(s, Comment("/*a*/"));
    FirstTokenIs(s[5..], Plain('x'));
    assert s[5..][1..] == "/*b*/" && IsBlockComment("/*b*/", "/*b*/");
    FirstTokenIs("/*b*/", Comment("/*b*/"));
    assert "/*b*/"[5..] == "" && Uncommented("") == Some("");
    hide FirstToken, IsBlockComment;
    assert Uncommented("/*b*/") == Prepend("", Uncommented("/*b*/"[5..]));
    assert Uncommented(s[5..]) == Prepend("x", Uncommented("/*b*/"));
    assert Uncommented(s) == Prepend("", Uncommented(s[5..]));
  }
}
