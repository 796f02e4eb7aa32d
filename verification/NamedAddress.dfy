/** One address that the repository's own tests use, and that has to be accepted. */
module NamedAddress {
  import opened Wrappers
  import opened Bech32Checksum
  import opened NetworkProfile

  const NAMED := "g1jg8mtutu9khhfwc4nxmuhcpftf0pajdhfvsqf5"

  /** The remainder after `g` was expanded. */
  const START := Register(0, 0, 1, 3, 0, 7)

  /** The remainder after some characters of the data part. */
  function AbsorbText(r: Register, s: string): Register
    requires InCharset(s)
  {
    Absorb(r, Symbols(Codes(s)))
  }

  lemma SymbolsAppend(a: seq<int>, b: seq<int>)
    requires forall i :: 0 <= i < |a| ==> 0 <= a[i] < 32
    requires forall i :: 0 <= i < |b| ==> 0 <= b[i] < 32
    ensures Symbols(a + b) == Symbols(a) + Symbols(b)
  {
  }

  lemma CodesAppend(a: string, b: string)
    requires InCharset(a) && InCharset(b)
    ensures InCharset(a + b) && Codes(a + b) == Codes(a) + Codes(b)
  {
    hide CHARSET, Code;
  }

  lemma AbsorbTextAppend(r: Register, a: string, b: string)
    requires InCharset(a) && InCharset(b)
    ensures InCharset(a + b) && AbsorbText(r, a + b) == AbsorbText(AbsorbText(r, a), b)
  {
    CodesAppend(a, b);
    hide Absorb, Code, CHARSET, InCharset, Symbols;
    SymbolsAppend(Codes(a), Codes(b));
    AbsorbAppend(r, Symbols(Codes(a)), Symbols(Codes(b)));
  }

  /** The remainder after the first `n` characters behind the separator is `s`. */
  ghost predicate ReadTo(text: string, n: nat, s: Register) {
    |text| == 40 && n <= 38 && InCharset(text[2..n + 2]) && AbsorbText(START, text[2..n + 2]) == s
  }

  lemma ReadOne(text: string, n: nat, s: Register, v: nat)
    requires ReadTo(text, n, s) && n < 38 && v < 32 && text[n + 2] == CHARSET[v]
    ensures ReadTo(text, n + 1, Next(s, v as bv5))
  {
    CharsetNumbered(v);
    SliceNext(text, n);
    hide CHARSET, Code, Next, AbsorbText, InCharset, START, Printable, Lower;
    OneMore(text[2..n + 2], text[n + 2], text[2..n + 3], s, v);
  }

  lemma SliceNext(text: string, n: nat)
    requires |text| == 40 && n < 38
    ensures text[2..n + 3] == text[2..n + 2] + [text[n + 2]]
  {
  }

  lemma OneMore(before: string, c: char, after: string, s: Register, v: nat)
    requires InCharset(before) && AbsorbText(START, before) == s && after == before + [c]
    requires v < 32 && c in CHARSET && Code(c) == v
    ensures InCharset(after) && AbsorbText(START, after) == Next(s, v as bv5)
  {
    hide CHARSET, Code, Next, Absorb;
    assert InCharset([c]) && Codes([c]) == [v];
    assert Symbols([v]) == [v as bv5];
    AbsorbOne(s, v as bv5);
    AbsorbTextAppend(START, before, [c]);
  }

  /** The next character is at this position of the charset, and leaves this remainder. */
  lemma Reads(n: nat, s: Register, v: nat, x: Symbol, t: Register)
    requires ReadTo(NAMED, n, s) && n < 38 && v < 32 && NAMED[n + 2] == CHARSET[v]
    requires v as bv5 == x && Next(s, x) == t
    ensures ReadTo(NAMED, n + 1, t)
  {
    hide Next, NAMED, CHARSET, ReadTo;
    ReadOne(NAMED, n, s, v);
  }

  /** The multiples of the coefficients by the powers of two. */
  lemma Multiples()
    ensures Doubled(29, 1) == 19 && Doubled(29, 2) == 15
    ensures Doubled(29, 3) == 30 && Doubled(29, 4) == 21
    ensures Doubled(22, 1) == 5 && Doubled(22, 2) == 10
    ensures Doubled(22, 3) == 20 && Doubled(22, 4) == 1
    ensures Doubled(20, 1) == 1 && Doubled(20, 2) == 2
    ensures Doubled(20, 3) == 4 && Doubled(20, 4) == 8
    ensures Doubled(21, 1) == 3 && Doubled(21, 2) == 6
    ensures Doubled(21, 3) == 12 && Doubled(21, 4) == 24
    ensures Doubled(18, 1) == 13 && Doubled(18, 2) == 26
    ensures Doubled(18, 3) == 29 && Doubled(18, 4) == 19
  {
  }

  lemma Text1()
    ensures NAMED[2] == CHARSET[18] && NAMED[3] == CHARSET[8] && NAMED[4] == CHARSET[7]
    ensures NAMED[5] == CHARSET[27] && NAMED[6] == CHARSET[11]
  {
  }

  lemma Steps1()
    ensures Next(Register(0, 0, 1, 3, 0, 7), 18) == Register(0, 1, 3, 0, 7, 18)
    ensures Next(Register(0, 1, 3, 0, 7, 18), 8) == Register(1, 3, 0, 7, 18, 8)
    ensures Next(Register(1, 3, 0, 7, 18, 8), 7) == Register(30, 22, 19, 7, 21, 21)
    ensures Next(Register(30, 22, 19, 7, 21, 21), 27) == Register(1, 9, 8, 4, 2, 2)
    ensures Next(Register(1, 9, 8, 4, 2, 2), 11) == Register(20, 30, 16, 23, 31, 25)
  {
    Multiples();
  }

  lemma Part1()
    requires ReadTo(NAMED, 0, Register(0, 0, 1, 3, 0, 7))
    ensures ReadTo(NAMED, 5, Register(20, 30, 16, 23, 31, 25))
  {
    hide ReadTo, NAMED, CHARSET, Next;
    Text1();
    Steps1();
    Reads(0, Register(0, 0, 1, 3, 0, 7), 18, 18, Register(0, 1, 3, 0, 7, 18));
    Reads(1, Register(0, 1, 3, 0, 7, 18), 8, 8, Register(1, 3, 0, 7, 18, 8));
    Reads(2, Register(1, 3, 0, 7, 18, 8), 7, 7, Register(30, 22, 19, 7, 21, 21));
    Reads(3, Register(30, 22, 19, 7, 21, 21), 27, 27, Register(1, 9, 8, 4, 2, 2));
    Reads(4, Register(1, 9, 8, 4, 2, 2), 11, 11, Register(20, 30, 16, 23, 31, 25));
  }

  lemma Text2()
    ensures NAMED[7] == CHARSET[28] && NAMED[8] == CHARSET[11] && NAMED[9] == CHARSET[28]
    ensures NAMED[10] == CHARSET[5] && NAMED[11] == CHARSET[22]
  {
  }

  lemma Steps2()
    ensures Next(Register(20, 30, 16, 23, 31, 25), 28) == Register(4, 27, 29, 1, 3, 21)
    ensures Next(Register(4, 27, 29, 1, 3, 21), 11) == Register(20, 23, 3, 5, 26, 17)
    ensures Next(Register(20, 23, 3, 5, 26, 17), 28) == Register(13, 8, 15, 4, 11, 21)
    ensures Next(Register(13, 8, 15, 4, 11, 21), 5) == Register(4, 7, 22, 20, 25, 16)
    ensures Next(Register(4, 7, 22, 20, 25, 16), 22) == Register(8, 28, 22, 31, 31, 12)
  {
    Multiples();
  }

  lemma Part2()
    requires ReadTo(NAMED, 5, Register(20, 30, 16, 23, 31, 25))
    ensures ReadTo(NAMED, 10, Register(8, 28, 22, 31, 31, 12))
  {
    hide ReadTo, NAMED, CHARSET, Next;
    Text2();
    Steps2();
    Reads(5, Register(20, 30, 16, 23, 31, 25), 28, 28, Register(4, 27, 29, 1, 3, 21));
    Reads(6, Register(4, 27, 29, 1, 3, 21), 11, 11, Register(20, 23, 3, 5, 26, 17));
    Reads(7, Register(20, 23, 3, 5, 26, 17), 28, 28, Register(13, 8, 15, 4, 11, 21));
    Reads(8, Register(13, 8, 15, 4, 11, 21), 5, 5, Register(4, 7, 22, 20, 25, 16));
    Reads(9, Register(4, 7, 22, 20, 25, 16), 22, 22, Register(8, 28, 22, 31, 31, 12));
  }

  lemma Text3()
    ensures NAMED[12] == CHARSET[23] && NAMED[13] == CHARSET[23] && NAMED[14] == CHARSET[9]
    ensures NAMED[15] == CHARSET[14] && NAMED[16] == CHARSET[24]
  {
  }

  lemma Steps3()
    ensures Next(Register(8, 28, 22, 31, 31, 12), 23) == Register(2, 2, 27, 19, 18, 10)
    ensures Next(Register(2, 2, 27, 19, 18, 10), 23) == Register(17, 30, 18, 17, 25, 26)
    ensures Next(Register(17, 30, 18, 17, 25, 26), 9) == Register(22, 5, 13, 20, 18, 8)
    ensures Next(Register(22, 5, 13, 20, 18, 8), 14) == Register(12, 3, 31, 15, 1, 10)
    ensures Next(Register(12, 3, 31, 15, 1, 10), 24) == Register(18, 1, 9, 11, 27, 31)
  {
    Multiples();
  }

  lemma Part3()
    requires ReadTo(NAMED, 10, Register(8, 28, 22, 31, 31, 12))
    ensures ReadTo(NAMED, 15, Register(18, 1, 9, 11, 27, 31))
  {
    hide ReadTo, NAMED, CHARSET, Next;
    Text3();
    Steps3();
    Reads(10, Register(8, 28, 22, 31, 31, 12), 23, 23, Register(2, 2, 27, 19, 18, 10));
    Reads(11, Register(2, 2, 27, 19, 18, 10), 23, 23, Register(17, 30, 18, 17, 25, 26));
    Reads(12, Register(17, 30, 18, 17, 25, 26), 9, 9, Register(22, 5, 13, 20, 18, 8));
    Reads(13, Register(22, 5, 13, 20, 18, 8), 14, 14, Register(12, 3, 31, 15, 1, 10));
    Reads(14, Register(12, 3, 31, 15, 1, 10), 24, 24, Register(18, 1, 9, 11, 27, 31));
  }

  lemma Text4()
    ensures NAMED[17] == CHARSET[21] && NAMED[18] == CHARSET[19] && NAMED[19] == CHARSET[6]
    ensures NAMED[20] == CHARSET[27] && NAMED[21] == CHARSET[28]
  {
  }

  lemma Steps4()
    ensures Next(Register(18, 1, 9, 11, 27, 31), 21) == Register(7, 13, 2, 0, 25, 11)
    ensures Next(Register(7, 13, 2, 0, 25, 11), 19) == Register(12, 27, 23, 9, 10, 22)
    ensures Next(Register(12, 27, 23, 9, 10, 22), 6) == Register(10, 9, 15, 0, 7, 1)
    ensures Next(Register(10, 9, 15, 0, 7, 1), 27) == Register(4, 30, 5, 8, 12, 11)
    ensures Next(Register(4, 30, 5, 8, 12, 11), 28) == Register(17, 15, 10, 10, 4, 6)
  {
    Multiples();
  }

  lemma Part4()
    requires ReadTo(NAMED, 15, Register(18, 1, 9, 11, 27, 31))
    ensures ReadTo(NAMED, 20, Register(17, 15, 10, 10, 4, 6))
  {
    hide ReadTo, NAMED, CHARSET, Next;
    Text4();
    Steps4();
    Reads(15, Register(18, 1, 9, 11, 27, 31), 21, 21, Register(7, 13, 2, 0, 25, 11));
    Reads(16, Register(7, 13, 2, 0, 25, 11), 19, 19, Register(12, 27, 23, 9, 10, 22));
    Reads(17, Register(12, 27, 23, 9, 10, 22), 6, 6, Register(10, 9, 15, 0, 7, 1));
    Reads(18, Register(10, 9, 15, 0, 7, 1), 27, 27, Register(4, 30, 5, 8, 12, 11));
    Reads(19, Register(4, 30, 5, 8, 12, 11), 28, 28, Register(17, 15, 10, 10, 4, 6));
  }

  lemma Text5()
    ensures NAMED[22] == CHARSET[23] && NAMED[23] == CHARSET[24] && NAMED[24] == CHARSET[1]
    ensures NAMED[25] == CHARSET[9] && NAMED[26] == CHARSET[11]
  {
  }

  lemma Steps5()
    ensures Next(Register(17, 15, 10, 10, 4, 6), 23) == Register(7, 29, 22, 9, 14, 22)
    ensures Next(Register(7, 29, 22, 9, 14, 22), 24) == Register(28, 15, 30, 30, 23, 29)
    ensures Next(Register(28, 15, 30, 30, 23, 29), 1) == Register(11, 1, 16, 5, 25, 21)
    ensures Next(Register(11, 1, 16, 5, 25, 21), 9) == Register(17, 23, 20, 3, 5, 11)
    ensures Next(Register(17, 23, 20, 3, 5, 11), 11) == Register(31, 3, 31, 8, 3, 10)
  {
    Multiples();
  }

  lemma Part5()
    requires ReadTo(NAMED, 20, Register(17, 15, 10, 10, 4, 6))
    ensures ReadTo(NAMED, 25, Register(31, 3, 31, 8, 3, 10))
  {
    hide ReadTo, NAMED, CHARSET, Next;
    Text5();
    Steps5();
    Reads(20, Register(17, 15, 10, 10, 4, 6), 23, 23, Register(7, 29, 22, 9, 14, 22));
    Reads(21, Register(7, 29, 22, 9, 14, 22), 24, 24, Register(28, 15, 30, 30, 23, 29));
    Reads(22, Register(28, 15, 30, 30, 23, 29), 1, 1, Register(11, 1, 16, 5, 25, 21));
    Reads(23, Register(11, 1, 16, 5, 25, 21), 9, 9, Register(17, 23, 20, 3, 5, 11));
    Reads(24, Register(17, 23, 20, 3, 5, 11), 11, 11, Register(31, 3, 31, 8, 3, 10));
  }

  lemma Text6()
    ensures NAMED[27] == CHARSET[9] && NAMED[28] == CHARSET[15] && NAMED[29] == CHARSET[1]
    ensures NAMED[30] == CHARSET[29] && NAMED[31] == CHARSET[18]
  {
  }

  lemma Steps6()
    ensures Next(Register(31, 3, 31, 8, 3, 10), 9) == Register(9, 19, 19, 7, 0, 2)
    ensures Next(Register(9, 19, 19, 7, 0, 2), 15) == Register(16, 17, 23, 25, 1, 0)
    ensures Next(Register(16, 17, 23, 25, 1, 0), 1) == Register(4, 22, 17, 25, 21, 18)
    ensures Next(Register(4, 22, 17, 25, 21, 18), 29) == Register(25, 27, 27, 19, 29, 7)
    ensures Next(Register(25, 27, 27, 19, 29, 7), 18) == Register(13, 24, 11, 28, 17, 14)
  {
    Multiples();
  }

  lemma Part6()
    requires ReadTo(NAMED, 25, Register(31, 3, 31, 8, 3, 10))
    ensures ReadTo(NAMED, 30, Register(13, 24, 11, 28, 17, 14))
  {
    hide ReadTo, NAMED, CHARSET, Next;
    Text6();
    Steps6();
    Reads(25, Register(31, 3, 31, 8, 3, 10), 9, 9, Register(9, 19, 19, 7, 0, 2));
    Reads(26, Register(9, 19, 19, 7, 0, 2), 15, 15, Register(16, 17, 23, 25, 1, 0));
    Reads(27, Register(16, 17, 23, 25, 1, 0), 1, 1, Register(4, 22, 17, 25, 21, 18));
    Reads(28, Register(4, 22, 17, 25, 21, 18), 29, 29, Register(25, 27, 27, 19, 29, 7));
    Reads(29, Register(25, 27, 27, 19, 29, 7), 18, 18, Register(13, 24, 11, 28, 17, 14));
  }

  lemma Text7()
    ensures NAMED[32] == CHARSET[13] && NAMED[33] == CHARSET[23] && NAMED[34] == CHARSET[9]
    ensures NAMED[35] == CHARSET[12] && NAMED[36] == CHARSET[16]
  {
  }

  lemma Steps7()
    ensures Next(Register(13, 24, 11, 28, 17, 14), 13) == Register(20, 3, 14, 14, 2, 24)
    ensures Next(Register(20, 3, 14, 14, 2, 24), 23) == Register(25, 5, 4, 28, 2, 30)
    ensures Next(Register(25, 5, 4, 28, 2, 30), 9) == Register(19, 7, 4, 3, 8, 21)
    ensures Next(Register(19, 7, 4, 3, 8, 21), 12) == Register(28, 22, 30, 6, 14, 0)
    ensures Next(Register(28, 22, 30, 6, 14, 0), 16) == Register(18, 1, 8, 28, 4, 4)
  {
    Multiples();
  }

  lemma Part7()
    requires ReadTo(NAMED, 30, Register(13, 24, 11, 28, 17, 14))
    ensures ReadTo(NAMED, 35, Register(18, 1, 8, 28, 4, 4))
  {
    hide ReadTo, NAMED, CHARSET, Next;
    Text7();
    Steps7();
    Reads(30, Register(13, 24, 11, 28, 17, 14), 13, 13, Register(20, 3, 14, 14, 2, 24));
    Reads(31, Register(20, 3, 14, 14, 2, 24), 23, 23, Register(25, 5, 4, 28, 2, 30));
    Reads(32, Register(25, 5, 4, 28, 2, 30), 9, 9, Register(19, 7, 4, 3, 8, 21));
    Reads(33, Register(19, 7, 4, 3, 8, 21), 12, 12, Register(28, 22, 30, 6, 14, 0));
    Reads(34, Register(28, 22, 30, 6, 14, 0), 16, 16, Register(18, 1, 8, 28, 4, 4));
  }

  lemma Text8()
    ensures NAMED[37] == CHARSET[0] && NAMED[38] == CHARSET[9] && NAMED[39] == CHARSET[20]
  {
  }

  lemma Steps8()
    ensures Next(Register(18, 1, 8, 28, 4, 4), 0) == Register(7, 12, 21, 31, 2, 30)
    ensures Next(Register(7, 12, 21, 31, 2, 30), 9) == Register(13, 12, 8, 18, 31, 12)
    ensures Next(Register(13, 12, 8, 18, 31, 12), 20) == Register(0, 0, 0, 0, 0, 1)
  {
    Multiples();
  }

  lemma Part8()
    requires ReadTo(NAMED, 35, Register(18, 1, 8, 28, 4, 4))
    ensures ReadTo(NAMED, 38, Register(0, 0, 0, 0, 0, 1))
  {
    hide ReadTo, NAMED, CHARSET, Next;
    Text8();
    Steps8();
    Reads(35, Register(18, 1, 8, 28, 4, 4), 0, 0, Register(7, 12, 21, 31, 2, 30));
    Reads(36, Register(7, 12, 21, 31, 2, 30), 9, 9, Register(13, 12, 8, 18, 31, 12));
    Reads(37, Register(13, 12, 8, 18, 31, 12), 20, 20, Register(0, 0, 0, 0, 0, 1));
  }

  lemma NamedRemainder()
    ensures ReadTo(NAMED, 38, ONE)
  {
    assert NAMED[2..2] == "" && Symbols(Codes("")) == [];
    assert ReadTo(NAMED, 0, START);
    hide ReadTo;
    Part1();
    Part2();
    Part3();
    Part4();
    Part5();
    Part6();
    Part7();
    Part8();
  }

  lemma PrefixRemainder()
    ensures Absorb(ONE, [3, 0, 7]) == START
  {
    AbsorbTwo(ONE, 3, 0);
    AbsorbOne(Next(Next(ONE, 3), 0), 7);
    AbsorbAppend(ONE, [3, 0], [7]);
    assert [3, 0] + [7] == [3, 0, 7];
  }

  lemma AcceptedByRemainder(a: string)
    requires |a| == 40 && a[0] == 'g' && a[1] == '1' && ReadTo(a, 38, ONE)
    ensures Accepted(a, GNO)
  {
    PrefixRemainder();
    assert a[2..40] == a[2..];
    hide Absorb, InCharset, Codes, Symbols, Accepted, START;
    AbsorbAppend(ONE, [3, 0, 7], Symbols(Codes(a[2..])));
    AcceptedIffCanonical(a);
  }

  /** The address is accepted under the default profile. */
  lemma NamedIsAccepted()
    ensures Accepted(NAMED, GNO)
  {
    hide ReadTo, Accepted, NAMED;
    NamedFrame();
    NamedRemainder();
    AcceptedByRemainder(NAMED);
  }

  lemma NamedFrame()
    ensures |NAMED| == 40 && NAMED[0] == 'g' && NAMED[1] == '1'
  {
  }
}
