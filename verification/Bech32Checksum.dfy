/** The Bech32 checksum of BIP 173, section "Bech32", subsection "Checksum". The source
    keeps a 30-bit register in one integer; the specification reads it as the six
    five-bit symbols of a polynomial remainder. */
module Bech32Checksum {
  type Symbol = bv5

  /** Six symbols, the most significant first. */
  datatype Register = Register(s5: Symbol, s4: Symbol, s3: Symbol, s2: Symbol, s1: Symbol, s0: Symbol) {
    function Xor(d: Register): Register {
      Register(s5 ^ d.s5, s4 ^ d.s4, s3 ^ d.s3, s2 ^ d.s2, s1 ^ d.s1, s0 ^ d.s0)
    }

    /** Drop the top symbol and append `v`. */
    function Push(v: Symbol): Register {
      Register(s4, s3, s2, s1, s0, v)
    }
  }

  /** The register an integer stands for. */
  function Split(w: bv30): Register {
    Register(((w >> 25) & 31) as bv5, ((w >> 20) & 31) as bv5, ((w >> 15) & 31) as bv5,
             ((w >> 10) & 31) as bv5, ((w >> 5) & 31) as bv5, (w & 31) as bv5)
  }

  const GENERATORS: seq<bv30> := [0x3B6A57B2, 0x26508E6D, 0x1EA119FA, 0x3D4233DD, 0x2A1462B3]

  predicate Selects(top: Symbol, index: nat)
    requires index < 5
  {
    match index
    case 0 => top & 1 != 0
    case 1 => top & 2 != 0
    case 2 => top & 4 != 0
    case 3 => top & 8 != 0
    case _ => top & 16 != 0
  }

  function Reduce(top: Symbol, r: Register, upTo: nat): Register
    requires upTo <= 5
  {
    if upTo == 0 then r
    else if Selects(top, upTo - 1) then Reduce(top, r, upTo - 1).Xor(Split(GENERATORS[upTo - 1]))
    else Reduce(top, r, upTo - 1)
  }

  function Step(r: Register, v: Symbol): Register {
    Reduce(r.s5, r.Push(v), 5)
  }

  /** The remainder after reading `values`, starting from `r`. */
  function Absorb(r: Register, values: seq<Symbol>): Register {
    if values == [] then r
    else Step(Absorb(r, values[..|values| - 1]), values[|values| - 1])
  }

  const ONE := Register(0, 0, 0, 0, 0, 1)

  // ----- the integer algorithm -----

  lemma SplitXor(a: bv30, b: bv30)
    ensures Split(a ^ b) == Split(a).Xor(Split(b))
  {
  }

  lemma SplitPush(c: bv30, v: Symbol)
    ensures Split(((c & 0x1FFFFFF) << 5) ^ (v as bv30)) == Split(c).Push(v)
  {
  }

  lemma SplitSelects(c: bv30, index: nat)
    requires index < 5
    ensures ((c >> 25) >> index) & 1 == 1 <==> Selects(Split(c).s5, index)
  {
    if index == 0 {} else if index == 1 {} else if index == 2 {} else if index == 3 {} else {}
  }

  lemma SplitOne(c: bv30)
    ensures Split(c) == ONE <==> c == 1
  {
  }

  /** One generator of the inner loop. */
  lemma ReduceNext(before: bv30, v: Symbol, checksum: bv30, index: nat)
    requires index < 5 && Split(checksum) == Reduce(Split(before).s5, Split(before).Push(v), index)
    ensures var next := if ((before >> 25) >> index) & 1 == 1 then checksum ^ GENERATORS[index] else checksum;
            Split(next) == Reduce(Split(before).s5, Split(before).Push(v), index + 1)
  {
    SplitSelects(before, index);
    SplitXor(checksum, GENERATORS[index]);
  }

  method Polymod(values: seq<Symbol>) returns (checksum: bv30)
    ensures Split(checksum) == Absorb(ONE, values)
  {
    checksum := 1;
    for i := 0 to |values|
      invariant Split(checksum) == Absorb(ONE, values[..i])
    {
      var top := checksum >> 25;
      ghost var before := checksum;
      SplitPush(checksum, values[i]);
      checksum := ((checksum & 0x1FFFFFF) << 5) ^ (values[i] as bv30);
      for index := 0 to 5
        invariant Split(checksum) == Reduce(Split(before).s5, Split(before).Push(values[i]), index)
      {
        hide Absorb, Split, Reduce;
        ReduceNext(before, values[i], checksum, index);
        if (top >> index) & 1 == 1 {
          checksum := checksum ^ GENERATORS[index];
        }
      }
      assert values[..i + 1][..i] == values[..i];
    }
    assert values[..|values|] == values;
  }

  // ----- arithmetic in the field of 32 elements -----

  /** Multiplication by the field's generator: a shift, reduced by x^5 + x^3 + 1. */
  function Double(a: Symbol): Symbol {
    if a & 16 == 0 then a << 1 else (a << 1) ^ 9
  }

  function Doubled(a: Symbol, n: nat): Symbol { if n == 0 then a else Double(Doubled(a, n - 1)) }

  /** The product with the lowest `n` bits of a field element, by doubling and adding. */
  function TimesUpTo(t: Symbol, c: Symbol, n: nat): Symbol
    requires n <= 5
  {
    if n == 0 then 0 else TimesUpTo(t, c, n - 1) ^ (if Selects(t, n - 1) then Doubled(c, n - 1) else 0)
  }

  /** The product of two field elements. */
  function Times(t: Symbol, c: Symbol): Symbol { TimesUpTo(t, c, 5) }

  /** The generator of BIP 173 without its leading term:
      x^6 + {29}x^5 + {22}x^4 + {20}x^3 + {21}x^2 + {29}x + {18}. */
  const POLYNOMIAL := Register(29, 22, 20, 21, 29, 18)

  function ScaledUpTo(t: Symbol, p: Register, n: nat): Register
    requires n <= 5
  {
    Register(TimesUpTo(t, p.s5, n), TimesUpTo(t, p.s4, n), TimesUpTo(t, p.s3, n),
             TimesUpTo(t, p.s2, n), TimesUpTo(t, p.s1, n), TimesUpTo(t, p.s0, n))
  }

  /** Every symbol multiplied. */
  function Scaled(t: Symbol, p: Register): Register {
    Register(Times(t, p.s5), Times(t, p.s4), Times(t, p.s3), Times(t, p.s2), Times(t, p.s1), Times(t, p.s0))
  }

  function DoubledAll(p: Register, n: nat): Register {
    Register(Doubled(p.s5, n), Doubled(p.s4, n), Doubled(p.s3, n), Doubled(p.s2, n), Doubled(p.s1, n), Doubled(p.s0, n))
  }

  /** The first generator is the polynomial and each other one the double of the one before. */
  lemma GeneratorsDouble(i: nat)
    requires i < 5
    ensures Split(GENERATORS[i]) == DoubledAll(POLYNOMIAL, i)
  {
    if i > 0 {
      GeneratorsDouble(i - 1);
      if i == 1 {} else if i == 2 {} else if i == 3 {} else {}
    }
  }

  // ----- one step is injective in the register -----

  lemma SwapXor(a: Symbol, b: Symbol, c: Symbol)
    ensures (a ^ b) ^ c == (a ^ c) ^ b
  {
  }

  lemma SwapXorRegister(a: Register, b: Register, c: Register)
    ensures a.Xor(b).Xor(c) == a.Xor(c).Xor(b)
  {
    SwapXor(a.s5, b.s5, c.s5);
    SwapXor(a.s4, b.s4, c.s4);
    SwapXor(a.s3, b.s3, c.s3);
    SwapXor(a.s2, b.s2, c.s2);
    SwapXor(a.s1, b.s1, c.s1);
    SwapXor(a.s0, b.s0, c.s0);
  }

  /** Which generators are added depends on the top symbol alone. */
  lemma {:induction false} ReduceShift(top: Symbol, r: Register, d: Register, upTo: nat)
    requires upTo <= 5
    ensures Reduce(top, r.Xor(d), upTo) == Reduce(top, r, upTo).Xor(d)
  {
    if upTo > 0 {
      ReduceShift(top, r, d, upTo - 1);
      SwapXorRegister(Reduce(top, r, upTo - 1), d, Split(GENERATORS[upTo - 1]));
    }
  }

  /** A difference that has not reached the top symbol just moves up. */
  lemma StepDifference(r: Register, d: Register, v: Symbol, e: Symbol)
    requires d.s5 == 0
    ensures Step(r.Xor(d), v ^ e) == Step(r, v).Xor(d.Push(e))
  {
    ReduceShift(r.s5, r.Push(v), d.Push(e), 5);
  }

  const ZERO := Register(0, 0, 0, 0, 0, 0)

  lemma XorFacts(a: Symbol, b: Symbol, c: Symbol)
    ensures a ^ b == 0 ==> a == b
    ensures a ^ c == b ^ c ==> a == b
  {
  }

  lemma XorZero(a: Symbol)
    ensures a ^ 0 == a && 0 ^ a == a && a ^ a == 0
  {
  }

  lemma XorTwice(a: Symbol, b: Symbol)
    ensures a ^ (a ^ b) == b
  {
  }

  lemma XorZeroRegister(r: Register)
    ensures r.Xor(ZERO) == r && ZERO.Xor(r) == r && r.Xor(r) == ZERO
  {
    XorZero(r.s5);
    XorZero(r.s4);
    XorZero(r.s3);
    XorZero(r.s2);
    XorZero(r.s1);
    XorZero(r.s0);
  }

  lemma XorTwiceRegister(r: Register, d: Register)
    ensures r.Xor(r.Xor(d)) == d
  {
    XorTwice(r.s5, d.s5);
    XorTwice(r.s4, d.s4);
    XorTwice(r.s3, d.s3);
    XorTwice(r.s2, d.s2);
    XorTwice(r.s1, d.s1);
    XorTwice(r.s0, d.s0);
  }

  lemma XorRegisterFacts(r: Register, d: Register)
    ensures r.Xor(ZERO) == r && ZERO.Xor(r) == r
    ensures r.Xor(r.Xor(d)) == d
    ensures r == r.Xor(d) ==> d == ZERO
  {
    hide Register.Xor;
    XorZeroRegister(r);
    XorTwiceRegister(r, d);
  }

  /** The low symbols of the generators are linearly independent. */
  lemma FeedbackInjective(t: Symbol, u: Symbol)
    requires Reduce(t, ZERO, 5).s0 == Reduce(u, ZERO, 5).s0
    ensures t == u
  {
    LowFeedback(t);
    LowFeedback(u);
  }

  lemma LowFeedback(t: Symbol)
    ensures Reduce(t, ZERO, 5).s0
         == (if t & 1 != 0 then 18 else 0) ^ (if t & 2 != 0 then 13 else 0) ^ (if t & 4 != 0 then 26 else 0)
            ^ (if t & 8 != 0 then 29 else 0) ^ (if t & 16 != 0 then 19 else 0)
  {
    assert Split(GENERATORS[0]).s0 == 18;
    assert Split(GENERATORS[1]).s0 == 13;
    assert Split(GENERATORS[2]).s0 == 26;
    assert Split(GENERATORS[3]).s0 == 29;
    assert Split(GENERATORS[4]).s0 == 19;
    assert Reduce(t, ZERO, 1).s0 == if t & 1 != 0 then 18 else 0;
    assert Reduce(t, ZERO, 2).s0 == Reduce(t, ZERO, 1).s0 ^ (if t & 2 != 0 then 13 else 0);
    assert Reduce(t, ZERO, 3).s0 == Reduce(t, ZERO, 2).s0 ^ (if t & 4 != 0 then 26 else 0);
    assert Reduce(t, ZERO, 4).s0 == Reduce(t, ZERO, 3).s0 ^ (if t & 8 != 0 then 29 else 0);
    assert Reduce(t, ZERO, 5).s0 == Reduce(t, ZERO, 4).s0 ^ (if t & 16 != 0 then 19 else 0);
  }

  lemma XorCancel(f: Register, a: Register, b: Register)
    requires f.Xor(a) == f.Xor(b)
    ensures a == b
  {
    XorRegisterFacts(f, a);
    XorRegisterFacts(f, b);
    XorCancelSymbols(f, a, b);
  }

  lemma XorCancelSymbols(f: Register, a: Register, b: Register)
    requires f.Xor(a) == f.Xor(b)
    ensures f.Xor(f.Xor(a)) == f.Xor(f.Xor(b))
  {
  }

  /** Multiplying the remainder by x is invertible: reading the same symbol keeps
      different registers different. */
  lemma StepInjective(a: Register, b: Register, v: Symbol)
    requires Step(a, v) == Step(b, v)
    ensures a == b
  {
    XorRegisterFacts(a.Push(v), ZERO);
    XorRegisterFacts(b.Push(v), ZERO);
    ReduceShift(a.s5, ZERO, a.Push(v), 5);
    ReduceShift(b.s5, ZERO, b.Push(v), 5);
    XorFacts(Reduce(a.s5, ZERO, 5).s0, Reduce(b.s5, ZERO, 5).s0, v);
    FeedbackInjective(a.s5, b.s5);
    XorCancel(Reduce(a.s5, ZERO, 5), a.Push(v), b.Push(v));
  }

  lemma {:induction false} SuffixInjective(a: Register, b: Register, suffix: seq<Symbol>)
    requires Absorb(a, suffix) == Absorb(b, suffix)
    ensures a == b
  {
    if suffix != [] {
      var n := |suffix| - 1;
      StepInjective(Absorb(a, suffix[..n]), Absorb(b, suffix[..n]), suffix[n]);
      SuffixInjective(a, b, suffix[..n]);
    }
  }

  lemma {:induction false} AbsorbAppend(r: Register, a: seq<Symbol>, b: seq<Symbol>)
    ensures Absorb(r, a + b) == Absorb(Absorb(r, a), b)
  {
    if b == [] {
      assert a + b == a;
    } else {
      var n := |b| - 1;
      AbsorbAppend(r, a, b[..n]);
      assert (a + b)[..|a + b| - 1] == a + b[..n];
    }
  }

  // ----- the step is multiplication by x -----

  lemma AddBit(t: Symbol, p: Register, n: nat)
    requires n < 5
    ensures ScaledUpTo(t, p, n + 1) == ScaledUpTo(t, p, n).Xor(if Selects(t, n) then DoubledAll(p, n) else ZERO)
  {
    hide Selects, Doubled;
  }

  lemma {:induction false} ReduceIsScaled(t: Symbol, n: nat)
    requires n <= 5
    ensures Reduce(t, ZERO, n) == ScaledUpTo(t, POLYNOMIAL, n)
  {
    if n > 0 {
      ReduceIsScaled(t, n - 1);
      GeneratorsDouble(n - 1);
      XorZeroRegister(Reduce(t, ZERO, n - 1));
      AddBit(t, POLYNOMIAL, n - 1);
      hide Register.Xor, Split, GENERATORS, Selects, ScaledUpTo, DoubledAll;
    }
  }

  /** The feedback of a top symbol is its multiple of the polynomial. */
  lemma FeedbackIsMultiple(t: Symbol)
    ensures Reduce(t, ZERO, 5) == Scaled(t, POLYNOMIAL)
  {
    ReduceIsScaled(t, 5);
    hide TimesUpTo, Reduce;
  }

  /** Reading a symbol multiplies the remainder by x, adds the symbol and reduces by the polynomial of
      BIP 173; in characteristic two subtracting the multiple is adding it. */
  lemma StepMultiplies(r: Register, v: Symbol)
    ensures Step(r, v) == r.Push(v).Xor(Scaled(r.s5, POLYNOMIAL))
  {
    XorZeroRegister(r.Push(v));
    ReduceShift(r.s5, ZERO, r.Push(v), 5);
    FeedbackIsMultiple(r.s5);
    hide Scaled, Reduce;
    XorCommutes(Scaled(r.s5, POLYNOMIAL), r.Push(v));
  }

  lemma XorCommutes(a: Register, b: Register)
    ensures a.Xor(b) == b.Xor(a)
  {
  }

  // ----- bursts -----

  /** A difference pattern read into an empty register without feedback. */
  function Trail(es: seq<Symbol>): Register {
    if es == [] then ZERO else Trail(es[..|es| - 1]).Push(es[|es| - 1])
  }

  function Differences(a: seq<Symbol>, b: seq<Symbol>): (es: seq<Symbol>)
    requires |a| == |b|
    ensures |es| == |a|
  {
    seq(|a|, i requires 0 <= i < |a| => a[i] ^ b[i])
  }

  lemma {:induction false} TrailTop(es: seq<Symbol>)
    requires |es| <= 5
    ensures Trail(es).s5 == 0 && (|es| <= 4 ==> Trail(es).s4 == 0) && (|es| <= 3 ==> Trail(es).s3 == 0)
    ensures (|es| <= 2 ==> Trail(es).s2 == 0) && (|es| <= 1 ==> Trail(es).s1 == 0)
  {
    if es != [] { TrailTop(es[..|es| - 1]); }
  }

  lemma {:induction false} TrailNonzero(es: seq<Symbol>, i: nat)
    requires |es| <= 6 && i < |es| && es[i] != 0
    ensures Trail(es) != ZERO
  {
    var n := |es| - 1;
    if i < n {
      TrailNonzero(es[..n], i);
      TrailTop(es[..n]);
    }
  }

  /** Six symbols or fewer pass through the register before feedback can touch their difference. */
  lemma {:induction false} WindowDifference(r: Register, a: seq<Symbol>, b: seq<Symbol>)
    requires |a| == |b| <= 6
    ensures Absorb(r, b) == Absorb(r, a).Xor(Trail(Differences(a, b)))
  {
    var es := Differences(a, b);
    if a == [] {
      XorRegisterFacts(r, ZERO);
    } else {
      var n := |a| - 1;
      WindowDifference(r, a[..n], b[..n]);
      assert Differences(a[..n], b[..n]) == es[..n];
      TrailTop(es[..n]);
      XorFacts(a[n], b[n], 0);
      StepDifference(Absorb(r, a[..n]), Trail(es[..n]), a[n], es[n]);
    }
  }

  /** Changing symbols inside a window of six always changes the final remainder. */
  lemma BurstDetected(prefix: seq<Symbol>, a: seq<Symbol>, b: seq<Symbol>, suffix: seq<Symbol>)
    requires |a| == |b| <= 6 && a != b
    ensures Absorb(ONE, prefix + a + suffix) != Absorb(ONE, prefix + b + suffix)
  {
    var r := Absorb(ONE, prefix);
    AbsorbAppend(ONE, prefix, a);
    AbsorbAppend(ONE, prefix, b);
    AbsorbAppend(ONE, prefix + a, suffix);
    AbsorbAppend(ONE, prefix + b, suffix);
    var es := Differences(a, b);
    var i :| 0 <= i < |a| && a[i] != b[i];
    XorFacts(a[i], b[i], 0);
    TrailNonzero(es, i);
    WindowDifference(r, a, b);
    XorRegisterFacts(Absorb(r, a), Trail(es));
    if Absorb(r, a) != Absorb(r, b) && Absorb(Absorb(r, a), suffix) == Absorb(Absorb(r, b), suffix) {
      SuffixInjective(Absorb(r, a), Absorb(r, b), suffix);
    }
  }

  /** The six symbols that bring a register to any target. */
  lemma Reachable(r: Register, target: Register) returns (check: seq<Symbol>)
    ensures |check| == 6 && Absorb(r, check) == target
  {
    var blank: seq<Symbol> := [0, 0, 0, 0, 0, 0];
    var z := Absorb(r, blank);
    var d := z.Xor(target);
    check := [d.s5, d.s4, d.s3, d.s2, d.s1, d.s0];
    DifferencesFromBlank(check);
    WindowDifference(r, blank, check);
    XorRegisterFacts(z, target);
  }

  lemma DifferencesFromBlank(check: seq<Symbol>)
    requires |check| == 6
    ensures Trail(Differences([0, 0, 0, 0, 0, 0], check))
         == Register(check[0], check[1], check[2], check[3], check[4], check[5])
  {
    var blank: seq<Symbol> := [0, 0, 0, 0, 0, 0];
    forall i | 0 <= i < 6 ensures Differences(blank, check)[i] == check[i] {
      XorFacts(check[i], 0, 0);
    }
    assert Differences(blank, check) == check;
    TrailOfSix(check);
  }

  /** Every prefix has six closing symbols that make the remainder one. */
  lemma ChecksumExists(prefix: seq<Symbol>) returns (check: seq<Symbol>)
    ensures |check| == 6 && Absorb(ONE, prefix + check) == ONE
  {
    check := Reachable(Absorb(ONE, prefix), ONE);
    AbsorbAppend(ONE, prefix, check);
  }

  /** No prefix has two. */
  lemma ChecksumUnique(prefix: seq<Symbol>, a: seq<Symbol>, b: seq<Symbol>)
    requires |a| == |b| == 6
    requires Absorb(ONE, prefix + a) == ONE && Absorb(ONE, prefix + b) == ONE
    ensures a == b
  {
    assert prefix + a + [] == prefix + a && prefix + b + [] == prefix + b;
    if a != b {
      BurstDetected(prefix, a, b, []);
    }
  }

  lemma TrailOfSix(es: seq<Symbol>)
    requires |es| == 6
    ensures Trail(es) == Register(es[0], es[1], es[2], es[3], es[4], es[5])
  {
    assert Trail(es[..0]) == ZERO;
    assert es[..1][..0] == es[..0] && Trail(es[..1]) == ZERO.Push(es[0]);
    assert es[..2][..1] == es[..1] && Trail(es[..2]) == Trail(es[..1]).Push(es[1]);
    assert es[..3][..2] == es[..2] && Trail(es[..3]) == Trail(es[..2]).Push(es[2]);
    assert es[..4][..3] == es[..3] && Trail(es[..4]) == Trail(es[..3]).Push(es[3]);
    assert es[..5][..4] == es[..4] && Trail(es[..5]) == Trail(es[..4]).Push(es[4]);
    assert Trail(es) == Trail(es[..5]).Push(es[5]);
  }

  // ----- reading a few symbols -----

  /** Reading one symbol, by the field multiplication. */
  function Next(r: Register, v: Symbol): Register { r.Push(v).Xor(Scaled(r.s5, POLYNOMIAL)) }

  lemma AbsorbOne(r: Register, v: Symbol)
    ensures Absorb(r, [v]) == Next(r, v)
  {
    assert [v][..0] == [];
    StepMultiplies(r, v);
    hide Step, Next;
  }

  lemma AbsorbTwo(r: Register, a: Symbol, b: Symbol)
    ensures Absorb(r, [a, b]) == Next(Next(r, a), b)
  {
    hide Next, Absorb;
    AbsorbOne(r, a);
    AbsorbOne(Next(r, a), b);
    AbsorbAppend(r, [a], [b]);
    assert [a] + [b] == [a, b];
  }

  lemma AbsorbFour(r: Register, a: Symbol, b: Symbol, c: Symbol, d: Symbol)
    ensures Absorb(r, [a, b, c, d]) == Next(Next(Next(Next(r, a), b), c), d)
  {
    hide Next, Absorb;
    AbsorbTwo(r, a, b);
    AbsorbTwo(Next(Next(r, a), b), c, d);
    AbsorbAppend(r, [a, b], [c, d]);
    assert [a, b] + [c, d] == [a, b, c, d];
  }
}
