/** Regrouping of a digit string from one power-of-two base to another, as
    `_convert_bits` does it with one growing accumulator. The specification never
    mentions the accumulator: it speaks of the number the digits denote. */
module BitRegrouping {
  import opened Wrappers

  function Pow2(n: nat): (p: nat)
    ensures p >= 1
  {
    if n == 0 then 1 else 2 * Pow2(n - 1)
  }

  lemma {:induction false} Pow2Add(a: nat, b: nat)
    ensures Pow2(a + b) == Pow2(a) * Pow2(b)
  {
    if a > 0 { Pow2Add(a - 1, b); }
  }

  lemma {:induction false} Pow2Monotone(a: nat, b: nat)
    requires a <= b
    ensures Pow2(a) <= Pow2(b)
  {
    if a < b { Pow2Monotone(a, b - 1); }
  }

  ghost predicate InRange(digits: seq<int>, bits: nat) {
    forall i :: 0 <= i < |digits| ==> 0 <= digits[i] < Pow2(bits)
  }

  /** The number a big-endian string of `bits`-wide digits denotes. */
  ghost function Value(digits: seq<int>, bits: nat): int {
    if digits == [] then 0
    else Value(digits[..|digits| - 1], bits) * Pow2(bits) + digits[|digits| - 1]
  }

  // ----- integer arithmetic -----

  lemma MulMonotone(x: int, y: int, k: int)
    requires x <= y && 0 <= k
    ensures x * k <= y * k
  {
    assert (y - x) * k >= 0;
  }

  lemma MulSuccessor(x: int, k: int)
    ensures (x + 1) * k == x * k + k
  {
  }

  lemma DivUnique(q: int, r: int, d: int)
    requires 0 <= r < d
    ensures (q * d + r) / d == q && (q * d + r) % d == r
  {
    var n := q * d + r;
    var q', r' := n / d, n % d;
    assert n == d * q' + r';
    assert (q - q') * d == r' - r;
    if q > q' {
      MulMonotone(1, q - q', d);
      assert false;
    } else if q < q' {
      MulMonotone(q - q', -1, d);
      assert false;
    }
  }

  /** Two digits, the upper below `p` and the lower below `q`, make a number below `p * q`. */
  lemma TwoDigits(upper: int, lower: int, p: int, q: int)
    requires 0 <= upper < p && 0 <= lower < q
    ensures 0 <= upper * q + lower < p * q
  {
    MulMonotone(upper, p - 1, q);
    MulMonotone(0, upper, q);
    assert (p - 1) * q == p * q - q;
  }

  lemma DivBelow(n: nat, p: nat, q: nat)
    requires q > 0 && n < p * q
    ensures n / q < p && n == n / q * q + n % q
  {
    if n / q >= p {
      MulMonotone(p, n / q, q);
      assert false;
    }
  }

  lemma ScaleBelow(v: nat, p: nat, k: nat)
    requires v < p && k > 0
    ensures 0 <= v * k < p * k
  {
    MulMonotone(v + 1, p, k);
    MulSuccessor(v, k);
    MulMonotone(0, v, k);
  }

  /** The number of digits needed for `width` bits. */
  function DigitCount(width: nat, bits: nat): (n: nat)
    requires bits > 0
    ensures width <= n * bits < width + bits
  {
    var n := (width + bits - 1) / bits;
    assert n * bits + (width + bits - 1) % bits == width + bits - 1;
    n
  }

  lemma DivAppended(acc: nat, v: nat, p: nat, q: nat)
    requires p > 0 && v < q
    ensures (acc * q + v) / (p * q) == acc / p
  {
    var h, l := acc / p, acc % p;
    assert acc == h * p + l;
    TwoDigits(l, v, p, q);
    assert acc * q == (h * p) * q + l * q;
    assert (h * p) * q == h * (p * q);
    DivUnique(h, l * q + v, p * q);
  }

  lemma DivSplit(acc: nat, p: nat, q: nat)
    requires p > 0 && q > 0
    requires p * q > 0
    ensures acc / (p * q) * q + acc / p % q == acc / p
  {
    var x, l := acc / p, acc % p;
    var h, m := x / q, x % q;
    assert x == h * q + m && acc == x * p + l;
    TwoDigits(m, l, q, p);
    assert x * p == (h * q) * p + m * p;
    assert (h * q) * p == h * (q * p) && q * p == p * q;
    DivUnique(h, m * p + l, p * q);
  }

  lemma ModScaled(acc: nat, p: nat, q: nat)
    requires p > 0 && q > 0
    requires p * q > 0
    ensures (acc * q) % (p * q) == (acc % p) * q
    ensures acc / p * (p * q) + (acc * q) % (p * q) == acc * q
  {
    var h, l := acc / p, acc % p;
    assert acc == h * p + l;
    TwoDigits(l, 0, p, q);
    assert acc * q == (h * p) * q + l * q;
    assert (h * p) * q == h * (p * q);
    DivUnique(h, l * q, p * q);
  }

  lemma {:induction false} ValueBound(digits: seq<int>, bits: nat)
    requires InRange(digits, bits)
    ensures 0 <= Value(digits, bits) < Pow2(|digits| * bits)
  {
    if digits != [] {
      var front, last := digits[..|digits| - 1], digits[|digits| - 1];
      ValueBound(front, bits);
      Pow2Add(|front| * bits, bits);
      assert |front| * bits + bits == |digits| * bits by {
        assert (|front| + 1) * bits == |front| * bits + bits;
      }
      TwoDigits(Value(front, bits), last, Pow2(|front| * bits), Pow2(bits));
    }
  }

  /** A digit string of known length is determined by its value. */
  lemma {:induction false} ValueInjective(a: seq<int>, b: seq<int>, bits: nat)
    requires InRange(a, bits) && InRange(b, bits)
    requires |a| == |b| && Value(a, bits) == Value(b, bits)
    ensures a == b
  {
    if a != [] {
      var n := |a| - 1;
      DivUnique(Value(a[..n], bits), a[n], Pow2(bits));
      DivUnique(Value(b[..n], bits), b[n], Pow2(bits));
      ValueInjective(a[..n], b[..n], bits);
      assert a == a[..n] + [a[n]] && b == b[..n] + [b[n]];
    }
  }

  lemma ValueSnoc(digits: seq<int>, d: int, bits: nat)
    ensures Value(digits + [d], bits) == Value(digits, bits) * Pow2(bits) + d
  {
    assert (digits + [d])[..|digits|] == digits;
  }

  // ----- specification -----

  /** `out` is what regrouping `values` from `from`-bit to `to`-bit digits must give.
      With `pad` the bit string is filled with zero bits up to a whole digit; without
      it the left-over bits must be fewer than one input digit and all zero, and are
      dropped. */
  ghost predicate Regrouped(values: seq<int>, from: nat, to: nat, pad: bool, out: seq<int>)
    requires to > 0
  {
    var width, used := |values| * from, |out| * to;
    && InRange(out, to)
    && if pad then
         width <= used < width + to && Value(out, to) == Value(values, from) * Pow2(used - width)
       else
         used <= width < used + to && width - used < from
         && Value(values, from) == Value(out, to) * Pow2(width - used)
  }

  lemma LengthUnique(x: nat, y: nat, width: nat, to: nat)
    requires to > 0
    requires (width <= x * to < width + to && width <= y * to < width + to)
          || (x * to <= width < x * to + to && y * to <= width < y * to + to)
    ensures x == y
  {
    assert (x + 1) * to == x * to + to && (y + 1) * to == y * to + to;
    if x < y {
      MulMonotone(x + 1, y, to);
      assert false;
    } else if y < x {
      MulMonotone(y + 1, x, to);
      assert false;
    }
  }

  /** At most one output meets the specification. */
  lemma RegroupedUnique(values: seq<int>, from: nat, to: nat, pad: bool, a: seq<int>, b: seq<int>)
    requires to > 0
    requires Regrouped(values, from, to, pad, a) && Regrouped(values, from, to, pad, b)
    ensures a == b
  {
    var width := |values| * from;
    LengthUnique(|a|, |b|, width, to);
    if !pad {
      var p := Pow2(width - |a| * to);
      DivUnique(Value(a, to), 0, p);
      DivUnique(Value(b, to), 0, p);
    }
    ValueInjective(a, b, to);
  }

  /** The regrouped digits, or None when the source returns None. */
  ghost function Regroup(values: seq<int>, from: nat, to: nat, pad: bool): (r: Option<seq<int>>)
    requires to > 0
    ensures r.Some? ==> InRange(values, from) && Regrouped(values, from, to, pad, r.value)
  {
    if InRange(values, from) && exists out :: Regrouped(values, from, to, pad, out) then
      var out :| Regrouped(values, from, to, pad, out);
      Some(out)
    else None
  }

  lemma RegroupIs(values: seq<int>, from: nat, to: nat, pad: bool, out: seq<int>)
    requires to > 0 && InRange(values, from) && Regrouped(values, from, to, pad, out)
    ensures Regroup(values, from, to, pad) == Some(out)
  {
    RegroupedUnique(values, from, to, pad, Regroup(values, from, to, pad).value, out);
  }

  /** The width of a number of digits. */
  function Width(length: nat, bits: nat): nat {
    if length == 0 then 0 else Width(length - 1, bits) + bits
  }

  lemma {:induction false} WidthIsProduct(length: nat, bits: nat)
    ensures Width(length, bits) == length * bits
  {
    if length > 0 {
      WidthIsProduct(length - 1, bits);
      MulSuccessor(length - 1, bits);
    }
  }

  /** The `length` digits that denote `n`. */
  lemma {:induction false} DigitsExist(n: nat, length: nat, bits: nat) returns (digits: seq<int>)
    requires n < Pow2(Width(length, bits))
    ensures |digits| == length && InRange(digits, bits) && Value(digits, bits) == n
    decreases length
  {
    if length == 0 {
      digits := [];
    } else {
      hide Pow2;
      var high, low := SplitLow(n, Width(length - 1, bits), bits);
      var front := DigitsExist(high, length - 1, bits);
      ValueSnoc(front, low, bits);
      digits := front + [low];
    }
  }

  lemma SplitLow(n: nat, shorter: nat, bits: nat) returns (high: nat, low: nat)
    requires n < Pow2(shorter + bits)
    ensures high < Pow2(shorter) && low < Pow2(bits)
    ensures high * Pow2(bits) + low == n
  {
    hide Pow2;
    Pow2Add(shorter, bits);
    high, low := Divide(n, Pow2(shorter), Pow2(bits));
  }

  lemma Divide(n: nat, p: nat, q: nat) returns (high: nat, low: nat)
    requires q > 0 && n < p * q
    ensures high < p && low < q && high * q + low == n
  {
    DivBelow(n, p, q);
    high, low := n / q, n % q;
  }

  // ----- the algorithm -----

  lemma ShiftedIn(acc: nat, v: nat, bits: nat, from: nat)
    requires v < Pow2(from)
    ensures (acc * Pow2(from) + v) / Pow2(bits + from) == acc / Pow2(bits)
  {
    Pow2Add(bits, from);
    DivAppended(acc, v, Pow2(bits), Pow2(from));
  }

  lemma ShiftedOut(acc: nat, bits: nat, to: nat)
    ensures acc / Pow2(bits + to) * Pow2(to) + acc / Pow2(bits) % Pow2(to) == acc / Pow2(bits)
  {
    Pow2Add(bits, to);
    DivSplit(acc, Pow2(bits), Pow2(to));
  }

  /** The left-over bits, moved up to the top of one output digit. */
  lemma Leftover(acc: nat, bits: nat, to: nat)
    requires bits <= to
    ensures (acc * Pow2(to - bits)) % Pow2(to) == (acc % Pow2(bits)) * Pow2(to - bits)
    ensures acc / Pow2(bits) * Pow2(to) + (acc * Pow2(to - bits)) % Pow2(to) == acc * Pow2(to - bits)
  {
    Pow2Add(bits, to - bits);
    ModScaled(acc, Pow2(bits), Pow2(to - bits));
  }

  /** The loop state: `consumed` input bits were read, `output` holds the high ones,
      and the low `bits` bits of the accumulator are still to be written. */
  ghost predicate Pending(output: seq<int>, accumulator: nat, bits: nat, to: nat, consumed: nat) {
    && InRange(output, to)
    && bits + |output| * to == consumed
    && Value(output, to) == accumulator / Pow2(bits)
  }

  lemma ReadDigit(output: seq<int>, accumulator: nat, v: nat, bits: nat, from: nat, to: nat, consumed: nat)
    requires v < Pow2(from) && Pending(output, accumulator, bits, to, consumed)
    ensures Pending(output, accumulator * Pow2(from) + v, bits + from, to, consumed + from)
  {
    ShiftedIn(accumulator, v, bits, from);
  }

  lemma WriteDigit(output: seq<int>, accumulator: nat, bits: nat, to: nat, consumed: nat)
    requires bits >= to && Pending(output, accumulator, bits, to, consumed)
    ensures Pending(output + [accumulator / Pow2(bits - to) % Pow2(to)], accumulator, bits - to, to, consumed)
  {
    var digit := accumulator / Pow2(bits - to) % Pow2(to);
    ShiftedOut(accumulator, bits - to, to);
    ValueSnoc(output, digit, to);
    MulSuccessor(|output|, to);
  }

  function Rest(accumulator: nat, bits: nat, to: nat): nat
    requires bits <= to
  {
    (accumulator * Pow2(to - bits)) % Pow2(to)
  }

  lemma FinishPadded(values: seq<int>, from: nat, to: nat, output: seq<int>, accumulator: nat, bits: nat)
    requires 0 < bits < to && accumulator == Value(values, from)
    requires Pending(output, accumulator, bits, to, |values| * from)
    ensures Regrouped(values, from, to, true, output + [Rest(accumulator, bits, to)])
  {
    Leftover(accumulator, bits, to);
    ValueSnoc(output, Rest(accumulator, bits, to), to);
    MulSuccessor(|output|, to);
  }

  lemma FinishExact(values: seq<int>, from: nat, to: nat, pad: bool, output: seq<int>, accumulator: nat, bits: nat)
    requires bits < to && accumulator == Value(values, from)
    requires Pending(output, accumulator, bits, to, |values| * from)
    requires bits < from && Rest(accumulator, bits, to) == 0 && (pad ==> bits == 0)
    ensures Regrouped(values, from, to, pad, output)
  {
    assert accumulator % Pow2(bits) == 0 by {
      Leftover(accumulator, bits, to);
      if accumulator % Pow2(bits) > 0 {
        MulMonotone(1, accumulator % Pow2(bits), Pow2(to - bits));
        assert false;
      }
    }
    var width, used := |values| * from, |output| * to;
    assert width - used == bits;
    assert accumulator == accumulator / Pow2(bits) * Pow2(bits) + 0;
  }

  lemma FinishRejected(values: seq<int>, from: nat, to: nat, output: seq<int>, accumulator: nat, bits: nat,
                       out: seq<int>)
    requires bits < to && accumulator == Value(values, from)
    requires Pending(output, accumulator, bits, to, |values| * from)
    requires bits >= from || Rest(accumulator, bits, to) != 0
    ensures !Regrouped(values, from, to, false, out)
  {
    if Regrouped(values, from, to, false, out) {
      LengthUnique(|out|, |output|, |values| * from, to);
      Leftover(accumulator, bits, to);
      DivUnique(Value(out, to), 0, Pow2(bits));
      assert false;
    }
  }

  method ConvertBits(values: seq<int>, from: nat, to: nat, pad: bool) returns (r: Option<seq<int>>)
    requires from >= 1 && 1 <= to <= 8
    ensures r == Regroup(values, from, to, pad)
  {
    var accumulator: nat, bits: nat := 0, 0;
    var output: seq<int> := [];
    for i := 0 to |values|
      invariant InRange(values[..i], from)
      invariant accumulator == Value(values[..i], from)
      invariant bits < to && Pending(output, accumulator, bits, to, i * from)
    {
      var value := values[i];
      if value < 0 || value >= Pow2(from) {
        return None;
      }
      assert values[..i + 1] == values[..i] + [value];
      ValueSnoc(values[..i], value, from);
      ReadDigit(output, accumulator, value, bits, from, to, i * from);
      MulSuccessor(i, from);
      accumulator := accumulator * Pow2(from) + value;
      bits := bits + from;
      while bits >= to
        invariant Pending(output, accumulator, bits, to, (i + 1) * from)
      {
        WriteDigit(output, accumulator, bits, to, (i + 1) * from);
        bits := bits - to;
        output := output + [accumulator / Pow2(bits) % Pow2(to)];
      }
    }
    assert values[..|values|] == values;
    if pad && bits > 0 {
      FinishPadded(values, from, to, output, accumulator, bits);
      RegroupIs(values, from, to, pad, output + [Rest(accumulator, bits, to)]);
      return Some(output + [Rest(accumulator, bits, to)]);
    }
    if bits >= from || Rest(accumulator, bits, to) != 0 {
      if pad { Leftover(accumulator, bits, to); }
      forall out ensures !Regrouped(values, from, to, false, out) {
        FinishRejected(values, from, to, output, accumulator, bits, out);
      }
      return None;
    }
    FinishExact(values, from, to, pad, output, accumulator, bits);
    RegroupIs(values, from, to, pad, output);
    return Some(output);
  }

  // ----- round trips -----

  /** Every string of wide digits can be encoded in narrower ones, and decoding the
      result gives the string back. */
  lemma DecodeUndoesEncode(octets: seq<int>, wide: nat, narrow: nat)
    requires 1 <= narrow <= wide && InRange(octets, wide)
    ensures Regroup(octets, wide, narrow, true).Some?
    ensures Regroup(Regroup(octets, wide, narrow, true).value, narrow, wide, false) == Some(octets)
  {
    var width := |octets| * wide;
    var length := DigitCount(width, narrow);
    var used := length * narrow;
    ValueBound(octets, wide);
    Pow2Add(width, used - width);
    ScaleBelow(Value(octets, wide), Pow2(width), Pow2(used - width));
    WidthIsProduct(length, narrow);
    var symbols := DigitsExist(Value(octets, wide) * Pow2(used - width), length, narrow);
    RegroupIs(octets, wide, narrow, true, symbols);
    RegroupIs(symbols, narrow, wide, false, octets);
  }

  /** A string that decodes is the encoding of what it decodes to, so no two decode alike. */
  lemma EncodeUndoesDecode(symbols: seq<int>, narrow: nat, wide: nat)
    requires 1 <= narrow <= wide
    requires Regroup(symbols, narrow, wide, false).Some?
    ensures Regroup(Regroup(symbols, narrow, wide, false).value, wide, narrow, true) == Some(symbols)
  {
    RegroupIs(Regroup(symbols, narrow, wide, false).value, wide, narrow, true, symbols);
  }
}
