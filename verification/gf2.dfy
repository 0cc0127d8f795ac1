/** Polynomials over GF(2) as bit sequences, highest power first.

    The module gives two readings of a CRC for any generator polynomial:
    `Remainder`, schoolbook long division of a whole message, and `Feed`, the
    shift register that the C code runs one message bit at a time.  They are
    proved equal, and the register is proved to detect every error burst that
    is no longer than the register.

    A generator of degree w is given by its w lower coefficients (the leading
    1 is implied), so a register and a generator have the same length. */
module Gf2 {

  type Bits = seq<bool>

  function Xor(a: Bits, b: Bits): (c: Bits)
    requires |a| == |b|
    ensures |c| == |a|
    ensures forall i :: 0 <= i < |c| ==> c[i] == (a[i] != b[i])
  {
    seq(|a|, i requires 0 <= i < |a| => a[i] != b[i])
  }

  function Zeros(n: nat): (z: Bits)
    ensures |z| == n
    ensures forall i :: 0 <= i < n ==> !z[i]
  {
    seq(n, _ => false)
  }

  /** Every coefficient complemented. */
  function Flip(s: Bits): (t: Bits)
    ensures |t| == |s|
    ensures forall i :: 0 <= i < |s| ==> t[i] == !s[i]
  {
    seq(|s|, i requires 0 <= i < |s| => !s[i])
  }

  predicate AllOnes(s: Bits) {
    forall i :: 0 <= i < |s| ==> s[i]
  }

  lemma XorOnes(s: Bits, ones: Bits)
    requires |s| == |ones| && AllOnes(ones)
    ensures Xor(s, ones) == Flip(s)
  {
  }

  lemma AllOnesAppend(a: Bits, b: Bits)
    requires AllOnes(a) && AllOnes(b)
    ensures AllOnes(a + b)
  {
  }

  lemma XorCons(a: bool, s: Bits, b: bool, t: Bits)
    requires |s| == |t|
    ensures Xor([a] + s, [b] + t) == [a != b] + Xor(s, t)
  {
  }

  // ---------- long division ----------

  /** One line of long division: cancel the leading coefficient. */
  function Reduce(s: Bits, g: Bits): (t: Bits)
    requires |s| > |g|
    ensures |t| == |s| - 1
  {
    if s[0] then Xor(s[1..], g + Zeros(|s| - 1 - |g|)) else s[1..]
  }

  /** The remainder of s modulo the generator. */
  function Remainder(s: Bits, g: Bits): (r: Bits)
    requires |s| >= |g|
    ensures |r| == |g|
    decreases |s|
  {
    if |s| == |g| then s else Remainder(Reduce(s, g), g)
  }

  /** The quotient that long division writes down, one bit a line. */
  function Quotient(s: Bits, g: Bits): (q: Bits)
    requires |s| >= |g|
    ensures |q| == |s| - |g|
    decreases |s|
  {
    if |s| == |g| then [] else [s[0]] + Quotient(Reduce(s, g), g)
  }

  /** The value q * g + r: for every 1 of q, the generator (its leading 1 written
      out) is added at that position. */
  function MulAdd(q: Bits, g: Bits, r: Bits): (s: Bits)
    requires |r| == |g|
    ensures |s| == |q| + |g|
    decreases |q|
  {
    if q == [] then r
    else if q[0] then Xor([true] + g + Zeros(|q| - 1), [false] + MulAdd(q[1..], g, r))
    else [false] + MulAdd(q[1..], g, r)
  }

  /** One line of long division takes back one addition of the generator. */
  lemma ReduceAdded(g: Bits, k: nat, t: Bits)
    requires |t| == |g| + k
    ensures var s := Xor([true] + g + Zeros(k), [false] + t);
            s[0] && Reduce(s, g) == t
  {
    var s := Xor([true] + g + Zeros(k), [false] + t);
    assert s[0];
    forall i | 0 <= i < |t|
      ensures Reduce(s, g)[i] == t[i]
    {
      assert s[1..][i] == s[i + 1];
    }
  }

  lemma MulAddStep(q: Bits, g: Bits, r: Bits)
    requires |r| == |g| && q != []
    ensures MulAdd(q, g, r)[0] == q[0]
    ensures Reduce(MulAdd(q, g, r), g) == MulAdd(q[1..], g, r)
  {
    ReduceAdded(g, |q| - 1, MulAdd(q[1..], g, r));
    hide Xor;
  }

  /** Dividing q * g + r by g gives back exactly q and r, so `Remainder` is the
      remainder, whichever way the division is carried out. */
  lemma {:induction false} DivisionUnique(q: Bits, g: Bits, r: Bits)
    requires |r| == |g|
    ensures Remainder(MulAdd(q, g, r), g) == r
    ensures Quotient(MulAdd(q, g, r), g) == q
    decreases |q|
  {
    if q == [] {
      assert MulAdd(q, g, r) == r;
    } else {
      MulAddStep(q, g, r);
      DivisionUnique(q[1..], g, r);
    }
  }

  lemma ReduceInjective(s: Bits, t: Bits, g: Bits)
    requires |s| == |t| > |g| && s[0] == t[0]
    requires Reduce(s, g) == Reduce(t, g)
    ensures s == t
  {
    forall k | 1 <= k < |s|
      ensures s[k] == t[k]
    {
      assert Reduce(s, g)[k - 1] == Reduce(t, g)[k - 1];
    }
  }

  /** Every dividend is its quotient times the generator plus its remainder. */
  lemma {:induction false} DivisionExact(s: Bits, g: Bits)
    requires |s| >= |g|
    ensures s == MulAdd(Quotient(s, g), g, Remainder(s, g))
    decreases |s|
  {
    hide Xor, Reduce;
    var q, r := Quotient(s, g), Remainder(s, g);
    if |s| == |g| {
      assert MulAdd(q, g, r) == s;
    } else {
      hide MulAdd;
      DivisionExact(Reduce(s, g), g);
      assert q[1..] == Quotient(Reduce(s, g), g);
      MulAddStep(q, g, r);
      ReduceInjective(s, MulAdd(q, g, r), g);
    }
  }

  // ---------- the shift register ----------

  function Shift(r: Bits): (t: Bits)
    requires r != []
    ensures |t| == |r|
  {
    r[1..] + [false]
  }

  function BitStep(r: Bits, g: Bits): (t: Bits)
    requires |r| == |g| > 0
    ensures |t| == |r|
  {
    if r[0] then Xor(Shift(r), g) else Shift(r)
  }

  function Steps(n: nat, r: Bits, g: Bits): (t: Bits)
    requires |r| == |g| > 0
    ensures |t| == |r|
  {
    if n == 0 then r else Steps(n - 1, BitStep(r, g), g)
  }

  function FeedBit(r: Bits, bit: bool, g: Bits): (t: Bits)
    requires |r| == |g| > 0
    ensures |t| == |r|
  {
    BitStep(r[0 := r[0] != bit], g)
  }

  /** The register after the message bits m have been shifted in. */
  function Feed(r: Bits, m: Bits, g: Bits): (t: Bits)
    requires |r| == |g| > 0
    ensures |t| == |r|
    decreases |m|
  {
    if m == [] then r else Feed(FeedBit(r, m[0], g), m[1..], g)
  }

  // ---------- register = long division ----------

  /** The dividend that a register r with message m still to come stands for. */
  function Dividend(r: Bits, m: Bits): (s: Bits)
    ensures |s| == |r| + |m|
  {
    Xor(r + Zeros(|m|), m + Zeros(|r|))
  }

  lemma DividendStep(r: Bits, m: Bits, g: Bits)
    requires |r| == |g| > 0 && m != []
    ensures Reduce(Dividend(r, m), g) == Dividend(FeedBit(r, m[0], g), m[1..])
  {
    var s := Dividend(r, m);
    var x := r[0 := r[0] != m[0]];
    var t := FeedBit(r, m[0], g);
    var u := Dividend(t, m[1..]);
    assert s[0] == x[0];
    forall i | 0 <= i < |u|
      ensures Reduce(s, g)[i] == u[i]
    {
      assert s[1..][i] == s[i + 1];
      assert (t + Zeros(|m| - 1))[i] == if i < |t| then t[i] else false;
      assert (m[1..] + Zeros(|r|))[i] == if i < |m| - 1 then m[i + 1] else false;
      assert (r + Zeros(|m|))[i + 1] == if i + 1 < |r| then r[i + 1] else false;
      assert (m + Zeros(|r|))[i + 1] == if i + 1 < |m| then m[i + 1] else false;
      if i < |r| {
        assert Shift(x)[i] == if i + 1 < |r| then r[i + 1] else false;
      }
    }
    assert Reduce(s, g) == u;
  }

  /** Running the register over m leaves the remainder of the dividend: the
      register contents followed by zeros, plus the message times x^w. */
  lemma {:induction false} FeedIsRemainder(r: Bits, m: Bits, g: Bits)
    requires |r| == |g| > 0
    ensures Feed(r, m, g) == Remainder(Dividend(r, m), g)
    decreases |m|
  {
    hide FeedBit;
    if m == [] {
      assert Dividend(r, m) == r;
    } else {
      DividendStep(r, m, g);
      FeedIsRemainder(FeedBit(r, m[0], g), m[1..], g);
    }
  }

  // ---------- splitting and injectivity ----------

  lemma {:induction false} FeedAppend(r: Bits, m: Bits, n: Bits, g: Bits)
    requires |r| == |g| > 0
    ensures Feed(r, m + n, g) == Feed(Feed(r, m, g), n, g)
    decreases |m|
  {
    if m == [] {
      assert m + n == n;
    } else {
      assert (m + n)[1..] == m[1..] + n;
      FeedAppend(FeedBit(r, m[0], g), m[1..], n, g);
    }
  }

  /** The constant term of the generator makes each step reversible. */
  lemma BitStepInjective(r: Bits, s: Bits, g: Bits)
    requires |r| == |s| == |g| > 0 && g[|g| - 1]
    requires BitStep(r, g) == BitStep(s, g)
    ensures r == s
  {
    var w := |g|;
    assert BitStep(r, g)[w - 1] == r[0];
    assert BitStep(s, g)[w - 1] == s[0];
    forall i | 0 <= i < w
      ensures r[i] == s[i]
    {
      if i > 0 {
        assert Shift(r)[i - 1] == r[i] && Shift(s)[i - 1] == s[i];
        assert BitStep(r, g)[i - 1] == BitStep(s, g)[i - 1];
      }
    }
  }

  lemma {:induction false} StepsInjective(n: nat, r: Bits, s: Bits, g: Bits)
    requires |r| == |s| == |g| > 0 && g[|g| - 1]
    requires Steps(n, r, g) == Steps(n, s, g)
    ensures r == s
  {
    hide BitStep;
    if n > 0 {
      StepsInjective(n - 1, BitStep(r, g), BitStep(s, g), g);
      BitStepInjective(r, s, g);
    }
  }

  lemma {:induction false} FeedInjective(r: Bits, s: Bits, m: Bits, g: Bits)
    requires |r| == |s| == |g| > 0 && g[|g| - 1]
    requires Feed(r, m, g) == Feed(s, m, g)
    ensures r == s
    decreases |m|
  {
    hide BitStep;
    if m != [] {
      FeedInjective(FeedBit(r, m[0], g), FeedBit(s, m[0], g), m[1..], g);
      var x, y := r[0 := r[0] != m[0]], s[0 := s[0] != m[0]];
      BitStepInjective(x, y, g);
      forall i | 0 <= i < |r|
        ensures r[i] == s[i]
      {
        assert x[i] == y[i];
      }
    }
  }

  lemma FeedShortStep(r: Bits, m: Bits, g: Bits)
    requires |r| == |g| > 0 && 0 < |m| <= |g|
    ensures BitStep(Xor(r, m + Zeros(|g| - |m|)), g) == Xor(FeedBit(r, m[0], g), m[1..] + Zeros(|g| - |m| + 1))
  {
    var w := |g|;
    var z := Xor(r, m + Zeros(w - |m|));
    var x := r[0 := r[0] != m[0]];
    var y := Xor(FeedBit(r, m[0], g), m[1..] + Zeros(w - |m| + 1));
    assert z[0] == x[0];
    forall i | 0 <= i < w
      ensures BitStep(z, g)[i] == y[i]
    {
      assert (m[1..] + Zeros(w - |m| + 1))[i] == if i < |m| - 1 then m[i + 1] else false;
      if i + 1 < w {
        assert Shift(z)[i] == z[i + 1] && Shift(x)[i] == r[i + 1];
        assert (m + Zeros(w - |m|))[i + 1] == if i + 1 < |m| then m[i + 1] else false;
      }
    }
  }

  /** A message no longer than the register can be added to it all at once. */
  lemma {:induction false} FeedShort(r: Bits, m: Bits, g: Bits)
    requires |r| == |g| > 0 && |m| <= |g|
    ensures Feed(r, m, g) == Steps(|m|, Xor(r, m + Zeros(|g| - |m|)), g)
    decreases |m|
  {
    hide BitStep, FeedBit;
    if m == [] {
      assert Xor(r, m + Zeros(|g|)) == r;
    } else {
      hide Xor;
      FeedShortStep(r, m, g);
      FeedShort(FeedBit(r, m[0], g), m[1..], g);
    }
  }

  lemma ShortMessageInjective(r: Bits, a: Bits, b: Bits, g: Bits)
    requires |r| == |g| > 0 && g[|g| - 1]
    requires |a| == |b| <= |g|
    requires Feed(r, a, g) == Feed(r, b, g)
    ensures a == b
  {
    var n := |a|;
    var pad := Zeros(|g| - n);
    FeedShort(r, a, g);
    FeedShort(r, b, g);
    StepsInjective(n, Xor(r, a + pad), Xor(r, b + pad), g);
    forall i | 0 <= i < n
      ensures a[i] == b[i]
    {
      assert Xor(r, a + pad)[i] == Xor(r, b + pad)[i];
    }
  }

  lemma FeedMiddle(r: Bits, before: Bits, x: Bits, after: Bits, g: Bits)
    requires |r| == |g| > 0
    ensures Feed(r, before + x + after, g) == Feed(Feed(Feed(r, before, g), x, g), after, g)
  {
    FeedAppend(r, before + x, after, g);
    FeedAppend(r, before, x, g);
  }

  /** Every error burst of at most w bits changes the register, whatever comes
      before and after it. */
  lemma BurstDetected(r: Bits, before: Bits, a: Bits, b: Bits, after: Bits, g: Bits)
    requires |r| == |g| > 0 && g[|g| - 1]
    requires |a| == |b| <= |g| && a != b
    ensures Feed(r, before + a + after, g) != Feed(r, before + b + after, g)
  {
    hide *;
    if Feed(r, before + a + after, g) == Feed(r, before + b + after, g) {
      var s := Feed(r, before, g);
      FeedMiddle(r, before, a, after, g);
      FeedMiddle(r, before, b, after, g);
      FeedInjective(Feed(s, a, g), Feed(s, b, g), after, g);
      ShortMessageInjective(s, a, b, g);
      assert false;
    }
  }
}
