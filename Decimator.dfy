/** The multi-stage decimator (`MultiStageDecimator.cs`): the rate ratio is split into
    stages of preferred factors, each stage runs an FIR low-pass filter over a circular
    delay line and keeps every `d`-th output in its scratch buffer, and the kept samples
    feed the next stage through the caller's output buffer. Samples and taps are integers
    here; the floating-point arithmetic is not part of this model. */
module Decimator {
  import opened Text

  /** A complex sample. */
  datatype Complex = Complex(re: int, im: int)

  const Zero := Complex(0, 0)

  function Add(a: Complex, b: Complex): Complex { Complex(a.re + b.re, a.im + b.im) }

  function Scale(z: Complex, c: int): Complex { Complex(z.re * c, z.im * c) }

  /** The sample `j` steps before the newest one of `hist`; zero before the first. */
  function Past(hist: seq<Complex>, j: nat): Complex
  {
    if j < |hist| then hist[|hist| - 1 - j] else Zero
  }

  /** The first `k` taps, each times the sample as old as its index. */
  function FirSum(h: seq<int>, hist: seq<Complex>, k: nat): Complex
    requires k <= |h|
  {
    if k == 0 then Zero else Add(FirSum(h, hist, k - 1), Scale(Past(hist, k - 1), h[k - 1]))
  }

  /** The filter's output once it has been fed `hist`. */
  function Fir(h: seq<int>, hist: seq<Complex>): Complex
  {
    FirSum(h, hist, |h|)
  }

  /** The circular buffer `buf` holds the last `|buf|` samples of `hist`, the newest at
      `newest mod |buf|` and older ones at descending positions. */
  ghost predicate Window(buf: seq<Complex>, newest: int, hist: seq<Complex>)
  {
    forall j :: 0 <= j < |buf| ==> buf[(newest - j) % |buf|] == Past(hist, j)
  }

  /** Adding or subtracting the modulus keeps the remainder. */
  lemma ModShift(a: int, n: int)
    requires n > 0
    ensures (a + n) % n == a % n && (a - n) % n == a % n
  {
    ModOf(a + n, n, a / n + 1, a % n);
    ModOf(a - n, n, a / n - 1, a % n);
  }

  /** The delay-line index step: one below zero wraps to the last slot. */
  lemma StepBack(a: int, n: int)
    requires n > 0
    ensures (if a % n - 1 < 0 then n - 1 else a % n - 1) == (a - 1) % n
  {
    if a % n == 0 {
      ModOf(a - 1, n, a / n - 1, n - 1);
    } else {
      ModOf(a - 1, n, a / n, a % n - 1);
    }
  }

  /** Going back `j` slots, with `0 < j < n`, never lands on the start. */
  lemma ModDistinct(at: int, j: int, n: int)
    requires 0 <= at < n && 0 < j < n
    ensures (at - j) % n != at
  {
    if at - j >= 0 {
      ModOf(at - j, n, 0, at - j);
    } else {
      ModOf(at - j, n, -1, at - j + n);
    }
  }

  /** The cursor step: one past the end wraps to zero. */
  lemma Advance(at: int, n: int)
    requires 0 <= at < n
    ensures (if at + 1 >= n then 0 else at + 1) == (at + 1) % n
  {
    if at + 1 >= n {
      ModOf(at + 1, n, 1, 0);
    } else {
      ModOf(at + 1, n, 0, at + 1);
    }
  }

  /** Writing `x` at the slot after the newest one makes it the newest sample. */
  lemma WindowPush(buf: seq<Complex>, at: int, hist: seq<Complex>, x: Complex)
    requires |buf| > 0 && 0 <= at < |buf| && Window(buf, at - 1, hist)
    ensures Window(buf[at := x], at, hist + [x])
  {
    var n := |buf|;
    var b := buf[at := x];
    forall j | 0 <= j < n
      ensures b[(at - j) % n] == Past(hist + [x], j)
    {
      if j == 0 {
        ModOf(at, n, 0, at);
      } else {
        var k := (at - j) % n;
        assert (at - 1 - (j - 1)) % n == k;
        assert buf[k] == Past(hist, j - 1);
        ModDistinct(at, j, n);
      }
    }
  }

  /** Positions that differ by the buffer length name the same slot. */
  lemma WindowRename(buf: seq<Complex>, a: int, b: int, hist: seq<Complex>)
    requires |buf| > 0 && Window(buf, a, hist) && (b == a + |buf| || b == a - |buf|)
    ensures Window(buf, b, hist)
  {
    forall j | 0 <= j < |buf|
      ensures buf[(b - j) % |buf|] == Past(hist, j)
    {
      ModShift(a - j, |buf|);
    }
  }

  /** `ComplexFirFilter`: the taps `h`, the circular delay line `delay` and the write
      position `idx`. The ghost `history` is every sample fed so far. */
  class FirFilter {
    const h: seq<int>
    const delay: array<Complex>
    var idx: int
    ghost var history: seq<Complex>

    /** At least one tap, one delay slot per tap, and the slot before `idx` holds the newest
        sample, the slots before it the older ones. */
    ghost predicate Valid()
      reads this, delay
    {
      |h| >= 1 && delay.Length == |h| && 0 <= idx < delay.Length
      && forall j :: 0 <= j < delay.Length ==> delay[(idx - 1 - j) % delay.Length] == Past(history, j)
    }

    /** A delay line of zeros, the cursor at slot 0. */
    constructor(h: seq<int>)
      requires |h| >= 1
      ensures Valid() && this.h == h && idx == 0 && history == [] && fresh(delay)
      ensures delay[..] == seq(|h|, _ => Zero)
    {
      this.h := h;
      delay := new Complex[|h|](_ => Zero);
      idx := 0;
      history := [];
    }

    /** `Process(x)`: `x` overwrites the oldest slot, the cursor moves on (wrapping at the
        end), and the result is the filter's output for the history with `x` appended. */
    method Process(x: Complex) returns (y: Complex)
      requires Valid()
      modifies this, delay
      ensures Valid()
      ensures delay[..] == old(delay[..])[old(idx) := x]
      ensures idx == (old(idx) + 1) % delay.Length
      ensures history == old(history) + [x]
      ensures y == Fir(h, history)
    {
      var at := idx;
      ghost var hist := history + [x];
      assert Window(delay[..], at - 1, history);
      WindowPush(delay[..], at, history, x);
      delay[at] := x;
      y := Convolve(at, hist);
      Advance(at, delay.Length);
      idx := at + 1;
      if idx >= delay.Length {
        WindowRename(delay[..], at, -1, hist);
        idx := 0;
      }
      assert Window(delay[..], idx - 1, hist);
      history := hist;
    }

    /** The tap loop of `Process`: walking back from the newest sample at `at`, tap `i`
        meets the sample `i` steps old, so the sum is the filter's output. */
    method Convolve(at: int, ghost hist: seq<Complex>) returns (y: Complex)
      requires |h| >= 1 && delay.Length == |h| && 0 <= at < delay.Length
      requires Window(delay[..], at, hist)
      ensures y == Fir(h, hist)
    {
      var accRe, accIm := 0, 0;
      var di := at;
      var i := 0;
      ModOf(at, delay.Length, 0, at);
      while i < |h|
        invariant 0 <= i <= |h| && 0 <= di < delay.Length
        invariant di == (at - i) % delay.Length
        invariant Complex(accRe, accIm) == FirSum(h, hist, i)
      {
        var d := delay[di];
        assert d == Past(hist, i) by {
          assert delay[..][(at - i) % delay.Length] == Past(hist, i);
        }
        var c := h[i];
        accRe := accRe + d.re * c;
        accIm := accIm + d.im * c;
        StepBack(at - i, delay.Length);
        di := di - 1;
        if di < 0 {
          di := delay.Length - 1;
        }
        i := i + 1;
      }
      y := Complex(accRe, accIm);
    }
  }

  // ---- factoring the ratio ----

  /** The preferred stage factors, in the order `Factor` tries them. */
  const Prefs: seq<nat> := [8, 6, 5, 4, 3, 2]

  /** The stages `Factor` produces once the preferred factors before `Prefs[i]` are done
      and `n` is what remains: each preferred factor as long as it divides, then what is
      left if it is more than 1. */
  function FactorFrom(n: nat, i: nat): seq<nat>
    requires n >= 1 && i <= |Prefs|
    decreases |Prefs| - i, n
  {
    if i == |Prefs| then (if n > 1 then [n] else [])
    else if n % Prefs[i] == 0 then [Prefs[i]] + FactorFrom(n / Prefs[i], i)
    else FactorFrom(n, i + 1)
  }

  /** `Factor(n)`. A ratio of 0 would never leave the first loop (0 is divisible by 8
      forever), so `n` must be positive. */
  method Factor(n: nat) returns (stages: seq<nat>)
    requires n >= 1
    ensures stages == FactorFrom(n, 0)
  {
    var prefs := [8, 6, 5, 4, 3, 2];
    var tmp: seq<nat> := [];
    var m := n;
    for k := 0 to |prefs|
      invariant prefs == Prefs
      invariant m >= 1 && tmp + FactorFrom(m, k) == FactorFrom(n, 0)
    {
      var p := prefs[k];
      while m % p == 0
        invariant m >= 1 && tmp + FactorFrom(m, k) == FactorFrom(n, 0)
        decreases m
      {
        assert tmp + FactorFrom(m, k) == (tmp + [p]) + FactorFrom(m / p, k);
        tmp := tmp + [p];
        m := m / p;
      }
    }
    // The source's final `while` always leaves after its first pass.
    if m > 1 {
      tmp := tmp + [m];
    }
    stages := tmp;
  }

  /** The product of the stages. */
  function Product(s: seq<nat>): nat
  {
    if s == [] then 1 else s[0] * Product(s[1..])
  }

  /** The stages multiply back to the ratio. */
  lemma {:induction false} FactorProduct(n: nat, i: nat)
    requires n >= 1 && i <= |Prefs|
    ensures Product(FactorFrom(n, i)) == n
    decreases |Prefs| - i, n
  {
    if i == |Prefs| {
    } else if n % Prefs[i] == 0 {
      var p := Prefs[i];
      FactorProduct(n / p, i);
      var fs := FactorFrom(n, i);
      assert fs[1..] == FactorFrom(n / p, i);
      assert n == p * (n / p);
    } else {
      FactorProduct(n, i + 1);
    }
  }

  /** What is left after the preferred factors: more than 1 and divisible by none of 2, 3
      and 5 (so by none of the preferred factors). */
  predicate Leftover(r: nat)
  {
    r > 1 && r % 2 != 0 && r % 3 != 0 && r % 5 != 0
  }

  /** None of the preferred factors before `Prefs[i]` divides `n`. */
  predicate Rough(n: nat, i: nat)
    requires i <= |Prefs|
  {
    forall j :: 0 <= j < i ==> n % Prefs[j] != 0
  }

  /** A divisor of `n / p` (when `p` divides `n`) divides `n`. */
  lemma DivisorLifts(n: nat, p: nat, q: nat)
    requires p >= 1 && q >= 1 && n % p == 0
    ensures (n / p) % q == 0 ==> n % q == 0
  {
    var m := n / p;
    if m % q == 0 {
      var k := m / q;
      assert m == k * q;
      assert n == m * p;
      assert n == (k * p) * q;
      ModOf(n, q, k * p, 0);
    }
  }

  /** Dividing out a factor keeps every non-divisor a non-divisor. */
  lemma RoughDiv(n: nat, p: nat, i: nat)
    requires p >= 1 && n % p == 0 && i <= |Prefs| && Rough(n, i)
    ensures Rough(n / p, i)
  {
    forall j | 0 <= j < i
      ensures (n / p) % Prefs[j] != 0
    {
      DivisorLifts(n, p, Prefs[j]);
    }
  }

  /** Every stage but the last is a preferred factor, and preferred factors do not grow
      from one stage to the next. */
  predicate PreferredFirst(fs: seq<nat>)
  {
    forall j :: 0 <= j < |fs| - 1 ==> fs[j] in Prefs && (fs[j + 1] in Prefs ==> fs[j] >= fs[j + 1])
  }

  /** A preferred factor in front of stages whose preferred factors it bounds. */
  lemma PreferredCons(p: nat, rest: seq<nat>)
    requires p in Prefs && PreferredFirst(rest)
    requires forall f :: f in rest && f in Prefs ==> f <= p
    ensures PreferredFirst([p] + rest)
  {
    var fs := [p] + rest;
    forall j | 0 <= j < |fs| - 1
      ensures fs[j] in Prefs && (fs[j + 1] in Prefs ==> fs[j] >= fs[j + 1])
    {
      if j == 0 {
        assert fs[1] == rest[0] && rest[0] in rest;
      } else {
        assert fs[j] == rest[j - 1] && fs[j + 1] == rest[j];
      }
    }
  }

  /** The preferred factors are at least 2 and strictly descending. */
  lemma PrefsDescending()
    ensures forall j :: 0 <= j < |Prefs| ==> Prefs[j] >= 2
    ensures forall j, k :: 0 <= j < k < |Prefs| ==> Prefs[j] > Prefs[k]
  {
  }

  /** Every stage is at least 2. */
  lemma {:induction false} FactorAtLeastTwo(n: nat, i: nat)
    requires n >= 1 && i <= |Prefs|
    ensures forall f :: f in FactorFrom(n, i) ==> f >= 2
    decreases |Prefs| - i, n
  {
    PrefsDescending();
    if i < |Prefs| && n % Prefs[i] == 0 {
      FactorAtLeastTwo(n / Prefs[i], i);
    } else if i < |Prefs| {
      FactorAtLeastTwo(n, i + 1);
    }
  }

  /** A preferred stage is at most the preferred factor the factoring started from. */
  lemma {:induction false} FactorBounds(n: nat, i: nat)
    requires n >= 1 && i <= |Prefs| && Rough(n, i)
    ensures forall f :: f in FactorFrom(n, i) && f in Prefs ==> i < |Prefs| && f <= Prefs[i]
    decreases |Prefs| - i, n
  {
    PrefsDescending();
    if i < |Prefs| && n % Prefs[i] == 0 {
      var p := Prefs[i];
      RoughDiv(n, p, i);
      FactorBounds(n / p, i);
    } else if i < |Prefs| {
      FactorBounds(n, i + 1);
    } else {
      assert n !in Prefs by {
        assert n % 8 != 0 && n % 6 != 0 && n % 5 != 0 && n % 4 != 0 && n % 3 != 0 && n % 2 != 0 by {
          assert Prefs[0] == 8 && Prefs[1] == 6 && Prefs[2] == 5;
          assert Prefs[3] == 4 && Prefs[4] == 3 && Prefs[5] == 2;
        }
      }
    }
  }

  /** All stages but the last are preferred factors, in the preference order. */
  lemma {:induction false} FactorOrder(n: nat, i: nat)
    requires n >= 1 && i <= |Prefs| && Rough(n, i)
    ensures PreferredFirst(FactorFrom(n, i))
    decreases |Prefs| - i, n
  {
    if i < |Prefs| && n % Prefs[i] == 0 {
      var p := Prefs[i];
      RoughDiv(n, p, i);
      FactorOrder(n / p, i);
      FactorBounds(n / p, i);
      assert FactorFrom(n, i) == [p] + FactorFrom(n / p, i);
      PreferredCons(p, FactorFrom(n / p, i));
    } else if i < |Prefs| {
      FactorOrder(n, i + 1);
      assert FactorFrom(n, i) == FactorFrom(n, i + 1);
    }
  }

  /** The last stage, when it is not a preferred factor, is more than 1 and divisible by
      none of 2, 3, 5. */
  lemma {:induction false} FactorLeftover(n: nat, i: nat)
    requires n >= 1 && i <= |Prefs| && Rough(n, i)
    ensures var fs := FactorFrom(n, i);
            |fs| > 0 && fs[|fs| - 1] !in Prefs ==> Leftover(fs[|fs| - 1])
    decreases |Prefs| - i, n
  {
    if i == |Prefs| {
      assert n % 5 != 0 && n % 3 != 0 && n % 2 != 0 by {
        assert Prefs[2] == 5 && Prefs[4] == 3 && Prefs[5] == 2;
      }
    } else if n % Prefs[i] == 0 {
      var p := Prefs[i];
      RoughDiv(n, p, i);
      FactorLeftover(n / p, i);
      assert FactorFrom(n, i) == [p] + FactorFrom(n / p, i);
    } else {
      FactorLeftover(n, i + 1);
      assert FactorFrom(n, i) == FactorFrom(n, i + 1);
    }
  }

  /** Each preferred stage was taken greedily: what remained when it was taken (the product
      of it and the stages after it) is divisible by no larger preferred factor. */
  predicate Greedy(fs: seq<nat>)
  {
    forall j, k {:trigger Product(fs[j..]), Prefs[k]} ::
      0 <= j < |fs| && fs[j] in Prefs && 0 <= k < |Prefs| && Prefs[k] > fs[j]
      ==> Product(fs[j..]) % Prefs[k] != 0
  }

  /** Each preferred factor is repeated as long as it divides what remains: no stage is
      followed by a remainder that a larger preferred factor still divides. */
  lemma {:induction false} FactorGreedy(n: nat, i: nat)
    requires n >= 1 && i <= |Prefs| && Rough(n, i)
    ensures Greedy(FactorFrom(n, i))
    decreases |Prefs| - i, n
  {
    PrefsDescending();
    var fs := FactorFrom(n, i);
    if i == |Prefs| {
      FactorBounds(n, i);
      forall j | 0 <= j < |fs|
        ensures fs[j] !in Prefs
      {
        assert fs[j] in fs;
      }
    } else if n % Prefs[i] == 0 {
      var p := Prefs[i];
      var rest := FactorFrom(n / p, i);
      RoughDiv(n, p, i);
      FactorGreedy(n / p, i);
      FactorProduct(n, i);
      assert fs == [p] + rest;
      forall j, k | 0 <= j < |fs| && fs[j] in Prefs && 0 <= k < |Prefs| && Prefs[k] > fs[j]
        ensures Product(fs[j..]) % Prefs[k] != 0
      {
        if j == 0 {
          assert fs[0..] == fs;
          assert k < i;
        } else {
          assert fs[j..] == rest[j - 1..] && fs[j] == rest[j - 1];
        }
      }
    } else {
      assert Rough(n, i + 1);
      FactorGreedy(n, i + 1);
    }
  }

  /** `Factor`'s promises: the stages multiply to the ratio, each is at least 2, the
      preferred factors come first in the order 8, 6, 5, 4, 3, 2, each taken while it
      divides what remains (`Greedy`), and at most one stage is not preferred: the last,
      which is more than 1 and divisible by none of 2, 3, 5. A ratio of 1 gives no stage
      at all. `FactorUnique` shows that these promises fix the list. */
  lemma FactorSpec(n: nat)
    requires n >= 1
    ensures Product(FactorFrom(n, 0)) == n
    ensures forall f :: f in FactorFrom(n, 0) ==> f >= 2
    ensures PreferredFirst(FactorFrom(n, 0))
    ensures Greedy(FactorFrom(n, 0))
    ensures var fs := FactorFrom(n, 0);
            |fs| > 0 && fs[|fs| - 1] !in Prefs ==> Leftover(fs[|fs| - 1])
    ensures n == 1 <==> FactorFrom(n, 0) == []
  {
    FactorProduct(n, 0);
    FactorAtLeastTwo(n, 0);
    FactorOrder(n, 0);
    FactorGreedy(n, 0);
    FactorLeftover(n, 0);
  }

  // ---- the promises fix the stage list ----

  /** `fs` keeps `Factor`'s promises for a remainder `n` once the preferred factors before
      `Prefs[i]` are done: no preferred stage is larger than `Prefs[i]`. */
  predicate Staged(n: nat, i: nat, fs: seq<nat>)
    requires i <= |Prefs|
  {
    Product(fs) == n
    && (forall f :: f in fs ==> f >= 2)
    && PreferredFirst(fs)
    && Greedy(fs)
    && (|fs| > 0 && fs[|fs| - 1] !in Prefs ==> Leftover(fs[|fs| - 1]))
    && (forall f :: f in fs && f in Prefs ==> i < |Prefs| && f <= Prefs[i])
  }

  /** A stage divides the product of the stages. */
  lemma {:induction false} StageDivides(fs: seq<nat>, x: nat)
    requires x in fs && x >= 1
    ensures Product(fs) % x == 0
    decreases |fs|
  {
    if fs[0] == x {
      ModOf(Product(fs), x, Product(fs[1..]), 0);
    } else {
      assert x in fs[1..];
      StageDivides(fs[1..], x);
      var q := Product(fs[1..]) / x;
      assert Product(fs[1..]) == q * x;
      assert Product(fs) == (fs[0] * q) * x;
      ModOf(Product(fs), x, fs[0] * q, 0);
    }
  }

  /** Divisibility is transitive. */
  lemma DividesTrans(n: nat, p: nat, q: nat)
    requires p >= 1 && q >= 1 && n % p == 0 && p % q == 0
    ensures n % q == 0
  {
    var a, b := n / p, p / q;
    assert n == a * p && p == b * q;
    assert n == (a * b) * q;
    ModOf(n, q, a * b, 0);
  }

  /** Every preferred factor is divisible by 2, 3 or 5. */
  lemma PrefsSmallPrime(k: nat)
    requires k < |Prefs|
    ensures Prefs[k] % 2 == 0 || Prefs[k] % 3 == 0 || Prefs[k] % 5 == 0
  {
  }

  /** In a list with the preferred stages first and non-increasing, a preferred first stage
      bounds every preferred stage. */
  lemma {:induction false} PreferredBound(fs: seq<nat>)
    requires PreferredFirst(fs) && |fs| > 0 && fs[0] in Prefs
    ensures forall f :: f in fs && f in Prefs ==> f <= fs[0]
    decreases |fs|
  {
    if |fs| > 1 {
      var rest := fs[1..];
      assert PreferredFirst(rest) by {
        forall j | 0 <= j < |rest| - 1
          ensures rest[j] in Prefs && (rest[j + 1] in Prefs ==> rest[j] >= rest[j + 1])
        {
          assert rest[j] == fs[j + 1] && rest[j + 1] == fs[j + 2];
        }
      }
      if rest[0] in Prefs {
        PreferredBound(rest);
        assert fs[0] >= fs[1];
      } else {
        assert |rest| == 1;
      }
      forall f | f in fs && f in Prefs
        ensures f <= fs[0]
      {
        if f != fs[0] {
          assert f in rest;
        }
      }
    }
  }

  /** Taking off a first stage `Prefs[i]` keeps the promises for the remainder. */
  lemma StagedTail(n: nat, i: nat, fs: seq<nat>)
    requires i < |Prefs| && Staged(n, i, fs) && |fs| > 0 && fs[0] == Prefs[i]
    ensures Staged(n / Prefs[i], i, fs[1..])
  {
    var p, rest := Prefs[i], fs[1..];
    PrefsDescending();
    DivOf(n, p, Product(rest), 0);
    assert PreferredFirst(rest) by {
      forall j | 0 <= j < |rest| - 1
        ensures rest[j] in Prefs && (rest[j + 1] in Prefs ==> rest[j] >= rest[j + 1])
      {
        assert rest[j] == fs[j + 1] && rest[j + 1] == fs[j + 2];
      }
    }
    assert Greedy(rest) by {
      forall j, k | 0 <= j < |rest| && rest[j] in Prefs && 0 <= k < |Prefs| && Prefs[k] > rest[j]
        ensures Product(rest[j..]) % Prefs[k] != 0
      {
        assert rest[j..] == fs[j + 1..] && rest[j] == fs[j + 1];
      }
    }
    PreferredBound(fs);
    forall f | f in rest
      ensures f in fs
    {
    }
  }

  /** When `Prefs[i]` divides the remainder, the first stage is `Prefs[i]`: a stage that is
      not preferred would be the whole remainder, which 2, 3 or 5 divides, and a smaller
      preferred stage would break `Greedy`. */
  lemma StagedHead(n: nat, i: nat, fs: seq<nat>)
    requires n >= 1 && i < |Prefs| && Staged(n, i, fs) && n % Prefs[i] == 0
    ensures |fs| > 0 && fs[0] == Prefs[i]
  {
    var p := Prefs[i];
    PrefsDescending();
    assert fs != [];
    assert fs[0] in fs;
    if fs[0] !in Prefs {
      assert |fs| == 1;
      assert Product(fs) == fs[0] * Product([]);
      PrefsSmallPrime(i);
      if p % 2 == 0 {
        DividesTrans(n, p, 2);
      } else if p % 3 == 0 {
        DividesTrans(n, p, 3);
      } else {
        DividesTrans(n, p, 5);
      }
    } else {
      assert fs[0..] == fs;
    }
  }

  /** Once no preferred factor is left, the list is the leftover alone, or empty for 1. */
  lemma StagedEnd(n: nat, fs: seq<nat>)
    requires n >= 1 && Staged(n, |Prefs|, fs)
    ensures fs == FactorFrom(n, |Prefs|)
  {
    if |fs| == 1 {
      assert Product(fs) == fs[0] * Product([]);
      assert fs[0] in fs;
    }
  }

  /** When `Prefs[i]` does not divide the remainder, no stage is `Prefs[i]`, so the
      promises hold from the next preferred factor on. */
  lemma StagedSkip(n: nat, i: nat, fs: seq<nat>)
    requires n >= 1 && i < |Prefs| && Rough(n, i) && Staged(n, i, fs) && n % Prefs[i] != 0
    ensures Rough(n, i + 1) && Staged(n, i + 1, fs)
  {
    PrefsDescending();
    forall f | f in fs && f in Prefs
      ensures i + 1 < |Prefs| && f <= Prefs[i + 1]
    {
      if f == Prefs[i] {
        StageDivides(fs, f);
      }
      var k :| 0 <= k < |Prefs| && Prefs[k] == f;
      assert k > i;
    }
  }

  /** Dividing out a factor of at least 2 leaves a smaller positive remainder. */
  lemma QuotientSmaller(n: nat, p: nat)
    requires n >= 1 && p >= 2 && n % p == 0
    ensures 1 <= n / p < n
  {
    DivOf(n, p, n / p, 0);
  }

  /** Any list keeping the promises for the remainder `n` is the one `FactorFrom(n, i)`
      builds. */
  lemma {:induction false} StagedUnique(n: nat, i: nat, fs: seq<nat>)
    requires n >= 1 && i <= |Prefs| && Rough(n, i) && Staged(n, i, fs)
    ensures fs == FactorFrom(n, i)
    decreases |Prefs| - i, n
  {
    if i == |Prefs| {
      StagedEnd(n, fs);
    } else if n % Prefs[i] == 0 {
      var p := Prefs[i];
      StagedHead(n, i, fs);
      StagedTail(n, i, fs);
      RoughDiv(n, p, i);
      QuotientSmaller(n, p);
      StagedUnique(n / p, i, fs[1..]);
      assert fs == [p] + fs[1..];
    } else {
      StagedSkip(n, i, fs);
      StagedUnique(n, i + 1, fs);
    }
  }

  /** `Factor`'s promises pin its result: a list of stages that multiplies to the ratio, has
      stages of at least 2, preferred stages first, non-increasing and each taken while it
      divides, and a leftover last stage only when it is coprime to 2, 3 and 5, is
      `FactorFrom(n, 0)`. */
  lemma FactorUnique(n: nat, fs: seq<nat>)
    requires n >= 1 && Product(fs) == n
    requires forall f :: f in fs ==> f >= 2
    requires PreferredFirst(fs) && Greedy(fs)
    requires |fs| > 0 && fs[|fs| - 1] !in Prefs ==> Leftover(fs[|fs| - 1])
    ensures fs == FactorFrom(n, 0)
  {
    PrefsDescending();
    assert Staged(n, 0, fs);
    StagedUnique(n, 0, fs);
  }

  /** Examples: 36 is two stages of 6, 16 is 8 then 2, and 49 stays a single stage of 49
      (the leftover is not split further). */
  lemma FactorExamples()
    ensures FactorFrom(36, 0) == [6, 6]
    ensures FactorFrom(16, 0) == [8, 2]
    ensures FactorFrom(49, 0) == [49]
  {
  }

  // ---- what the filter computes ----

  /** The unit impulse followed by `k` zero samples. */
  function Impulse(k: nat): (hist: seq<Complex>)
    ensures |hist| == k + 1
  {
    if k == 0 then [Complex(1, 0)] else Impulse(k - 1) + [Zero]
  }

  /** The impulse is `k` steps old after `k` further samples. */
  lemma {:induction false} ImpulsePast(k: nat, j: nat)
    ensures Past(Impulse(k), j) == if j == k then Complex(1, 0) else Zero
  {
    if k > 0 && j > 0 {
      ImpulsePast(k - 1, j - 1);
    }
  }

  /** Only tap `k` meets the impulse. */
  lemma {:induction false} FirSumImpulse(h: seq<int>, k: nat, m: nat)
    requires m <= |h|
    ensures FirSum(h, Impulse(k), m) == if k < m then Complex(h[k], 0) else Zero
  {
    if m > 0 {
      FirSumImpulse(h, k, m - 1);
      ImpulsePast(k, m - 1);
    }
  }

  /** The impulse response is the tap sequence: `k` samples after a unit impulse the filter
      puts out the `k`-th coefficient, and nothing once the impulse has left the delay line. */
  lemma ImpulseResponse(h: seq<int>, k: nat)
    ensures Fir(h, Impulse(k)) == if k < |h| then Complex(h[k], 0) else Zero
  {
    FirSumImpulse(h, k, |h|);
  }

  /** `(x - d) mod n` only depends on `x mod n`. */
  lemma ModSub(x: int, d: int, n: int)
    requires n > 0
    ensures (x - d) % n == (x % n - d) % n
  {
    var r := x % n;
    var q2, r2 := (r - d) / n, (r - d) % n;
    ModOf(x - d, n, x / n + q2, r2);
  }

  /** The convolution loop reads every slot of the delay line exactly once: the slots
      `(idx - i) mod n` for `i < n` are pairwise different, and slot `s` is read at
      `i = (idx - s) mod n`. */
  lemma SlotsReadOnce(at: int, n: int, i: int, j: int, s: int)
    requires 0 <= at < n && 0 <= i < j < n && 0 <= s < n
    ensures (at - i) % n != (at - j) % n
    ensures 0 <= (at - s) % n < n && (at - (at - s) % n) % n == s
  {
    var a := (at - i) % n;
    ModSub(at - i, j - i, n);
    ModDistinct(a, j - i, n);
    var k := (at - s) % n;
    ModOf(at - k, n, (at - s) / n, s);
  }

  // ---- one decimation stage ----

  /** The filter's outputs while it is fed `xs` after the samples `hist`. */
  function FirRun(h: seq<int>, hist: seq<Complex>, xs: seq<Complex>): (ys: seq<Complex>)
    ensures |ys| == |xs|
  {
    if xs == [] then [] else FirRun(h, hist, xs[..|xs| - 1]) + [Fir(h, hist + xs)]
  }

  /** The outputs at the indices that are multiples of `d`. */
  function Keep(ys: seq<Complex>, d: nat): seq<Complex>
    requires d >= 1
  {
    if ys == [] then [] else Keep(ys[..|ys| - 1], d) + (if (|ys| - 1) % d == 0 then [ys[|ys| - 1]] else [])
  }

  /** The first `n` elements, or all of them when there are fewer. */
  function Take(s: seq<Complex>, n: nat): (t: seq<Complex>)
    ensures |t| == if |s| < n then |s| else n
  {
    if n < |s| then s[..n] else s
  }

  /** What a stage leaves in its scratch buffer of `cap` samples. */
  function StageOut(h: seq<int>, hist: seq<Complex>, xs: seq<Complex>, d: nat, cap: nat): seq<Complex>
    requires d >= 1
  {
    Take(Keep(FirRun(h, hist, xs), d), cap)
  }

  /** `ceil(len / d)`, the number of indices below `len` that are multiples of `d`. */
  function CeilDiv(len: nat, d: nat): nat
    requires d >= 1
  {
    (len + d - 1) / d
  }

  /** One more output adds one kept sample exactly when its index is a multiple of `d`. */
  lemma CeilStep(m: nat, d: nat)
    requires d >= 1
    ensures CeilDiv(m + 1, d) == CeilDiv(m, d) + (if m % d == 0 then 1 else 0)
    ensures m % d == 0 ==> CeilDiv(m, d) * d == m
  {
    var q, r := m / d, m % d;
    if r == 0 {
      DivOf(m + d - 1, d, q, d - 1);
      DivOf(m + d, d, q + 1, 0);
    } else {
      DivOf(m + d - 1, d, q + 1, r - 1);
      DivOf(m + d, d, q + 1, r);
    }
  }

  /** The kept count is `ceil(|ys| / d)`. */
  lemma {:induction false} KeepLength(ys: seq<Complex>, d: nat)
    requires d >= 1
    ensures |Keep(ys, d)| == CeilDiv(|ys|, d)
  {
    if ys != [] {
      KeepLength(ys[..|ys| - 1], d);
      CeilStep(|ys| - 1, d);
    }
  }

  /** The `j`-th kept sample is output `j * d`. */
  lemma {:induction false} KeepAt(ys: seq<Complex>, d: nat, j: nat)
    requires d >= 1 && j < |Keep(ys, d)|
    ensures j * d < |ys| && Keep(ys, d)[j] == ys[j * d]
  {
    var m := |ys| - 1;
    var init := ys[..m];
    var tail := if m % d == 0 then [ys[m]] else [];
    assert Keep(ys, d) == Keep(init, d) + tail;
    KeepLength(init, d);
    if j < |Keep(init, d)| {
      KeepAt(init, d, j);
      assert Keep(ys, d)[j] == Keep(init, d)[j];
    } else {
      CeilStep(m, d);
      assert j == CeilDiv(m, d) && m % d == 0;
      assert j * d == m;
    }
  }

  /** The length of the samples after `s` stages: each stage keeps `ceil(len / d)` outputs,
      at most `cap` of them. */
  function StageLength(n: nat, ds: seq<nat>, cap: nat, s: nat): nat
    requires s <= |ds| && forall t :: 0 <= t < |ds| ==> ds[t] >= 1
  {
    if s == 0 then n
    else
      var c := CeilDiv(StageLength(n, ds, cap, s - 1), ds[s - 1]);
      if c < cap then c else cap
  }

  /** Every decimation factor is at least 1. */
  predicate Decimating(ds: seq<nat>) { forall t :: 0 <= t < |ds| ==> ds[t] >= 1 }

  /** The samples after the first `s` stages, stage `t` filtering with taps `hs[t]` after the
      samples `hists[t]` it was fed before. */
  function Cascade(hs: seq<seq<int>>, hists: seq<seq<Complex>>, ds: seq<nat>, xs: seq<Complex>, cap: nat, s: nat): seq<Complex>
    requires s <= |ds| == |hs| == |hists| && Decimating(ds)
  {
    if s == 0 then xs else StageOut(hs[s - 1], hists[s - 1], Cascade(hs, hists, ds, xs, cap, s - 1), ds[s - 1], cap)
  }

  /** The cascade's length is the stage length rule; past the first stage it is at most
      `cap`. */
  lemma {:induction false} CascadeLength(hs: seq<seq<int>>, hists: seq<seq<Complex>>, ds: seq<nat>, xs: seq<Complex>, cap: nat, s: nat)
    requires s <= |ds| == |hs| == |hists| && Decimating(ds)
    ensures |Cascade(hs, hists, ds, xs, cap, s)| == StageLength(|xs|, ds, cap, s)
    ensures s > 0 ==> StageLength(|xs|, ds, cap, s) <= cap
  {
    if s > 0 {
      CascadeLength(hs, hists, ds, xs, cap, s - 1);
      var prev := Cascade(hs, hists, ds, xs, cap, s - 1);
      KeepLength(FirRun(hs[s - 1], hists[s - 1], prev), ds[s - 1]);
    }
  }

  /** The filters' histories after the first `s` stages have run: stage `t` has been fed
      the cascade after `t` stages. */
  function Fed(hs: seq<seq<int>>, hists: seq<seq<Complex>>, ds: seq<nat>, xs: seq<Complex>, cap: nat, s: nat): (r: seq<seq<Complex>>)
    requires s <= |ds| == |hs| == |hists| && Decimating(ds)
    ensures |r| == |hists|
  {
    if s == 0 then hists
    else Fed(hs, hists, ds, xs, cap, s - 1)[s - 1 := hists[s - 1] + Cascade(hs, hists, ds, xs, cap, s - 1)]
  }

  /** Stage `t` has been fed the cascade after `t` stages once it has run, and nothing
      before. */
  lemma {:induction false} FedAt(hs: seq<seq<int>>, hists: seq<seq<Complex>>, ds: seq<nat>, xs: seq<Complex>, cap: nat, s: nat, t: nat)
    requires s <= |ds| == |hs| == |hists| && Decimating(ds) && t < |ds|
    ensures t < s ==> Fed(hs, hists, ds, xs, cap, s)[t] == hists[t] + Cascade(hs, hists, ds, xs, cap, t)
    ensures t >= s ==> Fed(hs, hists, ds, xs, cap, s)[t] == hists[t]
  {
    if s > 0 {
      var prev := Fed(hs, hists, ds, xs, cap, s - 1);
      var fed := hists[s - 1] + Cascade(hs, hists, ds, xs, cap, s - 1);
      assert Fed(hs, hists, ds, xs, cap, s) == prev[s - 1 := fed];
      if t != s - 1 {
        FedAt(hs, hists, ds, xs, cap, s - 1, t);
      }
    }
  }

  /** Feeding one more sample adds one output: the filter's output for the longer history. */
  lemma FirRunStep(h: seq<int>, hist: seq<Complex>, src: seq<Complex>, i: nat)
    requires i < |src|
    ensures FirRun(h, hist, src[..i + 1]) == FirRun(h, hist, src[..i]) + [Fir(h, hist + src[..i] + [src[i]])]
    ensures hist + src[..i] + [src[i]] == hist + src[..i + 1]
  {
    assert src[..i + 1][..i] == src[..i];
    assert hist + src[..i] + [src[i]] == hist + src[..i + 1];
  }

  /** One more output: it is kept when its index is a multiple of `d` and the buffer still
      has room. */
  lemma TakeKeepStep(ys: seq<Complex>, y: Complex, d: nat, cap: nat)
    requires d >= 1
    ensures var before := Take(Keep(ys, d), cap);
            Take(Keep(ys + [y], d), cap)
              == if |ys| % d == 0 && |before| < cap then before + [y] else before
  {
    assert (ys + [y])[..|ys|] == ys;
  }

  /** The state of a stage after its first `i` input samples: the filter has taken them,
      and `buf` holds the first `outLen` kept outputs. */
  ghost predicate StageAt(filter: FirFilter, hist0: seq<Complex>, src: seq<Complex>, i: nat, d: nat,
                          buf: array<Complex>, outLen: nat)
    reads filter, filter.delay, buf
  {
    filter.Valid() && d >= 1 && buf != filter.delay && i <= |src| && filter.history == hist0 + src[..i]
    && outLen <= buf.Length && buf[..outLen] == Take(Keep(FirRun(filter.h, hist0, src[..i]), d), buf.Length)
  }

  /** One pass of the stage loop: sample `i` goes through the filter, and its output is
      kept when `i` is a multiple of `d` and `buf` still has room. */
  method StageSample(filter: FirFilter, ghost hist0: seq<Complex>, src: seq<Complex>, i: nat, d: nat,
                     buf: array<Complex>, outLen: nat) returns (newLen: nat)
    requires i < |src| && StageAt(filter, hist0, src, i, d, buf, outLen)
    modifies filter, filter.delay, buf
    ensures StageAt(filter, hist0, src, i + 1, d, buf, newLen)
  {
    ghost var ys := FirRun(filter.h, hist0, src[..i]);
    var y := filter.Process(src[i]);
    FirRunStep(filter.h, hist0, src, i);
    TakeKeepStep(ys, y, d, buf.Length);
    newLen := outLen;
    if i % d == 0 {
      if newLen < buf.Length {
        buf[newLen] := y;
        newLen := newLen + 1;
      }
    }
  }

  /** One stage of `Process`: every input sample goes through the stage's filter, and the
      outputs at indices that are multiples of `d` go to `buf` while it has room. */
  method RunStage(filter: FirFilter, src: seq<Complex>, d: nat, buf: array<Complex>) returns (outLen: nat)
    requires filter.Valid() && d >= 1 && buf != filter.delay
    modifies filter, filter.delay, buf
    ensures filter.Valid() && filter.history == old(filter.history) + src
    ensures outLen <= buf.Length && buf[..outLen] == StageOut(filter.h, old(filter.history), src, d, buf.Length)
  {
    ghost var hist0 := filter.history;
    outLen := 0;
    assert hist0 + src[..0] == hist0;
    for i := 0 to |src|
      invariant StageAt(filter, hist0, src, i, d, buf, outLen)
    {
      outLen := StageSample(filter, hist0, src, i, d, buf, outLen);
    }
    assert src[..|src|] == src;
  }

  /** Stage `s + 1` of the cascade is stage `s` run through filter `s`. */
  lemma CascadeStep(hs: seq<seq<int>>, hists: seq<seq<Complex>>, ds: seq<nat>, xs: seq<Complex>, cap: nat, s: nat)
    requires s < |ds| == |hs| == |hists| && Decimating(ds)
    ensures Cascade(hs, hists, ds, xs, cap, s + 1) == StageOut(hs[s], hists[s], Cascade(hs, hists, ds, xs, cap, s), ds[s], cap)
  {
  }

  /** Copies the first `n` samples of `src` to `dst`. */
  method CopyPrefix(src: array<Complex>, dst: array<Complex>, n: nat)
    requires n <= src.Length && n <= dst.Length && src != dst
    modifies dst
    ensures dst[..n] == src[..n] && dst[n..] == old(dst[n..])
  {
    for j := 0 to n
      invariant dst[..j] == src[..j] && dst[n..] == old(dst[n..])
    {
      dst[j] := src[j];
    }
  }

  // ---- the decimator ----

  /** The tap count every stage's low-pass filter is designed with. */
  const Taps := 63

  /** `Math.Min`. */
  function Min(a: int, b: int): int { if a < b then a else b }

  // ---- the stage ratio ----

  /** `|a - b|`. */
  function Dist(a: int, b: int): nat { if a >= b then a - b else b - a }

  /** `num / den` rounded to the nearest integer, a tie to the even one (the default
      rounding of `Math.Round`). */
  function RoundHalfEven(num: nat, den: nat): nat
    requires den >= 1
  {
    var q, r := num / den, num % den;
    if 2 * r < den || (2 * r == den && q % 2 == 0) then q else q + 1
  }

  /** The rounded quotient is at most half a divisor away from the numerator, and exactly
      half only when it is even. */
  lemma RoundHalfEvenNearest(num: nat, den: nat)
    requires den >= 1
    ensures 2 * Dist(num, RoundHalfEven(num, den) * den) <= den
    ensures 2 * Dist(num, RoundHalfEven(num, den) * den) == den ==> RoundHalfEven(num, den) % 2 == 0
  {
    var q, r := num / den, num % den;
    assert num == q * den + r;
    assert (q + 1) * den == q * den + den;
    assert Dist(num, q * den) == r;
    assert Dist(num, (q + 1) * den) == den - r;
  }

  /** The integer ratio the constructor factors, for rates that are whole numbers: the
      rounded ratio, raised to at least 1 when the ratio is more than a millionth away
      from it. The comparison is made exactly, without floating point. */
  function StageRatio(inputRate: int, outputRate: int): nat
    requires inputRate > 0 && outputRate > 0
  {
    var i := RoundHalfEven(inputRate, outputRate);
    if Dist(inputRate, i * outputRate) * 1000000 > outputRate && i < 1 then 1 else i
  }

  /** A whole ratio is taken as it is; any other ratio becomes the nearest integer, and at
      least 1 unless the ratio is within a millionth of 0. */
  lemma StageRatioSpec(inputRate: int, outputRate: int)
    requires inputRate > 0 && outputRate > 0
    ensures inputRate % outputRate == 0 ==> StageRatio(inputRate, outputRate) == inputRate / outputRate
    ensures 2 * Dist(inputRate, StageRatio(inputRate, outputRate) * outputRate) <= outputRate
            || StageRatio(inputRate, outputRate) == 1
    ensures StageRatio(inputRate, outputRate) == 0 <==> inputRate * 1000000 <= outputRate
  {
  }

  /** What `Process` does: returns a count, or dereferences the scratch buffer that a
      decimator without stages never had. */
  datatype Outcome = Produced(count: int) | NullBuffer

  class MultiStage {
    const stages: seq<nat>
    const filters: seq<FirFilter>
    const stageBuf: seq<array<Complex>>
    const maxIn: nat
    /** The objects the decimator owns: its filters, their delay lines, its scratch buffers. */
    ghost const repr: set<object>

    /** One filter and one scratch buffer of `maxIn` samples per stage, all distinct and
        all owned. This only involves constant fields. */
    ghost predicate Shape()
    {
      |filters| == |stages| == |stageBuf| && maxIn >= 1024 && Decimating(stages)
      && (forall s :: 0 <= s < |stages| ==> filters[s] in repr && filters[s].delay in repr && stageBuf[s] in repr)
      && (forall s :: 0 <= s < |stages| ==> stageBuf[s].Length == maxIn)
      && (forall s, t :: 0 <= s < t < |filters| ==> filters[s] != filters[t] && filters[s].delay != filters[t].delay)
      && (forall s, t :: 0 <= s < |filters| && 0 <= t < |stageBuf| ==> filters[s].delay != stageBuf[t])
    }

    /** The shape, and every filter's delay line matches its history. */
    ghost predicate Valid()
      reads repr
    {
      Shape() && forall s :: 0 <= s < |stages| ==> filters[s].Valid()
    }

    /** The taps of each stage. */
    function Coeffs(): seq<seq<int>>
    {
      seq(|filters|, s requires 0 <= s < |filters| => filters[s].h)
    }

    /** The samples each stage's filter has been fed so far. */
    ghost function Histories(): seq<seq<Complex>>
      reads filters
    {
      seq(|filters|, s requires 0 <= s < |filters| reads filters => filters[s].history)
    }

    /** The samples after the first `s` stages when `input` is processed now. */
    ghost function Output(input: seq<Complex>, s: nat): seq<Complex>
      requires Valid() && s <= |stages|
      reads repr
    {
      Cascade(Coeffs(), Histories(), stages, input, maxIn, s)
    }

    /** The constructor's loop: for each of `n` stages a fresh filter with `lowpass(s)` as
        taps and a fresh scratch buffer of `cap` samples, all distinct. */
    static method NewStages(n: nat, cap: nat, lowpass: nat -> seq<int>)
      returns (fs: seq<FirFilter>, bufs: seq<array<Complex>>, ghost r: set<object>)
      requires forall s :: |lowpass(s)| == Taps
      ensures |fs| == |bufs| == n && fresh(r)
      ensures forall t :: 0 <= t < n ==> fs[t] in r && fs[t].delay in r && bufs[t] in r
      ensures forall t :: 0 <= t < n ==> fs[t].Valid() && fs[t].h == lowpass(t) && fs[t].history == [] && bufs[t].Length == cap
      ensures forall t, u :: 0 <= t < u < n ==> fs[t] != fs[u] && fs[t].delay != fs[u].delay
      ensures forall t, u :: 0 <= t < n && 0 <= u < n ==> fs[t].delay != bufs[u]
    {
      fs, bufs, r := [], [], {};
      for s := 0 to n
        invariant |fs| == |bufs| == s && fresh(r)
        invariant forall t :: 0 <= t < s ==> fs[t] in r && fs[t].delay in r && bufs[t] in r
        invariant forall t :: 0 <= t < s ==> fs[t].Valid() && fs[t].h == lowpass(t) && fs[t].history == [] && bufs[t].Length == cap
        invariant forall t, u :: 0 <= t < u < s ==> fs[t] != fs[u] && fs[t].delay != fs[u].delay
        invariant forall t, u :: 0 <= t < s && 0 <= u < s ==> fs[t].delay != bufs[u]
      {
        var f := new FirFilter(lowpass(s));
        var b := new Complex[cap](_ => Zero);
        fs := fs + [f];
        bufs := bufs + [b];
        r := r + {f, f.delay, b};
      }
    }

    /** The constructor for valid rates: `max(1024, maxInput)` samples per scratch buffer,
        the stages of the rounded rate ratio, and per stage a fresh filter with
        `lowpass(s)` as taps (the design of the low-pass taps is not part of this model). */
    constructor(inputRate: int, outputRate: int, maxInput: int, lowpass: nat -> seq<int>)
      requires inputRate > 0 && outputRate > 0 && StageRatio(inputRate, outputRate) >= 1
      requires forall s :: |lowpass(s)| == Taps
      ensures Valid() && fresh(repr)
      ensures stages == FactorFrom(StageRatio(inputRate, outputRate), 0)
      ensures maxIn == if maxInput > 1024 then maxInput else 1024
      ensures forall s :: 0 <= s < |stages| ==> filters[s].h == lowpass(s) && filters[s].history == []
    {
      var mi: nat := if 1024 > maxInput then 1024 else maxInput;
      var ratio := StageRatio(inputRate, outputRate);
      var st := Factor(ratio);
      FactorSpec(ratio);
      forall t | 0 <= t < |st|
        ensures st[t] >= 1
      {
        assert st[t] in st;
      }
      var fs, bufs, r := NewStages(|st|, mi, lowpass);
      stages := st;
      filters := fs;
      stageBuf := bufs;
      maxIn := mi;
      repr := r;
    }

    /** Construction with its error path: a rate that is not positive is refused (the
        source throws), otherwise a new decimator as the constructor makes it. */
    static method Create(inputRate: int, outputRate: int, maxInput: int, lowpass: nat -> seq<int>)
      returns (r: Option<MultiStage>)
      requires inputRate > 0 && outputRate > 0 ==> StageRatio(inputRate, outputRate) >= 1
      requires forall s :: |lowpass(s)| == Taps
      ensures r.None? <==> inputRate <= 0 || outputRate <= 0
      ensures r.Some? ==> fresh(r.value) && fresh(r.value.repr) && r.value.Valid()
                          && r.value.stages == FactorFrom(StageRatio(inputRate, outputRate), 0)
    {
      if outputRate <= 0 || inputRate <= 0 {
        return None;
      }
      var m := new MultiStage(inputRate, outputRate, maxInput, lowpass);
      r := Some(m);
    }

    /** Stage `s` of `Process`: its filter takes every sample of `src`, the cascade after
        `s` stages, and its scratch buffer receives the kept outputs; no other filter
        changes. */
    method RunStageAt(s: nat, src: seq<Complex>, ghost input: seq<Complex>, ghost h0: seq<seq<Complex>>)
      returns (outLen: nat)
      requires Valid() && s < |stages| && |h0| == |stages|
      requires src == Cascade(Coeffs(), h0, stages, input, maxIn, s) && Histories() == Fed(Coeffs(), h0, stages, input, maxIn, s)
      modifies filters[s], filters[s].delay, stageBuf[s]
      ensures Valid() && Histories() == Fed(Coeffs(), h0, stages, input, maxIn, s + 1)
      ensures outLen <= maxIn && stageBuf[s][..outLen] == Cascade(Coeffs(), h0, stages, input, maxIn, s + 1)
    {
      FedAt(Coeffs(), h0, stages, input, maxIn, s, s);
      outLen := RunStage(filters[s], src, stages[s], stageBuf[s]);
      CascadeStep(Coeffs(), h0, stages, input, maxIn, s);
      assert Histories() == old(Histories())[s := old(Histories())[s] + src];
    }

    /** The state of `Process`'s stage loop before stage `s`, for the input `input` and the
        histories `h0` the filters had on entry. */
    ghost predicate Reached(s: nat, len: nat, src: seq<Complex>, input: seq<Complex>, h0: seq<seq<Complex>>)
      reads repr
    {
      Valid() && s <= |stages| && |h0| == |stages|
      && src == Cascade(Coeffs(), h0, stages, input, maxIn, s) && len == |src|
      && (s > 0 ==> len <= maxIn && stageBuf[s - 1][..len] == src)
      && Histories() == Fed(Coeffs(), h0, stages, input, maxIn, s)
    }

    /** One pass of the stage loop: stage `s` filters `src` into its scratch buffer; before
        the last stage the kept samples are copied to `output` and become the next
        stage's input. */
    method Step(s: nat, src: seq<Complex>, output: array<Complex>, maxOut: int, ghost input: seq<Complex>,
                ghost h0: seq<seq<Complex>>, ghost prevLen: nat)
      returns (len: nat, next: seq<Complex>)
      requires s < |stages| && Reached(s, prevLen, src, input, h0)
      requires output !in repr && maxOut <= output.Length
      requires s < |stages| - 1 ==> StageLength(|input|, stages, maxIn, s + 1) <= maxOut
      modifies repr, output
      ensures Reached(s + 1, len, next, input, h0)
    {
      len := RunStageAt(s, src, input, h0);
      if s < |stages| - 1 {
        CascadeLength(Coeffs(), h0, stages, input, maxIn, s + 1);
        assert Reached(s + 1, len, stageBuf[s][..len], input, h0);
        next := Forward(stageBuf[s], len, output, maxOut);
      } else {
        next := stageBuf[s][..len];
      }
    }

    /** The copy between stages: the `len` samples a stage kept go to `output`, where the
        next stage reads them. */
    static method Forward(buf: array<Complex>, len: nat, output: array<Complex>, maxOut: int) returns (next: seq<Complex>)
      requires buf != output && len <= buf.Length && len <= maxOut <= output.Length
      modifies output
      ensures next == old(buf[..len]) && output[..len] == old(buf[..len])
    {
      var copyLen := Min(len, maxOut);
      CopyPrefix(buf, output, copyLen);
      next := output[..len];
    }

    /** The stage loop of `Process`, from the input to the cascade after every stage. */
    method RunStages(input: seq<Complex>, output: array<Complex>, maxOut: int, ghost h0: seq<seq<Complex>>)
      returns (len: nat, src: seq<Complex>)
      requires Reached(0, |input|, input, input, h0)
      requires output !in repr && maxOut <= output.Length
      requires forall s :: 1 <= s < |stages| ==> StageLength(|input|, stages, maxIn, s) <= maxOut
      modifies repr, output
      ensures Reached(|stages|, len, src, input, h0)
    {
      len := |input|;
      src := input;
      for s := 0 to |stages|
        invariant Reached(s, len, src, input, h0)
      {
        len, src := Step(s, src, output, maxOut, input, h0, len);
      }
    }

    /** `Process(input, inputLen, output, maxOut)`: the input runs through every stage; the
        result is the last stage's sample count capped at `maxOut`, and that many samples of
        the decimated signal are in `output`. Without stages, a non-zero count dereferences
        the scratch buffer that was never set. */
    method Process(input: seq<Complex>, output: array<Complex>, maxOut: int) returns (r: Outcome)
      requires Valid() && output !in repr && maxOut <= output.Length
      requires forall s :: 1 <= s < |stages| ==> StageLength(|input|, stages, maxIn, s) <= maxOut
      modifies repr, output
      ensures Valid()
      ensures |stages| == 0 ==>
                r == if Min(|input|, maxOut) > 0 then NullBuffer else Produced(Min(|input|, maxOut))
      ensures |stages| > 0 ==> r == Produced(Min(StageLength(|input|, stages, maxIn, |stages|), maxOut))
      ensures |stages| > 0 && r.count > 0 ==> output[..r.count] == Take(old(Output(input, |stages|)), r.count)
      ensures Histories() == Fed(Coeffs(), old(Histories()), stages, input, maxIn, |stages|)
    {
      ghost var h0 := Histories();
      CascadeLength(Coeffs(), h0, stages, input, maxIn, |stages|);
      var len, last := RunStages(input, output, maxOut, h0);
      var finalLen := Min(len, maxOut);
      if |stages| == 0 {
        if finalLen > 0 {
          return NullBuffer;
        }
        return Produced(finalLen);
      }
      if finalLen > 0 {
        CopyPrefix(stageBuf[|stages| - 1], output, finalLen);
      }
      r := Produced(finalLen);
    }
  }
}
