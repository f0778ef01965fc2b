/** Jain's fairness index in examples/tcp/dctcp-example.cc: counters fed by packet callbacks, summed in
    64-bit arithmetic. */
module Fairness {
  import opened Sequences

  /** Arithmetic on `uint64_t` is modulo this. */
  const M: nat := 0x1_0000_0000_0000_0000

  function Sum(s: seq<nat>): nat {
    if s == [] then 0 else Sum(s[..|s| - 1]) + s[|s| - 1]
  }

  function SumSquares(s: seq<nat>): nat {
    if s == [] then 0 else SumSquares(s[..|s| - 1]) + s[|s| - 1] * s[|s| - 1]
  }

  /** The numerator and denominator of the index, without wrap-around. */
  function Numerator(s: seq<nat>): nat { Sum(s) * Sum(s) }

  function Denominator(s: seq<nat>): nat { |s| * SumSquares(s) }

  // ----- wrapped arithmetic

  lemma AddWrapped(a: nat, b: nat)
    ensures (a % M + b) % M == (a + b) % M
    ensures (a % M + b % M) % M == (a + b) % M
  {
  }

  lemma MulWrapped(a: nat, b: nat)
    ensures (a * (b % M)) % M == (a * b) % M
  {
    var q, r := b / M, b % M;
    assert b == M * q + r;
    assert a * (M * q + r) == a * (M * q) + a * r;
    assert a * (M * q) == M * (a * q);
  }

  lemma SquareWrapped(a: nat)
    ensures ((a % M) * (a % M)) % M == (a * a) % M
  {
    MulWrapped(a % M, a);
    MulWrapped(a, a);
  }

  class FlowCounters {
    const rx: array<nat>

    /** One counter for each flow, all zero. */
    constructor (flows: nat)
      ensures fresh(rx) && rx.Length == flows && forall i :: 0 <= i < flows ==> rx[i] == 0
    {
      rx := new nat[flows](_ => 0);
    }

    predicate Valid()
      reads this, rx
    {
      forall i :: 0 <= i < rx.Length ==> rx[i] < M
    }

    method TraceSink(index: nat, size: nat)
      requires Valid() && index < rx.Length
      modifies rx
      ensures Valid() && rx[..] == old(rx[..])[index := (old(rx[index]) + size) % M]
    {
      rx[index] := (rx[index] + size) % M;
    }

    method InitializeCounters()
      modifies rx
      ensures Valid() && forall i :: 0 <= i < rx.Length ==> rx[i] == 0
    {
      for i := 0 to rx.Length
        invariant forall k :: 0 <= k < i ==> rx[k] == 0
      {
        rx[i] := 0;
      }
    }

    /** A measurement interval: every counter ends up with the bytes of its own flow. */
    method TraceAll(packets: seq<(nat, nat)>)
      requires Valid() && forall p :: p in packets ==> p.0 < rx.Length
      modifies rx
      ensures Valid()
      ensures forall i :: 0 <= i < rx.Length ==> rx[i] == (old(rx[i]) + Received(packets, i)) % M
    {
      for k := 0 to |packets|
        invariant Valid()
        invariant forall i :: 0 <= i < rx.Length ==> rx[i] == (old(rx[i]) + Received(packets[..k], i)) % M
      {
        assert packets[..k + 1][..k] == packets[..k];
        ghost var before := rx[..];
        TraceSink(packets[k].0, packets[k].1);
        forall i | 0 <= i < rx.Length ensures rx[i] == (old(rx[i]) + Received(packets[..k + 1], i)) % M {
          AddWrapped(old(rx[i]) + Received(packets[..k], i), packets[k].1);
          assert before[i] == (old(rx[i]) + Received(packets[..k], i)) % M;
        }
      }
      assert packets[..|packets|] == packets;
    }

    /** A run with its measurement interval: only what arrives after the counters were reset is measured. */
    method Measure(startup: seq<(nat, nat)>, interval: seq<(nat, nat)>) returns (numerator: nat, denominator: nat)
      requires Valid() && forall p :: p in startup + interval ==> p.0 < rx.Length
      modifies rx
      ensures Valid() && rx[..] == Counters(interval, rx.Length)
      ensures numerator == Numerator(Counters(interval, rx.Length)) % M
      ensures denominator == Denominator(Counters(interval, rx.Length)) % M
    {
      TraceAll(startup);
      InitializeCounters();
      TraceAll(interval);
      numerator, denominator := PrintFairness();
    }

    /** The numerator and the denominator of the printed index, exactly as the machine computes them. */
    method PrintFairness() returns (numerator: nat, denominator: nat)
      requires Valid()
      ensures numerator == Numerator(rx[..]) % M && denominator == Denominator(rx[..]) % M
      ensures numerator == Sum(rx[..]) * Sum(rx[..]) % M && denominator == rx.Length * SumSquares(rx[..]) % M
    {
      var sum, sumSquares := 0, 0;
      for i := 0 to rx.Length
        invariant sum == Sum(rx[..i]) % M && sumSquares == SumSquares(rx[..i]) % M
      {
        assert rx[..i + 1][..i] == rx[..i];
        AddWrapped(Sum(rx[..i]), rx[i]);
        AddWrapped(SumSquares(rx[..i]), rx[i] * rx[i]);
        sum := (sum + rx[i]) % M;
        sumSquares := (sumSquares + rx[i] * rx[i] % M) % M;
      }
      assert rx[..rx.Length] == rx[..];
      SquareWrapped(Sum(rx[..]));
      MulWrapped(rx.Length, SumSquares(rx[..]));
      numerator := sum * sum % M;
      denominator := rx.Length * sumSquares % M;
    }
  }

  /** What the counters of `flows` flows hold after some packets, from zero. */
  function Counters(packets: seq<(nat, nat)>, flows: nat): (s: seq<nat>)
    ensures |s| == flows && forall i :: 0 <= i < flows ==> s[i] == Received(packets, i) % M
  {
    seq(flows, i requires 0 <= i < flows => Received(packets, i) % M)
  }

  /** The bytes that arrived for flow `i`. */
  function Received(packets: seq<(nat, nat)>, i: nat): nat {
    if packets == [] then 0
    else Received(packets[..|packets| - 1], i) + if packets[|packets| - 1].0 == i then packets[|packets| - 1].1 else 0
  }

  // ----- the sums

  /** The two sums of a single counter, and of counters taken together. */
  lemma {:induction false} SumsAdd(s: seq<nat>, t: seq<nat>, x: nat)
    ensures Sum([]) == 0 && Sum([x]) == x && Sum(s + t) == Sum(s) + Sum(t)
    ensures SumSquares([]) == 0 && SumSquares([x]) == x * x && SumSquares(s + t) == SumSquares(s) + SumSquares(t)
  {
    assert [x][..0] == [];
    if t == [] {
      assert s + t == s;
    } else {
      SumsAdd(s, t[..|t| - 1], x);
      assert (s + t)[..|s + t| - 1] == s + t[..|t| - 1];
    }
  }

  // ----- the bounds on the index

  /** The sum of squared differences from `x`, over the integers. */
  function Spread(s: seq<nat>, x: int): int {
    if s == [] then 0 else Spread(s[..|s| - 1], x) + (s[|s| - 1] - x) * (s[|s| - 1] - x)
  }

  lemma Distribute(a: int, b: int, c: int)
    ensures a * (b + c) == a * b + a * c
  {
  }

  lemma {:induction false} SpreadIs(s: seq<nat>, x: int)
    ensures Spread(s, x) == SumSquares(s) - 2 * x * Sum(s) + |s| * (x * x)
  {
    if s != [] {
      var most, y := s[..|s| - 1], s[|s| - 1];
      SpreadIs(most, x);
    }
  }

  lemma {:induction false} SpreadSign(s: seq<nat>, x: int)
    ensures Spread(s, x) >= 0
    ensures Spread(s, x) == 0 <==> forall i :: 0 <= i < |s| ==> s[i] == x
  {
    if s != [] {
      var d := s[|s| - 1] - x;
      SpreadSign(s[..|s| - 1], x);
      assert d * d >= 0 && (d * d == 0 <==> d == 0);
      assert forall i :: 0 <= i < |s| - 1 ==> s[..|s| - 1][i] == s[i];
    }
  }

  ghost predicate AllEqual(s: seq<nat>) {
    forall i, j :: 0 <= i < j < |s| ==> s[i] == s[j]
  }

  ghost predicate AtMostOneNonzero(s: seq<nat>) {
    forall i, j :: 0 <= i < j < |s| ==> s[i] == 0 || s[j] == 0
  }

  lemma GapStep(s: seq<nat>, x: nat)
    ensures Denominator(s + [x]) - Numerator(s + [x]) == Denominator(s) - Numerator(s) + Spread(s, x)
  {
    assert (s + [x])[..|s|] == s;
    SpreadIs(s, x);
    GapAlgebra(|s|, Sum(s), SumSquares(s), x);
  }

  lemma GapAlgebra(n: int, S: int, Q: int, x: int)
    ensures (n + 1) * (Q + x * x) - (S + x) * (S + x) == n * Q - S * S + (Q - 2 * x * S + n * (x * x))
  {
    Distribute(Q + x * x, n, 1);
    Distribute(n, Q, x * x);
  }

  /** Cauchy-Schwarz, with equality exactly when all counters are equal. */
  lemma {:induction false} IndexAtMostOne(s: seq<nat>)
    ensures Numerator(s) <= Denominator(s)
    ensures Numerator(s) == Denominator(s) <==> AllEqual(s)
  {
    if s != [] {
      var most, x := s[..|s| - 1], s[|s| - 1];
      assert s == most + [x];
      IndexAtMostOne(most);
      GapStep(most, x);
      SpreadSign(most, x);
    }
  }

  lemma {:induction false} SumZero(s: seq<nat>)
    ensures Sum(s) == 0 <==> forall i :: 0 <= i < |s| ==> s[i] == 0
    ensures SumSquares(s) == 0 <==> forall i :: 0 <= i < |s| ==> s[i] == 0
  {
    if s != [] {
      SumZero(s[..|s| - 1]);
      var x := s[|s| - 1];
      assert x * x == 0 <==> x == 0;
      assert forall i :: 0 <= i < |s| - 1 ==> s[..|s| - 1][i] == s[i];
    }
  }

  /** The other bound, with equality exactly when at most one counter is not zero. */
  lemma {:induction false} IndexAtLeastShare(s: seq<nat>)
    ensures SumSquares(s) <= Numerator(s)
    ensures SumSquares(s) == Numerator(s) <==> AtMostOneNonzero(s)
  {
    if s != [] {
      var most, x := s[..|s| - 1], s[|s| - 1];
      assert s == most + [x];
      IndexAtLeastShare(most);
      SumZero(most);
      ShareAlgebra(Sum(most), x);
    }
  }

  lemma ShareAlgebra(S: nat, x: nat)
    ensures S * S + x * x <= (S + x) * (S + x)
    ensures S * S + x * x == (S + x) * (S + x) <==> S == 0 || x == 0
  {
    assert S * x >= 0 && (S * x == 0 <==> S == 0 || x == 0);
    assert 2 * x * S == 2 * (S * x);
  }

  // ----- when 64 bits are enough

  /** No sum or product that is computed along the way is changed by wrapping. */
  ghost predicate NeverWraps(s: seq<nat>) {
    && (forall i :: 0 <= i <= |s| ==> Sum(s[..i]) < M && SumSquares(s[..i]) < M)
    && (forall i :: 0 <= i < |s| ==> s[i] * s[i] < M)
    && Numerator(s) < M && Denominator(s) < M
  }

  lemma {:induction false} PrefixSums(s: seq<nat>, i: nat)
    requires i <= |s|
    ensures Sum(s[..i]) <= Sum(s) && SumSquares(s[..i]) <= SumSquares(s)
    ensures i < |s| ==> s[i] * s[i] <= SumSquares(s)
  {
    if i < |s| {
      PrefixSums(s[..|s| - 1], if i < |s| - 1 then i else |s| - 1);
      assert s[..|s| - 1][..i] == s[..i];
      assert s[|s| - 1] * s[|s| - 1] >= 0;
    } else {
      assert s[..i] == s;
    }
  }

  /** The denominator is the largest value computed: nothing wraps exactly when it does not. */
  lemma NeverWrapsIff(s: seq<nat>)
    requires s != []
    ensures NeverWraps(s) <==> Denominator(s) < M
  {
    if Denominator(s) < M {
      IndexAtMostOne(s);
      var S, Q := Sum(s), SumSquares(s);
      assert Q <= |s| * Q;
      assert S <= S * S;
      forall i | 0 <= i <= |s| ensures Sum(s[..i]) < M && SumSquares(s[..i]) < M && (i < |s| ==> s[i] * s[i] < M) {
        PrefixSums(s, i);
      }
    }
  }

  lemma {:induction false} SquaresBounded(s: seq<nat>, bound: nat)
    requires forall i :: 0 <= i < |s| ==> s[i] <= bound
    ensures SumSquares(s) <= |s| * (bound * bound)
  {
    if s != [] {
      SquaresBounded(s[..|s| - 1], bound);
      OneMoreSquare(SumSquares(s[..|s| - 1]), |s| - 1, s[|s| - 1], bound);
    }
  }

  lemma OneMoreSquare(Q: nat, n: nat, x: nat, bound: nat)
    requires Q <= n * (bound * bound) && x <= bound
    ensures Q + x * x <= (n + 1) * (bound * bound)
  {
    TimesMonotone(x, bound, x);
    TimesMonotone(x, bound, bound);
    Distribute(bound * bound, n, 1);
  }

  /** Enough room for `n` flows of at most `bound` bytes each. */
  lemma SmallCountersDoNotWrap(s: seq<nat>, bound: nat)
    requires s != [] && (forall i :: 0 <= i < |s| ==> s[i] <= bound) && |s| * bound < 0x1_0000_0000
    ensures NeverWraps(s)
  {
    SquaresBounded(s, bound);
    var n, Q := |s|, SumSquares(s);
    assert n * Q <= n * (n * (bound * bound));
    assert n * (n * (bound * bound)) == (n * bound) * (n * bound);
    SquareBelow(n * bound);
    NeverWrapsIff(s);
  }

  lemma TimesMonotone(a: nat, b: nat, c: nat)
    requires a <= b
    ensures a * c <= b * c
  {
    assert (b - a) * c >= 0;
  }

  lemma SquareBelow(a: nat)
    requires a < 0x1_0000_0000
    ensures a * a < M
  {
    TimesMonotone(a, 0xFFFF_FFFF, a);
  }

  /** The index that is printed; nothing for a zero denominator, where the program divides by zero. */
  function Index(numerator: nat, denominator: nat): Option<real> {
    if denominator == 0 then None else Some(numerator as real / denominator as real)
  }

  /** Comparing quotients by cross-multiplying. */
  lemma Quotients(a: real, b: real, c: real, d: real)
    requires b > 0.0 && d > 0.0
    ensures a / b <= c / d <==> a * d <= c * b
    ensures a / b == c / d <==> a * d == c * b
  {
    var p, q := a / b, c / d;
    assert p * b == a && q * d == c;
    assert a * d == p * (b * d) && c * b == q * (b * d);
    PositiveFactor(p, q, b * d);
  }

  lemma PositiveFactor(p: real, q: real, k: real)
    requires k > 0.0
    ensures p <= q <==> p * k <= q * k
    ensures p == q <==> p * k == q * k
  {
    var e := q - p;
    assert q * k - p * k == e * k;
    assert e > 0.0 ==> e * k > 0.0;
    assert e < 0.0 ==> e * k < 0.0;
  }

  lemma QuotientBounds(a: nat, b: nat, n: nat)
    requires 0 < b <= n * b && b <= a <= n * b && n > 0
    ensures 1.0 / n as real <= a as real / (n * b) as real <= 1.0
    ensures a as real / (n * b) as real == 1.0 <==> a == n * b
    ensures a as real / (n * b) as real == 1.0 / n as real <==> a == b
  {
    var x, d, m := a as real, (n * b) as real, n as real;
    assert d == m * b as real;
    Quotients(1.0, m, x, d);
    Quotients(x, d, 1.0, 1.0);
    PositiveFactor(b as real, x, m);
    assert 1.0 * d == b as real * m;
  }

  lemma AtLeastTimes(n: nat, q: nat)
    requires n > 0
    ensures q <= n * q
  {
    Distribute(q, n - 1, 1);
    assert q * (n - 1) >= 0;
  }

  /** As long as nothing wraps, the printed index of a set of flows, not all silent, lies between one
      over their number and one; it is one exactly for equal flows, and lowest exactly when a single
      flow got everything. */
  lemma IndexIsFair(s: seq<nat>)
    requires s != [] && NeverWraps(s) && exists i :: 0 <= i < |s| && s[i] != 0
    ensures Index(Numerator(s) % M, Denominator(s) % M).Some?
    ensures var f := Index(Numerator(s) % M, Denominator(s) % M).value;
      && 1.0 / |s| as real <= f <= 1.0
      && (f == 1.0 <==> AllEqual(s))
      && (f == 1.0 / |s| as real <==> AtMostOneNonzero(s))
  {
    NothingLost(s);
    SumZero(s);
    IndexAtMostOne(s);
    IndexAtLeastShare(s);
    IndexBounds(Numerator(s), SumSquares(s), |s|);
  }

  lemma NothingLost(s: seq<nat>)
    requires NeverWraps(s)
    ensures Index(Numerator(s) % M, Denominator(s) % M) == Index(Numerator(s), Denominator(s))
  {
    assert Numerator(s) % M == Numerator(s);
    assert Denominator(s) % M == Denominator(s);
  }

  lemma IndexBounds(a: nat, b: nat, n: nat)
    requires n > 0 && 0 < b <= a <= n * b
    ensures Index(a, n * b).Some?
    ensures var f := Index(a, n * b).value;
      && 1.0 / n as real <= f <= 1.0
      && (f == 1.0 <==> a == n * b)
      && (f == 1.0 / n as real <==> a == b)
  {
    AtLeastTimes(n, b);
    QuotientBounds(a, b, n);
  }
}
