/** The request-queue fee of EIP-7002 and EIP-8282 (pkg/lifecycle/contract.go): fakeExponential and ReadQueueFee. */
module QueueFee {
  import opened Arith
  import opened Bytes

  // ----- the sum that the loop accumulates -----

  function NextAccum(accum: nat, numerator: nat, denominator: nat, i: nat): nat
    requires denominator > 0 && i > 0
  {
    assert denominator * i > 0;
    accum * numerator / (denominator * i)
  }

  /** How far denominator * i still is from exceeding the numerator; from then on the accumulator falls. */
  function Distance(numerator: nat, denominator: nat, i: nat): nat
  {
    if numerator < denominator * i then 0 else numerator - denominator * i + 1
  }

  lemma Progress(accum: nat, numerator: nat, denominator: nat, i: nat)
    requires denominator > 0 && i > 0 && accum > 0
    ensures Distance(numerator, denominator, i + 1) < Distance(numerator, denominator, i)
         || (Distance(numerator, denominator, i + 1) == Distance(numerator, denominator, i) == 0
             && NextAccum(accum, numerator, denominator, i) < accum)
  {
    var d := denominator * i;
    assert denominator * (i + 1) == d + denominator;
    if numerator < d {
      QuotientBelow(accum * numerator, d, accum);
    }
  }

  lemma QuotientBelow(x: nat, d: nat, bound: nat)
    requires d > 0
    ensures x < bound * d <==> x / d < bound
  {
    var q := x / d;
    assert x == d * q + x % d;
    if q < bound {
      MulAtLeast(d, bound - q - 1);
      assert bound * d == d * q + d + d * (bound - q - 1);
    } else {
      MulAtLeast(d, q - bound);
      assert d * q == bound * d + d * (q - bound);
    }
  }

  /** What the loop adds to the output from iteration i on, when it starts with this accumulator. */
  function SumFrom(accum: nat, numerator: nat, denominator: nat, i: nat): nat
    requires denominator > 0 && i > 0
    decreases Distance(numerator, denominator, i), accum
  {
    if accum == 0 then 0
    else
      Progress(accum, numerator, denominator, i);
      accum + SumFrom(NextAccum(accum, numerator, denominator, i), numerator, denominator, i + 1)
  }

  /** The number of iterations from there. */
  ghost function StepsFrom(accum: nat, numerator: nat, denominator: nat, i: nat): nat
    requires denominator > 0 && i > 0
    decreases Distance(numerator, denominator, i), accum
  {
    if accum == 0 then 0
    else
      Progress(accum, numerator, denominator, i);
      1 + StepsFrom(NextAccum(accum, numerator, denominator, i), numerator, denominator, i + 1)
  }

  function Fee(factor: nat, numerator: nat, denominator: nat): nat
    requires denominator > 0
  {
    SumFrom(factor * denominator, numerator, denominator, 1) / denominator
  }

  /** The loop ends for every numerator and every positive denominator. */
  method FakeExponential(factor: nat, numerator: nat, denominator: nat) returns (fee: nat)
    requires denominator > 0
    ensures fee == Fee(factor, numerator, denominator)
  {
    var output := 0;
    var accum: nat := factor * denominator;
    var i: nat := 1;
    while accum > 0
      invariant i > 0
      invariant output + SumFrom(accum, numerator, denominator, i) == SumFrom(factor * denominator, numerator, denominator, 1)
      decreases Distance(numerator, denominator, i), accum
    {
      Progress(accum, numerator, denominator, i);
      output := output + accum;
      accum := NextAccum(accum, numerator, denominator, i);
      i := i + 1;
    }
    fee := output / denominator;
  }

  // ----- bounds -----

  lemma FeeAtLeastFactor(factor: nat, numerator: nat, denominator: nat)
    requires denominator > 0
    ensures factor <= Fee(factor, numerator, denominator)
  {
    var accum := factor * denominator;
    assert accum <= SumFrom(accum, numerator, denominator, 1);
    QuotientBelow(SumFrom(accum, numerator, denominator, 1), denominator, factor);
  }

  /** At least the first two terms, factor * (1 + numerator / denominator), rounded down. */
  lemma FeeAtLeastLinear(factor: nat, numerator: nat, denominator: nat)
    requires denominator > 0
    ensures factor + factor * numerator / denominator <= Fee(factor, numerator, denominator)
  {
    FirstStep(factor, numerator, denominator);
    TwoTerms(factor * denominator, numerator, denominator);
    DivMonotone(factor * denominator + factor * numerator, SumFrom(factor * denominator, numerator, denominator, 1), denominator);
    WholePart(factor, factor * numerator, denominator);
  }

  lemma TwoTerms(accum: nat, numerator: nat, denominator: nat)
    requires denominator > 0
    ensures accum + NextAccum(accum, numerator, denominator, 1) <= SumFrom(accum, numerator, denominator, 1)
  {
    if accum == 0 {
      DivModUnique(0, denominator, 0, 0);
    }
  }

  lemma WholePart(a: nat, x: nat, d: nat)
    requires d > 0
    ensures (a * d + x) / d == a + x / d
  {
    assert x == d * (x / d) + x % d;
    assert a * d + x == d * (a + x / d) + x % d;
    DivModUnique(a * d + x, d, a + x / d, x % d);
  }

  lemma FirstStep(factor: nat, numerator: nat, denominator: nat)
    requires denominator > 0
    ensures NextAccum(factor * denominator, numerator, denominator, 1) == factor * numerator
  {
    assert factor * denominator * numerator == denominator * (factor * numerator);
    DivModUnique(factor * denominator * numerator, denominator, factor * numerator, 0);
  }

  ghost function Ratio(numerator: nat, denominator: nat, k: nat): (r: real)
    requires denominator > 0 && k > 0
    ensures r >= 0.0
  {
    MulAtLeast(denominator, k);
    QuotientMonotone(0.0, numerator as real, (denominator * k) as real);
    numerator as real / (denominator * k) as real
  }

  /** The exact k-th term of factor * e^(numerator / denominator). */
  ghost function Term(factor: real, numerator: nat, denominator: nat, k: nat): real
    requires denominator > 0
  {
    if k == 0 then factor else Term(factor, numerator, denominator, k - 1) * Ratio(numerator, denominator, k)
  }

  /** All terms, as a sequence without end. */
  ghost function Terms(factor: real, numerator: nat, denominator: nat): nat -> real
    requires denominator > 0
  {
    (k: nat) => Term(factor, numerator, denominator, k)
  }

  /** t(k) + ... + t(k + n - 1) */
  ghost function TermSum(t: nat -> real, k: nat, n: nat): real
    decreases n
  {
    if n == 0 then 0.0 else t(k) + TermSum(t, k + 1, n - 1)
  }

  lemma RealProductMonotone(a: real, b: real, c: real)
    requires a <= b && c >= 0.0
    ensures a * c <= b * c
  {
  }

  lemma CancelQuotient(q: real, d: real)
    requires d > 0.0
    ensures q * d / d == q
  {
  }

  lemma FloorBelow(x: nat, d: nat)
    requires d > 0
    ensures (x / d) as real <= x as real / d as real
  {
    var q := x / d;
    assert q * d <= x;
    assert (q * d) as real == q as real * d as real;
    QuotientMonotone(q as real * d as real, x as real, d as real);
    CancelQuotient(q as real, d as real);
  }

  lemma ProductOverD(a: real, n: real, d: real)
    requires d > 0.0
    ensures a * n / d == a * (n / d)
  {
  }

  /** Rounding down only loses: the integer accumulator stays below the exact term. */
  lemma AccumBelowTerm(accum: nat, t: real, numerator: nat, denominator: nat, i: nat)
    requires denominator > 0 && i > 0 && accum as real <= t
    ensures NextAccum(accum, numerator, denominator, i) as real <= t * Ratio(numerator, denominator, i)
  {
    MulAtLeast(denominator, i);
    var d := denominator * i;
    FloorBelow(accum * numerator, d);
    ProductAsReal(accum, numerator);
    ProductOverD(accum as real, numerator as real, d as real);
    RealProductMonotone(accum as real, t, Ratio(numerator, denominator, i));
  }

  lemma ProductAsReal(a: nat, b: nat)
    ensures (a * b) as real == a as real * b as real
  {
  }

  /** One step of the accumulator stays below one step of t. */
  ghost predicate Dominates(t: nat -> real, numerator: nat, denominator: nat)
    requires denominator > 0
  {
    forall accum: nat, i: nat :: i > 0 && accum as real <= t(i - 1) ==> NextAccum(accum, numerator, denominator, i) as real <= t(i)
  }

  lemma {:induction false} SumBelowTerms(accum: nat, t: nat -> real, numerator: nat, denominator: nat, i: nat)
    requires denominator > 0 && i > 0 && Dominates(t, numerator, denominator) && accum as real <= t(i - 1)
    ensures SumFrom(accum, numerator, denominator, i) as real <=
      TermSum(t, i - 1, StepsFrom(accum, numerator, denominator, i))
    decreases Distance(numerator, denominator, i), accum
  {
    if accum > 0 {
      Progress(accum, numerator, denominator, i);
      SumBelowTerms(NextAccum(accum, numerator, denominator, i), t, numerator, denominator, i + 1);
    }
  }

  lemma TermsDominate(factor: real, numerator: nat, denominator: nat)
    requires denominator > 0
    ensures Dominates(Terms(factor, numerator, denominator), numerator, denominator)
  {
    var t := Terms(factor, numerator, denominator);
    forall accum: nat, i: nat | i > 0 && accum as real <= t(i - 1)
      ensures NextAccum(accum, numerator, denominator, i) as real <= t(i)
    {
      AccumBelowTerm(accum, Term(factor, numerator, denominator, i - 1), numerator, denominator, i);
    }
  }

  lemma {:induction false} TermScale(factor: real, numerator: nat, denominator: nat, k: nat, c: real, scaled: real)
    requires denominator > 0 && scaled == factor * c
    ensures Term(scaled, numerator, denominator, k) == Term(factor, numerator, denominator, k) * c
  {
    if k > 0 {
      TermScale(factor, numerator, denominator, k - 1, c, scaled);
      Swap(Term(factor, numerator, denominator, k - 1), c, Ratio(numerator, denominator, k));
    }
  }

  lemma Swap(a: real, b: real, c: real)
    ensures a * b * c == a * c * b
  {
  }

  lemma Distribute(a: real, b: real, c: real)
    ensures (a + b) * c == a * c + b * c
  {
  }

  lemma {:induction false} TermSumScale(t: nat -> real, t': nat -> real, k: nat, n: nat, c: real)
    requires IsScaled(t, t', c)
    ensures TermSum(t', k, n) == TermSum(t, k, n) * c
    decreases n
  {
    if n == 0 {
      assert TermSum(t', k, n) == 0.0 && TermSum(t, k, n) == 0.0;
    } else {
      TermSumScale(t, t', k + 1, n - 1, c);
      assert t'(k) == t(k) * c;
      Distribute(t(k), TermSum(t, k + 1, n - 1), c);
      assert TermSum(t', k, n) == t(k) * c + TermSum(t, k + 1, n - 1) * c;
      assert TermSum(t, k, n) == t(k) + TermSum(t, k + 1, n - 1);
    }
  }

  /** The fee never exceeds the exact sum of as many Taylor terms as the loop has iterations. */
  lemma FeeBelowTaylorSum(factor: nat, numerator: nat, denominator: nat)
    requires denominator > 0
    ensures Fee(factor, numerator, denominator) as real <=
      TermSum(Terms(factor as real, numerator, denominator), 0, StepsFrom(factor * denominator, numerator, denominator, 1))
  {
    var accum, scaled := factor * denominator, (factor * denominator) as real;
    var t, t' := Terms(factor as real, numerator, denominator), Terms(scaled, numerator, denominator);
    TermsDominate(scaled, numerator, denominator);
    TermsScale(factor as real, numerator, denominator, denominator as real, scaled) by {
      ProductAsReal(factor, denominator);
    }
    ScaledTermsBound(accum, t, t', numerator, denominator);
  }

  lemma TermsScale(factor: real, numerator: nat, denominator: nat, c: real, scaled: real)
    requires denominator > 0 && scaled == factor * c
    ensures IsScaled(Terms(factor, numerator, denominator), Terms(scaled, numerator, denominator), c)
  {
    forall i: nat
      ensures Terms(scaled, numerator, denominator)(i) == Terms(factor, numerator, denominator)(i) * c
    {
      TermScale(factor, numerator, denominator, i, c, scaled);
    }
  }

  ghost predicate IsScaled(t: nat -> real, t': nat -> real, c: real)
  {
    forall i: nat :: t'(i) == t(i) * c
  }

  lemma ScaledTermsBound(accum: nat, t: nat -> real, t': nat -> real, numerator: nat, denominator: nat)
    requires denominator > 0 && Dominates(t', numerator, denominator) && IsScaled(t, t', denominator as real)
    requires accum as real <= t'(0)
    ensures (SumFrom(accum, numerator, denominator, 1) / denominator) as real <=
      TermSum(t, 0, StepsFrom(accum, numerator, denominator, 1))
  {
    var steps := StepsFrom(accum, numerator, denominator, 1);
    SumBelowTerms(accum, t', numerator, denominator, 1);
    TermSumScale(t, t', 0, steps, denominator as real);
    DividedBelow(SumFrom(accum, numerator, denominator, 1), denominator, TermSum(t, 0, steps));
  }

  lemma DividedBelow(x: nat, d: nat, t: real)
    requires d > 0 && x as real <= t * d as real
    ensures (x / d) as real <= t
  {
    FloorBelow(x, d);
    QuotientMonotone(x as real, t * d as real, d as real);
    CancelQuotient(t, d as real);
  }

  // ----- how much rounding down can lose -----

  /** What the accumulator may have lost by iteration k: each division loses less than 1, and the loss is divided on. */
  ghost function Loss(numerator: nat, denominator: nat, k: nat): real
    requires denominator > 0
  {
    if k == 0 then 0.0 else Loss(numerator, denominator, k - 1) * Ratio(numerator, denominator, k) + 1.0
  }

  ghost function Losses(numerator: nat, denominator: nat): nat -> real
    requires denominator > 0
  {
    (k: nat) => Loss(numerator, denominator, k)
  }

  lemma NonNegativeFactor(a: real, d: real)
    requires d > 0.0 && a * d >= 0.0
    ensures a >= 0.0
  {
  }

  lemma NegatedProduct(a: real, b: real)
    ensures -a * b == -(a * b)
  {
  }

  lemma FloorAbove(x: nat, d: nat)
    requires d > 0
    ensures (x / d) as real >= x as real / d as real - 1.0
  {
    var q, y := x / d, x as real / d as real;
    assert x == d * q + x % d;
    assert x <= (q + 1) * d;
    ProductAsReal(q + 1, d);
    assert y * d as real == x as real;
    Distribute((q + 1) as real, -y, d as real);
    NegatedProduct(y, d as real);
    NonNegativeFactor((q + 1) as real - y, d as real);
  }

  /** The integer accumulator falls behind the exact term by no more than the loss. */
  lemma AccumAboveTerm(accum: nat, least: real, numerator: nat, denominator: nat, i: nat)
    requires denominator > 0 && i > 0 && accum as real >= least
    ensures NextAccum(accum, numerator, denominator, i) as real >= least * Ratio(numerator, denominator, i) - 1.0
  {
    MulAtLeast(denominator, i);
    var d := denominator * i;
    FloorAbove(accum * numerator, d);
    ScaledRatio(accum, numerator, d);
    RealProductMonotone(least, accum as real, Ratio(numerator, denominator, i));
  }

  lemma ScaledRatio(accum: nat, numerator: nat, d: nat)
    requires d > 0
    ensures (accum * numerator) as real / d as real == accum as real * (numerator as real / d as real)
  {
    ProductAsReal(accum, numerator);
    ProductOverD(accum as real, numerator as real, d as real);
  }

  /** The exact terms t less the losses l bound the accumulator from below, step by step. */
  ghost predicate Underlies(t: nat -> real, l: nat -> real, numerator: nat, denominator: nat)
    requires denominator > 0
  {
    forall accum: nat, i: nat :: i > 0 && accum as real >= t(i - 1) - l(i - 1) ==>
      NextAccum(accum, numerator, denominator, i) as real >= t(i) - l(i)
  }

  lemma TermsUnderlie(factor: real, numerator: nat, denominator: nat)
    requires denominator > 0
    ensures Underlies(Terms(factor, numerator, denominator), Losses(numerator, denominator), numerator, denominator)
  {
    var t, l := Terms(factor, numerator, denominator), Losses(numerator, denominator);
    forall accum: nat, i: nat | i > 0 && accum as real >= t(i - 1) - l(i - 1)
      ensures NextAccum(accum, numerator, denominator, i) as real >= t(i) - l(i)
    {
      AccumAboveTerm(accum, t(i - 1) - l(i - 1), numerator, denominator, i);
      Distribute(t(i - 1), -l(i - 1), Ratio(numerator, denominator, i));
      NegatedProduct(l(i - 1), Ratio(numerator, denominator, i));
    }
  }

  /** However many terms are taken, also beyond the last iteration. */
  lemma {:induction false} SumAboveTerms(accum: nat, t: nat -> real, l: nat -> real, numerator: nat, denominator: nat, i: nat, n: nat)
    requires denominator > 0 && i > 0 && Underlies(t, l, numerator, denominator) && accum as real >= t(i - 1) - l(i - 1)
    ensures SumFrom(accum, numerator, denominator, i) as real >= TermSum(t, i - 1, n) - TermSum(l, i - 1, n)
    decreases n
  {
    if n > 0 {
      SumAboveTerms(NextAccum(accum, numerator, denominator, i), t, l, numerator, denominator, i + 1, n - 1);
      SumStep(accum, numerator, denominator, i);
    }
  }

  lemma SumStep(accum: nat, numerator: nat, denominator: nat, i: nat)
    requires denominator > 0 && i > 0
    ensures SumFrom(accum, numerator, denominator, i) ==
      accum + SumFrom(NextAccum(accum, numerator, denominator, i), numerator, denominator, i + 1)
  {
    MulAtLeast(denominator, i);
    if accum == 0 {
      DivModUnique(0, denominator * i, 0, 0);
    }
  }

  /** The fee is above the exact sum of any number of Taylor terms, less the losses, less 1 for the last division. */
  lemma FeeAboveTaylorSum(factor: nat, numerator: nat, denominator: nat, n: nat)
    requires denominator > 0
    ensures Fee(factor, numerator, denominator) as real + 1.0 >=
      TermSum(Terms(factor as real, numerator, denominator), 0, n)
      - TermSum(Losses(numerator, denominator), 0, n) / denominator as real
  {
    ProductAsReal(factor, denominator);
    SumAboveTaylor(factor * denominator, factor as real, numerator, denominator, n);
    DividedAbove(SumFrom(factor * denominator, numerator, denominator, 1), denominator,
                 TermSum(Terms(factor as real, numerator, denominator), 0, n), TermSum(Losses(numerator, denominator), 0, n));
  }

  lemma SumAboveTaylor(accum: nat, factor: real, numerator: nat, denominator: nat, n: nat)
    requires denominator > 0 && accum as real == factor * denominator as real
    ensures SumFrom(accum, numerator, denominator, 1) as real >=
      TermSum(Terms(factor, numerator, denominator), 0, n) * denominator as real
      - TermSum(Losses(numerator, denominator), 0, n)
  {
    SumAboveScaled(accum, numerator, denominator, n);
    ScaledSum(accum, factor, numerator, denominator, n);
  }

  lemma SumAboveScaled(accum: nat, numerator: nat, denominator: nat, n: nat)
    requires denominator > 0
    ensures SumFrom(accum, numerator, denominator, 1) as real >=
      TermSum(Terms(accum as real, numerator, denominator), 0, n) - TermSum(Losses(numerator, denominator), 0, n)
  {
    TermsUnderlie(accum as real, numerator, denominator);
    SumAboveTerms(accum, Terms(accum as real, numerator, denominator), Losses(numerator, denominator), numerator, denominator, 1, n);
  }

  lemma ScaledSum(accum: nat, factor: real, numerator: nat, denominator: nat, n: nat)
    requires denominator > 0 && accum as real == factor * denominator as real
    ensures TermSum(Terms(accum as real, numerator, denominator), 0, n)
         == TermSum(Terms(factor, numerator, denominator), 0, n) * denominator as real
  {
    var t, t' := Terms(factor, numerator, denominator), Terms(accum as real, numerator, denominator);
    TermsScale(factor, numerator, denominator, denominator as real, accum as real);
    TermSumScale(t, t', 0, n, denominator as real);
  }

  lemma DividedAbove(x: nat, d: nat, t: real, loss: real)
    requires d > 0 && x as real >= t * d as real - loss
    ensures (x / d) as real + 1.0 >= t - loss / d as real
  {
    FloorAbove(x, d);
    QuotientAbove(x as real, d as real, t, loss);
  }

  lemma QuotientAbove(x: real, d: real, t: real, loss: real)
    requires d > 0.0 && x >= t * d - loss
    ensures x / d >= t - loss / d
  {
    var y, z := x / d, loss / d;
    assert y * d == x && z * d == loss;
    Distribute(y + z, -t, d);
    Distribute(y, z, d);
    NegatedProduct(t, d);
    assert (y + z - t) * d >= 0.0;
    NonNegativeFactor(y + z - t, d);
  }

  // ----- monotonicity -----

  lemma ProductMonotone(a: nat, b: nat, c: nat, d: nat)
    requires a <= c && b <= d
    ensures a * b <= c * d
  {
    assert a * b <= c * b;
    assert c * b <= c * d;
  }

  lemma {:induction false} SumMonotone(accum: nat, accum': nat, numerator: nat, numerator': nat, denominator: nat, i: nat)
    requires denominator > 0 && i > 0 && accum <= accum' && numerator <= numerator'
    ensures SumFrom(accum, numerator, denominator, i) <= SumFrom(accum', numerator', denominator, i)
    decreases Distance(numerator', denominator, i), accum'
  {
    if accum > 0 {
      Progress(accum', numerator', denominator, i);
      ProductMonotone(accum, numerator, accum', numerator');
      MulAtLeast(denominator, i);
      DivMonotone(accum * numerator, accum' * numerator', denominator * i);
      SumMonotone(NextAccum(accum, numerator, denominator, i), NextAccum(accum', numerator', denominator, i),
                  numerator, numerator', denominator, i + 1);
    }
  }

  /** A larger factor or a larger excess never makes the fee smaller. */
  lemma FeeMonotone(factor: nat, factor': nat, numerator: nat, numerator': nat, denominator: nat)
    requires denominator > 0 && factor <= factor' && numerator <= numerator'
    ensures Fee(factor, numerator, denominator) <= Fee(factor', numerator', denominator)
  {
    ProductMonotone(factor, denominator, factor', denominator);
    SumMonotone(factor * denominator, factor' * denominator, numerator, numerator', denominator, 1);
    DivMonotone(SumFrom(factor * denominator, numerator, denominator, 1),
                SumFrom(factor' * denominator, numerator', denominator, 1), denominator);
  }

  // ----- reading the fee -----

  const MIN_REQUEST_FEE: nat := 1
  const FEE_UPDATE_FRACTION: nat := 17
  const QUEUE_FEE_HEADROOM: nat := 3
  const EXCESS_INHIBITOR: nat := 0xFFFFFFFF_FFFFFFFF_FFFFFFFF_FFFFFFFF_FFFFFFFF_FFFFFFFF_FFFFFFFF_FFFFFFFF

  datatype Answer = Answer(bytes: seq<byte>) | Failed

  datatype QueueFee = ReadFailed | NotDeployed | Inactive | Active(fee: nat)

  function FromBE(s: seq<byte>): nat
  {
    if s == [] then 0 else 256 * FromBE(s[..|s| - 1]) + s[|s| - 1]
  }

  /** The first byte is the most significant one. */
  lemma {:induction false} FromBEHead(b: byte, s: seq<byte>)
    ensures FromBE([b] + s) == b * Pow256(|s|) + FromBE(s)
  {
    if s == [] {
      assert ([b] + s)[..0] == [];
    } else {
      var n := |s| - 1;
      FromBEHead(b, s[..n]);
      assert ([b] + s)[..|s|] == [b] + s[..n];
      assert b * Pow256(|s|) == 256 * (b * Pow256(n));
    }
  }

  /** An active fee pays for the observed excess and for up to three more requests ahead of ours. */
  method ReadQueueFee(code: Answer, slot0: Answer) returns (result: QueueFee)
    ensures result == ReadFailed <==> code == Failed || (code.bytes != [] && slot0 == Failed)
    ensures result == NotDeployed <==> code == Answer([])
    ensures result == Inactive <==> code.Answer? && code.bytes != [] && slot0.Answer? && FromBE(slot0.bytes) == EXCESS_INHIBITOR
    ensures result.Active? ==>
      && result.fee == Fee(MIN_REQUEST_FEE, FromBE(slot0.bytes) + QUEUE_FEE_HEADROOM, FEE_UPDATE_FRACTION)
      && MIN_REQUEST_FEE <= result.fee
      && forall excess: nat :: excess <= FromBE(slot0.bytes) + QUEUE_FEE_HEADROOM ==>
        Fee(MIN_REQUEST_FEE, excess, FEE_UPDATE_FRACTION) <= result.fee
  {
    if code == Failed {
      return ReadFailed;
    }
    if code.bytes == [] {
      return NotDeployed;
    }
    if slot0 == Failed {
      return ReadFailed;
    }
    var excess := FromBE(slot0.bytes);
    if excess == EXCESS_INHIBITOR {
      return Inactive;
    }
    var numerator := excess + QUEUE_FEE_HEADROOM;
    var fee := FakeExponential(MIN_REQUEST_FEE, numerator, FEE_UPDATE_FRACTION);
    FeeAtLeastFactor(MIN_REQUEST_FEE, numerator, FEE_UPDATE_FRACTION);
    forall e: nat | e <= numerator
      ensures Fee(MIN_REQUEST_FEE, e, FEE_UPDATE_FRACTION) <= fee
    {
      FeeMonotone(MIN_REQUEST_FEE, MIN_REQUEST_FEE, e, numerator, FEE_UPDATE_FRACTION);
    }
    return Active(fee);
  }
}
