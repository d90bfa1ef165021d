/** The probability of a union of independent events by the
    inclusion-exclusion principle (`inclusionExclusion` and `prod` in
    util/mainHelper.py). */
module InclusionExclusion {

  /** `prod(iterable)`: the product of the elements, 1 for none. */
  function Prod(s: seq<real>): real
  {
    if |s| == 0 then 1.0 else s[0] * Prod(s[1..])
  }

  /** The product of a concatenation is the product of the products. */
  lemma {:induction false} ProdConcat(a: seq<real>, b: seq<real>)
    ensures Prod(a + b) == Prod(a) * Prod(b)
  {
    if |a| == 0 {
      assert a + b == b;
    } else {
      assert (a + b)[0] == a[0];
      assert (a + b)[1..] == a[1..] + b;
      ProdConcat(a[1..], b);
      assert a[0] * (Prod(a[1..]) * Prod(b)) == (a[0] * Prod(a[1..])) * Prod(b);
    }
  }

  /** `itertools.combinations(s, k)`: every choice of `k` elements of `s`,
      kept in their original order, listed in lexicographic order of the
      chosen positions. */
  function Combinations(s: seq<real>, k: nat): (cs: seq<seq<real>>)
  {
    if k == 0 then [[]]
    else if |s| == 0 then []
    else Prepend(s[0], Combinations(s[1..], k - 1)) + Combinations(s[1..], k)
  }

  /** The product `x * v`, named so that proofs can treat it as a unit. */
  function Scale(x: real, v: real): real
  {
    x * v
  }

  /** `n` choose `k`, by Pascal's rule. */
  function Binomial(n: nat, k: nat): nat
  {
    if k == 0 then 1
    else if n == 0 then 0
    else Binomial(n - 1, k - 1) + Binomial(n - 1, k)
  }

  /** There are `n` choose `k` combinations of size `k`. */
  lemma {:induction false} CombinationsCount(s: seq<real>, k: nat)
    ensures |Combinations(s, k)| == Binomial(|s|, k)
  {
    if k > 0 && |s| > 0 {
      CombinationsCount(s[1..], k - 1);
      CombinationsCount(s[1..], k);
    }
  }

  /** Every combination has exactly `k` elements, and each of them is drawn
      from `s`. */
  lemma {:induction false} CombinationsShape(s: seq<real>, k: nat, i: nat)
    requires i < |Combinations(s, k)|
    ensures |Combinations(s, k)[i]| == k
    ensures forall j :: 0 <= j < k ==> Combinations(s, k)[i][j] in s
  {
    if k > 0 {
      var pre, rest := Prepend(s[0], Combinations(s[1..], k - 1)), Combinations(s[1..], k);
      if i < |pre| {
        CombinationsShape(s[1..], k - 1, i);
        var c := Combinations(s[1..], k - 1)[i];
        assert Combinations(s, k)[i] == [s[0]] + c;
        forall j | 0 <= j < k
          ensures Combinations(s, k)[i][j] in s
        {
          if j > 0 {
            assert c[j - 1] in s[1..];
          }
        }
      } else {
        CombinationsShape(s[1..], k, i - |pre|);
        assert Combinations(s, k)[i] == rest[i - |pre|];
        forall j | 0 <= j < k
          ensures Combinations(s, k)[i][j] in s
        {
          assert rest[i - |pre|][j] in s[1..];
        }
      }
    }
  }

  /** Puts `x` in front of every combination of `cs`. */
  function Prepend(x: real, cs: seq<seq<real>>): (r: seq<seq<real>>)
    ensures |r| == |cs|
    ensures forall i :: 0 <= i < |cs| ==> r[i] == [x] + cs[i]
  {
    seq(|cs|, i requires 0 <= i < |cs| => [x] + cs[i])
  }

  /** `sum([prod(c) for c in cs])`. */
  function SumOfProducts(cs: seq<seq<real>>): real
  {
    if |cs| == 0 then 0.0 else Prod(cs[0]) + SumOfProducts(cs[1..])
  }

  /** The running total of `inclusionExclusion` after its `i`-th round: the
      sums of products of the combinations of sizes 1 to `i`, added for odd
      sizes and subtracted for even ones. */
  function UnionUpTo(pr: seq<real>, i: nat): real
  {
    if i == 0 then 0.0
    else
      var sumOfProbs := SumOfProducts(Combinations(pr, i));
      UnionUpTo(pr, i - 1) + (if i % 2 != 0 then sumOfProbs else -sumOfProbs)
  }

  /** The complement `1 - p` of every probability. */
  function Complements(pr: seq<real>): (r: seq<real>)
    ensures |r| == |pr|
    ensures forall i :: 0 <= i < |pr| ==> r[i] == 1.0 - pr[i]
  {
    seq(|pr|, i requires 0 <= i < |pr| => 1.0 - pr[i])
  }

  /** All values lie in [0, 1]. */
  predicate AreProbabilities(pr: seq<real>)
  {
    forall i :: 0 <= i < |pr| ==> 0.0 <= pr[i] <= 1.0
  }

  /** `inclusionExclusion(pr)`: the alternating sum over sizes `i = 1..n` of
      the sums of products of all `i`-element combinations. It equals the
      probability `1 - (1 - p1)...(1 - pn)` that at least one of `n`
      independent events happens, and so is itself a probability when
      every input is. */
  function InclusionExclusion(pr: seq<real>): (r: real)
    ensures r == 1.0 - Prod(Complements(pr))
    ensures AreProbabilities(pr) ==> 0.0 <= r <= 1.0
  {
    ClosedForm(pr);
    UnionOfProbabilities(pr);
    UnionUpTo(pr, |pr|)
  }

  // ---------------------------------------------------------------------
  // The closed form, through the elementary symmetric polynomials.

  /** The `k`-th elementary symmetric polynomial of `s`. */
  function Elementary(s: seq<real>, k: nat): real
  {
    if k == 0 then 1.0
    else if |s| == 0 then 0.0
    else Scale(s[0], Elementary(s[1..], k - 1)) + Elementary(s[1..], k)
  }

  /** `+1` for even sizes, `-1` for odd ones. */
  function Sign(k: nat): real
  {
    if k % 2 == 0 then 1.0 else -1.0
  }

  /** The signed sum of the first `m` elementary symmetric polynomials. */
  function AltSum(s: seq<real>, m: nat): real
  {
    if m == 0 then 0.0 else AltSum(s, m - 1) + Sign(m - 1) * Elementary(s, m - 1)
  }

  lemma {:induction false} SumOfProductsAppend(a: seq<seq<real>>, b: seq<seq<real>>)
    ensures SumOfProducts(a + b) == SumOfProducts(a) + SumOfProducts(b)
  {
    if |a| == 0 {
      assert a + b == b;
    } else {
      assert (a + b)[0] == a[0];
      assert (a + b)[1..] == a[1..] + b;
      SumOfProductsAppend(a[1..], b);
    }
  }

  lemma {:induction false} SumOfProductsPrepend(x: real, cs: seq<seq<real>>)
    ensures SumOfProducts(Prepend(x, cs)) == Scale(x, SumOfProducts(cs))
  {
    if |cs| > 0 {
      var p := Prepend(x, cs);
      assert p[0] == [x] + cs[0];
      assert p[1..] == Prepend(x, cs[1..]);
      assert ([x] + cs[0])[1..] == cs[0];
      assert Prod(p[0]) == x * Prod(cs[0]);
      SumOfProductsPrepend(x, cs[1..]);
    }
  }

  /** Summing the products over `itertools.combinations` computes the
      elementary symmetric polynomial. */
  lemma {:induction false} CombinationsSum(s: seq<real>, k: nat)
    ensures SumOfProducts(Combinations(s, k)) == Elementary(s, k)
    decreases |s|, 3
  {
    if k == 0 {
      assert Prod([]) == 1.0;
    } else if |s| > 0 {
      CombinationsSumCons(s, k);
    } else {
      assert Combinations(s, k) == [];
    }
  }

  /** The inductive step of `CombinationsSum`, by Pascal's rule. */
  lemma {:induction false} CombinationsSumCons(s: seq<real>, k: nat)
    requires k > 0 && |s| > 0
    ensures SumOfProducts(Combinations(s, k)) == Elementary(s, k)
    decreases |s|, 2
  {
    CombinationsSumTail(s, k);
    ElementaryUnfold(s, k, s[0], s[1..]);
  }

  /** The polynomials of `[x] + r` of degree `k`, by whether they take `x`. */
  function PascalRounds(x: real, r: seq<real>, k: nat): real
    requires k > 0
  {
    Scale(x, Elementary(r, k - 1)) + Elementary(r, k)
  }

  /** Pascal's rule for the sums, with the tail's sums by induction. */
  lemma {:induction false} CombinationsSumTail(s: seq<real>, k: nat)
    requires k > 0 && |s| > 0
    ensures SumOfProducts(Combinations(s, k)) == PascalRounds(s[0], s[1..], k)
    decreases |s|, 1
  {
    CombinationsSumHead(s, k);
    CombinationsSum(s[1..], k);
  }

  /** Pascal's rule for the sums, with the combinations that take the head
      summed by induction. */
  lemma {:induction false} CombinationsSumHead(s: seq<real>, k: nat)
    requires k > 0 && |s| > 0
    ensures SumOfProducts(Combinations(s, k))
         == Scale(s[0], Elementary(s[1..], k - 1)) + SumOfProducts(Combinations(s[1..], k))
    decreases |s|, 0
  {
    CombinationsSum(s[1..], k - 1);
    ScaleCongruence(s[0], SumOfProducts(Combinations(s[1..], k - 1)), Elementary(s[1..], k - 1));
    PascalSum(s, k);
  }

  lemma ScaleCongruence(x: real, a: real, b: real)
    requires a == b
    ensures Scale(x, a) == Scale(x, b)
  {
  }

  /** The sum over the combinations of `s`, split by whether they take its head. */
  lemma PascalSum(s: seq<real>, k: nat)
    requires k > 0 && |s| > 0
    ensures SumOfProducts(Combinations(s, k))
         == Scale(s[0], SumOfProducts(Combinations(s[1..], k - 1))) + SumOfProducts(Combinations(s[1..], k))
  {
    SumOfProductsUnfold(s, k, s[0], s[1..]);
    SumOfProductsPrepend(s[0], Combinations(s[1..], k - 1));
  }

  /** One step of Pascal's rule: the combinations of `s` are those taking
      its head followed by those skipping it. */
  lemma SumOfProductsUnfold(s: seq<real>, k: nat, x: real, r: seq<real>)
    requires k > 0 && |s| > 0 && x == s[0] && r == s[1..]
    ensures SumOfProducts(Combinations(s, k))
         == SumOfProducts(Prepend(x, Combinations(r, k - 1))) + SumOfProducts(Combinations(r, k))
  {
    var c1, c2 := Combinations(r, k - 1), Combinations(r, k);
    var pre := Prepend(x, c1);
    assert Combinations(s, k) == pre + c2;
    SumOfProductsAppend(pre, c2);
  }

  lemma ElementaryUnfold(s: seq<real>, k: nat, x: real, r: seq<real>)
    requires k > 0 && |s| > 0 && x == s[0] && r == s[1..]
    ensures Elementary(s, k) == PascalRounds(x, r, k)
  {
  }

  /** The running total after round `i` is `1 - AltSum(pr, i + 1)`. */
  lemma {:induction false} UnionUpToAltSum(pr: seq<real>, i: nat)
    ensures UnionUpTo(pr, i) == 1.0 - AltSum(pr, i + 1)
  {
    if i == 0 {
      assert AltSum(pr, 1) == 1.0;
    } else {
      var e := Elementary(pr, i);
      calc {
        UnionUpTo(pr, i);
        UnionUpTo(pr, i - 1) + (if i % 2 != 0 then SumOfProducts(Combinations(pr, i)) else -SumOfProducts(Combinations(pr, i)));
        { CombinationsSum(pr, i); }
        UnionUpTo(pr, i - 1) + (if i % 2 != 0 then e else -e);
        { UnionUpToAltSum(pr, i - 1); }
        1.0 - AltSum(pr, i) + (if i % 2 != 0 then e else -e);
        1.0 - (AltSum(pr, i) + Sign(i) * e);
      }
    }
  }

  /** Peeling the first event off the signed sum. */
  lemma {:induction false} AltSumCons(s: seq<real>, m: nat)
    requires |s| > 0 && m >= 1
    ensures AltSum(s, m) == AltSum(s[1..], m) - s[0] * AltSum(s[1..], m - 1)
    decreases m, 3
  {
    if m > 1 {
      AltSumConsStep(s, m);
    }
  }

  /** The inductive step of `AltSumCons`, from `m - 1` to `m`. */
  lemma {:induction false} AltSumConsStep(s: seq<real>, m: nat)
    requires |s| > 0 && m > 1
    ensures AltSum(s, m) == AltSum(s[1..], m) - s[0] * AltSum(s[1..], m - 1)
    decreases m, 2
  {
    AltSumUnfold(s, m);
    AltSumConsSplit(s, m);
    AltSumConsRegroup(s[0], s[1..], m);
  }

  /** One round of the signed sum. */
  lemma AltSumUnfold(s: seq<real>, m: nat)
    requires m >= 1
    ensures AltSum(s, m) == AddRound(AltSum(s, m - 1), Sign(m - 1), Elementary(s, m - 1))
  {
  }

  /** The running signed sum `a` with one more round `e` of sign `sg`. */
  function AddRound(a: real, sg: real, e: real): real
  {
    a + sg * e
  }

  /** The signed sum up to `m` over `[x] + r`, split into the rounds of
      `r` and the combinations that take `x`. */
  function ConsRounds(x: real, r: seq<real>, m: nat): real
    requires m > 1
  {
    AddRound(Peeled(x, r, m - 1), Sign(m - 1), PascalRounds(x, r, m - 1))
  }

  /** The right-hand side of `AltSumCons`: the signed sum up to `n` over
      `[x] + r`, in terms of those over `r`. */
  function Peeled(x: real, r: seq<real>, n: nat): real
    requires n >= 1
  {
    AltSum(r, n) - x * AltSum(r, n - 1)
  }

  /** The previous rounds by induction, and the new round by whether a
      combination takes the head of `s`. */
  lemma {:induction false} AltSumConsSplit(s: seq<real>, m: nat)
    requires |s| > 0 && m > 1
    ensures AddRound(AltSum(s, m - 1), Sign(m - 1), Elementary(s, m - 1)) == ConsRounds(s[0], s[1..], m)
    decreases m, 1
  {
    AltSumConsPrev(s, m);
    ElementaryUnfoldPrev(s, m);
  }

  /** Regrouping the split sum into the rounds of the tail. */
  lemma AltSumConsRegroup(x: real, r: seq<real>, m: nat)
    requires m > 1
    ensures ConsRounds(x, r, m) == AltSum(r, m) - x * AltSum(r, m - 1)
  {
    var a1, a2 := AltSum(r, m - 1), AltSum(r, m - 1 - 1);
    var e1, e2 := Elementary(r, m - 1), Elementary(r, m - 1 - 1);
    var sg := Sign(m - 1);
    assert Sign(m - 1 - 1) == -sg;
    ConsAlgebra(x, a1, a2, e1, e2, sg);
  }

  /** `AltSumCons` for the rounds before `m`. */
  lemma {:induction false} AltSumConsPrev(s: seq<real>, m: nat)
    requires |s| > 0 && m > 1
    ensures AltSum(s, m - 1) == Peeled(s[0], s[1..], m - 1)
    decreases m, 0
  {
    AltSumCons(s, m - 1);
  }

  /** `ElementaryUnfold` for the round before `m`. */
  lemma ElementaryUnfoldPrev(s: seq<real>, m: nat)
    requires |s| > 0 && m > 1
    ensures Elementary(s, m - 1) == PascalRounds(s[0], s[1..], m - 1)
  {
    ElementaryUnfold(s, m - 1, s[0], s[1..]);
  }

  /** The ring identity behind one step of `AltSumCons`. */
  lemma ConsAlgebra(x: real, a1: real, a2: real, e1: real, e2: real, sg: real)
    ensures (a1 - x * a2) + sg * (Scale(x, e2) + e1) == (a1 + sg * e1) - x * (a2 - sg * e2)
  {
    assert sg * (x * e2 + e1) == sg * (x * e2) + sg * e1;
    assert x * (a2 - sg * e2) == x * a2 - x * (sg * e2);
  }

  /** No polynomial of degree beyond the number of variables. */
  lemma {:induction false} ElementaryBeyondLength(s: seq<real>, k: nat)
    requires k > |s|
    ensures Elementary(s, k) == 0.0
  {
    if |s| > 0 {
      ElementaryBeyondLength(s[1..], k - 1);
      ElementaryBeyondLength(s[1..], k);
    }
  }

  lemma {:induction false} AltSumStable(s: seq<real>, m: nat)
    requires m >= |s| + 1
    ensures AltSum(s, m) == AltSum(s, |s| + 1)
  {
    if m > |s| + 1 {
      AltSumStable(s, m - 1);
      ElementaryBeyondLength(s, m - 1);
    }
  }

  /** The full signed sum factors into the product of complements. */
  lemma {:induction false} AltSumIsProduct(s: seq<real>)
    ensures AltSum(s, |s| + 1) == Prod(Complements(s))
  {
    if |s| == 0 {
      assert AltSum(s, 1) == 1.0;
    } else {
      var r := s[1..];
      AltSumCons(s, |r| + 2);
      AltSumStable(r, |r| + 2);
      AltSumIsProduct(r);
      assert Complements(s)[1..] == Complements(r);
      FactorOut(s[0], AltSum(r, |r| + 1));
    }
  }

  /** `p - x * p` is `(1 - x) * p`. */
  lemma FactorOut(x: real, p: real)
    ensures p - x * p == (1.0 - x) * p
  {
  }

  lemma ClosedForm(pr: seq<real>)
    ensures UnionUpTo(pr, |pr|) == 1.0 - Prod(Complements(pr))
  {
    UnionUpToAltSum(pr, |pr|);
    AltSumIsProduct(pr);
  }

  /** A product of probabilities is a probability. */
  lemma {:induction false} ProdOfProbabilities(s: seq<real>)
    requires AreProbabilities(s)
    ensures 0.0 <= Prod(s) <= 1.0
  {
    if |s| > 0 {
      assert AreProbabilities(s[1..]);
      ProdOfProbabilities(s[1..]);
      ProductOfTwo(s[0], Prod(s[1..]));
    }
  }

  lemma ProductOfTwo(a: real, b: real)
    requires 0.0 <= a <= 1.0 && 0.0 <= b <= 1.0
    ensures 0.0 <= a * b <= 1.0
  {
    NonNegativeProduct(a, b);
    NonNegativeProduct(1.0 - a, b);
    assert (1.0 - a) * b == b - a * b;
  }

  lemma NonNegativeProduct(u: real, v: real)
    requires 0.0 <= u && 0.0 <= v
    ensures 0.0 <= u * v
  {
  }

  /** One minus the product of the complements of probabilities is a probability. */
  lemma UnionOfProbabilities(pr: seq<real>)
    ensures AreProbabilities(pr) ==> 0.0 <= 1.0 - Prod(Complements(pr)) <= 1.0
  {
    if AreProbabilities(pr) {
      ProdOfProbabilities(Complements(pr));
    }
  }

  /** A product of probabilities is at most each of its factors. */
  lemma {:induction false} ProdAtMostFactor(s: seq<real>, i: nat)
    requires AreProbabilities(s) && i < |s|
    ensures Prod(s) <= s[i]
  {
    assert AreProbabilities(s[1..]);
    ProdOfProbabilities(s[1..]);
    if i == 0 {
      assert s[0] * Prod(s[1..]) <= s[0] * 1.0 by {
        assert s[0] * (1.0 - Prod(s[1..])) >= 0.0;
      }
    } else {
      ProdAtMostFactor(s[1..], i - 1);
      assert s[1..][i - 1] == s[i];
      var rest := Prod(s[1..]);
      assert (1.0 - s[0]) * rest >= 0.0 by {
        ProductOfTwo(1.0 - s[0], rest);
      }
      assert s[0] * rest <= rest;
    }
  }

  /** The union is at least as likely as each of its events. */
  lemma UnionAtLeastEach(pr: seq<real>, i: nat)
    requires AreProbabilities(pr) && i < |pr|
    ensures InclusionExclusion(pr) >= pr[i]
  {
    assert AreProbabilities(Complements(pr));
    ProdAtMostFactor(Complements(pr), i);
  }

  // ---------------------------------------------------------------------
  // The small cases the propagation relies on.

  lemma NoEvents()
    ensures InclusionExclusion([]) == 0.0
  {
  }

  lemma OneEvent(p: real)
    ensures InclusionExclusion([p]) == p
  {
    assert Complements([p]) == [1.0 - p];
    assert Prod([1.0 - p]) == (1.0 - p) * Prod([]);
  }

  lemma TwoEvents(p: real, q: real)
    ensures InclusionExclusion([p, q]) == p + q - p * q
  {
    assert Complements([p, q]) == [1.0 - p, 1.0 - q];
    assert [1.0 - p, 1.0 - q][1..] == [1.0 - q];
    assert Prod([1.0 - q]) == (1.0 - q) * Prod([]);
  }

  lemma ThreeEvents(p: real, q: real, r: real)
    ensures InclusionExclusion([p, q, r]) == p + q + r - p * q - p * r - q * r + p * q * r
  {
    assert Complements([p, q, r]) == [1.0 - p, 1.0 - q, 1.0 - r];
    assert [1.0 - p, 1.0 - q, 1.0 - r][1..] == [1.0 - q, 1.0 - r];
    assert [1.0 - q, 1.0 - r][1..] == [1.0 - r];
    assert Prod([1.0 - r]) == 1.0 - r;
    assert Prod([1.0 - q, 1.0 - r]) == (1.0 - q) * (1.0 - r);
    assert Prod([1.0 - p, 1.0 - q, 1.0 - r]) == (1.0 - p) * ((1.0 - q) * (1.0 - r));
    assert (1.0 - p) * ((1.0 - q) * (1.0 - r))
        == 1.0 - p - q - r + p * q + p * r + q * r - p * q * r;
  }
}
