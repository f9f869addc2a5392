/** The dense class-weight table computed from the train split's codes.

    Each code present in train gets weight `1 / count`, normalised so that the
    weights sum to 1; the table has a key for every code from 0 to the largest
    train code, and a code in that range with no train record gets 0. Weights
    are exact reals here, where the program uses floating point. */
module Weights {

  datatype Option<T> = None | Some(value: T)

  /** How many times `c` occurs in `s` (`value_counts` for one code). */
  function Count(s: seq<nat>, c: nat): (n: nat)
    ensures n == multiset(s)[c]
    ensures n > 0 <==> c in s
    ensures n <= |s|
  {
    if s == [] then 0
    else
      assert s == s[..|s| - 1] + [s[|s| - 1]];
      Count(s[..|s| - 1], c) + if s[|s| - 1] == c then 1 else 0
  }

  /** The largest code in a non-empty `s`. */
  function MaxCode(s: seq<nat>): (m: nat)
    requires s != []
    ensures m in s
    ensures forall k :: 0 <= k < |s| ==> s[k] <= m
  {
    if |s| == 1 then s[0]
    else
      var m := MaxCode(s[1..]);
      assert forall k :: 1 <= k < |s| ==> s[k] == s[1..][k - 1];
      if s[0] < m then m else s[0]
  }

  /** `1 / count` for a present code, 0 for an absent one. */
  function InverseCount(s: seq<nat>, c: nat): real
  {
    var n := Count(s, c);
    if n == 0 then 0.0 else 1.0 / n as real
  }

  /** The sum of `InverseCount` over the codes `0 .. n-1`. */
  function InverseSum(s: seq<nat>, n: nat): real
  {
    if n == 0 then 0.0 else InverseSum(s, n - 1) + InverseCount(s, n - 1)
  }

  lemma {:induction false} InverseSumGrows(s: seq<nat>, n: nat, c: nat)
    requires c < n
    ensures InverseSum(s, n) >= InverseCount(s, c) >= 0.0
  {
    if n - 1 != c {
      InverseSumGrows(s, n - 1, c);
    } else {
      InverseSumNonNegative(s, n - 1);
    }
  }

  lemma {:induction false} InverseSumNonNegative(s: seq<nat>, n: nat)
    ensures InverseSum(s, n) >= 0.0
  {
    if n > 0 {
      InverseSumNonNegative(s, n - 1);
    }
  }

  lemma InverseCountSign(s: seq<nat>, c: nat)
    ensures Count(s, c) > 0 ==> InverseCount(s, c) > 0.0
    ensures Count(s, c) == 0 ==> InverseCount(s, c) == 0.0
  {
  }

  lemma DivideByPositive(x: real, total: real)
    requires total > 0.0
    ensures x > 0.0 ==> x / total > 0.0
    ensures x == 0.0 ==> x / total == 0.0
  {
  }

  lemma DivideBySelf(x: real)
    requires x > 0.0
    ensures x / x == 1.0
  {
  }

  lemma InverseTimes(weight: real, inverse: real, n: real, total: real)
    requires n > 0.0 && total > 0.0
    requires inverse == 1.0 / n && weight == inverse / total
    ensures ProductIs(weight, n, 1.0 / total)
  {
    assert inverse * n == 1.0;
    assert inverse / total * n == (inverse * n) / total;
  }

  lemma AddDivided(a: real, b: real, total: real)
    requires total > 0.0
    ensures a / total + b / total == (a + b) / total
  {
  }

  /** The sum of `1 / count` over the codes `0 .. max(s)` of the table; it is
      positive since the largest code occurs in `s`. */
  function Total(s: seq<nat>): (t: real)
    requires s != []
    ensures t > 0.0
  {
    var top := MaxCode(s);
    InverseSumGrows(s, top + 1, top);
    InverseCountSign(s, top);
    InverseSum(s, top + 1)
  }

  /** The weight of `c`: its inverse count over the sum of inverse counts. */
  function Weight(s: seq<nat>, c: nat): real
    requires s != []
  {
    InverseCount(s, c) / Total(s)
  }

  /** The class-weight table for the train codes `s`: `None` when there is no
      train record, else a table keyed by `0 .. max(s)`. */
  function ClassWeights(s: seq<nat>): (r: Option<map<nat, real>>)
    ensures r.None? <==> s == []
    ensures r.Some? ==> forall c: nat :: c in r.value <==> c <= MaxCode(s)
  {
    if s == [] then None
    else Some(map c: nat | c <= MaxCode(s) :: Weight(s, c))
  }

  /** A code of the table with train records has a positive weight; one
      without any has weight 0. */
  lemma WeightSign(s: seq<nat>, c: nat)
    requires s != []
    requires c <= MaxCode(s)
    ensures var w := ClassWeights(s).value;
            c in w && (Count(s, c) > 0 ==> w[c] > 0.0) && (Count(s, c) == 0 ==> w[c] == 0.0)
  {
    InverseCountSign(s, c);
    DivideByPositive(InverseCount(s, c), Total(s));
  }

  /** The sum of `m[c]` over the codes `0 .. n-1`. */
  function TableSum(m: map<nat, real>, n: nat): real
    requires forall c: nat :: c < n ==> c in m
  {
    if n == 0 then 0.0 else TableSum(m, n - 1) + m[n - 1]
  }

  lemma {:induction false} TableSumScales(s: seq<nat>, m: map<nat, real>, n: nat)
    requires s != []
    requires forall c: nat :: c < n ==> c in m && m[c] == Weight(s, c)
    ensures TableSum(m, n) == InverseSum(s, n) / Total(s)
  {
    if n > 0 {
      TableSumScales(s, m, n - 1);
      AddDivided(InverseSum(s, n - 1), InverseCount(s, n - 1), Total(s));
    }
  }

  /** Over the whole table, the weights sum to 1. */
  lemma WeightsSumToOne(s: seq<nat>)
    requires s != []
    ensures var r := ClassWeights(s);
            r.Some? && TableSum(r.value, MaxCode(s) + 1) == 1.0
  {
    TableSumScales(s, ClassWeights(s).value, MaxCode(s) + 1);
    DivideBySelf(Total(s));
  }

  /** `a * b == k`, kept whole so that a proof can pass it along unchanged. */
  ghost predicate ProductIs(a: real, b: real, k: real)
  {
    a * b == k
  }

  /** A code with train records weighs `1 / (count * total)`, `total` being
      the sum of `1 / count'` over the codes: its weight times its train count
      is the same constant `1 / total` for every such code, so weights are
      inversely proportional to train counts. */
  lemma WeightTimesCount(s: seq<nat>, c: nat)
    requires Count(s, c) > 0
    ensures s != [] && c <= MaxCode(s)
    ensures var w := ClassWeights(s).value;
            c in w && ProductIs(w[c], Count(s, c) as real, 1.0 / Total(s))
  {
    PresentIsKey(s, c);
    WeightOfPresent(s, c);
  }

  lemma WeightOfPresent(s: seq<nat>, c: nat)
    requires Count(s, c) > 0
    ensures ProductIs(Weight(s, c), Count(s, c) as real, 1.0 / Total(s))
  {
    InverseOfCount(s, c);
    InverseTimes(Weight(s, c), InverseCount(s, c), Count(s, c) as real, Total(s));
  }

  lemma InverseOfCount(s: seq<nat>, c: nat)
    requires Count(s, c) > 0
    ensures Count(s, c) as real > 0.0 && InverseCount(s, c) == 1.0 / Count(s, c) as real
  {
  }

  lemma PresentIsKey(s: seq<nat>, c: nat)
    requires Count(s, c) > 0
    ensures s != [] && c <= MaxCode(s)
  {
    assert c in s;
  }
}
