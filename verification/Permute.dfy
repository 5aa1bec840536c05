/** The enumeration of the parameter lists of `console.log`, before aliases are added. */
module Permute {

  function Pow(n: nat, k: nat): (power: nat)
    ensures n > 0 ==> power > 0
  {
    if k == 0 then 1 else n * Pow(n, k - 1)
  }

  /** Division written as repeated subtraction. */
  function Quotient(j: nat, n: nat): nat
    requires n > 0
    decreases j
  {
    if j < n then 0 else 1 + Quotient(j - n, n)
  }

  function Remainder(j: nat, n: nat): (r: nat)
    requires n > 0
    ensures r < n
    decreases j
  {
    if j < n then j else Remainder(j - n, n)
  }

  /** The last `k` base-n digits of `j`, most significant first, as types. */
  function Digits<T>(types: seq<T>, j: nat, k: nat): (t: seq<T>)
    requires types != []
    ensures |t| == k
    decreases k
  {
    if k == 0 then [] else Digits(types, Quotient(j, |types|), k - 1) + [types[Remainder(j, |types|)]]
  }

  /** The first `count` lists of length `k`. */
  function Rows<T>(types: seq<T>, k: nat, count: nat): (rows: seq<seq<T>>)
    requires types != []
  {
    if count == 0 then [] else Rows(types, k, count - 1) + [Digits(types, count - 1, k)]
  }

  /** All lists of a length, in the order of the counter. */
  function AllRows<T>(types: seq<T>): nat -> seq<seq<T>>
    requires types != []
  {
    (k: nat) => Rows(types, k, Pow(|types|, k))
  }

  function Gather<T>(rows: nat -> seq<T>, m: nat): seq<T> {
    if m == 0 then [] else Gather(rows, m - 1) + rows(m)
  }

  /** All lists of lengths 1 to `m`, by length. */
  function UpTo<T>(types: seq<T>, m: nat): seq<seq<T>>
    requires types != []
  {
    Gather(AllRows(types), m)
  }

  // ---------- The loops ----------

  lemma {:induction false} QuotientIs(j: nat, d: nat, s: nat, r: nat)
    requires j == d * s + r && r < d
    ensures Quotient(j, d) == s && Remainder(j, d) == r
  {
    if s > 0 {
      OneLess(d, s);
      QuotientIs(j - d, d, s - 1, r);
    }
  }

  lemma OneLess(d: nat, s: nat)
    requires s > 0
    ensures d * s == d * (s - 1) + d
  {
  }

  lemma {:induction false} Divided(j: nat, n: nat)
    requires n > 0
    ensures j == n * Quotient(j, n) + Remainder(j, n)
    decreases j
  {
    if j >= n {
      Divided(j - n, n);
      OneLess(n, Quotient(j, n));
    }
  }

  lemma IsDivision(j: nat, n: nat)
    requires n > 0
    ensures j / n == Quotient(j, n) && 0 <= j % n == Remainder(j, n)
  {
    EuclidSplits(j, n);
    QuotientIs(j, n, j / n, j % n);
  }

  lemma EuclidSplits(j: nat, n: nat)
    requires n > 0
    ensures j == n * (j / n) + j % n && 0 <= j % n < n && j / n >= 0
  {
  }

  lemma Below(u: nat, p: nat, n: nat, r: nat)
    requires u < p && r < n
    ensures n * u + r < n * p
  {
    Distribute(n, u, p - u);
    AtLeast(n, p - u);
  }

  lemma AtLeast(n: nat, x: nat)
    requires x > 0
    ensures n * x >= n
  {
  }

  lemma Distribute(n: nat, a: nat, b: nat)
    ensures n * (a + b) == n * a + n * b
  {
  }

  lemma Associate(n: nat, p: nat, s: nat)
    ensures n * (p * s) == (n * p) * s
  {
  }

  lemma Nested(n: nat, p: nat, s: nat, u: nat)
    ensures n * (p * s + u) == (n * p) * s + n * u
  {
    Distribute(n, p * s, u);
    Associate(n, p, s);
  }

  lemma NotZero(n: nat, p: nat)
    requires n > 0 && p > 0
    ensures n * p > 0
  {
  }

  lemma SameProduct(n: nat, q: nat, x: nat)
    requires q == x
    ensures n * q == n * x
  {
  }

  lemma QuotientOfNested(j: nat, n: nat, p: nat, q: nat, s: nat, u: nat, r: nat)
    requires j == n * q + r && q == p * s + u && u < p && r < n
    ensures n * p > 0 && Quotient(j, n * p) == s
  {
    NotZero(n, p);
    SameProduct(n, q, p * s + u);
    Nested(n, p, s, u);
    Below(u, p, n, r);
    QuotientIs(j, n * p, s, n * u + r);
  }

  /** Dividing by a power of n is dividing by n that often. */
  lemma QuotientTwice(j: nat, n: nat, p: nat)
    requires n > 0 && p > 0
    ensures n * p > 0 && Quotient(Quotient(j, n), p) == Quotient(j, n * p)
  {
    var q := Quotient(j, n);
    Divided(j, n);
    Divided(q, p);
    QuotientOfNested(j, n, p, q, Quotient(q, p), Remainder(q, p), Remainder(j, n));
  }

  /** What the innermost loop computes is a digit. */
  lemma {:induction false} DigitAt<T>(types: seq<T>, j: nat, m: nat, k: nat)
    requires types != [] && k < m
    ensures Digits(types, j, m)[m - 1 - k] == types[Remainder(Quotient(j, Pow(|types|, k)), |types|)]
    decreases k
  {
    if k == 0 {
      QuotientIs(j, 1, j, 0);
    } else {
      DigitAt(types, Quotient(j, |types|), m - 1, k - 1);
      QuotientTwice(j, |types|, Pow(|types|, k - 1));
    }
  }

  /** `permute`: the digits of a counter select the types. */
  method Permute<T>(types: seq<T>) returns (lists: seq<seq<T>>)
    ensures lists == if types == [] then [] else UpTo(types, |types|)
  {
    lists := [];
    var n := |types|;
    for i := 0 to n
      invariant n > 0 ==> lists == UpTo(types, i)
      invariant n == 0 ==> lists == []
    {
      var length := Pow(n, i + 1);
      ghost var before := lists;
      for j := 0 to length
        invariant lists == before + Rows(types, i + 1, j)
      {
        var parameters := ParametersFor(types, i, j);
        lists := lists + [parameters];
      }
    }
  }

  /** The innermost loop, from the highest digit down. */
  method ParametersFor<T>(types: seq<T>, i: nat, j: nat) returns (parameters: seq<T>)
    requires types != []
    ensures parameters == Digits(types, j, i + 1)
  {
    parameters := [];
    var k: int := i;
    ghost var digits := Digits(types, j, i + 1);
    while k >= 0
      invariant -1 <= k <= i
      invariant parameters == digits[..i - k]
      decreases k + 1
    {
      var denominator := Pow(|types|, k);
      IsDivision(j, denominator);
      IsDivision(j / denominator, |types|);
      DigitAt(types, j, i + 1, k);
      var index := j / denominator % |types|;
      parameters := parameters + [types[index]];
      k := k - 1;
    }
  }

  // ---------- Every list exactly once ----------

  predicate Distinct<T(==)>(types: seq<T>) {
    forall i, j :: 0 <= i < j < |types| ==> types[i] != types[j]
  }

  predicate Over<T(==)>(types: seq<T>, t: seq<T>) {
    forall i :: 0 <= i < |t| ==> t[i] in types
  }

  function Position<T(==)>(types: seq<T>, x: T): (p: nat)
    requires x in types
    ensures p < |types| && types[p] == x
  {
    if types[0] == x then 0 else 1 + Position(types[1..], x)
  }

  lemma SameIndex<T>(types: seq<T>, p: nat, q: nat)
    requires Distinct(types) && p < |types| && q < |types|
    ensures types[p] == types[q] <==> p == q
  {
  }

  /** The base-n number a list stands for. */
  function Rank<T(==)>(types: seq<T>, t: seq<T>): nat
    requires Over(types, t)
  {
    if t == [] then 0 else |types| * Rank(types, t[..|t| - 1]) + Position(types, t[|t| - 1])
  }

  lemma {:induction false} RankBelow<T>(types: seq<T>, t: seq<T>)
    requires Over(types, t)
    ensures Rank(types, t) < Pow(|types|, |t|)
  {
    if t != [] {
      RankBelow(types, t[..|t| - 1]);
      Below(Rank(types, t[..|t| - 1]), Pow(|types|, |t| - 1), |types|, Position(types, t[|t| - 1]));
    }
  }

  /** A list of types is the digits of its rank. */
  lemma {:induction false} DigitsOfRank<T>(types: seq<T>, t: seq<T>)
    requires types != [] && Over(types, t)
    ensures Digits(types, Rank(types, t), |t|) == t
  {
    if t != [] {
      var front, p := t[..|t| - 1], Position(types, t[|t| - 1]);
      DigitsOfRank(types, front);
      QuotientIs(Rank(types, t), |types|, Rank(types, front), p);
      assert t == front + [types[p]];
    }
  }

  /** And the rank of the digits of a small enough number is the number. */
  lemma {:induction false} RankOfDigits<T>(types: seq<T>, j: nat, k: nat)
    requires types != [] && Distinct(types) && j < Pow(|types|, k)
    ensures Over(types, Digits(types, j, k)) && Rank(types, Digits(types, j, k)) == j
    decreases k
  {
    if k > 0 {
      var n := |types|;
      var q := Quotient(j, n);
      QuotientBelow(j, n, Pow(n, k - 1));
      Divided(j, n);
      RankOfDigits(types, q, k - 1);
      var t := Digits(types, j, k);
      assert t[..k - 1] == Digits(types, q, k - 1) && t[k - 1] == types[Remainder(j, n)];
      SameIndex(types, Position(types, t[k - 1]), Remainder(j, n));
    }
  }

  lemma QuotientBelow(j: nat, n: nat, p: nat)
    requires n > 0 && j < n * p
    ensures Quotient(j, n) < p
  {
    var q := Quotient(j, n);
    Divided(j, n);
    Monotone(n, p, q);
  }

  lemma Monotone(n: nat, p: nat, q: nat)
    ensures q >= p ==> n * q >= n * p
  {
  }

  /** A row is the list of its number, and of no other. */
  lemma RowIs<T>(types: seq<T>, j: nat, k: nat, t: seq<T>)
    requires types != [] && Distinct(types) && j < Pow(|types|, k)
    ensures Digits(types, j, k) == t <==> |t| == k && Over(types, t) && Rank(types, t) == j
  {
    RankOfDigits(types, j, k);
    if |t| == k && Over(types, t) { DigitsOfRank(types, t); }
  }

  function Once(b: bool): nat { if b then 1 else 0 }

  lemma CountAppend<T>(a: seq<T>, b: seq<T>, t: T)
    ensures multiset(a + b)[t] == multiset(a)[t] + multiset(b)[t]
  {
  }

  lemma CountOne<T>(x: T, t: T)
    ensures multiset([x])[t] == Once(x == t)
  {
  }

  lemma {:induction false} RowsCount<T>(types: seq<T>, k: nat, count: nat, t: seq<T>)
    requires types != [] && Distinct(types) && count <= Pow(|types|, k)
    ensures multiset(Rows(types, k, count))[t] == Once(|t| == k && Over(types, t) && Rank(types, t) < count)
  {
    if count > 0 {
      RowsCount(types, k, count - 1, t);
      RowIs(types, count - 1, k, t);
      CountOne(Digits(types, count - 1, k), t);
      CountAppend(Rows(types, k, count - 1), [Digits(types, count - 1, k)], t);
    }
  }

  /** All rows of a length hold every list of that length once. */
  lemma AllRowsCount<T>(types: seq<T>, k: nat, t: seq<T>)
    requires types != [] && Distinct(types)
    ensures multiset(Rows(types, k, Pow(|types|, k)))[t] == Once(|t| == k && Over(types, t))
  {
    RowsCount(types, k, Pow(|types|, k), t);
    if |t| == k && Over(types, t) { RankBelow(types, t); }
  }

  lemma {:induction false} GatherCount<T>(rows: nat -> seq<T>, m: nat, t: T, length: nat, over: bool)
    requires forall k: nat :: 0 < k <= m ==> multiset(rows(k))[t] == Once(k == length && over)
    ensures multiset(Gather(rows, m))[t] == Once(1 <= length <= m && over)
  {
    if m > 0 {
      GatherCount(rows, m - 1, t, length, over);
      CountAppend(Gather(rows, m - 1), rows(m), t);
    }
  }

  /** Every list of 1 to n types, each exactly once, and nothing else. */
  lemma EveryListOnce<T>(types: seq<T>, t: seq<T>)
    requires types != [] && Distinct(types)
    ensures multiset(UpTo(types, |types|))[t] == Once(1 <= |t| <= |types| && Over(types, t))
  {
    forall k: nat
      ensures multiset(AllRows(types)(k))[t] == Once(k == |t| && Over(types, t))
    {
      AllRowsCount(types, k, t);
    }
    GatherCount(AllRows(types), |types|, t, |t|, Over(types, t));
  }
}
