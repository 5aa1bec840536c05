/** Collecting a range of storage keys from a stream that delivers them in any order. */
module StorageRange {
  import opened Bytes
  import opened Wrappers

  type Key = seq<Byte>

  // ---------- The order of buffers ----------

  /** `a.compare(b) < 0`: byte by byte, a proper prefix goes first. */
  predicate Less(a: Key, b: Key) {
    b != [] && (a == [] || a[0] < b[0] || (a[0] == b[0] && Less(a[1..], b[1..])))
  }

  /** The first `k` bytes agree, and then `a` ends or has the smaller byte. */
  predicate DiffersAt(a: Key, b: Key, k: nat) {
    k < |b| && k <= |a| && a[..k] == b[..k] && (k == |a| || a[k] < b[k])
  }

  lemma {:induction false} LessIff(a: Key, b: Key)
    ensures Less(a, b) <==> exists k: nat :: DiffersAt(a, b, k)
  {
    if a == [] || b == [] || a[0] != b[0] {
      assert Less(a, b) ==> DiffersAt(a, b, 0);
      forall k: nat | DiffersAt(a, b, k)
        ensures Less(a, b)
      {
        if k > 0 { assert a[..k][0] == b[..k][0]; }
      }
    } else {
      LessIff(a[1..], b[1..]);
      forall k: nat
        ensures DiffersAt(a[1..], b[1..], k) <==> DiffersAt(a, b, k + 1)
      {
        DiffersLater(a, b, k);
      }
      forall k: nat | DiffersAt(a, b, k)
        ensures k > 0 && DiffersAt(a[1..], b[1..], k - 1)
      {
        assert DiffersAt(a[1..], b[1..], k - 1) <==> DiffersAt(a, b, k - 1 + 1);
      }
    }
  }

  lemma DiffersLater(a: Key, b: Key, k: nat)
    requires a != [] && b != [] && a[0] == b[0]
    ensures DiffersAt(a[1..], b[1..], k) <==> DiffersAt(a, b, k + 1)
  {
    if k < |a| && k < |b| {
      assert a[..k + 1] == [a[0]] + a[1..][..k] && b[..k + 1] == [b[0]] + b[1..][..k];
      assert a[1..][..k] == a[..k + 1][1..] && b[1..][..k] == b[..k + 1][1..];
      assert k + 1 < |a| ==> a[1..][k] == a[k + 1];
      assert k + 1 < |b| ==> b[1..][k] == b[k + 1];
    }
  }

  /** Among keys of one length it is the order of the numbers they write. */
  lemma {:induction false} LessInNumbers(a: Key, b: Key)
    requires |a| == |b|
    ensures Less(a, b) <==> ToNat(a) < ToNat(b)
  {
    if a != [] {
      LessInNumbers(a[1..], b[1..]);
      HighByte(a);
      HighByte(b);
      ToNatBound(a[1..]);
      ToNatBound(b[1..]);
      var p, low, other := Pow256(|a| - 1), ToNat(a[1..]), ToNat(b[1..]);
      if a[0] < b[0] { HighByteDecides(a[0], b[0], p, low, other); }
      if b[0] < a[0] { HighByteDecides(b[0], a[0], p, other, low); }
    }
  }

  lemma HighByteDecides(a: nat, b: nat, p: nat, low: nat, other: nat)
    requires a < b && low < p
    ensures a * p + low < b * p + other
  {
    assert (b - a - 1) * p >= 0;
    assert b * p == (b - a - 1) * p + a * p + p;
  }

  lemma {:induction false} LessAsymmetric(a: Key, b: Key)
    ensures Less(a, b) ==> !Less(b, a)
    ensures !Less(a, b) && !Less(b, a) <==> a == b
  {
    if a != [] && b != [] {
      LessAsymmetric(a[1..], b[1..]);
      assert a == [a[0]] + a[1..] && b == [b[0]] + b[1..];
    }
  }

  lemma {:induction false} LessTransitive(a: Key, b: Key, c: Key)
    ensures Less(a, b) && Less(b, c) ==> Less(a, c)
    ensures !Less(b, a) && Less(b, c) ==> Less(a, c)
    ensures Less(a, b) && !Less(c, b) ==> Less(a, c)
  {
    if a != [] && b != [] && c != [] {
      LessTransitive(a[1..], b[1..], c[1..]);
    }
  }

  // ---------- Binary search ----------

  /** Nothing that `val` goes before stands in front of something it does not. */
  ghost predicate Partitioned<T>(items: seq<T>, val: T, comp: (T, T) -> bool) {
    forall i, j :: 0 <= i < j < |items| && comp(val, items[i]) ==> comp(val, items[j])
  }

  /** The position behind everything `val` does not go before. */
  ghost predicate UpperBound<T>(items: seq<T>, val: T, comp: (T, T) -> bool, p: nat) {
    && p <= |items|
    && (forall i :: 0 <= i < p ==> !comp(val, items[i]))
    && (forall i :: p <= i < |items| ==> comp(val, items[i]))
  }

  method FindInsertPosition<T>(items: seq<T>, val: T, comp: (T, T) -> bool) returns (insertPosition: nat)
    requires Partitioned(items, val, comp)
    ensures UpperBound(items, val, comp, insertPosition)
  {
    var count := |items|;
    insertPosition := 0;
    var offset := 0;
    while count > 0
      invariant offset == insertPosition && count >= 0 && insertPosition + count <= |items|
      invariant forall i :: 0 <= i < insertPosition ==> !comp(val, items[i])
      invariant forall i :: insertPosition + count <= i < |items| ==> comp(val, items[i])
    {
      var step := count / 2;
      offset := offset + step;
      if !comp(val, items[offset]) {
        offset := offset + 1;
        insertPosition := offset;
        count := count - (step + 1);
      } else {
        count := step;
        offset := insertPosition;
      }
    }
  }

  // ---------- Sort, then take ----------

  predicate Sorted(keys: seq<Key>) {
    forall i, j :: 0 <= i < j < |keys| ==> !Less(keys[j], keys[i])
  }

  /** The keys that do not come before the start. */
  function NotBefore(arrived: seq<Key>, start: Key): seq<Key> {
    if arrived == [] then []
    else
      var front, last := NotBefore(arrived[..|arrived| - 1], start), arrived[|arrived| - 1];
      if Less(last, start) then front else front + [last]
  }

  datatype Range = Range(keys: seq<Key>, nextKey: Option<Key>)

  /** The first `maxResult` keys and the one after them. */
  function Taken(sorted: seq<Key>, maxResult: nat): Range {
    if |sorted| > maxResult then Range(sorted[..maxResult], Some(sorted[maxResult])) else Range(sorted, None)
  }

  function Insert(sorted: seq<Key>, key: Key): seq<Key> {
    if sorted == [] || Less(key, sorted[0]) then [key] + sorted else [sorted[0]] + Insert(sorted[1..], key)
  }

  function Sort(keys: seq<Key>): seq<Key> {
    if keys == [] then [] else Insert(Sort(keys[..|keys| - 1]), keys[|keys| - 1])
  }

  function Spliced(keys: seq<Key>, p: nat, key: Key): seq<Key>
    requires p <= |keys|
  {
    keys[..p] + [key] + keys[p..]
  }

  lemma {:induction false} InsertIsSpliced(sorted: seq<Key>, key: Key, p: nat)
    requires UpperBound(sorted, key, Less, p)
    ensures Insert(sorted, key) == Spliced(sorted, p, key)
  {
    if p == 0 {
      assert Spliced(sorted, 0, key) == [key] + sorted;
    } else {
      InsertIsSpliced(sorted[1..], key, p - 1);
      assert sorted[..p] == [sorted[0]] + sorted[1..][..p - 1];
      assert sorted[p..] == sorted[1..][p - 1..];
    }
  }

  lemma SortedIsPartitioned(sorted: seq<Key>, key: Key)
    requires Sorted(sorted)
    ensures Partitioned(sorted, key, Less)
  {
    forall i, j | 0 <= i < j < |sorted| && Less(key, sorted[i])
      ensures Less(key, sorted[j])
    {
      LessTransitive(key, sorted[i], sorted[j]);
    }
  }

  lemma SplicedIsSorted(sorted: seq<Key>, key: Key, p: nat)
    requires Sorted(sorted) && UpperBound(sorted, key, Less, p)
    ensures Sorted(Spliced(sorted, p, key))
    ensures multiset(Spliced(sorted, p, key)) == multiset(sorted) + multiset{key}
  {
    var s := Spliced(sorted, p, key);
    forall i, j | 0 <= i < j < |s|
      ensures !Less(s[j], s[i])
    {
      if i == p { LessAsymmetric(key, s[j]); }
    }
    assert sorted == sorted[..p] + sorted[p..];
  }

  /** Every sorted sequence has an upper bound for every key. */
  lemma {:induction false} UpperBoundExists(sorted: seq<Key>, key: Key) returns (p: nat)
    requires Partitioned(sorted, key, Less)
    ensures UpperBound(sorted, key, Less, p)
  {
    if sorted == [] || Less(key, sorted[0]) {
      p := 0;
      assert forall i :: 0 < i < |sorted| ==> Less(key, sorted[i]);
    } else {
      forall i, j | 0 <= i < j < |sorted[1..]| && Less(key, sorted[1..][i])
        ensures Less(key, sorted[1..][j])
      {
        assert sorted[1..][i] == sorted[i + 1] && sorted[1..][j] == sorted[j + 1];
      }
      var q := UpperBoundExists(sorted[1..], key);
      p := q + 1;
      forall i | 0 <= i < p
        ensures !Less(key, sorted[i])
      {
        if i > 0 { assert sorted[1..][i - 1] == sorted[i]; }
      }
      forall i | p <= i < |sorted|
        ensures Less(key, sorted[i])
      {
        assert sorted[1..][i - 1] == sorted[i];
      }
    }
  }

  /** `Sort` sorts. */
  lemma {:induction false} SortSorts(keys: seq<Key>)
    ensures Sorted(Sort(keys)) && multiset(Sort(keys)) == multiset(keys)
  {
    if keys != [] {
      var front, last := keys[..|keys| - 1], keys[|keys| - 1];
      SortSorts(front);
      SortedIsPartitioned(Sort(front), last);
      var p := UpperBoundExists(Sort(front), last);
      InsertIsSpliced(Sort(front), last, p);
      SplicedIsSorted(Sort(front), last, p);
      assert keys == front + [last];
    }
  }

  /** There is only one sorted sequence of given keys. */
  lemma {:induction false} SortedUnique(a: seq<Key>, b: seq<Key>)
    requires Sorted(a) && Sorted(b) && multiset(a) == multiset(b)
    ensures a == b
  {
    assert |multiset(a)| == |a| && |multiset(b)| == |b|;
    if a != [] {
      HeadsSame(a, b);
      RestOf(a);
      RestOf(b);
      SortedTail(a);
      SortedTail(b);
      SortedUnique(a[1..], b[1..]);
    }
  }

  lemma HeadsSame(a: seq<Key>, b: seq<Key>)
    requires Sorted(a) && Sorted(b) && multiset(a) == multiset(b) && a != [] && b != []
    ensures a[0] == b[0]
  {
    assert a[0] in multiset(b) && b[0] in multiset(a);
    HeadIsLeast(a, b[0]);
    HeadIsLeast(b, a[0]);
    LessAsymmetric(a[0], b[0]);
  }

  lemma RestOf(a: seq<Key>)
    requires a != []
    ensures a == [a[0]] + a[1..] && multiset(a[1..]) == multiset(a) - multiset{a[0]}
  {
    assert a == [a[0]] + a[1..];
  }

  lemma SortedTail(a: seq<Key>)
    requires Sorted(a) && a != []
    ensures Sorted(a[1..])
  {
  }

  lemma HeadIsLeast(a: seq<Key>, key: Key)
    requires Sorted(a) && key in multiset(a)
    ensures !Less(key, a[0])
  {
    var k :| 0 <= k < |a| && a[k] == key;
    LessAsymmetric(key, key);
  }

  // ---------- The collector ----------

  function Front(keys: seq<Key>, n: nat): seq<Key> {
    if |keys| > n then keys[..n] else keys
  }

  lemma UpperBoundAround(sorted: seq<Key>, key: Key, q: nat, i: nat)
    requires UpperBound(sorted, key, Less, q) && i <= |sorted|
    ensures i < |sorted| ==> (Less(key, sorted[i]) <==> q <= i)
    ensures i > 0 ==> (!Less(key, sorted[i - 1]) <==> i <= q)
  {
  }

  lemma SamePlace(keys: seq<Key>, sorted: seq<Key>, n: nat, key: Key, p: nat, q: nat)
    requires Front(keys, n) == Front(sorted, n) && p < n
    requires UpperBound(keys, key, Less, p) && UpperBound(sorted, key, Less, q)
    ensures q == p && (|keys| < n ==> keys == sorted)
  {
    assert forall i :: 0 <= i < n && i < |keys| ==> keys[i] == Front(keys, n)[i];
    assert forall i :: 0 <= i < n && i < |sorted| ==> sorted[i] == Front(sorted, n)[i];
    UpperBoundAround(sorted, key, q, p);
  }

  lemma SplicedFront(keys: seq<Key>, sorted: seq<Key>, n: nat, key: Key, p: nat)
    requires Front(keys, n) == Front(sorted, n) && p < n <= |keys|
    ensures Front(Spliced(keys, p, key), n) == Front(Spliced(sorted, p, key), n)
  {
    assert keys[..n] == sorted[..n];
    SplicedPrefix(keys, n, key, p);
    SplicedPrefix(sorted, n, key, p);
  }

  lemma SplicedPrefix(keys: seq<Key>, n: nat, key: Key, p: nat)
    requires p < n <= |keys|
    ensures Front(Spliced(keys, p, key), n) == keys[..n][..p] + [key] + keys[..n][p..n - 1]
  {
  }

  /** Two sorted sequences with the same front take a key at the same place, or beyond the front. */
  lemma FrontSpliced(keys: seq<Key>, sorted: seq<Key>, n: nat, key: Key, p: nat, q: nat)
    requires Front(keys, n) == Front(sorted, n) && n > 0
    requires UpperBound(keys, key, Less, p) && UpperBound(sorted, key, Less, q)
    ensures p < n ==> q == p && Front(Spliced(keys, p, key), n) == Front(Spliced(sorted, q, key), n)
    ensures p >= n ==> Front(keys, n) == Front(Spliced(sorted, q, key), n)
  {
    if p < n {
      SamePlace(keys, sorted, n, key, p, q);
      if |keys| >= n { SplicedFront(keys, sorted, n, key, p); }
    } else {
      assert forall i :: 0 <= i < n ==> keys[i] == Front(keys, n)[i] && sorted[i] == Front(sorted, n)[i];
      UpperBoundAround(sorted, key, q, n);
      assert Spliced(sorted, q, key)[..n] == sorted[..n];
    }
  }

  lemma NotBeforeSnoc(arrived: seq<Key>, key: Key, start: Key)
    ensures NotBefore(arrived + [key], start)
            == if Less(key, start) then NotBefore(arrived, start) else NotBefore(arrived, start) + [key]
  {
    assert (arrived + [key])[..|arrived|] == arrived;
  }

  lemma SortSnoc(keys: seq<Key>, key: Key)
    ensures Sort(keys + [key]) == Insert(Sort(keys), key)
  {
    assert (keys + [key])[..|keys|] == keys;
  }

  /** A key put in among the first ones is seen there. */
  lemma SplicedShows(keys: seq<Key>, key: Key, p: nat, n: nat)
    requires UpperBound(keys, key, Less, p) && p < n
    ensures Front(Spliced(keys, p, key), n) != Front(keys, n)
  {
    assert Front(Spliced(keys, p, key), n)[p] == key;
    if p < |keys| {
      assert Front(keys, n)[p] == keys[p];
      LessAsymmetric(key, keys[p]);
    }
  }

  /** One key arrives; `keys` may hold more than is needed, but never less. */
  method HandleData(keys: seq<Key>, key: Key, start: Key, maxResult: nat, ghost arrived: seq<Key>)
    returns (kept: seq<Key>)
    requires Sorted(keys)
    requires Front(keys, maxResult + 1) == Front(Sort(NotBefore(arrived, start)), maxResult + 1)
    ensures Sorted(kept)
    ensures Front(kept, maxResult + 1) == Front(Sort(NotBefore(arrived + [key], start)), maxResult + 1)
    // a key that is not needed is not kept
    ensures Front(kept, maxResult + 1) == Front(keys, maxResult + 1) ==> kept == keys
  {
    NotBeforeSnoc(arrived, key, start);
    if Less(key, start) {
      return keys;
    }
    ghost var sorted := Sort(NotBefore(arrived, start));
    SortSnoc(NotBefore(arrived, start), key);
    SortSorts(NotBefore(arrived, start));
    SortedIsPartitioned(sorted, key);
    ghost var q := UpperBoundExists(sorted, key);
    InsertIsSpliced(sorted, key, q);
    SortedIsPartitioned(keys, key);
    var position := FindInsertPosition(keys, key, Less);
    FrontSpliced(keys, sorted, maxResult + 1, key, position, q);
    if position > maxResult {
      return keys;
    }
    SplicedIsSorted(keys, key, position);
    SplicedShows(keys, key, position, maxResult + 1);
    kept := keys[..position] + [key] + keys[position..];
  }

  /** How often a key is wanted: not at all before the start, otherwise as often as it arrived. */
  function Wanted(arrived: seq<Key>, start: Key, key: Key): nat {
    if Less(key, start) then 0 else multiset(arrived)[key]
  }

  /** The keys of a range, and the next one behind them. */
  function Chosen(range: Range): seq<Key> {
    range.keys + if range.nextKey.Some? then [range.nextKey.value] else []
  }

  /** The range is the first wanted keys in order, and names the next one if there are more. */
  ghost predicate IsRange(arrived: seq<Key>, start: Key, maxResult: nat, range: Range) {
    && Sorted(Chosen(range))
    && |range.keys| <= maxResult && (range.nextKey.Some? ==> |range.keys| == maxResult)
    && (forall key: Key :: multiset(Chosen(range))[key] <= Wanted(arrived, start, key))
    && (forall key: Key :: multiset(Chosen(range))[key] < Wanted(arrived, start, key) ==>
          range.nextKey.Some? && !Less(key, range.nextKey.value))
  }

  lemma TakenIsRange(arrived: seq<Key>, start: Key, maxResult: nat)
    ensures IsRange(arrived, start, maxResult, Taken(Sort(NotBefore(arrived, start)), maxResult))
  {
    var sorted := Sort(NotBefore(arrived, start));
    SortSorts(NotBefore(arrived, start));
    ChosenIsFront(sorted, maxResult);
    forall key: Key
      ensures var chosen := Front(sorted, maxResult + 1);
              && multiset(chosen)[key] <= Wanted(arrived, start, key)
              && (multiset(chosen)[key] < Wanted(arrived, start, key) ==>
                    |sorted| > maxResult && !Less(key, sorted[maxResult]))
    {
      NotBeforeIs(arrived, start, key);
      FrontLeaves(sorted, maxResult, key);
    }
  }

  lemma ChosenIsFront(sorted: seq<Key>, maxResult: nat)
    ensures Chosen(Taken(sorted, maxResult)) == Front(sorted, maxResult + 1)
  {
  }

  /** What the front of a sorted sequence leaves out does not go before its last key. */
  lemma FrontLeaves(sorted: seq<Key>, maxResult: nat, key: Key)
    requires Sorted(sorted)
    ensures var front := Front(sorted, maxResult + 1);
            && multiset(front)[key] <= multiset(sorted)[key]
            && (multiset(front)[key] < multiset(sorted)[key] ==> |sorted| > maxResult && !Less(key, sorted[maxResult]))
  {
    var front := Front(sorted, maxResult + 1);
    assert sorted == front + sorted[|front|..];
    if multiset(front)[key] < multiset(sorted)[key] {
      assert key in multiset(sorted[|front|..]);
      var j :| |front| <= j < |sorted| && sorted[j] == key;
      LessAsymmetric(key, key);
    }
  }

  /** For keys of one length the range is told in numbers: ascending, from the start on, up to the next key. */
  lemma RangeInNumbers(arrived: seq<Key>, start: Key, maxResult: nat, range: Range)
    requires IsRange(arrived, start, maxResult, range)
    requires forall key <- arrived :: |key| == |start|
    ensures var chosen := Chosen(range);
            && (forall i, j :: 0 <= i < j < |chosen| ==> ToNat(chosen[i]) <= ToNat(chosen[j]))
            && (forall key <- chosen :: key in arrived && ToNat(key) >= ToNat(start))
    ensures forall key <- arrived :: ToNat(key) >= ToNat(start) ==>
              key in Chosen(range) || (range.nextKey.Some? && ToNat(key) >= ToNat(range.nextKey.value))
  {
    var chosen := Chosen(range);
    forall key <- chosen
      ensures key in arrived && ToNat(key) >= ToNat(start)
    {
      assert multiset(chosen)[key] > 0;
      assert key in multiset(arrived);
      LessInNumbers(key, start);
    }
    forall i, j | 0 <= i < j < |chosen|
      ensures ToNat(chosen[i]) <= ToNat(chosen[j])
    {
      assert chosen[i] in chosen && chosen[j] in chosen;
      LessInNumbers(chosen[j], chosen[i]);
    }
    forall key <- arrived | ToNat(key) >= ToNat(start) && key !in chosen
      ensures range.nextKey.Some? && ToNat(key) >= ToNat(range.nextKey.value)
    {
      LessInNumbers(key, start);
      assert key in multiset(arrived) && multiset(chosen)[key] == 0;
      assert range.nextKey.value in chosen;
      LessInNumbers(key, range.nextKey.value);
    }
  }

  /** The whole stream: in whatever order keys arrive, what sorting them all and then taking gives. */
  method GetStorageKeys(arrived: seq<Key>, start: Key, maxResult: nat) returns (range: Range)
    ensures range == Taken(Sort(NotBefore(arrived, start)), maxResult)
    ensures IsRange(arrived, start, maxResult, range)
  {
    TakenIsRange(arrived, start, maxResult);
    var keys: seq<Key> := [];
    for i := 0 to |arrived|
      invariant Sorted(keys)
      invariant Front(keys, maxResult + 1) == Front(Sort(NotBefore(arrived[..i], start)), maxResult + 1)
    {
      keys := HandleData(keys, arrived[i], start, maxResult, arrived[..i]);
      assert arrived[..i + 1] == arrived[..i] + [arrived[i]];
    }
    assert arrived[..|arrived|] == arrived;
    SameFrontSameTaken(keys, Sort(NotBefore(arrived, start)), maxResult);
    if |keys| > maxResult {
      range := Range(keys[..maxResult], Some(keys[maxResult]));
    } else {
      range := Range(keys, None);
    }
  }

  lemma SameFrontSameTaken(keys: seq<Key>, sorted: seq<Key>, maxResult: nat)
    requires Front(keys, maxResult + 1) == Front(sorted, maxResult + 1)
    ensures Taken(keys, maxResult) == Taken(sorted, maxResult)
  {
    var n := maxResult + 1;
    if |keys| > maxResult {
      assert keys[maxResult] == Front(keys, n)[maxResult] && sorted[maxResult] == Front(sorted, n)[maxResult];
      assert keys[..maxResult] == Front(keys, n)[..maxResult] && sorted[..maxResult] == Front(sorted, n)[..maxResult];
    }
  }

  lemma {:induction false} NotBeforeIs(arrived: seq<Key>, start: Key, key: Key)
    ensures multiset(NotBefore(arrived, start))[key] == if Less(key, start) then 0 else multiset(arrived)[key]
  {
    if arrived != [] {
      var front, last := arrived[..|arrived| - 1], arrived[|arrived| - 1];
      NotBeforeIs(front, start, key);
      assert arrived == front + [last];
    }
  }

  /**
   * The order of arrival does not matter: any two streams with the same keys give the same
   * range, and it is the one taken from any sorted listing of the keys not before the start.
   */
  lemma ArrivalOrderIsIrrelevant(arrived: seq<Key>, other: seq<Key>, start: Key, maxResult: nat)
    requires multiset(arrived) == multiset(other)
    ensures Taken(Sort(NotBefore(arrived, start)), maxResult) == Taken(Sort(NotBefore(other, start)), maxResult)
    ensures forall sorted: seq<Key> ::
              Sorted(sorted) && multiset(sorted) == multiset(NotBefore(other, start)) ==>
                Taken(Sort(NotBefore(arrived, start)), maxResult) == Taken(sorted, maxResult)
  {
    forall key: Key
      ensures multiset(NotBefore(arrived, start))[key] == multiset(NotBefore(other, start))[key]
    {
      NotBeforeIs(arrived, start, key);
      NotBeforeIs(other, start, key);
    }
    assert multiset(NotBefore(arrived, start)) == multiset(NotBefore(other, start));
    SortSorts(NotBefore(arrived, start));
    SortSorts(NotBefore(other, start));
    SortedUnique(Sort(NotBefore(arrived, start)), Sort(NotBefore(other, start)));
    forall sorted: seq<Key> | Sorted(sorted) && multiset(sorted) == multiset(NotBefore(other, start))
      ensures Taken(Sort(NotBefore(arrived, start)), maxResult) == Taken(sorted, maxResult)
    {
      SortedUnique(Sort(NotBefore(arrived, start)), sorted);
    }
  }
}
