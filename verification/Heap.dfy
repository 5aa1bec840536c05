/**
 * The binary heap of `@ganache/utils`. JavaScript arrays grow on demand, so the array is a
 * sequence; `length` can be smaller than the array, whose tail then holds stale elements.
 */
module Heap {
  import opened Wrappers

  /** What a comparator must satisfy for the heap to work. */
  ghost predicate WeakOrder<T(!new)>(less: (T, T) -> bool) {
    && (forall x, y :: less(x, y) ==> !less(y, x))
    && (forall x, y, z :: !less(x, y) && !less(y, z) ==> !less(x, z))
  }

  type Comparator<!T(!new)> = less: (T, T) -> bool | WeakOrder(less) witness (x: T, y: T) => false

  function Parent(j: int): int
    requires j > 0
  {
    (j - 1) / 2
  }

  /** No element goes before its parent. */
  ghost predicate Ordered<T>(a: seq<T>, less: (T, T) -> bool) {
    forall j :: 0 < j < |a| ==> !less(a[j], a[Parent(j)])
  }

  /** Ordered, except that `hole` may go before its parent; its children respect that parent. */
  ghost predicate OrderedAbove<T>(a: seq<T>, less: (T, T) -> bool, hole: nat) {
    && (forall j :: 0 < j < |a| && j != hole ==> !less(a[j], a[Parent(j)]))
    && (forall j :: 0 < j < |a| && Parent(j) == hole && hole > 0 ==> !less(a[j], a[Parent(hole)]))
  }

  /** Ordered, except that children of `hole` may go before it; they respect its parent. */
  ghost predicate OrderedBelow<T>(a: seq<T>, less: (T, T) -> bool, hole: nat) {
    && (forall j :: 0 < j < |a| && Parent(j) != hole ==> !less(a[j], a[Parent(j)]))
    && (forall j :: 0 < j < |a| && Parent(j) == hole && hole > 0 ==> !less(a[j], a[Parent(hole)]))
  }

  /** Some child of the node goes before it. */
  ghost predicate BetterChild<T>(a: seq<T>, less: (T, T) -> bool, i: nat) {
    exists k :: IsBetterChild(a, less, i, k)
  }

  ghost predicate IsBetterChild<T>(a: seq<T>, less: (T, T) -> bool, i: nat, k: int) {
    0 < k < |a| && i < |a| && Parent(k) == i && less(a[k], a[i])
  }

  /** The child that goes before the other. */
  function BetterOf<T>(a: seq<T>, less: (T, T) -> bool, i: nat): (j: nat)
    requires 2 * i + 1 < |a|
    ensures i < j < |a| && Parent(j) == i
  {
    if 2 * i + 2 < |a| && less(a[2 * i + 2], a[2 * i + 1]) then 2 * i + 2 else 2 * i + 1
  }

  /** That child goes before the node. */
  predicate Sinks<T>(a: seq<T>, less: (T, T) -> bool, i: nat)
    requires i < |a|
  {
    2 * i + 1 < |a| && less(a[BetterOf(a, less, i)], a[i])
  }

  /** Then, and only then, some child does. */
  lemma SinksIff<T(!new)>(a: seq<T>, less: (T, T) -> bool, i: nat)
    requires WeakOrder(less) && i < |a|
    ensures Sinks(a, less, i) <==> BetterChild(a, less, i)
  {
    forall k | 0 < k < |a| && Parent(k) == i
      ensures k == 2 * i + 1 || k == 2 * i + 2
    {
    }
    if Sinks(a, less, i) { assert IsBetterChild(a, less, i, BetterOf(a, less, i)); }
  }

  lemma SettledOrdered<T(!new)>(a: seq<T>, less: (T, T) -> bool, i: nat)
    requires WeakOrder(less) && i < |a| && OrderedBelow(a, less, i) && !Sinks(a, less, i)
    ensures Ordered(a, less)
  {
    SinksIff(a, less, i);
    forall j | 0 < j < |a|
      ensures !less(a[j], a[Parent(j)])
    {
      if Parent(j) == i { assert !IsBetterChild(a, less, i, j); }
    }
  }

  function Swapped<T>(a: seq<T>, i: nat, j: nat): seq<T>
    requires i < |a| && j < |a|
  {
    a[i := a[j]][j := a[i]]
  }

  lemma SwapMultiset<T>(a: seq<T>, i: nat, j: nat)
    requires i < |a| && j < |a|
    ensures multiset(Swapped(a, i, j)) == multiset(a)
  {
  }

  lemma SwapUp<T(!new)>(a: seq<T>, less: (T, T) -> bool, j: nat)
    requires WeakOrder(less) && 0 < j < |a|
    requires OrderedAbove(a, less, j) && less(a[j], a[Parent(j)])
    ensures OrderedAbove(Swapped(a, Parent(j), j), less, Parent(j))
  {
    var i := Parent(j);
    var b := Swapped(a, i, j);
    forall k | 0 < k < |b| && k != i
      ensures !less(b[k], b[Parent(k)])
    {
      if k == j {
      } else if Parent(k) == i {
        assert !less(a[k], a[i]) && !less(a[i], a[j]);
      } else if Parent(k) == j {
        assert !less(a[k], a[i]);
      }
    }
    forall k | 0 < k < |b| && Parent(k) == i && i > 0
      ensures !less(b[k], b[Parent(i)])
    {
      assert !less(a[i], a[Parent(i)]);
      if k != j { assert !less(a[k], a[i]); }
    }
  }

  lemma SwapDown<T(!new)>(a: seq<T>, less: (T, T) -> bool, i: nat, j: nat)
    requires WeakOrder(less) && 0 < j < |a| && Parent(j) == i
    requires OrderedBelow(a, less, i) && less(a[j], a[i])
    requires forall k :: 0 < k < |a| && Parent(k) == i ==> !less(a[k], a[j])
    ensures OrderedBelow(Swapped(a, i, j), less, j)
  {
    var b := Swapped(a, i, j);
    forall k | 0 < k < |b| && Parent(k) != j
      ensures !less(b[k], b[Parent(k)])
    {
      if k == i {
        assert !less(a[j], a[Parent(i)]);
      } else if k == j {
      } else if Parent(k) == i {
        assert !less(a[k], a[j]);
      }
    }
    forall k | 0 < k < |b| && Parent(k) == j
      ensures !less(b[k], b[Parent(j)])
    {
      assert !less(a[k], a[j]);
    }
  }

  /** The root goes before everything, or ties with it. */
  lemma {:induction false} RootIsBest<T(!new)>(a: seq<T>, less: (T, T) -> bool, k: nat)
    requires WeakOrder(less) && Ordered(a, less) && k < |a|
    ensures !less(a[k], a[0])
  {
    if k > 0 {
      RootIsBest(a, less, Parent(k));
    }
  }

  lemma BetterDown<T(!new)>(a: seq<T>, less: (T, T) -> bool, i: nat)
    requires WeakOrder(less) && i < |a| && OrderedBelow(a, less, i) && Sinks(a, less, i)
    ensures var j := BetterOf(a, less, i); OrderedBelow(Swapped(a, i, j), less, j)
  {
    var j := BetterOf(a, less, i);
    forall k | 0 < k < |a| && Parent(k) == i
      ensures !less(a[k], a[j])
    {
      assert k == 2 * i + 1 || k == 2 * i + 2;
    }
    SwapDown(a, less, i, j);
  }

  class Heap<T(!new)> {
    const less: Comparator<T>
    var items: seq<T>
    var length: nat

    ghost predicate Valid()
      reads this
    {
      length <= |items| && Ordered(items[..length], less)
    }

    ghost function Contents(): seq<T>
      reads this
      requires length <= |items|
    {
      items[..length]
    }

    /** `Heap.from`: a heap of one element. */
    constructor From(item: T, less: Comparator<T>)
      ensures Valid() && this.less == less
      ensures Contents() == [item]
    {
      this.less := less;
      items := [item];
      length := 1;
    }

    method Push(value: T)
      requires Valid()
      modifies this
      ensures Valid() && length == old(length) + 1
      ensures multiset(Contents()) == old(multiset(Contents())) + multiset{value}
    {
      var i := length;
      length := length + 1;
      items := if i < |items| then items[i := value] else items + [value];
      assert items[..length] == old(items[..length]) + [value];
      Up(i);
    }

    method Peek() returns (best: Option<T>)
      requires Valid()
      ensures length > 0 ==> best.Some? && best.value == items[0] && best.value in Contents()
      ensures length > 0 ==> forall x <- Contents() :: !less(x, best.value)
    {
      best := if |items| == 0 then None else Some(items[0]);
      if length > 0 {
        assert Contents()[0] == items[0];
        forall x <- Contents()
          ensures !less(x, items[0])
        {
          var k :| 0 <= k < length && Contents()[k] == x;
          RootIsBest(Contents(), less, k);
        }
      }
    }

    /** Removes the root. The result says whether anything is left. */
    method RemoveBest() returns (more: bool)
      requires Valid() && length > 0
      modifies this
      ensures Valid() && length == old(length) - 1 && more == (length > 0)
      ensures multiset(Contents()) == old(multiset(Contents())) - multiset{old(items[0])}
    {
      if length == 1 {
        assert Contents() == [items[0]];
        items := [];
        length := 0;
        return false;
      }
      var newLength := length - 1;
      ghost var before := Contents();
      length := newLength;
      items := items[0 := items[newLength]];
      assert before == [before[0]] + before[1..newLength] + [before[newLength]];
      assert items[..newLength] == [before[newLength]] + before[1..newLength];
      var _ := Down(0, newLength);
      more := true;
    }

    method Up(j0: nat)
      requires length <= |items| && j0 < length
      requires OrderedAbove(items[..length], less, j0)
      modifies this`items
      ensures Valid() && |items| == old(|items|)
      ensures multiset(Contents()) == old(multiset(Contents()))
    {
      var j: nat := j0;
      while j > 0
        invariant j < length <= |items| == old(|items|)
        invariant OrderedAbove(items[..length], less, j)
        invariant multiset(items[..length]) == old(multiset(items[..length]))
      {
        var i := (j - 1) / 2;
        if !less(items[j], items[i]) { break; }
        SwapUp(items[..length], less, j);
        SwapMultiset(items[..length], i, j);
        Swap(i, j);
        j := i;
      }
    }

    /** One turn of `down`: changes places with the better child, if it goes before the node. */
    method DownOnce(i: nat, l: nat) returns (j: nat, sank: bool)
      requires l == length <= |items| && 2 * i + 1 < l
      requires OrderedBelow(items[..length], less, i)
      modifies this`items
      ensures |items| == old(|items|) && multiset(items[..length]) == old(multiset(items[..length]))
      ensures sank == Sinks(old(items[..length]), less, i)
      ensures sank ==> i < j < l && OrderedBelow(items[..length], less, j)
      ensures !sank ==> Valid()
    {
      var j1 := 2 * i + 1;
      j := j1;
      var j2 := j1 + 1;
      if j2 < l && less(items[j2], items[j1]) {
        j := j2;
      }
      ghost var before := items[..length];
      assert j == BetterOf(before, less, i) && before[j] == items[j] && before[i] == items[i];
      if !less(items[j], items[i]) {
        SettledOrdered(before, less, i);
        return j, false;
      }
      BetterDown(before, less, i);
      SwapMultiset(before, i, j);
      Swap(i, j);
      sank := true;
    }

    method Down(i0: nat, l: nat) returns (moved: bool)
      requires l == length <= |items|
      requires OrderedBelow(items[..length], less, i0)
      modifies this`items
      ensures Valid() && |items| == old(|items|)
      ensures multiset(Contents()) == old(multiset(Contents()))
      // whether a child went before the node
      ensures i0 < length ==> moved == Sinks(old(items[..length]), less, i0)
    {
      var i := i0;
      ghost var sinks := i0 < length && Sinks(items[..length], less, i0);
      while 2 * i + 1 < l
        invariant l == length <= |items| == old(|items|)
        invariant OrderedBelow(items[..length], less, i)
        invariant multiset(items[..length]) == old(multiset(items[..length]))
        invariant i >= i0 && (i > i0 ==> sinks)
        invariant i == i0 && i0 < length ==> Sinks(items[..length], less, i0) == sinks
        decreases l - i
      {
        var j, sank := DownOnce(i, l);
        if !sank {
          return i > i0;
        }
        i := j;
      }
      moved := i > i0;
    }

    method Swap(i: nat, j: nat)
      requires i < length <= |items| && j < length
      modifies this`items
      ensures |items| == old(|items|)
      ensures items[..length] == Swapped(old(items[..length]), i, j)
    {
      var first := items[i];
      items := items[i := items[j]];
      items := items[j := first];
    }
  }
}
