/**
 * The transaction pool: per sender, a heap of executable transactions and a heap of future
 * ones. `PrepareTransaction` is the part of the source after its last `await`, one atomic
 * step; the account's balance and nonce are what that `await` returned.
 */
module TransactionPool {
  import opened Wrappers
  import opened Nonces
  import H = Heap

  type Origin = string

  /** `byNonce`, the order of both heaps. */
  const BY_NONCE: H.Comparator<Tx> := (a: Tx, b: Tx) => b.nonce > a.nonce

  ghost predicate NonceHeap(h: H.Heap<Tx>)
    reads h
  {
    h.Valid() && h.less == BY_NONCE
  }

  /** The order the heap keeps puts the lowest nonce at the root. */
  lemma RootIsLowest(h: H.Heap<Tx>)
    requires NonceHeap(h) && h.length > 0
    ensures h.items[0] in h.Contents() && forall tx <- h.Contents() :: h.items[0].nonce <= tx.nonce
  {
    assert h.Contents()[0] == h.items[0];
    forall tx <- h.Contents()
      ensures h.items[0].nonce <= tx.nonce
    {
      var k :| 0 <= k < h.length && h.Contents()[k] == tx;
      H.RootIsBest(h.Contents(), h.less, k);
    }
  }

  // ---------- The scan ----------

  lemma {:induction false} ScanStopsAt(txs: seq<Tx>, r: Request, priceBump: nat, i: nat)
    requires i <= |txs|
    requires forall k :: 0 <= k < i ==> ShouldReplace(txs[k], r.nonce, r, priceBump) == Differs
    ensures i == |txs| ==> ScanFor(txs, r, priceBump) == Miss
    ensures i < |txs| ==>
      match ShouldReplace(txs[i], r.nonce, r, priceBump)
      case Refused(e) => ScanFor(txs, r, priceBump) == Throw(e)
      case Replaces => ScanFor(txs, r, priceBump) == Hit(i)
      case Differs => true
  {
    if i > 0 {
      ScanStopsAt(txs[1..], r, priceBump, i - 1);
    }
  }

  /** The loop over the pending array, which also tracks the highest nonce seen. */
  method ScanPending(txs: seq<Tx>, r: Request, priceBump: nat) returns (scan: Scan, highestNonce: nat)
    ensures scan == ScanFor(txs, r, priceBump)
    ensures !scan.Throw? ==> highestNonce == Highest(if scan.Hit? then txs[..scan.index] else txs)
  {
    highestNonce := 0;
    for i := 0 to |txs|
      invariant highestNonce == Highest(txs[..i])
      invariant forall k :: 0 <= k < i ==> ShouldReplace(txs[k], r.nonce, r, priceBump) == Differs
    {
      ScanStopsAt(txs, r, priceBump, i);
      match ShouldReplace(txs[i], r.nonce, r, priceBump) {
        case Refused(e) => return Throw(e), highestNonce;
        case Replaces => return Hit(i), highestNonce;
        case Differs =>
      }
      assert txs[..i + 1][..i] == txs[..i];
      if txs[i].nonce > highestNonce { highestNonce := txs[i].nonce; }
    }
    ScanStopsAt(txs, r, priceBump, |txs|);
    assert txs[..|txs|] == txs;
    scan := Miss;
  }

  method ScanQueued(txs: seq<Tx>, r: Request, priceBump: nat) returns (scan: Scan)
    ensures scan == ScanFor(txs, r, priceBump)
  {
    for i := 0 to |txs|
      invariant forall k :: 0 <= k < i ==> ShouldReplace(txs[k], r.nonce, r, priceBump) == Differs
    {
      ScanStopsAt(txs, r, priceBump, i);
      match ShouldReplace(txs[i], r.nonce, r, priceBump) {
        case Refused(e) => return Throw(e);
        case Replaces => return Hit(i);
        case Differs =>
      }
    }
    ScanStopsAt(txs, r, priceBump, |txs|);
    scan := Miss;
  }

  /** Replacing in place, without a re-sort, keeps the heap ordered at every node. */
  method ReplaceInPlace(h: H.Heap<Tx>, i: nat, tx: Tx)
    requires NonceHeap(h) && i < h.length && h.items[i].nonce == tx.nonce
    modifies h`items
    ensures NonceHeap(h)
    ensures h.Contents() == old(h.Contents())[i := tx]
  {
    ghost var before := h.Contents();
    h.items := h.items[i := tx];
    assert h.items[..h.length] == before[i := tx];
    forall j | 0 < j < h.length
      ensures !h.less(before[i := tx][j], before[i := tx][H.Parent(j)])
    {
      assert !h.less(before[j], before[H.Parent(j)]);
    }
  }

  // ---------- The drain ----------

  /** The pools after moving `moved` from one to the other. */
  ghost function Moved(start: Pools, moved: seq<Tx>): Pools {
    if moved == [] then start
    else
      var p, tx := Moved(start, moved[..|moved| - 1]), moved[|moved| - 1];
      Pools(p.pending + multiset{tx}, p.queued - multiset{tx})
  }

  /** Each transaction moved was the lowest left, and had the nonce expected then. */
  ghost predicate Drainable(start: Pools, from: nat, moved: seq<Tx>) {
    moved == [] ||
    var front, tx := moved[..|moved| - 1], moved[|moved| - 1];
    Drainable(start, from, front) && tx.nonce == from + |front| && Lowest(Moved(start, front).queued, tx)
  }

  ghost predicate Drained(start: Pools, from: nat, moved: seq<Tx>, now: Pools) {
    && Reached(start, from, moved, now)
    && (now.queued == multiset{} || !LowestIs(now.queued, from + |moved|))
  }

  /** What a heap holds; nothing if it is missing. */
  ghost function Items(h: H.Heap?<Tx>): seq<Tx>
    requires h != null ==> h.length <= |h.items|
    reads h
  {
    if h == null then [] else h.Contents()
  }

  /** What two distinct well-formed heaps hold. */
  ghost function Both(executables: H.Heap?<Tx>, queued: H.Heap?<Tx>): Option<Pools>
    reads executables, queued
  {
    if && (executables != null ==> executables != queued && NonceHeap(executables))
       && (queued != null ==> NonceHeap(queued))
    then Some(Pools(multiset(Items(executables)), multiset(Items(queued))))
    else None
  }

  /** The root, if it has the expected nonce. */
  method PeekIf(queued: H.Heap<Tx>, expected: nat) returns (nextTx: Option<Tx>)
    requires NonceHeap(queued) && queued.length > 0
    ensures nextTx.Some? ==> nextTx.value == queued.items[0] && nextTx.value.nonce == expected
    ensures nextTx.Some? ==> Lowest(multiset(queued.Contents()), nextTx.value)
    ensures nextTx.None? ==> !LowestIs(multiset(queued.Contents()), expected)
  {
    RootIsLowest(queued);
    var peeked := queued.Peek();
    var root := peeked.value;
    LowestRoot(queued.Contents(), root);
    nextTx := if root.nonce != expected then None else Some(root);
  }

  lemma LowestRoot(txs: seq<Tx>, root: Tx)
    requires root in txs && forall tx <- txs :: root.nonce <= tx.nonce
    ensures Lowest(multiset(txs), root)
    ensures forall n: nat :: n != root.nonce ==> !LowestIs(multiset(txs), n)
  {
    InSeq(txs);
  }

  /** One turn of the drain loop. */
  ghost predicate Turn(before: Pools, expected: nat, nextTx: Option<Tx>, after: Pools) {
    match nextTx
    case None => after == before && !LowestIs(before.queued, expected)
    case Some(tx) =>
      && tx.nonce == expected && Lowest(before.queued, tx)
      && after == Pools(before.pending + multiset{tx}, before.queued - multiset{tx})
  }

  /** Moves the root if it has the expected nonce. */
  method DrainOne(executables: H.Heap<Tx>, queued: H.Heap<Tx>, expected: nat) returns (nextTx: Option<Tx>, more: bool)
    requires Both(executables, queued).Some? && queued.length > 0
    modifies executables, queued
    ensures more == (queued.length > 0) && (nextTx.None? ==> more)
    ensures nextTx.Some? ==> queued.length < old(queued.length)
    ensures Both(executables, queued).Some?
    ensures Turn(old(Both(executables, queued)).value, expected, nextTx, Both(executables, queued).value)
  {
    nextTx := PeekIf(queued, expected);
    if nextTx.None? {
      return None, true;
    }
    executables.Push(nextTx.value);
    more := queued.RemoveBest();
  }

  /** The pools after the turns that moved `moved`. */
  ghost predicate Reached(start: Pools, from: nat, moved: seq<Tx>, now: Pools) {
    Drainable(start, from, moved) && now == Moved(start, moved)
  }

  /** In the drain, `moved` so far. */
  ghost predicate Draining(executables: H.Heap<Tx>, queued: H.Heap<Tx>, start: Pools, from: nat, moved: seq<Tx>)
    reads executables, queued
  {
    Both(executables, queued).Some? && Reached(start, from, moved, Both(executables, queued).value)
  }

  /** The root has not the nonce that comes after `moved`. */
  ghost predicate Stuck(executables: H.Heap<Tx>, queued: H.Heap<Tx>, from: nat, moved: seq<Tx>)
    reads executables, queued
  {
    Both(executables, queued).Some? && !LowestIs(Both(executables, queued).value.queued, from + |moved|)
  }

  /** One turn of the loop, with what is moved after it. */
  method DrainTurn(executables: H.Heap<Tx>, queued: H.Heap<Tx>, expected: nat,
                   ghost start: Pools, ghost from: nat, ghost moved: seq<Tx>)
    returns (nextTx: Option<Tx>, more: bool, ghost longer: seq<Tx>)
    requires Draining(executables, queued, start, from, moved) && queued.length > 0 && expected == from + |moved|
    modifies executables, queued
    ensures more == (queued.length > 0) && (nextTx.None? ==> more)
    ensures nextTx.Some? ==> queued.length < old(queued.length)
    ensures Draining(executables, queued, start, from, longer)
    ensures |longer| == |moved| + if nextTx.Some? then 1 else 0
    ensures nextTx.None? ==> Stuck(executables, queued, from, longer)
  {
    ghost var now := Both(executables, queued).value;
    nextTx, more := DrainOne(executables, queued, expected);
    longer := moved;
    if nextTx.Some? {
      ReachedNext(start, from, moved, now, nextTx.value, Both(executables, queued).value);
      longer := moved + [nextTx.value];
    }
  }

  /** Moves queued transactions while the root has the expected nonce. */
  method Drain(executables: H.Heap<Tx>, queued: H.Heap<Tx>, from: nat) returns (emptied: bool, ghost moved: seq<Tx>)
    requires Both(executables, queued).Some? && queued.length > 0
    modifies executables, queued
    ensures emptied == (queued.length == 0)
    ensures Draining(executables, queued, old(Both(executables, queued)).value, from, moved)
    ensures !emptied ==> Stuck(executables, queued, from, moved)
  {
    var nextExpectedNonce := from;
    ghost var start := Both(executables, queued).value;
    emptied, moved := false, [];
    while true
      invariant queued.length > 0 && nextExpectedNonce == from + |moved| && !emptied
      invariant Draining(executables, queued, start, from, moved)
      decreases queued.length
    {
      var nextTx, more;
      nextTx, more, moved := DrainTurn(executables, queued, nextExpectedNonce, start, from, moved);
      if nextTx.None? { break; }
      if !more {
        emptied := true;
        break;
      }
      nextExpectedNonce := nextExpectedNonce + 1;
    }
  }

  /** Drains the queue behind a push, if there is one; what is left of it, `null` when it is emptied. */
  method DrainAll(executables: H.Heap<Tx>, queued: H.Heap?<Tx>, from: nat, ghost tx: Tx, ghost before: Pools)
    returns (rest: H.Heap?<Tx>, ghost now: Pools)
    requires from == tx.nonce + 1 && (queued != null ==> queued.length > 0)
    requires Both(executables, queued) == Some(Pools(before.pending + multiset{tx}, before.queued))
    modifies executables, queued
    ensures rest != null ==> rest == queued && rest.length > 0
    ensures Both(executables, rest) == Some(now)
    ensures Placed(Executable, tx, before, now)
  {
    if queued == null {
      now := Pools(before.pending + multiset{tx}, before.queued);
      DrainDone(before, tx, now, []);
      return null, now;
    }
    var emptied;
    ghost var moved;
    emptied, moved := Drain(executables, queued, from);
    if emptied {
      EmptyIsMissing(executables, queued);
      rest := null;
    } else {
      rest := queued;
    }
    now := Both(executables, rest).value;
    DrainDone(before, tx, now, moved);
  }

  /** What the executable case may leave, if `now` is that. */
  ghost function Outcome(tx: Tx, before: Pools, now: Pools): Option<Pools> {
    if Placed(Executable, tx, before, now) then Some(now) else None
  }

  /** Pushes an executable transaction, into a new heap if there is none. */
  method PushExecutable(executables: H.Heap?<Tx>, queued: H.Heap?<Tx>, tx: Tx) returns (pushed: H.Heap<Tx>)
    requires Both(executables, queued).Some?
    modifies executables
    ensures executables != null ==> pushed == executables
    ensures executables == null ==> fresh(pushed)
    ensures var before := old(Both(executables, queued)).value;
            Both(pushed, queued) == Some(Pools(before.pending + multiset{tx}, before.queued))
  {
    if executables != null {
      executables.Push(tx);
      pushed := executables;
    } else {
      pushed := new H.Heap.From(tx, BY_NONCE);
      OneItem(tx);
    }
  }

  /** The executable case: the push, and the drain behind it. */
  method Execute(executables: H.Heap?<Tx>, queued: H.Heap?<Tx>, tx: Tx, ghost before: Pools)
    returns (pushed: H.Heap<Tx>, rest: H.Heap?<Tx>, ghost now: Pools)
    requires Both(executables, queued) == Some(before) && (queued != null ==> queued.length > 0)
    modifies executables, queued
    ensures rest != null ==> rest.length > 0
    ensures Both(pushed, rest) == Some(now)
    ensures Outcome(tx, before, now) == Some(now)
  {
    pushed := PushExecutable(executables, queued, tx);
    rest, now := DrainAll(pushed, queued, tx.nonce + 1, tx, before);
  }

  lemma EmptyIsMissing(executables: H.Heap<Tx>, queued: H.Heap<Tx>)
    requires Both(executables, queued).Some? && queued.length == 0
    ensures Both(executables, null) == Both(executables, queued)
    ensures Both(executables, queued).value.queued == multiset{}
  {
    assert queued.Contents() == [];
  }

  lemma ReachedNext(start: Pools, from: nat, moved: seq<Tx>, now: Pools, tx: Tx, next: Pools)
    requires Reached(start, from, moved, now) && Turn(now, from + |moved|, Some(tx), next)
    ensures Reached(start, from, moved + [tx], next)
  {
    assert (moved + [tx])[..|moved|] == moved;
  }

  lemma PoolsAfter(start: Pools, front: multiset<Tx>, tx: Tx)
    ensures start.pending + front + multiset{tx} == start.pending + (front + multiset{tx})
    ensures start.queued - front - multiset{tx} == start.queued - (front + multiset{tx})
    ensures front <= start.queued && tx in start.queued - front ==> front + multiset{tx} <= start.queued
  {
  }

  lemma SplitLast(txs: seq<Tx>)
    requires txs != []
    ensures multiset(txs) == multiset(txs[..|txs| - 1]) + multiset{txs[|txs| - 1]}
  {
    assert txs == txs[..|txs| - 1] + [txs[|txs| - 1]];
  }

  lemma {:induction false} DrainableConsecutive(start: Pools, from: nat, moved: seq<Tx>)
    requires Drainable(start, from, moved)
    ensures Consecutive(moved, from)
  {
    if moved != [] {
      var front := moved[..|moved| - 1];
      assert Drainable(start, from, front) && moved[|moved| - 1].nonce == from + |front|;
      DrainableConsecutive(start, from, front);
      forall i | 0 <= i < |moved|
        ensures moved[i].nonce == from + i
      {
        if i < |front| { assert front[i] == moved[i]; }
      }
    }
  }

  lemma {:induction false} DrainableFirst(start: Pools, from: nat, moved: seq<Tx>)
    requires Drainable(start, from, moved) && moved != []
    ensures forall tx <- start.queued :: tx.nonce >= from
  {
    var front := moved[..|moved| - 1];
    if front == [] {
      assert Moved(start, front) == start;
    } else {
      DrainableFirst(start, from, front);
    }
  }

  lemma {:induction false} MovedIs(start: Pools, from: nat, moved: seq<Tx>)
    requires Drainable(start, from, moved)
    ensures multiset(moved) <= start.queued
    ensures Moved(start, moved) == Pools(start.pending + multiset(moved), start.queued - multiset(moved))
  {
    if moved != [] {
      var front, tx := moved[..|moved| - 1], moved[|moved| - 1];
      MovedIs(start, from, front);
      PoolsAfter(start, multiset(front), tx);
      SplitLast(moved);
    }
  }

  /** The loop as a whole drains as `Drains` says. */
  lemma DrainedAll(start: Pools, from: nat, moved: seq<Tx>, now: Pools)
    requires Drainable(start, from, moved) && now == Moved(start, moved)
    requires now.queued == multiset{} || !LowestIs(now.queued, from + |moved|)
    ensures Drains(start.queued, from, moved)
    ensures now == Pools(start.pending + multiset(moved), start.queued - multiset(moved))
  {
    MovedIs(start, from, moved);
    DrainableConsecutive(start, from, moved);
    if moved != [] { DrainableFirst(start, from, moved); }
    assert !LowestIs(multiset{}, from + |moved|);
  }

  lemma DrainDone(before: Pools, tx: Tx, now: Pools, moved: seq<Tx>)
    requires Drained(Pools(before.pending + multiset{tx}, before.queued), tx.nonce + 1, moved, now)
    ensures Placed(Executable, tx, before, now)
  {
    DrainedAll(Pools(before.pending + multiset{tx}, before.queued), tx.nonce + 1, moved, now);
    assert Executed(before, tx, moved, now);
  }

  // ---------- Triage ----------

  /** The first part of the placement: the scan of the pending heap, or the account's nonce. */
  method TriagePending(h: H.Heap?<Tx>, accountNonce: nat, r: Request, priceBump: nat)
    returns (d: Decision, replaced: Option<Tx>)
    requires h != null ==> NonceHeap(h)
    modifies h
    ensures h != null ==> NonceHeap(h) && h.length == old(h.length)
    ensures d == DecidePending(old(Items(h)), accountNonce, r, priceBump)
    ensures Items(h) == PendingAfter(d, old(Items(h)), r)
    ensures replaced == Displaced(d, old(Items(h)), [])
  {
    replaced := None;
    if h != null && h.length != 0 {
      var scan, highestNonce := ScanPending(h.items[..h.length], r, priceBump);
      match scan {
        case Throw(e) => return Reject(e), None;
        case Hit(i) =>
          replaced := Some(h.items[i]);
          assert h.Contents()[i] == h.items[i];
          ReplaceInPlace(h, i, r.WithNonce(r.nonce.value));
          d := Place(r.nonce.value, ReplacesPendingExecutable, Some(i), None);
        case Miss =>
          d := Place(highestNonce + 1, FutureQueue, None, None);
      }
      if r.nonce.None? {
        d := d.(nonce := highestNonce + 1, placement := Executable);
      } else if r.nonce.value == highestNonce + 1 {
        d := d.(nonce := r.nonce.value, placement := Executable);
      } else {
        d := d.(nonce := r.nonce.value);
      }
    } else if r.nonce.None? {
      d := Place(accountNonce, Executable, None, None);
    } else if r.nonce.value < accountNonce {
      d := Reject(NonceTooLow);
    } else if r.nonce.value == accountNonce {
      d := Place(r.nonce.value, Executable, None, None);
    } else {
      d := Place(r.nonce.value, FutureQueue, None, None);
    }
  }

  /** The second part: a transaction not executable yet may replace a queued one. */
  method TriageQueued(h: H.Heap?<Tx>, first: Decision, r: Request, priceBump: nat)
    returns (d: Decision, replaced: Option<Tx>)
    requires h != null ==> NonceHeap(h)
    requires first.Place? && first.placement == FutureQueue && first.queuedHit.None? && r.nonce == Some(first.nonce)
    modifies h
    ensures h != null ==> NonceHeap(h) && h.length == old(h.length)
    ensures d == DecideQueued(first, old(Items(h)), r, priceBump)
    ensures Items(h) == QueuedAfter(d, old(Items(h)), r)
    ensures replaced == if d.Reject? then None else At(old(Items(h)), d.queuedHit)
  {
    if h == null {
      return first, None;
    }
    var scan := ScanQueued(h.items[..h.length], r, priceBump);
    match scan {
      case Throw(e) => return Reject(e), None;
      case Hit(j) =>
        replaced := Some(h.items[j]);
        assert h.Contents()[j] == h.items[j];
        ReplaceInPlace(h, j, r.WithNonce(first.nonce));
        d := first.(placement := ReplacesFutureTransaction, queuedHit := Some(j));
      case Miss => return first, None;
    }
  }

  /** The two parts make up the decision. */
  lemma TriageComposes(p: seq<Tx>, q: seq<Tx>, accountNonce: nat, r: Request, priceBump: nat, d: Decision)
    requires var first := DecidePending(p, accountNonce, r, priceBump);
             d == if first.Place? && first.placement == FutureQueue then DecideQueued(first, q, r, priceBump) else first
    ensures var first := DecidePending(p, accountNonce, r, priceBump);
            && d == Decide(p, q, accountNonce, r, priceBump)
            && PendingAfter(d, p, r) == PendingAfter(first, p, r)
            && (first.Place? && first.placement == FutureQueue
                ==> first.queuedHit.None? && r.nonce == Some(first.nonce) && Displaced(first, p, []) == None
                    && Displaced(d, p, q) == if d.Reject? then None else At(q, d.queuedHit))
            && (!(first.Place? && first.placement == FutureQueue)
                ==> QueuedAfter(d, q, r) == q && Displaced(d, p, q) == Displaced(first, p, []))
  {
  }

  /**
   * What the miner has locked stays: only what may be replaced is, and a submission with the
   * nonce of a locked pending transaction is refused, for that reason unless for an earlier one.
   */
  ghost predicate LockedStays(pending: seq<Tx>, r: Request, priceBump: nat, result: Result<bool, Error>,
                              replaced: Option<Tx>)
  {
    && (replaced.Some? ==> CanReplace(replaced.value, r, priceBump))
    && (RefusedBy(pending, r, priceBump, TransactionLocked) ==>
          result in {Failure(GasLimit), Failure(IntrinsicGasTooLow), Failure(InsufficientFunds),
                     Failure(TransactionLocked)})
  }

  lemma KeepsLocked(p: seq<Tx>, q: seq<Tx>, accountNonce: nat, r: Request, priceBump: nat)
    ensures var d := Decide(p, q, accountNonce, r, priceBump);
            && (d.Reject? ==> LockedStays(p, r, priceBump, Failure(d.error), None))
            && (d.Place? ==> forall executable ::
                  LockedStays(p, r, priceBump, Success(executable), Displaced(d, p, q)))
  {
    DisplacedCanBe(p, q, accountNonce, r, priceBump);
    RefusedIff(p, q, accountNonce, r, priceBump, TransactionLocked);
  }

  // ---------- The pool ----------

  /** What the two maps of the pool hold for one sender; a missing entry is `null`. */
  class SenderPool {
    const priceBump: nat
    const blockGasLimit: nat
    /** The sender's entry in `executables.pending`. */
    var pending: H.Heap?<Tx>
    /** The sender's entry in `origins`, present only while it holds something. */
    var queued: H.Heap?<Tx>
    /** What the two heaps hold, `None` if they are not well formed. */
    ghost function View(): Option<Pools>
      reads this, pending, queued
    {
      Both(pending, queued)
    }

    ghost predicate Valid()
      reads this, pending, queued
    {
      View().Some? && (queued != null ==> queued.length > 0)
    }

    constructor (priceBump: nat, blockGasLimit: nat)
      ensures Valid() && pending == null && queued == null
      ensures this.priceBump == priceBump && this.blockGasLimit == blockGasLimit
    {
      this.priceBump, this.blockGasLimit := priceBump, blockGasLimit;
      pending, queued := null, null;
    }

    /** `clear` drops both entries. */
    method Clear()
      modifies this`pending, this`queued
      ensures Valid() && View() == Some(Pools(multiset{}, multiset{}))
    {
      pending, queued := null, null;
    }

    /** The queue has an entry exactly while it holds something. */
    lemma EntryIffQueued()
      requires Valid()
      ensures queued != null <==> View().value.queued != multiset{}
    {
      if queued != null { assert queued.Contents()[0] in multiset(queued.Contents()); }
    }

    method PushQueued(tx: Tx)
      requires Valid()
      modifies this`queued, queued
      ensures var before := old(Both(pending, queued)).value;
              Both(pending, queued) == Some(Pools(before.pending, before.queued + multiset{tx}))
      ensures queued != null && queued.length > 0
    {
      if queued != null {
        queued.Push(tx);
      } else {
        queued := new H.Heap.From(tx, BY_NONCE);
        OneItem(tx);
      }
    }

    /** The push of the executable case, and the drain behind it, which may empty the queue. */
    method PlaceExecutable(tx: Tx)
      requires Valid()
      modifies this`pending, this`queued, pending, queued
      ensures Valid()
      ensures Outcome(tx, old(View()).value, View().value).Some?
    {
      var pushed, rest;
      ghost var now;
      pushed, rest, now := Execute(pending, queued, tx, View().value);
      SetHeaps(pushed, rest, now);
    }

    method SetHeaps(newPending: H.Heap?<Tx>, newQueued: H.Heap?<Tx>, ghost now: Pools)
      requires Both(newPending, newQueued) == Some(now)
      modifies this`pending, this`queued
      ensures pending == newPending && queued == newQueued && View() == Some(now)
    {
      pending, queued := newPending, newQueued;
    }

    /** The switch over the placement. */
    method Place(d: Decision, tx: Tx) returns (executable: bool)
      requires Valid() && d.Place?
      modifies this`pending, this`queued, pending, queued
      ensures Valid() && executable == (d.placement in {Executable, ReplacesPendingExecutable})
      ensures Placed(d.placement, tx, old(View()).value, View().value)
    {
      match d.placement {
        case Executable => PlaceExecutable(tx); return true;
        case FutureQueue => PushQueued(tx); return false;
        case ReplacesPendingExecutable => return true;
        case ReplacesFutureTransaction => return false;
      }
    }

    /**
     * One submission. `intrinsicGas` is `None` where the source computes -1; `account` is
     * what the database returned for the sender.
     */
    method PrepareTransaction(r: Request, intrinsicGas: Option<nat>, account: Account)
      returns (result: Result<bool, Error>, replaced: Option<Tx>)
      requires Valid()
      modifies this, pending, queued
      ensures Valid()
      // refused before the heaps are looked at
      ensures r.gas > blockGasLimit ==> result == Failure(GasLimit)
      ensures r.gas <= blockGasLimit && (intrinsicGas.None? || r.gas < intrinsicGas.value) ==>
                result == Failure(IntrinsicGasTooLow)
      ensures result.Success? ==>
                && r.gas <= blockGasLimit && intrinsicGas.Some? && r.gas >= intrinsicGas.value
                && account.balance >= r.gas * r.maxFee + r.value
      // a refusal changes nothing
      ensures result.Failure? ==> Items(pending) == old(Items(pending)) && Items(queued) == old(Items(queued))
      ensures result.Failure? && r.gas <= blockGasLimit && intrinsicGas.Some? && r.gas >= intrinsicGas.value ==>
                if account.balance < r.gas * r.maxFee + r.value then result == Failure(InsufficientFunds)
                else Decide(old(Items(pending)), old(Items(queued)), account.nonce, r, priceBump)
                     == Reject(result.error)
      // an acceptance is exactly what was decided
      ensures result.Success? ==>
                && Accepts(old(Items(pending)), old(Items(queued)), account.nonce, r, priceBump, View().value)
                && result.value == (Decide(old(Items(pending)), old(Items(queued)), account.nonce, r, priceBump)
                                    .placement in {Executable, ReplacesPendingExecutable})
                && replaced == Displaced(Decide(old(Items(pending)), old(Items(queued)), account.nonce, r, priceBump),
                                         old(Items(pending)), old(Items(queued)))
      ensures result.Failure? ==> replaced == None
      ensures LockedStays(old(Items(pending)), r, priceBump, result, replaced)
    {
      if r.gas > blockGasLimit {
        return Failure(GasLimit), None;
      }
      if intrinsicGas.None? || r.gas < intrinsicGas.value {
        return Failure(IntrinsicGasTooLow), None;
      }
      if account.balance < r.Cost() {
        return Failure(InsufficientFunds), None;
      }
      result, replaced := PlaceTransaction(r, account.nonce);
    }

    /** Both scans, with the replacements they make in place. */
    method Triage(r: Request, accountNonce: nat) returns (d: Decision, replaced: Option<Tx>)
      requires Valid()
      modifies pending, queued
      ensures Valid()
      ensures d == Decide(old(Items(pending)), old(Items(queued)), accountNonce, r, priceBump)
      ensures Items(pending) == PendingAfter(d, old(Items(pending)), r)
      ensures Items(queued) == QueuedAfter(d, old(Items(queued)), r)
      ensures replaced == Displaced(d, old(Items(pending)), old(Items(queued)))
    {
      ghost var p, q := Items(pending), Items(queued);
      d, replaced := TriagePending(pending, accountNonce, r, priceBump);
      if d.Place? && d.placement == FutureQueue {
        TriageComposes(p, q, accountNonce, r, priceBump, DecideQueued(d, q, r, priceBump));
        d, replaced := TriageQueued(queued, d, r, priceBump);
      } else {
        TriageComposes(p, q, accountNonce, r, priceBump, d);
      }
    }

    /** Triage and placement, once the checks have passed. */
    method PlaceTransaction(r: Request, accountNonce: nat)
      returns (result: Result<bool, Error>, replaced: Option<Tx>)
      requires Valid()
      modifies this`pending, this`queued, pending, queued
      ensures Valid()
      ensures var d := Decide(old(Items(pending)), old(Items(queued)), accountNonce, r, priceBump);
              && replaced == Displaced(d, old(Items(pending)), old(Items(queued)))
              && match result
                 case Failure(e) =>
                   d == Reject(e) && Items(pending) == old(Items(pending)) && Items(queued) == old(Items(queued))
                 case Success(executable) =>
                   && Accepts(old(Items(pending)), old(Items(queued)), accountNonce, r, priceBump, View().value)
                   && executable == (d.placement in {Executable, ReplacesPendingExecutable})
      ensures LockedStays(old(Items(pending)), r, priceBump, result, replaced)
    {
      KeepsLocked(Items(pending), Items(queued), accountNonce, r, priceBump);
      var d;
      d, replaced := Triage(r, accountNonce);
      if d.Reject? {
        return Failure(d.error), None;
      }
      var executable := Place(d, r.WithNonce(d.nonce));
      result := Success(executable);
    }
  }

  lemma OneItem(tx: Tx)
    ensures multiset([tx]) == multiset([]) + multiset{tx}
  {
  }
}
