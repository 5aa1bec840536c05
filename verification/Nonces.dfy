/**
 * What the transaction pool decides about one submission, as functions of the raw heap
 * arrays of the sender, and what that does to the sender's nonces.
 */
module Nonces {
  import opened Wrappers

  datatype Tx = Tx(id: nat, nonce: nat, tip: nat, maxFee: nat, locked: bool)

  /** A submission; the nonce is filled in when missing. A legacy price is both tip and maximum fee. */
  datatype Request = Request(id: nat, nonce: Option<nat>, tip: nat, maxFee: nat, gas: nat, value: nat)
  {
    function WithNonce(n: nat): Tx { Tx(id, n, tip, maxFee, false) }

    function Cost(): nat { gas * maxFee + value }
  }

  datatype Account = Account(balance: nat, nonce: nat)

  datatype Error = GasLimit | IntrinsicGasTooLow | InsufficientFunds | TransactionLocked | Underpriced | NonceTooLow

  datatype Placement = FutureQueue | Executable | ReplacesPendingExecutable | ReplacesFutureTransaction

  // ---------- Replacement ----------

  function Premium(fee: nat, priceBump: nat): nat {
    fee + fee * priceBump / 100
  }

  datatype Verdict = Differs | Refused(error: Error) | Replaces

  function ShouldReplace(replacee: Tx, nonce: Option<nat>, r: Request, priceBump: nat): Verdict {
    if nonce != Some(replacee.nonce) then Differs
    else if replacee.locked then Refused(TransactionLocked)
    else if r.tip < Premium(replacee.tip, priceBump) || r.maxFee < Premium(replacee.maxFee, priceBump)
    then Refused(Underpriced)
    else Replaces
  }

  /** A replacement never lowers either fee, and raises one the bump is worth a unit of. */
  lemma ReplacementPays(replacee: Tx, nonce: Option<nat>, r: Request, priceBump: nat)
    requires ShouldReplace(replacee, nonce, r, priceBump) == Replaces
    ensures nonce == Some(replacee.nonce)
    ensures r.tip >= replacee.tip && r.maxFee >= replacee.maxFee
    ensures replacee.tip * priceBump >= 100 ==> r.tip > replacee.tip
    ensures replacee.maxFee * priceBump >= 100 ==> r.maxFee > replacee.maxFee
    ensures 100 * (r.tip - replacee.tip) > replacee.tip * priceBump - 100
    ensures 100 * (r.maxFee - replacee.maxFee) > replacee.maxFee * priceBump - 100
  {
    PremiumBounds(replacee.tip, priceBump);
    PremiumBounds(replacee.maxFee, priceBump);
  }

  lemma PremiumBounds(fee: nat, priceBump: nat)
    ensures 100 * (Premium(fee, priceBump) - fee) <= fee * priceBump < 100 * (Premium(fee, priceBump) - fee) + 100
  {
    var product := fee * priceBump;
    assert product / 100 * 100 <= product < product / 100 * 100 + 100;
  }

  // ---------- The decision ----------

  datatype Scan = Miss | Hit(index: nat) | Throw(error: Error)

  /** The loop over a raw heap array: it stops at the first transaction with the same nonce. */
  function ScanFor(txs: seq<Tx>, r: Request, priceBump: nat): (s: Scan)
    ensures s.Hit? ==> s.index < |txs| && r.nonce == Some(txs[s.index].nonce)
    ensures s.Hit? ==> ShouldReplace(txs[s.index], r.nonce, r, priceBump) == Replaces
    ensures s.Hit? ==> forall k :: 0 <= k < s.index ==> r.nonce != Some(txs[k].nonce)
    ensures s.Miss? <==> forall tx <- txs :: r.nonce != Some(tx.nonce)
  {
    if txs == [] then Miss
    else
      match ShouldReplace(txs[0], r.nonce, r, priceBump)
      case Refused(e) => Throw(e)
      case Replaces => Hit(0)
      case Differs =>
        match ScanFor(txs[1..], r, priceBump)
        case Hit(i) => Hit(i + 1)
        case other => other
  }

  /** The highest nonce among `txs`, and 0 when there are none. */
  function Highest(txs: seq<Tx>): (h: nat)
    ensures forall tx <- txs :: tx.nonce <= h
    ensures h == 0 || exists tx <- txs :: tx.nonce == h
  {
    if txs == [] then 0
    else
      var h := Highest(txs[..|txs| - 1]);
      var last := txs[|txs| - 1];
      if last.nonce > h then last.nonce else h
  }

  datatype Decision =
    | Reject(error: Error)
    | Place(nonce: nat, placement: Placement, pendingHit: Option<nat>, queuedHit: Option<nat>)

  /** The nonce test after the loop over the pending heap, which also runs after a replacement. */
  function AfterScan(scan: Scan, highest: nat, nonce: Option<nat>): Decision {
    if scan.Throw? then Reject(scan.error)
    else
      var hit := if scan.Hit? then Some(scan.index) else None;
      if nonce.None? then Place(highest + 1, Executable, hit, None)
      else if nonce.value == highest + 1 then Place(nonce.value, Executable, hit, None)
      else Place(nonce.value, if scan.Hit? then ReplacesPendingExecutable else FutureQueue, hit, None)
  }

  /** Against the pending heap, whose highest nonce is that of the part that was scanned. */
  function DecidePending(pending: seq<Tx>, accountNonce: nat, r: Request, priceBump: nat): Decision {
    if pending != [] then
      var scan := ScanFor(pending, r, priceBump);
      AfterScan(scan, Highest(if scan.Hit? then pending[..scan.index] else pending), r.nonce)
    else if r.nonce.None? then Place(accountNonce, Executable, None, None)
    else if r.nonce.value < accountNonce then Reject(NonceTooLow)
    else Place(r.nonce.value, if r.nonce.value == accountNonce then Executable else FutureQueue, None, None)
  }

  /** A transaction that is not executable may replace one in the queue. */
  function DecideQueued(first: Decision, queued: seq<Tx>, r: Request, priceBump: nat): Decision
    requires first.Place?
  {
    match ScanFor(queued, r, priceBump)
    case Throw(e) => Reject(e)
    case Hit(j) => first.(placement := ReplacesFutureTransaction, queuedHit := Some(j))
    case Miss => first
  }

  function Decide(pending: seq<Tx>, queued: seq<Tx>, accountNonce: nat, r: Request, priceBump: nat): Decision {
    var first := DecidePending(pending, accountNonce, r, priceBump);
    if first.Reject? || first.placement != FutureQueue then first else DecideQueued(first, queued, r, priceBump)
  }

  /** A heap's array with the transaction at `hit` replaced. */
  function Overwritten(txs: seq<Tx>, hit: Option<nat>, tx: Tx): seq<Tx> {
    if hit.Some? && hit.value < |txs| then txs[hit.value := tx] else txs
  }

  function At(txs: seq<Tx>, hit: Option<nat>): Option<Tx> {
    if hit.Some? && hit.value < |txs| then Some(txs[hit.value]) else None
  }

  function PendingAfter(d: Decision, pending: seq<Tx>, r: Request): seq<Tx> {
    if d.Reject? then pending else Overwritten(pending, d.pendingHit, r.WithNonce(d.nonce))
  }

  function QueuedAfter(d: Decision, queued: seq<Tx>, r: Request): seq<Tx> {
    if d.Reject? then queued else Overwritten(queued, d.queuedHit, r.WithNonce(d.nonce))
  }

  /** The transaction that is replaced, and so finalized as rejected. */
  function Displaced(d: Decision, pending: seq<Tx>, queued: seq<Tx>): Option<Tx> {
    if d.Reject? then None
    else if d.pendingHit.Some? then At(pending, d.pendingHit)
    else At(queued, d.queuedHit)
  }

  /**
   * The drain loop: the root is moved while its nonce is the one expected next. A root
   * with any other nonce stops it, whatever lies deeper in the heap.
   */
  ghost predicate Drains(queued: multiset<Tx>, from: nat, moved: seq<Tx>) {
    && multiset(moved) <= queued
    && Consecutive(moved, from)
    && (moved != [] ==> forall tx <- queued :: tx.nonce >= from)
    && !LowestIs(queued - multiset(moved), from + |moved|)
  }

  ghost predicate LowestIs(txs: multiset<Tx>, n: nat) {
    (exists tx <- txs :: tx.nonce == n) && forall tx <- txs :: tx.nonce >= n
  }

  /** A transaction of the lowest nonce. */
  ghost predicate Lowest(txs: multiset<Tx>, tx: Tx) {
    tx in txs && forall other <- txs :: other.nonce >= tx.nonce
  }

  datatype Pools = Pools(pending: multiset<Tx>, queued: multiset<Tx>)

  /** What the switch over the placement does to the two heaps. */
  ghost predicate Placed(placement: Placement, tx: Tx, before: Pools, after: Pools) {
    match placement
    case Executable => exists moved :: Executed(before, tx, moved, after)
    case FutureQueue => after == Pools(before.pending, before.queued + multiset{tx})
    case _ => after == before
  }

  /** The transaction is pushed, then `moved` is drained behind it. */
  ghost predicate Executed(before: Pools, tx: Tx, moved: seq<Tx>, after: Pools) {
    && Drains(before.queued, tx.nonce + 1, moved)
    && after.pending == before.pending + multiset{tx} + multiset(moved)
    && after.queued == before.queued - multiset(moved)
  }

  // ---------- The nonce invariant ----------

  ghost predicate Consecutive(run: seq<Tx>, from: nat) {
    forall i :: 0 <= i < |run| ==> run[i].nonce == from + i
  }

  /** `run` lists the pending transactions with nonces `from, from + 1, ...`. */
  ghost predicate Run(run: seq<Tx>, pending: multiset<Tx>, from: nat) {
    multiset(run) == pending && Consecutive(run, from)
  }

  /** Pending nonces are `from, from + 1, ...`, each once. */
  ghost predicate Contiguous(pending: multiset<Tx>, from: nat) {
    exists run: seq<Tx> :: Run(run, pending, from)
  }

  /** Queued nonces are distinct and strictly above the next executable one. */
  ghost predicate Waiting(queued: multiset<Tx>, next: nat) {
    && (forall tx <- queued :: tx.nonce > next && queued[tx] == 1)
    && (forall tx, other :: tx in queued && other in queued && tx.nonce == other.nonce ==> tx == other)
  }

  ghost predicate NonceInv(p: Pools, accountNonce: nat) {
    Contiguous(p.pending, accountNonce) && Waiting(p.queued, accountNonce + |p.pending|)
  }

  ghost predicate HasNonce(txs: multiset<Tx>, n: nat) {
    exists tx <- txs :: tx.nonce == n
  }

  /** A replaced transaction whose nonce is one above the highest scanned so far is pushed again. */
  predicate PushedTwice(pending: seq<Tx>, r: Request, priceBump: nat) {
    var scan := ScanFor(pending, r, priceBump);
    scan.Hit? && r.nonce == Some(Highest(pending[..scan.index]) + 1)
  }

  /** While something is pending, a nonce below the account's is not refused. */
  predicate BelowAccount(pending: seq<Tx>, accountNonce: nat, r: Request) {
    pending != [] && r.nonce.Some? && r.nonce.value < accountNonce
  }

  // ---------- Who may be replaced ----------

  /** The offer is over the fee by the bump in per cent, but for what is lost below one unit. */
  predicate Outbids(fee: nat, offer: nat, priceBump: nat) {
    100 * (offer - fee) > fee * priceBump - 100
  }

  /** A transaction the miner has not locked, and both fees outbid. */
  predicate CanReplace(replacee: Tx, r: Request, priceBump: nat) {
    !replacee.locked && Outbids(replacee.tip, r.tip, priceBump) && Outbids(replacee.maxFee, r.maxFee, priceBump)
  }

  lemma PremiumIff(fee: nat, offer: nat, priceBump: nat)
    ensures offer >= Premium(fee, priceBump) <==> Outbids(fee, offer, priceBump)
  {
    PremiumBounds(fee, priceBump);
  }

  lemma ReplacesIff(replacee: Tx, nonce: Option<nat>, r: Request, priceBump: nat)
    ensures ShouldReplace(replacee, nonce, r, priceBump)
            == if nonce != Some(replacee.nonce) then Differs
               else if CanReplace(replacee, r, priceBump) then Replaces
               else Refused(if replacee.locked then TransactionLocked else Underpriced)
  {
    PremiumIff(replacee.tip, r.tip, priceBump);
    PremiumIff(replacee.maxFee, r.maxFee, priceBump);
  }

  /** The first transaction with the nonce. */
  predicate FirstWith(txs: seq<Tx>, nonce: Option<nat>, i: nat) {
    i < |txs| && nonce == Some(txs[i].nonce) && forall k: nat :: k < i ==> nonce != Some(txs[k].nonce)
  }

  /** The first transaction with the nonce may not be replaced, and why. */
  ghost predicate RefusedBy(txs: seq<Tx>, r: Request, priceBump: nat, e: Error) {
    exists i: nat :: FirstWith(txs, r.nonce, i) && RefusesAs(txs[i], r, priceBump, e)
  }

  predicate RefusesAs(replacee: Tx, r: Request, priceBump: nat, e: Error) {
    !CanReplace(replacee, r, priceBump) && e == if replacee.locked then TransactionLocked else Underpriced
  }

  lemma FirstWithNext(txs: seq<Tx>, nonce: Option<nat>, i: nat)
    requires txs != [] && nonce != Some(txs[0].nonce)
    ensures FirstWith(txs, nonce, i + 1) <==> FirstWith(txs[1..], nonce, i)
  {
    if i + 1 < |txs| {
      assert forall k: nat :: k < i ==> txs[1..][k] == txs[k + 1];
      assert forall k: nat :: 0 < k <= i ==> txs[k] == txs[1..][k - 1];
    }
  }

  /** A scan hits what may be replaced, and throws for what may not. */
  lemma {:induction false} ScanIs(txs: seq<Tx>, r: Request, priceBump: nat)
    ensures match ScanFor(txs, r, priceBump)
            case Miss => forall tx <- txs :: r.nonce != Some(tx.nonce)
            case Hit(i) => FirstWith(txs, r.nonce, i) && CanReplace(txs[i], r, priceBump)
            case Throw(e) => RefusedBy(txs, r, priceBump, e)
  {
    if txs != [] {
      ReplacesIff(txs[0], r.nonce, r, priceBump);
      if r.nonce == Some(txs[0].nonce) {
        assert FirstWith(txs, r.nonce, 0);
      } else {
        ScanIs(txs[1..], r, priceBump);
        match ScanFor(txs[1..], r, priceBump)
        case Miss =>
        case Hit(i) => FirstWithNext(txs, r.nonce, i);
        case Throw(e) =>
          var i: nat :| FirstWith(txs[1..], r.nonce, i) && RefusesAs(txs[1..][i], r, priceBump, e);
          FirstWithNext(txs, r.nonce, i);
          assert FirstWith(txs, r.nonce, i + 1) && txs[i + 1] == txs[1..][i];
      }
    }
  }

  lemma ScanThrowsIff(txs: seq<Tx>, r: Request, priceBump: nat, e: Error)
    ensures ScanFor(txs, r, priceBump) == Throw(e) <==> RefusedBy(txs, r, priceBump, e)
  {
    ScanIs(txs, r, priceBump);
    if RefusedBy(txs, r, priceBump, e) {
      var i: nat :| FirstWith(txs, r.nonce, i) && RefusesAs(txs[i], r, priceBump, e);
      match ScanFor(txs, r, priceBump)
      case Miss =>
      case Hit(j) => OneFirst(txs, r.nonce, i, j);
      case Throw(other) =>
        var j: nat :| FirstWith(txs, r.nonce, j) && RefusesAs(txs[j], r, priceBump, other);
        OneFirst(txs, r.nonce, i, j);
    }
  }

  lemma OneFirst(txs: seq<Tx>, nonce: Option<nat>, i: nat, j: nat)
    requires FirstWith(txs, nonce, i) && FirstWith(txs, nonce, j)
    ensures i == j
  {
  }

  /** Not the next executable nonce, and no pending transaction has it. */
  predicate GoesToQueue(pending: seq<Tx>, accountNonce: nat, nonce: Option<nat>) {
    && nonce.Some?
    && (if pending == [] then nonce.value > accountNonce
        else nonce.value != Highest(pending) + 1 && forall tx <- pending :: tx.nonce != nonce.value)
  }

  /** The reasons for which a submission is refused once the heaps are looked at, and no others. */
  lemma RefusedIff(pending: seq<Tx>, queued: seq<Tx>, accountNonce: nat, r: Request, priceBump: nat, e: Error)
    ensures Decide(pending, queued, accountNonce, r, priceBump) == Reject(e)
            <==> || (e == NonceTooLow && pending == [] && r.nonce.Some? && r.nonce.value < accountNonce)
                 || RefusedBy(pending, r, priceBump, e)
                 || (GoesToQueue(pending, accountNonce, r.nonce) && RefusedBy(queued, r, priceBump, e))
  {
    ScanThrowsIff(pending, r, priceBump, e);
    ScanThrowsIff(queued, r, priceBump, e);
    DecideRejects(pending, queued, accountNonce, r, priceBump, e);
  }

  lemma DecideRejects(pending: seq<Tx>, queued: seq<Tx>, accountNonce: nat, r: Request, priceBump: nat, e: Error)
    ensures Decide(pending, queued, accountNonce, r, priceBump) == Reject(e)
            <==> || (e == NonceTooLow && pending == [] && r.nonce.Some? && r.nonce.value < accountNonce)
                 || ScanFor(pending, r, priceBump) == Throw(e)
                 || (GoesToQueue(pending, accountNonce, r.nonce) && ScanFor(queued, r, priceBump) == Throw(e))
  {
  }

  /** Whatever is replaced may be: above all, the miner has not locked it. */
  lemma DisplacedCanBe(pending: seq<Tx>, queued: seq<Tx>, accountNonce: nat, r: Request, priceBump: nat)
    ensures var out := Displaced(Decide(pending, queued, accountNonce, r, priceBump), pending, queued);
            out.Some? ==> r.nonce == Some(out.value.nonce) && CanReplace(out.value, r, priceBump)
  {
    ScanIs(pending, r, priceBump);
    ScanIs(queued, r, priceBump);
  }

  // ---------- Facts about consecutive nonces ----------

  lemma CountOne(run: seq<Tx>, from: nat, k: nat)
    requires Consecutive(run, from) && k < |run|
    ensures multiset(run)[run[k]] == 1
  {
    assert run == run[..k] + [run[k]] + run[k + 1..];
    assert run[k] !in run[..k] && run[k] !in run[k + 1..];
  }

  lemma RunFacts(run: seq<Tx>, pending: multiset<Tx>, from: nat)
    requires Run(run, pending, from)
    ensures |run| == |pending|
    ensures forall tx <- pending :: from <= tx.nonce < from + |run| && run[tx.nonce - from] == tx
    ensures forall k :: 0 <= k < |run| ==> run[k] in pending
  {
    assert |multiset(run)| == |run|;
    forall tx <- pending
      ensures from <= tx.nonce < from + |run| && run[tx.nonce - from] == tx
    {
      assert tx in multiset(run);
      var k :| 0 <= k < |run| && run[k] == tx;
    }
    forall k | 0 <= k < |run|
      ensures run[k] in pending
    {
      assert run[k] in multiset(run);
    }
  }

  lemma InSeq(txs: seq<Tx>)
    ensures |multiset(txs)| == |txs|
    ensures forall tx :: tx in txs <==> tx in multiset(txs)
  {
  }

  lemma HighestPending(pending: seq<Tx>, from: nat, run: seq<Tx>)
    requires Run(run, multiset(pending), from) && pending != []
    ensures Highest(pending) == from + |pending| - 1
  {
    RunFacts(run, multiset(pending), from);
    InSeq(pending);
    var last := run[|run| - 1];
    assert last in pending && last.nonce == from + |pending| - 1;
  }

  /** An accepted submission takes no locked transaction out of the pending heap. */
  lemma LockedStaysPending(
      pending: seq<Tx>, queued: seq<Tx>, accountNonce: nat, r: Request, priceBump: nat, after: Pools, tx: Tx)
    requires Accepts(pending, queued, accountNonce, r, priceBump, after) && tx.locked
    ensures after.pending[tx] >= multiset(pending)[tx]
  {
    var d := Decide(pending, queued, accountNonce, r, priceBump);
    DisplacedCanBe(pending, queued, accountNonce, r, priceBump);
    if d.pendingHit.Some? && d.pendingHit.value < |pending| {
      ReplaceMultiset(pending, d.pendingHit.value, r.WithNonce(d.nonce));
    }
  }

  /** The heaps hold what was submitted: with the sender's fees, its nonce or the next one, and not locked. */
  lemma SubmittedIsHeld(
      pending: seq<Tx>, queued: seq<Tx>, accountNonce: nat, r: Request, priceBump: nat, after: Pools)
    requires Accepts(pending, queued, accountNonce, r, priceBump, after)
    ensures exists n: nat :: (r.nonce.Some? ==> n == r.nonce.value)
              && Tx(r.id, n, r.tip, r.maxFee, false) in after.pending + after.queued
  {
    var d := Decide(pending, queued, accountNonce, r, priceBump);
    var tx := r.WithNonce(d.nonce);
    HitsExist(pending, queued, accountNonce, r, priceBump);
    if d.placement.ReplacesPendingExecutable? { OverwrittenHolds(pending, d.pendingHit, tx); }
    if d.placement.ReplacesFutureTransaction? { OverwrittenHolds(queued, d.queuedHit, tx); }
    assert tx == Tx(r.id, d.nonce, r.tip, r.maxFee, false) && tx in after.pending + after.queued;
  }

  lemma HitsExist(pending: seq<Tx>, queued: seq<Tx>, accountNonce: nat, r: Request, priceBump: nat)
    requires Decide(pending, queued, accountNonce, r, priceBump).Place?
    ensures var d := Decide(pending, queued, accountNonce, r, priceBump);
            && (r.nonce.Some? ==> d.nonce == r.nonce.value)
            && (d.placement.ReplacesPendingExecutable? ==> d.pendingHit.Some? && d.pendingHit.value < |pending|)
            && (d.placement.ReplacesFutureTransaction? ==> d.queuedHit.Some? && d.queuedHit.value < |queued|)
  {
  }

  lemma OverwrittenHolds(txs: seq<Tx>, hit: Option<nat>, tx: Tx)
    requires hit.Some? && hit.value < |txs|
    ensures tx in multiset(Overwritten(txs, hit, tx))
  {
    ReplaceMultiset(txs, hit.value, tx);
  }

  lemma ReplaceMultiset(s: seq<Tx>, i: nat, tx: Tx)
    requires i < |s|
    ensures multiset(s[i := tx]) == multiset(s) - multiset{s[i]} + multiset{tx}
  {
    assert s == s[..i] + [s[i]] + s[i + 1..];
    assert s[i := tx] == s[..i] + [tx] + s[i + 1..];
  }

  /** A replacement with the same nonce keeps the pending nonces. */
  lemma ReplaceKeepsRun(run: seq<Tx>, pending: multiset<Tx>, from: nat, gone: Tx, tx: Tx)
    requires Run(run, pending, from) && gone in pending && tx.nonce == gone.nonce
    ensures Contiguous(pending - multiset{gone} + multiset{tx}, from)
  {
    RunFacts(run, pending, from);
    var k := tx.nonce - from;
    ReplaceMultiset(run, k, tx);
    assert run[k] == gone;
    assert multiset(run[k := tx]) == pending - multiset{gone} + multiset{tx};
    assert Run(run[k := tx], pending - multiset{gone} + multiset{tx}, from);
  }

  lemma ReplaceKeepsContiguous(pending: seq<Tx>, from: nat, i: nat, tx: Tx)
    requires Contiguous(multiset(pending), from) && i < |pending| && tx.nonce == pending[i].nonce
    ensures Contiguous(multiset(pending[i := tx]), from)
    ensures |multiset(pending[i := tx])| == |multiset(pending)|
  {
    var run :| Run(run, multiset(pending), from);
    ReplaceKeepsRun(run, multiset(pending), from, pending[i], tx);
    ReplaceMultiset(pending, i, tx);
  }

  /** The new transaction and everything drained after it extend the run. */
  lemma ExtendRun(run: seq<Tx>, pending: multiset<Tx>, from: nat, tx: Tx, moved: seq<Tx>)
    requires Run(run, pending, from) && tx.nonce == from + |pending|
    requires Consecutive(moved, tx.nonce + 1)
    ensures Contiguous(pending + multiset{tx} + multiset(moved), from)
    ensures |pending + multiset{tx} + multiset(moved)| == |pending| + 1 + |moved|
  {
    RunFacts(run, pending, from);
    var longer := run + [tx] + moved;
    assert multiset(longer) == multiset(run) + multiset{tx} + multiset(moved);
    assert Run(longer, pending + multiset{tx} + multiset(moved), from);
    assert |multiset(longer)| == |longer|;
  }

  lemma ExtendContiguous(pending: multiset<Tx>, from: nat, tx: Tx, moved: seq<Tx>)
    requires Contiguous(pending, from) && tx.nonce == from + |pending|
    requires Consecutive(moved, tx.nonce + 1)
    ensures Contiguous(pending + multiset{tx} + multiset(moved), from)
    ensures |pending + multiset{tx} + multiset(moved)| == |pending| + 1 + |moved|
  {
    var run :| Run(run, pending, from);
    ExtendRun(run, pending, from, tx, moved);
  }

  lemma TailRun(run: seq<Tx>, pending: multiset<Tx>, from: nat, first: Tx)
    requires Run(run, pending, from) && run != [] && run[0] == first
    ensures Run(run[1..], pending - multiset{first}, from + 1)
  {
    assert run == [first] + run[1..];
  }

  lemma DuplicateNotContiguous(pending: multiset<Tx>, from: nat, tx: Tx)
    requires pending[tx] >= 2
    ensures !Contiguous(pending, from)
  {
    if Contiguous(pending, from) {
      var run :| Run(run, pending, from);
      RunFacts(run, pending, from);
      CountOne(run, from, tx.nonce - from);
    }
  }

  // ---------- The drain ----------

  lemma DrainedAre(queued: multiset<Tx>, next: nat, moved: seq<Tx>, tx: Tx)
    requires Waiting(queued, next) && Drains(queued, next + 1, moved) && tx in queued
    ensures tx in moved <==> tx.nonce < next + 1 + |moved|
    ensures tx in queued - multiset(moved) <==> tx !in moved
  {
    if next < tx.nonce < next + 1 + |moved| {
      var k := tx.nonce - next - 1;
      assert moved[k] in multiset(moved) && moved[k] in queued;
      assert moved[k] == tx;
      CountOne(moved, next + 1, k);
    }
  }

  lemma DrainStops(queued: multiset<Tx>, next: nat, moved: seq<Tx>, tx: Tx)
    requires Waiting(queued, next) && Drains(queued, next + 1, moved) && tx in queued && tx !in moved
    ensures tx.nonce > next + 1 + |moved|
  {
    DrainedAre(queued, next, moved, tx);
    var rest := queued - multiset(moved);
    forall other <- rest
      ensures other.nonce >= next + 1 + |moved|
    {
      DrainedAre(queued, next, moved, other);
    }
  }

  /** What the drain leaves is strictly above the new next nonce. */
  lemma DrainLeavesWaiting(queued: multiset<Tx>, next: nat, moved: seq<Tx>)
    requires Waiting(queued, next) && Drains(queued, next + 1, moved)
    ensures Waiting(queued - multiset(moved), next + 1 + |moved|)
  {
    forall tx <- queued - multiset(moved)
      ensures tx.nonce > next + 1 + |moved| && (queued - multiset(moved))[tx] == 1
    {
      DrainedAre(queued, next, moved, tx);
      DrainStops(queued, next, moved, tx);
    }
  }

  /** The drain moves exactly the maximal run of consecutive queued nonces. */
  lemma DrainIsMaximal(queued: multiset<Tx>, next: nat, moved: seq<Tx>, tx: Tx)
    requires Waiting(queued, next) && Drains(queued, next + 1, moved) && tx in queued
    ensures tx in moved <==> forall n: nat :: next < n <= tx.nonce ==> HasNonce(queued, n)
  {
    DrainedAre(queued, next, moved, tx);
    if tx in moved {
      forall n: nat | next < n <= tx.nonce
        ensures HasNonce(queued, n)
      {
        var other := moved[n - next - 1];
        assert other in multiset(moved);
      }
    } else if HasNonce(queued, next + 1 + |moved|) {
      var other :| other in queued && other.nonce == next + 1 + |moved|;
      DrainedAre(queued, next, moved, other);
      DrainStops(queued, next, moved, other);
    }
  }

  /** The push and the drain lose and duplicate nothing. */
  lemma NothingLost(before: Pools, tx: Tx, moved: seq<Tx>, after: Pools)
    requires Executed(before, tx, moved, after)
    ensures after.pending + after.queued == before.pending + before.queued + multiset{tx}
  {
    var m := multiset(moved);
    assert m + (before.queued - m) == before.queued;
  }

  // ---------- The queue ----------

  lemma QueueGrows(queued: multiset<Tx>, next: nat, tx: Tx)
    requires Waiting(queued, next) && !HasNonce(queued, tx.nonce)
    ensures Waiting(queued + multiset{tx}, next) <==> tx.nonce > next
  {
    assert tx in queued + multiset{tx};
  }

  lemma ReplaceKeepsWaiting(queued: seq<Tx>, next: nat, j: nat, tx: Tx)
    requires Waiting(multiset(queued), next) && j < |queued| && tx.nonce == queued[j].nonce
    ensures Waiting(multiset(queued[j := tx]), next)
  {
    ReplaceMultiset(queued, j, tx);
    var gone := queued[j];
    assert gone in multiset(queued);
    var after := multiset(queued) - multiset{gone} + multiset{tx};
    assert forall other <- after :: other == tx || (other in multiset(queued) && other != gone);
  }

  // ---------- Submissions keep the invariant exactly when neither fault strikes ----------

  /** The submission is accepted and leaves the heaps holding `after`. */
  ghost predicate Accepts(
      pending: seq<Tx>, queued: seq<Tx>, accountNonce: nat, r: Request, priceBump: nat, after: Pools)
  {
    var d := Decide(pending, queued, accountNonce, r, priceBump);
    && d.Place?
    && Placed(d.placement, r.WithNonce(d.nonce),
              Pools(multiset(PendingAfter(d, pending, r)), multiset(QueuedAfter(d, queued, r))), after)
  }

  lemma AfterHit(index: nat, highest: nat, nonce: nat)
    ensures AfterScan(Hit(index), highest, Some(nonce))
            == Place(nonce, if nonce == highest + 1 then Executable else ReplacesPendingExecutable, Some(index), None)
  {
  }

  lemma DecidePendingHit(pending: seq<Tx>, accountNonce: nat, r: Request, priceBump: nat)
    requires pending != [] && ScanFor(pending, r, priceBump).Hit?
    ensures r.nonce.Some?
    ensures DecidePending(pending, accountNonce, r, priceBump)
            == Place(r.nonce.value,
                     if PushedTwice(pending, r, priceBump) then Executable else ReplacesPendingExecutable,
                     Some(ScanFor(pending, r, priceBump).index), None)
  {
    var i := ScanFor(pending, r, priceBump).index;
    AfterHit(i, Highest(pending[..i]), r.nonce.value);
  }

  lemma DecideHit(pending: seq<Tx>, queued: seq<Tx>, accountNonce: nat, r: Request, priceBump: nat)
    requires pending != [] && ScanFor(pending, r, priceBump).Hit?
    ensures Decide(pending, queued, accountNonce, r, priceBump)
            == Place(r.nonce.value,
                     if PushedTwice(pending, r, priceBump) then Executable else ReplacesPendingExecutable,
                     Some(ScanFor(pending, r, priceBump).index), None)
  {
    DecidePendingHit(pending, accountNonce, r, priceBump);
  }

  lemma ExecutedHolds(before: Pools, tx: Tx, after: Pools)
    requires exists moved :: Executed(before, tx, moved, after)
    ensures before.pending + multiset{tx} <= after.pending
  {
  }

  lemma AcceptedHit(pending: seq<Tx>, queued: seq<Tx>, accountNonce: nat, r: Request, priceBump: nat, after: Pools)
    requires pending != [] && ScanFor(pending, r, priceBump).Hit?
    requires Accepts(pending, queued, accountNonce, r, priceBump, after)
    ensures var i, tx := ScanFor(pending, r, priceBump).index, r.WithNonce(r.nonce.value);
            if PushedTwice(pending, r, priceBump) then multiset(pending[i := tx]) + multiset{tx} <= after.pending
            else after == Pools(multiset(pending[i := tx]), multiset(queued))
  {
    DecideHit(pending, queued, accountNonce, r, priceBump);
    if PushedTwice(pending, r, priceBump) {
      var i, tx := ScanFor(pending, r, priceBump).index, r.WithNonce(r.nonce.value);
      ExecutedHolds(Pools(multiset(pending[i := tx]), multiset(queued)), tx, after);
    }
  }

  lemma HitPushedTwice(pending: seq<Tx>, queued: seq<Tx>, accountNonce: nat, r: Request, priceBump: nat, after: Pools)
    requires pending != [] && PushedTwice(pending, r, priceBump)
    requires Accepts(pending, queued, accountNonce, r, priceBump, after)
    ensures !Contiguous(after.pending, accountNonce)
  {
    AcceptedHit(pending, queued, accountNonce, r, priceBump, after);
    var i, tx := ScanFor(pending, r, priceBump).index, r.WithNonce(r.nonce.value);
    ReplaceMultiset(pending, i, tx);
    DuplicateNotContiguous(after.pending, accountNonce, tx);
  }

  lemma HitReplaced(pending: seq<Tx>, queued: multiset<Tx>, accountNonce: nat, i: nat, tx: Tx)
    requires NonceInv(Pools(multiset(pending), queued), accountNonce)
    requires i < |pending| && tx.nonce == pending[i].nonce
    ensures NonceInv(Pools(multiset(pending[i := tx]), queued), accountNonce)
  {
    ReplaceKeepsContiguous(pending, accountNonce, i, tx);
  }

  /** A hit in the pending array: a clean replacement, or the transaction twice. */
  lemma HitOutcome(pending: seq<Tx>, queued: seq<Tx>, accountNonce: nat, r: Request, priceBump: nat, after: Pools)
    requires NonceInv(Pools(multiset(pending), multiset(queued)), accountNonce)
    requires pending != [] && ScanFor(pending, r, priceBump).Hit?
    requires Accepts(pending, queued, accountNonce, r, priceBump, after)
    ensures NonceInv(after, accountNonce) <==> !PushedTwice(pending, r, priceBump)
  {
    if PushedTwice(pending, r, priceBump) {
      HitPushedTwice(pending, queued, accountNonce, r, priceBump, after);
    } else {
      AcceptedHit(pending, queued, accountNonce, r, priceBump, after);
      var i := ScanFor(pending, r, priceBump).index;
      HitReplaced(pending, multiset(queued), accountNonce, i, r.WithNonce(r.nonce.value));
    }
  }

  /** Accepted as the next nonce. */
  lemma ExecutableOutcome(p: Pools, accountNonce: nat, tx: Tx, moved: seq<Tx>, after: Pools)
    requires Contiguous(p.pending, accountNonce) && Waiting(p.queued, tx.nonce)
    requires tx.nonce == accountNonce + |p.pending|
    requires Executed(p, tx, moved, after)
    ensures Contiguous(after.pending, accountNonce)
    ensures Waiting(after.queued, tx.nonce + 1 + |moved|)
    ensures accountNonce + |after.pending| == tx.nonce + 1 + |moved|
  {
    ExecutedPending(p, accountNonce, tx, moved, after);
    DrainLeavesWaiting(p.queued, tx.nonce, moved);
  }

  lemma ExecutedPending(p: Pools, accountNonce: nat, tx: Tx, moved: seq<Tx>, after: Pools)
    requires Contiguous(p.pending, accountNonce) && tx.nonce == accountNonce + |p.pending|
    requires Executed(p, tx, moved, after)
    ensures Contiguous(after.pending, accountNonce) && |after.pending| == |p.pending| + 1 + |moved|
  {
    assert Consecutive(moved, tx.nonce + 1);
    ExtendContiguous(p.pending, accountNonce, tx, moved);
  }

  lemma NextNonce(pending: seq<Tx>, accountNonce: nat)
    requires Contiguous(multiset(pending), accountNonce)
    ensures |multiset(pending)| == |pending|
    ensures pending != [] ==> Highest(pending) + 1 == accountNonce + |pending|
    ensures forall n: nat :: HasNonce(multiset(pending), n) <==> accountNonce <= n < accountNonce + |pending|
  {
    var run :| Run(run, multiset(pending), accountNonce);
    RunFacts(run, multiset(pending), accountNonce);
    InSeq(pending);
    if pending != [] { HighestPending(pending, accountNonce, run); }
    forall n: nat
      ensures HasNonce(multiset(pending), n) <==> accountNonce <= n < accountNonce + |pending|
    {
      if accountNonce <= n < accountNonce + |pending| {
        assert run[n - accountNonce] in multiset(pending);
      }
    }
  }

  lemma ScanFinds(txs: seq<Tx>, r: Request, priceBump: nat)
    requires r.nonce.Some?
    ensures ScanFor(txs, r, priceBump).Miss? <==> !HasNonce(multiset(txs), r.nonce.value)
  {
    InSeq(txs);
    if HasNonce(multiset(txs), r.nonce.value) {
      var tx :| tx in multiset(txs) && tx.nonce == r.nonce.value;
      assert tx in txs;
    }
  }

  lemma DecideNotNext(pending: seq<Tx>, accountNonce: nat, r: Request, priceBump: nat)
    requires r.nonce.Some?
    requires pending == [] ==> r.nonce.value != accountNonce
    requires pending != [] ==> ScanFor(pending, r, priceBump).Miss? && r.nonce.value != Highest(pending) + 1
    ensures DecidePending(pending, accountNonce, r, priceBump)
            == if pending == [] && r.nonce.value < accountNonce then Reject(NonceTooLow)
               else Place(r.nonce.value, FutureQueue, None, None)
  {
  }

  lemma AcceptedQueued(pending: seq<Tx>, queued: seq<Tx>, accountNonce: nat, r: Request, priceBump: nat, after: Pools)
    requires r.nonce.Some?
    requires DecidePending(pending, accountNonce, r, priceBump) == Place(r.nonce.value, FutureQueue, None, None)
    requires Accepts(pending, queued, accountNonce, r, priceBump, after)
    ensures var tx := r.WithNonce(r.nonce.value);
            match ScanFor(queued, r, priceBump)
            case Throw(_) => false
            case Hit(j) => after == Pools(multiset(pending), multiset(queued[j := tx]))
            case Miss => after == Pools(multiset(pending), multiset(queued) + multiset{tx})
  {
  }

  /** In place of a queued transaction, which puts the nonce above the account's. */
  lemma ReplacedInQueue(p: Pools, accountNonce: nat, queued: seq<Tx>, j: nat, tx: Tx)
    requires NonceInv(p, accountNonce) && p.queued == multiset(queued)
    requires j < |queued| && tx.nonce == queued[j].nonce
    ensures NonceInv(Pools(p.pending, multiset(queued[j := tx])), accountNonce) && tx.nonce > accountNonce
  {
    ReplaceKeepsWaiting(queued, accountNonce + |p.pending|, j, tx);
    assert queued[j] in multiset(queued);
  }

  lemma AddedToQueue(p: Pools, accountNonce: nat, tx: Tx)
    requires NonceInv(p, accountNonce) && !HasNonce(p.queued, tx.nonce)
    ensures NonceInv(Pools(p.pending, p.queued + multiset{tx}), accountNonce) <==> tx.nonce > accountNonce + |p.pending|
  {
    QueueGrows(p.queued, accountNonce + |p.pending|, tx);
  }

  /** Not executable: queued, or in place of a queued one. */
  lemma QueuedOutcome(pending: seq<Tx>, queued: seq<Tx>, accountNonce: nat, r: Request, priceBump: nat, after: Pools)
    requires NonceInv(Pools(multiset(pending), multiset(queued)), accountNonce)
    requires r.nonce.Some? && r.nonce.value != accountNonce + |pending|
    requires pending != [] ==> ScanFor(pending, r, priceBump).Miss?
    requires Accepts(pending, queued, accountNonce, r, priceBump, after)
    ensures NonceInv(after, accountNonce) <==> !BelowAccount(pending, accountNonce, r)
  {
    NextNonce(pending, accountNonce);
    if pending != [] { ScanFinds(pending, r, priceBump); }
    DecideNotNext(pending, accountNonce, r, priceBump);
    AcceptedQueued(pending, queued, accountNonce, r, priceBump, after);
    var tx, p := r.WithNonce(r.nonce.value), Pools(multiset(pending), multiset(queued));
    ScanFinds(queued, r, priceBump);
    match ScanFor(queued, r, priceBump)
    case Hit(j) => ReplacedInQueue(p, accountNonce, queued, j, tx);
    case Miss => AddedToQueue(p, accountNonce, tx);
  }

  lemma AcceptedNext(pending: seq<Tx>, queued: seq<Tx>, accountNonce: nat, r: Request, priceBump: nat, next: nat)
    requires next == if pending == [] then accountNonce else Highest(pending) + 1
    requires pending != [] ==> ScanFor(pending, r, priceBump).Miss?
    requires r.nonce.Some? ==> r.nonce.value == next
    ensures Decide(pending, queued, accountNonce, r, priceBump) == Place(next, Executable, None, None)
  {
  }

  /**
   * An accepted submission keeps the sender's nonces in order if and only if it is not a
   * replacement that gets pushed again, and not below the account's nonce.
   */
  lemma SubmissionKeepsIff(
      pending: seq<Tx>, queued: seq<Tx>, accountNonce: nat, r: Request, priceBump: nat, after: Pools)
    requires NonceInv(Pools(multiset(pending), multiset(queued)), accountNonce)
    requires Accepts(pending, queued, accountNonce, r, priceBump, after)
    ensures NonceInv(after, accountNonce)
            <==> !PushedTwice(pending, r, priceBump) && !BelowAccount(pending, accountNonce, r)
  {
    NextNonce(pending, accountNonce);
    if r.nonce.Some? { ScanFinds(pending, r, priceBump); }
    if pending != [] && ScanFor(pending, r, priceBump).Hit? {
      HitOutcome(pending, queued, accountNonce, r, priceBump, after);
    } else if r.nonce.Some? && r.nonce.value != accountNonce + |pending| {
      QueuedOutcome(pending, queued, accountNonce, r, priceBump, after);
    } else {
      var next := accountNonce + |pending|;
      AcceptedNext(pending, queued, accountNonce, r, priceBump, next);
      ExecutableAccepted(Pools(multiset(pending), multiset(queued)), accountNonce, r.WithNonce(next), after);
    }
  }

  lemma ExecutableAccepted(p: Pools, accountNonce: nat, tx: Tx, after: Pools)
    requires NonceInv(p, accountNonce) && tx.nonce == accountNonce + |p.pending|
    requires exists moved :: Executed(p, tx, moved, after)
    ensures NonceInv(after, accountNonce)
  {
    var moved :| Executed(p, tx, moved, after);
    ExecutableOutcome(p, accountNonce, tx, moved, after);
  }

  // ---------- Both faults strike ----------

  lemma NothingToDrain(from: nat)
    ensures Drains(multiset{}, from, [])
  {
    var none: multiset<Tx> := multiset{};
    assert none - multiset([]) == none;
  }

  /** A transaction with nonce 1 at the root, replaced, is pushed again: the sender then has it twice. */
  lemma RootPushedTwice(root: Tx, r: Request, priceBump: nat)
    requires root.nonce == 1 && ShouldReplace(root, r.nonce, r, priceBump) == Replaces
    ensures var tx := r.WithNonce(1);
            var after := Pools(multiset{tx, tx}, multiset{});
            && NonceInv(Pools(multiset([root]), multiset([])), 1)
            && PushedTwice([root], r, priceBump)
            && Accepts([root], [], 1, r, priceBump, after)
            && !NonceInv(after, 1)
  {
    var tx := r.WithNonce(1);
    AloneInOrder(root);
    RootHit(root, r, priceBump);
    RootAccepted(root, r, priceBump);
    DuplicateNotContiguous(multiset{tx, tx}, 1, tx);
  }

  lemma AloneInOrder(tx: Tx)
    ensures NonceInv(Pools(multiset([tx]), multiset([])), tx.nonce)
  {
    assert Run([tx], multiset([tx]), tx.nonce);
  }

  lemma RootAccepted(root: Tx, r: Request, priceBump: nat)
    requires ScanFor([root], r, priceBump) == Hit(0) && PushedTwice([root], r, priceBump) && r.nonce == Some(1)
    ensures var tx := r.WithNonce(1);
            Accepts([root], [], 1, r, priceBump, Pools(multiset{tx, tx}, multiset{}))
  {
    DecideHit([root], [], 1, r, priceBump);
    assert [root][0 := r.WithNonce(1)] == [r.WithNonce(1)];
    PushedOnceMore(r.WithNonce(1));
  }

  lemma RootHit(root: Tx, r: Request, priceBump: nat)
    requires root.nonce == 1 && ShouldReplace(root, r.nonce, r, priceBump) == Replaces
    ensures ScanFor([root], r, priceBump) == Hit(0) && PushedTwice([root], r, priceBump)
  {
    assert [root][..0] == [];
  }

  lemma PushedOnceMore(tx: Tx)
    ensures Placed(Executable, tx, Pools(multiset([tx]), multiset([])), Pools(multiset{tx, tx}, multiset{}))
  {
    NothingToDrain(tx.nonce + 1);
    assert Executed(Pools(multiset([tx]), multiset([])), tx, [], Pools(multiset{tx, tx}, multiset{}));
  }

  /** Fees 20 over fees 10, at a price bump of 10 per cent. */
  lemma PushedTwiceExample()
    ensures var root, r := Tx(1, 1, 10, 10, false), Request(2, Some(1), 20, 20, 21000, 0);
            var tx := r.WithNonce(1);
            Accepts([root], [], 1, r, 10, Pools(multiset{tx, tx}, multiset{}))
  {
    RootPushedTwice(Tx(1, 1, 10, 10, false), Request(2, Some(1), 20, 20, 21000, 0), 10);
  }

  /** While anything is pending every nonce below the account's is accepted, into the queue, and never executable. */
  lemma BelowAccountIsQueued(pending: seq<Tx>, queued: seq<Tx>, accountNonce: nat, r: Request, priceBump: nat)
    requires NonceInv(Pools(multiset(pending), multiset(queued)), accountNonce)
    requires BelowAccount(pending, accountNonce, r)
    ensures var after := Pools(multiset(pending), multiset(queued) + multiset{r.WithNonce(r.nonce.value)});
            Accepts(pending, queued, accountNonce, r, priceBump, after) && !NonceInv(after, accountNonce)
  {
    NextNonce(pending, accountNonce);
    ScanFinds(pending, r, priceBump);
    ScanFinds(queued, r, priceBump);
    MissesQueued(pending, queued, accountNonce, r, priceBump);
    AddedToQueue(Pools(multiset(pending), multiset(queued)), accountNonce, r.WithNonce(r.nonce.value));
  }

  lemma MissesQueued(pending: seq<Tx>, queued: seq<Tx>, accountNonce: nat, r: Request, priceBump: nat)
    requires pending != [] && r.nonce.Some? && r.nonce.value != Highest(pending) + 1
    requires ScanFor(pending, r, priceBump).Miss? && ScanFor(queued, r, priceBump).Miss?
    ensures var after := Pools(multiset(pending), multiset(queued) + multiset{r.WithNonce(r.nonce.value)});
            Accepts(pending, queued, accountNonce, r, priceBump, after)
  {
    DecideNotNext(pending, accountNonce, r, priceBump);
  }

  lemma BelowAccountExample()
    ensures var first, r := Tx(1, 5, 10, 10, false), Request(2, Some(3), 10, 10, 21000, 0);
            Accepts([first], [], 5, r, 10, Pools(multiset{first}, multiset{r.WithNonce(3)}))
  {
    var first, r := Tx(1, 5, 10, 10, false), Request(2, Some(3), 10, 10, 21000, 0);
    AloneInOrder(first);
    BelowAccountIsQueued([first], [], 5, r, 10);
  }

  /** A nonce the pool fills in itself is in neither heap. */
  lemma AutomaticNonceIsNew(pending: seq<Tx>, queued: seq<Tx>, accountNonce: nat, r: Request, priceBump: nat)
    requires NonceInv(Pools(multiset(pending), multiset(queued)), accountNonce)
    requires r.nonce.None?
    ensures var d := Decide(pending, queued, accountNonce, r, priceBump);
            && d == Place(accountNonce + |pending|, Executable, None, None)
            && !HasNonce(multiset(pending), d.nonce) && !HasNonce(multiset(queued), d.nonce)
  {
    NextNonce(pending, accountNonce);
    AcceptedNext(pending, queued, accountNonce, r, priceBump, accountNonce + |pending|);
  }

  // ---------- The miner's side ----------

  /** Mining takes the lowest pending nonce and advances the account past it. */
  lemma MiningKeeps(p: Pools, accountNonce: nat, mined: Tx)
    requires NonceInv(p, accountNonce) && Lowest(p.pending, mined)
    ensures mined.nonce == accountNonce
    ensures NonceInv(Pools(p.pending - multiset{mined}, p.queued), accountNonce + 1)
  {
    var run :| Run(run, p.pending, accountNonce);
    RunFacts(run, p.pending, accountNonce);
    assert run[0] in p.pending;
    TailRun(run, p.pending, accountNonce, mined);
    assert |p.pending - multiset{mined}| == |p.pending| - 1;
  }

  /** Only one nonce can be the first of given pending transactions. */
  lemma ContiguousFromOne(pending: multiset<Tx>, from: nat, other: nat)
    requires pending != multiset{} && Contiguous(pending, from) && Contiguous(pending, other)
    ensures from == other
  {
    var run :| Run(run, pending, from);
    var again :| Run(again, pending, other);
    RunFacts(run, pending, from);
    RunFacts(again, pending, other);
    assert run[0] in pending && again[0] in pending;
  }

  lemma NothingPending(queued: multiset<Tx>, accountNonce: nat)
    ensures NonceInv(Pools(multiset{}, queued), accountNonce) <==> Waiting(queued, accountNonce)
  {
    assert Run([], multiset{}, accountNonce);
  }

  lemma AloneIff(pending: multiset<Tx>, tx: Tx)
    requires tx in pending
    ensures pending - multiset{tx} == multiset{} <==> pending == multiset{tx}
  {
    assert pending == (pending - multiset{tx}) + multiset{tx};
  }

  /**
   * A root the VM rejects leaves the heap and the account's nonce stays, so that whatever is
   * behind it can no longer execute: order is kept exactly when nothing is.
   */
  lemma RejectionKeepsIff(p: Pools, accountNonce: nat, rejected: Tx)
    requires NonceInv(p, accountNonce) && Lowest(p.pending, rejected)
    ensures NonceInv(Pools(p.pending - multiset{rejected}, p.queued), accountNonce) <==> p.pending == multiset{rejected}
  {
    MiningKeeps(p, accountNonce, rejected);
    AloneIff(p.pending, rejected);
    OneAboveIff(Pools(p.pending - multiset{rejected}, p.queued), accountNonce);
  }

  /** Pending from one above the account's nonce is in order only when nothing is pending. */
  lemma OneAboveIff(p: Pools, accountNonce: nat)
    requires NonceInv(p, accountNonce + 1)
    ensures NonceInv(p, accountNonce) <==> p.pending == multiset{}
  {
    if p.pending == multiset{} {
      NothingPending(p.queued, accountNonce);
      NothingPending(p.queued, accountNonce + 1);
    } else if Contiguous(p.pending, accountNonce) {
      ContiguousFromOne(p.pending, accountNonce, accountNonce + 1);
    }
  }

  /** The account's nonce may be set to what it is; or, if nothing is pending, below all that is queued. */
  predicate CanBecome(p: Pools, accountNonce: nat, nonce: nat) {
    nonce == accountNonce || (p.pending == multiset{} && forall tx <- p.queued :: tx.nonce > nonce)
  }

  /** Setting the account's nonce from outside keeps the order exactly then. */
  lemma SettingNonceKeepsIff(p: Pools, accountNonce: nat, nonce: nat)
    requires NonceInv(p, accountNonce)
    ensures NonceInv(p, nonce) <==> CanBecome(p, accountNonce, nonce)
  {
    if p.pending == multiset{} {
      NothingPending(p.queued, nonce);
    } else if Contiguous(p.pending, nonce) {
      ContiguousFromOne(p.pending, accountNonce, nonce);
    }
  }

  /** Locking a pending transaction for the miner changes no nonce. */
  lemma LockingKeeps(p: Pools, accountNonce: nat, tx: Tx, locked: bool)
    requires NonceInv(p, accountNonce) && tx in p.pending
    ensures NonceInv(Pools(p.pending - multiset{tx} + multiset{tx.(locked := locked)}, p.queued), accountNonce)
  {
    var run :| Run(run, p.pending, accountNonce);
    ReplaceKeepsRun(run, p.pending, accountNonce, tx, tx.(locked := locked));
    assert |p.pending - multiset{tx} + multiset{tx.(locked := locked)}| == |p.pending|;
  }
}
