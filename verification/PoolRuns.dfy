/**
 * Runs of the transaction pool for one sender: submissions, refusals, the miner locking
 * transactions and taking them, mined or rejected, `clear`, and the account's nonce being set,
 * in any order.
 */
module PoolRuns {
  import opened Wrappers
  import opened Nonces
  import opened RunInvariants

  datatype State = State(pools: Pools, accountNonce: nat)

  /** A submission comes with the raw arrays of the two heaps, which it scans. */
  datatype Event =
    | Submit(pending: seq<Tx>, queued: seq<Tx>, r: Request, priceBump: nat)
    | Refuse
    | Lock(tx: Tx, locked: bool)
    | Mine(tx: Tx)
    | Drop(tx: Tx)
    | Clear
    | SetNonce(nonce: nat)

  ghost predicate Step(s: State, event: Event, t: State) {
    match event
    case Submit(pending, queued, r, priceBump) =>
      && s.pools == Pools(multiset(pending), multiset(queued))
      && Accepts(pending, queued, s.accountNonce, r, priceBump, t.pools)
      && t.accountNonce == s.accountNonce
    case Refuse => t == s
    case Lock(tx, locked) =>
      && tx in s.pools.pending
      && t == s.(pools := Pools(s.pools.pending - multiset{tx} + multiset{tx.(locked := locked)}, s.pools.queued))
    case Mine(tx) =>
      && Lowest(s.pools.pending, tx) && tx.nonce == s.accountNonce
      && t == State(Pools(s.pools.pending - multiset{tx}, s.pools.queued), s.accountNonce + 1)
    case Drop(tx) =>
      && Lowest(s.pools.pending, tx)
      && t == s.(pools := Pools(s.pools.pending - multiset{tx}, s.pools.queued))
    case Clear => t == State(Pools(multiset{}, multiset{}), s.accountNonce)
    case SetNonce(nonce) => t == s.(accountNonce := nonce)
  }

  ghost predicate InOrder(s: State) {
    NonceInv(s.pools, s.accountNonce)
  }

  /**
   * Neither of the two faulty kinds of submission, no rejection in front of other pending
   * transactions, and no nonce set where something waits for another.
   */
  predicate Clean(s: State, event: Event) {
    match event
    case Submit(pending, _, r, priceBump) =>
      !PushedTwice(pending, r, priceBump) && !BelowAccount(pending, s.accountNonce, r)
    case Drop(tx) => s.pools.pending == multiset{tx}
    case SetNonce(nonce) => CanBecome(s.pools, s.accountNonce, nonce)
    case _ => true
  }

  lemma LockStepKeeps(s: State, tx: Tx, locked: bool, t: State)
    requires InOrder(s) && Step(s, Lock(tx, locked), t)
    ensures InOrder(t)
  {
    LockingKeeps(s.pools, s.accountNonce, tx, locked);
  }

  lemma MineStepKeeps(s: State, tx: Tx, t: State)
    requires InOrder(s) && Step(s, Mine(tx), t)
    ensures InOrder(t)
  {
    MiningKeeps(s.pools, s.accountNonce, tx);
  }

  /** In order, whatever is pending can be mined next, and the account's nonce moves past it. */
  lemma RootCanBeMined(s: State) returns (tx: Tx)
    requires InOrder(s) && s.pools.pending != multiset{}
    ensures Step(s, Mine(tx), State(Pools(s.pools.pending - multiset{tx}, s.pools.queued), tx.nonce + 1))
  {
    var run :| Run(run, s.pools.pending, s.accountNonce);
    RunFacts(run, s.pools.pending, s.accountNonce);
    tx := run[0];
  }

  lemma DropStepKeepsIff(s: State, tx: Tx, t: State)
    requires InOrder(s) && Step(s, Drop(tx), t)
    ensures InOrder(t) <==> Clean(s, Drop(tx))
  {
    RejectionKeepsIff(s.pools, s.accountNonce, tx);
  }

  lemma ClearedInOrder(s: State)
    requires s.pools == Pools(multiset{}, multiset{})
    ensures InOrder(s)
  {
    assert Run([], multiset{}, s.accountNonce);
  }

  lemma SubmitStepKeepsIff(s: State, event: Event, t: State)
    requires InOrder(s) && event.Submit? && Step(s, event, t)
    ensures InOrder(t) <==> Clean(s, event)
  {
    SubmissionKeepsIff(event.pending, event.queued, s.accountNonce, event.r, event.priceBump, t.pools);
  }

  lemma StepKeepsIff(s: State, event: Event, t: State)
    requires InOrder(s) && Step(s, event, t)
    ensures InOrder(t) <==> Clean(s, event)
  {
    match event
    case Submit(_, _, _, _) => SubmitStepKeepsIff(s, event, t);
    case Refuse =>
    case Lock(tx, locked) => LockStepKeeps(s, tx, locked, t);
    case Mine(tx) => MineStepKeeps(s, tx, t);
    case Drop(tx) => DropStepKeepsIff(s, tx, t);
    case Clear => ClearedInOrder(t);
    case SetNonce(nonce) => SettingNonceKeepsIff(s.pools, s.accountNonce, nonce);
  }

  /** Two pending transactions, of which the first is rejected: the other is one above the account's nonce. */
  lemma RejectionExample()
    ensures var first, second := Tx(1, 5, 10, 10, true), Tx(2, 6, 10, 10, false);
            var s := State(Pools(multiset{first, second}, multiset{}), 5);
            var t := State(Pools(multiset{second}, multiset{}), 5);
            InOrder(s) && Step(s, Drop(first), t) && !InOrder(t)
  {
    var first, second := Tx(1, 5, 10, 10, true), Tx(2, 6, 10, 10, false);
    var s := State(Pools(multiset{first, second}, multiset{}), 5);
    var t := State(Pools(multiset{second}, multiset{}), 5);
    assert Run([first, second], multiset{first, second}, 5);
    assert multiset{first, second} - multiset{first} == multiset{second};
    assert second in s.pools.pending && second !in multiset{first};
    DropStepKeepsIff(s, first, t);
  }

  /** What may take a locked transaction out of the pending ones: the miner, and `clear`. */
  predicate Takes(event: Event, tx: Tx) {
    event.Clear? || ((event.Lock? || event.Mine? || event.Drop?) && event.tx == tx)
  }

  lemma LockedStepStays(s: State, event: Event, t: State, tx: Tx)
    requires Step(s, event, t) && tx.locked && !Takes(event, tx)
    ensures t.pools.pending[tx] >= s.pools.pending[tx]
  {
    if event.Submit? {
      LockedStaysPending(event.pending, event.queued, s.accountNonce, event.r, event.priceBump, t.pools, tx);
    }
  }

  ghost predicate Runs(states: seq<State>, events: seq<Event>) {
    && |states| == |events| + 1
    && forall i :: 0 <= i < |events| ==> Step(states[i], events[i], states[i + 1])
  }

  lemma StepAt(states: seq<State>, events: seq<Event>, i: nat)
    requires Runs(states, events) && i < |events| && InOrder(states[i])
    ensures InOrder(states[i + 1]) <==> Clean(states[i], events[i])
  {
    StepKeepsIff(states[i], events[i], states[i + 1]);
  }

  /** Over every run that starts in order: all states are in order if and only if all events are clean. */
  lemma OrderKeptIff(states: seq<State>, events: seq<Event>)
    requires Runs(states, events) && InOrder(states[0])
    ensures (forall i :: 0 <= i < |states| ==> InOrder(states[i]))
            <==> (forall i :: 0 <= i < |events| ==> Clean(states[i], events[i]))
  {
    var kept := seq(|states|, i requires 0 <= i < |states| => InOrder(states[i]));
    var clean := seq(|events|, i requires 0 <= i < |events| => Clean(states[i], events[i]));
    forall i | 0 <= i < |clean| && kept[i]
      ensures kept[i + 1] == clean[i]
    {
      StepAt(states, events, i);
    }
    AllKeptIff(kept, clean, |events|);
    assert AllTrue(kept, |states|) <==> forall i :: 0 <= i < |states| ==> InOrder(states[i]) by {
      assert forall i :: 0 <= i < |states| ==> kept[i] == InOrder(states[i]);
    }
    assert AllTrue(clean, |events|) <==> forall i :: 0 <= i < |events| ==> Clean(states[i], events[i]) by {
      assert forall i :: 0 <= i < |events| ==> clean[i] == Clean(states[i], events[i]);
    }
  }

  /** Over any stretch of any run, a locked transaction stays pending while nothing takes it. */
  lemma {:induction false} LockedStays(states: seq<State>, events: seq<Event>, i: nat, j: nat, tx: Tx)
    requires Runs(states, events) && i <= j <= |events| && tx.locked
    requires forall k :: i <= k < j ==> !Takes(events[k], tx)
    ensures states[j].pools.pending[tx] >= states[i].pools.pending[tx]
    decreases j
  {
    if i < j {
      LockedStays(states, events, i, j - 1, tx);
      assert Step(states[j - 1], events[j - 1], states[j - 1 + 1]);
      LockedStepStays(states[j - 1], events[j - 1], states[j], tx);
    }
  }

  /** `rs` replace `first` one after another. */
  predicate Replacements(first: Tx, rs: seq<Request>, priceBump: nat)
    decreases |rs|
  {
    rs != [] ==>
      && ShouldReplace(first, rs[0].nonce, rs[0], priceBump) == Replaces
      && Replacements(rs[0].WithNonce(first.nonce), rs[1..], priceBump)
  }

  /** Neither fee ever falls, and one the bump is worth a unit of rises at every replacement. */
  lemma {:induction false} ReplacementsPay(first: Tx, rs: seq<Request>, priceBump: nat)
    requires Replacements(first, rs, priceBump) && rs != []
    ensures var last := rs[|rs| - 1];
            && last.nonce == Some(first.nonce) && last.tip >= first.tip && last.maxFee >= first.maxFee
            && (first.tip * priceBump >= 100 ==> last.tip >= first.tip + |rs|)
            && (first.maxFee * priceBump >= 100 ==> last.maxFee >= first.maxFee + |rs|)
    decreases |rs|
  {
    ReplacementPays(first, rs[0].nonce, rs[0], priceBump);
    if |rs| > 1 {
      GrowsWith(first.tip, rs[0].tip, priceBump);
      GrowsWith(first.maxFee, rs[0].maxFee, priceBump);
      ReplacementsPay(rs[0].WithNonce(first.nonce), rs[1..], priceBump);
    }
  }

  lemma GrowsWith(fee: nat, higher: nat, priceBump: nat)
    requires fee <= higher
    ensures fee * priceBump <= higher * priceBump
  {
  }
}
