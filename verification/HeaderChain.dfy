/** The headers of the chain, over every run of mining and reverting. */
module HeaderChain {
  import opened Bytes
  import opened Wrappers
  import B = BaseFee

  type Hash = seq<Byte>

  /** The base fee is missing before EIP-1559; `rest` is what nothing below depends on. */
  datatype Header = Header(
    parentHash: Hash,
    number: nat,
    difficulty: nat,
    totalDifficulty: nat,
    gasLimit: nat,
    gasUsed: nat,
    timestamp: nat,
    baseFeePerGas: Option<nat>,
    rest: seq<Byte>)
  {
    function Usage(): B.Usage { B.Usage(gasLimit, gasUsed) }
  }

  /** What mining brings to a block. */
  datatype Work = Work(difficulty: nat, gasLimit: nat, timestamp: nat, gasUsed: nat, rest: seq<Byte>)

  /** Nothing without a parent's base fee; otherwise it can fail with the source's division by zero. */
  function CalcNextBaseFee(parent: Header): Result<Option<nat>, ()> {
    if parent.baseFeePerGas.None? then Success(None)
    else
      match B.NextBaseFee(parent.baseFeePerGas.value, parent.Usage())
      case None => Failure(())
      case Some(fee) => Success(Some(fee))
  }

  /** The block being mined, before it has used any gas. */
  function ReadyNextBlock(parent: Header, parentHash: Hash, w: Work): Result<Header, ()> {
    match CalcNextBaseFee(parent)
    case Failure(e) => Failure(e)
    case Success(fee) =>
      Success(Header(parentHash, parent.number + 1, w.difficulty, parent.totalDifficulty + w.difficulty,
                     w.gasLimit, 0, w.timestamp, fee, []))
  }

  function Finalize(h: Header, gasUsed: nat, rest: seq<Byte>): Header {
    h.(gasUsed := gasUsed, rest := rest)
  }

  datatype Event = Mine(work: Work) | Revert(keep: nat)

  /** `hash` is Keccak-256 of the encoded header, left uninterpreted. A revert drops the blocks above one. */
  ghost predicate Step(hash: Header -> Hash, chain: seq<Header>, event: Event, next: seq<Header>) {
    chain != [] &&
    match event
    case Mine(w) =>
      var parent := chain[|chain| - 1];
      var ready := ReadyNextBlock(parent, hash(parent), w);
      ready.Success? && next == chain + [Finalize(ready.value, w.gasUsed, w.rest)]
    case Revert(keep) => 0 < keep <= |chain| && next == chain[..keep]
  }

  ghost predicate Runs(hash: Header -> Hash, chains: seq<seq<Header>>, events: seq<Event>) {
    && |chains| == |events| + 1
    && forall i :: 0 <= i < |events| ==> Step(hash, chains[i], events[i], chains[i + 1])
  }

  /** What a block owes its parent. */
  ghost predicate Follows(hash: Header -> Hash, parent: Header, h: Header) {
    && h.number == parent.number + 1
    && h.parentHash == hash(parent)
    && h.totalDifficulty == parent.totalDifficulty + h.difficulty
    && (h.baseFeePerGas.None? <==> parent.baseFeePerGas.None?)
    && (h.baseFeePerGas.Some? ==> B.NextBaseFee(parent.baseFeePerGas.value, parent.Usage()) == h.baseFeePerGas)
  }

  ghost predicate Linked(hash: Header -> Hash, chain: seq<Header>) {
    chain != [] && forall i :: 0 < i < |chain| ==> Follows(hash, chain[i - 1], chain[i])
  }

  lemma StepKeepsLinked(hash: Header -> Hash, chain: seq<Header>, event: Event, next: seq<Header>)
    requires Linked(hash, chain) && Step(hash, chain, event, next)
    ensures Linked(hash, next) && next[0] == chain[0]
  {
    match event
    case Mine(w) => assert Follows(hash, chain[|chain| - 1], next[|chain|]);
    case Revert(keep) =>
  }

  /** What mining puts on the chain, field by field; it fails only without a next base fee. */
  lemma MineIs(hash: Header -> Hash, chain: seq<Header>, w: Work, next: seq<Header>)
    requires chain != []
    ensures var parent := chain[|chain| - 1];
            Step(hash, chain, Mine(w), next)
            <==> if parent.baseFeePerGas.None? then next == chain + [MinedOn(hash, parent, w, None)]
                 else
                   var fee := B.NextBaseFee(parent.baseFeePerGas.value, B.Usage(parent.gasLimit, parent.gasUsed));
                   fee.Some? && next == chain + [MinedOn(hash, parent, w, fee)]
  {
  }

  /** The mined header: what it owes its parent, and the work. */
  function MinedOn(hash: Header -> Hash, parent: Header, w: Work, fee: Option<nat>): (h: Header)
    ensures h.gasLimit == w.gasLimit && h.gasUsed == w.gasUsed && h.timestamp == w.timestamp
    ensures h.difficulty == w.difficulty && h.rest == w.rest && h.baseFeePerGas == fee
  {
    Header(hash(parent), parent.number + 1, w.difficulty, parent.totalDifficulty + w.difficulty, w.gasLimit, w.gasUsed,
           w.timestamp, fee, w.rest)
  }

  lemma {:induction false} RunKeepsLinked(hash: Header -> Hash, chains: seq<seq<Header>>, events: seq<Event>, n: nat)
    requires Runs(hash, chains, events) && n <= |events| && Linked(hash, chains[0])
    ensures Linked(hash, chains[n]) && chains[n][0] == chains[0][0]
  {
    if n > 0 {
      RunKeepsLinked(hash, chains, events, n - 1);
      assert Step(hash, chains[n - 1], events[n - 1], chains[n - 1 + 1]);
      StepKeepsLinked(hash, chains[n - 1], events[n - 1], chains[n]);
    }
  }

  function SumOfDifficulties(chain: seq<Header>): nat {
    if chain == [] then 0
    else SumOfDifficulties(chain[..|chain| - 1]) + chain[|chain| - 1].difficulty
  }

  lemma LinkedPrefix(hash: Header -> Hash, chain: seq<Header>, n: nat)
    requires Linked(hash, chain) && 0 < n <= |chain|
    ensures Linked(hash, chain[..n])
  {
    forall i | 0 < i < n
      ensures Follows(hash, chain[..n][i - 1], chain[..n][i])
    {
      assert Follows(hash, chain[i - 1], chain[i]);
    }
  }

  /** What linking adds up to, block by block. */
  lemma {:induction false} LinkedAddsUp(hash: Header -> Hash, chain: seq<Header>)
    requires Linked(hash, chain)
    ensures var first, last := chain[0], chain[|chain| - 1];
            && last.number == first.number + |chain| - 1
            && last.totalDifficulty == first.totalDifficulty + SumOfDifficulties(chain[1..])
            && (last.baseFeePerGas.Some? <==> first.baseFeePerGas.Some?)
            && (first.baseFeePerGas.Some? ==> last.baseFeePerGas.value >= B.Min(7, first.baseFeePerGas.value))
    decreases |chain|
  {
    if |chain| == 1 {
      assert chain[1..] == [];
    } else {
      var front, parent, last := chain[..|chain| - 1], chain[|chain| - 2], chain[|chain| - 1];
      LinkedPrefix(hash, chain, |chain| - 1);
      LinkedAddsUp(hash, front);
      assert Follows(hash, chain[|chain| - 1 - 1], chain[|chain| - 1]);
      assert chain[1..][..|chain| - 2] == front[1..];
      if last.baseFeePerGas.Some? { B.FloorKept(parent.baseFeePerGas.value, parent.Usage()); }
    }
  }

  lemma FollowsMoves(hash: Header -> Hash, parent: Header, h: Header)
    requires Follows(hash, parent, h)
    ensures h.baseFeePerGas.Some? ==>
              && parent.baseFeePerGas.Some?
              && B.Moves(parent.baseFeePerGas.value, parent.Usage(), h.baseFeePerGas.value)
  {
    if h.baseFeePerGas.Some? {
      B.NextBaseFeeIff(parent.baseFeePerGas.value, parent.Usage(), h.baseFeePerGas.value);
    }
  }

  /**
   * In every chain reached from a genesis block by mining and reverting: numbers are
   * consecutive, parent hashes link, total difficulty is the running sum, base fees follow
   * the recurrence, and none is below the smaller of 7 and the genesis block's.
   */
  lemma ReachableChain(
      hash: Header -> Hash, genesis: Header, chains: seq<seq<Header>>, events: seq<Event>, n: nat, i: nat)
    requires Runs(hash, chains, events) && chains[0] == [genesis]
    requires n <= |events| && i < |chains[n]|
    ensures chains[n][0] == genesis && (i > 0 ==> Follows(hash, chains[n][i - 1], chains[n][i]))
    ensures chains[n][i].number == genesis.number + i
    ensures chains[n][i].totalDifficulty == genesis.totalDifficulty + SumOfDifficulties(chains[n][1..i + 1])
    ensures genesis.baseFeePerGas.Some? ==>
              && chains[n][i].baseFeePerGas.Some?
              && chains[n][i].baseFeePerGas.value >= B.Min(7, genesis.baseFeePerGas.value)
    ensures i > 0 && genesis.baseFeePerGas.Some? ==>
              && chains[n][i - 1].baseFeePerGas.Some?
              && var parent := chains[n][i - 1];
                 B.Moves(parent.baseFeePerGas.value, B.Usage(parent.gasLimit, parent.gasUsed),
                         chains[n][i].baseFeePerGas.value)
  {
    RunKeepsLinked(hash, chains, events, n);
    LinkedPrefix(hash, chains[n], i + 1);
    LinkedAddsUp(hash, chains[n][..i + 1]);
    assert chains[n][..i + 1][1..] == chains[n][1..i + 1];
    if i > 0 { FollowsMoves(hash, chains[n][i - 1], chains[n][i]); }
  }
}
