/** What the indexes hold in every reachable state: exactly what the blocks on the chain brought. */
module ChainIndexes {
  import opened Bytes
  import opened Snapshots
  import opened SnapshotRuns

  /** The transactions of blocks 1 to `n`. */
  function TxsUpTo(base: map<Key, Block>, n: nat): map<Hash, seq<Byte>> {
    if n == 0 || ByNumber(n) !in base then map[] else TxsUpTo(base, n - 1) + Serialized(base[ByNumber(n)].txs)
  }

  function ReceiptsUpTo(base: map<Key, Block>, n: nat): map<Hash, seq<Byte>> {
    if n == 0 || ByNumber(n) !in base then map[] else ReceiptsUpTo(base, n - 1) + Receipts(base[ByNumber(n)].txs)
  }

  ghost predicate LogsOfChain(i: Image) {
    forall n: nat :: 1 <= n <= i.latest.number && ByNumber(n) in i.base && n in i.logs ==>
      i.logs[n] == i.base[ByNumber(n)].logs
  }

  /** Transactions, receipts and logs are those of the blocks on the chain. */
  ghost predicate Indexed(i: Image) {
    && i.transactions == TxsUpTo(i.base, i.latest.number)
    && i.receipts == ReceiptsUpTo(i.base, i.latest.number)
    && LogsOfChain(i)
  }

  lemma {:induction false} HigherBlockIsApart(base: map<Key, Block>, b: Block, n: nat)
    requires n < b.number
    ensures TxsUpTo(base[ByNumber(b.number) := b], n) == TxsUpTo(base, n)
    ensures ReceiptsUpTo(base[ByNumber(b.number) := b], n) == ReceiptsUpTo(base, n)
  {
    if n > 0 { HigherBlockIsApart(base, b, n - 1); }
  }

  lemma NextBlockAdds(base: map<Key, Block>, b: Block)
    requires b.number > 0
    ensures var next := base[ByNumber(b.number) := b];
            && TxsUpTo(next, b.number) == TxsUpTo(base, b.number - 1) + Serialized(b.txs)
            && ReceiptsUpTo(next, b.number) == ReceiptsUpTo(base, b.number - 1) + Receipts(b.txs)
  {
    HigherBlockIsApart(base, b, b.number - 1);
  }

  lemma SaveKeepsLogs(i: Image, b: Block)
    requires LogsOfChain(i) && b.number == i.latest.number + 1
    ensures LogsOfChain(SaveImage(i, b))
  {
  }

  lemma SaveIndexed(i: Image, b: Block)
    requires Indexed(i) && b.number == i.latest.number + 1
    ensures Indexed(SaveImage(i, b))
  {
    SaveKeepsTxs(i, b);
    SaveKeepsReceipts(i, b);
    SaveKeepsLogs(i, b);
  }

  lemma SaveKeepsTxs(i: Image, b: Block)
    requires i.transactions == TxsUpTo(i.base, i.latest.number) && b.number == i.latest.number + 1
    ensures SaveImage(i, b).transactions == TxsUpTo(SaveImage(i, b).base, b.number)
  {
    NextBlockAdds(i.base, b);
  }

  lemma SaveKeepsReceipts(i: Image, b: Block)
    requires i.receipts == ReceiptsUpTo(i.base, i.latest.number) && b.number == i.latest.number + 1
    ensures SaveImage(i, b).receipts == ReceiptsUpTo(SaveImage(i, b).base, b.number)
  {
    NextBlockAdds(i.base, b);
  }

  ghost predicate AllIndexed(r: Copying) {
    Indexed(r.image) && forall k :: 0 <= k < |r.copies| ==> Indexed(r.copies[k])
  }

  lemma StepIndexed(c: Chain, ever: map<Hash, Block>, r: Copying, clock: bool, op: Op)
    requires ChainStored(c.image) && Allowed(c, ever, op) && Matches(c, r) && AllIndexed(r)
    ensures AllIndexed(CopyStep(r, clock, op))
  {
    match op
    case Save(b) => SaveIndexed(r.image, b);
    case Snap =>
    case Revert(_) =>
    case _ =>
  }

  lemma {:induction false} RunIndexed(
      c: Chain, ever: map<Hash, Block>, r: Copying, clock: bool, ops: seq<Op>, end: Chain)
    requires Inv(c, ever) && Matches(c, r) && Runs(c, ever, clock, ops, end) && AllIndexed(r)
    ensures AllIndexed(CopyRun(r, clock, ops))
    decreases |ops|
  {
    if ops != [] {
      StepIndexed(c, ever, r, clock, ops[0]);
      StepMatches(c, ever, r, clock, ops[0]);
      StepKeepsInv(c, ever, clock, ops[0]);
      RunIndexed(Step(c, clock, ops[0]).value, Ever(ever, ops[0]), CopyStep(r, clock, ops[0]), clock, ops[1..], end);
    }
  }

  /** In every state reached from genesis the indexes are those of the chain. */
  lemma ReachableIndexed(genesis: Block, adjustment: int, clock: bool, ops: seq<Op>, end: Chain)
    requires genesis.number == 0 && genesis.txs == []
    requires Runs(Genesis(genesis, adjustment), map[genesis.hash := genesis], clock, ops, end)
    ensures Indexed(end.image)
  {
    var c, ever := Genesis(genesis, adjustment), map[genesis.hash := genesis];
    var r := Copying(c.image, []);
    GenesisInv(genesis, adjustment);
    RunIndexed(c, ever, r, clock, ops, end);
    RunRefinesCopying(c, ever, r, clock, ops, end);
  }
}
