/**
 * `Blockchain` as the source writes it: the indexes, the snapshot stack and the hash
 * list are fields updated step by step. Each method does to the fields what the
 * functions of `Snapshots` say.
 */
module Blockchain {
  import opened Bytes
  import opened Wrappers
  import opened S = Snapshots

  class Blockchain {
    const clock: bool
    var latest: Block
    var latestIndex: Option<nat>
    var base: map<Key, Block>
    var hashIndex: map<Hash, nat>
    var transactions: map<Hash, seq<Byte>>
    var transactionReceipts: map<Hash, seq<Byte>>
    var blockLogs: map<nat, seq<Byte>>
    var stateRoot: Hash
    var timeAdjustment: int
    var snaps: seq<Snapshot>
    var blocks: HashList
    var listening: bool
    /** Every block saved so far, on the chain or cut off, under its hash. */
    ghost var ever: map<Hash, Block>

    ghost function State(): Chain
      reads this`latest, this`latestIndex, this`base, this`hashIndex, this`transactions, this`transactionReceipts,
            this`blockLogs, this`stateRoot, this`timeAdjustment, this`snaps, this`blocks, this`listening
    {
      Chain(
        Image(latest, base, transactions, transactionReceipts, blockLogs, stateRoot, timeAdjustment),
        latestIndex, hashIndex, snaps, blocks, listening)
    }

    ghost predicate Valid()
      reads this
    {
      Kept(State(), ever).Some?
    }

    constructor (genesis: Block, clock: bool, adjustment: int)
      requires genesis.number == 0 && genesis.txs == []
      ensures Valid() && this.clock == clock
      ensures State() == Genesis(genesis, adjustment)
    {
      this.clock := clock;
      latest := genesis;
      latestIndex := None;
      base := map[ByNumber(0) := genesis];
      hashIndex := map[genesis.hash := 0];
      transactions, transactionReceipts, blockLogs := map[], map[], map[];
      stateRoot := genesis.stateRoot;
      timeAdjustment := adjustment;
      snaps, blocks, listening := [], Nil, false;
      ever := map[genesis.hash := genesis];
      new;
      GenesisInv(genesis, adjustment);
    }

    /** Saves a block and tells the listener, if there is one. */
    method SaveNewBlock(block: Block)
      requires Valid() && Minable(State(), ever, block)
      modifies this
      ensures Valid() && ever == old(ever)[block.hash := block]
      ensures State() == SaveBlock(old(State()), block)
    {
      SaveKept(State(), ever, block);
      PutBlock(block);
      ever := ever[block.hash := block];
    }

    method PutBlock(block: Block)
      modifies this`latest, this`stateRoot, this`transactions, this`transactionReceipts, this`blockLogs,
               this`hashIndex, this`base, this`latestIndex, this`blocks
      ensures State() == SaveBlock(old(State()), block)
    {
      latest := block;
      stateRoot := block.stateRoot;
      PutTransactions(block.txs);
      PutIndexes(block);
      if listening {
        blocks := Node(block.hash, blocks);
      }
    }

    method PutIndexes(block: Block)
      modifies this`blockLogs, this`hashIndex, this`base, this`latestIndex
      ensures blockLogs == old(blockLogs)[block.number := block.logs]
      ensures hashIndex == old(hashIndex)[block.hash := block.number]
      ensures base == old(base)[ByNumber(block.number) := block]
      ensures latestIndex == Some(block.number)
    {
      blockLogs := blockLogs[block.number := block.logs];
      hashIndex := hashIndex[block.hash := block.number];
      base := base[ByNumber(block.number) := block];
      latestIndex := Some(block.number);
    }

    method PutTransactions(txs: seq<TxRecord>)
      modifies this`transactions, this`transactionReceipts
      ensures transactions == old(transactions) + Serialized(txs)
      ensures transactionReceipts == old(transactionReceipts) + Receipts(txs)
    {
      for i := 0 to |txs|
        invariant transactions == old(transactions) + Serialized(txs[..i])
        invariant transactionReceipts == old(transactionReceipts) + Receipts(txs[..i])
      {
        StoreStep(txs, i);
        PlusUpdate(old(transactions), Serialized(txs[..i]), txs[i].hash, txs[i].serialized);
        PlusUpdate(old(transactionReceipts), Receipts(txs[..i]), txs[i].hash, txs[i].receipt);
        transactions := transactions[txs[i].hash := txs[i].serialized];
        transactionReceipts := transactionReceipts[txs[i].hash := txs[i].receipt];
      }
      assert txs[..|txs|] == txs;
    }

    method IncreaseTime(milliseconds: int) returns (total: int)
      requires Valid()
      modifies this`timeAdjustment
      ensures Valid()
      ensures total == timeAdjustment == old(timeAdjustment) + (if milliseconds > 0 then milliseconds else 0)
      ensures Some(State()) == Step(old(State()), clock, S.IncreaseTime(milliseconds))
    {
      ghost var before := State();
      var ms := if milliseconds < 0 then 0 else milliseconds;
      timeAdjustment := timeAdjustment + ms;
      total := timeAdjustment;
      AdjustKept(before, ever, timeAdjustment);
    }

    /** `Date.now()` is passed in as `now`. */
    method SetTimeDiff(newTime: int, now: int) returns (total: int)
      requires Valid()
      modifies this`timeAdjustment
      ensures Valid()
      ensures total == timeAdjustment
      // read back on the clock the chain uses, the time is now `newTime`
      ensures timeAdjustment + (if clock then now else latest.timestamp * 1000) == newTime
      ensures Some(State()) == Step(old(State()), clock, S.SetTimeDiff(newTime, now))
    {
      ghost var before := State();
      var currentTime := if clock then now else latest.timestamp * 1000;
      timeAdjustment := newTime - currentTime;
      total := timeAdjustment;
      AdjustKept(before, ever, timeAdjustment);
    }

    /** The end of `mine`, once the block has been saved. */
    method EndMine(timestamp: Option<nat>, now: int)
      requires Valid()
      modifies this`timeAdjustment
      ensures Valid()
      ensures Some(State()) == Step(old(State()), clock, S.EndMine(timestamp, now))
      // an adjustment applies to one block, except on the clock, where a given timestamp is the time in seconds
      ensures !clock ==> timeAdjustment == 0
      ensures clock && timestamp.Some? ==> timeAdjustment + now == timestamp.value * 1000
      ensures clock && timestamp.None? ==> timeAdjustment == old(timeAdjustment)
    {
      if !clock {
        timeAdjustment := 0;
      } else if timestamp.Some? {
        var _ := SetTimeDiff(timestamp.value * 1000, now);
      }
    }

    method Snapshot() returns (id: nat)
      requires Valid()
      modifies this
      ensures Valid() && ever == old(ever)
      ensures State() == TakeSnapshot(old(State()))
      ensures id == |old(snaps)| + 1
    {
      SnapKept(State(), ever);
      snaps := snaps + [S.Snapshot(latest, timeAdjustment)];
      id := |snaps|;
      if id == 1 {
        listening := true;
      }
    }

    method DeleteTransactions(txs: seq<TxRecord>)
      modifies this`transactions, this`transactionReceipts
      ensures transactions == old(transactions) - TxHashes(txs)
      ensures transactionReceipts == old(transactionReceipts) - TxHashes(txs)
    {
      for j := 0 to |txs|
        invariant transactions == old(transactions) - TxHashes(txs[..j])
        invariant transactionReceipts == old(transactionReceipts) - TxHashes(txs[..j])
      {
        var txHash := txs[j].hash;
        assert TxHashes(txs[..j + 1]) == TxHashes(txs[..j]) + {txHash} by {
          assert txs[..j + 1] == txs[..j] + [txs[j]];
        }
        transactions := transactions - {txHash};
        transactionReceipts := transactionReceipts - {txHash};
      }
      assert txs[..|txs|] == txs;
    }

    method DeleteBlockData(blocksToDelete: seq<Block>, newLatestBlockNumber: nat)
      modifies this`latestIndex, this`base, this`transactions, this`transactionReceipts, this`blockLogs
      ensures latestIndex == Some(newLatestBlockNumber)
      ensures base == old(base) - KeysOf(blocksToDelete)
      ensures transactions == old(transactions) - TxHashesOf(blocksToDelete)
      ensures transactionReceipts == old(transactionReceipts) - TxHashesOf(blocksToDelete)
      ensures blockLogs == old(blockLogs) - NumbersOf(blocksToDelete)
    {
      latestIndex := Some(newLatestBlockNumber);
      for k := 0 to |blocksToDelete|
        invariant latestIndex == Some(newLatestBlockNumber)
        invariant base == old(base) - KeysOf(blocksToDelete[..k])
        invariant transactions == old(transactions) - TxHashesOf(blocksToDelete[..k])
        invariant transactionReceipts == old(transactionReceipts) - TxHashesOf(blocksToDelete[..k])
        invariant blockLogs == old(blockLogs) - NumbersOf(blocksToDelete[..k])
      {
        var block := blocksToDelete[k];
        DeleteTransactions(block.txs);
        DeletedSets(blocksToDelete, k);
        MinusTwice(old(transactions), TxHashesOf(blocksToDelete[..k]), TxHashes(block.txs));
        MinusTwice(old(transactionReceipts), TxHashesOf(blocksToDelete[..k]), TxHashes(block.txs));
        MinusTwice(old(base), KeysOf(blocksToDelete[..k]), {ByNumber(block.number), ByHash(block.hash)});
        MinusTwice(old(blockLogs), NumbersOf(blocksToDelete[..k]), {block.number});
        MinusTwice(base, {ByNumber(block.number)}, {ByHash(block.hash)});
        assert {ByNumber(block.number)} + {ByHash(block.hash)} == {ByNumber(block.number), ByHash(block.hash)};
        base := base - {ByNumber(block.number)};
        base := base - {ByHash(block.hash)};
        blockLogs := blockLogs - {block.number};
      }
      assert blocksToDelete[..|blocksToDelete|] == blocksToDelete;
    }

    method Revert(snapshotId: Option<int>) returns (r: Result<bool, string>)
      requires Valid()
      modifies this
      ensures Valid() && ever == old(ever)
      ensures snapshotId.None? ==> r.Failure?
      ensures snapshotId.Some? ==> r == Success(ValidId(old(State()), snapshotId))
      ensures !ValidId(old(State()), snapshotId) ==> State() == old(State())
      ensures ValidId(old(State()), snapshotId) ==> Some(State()) == RevertTo(old(State()), snapshotId.value - 1)
    {
      if snapshotId.None? {
        return Failure("invalid snapshotId");
      }
      var snapshotIndex := snapshotId.value - 1;
      if snapshotIndex < 0 || |snaps| <= snapshotIndex {
        return Success(false);
      }
      RevertKept(State(), ever, snapshotIndex);
      RevertToIndex(snapshotIndex);
      r := Success(true);
    }

    /** The part of `revert` that runs once everything is paused. */
    method RevertToIndex(snapshotIndex: nat)
      requires snapshotIndex < |snaps| && RevertTo(State(), snapshotIndex).Some?
      modifies this
      ensures Some(State()) == RevertTo(old(State()), snapshotIndex) && ever == old(ever)
    {
      var snapshot := snaps[snapshotIndex];
      snaps := snaps[..snapshotIndex];
      if |snaps| == 0 {
        listening := false;
      }
      if latest.hash != snapshot.block.hash {
        RemoveBlocksAbove(snapshot.block);
      }
      timeAdjustment := snapshot.timeAdjustment;
    }

    /** Deletes the blocks saved after `snapshotBlock` and makes it the latest again. */
    method RemoveBlocksAbove(snapshotBlock: Block)
      requires Found(hashIndex, base, Above(blocks, snapshotBlock.hash)).Some?
      modifies this`latest, this`stateRoot, this`transactions, this`transactionReceipts, this`blockLogs,
               this`base, this`latestIndex, this`blocks
      ensures var before := old(State());
              var cut := Found(before.hashIndex, before.image.base, Above(before.list, snapshotBlock.hash)).value;
              State() == before.(
                image := DeleteBlocks(before.image, cut).(
                  latest := snapshotBlock, stateRoot := snapshotBlock.stateRoot),
                latestIndex := Some(snapshotBlock.number),
                list := From(before.list, snapshotBlock.hash))
    {
      var blockPromises := WalkBlocks(snapshotBlock.hash);
      DeleteBlockData(blockPromises, snapshotBlock.number);
      stateRoot := snapshotBlock.stateRoot;
      latest := snapshotBlock;
    }

    /** The loop of `revert` over the hash list, which is cut where the snapshot's hash is. */
    method WalkBlocks(snapshotHash: Hash) returns (found: seq<Block>)
      requires Found(hashIndex, base, Above(blocks, snapshotHash)).Some?
      modifies this`blocks
      ensures Some(found) == Found(hashIndex, base, Above(old(blocks), snapshotHash))
      ensures blocks == From(old(blocks), snapshotHash)
    {
      found := [];
      var blockList := blocks;
      while blockList != Nil
        invariant Found(hashIndex, base, Above(blockList, snapshotHash)).Some?
        invariant Found(hashIndex, base, Above(blocks, snapshotHash)).value
                  == found + Found(hashIndex, base, Above(blockList, snapshotHash)).value
        invariant From(blockList, snapshotHash) == From(blocks, snapshotHash)
        decreases blockList
      {
        if blockList.current == snapshotHash { break; }
        assert [blockList.current] + Above(blockList.next, snapshotHash) == Above(blockList, snapshotHash);
        assert Above(blockList, snapshotHash)[1..] == Above(blockList.next, snapshotHash);
        var number := hashIndex[blockList.current];
        found := found + [base[ByNumber(number)]];
        blockList := blockList.next;
      }
      assert Above(blockList, snapshotHash) == [];
      assert found + [] == found;
      blocks := blockList;
    }
  }

  lemma StoreStep(txs: seq<TxRecord>, i: nat)
    requires i < |txs|
    ensures Serialized(txs[..i + 1]) == Serialized(txs[..i])[txs[i].hash := txs[i].serialized]
    ensures Receipts(txs[..i + 1]) == Receipts(txs[..i])[txs[i].hash := txs[i].receipt]
  {
    assert txs[..i + 1][..i] == txs[..i];
  }

  lemma PlusUpdate<K, V>(m: map<K, V>, n: map<K, V>, k: K, v: V)
    ensures (m + n)[k := v] == m + n[k := v]
  {
  }

  lemma MinusTwice<K, V>(m: map<K, V>, a: set<K>, b: set<K>)
    ensures m - a - b == m - (a + b)
  {
  }

  lemma DeletedSets(all: seq<Block>, k: nat)
    requires k < |all|
    ensures KeysOf(all[..k + 1]) == KeysOf(all[..k]) + {ByNumber(all[k].number), ByHash(all[k].hash)}
    ensures TxHashesOf(all[..k + 1]) == TxHashesOf(all[..k]) + TxHashes(all[k].txs)
    ensures NumbersOf(all[..k + 1]) == NumbersOf(all[..k]) + {all[k].number}
  {
    assert all[..k + 1] == all[..k] + [all[k]];
  }
}
