/**
 * Snapshot and revert of the in-process chain: the block, transaction, receipt and log
 * indexes, the linked list of block hashes recorded while snapshots are live, and the
 * stack of snapshots. "Save a block, then tell the listeners" is one atomic step.
 */
module Snapshots {
  import opened Bytes
  import opened Wrappers

  type Hash = seq<Byte>

  datatype TxRecord = TxRecord(hash: Hash, serialized: seq<Byte>, receipt: seq<Byte>)

  /** A mined block: the header fields the indexes use, and what is stored beside it. */
  datatype Block = Block(number: nat, hash: Hash, stateRoot: Hash, timestamp: nat, txs: seq<TxRecord>, logs: seq<Byte>)

  datatype Snapshot = Snapshot(block: Block, timeAdjustment: int)

  /** The singly linked list of block hashes, newest first. */
  datatype HashList = Nil | Node(current: Hash, next: HashList)

  /** Keys of the block database; blocks are only ever stored under their number. */
  datatype Key = ByNumber(number: nat) | ByHash(hash: Hash)

  /** Everything a revert is meant to put back. */
  datatype Image = Image(
    latest: Block,
    base: map<Key, Block>,
    transactions: map<Hash, seq<Byte>>,
    receipts: map<Hash, seq<Byte>>,
    logs: map<nat, seq<Byte>>,
    stateRoot: Hash,
    timeAdjustment: int)

  datatype Chain = Chain(
    image: Image,
    latestIndex: Option<nat>,
    hashIndex: map<Hash, nat>,
    snaps: seq<Snapshot>,
    list: HashList,
    listening: bool)

  // ---------- What each operation does to the state ----------

  /** Fields of a transaction list, keyed by transaction hash; a later duplicate wins. */
  function Serialized(txs: seq<TxRecord>): map<Hash, seq<Byte>> {
    if txs == [] then map[]
    else Serialized(txs[..|txs| - 1])[txs[|txs| - 1].hash := txs[|txs| - 1].serialized]
  }

  function Receipts(txs: seq<TxRecord>): map<Hash, seq<Byte>> {
    if txs == [] then map[]
    else Receipts(txs[..|txs| - 1])[txs[|txs| - 1].hash := txs[|txs| - 1].receipt]
  }

  function TxHashes(txs: seq<TxRecord>): set<Hash> {
    set t | t in txs :: t.hash
  }

  lemma {:induction false} StoredKeys(txs: seq<TxRecord>)
    ensures Serialized(txs).Keys == TxHashes(txs) && Receipts(txs).Keys == TxHashes(txs)
  {
    if txs != [] {
      var front, last := txs[..|txs| - 1], txs[|txs| - 1];
      StoredKeys(front);
      assert txs == front + [last];
    }
  }

  function SaveImage(i: Image, b: Block): Image {
    i.(latest := b,
       base := i.base[ByNumber(b.number) := b],
       transactions := i.transactions + Serialized(b.txs),
       receipts := i.receipts + Receipts(b.txs),
       logs := i.logs[b.number := b.logs],
       stateRoot := b.stateRoot)
  }

  function SaveBlock(c: Chain, b: Block): Chain {
    c.(image := SaveImage(c.image, b),
       latestIndex := Some(b.number),
       hashIndex := c.hashIndex[b.hash := b.number],
       list := if c.listening then Node(b.hash, c.list) else c.list)
  }

  function TakeSnapshot(c: Chain): Chain {
    c.(snaps := c.snaps + [Snapshot(c.image.latest, c.image.timeAdjustment)], listening := true)
  }

  /** `BlockManager.getByHash` without a fork: hash to number, number to block. */
  function Lookup(index: map<Hash, nat>, base: map<Key, Block>, h: Hash): Option<Block> {
    if h in index && ByNumber(index[h]) in base then Some(base[ByNumber(index[h])]) else None
  }

  function GetByHash(c: Chain, h: Hash): Option<Block> {
    Lookup(c.hashIndex, c.image.base, h)
  }

  /** The part of the list above `stop`, and the list from `stop` on. */
  function Above(list: HashList, stop: Hash): seq<Hash> {
    match list
    case Nil => []
    case Node(h, next) => if h == stop then [] else [h] + Above(next, stop)
  }

  function From(list: HashList, stop: Hash): HashList {
    match list
    case Nil => Nil
    case Node(h, next) => if h == stop then list else From(next, stop)
  }

  function Found(index: map<Hash, nat>, base: map<Key, Block>, hs: seq<Hash>): Option<seq<Block>> {
    if hs == [] then Some([])
    else if Lookup(index, base, hs[0]).None? || Found(index, base, hs[1..]).None? then None
    else Some([Lookup(index, base, hs[0]).value] + Found(index, base, hs[1..]).value)
  }

  function KeysOf(blocks: seq<Block>): set<Key> {
    (set b | b in blocks :: ByNumber(b.number)) + (set b | b in blocks :: ByHash(b.hash))
  }

  function NumbersOf(blocks: seq<Block>): set<nat> {
    set b | b in blocks :: b.number
  }

  function TxHashesOf(blocks: seq<Block>): set<Hash> {
    set b, t | b in blocks && t in b.txs :: t.hash
  }

  function DeleteBlocks(i: Image, blocks: seq<Block>): Image {
    i.(base := i.base - KeysOf(blocks),
       transactions := i.transactions - TxHashesOf(blocks),
       receipts := i.receipts - TxHashesOf(blocks),
       logs := i.logs - NumbersOf(blocks))
  }

  predicate ValidId(c: Chain, id: Option<int>) {
    id.Some? && 1 <= id.value <= |c.snaps|
  }

  /** `None` when a recorded hash cannot be looked up, which the source does not handle. */
  function RevertTo(c: Chain, index: nat): Option<Chain>
    requires index < |c.snaps|
  {
    var snap := c.snaps[index];
    var popped := c.(snaps := c.snaps[..index], listening := c.listening && index != 0);
    if c.image.latest.hash == snap.block.hash then
      Some(popped.(image := c.image.(timeAdjustment := snap.timeAdjustment)))
    else
      match Found(c.hashIndex, c.image.base, Above(c.list, snap.block.hash))
      case None => None
      case Some(blocks) =>
        Some(popped.(
               image := DeleteBlocks(c.image, blocks).(
                 latest := snap.block,
                 stateRoot := snap.block.stateRoot,
                 timeAdjustment := snap.timeAdjustment),
               latestIndex := Some(snap.block.number),
               list := From(c.list, snap.block.hash)))
  }

  // ---------- Runs ----------

  datatype Op =
    | Save(block: Block)
    | EndMine(timestamp: Option<nat>, now: int)
    | IncreaseTime(milliseconds: int)
    | SetTimeDiff(newTime: int, now: int)
    | Snap
    | Revert(id: Option<int>)

  /** Whether `timestampIncrement` is "clock" is fixed for the life of the chain. */
  function TimeDiff(i: Image, clock: bool, newTime: int, now: int): int {
    newTime - (if clock then now else i.latest.timestamp * 1000)
  }

  /** The time adjustment after an operation other than a revert. */
  function Adjustment(i: Image, clock: bool, op: Op): int {
    match op
    case EndMine(timestamp, now) =>
      if !clock then 0
      else if timestamp.Some? then TimeDiff(i, clock, timestamp.value * 1000, now)
      else i.timeAdjustment
    case IncreaseTime(ms) => i.timeAdjustment + if ms < 0 then 0 else ms
    case SetTimeDiff(t, now) => TimeDiff(i, clock, t, now)
    case _ => i.timeAdjustment
  }

  function Step(c: Chain, clock: bool, op: Op): Option<Chain> {
    match op
    case Save(b) => Some(SaveBlock(c, b))
    case Snap => Some(TakeSnapshot(c))
    case Revert(id) => if ValidId(c, id) then RevertTo(c, id.value - 1) else Some(c)
    case _ => Some(c.(image := c.image.(timeAdjustment := Adjustment(c.image, clock, op))))
  }

  /**
   * What the miner guarantees of a new block: the next number, transactions not yet on
   * the chain, and a header hash that no different block has.
   */
  predicate Minable(c: Chain, ever: map<Hash, Block>, b: Block) {
    && b.number == c.image.latest.number + 1
    && TxHashes(b.txs) !! c.image.transactions.Keys
    && (b.hash in ever ==> ever[b.hash] == b)
  }

  /** All blocks saved so far, on the chain or cut off, under their header hashes. */
  function Ever(ever: map<Hash, Block>, op: Op): map<Hash, Block> {
    if op.Save? then ever[op.block.hash := op.block] else ever
  }

  predicate Allowed(c: Chain, ever: map<Hash, Block>, op: Op) {
    op.Save? ==> Minable(c, ever, op.block)
  }

  ghost predicate Runs(c: Chain, ever: map<Hash, Block>, clock: bool, ops: seq<Op>, end: Chain)
    decreases |ops|
  {
    if ops == [] then end == c
    else
      && Allowed(c, ever, ops[0])
      && Step(c, clock, ops[0]).Some?
      && Runs(Step(c, clock, ops[0]).value, Ever(ever, ops[0]), clock, ops[1..], end)
  }

  // ---------- The invariant of every run ----------

  /** Blocks `n + 1 .. top` of the chain, newest first. */
  function Segment(base: map<Key, Block>, n: nat, top: nat): seq<Block>
    decreases top
  {
    if top <= n || ByNumber(top) !in base then [] else [base[ByNumber(top)]] + Segment(base, n, top - 1)
  }

  function HashesFrom(blocks: seq<Block>): HashList {
    if blocks == [] then Nil else Node(blocks[0].hash, HashesFrom(blocks[1..]))
  }

  /** The database is exactly the chain from genesis to the latest block. */
  ghost predicate ChainStored(i: Image) {
    var top := i.latest.number;
    && (forall k <- i.base :: k.ByNumber? && k.number <= top && i.base[k].number == k.number)
    && (forall n: nat | n <= top :: ByNumber(n) in i.base)
    && i.base[ByNumber(top)] == i.latest
    && (forall n: nat :: n in i.logs <==> 1 <= n <= top)
    && i.receipts.Keys == i.transactions.Keys
    && i.stateRoot == i.latest.stateRoot
  }

  /** Every block ever saved is still in the hash index, on the chain or not. */
  ghost predicate HashesIndexed(c: Chain, ever: map<Hash, Block>) {
    && c.hashIndex.Keys == ever.Keys
    && (forall h <- ever :: ever[h].hash == h && c.hashIndex[h] == ever[h].number)
    && (forall k <- c.image.base :: InEver(c.image.base[k], ever))
  }

  predicate InEver(b: Block, ever: map<Hash, Block>) {
    b.hash in ever && ever[b.hash] == b
  }

  predicate OnChain(i: Image, b: Block) {
    b.number <= i.latest.number && ByNumber(b.number) in i.base && i.base[ByNumber(b.number)] == b
  }

  /** The recorded list is the chain above the oldest live snapshot. */
  ghost predicate Recorded(c: Chain) {
    var i := c.image;
    && c.listening == (c.snaps != [])
    && (forall s <- c.snaps :: OnChain(i, s.block))
    && (forall j, k :: 0 <= j < k < |c.snaps| ==> c.snaps[j].block.number <= c.snaps[k].block.number)
    && c.list == (if c.snaps == [] then Nil
                  else HashesFrom(Segment(i.base, c.snaps[0].block.number, i.latest.number)))
  }

  predicate LatestIndexed(c: Chain) {
    match c.latestIndex
    case Some(n) => n == c.image.latest.number
    case None => c.image.latest.number == 0
  }

  ghost predicate Inv(c: Chain, ever: map<Hash, Block>) {
    ChainStored(c.image) && HashesIndexed(c, ever) && Recorded(c) && LatestIndexed(c)
  }

  /** The state, if it satisfies the invariant. */
  ghost function Kept(c: Chain, ever: map<Hash, Block>): Option<Chain> {
    if Inv(c, ever) then Some(c) else None
  }

  function Genesis(b: Block, adjustment: int): Chain
  {
    Chain(Image(b, map[ByNumber(0) := b], map[], map[], map[], b.stateRoot, adjustment),
          None, map[b.hash := 0], [], Nil, false)
  }

  lemma GenesisInv(b: Block, adjustment: int)
    requires b.number == 0 && b.txs == []
    ensures Inv(Genesis(b, adjustment), map[b.hash := b])
  {
  }

  // ---------- Segments of the chain ----------

  function HashSeq(blocks: seq<Block>): seq<Hash> {
    if blocks == [] then [] else [blocks[0].hash] + HashSeq(blocks[1..])
  }

  lemma {:induction false} SegmentMembers(i: Image, n: nat, top: nat)
    requires ChainStored(i) && top <= i.latest.number
    ensures |Segment(i.base, n, top)| == if top <= n then 0 else top - n
    ensures forall b :: b in Segment(i.base, n, top) <==> n < b.number <= top && OnChain(i, b)
    decreases top
  {
    if top <= n {
    } else {
      SegmentMembers(i, n, top - 1);
    }
  }

  /** A segment only depends on the blocks it names. */
  lemma {:induction false} SegmentFrame(a: map<Key, Block>, b: map<Key, Block>, n: nat, top: nat)
    requires forall k: nat | n < k <= top :: ByNumber(k) in a && ByNumber(k) in b && a[ByNumber(k)] == b[ByNumber(k)]
    ensures Segment(a, n, top) == Segment(b, n, top)
    decreases top
  {
    if top > n { SegmentFrame(a, b, n, top - 1); }
  }

  lemma {:induction false} SegmentSplits(i: Image, n: nat, mid: nat, top: nat)
    requires ChainStored(i) && n <= mid <= top <= i.latest.number
    ensures Segment(i.base, n, top) == Segment(i.base, mid, top) + Segment(i.base, n, mid)
    decreases top
  {
    if top > mid { SegmentSplits(i, n, mid, top - 1); }
  }

  // ---------- The walk in `revert` ----------

  /** Different blocks of the chain have different hashes. */
  ghost predicate Distinct(base: map<Key, Block>, top: nat) {
    && (forall k: nat | k <= top :: ByNumber(k) in base)
    && (forall j: nat, k: nat | j <= top && k <= top :: base[ByNumber(j)].hash == base[ByNumber(k)].hash ==> j == k)
  }

  lemma DistinctHashes(c: Chain, ever: map<Hash, Block>)
    requires ChainStored(c.image) && HashesIndexed(c, ever)
    ensures Distinct(c.image.base, c.image.latest.number)
  {
    forall j: nat, k: nat | j <= c.image.latest.number && k <= c.image.latest.number
      ensures c.image.base[ByNumber(j)].hash == c.image.base[ByNumber(k)].hash ==> j == k
    {
      assert InEver(c.image.base[ByNumber(j)], ever) && InEver(c.image.base[ByNumber(k)], ever);
    }
  }

  /** Walking down from block `top`, the walk stops at block `stop` and at no other. */
  lemma {:induction false} WalkStops(base: map<Key, Block>, n: nat, stop: nat, top: nat)
    requires n <= stop <= top && Distinct(base, top)
    ensures var list, h := HashesFrom(Segment(base, n, top)), base[ByNumber(stop)].hash;
            && Above(list, h) == HashSeq(Segment(base, stop, top))
            && From(list, h) == HashesFrom(Segment(base, n, stop))
    decreases top
  {
    SegmentTop(base, n, top);
    SegmentTop(base, stop, top);
    if top > stop {
      WalkStops(base, n, stop, top - 1);
      assert base[ByNumber(top)].hash != base[ByNumber(stop)].hash;
    }
  }

  /** A segment starts at its top block. */
  lemma SegmentTop(base: map<Key, Block>, n: nat, top: nat)
    requires n <= top && Distinct(base, top)
    ensures n == top ==> Segment(base, n, top) == []
    ensures n < top ==>
              && HashesFrom(Segment(base, n, top))
                 == Node(base[ByNumber(top)].hash, HashesFrom(Segment(base, n, top - 1)))
              && HashSeq(Segment(base, n, top)) == [base[ByNumber(top)].hash] + HashSeq(Segment(base, n, top - 1))
  {
    if n < top {
      assert Segment(base, n, top)[0] == base[ByNumber(top)];
      assert Segment(base, n, top)[1..] == Segment(base, n, top - 1);
    }
  }

  lemma LookupOnChain(c: Chain, ever: map<Hash, Block>, b: Block)
    requires ChainStored(c.image) && HashesIndexed(c, ever) && OnChain(c.image, b)
    ensures GetByHash(c, b.hash) == Some(b)
  {
    assert InEver(b, ever);
  }

  lemma {:induction false} FoundSegment(c: Chain, ever: map<Hash, Block>, blocks: seq<Block>)
    requires ChainStored(c.image) && HashesIndexed(c, ever)
    requires forall b <- blocks :: OnChain(c.image, b)
    ensures Found(c.hashIndex, c.image.base, HashSeq(blocks)) == Some(blocks)
  {
    if blocks != [] {
      LookupOnChain(c, ever, blocks[0]);
      FoundSegment(c, ever, blocks[1..]);
      assert HashSeq(blocks)[1..] == HashSeq(blocks[1..]);
      assert [blocks[0]] + blocks[1..] == blocks;
    }
  }

  /** What the chain looked like when `s` was taken, recomputed from what it looks like now. */
  function Rewind(i: Image, s: Snapshot): Image {
    DeleteBlocks(i, Segment(i.base, s.block.number, i.latest.number)).(
      latest := s.block, stateRoot := s.block.stateRoot, timeAdjustment := s.timeAdjustment)
  }

  /** The list walk finds exactly the blocks above the snapshot. */
  lemma WalkFinds(c: Chain, ever: map<Hash, Block>, index: nat)
    requires ChainStored(c.image) && HashesIndexed(c, ever) && Recorded(c) && index < |c.snaps|
    ensures var n, h := c.snaps[index].block.number, c.snaps[index].block.hash;
            && Found(c.hashIndex, c.image.base, Above(c.list, h))
               == Some(Segment(c.image.base, n, c.image.latest.number))
            && From(c.list, h) == HashesFrom(Segment(c.image.base, c.snaps[0].block.number, n))
  {
    var n, top := c.snaps[index].block.number, c.image.latest.number;
    assert c.snaps[0] in c.snaps && c.snaps[index] in c.snaps;
    DistinctHashes(c, ever);
    WalkStops(c.image.base, c.snaps[0].block.number, n, top);
    SegmentMembers(c.image, n, top);
    FoundSegment(c, ever, Segment(c.image.base, n, top));
  }

  /** With the snapshot's block still the latest there is nothing to take away. */
  lemma NothingAbove(c: Chain, ever: map<Hash, Block>, s: Snapshot)
    requires ChainStored(c.image) && HashesIndexed(c, ever) && OnChain(c.image, s.block)
    requires c.image.latest.hash == s.block.hash
    ensures s.block == c.image.latest
    ensures Rewind(c.image, s) == c.image.(timeAdjustment := s.timeAdjustment)
  {
    DistinctHashes(c, ever);
    assert s.block.number == c.image.latest.number;
    assert DeleteBlocks(c.image, []) == c.image;
  }

  /** So a revert, by either branch, rewinds. */
  lemma RevertRewinds(c: Chain, ever: map<Hash, Block>, index: nat)
    requires Inv(c, ever) && index < |c.snaps|
    ensures RevertTo(c, index).Some?
    ensures var d := RevertTo(c, index).value;
            && d.image == Rewind(c.image, c.snaps[index])
            && d.snaps == c.snaps[..index]
            && d.hashIndex == c.hashIndex
            && d.listening == (index != 0)
            && d.list == HashesFrom(Segment(c.image.base, c.snaps[0].block.number, c.snaps[index].block.number))
  {
    assert c.snaps[0] in c.snaps && c.snaps[index] in c.snaps;
    if c.image.latest.hash == c.snaps[index].block.hash {
      NothingAbove(c, ever, c.snaps[index]);
    } else {
      WalkFinds(c, ever, index);
    }
  }

  // ---------- Every step keeps the invariant ----------

  lemma SaveKeepsStored(c: Chain, b: Block)
    requires ChainStored(c.image) && b.number == c.image.latest.number + 1
    ensures ChainStored(SaveBlock(c, b).image)
    ensures forall n: nat | n <= c.image.latest.number ::
              Segment(SaveBlock(c, b).image.base, n, b.number) == [b] + Segment(c.image.base, n, c.image.latest.number)
  {
    var i, j := c.image, SaveBlock(c, b).image;
    StoredKeys(b.txs);
    assert j.transactions.Keys == i.transactions.Keys + TxHashes(b.txs);
    assert j.receipts.Keys == i.receipts.Keys + TxHashes(b.txs);
    forall n: nat | n <= i.latest.number
      ensures Segment(j.base, n, b.number) == [b] + Segment(i.base, n, i.latest.number)
    {
      SegmentFrame(i.base, j.base, n, i.latest.number);
    }
  }

  lemma SaveKeepsIndexed(c: Chain, ever: map<Hash, Block>, b: Block)
    requires HashesIndexed(c, ever) && Minable(c, ever, b)
    ensures HashesIndexed(SaveBlock(c, b), ever[b.hash := b])
  {
    forall k <- SaveBlock(c, b).image.base
      ensures InEver(SaveBlock(c, b).image.base[k], ever[b.hash := b])
    {
      if k != ByNumber(b.number) { assert InEver(c.image.base[k], ever); }
    }
  }

  lemma SaveKeepsRecorded(c: Chain, b: Block)
    requires ChainStored(c.image) && Recorded(c) && b.number == c.image.latest.number + 1
    ensures Recorded(SaveBlock(c, b))
  {
    var d := SaveBlock(c, b);
    forall s <- c.snaps
      ensures OnChain(d.image, s.block)
    {
      assert OnChain(c.image, s.block);
    }
    if c.snaps != [] {
      assert OnChain(c.image, c.snaps[0].block) by { assert c.snaps[0] in c.snaps; }
      SaveKeepsStored(c, b);
      var n := c.snaps[0].block.number;
      var before := Segment(c.image.base, n, c.image.latest.number);
      assert ([b] + before)[1..] == before;
    }
  }

  lemma SaveKeepsInv(c: Chain, ever: map<Hash, Block>, b: Block)
    requires Inv(c, ever) && Minable(c, ever, b)
    ensures Inv(SaveBlock(c, b), ever[b.hash := b])
  {
    SaveKeepsStored(c, b);
    SaveKeepsIndexed(c, ever, b);
    SaveKeepsRecorded(c, b);
  }

  lemma SnapKeepsInv(c: Chain, ever: map<Hash, Block>)
    requires Inv(c, ever)
    ensures Inv(TakeSnapshot(c), ever)
  {
  }

  lemma RewindStored(i: Image, s: Snapshot)
    requires ChainStored(i) && OnChain(i, s.block)
    ensures ChainStored(Rewind(i, s))
    ensures forall b :: OnChain(Rewind(i, s), b) <==> OnChain(i, b) && b.number <= s.block.number
  {
    var n, top := s.block.number, i.latest.number;
    var gone := Segment(i.base, n, top);
    SegmentMembers(i, n, top);
    forall k | k in i.base
      ensures k in KeysOf(gone) <==> k.number > n
    {
      assert OnChain(i, i.base[k]);
      if k.number > n { assert i.base[k] in gone; }
    }
    forall m: nat
      ensures m in NumbersOf(gone) <==> n < m <= top
    {
      if n < m <= top {
        assert OnChain(i, i.base[ByNumber(m)]);
        assert i.base[ByNumber(m)] in gone;
      }
    }
  }

  lemma RewindKeepsIndexed(c: Chain, ever: map<Hash, Block>, s: Snapshot, d: Chain)
    requires HashesIndexed(c, ever)
    requires d.hashIndex == c.hashIndex && d.image == Rewind(c.image, s)
    ensures HashesIndexed(d, ever)
  {
    forall k <- d.image.base
      ensures InEver(d.image.base[k], ever)
    {
      assert InEver(c.image.base[k], ever);
    }
  }

  lemma RewindKeepsRecorded(c: Chain, index: nat, d: Chain)
    requires ChainStored(c.image) && Recorded(c) && index < |c.snaps|
    requires d.image == Rewind(c.image, c.snaps[index]) && d.snaps == c.snaps[..index]
    requires d.listening == (index != 0)
    requires d.list == HashesFrom(Segment(c.image.base, c.snaps[0].block.number, c.snaps[index].block.number))
    ensures Recorded(d)
  {
    OlderOnChain(c, index);
    RewoundList(c, index);
  }

  lemma OlderOnChain(c: Chain, index: nat)
    requires ChainStored(c.image) && Recorded(c) && index < |c.snaps|
    ensures forall t <- c.snaps[..index] :: OnChain(Rewind(c.image, c.snaps[index]), t.block)
  {
    assert c.snaps[index] in c.snaps;
    RewindStored(c.image, c.snaps[index]);
    forall t <- c.snaps[..index]
      ensures OnChain(Rewind(c.image, c.snaps[index]), t.block)
    {
      var k :| 0 <= k < index && c.snaps[k] == t;
      assert t in c.snaps;
    }
  }

  /** What is left of the list is what the chain below the snapshot asks for. */
  lemma RewoundList(c: Chain, index: nat)
    requires ChainStored(c.image) && Recorded(c) && index < |c.snaps|
    ensures var s, low := c.snaps[index], c.snaps[0].block.number;
            HashesFrom(Segment(c.image.base, low, s.block.number))
            == if index == 0 then Nil else HashesFrom(Segment(Rewind(c.image, s).base, low, s.block.number))
  {
    var s := c.snaps[index];
    assert s in c.snaps;
    if index != 0 {
      RewindKeepsLow(c.image, s, c.snaps[0].block.number);
    } else {
      assert Segment(c.image.base, s.block.number, s.block.number) == [];
    }
  }

  lemma RewindKeepsLow(i: Image, t: Snapshot, n: nat)
    requires ChainStored(i) && OnChain(i, t.block)
    ensures Segment(Rewind(i, t).base, n, t.block.number) == Segment(i.base, n, t.block.number)
  {
    var j := Rewind(i, t);
    RewindStored(i, t);
    forall k: nat | n < k <= t.block.number
      ensures ByNumber(k) in j.base && j.base[ByNumber(k)] == i.base[ByNumber(k)]
    {
      assert OnChain(i, i.base[ByNumber(k)]);
      assert OnChain(j, i.base[ByNumber(k)]);
    }
    SegmentFrame(i.base, j.base, n, t.block.number);
  }

  lemma RevertKeepsInv(c: Chain, ever: map<Hash, Block>, index: nat)
    requires Inv(c, ever) && index < |c.snaps|
    ensures RevertTo(c, index).Some?
    ensures Inv(RevertTo(c, index).value, ever)
  {
    RevertRewinds(c, ever, index);
    var d, s := RevertTo(c, index).value, c.snaps[index];
    assert s in c.snaps;
    RewindStored(c.image, s);
    RewindKeepsIndexed(c, ever, s, d);
    RewindKeepsRecorded(c, index, d);
    assert LatestIndexed(d) by { DistinctHashes(c, ever); }
  }

  lemma AdjustKeepsInv(c: Chain, ever: map<Hash, Block>, adjustment: int)
    requires Inv(c, ever)
    ensures Inv(c.(image := c.image.(timeAdjustment := adjustment)), ever)
  {
  }

  lemma RevertStepKeepsInv(c: Chain, ever: map<Hash, Block>, clock: bool, id: Option<int>)
    requires Inv(c, ever)
    ensures Step(c, clock, Revert(id)).Some?
    ensures Inv(Step(c, clock, Revert(id)).value, ever)
  {
    if ValidId(c, id) { RevertKeepsInv(c, ever, id.value - 1); }
  }

  /** No step fails, and every step keeps the invariant. */
  lemma StepKeepsInv(c: Chain, ever: map<Hash, Block>, clock: bool, op: Op)
    requires Inv(c, ever) && Allowed(c, ever, op)
    ensures Step(c, clock, op).Some?
    ensures Inv(Step(c, clock, op).value, Ever(ever, op))
  {
    if op.Save? {
      SaveKeepsInv(c, ever, op.block);
    } else if op.Snap? {
      SnapKeepsInv(c, ever);
    } else if op.Revert? {
      RevertStepKeepsInv(c, ever, clock, op.id);
    } else {
      AdjustKeepsInv(c, ever, Adjustment(c.image, clock, op));
    }
  }

  // ---------- The same for a state that is known to be kept ----------

  lemma SaveKept(c: Chain, ever: map<Hash, Block>, b: Block)
    requires Kept(c, ever).Some? && Minable(c, ever, b)
    ensures Kept(SaveBlock(c, b), ever[b.hash := b]).Some?
  {
    SaveKeepsInv(c, ever, b);
  }

  lemma SnapKept(c: Chain, ever: map<Hash, Block>)
    requires Kept(c, ever).Some?
    ensures Kept(TakeSnapshot(c), ever).Some?
  {
    SnapKeepsInv(c, ever);
  }

  lemma RevertKept(c: Chain, ever: map<Hash, Block>, index: nat)
    requires Kept(c, ever).Some? && index < |c.snaps|
    ensures RevertTo(c, index).Some? && Kept(RevertTo(c, index).value, ever).Some?
  {
    RevertKeepsInv(c, ever, index);
  }

  lemma AdjustKept(c: Chain, ever: map<Hash, Block>, adjustment: int)
    requires Kept(c, ever).Some?
    ensures Kept(c.(image := c.image.(timeAdjustment := adjustment)), ever).Some?
  {
    AdjustKeepsInv(c, ever, adjustment);
  }
}
