/**
 * Whole runs of mining, snapshots and reverts: the recorded hash list does as well as
 * copying the whole database at every snapshot, and what a revert does not put back.
 */
module SnapshotRuns {
  import opened Wrappers
  import opened Snapshots
  import opened Bytes

  /** The simple machine: every snapshot is a full copy. */
  datatype Copying = Copying(image: Image, copies: seq<Image>)

  function CopyStep(r: Copying, clock: bool, op: Op): Copying {
    match op
    case Save(b) => r.(image := SaveImage(r.image, b))
    case Snap => r.(copies := r.copies + [r.image])
    case Revert(id) =>
      if id.Some? && 1 <= id.value <= |r.copies|
      then Copying(r.copies[id.value - 1], r.copies[..id.value - 1])
      else r
    case _ => r.(image := r.image.(timeAdjustment := Adjustment(r.image, clock, op)))
  }

  function CopyRun(r: Copying, clock: bool, ops: seq<Op>): Copying
    decreases |ops|
  {
    if ops == [] then r else CopyRun(CopyStep(r, clock, ops[0]), clock, ops[1..])
  }

  /** The two machines agree on the present and on everything a revert can go back to. */
  ghost predicate Matches(c: Chain, r: Copying) {
    && r.image == c.image
    && |r.copies| == |c.snaps|
    && forall k :: 0 <= k < |c.snaps| ==> r.copies[k] == Rewind(c.image, c.snaps[k])
  }

  // ---------- Rewinding commutes with every step ----------

  lemma RewindNow(c: Chain)
    requires ChainStored(c.image)
    ensures Rewind(c.image, Snapshot(c.image.latest, c.image.timeAdjustment)) == c.image
  {
    assert DeleteBlocks(c.image, []) == c.image;
  }

  /** Removing what was just added, and more, is removing the rest. */
  lemma MinusGrown<K, V>(m: map<K, V>, added: map<K, V>, grown: set<K>, gone: set<K>)
    requires added.Keys !! m.Keys && added.Keys <= grown && gone <= grown
    requires forall k <- grown :: k in gone || k !in m
    ensures m + added - grown == m - gone
  {
  }

  lemma PrependedSets(b: Block, gone: seq<Block>)
    ensures KeysOf([b] + gone) == KeysOf(gone) + {ByNumber(b.number), ByHash(b.hash)}
    ensures TxHashesOf([b] + gone) == TxHashesOf(gone) + TxHashes(b.txs)
    ensures NumbersOf([b] + gone) == NumbersOf(gone) + {b.number}
  {
  }

  lemma AppendedSets(high: seq<Block>, low: seq<Block>)
    ensures KeysOf(high + low) == KeysOf(high) + KeysOf(low)
    ensures TxHashesOf(high + low) == TxHashesOf(high) + TxHashesOf(low)
    ensures NumbersOf(high + low) == NumbersOf(high) + NumbersOf(low)
  {
  }

  lemma MinusPair<K, V>(m: map<K, V>, x: K, v: V, y: K, gone: set<K>)
    requires x !in m && y !in m
    ensures m[x := v] - (gone + {x, y}) == m - gone
  {
  }

  lemma DeleteSavedNumbers(i: Image, b: Block, gone: seq<Block>)
    requires ByNumber(b.number) !in i.base && ByHash(b.hash) !in i.base && b.number !in i.logs
    ensures i.base[ByNumber(b.number) := b] - KeysOf([b] + gone) == i.base - KeysOf(gone)
    ensures i.logs[b.number := b.logs] - NumbersOf([b] + gone) == i.logs - NumbersOf(gone)
  {
    PrependedSets(b, gone);
    MinusPair(i.base, ByNumber(b.number), b, ByHash(b.hash), KeysOf(gone));
    MinusPair(i.logs, b.number, b.logs, b.number, NumbersOf(gone));
    assert NumbersOf(gone) + {b.number} == NumbersOf(gone) + {b.number, b.number};
  }

  lemma DeleteSavedTxs(m: map<Hash, seq<Byte>>, added: map<Hash, seq<Byte>>, b: Block, gone: seq<Block>)
    requires added.Keys == TxHashes(b.txs) && TxHashes(b.txs) !! m.Keys
    ensures m + added - TxHashesOf([b] + gone) == m - TxHashesOf(gone)
  {
    PrependedSets(b, gone);
    MinusGrown(m, added, TxHashesOf([b] + gone), TxHashesOf(gone));
  }

  lemma DeleteSaved(i: Image, b: Block, gone: seq<Block>)
    requires ByNumber(b.number) !in i.base && ByHash(b.hash) !in i.base && b.number !in i.logs
    requires i.receipts.Keys == i.transactions.Keys && TxHashes(b.txs) !! i.transactions.Keys
    ensures DeleteBlocks(SaveImage(i, b), [b] + gone)
            == DeleteBlocks(i, gone).(latest := b, stateRoot := b.stateRoot)
  {
    StoredKeys(b.txs);
    DeleteSavedNumbers(i, b, gone);
    DeleteSavedTxs(i.transactions, Serialized(b.txs), b, gone);
    DeleteSavedTxs(i.receipts, Receipts(b.txs), b, gone);
  }

  lemma RewindSaved(c: Chain, b: Block, s: Snapshot)
    requires ChainStored(c.image) && OnChain(c.image, s.block)
    requires b.number == c.image.latest.number + 1 && TxHashes(b.txs) !! c.image.transactions.Keys
    ensures Rewind(SaveImage(c.image, b), s) == Rewind(c.image, s)
  {
    var i := c.image;
    var gone := Segment(i.base, s.block.number, i.latest.number);
    SaveKeepsStored(c, b);
    DeleteSaved(i, b, gone);
  }

  lemma DeleteTwice(i: Image, high: seq<Block>, low: seq<Block>)
    ensures DeleteBlocks(DeleteBlocks(i, high), low) == DeleteBlocks(i, high + low)
  {
    AppendedSets(high, low);
  }

  /** Going back to `t` and then further back to `s` is going back to `s`. */
  lemma RewindTwice(i: Image, s: Snapshot, t: Snapshot)
    requires ChainStored(i) && OnChain(i, s.block) && OnChain(i, t.block)
    requires s.block.number <= t.block.number
    ensures Rewind(Rewind(i, t), s) == Rewind(i, s)
  {
    var j := Rewind(i, t);
    var n, m, top := s.block.number, t.block.number, i.latest.number;
    SegmentSplits(i, n, m, top);
    var high, low := Segment(i.base, m, top), Segment(i.base, n, m);
    assert Segment(j.base, n, m) == low by { RewindKeepsLow(i, t, n); }
    DeleteTwice(i, high, low);
  }

  lemma SaveMatches(c: Chain, r: Copying, b: Block)
    requires ChainStored(c.image) && Recorded(c) && Matches(c, r)
    requires b.number == c.image.latest.number + 1 && TxHashes(b.txs) !! c.image.transactions.Keys
    ensures Matches(SaveBlock(c, b), r.(image := SaveImage(r.image, b)))
  {
    forall k | 0 <= k < |c.snaps|
      ensures Rewind(SaveImage(c.image, b), c.snaps[k]) == Rewind(c.image, c.snaps[k])
    {
      assert c.snaps[k] in c.snaps;
      RewindSaved(c, b, c.snaps[k]);
    }
  }

  lemma SnapMatches(c: Chain, r: Copying)
    requires ChainStored(c.image) && Matches(c, r)
    ensures Matches(TakeSnapshot(c), r.(copies := r.copies + [r.image]))
  {
    RewindNow(c);
  }

  lemma RevertMatches(c: Chain, ever: map<Hash, Block>, r: Copying, index: nat)
    requires Inv(c, ever) && Matches(c, r) && index < |c.snaps|
    ensures RevertTo(c, index).Some?
    ensures Matches(RevertTo(c, index).value, Copying(r.copies[index], r.copies[..index]))
  {
    RevertRewinds(c, ever, index);
    OlderRewinds(c, index);
  }

  lemma OlderRewinds(c: Chain, index: nat)
    requires ChainStored(c.image) && Recorded(c) && index < |c.snaps|
    ensures forall k :: 0 <= k < index ==>
              Rewind(Rewind(c.image, c.snaps[index]), c.snaps[k]) == Rewind(c.image, c.snaps[k])
  {
    forall k | 0 <= k < index
      ensures Rewind(Rewind(c.image, c.snaps[index]), c.snaps[k]) == Rewind(c.image, c.snaps[k])
    {
      assert c.snaps[index] in c.snaps && c.snaps[k] in c.snaps;
      RewindTwice(c.image, c.snaps[k], c.snaps[index]);
    }
  }

  /** A change of the time adjustment alone is undone by every rewind. */
  lemma AdjustMatches(c: Chain, r: Copying, adjustment: int)
    requires Matches(c, r)
    ensures Matches(c.(image := c.image.(timeAdjustment := adjustment)),
                    r.(image := r.image.(timeAdjustment := adjustment)))
  {
  }

  lemma SaveStepMatches(c: Chain, ever: map<Hash, Block>, r: Copying, clock: bool, b: Block)
    requires Inv(c, ever) && Minable(c, ever, b) && Matches(c, r)
    ensures Matches(Step(c, clock, Save(b)).value, CopyStep(r, clock, Save(b)))
  {
    SaveMatches(c, r, b);
  }

  lemma RevertStepMatches(c: Chain, ever: map<Hash, Block>, r: Copying, clock: bool, id: Option<int>)
    requires Inv(c, ever) && Matches(c, r)
    ensures Step(c, clock, Revert(id)).Some?
    ensures Matches(Step(c, clock, Revert(id)).value, CopyStep(r, clock, Revert(id)))
  {
    RevertSteps(c, r, clock, id);
    if ValidId(c, id) { RevertMatches(c, ever, r, id.value - 1); }
  }

  /** What the two machines do with an id, told apart only by whether it is valid. */
  lemma RevertSteps(c: Chain, r: Copying, clock: bool, id: Option<int>)
    requires |r.copies| == |c.snaps|
    ensures if ValidId(c, id)
            then && Step(c, clock, Revert(id)) == RevertTo(c, id.value - 1)
                 && CopyStep(r, clock, Revert(id)) == Copying(r.copies[id.value - 1], r.copies[..id.value - 1])
            else Step(c, clock, Revert(id)) == Some(c) && CopyStep(r, clock, Revert(id)) == r
  {
  }

  lemma OtherStepMatches(c: Chain, r: Copying, clock: bool, op: Op)
    requires ChainStored(c.image) && Matches(c, r) && !op.Save? && !op.Revert?
    ensures Step(c, clock, op).Some?
    ensures Matches(Step(c, clock, op).value, CopyStep(r, clock, op))
  {
    if op.Snap? { SnapMatches(c, r); } else { AdjustMatches(c, r, Adjustment(c.image, clock, op)); }
  }

  lemma StepMatches(c: Chain, ever: map<Hash, Block>, r: Copying, clock: bool, op: Op)
    requires Inv(c, ever) && Allowed(c, ever, op) && Matches(c, r)
    ensures Step(c, clock, op).Some?
    ensures Matches(Step(c, clock, op).value, CopyStep(r, clock, op))
  {
    match op
    case Save(b) => SaveStepMatches(c, ever, r, clock, b);
    case Revert(id) => RevertStepMatches(c, ever, r, clock, id);
    case _ => OtherStepMatches(c, r, clock, op);
  }

  /** All blocks saved by the end of a run. */
  function EverAfter(ever: map<Hash, Block>, ops: seq<Op>): map<Hash, Block>
    decreases |ops|
  {
    if ops == [] then ever else EverAfter(Ever(ever, ops[0]), ops[1..])
  }

  lemma {:induction false} RunKeepsInv(c: Chain, ever: map<Hash, Block>, clock: bool, ops: seq<Op>, end: Chain)
    requires Inv(c, ever) && Runs(c, ever, clock, ops, end)
    ensures Inv(end, EverAfter(ever, ops))
    decreases |ops|
  {
    if ops != [] {
      StepKeepsInv(c, ever, clock, ops[0]);
      RunKeepsInv(Step(c, clock, ops[0]).value, Ever(ever, ops[0]), clock, ops[1..], end);
    }
  }

  /** The hash list refines the full copies, over every run. */
  lemma {:induction false} RunRefinesCopying(
    c: Chain, ever: map<Hash, Block>, r: Copying, clock: bool, ops: seq<Op>, end: Chain)
    requires Inv(c, ever) && Matches(c, r) && Runs(c, ever, clock, ops, end)
    ensures Matches(end, CopyRun(r, clock, ops))
    decreases |ops|
  {
    if ops != [] {
      StepMatches(c, ever, r, clock, ops[0]);
      StepKeepsInv(c, ever, clock, ops[0]);
      var next := Step(c, clock, ops[0]).value;
      RunRefinesCopying(next, Ever(ever, ops[0]), CopyStep(r, clock, ops[0]), clock, ops[1..], end);
    }
  }

  // ---------- What a revert restores ----------

  /** No revert among `ops` names snapshot `id` or an older one. */
  predicate Protected(ops: seq<Op>, id: nat) {
    forall op <- ops :: op.Revert? && op.id.Some? ==> !(1 <= op.id.value <= id)
  }

  lemma {:induction false} ProtectedCopies(r: Copying, clock: bool, ops: seq<Op>, id: nat)
    requires id <= |r.copies| && Protected(ops, id)
    ensures var e := CopyRun(r, clock, ops); id <= |e.copies| && e.copies[..id] == r.copies[..id]
    decreases |ops|
  {
    if ops != [] {
      assert ops[0] in ops;
      ProtectedCopies(CopyStep(r, clock, ops[0]), clock, ops[1..], id);
    }
  }

  lemma ProtectedStep(c: Chain, clock: bool, op: Op, id: nat)
    requires Step(c, clock, op).Some? && id <= |c.snaps| && Protected([op], id)
    ensures var next := Step(c, clock, op).value; id <= |next.snaps| && next.snaps[..id] == c.snaps[..id]
  {
    assert op in [op];
    if op.Revert? && ValidId(c, op.id) {
      var index := op.id.value - 1;
      assert RevertTo(c, index).value.snaps == c.snaps[..index];
    }
  }

  lemma {:induction false} ProtectedSnaps(
      c: Chain, ever: map<Hash, Block>, clock: bool, ops: seq<Op>, end: Chain, id: nat)
    requires Runs(c, ever, clock, ops, end)
    requires id <= |c.snaps| && Protected(ops, id)
    ensures id <= |end.snaps| && end.snaps[..id] == c.snaps[..id]
    decreases |ops|
  {
    if ops != [] {
      assert ops[0] in ops;
      ProtectedStep(c, clock, ops[0], id);
      ProtectedSnaps(Step(c, clock, ops[0]).value, Ever(ever, ops[0]), clock, ops[1..], end, id);
    }
  }

  ghost function CopiesOf(c: Chain): Copying {
    Copying(c.image, seq(|c.snaps|, k requires 0 <= k < |c.snaps| => Rewind(c.image, c.snaps[k])))
  }

  /**
   * Take a snapshot, do anything that does not revert to it or past it, then revert to
   * it: the revert succeeds, the latest block, the number index, the transactions, the
   * receipts, the logs, the state root and the time adjustment are what they were, and
   * every older snapshot is still there with its recorded list.
   */
  lemma RevertRestores(c: Chain, ever: map<Hash, Block>, clock: bool, ops: seq<Op>, end: Chain)
    requires Inv(c, ever) && Runs(TakeSnapshot(c), ever, clock, ops, end)
    requires Protected(ops, |c.snaps| + 1)
    ensures ValidId(end, Some(|c.snaps| + 1))
    ensures RevertTo(end, |c.snaps|).Some?
    ensures var d := RevertTo(end, |c.snaps|).value;
            d.image == c.image && d.snaps == c.snaps && d.list == c.list && d.listening == c.listening
  {
    SnapKeepsInv(c, ever);
    RunKeepsInv(TakeSnapshot(c), ever, clock, ops, end);
    OlderSnaps(c, ever, clock, ops, end);
    RunRewinds(c, ever, clock, ops, end);
    RestoredByRewind(c, ever, end, EverAfter(ever, ops), |c.snaps|);
  }

  lemma OlderSnaps(c: Chain, ever: map<Hash, Block>, clock: bool, ops: seq<Op>, end: Chain)
    requires Runs(TakeSnapshot(c), ever, clock, ops, end) && Protected(ops, |c.snaps| + 1)
    ensures |end.snaps| > |c.snaps| && end.snaps[..|c.snaps|] == c.snaps
  {
    ProtectedSnaps(TakeSnapshot(c), ever, clock, ops, end, |c.snaps| + 1);
    assert end.snaps[..|c.snaps|] == end.snaps[..|c.snaps| + 1][..|c.snaps|];
  }

  lemma RunRewinds(c: Chain, ever: map<Hash, Block>, clock: bool, ops: seq<Op>, end: Chain)
    requires Inv(c, ever) && Runs(TakeSnapshot(c), ever, clock, ops, end)
    requires Protected(ops, |c.snaps| + 1)
    ensures |end.snaps| > |c.snaps| && Rewind(end.image, end.snaps[|c.snaps|]) == c.image
  {
    var n, start := |c.snaps|, TakeSnapshot(c);
    var r := CopiesOf(start);
    assert Inv(start, ever) by { SnapKeepsInv(c, ever); }
    RunRefinesCopying(start, ever, r, clock, ops, end);
    ProtectedCopies(r, clock, ops, n + 1);
    var copies := CopyRun(r, clock, ops).copies;
    assert copies[n] == copies[..n + 1][n] == r.copies[n];
    RewindNow(c);
  }

  /** The list and the subscription follow from the image and the snapshot stack. */
  lemma RestoredByRewind(c: Chain, ever: map<Hash, Block>, end: Chain, later: map<Hash, Block>, index: nat)
    requires Inv(c, ever) && Inv(end, later) && index < |end.snaps|
    requires Rewind(end.image, end.snaps[index]) == c.image && end.snaps[..index] == c.snaps
    ensures RevertTo(end, index).Some?
    ensures var d := RevertTo(end, index).value;
            d.image == c.image && d.snaps == c.snaps && d.list == c.list && d.listening == c.listening
  {
    RevertRewinds(end, later, index);
    RevertKeepsInv(end, later, index);
  }

  // ---------- What a revert leaves behind: the hash index ----------

  function SavedHashes(ops: seq<Op>): set<Hash> {
    set op | op in ops && op.Save? :: op.block.hash
  }

  lemma StepHashIndex(c: Chain, ever: map<Hash, Block>, clock: bool, op: Op)
    requires Inv(c, ever) && Allowed(c, ever, op)
    ensures Step(c, clock, op).Some?
    ensures var next := Step(c, clock, op).value;
            && next.hashIndex.Keys == c.hashIndex.Keys + SavedHashes([op])
            && forall h <- c.hashIndex :: next.hashIndex[h] == c.hashIndex[h]
  {
    match op
    case Revert(id) => if ValidId(c, id) { RevertRewinds(c, ever, id.value - 1); }
    case Save(b) => assert b.hash in c.hashIndex ==> c.hashIndex[b.hash] == b.number;
    case _ =>
  }

  lemma {:induction false} HashIndexGrows(c: Chain, ever: map<Hash, Block>, clock: bool, ops: seq<Op>, end: Chain)
    requires Inv(c, ever) && Runs(c, ever, clock, ops, end)
    ensures end.hashIndex.Keys == c.hashIndex.Keys + SavedHashes(ops)
    ensures forall h <- c.hashIndex :: end.hashIndex[h] == c.hashIndex[h]
    decreases |ops|
  {
    if ops != [] {
      StepHashIndex(c, ever, clock, ops[0]);
      StepKeepsInv(c, ever, clock, ops[0]);
      HashIndexGrows(Step(c, clock, ops[0]).value, Ever(ever, ops[0]), clock, ops[1..], end);
      SavedHashesSplit(ops);
    }
  }

  lemma SavedHashesSplit(ops: seq<Op>)
    requires ops != []
    ensures SavedHashes(ops) == SavedHashes([ops[0]]) + SavedHashes(ops[1..])
  {
    assert ops == [ops[0]] + ops[1..];
  }

  /**
   * `revert` never deletes from the hash index. So the index is back to what it was at
   * the snapshot exactly when nothing with a new hash was saved in between.
   */
  lemma HashIndexRestoredIff(c: Chain, ever: map<Hash, Block>, clock: bool, ops: seq<Op>, end: Chain)
    requires Inv(c, ever) && Runs(TakeSnapshot(c), ever, clock, ops, end)
    requires Protected(ops, |c.snaps| + 1)
    ensures ValidId(end, Some(|c.snaps| + 1)) && RevertTo(end, |c.snaps|).Some?
    ensures RevertTo(end, |c.snaps|).value.hashIndex == c.hashIndex
            <==> forall op <- ops :: op.Save? ==> op.block.hash in c.hashIndex
  {
    RevertRestores(c, ever, clock, ops, end);
    SnapKeepsInv(c, ever);
    HashIndexGrows(TakeSnapshot(c), ever, clock, ops, end);
    RunKeepsInv(TakeSnapshot(c), ever, clock, ops, end);
    RevertRewinds(end, EverAfter(ever, ops), |c.snaps|);
    SameIndexIff(c.hashIndex, end.hashIndex, SavedHashes(ops));
    assert SavedHashes(ops) <= c.hashIndex.Keys <==> forall op <- ops :: op.Save? ==> op.block.hash in c.hashIndex by {
      forall op | op in ops && op.Save?
        ensures op.block.hash in SavedHashes(ops)
      {
      }
    }
  }

  lemma SameIndexIff(before: map<Hash, nat>, after: map<Hash, nat>, saved: set<Hash>)
    requires after.Keys == before.Keys + saved
    requires forall h <- before :: after[h] == before[h]
    ensures after == before <==> saved <= before.Keys
  {
  }

  /**
   * What `getByHash` gives for the hash of any block ever saved: the block itself exactly
   * when it is on the chain; after that its number decides, so a block cut off by a revert
   * is "not found" until the chain grows back past it, and is then confused with the
   * block that took its number.
   */
  lemma LookupOutcome(c: Chain, ever: map<Hash, Block>, b: Block)
    requires Inv(c, ever) && InEver(b, ever)
    ensures GetByHash(c, b.hash) == Some(b) <==> OnChain(c.image, b)
    ensures GetByHash(c, b.hash) == None <==> b.number > c.image.latest.number
    ensures !OnChain(c.image, b) && b.number <= c.image.latest.number ==>
              GetByHash(c, b.hash) == Some(c.image.base[ByNumber(b.number)])
              && c.image.base[ByNumber(b.number)].hash != b.hash
  {
    if ByNumber(b.number) in c.image.base {
      assert InEver(c.image.base[ByNumber(b.number)], ever);
    }
  }

  /**
   * Snapshot, save `cut`, revert, save `kept`: from any state the hash of `cut` is first
   * not found and then looked up as `kept`.
   */
  lemma StaleHash(c: Chain, ever: map<Hash, Block>, cut: Block, kept: Block)
    requires Inv(c, ever) && Minable(c, ever, cut) && Minable(c, ever[cut.hash := cut], kept) && kept != cut
    ensures var back := RevertTo(SaveBlock(TakeSnapshot(c), cut), |c.snaps|);
            && back.Some?
            && GetByHash(back.value, cut.hash) == None
            && GetByHash(SaveBlock(back.value, kept), cut.hash) == Some(kept)
  {
    OneSaveRun(TakeSnapshot(c), ever, cut);
    RevertRestores(c, ever, true, [Save(cut)], SaveBlock(TakeSnapshot(c), cut));
  }

  lemma OneSaveRun(c: Chain, ever: map<Hash, Block>, b: Block)
    requires Minable(c, ever, b)
    ensures Runs(c, ever, true, [Save(b)], SaveBlock(c, b))
    ensures forall k | 0 <= k < |c.snaps| && RevertTo(SaveBlock(c, b), k).Some? ::
              RevertTo(SaveBlock(c, b), k).value.hashIndex == c.hashIndex[b.hash := b.number]
  {
    assert [Save(b)][1..] == [];
    assert Runs(SaveBlock(c, b), Ever(ever, Save(b)), true, [], SaveBlock(c, b));
  }

  lemma StaleHashLookup()
    ensures var g := Block(0, [0], [0], 0, [], []);
            var cut, kept := Block(1, [1], [1], 1, [], []), Block(1, [2], [2], 2, [], []);
            var back := RevertTo(SaveBlock(TakeSnapshot(Genesis(g, 0)), cut), 0);
            back.Some? && GetByHash(SaveBlock(back.value, kept), cut.hash) == Some(kept)
  {
    var g, cut, kept := Block(0, [0], [0], 0, [], []), Block(1, [1], [1], 1, [], []), Block(1, [2], [2], 2, [], []);
    GenesisInv(g, 0);
    assert [0] != [1] && [1][0] != [2][0];
    StaleHash(Genesis(g, 0), map[g.hash := g], cut, kept);
  }
}
