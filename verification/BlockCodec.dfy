/** How blocks are built, stored and read back. */
module BlockCodec {
  import opened Bytes
  import opened Wrappers
  import opened Rlp

  // ---------- Headers ----------

  /** Raw headers have 15 entries, or 16 with a base fee. */
  type RawHeader = seq<seq<Byte>>

  /** A header as values; `Data` of a fixed length and numbers. */
  datatype BlockHeader = BlockHeader(
    parentHash: seq<Byte>,
    sha3Uncles: seq<Byte>,
    miner: seq<Byte>,
    stateRoot: seq<Byte>,
    transactionsRoot: seq<Byte>,
    receiptsRoot: seq<Byte>,
    logsBloom: seq<Byte>,
    difficulty: nat,
    number: nat,
    gasLimit: nat,
    gasUsed: nat,
    timestamp: nat,
    extraData: seq<Byte>,
    mixHash: seq<Byte>,
    nonce: seq<Byte>,
    totalDifficulty: nat,
    baseFeePerGas: Option<nat>)

  /** `Data` of a fixed length: zeros to the left, or cut to the right. */
  function Fixed(b: seq<Byte>, length: nat): (d: seq<Byte>)
    ensures |d| == length && (|b| == length ==> d == b)
  {
    if |b| <= length then seq(length - |b|, _ => 0) + b else b[..length]
  }

  function MakeHeader(raw: RawHeader, totalDifficulty: seq<Byte>): BlockHeader
    requires |raw| >= 15
  {
    BlockHeader(Fixed(raw[0], 32), Fixed(raw[1], 32), Fixed(raw[2], 20), Fixed(raw[3], 32), Fixed(raw[4], 32),
                Fixed(raw[5], 32), Fixed(raw[6], 256), ToNat(raw[7]), ToNat(raw[8]), ToNat(raw[9]), ToNat(raw[10]),
                ToNat(raw[11]), raw[12], Fixed(raw[13], 32), Fixed(raw[14], 8), ToNat(totalDifficulty),
                if |raw| > 15 then Some(ToNat(raw[15])) else None)
  }

  /** The block being mined; a missing base fee is not written. */
  datatype RuntimeHeader = RuntimeHeader(
    parentHash: seq<Byte>,
    coinbase: seq<Byte>,
    number: nat,
    difficulty: nat,
    totalDifficulty: nat,
    gasLimit: nat,
    timestamp: nat,
    baseFeePerGas: Option<nat>)

  /** What running its transactions makes of it. */
  datatype Results = Results(
    transactionsTrie: seq<Byte>,
    receiptTrie: seq<Byte>,
    bloom: seq<Byte>,
    stateRoot: seq<Byte>,
    gasUsed: nat,
    extraData: seq<Byte>)

  /** `RawHeader` as `finalize` lists it; `uncles` is the hash of the empty list. */
  function FinalHeader(h: RuntimeHeader, r: Results, uncles: seq<Byte>): RawHeader {
    [h.parentHash, uncles, h.coinbase, r.stateRoot, r.transactionsTrie, r.receiptTrie, r.bloom,
     BigEndian(h.difficulty), BigEndian(h.number), BigEndian(h.gasLimit), BigEndian(r.gasUsed), BigEndian(h.timestamp),
     r.extraData, seq(32, _ => 0), seq(8, _ => 0)]
    + if h.baseFeePerGas.Some? then [BigEndian(h.baseFeePerGas.value)] else []
  }

  /** The values of the block being mined, and what the run added. */
  function MinedHeader(h: RuntimeHeader, r: Results, uncles: seq<Byte>): BlockHeader {
    BlockHeader(h.parentHash, uncles, h.coinbase, r.stateRoot, r.transactionsTrie, r.receiptTrie, r.bloom,
                h.difficulty, h.number, h.gasLimit, r.gasUsed, h.timestamp, r.extraData,
                seq(32, _ => 0), seq(8, _ => 0), h.totalDifficulty, h.baseFeePerGas)
  }

  /** A header listed raw: fixed parts as they are, numbers without leading zeros, a base fee if there is one. */
  function RawOf(h: BlockHeader): RawHeader {
    [h.parentHash, h.sha3Uncles, h.miner, h.stateRoot, h.transactionsRoot, h.receiptsRoot, h.logsBloom,
     BigEndian(h.difficulty), BigEndian(h.number), BigEndian(h.gasLimit), BigEndian(h.gasUsed), BigEndian(h.timestamp),
     h.extraData, h.mixHash, h.nonce]
    + match h.baseFeePerGas case None => [] case Some(fee) => [BigEndian(fee)]
  }

  /** The fixed-length parts have their lengths. */
  predicate FixedParts(h: BlockHeader) {
    && |h.parentHash| == |h.sha3Uncles| == |h.stateRoot| == |h.transactionsRoot| == |h.receiptsRoot| == 32
    && |h.mixHash| == 32 && |h.miner| == 20 && |h.logsBloom| == 256 && |h.nonce| == 8
  }

  /** A header is read back from its raw listing exactly when its fixed parts have their lengths. */
  lemma HeaderReadBackIff(h: BlockHeader)
    ensures MakeHeader(RawOf(h), BigEndian(h.totalDifficulty)) == h <==> FixedParts(h)
  {
    BigEndianValue(h.difficulty);
    BigEndianValue(h.number);
    BigEndianValue(h.gasLimit);
    BigEndianValue(h.gasUsed);
    BigEndianValue(h.timestamp);
    BigEndianValue(h.totalDifficulty);
    if h.baseFeePerGas.Some? { BigEndianValue(h.baseFeePerGas.value); }
  }

  /** What `finalize` lists is the raw listing of the mined header, with a zero mix hash and nonce. */
  lemma FinalHeaderListed(h: RuntimeHeader, r: Results, uncles: seq<Byte>)
    ensures FinalHeader(h, r, uncles) == RawOf(MinedHeader(h, r, uncles))
  {
  }

  /** Parts that are too short get zeros to the left, parts that are too long are cut. */
  lemma FixedFits(b: seq<Byte>, length: nat)
    ensures |b| <= length ==>
              Fixed(b, length)[length - |b|..] == b && forall i :: 0 <= i < length - |b| ==> Fixed(b, length)[i] == 0
    ensures |b| > length ==> Fixed(b, length) <= b
  {
  }

  /** The finished header has the values of the one being mined, and what the run added. */
  lemma FinalHeaderValues(h: RuntimeHeader, r: Results, uncles: seq<Byte>)
    requires FixedParts(MinedHeader(h, r, uncles))
    ensures MakeHeader(FinalHeader(h, r, uncles), BigEndian(h.totalDifficulty)) == MinedHeader(h, r, uncles)
  {
    FinalHeaderListed(h, r, uncles);
    HeaderReadBackIff(MinedHeader(h, r, uncles));
  }

  // ---------- Blocks as items ----------

  datatype MetaData = MetaData(from: seq<Byte>, hash: seq<Byte>)

  /** All but the size, as `serialize` is given it; transactions are raw lists. */
  datatype RawBlock = RawBlock(
    header: RawHeader,
    transactions: seq<seq<Item>>,
    totalDifficulty: seq<Byte>,
    metaData: seq<MetaData>)

  function Strs(bs: seq<seq<Byte>>): (xs: seq<Item>)
    ensures |xs| == |bs|
  {
    if bs == [] then [] else [Str(bs[0])] + Strs(bs[1..])
  }

  function Lists(xss: seq<seq<Item>>): seq<Item> {
    if xss == [] then [] else [List(xss[0])] + Lists(xss[1..])
  }

  function Metas(ms: seq<MetaData>): seq<Item> {
    if ms == [] then [] else [List([Str(ms[0].from), Str(ms[0].hash)])] + Metas(ms[1..])
  }

  /** The block as Ethereum has it: header, transactions and no uncles. */
  function EthereumItems(raw: RawBlock): seq<Item> {
    [List(Strs(raw.header)), List(Lists(raw.transactions)), List([])]
  }

  function EthereumSize(raw: RawBlock): nat {
    |Encoding(List(EthereumItems(raw)))|
  }

  function ExtraItems(raw: RawBlock): seq<Item> {
    [Str(raw.totalDifficulty), List(Metas(raw.metaData))]
  }

  /** The six elements that are stored. */
  function BlockItems(raw: RawBlock): seq<Item> {
    EthereumItems(raw) + ExtraItems(raw) + [Str(BigEndian(EthereumSize(raw)))]
  }

  // ---------- Serializing ----------

  /** The stored bytes are the plain encoding of the six elements; the size is Ethereum's. */
  method Serialize(raw: RawBlock) returns (serialized: seq<Byte>, size: nat)
    requires |Payload(EthereumItems(raw) + ExtraItems(raw))| + 64 < LENGTH_LIMIT
    ensures serialized == Encoding(List(BlockItems(raw)))
    ensures size == EthereumSize(raw)
  {
    var five := EthereumItems(raw) + ExtraItems(raw);
    assert five[..3] == EthereumItems(raw) && five[3..] == ExtraItems(raw);
    var start, serializedLength, middle, middleLength := Ranges(five, 3);
    TwoRanges(five, 3);
    ConcatEncodings(EthereumItems(raw));
    var prefix := EncodeLength(serializedLength, LIST_OFFSET);
    size := |prefix| + serializedLength;
    HeaderShort(serializedLength);
    assert size == EthereumSize(raw);
    HeaderNotEmpty(serializedLength, LIST_OFFSET);
    var sizeBuffer := UintToBuffer(size);
    assert sizeBuffer == BigEndian(size);
    LimitIsPow();
    BigEndianLength(size, 8);
    var ending := Encode(Buf(sizeBuffer));
    ThreeRanges(raw, start, middle, ending);
    var buf := Digest([start, middle, [ending]], serializedLength + middleLength + |ending|);
    serialized := buf[..];
  }

  lemma HeaderShort(len: nat)
    requires len < LENGTH_LIMIT
    ensures |Header(len, LIST_OFFSET)| <= 9
  {
    if len >= 56 { LongHeader(len, LIST_OFFSET); }
  }

  lemma ThreeRanges(raw: RawBlock, start: seq<seq<Byte>>, middle: seq<seq<Byte>>, ending: seq<Byte>)
    requires start == Encodings(EthereumItems(raw)) && middle == Encodings(ExtraItems(raw))
    requires ending == Encoding(Str(BigEndian(EthereumSize(raw)))) && |BigEndian(EthereumSize(raw))| <= 8
    ensures Flatten([start, middle, [ending]]) == Payload(BlockItems(raw))
    ensures |Flatten([start, middle, [ending]])| == |Concat(start)| + |Concat(middle)| + |ending|
    ensures |ending| <= 9 && Concat(start) + Concat(middle) == Payload(EthereumItems(raw) + ExtraItems(raw))
  {
    FlattenTwo(start, middle);
    FlattenSnoc([start, middle], [ending]);
    assert [start, middle] + [[ending]] == [start, middle, [ending]];
    ConcatSnoc([], ending);
    assert [] + [ending] == [ending];
    ConcatEncodings(EthereumItems(raw));
    ConcatEncodings(ExtraItems(raw));
    PayloadAppend(EthereumItems(raw), ExtraItems(raw));
    PayloadSnoc(EthereumItems(raw) + ExtraItems(raw), Str(BigEndian(EthereumSize(raw))));
  }

  // ---------- Reading back ----------

  datatype Block = Block(
    header: BlockHeader,
    raw: RawHeader,
    transactions: seq<seq<Item>>,
    metaData: seq<MetaData>,
    size: nat)

  function ReadStrs(xs: seq<Item>): Option<seq<seq<Byte>>> {
    if xs == [] then Some([])
    else if !xs[0].Str? || ReadStrs(xs[1..]).None? then None
    else Some([xs[0].bytes] + ReadStrs(xs[1..]).value)
  }

  function ReadLists(xs: seq<Item>): Option<seq<seq<Item>>> {
    if xs == [] then Some([])
    else if !xs[0].List? || ReadLists(xs[1..]).None? then None
    else Some([xs[0].items] + ReadLists(xs[1..]).value)
  }

  function ReadMeta(x: Item): Option<MetaData> {
    if x.List? && |x.items| == 2 && x.items[0].Str? && x.items[1].Str?
    then Some(MetaData(x.items[0].bytes, x.items[1].bytes))
    else None
  }

  function ReadMetas(xs: seq<Item>): Option<seq<MetaData>> {
    if xs == [] then Some([])
    else if ReadMeta(xs[0]).None? || ReadMetas(xs[1..]).None? then None
    else Some([ReadMeta(xs[0]).value] + ReadMetas(xs[1..]).value)
  }

  function ReadItems(xs: seq<Item>): Option<Block> {
    if |xs| != 6 || !xs[0].List? || !xs[1].List? || !xs[3].Str? || !xs[4].List? || !xs[5].Str? then None
    else
      match ReadStrs(xs[0].items)
      case None => None
      case Some(raw) =>
        if |raw| < 15 || ReadLists(xs[1].items).None? || ReadMetas(xs[4].items).None? then None
        else Some(Block(MakeHeader(raw, xs[3].bytes), raw, ReadLists(xs[1].items).value, ReadMetas(xs[4].items).value,
                        ToNat(xs[5].bytes)))
  }

  /** The constructor of a stored block. */
  function Deserialize(serialized: seq<Byte>): Option<Block> {
    match DecodeBuffer(serialized)
    case None => None
    case Some(x) => if x.List? then ReadItems(x.items) else None
  }

  lemma ReadStrsCons(b: seq<Byte>, xs: seq<Item>, bs: seq<seq<Byte>>)
    requires ReadStrs(xs) == Some(bs)
    ensures ReadStrs([Str(b)] + xs) == Some([b] + bs)
  {
    assert ([Str(b)] + xs)[1..] == xs;
  }

  lemma {:induction false} StrsRead(bs: seq<seq<Byte>>)
    ensures ReadStrs(Strs(bs)) == Some(bs)
  {
    if bs != [] {
      StrsRead(bs[1..]);
      ReadStrsCons(bs[0], Strs(bs[1..]), bs[1..]);
      assert bs == [bs[0]] + bs[1..];
    }
  }

  lemma ReadListsCons(x: seq<Item>, xs: seq<Item>, xss: seq<seq<Item>>)
    requires ReadLists(xs) == Some(xss)
    ensures ReadLists([List(x)] + xs) == Some([x] + xss)
  {
    assert ([List(x)] + xs)[1..] == xs;
  }

  lemma {:induction false} ListsRead(xss: seq<seq<Item>>)
    ensures ReadLists(Lists(xss)) == Some(xss)
  {
    if xss != [] {
      ListsRead(xss[1..]);
      ReadListsCons(xss[0], Lists(xss[1..]), xss[1..]);
      assert xss == [xss[0]] + xss[1..];
    }
  }

  lemma ReadMetasCons(m: MetaData, xs: seq<Item>, ms: seq<MetaData>)
    requires ReadMetas(xs) == Some(ms)
    ensures ReadMetas([List([Str(m.from), Str(m.hash)])] + xs) == Some([m] + ms)
  {
    assert ([List([Str(m.from), Str(m.hash)])] + xs)[1..] == xs;
  }

  lemma {:induction false} MetasRead(ms: seq<MetaData>)
    ensures ReadMetas(Metas(ms)) == Some(ms)
  {
    if ms != [] {
      MetasRead(ms[1..]);
      ReadMetasCons(ms[0], Metas(ms[1..]), ms[1..]);
      assert ms == [ms[0]] + ms[1..];
    }
  }

  /** The block that was stored. */
  function Stored(raw: RawBlock): Block
    requires |raw.header| >= 15
  {
    Block(MakeHeader(raw.header, raw.totalDifficulty), raw.header, raw.transactions, raw.metaData, EthereumSize(raw))
  }

  lemma ItemsRead(raw: RawBlock)
    requires |raw.header| >= 15
    ensures ReadItems(BlockItems(raw)) == Some(Stored(raw))
  {
    StrsRead(raw.header);
    ListsRead(raw.transactions);
    MetasRead(raw.metaData);
    BigEndianValue(EthereumSize(raw));
    var xs := BlockItems(raw);
    assert xs[0] == List(Strs(raw.header)) && xs[1] == List(Lists(raw.transactions));
    assert xs[3] == Str(raw.totalDifficulty) && xs[4] == List(Metas(raw.metaData));
    assert xs[5] == Str(BigEndian(EthereumSize(raw)));
  }

  /** A block read back from what `serialize` stored is the block that was stored, with its size. */
  lemma StoredBlockReadBack(raw: RawBlock)
    requires |raw.header| >= 15 && |Encoding(List(BlockItems(raw)))| < LENGTH_LIMIT
    ensures Deserialize(Encoding(List(BlockItems(raw)))) == Some(Stored(raw))
  {
    DecodesBack(List(BlockItems(raw)));
    ItemsRead(raw);
  }

  /** What is read back of a mined block has the values it was mined with, next to its transactions. */
  lemma MinedBlockReadBack(
      h: RuntimeHeader, r: Results, uncles: seq<Byte>, txs: seq<seq<Item>>, metaData: seq<MetaData>)
    requires FixedParts(MinedHeader(h, r, uncles))
    requires var raw := RawBlock(FinalHeader(h, r, uncles), txs, BigEndian(h.totalDifficulty), metaData);
             |Encoding(List(BlockItems(raw)))| < LENGTH_LIMIT
    ensures var raw := RawBlock(FinalHeader(h, r, uncles), txs, BigEndian(h.totalDifficulty), metaData);
            Deserialize(Encoding(List(BlockItems(raw))))
            == Some(Block(MinedHeader(h, r, uncles), raw.header, txs, metaData, EthereumSize(raw)))
  {
    FinalHeaderValues(h, r, uncles);
    StoredBlockReadBack(RawBlock(FinalHeader(h, r, uncles), txs, BigEndian(h.totalDifficulty), metaData));
  }

  /** Two blocks stored as the same bytes are the same. */
  lemma StoredBlocksDiffer(one: RawBlock, other: RawBlock)
    requires |one.header| >= 15 && |other.header| >= 15 && |Encoding(List(BlockItems(one)))| < LENGTH_LIMIT
    requires Encoding(List(BlockItems(one))) == Encoding(List(BlockItems(other)))
    ensures one.header == other.header && one.transactions == other.transactions && one.metaData == other.metaData
    ensures ToNat(one.totalDifficulty) == ToNat(other.totalDifficulty)
  {
    StoredBlockReadBack(one);
    StoredBlockReadBack(other);
  }
}
