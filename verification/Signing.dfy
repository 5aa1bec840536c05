/**
 * Signing transactions and recovering who signed them, for the three kinds of transaction.
 * Keccak-256 and ECDSA on secp256k1 are uninterpreted; all that is known of them is that
 * recovery undoes signing.
 */
module Signing {
  import opened Bytes
  import opened Wrappers
  import opened Rlp

  // ---------- Foreign code ----------

  /** 64 bytes of r and s, and the recovery id. */
  datatype EcdsaSignature = EcdsaSignature(rs: seq<Byte>, recid: nat)

  datatype Crypto = Crypto(
    keccak: seq<Byte> -> seq<Byte>,
    sign: (seq<Byte>, seq<Byte>) -> Option<EcdsaSignature>,
    recover: (seq<Byte>, seq<Byte>, nat) -> Option<seq<Byte>>,
    convert: seq<Byte> -> Option<seq<Byte>>,
    publicKey: seq<Byte> -> seq<Byte>)

  /** Recovery gives back the signer's public key; compressed keys have 33 bytes, converted ones 65. */
  ghost predicate Lawful(c: Crypto) {
    && (forall h, k :: c.sign(h, k).Some? ==> RecoversAs(c, h, c.sign(h, k).value, c.publicKey(k)))
    && (forall h, rs, recid :: c.recover(h, rs, recid).Some? ==> |c.recover(h, rs, recid).value| == 33)
    && (forall pk :: c.convert(pk).Some? ==> |c.convert(pk).value| == 65)
    && (forall data :: |c.keccak(data)| == 32)
  }

  ghost predicate RecoversAs(c: Crypto, h: seq<Byte>, sig: EcdsaSignature, publicKey: seq<Byte>) {
    |sig.rs| == 64 && sig.recid <= 1 && c.recover(h, sig.rs, sig.recid) == Some(publicKey)
  }

  // ---------- Transactions ----------

  datatype Access = Access(address: seq<Byte>, keys: seq<seq<Byte>>)

  datatype Kind = LegacyKind | AccessListKind | FeeMarketKind

  datatype Fields =
    | Legacy(nonce: nat, gasPrice: nat, gas: nat, to: seq<Byte>, value: nat, data: seq<Byte>)
    | AccessList(chainId: nat, nonce: nat, gasPrice: nat, gas: nat, to: seq<Byte>, value: nat, data: seq<Byte>,
                 accessList: seq<Access>)
    | FeeMarket(chainId: nat, nonce: nat, maxPriorityFeePerGas: nat, maxFeePerGas: nat, gas: nat, to: seq<Byte>,
                value: nat, data: seq<Byte>, accessList: seq<Access>)
  {
    function Kind(): Kind {
      if Legacy? then LegacyKind else if AccessList? then AccessListKind else FeeMarketKind
    }

    /** Calls have a recipient of 20 bytes, contract creations an empty one. */
    predicate Valid() { |to| == 0 || |to| == 20 }
  }

  /** Where the chain is: its id, and which rules are active. */
  datatype Common = Common(
    chainId: nat, homestead: bool, spuriousDragon: bool, eip2718: bool, eip2930: bool, eip1559: bool)

  datatype Signed = Signed(
    fields: Fields, v: nat, r: nat, s: nat, from: seq<Byte>, hash: seq<Byte>, serialized: seq<Byte>)

  datatype Error = CannotSign | CouldNotDecode | NotAList | Malformed | NotActivated | WrongChain
    | InvalidV | InvalidSignature | STooLarge

  function Num(n: nat): Item { Str(BigEndian(n)) }

  function KeyItems(keys: seq<seq<Byte>>): seq<Item> {
    if keys == [] then [] else [Str(keys[0])] + KeyItems(keys[1..])
  }

  function AccessItems(accesses: seq<Access>): seq<Item> {
    if accesses == [] then []
    else [List([Str(accesses[0].address), List(KeyItems(accesses[0].keys))])] + AccessItems(accesses[1..])
  }

  /** `toEthRawTransaction` without the type and the signature. */
  function Core(f: Fields): seq<Item> {
    match f
    case Legacy(nonce, gasPrice, gas, to, value, data) =>
      [Num(nonce), Num(gasPrice), Num(gas), Str(to), Num(value), Str(data)]
    case AccessList(chainId, nonce, gasPrice, gas, to, value, data, accessList) =>
      [Num(chainId), Num(nonce), Num(gasPrice), Num(gas), Str(to), Num(value), Str(data), List(AccessItems(accessList))]
    case FeeMarket(chainId, nonce, tip, maxFee, gas, to, value, data, accessList) =>
      [Num(chainId), Num(nonce), Num(tip), Num(maxFee), Num(gas), Str(to), Num(value), Str(data),
       List(AccessItems(accessList))]
  }

  function CoreLength(kind: Kind): nat {
    match kind case LegacyKind => 6 case AccessListKind => 8 case FeeMarketKind => 9
  }

  function TypeByte(kind: Kind): seq<Byte> {
    match kind case LegacyKind => [] case AccessListKind => [1] case FeeMarketKind => [2]
  }

  function SignatureItems(v: nat, r: nat, s: nat): seq<Item> { [Num(v), Num(r), Num(s)] }

  function Serialized(f: Fields, v: nat, r: nat, s: nat): seq<Byte> {
    TypeByte(f.Kind()) + Encoding(List(Core(f) + SignatureItems(v, r, s)))
  }

  // ---------- Signing ----------

  /** `BN.toArrayLike`: at least one byte. */
  function ChainBuffer(chainId: nat): seq<Byte> { if chainId == 0 then [0] else BigEndian(chainId) }

  /** What the signer hashes. */
  function SigningData(f: Fields, common: Common): seq<Byte> {
    if f.Legacy? && common.spuriousDragon
    then Encoding(List(Core(f) + [Str(ChainBuffer(common.chainId)), Str([]), Str([])]))
    else TypeByte(f.Kind()) + Encoding(List(Core(f)))
  }

  function SigningV(f: Fields, common: Common, recid: nat): nat {
    if !f.Legacy? then recid else if common.spuriousDragon then recid + 35 + 2 * common.chainId else recid + 27
  }

  // ---------- Recovery ----------

  /** `copyOrFill`: zeros to the left; too long a source is refused. */
  function Filled(bs: seq<Byte>, length: nat): seq<Byte>
    requires |bs| <= length
  {
    seq(length - |bs|, _ => 0) + bs
  }

  /** `intToBuffer`: nothing for 0. */
  function IntToBuffer(value: nat): seq<Byte> { BigEndian(value) }

  predicate IsEip155(v: nat, chainId: nat) {
    v == chainId * 2 + 35 || v == chainId * 2 + 36
  }

  /** What recovery hashes, from the decoded items and the chain's own id. */
  function RecoveryData(kind: Kind, core: seq<Item>, v: nat, chainId: nat): seq<Byte> {
    if kind.LegacyKind? && IsEip155(v, chainId)
    then Encoding(List(core + [Str(IntToBuffer(chainId)), Str([]), Str([])]))
    else TypeByte(kind) + Encoding(List(core))
  }

  function RecoveryId(kind: Kind, v: nat, chainId: nat): int {
    if !kind.LegacyKind? then v else if IsEip155(v, chainId) then v - (chainId * 2 + 35) else v - 27
  }

  function RecoverKey(c: Crypto, data: seq<Byte>, rBuf: seq<Byte>, sBuf: seq<Byte>, recid: int)
    : Result<seq<Byte>, Error>
  {
    if recid != 0 && recid != 1 then Failure(InvalidV)
    else if |rBuf| > 32 || |sBuf| > 32 then Failure(InvalidSignature)
    else
      match c.recover(c.keccak(data), Filled(rBuf, 32) + Filled(sBuf, 32), recid)
      case None => Failure(InvalidSignature)
      case Some(publicKey) => Success(publicKey)
  }

  /** The last 20 bytes of the hash of the key without its first byte. */
  function AddressOf(c: Crypto, publicKey: seq<Byte>): Result<seq<Byte>, Error> {
    match c.convert(publicKey)
    case None => Failure(InvalidSignature)
    case Some(long) =>
      if |long| == 0 then Failure(InvalidSignature)
      else
        var h := c.keccak(long[1..]);
        Success(if |h| > 20 then h[|h| - 20..] else h)
  }

  /** Who signed the items. */
  function Sender(kind: Kind, core: seq<Item>, v: nat, rBuf: seq<Byte>, sBuf: seq<Byte>, chainId: nat, c: Crypto)
    : Result<seq<Byte>, Error>
  {
    match RecoverKey(c, RecoveryData(kind, core, v, chainId), rBuf, sBuf, RecoveryId(kind, v, chainId))
    case Failure(e) => Failure(e)
    case Success(publicKey) => AddressOf(c, publicKey)
  }

  // ---------- Parsing ----------

  /** A recipient of another length is padded or cut; an empty list passes for an empty buffer. */
  function ParseTo(x: Item): Option<seq<Byte>> {
    match x
    case List(xs) => if xs == [] then Some([]) else None
    case Str(b) => Some(if b == [] then [] else if |b| <= 20 then Filled(b, 20) else b[..20])
  }

  function ParseKeys(xs: seq<Item>): Option<seq<seq<Byte>>> {
    if xs == [] then Some([])
    else if !xs[0].Str? || ParseKeys(xs[1..]).None? then None
    else Some([xs[0].bytes] + ParseKeys(xs[1..]).value)
  }

  function ParseAccess(x: Item): Option<Access> {
    if x.List? && |x.items| == 2 && x.items[0].Str? && x.items[1].List? && ParseKeys(x.items[1].items).Some?
    then Some(Access(x.items[0].bytes, ParseKeys(x.items[1].items).value))
    else None
  }

  function ParseAccesses(xs: seq<Item>): Option<seq<Access>> {
    if xs == [] then Some([])
    else if ParseAccess(xs[0]).None? || ParseAccesses(xs[1..]).None? then None
    else Some([ParseAccess(xs[0]).value] + ParseAccesses(xs[1..]).value)
  }

  function N(x: Item): nat
    requires x.Str?
  {
    ToNat(x.bytes)
  }

  function ParseLegacy(xs: seq<Item>): Option<Fields>
    requires |xs| == 6
  {
    if xs[0].Str? && xs[1].Str? && xs[2].Str? && ParseTo(xs[3]).Some? && xs[4].Str? && xs[5].Str?
    then Some(Legacy(N(xs[0]), N(xs[1]), N(xs[2]), ParseTo(xs[3]).value, N(xs[4]), xs[5].bytes))
    else None
  }

  function ParseAccessList(xs: seq<Item>): Option<Fields>
    requires |xs| == 8
  {
    if && xs[0].Str? && xs[1].Str? && xs[2].Str? && xs[3].Str? && ParseTo(xs[4]).Some? && xs[5].Str? && xs[6].Str?
       && xs[7].List? && ParseAccesses(xs[7].items).Some?
    then Some(AccessList(N(xs[0]), N(xs[1]), N(xs[2]), N(xs[3]), ParseTo(xs[4]).value, N(xs[5]), xs[6].bytes,
                         ParseAccesses(xs[7].items).value))
    else None
  }

  function ParseFeeMarket(xs: seq<Item>): Option<Fields>
    requires |xs| == 9
  {
    if && xs[0].Str? && xs[1].Str? && xs[2].Str? && xs[3].Str? && xs[4].Str? && ParseTo(xs[5]).Some?
       && xs[6].Str? && xs[7].Str? && xs[8].List? && ParseAccesses(xs[8].items).Some?
    then Some(FeeMarket(N(xs[0]), N(xs[1]), N(xs[2]), N(xs[3]), N(xs[4]), ParseTo(xs[5]).value, N(xs[6]), xs[7].bytes,
                        ParseAccesses(xs[8].items).value))
    else None
  }

  function ParseCore(kind: Kind, xs: seq<Item>): Option<Fields>
    requires |xs| == CoreLength(kind)
  {
    match kind
    case LegacyKind => ParseLegacy(xs)
    case AccessListKind => ParseAccessList(xs)
    case FeeMarketKind => ParseFeeMarket(xs)
  }

  /** The decoded items, taken apart; only a typed transaction names its chain. */
  datatype Parts = Parts(fields: Fields, core: seq<Item>, vBuf: seq<Byte>, rBuf: seq<Byte>, sBuf: seq<Byte>)
  {
    /** The items that are serialized again. */
    function Items(): seq<Item> { core + [Str(vBuf), Str(rBuf), Str(sBuf)] }
  }

  function TakeApart(kind: Kind, xs: seq<Item>, chainId: nat): Result<Parts, Error> {
    var n := CoreLength(kind);
    if |xs| < n + 3 || !xs[n].Str? || !xs[n + 1].Str? || !xs[n + 2].Str? then Failure(Malformed)
    else
      match ParseCore(kind, xs[..n])
      case None => Failure(Malformed)
      case Some(fields) =>
        if !fields.Legacy? && fields.chainId != chainId then Failure(WrongChain)
        else Success(Parts(fields, xs[..n], xs[n].bytes, xs[n + 1].bytes, xs[n + 2].bytes))
  }

  /** The constructor from raw items, for a transaction that does not come from the database. */
  function FromPayload(kind: Kind, xs: seq<Item>, common: Common, c: Crypto): Result<Signed, Error> {
    match TakeApart(kind, xs, common.chainId)
    case Failure(e) => Failure(e)
    case Success(p) =>
      match Sender(kind, p.core, ToNat(p.vBuf), p.rBuf, p.sBuf, common.chainId, c)
      case Failure(e) => Failure(e)
      case Success(from) =>
        var serialized := TypeByte(kind) + Encoding(List(p.Items()));
        Success(Signed(p.fields, ToNat(p.vBuf), ToNat(p.rBuf), ToNat(p.sBuf), from, c.keccak(serialized), serialized))
  }

  /** `typeOf`, on the first byte. */
  function TypeOf(data: seq<Byte>): Kind {
    if data == [] then LegacyKind
    else if data[0] == 1 then AccessListKind
    else if data[0] == 2 then FeeMarketKind
    else LegacyKind
  }

  function FromData(kind: Kind, raw: Item, common: Common, c: Crypto): Result<Signed, Error> {
    if !raw.List? then Failure(NotAList)
    else if !common.eip2718 then FromPayload(LegacyKind, raw.items, common, c)
    else if !common.eip1559 && (kind.FeeMarketKind? || (kind.AccessListKind? && !common.eip2930))
    then Failure(NotActivated)
    else FromPayload(kind, raw.items, common, c)
  }

  /** Half of the order of the curve, rounded down. */
  const MAX_S: nat := 0x7fffffffffffffffffffffffffffffff5d576e7357a4501ddfe92f46681b20a0

  function FromString(data: seq<Byte>, common: Common, c: Crypto): Result<Signed, Error> {
    var kind := if common.eip2718 then TypeOf(data) else LegacyKind;
    match DecodeBuffer(if kind.LegacyKind? then data else data[1..])
    case None => Failure(CouldNotDecode)
    case Some(raw) =>
      match FromData(kind, raw, common, c)
      case Failure(e) => Failure(e)
      case Success(tx) => if tx.s >= MAX_S && common.homestead then Failure(STooLarge) else Success(tx)
  }

  // ---------- Buffers ----------

  /** Leading zeros lost in a number come back when it is filled to its length. */
  lemma {:induction false} FillRestores(bs: seq<Byte>)
    ensures |BigEndian(ToNat(bs))| <= |bs|
    ensures Filled(BigEndian(ToNat(bs)), |bs|) == bs
  {
    ToNatBound(bs);
    BigEndianLength(ToNat(bs), |bs|);
    if bs != [] {
      var hi, lo := bs[..|bs| - 1], bs[|bs| - 1];
      FillRestores(hi);
      assert ToNat(bs) / 256 == ToNat(hi) && ToNat(bs) % 256 == lo;
      assert bs == hi + [lo];
      if ToNat(bs) != 0 {
        assert Filled(BigEndian(ToNat(bs)), |bs|) == Filled(BigEndian(ToNat(hi)), |hi|) + [lo];
      } else {
        assert Filled([], |bs|) == Filled([], |hi|) + [lo];
      }
    }
  }

  /** Fails without touching the target if the source is too long. */
  method CopyOrFill(source: seq<Byte>, target: array<Byte>, targetStart: nat, length: nat) returns (ok: bool)
    requires targetStart + length <= target.Length
    modifies target
    ensures ok == (|source| <= length)
    ensures ok ==> target[..] == old(target[..])[..targetStart] + Filled(source, length)
                                 + old(target[..])[targetStart + length..]
    ensures !ok ==> target[..] == old(target[..])
  {
    if |source| > length {
      return false;
    }
    var numZeroes := length - |source|;
    var endZeroes := targetStart + numZeroes;
    var i := targetStart;
    ghost var filled := Filled(source, length);
    while i < endZeroes
      invariant targetStart <= i <= endZeroes
      invariant forall k :: 0 <= k < i - targetStart ==> target[targetStart + k] == filled[k]
      invariant forall k :: 0 <= k < target.Length && !(targetStart <= k < i) ==> target[k] == old(target[k])
    {
      target[i] := 0;
      i := i + 1;
    }
    var end := targetStart + length;
    while i < end
      invariant endZeroes <= i <= end
      invariant forall k :: 0 <= k < i - targetStart ==> target[targetStart + k] == filled[k]
      invariant forall k :: 0 <= k < target.Length && !(targetStart <= k < i) ==> target[k] == old(target[k])
    {
      target[i] := source[i - endZeroes];
      i := i + 1;
    }
    assert target[targetStart..end] == filled;
    assert target[..] == target[..targetStart] + target[targetStart..end] + target[end..];
    ok := true;
  }

  /** The signature and the recovered key share one buffer; the key is written over the signature. */
  method EcdsaRecover(
      c: Crypto, data: seq<Byte>, sharedBuffer: array<Byte>, rBuf: seq<Byte>, sBuf: seq<Byte>, recid: int)
    returns (publicKey: Result<seq<Byte>, Error>)
    requires Lawful(c) && sharedBuffer.Length >= 65
    modifies sharedBuffer
    ensures publicKey == RecoverKey(c, data, rBuf, sBuf, recid)
    ensures publicKey.Success? ==> sharedBuffer[..33] == publicKey.value
  {
    if recid != 0 && recid != 1 {
      return Failure(InvalidV);
    }
    var message := c.keccak(data);
    var ok := CopyOrFill(rBuf, sharedBuffer, 0, 32);
    if !ok {
      return Failure(InvalidSignature);
    }
    assert sharedBuffer[..32] == Filled(rBuf, 32);
    ok := CopyOrFill(sBuf, sharedBuffer, 32, 32);
    if !ok {
      return Failure(InvalidSignature);
    }
    assert sharedBuffer[..64] == Filled(rBuf, 32) + Filled(sBuf, 32);
    var output := c.recover(message, sharedBuffer[..64], recid);
    if output.None? {
      return Failure(InvalidSignature);
    }
    assert |output.value| == 33;
    Copy(output.value, sharedBuffer, 0);
    assert sharedBuffer[..33] == output.value;
    publicKey := Success(sharedBuffer[..33]);
  }

  // ---------- Encoding and decoding transactions ----------

  lemma EncodingInjective(x: Item, y: Item)
    requires |Encoding(x)| < LENGTH_LIMIT && Encoding(x) == Encoding(y)
    ensures x == y
  {
    DecodesBack(x);
    DecodesBack(y);
  }

  /** Lists start with a byte no type uses. */
  lemma ListStartsHigh(xs: seq<Item>)
    requires |Encoding(List(xs))| < LENGTH_LIMIT
    ensures Encoding(List(xs)) != [] && Encoding(List(xs))[0] >= 192
  {
    if |Payload(xs)| >= 56 { LongHeader(|Payload(xs)|, LIST_OFFSET); }
  }

  lemma {:induction false} KeysParsed(keys: seq<seq<Byte>>)
    ensures ParseKeys(KeyItems(keys)) == Some(keys)
  {
    if keys != [] {
      KeysParsed(keys[1..]);
      assert KeyItems(keys)[1..] == KeyItems(keys[1..]);
      assert keys == [keys[0]] + keys[1..];
    }
  }

  lemma AccessParsed(access: Access)
    ensures ParseAccess(List([Str(access.address), List(KeyItems(access.keys))])) == Some(access)
  {
    KeysParsed(access.keys);
  }

  lemma {:induction false} AccessesParsed(accesses: seq<Access>)
    ensures ParseAccesses(AccessItems(accesses)) == Some(accesses)
  {
    if accesses != [] {
      AccessParsed(accesses[0]);
      AccessesParsed(accesses[1..]);
      assert AccessItems(accesses)[1..] == AccessItems(accesses[1..]);
      assert accesses == [accesses[0]] + accesses[1..];
    }
  }

  lemma NumParsed(n: nat)
    ensures Num(n).Str? && N(Num(n)) == n
  {
    BigEndianValue(n);
  }

  lemma ToParsed(to: seq<Byte>)
    requires |to| == 0 || |to| == 20
    ensures ParseTo(Str(to)) == Some(to)
  {
    assert Filled(to, |to|) == to;
  }

  lemma LegacyParsed(f: Fields)
    requires f.Valid() && f.Legacy?
    ensures |Core(f)| == 6 && ParseCore(LegacyKind, Core(f)) == Some(f)
  {
    ToParsed(f.to);
    NumParsed(f.nonce);
    NumParsed(f.gasPrice);
    NumParsed(f.gas);
    NumParsed(f.value);
  }

  lemma AccessListParsed(f: Fields)
    requires f.Valid() && f.AccessList?
    ensures |Core(f)| == 8 && ParseCore(AccessListKind, Core(f)) == Some(f)
  {
    ToParsed(f.to);
    NumParsed(f.chainId);
    NumParsed(f.nonce);
    NumParsed(f.gasPrice);
    NumParsed(f.gas);
    NumParsed(f.value);
    AccessesParsed(f.accessList);
  }

  lemma FeeMarketParsed(f: Fields)
    requires f.Valid() && f.FeeMarket?
    ensures |Core(f)| == 9 && ParseCore(FeeMarketKind, Core(f)) == Some(f)
  {
    ToParsed(f.to);
    NumParsed(f.chainId);
    NumParsed(f.nonce);
    NumParsed(f.maxPriorityFeePerGas);
    NumParsed(f.maxFeePerGas);
    NumParsed(f.gas);
    NumParsed(f.value);
    AccessesParsed(f.accessList);
  }

  lemma CoreParsed(f: Fields)
    requires f.Valid()
    ensures |Core(f)| == CoreLength(f.Kind()) && ParseCore(f.Kind(), Core(f)) == Some(f)
  {
    match f
    case Legacy(_, _, _, _, _, _) => LegacyParsed(f);
    case AccessList(_, _, _, _, _, _, _, _) => AccessListParsed(f);
    case FeeMarket(_, _, _, _, _, _, _, _, _) => FeeMarketParsed(f);
  }

  // ---------- Signing and recovery hash the same bytes ----------

  /** They do, except for a legacy transaction on a chain with id 0. */
  lemma SameBytesIff(f: Fields, common: Common, recid: nat)
    requires recid <= 1 && |SigningData(f, common)| < LENGTH_LIMIT
    ensures RecoveryData(f.Kind(), Core(f), SigningV(f, common, recid), common.chainId) == SigningData(f, common)
            <==> !(f.Legacy? && common.spuriousDragon && common.chainId == 0)
    ensures RecoveryId(f.Kind(), SigningV(f, common, recid), common.chainId) == recid
  {
    if f.Legacy? && common.spuriousDragon && common.chainId == 0 {
      var one, other := Core(f) + [Str([0]), Str([]), Str([])], Core(f) + [Str([]), Str([]), Str([])];
      assert one[6] != other[6];
      if Encoding(List(one)) == Encoding(List(other)) {
        EncodingInjective(List(one), List(other));
      }
    }
  }

  /** Every byte of a signature survives being stored as two numbers. */
  lemma SignatureSurvives(rs: seq<Byte>)
    requires |rs| == 64
    ensures |BigEndian(ToNat(rs[..32]))| <= 32 && |BigEndian(ToNat(rs[32..]))| <= 32
    ensures Filled(BigEndian(ToNat(rs[..32])), 32) + Filled(BigEndian(ToNat(rs[32..])), 32) == rs
  {
    FillRestores(rs[..32]);
    FillRestores(rs[32..]);
  }

  // ---------- Signing, then parsing ----------

  /** What `signAndHash` leaves in the transaction. */
  function SignedAs(f: Fields, common: Common, c: Crypto, key: seq<Byte>): Option<(nat, nat, nat)> {
    match c.sign(c.keccak(SigningData(f, common)), key)
    case None => None
    case Some(sig) =>
      if |sig.rs| != 64 then None
      else Some((SigningV(f, common, sig.recid), ToNat(sig.rs[..32]), ToNat(sig.rs[32..])))
  }

  predicate Active(kind: Kind, common: Common) {
    match kind
    case LegacyKind => true
    case AccessListKind => common.eip2718 && (common.eip1559 || common.eip2930)
    case FeeMarketKind => common.eip2718 && common.eip1559
  }

  lemma PayloadParsed(f: Fields, v: nat, r: nat, s: nat, common: Common, c: Crypto)
    requires f.Valid() && (!f.Legacy? ==> f.chainId == common.chainId)
    ensures FromPayload(f.Kind(), Core(f) + SignatureItems(v, r, s), common, c)
            == match Sender(f.Kind(), Core(f), v, BigEndian(r), BigEndian(s), common.chainId, c)
               case Failure(e) => Failure(e)
               case Success(from) =>
                 Success(Signed(f, v, r, s, from, c.keccak(Serialized(f, v, r, s)), Serialized(f, v, r, s)))
  {
    TakenApart(f, v, r, s, common.chainId);
    BigEndianValue(v);
    BigEndianValue(r);
    BigEndianValue(s);
  }

  lemma TakenApart(f: Fields, v: nat, r: nat, s: nat, chainId: nat)
    requires f.Valid()
    ensures TakeApart(f.Kind(), Core(f) + SignatureItems(v, r, s), chainId)
            == if !f.Legacy? && f.chainId != chainId then Failure(WrongChain)
               else Success(Parts(f, Core(f), BigEndian(v), BigEndian(r), BigEndian(s)))
  {
    CoreParsed(f);
    SplitAt(Core(f), SignatureItems(v, r, s));
  }

  lemma SplitAt(front: seq<Item>, back: seq<Item>)
    ensures (front + back)[..|front|] == front && forall i :: 0 <= i < |back| ==> (front + back)[|front| + i] == back[i]
  {
  }

  lemma StringDecoded(f: Fields, v: nat, r: nat, s: nat, common: Common, c: Crypto)
    requires Active(f.Kind(), common) && |Serialized(f, v, r, s)| < LENGTH_LIMIT
    ensures FromString(Serialized(f, v, r, s), common, c)
            == match FromPayload(f.Kind(), Core(f) + SignatureItems(v, r, s), common, c)
               case Failure(e) => Failure(e)
               case Success(tx) => if tx.s >= MAX_S && common.homestead then Failure(STooLarge) else Success(tx)
  {
    var items := Core(f) + SignatureItems(v, r, s);
    ListStartsHigh(items);
    TypeRead(f.Kind(), Encoding(List(items)));
    DecodesBack(List(items));
    ActiveParsed(f.Kind(), items, common, c);
  }

  lemma ActiveParsed(kind: Kind, items: seq<Item>, common: Common, c: Crypto)
    requires Active(kind, common)
    ensures FromData(kind, List(items), common, c) == FromPayload(kind, items, common, c)
    ensures !common.eip2718 ==> kind == LegacyKind
  {
  }

  lemma TypeRead(kind: Kind, encoded: seq<Byte>)
    requires encoded != [] && encoded[0] >= 192
    ensures TypeOf(TypeByte(kind) + encoded) == kind
    ensures (if kind.LegacyKind? then TypeByte(kind) + encoded else (TypeByte(kind) + encoded)[1..]) == encoded
  {
  }

  /** An address is the last 20 bytes of the hash of the 64 bytes of the key. */
  lemma AddressIs(c: Crypto, publicKey: seq<Byte>)
    requires Lawful(c)
    ensures AddressOf(c, publicKey)
            == match c.convert(publicKey)
               case None => Failure(InvalidSignature)
               case Some(long) => Success(c.keccak(long[1..65])[12..])
  {
    if c.convert(publicKey).Some? {
      var long := c.convert(publicKey).value;
      assert |long| == 65 && long[1..65] == long[1..] && |c.keccak(long[1..])| == 32;
    }
  }

  /** Recovery from what a signature is stored as finds the signer. */
  lemma SignerRecovered(f: Fields, common: Common, c: Crypto, key: seq<Byte>, sig: EcdsaSignature)
    requires Lawful(c) && |SigningData(f, common)| < LENGTH_LIMIT
    requires RecoversAs(c, c.keccak(SigningData(f, common)), sig, c.publicKey(key))
    requires f.Legacy? && common.spuriousDragon ==> common.chainId > 0
    ensures Sender(f.Kind(), Core(f), SigningV(f, common, sig.recid), BigEndian(ToNat(sig.rs[..32])),
                   BigEndian(ToNat(sig.rs[32..])), common.chainId, c)
            == match c.convert(c.publicKey(key))
               case None => Failure(InvalidSignature)
               case Some(long) => Success(c.keccak(long[1..65])[12..])
  {
    SameBytesIff(f, common, sig.recid);
    SignatureSurvives(sig.rs);
    AddressIs(c, c.publicKey(key));
  }

  /**
   * Parsing what was signed gives back the same transaction and its sender, the last 20 bytes
   * of the hash of the signer's public key, for all three kinds, unless s is above the limit.
   */
  lemma SignedIsParsed(f: Fields, common: Common, c: Crypto, key: seq<Byte>)
    requires Lawful(c) && |f.to| in {0, 20} && Active(f.Kind(), common)
    requires !f.Legacy? ==> f.chainId == common.chainId
    requires f.Legacy? && common.spuriousDragon ==> common.chainId > 0
    requires SignedAs(f, common, c, key).Some? && c.convert(c.publicKey(key)).Some?
    requires |SigningData(f, common)| < LENGTH_LIMIT
    requires var (v, r, s) := SignedAs(f, common, c, key).value; |Serialized(f, v, r, s)| < LENGTH_LIMIT
    ensures var (v, r, s) := SignedAs(f, common, c, key).value;
            var serialized := Serialized(f, v, r, s);
            var from := c.keccak(c.convert(c.publicKey(key)).value[1..65])[12..];
            && |from| == 20
            && FromString(serialized, common, c)
               == if s >= MAX_S && common.homestead then Failure(STooLarge)
                  else Success(Signed(f, v, r, s, from, c.keccak(serialized), serialized))
  {
    var (v, r, s) := SignedAs(f, common, c, key).value;
    var from := c.keccak(c.convert(c.publicKey(key)).value[1..65])[12..];
    SenderOfSigned(f, common, c, key);
    assert |c.keccak(c.convert(c.publicKey(key)).value[1..65])| == 32;
    ParsedFrom(f, v, r, s, common, c, from);
  }

  lemma SenderOfSigned(f: Fields, common: Common, c: Crypto, key: seq<Byte>)
    requires Lawful(c) && |SigningData(f, common)| < LENGTH_LIMIT
    requires f.Legacy? && common.spuriousDragon ==> common.chainId > 0
    requires SignedAs(f, common, c, key).Some? && c.convert(c.publicKey(key)).Some?
    ensures var (v, r, s) := SignedAs(f, common, c, key).value;
            && |c.convert(c.publicKey(key)).value| == 65
            && Sender(f.Kind(), Core(f), v, BigEndian(r), BigEndian(s), common.chainId, c)
               == Success(c.keccak(c.convert(c.publicKey(key)).value[1..65])[12..])
  {
    var h := c.keccak(SigningData(f, common));
    var sig := c.sign(h, key).value;
    assert RecoversAs(c, h, sig, c.publicKey(key));
    SignerRecovered(f, common, c, key, sig);
  }

  lemma ParsedFrom(f: Fields, v: nat, r: nat, s: nat, common: Common, c: Crypto, from: seq<Byte>)
    requires f.Valid() && Active(f.Kind(), common) && (!f.Legacy? ==> f.chainId == common.chainId)
    requires |Serialized(f, v, r, s)| < LENGTH_LIMIT
    requires Sender(f.Kind(), Core(f), v, BigEndian(r), BigEndian(s), common.chainId, c) == Success(from)
    ensures FromString(Serialized(f, v, r, s), common, c)
            == if s >= MAX_S && common.homestead then Failure(STooLarge)
               else Success(Signed(f, v, r, s, from, c.keccak(Serialized(f, v, r, s)), Serialized(f, v, r, s)))
  {
    StringDecoded(f, v, r, s, common, c);
    PayloadParsed(f, v, r, s, common, c);
  }

  /** Half of the order of secp256k1. */
  lemma MaxSIsHalf()
    ensures MAX_S == 0xfffffffffffffffffffffffffffffffebaaedce6af48a03bbfd25e8cd0364141 / 2
  {
  }

  /** A kind whose rules are not active is refused, whatever else is in the transaction. */
  lemma InactiveRefused(f: Fields, v: nat, r: nat, s: nat, common: Common, c: Crypto)
    requires !Active(f.Kind(), common) && |Serialized(f, v, r, s)| < LENGTH_LIMIT
    ensures FromString(Serialized(f, v, r, s), common, c)
            == Failure(if common.eip2718 then NotActivated else CouldNotDecode)
  {
    var items := Core(f) + SignatureItems(v, r, s);
    ListStartsHigh(items);
    TypeRead(f.Kind(), Encoding(List(items)));
    if common.eip2718 {
      DecodesBack(List(items));
    } else {
      SmallByteFirst(TypeByte(f.Kind())[0], Encoding(List(items)));
    }
  }

  /** A small byte is an item of its own, so what follows it is too much. */
  lemma SmallByteFirst(b: Byte, rest: seq<Byte>)
    requires b < 128 && rest != []
    ensures DecodeBuffer([b] + rest) == None
  {
    assert ([b] + rest)[1..] == rest;
  }

  /**
   * A recipient is empty or has 20 bytes: shorter ones get zeros to the left, longer ones are
   * cut. Of the lists only the empty one passes, for an empty recipient.
   */
  lemma ToHasLength(b: seq<Byte>, xs: seq<Item>)
    ensures ParseTo(List([])) == Some([]) && (ParseTo(List(xs)).Some? <==> |xs| == 0)
    ensures ParseTo(Str(b)).Some?
    ensures var to := ParseTo(Str(b)).value;
            && (b == [] <==> to == []) && (b != [] ==> |to| == 20)
            && (0 < |b| <= 20 ==> to[20 - |b|..] == b && forall i :: 0 <= i < 20 - |b| ==> to[i] == 0)
            && (|b| > 20 ==> to <= b)
  {
  }

  /** A legacy signature for one chain id is refused under every other one. */
  lemma OtherChainRefused(f: Fields, common: Common, other: Common, recid: nat, r: nat, s: nat, c: Crypto)
    requires f.Legacy? && f.Valid() && common.spuriousDragon && recid <= 1
    requires other.chainId != common.chainId
    requires |Serialized(f, SigningV(f, common, recid), r, s)| < LENGTH_LIMIT
    ensures FromString(Serialized(f, SigningV(f, common, recid), r, s), other, c) == Failure(InvalidV)
  {
    var v := SigningV(f, common, recid);
    StringDecoded(f, v, r, s, other, c);
    PayloadParsed(f, v, r, s, other, c);
  }

  /** So is a typed transaction, whose chain id is among its fields. */
  lemma OtherChainRefusedTyped(f: Fields, v: nat, r: nat, s: nat, other: Common, c: Crypto)
    requires !f.Legacy? && f.Valid() && Active(f.Kind(), other) && f.chainId != other.chainId
    requires |Serialized(f, v, r, s)| < LENGTH_LIMIT
    ensures FromString(Serialized(f, v, r, s), other, c) == Failure(WrongChain)
  {
    StringDecoded(f, v, r, s, other, c);
    TakenApart(f, v, r, s, other.chainId);
  }
}
