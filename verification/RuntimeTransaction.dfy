/** Transactions as objects: signed once, and rebuilt from decoded items, with the incremental encoder. */
module RuntimeTransaction {
  import opened Bytes
  import opened Wrappers
  import opened Rlp
  import opened Signing

  /** The bytes the signer hashes. */
  method SigningMessage(f: Fields, common: Common) returns (data: seq<Byte>)
    requires common.chainId < LENGTH_LIMIT && |Payload(Core(f))| + 128 < LENGTH_LIMIT
    ensures data == SigningData(f, common)
  {
    var core, chain := Core(f), ChainBuffer(common.chainId);
    var unsigned := core + [Str(chain), Str([]), Str([])];
    ShortItems(core, chain, common.chainId);
    assert unsigned[..|core|] == core;
    var front, whole := Digests(unsigned, |core|);
    data := if f.Legacy? && common.spuriousDragon then whole else TypeByte(f.Kind()) + front;
  }

  /** The bytes recovery hashes. */
  method RecoveryMessage(kind: Kind, core: seq<Item>, v: nat, chainId: nat) returns (data: seq<Byte>)
    requires chainId < LENGTH_LIMIT && |Payload(core)| + 128 < LENGTH_LIMIT
    ensures data == RecoveryData(kind, core, v, chainId)
  {
    var extras := [Str(IntToBuffer(chainId)), Str([]), Str([])];
    ShortExtras(core, chainId);
    assert (core + extras)[..|core|] == core;
    var front, whole := Digests(core + extras, |core|);
    data := if kind.LegacyKind? && IsEip155(v, chainId) then whole else TypeByte(kind) + front;
  }

  lemma ShortString(b: seq<Byte>)
    requires |b| < 56
    ensures |Encoding(Str(b))| <= |b| + 1
  {
  }

  lemma PayloadOfThree(core: seq<Item>, a: seq<Byte>, b: seq<Byte>, c: seq<Byte>)
    requires |a| < 56 && |b| < 56 && |c| < 56
    ensures |Payload(core + [Str(a), Str(b), Str(c)])| <= |Payload(core)| + |a| + |b| + |c| + 3
  {
    ShortString(a);
    ShortString(b);
    ShortString(c);
    PayloadSnoc(core, Str(a));
    PayloadSnoc(core + [Str(a)], Str(b));
    PayloadSnoc(core + [Str(a)] + [Str(b)], Str(c));
    assert core + [Str(a), Str(b), Str(c)] == core + [Str(a)] + [Str(b)] + [Str(c)];
  }

  lemma ShortItems(core: seq<Item>, chain: seq<Byte>, chainId: nat)
    requires chain == ChainBuffer(chainId) && chainId < LENGTH_LIMIT
    ensures |Payload(core + [Str(chain), Str([]), Str([])])| <= |Payload(core)| + 128
  {
    LimitIsPow();
    BigEndianLength(chainId, 8);
    PayloadOfThree(core, chain, [], []);
  }

  lemma ShortExtras(core: seq<Item>, chainId: nat)
    requires chainId < LENGTH_LIMIT
    ensures |Payload(core + [Str(IntToBuffer(chainId)), Str([]), Str([])])| <= |Payload(core)| + 128
  {
    LimitIsPow();
    BigEndianLength(chainId, 8);
    PayloadOfThree(core, IntToBuffer(chainId), [], []);
  }

  lemma ShortSignature(core: seq<Item>, v: nat, rs: seq<Byte>)
    requires |rs| == 64 && v < 4 * LENGTH_LIMIT
    ensures |Payload(core + SignatureItems(v, ToNat(rs[..32]), ToNat(rs[32..])))| <= |Payload(core)| + 128
  {
    FillRestores(rs[..32]);
    FillRestores(rs[32..]);
    LimitIsPow();
    BigEndianLength(v, 9);
    PayloadOfThree(core, BigEndian(v), BigEndian(ToNat(rs[..32])), BigEndian(ToNat(rs[32..])));
  }

  class RuntimeTransaction {
    const fields: Fields
    var v: Option<nat>
    var r: nat
    var s: nat
    var from: seq<Byte>
    var raw: seq<Item>
    var serialized: seq<Byte>
    var hash: seq<Byte>

    /** A transaction that is not signed yet. */
    constructor (fields: Fields, from: seq<Byte>)
      ensures this.fields == fields && this.from == from && v == None
    {
      this.fields, this.from := fields, from;
      v, r, s, raw, serialized, hash := None, 0, 0, [], [], [];
    }

    /** A transaction rebuilt from decoded items. */
    constructor FromSigned(t: Signed, raw: seq<Item>)
      ensures Is(t) && this.raw == raw
    {
      fields, v, r, s, from := t.fields, Some(t.v), t.r, t.s, t.from;
      this.raw, serialized, hash := raw, t.serialized, t.hash;
    }

    /** The object has the values of `t`. */
    ghost predicate Is(t: Signed)
      reads this
    {
      && fields == t.fields && v == Some(t.v) && r == t.r && s == t.s
      && from == t.from && hash == t.hash && serialized == t.serialized
    }

    /** `signAndHash`: fails on a signed transaction, or if the key cannot sign. */
    method SignAndHash(common: Common, c: Crypto, key: seq<Byte>) returns (ok: bool)
      requires Lawful(c) && common.chainId < LENGTH_LIMIT
      requires |Payload(Core(fields))| + 128 < LENGTH_LIMIT
      modifies this`v, this`r, this`s, this`raw, this`serialized, this`hash
      ensures ok <==> old(v).None? && SignedAs(fields, common, c, key).Some?
      ensures ok ==> v.Some? && (v.value, r, s) == SignedAs(fields, common, c, key).value
      ensures ok ==> raw == Core(fields) + SignatureItems(v.value, r, s)
      ensures ok ==> serialized == Serialized(fields, v.value, r, s) && hash == c.keccak(serialized)
      ensures !ok ==> v == old(v) && raw == old(raw) && serialized == old(serialized) && hash == old(hash)
    {
      if v.Some? {
        return false;
      }
      var data := SigningMessage(fields, common);
      var sig := c.sign(c.keccak(data), key);
      if sig.None? {
        return false;
      }
      assert RecoversAs(c, c.keccak(data), sig.value, c.publicKey(key));
      SetSignature(c, SigningV(fields, common, sig.value.recid), sig.value.rs);
      ok := true;
    }

    /** Stores the signature and what follows from it. */
    method SetSignature(c: Crypto, newV: nat, rs: seq<Byte>)
      requires |rs| == 64 && newV < 4 * LENGTH_LIMIT
      requires |Payload(Core(fields))| + 128 < LENGTH_LIMIT
      modifies this`v, this`r, this`s, this`raw, this`serialized, this`hash
      ensures v == Some(newV) && r == ToNat(rs[..32]) && s == ToNat(rs[32..])
      ensures raw == Core(fields) + SignatureItems(newV, r, s)
      ensures serialized == Serialized(fields, newV, r, s) && hash == c.keccak(serialized)
    {
      v, r, s := Some(newV), ToNat(rs[..32]), ToNat(rs[32..]);
      raw := Core(fields) + SignatureItems(newV, r, s);
      ShortSignature(Core(fields), newV, rs);
      var _, encoded := Digests(raw, |Core(fields)|);
      serialized := TypeByte(fields.Kind()) + encoded;
      hash := c.keccak(serialized);
    }
  }

  method RecoverSender(kind: Kind, core: seq<Item>, v: nat, rBuf: seq<Byte>, sBuf: seq<Byte>, chainId: nat, c: Crypto,
                       sharedBuffer: array<Byte>)
    returns (from: Result<seq<Byte>, Error>)
    requires Lawful(c) && sharedBuffer.Length >= 65
    requires chainId < LENGTH_LIMIT && |Payload(core)| + 128 < LENGTH_LIMIT
    modifies sharedBuffer
    ensures from == Sender(kind, core, v, rBuf, sBuf, chainId, c)
  {
    var data := RecoveryMessage(kind, core, v, chainId);
    var publicKey := EcdsaRecover(c, data, sharedBuffer, rBuf, sBuf, RecoveryId(kind, v, chainId));
    if publicKey.Failure? {
      return Failure(publicKey.error);
    }
    from := AddressOf(c, publicKey.value);
  }

  /** The constructor from decoded items, with the buffer that recovery shares. */
  method FromItems(kind: Kind, xs: seq<Item>, common: Common, c: Crypto, sharedBuffer: array<Byte>)
    returns (result: Result<RuntimeTransaction, Error>)
    requires Lawful(c) && sharedBuffer.Length >= 65 && common.chainId < LENGTH_LIMIT
    requires |Payload(xs)| + 128 < LENGTH_LIMIT
    modifies sharedBuffer
    ensures result.Failure? <==> FromPayload(kind, xs, common, c).Failure?
    ensures result.Failure? ==> result.error == FromPayload(kind, xs, common, c).error
    ensures result.Success? ==> fresh(result.value) && result.value.Is(FromPayload(kind, xs, common, c).value)
    ensures result.Success? ==> result.value.raw == xs
  {
    var parts := TakeApart(kind, xs, common.chainId);
    if parts.Failure? {
      return Failure(parts.error);
    }
    var p := parts.value;
    ShorterParts(kind, xs, common.chainId);
    var from := RecoverSender(kind, p.core, ToNat(p.vBuf), p.rBuf, p.sBuf, common.chainId, c, sharedBuffer);
    if from.Failure? {
      return Failure(from.error);
    }
    var _, encoded := Digests(p.Items(), |p.core|);
    var serialized := TypeByte(kind) + encoded;
    var tx := new RuntimeTransaction.FromSigned(
      Signed(p.fields, ToNat(p.vBuf), ToNat(p.rBuf), ToNat(p.sBuf), from.value, c.keccak(serialized), serialized), xs);
    result := Success(tx);
  }

  lemma ShorterParts(kind: Kind, xs: seq<Item>, chainId: nat)
    requires TakeApart(kind, xs, chainId).Success?
    ensures var p := TakeApart(kind, xs, chainId).value;
            |Payload(p.core)| <= |Payload(p.Items())| <= |Payload(xs)|
  {
    var p, n := TakeApart(kind, xs, chainId).value, CoreLength(kind);
    assert p.Items() == xs[..n + 3] && xs[..n + 3] + xs[n + 3..] == xs;
    PayloadAppend(p.core, [Str(p.vBuf), Str(p.rBuf), Str(p.sBuf)]);
    PayloadAppend(xs[..n + 3], xs[n + 3..]);
  }
}
