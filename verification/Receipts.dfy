/** Transaction receipts: their cached partial encoding, and how the database keeps them. */
module Receipts {
  import opened Bytes
  import opened Wrappers
  import opened Rlp

  /** Logs are kept as the trees they are; a receipt of a call has no contract address. */
  datatype Values = Values(
    status: seq<Byte>,
    cumulativeGasUsed: seq<Byte>,
    logsBloom: seq<Byte>,
    logs: seq<Item>,
    gasUsed: seq<Byte>,
    contractAddress: Option<seq<Byte>>)
  {
    /** The part every Ethereum receipt has. */
    function Raw(): seq<Item> { [Str(status), Str(cumulativeGasUsed), Str(logsBloom), List(logs)] }

    /** A missing address is written as an empty one. */
    function Extras(): seq<Item> {
      [Str(gasUsed), Str(if contractAddress.Some? then contractAddress.value else [])]
    }
  }

  /** What the database's bytes say. */
  function Decoded(data: seq<Byte>): Option<Values> {
    match DecodeBuffer(data)
    case None => None
    case Some(x) =>
      if && x.List? && |x.items| == 6 && x.items[0].Str? && x.items[1].Str? && x.items[2].Str?
         && x.items[3].List? && x.items[4].Str? && x.items[5].Str?
      then Some(Values(x.items[0].bytes, x.items[1].bytes, x.items[2].bytes, x.items[3].items, x.items[4].bytes,
                       Some(x.items[5].bytes)))
      else None
  }

  /** `toJSON` shows an empty address as none. */
  function Shown(v: Values): Values {
    if v.contractAddress == Some([]) then v.(contractAddress := None) else v
  }

  class InternalTransactionReceipt {
    const values: Values
    const txType: Option<seq<Byte>>
    /** The encoded raw part and its length, once it was needed. */
    var encoded: Option<(nat, seq<seq<Byte>>)>

    ghost predicate Valid()
      reads this
    {
      encoded.Some? ==> encoded.value == (|Payload(values.Raw())|, Encodings(values.Raw()))
    }

    constructor FromValues(values: Values, txType: Option<seq<Byte>>)
      ensures Valid() && this.values == values && this.txType == txType
    {
      this.values, this.txType, encoded := values, txType, None;
    }

    /** For the database with all fields, for the receipt trie with the type in front. */
    method Serialize(all: bool) returns (data: seq<Byte>)
      requires Valid() && |Payload(values.Raw() + values.Extras())| < LENGTH_LIMIT
      modifies this`encoded
      ensures Valid()
      ensures data == if all then Encoding(List(values.Raw() + values.Extras()))
                      else (if txType.Some? then txType.value else []) + Encoding(List(values.Raw()))
    {
      var raw, extras := values.Raw(), values.Extras();
      PayloadAppend(raw, extras);
      ConcatEncodings(raw);
      ConcatEncodings(extras);
      if encoded.None? {
        var output, length, _, _ := Ranges(raw, 4);
        assert raw[..4] == raw;
        encoded := Some((length, output));
      }
      FlattenOne(Encodings(raw));
      FlattenTwo(Encodings(raw), Encodings(extras));
      if all {
        var epilogue, length, _, _ := Ranges(extras, 2);
        assert extras[..2] == extras;
        var buf := Digest([encoded.value.1, epilogue], encoded.value.0 + length);
        data := buf[..];
      } else {
        var buf := Digest([encoded.value.1], encoded.value.0);
        data := (if txType.Some? then txType.value else []) + buf[..];
      }
    }
  }

  /** A stored receipt decodes to the values it was built from, a missing address as an empty one. */
  lemma StoredReceiptDecodes(v: Values)
    requires |Encoding(List(v.Raw() + v.Extras()))| < LENGTH_LIMIT
    ensures Decoded(Encoding(List(v.Raw() + v.Extras())))
            == Some(v.(contractAddress := Some(if v.contractAddress.Some? then v.contractAddress.value else [])))
    ensures Shown(Decoded(Encoding(List(v.Raw() + v.Extras()))).value)
            == if v.contractAddress == Some([]) then v.(contractAddress := None) else v
  {
    var x := List(v.Raw() + v.Extras());
    SmallIsSized(x);
    DecodeIff(Encoding(x), x);
  }
}
