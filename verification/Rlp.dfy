/**
 * The RLP codec of `@ganache/rlp`: the recursive `encode`, the incremental
 * `encodeRange` / `digest` pair, and a strict decoder following Appendix B of the
 * Ethereum Yellow Paper.
 */
module Rlp {
  import opened Bytes
  import opened Wrappers

  /** What an encoding stands for. */
  datatype Item =
    | Str(bytes: seq<Byte>)
    | List(items: seq<Item>)

  /** What `encode` accepts: a buffer, an array, or a missing value. */
  datatype Input =
    | Missing
    | Buf(bytes: seq<Byte>)
    | Arr(inputs: seq<Input>)
  {
    /** A missing value is written as the empty string. */
    function Value(): Item {
      match this
      case Missing => Str([])
      case Buf(b) => Str(b)
      case Arr(xs) => List(Values(xs))
    }
  }

  function Values(xs: seq<Input>): (r: seq<Item>)
    ensures |r| == |xs|
    ensures forall i :: 0 <= i < |xs| ==> r[i] == xs[i].Value()
  {
    if xs == [] then [] else [xs[0].Value()] + Values(xs[1..])
  }

  const STRING_OFFSET: nat := 128
  const LIST_OFFSET: nat := 192
  const LENGTH_LIMIT: nat := 0x1_0000_0000_0000_0000  // 256^8

  // ---------- The encoding, Appendix B of the Yellow Paper ----------

  function Header(len: nat, offset: nat): seq<Byte>
    requires offset <= LIST_OFFSET
  {
    if len < 56 then [len + offset]
    else BigEndian(offset + 55 + |BigEndian(len)|) + BigEndian(len)
  }

  function Encoding(x: Item): seq<Byte>
    decreases x, 0
  {
    match x
    case Str(b) => if |b| == 1 && b[0] < 128 then b else Header(|b|, STRING_OFFSET) + b
    case List(xs) => Header(|Payload(xs)|, LIST_OFFSET) + Payload(xs)
  }

  /** The encodings of the elements, one after the other. */
  function Payload(xs: seq<Item>): seq<Byte>
    decreases xs, 1
  {
    if xs == [] then [] else Encoding(xs[0]) + Payload(xs[1..])
  }

  /** Every payload length fits in eight bytes, the format's own limit. */
  ghost predicate Sized(x: Item)
    decreases x, 0
  {
    match x
    case Str(b) => |b| < LENGTH_LIMIT
    case List(xs) => |Payload(xs)| < LENGTH_LIMIT && AllSized(xs)
  }

  ghost predicate AllSized(xs: seq<Item>)
    decreases xs, 1
  {
    xs == [] || (Sized(xs[0]) && AllSized(xs[1..]))
  }

  // ---------- The decoder ----------

  datatype Prefix = Prefix(isList: bool, payload: seq<Byte>, rest: seq<Byte>)

  /** Cuts `len` bytes off the front. */
  function Cut(isList: bool, bs: seq<Byte>, len: nat): Option<Prefix> {
    if |bs| < len then None else Some(Prefix(isList, bs[..len], bs[len..]))
  }

  /** A length written in `width` bytes: no leading zero, and not one a short form would hold. */
  function CutLong(isList: bool, bs: seq<Byte>, width: nat): Option<Prefix> {
    if |bs| < width || !NoLeadingZero(bs[..width]) || ToNat(bs[..width]) < 56 then None
    else Cut(isList, bs[width..], ToNat(bs[..width]))
  }

  function Split(bs: seq<Byte>): Option<Prefix> {
    if bs == [] then None
    else
      var first, tail := bs[0], bs[1..];
      if first < 128 then Some(Prefix(false, [first], tail))
      else if first < 184 then
        var cut := Cut(false, tail, first - 128);
        // a single small byte is its own encoding
        if cut.Some? && |cut.value.payload| == 1 && cut.value.payload[0] < 128 then None else cut
      else if first < 192 then CutLong(false, tail, first - 183)
      else if first < 248 then Cut(true, tail, first - 192)
      else CutLong(true, tail, first - 247)
  }

  lemma SplitShrinks(bs: seq<Byte>)
    requires Split(bs).Some?
    ensures |Split(bs).value.rest| < |bs|
    ensures Split(bs).value.isList ==> |Split(bs).value.payload| < |bs|
  {
  }

  /** One item from the front of `bs`, and what follows it. */
  function Decode(bs: seq<Byte>): (r: Option<(Item, seq<Byte>)>)
    ensures r.Some? ==> |r.value.1| < |bs|
    decreases |bs|, 0
  {
    match Split(bs)
    case None => None
    case Some(p) =>
      SplitShrinks(bs);
      if p.isList then
        match DecodeAll(p.payload)
        case None => None
        case Some(xs) => Some((List(xs), p.rest))
      else Some((Str(p.payload), p.rest))
  }

  function DecodeAll(bs: seq<Byte>): Option<seq<Item>>
    decreases |bs|, 1
  {
    if bs == [] then Some([])
    else
      match Decode(bs)
      case None => None
      case Some((x, rest)) =>
        match DecodeAll(rest)
        case None => None
        case Some(xs) => Some([x] + xs)
  }

  /** Decoding of a whole buffer, which must hold exactly one item. */
  function DecodeBuffer(bs: seq<Byte>): Option<Item> {
    match Decode(bs)
    case Some((x, rest)) => if rest == [] then Some(x) else None
    case None => None
  }

  // ---------- Decoding undoes encoding ----------

  lemma LimitIsPow()
    ensures Pow256(8) == LENGTH_LIMIT
  {
    assert Pow256(2) == 0x1_0000;
    assert Pow256(4) == 0x1_0000_0000;
    assert Pow256(6) == 0x1_0000_0000_0000;
  }

  lemma LengthWidth(len: nat)
    requires 0 < len < LENGTH_LIMIT
    ensures 1 <= |BigEndian(len)| <= 8
  {
    LimitIsPow();
    BigEndianLength(len, 8);
  }

  /** The header of a long payload is one byte naming the width of the length. */
  lemma LongHeader(len: nat, offset: nat)
    requires 56 <= len < LENGTH_LIMIT
    requires 0 < offset <= LIST_OFFSET
    ensures var be := BigEndian(len);
            1 <= |be| <= 8 && NoLeadingZero(be) && ToNat(be) == len
            && Header(len, offset) == [offset + 55 + |be|] + be
  {
    LengthWidth(len);
    BigEndianValue(len);
    OneByte(offset + 55 + |BigEndian(len)|);
  }

  lemma OneByte(n: nat)
    requires 0 < n < 256
    ensures BigEndian(n) == [n]
  {
    assert BigEndian(0) == [];
  }

  lemma SplitLong(bs: seq<Byte>)
    requires bs != [] && (184 <= bs[0] < 192 || 248 <= bs[0])
    ensures var isList := bs[0] >= 248;
            Split(bs) == CutLong(isList, bs[1..], if isList then bs[0] - 247 else bs[0] - 183)
  {
  }

  lemma SplitHeaderShort(isList: bool, payload: seq<Byte>, rest: seq<Byte>)
    requires |payload| < 56
    requires !isList ==> |payload| != 1 || payload[0] >= 128
    ensures Split(Header(|payload|, if isList then LIST_OFFSET else STRING_OFFSET) + payload + rest)
            == Some(Prefix(isList, payload, rest))
  {
    var bs := Header(|payload|, if isList then LIST_OFFSET else STRING_OFFSET) + payload + rest;
    assert bs[1..] == payload + rest;
    assert (payload + rest)[..|payload|] == payload && (payload + rest)[|payload|..] == rest;
  }

  lemma CutLongHeader(isList: bool, payload: seq<Byte>, rest: seq<Byte>)
    requires 56 <= |payload|
    ensures var be := BigEndian(|payload|);
            CutLong(isList, be + payload + rest, |be|) == Some(Prefix(isList, payload, rest))
  {
    var be := BigEndian(|payload|);
    var bs := be + payload + rest;
    BigEndianValue(|payload|);
    assert bs[..|be|] == be && bs[|be|..] == payload + rest;
    assert (payload + rest)[..|payload|] == payload && (payload + rest)[|payload|..] == rest;
  }

  /** A header followed by its payload and anything else splits back into the three. */
  lemma SplitHeader(isList: bool, payload: seq<Byte>, rest: seq<Byte>)
    requires |payload| < LENGTH_LIMIT
    requires !isList ==> |payload| != 1 || payload[0] >= 128
    ensures Split(Header(|payload|, if isList then LIST_OFFSET else STRING_OFFSET) + payload + rest)
            == Some(Prefix(isList, payload, rest))
  {
    if |payload| < 56 {
      SplitHeaderShort(isList, payload, rest);
    } else {
      var offset := if isList then LIST_OFFSET else STRING_OFFSET;
      LongHeader(|payload|, offset);
      var be := BigEndian(|payload|);
      var bs := Header(|payload|, offset) + payload + rest;
      assert bs[0] == offset + 55 + |be| && bs[1..] == be + payload + rest;
      SplitLong(bs);
      CutLongHeader(isList, payload, rest);
    }
  }

  lemma {:induction false} DecodeEncoding(x: Item, rest: seq<Byte>)
    requires Sized(x)
    ensures Decode(Encoding(x) + rest) == Some((x, rest))
    decreases x, 0
  {
    match x
    case Str(b) =>
      if |b| == 1 && b[0] < 128 {
        assert (b + rest)[1..] == rest && b == [b[0]];
      } else {
        SplitHeader(false, b, rest);
        assert Header(|b|, STRING_OFFSET) + b + rest == Encoding(x) + rest;
      }
    case List(xs) =>
      var payload := Payload(xs);
      SplitHeader(true, payload, rest);
      assert Header(|payload|, LIST_OFFSET) + payload + rest == Encoding(x) + rest;
      DecodePayload(xs);
  }

  lemma {:induction false} DecodePayload(xs: seq<Item>)
    requires AllSized(xs)
    ensures DecodeAll(Payload(xs)) == Some(xs)
    decreases xs, 1
  {
    if xs == [] {
    } else {
      DecodeEncoding(xs[0], Payload(xs[1..]));
      DecodePayload(xs[1..]);
      EncodingNotEmpty(xs[0]);
      assert [xs[0]] + xs[1..] == xs;
    }
  }

  lemma EncodingNotEmpty(x: Item)
    ensures Encoding(x) != []
  {
    match x
    case Str(b) => HeaderNotEmpty(|b|, STRING_OFFSET);
    case List(xs) => HeaderNotEmpty(|Payload(xs)|, LIST_OFFSET);
  }

  lemma HeaderNotEmpty(len: nat, offset: nat)
    requires 0 < offset <= LIST_OFFSET
    ensures Header(len, offset) != []
  {
    if len >= 56 { BigEndianValue(offset + 55 + |BigEndian(len)|); }
  }

  /** No encoding is a proper prefix of another; in particular encoding is injective. */
  lemma PrefixFree(x: Item, y: Item, rest: seq<Byte>, other: seq<Byte>)
    requires Sized(x) && Sized(y)
    requires Encoding(x) + rest == Encoding(y) + other
    ensures x == y && rest == other
  {
    DecodeEncoding(x, rest);
    DecodeEncoding(y, other);
  }

  // ---------- Encoding undoes decoding: the decoder accepts nothing else ----------

  lemma LongInverse(isList: bool, bs: seq<Byte>, width: nat)
    requires CutLong(isList, bs, width).Some?
    ensures var p := CutLong(isList, bs, width).value;
            && p.isList == isList && |p.payload| >= 56
            && width == |BigEndian(|p.payload|)|
            && bs == BigEndian(|p.payload|) + p.payload + p.rest
  {
    var p := CutLong(isList, bs, width).value;
    var be, tail := bs[..width], bs[width..];
    BigEndianUnique(be);
    assert tail == p.payload + p.rest;
    assert bs == be + tail;
  }

  lemma SplitLongInverse(bs: seq<Byte>)
    requires |bs| < LENGTH_LIMIT
    requires Split(bs).Some? && (184 <= bs[0] < 192 || 248 <= bs[0])
    ensures var p := Split(bs).value;
            && 56 <= |p.payload| < LENGTH_LIMIT && p.isList == (bs[0] >= 248)
            && bs == Header(|p.payload|, if p.isList then LIST_OFFSET else STRING_OFFSET) + p.payload + p.rest
  {
    SplitLong(bs);
    var isList := bs[0] >= 248;
    LongInverse(isList, bs[1..], if isList then bs[0] - 247 else bs[0] - 183);
    LongInverseHeader(bs, Split(bs).value, if isList then LIST_OFFSET else STRING_OFFSET);
  }

  lemma LongInverseHeader(bs: seq<Byte>, p: Prefix, offset: nat)
    requires 0 < offset <= LIST_OFFSET && 56 <= |p.payload| <= |bs| < LENGTH_LIMIT
    requires bs[0] == offset + 55 + |BigEndian(|p.payload|)|
    requires bs[1..] == BigEndian(|p.payload|) + p.payload + p.rest
    ensures bs == Header(|p.payload|, offset) + p.payload + p.rest
  {
    LongHeader(|p.payload|, offset);
    assert bs == [bs[0]] + bs[1..];
  }

  lemma CutInverse(isList: bool, bs: seq<Byte>, len: nat)
    requires bs != [] && Cut(isList, bs[1..], len).Some?
    ensures var p := Cut(isList, bs[1..], len).value;
            |p.payload| == len && p.isList == isList && bs == [bs[0]] + p.payload + p.rest
  {
    var p := Cut(isList, bs[1..], len).value;
    assert bs[1..] == p.payload + p.rest;
    assert bs == [bs[0]] + bs[1..];
  }

  lemma SplitShortString(bs: seq<Byte>)
    requires Split(bs).Some? && 128 <= bs[0] < 184
    ensures var p := Split(bs).value;
            && |p.payload| < 56 && !p.isList && (|p.payload| != 1 || p.payload[0] >= 128)
            && bs == Header(|p.payload|, STRING_OFFSET) + p.payload + p.rest
  {
    CutInverse(false, bs, bs[0] - 128);
  }

  lemma SplitShortList(bs: seq<Byte>)
    requires Split(bs).Some? && 192 <= bs[0] < 248
    ensures var p := Split(bs).value;
            && |p.payload| < 56 && p.isList
            && bs == Header(|p.payload|, LIST_OFFSET) + p.payload + p.rest
  {
    CutInverse(true, bs, bs[0] - 192);
  }

  /** Splitting loses nothing: the header is the only one its payload can have. */
  lemma SplitInverse(bs: seq<Byte>)
    requires |bs| < LENGTH_LIMIT
    requires Split(bs).Some?
    ensures var p := Split(bs).value;
            && |p.payload| < LENGTH_LIMIT
            && (p.isList ==> bs == Header(|p.payload|, LIST_OFFSET) + p.payload + p.rest)
            && (!p.isList ==> bs == Encoding(Str(p.payload)) + p.rest)
  {
    if bs[0] < 128 {
      assert bs == [bs[0]] + bs[1..];
    } else if 184 <= bs[0] < 192 || 248 <= bs[0] {
      SplitLongInverse(bs);
    } else if bs[0] < 184 {
      SplitShortString(bs);
    } else {
      SplitShortList(bs);
    }
  }

  lemma {:induction false} EncodeDecoding(bs: seq<Byte>)
    requires |bs| < LENGTH_LIMIT
    requires Decode(bs).Some?
    ensures var (x, rest) := Decode(bs).value; Sized(x) && bs == Encoding(x) + rest
    decreases |bs|, 0
  {
    SplitInverse(bs);
    SplitShrinks(bs);
    var p := Split(bs).value;
    if p.isList { EncodeDecodingAll(p.payload); }
  }

  lemma {:induction false} EncodeDecodingAll(bs: seq<Byte>)
    requires |bs| < LENGTH_LIMIT
    requires DecodeAll(bs).Some?
    ensures var xs := DecodeAll(bs).value; AllSized(xs) && bs == Payload(xs)
    decreases |bs|, 1
  {
    if bs == [] {
    } else {
      EncodeDecoding(bs);
      var (x, rest) := Decode(bs).value;
      EncodeDecodingAll(rest);
      var xs := DecodeAll(rest).value;
      assert ([x] + xs)[1..] == xs;
    }
  }

  /** A buffer decodes to `x` exactly when it is the encoding of `x`. */
  lemma DecodeIff(bs: seq<Byte>, x: Item)
    requires |bs| < LENGTH_LIMIT
    ensures DecodeBuffer(bs) == Some(x) <==> Sized(x) && bs == Encoding(x)
  {
    if DecodeBuffer(bs) == Some(x) {
      EncodeDecoding(bs);
      assert Encoding(x) + [] == Encoding(x);
    }
    if Sized(x) && bs == Encoding(x) {
      DecodeEncoding(x, []);
      assert Encoding(x) + [] == Encoding(x);
    }
  }

  lemma {:induction false} SmallIsSized(x: Item)
    requires |Encoding(x)| < LENGTH_LIMIT
    ensures Sized(x)
    decreases x, 0
  {
    match x
    case Str(b) =>
    case List(xs) => SmallAreSized(xs);
  }

  lemma {:induction false} SmallAreSized(xs: seq<Item>)
    requires |Payload(xs)| < LENGTH_LIMIT
    ensures AllSized(xs)
    decreases xs, 1
  {
    if xs != [] {
      SmallIsSized(xs[0]);
      SmallAreSized(xs[1..]);
    }
  }

  lemma DecodesBack(x: Item)
    requires |Encoding(x)| < LENGTH_LIMIT
    ensures DecodeBuffer(Encoding(x)) == Some(x)
  {
    SmallIsSized(x);
    DecodeIff(Encoding(x), x);
  }

  // ---------- The encoders as the source writes them ----------

  /** Concatenation, as `Buffer.concat` does it. */
  function Concat(parts: seq<seq<Byte>>): seq<Byte> {
    if parts == [] then [] else parts[0] + Concat(parts[1..])
  }

  lemma {:induction false} ConcatAppend(a: seq<seq<Byte>>, b: seq<seq<Byte>>)
    ensures Concat(a + b) == Concat(a) + Concat(b)
  {
    if a == [] {
      assert a + b == b;
    } else {
      assert (a + b)[1..] == a[1..] + b;
      ConcatAppend(a[1..], b);
    }
  }

  lemma ConcatSnoc(a: seq<seq<Byte>>, x: seq<Byte>)
    ensures Concat(a + [x]) == Concat(a) + x
  {
    ConcatAppend(a, [x]);
    assert [x][1..] == [];
  }

  function Encodings(xs: seq<Item>): seq<seq<Byte>> {
    if xs == [] then [] else [Encoding(xs[0])] + Encodings(xs[1..])
  }

  lemma {:induction false} ConcatEncodings(xs: seq<Item>)
    ensures Concat(Encodings(xs)) == Payload(xs)
  {
    if xs == [] {
    } else {
      ConcatEncodings(xs[1..]);
      assert Encodings(xs)[1..] == Encodings(xs[1..]);
    }
  }

  lemma {:induction false} PayloadAppend(a: seq<Item>, b: seq<Item>)
    ensures Payload(a + b) == Payload(a) + Payload(b)
  {
    if a == [] {
      assert a + b == b;
    } else {
      assert (a + b)[1..] == a[1..] + b;
      PayloadAppend(a[1..], b);
    }
  }

  lemma PayloadSnoc(a: seq<Item>, x: Item)
    ensures Payload(a + [x]) == Payload(a) + Encoding(x)
  {
    PayloadAppend(a, [x]);
    assert [x][1..] == [];
  }

  lemma PayloadStep(xs: seq<Item>, i: nat, output: seq<seq<Byte>>)
    requires i < |xs| && Concat(output) == Payload(xs[..i])
    ensures Concat(output + [Encoding(xs[i])]) == Payload(xs[..i + 1])
    ensures |Concat(output + [Encoding(xs[i])])| == |Concat(output)| + |Encoding(xs[i])|
  {
    ConcatSnoc(output, Encoding(xs[i]));
    PayloadSnoc(xs[..i], xs[i]);
    assert xs[..i] + [xs[i]] == xs[..i + 1];
  }

  method EncodeLength(len: nat, offset: nat) returns (buf: seq<Byte>)
    requires len < LENGTH_LIMIT
    requires offset == STRING_OFFSET || offset == LIST_OFFSET
    ensures buf == Header(len, offset)
  {
    if len < 56 {
      buf := [len + offset];
    } else {
      LongHeader(len, offset);
      var hexLength := UintToBuffer(len);
      var firstByte := UintToBuffer(offset + 55 + |hexLength|);
      buf := firstByte + hexLength;
    }
  }

  method Encode(input: Input) returns (buf: seq<Byte>)
    requires Sized(input.Value())
    ensures buf == Encoding(input.Value())
    decreases input
  {
    match input
    case Arr(inputs) =>
      ghost var xs := Values(inputs);
      var length := 0;
      var output: seq<seq<Byte>> := [];
      for i := 0 to |inputs|
        invariant length == |Concat(output)|
        invariant Concat(output) == Payload(xs[..i])
      {
        SizedElement(xs, i);
        var enc := Encode(inputs[i]);
        length := length + |enc|;
        PayloadStep(xs, i, output);
        output := output + [enc];
      }
      assert xs[..|inputs|] == xs;
      var encodedLength := EncodeLength(length, LIST_OFFSET);
      buf := encodedLength + Concat(output);
    case Missing =>
      buf := [128];
    case Buf(bytes) =>
      var length := |bytes|;
      if length == 1 && bytes[0] < 128 {
        buf := bytes;
      } else {
        var encLength := EncodeLength(length, STRING_OFFSET);
        buf := encLength + bytes;
      }
  }

  lemma {:induction false} SizedElement(xs: seq<Item>, i: nat)
    requires AllSized(xs) && i < |xs|
    ensures Sized(xs[i])
  {
    if i > 0 { SizedElement(xs[1..], i - 1); }
  }

  lemma {:induction false} AllSizedFrom(xs: seq<Item>)
    requires forall i :: 0 <= i < |xs| ==> Sized(xs[i])
    ensures AllSized(xs)
  {
    if xs != [] { AllSizedFrom(xs[1..]); }
  }

  method EncodeElement(items: seq<Input>, i: nat) returns (encoded: seq<Byte>)
    requires i < |items| && AllSized(Values(items))
    ensures encoded == Encoding(Values(items)[i])
  {
    SizedElement(Values(items), i);
    encoded := Encode(items[i]);
  }

  /** `encodeRange`: the encodings of `items[start .. start + length]`, and their total size. */
  method EncodeRange(items: seq<Input>, start: nat, length: nat) returns (count: nat, output: seq<seq<Byte>>)
    requires start + length <= |items|
    requires AllSized(Values(items))
    ensures output == Encodings(Values(items)[start..start + length])
    ensures count == |Concat(output)|
  {
    count := 0;
    var end := start + length;
    output := [];
    ghost var xs := Values(items);
    for i := start to end
      invariant output == Encodings(xs[start..i])
      invariant count == |Concat(output)|
    {
      var encoded := EncodeElement(items, i);
      count := count + |encoded|;
      ConcatSnoc(output, encoded);
      EncodingsStep(xs, start, i);
      output := output + [encoded];
    }
  }

  lemma {:induction false} EncodingsSnoc(xs: seq<Item>, x: Item)
    ensures Encodings(xs + [x]) == Encodings(xs) + [Encoding(x)]
  {
    if xs == [] {
      assert xs + [x] == [x] && [x][1..] == [];
    } else {
      assert (xs + [x])[1..] == xs[1..] + [x];
      EncodingsSnoc(xs[1..], x);
    }
  }

  lemma EncodingsStep(xs: seq<Item>, start: nat, i: nat)
    requires start <= i < |xs|
    ensures Encodings(xs[start..i + 1]) == Encodings(xs[start..i]) + [Encoding(xs[i])]
  {
    EncodingsSnoc(xs[start..i], xs[i]);
    assert xs[start..i] + [xs[i]] == xs[start..i + 1];
  }

  /** All parts of all ranges, in order. */
  function Flatten(ranges: seq<seq<seq<Byte>>>): seq<Byte> {
    if ranges == [] then [] else Concat(ranges[0]) + Flatten(ranges[1..])
  }

  lemma {:induction false} FlattenSnoc(ranges: seq<seq<seq<Byte>>>, r: seq<seq<Byte>>)
    ensures Flatten(ranges + [r]) == Flatten(ranges) + Concat(r)
  {
    if ranges == [] {
      assert ranges + [r] == [r] && [r][1..] == [];
    } else {
      assert (ranges + [r])[1..] == ranges[1..] + [r];
      FlattenSnoc(ranges[1..], r);
    }
  }

  lemma {:induction false} FlattenPrefix(ranges: seq<seq<seq<Byte>>>, i: nat)
    requires i <= |ranges|
    ensures |Flatten(ranges[..i])| <= |Flatten(ranges)|
  {
    if i == 0 {
    } else {
      FlattenPrefix(ranges[1..], i - 1);
      assert ranges[..i][1..] == ranges[1..][..i - 1];
    }
  }

  lemma FlattenStep(ranges: seq<seq<seq<Byte>>>, i: nat)
    requires i < |ranges|
    ensures Flatten(ranges[..i + 1]) == Flatten(ranges[..i]) + Concat(ranges[i])
    ensures |Flatten(ranges[..i + 1])| <= |Flatten(ranges)|
  {
    assert ranges[..i] + [ranges[i]] == ranges[..i + 1];
    FlattenSnoc(ranges[..i], ranges[i]);
    FlattenPrefix(ranges, i + 1);
  }

  lemma {:induction false} ConcatPrefix(parts: seq<seq<Byte>>, j: nat)
    requires j <= |parts|
    ensures |Concat(parts[..j])| <= |Concat(parts)|
  {
    if j == 0 {
    } else {
      ConcatPrefix(parts[1..], j - 1);
      assert parts[..j][1..] == parts[1..][..j - 1];
    }
  }

  /** `Buffer.copy`: `size` bytes of `source` to `target` at `offset`. */
  method Copy(source: seq<Byte>, target: array<Byte>, offset: nat)
    requires offset + |source| <= target.Length
    modifies target
    ensures target[..] == old(target[..])[..offset] + source + old(target[..])[offset + |source|..]
  {
    for k := 0 to |source|
      invariant target[..offset] == old(target[..offset])
      invariant target[offset..offset + k] == source[..k]
      invariant target[offset + k..] == old(target[offset + k..])
    {
      target[offset + k] := source[k];
    }
    assert target[..] == target[..offset] + target[offset..offset + |source|] + target[offset + |source|..];
  }

  /** The inner loop of `digest`: every part of one range, at a moving offset. */
  method CopyRange(range: seq<seq<Byte>>, target: array<Byte>, start: nat) returns (offset: nat)
    requires start + |Concat(range)| <= target.Length
    modifies target
    ensures offset == start + |Concat(range)|
    ensures target[..offset] == old(target[..])[..start] + Concat(range)
  {
    offset := start;
    for j := 0 to |range|
      invariant offset == start + |Concat(range[..j])| <= target.Length
      invariant target[..offset] == old(target[..])[..start] + Concat(range[..j])
    {
      assert range[..j] + [range[j]] == range[..j + 1];
      ConcatSnoc(range[..j], range[j]);
      ConcatPrefix(range, j + 1);
      Copy(range[j], target, offset);
      offset := offset + |range[j]|;
    }
    assert range[..|range|] == range;
  }

  /**
   * `digest`: a list header, then every part copied in at a moving offset. The
   * caller must pass the summed length of the parts; the buffer is then filled exactly.
   */
  method Digest(ranges: seq<seq<seq<Byte>>>, length: nat) returns (buf: array<Byte>)
    requires length == |Flatten(ranges)| < LENGTH_LIMIT
    ensures fresh(buf)
    ensures buf[..] == Header(length, LIST_OFFSET) + Flatten(ranges)
  {
    var encodedLength := EncodeLength(length, LIST_OFFSET);
    buf := new Byte[|encodedLength| + length](_ => 0);
    Copy(encodedLength, buf, 0);
    var offset := |encodedLength|;
    for i := 0 to |ranges|
      invariant offset == |encodedLength| + |Flatten(ranges[..i])| <= buf.Length
      invariant buf[..offset] == encodedLength + Flatten(ranges[..i])
    {
      FlattenStep(ranges, i);
      offset := CopyRange(ranges[i], buf, offset);
    }
    assert ranges[..|ranges|] == ranges;
    assert buf[..offset] == buf[..];
  }

  // ---------- The incremental encoder agrees with the recursive one ----------

  /** The parts `encodeRange` makes when `xs` is cut into consecutive runs of the given lengths. */
  function RangeParts(xs: seq<Item>, cuts: seq<nat>): seq<seq<seq<Byte>>>
    requires Total(cuts) == |xs|
    decreases |cuts|
  {
    if cuts == [] then []
    else [Encodings(xs[..cuts[0]])] + RangeParts(xs[cuts[0]..], cuts[1..])
  }

  function Total(cuts: seq<nat>): nat {
    if cuts == [] then 0 else cuts[0] + Total(cuts[1..])
  }

  /** Any cut of a list into consecutive ranges flattens to the list's payload. */
  lemma {:induction false} RangesFlatten(xs: seq<Item>, cuts: seq<nat>)
    requires Total(cuts) == |xs|
    ensures Flatten(RangeParts(xs, cuts)) == Payload(xs)
    decreases |cuts|
  {
    if cuts == [] {
    } else {
      var head, tail := xs[..cuts[0]], xs[cuts[0]..];
      ConcatEncodings(head);
      RangesFlatten(tail, cuts[1..]);
      PayloadAppend(head, tail);
      assert head + tail == xs;
      assert RangeParts(xs, cuts)[1..] == RangeParts(tail, cuts[1..]);
    }
  }

  /** So what `digest` writes for those parts is `encode` of the whole list. */
  lemma DigestIsEncoding(xs: seq<Item>, cuts: seq<nat>)
    requires Total(cuts) == |xs|
    ensures var parts := RangeParts(xs, cuts);
            Header(|Flatten(parts)|, LIST_OFFSET) + Flatten(parts) == Encoding(List(xs))
  {
    RangesFlatten(xs, cuts);
  }

  /** Encodes an array in the ranges the caller names, as transactions, receipts and blocks do. */
  method EncodeInRanges(items: seq<Input>, cuts: seq<nat>) returns (buf: array<Byte>)
    requires Total(cuts) == |items|
    requires Sized(Arr(items).Value())
    ensures fresh(buf)
    ensures buf[..] == Encoding(Arr(items).Value())
    ensures DecodeBuffer(buf[..]) == Some(Arr(items).Value())
  {
    ghost var xs := Values(items);
    var ranges: seq<seq<seq<Byte>>> := [];
    var start, length := 0, 0;
    for i := 0 to |cuts|
      invariant start == Total(cuts[..i]) <= |items|
      invariant length == |Flatten(ranges)|
      invariant Flatten(ranges) == Payload(xs[..start])
    {
      CutStep(cuts, i);
      var count, output := EncodeRange(items, start, cuts[i]);
      RangeStep(xs, ranges, start, start + cuts[i]);
      ranges := ranges + [output];
      start, length := start + cuts[i], length + count;
    }
    assert cuts[..|cuts|] == cuts && xs[..start] == xs;
    buf := Digest(ranges, length);
    DecodeEncoding(List(xs), []);
    assert Encoding(List(xs)) + [] == Encoding(List(xs));
  }

  lemma RangeStep(xs: seq<Item>, ranges: seq<seq<seq<Byte>>>, start: nat, end: nat)
    requires start <= end <= |xs| && Flatten(ranges) == Payload(xs[..start])
    ensures var output := Encodings(xs[start..end]);
            && Flatten(ranges + [output]) == Payload(xs[..end])
            && |Flatten(ranges + [output])| == |Flatten(ranges)| + |Concat(output)|
  {
    var output := Encodings(xs[start..end]);
    ConcatEncodings(xs[start..end]);
    FlattenSnoc(ranges, output);
    PayloadAppend(xs[..start], xs[start..end]);
    assert xs[..start] + xs[start..end] == xs[..end];
  }

  lemma CutStep(cuts: seq<nat>, i: nat)
    requires i < |cuts|
    ensures Total(cuts[..i + 1]) == Total(cuts[..i]) + cuts[i] <= Total(cuts)
  {
    assert cuts[..i] + [cuts[i]] == cuts[..i + 1];
    TotalSnoc(cuts[..i], cuts[i]);
    TotalAppend(cuts[..i + 1], cuts[i + 1..]);
    assert cuts[..i + 1] + cuts[i + 1..] == cuts;
  }

  lemma {:induction false} TotalAppend(a: seq<nat>, b: seq<nat>)
    ensures Total(a + b) == Total(a) + Total(b)
  {
    if a == [] {
      assert a + b == b;
    } else {
      assert (a + b)[1..] == a[1..] + b;
      TotalAppend(a[1..], b);
    }
  }

  lemma TotalSnoc(cuts: seq<nat>, c: nat)
    ensures Total(cuts + [c]) == Total(cuts) + c
  {
    TotalAppend(cuts, [c]);
    assert [c][1..] == [];
  }

  // ---------- Items encoded in two ranges ----------

  function AsInput(x: Item): (input: Input) {
    match x
    case Str(b) => Buf(b)
    case List(xs) => Arr(AsInputs(xs))
  }

  function AsInputs(xs: seq<Item>): (inputs: seq<Input>)
    ensures |inputs| == |xs|
  {
    if xs == [] then [] else [AsInput(xs[0])] + AsInputs(xs[1..])
  }

  lemma {:induction false} InputValue(x: Item)
    ensures AsInput(x).Value() == x
    decreases x, 0
  {
    match x
    case Str(b) =>
    case List(xs) => InputValues(xs);
  }

  lemma {:induction false} InputValues(xs: seq<Item>)
    ensures Values(AsInputs(xs)) == xs
    decreases xs, 1
  {
    if xs != [] {
      InputValue(xs[0]);
      InputValues(xs[1..]);
      assert AsInputs(xs)[1..] == AsInputs(xs[1..]);
    }
  }

  lemma FlattenOne(range: seq<seq<Byte>>)
    ensures Flatten([range]) == Concat(range)
  {
    FlattenSnoc([], range);
    assert [] + [range] == [range];
  }

  lemma FlattenTwo(a: seq<seq<Byte>>, b: seq<seq<Byte>>)
    ensures Flatten([a, b]) == Concat(a) + Concat(b)
  {
    FlattenSnoc([a], b);
    FlattenOne(a);
    assert [a] + [b] == [a, b];
  }

  /** The payload of a list made in two ranges. */
  lemma TwoRanges(xs: seq<Item>, n: nat)
    requires n <= |xs|
    ensures Concat(Encodings(xs[..n])) == Payload(xs[..n])
    ensures Concat(Encodings(xs[..n])) + Concat(Encodings(xs[n..])) == Payload(xs)
  {
    var front, back := xs[..n], xs[n..];
    assert front + back == xs;
    ConcatEncodings(front);
    ConcatEncodings(back);
    PayloadAppend(front, back);
  }

  /** `encodeRange` over the two parts of a list, with their lengths. */
  method Ranges(xs: seq<Item>, n: nat)
    returns (data: seq<seq<Byte>>, dataLength: nat, ending: seq<seq<Byte>>, endingLength: nat)
    requires n <= |xs| && |Payload(xs)| < LENGTH_LIMIT
    ensures data == Encodings(xs[..n]) && dataLength == |Concat(data)|
    ensures ending == Encodings(xs[n..]) && endingLength == |Concat(ending)|
  {
    var items := AsInputs(xs);
    InputValues(xs);
    SmallAreSized(xs);
    dataLength, data := EncodeRange(items, 0, n);
    endingLength, ending := EncodeRange(items, n, |xs| - n);
    assert xs[0..n] == xs[..n] && xs[n..n + (|xs| - n)] == xs[n..];
  }

  /** `digest` over the first range alone, and over both. */
  method Digests(xs: seq<Item>, n: nat) returns (front: seq<Byte>, whole: seq<Byte>)
    requires n <= |xs| && |Payload(xs)| < LENGTH_LIMIT
    ensures front == Encoding(List(xs[..n])) && whole == Encoding(List(xs))
  {
    var data, dataLength, ending, endingLength := Ranges(xs, n);
    TwoRanges(xs, n);
    FlattenOne(data);
    FlattenTwo(data, ending);
    var buf := Digest([data], dataLength);
    front := buf[..];
    buf := Digest([data, ending], dataLength + endingLength);
    whole := buf[..];
  }
}
