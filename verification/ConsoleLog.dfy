/**
 * Decoding the arguments of Solidity's `console.log` from the memory of a call, against the
 * encoding that section "Formal Specification of the Encoding" of the Solidity Contract ABI
 * Specification prescribes.
 */
module ConsoleLog {
  import opened Bytes
  import opened Wrappers

  const WORD_SIZE: nat := 32

  // ---------- The encoding ----------

  /** Arguments of the types the log functions take; strings are given by their UTF-8 bytes. */
  datatype Arg =
    | Address(bytes: seq<Byte>)
    | Bool(flag: bool)
    | Uint256(number: nat)
    | Int256(signed: int)
    | FixedBytes(bytes: seq<Byte>)
    | Bytes(bytes: seq<Byte>)
    | String(bytes: seq<Byte>)
  {
    predicate Valid() {
      match this
      case Address(b) => |b| == 20
      case Bool(_) => true
      case Uint256(n) => n < Pow256(32)
      case Int256(i) => 0 <= 2 * i + Pow256(32) < 2 * Pow256(32)
      case FixedBytes(b) => 1 <= |b| <= 32
      case Bytes(_) => true
      case String(_) => true
    }

    predicate Dynamic() { Bytes? || String? }
  }

  /** The last `k` bytes of `n`, big-endian. */
  function Padded(n: nat, k: nat): (bs: seq<Byte>)
    ensures |bs| == k
  {
    if k == 0 then [] else Padded(n / 256, k - 1) + [n % 256]
  }

  function Zeros(k: nat): (bs: seq<Byte>)
    ensures |bs| == k && forall b <- bs :: b == 0
  {
    seq(k, _ => 0)
  }

  function Word(n: nat): seq<Byte> {
    Padded(n, WORD_SIZE)
  }

  /** `enc` of a static value. */
  function Static(arg: Arg): (bs: seq<Byte>)
    requires arg.Valid() && !arg.Dynamic()
    ensures |bs| == WORD_SIZE
  {
    match arg
    case Address(b) => Zeros(12) + b
    case Bool(flag) => Word(if flag then 1 else 0)
    case Uint256(n) => Word(n)
    case Int256(i) => Word(if i < 0 then i + Pow256(32) else i)
    case FixedBytes(b) => b + Zeros(32 - |b|)
  }

  function Head(arg: Arg, position: nat): (bs: seq<Byte>)
    requires arg.Valid()
    ensures |bs| == WORD_SIZE
  {
    if arg.Dynamic() then Word(position) else Static(arg)
  }

  function Tail(arg: Arg): seq<Byte> {
    if arg.Dynamic() then Word(|arg.bytes|) + arg.bytes + Zeros((WORD_SIZE - |arg.bytes| % WORD_SIZE) % WORD_SIZE)
    else []
  }

  function Concat(parts: seq<seq<Byte>>): seq<Byte> {
    if parts == [] then [] else Concat(parts[..|parts| - 1]) + parts[|parts| - 1]
  }

  function Tails(args: seq<Arg>): seq<seq<Byte>> {
    seq(|args|, i requires 0 <= i < |args| => Tail(args[i]))
  }

  /** Where the tail of an argument is: behind all heads and the tails before it. */
  function Position(args: seq<Arg>, i: nat): nat
    requires i < |args|
  {
    32 * |args| + |Concat(Tails(args)[..i])|
  }

  function Heads(args: seq<Arg>): seq<seq<Byte>>
    requires forall arg <- args :: arg.Valid()
  {
    seq(|args|, i requires 0 <= i < |args| => Head(args[i], Position(args, i)))
  }

  /** `enc` of the tuple of all arguments. */
  function Encode(args: seq<Arg>): seq<Byte>
    requires forall arg <- args :: arg.Valid()
  {
    Concat(Heads(args)) + Concat(Tails(args))
  }

  // ---------- Reading memory ----------

  /** `subarray` and `toString` clamp to the buffer. */
  function Slice(memory: seq<Byte>, start: nat, end: nat): seq<Byte> {
    var hi := if end < |memory| then end else |memory|;
    if start < hi then memory[start..hi] else []
  }

  /** Throws outside of the buffer. */
  function ReadUInt32BE(memory: seq<Byte>, position: nat): Option<nat> {
    if position + 4 <= |memory| then Some(ToNat(memory[position..position + 4])) else None
  }

  /** What a handler gives; `Missing` is a number read from an empty buffer. */
  datatype Value = Hex(bytes: seq<Byte>) | Text(bytes: seq<Byte>) | Number(number: int) | Flag(flag: bool) | Missing

  datatype Handler = AddressHandler | BoolHandler | BytesHandler | Int256Handler | StringHandler | Uint256Handler
    | FixedBytesHandler(length: nat)

  /** Start and end of dynamic data; only the last 4 bytes of its position and length are read. */
  function GetDynamicDataMarkers(memory: seq<Byte>, offset: nat): Option<(nat, nat)> {
    match ReadUInt32BE(memory, offset + WORD_SIZE - 4)
    case None => None
    case Some(position) =>
      var start := position + WORD_SIZE;
      match ReadUInt32BE(memory, start - 4)
      case None => None
      case Some(length) => Some((start, start + length))
  }

  /** Or-ing with -2^256 subtracts it, as the number has no bit there. */
  function DecodeInt256(memory: seq<Byte>, offset: nat): Value {
    var word := Slice(memory, offset, offset + WORD_SIZE);
    if word == [] then Missing
    else if word[0] >= 128 then Number(ToNat(word) - Pow256(32))
    else Number(ToNat(word))
  }

  /** `None` is a throw. */
  function Handle(handler: Handler, memory: seq<Byte>, offset: nat): Option<Value> {
    match handler
    case AddressHandler => Some(Hex(Slice(memory, offset + 12, offset + WORD_SIZE)))
    case BoolHandler => Some(Flag(offset + WORD_SIZE - 1 >= |memory| || memory[offset + WORD_SIZE - 1] != 0))
    case Uint256Handler =>
      var word := Slice(memory, offset, offset + WORD_SIZE);
      Some(if word == [] then Missing else Number(ToNat(word)))
    case Int256Handler => Some(DecodeInt256(memory, offset))
    case FixedBytesHandler(length) => Some(Hex(Slice(memory, offset, offset + length)))
    case BytesHandler =>
      (match GetDynamicDataMarkers(memory, offset)
       case None => None
       case Some(m) => Some(Hex(Slice(memory, m.0, m.1))))
    case StringHandler =>
      (match GetDynamicDataMarkers(memory, offset)
       case None => None
       case Some(m) => Some(Text(Slice(memory, m.0, m.1))))
  }

  function HandleAll(handlers: seq<Handler>, memory: seq<Byte>, index: nat): Option<seq<Value>> {
    if handlers == [] then Some([])
    else
      match Handle(handlers[0], memory, 32 * index)
      case None => None
      case Some(value) =>
        match HandleAll(handlers[1..], memory, index + 1)
        case None => None
        case Some(rest) => Some([value] + rest)
  }

  /** The bytes of "console.log" as a number. */
  const CONSOLE_ADDRESS: nat := 0x636f6e736f6c652e6c6f67

  /** The address spells the name of the function. */
  lemma ConsoleAddressSpells(name: seq<Byte>)
    requires |name| == 11 && forall i :: 0 <= i < 11 ==> name[i] == "console.log"[i] as nat
    ensures ToNat(name) == CONSOLE_ADDRESS
  {
    assert name[..1] == [0x63] && name[..0] == [];
    Spelled(name, 1, 0x63);
    Spelled(name, 3, 0x636f6e);
    Spelled(name, 5, 0x636f6e736f);
    Spelled(name, 7, 0x636f6e736f6c65);
    Spelled(name, 9, 0x636f6e736f6c652e6c);
    assert name[..11] == name;
  }

  lemma Spelled(name: seq<Byte>, k: nat, value: nat)
    requires k + 2 <= |name| && ToNat(name[..k]) == value
    ensures ToNat(name[..k + 2]) == (value * 256 + name[k]) * 256 + name[k + 1]
  {
    assert name[..k + 2][..k + 1] == name[..k + 1] && name[..k + 1][..k] == name[..k];
  }

  const MAX_SAFE_INTEGER: nat := 0x1f_ffff_ffff_ffff

  /** The stack has at least the four elements that are looked at. */
  function MaybeGetLogs(opcode: string, stack: seq<nat>, memory: seq<Byte>, signatures: map<nat, seq<Handler>>)
    : Option<seq<Value>>
    requires |stack| >= 4
  {
    var length, offset, toAddress := stack[|stack| - 4], stack[|stack| - 3], stack[|stack| - 2];
    if opcode != "STATICCALL" || toAddress != CONSOLE_ADDRESS then None
    else if offset > MAX_SAFE_INTEGER || length > MAX_SAFE_INTEGER then None
    else
      var data := Slice(memory, offset, offset + length);
      match ReadUInt32BE(data, 0)
      case None => None
      case Some(selector) =>
        if selector !in signatures then None else HandleAll(signatures[selector], Slice(data, 4, |data|), 0)
  }

  /** What is no call of a log function is none for one of these reasons, and nothing is thrown. */
  lemma NotALog(opcode: string, stack: seq<nat>, memory: seq<Byte>, signatures: map<nat, seq<Handler>>)
    requires |stack| >= 4
    ensures var length, offset, toAddress := stack[|stack| - 4], stack[|stack| - 3], stack[|stack| - 2];
            var data := memory[Clamped(offset, memory)..Clamped(offset + length, memory)];
            MaybeGetLogs(opcode, stack, memory, signatures) == None
            <==> || opcode != "STATICCALL" || toAddress != CONSOLE_ADDRESS
                 || offset >= 0x20_0000_0000_0000 || length >= 0x20_0000_0000_0000
                 || |data| < 4 || ToNat(data[..4]) !in signatures
                 || HandleAll(signatures[ToNat(data[..4])], data[4..], 0) == None
  {
    var length, offset := stack[|stack| - 4], stack[|stack| - 3];
    var data := memory[Clamped(offset, memory)..Clamped(offset + length, memory)];
    assert Slice(memory, offset, offset + length) == data;
    assert |data| >= 4 ==> data[0..0 + 4] == data[..4] && Slice(data, 4, |data|) == data[4..];
  }

  function Clamped(position: nat, memory: seq<Byte>): nat {
    if position <= |memory| then position else |memory|
  }

  /** Behind the end of the data: no bytes, no number, and a flag that is set; only markers throw. */
  lemma BeyondMemory(handler: Handler, memory: seq<Byte>, offset: nat)
    requires offset >= |memory|
    ensures Handle(handler, memory, offset)
            == match handler
               case AddressHandler => Some(Hex([]))
               case BoolHandler => Some(Flag(true))
               case Uint256Handler => Some(Missing)
               case Int256Handler => Some(Missing)
               case FixedBytesHandler(_) => Some(Hex([]))
               case BytesHandler => None
               case StringHandler => None
  {
  }

  /** The arguments are those of the ABI: every number of 256 bits, with and without sign, and 1 to 32 fixed bytes. */
  lemma ValidIff(arg: Arg)
    ensures arg.Valid()
            <==> match arg
                 case Uint256(n) => n <= Pow256(32) - 1
                 case Int256(i) => -(Pow256(32) / 2) <= i <= Pow256(32) / 2 - 1
                 case Address(b) => |b| == 20
                 case FixedBytes(b) => b != [] && |b| < 33
                 case _ => true
  {
    if arg.Int256? { HalfRange(arg.signed, Pow256(31)); }
  }

  lemma HalfRange(i: int, p: nat)
    ensures 0 <= 2 * i + 256 * p < 2 * (256 * p) <==> -(256 * p / 2) <= i <= 256 * p / 2 - 1
  {
  }

  // ---------- Decoding undoes encoding ----------

  function HandlerOf(arg: Arg): Handler {
    match arg
    case Address(_) => AddressHandler
    case Bool(_) => BoolHandler
    case Uint256(_) => Uint256Handler
    case Int256(_) => Int256Handler
    case FixedBytes(b) => FixedBytesHandler(|b|)
    case Bytes(_) => BytesHandler
    case String(_) => StringHandler
  }

  function ValueOf(arg: Arg): Value {
    match arg
    case Address(b) => Hex(b)
    case Bool(flag) => Flag(flag)
    case Uint256(n) => Number(n)
    case Int256(i) => Number(i)
    case FixedBytes(b) => Hex(b)
    case Bytes(b) => Hex(b)
    case String(b) => Text(b)
  }

  function HandlersOf(args: seq<Arg>): seq<Handler> {
    seq(|args|, i requires 0 <= i < |args| => HandlerOf(args[i]))
  }

  function ValuesOf(args: seq<Arg>): seq<Value> {
    seq(|args|, i requires 0 <= i < |args| => ValueOf(args[i]))
  }

  lemma {:induction false} PaddedValue(n: nat, k: nat)
    requires n < Pow256(k)
    ensures ToNat(Padded(n, k)) == n
  {
    if k > 0 {
      assert n / 256 < Pow256(k - 1);
      PaddedValue(n / 256, k - 1);
      assert Padded(n, k)[..k - 1] == Padded(n / 256, k - 1);
    }
  }

  lemma {:induction false} PaddedSuffix(n: nat, k: nat, j: nat)
    requires j <= k
    ensures Padded(n, k)[k - j..] == Padded(n, j)
  {
    if j > 0 {
      PaddedSuffix(n / 256, k - 1, j - 1);
      assert Padded(n, k)[k - j..] == Padded(n / 256, k - 1)[k - j..] + [n % 256];
    }
  }

  /** The top bit says whether the number is at least half of the range. */
  lemma TopBit(word: seq<Byte>)
    requires word != []
    ensures word[0] >= 128 <==> 2 * ToNat(word) >= Pow256(|word|)
  {
    HighByte(word);
    ToNatBound(word[1..]);
    HalfOrMore(word[0], Pow256(|word| - 1), ToNat(word[1..]));
  }

  lemma HalfOrMore(high: nat, p: nat, rest: nat)
    requires rest < p
    ensures 2 * (high * p + rest) >= 256 * p <==> high >= 128
  {
    if high >= 128 {
      assert (high - 128) * p >= 0;
    } else {
      assert (127 - high) * p >= 0;
    }
  }

  // Where things are

  /** `part` is in `memory` from `position` on. */
  ghost predicate At(memory: seq<Byte>, position: nat, part: seq<Byte>) {
    position + |part| <= |memory| && forall k :: 0 <= k < |part| ==> memory[position + k] == part[k]
  }

  lemma AtSlice(memory: seq<Byte>, position: nat, part: seq<Byte>)
    requires At(memory, position, part)
    ensures memory[position..position + |part|] == part
  {
  }

  lemma AtBehind(prefix: seq<Byte>, rest: seq<Byte>, position: nat, part: seq<Byte>)
    requires At(rest, position, part)
    ensures At(prefix + rest, |prefix| + position, part)
  {
    forall k | 0 <= k < |part|
      ensures (prefix + rest)[|prefix| + position + k] == part[k]
    {
      assert (prefix + rest)[|prefix| + (position + k)] == rest[position + k];
    }
  }

  lemma AtFront(part: seq<Byte>, rest: seq<Byte>)
    ensures At(part + rest, 0, part)
  {
  }

  lemma AtInside(memory: seq<Byte>, position: nat, part: seq<Byte>, inner: nat, sub: seq<Byte>)
    requires At(memory, position, part) && At(part, inner, sub)
    ensures At(memory, position + inner, sub)
  {
    forall k | 0 <= k < |sub|
      ensures memory[position + inner + k] == sub[k]
    {
      assert memory[position + (inner + k)] == part[inner + k];
    }
  }

  lemma {:induction false} PartAt(parts: seq<seq<Byte>>, i: nat)
    requires i < |parts|
    ensures At(Concat(parts), |Concat(parts[..i])|, parts[i])
  {
    var front, last := parts[..|parts| - 1], parts[|parts| - 1];
    if i == |front| {
      AtBehind(Concat(front), last, 0, last);
    } else {
      PartAt(front, i);
      assert front[..i] == parts[..i];
      AtFront(Concat(front), last);
      AtInside(Concat(parts), 0, Concat(front), |Concat(parts[..i])|, parts[i]);
    }
  }

  lemma {:induction false} WordsLength(words: seq<seq<Byte>>)
    requires forall i :: 0 <= i < |words| ==> |words[i]| == 32
    ensures |Concat(words)| == 32 * |words|
  {
    if words != [] { WordsLength(words[..|words| - 1]); }
  }

  // What is read there

  lemma NumberDecoded(n: nat, memory: seq<Byte>, offset: nat)
    requires n < Pow256(32) && At(memory, offset, Word(n))
    ensures Slice(memory, offset, offset + WORD_SIZE) == Word(n) && ToNat(Word(n)) == n
    ensures Word(n)[0] >= 128 <==> 2 * n >= Pow256(32)
  {
    AtSlice(memory, offset, Word(n));
    PaddedValue(n, 32);
    TopBit(Word(n));
  }

  lemma BytesDecoded(bytes: seq<Byte>, memory: seq<Byte>, offset: nat)
    requires At(memory, offset, bytes)
    ensures Slice(memory, offset, offset + |bytes|) == bytes
  {
    AtSlice(memory, offset, bytes);
  }

  lemma AddressDecoded(b: seq<Byte>, memory: seq<Byte>, offset: nat)
    requires |b| == 20 && At(memory, offset, Zeros(12) + b)
    ensures Handle(AddressHandler, memory, offset) == Some(Hex(b))
  {
    AtBehind(Zeros(12), b, 0, b);
    AtInside(memory, offset, Zeros(12) + b, 12, b);
    BytesDecoded(b, memory, offset + 12);
  }

  lemma FixedBytesDecoded(b: seq<Byte>, padding: seq<Byte>, memory: seq<Byte>, offset: nat)
    requires At(memory, offset, b + padding)
    ensures Handle(FixedBytesHandler(|b|), memory, offset) == Some(Hex(b))
  {
    AtFront(b, padding);
    AtInside(memory, offset, b + padding, 0, b);
    BytesDecoded(b, memory, offset);
  }

  lemma BoolDecoded(flag: bool, memory: seq<Byte>, offset: nat)
    requires At(memory, offset, Word(if flag then 1 else 0))
    ensures Handle(BoolHandler, memory, offset) == Some(Flag(flag))
  {
    assert memory[offset + 31] == Word(if flag then 1 else 0)[31];
  }

  lemma Uint256Decoded(n: nat, memory: seq<Byte>, offset: nat)
    requires n < Pow256(32) && At(memory, offset, Word(n))
    ensures Handle(Uint256Handler, memory, offset) == Some(Number(n))
  {
    NumberDecoded(n, memory, offset);
  }

  /** Two's complement, negative numbers included. */
  lemma Int256Decoded(i: int, n: nat, memory: seq<Byte>, offset: nat)
    requires 0 <= 2 * i + Pow256(32) < 2 * Pow256(32) && n == if i < 0 then i + Pow256(32) else i
    requires At(memory, offset, Word(n))
    ensures Handle(Int256Handler, memory, offset) == Some(Number(i))
  {
    NumberDecoded(n, memory, offset);
  }

  /** A static value in its word. */
  lemma StaticDecoded(arg: Arg, memory: seq<Byte>, offset: nat)
    requires arg.Valid() && !arg.Dynamic() && At(memory, offset, Static(arg))
    ensures Handle(HandlerOf(arg), memory, offset) == Some(ValueOf(arg))
  {
    match arg
    case Address(b) => AddressDecoded(b, memory, offset);
    case Bool(flag) => BoolDecoded(flag, memory, offset);
    case Uint256(n) => Uint256Decoded(n, memory, offset);
    case Int256(i) => Int256Decoded(i, if i < 0 then i + Pow256(32) else i, memory, offset);
    case FixedBytes(b) => FixedBytesDecoded(b, Zeros(32 - |b|), memory, offset);
  }

  /** A number below 2^32 read from the last 4 bytes of its word. */
  lemma WordRead(n: nat, memory: seq<Byte>, offset: nat)
    requires n < 0x1_0000_0000 && At(memory, offset, Word(n))
    ensures ReadUInt32BE(memory, offset + WORD_SIZE - 4) == Some(n)
  {
    PaddedSuffix(n, 32, 4);
    AtSlice(memory, offset, Word(n));
    assert memory[offset + 28..offset + 32] == memory[offset..offset + 32][28..];
    assert Pow256(4) == 0x1_0000_0000;
    PaddedValue(n, 4);
  }

  /** Dynamic data behind its length. */
  lemma MarkersFound(b: seq<Byte>, padding: seq<Byte>, memory: seq<Byte>, offset: nat, position: nat)
    requires |memory| < 0x1_0000_0000
    requires At(memory, offset, Word(position)) && At(memory, position, Word(|b|) + b + padding)
    ensures GetDynamicDataMarkers(memory, offset) == Some((position + 32, position + 32 + |b|))
    ensures At(memory, position + 32, b)
  {
    WordRead(position, memory, offset);
    AtFront(Word(|b|) + b, padding);
    AtInside(memory, position, Word(|b|) + b + padding, 0, Word(|b|) + b);
    AtFront(Word(|b|), b);
    AtInside(memory, position, Word(|b|) + b, 0, Word(|b|));
    WordRead(|b|, memory, position);
    AtBehind(Word(|b|), b, 0, b);
    AtInside(memory, position, Word(|b|) + b, 32, b);
  }

  lemma DynamicDecoded(arg: Arg, memory: seq<Byte>, offset: nat, position: nat)
    requires arg.Dynamic() && |memory| < 0x1_0000_0000
    requires At(memory, offset, Word(position)) && At(memory, position, Tail(arg))
    ensures Handle(HandlerOf(arg), memory, offset) == Some(ValueOf(arg))
  {
    MarkersFound(arg.bytes, Zeros((32 - |arg.bytes| % 32) % 32), memory, offset, position);
    BytesDecoded(arg.bytes, memory, position + 32);
  }

  /** Head and tail of an argument are where they belong. */
  lemma ArgAt(args: seq<Arg>, i: nat)
    requires i < |args| && forall arg <- args :: arg.Valid()
    ensures At(Encode(args), 32 * i, Head(args[i], Position(args, i)))
    ensures At(Encode(args), Position(args, i), Tail(args[i]))
  {
    HeadAt(args, i);
    TailAt(args, i);
  }

  lemma HeadAt(args: seq<Arg>, i: nat)
    requires i < |args| && forall arg <- args :: arg.Valid()
    ensures At(Encode(args), 32 * i, Head(args[i], Position(args, i)))
  {
    var heads := Heads(args);
    WordsLength(heads[..i]);
    PartAt(heads, i);
    AtFront(Concat(heads), Concat(Tails(args)));
    AtInside(Encode(args), 0, Concat(heads), 32 * i, heads[i]);
  }

  lemma TailAt(args: seq<Arg>, i: nat)
    requires i < |args| && forall arg <- args :: arg.Valid()
    ensures At(Encode(args), Position(args, i), Tail(args[i]))
  {
    var heads, tails := Heads(args), Tails(args);
    WordsLength(heads);
    PartAt(tails, i);
    AtBehind(Concat(heads), Concat(tails), |Concat(tails[..i])|, tails[i]);
  }

  lemma ArgDecoded(args: seq<Arg>, i: nat)
    requires i < |args| && (forall arg <- args :: arg.Valid()) && |Encode(args)| < 0x1_0000_0000
    ensures Handle(HandlerOf(args[i]), Encode(args), 32 * i) == Some(ValueOf(args[i]))
  {
    ArgAt(args, i);
    if args[i].Dynamic() {
      DynamicDecoded(args[i], Encode(args), 32 * i, Position(args, i));
    } else {
      StaticDecoded(args[i], Encode(args), 32 * i);
    }
  }

  lemma HandleNext(handlers: seq<Handler>, memory: seq<Byte>, i: nat, value: Value, rest: seq<Value>)
    requires i < |handlers| && Handle(handlers[i], memory, 32 * i) == Some(value)
    requires HandleAll(handlers[i + 1..], memory, i + 1) == Some(rest)
    ensures HandleAll(handlers[i..], memory, i) == Some([value] + rest)
  {
    assert handlers[i..][1..] == handlers[i + 1..];
  }

  lemma {:induction false} AllHandled(handlers: seq<Handler>, values: seq<Value>, memory: seq<Byte>, i: nat)
    requires i <= |handlers| == |values|
    requires forall k: nat :: k < |handlers| ==> Handle(handlers[k], memory, 32 * k) == Some(values[k])
    ensures HandleAll(handlers[i..], memory, i) == Some(values[i..])
    decreases |handlers| - i
  {
    if i < |handlers| {
      AllHandled(handlers, values, memory, i + 1);
      HandleNext(handlers, memory, i, values[i], values[i + 1..]);
      assert values[i..] == [values[i]] + values[i + 1..];
    }
  }

  lemma AllDecoded(args: seq<Arg>)
    requires (forall arg <- args :: arg.Valid()) && |Encode(args)| < 0x1_0000_0000
    ensures HandleAll(HandlersOf(args), Encode(args), 0) == Some(ValuesOf(args))
  {
    var handlers, values, memory := HandlersOf(args), ValuesOf(args), Encode(args);
    forall k: nat | k < |args|
      ensures Handle(handlers[k], memory, 32 * k) == Some(values[k])
    {
      ArgDecoded(args, k);
    }
    AllHandled(handlers, values, memory, 0);
    assert handlers[0..] == handlers && values[0..] == values;
  }

  /**
   * A call of a log function: whatever its arguments, and wherever in memory its payload is,
   * they come out as they went in.
   */
  lemma LogsAreArguments(
      args: seq<Arg>, selector: nat, stack: seq<nat>, memory: seq<Byte>, signatures: map<nat, seq<Handler>>)
    requires (forall arg <- args :: arg.Valid()) && |Encode(args)| < 0x1_0000_0000
    requires selector < 0x1_0000_0000 && selector in signatures && signatures[selector] == HandlersOf(args)
    requires |stack| >= 4 && stack[|stack| - 2] == CONSOLE_ADDRESS
    requires var length, offset := stack[|stack| - 4], stack[|stack| - 3];
             && length <= MAX_SAFE_INTEGER && offset <= MAX_SAFE_INTEGER && offset + length <= |memory|
             && memory[offset..offset + length] == Padded(selector, 4) + Encode(args)
    ensures MaybeGetLogs("STATICCALL", stack, memory, signatures) == Some(ValuesOf(args))
  {
    var length, offset := stack[|stack| - 4], stack[|stack| - 3];
    var data := Slice(memory, offset, offset + length);
    SelectorRead(selector, Encode(args));
    assert data == Padded(selector, 4) + Encode(args);
    AllDecoded(args);
  }

  lemma SelectorRead(selector: nat, rest: seq<Byte>)
    requires selector < 0x1_0000_0000
    ensures ReadUInt32BE(Padded(selector, 4) + rest, 0) == Some(selector)
    ensures Slice(Padded(selector, 4) + rest, 4, 4 + |rest|) == rest
  {
    assert Pow256(4) == 0x1_0000_0000;
    PaddedValue(selector, 4);
    assert (Padded(selector, 4) + rest)[0..4] == Padded(selector, 4);
  }
}
