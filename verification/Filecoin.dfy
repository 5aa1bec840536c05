/**
 * The Filecoin message pool and the mining of its messages, as functions on values: what a
 * message may look like, what it costs, and what applying it does to the accounts.
 */
module Filecoin {
  import opened RunInvariants
  import opened Wrappers

  // ---------- Addresses and messages ----------

  type Address = string

  datatype Protocol = ID | SECP256K1 | Actor | BLS | Unknown

  function ParseProtocol(a: Address): Protocol {
    if |a| < 2 then Unknown
    else match a[1]
      case '0' => ID
      case '1' => SECP256K1
      case '2' => Actor
      case '3' => BLS
      case _ => Unknown
  }

  /** The miner is the ID address 1000 of the test network. */
  const MINER: Address := "t01000"

  const ZERO_ADDRESS: Address :=
    "t3yaaaaaaaaaaaaaaaaaaaaaaaaaaaaaaaaaaaaaaaaaaaaaaaaaaaaaaaaaaaaaaaaaaaaaaaaaaaby2smx7a"

  datatype Message = Message(
    version: int,
    to: Address,
    from: Address,
    nonce: int,
    value: int,
    gasLimit: int,
    gasFeeCap: int,
    gasPremium: int,
    methodNumber: int)
  {
    /** The most the message can take from its sender. */
    function Cost(): int { gasFeeCap * gasLimit + value }

    function MinerFee(): int { gasLimit * gasPremium }
  }

  datatype Error =
    | UnsupportedMethod | NonceNotZero | FromProtocol | ToProtocol | NotEnoughFunds | CannotSign
    | TooLarge | UnsupportedVersion | ToEmpty | ToInvalid | FromEmpty
    | ValueNegative | ValueTooLarge | FeeCapNegative | PremiumNegative | PremiumAboveFeeCap
    | GasLimitTooLarge | GasLimitTooSmall | FeeCapTooLow | BadSignature

  // ---------- Gas ----------

  const MIN_GAS_PREMIUM := 100000

  /** `size` is the length of the serialized message. */
  function GasForMessage(m: Message, size: nat): (gas: int)
    ensures gas > 0
  {
    38863 + 36 + size * 1300 + 29233
    + (if m.value != 0 then 27500 + (if m.methodNumber == 0 then 159672 else 0) else 0)
    + (if m.methodNumber != 0 then -5377 else 0)
  }

  /** BigInt division rounds toward zero. */
  function Truncated(a: int, b: int): (q: int)
    requires b != 0
    ensures a >= 0 ==> 0 <= b * q <= a < b * q + if b > 0 then b else -b
    ensures a <= 0 ==> 0 >= b * q >= a > b * q - if b > 0 then b else -b
  {
    if a >= 0 || a % b == 0 then a / b else if b > 0 then a / b + 1 else a / b - 1
  }

  function FillGasInformation(m: Message, maxFee: int, size: nat): Message {
    var limit := if m.gasLimit == 0 then GasForMessage(m, size) else m.gasLimit;
    var premium := if m.gasPremium == 0 then MIN_GAS_PREMIUM else m.gasPremium;
    var feeCap := if m.gasFeeCap == 0 then premium else m.gasFeeCap;
    var filled := m.(gasLimit := limit, gasPremium := premium, gasFeeCap := feeCap);
    if maxFee == 0 || limit * feeCap <= maxFee then filled
    else
      var capped := Truncated(maxFee, limit);
      filled.(gasFeeCap := capped, gasPremium := if capped < premium then capped else premium)
  }

  /** The gas of a message of `size` bytes, by what it does. */
  lemma GasByKind(m: Message, size: nat)
    ensures GasForMessage(m, size) - 1300 * size
            == if m.methodNumber == 0 then (if m.value == 0 then 68132 else 255304)
               else (if m.value == 0 then 62755 else 90255)
  {
  }

  /** Without a maximum fee what was given stays, and what was left out gets its default. */
  lemma FilledDefaults(m: Message, size: nat)
    ensures var f := FillGasInformation(m, 0, size);
            && (m.gasPremium != 0 ==> f.gasPremium == m.gasPremium) && (m.gasPremium == 0 ==> f.gasPremium == 100000)
            && (m.gasFeeCap != 0 ==> f.gasFeeCap == m.gasFeeCap) && (m.gasFeeCap == 0 ==> f.gasFeeCap == f.gasPremium)
            && (m.gasLimit == 0 ==> f.gasLimit == GasForMessage(m, size))
  {
  }

  /** A maximum fee changes a message only if it is over it; then it gets the highest cap that is not. */
  lemma FilledHighestCap(m: Message, maxFee: int, size: nat)
    requires maxFee > 0 && m.gasLimit >= 0
    ensures var free, f := FillGasInformation(m, 0, size), FillGasInformation(m, maxFee, size);
            && f.gasLimit == free.gasLimit > 0
            && (free.gasLimit * free.gasFeeCap <= maxFee ==> f == free)
            && (free.gasLimit * free.gasFeeCap > maxFee ==>
                  && f.gasLimit * f.gasFeeCap <= maxFee < f.gasLimit * f.gasFeeCap + f.gasLimit
                  && f.gasPremium <= f.gasFeeCap && f.gasPremium <= free.gasPremium
                  && f.gasPremium in {f.gasFeeCap, free.gasPremium})
  {
    var limit := FillGasInformation(m, 0, size).gasLimit;
    var capped := Truncated(maxFee, limit);
  }

  /** A filled message respects a maximum fee, and fills only what was left out or is over it. */
  lemma FilledRespectsMaxFee(m: Message, maxFee: int, size: nat)
    ensures var f := FillGasInformation(m, maxFee, size);
            && (maxFee > 0 ==> f.gasLimit * f.gasFeeCap <= maxFee)
            && f == m.(gasLimit := f.gasLimit, gasFeeCap := f.gasFeeCap, gasPremium := f.gasPremium)
            && f.gasLimit != 0 && (m.gasLimit != 0 ==> f.gasLimit == m.gasLimit)
  {
    var limit := if m.gasLimit == 0 then GasForMessage(m, size) else m.gasLimit;
    var capped := Truncated(maxFee, limit);
  }

  /** The premium ends up above the fee cap only if both were given so, or a cap below the default premium was. */
  lemma FilledPremiumIff(m: Message, maxFee: int, size: nat)
    ensures var f := FillGasInformation(m, maxFee, size);
            var premium := if m.gasPremium == 0 then MIN_GAS_PREMIUM else m.gasPremium;
            f.gasPremium <= f.gasFeeCap
            <==> m.gasFeeCap == 0 || premium <= m.gasFeeCap || (maxFee != 0 && f.gasLimit * m.gasFeeCap > maxFee)
  {
  }

  // ---------- What a message must satisfy ----------

  const TOTAL_FILECOIN := 2000000000 * 1000000000000000000
  const BLOCK_GAS_LIMIT := 10000000000
  const MINIMUM_BASE_FEE := 100
  const MAX_SIZE := 32 * 1024

  /** The characters `trim` removes. */
  const BLANKS := "\t\n\r \U{000B}\U{000C}\U{00A0}\U{1680}\U{2028}\U{2029}\U{202F}\U{205F}\U{3000}\U{FEFF}"
    + "\U{2000}\U{2001}\U{2002}\U{2003}\U{2004}\U{2005}\U{2006}\U{2007}\U{2008}\U{2009}\U{200A}"

  predicate Blank(s: string) {
    forall c <- s :: c in BLANKS
  }

  function ValidForBlockInclusion(m: Message, minGas: int, version: int): Option<Error> {
    if m.version != 0 then Some(UnsupportedVersion)
    else if Blank(m.to) then Some(ToEmpty)
    else if m.to == ZERO_ADDRESS && version >= 7 then Some(ToInvalid)
    else if Blank(m.from) then Some(FromEmpty)
    else if m.value < 0 then Some(ValueNegative)
    else if m.value > TOTAL_FILECOIN then Some(ValueTooLarge)
    else if m.gasFeeCap < 0 then Some(FeeCapNegative)
    else if m.gasPremium < 0 then Some(PremiumNegative)
    else if m.gasPremium > m.gasFeeCap then Some(PremiumAboveFeeCap)
    else if m.gasLimit > BLOCK_GAS_LIMIT then Some(GasLimitTooLarge)
    else if m.gasLimit < minGas then Some(GasLimitTooSmall)
    else None
  }

  /**
   * `size` is the length of the serialized signed message, `verified` what its signature gives;
   * an ID address has none that verifies.
   */
  function CheckMessage(m: Message, size: nat, verified: bool): Option<Error> {
    if size > MAX_SIZE then Some(TooLarge)
    else
      var invalid := ValidForBlockInclusion(m, 0, 8);
      if invalid.Some? then invalid
      else if m.gasFeeCap < MINIMUM_BASE_FEE then Some(FeeCapTooLow)
      else if ParseProtocol(m.from) == ID || !verified then Some(BadSignature)
      else None
  }

  /** Whether each of the checks fails, in their order, and with which error. */
  function Faults(m: Message, size: nat, verified: bool): seq<(bool, Error)> {
    [(size > 32768, TooLarge), (m.version != 0, UnsupportedVersion), (Blank(m.to), ToEmpty),
     (m.to == ZERO_ADDRESS, ToInvalid), (Blank(m.from), FromEmpty), (m.value < 0, ValueNegative),
     (m.value > 2000000000_000000000_000000000, ValueTooLarge), (m.gasFeeCap < 0, FeeCapNegative),
     (m.gasPremium < 0, PremiumNegative), (m.gasPremium > m.gasFeeCap, PremiumAboveFeeCap),
     (m.gasLimit > 10000000000, GasLimitTooLarge), (m.gasLimit < 0, GasLimitTooSmall),
     (m.gasFeeCap < 100, FeeCapTooLow), (ParseProtocol(m.from) == ID || !verified, BadSignature)]
  }

  /** The message is accepted if and only if no check fails; otherwise the first that does decides. */
  lemma CheckedInOrder(m: Message, size: nat, verified: bool)
    ensures var faults := Faults(m, size, verified);
            match CheckMessage(m, size, verified)
            case None => forall i :: 0 <= i < |faults| ==> !faults[i].0
            case Some(e) => exists i: nat :: FirstFault(faults, i) && faults[i].1 == e
  {
    var faults := Faults(m, size, verified);
    if CheckMessage(m, size, verified).Some? {
      var i := FaultOf(m, size, verified);
      assert FirstFault(faults, i);
    }
  }

  lemma FaultOf(m: Message, size: nat, verified: bool) returns (i: nat)
    requires CheckMessage(m, size, verified).Some?
    ensures var faults := Faults(m, size, verified);
            FirstFault(faults, i) && CheckMessage(m, size, verified) == Some(faults[i].1)
  {
    var faults := Faults(m, size, verified);
    i := if faults[0].0 then 0 else if faults[1].0 then 1 else if faults[2].0 then 2 else if faults[3].0 then 3
      else if faults[4].0 then 4 else if faults[5].0 then 5 else if faults[6].0 then 6 else if faults[7].0 then 7
      else if faults[8].0 then 8 else if faults[9].0 then 9 else if faults[10].0 then 10
      else if faults[11].0 then 11 else if faults[12].0 then 12 else 13;
  }

  /** Sending to the zero address is invalid from version 7 of the network on, and only then for that reason. */
  lemma ZeroAddressByVersion(m: Message, minGas: int, version: int)
    requires m.to == ZERO_ADDRESS && m.version == 0
    ensures ValidForBlockInclusion(m, minGas, version) == Some(ToInvalid) <==> 7 <= version
  {
    NotBlank(m.to, 85);
  }

  lemma NotBlank(a: Address, k: nat)
    requires k < |a| && (a[k] == 't' || a[k] == 'a')
    ensures !Blank(a)
  {
    assert a[k] in a && a[k] !in BLANKS;
  }

  predicate FirstFault(faults: seq<(bool, Error)>, i: nat) {
    i < |faults| && faults[i].0 && forall k: nat :: k < i ==> !faults[k].0
  }

  /** The digit behind the network's letter names the protocol. */
  lemma ProtocolByDigit(a: Address)
    ensures ParseProtocol(a) == Unknown <==> |a| < 2 || a[1] !in "0123"
    ensures ParseProtocol(a) != Unknown ==> [ID, SECP256K1, Actor, BLS][a[1] as int - '0' as int] == ParseProtocol(a)
  {
  }

  // ---------- Accounts ----------

  datatype Account = Account(balance: int, nonce: nat)

  type Accounts = map<Address, Account>

  /** An account that was never stored has balance 0 and nonce 0. */
  function Get(accounts: Accounts, a: Address): Account {
    if a in accounts then accounts[a] else Account(0, 0)
  }

  /** An account read for an increment of its nonce, as it will be stored. */
  datatype Increment = Increment(address: Address, account: Account)

  function BeginIncrement(accounts: Accounts, a: Address): Increment {
    Increment(a, Get(accounts, a).(nonce := Get(accounts, a).nonce + 1))
  }

  /** The store of an increment that is under way, if there is one. */
  function Land(accounts: Accounts, increment: Option<Increment>): Accounts {
    if increment.None? then accounts else accounts[increment.value.address := increment.value.account]
  }

  /**
   * Both accounts are loaded before either is stored, so the second store wins if they are the
   * same. An increment nobody waited for is stored after the loads and before the stores.
   */
  function TransferDuring(accounts: Accounts, increment: Option<Increment>, from: Address, to: Address, amount: int)
    : (Accounts, bool)
  {
    var fromAccount, toAccount := Get(accounts, from), Get(accounts, to);
    var landed := Land(accounts[from := fromAccount][to := toAccount], increment);
    if fromAccount.balance >= amount then
      (landed[from := fromAccount.(balance := fromAccount.balance - amount)]
             [to := toAccount.(balance := toAccount.balance + amount)], true)
    else (landed, false)
  }

  function TransferFunds(accounts: Accounts, from: Address, to: Address, amount: int): (Accounts, bool) {
    TransferDuring(accounts, None, from, to, amount)
  }

  /** Where the mining loop is: the stored accounts, and the increment it did not wait for. */
  datatype Mining = Mining(accounts: Accounts, increment: Option<Increment>)

  /** What mining one message does; the base fee is always 0. */
  function Apply(s: Mining, m: Message): (Mining, bool) {
    var (paid, feePaid) := TransferDuring(s.accounts, s.increment, m.from, MINER, m.MinerFee());
    if !feePaid then (Mining(paid, None), false)
    else
      var (moved, sent) := TransferFunds(paid, m.from, m.to, m.value);
      if !sent then (Mining(moved, None), false) else (Mining(moved, Some(BeginIncrement(moved, m.from))), true)
  }

  /** Applies the messages in order; the second part are those that succeed. */
  function ApplyAll(accounts: Accounts, pool: seq<Message>): (Mining, seq<Message>) {
    if pool == [] then (Mining(accounts, None), [])
    else
      var (before, done) := ApplyAll(accounts, pool[..|pool| - 1]);
      var m := pool[|pool| - 1];
      var (after, ok) := Apply(before, m);
      (after, if ok then done + [m] else done)
  }

  /** The accounts once the last increment is stored, and the messages that succeed. */
  function MineAll(accounts: Accounts, pool: seq<Message>): (Accounts, seq<Message>) {
    var (s, done) := ApplyAll(accounts, pool);
    (Land(s.accounts, s.increment), done)
  }

  // ---------- The total balance ----------

  ghost function Total(accounts: Accounts): int {
    if accounts == map[] then 0
    else
      var a :| a in accounts;
      accounts[a].balance + Total(accounts - {a})
  }

  lemma {:induction false} TotalWithout(accounts: Accounts, a: Address)
    requires a in accounts
    ensures Total(accounts) == accounts[a].balance + Total(accounts - {a})
  {
    var b :| b in accounts && Total(accounts) == accounts[b].balance + Total(accounts - {b});
    if b != a {
      TotalWithout(accounts - {b}, a);
      TotalWithout(accounts - {a}, b);
      assert accounts - {b} - {a} == accounts - {a} - {b};
    }
  }

  lemma TotalPut(accounts: Accounts, a: Address, account: Account)
    ensures Total(accounts[a := account]) == Total(accounts) - Get(accounts, a).balance + account.balance
  {
    TotalWithout(accounts[a := account], a);
    assert accounts[a := account] - {a} == accounts - {a};
    if a in accounts {
      TotalWithout(accounts, a);
    } else {
      assert accounts - {a} == accounts;
    }
  }

  lemma TotalPutTwo(accounts: Accounts, from: Address, f: Account, to: Address, t: Account)
    ensures Total(accounts[from := f][to := t])
            == Total(accounts) - Get(accounts, from).balance + f.balance
               - (if from == to then f else Get(accounts, to)).balance + t.balance
  {
    TotalPut(accounts, from, f);
    TotalPut(accounts[from := f], to, t);
  }

  /** What is under way stores the account as it is, but for its nonce. */
  ghost predicate InFlight(s: Mining) {
    s.increment.Some? ==>
      && s.increment.value.address != MINER
      && s.increment.value == BeginIncrement(s.accounts, s.increment.value.address)
  }

  lemma LandKeepsTotal(s: Mining)
    requires InFlight(s)
    ensures Total(Land(s.accounts, s.increment)) == Total(s.accounts)
  {
    if s.increment.Some? { TotalPut(s.accounts, s.increment.value.address, s.increment.value.account); }
  }

  /** An increment that lands during a transfer does not change what the transfer moves. */
  lemma DuringTotal(s: Mining, from: Address, to: Address, amount: int)
    requires InFlight(s)
    ensures var (after, ok) := TransferDuring(s.accounts, s.increment, from, to, amount);
            Total(after) == Total(s.accounts) + if ok && from == to then amount else 0
  {
    var f, t := Get(s.accounts, from), Get(s.accounts, to);
    var loaded := s.accounts[from := f][to := t];
    TotalPutTwo(s.accounts, from, f, to, t);
    LandKeepsTotal(Mining(loaded, s.increment));
    var landed := Land(loaded, s.increment);
    TotalPutTwo(landed, from, f.(balance := f.balance - amount), to, t.(balance := t.balance + amount));
  }

  /** A transfer conserves the total, except to the sender itself, where it mints the amount. */
  lemma TransferTotal(accounts: Accounts, from: Address, to: Address, amount: int)
    ensures var (after, ok) := TransferFunds(accounts, from, to, amount);
            Total(after) == Total(accounts) + if ok && from == to then amount else 0
  {
    DuringTotal(Mining(accounts, None), from, to, amount);
  }

  lemma TransferConservesIff(accounts: Accounts, from: Address, to: Address, amount: int)
    ensures Total(TransferFunds(accounts, from, to, amount).0) == Total(accounts)
            <==> Get(accounts, from).balance < amount || from != to || amount == 0
  {
    TransferTotal(accounts, from, to, amount);
  }

  /** What a transfer moves, and which increments it undoes: those of accounts it stores. */
  lemma TransferMoves(s: Mining, from: Address, to: Address, amount: int, a: Address)
    requires InFlight(s)
    ensures var (after, ok) := TransferDuring(s.accounts, s.increment, from, to, amount);
            && ok == (Get(s.accounts, from).balance >= amount)
            && Get(after, a).nonce == Get(s.accounts, a).nonce
                 + (if s.increment.Some? && s.increment.value.address == a && !(ok && a in {from, to}) then 1 else 0)
            && Get(after, a).balance == Get(s.accounts, a).balance
                 + (if ok && a == to then amount else 0) - (if ok && a == from && from != to then amount else 0)
  {
  }

  // ---------- The pool ----------

  /** The pending messages of a sender, in the order they were pushed. */
  function Of(pool: seq<Message>, a: Address): seq<Message> {
    if pool == [] then []
    else
      var front, last := Of(pool[..|pool| - 1], a), pool[|pool| - 1];
      if last.from == a then front + [last] else front
  }

  /** What the messages can cost together. */
  function Required(msgs: seq<Message>): int {
    if msgs == [] then 0 else Required(msgs[..|msgs| - 1]) + msgs[|msgs| - 1].Cost()
  }

  function HighestNonce(msgs: seq<Message>, start: int): int {
    if msgs == [] then start
    else
      var h, last := HighestNonce(msgs[..|msgs| - 1], start), msgs[|msgs| - 1].nonce;
      if last > h then last else h
  }

  /** The nonces count up from the account's. */
  ghost predicate Numbered(msgs: seq<Message>, nonce: nat) {
    forall i :: 0 <= i < |msgs| ==> msgs[i].nonce == nonce + i
  }

  /** What every message in the pool satisfies. */
  ghost predicate Sound(m: Message) {
    && 0 <= m.gasPremium <= m.gasFeeCap && m.gasLimit >= 0 && m.value >= 0
    && m.from != MINER
  }

  /** A sender can pay for everything pending, and its nonces are in order. */
  ghost predicate Covered(msgs: seq<Message>, account: Account) {
    account.balance >= Required(msgs) && Numbered(msgs, account.nonce)
  }

  ghost predicate Solvent(pool: seq<Message>, accounts: Accounts) {
    && (forall m <- pool :: Sound(m))
    && (forall a: Address :: Covered(Of(pool, a), Get(accounts, a)))
  }

  // ---------- push ----------

  /** `keys` are the addresses whose private key is held; sizes and `verified` as above. */
  datatype Checks = Checks(keys: set<Address>, size: nat, signedSize: nat, verified: bool)

  /** The message as it enters the pool, or why it does not. */
  function Prepare(pool: seq<Message>, accounts: Accounts, m: Message, maxFee: int, c: Checks): Result<Message, Error> {
    if m.methodNumber != 0 then Failure(UnsupportedMethod)
    else if m.nonce != 0 then Failure(NonceNotZero)
    else if ParseProtocol(m.from) in {ID, Unknown} then Failure(FromProtocol)
    else if ParseProtocol(m.to) in {ID, Unknown} then Failure(ToProtocol)
    else
      var filled, account, mine := FillGasInformation(m, maxFee, c.size), Get(accounts, m.from), Of(pool, m.from);
      var numbered := filled.(nonce := if mine == [] then account.nonce else HighestNonce(mine, account.nonce) + 1);
      if account.balance < numbered.Cost() + Required(mine) then Failure(NotEnoughFunds)
      else if m.from !in c.keys || ParseProtocol(m.from) == Actor then Failure(CannotSign)
      else
        match CheckMessage(numbered, c.signedSize, c.verified)
        case Some(e) => Failure(e)
        case None => Success(numbered)
  }

  lemma {:induction false} NumberedHighest(msgs: seq<Message>, nonce: nat)
    requires Numbered(msgs, nonce) && msgs != []
    ensures HighestNonce(msgs, nonce) == nonce + |msgs| - 1
  {
    var front := msgs[..|msgs| - 1];
    if front != [] {
      NumberedHighest(front, nonce);
    }
  }

  lemma OfSnoc(pool: seq<Message>, m: Message, a: Address)
    ensures Of(pool + [m], a) == if m.from == a then Of(pool, a) + [m] else Of(pool, a)
  {
    assert (pool + [m])[..|pool|] == pool;
  }

  lemma RequiredSnoc(msgs: seq<Message>, m: Message)
    ensures Required(msgs + [m]) == Required(msgs) + m.Cost()
  {
    assert (msgs + [m])[..|msgs|] == msgs;
  }

  lemma PreparedIsSound(pool: seq<Message>, accounts: Accounts, m: Message, maxFee: int, c: Checks)
    requires Prepare(pool, accounts, m, maxFee, c).Success?
    ensures var p := Prepare(pool, accounts, m, maxFee, c).value;
            && Sound(p) && p.from == m.from && p.to == m.to && p.value == m.value
            && Get(accounts, m.from).balance >= Required(Of(pool, m.from)) + p.Cost()
  {
  }

  lemma PreparedIsNext(pool: seq<Message>, accounts: Accounts, m: Message, maxFee: int, c: Checks)
    requires Prepare(pool, accounts, m, maxFee, c).Success?
    requires Numbered(Of(pool, m.from), Get(accounts, m.from).nonce)
    ensures Prepare(pool, accounts, m, maxFee, c).value.nonce == Get(accounts, m.from).nonce + |Of(pool, m.from)|
  {
    if Of(pool, m.from) != [] { NumberedHighest(Of(pool, m.from), Get(accounts, m.from).nonce); }
  }

  lemma AcceptedIsSound(m: Message, size: nat, verified: bool)
    requires CheckMessage(m, size, verified) == None
    ensures Sound(m)
  {
  }

  /** What a message signed elsewhere must satisfy, for its sender to stay covered. */
  predicate Fits(pool: seq<Message>, accounts: Accounts, m: Message) {
    && m.nonce == Get(accounts, m.from).nonce + |Of(pool, m.from)|
    && Get(accounts, m.from).balance >= Required(Of(pool, m.from)) + m.Cost()
  }

  /** An accepted message keeps the pool solvent exactly when it has the next nonce and is covered. */
  lemma PushSignedKeepsIff(pool: seq<Message>, accounts: Accounts, m: Message, size: nat, verified: bool)
    requires Solvent(pool, accounts) && CheckMessage(m, size, verified) == None
    ensures Solvent(pool + [m], accounts) <==> Fits(pool, accounts, m)
  {
    AcceptedIsSound(m, size, verified);
    SolventSnocIff(pool, accounts, m);
  }

  lemma SolventSnocIff(pool: seq<Message>, accounts: Accounts, m: Message)
    requires Solvent(pool, accounts) && Sound(m)
    ensures Solvent(pool + [m], accounts) <==> Fits(pool, accounts, m)
  {
    var account := Get(accounts, m.from);
    assert Covered(Of(pool, m.from), account);
    OfSnoc(pool, m, m.from);
    CoveredSnocIff(Of(pool, m.from), m, account);
    if Fits(pool, accounts, m) {
      forall a: Address
        ensures Covered(Of(pool + [m], a), Get(accounts, a))
      {
        assert Covered(Of(pool, a), Get(accounts, a));
        OfSnoc(pool, m, a);
      }
    } else {
      assert !Covered(Of(pool + [m], m.from), account);
    }
  }

  lemma CoveredSnocIff(msgs: seq<Message>, p: Message, account: Account)
    requires Covered(msgs, account)
    ensures Covered(msgs + [p], account)
            <==> p.nonce == account.nonce + |msgs| && account.balance >= Required(msgs) + p.Cost()
  {
    RequiredSnoc(msgs, p);
    assert (msgs + [p])[|msgs|] == p;
  }

  lemma PushKeepsSolvent(pool: seq<Message>, accounts: Accounts, m: Message, maxFee: int, c: Checks)
    requires Solvent(pool, accounts) && Prepare(pool, accounts, m, maxFee, c).Success?
    ensures Solvent(pool + [Prepare(pool, accounts, m, maxFee, c).value], accounts)
  {
    PreparedIsSound(pool, accounts, m, maxFee, c);
    assert Covered(Of(pool, m.from), Get(accounts, m.from));
    PreparedIsNext(pool, accounts, m, maxFee, c);
    SolventSnocIff(pool, accounts, Prepare(pool, accounts, m, maxFee, c).value);
  }

  // ---------- mpoolClear ----------

  /** Without `local`, only messages of controllable senders stay. */
  function Kept(pool: seq<Message>, keys: set<Address>): seq<Message> {
    if pool == [] then []
    else
      var front, last := Kept(pool[..|pool| - 1], keys), pool[|pool| - 1];
      if last.from in keys then front + [last] else front
  }

  lemma {:induction false} KeptOf(pool: seq<Message>, keys: set<Address>, a: Address)
    ensures Of(Kept(pool, keys), a) == if a in keys then Of(pool, a) else []
    ensures forall m <- Kept(pool, keys) :: m in pool
  {
    if pool != [] {
      var front, last := pool[..|pool| - 1], pool[|pool| - 1];
      KeptOf(front, keys, a);
      OfSnoc(Kept(front, keys), last, a);
    }
  }

  lemma ClearKeepsSolvent(pool: seq<Message>, accounts: Accounts, keys: set<Address>)
    requires Solvent(pool, accounts)
    ensures Solvent(Kept(pool, keys), accounts)
  {
    KeptOf(pool, keys, "");
    forall a: Address
      ensures Covered(Of(Kept(pool, keys), a), Get(accounts, a))
    {
      KeptOf(pool, keys, a);
      assert Covered(Of(pool, a), Get(accounts, a));
      CoveredIsNotNegative(pool, accounts, a);
    }
  }

  lemma {:induction false} OfSound(pool: seq<Message>, a: Address)
    requires forall m <- pool :: Sound(m)
    ensures forall m <- Of(pool, a) :: Sound(m) && m.from == a
  {
    if pool != [] {
      assert pool == pool[..|pool| - 1] + [pool[|pool| - 1]];
      OfSound(pool[..|pool| - 1], a);
    }
  }

  lemma {:induction false} RequiredNotNegative(msgs: seq<Message>)
    requires forall m <- msgs :: Sound(m)
    ensures Required(msgs) >= 0
  {
    if msgs != [] {
      var last := msgs[|msgs| - 1];
      assert Sound(last);
      CostCoversFee(last);
      assert forall m <- msgs[..|msgs| - 1] :: m in msgs;
      RequiredNotNegative(msgs[..|msgs| - 1]);
    }
  }

  lemma CoveredIsNotNegative(pool: seq<Message>, accounts: Accounts, a: Address)
    requires Solvent(pool, accounts)
    ensures Get(accounts, a).balance >= Required(Of(pool, a)) >= 0
  {
    OfSound(pool, a);
    RequiredNotNegative(Of(pool, a));
    assert Covered(Of(pool, a), Get(accounts, a));
  }

  /** The fee cap times the limit covers the miner's fee. */
  lemma CostCoversFee(m: Message)
    requires Sound(m)
    ensures 0 <= m.MinerFee() == m.gasLimit * m.gasPremium
    ensures m.MinerFee() + m.value <= m.Cost() == m.gasLimit * m.gasFeeCap + m.value
  {
    assert m.gasLimit * (m.gasFeeCap - m.gasPremium) >= 0;
  }

  // ---------- mineTipset ----------

  /** Every sender can pay for everything pending. */
  ghost predicate Funded(pool: seq<Message>, accounts: Accounts) {
    && (forall m <- pool :: Sound(m))
    && (forall a: Address :: Get(accounts, a).balance >= Required(Of(pool, a)))
  }

  lemma SolventIsFunded(pool: seq<Message>, accounts: Accounts)
    requires Solvent(pool, accounts)
    ensures Funded(pool, accounts)
  {
    forall a: Address
      ensures Get(accounts, a).balance >= Required(Of(pool, a))
    {
      assert Covered(Of(pool, a), Get(accounts, a));
    }
  }

  lemma FundedFront(pool: seq<Message>, last: Message, accounts: Accounts)
    requires Funded(pool + [last], accounts)
    ensures Funded(pool, accounts) && Sound(last)
    ensures Get(accounts, last.from).balance >= Required(Of(pool, last.from)) + last.Cost()
  {
    assert last in pool + [last] && forall m <- pool :: m in pool + [last];
    CostCoversFee(last);
    forall a: Address
      ensures Get(accounts, a).balance >= Required(Of(pool, a)) + if a == last.from then last.Cost() else 0
    {
      OfSnoc(pool, last, a);
      RequiredSnoc(Of(pool, a), last);
      assert Get(accounts, a).balance >= Required(Of(pool + [last], a));
    }
  }

  /** What a message that succeeds moves into an account, or out of it. */
  function Flow(m: Message, a: Address): int {
    (if a == MINER then m.gasLimit * m.gasPremium else 0) - (if a == m.from then m.gasLimit * m.gasPremium else 0)
    + (if a == m.to then m.value else 0) - (if a == m.from && m.from != m.to then m.value else 0)
  }

  function Flows(msgs: seq<Message>, a: Address): int {
    if msgs == [] then 0 else Flows(msgs[..|msgs| - 1], a) + Flow(msgs[|msgs| - 1], a)
  }

  lemma FlowAtLeast(m: Message, a: Address)
    requires Sound(m)
    ensures Flow(m, a) >= if m.from == a then -m.Cost() else 0
  {
    CostCoversFee(m);
  }

  lemma {:induction false} FlowsAtLeast(msgs: seq<Message>, a: Address)
    requires forall m <- msgs :: Sound(m)
    ensures Flows(msgs, a) >= -Required(Of(msgs, a))
  {
    if msgs != [] {
      var front, last := msgs[..|msgs| - 1], msgs[|msgs| - 1];
      assert msgs == front + [last] && Sound(last);
      FlowsAtLeast(front, a);
      FlowAtLeast(last, a);
      OfSnoc(front, last, a);
      RequiredSnoc(Of(front, a), last);
    }
  }

  /** How many stretches of adjacent messages the sender has in the pool. */
  function Turns(pool: seq<Message>, a: Address): nat {
    if pool == [] then 0
    else
      var front, last := pool[..|pool| - 1], pool[|pool| - 1];
      Turns(front, a) + if last.from == a && (front == [] || front[|front| - 1].from != a) then 1 else 0
  }

  /** What applying one message does to any account, if its sender can pay. */
  lemma ApplyMoves(s: Mining, m: Message, a: Address)
    requires InFlight(s) && Sound(m) && Get(s.accounts, m.from).balance >= m.Cost()
    ensures var (after, ok) := Apply(s, m);
            && ok && InFlight(after) && after.increment == Some(BeginIncrement(after.accounts, m.from))
            && Get(after.accounts, a).balance == Get(s.accounts, a).balance + Flow(m, a)
            && Get(after.accounts, a).nonce == Get(s.accounts, a).nonce
                 + if s.increment.Some? && s.increment.value.address == a != m.from then 1 else 0
  {
    CostCoversFee(m);
    TransferMoves(s, m.from, MINER, m.MinerFee(), a);
    TransferMoves(s, m.from, MINER, m.MinerFee(), m.from);
    var paid := TransferDuring(s.accounts, s.increment, m.from, MINER, m.MinerFee()).0;
    TransferMoves(Mining(paid, None), m.from, m.to, m.value, a);
  }

  /** How far the mining of a funded pool has brought an account. */
  ghost predicate Mined(accounts: Accounts, pool: seq<Message>, s: Mining, a: Address) {
    && InFlight(s)
    && s.increment == (if pool == [] then None else Some(BeginIncrement(s.accounts, pool[|pool| - 1].from)))
    && Get(s.accounts, a).balance == Get(accounts, a).balance + Flows(pool, a)
    && Get(Land(s.accounts, s.increment), a).nonce == Get(accounts, a).nonce + Turns(pool, a)
  }

  lemma MinedSnoc(accounts: Accounts, pool: seq<Message>, s: Mining, m: Message, a: Address)
    requires Mined(accounts, pool, s, a) && Sound(m) && Get(s.accounts, m.from).balance >= m.Cost()
    ensures Apply(s, m).1 && Mined(accounts, pool + [m], Apply(s, m).0, a)
  {
    assert (pool + [m])[..|pool|] == pool;
    ApplyMoves(s, m, a);
  }

  lemma {:induction false} MiningGoesOn(accounts: Accounts, pool: seq<Message>, a: Address)
    requires Funded(pool, accounts)
    ensures ApplyAll(accounts, pool).1 == pool
    ensures Mined(accounts, pool, ApplyAll(accounts, pool).0, a)
  {
    if pool != [] {
      var front, last := pool[..|pool| - 1], pool[|pool| - 1];
      assert pool == front + [last];
      FundedFront(front, last, accounts);
      MiningGoesOn(accounts, front, a);
      MiningGoesOn(accounts, front, last.from);
      FlowsAtLeast(front, last.from);
      MinedSnoc(accounts, front, ApplyAll(accounts, front).0, last, a);
    }
  }

  /**
   * Mining a funded pool drops nothing, gives every account exactly what the messages moved,
   * and advances each nonce by one for every stretch of adjacent messages of its sender.
   */
  lemma MiningAFundedPool(accounts: Accounts, pool: seq<Message>, a: Address)
    requires Funded(pool, accounts)
    ensures var (after, done) := MineAll(accounts, pool);
            && done == pool
            && Get(after, a).balance == Get(accounts, a).balance + Flows(pool, a) >= 0
            && Get(after, a).nonce == Get(accounts, a).nonce + Turns(pool, a)
  {
    MiningGoesOn(accounts, pool, a);
    FlowsAtLeast(pool, a);
  }

  predicate Adjacent(pool: seq<Message>, a: Address, i: int) {
    0 < i < |pool| && pool[i - 1].from == a == pool[i].from
  }

  /** A sender has as many stretches as messages exactly when no two of them are adjacent. */
  lemma {:induction false} TurnsIff(pool: seq<Message>, a: Address)
    ensures Turns(pool, a) <= |Of(pool, a)|
    ensures Turns(pool, a) == |Of(pool, a)| <==> forall i :: !Adjacent(pool, a, i)
  {
    if pool != [] {
      var front := pool[..|pool| - 1];
      TurnsIff(front, a);
      assert forall i :: i != |pool| - 1 ==> Adjacent(pool, a, i) == Adjacent(front, a, i);
      assert Adjacent(pool, a, |pool| - 1) || !Adjacent(pool, a, |pool| - 1);
    }
  }

  /** Mining advances a nonce by the number of messages exactly when no two are adjacent. */
  lemma NonceCountsIff(accounts: Accounts, pool: seq<Message>, a: Address)
    requires Funded(pool, accounts)
    ensures Get(MineAll(accounts, pool).0, a).nonce == Get(accounts, a).nonce + |Of(pool, a)|
            <==> forall i :: !Adjacent(pool, a, i)
  {
    MiningAFundedPool(accounts, pool, a);
    TurnsIff(pool, a);
  }

  /** After an increment was lost, the next message of the sender gets a nonce that was mined before. */
  lemma NonceReused(accounts: Accounts, pool: seq<Message>, i: int, m: Message, maxFee: int, c: Checks)
    requires Solvent(pool, accounts) && Adjacent(pool, m.from, i)
    requires Prepare([], MineAll(accounts, pool).0, m, maxFee, c).Success?
    ensures var used := Of(pool, m.from);
            && Turns(pool, m.from) < |used|
            && Prepare([], MineAll(accounts, pool).0, m, maxFee, c).value.nonce == used[Turns(pool, m.from)].nonce
  {
    SolventIsFunded(pool, accounts);
    MiningAFundedPool(accounts, pool, m.from);
    TurnsIff(pool, m.from);
    NumberedAt(pool, accounts, m.from, Turns(pool, m.from));
    FirstPushed(MineAll(accounts, pool).0, m, maxFee, c);
  }

  lemma NumberedAt(pool: seq<Message>, accounts: Accounts, a: Address, k: nat)
    requires Solvent(pool, accounts) && k < |Of(pool, a)|
    ensures Of(pool, a)[k].nonce == Get(accounts, a).nonce + k
  {
    assert Covered(Of(pool, a), Get(accounts, a));
  }

  lemma FirstPushed(accounts: Accounts, m: Message, maxFee: int, c: Checks)
    requires Prepare([], accounts, m, maxFee, c).Success?
    ensures Prepare([], accounts, m, maxFee, c).value.nonce == Get(accounts, m.from).nonce
  {
  }

  /** The next message of the sender gets a nonce that was mined before exactly when an increment was lost. */
  lemma NonceReusedIff(accounts: Accounts, pool: seq<Message>, m: Message, maxFee: int, c: Checks)
    requires Solvent(pool, accounts)
    requires Prepare([], MineAll(accounts, pool).0, m, maxFee, c).Success?
    ensures var pushed := Prepare([], MineAll(accounts, pool).0, m, maxFee, c).value;
            (exists used <- Of(pool, m.from) :: used.nonce == pushed.nonce) <==> exists i :: Adjacent(pool, m.from, i)
  {
    var a, turns := m.from, Turns(pool, m.from);
    SolventIsFunded(pool, accounts);
    MiningAFundedPool(accounts, pool, a);
    FirstPushed(MineAll(accounts, pool).0, m, maxFee, c);
    TurnsIff(pool, a);
    assert Covered(Of(pool, a), Get(accounts, a));
    NonceUsedIff(Of(pool, a), Get(accounts, a).nonce, turns);
  }

  lemma NonceUsedIff(msgs: seq<Message>, nonce: nat, turns: nat)
    requires Numbered(msgs, nonce)
    ensures (exists used <- msgs :: used.nonce == nonce + turns) <==> turns < |msgs|
  {
    if turns < |msgs| { assert msgs[turns] in msgs; }
  }

  /** Two messages the sender can pay for, pushed one after the other. */
  lemma TwoPushed(accounts: Accounts, m: Message, n: Message)
    requires Sound(m) && Sound(n) && m.from == n.from && Solvent([], accounts)
    requires m.nonce == Get(accounts, m.from).nonce && n.nonce == m.nonce + 1
    requires Get(accounts, m.from).balance >= m.Cost() + n.Cost()
    ensures Solvent([m, n], accounts)
  {
    CostCoversFee(n);
    assert [] + [m] == [m] && [m] + [n] == [m, n];
    SolventSnocIff([], accounts, m);
    OfSnoc([], m, m.from);
    RequiredSnoc([], m);
    SolventSnocIff([m], accounts, n);
  }

  lemma TwoMined(accounts: Accounts, m: Message, n: Message)
    requires m.from == n.from && Solvent([m, n], accounts)
    ensures MineAll(accounts, [m, n]).1 == [m, n]
    ensures Get(MineAll(accounts, [m, n]).0, m.from).nonce == Get(accounts, m.from).nonce + 1
  {
    SolventIsFunded([m, n], accounts);
    MiningAFundedPool(accounts, [m, n], m.from);
    assert [m, n][..1] == [m] && [m][..0] == [];
    assert Turns([m], m.from) == 1;
  }

  /** Two messages of one sender in a solvent pool, and only one is counted. */
  lemma LostIncrement(a: Address, b: Address)
    requires ParseProtocol(a) == BLS && ParseProtocol(b) == BLS && a != b && b != ZERO_ADDRESS && !Blank(a) && !Blank(b)
    ensures var accounts := map[a := Account(1000000000000, 0)];
            var m := Message(0, b, a, 0, 5, 600000, 100000, 100000, 0);
            var n := m.(nonce := 1);
            && CheckMessage(m, 100, true) == CheckMessage(n, 100, true) == None
            && Solvent([m, n], accounts)
            && MineAll(accounts, [m, n]).1 == [m, n]
            && Get(MineAll(accounts, [m, n]).0, a).nonce == 1
  {
    var accounts := map[a := Account(1000000000000, 0)];
    var m := Message(0, b, a, 0, 5, 600000, 100000, 100000, 0);
    var n := m.(nonce := 1);
    EmptyIsSolvent(accounts);
    AcceptedIsSound(m, 100, true);
    AcceptedIsSound(n, 100, true);
    TwoPushed(accounts, m, n);
    TwoMined(accounts, m, n);
  }

  lemma ShortAddress(a: Address)
    requires |a| == 3 && a[0] == 't'
    ensures !Blank(a) && a != ZERO_ADDRESS
  {
    NotBlank(a, 0);
  }

  /** After those two were mined with nonces 0 and 1, the next message pushed gets nonce 1 again. */
  lemma NonceReusedExample()
    ensures var a, b := "t3a", "t3b";
            var m := Message(0, b, a, 0, 5, 600000, 100000, 100000, 0);
            var after := MineAll(map[a := Account(1000000000000, 0)], [m, m.(nonce := 1)]).0;
            Prepare([], after, m, 0, Checks({a}, 100, 100, true)) == Success(m.(nonce := 1))
  {
    var a, b := "t3a", "t3b";
    var accounts := map[a := Account(1000000000000, 0)];
    var m := Message(0, b, a, 0, 5, 600000, 100000, 100000, 0);
    var n := m.(nonce := 1);
    ShortAddress(a);
    ShortAddress(b);
    LostIncrement(a, b);
    SolventIsFunded([m, n], accounts);
    MiningAFundedPool(accounts, [m, n], a);
    TwoFlows(m, n, a);
  }

  lemma TwoFlows(m: Message, n: Message, a: Address)
    ensures Flows([m, n], a) == Flow(m, a) + Flow(n, a)
  {
    assert [m, n][..1] == [m] && [m][..0] == [];
    assert Flows([m], a) == Flow(m, a);
  }

  // ---------- The total after mining ----------

  /** The amounts senders send themselves. */
  function SelfSent(msgs: seq<Message>): int {
    if msgs == [] then 0
    else
      var last := msgs[|msgs| - 1];
      SelfSent(msgs[..|msgs| - 1]) + if last.from == last.to then last.value else 0
  }

  lemma ApplyTotal(s: Mining, m: Message)
    requires InFlight(s) && m.from != MINER
    ensures var (after, ok) := Apply(s, m);
            && InFlight(after)
            && Total(after.accounts) == Total(s.accounts) + if ok && m.from == m.to then m.value else 0
  {
    DuringTotal(s, m.from, MINER, m.MinerFee());
    var paid := TransferDuring(s.accounts, s.increment, m.from, MINER, m.MinerFee()).0;
    TransferTotal(paid, m.from, m.to, m.value);
  }

  lemma {:induction false} ApplyAllTotal(accounts: Accounts, pool: seq<Message>)
    requires forall m <- pool :: Sound(m)
    ensures var (s, done) := ApplyAll(accounts, pool);
            && InFlight(s) && (forall m <- done :: Sound(m))
            && Total(s.accounts) == Total(accounts) + SelfSent(done)
  {
    if pool != [] {
      var front, m := pool[..|pool| - 1], pool[|pool| - 1];
      assert Sound(m) && forall other <- front :: other in pool;
      ApplyAllTotal(accounts, front);
      var (before, done) := ApplyAll(accounts, front);
      ApplyTotal(before, m);
      assert (done + [m])[..|done|] == done;
    }
  }

  /** Whatever is in the pool, mining adds to the total exactly what senders manage to send themselves. */
  lemma MiningTotal(accounts: Accounts, pool: seq<Message>)
    requires forall m <- pool :: Sound(m)
    ensures Total(MineAll(accounts, pool).0) == Total(accounts) + SelfSent(MineAll(accounts, pool).1)
  {
    ApplyAllTotal(accounts, pool);
    LandKeepsTotal(ApplyAll(accounts, pool).0);
  }

  /** Mining conserves the total exactly when nobody succeeds to send itself anything. */
  lemma MiningConservesIff(accounts: Accounts, pool: seq<Message>)
    requires forall m <- pool :: Sound(m)
    ensures Total(MineAll(accounts, pool).0) == Total(accounts)
            <==> forall m <- MineAll(accounts, pool).1 :: m.from == m.to ==> m.value == 0
  {
    MiningTotal(accounts, pool);
    ApplyAllTotal(accounts, pool);
    SelfSentZeroIff(MineAll(accounts, pool).1);
  }

  /** If every sender can pay, that is exactly when nobody sends itself anything. */
  lemma FundedMiningConservesIff(accounts: Accounts, pool: seq<Message>)
    requires Funded(pool, accounts)
    ensures Total(MineAll(accounts, pool).0) == Total(accounts)
            <==> forall m <- pool :: m.from == m.to ==> m.value == 0
  {
    MiningAFundedPool(accounts, pool, MINER);
    MiningConservesIff(accounts, pool);
  }

  /** An accepted message of a sender to itself, and what mining it adds. */
  lemma SelfSendMints()
    ensures var a := "t3a";
            var accounts, m := map[a := Account(1000000000000, 0)], Message(0, a, a, 0, 5, 600000, 100000, 100000, 0);
            && CheckMessage(m, 100, true) == None && Solvent([m], accounts)
            && Total(MineAll(accounts, [m]).0) == Total(accounts) + 5
  {
    var a := "t3a";
    var accounts, m := map[a := Account(1000000000000, 0)], Message(0, a, a, 0, 5, 600000, 100000, 100000, 0);
    EmptyIsSolvent(accounts);
    ShortAddress(a);
    AcceptedIsSound(m, 100, true);
    assert [] + [m] == [m] && [m][..0] == [];
    SolventSnocIff([], accounts, m);
    SolventIsFunded([m], accounts);
    MiningAFundedPool(accounts, [m], a);
    MiningTotal(accounts, [m]);
    assert SelfSent([m]) == 5;
  }

  lemma {:induction false} SelfSentZeroIff(msgs: seq<Message>)
    requires forall m <- msgs :: Sound(m)
    ensures SelfSent(msgs) >= 0
    ensures SelfSent(msgs) == 0 <==> forall m <- msgs :: m.from == m.to ==> m.value == 0
  {
    if msgs != [] {
      var front, last := msgs[..|msgs| - 1], msgs[|msgs| - 1];
      assert msgs == front + [last];
      assert Sound(last);
      SelfSentZeroIff(front);
    }
  }

  // ---------- Runs ----------

  datatype State = State(pool: seq<Message>, accounts: Accounts)

  datatype Event =
    | Push(m: Message, maxFee: int, checks: Checks)
    | PushSigned(m: Message, size: nat, verified: bool)
    | Clear(local: bool, keys: set<Address>)
    | Mine

  /** The accounts once the sender's has been looked at, which stores a missing one. */
  function Touched(accounts: Accounts, a: Address): Accounts {
    accounts[a := Get(accounts, a)]
  }

  ghost predicate Step(s: State, event: Event, t: State) {
    match event
    case Push(m, maxFee, checks) =>
      && t.accounts in {s.accounts, Touched(s.accounts, m.from)}
      && t.pool == (match Prepare(s.pool, s.accounts, m, maxFee, checks)
                    case Success(p) => s.pool + [p]
                    case Failure(_) => s.pool)
    case PushSigned(m, size, verified) =>
      t == State(if CheckMessage(m, size, verified) == None then s.pool + [m] else s.pool, s.accounts)
    case Clear(local, keys) => t == State(if local then [] else Kept(s.pool, keys), s.accounts)
    case Mine => t == State([], MineAll(s.accounts, s.pool).0)
  }

  /** Every event is possible in every state. */
  lemma StepExists(s: State, event: Event) returns (t: State)
    ensures Step(s, event, t)
  {
    match event
    case Push(m, maxFee, checks) =>
      var p := Prepare(s.pool, s.accounts, m, maxFee, checks);
      t := State(if p.Success? then s.pool + [p.value] else s.pool, s.accounts);
    case PushSigned(m, size, verified) =>
      t := State(if CheckMessage(m, size, verified) == None then s.pool + [m] else s.pool, s.accounts);
    case Clear(local, keys) => t := State(if local then [] else Kept(s.pool, keys), s.accounts);
    case Mine => t := State([], MineAll(s.accounts, s.pool).0);
  }

  ghost predicate IsSolvent(s: State) {
    Solvent(s.pool, s.accounts)
  }

  /** No message signed elsewhere is accepted that skips a nonce or is not covered. */
  predicate Clean(s: State, event: Event) {
    event.PushSigned? && CheckMessage(event.m, event.size, event.verified) == None ==> Fits(s.pool, s.accounts, event.m)
  }

  lemma TouchedKeeps(pool: seq<Message>, accounts: Accounts, a: Address)
    requires Solvent(pool, accounts)
    ensures Solvent(pool, Touched(accounts, a))
  {
    forall b: Address
      ensures Covered(Of(pool, b), Get(Touched(accounts, a), b))
    {
      assert Covered(Of(pool, b), Get(accounts, b));
    }
  }

  lemma EmptyIsSolvent(accounts: Accounts)
    requires forall a: Address :: Get(accounts, a).balance >= 0
    ensures Solvent([], accounts)
  {
    forall a: Address
      ensures Covered(Of([], a), Get(accounts, a))
    {
    }
  }

  lemma PushStepKeeps(s: State, event: Event, t: State)
    requires event.Push? && IsSolvent(s) && Step(s, event, t)
    ensures IsSolvent(t)
  {
    if Prepare(s.pool, s.accounts, event.m, event.maxFee, event.checks).Success? {
      PushKeepsSolvent(s.pool, s.accounts, event.m, event.maxFee, event.checks);
    }
    TouchedKeeps(t.pool, s.accounts, event.m.from);
  }

  lemma ClearStepKeeps(s: State, event: Event, t: State)
    requires event.Clear? && IsSolvent(s) && Step(s, event, t)
    ensures IsSolvent(t)
  {
    if event.local {
      forall a: Address
        ensures Get(s.accounts, a).balance >= 0
      {
        CoveredIsNotNegative(s.pool, s.accounts, a);
      }
      EmptyIsSolvent(s.accounts);
    } else {
      ClearKeepsSolvent(s.pool, s.accounts, event.keys);
    }
  }

  lemma MineStepKeeps(s: State, t: State)
    requires IsSolvent(s) && Step(s, Mine, t)
    ensures IsSolvent(t)
  {
    SolventIsFunded(s.pool, s.accounts);
    forall a: Address
      ensures Get(t.accounts, a).balance >= 0
    {
      MiningAFundedPool(s.accounts, s.pool, a);
    }
    EmptyIsSolvent(t.accounts);
  }

  lemma StepKeepsIff(s: State, event: Event, t: State)
    requires IsSolvent(s) && Step(s, event, t)
    ensures IsSolvent(t) <==> Clean(s, event)
  {
    match event
    case Push(_, _, _) => PushStepKeeps(s, event, t);
    case PushSigned(m, size, verified) =>
      if CheckMessage(m, size, verified) == None { PushSignedKeepsIff(s.pool, s.accounts, m, size, verified); }
    case Clear(_, _) => ClearStepKeeps(s, event, t);
    case Mine => MineStepKeeps(s, t);
  }

  ghost predicate Runs(states: seq<State>, events: seq<Event>) {
    && |states| == |events| + 1
    && forall i :: 0 <= i < |events| ==> Step(states[i], events[i], states[i + 1])
  }

  lemma StepAt(states: seq<State>, events: seq<Event>, i: nat)
    requires Runs(states, events) && i < |events| && IsSolvent(states[i])
    ensures IsSolvent(states[i + 1]) <==> Clean(states[i], events[i])
  {
    StepKeepsIff(states[i], events[i], states[i + 1]);
  }

  /**
   * Over every run from a solvent state, up to any point: all states are solvent with nonces in
   * order if and only if every message signed elsewhere that was accepted fits.
   */
  lemma RunStaysSolventIff(states: seq<State>, events: seq<Event>, n: nat)
    requires Runs(states, events) && IsSolvent(states[0]) && n <= |events|
    ensures (forall i :: 0 <= i <= n ==> IsSolvent(states[i]))
            <==> (forall i :: 0 <= i < n ==> Clean(states[i], events[i]))
  {
    var kept := seq(|states|, i requires 0 <= i < |states| => IsSolvent(states[i]));
    var clean := seq(|events|, i requires 0 <= i < |events| => Clean(states[i], events[i]));
    forall i | 0 <= i < |clean| && kept[i]
      ensures kept[i + 1] == clean[i]
    {
      StepAt(states, events, i);
    }
    AllKeptIff(kept, clean, n);
    assert AllTrue(kept, n + 1) <==> forall i :: 0 <= i <= n ==> IsSolvent(states[i]) by {
      assert forall i :: 0 <= i <= n ==> kept[i] == IsSolvent(states[i]);
    }
    assert AllTrue(clean, n) <==> forall i :: 0 <= i < n ==> Clean(states[i], events[i]) by {
      assert forall i :: 0 <= i < n ==> clean[i] == Clean(states[i], events[i]);
    }
  }

  /** Every mining after a clean run takes all of its messages, with exact balances and nonces. */
  lemma EveryMiningTakesAll(states: seq<State>, events: seq<Event>, n: nat, a: Address)
    requires Runs(states, events) && n < |events| && events[n].Mine?
    requires IsSolvent(states[0]) && forall i :: 0 <= i < n ==> Clean(states[i], events[i])
    ensures var (s, t) := (states[n], states[n + 1]);
            && MineAll(s.accounts, s.pool).1 == s.pool
            && Get(t.accounts, a).balance == Get(s.accounts, a).balance + Flows(s.pool, a)
            && Get(t.accounts, a).nonce == Get(s.accounts, a).nonce + Turns(s.pool, a)
            && (Get(t.accounts, a).nonce == Get(s.accounts, a).nonce + |Of(s.pool, a)|
                <==> forall i :: !Adjacent(s.pool, a, i))
  {
    RunStaysSolventIff(states, events, n);
    var s := states[n];
    assert IsSolvent(s) && Step(s, events[n], states[n + 1]);
    SolventIsFunded(s.pool, s.accounts);
    MiningAFundedPool(s.accounts, s.pool, a);
    NonceCountsIff(s.accounts, s.pool, a);
  }

  // ---------- The total over a run ----------

  ghost predicate AllSound(s: State) {
    forall m <- s.pool :: Sound(m)
  }

  /** What a step adds to the total balance. */
  function Minted(s: State, event: Event): int {
    if event.Mine? then SelfSent(MineAll(s.accounts, s.pool).1) else 0
  }

  lemma StepTotal(s: State, event: Event, t: State)
    requires AllSound(s) && Step(s, event, t)
    ensures AllSound(t) && Total(t.accounts) == Total(s.accounts) + Minted(s, event)
  {
    match event
    case Push(m, maxFee, checks) =>
      if Prepare(s.pool, s.accounts, m, maxFee, checks).Success? {
        PreparedIsSound(s.pool, s.accounts, m, maxFee, checks);
      }
      TotalPut(s.accounts, m.from, Get(s.accounts, m.from));
    case PushSigned(m, size, verified) =>
      if CheckMessage(m, size, verified) == None { AcceptedIsSound(m, size, verified); }
    case Clear(_, keys) => KeptOf(s.pool, keys, "");
    case Mine => MiningTotal(s.accounts, s.pool);
  }

  function MintedBy(states: seq<State>, events: seq<Event>, n: nat): int
    requires n <= |events| <= |states|
  {
    if n == 0 then 0 else MintedBy(states, events, n - 1) + Minted(states[n - 1], events[n - 1])
  }

  /** Over every run, solvent or not, the total changes only by what senders manage to send themselves. */
  lemma {:induction false} RunTotal(states: seq<State>, events: seq<Event>, n: nat)
    requires Runs(states, events) && n <= |events| && AllSound(states[0])
    ensures AllSound(states[n])
    ensures Total(states[n].accounts) == Total(states[0].accounts) + MintedBy(states, events, n)
  {
    if n > 0 {
      RunTotal(states, events, n - 1);
      assert Step(states[n - 1], events[n - 1], states[n - 1 + 1]);
      StepTotal(states[n - 1], events[n - 1], states[n]);
    }
  }

  /**
   * A message signed elsewhere is only checked by itself: it can ask for more than its
   * sender has and skip nonces, and mining then drops it.
   */
  lemma SignedElsewhere(a: Address, b: Address)
    requires ParseProtocol(a) == BLS && ParseProtocol(b) == BLS && a != b && b != ZERO_ADDRESS && !Blank(a) && !Blank(b)
    ensures var m := Message(0, b, a, 7, 5, 0, 100, 100, 0);
            && CheckMessage(m, 100, true) == None
            && !Fits([], map[], m)
            && !Solvent([m], map[])
            && MineAll(map[], [m]).1 == []
  {
    var m := Message(0, b, a, 7, 5, 0, 100, 100, 0);
    assert [] + [m] == [m] && [m][..0] == [];
    EmptyIsSolvent(map[]);
    PushSignedKeepsIff([], map[], m, 100, true);
    TransferMoves(Mining(map[], None), a, MINER, 0, a);
    assert ApplyAll(map[], []) == (Mining(map[], None), []);
    assert ApplyAll(map[], [m]).1 == [];
  }
}
