/**
 * The account manager and the message pool as objects. A lock makes each method of the pool one
 * step; within `mineTipset` the loop does not wait for the increments of nonces, so an increment
 * is read in one turn and stored during the first transfer of the next.
 */
module FilecoinChain {
  import opened Wrappers
  import opened Filecoin

  class AccountManager {
    var accounts: Accounts

    constructor (accounts: Accounts)
      ensures this.accounts == accounts
    {
      this.accounts := accounts;
    }

    /** Stores a missing account. */
    method GetAccount(address: Address) returns (account: Account)
      modifies this
      ensures account == Get(old(accounts), address)
      ensures accounts == Touched(old(accounts), address)
    {
      if address !in accounts {
        accounts := accounts[address := Account(0, 0)];
      }
      account := accounts[address];
    }

    method PutAccount(address: Address, account: Account)
      modifies this
      ensures accounts == old(accounts)[address := account]
    {
      accounts := accounts[address := account];
    }

    /** `underWay` is an increment that was read before; its store comes between the loads and the stores here. */
    method TransferFunds(from: Address, to: Address, amount: int, underWay: Option<Increment>) returns (ok: bool)
      modifies this
      ensures (accounts, ok) == TransferDuring(old(accounts), underWay, from, to, amount)
    {
      var fromAccount := GetAccount(from);
      var toAccount := GetAccount(to);
      if underWay.Some? { PutAccount(underWay.value.address, underWay.value.account); }
      if fromAccount.balance >= amount {
        fromAccount := fromAccount.(balance := fromAccount.balance - amount);
        toAccount := toAccount.(balance := toAccount.balance + amount);
        PutAccount(from, fromAccount);
        PutAccount(to, toAccount);
        return true;
      } else {
        return false;
      }
    }

    /** `incrementNonce` up to its last `await`; what is left is to store the account. */
    method IncrementNonce(address: Address) returns (increment: Increment)
      modifies this
      ensures accounts == Touched(old(accounts), address)
      ensures increment == BeginIncrement(old(accounts), address)
    {
      var account := GetAccount(address);
      account := account.(nonce := account.nonce + 1);
      increment := Increment(address, account);
    }
  }

  class Blockchain {
    const accountManager: AccountManager
    var messagePool: seq<Message>

    ghost function State(): Filecoin.State
      reads this, accountManager
    {
      Filecoin.State(messagePool, accountManager.accounts)
    }

    constructor (accountManager: AccountManager)
      ensures this.accountManager == accountManager && messagePool == []
    {
      this.accountManager := accountManager;
      messagePool := [];
    }

    /** The filter over the pool. */
    method PendingMessages(from: Address) returns (pending: seq<Message>)
      ensures pending == Of(messagePool, from)
    {
      pending := [];
      for i := 0 to |messagePool|
        invariant pending == Of(messagePool[..i], from)
      {
        assert messagePool[..i + 1][..i] == messagePool[..i];
        if messagePool[i].from == from { pending := pending + [messagePool[i]]; }
      }
      assert messagePool[..|messagePool|] == messagePool;
    }

    /** The two reductions over a sender's pending messages. */
    static method Reduce(pending: seq<Message>, start: int) returns (nonce: int, required: int)
      ensures nonce == HighestNonce(pending, start) && required == Required(pending)
    {
      nonce, required := start, 0;
      for i := 0 to |pending|
        invariant nonce == HighestNonce(pending[..i], start) && required == Required(pending[..i])
      {
        assert pending[..i + 1][..i] == pending[..i];
        nonce := if pending[i].nonce > nonce then pending[i].nonce else nonce;
        required := required + (pending[i].gasFeeCap * pending[i].gasLimit + pending[i].value);
      }
      assert pending[..|pending|] == pending;
    }

    /** The account's nonce, or one above all pending ones, and what is pending already. */
    method NextNonce(from: Address, account: Account) returns (nonce: int, pendingRequired: int)
      ensures var mine := Of(messagePool, from);
              && nonce == (if mine == [] then account.nonce else HighestNonce(mine, account.nonce) + 1)
              && pendingRequired == Required(mine)
    {
      var pending := PendingMessages(from);
      nonce, pendingRequired := Reduce(pending, account.nonce);
      if |pending| == 0 {
        nonce := account.nonce;
      } else {
        nonce := nonce + 1;
      }
    }

    /** `push`: numbers, prices and signs a message, and puts it in the pool. */
    method Push(m: Message, maxFee: int, c: Checks) returns (result: Result<Message, Error>)
      modifies this, accountManager
      ensures result == Prepare(old(messagePool), old(accountManager.accounts), m, maxFee, c)
      ensures messagePool == old(messagePool) + (if result.Success? then [result.value] else [])
      ensures accountManager.accounts in {old(accountManager.accounts), Touched(old(accountManager.accounts), m.from)}
    {
      if m.methodNumber != 0 {
        return Failure(UnsupportedMethod);
      }
      if m.nonce != 0 {
        return Failure(NonceNotZero);
      }
      if ParseProtocol(m.from) in {ID, Unknown} {
        return Failure(FromProtocol);
      }
      if ParseProtocol(m.to) in {ID, Unknown} {
        return Failure(ToProtocol);
      }
      var message := FillGasInformation(m, maxFee, c.size);
      var account := accountManager.GetAccount(m.from);
      var nonce, pendingRequired := NextNonce(m.from, account);
      message := message.(nonce := nonce);
      if account.balance < message.gasFeeCap * message.gasLimit + message.value + pendingRequired {
        return Failure(NotEnoughFunds);
      }
      if m.from !in c.keys || ParseProtocol(m.from) == Actor {
        return Failure(CannotSign);
      }
      result := PushSigned(message, c.signedSize, c.verified);
    }

    /** What `Push` leaves is a step of the machine. */
    twostate lemma PushIsStep(m: Message, maxFee: int, c: Checks, result: Result<Message, Error>)
      requires result == Prepare(old(messagePool), old(accountManager.accounts), m, maxFee, c)
      requires messagePool == old(messagePool) + (if result.Success? then [result.value] else [])
      requires accountManager.accounts in {old(accountManager.accounts), Touched(old(accountManager.accounts), m.from)}
      ensures Step(old(State()), Event.Push(m, maxFee, c), State())
    {
    }

    /** `pushSigned`: only the message itself is checked. */
    method PushSigned(m: Message, size: nat, verified: bool) returns (result: Result<Message, Error>)
      modifies this`messagePool
      ensures result == (match CheckMessage(m, size, verified) case Some(e) => Failure(e) case None => Success(m))
      ensures messagePool == old(messagePool) + (if result.Success? then [m] else [])
      ensures Step(old(State()), Event.PushSigned(m, size, verified), State())
    {
      var error := CheckMessage(m, size, verified);
      if error.Some? {
        return Failure(error.value);
      }
      messagePool := messagePool + [m];
      result := Success(m);
    }

    method MpoolClear(local: bool, keys: set<Address>)
      modifies this`messagePool
      ensures messagePool == if local then [] else Kept(old(messagePool), keys)
      ensures Step(old(State()), Event.Clear(local, keys), State())
    {
      if local {
        messagePool := [];
      } else {
        var kept := [];
        for i := 0 to |messagePool|
          invariant messagePool == old(messagePool) && kept == Kept(messagePool[..i], keys)
        {
          assert messagePool[..i + 1][..i] == messagePool[..i];
          if messagePool[i].from in keys { kept := kept + [messagePool[i]]; }
        }
        assert messagePool[..|messagePool|] == messagePool;
        messagePool := kept;
      }
    }

    /** `mineTipset`: empties the pool and applies its messages in order. */
    method MineTipset() returns (successfulMessages: seq<Message>)
      modifies this`messagePool, accountManager
      ensures messagePool == []
      ensures (accountManager.accounts, successfulMessages) == MineAll(old(accountManager.accounts), old(messagePool))
      ensures Step(old(State()), Event.Mine, State())
    {
      var nextMessagePool := messagePool;
      messagePool := [];
      successfulMessages := [];
      var underWay := None;
      ghost var before := accountManager.accounts;
      for i := 0 to |nextMessagePool|
        invariant messagePool == []
        invariant (Mining(accountManager.accounts, underWay), successfulMessages)
                  == ApplyAll(before, nextMessagePool[..i])
      {
        assert nextMessagePool[..i + 1][..i] == nextMessagePool[..i];
        var ok;
        ok, underWay := ApplyMessage(nextMessagePool[i], underWay);
        if ok { successfulMessages := successfulMessages + [nextMessagePool[i]]; }
      }
      assert nextMessagePool[..|nextMessagePool|] == nextMessagePool;
      if underWay.Some? { accountManager.PutAccount(underWay.value.address, underWay.value.account); }
    }

    /** One turn of the mining loop; there is never a base fee to burn. */
    method ApplyMessage(m: Message, underWay: Option<Increment>) returns (ok: bool, begun: Option<Increment>)
      modifies accountManager
      ensures (Mining(accountManager.accounts, begun), ok) == Apply(Mining(old(accountManager.accounts), underWay), m)
    {
      ok := accountManager.TransferFunds(m.from, MINER, m.MinerFee(), underWay);
      if !ok {
        return false, None;
      }
      ok := accountManager.TransferFunds(m.from, m.to, m.value, None);
      if !ok {
        return false, None;
      }
      ghost var moved := accountManager.accounts;
      assert m.from in moved && Touched(moved, m.from) == moved;
      var increment := accountManager.IncrementNonce(m.from);
      begun := Some(increment);
    }
  }
}
