/**
  The curation-share ledger: shares minted against a deposit of GRT, burned
  by the governor, and transferred between holders, each movement of shares
  carrying the proportional slice of the holder's deposit with it.
 */
module CurationToken {
  import opened Holdings
  import opened Proportion

  datatype Ledger = Ledger(accounts: Book, governor: Address, totalSupply: nat)

  datatype Error =
    | NotGovernor          // reverts with 'Only Governor can call'
    | InsufficientBalance  // more shares requested than the account holds

  datatype Result<T> = Ok(value: T) | Err(error: Error)

  /** The ERC20 `Transfer(from, to, value)` log; `value` is always a share amount. */
  datatype TransferEvent = TransferEvent(from: Address, to: Address, value: nat)

  /** The state after a successful mutation and the one event it emits. */
  datatype Receipt = Receipt(ledger: Ledger, event: TransferEvent)

  /** The ledger invariant: a sparse table whose balances sum to the total supply. */
  ghost predicate Valid(l: Ledger)
  {
    Sparse(l.accounts) && l.totalSupply == Total(l.accounts, Balance)
  }

  /** Every account outside `touched` reads the same in both ledgers. */
  ghost predicate OthersUnchanged(l: Ledger, l': Ledger, touched: set<Address>)
  {
    forall a :: a !in touched ==> Get(l'.accounts, a) == Get(l.accounts, a)
  }

  /** `balanceOf(a)`: an account never seen reads as zero; no account exceeds the supply. */
  function BalanceOf(l: Ledger, a: Address): (r: nat)
    ensures a !in l.accounts ==> r == 0
    ensures Valid(l) ==> r <= l.totalSupply
  {
    TotalBoundsEach(l.accounts, a, Balance);
    Get(l.accounts, a).balance
  }

  /** `deposits(a)`: an account never seen reads as zero; no account exceeds the deposit sum. */
  function Deposits(l: Ledger, a: Address): (r: nat)
    ensures a !in l.accounts ==> r == 0
    ensures r <= Total(l.accounts, Deposit)
  {
    TotalBoundsEach(l.accounts, a, Deposit);
    Get(l.accounts, a).deposit
  }

  /** The freshly initialized token: no holder, no supply, `governor` in charge. */
  function Initialize(governor: Address): (l: Ledger)
    ensures Valid(l)
    ensures l.governor == governor && l.totalSupply == 0
    ensures forall a :: BalanceOf(l, a) == 0 && Deposits(l, a) == 0
  {
    Ledger(map[], governor, 0)
  }

  /**
    `grtValueOf(account, amount)`: the deposit attributable to `amount` of the
    account's shares, floor(deposits * amount / balance).
   */
  function GrtValueOf(l: Ledger, account: Address, amount: nat): (r: Result<nat>)
    ensures r.Err? <==> amount > BalanceOf(l, account)
    ensures r.Err? ==> r.error == InsufficientBalance
    ensures r.Ok? ==> r.value <= Deposits(l, account)
    ensures r.Ok? && BalanceOf(l, account) > 0 ==>
              r.value * BalanceOf(l, account) <= Deposits(l, account) * amount
              < (r.value + 1) * BalanceOf(l, account)
    ensures r.Ok? && BalanceOf(l, account) == 0 ==> r.value == 0
  {
    var h := Get(l.accounts, account);
    if amount > h.balance then Err(InsufficientBalance)
    else Ok(Slice(h.deposit, amount, h.balance))
  }

  /**
    The deposit released when `amount` shares leave holding `h`. Removing the
    whole balance is a separate branch that takes the whole deposit; for a
    holding with shares it agrees with the proportional formula.
   */
  function DepositDelta(h: Holding, amount: nat): (delta: nat)
    requires amount <= h.balance
    ensures delta <= h.deposit
    ensures amount == h.balance ==> delta == h.deposit
    ensures h.balance > 0 ==> delta == Slice(h.deposit, amount, h.balance)
  {
    if amount == h.balance then
      assert h.balance > 0 ==> Slice(h.deposit, amount, h.balance) == h.deposit by {
        if h.balance > 0 {
          SliceOfWhole(h.deposit, h.balance);
        }
      }
      h.deposit
    else
      Slice(h.deposit, amount, h.balance)
  }

  /** `mint(account, amount, depositAmount)`: governor only; adds to both quantities. */
  function Mint(l: Ledger, caller: Address, account: Address, amount: nat, depositAmount: nat)
    : (r: Result<Receipt>)
    ensures r.Ok? <==> caller == l.governor
    ensures r.Err? ==> r.error == NotGovernor
    ensures r.Ok? ==>
              var l' := r.value.ledger;
              && BalanceOf(l', account) == BalanceOf(l, account) + amount
              && Deposits(l', account) == Deposits(l, account) + depositAmount
              && l'.totalSupply == l.totalSupply + amount
              && l'.governor == l.governor
              && OthersUnchanged(l, l', {account})
              && r.value.event == TransferEvent(ZeroAddress, account, amount)
    ensures r.Ok? && Valid(l) ==> Valid(r.value.ledger)
  {
    if caller != l.governor then Err(NotGovernor)
    else
      var h := Get(l.accounts, account);
      var h' := Holding(h.balance + amount, h.deposit + depositAmount);
      TotalPut(l.accounts, account, h', Balance);
      var accounts := Put(l.accounts, account, h');
      Ok(Receipt(Ledger(accounts, l.governor, l.totalSupply + amount),
                 TransferEvent(ZeroAddress, account, amount)))
  }

  /**
    `burnFrom(account, amount)`: governor only; removes `amount` shares and the
    deposit they carry.
   */
  function BurnFrom(l: Ledger, caller: Address, account: Address, amount: nat): (r: Result<Receipt>)
    requires Valid(l)
    ensures r.Err? <==> caller != l.governor || amount > BalanceOf(l, account)
    ensures r.Err? ==> r.error == (if caller != l.governor then NotGovernor else InsufficientBalance)
    ensures r.Ok? ==>
              var l' := r.value.ledger;
              && BalanceOf(l', account) == BalanceOf(l, account) - amount
              && Deposits(l', account) <= Deposits(l, account)
              && (amount == BalanceOf(l, account) ==> Deposits(l', account) == 0)
              && (BalanceOf(l, account) > 0 ==>
                    Deposits(l, account) - Deposits(l', account) == GrtValueOf(l, account, amount).value)
              && l'.totalSupply == l.totalSupply - amount
              && l'.governor == l.governor
              && OthersUnchanged(l, l', {account})
              && r.value.event == TransferEvent(account, ZeroAddress, amount)
    ensures r.Ok? ==> Valid(r.value.ledger)
  {
    if caller != l.governor then Err(NotGovernor)
    else
      var h := Get(l.accounts, account);
      if amount > h.balance then Err(InsufficientBalance)
      else
        var delta := DepositDelta(h, amount);
        var h' := Holding(h.balance - amount, h.deposit - delta);
        TotalBoundsEach(l.accounts, account, Balance);
        TotalPut(l.accounts, account, h', Balance);
        var accounts := Put(l.accounts, account, h');
        Ok(Receipt(Ledger(accounts, l.governor, l.totalSupply - amount),
                   TransferEvent(account, ZeroAddress, amount)))
  }

  /**
    `transfer(to, amount)` sent by `sender`: moves `amount` shares and their
    deposit slice from the sender to `to`, debiting before crediting.
   */
  function Transfer(l: Ledger, sender: Address, to: Address, amount: nat): (r: Result<Receipt>)
    ensures r.Err? <==> amount > BalanceOf(l, sender)
    ensures r.Err? ==> r.error == InsufficientBalance
    ensures r.Ok? ==>
              var l' := r.value.ledger;
              && l'.totalSupply == l.totalSupply
              && l'.governor == l.governor
              && OthersUnchanged(l, l', {sender, to})
              && r.value.event == TransferEvent(sender, to, amount)
              && (sender == to ==> Get(l'.accounts, sender) == Get(l.accounts, sender))
              && (sender != to ==>
                    && BalanceOf(l', sender) == BalanceOf(l, sender) - amount
                    && BalanceOf(l', to) == BalanceOf(l, to) + amount
                    && Deposits(l', sender) <= Deposits(l, sender)
                    && Deposits(l', to) - Deposits(l, to) == Deposits(l, sender) - Deposits(l', sender)
                    && (amount == BalanceOf(l, sender) ==> Deposits(l', sender) == 0)
                    && (BalanceOf(l, sender) > 0 ==>
                          Deposits(l, sender) - Deposits(l', sender) == GrtValueOf(l, sender, amount).value))
    ensures r.Ok? ==> Total(r.value.ledger.accounts, Deposit) == Total(l.accounts, Deposit)
    ensures r.Ok? && Valid(l) ==> Valid(r.value.ledger)
  {
    var hs := Get(l.accounts, sender);
    if amount > hs.balance then Err(InsufficientBalance)
    else
      var delta := DepositDelta(hs, amount);
      Ok(Receipt(Ledger(Move(l.accounts, sender, to, amount, delta), l.governor, l.totalSupply),
                 TransferEvent(sender, to, amount)))
  }
}
