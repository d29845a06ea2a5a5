/**
  Facts relating several ledger operations, or an operation to the sums of
  the whole table: conservation, inverse pairs, dust-free full removals and
  the direction of rounding.
 */
module LedgerProperties {
  import opened Holdings
  import opened Proportion
  import opened CurationToken

  /** Zero shares are worth nothing, and all of an account's shares are worth all of its deposit. */
  lemma GrtValueOfEnds(l: Ledger, account: Address)
    ensures GrtValueOf(l, account, 0) == Ok(0)
    ensures BalanceOf(l, account) > 0 ==>
              GrtValueOf(l, account, BalanceOf(l, account)) == Ok(Deposits(l, account))
  {
    var h := Get(l.accounts, account);
    SliceOfNothing(h.deposit, h.balance);
    if h.balance > 0 {
      SliceOfWhole(h.deposit, h.balance);
    }
  }

  /** Minting raises the share sum by the minted amount and the deposit sum by the deposited amount. */
  lemma MintAdds(l: Ledger, caller: Address, account: Address, amount: nat, depositAmount: nat)
    requires Mint(l, caller, account, amount, depositAmount).Ok?
    ensures var l' := Mint(l, caller, account, amount, depositAmount).value.ledger;
            && Total(l'.accounts, Balance) == Total(l.accounts, Balance) + amount
            && Total(l'.accounts, Deposit) == Total(l.accounts, Deposit) + depositAmount
  {
    var h := Get(l.accounts, account);
    var h' := Holding(h.balance + amount, h.deposit + depositAmount);
    TotalPut(l.accounts, account, h', Balance);
    TotalPut(l.accounts, account, h', Deposit);
  }

  /**
    Burning lowers the share sum by the burned amount and the deposit sum by
    exactly the deposit the account released.
   */
  lemma BurnRemoves(l: Ledger, caller: Address, account: Address, amount: nat)
    requires Valid(l)
    requires BurnFrom(l, caller, account, amount).Ok?
    ensures var l' := BurnFrom(l, caller, account, amount).value.ledger;
            && Total(l'.accounts, Balance) + amount == Total(l.accounts, Balance)
            && Total(l'.accounts, Deposit) + (Deposits(l, account) - Deposits(l', account))
               == Total(l.accounts, Deposit)
  {
    var h := Get(l.accounts, account);
    var h' := Holding(h.balance - amount, h.deposit - DepositDelta(h, amount));
    TotalPut(l.accounts, account, h', Balance);
    TotalPut(l.accounts, account, h', Deposit);
  }

  /** Sending shares to oneself leaves the ledger exactly as it was. */
  lemma SelfTransferIsNoOp(l: Ledger, a: Address, amount: nat)
    requires Valid(l)
    requires amount <= BalanceOf(l, a)
    ensures Transfer(l, a, a, amount) == Ok(Receipt(l, TransferEvent(a, a, amount)))
  {
    var hs := Get(l.accounts, a);
    var delta := DepositDelta(hs, amount);
    var hs' := Holding(hs.balance - amount, hs.deposit - delta);
    var debited := Put(l.accounts, a, hs');
    assert Get(debited, a) == hs';
    PutPut(l.accounts, a, hs', hs);
    PutGet(l.accounts, a);
    assert Move(l.accounts, a, a, amount, delta) == l.accounts;
  }

  /** Burning all the shares just minted into an empty account undoes the mint. */
  lemma MintThenBurnRestores(l: Ledger, account: Address, amount: nat, depositAmount: nat)
    requires Valid(l)
    requires Get(l.accounts, account) == Empty
    ensures var minted := Mint(l, l.governor, account, amount, depositAmount).value.ledger;
            BurnFrom(minted, l.governor, account, amount)
            == Ok(Receipt(l, TransferEvent(account, ZeroAddress, amount)))
  {
    var h' := Holding(amount, depositAmount);
    var minted := Mint(l, l.governor, account, amount, depositAmount).value.ledger;
    assert minted.accounts == Put(l.accounts, account, h');
    PutPut(l.accounts, account, h', Empty);
    PutGet(l.accounts, account);
    assert Put(minted.accounts, account, Empty) == l.accounts;
  }

  /** A full burn removes the account record altogether: both quantities are zero, no dust. */
  lemma FullBurnClearsAccount(l: Ledger, caller: Address, account: Address)
    requires Valid(l)
    requires caller == l.governor
    ensures var l' := BurnFrom(l, caller, account, BalanceOf(l, account)).value.ledger;
            && account !in l'.accounts
            && BalanceOf(l', account) == 0 && Deposits(l', account) == 0
  {
  }

  /** A full transfer empties the sender's record, deposit included. */
  lemma FullTransferClearsSender(l: Ledger, sender: Address, to: Address)
    requires sender != to
    ensures var l' := Transfer(l, sender, to, BalanceOf(l, sender)).value.ledger;
            && sender !in l'.accounts
            && BalanceOf(l', to) == BalanceOf(l, to) + BalanceOf(l, sender)
            && Deposits(l', to) == Deposits(l, to) + Deposits(l, sender)
  {
  }

  /** A partial burn of a backed account leaves a strictly positive deposit. */
  lemma PartialBurnLeavesDeposit(l: Ledger, caller: Address, account: Address, amount: nat)
    requires Valid(l)
    requires caller == l.governor
    requires amount < BalanceOf(l, account)
    requires Deposits(l, account) > 0
    ensures Deposits(BurnFrom(l, caller, account, amount).value.ledger, account) > 0
  {
    var h := Get(l.accounts, account);
    SliceBelowWhole(h.deposit, amount, h.balance);
  }

  /**
    Rounding never favours the receiver: the slice it gets is at most
    proportional to the shares it gets, and the deposit the sender keeps is
    at least proportional to the shares the sender keeps.
   */
  lemma TransferRoundsTowardSender(l: Ledger, sender: Address, to: Address, amount: nat)
    requires sender != to
    requires Transfer(l, sender, to, amount).Ok?
    ensures var l' := Transfer(l, sender, to, amount).value.ledger;
            && (Deposits(l', to) - Deposits(l, to)) * BalanceOf(l, sender) <= Deposits(l, sender) * amount
            && Deposits(l', sender) * BalanceOf(l, sender) >= Deposits(l, sender) * BalanceOf(l', sender)
  {
    var h := Get(l.accounts, sender);
    if h.balance > 0 {
      RetainedRatioNotBelow(h.deposit, amount, h.balance);
    }
  }

  /** No account holds deposit without shares. */
  ghost predicate NoStrandedDeposit(l: Ledger)
  {
    forall a :: BalanceOf(l, a) == 0 ==> Deposits(l, a) == 0
  }

  lemma BurnKeepsNoStrandedDeposit(l: Ledger, caller: Address, account: Address, amount: nat)
    requires Valid(l) && NoStrandedDeposit(l)
    requires BurnFrom(l, caller, account, amount).Ok?
    ensures NoStrandedDeposit(BurnFrom(l, caller, account, amount).value.ledger)
  {
    var l' := BurnFrom(l, caller, account, amount).value.ledger;
    forall a | BalanceOf(l', a) == 0
      ensures Deposits(l', a) == 0
    {
      if a != account {
        assert Get(l'.accounts, a) == Get(l.accounts, a);
        assert BalanceOf(l, a) == 0;
      }
    }
  }

  lemma TransferKeepsNoStrandedDeposit(l: Ledger, sender: Address, to: Address, amount: nat)
    requires NoStrandedDeposit(l)
    requires Transfer(l, sender, to, amount).Ok?
    ensures NoStrandedDeposit(Transfer(l, sender, to, amount).value.ledger)
  {
    var l' := Transfer(l, sender, to, amount).value.ledger;
    var h := Get(l.accounts, sender);
    if amount == 0 && h.balance > 0 {
      SliceOfNothing(h.deposit, h.balance);
    }
    forall a | BalanceOf(l', a) == 0
      ensures Deposits(l', a) == 0
    {
      if a != sender && a != to {
        assert Get(l'.accounts, a) == Get(l.accounts, a);
        assert BalanceOf(l, a) == 0;
      } else {
        assert BalanceOf(l, sender) == 0 ==> Deposits(l, sender) == 0;
        assert BalanceOf(l, to) == 0 ==> Deposits(l, to) == 0;
      }
    }
  }

  /**
    Minting keeps every deposit backed exactly when it does not leave the
    account holding deposit with no shares afterwards.
   */
  lemma MintKeepsNoStrandedDeposit(l: Ledger, caller: Address, account: Address, amount: nat, depositAmount: nat)
    requires NoStrandedDeposit(l)
    requires Mint(l, caller, account, amount, depositAmount).Ok?
    ensures NoStrandedDeposit(Mint(l, caller, account, amount, depositAmount).value.ledger)
            <==> (BalanceOf(l, account) + amount > 0 || depositAmount == 0)
  {
    var l' := Mint(l, caller, account, amount, depositAmount).value.ledger;
    if BalanceOf(l, account) + amount > 0 || depositAmount == 0 {
      forall a | BalanceOf(l', a) == 0
        ensures Deposits(l', a) == 0
      {
        if a != account {
          assert Get(l'.accounts, a) == Get(l.accounts, a);
          assert BalanceOf(l, a) == 0;
        }
      }
    } else {
      assert BalanceOf(l', account) == 0 && Deposits(l', account) > 0;
    }
  }

  /** Minting a deposit with zero shares strands it: the zero-iff-zero property is not an invariant. */
  lemma MintCanStrandDeposit()
    ensures var l := Initialize(3);
            && NoStrandedDeposit(l)
            && !NoStrandedDeposit(Mint(l, 3, 1, 0, 1).value.ledger)
  {
    var l' := Mint(Initialize(3), 3, 1, 0, 1).value.ledger;
    assert BalanceOf(l', 1) == 0 && Deposits(l', 1) == 1;
  }

  /**
    An account left with deposit but no shares loses all of it to a burn or
    transfer of zero shares, since zero is its whole balance, although
    grtValueOf values those zero shares at nothing.
   */
  lemma ZeroShareRemovalTakesStrandedDeposit()
    ensures var l := Mint(Initialize(3), 3, 1, 0, 7).value.ledger;
            && GrtValueOf(l, 1, 0) == Ok(0)
            && BalanceOf(Transfer(l, 1, 2, 0).value.ledger, 2) == 0
            && Deposits(Transfer(l, 1, 2, 0).value.ledger, 2) == 7
            && Deposits(BurnFrom(l, 3, 1, 0).value.ledger, 1) == 0
  {
    var l := Mint(Initialize(3), 3, 1, 0, 7).value.ledger;
    assert Get(l.accounts, 1) == Holding(0, 7);
  }

  /**
    Truncation can raise an account's deposit-per-share: burning 1 of 3 shares
    backed by 10 releases 3 and leaves 7 behind 2 shares, 3.5 per share
    against 3.33 before.
   */
  lemma RetainedRatioCanRise()
    ensures var l := Mint(Initialize(3), 3, 1, 3, 10).value.ledger;
            var l' := BurnFrom(l, 3, 1, 1).value.ledger;
            && BalanceOf(l', 1) == 2 && Deposits(l', 1) == 7
            && Deposits(l', 1) * BalanceOf(l, 1) > Deposits(l, 1) * BalanceOf(l', 1)
  {
    var l := Mint(Initialize(3), 3, 1, 3, 10).value.ledger;
    assert Get(l.accounts, 1) == Holding(3, 10);
  }
}
