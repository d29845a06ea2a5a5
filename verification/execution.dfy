/**
  The ledger as a serialized state machine: calls are applied one at a time,
  and a call that fails reverts, leaving the ledger as it was.
 */
module Execution {
  import opened Holdings
  import opened CurationToken

  datatype Call =
    | MintCall(caller: Address, account: Address, amount: nat, depositAmount: nat)
    | BurnCall(caller: Address, account: Address, amount: nat)
    | TransferCall(sender: Address, to: Address, amount: nat)

  /** One call against a valid ledger. */
  function Apply(l: Ledger, c: Call): (r: Result<Receipt>)
    requires Valid(l)
    ensures r.Ok? ==> Valid(r.value.ledger) && r.value.ledger.governor == l.governor
    ensures c.TransferCall? && r.Ok? ==>
              && r.value.ledger.totalSupply == l.totalSupply
              && Total(r.value.ledger.accounts, Deposit) == Total(l.accounts, Deposit)
    ensures !c.TransferCall? && c.caller != l.governor ==> r == Err(NotGovernor)
  {
    match c
    case MintCall(caller, account, amount, depositAmount) => Mint(l, caller, account, amount, depositAmount)
    case BurnCall(caller, account, amount) => BurnFrom(l, caller, account, amount)
    case TransferCall(sender, to, amount) => Transfer(l, sender, to, amount)
  }

  /**
    Applies `calls` in order. Each successful call contributes its event;
    a failed call reverts and contributes nothing.
   */
  method Execute(l: Ledger, calls: seq<Call>) returns (final: Ledger, events: seq<TransferEvent>)
    requires Valid(l)
    ensures Valid(final)
    ensures final.governor == l.governor
    ensures |events| <= |calls|
    ensures (forall i :: 0 <= i < |calls| ==> calls[i].TransferCall?) ==>
              && final.totalSupply == l.totalSupply
              && Total(final.accounts, Deposit) == Total(l.accounts, Deposit)
    ensures (forall i :: 0 <= i < |calls| ==> !calls[i].TransferCall? && calls[i].caller != l.governor) ==>
              final == l && events == []
  {
    final := l;
    events := [];
    var i := 0;
    while i < |calls|
      invariant 0 <= i <= |calls|
      invariant Valid(final)
      invariant final.governor == l.governor
      invariant |events| <= i
      invariant (forall j :: 0 <= j < i ==> calls[j].TransferCall?) ==>
                  && final.totalSupply == l.totalSupply
                  && Total(final.accounts, Deposit) == Total(l.accounts, Deposit)
      invariant (forall j :: 0 <= j < i ==> !calls[j].TransferCall? && calls[j].caller != l.governor) ==>
                  final == l && events == []
    {
      var r := Apply(final, calls[i]);
      if r.Ok? {
        final := r.value.ledger;
        events := events + [r.value.event];
      }
      i := i + 1;
    }
  }
}
