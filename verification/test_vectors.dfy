/**
  The concrete scenarios of the GraphCurationToken test suite, with token
  amounts written at 18 decimals (one GRT is `Unit`).
 */
module TestVectors {
  import opened Holdings
  import opened Proportion
  import opened CurationToken

  const Unit: nat := 1_000_000_000_000_000_000

  const Me: Address := 1
  const Other: Address := 2
  const Gov: Address := 3

  /** `Me` after the governor mints 100 shares against a 10 GRT deposit. */
  function MintedTenth(): (l: Ledger)
    ensures Valid(l) && l.governor == Gov
    ensures BalanceOf(l, Me) == 100 * Unit && Deposits(l, Me) == 10 * Unit
  {
    var l := Ledger(map[Me := Holding(100 * Unit, 10 * Unit)], Gov, 100 * Unit);
    assert Mint(Initialize(Gov), Gov, Me, 100 * Unit, 10 * Unit)
           == Ok(Receipt(l, TransferEvent(ZeroAddress, Me, 100 * Unit)));
    l
  }

  /** `Me` after the governor mints 30 shares against a 10 GRT deposit. */
  function MintedThird(): (l: Ledger)
    ensures Valid(l) && l.governor == Gov
    ensures BalanceOf(l, Me) == 30 * Unit && Deposits(l, Me) == 10 * Unit
  {
    var l := Ledger(map[Me := Holding(30 * Unit, 10 * Unit)], Gov, 30 * Unit);
    assert Mint(Initialize(Gov), Gov, Me, 30 * Unit, 10 * Unit)
           == Ok(Receipt(l, TransferEvent(ZeroAddress, Me, 30 * Unit)));
    l
  }

  /** `Me` and `Other` each after a mint of 100 shares against 10 GRT. */
  function MintedBoth(): (l: Ledger)
    ensures Valid(l) && l.governor == Gov
    ensures BalanceOf(l, Me) == 100 * Unit && Deposits(l, Me) == 10 * Unit
    ensures BalanceOf(l, Other) == 100 * Unit && Deposits(l, Other) == 10 * Unit
  {
    var h := Holding(100 * Unit, 10 * Unit);
    var l := Ledger(map[Me := h, Other := h], Gov, 200 * Unit);
    assert Mint(MintedTenth(), Gov, Other, 100 * Unit, 10 * Unit)
           == Ok(Receipt(l, TransferEvent(ZeroAddress, Other, 100 * Unit)));
    l
  }

  lemma OneTenthVectors()
    ensures GrtValueOf(MintedTenth(), Me, 33 * Unit) == Ok(3_300_000_000_000_000_000)
    ensures GrtValueOf(MintedTenth(), Me, 50 * Unit) == Ok(5 * Unit)
    ensures GrtValueOf(MintedTenth(), Me, 99 * Unit) == Ok(9_900_000_000_000_000_000)
    ensures GrtValueOf(MintedTenth(), Me, 10 * Unit) == Ok(Unit)
    ensures GrtValueOf(MintedTenth(), Me, 100_000_000_000_000) == Ok(10_000_000_000_000)
    ensures GrtValueOf(MintedTenth(), Me, 12_332_323_100_000_000) == Ok(1_233_232_310_000_000)
  {
  }

  /** With 100 shares backed by 10 GRT, any amount of shares is worth exactly a tenth of it, rounded down. */
  lemma TenthIsProportional(x: nat)
    requires x <= 100 * Unit
    ensures GrtValueOf(MintedTenth(), Me, x) == Ok(x / 10)
  {
    var r := GrtValueOf(MintedTenth(), Me, x).value;
    var q := x / 10;
    DivBounds(x, 10);
    FloorUnique(10 * Unit * x, 100 * Unit, r, q);
  }

  /** With 30 shares backed by 10 GRT, any amount of shares is worth exactly a third of it, rounded down. */
  lemma ThirdIsProportional(x: nat)
    requires x <= 30 * Unit
    ensures GrtValueOf(MintedThird(), Me, x) == Ok(x / 3)
  {
    var r := GrtValueOf(MintedThird(), Me, x).value;
    var q := x / 3;
    DivBounds(x, 3);
    FloorUnique(10 * Unit * x, 30 * Unit, r, q);
  }

  lemma OneThirdVectors()
    ensures GrtValueOf(MintedThird(), Me, 10 * Unit) == Ok(3_333_333_333_333_333_333)
    ensures GrtValueOf(MintedThird(), Me, 5 * Unit) == Ok(1_666_666_666_666_666_666)
    ensures GrtValueOf(MintedThird(), Me, 15 * Unit) == Ok(5 * Unit)
    ensures GrtValueOf(MintedThird(), Me, Unit) == Ok(333_333_333_333_333_333)
    ensures GrtValueOf(MintedThird(), Me, 100_000_000_000_000) == Ok(33_333_333_333_333)
    ensures GrtValueOf(MintedThird(), Me, 12_332_323_100_000_000) == Ok(4_110_774_366_666_666)
  {
  }

  /** The literal ledgers above are exactly what the governor's mints produce, events included. */
  lemma MintScenarios()
    ensures Mint(Initialize(Gov), Me, Me, 100 * Unit, 10 * Unit) == Err(NotGovernor)
    ensures Mint(Initialize(Gov), Gov, Me, 100 * Unit, 10 * Unit)
            == Ok(Receipt(MintedTenth(), TransferEvent(ZeroAddress, Me, 100 * Unit)))
    ensures Mint(Initialize(Gov), Gov, Me, 30 * Unit, 10 * Unit)
            == Ok(Receipt(MintedThird(), TransferEvent(ZeroAddress, Me, 30 * Unit)))
    ensures Mint(MintedTenth(), Gov, Other, 100 * Unit, 10 * Unit)
            == Ok(Receipt(MintedBoth(), TransferEvent(ZeroAddress, Other, 100 * Unit)))
  {
    var h := Holding(100 * Unit, 10 * Unit);
    assert MintedTenth() == Ledger(map[Me := h], Gov, 100 * Unit);
    assert MintedThird() == Ledger(map[Me := Holding(30 * Unit, 10 * Unit)], Gov, 30 * Unit);
    assert MintedBoth() == Ledger(map[Me := h, Other := h], Gov, 200 * Unit);
  }

  lemma BurnScenarios()
    ensures BurnFrom(MintedTenth(), Me, Me, 100 * Unit) == Err(NotGovernor)
    ensures var r := BurnFrom(MintedTenth(), Gov, Me, 100 * Unit).value;
            && BalanceOf(r.ledger, Me) == 0 && Deposits(r.ledger, Me) == 0
            && r.event == TransferEvent(Me, ZeroAddress, 100 * Unit)
    ensures var r := BurnFrom(MintedTenth(), Gov, Me, 50 * Unit).value;
            && GrtValueOf(MintedTenth(), Me, 50 * Unit) == Ok(5 * Unit)
            && BalanceOf(r.ledger, Me) == 50 * Unit && Deposits(r.ledger, Me) == 5 * Unit
            && r.event == TransferEvent(Me, ZeroAddress, 50 * Unit)
  {
  }

  lemma TransferScenarios()
    ensures var r := Transfer(MintedBoth(), Me, Other, 100 * Unit).value;
            && BalanceOf(r.ledger, Me) == 0 && Deposits(r.ledger, Me) == 0
            && BalanceOf(r.ledger, Other) == 200 * Unit && Deposits(r.ledger, Other) == 20 * Unit
            && r.event == TransferEvent(Me, Other, 100 * Unit)
    ensures var r := Transfer(MintedBoth(), Me, Other, 50 * Unit).value;
            && BalanceOf(r.ledger, Me) == 50 * Unit && Deposits(r.ledger, Me) == 5 * Unit
            && BalanceOf(r.ledger, Other) == 150 * Unit && Deposits(r.ledger, Other) == 15 * Unit
            && r.event == TransferEvent(Me, Other, 50 * Unit)
  {
  }

  /** A transfer too small to carry one unit of deposit gives shares backed by nothing. */
  lemma DustTransferCarriesNoDeposit()
    ensures var l := Mint(Initialize(Gov), Gov, Me, 100, 10).value.ledger;
            var l' := Transfer(l, Me, Other, 5).value.ledger;
            BalanceOf(l', Other) == 5 && Deposits(l', Other) == 0
  {
  }
}
