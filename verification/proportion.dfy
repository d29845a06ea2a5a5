/**
  The truncating proportional split behind `grtValueOf`:
  the deposit slice attributable to `amount` of `balance` shares is
  floor(deposit * amount / balance), computed on unbounded naturals.
 */
module Proportion {

  lemma MulMono(x: nat, y: nat, c: nat)
    requires x <= y
    ensures x * c <= y * c
  {}

  /** Cancelling a positive factor from both sides of an inequality. */
  lemma MulCancel(x: nat, y: nat, c: nat)
    requires c > 0
    requires x * c <= y * c
    ensures x <= y
  {
    if x > y {
      MulMono(y + 1, x, c);
    }
  }

  lemma DivBounds(x: nat, b: nat)
    requires b > 0
    ensures (x / b) * b <= x < (x / b + 1) * b
  {
    assert x == (x / b) * b + x % b;
  }

  /** At most one natural `q` satisfies q * b <= x < (q + 1) * b. */
  lemma FloorUnique(x: nat, b: nat, q: nat, q': nat)
    requires b > 0
    requires q * b <= x < (q + 1) * b
    requires q' * b <= x < (q' + 1) * b
    ensures q == q'
  {
    if q < q' {
      MulMono(q + 1, q', b);
    } else if q' < q {
      MulMono(q' + 1, q, b);
    }
  }

  /**
    The deposit slice of `amount` out of `balance` shares backed by `deposit`:
    the largest `r` with r * balance <= deposit * amount. An account without
    shares has nothing to give.
   */
  function Slice(deposit: nat, amount: nat, balance: nat): (r: nat)
    requires amount <= balance
    ensures balance == 0 ==> r == 0
    ensures balance > 0 ==> r * balance <= deposit * amount < (r + 1) * balance
    ensures r <= deposit
  {
    if balance == 0 then 0
    else
      var r := deposit * amount / balance;
      DivBounds(deposit * amount, balance);
      MulMono(amount, balance, deposit);
      MulCancel(r, deposit, balance);
      r
  }

  /** The whole balance carries the whole deposit: no rounding dust. */
  lemma SliceOfWhole(deposit: nat, balance: nat)
    requires balance > 0
    ensures Slice(deposit, balance, balance) == deposit
  {
    var r := Slice(deposit, balance, balance);
    assert (deposit + 1) * balance == deposit * balance + balance;
    FloorUnique(deposit * balance, balance, r, deposit);
  }

  /** Nothing is attributable to zero shares. */
  lemma SliceOfNothing(deposit: nat, balance: nat)
    ensures Slice(deposit, 0, balance) == 0
  {
    if balance > 0 {
      var r := Slice(deposit, 0, balance);
      FloorUnique(0, balance, r, 0);
    }
  }

  /** A strict part of a backed balance leaves some deposit behind. */
  lemma SliceBelowWhole(deposit: nat, amount: nat, balance: nat)
    requires amount < balance
    requires deposit > 0
    ensures Slice(deposit, amount, balance) < deposit
  {
    var r := Slice(deposit, amount, balance);
    MulMono(amount + 1, balance, deposit);
    assert deposit * amount < deposit * balance;
    if r >= deposit {
      MulMono(deposit, r, balance);
    }
  }

  /** More shares never carry less deposit. */
  lemma SliceMonotone(deposit: nat, a1: nat, a2: nat, balance: nat)
    requires a1 <= a2 <= balance
    ensures Slice(deposit, a1, balance) <= Slice(deposit, a2, balance)
  {
    if balance > 0 {
      var r1 := Slice(deposit, a1, balance);
      var r2 := Slice(deposit, a2, balance);
      MulMono(a1, a2, deposit);
      if r1 > r2 {
        MulMono(r2 + 1, r1, balance);
      }
    }
  }

  /**
    Truncation favours the account that keeps its shares: the deposit it
    retains is at least proportional to the balance it retains, i.e.
    (deposit - slice) / (balance - amount) >= deposit / balance.
   */
  lemma RetainedRatioNotBelow(deposit: nat, amount: nat, balance: nat)
    requires amount <= balance
    ensures (deposit - Slice(deposit, amount, balance)) * balance >= deposit * (balance - amount)
  {
    var r := Slice(deposit, amount, balance);
    if balance > 0 {
      assert (deposit - r) * balance == deposit * balance - r * balance;
      assert deposit * (balance - amount) == deposit * balance - deposit * amount;
    }
  }

  /**
    Splitting a holding loses at most one unit of deposit to rounding: what
    the sender keeps is the slice of the shares it keeps, or one more.
   */
  lemma SplitLosesAtMostOne(deposit: nat, amount: nat, balance: nat)
    requires amount <= balance
    requires balance > 0
    ensures Slice(deposit, balance - amount, balance) <= deposit - Slice(deposit, amount, balance)
    ensures deposit - Slice(deposit, amount, balance) <= Slice(deposit, balance - amount, balance) + 1
  {
    var s1 := Slice(deposit, amount, balance);
    var s2 := Slice(deposit, balance - amount, balance);
    assert deposit * amount + deposit * (balance - amount) == deposit * balance;
    assert (s1 + s2) * balance == s1 * balance + s2 * balance;
    MulCancel(s1 + s2, deposit, balance);
    assert (s1 + s2 + 2) * balance == (s1 + 1) * balance + (s2 + 1) * balance;
    if deposit >= s1 + s2 + 2 {
      MulMono(s1 + s2 + 2, deposit, balance);
    }
  }
}
