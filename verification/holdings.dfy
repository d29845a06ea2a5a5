/**
  Accounts of the curation-share ledger and the sparse table that stores them.

  Every account holds two quantities: a share `balance` and the `deposit` of
  backing GRT attributed to those shares. The table is sparse: an account that
  is absent reads as `Empty`, and an account whose two fields both reach zero is
  removed again, so a table never stores an `Empty` holding.
 */
module Holdings {

  /** Account identifiers; 0 plays the role of the zero address. */
  type Address = nat

  const ZeroAddress: Address := 0

  datatype Holding = Holding(balance: nat, deposit: nat)

  const Empty := Holding(0, 0)

  /** Selects one of the two quantities of a holding, so that sums are written once. */
  datatype Field = Balance | Deposit

  function Amount(h: Holding, f: Field): nat
  {
    match f
    case Balance => h.balance
    case Deposit => h.deposit
  }

  type Book = map<Address, Holding>

  /** No account is stored with an all-zero holding. */
  ghost predicate Sparse(m: Book)
  {
    forall a :: a in m ==> m[a] != Empty
  }

  /** The holding of `a`, with the default-on-miss rule. */
  function Get(m: Book, a: Address): Holding
  {
    if a in m then m[a] else Empty
  }

  /** Stores `h` for `a`, dropping the entry when `h` is all zero. */
  function Put(m: Book, a: Address, h: Holding): (r: Book)
    ensures Get(r, a) == h
    ensures forall b :: b != a ==> Get(r, b) == Get(m, b)
    ensures Sparse(m) ==> Sparse(r)
  {
    if h == Empty then m - {a} else m[a := h]
  }

  /** A later store to the same account overrides an earlier one. */
  lemma PutPut(m: Book, a: Address, x: Holding, y: Holding)
    ensures Put(Put(m, a, x), a, y) == Put(m, a, y)
  {
  }

  /** Storing back what an account already reads as leaves a sparse table as it was. */
  lemma PutGet(m: Book, a: Address)
    requires Sparse(m)
    ensures Put(m, a, Get(m, a)) == m
  {
  }

  /** Sum of one quantity over every account of the table. */
  ghost function Total(m: Book, f: Field): nat
    decreases |m|
  {
    if m == map[] then 0
    else
      var a :| a in m;
      assert |m - {a}| < |m| by { assert (m - {a}).Keys == m.Keys - {a}; }
      Amount(m[a], f) + Total(m - {a}, f)
  }

  /** Any stored account can be peeled off the sum, whichever one the sum picked first. */
  lemma {:induction false} TotalRemove(m: Book, a: Address, f: Field)
    requires a in m
    ensures Total(m, f) == Amount(m[a], f) + Total(m - {a}, f)
    decreases |m|
  {
    var b :| b in m && Total(m, f) == Amount(m[b], f) + Total(m - {b}, f);
    if b != a {
      assert (m - {b}).Keys == m.Keys - {b};
      assert (m - {a}).Keys == m.Keys - {a};
      TotalRemove(m - {b}, a, f);
      TotalRemove(m - {a}, b, f);
      assert m - {b} - {a} == m - {a} - {b};
    }
  }

  /** Replacing the holding of one account changes the sum by exactly the difference. */
  lemma TotalPut(m: Book, a: Address, h: Holding, f: Field)
    ensures Total(Put(m, a, h), f) + Amount(Get(m, a), f) == Total(m, f) + Amount(h, f)
  {
    var rest := m - {a};
    if a in m {
      TotalRemove(m, a, f);
    } else {
      assert rest == m;
    }
    var r := Put(m, a, h);
    if h == Empty {
      assert r == rest;
    } else {
      TotalRemove(r, a, f);
      assert r - {a} == rest;
    }
  }

  /**
    Moves `amount` shares and `delta` deposit from account `from` to account
    `to`, debiting before crediting, so that `from == to` reads back unchanged.
   */
  function Move(m: Book, from: Address, to: Address, amount: nat, delta: nat): (r: Book)
    requires amount <= Get(m, from).balance
    requires delta <= Get(m, from).deposit
    ensures Total(r, Balance) == Total(m, Balance)
    ensures Total(r, Deposit) == Total(m, Deposit)
    ensures Sparse(m) ==> Sparse(r)
  {
    var hs := Get(m, from);
    var hs' := Holding(hs.balance - amount, hs.deposit - delta);
    var debited := Put(m, from, hs');
    var ht := Get(debited, to);
    var ht' := Holding(ht.balance + amount, ht.deposit + delta);
    TotalPut(m, from, hs', Balance);
    TotalPut(debited, to, ht', Balance);
    TotalPut(m, from, hs', Deposit);
    TotalPut(debited, to, ht', Deposit);
    Put(debited, to, ht')
  }

  /** A stored account never holds more than the table's sum. */
  lemma TotalBoundsEach(m: Book, a: Address, f: Field)
    ensures Amount(Get(m, a), f) <= Total(m, f)
  {
    if a in m {
      TotalRemove(m, a, f);
    }
  }
}
