/** A trader's account: an identity and a cash balance. */
module Users {
  import opened Wrappers

  datatype UserError = InsufficientBalance   // "Insufficient balance"

  datatype User = User(id: int, username: string, passwordHash: string, balance: real)
  {
    /** Affordable exactly when the balance covers the amount (boundary included). */
    predicate CanAfford(amount: real) {
      balance >= amount
    }

    /** Debits `amount`; refuses, with no change, what the balance cannot cover. */
    function DeductBalance(amount: real): (r: Result<User, UserError>)
      ensures r.Success? <==> CanAfford(amount)
      ensures r.Success? ==> r.value == this.(balance := balance - amount)
      ensures r.Success? ==> r.value.balance >= 0.0
    {
      if !CanAfford(amount) then Failure(InsufficientBalance)
      else Success(this.(balance := balance - amount))
    }

    /** Credits `amount`; nothing but the balance changes. */
    function AddBalance(amount: real): (u: User)
      ensures u.balance - amount == balance
      ensures u.(balance := balance) == this
    {
      this.(balance := balance + amount)
    }
  }

  /** A successful debit followed by a credit of the same amount restores the account. */
  lemma DeductThenAddRestores(u: User, amount: real)
    requires u.DeductBalance(amount).Success?
    ensures u.DeductBalance(amount).value.AddBalance(amount) == u
  {
  }

  /** The whole balance can be debited, leaving exactly zero. */
  lemma DeductExactBalance(u: User)
    ensures u.DeductBalance(u.balance) == Success(u.(balance := 0.0))
  {
  }
}
