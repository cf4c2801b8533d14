/**
 * The Account model: one balance per user, in integer cents (the column is decimal(15,2) and
 * the model casts it to two fractional digits). Saving always succeeds in this model.
 */
module Accounts {

  /** The smallest amount a deposit or withdrawal request may carry: R$ 0,01. */
  const MinAmount: int := 1
  /** The largest amount a deposit request may carry: R$ 999.999,99. */
  const MaxDepositAmount: int := 99_999_999

  class Account {
    const id: nat
    const userId: nat
    var balance: int

    constructor (id: nat, userId: nat, balance: int)
      ensures this.id == id && this.userId == userId && this.balance == balance
    {
      this.id := id;
      this.userId := userId;
      this.balance := balance;
    }

    /** `hasSufficientBalance`: compares the raw balance; pending withdrawals are not deducted. */
    predicate HasSufficientBalance(amount: int)
      reads this
    {
      balance >= amount
    }

    /** `addBalance`: adds the amount, whatever its sign. */
    method AddBalance(amount: int)
      modifies this
      ensures balance == old(balance) + amount
    {
      balance := balance + amount;
    }

    /**
     * `subtractBalance`: refuses, leaving the balance alone, when the balance is below the
     * amount; otherwise debits it. It succeeds exactly when `HasSufficientBalance` holds, so a
     * successful call never leaves a negative balance.
     */
    method SubtractBalance(amount: int) returns (ok: bool)
      modifies this
      ensures ok == old(HasSufficientBalance(amount))
      ensures balance == if ok then old(balance) - amount else old(balance)
      ensures ok ==> balance >= 0
    {
      if balance < amount {
        return false;
      }
      balance := balance - amount;
      return true;
    }
  }
}
