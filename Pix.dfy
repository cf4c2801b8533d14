/**
 * WithdrawalDetails: the PIX destination recorded for one withdrawal. Its `pix_type` column is
 * the enumeration EMAIL, PHONE, CPF, RANDOM; only `transaction_id`, `pix_type` and `pix_key`
 * can be assigned when a row is created, which is all this record holds.
 */
module Pix {
  import opened Wrappers

  datatype PixType = Email | Phone | Cpf | Random {
    /** The code stored in the `pix_type` column. */
    function Code(): string {
      match this
      case Email => "EMAIL"
      case Phone => "PHONE"
      case Cpf => "CPF"
      case Random => "RANDOM"
    }
  }

  /** The key type a stored code stands for, if any. */
  function PixTypeFromCode(code: string): (r: Option<PixType>)
    ensures r.Some? <==> code in {"EMAIL", "PHONE", "CPF", "RANDOM"}
    ensures r.Some? ==> r.value.Code() == code
  {
    if code == "EMAIL" then Some(Email)
    else if code == "PHONE" then Some(Phone)
    else if code == "CPF" then Some(Cpf)
    else if code == "RANDOM" then Some(Random)
    else None
  }

  lemma CodeRoundTrip(p: PixType)
    ensures PixTypeFromCode(p.Code()) == Some(p)
  {
  }

  /** One `withdrawal_details` row; it belongs to the transaction whose id is `transactionId`. */
  datatype WithdrawalDetails = WithdrawalDetails(transactionId: nat, pixType: PixType, pixKey: string) {
    predicate IsEmail() { pixType == Email }
    predicate IsPhone() { pixType == Phone }
    predicate IsCpf() { pixType == Cpf }
    predicate IsRandom() { pixType == Random }
  }

  /** Exactly one of the four key-type tests holds for a stored row. */
  lemma ExactlyOneKeyType(d: WithdrawalDetails)
    ensures d.IsEmail() || d.IsPhone() || d.IsCpf() || d.IsRandom()
    ensures (if d.IsEmail() then 1 else 0) + (if d.IsPhone() then 1 else 0)
          + (if d.IsCpf() then 1 else 0) + (if d.IsRandom() then 1 else 0) == 1
  {
  }
}
