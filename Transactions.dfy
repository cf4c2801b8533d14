/**
 * The Transaction model: one deposit (DEPOSITO) or withdrawal (SAQUE) with its lifecycle
 * status. Type, amount, owner, account, creation time and scheduled time are fixed when the
 * row is created; status, processed_at and failure_reason are the fields that change.
 */
module Transactions {
  import opened Wrappers
  import opened Calendar
  import opened Pix
  import opened Accounts

  datatype TxType = Deposito | Saque {
    function Code(): string {
      match this
      case Deposito => "DEPOSITO"
      case Saque => "SAQUE"
    }
  }

  datatype TxStatus = Pendente | Processado | Falhou | Cancelado {
    function Code(): string {
      match this
      case Pendente => "PENDENTE"
      case Processado => "PROCESSADO"
      case Falhou => "FALHOU"
      case Cancelado => "CANCELADO"
    }
  }

  /** The stored codes are distinct, so comparing codes is comparing the enumeration values. */
  lemma CodesDistinct(a: TxStatus, b: TxStatus, x: TxType, y: TxType)
    ensures a.Code() == b.Code() <==> a == b
    ensures x.Code() == y.Code() <==> x == y
  {
  }

  /** A read-only copy of one row with its details, as the queries of the controllers return it. */
  datatype TxRow = TxRow(
    id: nat, userId: nat, accountId: nat, kind: TxType, amount: int, status: TxStatus,
    createdAt: DateTime, scheduledAt: Option<DateTime>, processedAt: Option<DateTime>,
    failureReason: Option<string>, details: Option<WithdrawalDetails>)

  class Transaction {
    const id: nat
    const userId: nat
    const account: Account
    const kind: TxType
    const amount: int
    const createdAt: DateTime
    const scheduledAt: Option<DateTime>
    var status: TxStatus
    var processedAt: Option<DateTime>
    var failureReason: Option<string>

    constructor (id: nat, userId: nat, account: Account, kind: TxType, amount: int, status: TxStatus,
                 scheduledAt: Option<DateTime>, processedAt: Option<DateTime>, createdAt: DateTime)
      ensures this.id == id && this.userId == userId && this.account == account && this.kind == kind
      ensures this.amount == amount && this.status == status && this.scheduledAt == scheduledAt
      ensures this.processedAt == processedAt && this.createdAt == createdAt && this.failureReason == None
    {
      this.id := id;
      this.userId := userId;
      this.account := account;
      this.kind := kind;
      this.amount := amount;
      this.status := status;
      this.scheduledAt := scheduledAt;
      this.processedAt := processedAt;
      this.createdAt := createdAt;
      this.failureReason := None;
    }

    predicate IsDeposit() { kind == Deposito }
    predicate IsWithdrawal() { kind == Saque }
    predicate IsPending() reads this { status == Pendente }
    predicate IsProcessed() reads this { status == Processado }
    predicate IsFailed() reads this { status == Falhou }

    /** `markAsProcessed`: whatever the current status, the row becomes PROCESSADO at `now`. */
    method MarkAsProcessed(now: DateTime)
      modifies this
      ensures status == Processado && processedAt == Some(now)
      ensures failureReason == old(failureReason)
    {
      status := Processado;
      processedAt := Some(now);
    }

    /** `markAsFailed`: whatever the current status, the row becomes FALHOU at `now` with the reason. */
    method MarkAsFailed(reason: string, now: DateTime)
      modifies this
      ensures status == Falhou && failureReason == Some(reason) && processedAt == Some(now)
    {
      status := Falhou;
      failureReason := Some(reason);
      processedAt := Some(now);
    }

    /** The row as a query reads it, with the details row attached to it if there is one. */
    function Row(details: Option<WithdrawalDetails>): (r: TxRow)
      reads this
      ensures r.id == id && r.userId == userId && r.accountId == account.id && r.kind == kind
      ensures r.amount == amount && r.status == status && r.createdAt == createdAt
      ensures r.scheduledAt == scheduledAt && r.processedAt == processedAt
      ensures r.failureReason == failureReason && r.details == details
    {
      TxRow(id, userId, account.id, kind, amount, status, createdAt, scheduledAt, processedAt, failureReason, details)
    }
  }

  /** At most one status test holds, and none does for a cancelled row. */
  lemma StatusTestsExclusive(t: Transaction)
    ensures !(t.IsPending() && t.IsProcessed()) && !(t.IsPending() && t.IsFailed()) && !(t.IsProcessed() && t.IsFailed())
    ensures t.status == Cancelado ==> !t.IsPending() && !t.IsProcessed() && !t.IsFailed()
    ensures t.IsDeposit() != t.IsWithdrawal()
  {
  }
}
