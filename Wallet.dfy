/**
 * The endpoints that move money: deposit, immediate or scheduled withdrawal, and the
 * cancellation of a scheduled withdrawal, in the client area (`Client\TransactionController`,
 * behind the middleware that hands over the authenticated user and account) and in the older
 * token-checked `TransactionController`.
 *
 * Each endpoint first decides, from the request and what it reads, whether to refuse. That
 * decision is a pure function below; the methods carry it out on the store and state the new
 * rows and accounts in terms of the old ones.
 */
module Wallet {
  import opened Wrappers
  import opened Calendar
  import opened Text
  import opened Pix
  import opened Accounts
  import opened Transactions
  import opened Ledger
  import opened Settlement
  import Users

  const InvalidData: string := "Dados inválidos"
  const InsufficientBalance: string := "Saldo insuficiente"
  const InternalError: string := "Erro interno do servidor"
  /** The Error `createScheduledAt` raises when `createFromFormat` reads false; no handler catches it. */
  const SetTimeOnBool: string := "Call to a member function setTime() on bool"
  /** The Errors the client endpoints raise on the null account, as written; no handler catches them. */
  const AssignBalanceOnNull: string := "Attempt to assign property \"balance\" on null"
  const BalanceCheckOnNull: string := "Call to a member function hasSufficientBalance() on null"
  const InvalidToken: string := "Token inválido ou expirado"
  const AmountNotPositive: string := "Valor deve ser maior que zero"
  const AccountNotFound: string := "Conta não encontrada"
  const PixKeyRequired: string := "Chave PIX é obrigatória"
  const NotInFuture: string := "Data de agendamento deve ser futura"
  const BeyondSevenDays: string := "Agendamento limitado a 7 dias"
  const CancelledByUser: string := "Cancelado pelo usuário"

  /** How far ahead the older controller lets a withdrawal be scheduled, in days. */
  const MaxScheduleDays: nat := 7

  /** The form-request messages of a cancellation. */
  const IdRequired: string := "ID da transação é obrigatório"
  const IdNotPositive: string := "ID da transação deve ser maior que zero"
  const NotAuthenticated: string := "Usuário não autenticado."
  const NotCancellable: string := "Saque agendado não encontrado ou já processado."
  const AlreadyProcessed: string := "Este saque já foi processado e não pode ser cancelado."

  /** The messages of the older controller's cancellation. */
  const LegacyNotCancellable: string := "Saque agendado não encontrado ou já processado"
  const LegacyAlreadyProcessed: string := "Este saque já foi processado e não pode ser cancelado"

  /** What an endpoint decides before it writes: refuse with a status, or go ahead (scheduled at the given time, or immediate). */
  datatype Decision = Reject(status: int, message: string) | Accept(scheduledAt: Option<DateTime>)

  /** Laravel's `required` on a string field: present and not blank once trimmed. */
  predicate Present(v: Option<string>) {
    v.Some? && Trim(v.value) != ""
  }

  /** `!empty($scheduledAt)`: a scheduled time was given, and it is neither "" nor "0". */
  predicate IsScheduled(v: Option<string>) {
    v.Some? && !PhpEmpty(v.value)
  }

  /** The row a deposit records: processed on the spot. */
  function DepositRow(id: nat, userId: nat, accountId: nat, amount: int, now: DateTime): TxRow {
    TxRow(id, userId, accountId, Deposito, amount, Processado, now, None, Some(now), None, None)
  }

  /** The row a withdrawal records before its details: PENDENTE for `at` when scheduled, otherwise PROCESSADO now. */
  function WithdrawalRow(id: nat, userId: nat, accountId: nat, amount: int, at: Option<DateTime>, now: DateTime): TxRow {
    TxRow(id, userId, accountId, Saque, amount, if at.Some? then Pendente else Processado, now,
          at, if at.Some? then None else Some(now), None, None)
  }

  /** A deposit books its whole amount on its account; a withdrawal books minus its amount when immediate, nothing when scheduled. */
  lemma RowEffects(id: nat, userId: nat, accountId: nat, amount: int, at: Option<DateTime>, now: DateTime,
                   d: Option<WithdrawalDetails>)
    ensures Effect(DepositRow(id, userId, accountId, amount, now), accountId) == amount
    ensures Effect(WithdrawalRow(id, userId, accountId, amount, at, now).(details := d), accountId)
         == if at.Some? then 0 else -amount
  {
  }

  /**
   * The state once the row `r` of a withdrawal is inserted. With a key type the `pix_type`
   * column knows, the details row follows and an immediate withdrawal is then debited. With
   * any other key type the details insert fails after the row was already written, and the
   * request ends in an internal error with nothing debited.
   */
  ghost predicate WithdrawalWritten(rows: seq<TxRow>, accs: seq<AccountRow>, m: nat, r: TxRow,
                                    pixType: string, pixKey: string,
                                    o: Outcome<TxRow>, rows': seq<TxRow>, accs': seq<AccountRow>)
    requires m < |accs|
  {
    match PixTypeFromCode(pixType)
    case None => o == Fail(500, InternalError) && rows' == rows + [r] && accs' == accs
    case Some(p) =>
      var w := r.(details := Some(WithdrawalDetails(r.id, p, pixKey)));
      o == Ok(w) && rows' == rows + [w] && accs' == Booked(accs, m, Effect(w, accs[m].id))
  }

  /**
   * Writing a withdrawal the balance covers keeps every balance non-negative; a completed
   * one also keeps the books balanced. (The failed write breaks the second for an immediate
   * withdrawal: see `UndebitedWithdrawalUnbalances`.)
   */
  lemma WrittenKeepsBooks(rows: seq<TxRow>, accs: seq<AccountRow>, m: nat, r: TxRow,
                          pixType: string, pixKey: string, o: Outcome<TxRow>, rows': seq<TxRow>, accs': seq<AccountRow>)
    requires m < |accs| && r.accountId == accs[m].id && r.kind == Saque
    requires r.status == Processado ==> accs[m].balance >= r.amount
    requires WithdrawalWritten(rows, accs, m, r, pixType, pixKey, o, rows', accs')
    ensures NonNegative(accs) ==> NonNegative(accs')
    ensures o.Ok? && UniqueIds(accs) && Balanced(rows, accs) ==> Balanced(rows', accs')
  {
    if o.Ok? {
      var p := PixTypeFromCode(pixType).value;
      var w := r.(details := Some(WithdrawalDetails(r.id, p, pixKey)));
      assert accs' == Booked(accs, m, Effect(w, accs[m].id));
      if UniqueIds(accs) && Balanced(rows, accs) {
        BookKeepsBalanced(rows, accs, m, w);
      }
      if NonNegative(accs) {
        BookedKeepsNonNegative(accs, m, Effect(w, accs[m].id));
      }
    }
  }

  /** The rule of the deposit request: from R$ 0,01 to R$ 999.999,99. */
  predicate ValidDepositAmount(amount: int) {
    MinAmount <= amount <= MaxDepositAmount
  }

  /**
   * The client endpoint's checks, in its order: the form request (amount at least R$ 0,01,
   * key type and key present), the 06:00 conversion of a scheduled date, then the balance,
   * which is checked for scheduled withdrawals as well.
   */
  function ClientDecision(amount: int, pixType: Option<string>, pixKey: Option<string>, scheduledAt: Option<string>,
                          balance: int): (d: Decision)
  {
    if amount < MinAmount || !Present(pixType) || !Present(pixKey) then Reject(422, InvalidData)
    else if IsScheduled(scheduledAt) then
      match CreateScheduledAt(scheduledAt.value)
      case None => Reject(500, SetTimeOnBool)
      case Some(t) => if balance < amount then Reject(422, InsufficientBalance) else Accept(Some(t))
    else if balance < amount then Reject(422, InsufficientBalance)
    else Accept(None)
  }

  /** The client endpoint goes ahead only when the balance covers the amount, scheduled or not. */
  lemma ClientChecksBalance(amount: int, pixType: Option<string>, pixKey: Option<string>, scheduledAt: Option<string>,
                            balance: int)
    ensures var d := ClientDecision(amount, pixType, pixKey, scheduledAt, balance);
      d.Accept? <==> amount >= MinAmount && Present(pixType) && Present(pixKey) && balance >= amount
                     && (IsScheduled(scheduledAt) ==> ParseYmd(scheduledAt.value).Some?)
    ensures var d := ClientDecision(amount, pixType, pixKey, scheduledAt, balance);
      d.Accept? ==> (d.scheduledAt.Some? <==> IsScheduled(scheduledAt))
  {
  }

  /**
   * A scheduled withdrawal of the client endpoint is due at 06:00:00 of the date `createFromFormat`
   * reads, which is the very date a well-formed `Y-m-d` text names.
   */
  lemma ClientSchedulesAtSix(amount: int, pixType: Option<string>, pixKey: Option<string>, scheduledAt: Option<string>,
                             balance: int)
    requires ClientDecision(amount, pixType, pixKey, scheduledAt, balance).Accept?
    requires IsScheduled(scheduledAt)
    ensures var t := ClientDecision(amount, pixType, pixKey, scheduledAt, balance).scheduledAt;
      && t.Some? && t.value.hour == 6 && t.value.minute == 0 && t.value.second == 0
      && t.value.date == ParseYmd(scheduledAt.value).value
      && (YmdShape(scheduledAt.value) && ValidDate(YmdFields(scheduledAt.value)) ==> t.value.date == YmdFields(scheduledAt.value))
  {
    if YmdShape(scheduledAt.value) && ValidDate(YmdFields(scheduledAt.value)) {
      ParseYmdStrict(scheduledAt.value);
    }
  }

  /** A date the client endpoint cannot read ends in the uncaught `setTime()` Error, before the balance is looked at. */
  lemma ClientUnreadableDate(amount: int, pixType: Option<string>, pixKey: Option<string>, scheduledAt: Option<string>,
                             balance: int)
    requires amount >= MinAmount && Present(pixType) && Present(pixKey) && IsScheduled(scheduledAt)
    ensures ParseYmd(scheduledAt.value).None?
        <==> ClientDecision(amount, pixType, pixKey, scheduledAt, balance) == Reject(500, SetTimeOnBool)
  {
  }

  /** The scheduling window of the older controller: strictly after today, at most seven days ahead, comparing `Y-m-d` texts. */
  predicate InWindow(date: Date, today: Date)
    requires ValidDate(today)
  {
    !LexLeq(FormatYmd(date), FormatYmd(today)) && !LexLess(FormatYmd(AddDays(today, MaxScheduleDays)), FormatYmd(date))
  }

  /**
   * The older controller's checks, in its order: the token, a positive amount, a non-empty key,
   * the account, then for a scheduled withdrawal the readable date and the window, and for an
   * immediate one the balance. Scheduled withdrawals are not checked against the balance.
   */
  function LegacyDecision(authenticated: bool, balance: Option<int>, amount: int, pixKey: Option<string>,
                          scheduledAt: Option<string>, now: DateTime): (d: Decision)
    requires ValidDateTime(now)
  {
    if !authenticated then Reject(401, InvalidToken)
    else if amount <= 0 then Reject(400, AmountNotPositive)
    else if pixKey.None? || PhpEmpty(pixKey.value) then Reject(400, PixKeyRequired)
    else if balance.None? then Reject(404, AccountNotFound)
    else if IsScheduled(scheduledAt) then
      match ParseDateTime(scheduledAt.value)
      case None => Reject(500, InternalError)
      case Some(t) =>
        if LexLeq(FormatYmd(t.date), FormatYmd(now.date)) then Reject(400, NotInFuture)
        else if LexLess(FormatYmd(AddDays(now.date, MaxScheduleDays)), FormatYmd(t.date)) then Reject(400, BeyondSevenDays)
        else Accept(Some(t))
    else if balance.value < amount then Reject(400, InsufficientBalance)
    else Accept(None)
  }

  /** Scheduling through the older controller does not look at the balance, and keeps the time as given. */
  lemma LegacyScheduledIgnoresBalance(authenticated: bool, b1: int, b2: int, amount: int, pixKey: Option<string>,
                                      scheduledAt: Option<string>, now: DateTime)
    requires ValidDateTime(now) && IsScheduled(scheduledAt)
    ensures LegacyDecision(authenticated, Some(b1), amount, pixKey, scheduledAt, now)
         == LegacyDecision(authenticated, Some(b2), amount, pixKey, scheduledAt, now)
    ensures var d := LegacyDecision(authenticated, Some(b1), amount, pixKey, scheduledAt, now);
      d.Accept? ==> d.scheduledAt.Some? && ParseDateTime(scheduledAt.value) == d.scheduledAt
  {
  }

  /** The older controller debits an immediate withdrawal only when the balance covers it. */
  lemma LegacyImmediateChecksBalance(authenticated: bool, balance: Option<int>, amount: int, pixKey: Option<string>,
                                     scheduledAt: Option<string>, now: DateTime)
    requires ValidDateTime(now)
    ensures var d := LegacyDecision(authenticated, balance, amount, pixKey, scheduledAt, now);
      d.Accept? && d.scheduledAt.None? ==> !IsScheduled(scheduledAt) && balance.Some? && balance.value >= amount > 0
  {
  }

  /** `<=` on `Y-m-d` texts is the order of the days. */
  lemma NotAfterByText(a: Date, b: Date)
    requires ValidDate(a) && ValidDate(b) && a.year < 10000 && b.year < 10000
    ensures LexLeq(FormatYmd(a), FormatYmd(b)) <==> DayNumber(a) <= DayNumber(b)
  {
    DayNumberOrder(a, b);
    FormatOrder(a, b);
    FormatInjective(a, b);
  }

  /** The window's last day is a valid date no earlier than today. */
  lemma WindowEnd(today: Date)
    requires ValidDate(today)
    ensures DayNumber(AddDays(today, MaxScheduleDays)) == DayNumber(today) + 7
    ensures today.year <= AddDays(today, MaxScheduleDays).year <= today.year + 1
  {
    DayNumberOrder(today, AddDays(today, MaxScheduleDays));
    YearAfter(today, AddDays(today, MaxScheduleDays));
  }

  /**
   * Comparing the texts is comparing the days: a date is inside the window exactly when it
   * falls on one of the seven days after today (for years the four-digit `Y` can render).
   */
  lemma WindowIsSevenDays(date: Date, today: Date)
    requires ValidDate(date) && ValidDate(today) && date.year < 10000 && today.year < 9999
    ensures InWindow(date, today) <==> DayNumber(today) < DayNumber(date) <= DayNumber(today) + 7
  {
    var last := AddDays(today, MaxScheduleDays);
    WindowEnd(today);
    NotAfterByText(date, today);
    FormatOrder(last, date);
  }

  /** Tomorrow and the seventh day are inside the window; today and the eighth day are not. */
  lemma WindowEdges(today: Date)
    requires ValidDate(today) && today.year < 9999
    ensures InWindow(NextDay(today), today) && InWindow(AddDays(today, MaxScheduleDays), today)
    ensures !InWindow(today, today) && !InWindow(NextDay(AddDays(today, MaxScheduleDays)), today)
  {
    var first, last := NextDay(today), AddDays(today, MaxScheduleDays);
    var after := NextDay(last);
    WindowEnd(today);
    YearAfter(today, first);
    YearAfter(today, after);
    WindowIsSevenDays(first, today);
    WindowIsSevenDays(last, today);
    WindowIsSevenDays(today, today);
    WindowIsSevenDays(after, today);
  }

  /** The window test of the decision is `InWindow` on the scheduled date. */
  lemma LegacyWindow(balance: int, amount: int, pixKey: Option<string>, scheduledAt: Option<string>, now: DateTime)
    requires ValidDateTime(now) && IsScheduled(scheduledAt) && amount > 0 && pixKey.Some? && !PhpEmpty(pixKey.value)
    requires ParseDateTime(scheduledAt.value).Some?
    ensures LegacyDecision(true, Some(balance), amount, pixKey, scheduledAt, now).Accept?
        <==> InWindow(ParseDateTime(scheduledAt.value).value.date, now.date)
  {
  }

  /** A row the cancellation may pick: the caller's withdrawal with that id, still PENDENTE. */
  predicate Cancellable(r: TxRow, id: int, userId: nat) {
    r.id == id && r.userId == userId && r.kind == Saque && r.status == Pendente
  }

  /** The position of the first cancellable row, as the query with its four filters and `first()` finds it. */
  function FindCancellable(rows: seq<TxRow>, id: int, userId: nat): (r: Option<nat>)
    ensures r.Some? ==> r.value < |rows| && Cancellable(rows[r.value], id, userId)
    ensures r.None? <==> forall i :: 0 <= i < |rows| ==> !Cancellable(rows[i], id, userId)
  {
    if rows == [] then None
    else if Cancellable(rows[0], id, userId) then Some(0)
    else match FindCancellable(rows[1..], id, userId)
      case None => None
      case Some(j) => Some(j + 1)
  }

  /**
   * `CancelScheduledWithdrawalRequest`: `transaction_id` required and at least 1, then the
   * eligibility check of `validateTransaction`; on success, the position of the transaction
   * that `getValidatedTransaction` hands to the controller. Every failure answers 422 with its
   * first message. The status re-check after the query is kept as written.
   */
  function ValidateCancellation(rows: seq<TxRow>, id: Option<int>, user: Option<nat>): (r: Outcome<nat>)
    ensures r.Ok? ==> r.value < |rows|
  {
    match id
    case None => Fail(422, IdRequired)
    case Some(n) =>
      if n < 1 then Fail(422, IdNotPositive)
      else match user
        case None => Fail(422, NotAuthenticated)
        case Some(u) =>
          match FindCancellable(rows, n, u)
          case None => Fail(422, NotCancellable)
          case Some(k) => if rows[k].status != Pendente then Fail(422, AlreadyProcessed) else Ok(k)
  }

  /**
   * A cancellation is accepted exactly when an id of at least 1 and a user are given and one
   * of the user's withdrawals with that id is still PENDENTE; what it picks is such a row.
   * Another user's row and a settled one are refused alike, and the re-check never fires.
   */
  lemma ValidateCancellationExact(rows: seq<TxRow>, id: Option<int>, user: Option<nat>)
    ensures var v := ValidateCancellation(rows, id, user);
      v.Ok? <==> id.Some? && id.value >= 1 && user.Some?
                 && exists i :: 0 <= i < |rows| && Cancellable(rows[i], id.value, user.value)
    ensures var v := ValidateCancellation(rows, id, user);
      v.Ok? ==> Cancellable(rows[v.value], id.value, user.value)
    ensures ValidateCancellation(rows, id, user) != Fail(422, AlreadyProcessed)
  {
  }

  /** The older controller's cancellation checks: token, a non-zero id, the query, and a status re-check. */
  function LegacyCancelDecision(rows: seq<TxRow>, user: Option<nat>, id: int): (r: Outcome<nat>)
    ensures r.Ok? ==> r.value < |rows|
  {
    if user.None? then Fail(401, InvalidToken)
    else if id == 0 then Fail(400, IdRequired)
    else match FindCancellable(rows, id, user.value)
      case None => Fail(404, LegacyNotCancellable)
      case Some(k) => if rows[k].status != Pendente then Fail(400, LegacyAlreadyProcessed) else Ok(k)
  }

  /** The older cancellation picks the caller's PENDENTE withdrawal with that id, and its status re-check never fires. */
  lemma LegacyCancelExact(rows: seq<TxRow>, user: Option<nat>, id: int)
    ensures var v := LegacyCancelDecision(rows, user, id);
      v.Ok? <==> user.Some? && id != 0 && exists i :: 0 <= i < |rows| && Cancellable(rows[i], id, user.value)
    ensures var v := LegacyCancelDecision(rows, user, id);
      v.Ok? ==> Cancellable(rows[v.value], id, user.value)
    ensures LegacyCancelDecision(rows, user, id) != Fail(400, LegacyAlreadyProcessed)
  {
  }

  /** The update of a cancellation: CANCELADO now, with the user's reason. */
  function Cancelled(r: TxRow, now: DateTime): TxRow {
    r.(status := Cancelado, processedAt := Some(now), failureReason := Some(CancelledByUser))
  }

  /** Cancelling a PENDENTE row changes no balance the rows account for, and the batch never selects it again. */
  lemma CancelKeepsBooks(rows: seq<TxRow>, accs: seq<AccountRow>, k: nat, now: DateTime, later: DateTime)
    requires k < |rows| && rows[k].status == Pendente && Balanced(rows, accs)
    ensures Balanced(rows[k := Cancelled(rows[k], now)], accs)
    ensures !Due(Cancelled(rows[k], now), later)
  {
    forall i | 0 <= i < |accs|
      ensures accs[i].balance == Net(rows[k := Cancelled(rows[k], now)], accs[i].id)
    {
      NetUpdate(rows, k, Cancelled(rows[k], now), accs[i].id);
    }
  }

  /** The update of the row at position k to CANCELADO; nothing else changes. */
  method CancelAt(store: Store, k: nat, now: DateTime, ghost rows: seq<TxRow>, ghost accs: seq<AccountRow>)
    requires store.Valid() && k < |store.transactions|
    requires rows == store.TxRows() && accs == store.AccountRows()
    modifies store.transactions[k]
    ensures store.TxRows() == rows[k := Cancelled(rows[k], now)]
    ensures store.AccountRows() == accs
  {
    var t := store.transactions[k];
    t.status := Cancelado;
    t.processedAt := Some(now);
    t.failureReason := Some(CancelledByUser);
    forall i | 0 <= i < |store.transactions| && i != k
      ensures store.TxRows()[i] == rows[i]
    {
      TransactionsDistinct(store, i, k);
    }
  }

  /**
   * Writes a withdrawal whose checks passed: the row, then its details, then (immediate ones
   * only) the debit through `subtractBalance`, whose result is not looked at; the balance was
   * checked before, so the debit always happens.
   */
  method WriteWithdrawal(store: Store, userId: nat, ghost m: nat, account: Account, amount: int,
                         at: Option<DateTime>, pixType: string, pixKey: string, now: DateTime)
    returns (o: Outcome<TxRow>)
    requires store.Valid() && m < |store.accounts| && store.accounts[m] == account
    requires at.None? ==> account.HasSufficientBalance(amount)
    modifies store, account
    ensures store.Valid()
    ensures m < |old(store.AccountRows())|
    ensures WithdrawalWritten(old(store.TxRows()), old(store.AccountRows()), m,
                              WithdrawalRow(old(store.nextTxId), userId, account.id, amount, at, now),
                              pixType, pixKey, o, store.TxRows(), store.AccountRows())
    ensures at.Some? ==> store.AccountRows() == old(store.AccountRows())
    ensures store.users == old(store.users) && store.accounts == old(store.accounts)
  {
    ghost var rows, accs := store.TxRows(), store.AccountRows();
    var status := if at.Some? then Pendente else Processado;
    var processedAt := if at.Some? then None else Some(now);
    var t := Record(store, userId, account, Saque, amount, status, at, processedAt, now, rows, accs);
    o := AttachPix(store, m, account, t, WithdrawalRow(t.id, userId, account.id, amount, at, now), pixType, pixKey, rows, accs);
  }

  /** The second half of a withdrawal: the PIX details of the row `r` just inserted, then the debit. */
  method AttachPix(store: Store, ghost m: nat, account: Account, t: Transaction, ghost r: TxRow,
                   pixType: string, pixKey: string, ghost rows: seq<TxRow>, ghost accs: seq<AccountRow>)
    returns (o: Outcome<TxRow>)
    requires store.Valid() && m < |store.accounts| && store.accounts[m] == account
    requires |store.transactions| > 0 && store.transactions[|store.transactions| - 1] == t
    requires t.Row(None) == r && r.kind == Saque && r.accountId == account.id && r.id == t.id
    requires r.status == Processado ==> account.HasSufficientBalance(r.amount)
    requires store.TxRows() == rows + [r] && store.AccountRows() == accs
    modifies store, account
    ensures store.Valid()
    ensures WithdrawalWritten(rows, accs, m, r, pixType, pixKey, o, store.TxRows(), store.AccountRows())
    ensures r.status != Processado ==> store.AccountRows() == accs
    ensures store.users == old(store.users) && store.accounts == old(store.accounts)
  {
    match PixTypeFromCode(pixType)
    case None =>
      o := Fail(500, InternalError);
    case Some(p) =>
      var w := Detail(store, t, WithdrawalDetails(t.id, p, pixKey), rows, accs);
      assert w == r.(details := Some(WithdrawalDetails(r.id, p, pixKey)));
      DebitIfProcessed(store, m, account, w, rows + [w], accs);
      o := Ok(w);
  }

  /** The details row of the withdrawal `t` just inserted; returns the row as it now reads. */
  method Detail(store: Store, t: Transaction, d: WithdrawalDetails, ghost rows: seq<TxRow>, ghost accs: seq<AccountRow>)
    returns (w: TxRow)
    requires store.Valid() && |store.transactions| > 0 && store.transactions[|store.transactions| - 1] == t
    requires d.transactionId == t.id
    requires store.TxRows() == rows + [t.Row(None)] && store.AccountRows() == accs
    modifies store
    ensures store.Valid()
    ensures w == t.Row(Some(d))
    ensures store.TxRows() == rows + [w] && store.AccountRows() == accs
    ensures store.users == old(store.users) && store.accounts == old(store.accounts)
  {
    w := t.Row(Some(d));
    Attach(store, d, rows + [t.Row(None)], accs);
    assert (rows + [t.Row(None)])[|rows| := w] == rows + [w];
  }

  /** The debit of a withdrawal row `w` of the account at position m, when it is PROCESSADO; nothing otherwise. */
  method DebitIfProcessed(store: Store, ghost m: nat, account: Account, w: TxRow,
                          ghost rows: seq<TxRow>, ghost accs: seq<AccountRow>)
    requires store.Valid() && m < |store.accounts| && store.accounts[m] == account
    requires store.TxRows() == rows && store.AccountRows() == accs
    requires w.kind == Saque && w.accountId == account.id
    requires w.status == Processado ==> account.HasSufficientBalance(w.amount)
    modifies account
    ensures store.Valid()
    ensures store.TxRows() == rows
    ensures store.AccountRows() == Booked(accs, m, Effect(w, accs[m].id))
    ensures w.status != Processado ==> store.AccountRows() == accs
  {
    if w.status == Processado {
      Debit(store, m, account, w.amount, rows, accs, Booked(accs, m, -w.amount));
    } else {
      assert Booked(accs, m, 0) == accs;
    }
  }

  /**
   * `Client\TransactionController::deposit`: a valid amount is added to the balance and one
   * DEPOSITO row, PROCESSADO now, records it; an invalid one answers 422 and changes nothing.
   */
  method ClientDeposit(store: Store, userId: nat, ghost m: nat, account: Account, amount: int, now: DateTime)
    returns (o: Outcome<TxRow>)
    requires store.Valid() && m < |store.accounts| && store.accounts[m] == account
    modifies store, account
    ensures store.Valid()
    ensures !ValidDepositAmount(amount) ==> o == Fail(422, InvalidData) && unchanged(store) && unchanged(account)
    ensures ValidDepositAmount(amount) ==>
      && o == Ok(DepositRow(old(store.nextTxId), userId, account.id, amount, now))
      && store.TxRows() == old(store.TxRows()) + [o.value]
      && store.AccountRows() == Booked(old(store.AccountRows()), m, amount)
    ensures old(Balanced(store.TxRows(), store.AccountRows())) ==> Balanced(store.TxRows(), store.AccountRows())
    ensures old(NonNegative(store.AccountRows())) ==> NonNegative(store.AccountRows())
  {
    if !ValidDepositAmount(amount) {
      return Fail(422, InvalidData);
    }
    o := Deposit(store, userId, m, account, amount, now);
  }

  /** The write of a deposit: credit the account, then record the processed row. */
  method Deposit(store: Store, userId: nat, ghost m: nat, account: Account, amount: int, now: DateTime)
    returns (o: Outcome<TxRow>)
    requires store.Valid() && m < |store.accounts| && store.accounts[m] == account
    modifies store, account
    ensures store.Valid()
    ensures o == Ok(DepositRow(old(store.nextTxId), userId, account.id, amount, now))
    ensures store.TxRows() == old(store.TxRows()) + [o.value]
    ensures store.AccountRows() == Booked(old(store.AccountRows()), m, amount)
    ensures old(Balanced(store.TxRows(), store.AccountRows())) ==> Balanced(store.TxRows(), store.AccountRows())
    ensures amount >= 0 && old(NonNegative(store.AccountRows())) ==> NonNegative(store.AccountRows())
  {
    ghost var rows, accs := store.TxRows(), store.AccountRows();
    AccountLookup(store, m);
    Credit(store, m, account, amount, rows, accs);
    var t := Record(store, userId, account, Deposito, amount, Processado, None, Some(now), now, rows, Booked(accs, m, amount));
    o := Ok(DepositRow(t.id, userId, account.id, amount, now));
    if Balanced(rows, accs) {
      BookKeepsBalanced(rows, accs, m, o.value);
    }
    if amount >= 0 && NonNegative(accs) {
      BookedKeepsNonNegative(accs, m, amount);
    }
  }

  /**
   * `Client\TransactionController::withdraw`: refuses as `ClientDecision` says, changing
   * nothing; otherwise writes the withdrawal, PENDENTE at 06:00 of the given date or
   * PROCESSADO now. A scheduled withdrawal leaves the balance alone.
   */
  method ClientWithdraw(store: Store, userId: nat, ghost m: nat, account: Account, amount: int,
                        pixType: Option<string>, pixKey: Option<string>, scheduledAt: Option<string>, now: DateTime)
    returns (o: Outcome<TxRow>)
    requires store.Valid() && m < |store.accounts| && store.accounts[m] == account
    modifies store, account
    ensures store.Valid()
    ensures var d := ClientDecision(amount, pixType, pixKey, scheduledAt, old(account.balance));
      d.Reject? ==> o == Fail(d.status, d.message) && unchanged(store) && unchanged(account)
    ensures var d := ClientDecision(amount, pixType, pixKey, scheduledAt, old(account.balance));
      d.Accept? ==>
        && m < |old(store.AccountRows())| && pixType.Some? && pixKey.Some?
        && WithdrawalWritten(old(store.TxRows()), old(store.AccountRows()), m,
                             WithdrawalRow(old(store.nextTxId), userId, account.id, amount, d.scheduledAt, now),
                             pixType.value, pixKey.value, o, store.TxRows(), store.AccountRows())
    ensures IsScheduled(scheduledAt) ==> store.AccountRows() == old(store.AccountRows())
    ensures old(NonNegative(store.AccountRows())) ==> NonNegative(store.AccountRows())
    ensures o.Ok? && old(Balanced(store.TxRows(), store.AccountRows())) ==> Balanced(store.TxRows(), store.AccountRows())
  {
    ghost var rows, accs := store.TxRows(), store.AccountRows();
    var d := ClientDecision(amount, pixType, pixKey, scheduledAt, account.balance);
    if d.Reject? {
      return Fail(d.status, d.message);
    }
    AccountLookup(store, m);
    ClientChecksBalance(amount, pixType, pixKey, scheduledAt, account.balance);
    assert accs[m].balance == account.balance >= amount;
    ghost var r := WithdrawalRow(store.nextTxId, userId, account.id, amount, d.scheduledAt, now);
    o := WriteWithdrawal(store, userId, m, account, amount, d.scheduledAt, pixType.value, pixKey.value, now);
    WrittenKeepsBooks(rows, accs, m, r, pixType.value, pixKey.value, o, store.TxRows(), store.AccountRows());
  }

  /**
   * `Client\TransactionController::cancelScheduledWithdrawal` with its form request: refuses
   * as `ValidateCancellation` says; otherwise the picked row becomes CANCELADO now with the
   * user's reason. No balance changes.
   */
  method ClientCancel(store: Store, user: Option<nat>, id: Option<int>, now: DateTime) returns (o: Outcome<TxRow>)
    requires store.Valid()
    modifies store.transactions
    ensures var rows := old(store.TxRows());
      var v := ValidateCancellation(rows, id, user);
      && (v.Fail? ==> o == Fail(v.status, v.message) && store.TxRows() == rows)
      && (v.Ok? ==> store.TxRows() == rows[v.value := Cancelled(rows[v.value], now)] && o == Ok(Cancelled(rows[v.value], now)))
    ensures store.AccountRows() == old(store.AccountRows())
  {
    ghost var rows, accs := store.TxRows(), store.AccountRows();
    var v := ValidateCancellation(store.TxRows(), id, user);
    if v.Fail? {
      return Fail(v.status, v.message);
    }
    o := Ok(Cancelled(store.TxRows()[v.value], now));
    CancelAt(store, v.value, now, rows, accs);
  }

  /** `TransactionController::deposit` (token-checked): 401, 400 for a non-positive amount, 404 without an account, otherwise the deposit. */
  method LegacyDeposit(store: Store, user: Option<nat>, amount: int, now: DateTime) returns (o: Outcome<TxRow>)
    requires store.Valid()
    modifies store, store.accounts
    ensures store.Valid()
    ensures var accs := old(store.AccountRows());
      var m := if user.Some? then FindAccount(accs, ByOwner(user.value)) else None;
      && (user.None? ==> o == Fail(401, InvalidToken))
      && (user.Some? && amount <= 0 ==> o == Fail(400, AmountNotPositive))
      && (user.Some? && amount > 0 && m.None? ==> o == Fail(404, AccountNotFound))
      && (o.Fail? ==> store.TxRows() == old(store.TxRows()) && store.AccountRows() == accs)
      && (user.Some? && amount > 0 && m.Some? ==>
            && o == Ok(DepositRow(old(store.nextTxId), user.value, accs[m.value].id, amount, now))
            && store.TxRows() == old(store.TxRows()) + [o.value]
            && store.AccountRows() == Booked(accs, m.value, amount))
    ensures old(Balanced(store.TxRows(), store.AccountRows())) ==> Balanced(store.TxRows(), store.AccountRows())
    ensures old(NonNegative(store.AccountRows())) ==> NonNegative(store.AccountRows())
  {
    if user.None? {
      return Fail(401, InvalidToken);
    }
    if amount <= 0 {
      return Fail(400, AmountNotPositive);
    }
    var m := FindAccount(store.AccountRows(), ByOwner(user.value));
    if m.None? {
      return Fail(404, AccountNotFound);
    }
    o := Deposit(store, user.value, m.value, store.accounts[m.value], amount, now);
  }

  /**
   * `TransactionController::withdraw` (token-checked): refuses as `LegacyDecision` says,
   * changing nothing; otherwise writes the withdrawal, PENDENTE at the time as given, or
   * PROCESSADO now. The key type defaults to EMAIL. A scheduled withdrawal leaves every
   * balance alone.
   */
  method LegacyWithdraw(store: Store, user: Option<nat>, amount: int, pixType: Option<string>, pixKey: Option<string>,
                        scheduledAt: Option<string>, now: DateTime)
    returns (o: Outcome<TxRow>)
    requires store.Valid() && ValidDateTime(now)
    modifies store, store.accounts
    ensures store.Valid()
    ensures var accs := old(store.AccountRows());
      var m := if user.Some? then FindAccount(accs, ByOwner(user.value)) else None;
      var d := LegacyDecision(user.Some?, if m.Some? then Some(accs[m.value].balance) else None, amount, pixKey, scheduledAt, now);
      d.Reject? ==> o == Fail(d.status, d.message) && store.TxRows() == old(store.TxRows()) && store.AccountRows() == accs
    ensures var accs := old(store.AccountRows());
      var m := if user.Some? then FindAccount(accs, ByOwner(user.value)) else None;
      var d := LegacyDecision(user.Some?, if m.Some? then Some(accs[m.value].balance) else None, amount, pixKey, scheduledAt, now);
      d.Accept? ==>
        && user.Some? && m.Some? && pixKey.Some?
        && WithdrawalWritten(old(store.TxRows()), accs, m.value,
                             WithdrawalRow(old(store.nextTxId), user.value, accs[m.value].id, amount, d.scheduledAt, now),
                             pixType.GetOr("EMAIL"), pixKey.value, o, store.TxRows(), store.AccountRows())
    ensures IsScheduled(scheduledAt) ==> store.AccountRows() == old(store.AccountRows())
    ensures old(NonNegative(store.AccountRows())) ==> NonNegative(store.AccountRows())
    ensures o.Ok? && old(Balanced(store.TxRows(), store.AccountRows())) ==> Balanced(store.TxRows(), store.AccountRows())
  {
    ghost var rows, accs := store.TxRows(), store.AccountRows();
    var m := if user.Some? then FindAccount(store.AccountRows(), ByOwner(user.value)) else None;
    var balance := if m.Some? then Some(store.accounts[m.value].balance) else None;
    assert balance == if m.Some? then Some(accs[m.value].balance) else None;
    var d := LegacyDecision(user.Some?, balance, amount, pixKey, scheduledAt, now);
    assert m == if user.Some? then FindAccount(accs, ByOwner(user.value)) else None;
    if d.Reject? {
      return Fail(d.status, d.message);
    }
    var account := store.accounts[m.value];
    AccountLookup(store, m.value);
    LegacyImmediateChecksBalance(user.Some?, balance, amount, pixKey, scheduledAt, now);
    ghost var r := WithdrawalRow(store.nextTxId, user.value, account.id, amount, d.scheduledAt, now);
    o := WriteWithdrawal(store, user.value, m.value, account, amount, d.scheduledAt, pixType.GetOr("EMAIL"), pixKey.value, now);
    WrittenKeepsBooks(rows, accs, m.value, r, pixType.GetOr("EMAIL"), pixKey.value, o, store.TxRows(), store.AccountRows());
  }

  /** `TransactionController::cancelScheduledWithdrawal` (token-checked): refuses as `LegacyCancelDecision` says, otherwise cancels the picked row. */
  method LegacyCancel(store: Store, user: Option<nat>, id: int, now: DateTime) returns (o: Outcome<TxRow>)
    requires store.Valid()
    modifies store.transactions
    ensures var rows := old(store.TxRows());
      var v := LegacyCancelDecision(rows, user, id);
      && (v.Fail? ==> o == Fail(v.status, v.message) && store.TxRows() == rows)
      && (v.Ok? ==> store.TxRows() == rows[v.value := Cancelled(rows[v.value], now)] && o == Ok(Cancelled(rows[v.value], now)))
    ensures store.AccountRows() == old(store.AccountRows())
  {
    ghost var rows, accs := store.TxRows(), store.AccountRows();
    var v := LegacyCancelDecision(store.TxRows(), user, id);
    if v.Fail? {
      return Fail(v.status, v.message);
    }
    o := Ok(Cancelled(store.TxRows()[v.value], now));
    CancelAt(store, v.value, now, rows, accs);
  }

  // ---------------------------------------------------------------- the missing `account` relation, as written

  /**
   * The older controller's `getUserFromToken`, as written: `User::with('account')->find(id)` for
   * the token's user id. An id no user has finds nothing; a stored user makes the eager load
   * raise, and the method's handler turns that into null as well. So no token ever yields a caller.
   */
  function LegacyCallerAsWritten(users: seq<Users.UserRow>, tokenUserId: Option<nat>): (caller: Option<nat>)
    ensures caller.None?
  {
    match tokenUserId
    case None => None
    case Some(id) =>
      match Users.WithAccountAsWritten(Users.FindUser(users, id))
      case Fail(_, _) => None
      case Ok(found) => if found == [] then None else Some(id)
  }

  /** As written, every withdrawal and cancellation of the older controller answers 401, whatever the token. */
  lemma LegacyRefusesEveryone(users: seq<Users.UserRow>, tokenUserId: Option<nat>, rows: seq<TxRow>,
                              balance: Option<int>, amount: int, pixKey: Option<string>, scheduledAt: Option<string>,
                              now: DateTime, id: int)
    requires ValidDateTime(now)
    ensures var caller := LegacyCallerAsWritten(users, tokenUserId);
      && LegacyDecision(caller.Some?, balance, amount, pixKey, scheduledAt, now) == Reject(401, InvalidToken)
      && LegacyCancelDecision(rows, caller, id) == Fail(401, InvalidToken)
  {
  }

  /**
   * The client area's deposit, as written: the form request's amount check (422); past it, the
   * account the middleware loaded as `$user->account` is null, since `User` declares no such
   * relation, and assigning its balance raises an Error no handler catches.
   */
  function ClientDepositAsWritten(amount: int): (o: Outcome<TxRow>)
  {
    if !ValidDepositAmount(amount) then Fail(422, InvalidData) else Fail(500, AssignBalanceOnNull)
  }

  /**
   * The client area's withdrawal, as written: the checks of `ClientDecision` up to the balance,
   * then `hasSufficientBalance` called on the null account, an Error no handler catches.
   */
  function ClientWithdrawAsWritten(amount: int, pixType: Option<string>, pixKey: Option<string>,
                                   scheduledAt: Option<string>): (o: Outcome<TxRow>)
  {
    if amount < MinAmount || !Present(pixType) || !Present(pixKey) then Fail(422, InvalidData)
    else if IsScheduled(scheduledAt) && CreateScheduledAt(scheduledAt.value).None? then Fail(500, SetTimeOnBool)
    else Fail(500, BalanceCheckOnNull)
  }

  /** As written, no client deposit goes through: it fails with a 500 wherever `ClientDeposit` would write. */
  lemma ClientDepositNeverWrites(amount: int)
    ensures ClientDepositAsWritten(amount).Fail?
    ensures ValidDepositAmount(amount) <==> ClientDepositAsWritten(amount) == Fail(500, AssignBalanceOnNull)
  {
  }

  /**
   * As written, no client withdrawal goes through: it refuses as `ClientDecision` does before
   * the balance, and fails with a 500 wherever `ClientDecision` would look at the balance.
   */
  lemma ClientWithdrawNeverWrites(amount: int, pixType: Option<string>, pixKey: Option<string>,
                                  scheduledAt: Option<string>, balance: int)
    ensures var d := ClientDecision(amount, pixType, pixKey, scheduledAt, balance);
      var o := ClientWithdrawAsWritten(amount, pixType, pixKey, scheduledAt);
      && o.Fail?
      && (d.Reject? && d.message != InsufficientBalance ==> o == Fail(d.status, d.message))
      && (d.Accept? || d.message == InsufficientBalance <==> o == Fail(500, BalanceCheckOnNull))
  {
    var d := ClientDecision(amount, pixType, pixKey, scheduledAt, balance);
    var o := ClientWithdrawAsWritten(amount, pixType, pixKey, scheduledAt);
    MessagesDiffer();
    if amount < MinAmount || !Present(pixType) || !Present(pixKey) {
      assert d == Reject(422, InvalidData) && o == Fail(422, InvalidData);
    } else if IsScheduled(scheduledAt) && CreateScheduledAt(scheduledAt.value).None? {
      assert d == Reject(500, SetTimeOnBool) && o == Fail(500, SetTimeOnBool);
    } else {
      assert o == Fail(500, BalanceCheckOnNull);
      assert d.Accept? || d.message == InsufficientBalance;
    }
  }

  /** The messages a withdrawal can end with are told apart by their lengths. */
  lemma MessagesDiffer()
    ensures InvalidData != InsufficientBalance && SetTimeOnBool != InsufficientBalance
    ensures SetTimeOnBool != BalanceCheckOnNull
  {
    assert |InvalidData| == 15 && |InsufficientBalance| == 18;
    assert |SetTimeOnBool| == 43 && |BalanceCheckOnNull| == 56;
  }
}
