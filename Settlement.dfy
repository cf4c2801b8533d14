/**
 * The `withdrawals:process-scheduled` command: every withdrawal still PENDENTE whose scheduled
 * time has come is settled against the balance of its account, as that balance stands when
 * the row's turn comes; the accounts are shared, so earlier settlements of the same run
 * reduce what later rows see.
 *
 * The pure part (`Step`, `Run`) is the specification; `Handle` runs it on the store.
 */
module Settlement {
  import opened Wrappers
  import opened Calendar
  import opened Transactions
  import opened Accounts
  import opened Ledger

  const InsufficientAtProcessing: string := "Saldo insuficiente no momento do processamento"

  /** The selection of the command: a SAQUE, still PENDENTE, with a scheduled time not after now. */
  predicate Due(r: TxRow, now: DateTime) {
    r.kind == Saque && r.status == Pendente && r.scheduledAt.Some? && Instant(r.scheduledAt.value) <= Instant(now)
  }

  /** The positions, from `from` on and in store order, of the rows the command selects. */
  function DueFrom(rows: seq<TxRow>, now: DateTime, from: nat): (r: seq<nat>)
    decreases |rows| - from
    ensures forall j :: 0 <= j < |r| ==> from <= r[j] < |rows| && Due(rows[r[j]], now)
    ensures forall k :: from <= k < |rows| && Due(rows[k], now) ==> k in r
    ensures forall j, j' :: 0 <= j < j' < |r| ==> r[j] < r[j']
  {
    if from >= |rows| then []
    else
      var rest := DueFrom(rows, now, from + 1);
      if Due(rows[from], now) then
        assert forall j :: 0 <= j < |rest| ==> from < rest[j];
        [from] + rest
      else rest
  }

  function DueIndices(rows: seq<TxRow>, now: DateTime): seq<nat> {
    DueFrom(rows, now, 0)
  }

  /** What the command carries from one row to the next. */
  datatype BatchState = BatchState(rows: seq<TxRow>, accounts: seq<AccountRow>, processed: nat, failed: nat, notified: seq<nat>)

  ghost predicate HasAccount(accs: seq<AccountRow>, id: nat) {
    exists j :: 0 <= j < |accs| && accs[j].id == id
  }

  /** Every row's account is there. */
  ghost predicate WellFormed(s: BatchState) {
    forall i :: 0 <= i < |s.rows| ==> HasAccount(s.accounts, s.rows[i].accountId)
  }

  /** `markAsFailed`, seen on the row. */
  function Failed(r: TxRow, reason: string, at: DateTime): TxRow {
    r.(status := Falhou, failureReason := Some(reason), processedAt := Some(at))
  }

  /**
   * One turn of the loop. `faults` holds the rows for which the database raises an exception
   * (its message is the value) before anything is written for that row; `clock` is the time
   * `markAsFailed` records.
   */
  function Step(s: BatchState, k: nat, faults: map<nat, string>, now: DateTime, clock: DateTime): (r: BatchState)
    requires WellFormed(s) && k < |s.rows|
    ensures |r.rows| == |s.rows| && SameIds(r.accounts, s.accounts)
    ensures WellFormed(r)
    ensures forall i :: 0 <= i < |s.rows| && i != k ==> r.rows[i] == s.rows[i]
    ensures SettledFrom(s.rows[k], r.rows[k])
    ensures r.processed + r.failed == s.processed + s.failed + 1
    ensures r.notified == s.notified + if r.rows[k].status == Processado && s.rows[k].details.Some? then [s.rows[k].id] else []
  {
    var t := s.rows[k];
    var a := FindAccount(s.accounts, ById(t.accountId)).value;
    if t.id in faults then
      s.(rows := s.rows[k := Failed(t, faults[t.id], clock)], failed := s.failed + 1)
    else if s.accounts[a].balance < t.amount then
      s.(rows := s.rows[k := Failed(t, InsufficientAtProcessing, clock)], failed := s.failed + 1)
    else
      var accounts := s.accounts[a := s.accounts[a].(balance := s.accounts[a].balance - t.amount)];
      s.(rows := s.rows[k := t.(status := Processado, processedAt := Some(now))],
         accounts := accounts,
         processed := s.processed + 1,
         notified := s.notified + if t.details.Some? then [t.id] else [])
  }

  /** The turn of a row whose account, at position m, does not cover it, or that raised. */
  lemma StepFails(s: BatchState, k: nat, m: nat, faults: map<nat, string>, now: DateTime, clock: DateTime)
    requires WellFormed(s) && k < |s.rows| && m < |s.accounts| && UniqueIds(s.accounts)
    requires s.accounts[m].id == s.rows[k].accountId
    requires s.rows[k].id in faults || s.accounts[m].balance < s.rows[k].amount
    ensures var reason := if s.rows[k].id in faults then faults[s.rows[k].id] else InsufficientAtProcessing;
      Step(s, k, faults, now, clock) == s.(rows := s.rows[k := Failed(s.rows[k], reason, clock)], failed := s.failed + 1)
  {
    FindByIdUnique(s.accounts, m);
  }

  /** The turn of a row whose account, at position m, covers it. */
  lemma StepDebits(s: BatchState, k: nat, m: nat, faults: map<nat, string>, now: DateTime, clock: DateTime)
    requires WellFormed(s) && k < |s.rows| && m < |s.accounts| && UniqueIds(s.accounts)
    requires s.accounts[m].id == s.rows[k].accountId
    requires s.rows[k].id !in faults && s.accounts[m].balance >= s.rows[k].amount
    ensures var t := s.rows[k];
      Step(s, k, faults, now, clock)
      == s.(rows := s.rows[k := t.(status := Processado, processedAt := Some(now))],
            accounts := s.accounts[m := s.accounts[m].(balance := s.accounts[m].balance - t.amount)],
            processed := s.processed + 1,
            notified := s.notified + if t.details.Some? then [t.id] else [])
  {
    FindByIdUnique(s.accounts, m);
  }

  /**
   * A path `faults` leaves out: the debit is saved, then the row's own save raises and the
   * handler's `markAsFailed` records FALHOU. The account keeps the debit while no processed row
   * accounts for it, so the books no longer balance.
   */
  lemma DebitThenFailUnbalances(rows: seq<TxRow>, accs: seq<AccountRow>, k: nat, m: nat, reason: string, clock: DateTime)
    requires Balanced(rows, accs) && k < |rows| && m < |accs| && accs[m].id == rows[k].accountId
    requires rows[k].kind == Saque && rows[k].status == Pendente && rows[k].amount != 0
    ensures !Balanced(rows[k := Failed(rows[k], reason, clock)], Booked(accs, m, -rows[k].amount))
  {
    NetUpdate(rows, k, Failed(rows[k], reason, clock), accs[m].id);
  }

  ghost predicate InRange(idx: seq<nat>, n: nat) {
    forall j :: 0 <= j < |idx| ==> idx[j] < n
  }

  /** The loop over the selected positions, in order. */
  function Run(s: BatchState, idx: seq<nat>, faults: map<nat, string>, now: DateTime, clock: DateTime): (r: BatchState)
    requires WellFormed(s) && InRange(idx, |s.rows|)
    ensures WellFormed(r) && |r.rows| == |s.rows| && SameIds(r.accounts, s.accounts)
    decreases |idx|
  {
    if idx == [] then s
    else Run(Step(s, idx[0], faults, now, clock), idx[1..], faults, now, clock)
  }

  ghost predicate Distinct(idx: seq<nat>) {
    forall j, j' :: 0 <= j < j' < |idx| ==> idx[j] != idx[j']
  }

  /** `b` is `a` after the command dealt with it: only status and the two stamps change. */
  ghost predicate SettledFrom(a: TxRow, b: TxRow) {
    && (b.status == Processado || b.status == Falhou)
    && b.processedAt.Some?
    && b == a.(status := b.status, processedAt := b.processedAt, failureReason := b.failureReason)
  }

  /** The ids, in loop order, of the rows that ended PROCESSADO and have a details row. */
  function Confirmed(rows: seq<TxRow>, idx: seq<nat>): seq<nat>
    requires InRange(idx, |rows|)
  {
    if idx == [] then []
    else
      var t := rows[idx[0]];
      (if t.status == Processado && t.details.Some? then [t.id] else []) + Confirmed(rows, idx[1..])
  }

  /** processed + failed grows by the number of rows visited. */
  lemma {:induction false} RunCounts(s: BatchState, idx: seq<nat>, faults: map<nat, string>, now: DateTime, clock: DateTime)
    requires WellFormed(s) && InRange(idx, |s.rows|)
    ensures var r := Run(s, idx, faults, now, clock);
      r.processed + r.failed == s.processed + s.failed + |idx|
    decreases |idx|
  {
    if idx != [] {
      RunCounts(Step(s, idx[0], faults, now, clock), idx[1..], faults, now, clock);
    }
  }

  /** Rows the loop does not visit are left as they were. */
  lemma {:induction false} RunLeavesOthers(s: BatchState, idx: seq<nat>, faults: map<nat, string>, now: DateTime, clock: DateTime)
    requires WellFormed(s) && InRange(idx, |s.rows|)
    ensures var r := Run(s, idx, faults, now, clock);
      forall i :: 0 <= i < |s.rows| && i !in idx ==> r.rows[i] == s.rows[i]
    decreases |idx|
  {
    if idx != [] {
      var s1 := Step(s, idx[0], faults, now, clock);
      RunLeavesOthers(s1, idx[1..], faults, now, clock);
      forall i | 0 <= i < |s.rows| && i !in idx
        ensures i !in idx[1..] && s1.rows[i] == s.rows[i]
      {
      }
    }
  }

  /**
   * Each visited row is settled, PROCESSADO or FALHOU, with everything but its status and
   * stamps unchanged.
   */
  lemma {:induction false} RunSettles(s: BatchState, idx: seq<nat>, faults: map<nat, string>, now: DateTime, clock: DateTime)
    requires WellFormed(s) && InRange(idx, |s.rows|) && Distinct(idx)
    ensures var r := Run(s, idx, faults, now, clock);
      forall i :: 0 <= i < |s.rows| && i in idx ==> SettledFrom(s.rows[i], r.rows[i])
    decreases |idx|
  {
    if idx != [] {
      var s1 := Step(s, idx[0], faults, now, clock);
      assert Distinct(idx[1..]);
      RunSettles(s1, idx[1..], faults, now, clock);
      RunLeavesOthers(s1, idx[1..], faults, now, clock);
      assert idx[0] !in idx[1..];
      assert forall i :: i in idx <==> i == idx[0] || i in idx[1..];
    }
  }

  /** A confirmation goes out exactly for the visited rows that ended PROCESSADO and have details. */
  lemma {:induction false} RunNotifies(s: BatchState, idx: seq<nat>, faults: map<nat, string>, now: DateTime, clock: DateTime)
    requires WellFormed(s) && InRange(idx, |s.rows|) && Distinct(idx)
    ensures var r := Run(s, idx, faults, now, clock);
      r.notified == s.notified + Confirmed(r.rows, idx)
    decreases |idx|
  {
    if idx != [] {
      var s1 := Step(s, idx[0], faults, now, clock);
      var r := Run(s1, idx[1..], faults, now, clock);
      assert Distinct(idx[1..]);
      RunNotifies(s1, idx[1..], faults, now, clock);
      RunLeavesOthers(s1, idx[1..], faults, now, clock);
      assert idx[0] !in idx[1..];
      var t := s1.rows[idx[0]];
      assert r.rows[idx[0]] == t;
      var head := if t.status == Processado && t.details.Some? then [t.id] else [];
      assert s1.notified == s.notified + head;
      assert Confirmed(r.rows, idx) == head + Confirmed(r.rows, idx[1..]);
      AppendAssoc(s.notified, head, Confirmed(r.rows, idx[1..]));
    }
  }

  lemma AppendAssoc(a: seq<nat>, b: seq<nat>, c: seq<nat>)
    ensures (a + b) + c == a + (b + c)
  {
  }

  /** A visited row is no longer PENDENTE, so no later run, at any time, selects it again. */
  lemma RunNeverReselects(s: BatchState, idx: seq<nat>, faults: map<nat, string>, now: DateTime, clock: DateTime, later: DateTime)
    requires WellFormed(s) && InRange(idx, |s.rows|) && Distinct(idx)
    ensures var r := Run(s, idx, faults, now, clock);
      forall i :: 0 <= i < |s.rows| && i in idx ==> !Due(r.rows[i], later)
  {
    RunSettles(s, idx, faults, now, clock);
  }

  /** No row due: nothing is selected. */
  lemma {:induction false} NothingSelected(rows: seq<TxRow>, now: DateTime, from: nat)
    requires forall k :: from <= k < |rows| ==> !Due(rows[k], now)
    ensures DueFrom(rows, now, from) == []
    decreases |rows| - from
  {
    if from < |rows| {
      NothingSelected(rows, now, from + 1);
    }
  }

  /** After a run over the selection, nothing is due any more at the same time. */
  lemma RunLeavesNothingDue(s: BatchState, faults: map<nat, string>, now: DateTime, clock: DateTime)
    requires WellFormed(s)
    ensures var idx := DueIndices(s.rows, now);
      DueIndices(Run(s, idx, faults, now, clock).rows, now) == []
  {
    var idx := DueIndices(s.rows, now);
    assert InRange(idx, |s.rows|) && Distinct(idx);
    RunSettles(s, idx, faults, now, clock);
    RunLeavesOthers(s, idx, faults, now, clock);
    var r := Run(s, idx, faults, now, clock);
    forall k | 0 <= k < |r.rows| ensures !Due(r.rows[k], now) {
      if k in idx { assert SettledFrom(s.rows[k], r.rows[k]); } else { assert r.rows[k] == s.rows[k]; }
    }
    NothingSelected(r.rows, now, 0);
  }

  /** A debit happens only when the balance covers it, so no balance becomes negative. */
  lemma {:induction false} RunKeepsBalancesNonNegative(s: BatchState, idx: seq<nat>, faults: map<nat, string>, now: DateTime, clock: DateTime)
    requires WellFormed(s) && InRange(idx, |s.rows|) && NonNegative(s.accounts)
    ensures NonNegative(Run(s, idx, faults, now, clock).accounts)
    decreases |idx|
  {
    if idx != [] {
      var s1 := Step(s, idx[0], faults, now, clock);
      assert NonNegative(s1.accounts);
      RunKeepsBalancesNonNegative(s1, idx[1..], faults, now, clock);
    }
  }

  /** The rows at the given positions are withdrawals still PENDENTE. */
  ghost predicate PendingAt(rows: seq<TxRow>, idx: seq<nat>)
    requires InRange(idx, |rows|)
  {
    forall j :: 0 <= j < |idx| ==> rows[idx[j]].kind == Saque && rows[idx[j]].status == Pendente
  }

  /** What a balance exceeds the processed rows of its account by. */
  function Slack(rows: seq<TxRow>, a: AccountRow): int {
    a.balance - Net(rows, a.id)
  }

  /** One turn keeps every account's slack: a debit comes with its row turning PROCESSADO. */
  lemma StepKeepsBooks(s: BatchState, k: nat, faults: map<nat, string>, now: DateTime, clock: DateTime)
    requires WellFormed(s) && k < |s.rows| && UniqueIds(s.accounts)
    requires s.rows[k].kind == Saque && s.rows[k].status == Pendente
    ensures var r := Step(s, k, faults, now, clock);
      forall i :: 0 <= i < |s.accounts| ==> Slack(r.rows, r.accounts[i]) == Slack(s.rows, s.accounts[i])
  {
    var r := Step(s, k, faults, now, clock);
    var t := s.rows[k];
    var a := FindAccount(s.accounts, ById(t.accountId)).value;
    assert r.rows == s.rows[k := r.rows[k]];
    forall i | 0 <= i < |s.accounts|
      ensures Slack(r.rows, r.accounts[i]) == Slack(s.rows, s.accounts[i])
    {
      NetUpdate(s.rows, k, r.rows[k], s.accounts[i].id);
      if i != a {
        assert s.accounts[i].id != s.accounts[a].id;
      }
    }
  }

  /**
   * Every debit is matched by a row turning PROCESSADO, once: the difference between each
   * balance and what its processed rows account for is the same before and after a run.
   */
  lemma {:induction false} RunKeepsBooks(s: BatchState, idx: seq<nat>, faults: map<nat, string>, now: DateTime, clock: DateTime)
    requires WellFormed(s) && InRange(idx, |s.rows|) && Distinct(idx) && PendingAt(s.rows, idx)
    requires UniqueIds(s.accounts)
    ensures var r := Run(s, idx, faults, now, clock);
      forall i :: 0 <= i < |s.accounts| ==> Slack(r.rows, r.accounts[i]) == Slack(s.rows, s.accounts[i])
    decreases |idx|
  {
    if idx != [] {
      var k := idx[0];
      var s1 := Step(s, k, faults, now, clock);
      StepKeepsBooks(s, k, faults, now, clock);
      assert UniqueIds(s1.accounts) by {
        assert SameIds(s1.accounts, s.accounts);
      }
      assert Distinct(idx[1..]);
      forall j | 0 <= j < |idx[1..]|
        ensures s1.rows[idx[1..][j]] == s.rows[idx[1..][j]]
      {
        assert idx[1..][j] == idx[j + 1] != idx[0];
      }
      assert PendingAt(s1.rows, idx[1..]) by {
        forall j | 0 <= j < |idx[1..]|
          ensures s1.rows[idx[1..][j]].kind == Saque && s1.rows[idx[1..][j]].status == Pendente
        {
          assert idx[1..][j] == idx[j + 1];
        }
      }
      RunKeepsBooks(s1, idx[1..], faults, now, clock);
    }
  }

  /** Hence a run over the selection keeps every balance equal to what its processed rows account for. */
  lemma RunKeepsBalanced(s: BatchState, faults: map<nat, string>, now: DateTime, clock: DateTime)
    requires WellFormed(s) && UniqueIds(s.accounts) && Balanced(s.rows, s.accounts)
    ensures var r := Run(s, DueIndices(s.rows, now), faults, now, clock);
      Balanced(r.rows, r.accounts)
  {
    var idx := DueIndices(s.rows, now);
    RunKeepsBooks(s, idx, faults, now, clock);
    var r := Run(s, idx, faults, now, clock);
    forall i | 0 <= i < |r.accounts|
      ensures r.accounts[i].balance == Net(r.rows, r.accounts[i].id)
    {
      assert Slack(r.rows, r.accounts[i]) == Slack(s.rows, s.accounts[i]);
    }
  }

  /** The store's rows and accounts form a state the command can run on. */
  lemma StoreWellFormed(store: Store)
    requires store.Valid()
    ensures WellFormed(BatchState(store.TxRows(), store.AccountRows(), 0, 0, []))
  {
    var rows := store.TxRows();
    var accs := store.AccountRows();
    forall i | 0 <= i < |rows|
      ensures HasAccount(accs, rows[i].accountId)
    {
      assert rows[i].accountId == store.transactions[i].account.id;
      var m :| 0 <= m < |store.accounts| && store.accounts[m] == store.transactions[i].account;
      assert accs[m].id == rows[i].accountId;
    }
  }

  /**
   * `markAsFailed` on the row at position k; nothing else changes. The ghost parameters name
   * the rows and accounts as they stand at the call.
   */
  method FailAt(store: Store, k: nat, reason: string, at: DateTime, ghost rows: seq<TxRow>, ghost accs: seq<AccountRow>)
    requires store.Valid() && k < |store.transactions|
    requires rows == store.TxRows() && accs == store.AccountRows()
    modifies store.transactions[k]
    ensures store.TxRows() == rows[k := Failed(rows[k], reason, at)]
    ensures store.AccountRows() == accs
  {
    var t := store.transactions[k];
    t.MarkAsFailed(reason, at);
    forall i | 0 <= i < |store.transactions| && i != k
      ensures store.TxRows()[i] == rows[i]
    {
      TransactionsDistinct(store, i, k);
    }
  }

  /** The PROCESSADO stamp on the row at position k; nothing else changes. */
  method StampProcessed(store: Store, k: nat, now: DateTime, ghost rows: seq<TxRow>, ghost accs: seq<AccountRow>)
    requires store.Valid()
    requires k < |store.transactions|
    requires rows == store.TxRows()
    requires accs == store.AccountRows()
    modifies store.transactions[k]
    ensures store.TxRows() == rows[k := rows[k].(status := Processado, processedAt := Some(now))]
    ensures store.AccountRows() == accs
  {
    var t := store.transactions[k];
    t.status := Processado;
    t.processedAt := Some(now);
    forall i | 0 <= i < |store.transactions| && i != k
      ensures store.TxRows()[i] == rows[i]
    {
      TransactionsDistinct(store, i, k);
    }
  }

  /** What the turn of the row at position k reads: its row, and the position m of its account. */
  lemma TurnFacts(store: Store, k: nat) returns (m: nat)
    requires store.Valid() && k < |store.transactions|
    ensures m < |store.accounts| && store.accounts[m] == store.transactions[k].account
    ensures UniqueIds(store.AccountRows())
    ensures var t := store.transactions[k];
      && store.TxRows()[k] == t.Row(DetailsFor(store.details, t.id))
      && store.AccountRows()[m] == AccountRow(t.account.id, t.account.userId, t.account.balance)
  {
    assert store.transactions[k].account in store.accounts;
    m :| 0 <= m < |store.accounts| && store.accounts[m] == store.transactions[k].account;
    AccountLookup(store, m);
  }

  /** The turn of a row that raised or that its account, at position m, does not cover. */
  method FailTurn(store: Store, k: nat, ghost m: nat, faults: map<nat, string>, now: DateTime, clock: DateTime,
                  reason: string, ghost cur: BatchState, processed0: nat, failed0: nat, notified0: seq<nat>)
    returns (processed: nat, failed: nat, notified: seq<nat>)
    requires cur.processed == processed0 && cur.failed == failed0 && cur.notified == notified0
    requires store.Valid() && k < |store.transactions| && m < |store.accounts|
    requires cur.rows == store.TxRows() && cur.accounts == store.AccountRows() && WellFormed(cur)
    requires UniqueIds(cur.accounts) && cur.accounts[m].id == cur.rows[k].accountId
    requires cur.rows[k].id in faults || cur.accounts[m].balance < cur.rows[k].amount
    requires reason == if cur.rows[k].id in faults then faults[cur.rows[k].id] else InsufficientAtProcessing
    modifies store.transactions[k]
    ensures BatchState(store.TxRows(), store.AccountRows(), processed, failed, notified) == Step(cur, k, faults, now, clock)
  {
    StepFails(cur, k, m, faults, now, clock);
    FailAt(store, k, reason, clock, cur.rows, cur.accounts);
    processed, failed, notified := processed0, failed0 + 1, notified0;
  }

  /** The turn of a row that its account, at position m, covers: debit, then the PROCESSADO stamp. */
  method DebitTurn(store: Store, k: nat, ghost m: nat, faults: map<nat, string>, now: DateTime, clock: DateTime,
                   ghost cur: BatchState, processed0: nat, failed0: nat, notified0: seq<nat>, confirmation: seq<nat>)
    returns (processed: nat, failed: nat, notified: seq<nat>)
    requires cur.processed == processed0 && cur.failed == failed0 && cur.notified == notified0
    requires store.Valid() && k < |store.transactions| && m < |store.accounts|
    requires store.accounts[m] == store.transactions[k].account
    requires cur.rows == store.TxRows() && cur.accounts == store.AccountRows() && WellFormed(cur)
    requires confirmation == if cur.rows[k].details.Some? then [cur.rows[k].id] else []
    requires UniqueIds(cur.accounts) && cur.accounts[m].id == cur.rows[k].accountId
    requires cur.rows[k].amount == store.transactions[k].amount
    requires cur.accounts[m].balance == store.accounts[m].balance
    requires cur.rows[k].id !in faults && cur.accounts[m].balance >= cur.rows[k].amount
    modifies store.transactions[k], store.transactions[k].account
    ensures BatchState(store.TxRows(), store.AccountRows(), processed, failed, notified) == Step(cur, k, faults, now, clock)
  {
    var t := store.transactions[k];
    StepDebits(cur, k, m, faults, now, clock);
    ghost var r := Step(cur, k, faults, now, clock);
    ghost var stamped := cur.rows[k := cur.rows[k].(status := Processado, processedAt := Some(now))];
    ghost var debited := cur.accounts[m := cur.accounts[m].(balance := cur.accounts[m].balance - t.amount)];
    assert r.rows == stamped && r.accounts == debited;
    Debit(store, m, t.account, t.amount, cur.rows, cur.accounts, debited);
    StampProcessed(store, k, now, cur.rows, debited);
    assert store.TxRows() == stamped;
    processed, failed, notified := processed0 + 1, failed0, notified0 + confirmation;
  }

  /**
   * One turn of the loop body of `handle`, on the row at position k: it carries the counters
   * and the confirmations from the previous turn to the next, as `Step` does.
   */
  method SettleOne(store: Store, k: nat, faults: map<nat, string>, now: DateTime, clock: DateTime,
                   processed: nat, failed: nat, notified: seq<nat>)
    returns (processed': nat, failed': nat, notified': seq<nat>)
    requires store.Valid() && k < |store.transactions|
    requires WellFormed(BatchState(store.TxRows(), store.AccountRows(), processed, failed, notified))
    modifies store.transactions[k], store.transactions[k].account
    ensures BatchState(store.TxRows(), store.AccountRows(), processed', failed', notified')
         == Step(BatchState(old(store.TxRows()), old(store.AccountRows()), processed, failed, notified), k, faults, now, clock)
  {
    ghost var cur := BatchState(store.TxRows(), store.AccountRows(), processed, failed, notified);
    var t := store.transactions[k];
    ghost var m := TurnFacts(store, k);
    assert cur.rows[k].id == t.id && cur.rows[k].details == DetailsFor(store.details, t.id);
    if t.id in faults || !t.account.HasSufficientBalance(t.amount) {
      var reason := if t.id in faults then faults[t.id] else InsufficientAtProcessing;
      processed', failed', notified' := FailTurn(store, k, m, faults, now, clock, reason, cur, processed, failed, notified);
    } else {
      var confirmation := if DetailsFor(store.details, t.id).Some? then [t.id] else [];
      processed', failed', notified' := DebitTurn(store, k, m, faults, now, clock, cur, processed, failed, notified, confirmation);
    }
  }

  /** One more turn of the loop: the run from position j is the step at j, then the run from j + 1. */
  lemma RunFrom(s: BatchState, idx: seq<nat>, j: nat, faults: map<nat, string>, now: DateTime, clock: DateTime)
    requires WellFormed(s) && InRange(idx, |s.rows|) && j < |idx|
    ensures InRange(idx[j..], |s.rows|) && InRange(idx[j + 1..], |s.rows|)
    ensures Run(s, idx[j..], faults, now, clock) == Run(Step(s, idx[j], faults, now, clock), idx[j + 1..], faults, now, clock)
  {
    assert idx[j..][1..] == idx[j + 1..];
  }

  /**
   * The `foreach` of `handle` over the selected positions: each row is settled in turn, and
   * the end state is that of `Run`.
   */
  method SettleAll(store: Store, selected: seq<nat>, faults: map<nat, string>, now: DateTime, clock: DateTime)
    returns (processed: nat, failed: nat, notified: seq<nat>)
    requires store.Valid() && InRange(selected, |store.transactions|)
    requires WellFormed(BatchState(store.TxRows(), store.AccountRows(), 0, 0, []))
    modifies store.transactions, store.accounts
    ensures var fin := Run(BatchState(old(store.TxRows()), old(store.AccountRows()), 0, 0, []), selected, faults, now, clock);
      && store.TxRows() == fin.rows && store.AccountRows() == fin.accounts
      && processed == fin.processed && failed == fin.failed && notified == fin.notified
  {
    ghost var init := BatchState(store.TxRows(), store.AccountRows(), 0, 0, []);
    processed, failed, notified := 0, 0, [];
    var j := 0;
    while j < |selected|
      invariant 0 <= j <= |selected|
      invariant |store.TxRows()| == |init.rows|
      invariant WellFormed(BatchState(store.TxRows(), store.AccountRows(), processed, failed, notified))
      invariant Run(BatchState(store.TxRows(), store.AccountRows(), processed, failed, notified), selected[j..], faults, now, clock)
             == Run(init, selected, faults, now, clock)
    {
      var k := selected[j];
      RunFrom(BatchState(store.TxRows(), store.AccountRows(), processed, failed, notified), selected, j, faults, now, clock);
      processed, failed, notified := SettleOne(store, k, faults, now, clock, processed, failed, notified);
      j := j + 1;
    }
  }

  /**
   * `handle`: selects the due withdrawals and settles each in turn. The rows and balances it
   * leaves, its counters and the confirmations it sends are those of `Run` over the selection;
   * with nothing selected it changes nothing.
   */
  method Handle(store: Store, now: DateTime, clock: DateTime, faults: map<nat, string>)
    returns (processed: nat, failed: nat, notified: seq<nat>)
    requires store.Valid()
    modifies store.transactions, store.accounts
    ensures var rows := old(store.TxRows());
      var fin := Run(BatchState(rows, old(store.AccountRows()), 0, 0, []), DueIndices(rows, now), faults, now, clock);
      && store.TxRows() == fin.rows && store.AccountRows() == fin.accounts
      && processed == fin.processed && failed == fin.failed && notified == fin.notified
  {
    StoreWellFormed(store);
    var selected := DueIndices(store.TxRows(), now);
    if |selected| == 0 {
      return 0, 0, [];
    }
    processed, failed, notified := SettleAll(store, selected, faults, now, clock);
  }
}
