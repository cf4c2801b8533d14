/**
 * The database of the wallet: users, accounts, transactions and withdrawal details, with
 * the auto-increment counters that give new rows their ids. Rows are kept in insertion
 * (id) order; the queries read them through the snapshot functions below.
 */
module Ledger {
  import opened Wrappers
  import opened Calendar
  import opened Pix
  import opened Accounts
  import opened Transactions
  import opened Users

  /** The details row of a transaction (the first one, as a has-one relation loads it). */
  function DetailsFor(ds: seq<WithdrawalDetails>, txId: nat): (r: Option<WithdrawalDetails>)
    ensures r.Some? ==> r.value in ds && r.value.transactionId == txId
    ensures r.None? <==> forall i :: 0 <= i < |ds| ==> ds[i].transactionId != txId
  {
    if ds == [] then None
    else if ds[0].transactionId == txId then Some(ds[0])
    else DetailsFor(ds[1..], txId)
  }

  /** The transactions as rows, in store order, each with its details. */
  function RowsOf(ts: seq<Transaction>, ds: seq<WithdrawalDetails>): (r: seq<TxRow>)
    reads ts
    ensures |r| == |ts|
    ensures forall i :: 0 <= i < |ts| ==> r[i] == ts[i].Row(DetailsFor(ds, ts[i].id))
  {
    if ts == [] then []
    else RowsOf(ts[..|ts| - 1], ds) + [ts[|ts| - 1].Row(DetailsFor(ds, ts[|ts| - 1].id))]
  }

  function UserRowsOf(us: seq<User>): (r: seq<UserRow>)
    reads us
    ensures |r| == |us|
    ensures forall i :: 0 <= i < |us| ==> r[i] == us[i].Row()
  {
    if us == [] then [] else UserRowsOf(us[..|us| - 1]) + [us[|us| - 1].Row()]
  }

  /** A read-only copy of one account row. */
  datatype AccountRow = AccountRow(id: nat, userId: nat, balance: int)

  function AccountRowsOf(accs: seq<Account>): (r: seq<AccountRow>)
    reads accs
    ensures |r| == |accs|
    ensures forall i :: 0 <= i < |accs| ==> r[i] == AccountRow(accs[i].id, accs[i].userId, accs[i].balance)
  {
    if accs == [] then []
    else AccountRowsOf(accs[..|accs| - 1]) + [AccountRow(accs[|accs| - 1].id, accs[|accs| - 1].userId, accs[|accs| - 1].balance)]
  }

  /** The column an account lookup matches: the owner's `user_id` or the account's own `id`. */
  datatype AccountKey = ByOwner(userId: nat) | ById(id: nat) {
    predicate Matches(a: AccountRow) {
      match this
      case ByOwner(u) => a.userId == u
      case ById(i) => a.id == i
    }
  }

  /**
   * The position of the first account row the key matches, as `where(column, value)->first()`
   * finds it (and `find` for the id). Looking a user's account up by owner is what the
   * controllers mean by `$user->account`; `User` declares no such relation, and the model
   * uses this lookup in its place (see the findings).
   */
  function FindAccount(accs: seq<AccountRow>, key: AccountKey): (r: Option<nat>)
    ensures r.Some? ==> r.value < |accs| && key.Matches(accs[r.value])
    ensures r.Some? ==> forall i :: 0 <= i < r.value ==> !key.Matches(accs[i])
    ensures r.None? <==> forall i :: 0 <= i < |accs| ==> !key.Matches(accs[i])
  {
    if accs == [] then None
    else if key.Matches(accs[0]) then Some(0)
    else match FindAccount(accs[1..], key)
      case None => None
      case Some(j) => Some(j + 1)
  }

  ghost predicate UniqueIds(rows: seq<AccountRow>) {
    forall i, j :: 0 <= i < j < |rows| ==> rows[i].id != rows[j].id
  }

  /** The same accounts in the same order, whatever their balances. */
  ghost predicate SameIds(a: seq<AccountRow>, b: seq<AccountRow>) {
    |a| == |b| && forall i :: 0 <= i < |a| ==> a[i].id == b[i].id
  }

  /** Looking an account up depends only on the ids. */
  lemma {:induction false} FindByIdSameIds(a: seq<AccountRow>, b: seq<AccountRow>, id: nat)
    requires SameIds(a, b)
    ensures FindAccount(a, ById(id)) == FindAccount(b, ById(id))
  {
    if a != [] {
      assert SameIds(a[1..], b[1..]);
      FindByIdSameIds(a[1..], b[1..], id);
    }
  }

  /** With unique ids, the lookup finds exactly the account that has the id. */
  lemma FindByIdUnique(accs: seq<AccountRow>, m: nat)
    requires UniqueIds(accs) && m < |accs|
    ensures FindAccount(accs, ById(accs[m].id)) == Some(m)
  {
  }

  /** What a row contributes to its account: a processed deposit adds, a processed withdrawal takes away. */
  function Effect(r: TxRow, accountId: nat): int {
    if r.accountId != accountId || r.status != Processado then 0
    else if r.kind == Deposito then r.amount
    else -r.amount
  }

  /** The balance the recorded rows account for. */
  function Net(rows: seq<TxRow>, accountId: nat): int {
    if rows == [] then 0 else Net(rows[..|rows| - 1], accountId) + Effect(rows[|rows| - 1], accountId)
  }

  /** No balance is negative. */
  ghost predicate NonNegative(accs: seq<AccountRow>) {
    forall i :: 0 <= i < |accs| ==> accs[i].balance >= 0
  }

  /** The accounts with `delta` added to the balance at position m. */
  function Booked(accs: seq<AccountRow>, m: nat, delta: int): (r: seq<AccountRow>)
    requires m < |accs|
    ensures SameIds(accs, r) && r[m].balance == accs[m].balance + delta
    ensures forall i :: 0 <= i < |accs| && i != m ==> r[i] == accs[i]
  {
    accs[m := accs[m].(balance := accs[m].balance + delta)]
  }

  /** Every balance is what the processed rows of its account add up to. */
  ghost predicate Balanced(rows: seq<TxRow>, accs: seq<AccountRow>) {
    forall i :: 0 <= i < |accs| ==> accs[i].balance == Net(rows, accs[i].id)
  }

  lemma NetAppend(rows: seq<TxRow>, r: TxRow, id: nat)
    ensures Net(rows + [r], id) == Net(rows, id) + Effect(r, id)
  {
    assert (rows + [r])[..|rows|] == rows;
  }

  /** Replacing one row changes the total by the difference of the two rows' contributions. */
  lemma {:induction false} NetUpdate(rows: seq<TxRow>, k: nat, r: TxRow, id: nat)
    requires k < |rows|
    ensures Net(rows[k := r], id) == Net(rows, id) - Effect(rows[k], id) + Effect(r, id)
  {
    var n := |rows| - 1;
    if k < n {
      NetUpdate(rows[..n], k, r, id);
      assert rows[k := r][..n] == rows[..n][k := r];
    } else {
      assert rows[k := r][..n] == rows[..n];
    }
  }

  /** An account no row refers to accounts for nothing. */
  lemma {:induction false} NetOfUnused(rows: seq<TxRow>, id: nat)
    requires forall i :: 0 <= i < |rows| ==> rows[i].accountId != id
    ensures Net(rows, id) == 0
  {
    if rows != [] {
      NetOfUnused(rows[..|rows| - 1], id);
    }
  }

  /** Booking an amount the account can bear keeps every balance non-negative. */
  lemma BookedKeepsNonNegative(accs: seq<AccountRow>, m: nat, delta: int)
    requires NonNegative(accs) && m < |accs| && accs[m].balance + delta >= 0
    ensures NonNegative(Booked(accs, m, delta))
  {
    var b := Booked(accs, m, delta);
    forall i | 0 <= i < |b|
      ensures b[i].balance >= 0
    {
      if i != m {
        assert b[i] == accs[i];
      }
    }
  }

  /** Appending a row and booking its effect on its own account keeps the books balanced. */
  lemma BookKeepsBalanced(rows: seq<TxRow>, accs: seq<AccountRow>, m: nat, r: TxRow)
    requires Balanced(rows, accs) && UniqueIds(accs) && m < |accs| && r.accountId == accs[m].id
    ensures Balanced(rows + [r], Booked(accs, m, Effect(r, accs[m].id)))
  {
    var b := Booked(accs, m, Effect(r, accs[m].id));
    forall i | 0 <= i < |b|
      ensures b[i].balance == Net(rows + [r], b[i].id)
    {
      NetAppend(rows, r, accs[i].id);
      if i < m {
        assert accs[i].id != accs[m].id;
      } else if m < i {
        assert accs[m].id != accs[i].id;
      }
    }
  }

  /** A processed withdrawal recorded without its debit puts its account out of balance. */
  lemma UndebitedWithdrawalUnbalances(rows: seq<TxRow>, accs: seq<AccountRow>, m: nat, r: TxRow)
    requires Balanced(rows, accs) && m < |accs| && r.accountId == accs[m].id
    requires r.kind == Saque && r.status == Processado && r.amount != 0
    ensures !Balanced(rows + [r], accs)
  {
    NetAppend(rows, r, accs[m].id);
  }

  class Store {
    var users: seq<User>
    var accounts: seq<Account>
    var transactions: seq<Transaction>
    var details: seq<WithdrawalDetails>
    var nextUserId: nat
    var nextAccountId: nat
    var nextTxId: nat

    constructor ()
      ensures Valid() && NonNegative(AccountRows())
      ensures users == [] && accounts == [] && transactions == [] && details == []
    {
      users := [];
      accounts := [];
      transactions := [];
      details := [];
      nextUserId := 1;
      nextAccountId := 1;
      nextTxId := 1;
    }

    /**
     * Ids are positive, unique and below their counter; every transaction's account is
     * stored; every details row refers to an id already handed out.
     */
    ghost predicate Valid()
      reads this
    {
      && nextTxId >= 1 && nextAccountId >= 1 && nextUserId >= 1
      && (forall i :: 0 <= i < |transactions| ==> 1 <= transactions[i].id < nextTxId && transactions[i].account in accounts)
      && (forall i, j :: 0 <= i < j < |transactions| ==> transactions[i].id != transactions[j].id)
      && (forall i :: 0 <= i < |details| ==> details[i].transactionId < nextTxId)
      && (forall i :: 0 <= i < |accounts| ==> 1 <= accounts[i].id < nextAccountId)
      && (forall i, j :: 0 <= i < j < |accounts| ==> accounts[i].id != accounts[j].id)
      && (forall i :: 0 <= i < |users| ==> 1 <= users[i].id < nextUserId)
      && (forall i, j :: 0 <= i < j < |users| ==> users[i].id != users[j].id)
    }

    function TxRows(): seq<TxRow>
      reads this, transactions
    {
      RowsOf(transactions, details)
    }

    function UserRows(): seq<UserRow>
      reads this, users
    {
      UserRowsOf(users)
    }

    function AccountRows(): seq<AccountRow>
      reads this, accounts
    {
      AccountRowsOf(accounts)
    }

    /** Inserts a transaction row under the next id; no details row refers to that id yet. */
    method CreateTransaction(userId: nat, account: Account, kind: TxType, amount: int, status: TxStatus,
                             scheduledAt: Option<DateTime>, processedAt: Option<DateTime>, now: DateTime)
      returns (t: Transaction)
      requires Valid() && account in accounts
      modifies this
      ensures Valid() && fresh(t)
      ensures t.id == old(nextTxId) && t.userId == userId && t.account == account && t.kind == kind
      ensures t.amount == amount && t.status == status && t.scheduledAt == scheduledAt
      ensures t.processedAt == processedAt && t.createdAt == now && t.failureReason == None
      ensures transactions == old(transactions) + [t] && nextTxId == old(nextTxId) + 1
      ensures users == old(users) && accounts == old(accounts) && details == old(details)
      ensures nextUserId == old(nextUserId) && nextAccountId == old(nextAccountId)
      ensures DetailsFor(details, t.id).None?
    {
      t := new Transaction(nextTxId, userId, account, kind, amount, status, scheduledAt, processedAt, now);
      transactions := transactions + [t];
      nextTxId := nextTxId + 1;
    }

    /** Inserts the details row of a transaction. */
    method CreateDetails(d: WithdrawalDetails)
      requires Valid() && d.transactionId < nextTxId
      modifies this
      ensures Valid()
      ensures details == old(details) + [d]
      ensures users == old(users) && accounts == old(accounts) && transactions == old(transactions)
      ensures nextUserId == old(nextUserId) && nextAccountId == old(nextAccountId) && nextTxId == old(nextTxId)
    {
      details := details + [d];
    }

    /** Inserts a user row under the next id. */
    method CreateUser(name: string, email: string, password: Option<string>, userType: UserType, now: DateTime)
      returns (u: User)
      requires Valid()
      modifies this
      ensures Valid() && fresh(u)
      ensures u.id == old(nextUserId) && u.name == name && u.email == email && u.password == password
      ensures u.userType == userType && u.createdAt == now
      ensures users == old(users) + [u] && nextUserId == old(nextUserId) + 1
      ensures accounts == old(accounts) && transactions == old(transactions) && details == old(details)
      ensures nextAccountId == old(nextAccountId) && nextTxId == old(nextTxId)
    {
      u := new User(nextUserId, name, email, password, userType, now);
      users := users + [u];
      nextUserId := nextUserId + 1;
    }

    /** Inserts an account row under the next id. */
    method CreateAccount(userId: nat, balance: int) returns (a: Account)
      requires Valid()
      modifies this
      ensures Valid() && fresh(a)
      ensures a.id == old(nextAccountId) && a.userId == userId && a.balance == balance
      ensures accounts == old(accounts) + [a] && nextAccountId == old(nextAccountId) + 1
      ensures users == old(users) && transactions == old(transactions) && details == old(details)
      ensures nextUserId == old(nextUserId) && nextTxId == old(nextTxId)
    {
      a := new Account(nextAccountId, userId, balance);
      accounts := accounts + [a];
      nextAccountId := nextAccountId + 1;
    }
  }

  /** Unique ids make the store's transactions distinct objects. */
  lemma TransactionsDistinct(s: Store, i: int, j: int)
    requires s.Valid()
    requires 0 <= i < |s.transactions| && 0 <= j < |s.transactions| && i != j
    ensures s.transactions[i] != s.transactions[j]
  {
    if i < j {
      assert s.transactions[i].id != s.transactions[j].id;
    } else {
      assert s.transactions[j].id != s.transactions[i].id;
    }
  }

  /** The store's account ids are unique, so looking one up finds its own row. */
  lemma AccountLookup(s: Store, m: nat)
    requires s.Valid() && m < |s.accounts|
    ensures UniqueIds(s.AccountRows())
    ensures FindAccount(s.AccountRows(), ById(s.accounts[m].id)) == Some(m)
  {
    var rows := s.AccountRows();
    assert UniqueIds(rows) by {
      forall i, j | 0 <= i < j < |rows|
        ensures rows[i].id != rows[j].id
      {
        assert s.accounts[i].id != s.accounts[j].id;
      }
    }
    FindByIdUnique(rows, m);
  }

  /** Every row of the store books to a stored account, so to an id the account counter has passed. */
  lemma RowsUseStoredAccounts(s: Store)
    requires s.Valid()
    ensures forall i :: 0 <= i < |s.TxRows()| ==> s.TxRows()[i].accountId < s.nextAccountId
  {
    forall i | 0 <= i < |s.TxRows()|
      ensures s.TxRows()[i].accountId < s.nextAccountId
    {
      var j :| 0 <= j < |s.accounts| && s.accounts[j] == s.transactions[i].account;
    }
  }

  /** `subtractBalance` on a covered account, at position m: its balance goes down, nothing else changes. */
  method Debit(store: Store, ghost m: nat, account: Account, amount: int,
               ghost rows: seq<TxRow>, ghost accs: seq<AccountRow>, ghost debited: seq<AccountRow>)
    requires store.Valid() && m < |store.accounts| && store.accounts[m] == account
    requires account.HasSufficientBalance(amount)
    requires rows == store.TxRows() && accs == store.AccountRows()
    requires debited == accs[m := accs[m].(balance := accs[m].balance - amount)]
    modifies account
    ensures store.Valid() && store.transactions == old(store.transactions)
    ensures store.AccountRows() == debited
    ensures store.TxRows() == rows
  {
    AccountLookup(store, m);
    var ok := account.SubtractBalance(amount);
    assert ok;
    forall i | 0 <= i < |store.accounts|
      ensures store.AccountRows()[i] == debited[i]
    {
      if i != m {
        assert accs[i].id != accs[m].id;
      }
    }
  }

  /** `addBalance` on the account at position m: its balance goes up by the amount, nothing else changes. */
  method Credit(store: Store, ghost m: nat, account: Account, amount: int,
                ghost rows: seq<TxRow>, ghost accs: seq<AccountRow>)
    requires store.Valid() && m < |store.accounts| && store.accounts[m] == account
    requires rows == store.TxRows() && accs == store.AccountRows()
    modifies account
    ensures store.Valid() && store.transactions == old(store.transactions)
    ensures store.AccountRows() == Booked(accs, m, amount)
    ensures store.TxRows() == rows
  {
    AccountLookup(store, m);
    account.AddBalance(amount);
    ghost var booked := Booked(accs, m, amount);
    forall i | 0 <= i < |store.accounts|
      ensures store.AccountRows()[i] == booked[i]
    {
      if i != m {
        assert accs[i].id != accs[m].id;
      }
    }
  }

  /** Inserts a transaction row without details: the rows gain it at the end, the accounts stay as they are. */
  method Record(store: Store, userId: nat, account: Account, kind: TxType, amount: int, status: TxStatus,
                scheduledAt: Option<DateTime>, processedAt: Option<DateTime>, now: DateTime,
                ghost rows: seq<TxRow>, ghost accs: seq<AccountRow>)
    returns (t: Transaction)
    requires store.Valid() && account in store.accounts
    requires rows == store.TxRows() && accs == store.AccountRows()
    modifies store
    ensures store.Valid() && fresh(t) && t.id == old(store.nextTxId)
    ensures store.TxRows() == rows + [TxRow(t.id, userId, account.id, kind, amount, status, now, scheduledAt, processedAt, None, None)]
    ensures store.AccountRows() == accs
    ensures store.transactions == old(store.transactions) + [t]
    ensures store.users == old(store.users) && store.accounts == old(store.accounts)
  {
    ghost var ts, ds := store.transactions, store.details;
    t := store.CreateTransaction(userId, account, kind, amount, status, scheduledAt, processedAt, now);
    assert RowsOf(ts, ds) == rows;
    AccountRowsFrame(store.accounts);
    RowsAppend(ts, t, store.details);
  }

  /** Inserts a user: the user rows gain it at the end; the transactions and accounts read as before. */
  method InsertUser(store: Store, name: string, email: string, password: Option<string>, userType: UserType,
                    now: DateTime) returns (row: UserRow)
    requires store.Valid()
    modifies store
    ensures store.Valid()
    ensures row == UserRow(old(store.nextUserId), name, email, password, userType, now)
    ensures store.UserRows() == old(store.UserRows()) + [row]
    ensures store.TxRows() == old(store.TxRows()) && store.AccountRows() == old(store.AccountRows())
    ensures store.nextAccountId == old(store.nextAccountId)
  {
    ghost var us := store.users;
    var u := store.CreateUser(name, email, password, userType, now);
    assert store.users[..|us|] == us;
    row := u.Row();
  }

  /**
   * Opens an account: the account rows gain it at the end, under an id no transaction row
   * books to yet; the transactions and users read as before.
   */
  method InsertAccount(store: Store, userId: nat, balance: int) returns (row: AccountRow)
    requires store.Valid()
    modifies store
    ensures store.Valid()
    ensures row == AccountRow(old(store.nextAccountId), userId, balance)
    ensures store.AccountRows() == old(store.AccountRows()) + [row]
    ensures store.TxRows() == old(store.TxRows()) && store.UserRows() == old(store.UserRows())
    ensures forall i :: 0 <= i < |store.TxRows()| ==> store.TxRows()[i].accountId != row.id
  {
    ghost var accounts := store.accounts;
    RowsUseStoredAccounts(store);
    var a := store.CreateAccount(userId, balance);
    assert store.accounts[..|accounts|] == accounts;
    row := AccountRow(a.id, a.userId, a.balance);
  }

  /** Rows read from accounts nobody touched read the same. */
  twostate lemma AccountRowsFrame(accs: seq<Account>)
    requires unchanged(accs)
    ensures AccountRowsOf(accs) == old(AccountRowsOf(accs))
  {
  }

  /** The rows of one more transaction: the old rows and the new one's. */
  lemma RowsAppend(ts: seq<Transaction>, t: Transaction, ds: seq<WithdrawalDetails>)
    ensures RowsOf(ts + [t], ds) == RowsOf(ts, ds) + [t.Row(DetailsFor(ds, t.id))]
  {
    assert (ts + [t])[..|ts|] == ts;
  }

  /** Inserts the details row of the newest transaction: its row gains the details, nothing else changes. */
  method Attach(store: Store, d: WithdrawalDetails, ghost rows: seq<TxRow>, ghost accs: seq<AccountRow>)
    requires store.Valid() && |store.transactions| > 0
    requires rows == store.TxRows() && accs == store.AccountRows()
    requires d.transactionId == store.transactions[|store.transactions| - 1].id
    requires rows[|rows| - 1].details.None?
    modifies store
    ensures store.Valid()
    ensures store.TxRows() == rows[|rows| - 1 := rows[|rows| - 1].(details := Some(d))]
    ensures store.AccountRows() == accs
    ensures store.transactions == old(store.transactions)
    ensures store.users == old(store.users) && store.accounts == old(store.accounts)
  {
    ghost var ds := store.details;
    var n := |store.transactions| - 1;
    store.CreateDetails(d);
    forall i | 0 <= i < n
      ensures store.TxRows()[i] == rows[i]
    {
      assert store.transactions[i].id != d.transactionId;
      DetailsForAppend(ds, d, store.transactions[i].id);
    }
    DetailsForAppend(ds, d, d.transactionId);
  }

  /** A details row appended at the end answers only for its own id, and only where no earlier row did. */
  lemma {:induction false} DetailsForAppend(ds: seq<WithdrawalDetails>, d: WithdrawalDetails, id: nat)
    ensures DetailsFor(ds + [d], id)
      == if DetailsFor(ds, id).Some? then DetailsFor(ds, id) else if d.transactionId == id then Some(d) else None
  {
    if ds != [] {
      assert (ds + [d])[1..] == ds[1..] + [d];
      DetailsForAppend(ds[1..], d, id);
    }
  }
}
