/**
 * The administrator's overview (`Master\TransactionController`): the dashboard figures
 * (`getStats`) and the recent transactions of every user (`getRecentTransactions`), each row
 * shown with its owner's name and e-mail. Both turn away callers who are not administrators.
 */
module MasterStats {
  import opened Wrappers
  import opened Calendar
  import opened Transactions
  import opened Users
  import opened Ledger
  import opened Sorting
  import Statements
  import Pager
  import opened MasterClients

  /** How many rows the dashboard lists. */
  const OverviewRecentLimit: int := 4
  /** How many rows `getRecentTransactions` lists when no limit is given. */
  const DefaultRecentLimit: int := 4
  /** How many days back `getRecentTransactions` looks when no period is given. */
  const DefaultRecentDays: nat := 30

  /** `Account::sum('balance')`: the balances of all accounts added up. */
  function TotalFunds(accs: seq<AccountRow>): int {
    if accs == [] then 0 else TotalFunds(accs[..|accs| - 1]) + accs[|accs| - 1].balance
  }

  /** A row with its owner's name and e-mail; None where no user has the row's user id. */
  datatype Joined = Joined(row: TxRow, userName: Option<string>, userEmail: Option<string>)

  /** The user with the given id, as the `user` relation loads it. */
  function UserById(users: seq<UserRow>, id: nat): (u: Option<UserRow>)
    ensures u.Some? ==> u.value in users && u.value.id == id
    ensures u.None? <==> forall i :: 0 <= i < |users| ==> users[i].id != id
  {
    if users == [] then None
    else if users[0].id == id then Some(users[0])
    else UserById(users[1..], id)
  }

  function JoinOne(users: seq<UserRow>, r: TxRow): Joined {
    match UserById(users, r.userId)
    case None => Joined(r, None, None)
    case Some(u) => Joined(r, Some(u.name), Some(u.email))
  }

  function Join(users: seq<UserRow>, rows: seq<TxRow>): (js: seq<Joined>)
    ensures |js| == |rows|
    ensures forall i :: 0 <= i < |rows| ==> js[i] == JoinOne(users, rows[i]) && js[i].row == rows[i]
  {
    seq(|rows|, i requires 0 <= i < |rows| => JoinOne(users, rows[i]))
  }

  /** `orderBy('created_at', 'desc')->limit(n)` over every row. */
  function Latest(rows: seq<TxRow>, n: int): (r: seq<TxRow>)
    ensures Sorted(r, Statements.NewestFirst)
    ensures forall x :: x in r ==> x in rows
    ensures n >= 0 ==> |r| == Pager.Min(n, |rows|)
  {
    Statements.NewestFirstOrders();
    var sorted := Sort(rows, Statements.NewestFirst);
    assert forall x :: x in sorted ==> x in multiset(rows);
    Statements.SliceSorted(sorted, 0, n);
    Statements.SkipTake(sorted, 0, n)
  }

  /** The newest rows are listed: a row left out is no newer than any listed one, and with n rows or fewer all are listed. */
  lemma LatestAreNewest(rows: seq<TxRow>, n: int, x: TxRow)
    requires x in rows
    ensures x !in Latest(rows, n) ==> forall y :: y in Latest(rows, n) ==> Statements.NewestFirst(y, x)
    ensures n < 0 || |rows| <= n ==> x in Latest(rows, n)
  {
    Statements.NewestFirstOrders();
    var sorted := Sort(rows, Statements.NewestFirst);
    var k := if n < 0 then |sorted| else Pager.Min(n, |sorted|);
    assert Statements.SkipTake(sorted, 0, n) == sorted[..k];
    assert x in multiset(sorted);
    SortedIsOrdered(sorted, Statements.NewestFirst);
    Statements.PrefixBeforeRest(sorted, k, x);
  }

  datatype Overview = Overview(totalClients: nat, totalTransactions: nat, totalFunds: int,
                               totalScheduledWithdrawals: int, recent: seq<Joined>)

  /**
   * `getStats`: how many clients and rows there are, the funds held in all accounts, the
   * amount of every pending withdrawal, and the four newest rows with their owners.
   */
  function GetStats(users: seq<UserRow>, accs: seq<AccountRow>, rows: seq<TxRow>, caller: Option<UserRow>)
    : (o: Outcome<Overview>)
    ensures !IsMaster(caller) <==> o == Fail(403, AccessDenied)
    ensures o.Ok? ==>
      var v := o.value;
      && v.totalClients == |Statements.Where(users, (u: UserRow) => u.userType == Cliente)|
      && v.totalClients <= |users|
      && v.totalTransactions == |rows|
      && v.totalFunds == TotalFunds(accs)
      && v.totalScheduledWithdrawals == SumOf(rows, None, Saque, Pendente)
      && v.recent == Join(users, Latest(rows, OverviewRecentLimit))
      && |v.recent| == Pager.Min(OverviewRecentLimit, |rows|)
  {
    if !IsMaster(caller) then Fail(403, AccessDenied)
    else
      Ok(Overview(|Statements.Where(users, (u: UserRow) => u.userType == Cliente)|, |rows|, TotalFunds(accs),
                  SumOf(rows, None, Saque, Pendente), Join(users, Latest(rows, OverviewRecentLimit))))
  }

  datatype RecentPeriod = RecentPeriod(transactions: seq<Joined>, days: nat, totalFound: nat)

  /**
   * `getRecentTransactions` of the administrator: the client area's query over every user's
   * rows (at most limit rows, default 4, of the last days days, default 30, newest first),
   * each with its owner.
   */
  function GetRecentTransactions(users: seq<UserRow>, rows: seq<TxRow>, caller: Option<UserRow>,
                                 limit: Option<int>, days: Option<nat>, now: DateTime): (o: Outcome<RecentPeriod>)
    ensures !IsMaster(caller) <==> o == Fail(403, AccessDenied)
    ensures o.Ok? ==>
      var r := Statements.GetRecentTransactions(rows, None, limit.GetOr(DefaultRecentLimit),
                                                days.GetOr(DefaultRecentDays), now);
      && o.value.transactions == Join(users, r.transactions)
      && o.value.days == days.GetOr(DefaultRecentDays)
      && o.value.totalFound == |o.value.transactions|
      && (limit.GetOr(DefaultRecentLimit) >= 0 ==> o.value.totalFound <= limit.GetOr(DefaultRecentLimit))
  {
    if !IsMaster(caller) then Fail(403, AccessDenied)
    else
      var r := Statements.GetRecentTransactions(rows, None, limit.GetOr(DefaultRecentLimit),
                                                days.GetOr(DefaultRecentDays), now);
      Ok(RecentPeriod(Join(users, r.transactions), r.days, r.totalFound))
  }

  // ---------------------------------------------------------------- the funds are the booked money

  /** The sum over the accounts of what the rows add to each. */
  function TotalNet(rows: seq<TxRow>, accs: seq<AccountRow>): int {
    if accs == [] then 0 else TotalNet(rows, accs[..|accs| - 1]) + Net(rows, accs[|accs| - 1].id)
  }

  /** What one row adds to all the accounts together. */
  function EffectOn(r: TxRow, accs: seq<AccountRow>): int {
    if accs == [] then 0 else EffectOn(r, accs[..|accs| - 1]) + Effect(r, accs[|accs| - 1].id)
  }

  /** Every processed deposit less every processed withdrawal. */
  function Moved(rows: seq<TxRow>): int {
    if rows == [] then 0 else Moved(rows[..|rows| - 1]) + Effect(rows[|rows| - 1], rows[|rows| - 1].accountId)
  }

  lemma {:induction false} FundsAreTotalNet(rows: seq<TxRow>, accs: seq<AccountRow>)
    requires Balanced(rows, accs)
    ensures TotalFunds(accs) == TotalNet(rows, accs)
  {
    if accs != [] {
      FundsAreTotalNet(rows, accs[..|accs| - 1]);
    }
  }

  lemma {:induction false} TotalNetAppend(rows: seq<TxRow>, r: TxRow, accs: seq<AccountRow>)
    ensures TotalNet(rows + [r], accs) == TotalNet(rows, accs) + EffectOn(r, accs)
  {
    if accs != [] {
      TotalNetAppend(rows, r, accs[..|accs| - 1]);
      NetAppend(rows, r, accs[|accs| - 1].id);
    }
  }

  lemma {:induction false} TotalNetOfNothing(accs: seq<AccountRow>)
    ensures TotalNet([], accs) == 0
  {
    if accs != [] {
      TotalNetOfNothing(accs[..|accs| - 1]);
    }
  }

  lemma {:induction false} EffectOnAbsent(r: TxRow, accs: seq<AccountRow>)
    requires forall i :: 0 <= i < |accs| ==> accs[i].id != r.accountId
    ensures EffectOn(r, accs) == 0
  {
    if accs != [] {
      EffectOnAbsent(r, accs[..|accs| - 1]);
    }
  }

  /** With unique ids, a row that books to a stored account adds its effect once. */
  lemma {:induction false} EffectOnOnce(r: TxRow, accs: seq<AccountRow>)
    requires UniqueIds(accs) && FindAccount(accs, ById(r.accountId)).Some?
    ensures EffectOn(r, accs) == Effect(r, r.accountId)
  {
    var n := |accs| - 1;
    var init := accs[..n];
    if accs[n].id == r.accountId {
      EffectOnAbsent(r, init);
    } else {
      var k := FindAccount(accs, ById(r.accountId)).value;
      assert init[k] == accs[k];
      assert FindAccount(init, ById(r.accountId)).Some?;
      EffectOnOnce(r, init);
    }
  }

  lemma {:induction false} TotalNetIsMoved(rows: seq<TxRow>, accs: seq<AccountRow>)
    requires UniqueIds(accs)
    requires forall i :: 0 <= i < |rows| ==> FindAccount(accs, ById(rows[i].accountId)).Some?
    ensures TotalNet(rows, accs) == Moved(rows)
  {
    if rows == [] {
      TotalNetOfNothing(accs);
    } else {
      var init, r := rows[..|rows| - 1], rows[|rows| - 1];
      assert rows == init + [r];
      TotalNetIsMoved(init, accs);
      TotalNetAppend(init, r, accs);
      EffectOnOnce(r, accs);
    }
  }

  lemma {:induction false} MovedIsDepositsLessWithdrawals(rows: seq<TxRow>)
    ensures Moved(rows) == SumOf(rows, None, Deposito, Processado) - SumOf(rows, None, Saque, Processado)
  {
    if rows != [] {
      MovedIsDepositsLessWithdrawals(rows[..|rows| - 1]);
    }
  }

  /**
   * The dashboard's total funds is the money the books account for: in balanced books whose
   * account ids are unique and whose rows all book to a stored account, it equals every
   * processed deposit less every processed withdrawal.
   */
  lemma FundsAreNet(rows: seq<TxRow>, accs: seq<AccountRow>)
    requires Balanced(rows, accs) && UniqueIds(accs)
    requires forall i :: 0 <= i < |rows| ==> FindAccount(accs, ById(rows[i].accountId)).Some?
    ensures TotalFunds(accs) == SumOf(rows, None, Deposito, Processado) - SumOf(rows, None, Saque, Processado)
  {
    FundsAreTotalNet(rows, accs);
    TotalNetIsMoved(rows, accs);
    MovedIsDepositsLessWithdrawals(rows);
  }

  /** The same for the store: its ids are unique and its rows book to stored accounts. */
  lemma StoreFundsAreNet(s: Store)
    requires s.Valid() && Balanced(s.TxRows(), s.AccountRows())
    ensures TotalFunds(s.AccountRows()) == SumOf(s.TxRows(), None, Deposito, Processado)
                                          - SumOf(s.TxRows(), None, Saque, Processado)
  {
    var rows, accs := s.TxRows(), s.AccountRows();
    assert UniqueIds(accs) by {
      forall i, j | 0 <= i < j < |accs|
        ensures accs[i].id != accs[j].id
      {
        assert s.accounts[i].id != s.accounts[j].id;
      }
    }
    forall i | 0 <= i < |rows|
      ensures FindAccount(accs, ById(rows[i].accountId)).Some?
    {
      var j :| 0 <= j < |s.accounts| && s.accounts[j] == s.transactions[i].account;
      assert accs[j].id == rows[i].accountId;
    }
    FundsAreNet(rows, accs);
  }
}
