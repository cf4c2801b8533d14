/**
 * The read side of the client area and of the older controller: the paged statement
 * (`getStatement`), the recent transactions (`getRecentTransactions`), and the labels the
 * spreadsheet export prints for a status and a PIX key type (`formatStatus`, `formatPixType`).
 * The queries read the rows as `TxRow` snapshots; ordering by `created_at desc` is the sort of
 * the Sorting module, which fixes one order for rows created at the same second.
 */
module Statements {
  import opened Wrappers
  import opened Calendar
  import opened Text
  import opened Transactions
  import opened Sorting
  import Pager
  import Wallet
  import Users

  /** The filter value that keeps every row. */
  const All: string := "all"
  /** PHP's message for the Error of `ceil($total / 0)`, a label for it: the controllers' `catch (\Exception)` does not catch it. */
  const DivisionByZero: string := "Division by zero"
  /** How many rows `getRecentTransactions` lists when no limit is given. */
  const DefaultRecentLimit: int := 5
  /** How many days back `getRecentTransactions` looks when no period is given. */
  const DefaultRecentDays: nat := 30

  /** `orderBy('created_at', 'desc')`: a may come before b when it was not created earlier. */
  function NewestFirst(a: TxRow, b: TxRow): bool {
    Instant(b.createdAt) <= Instant(a.createdAt)
  }

  lemma NewestFirstOrders()
    ensures Total(NewestFirst) && Transitive(NewestFirst)
  {
  }

  /** The rows `keep` accepts, in their order: each kept row as often as in `rows`, no other. */
  function Where<T(==,!new)>(rows: seq<T>, keep: T -> bool): (r: seq<T>)
    ensures |r| <= |rows|
    ensures forall x :: multiset(r)[x] == if keep(x) then multiset(rows)[x] else 0
    ensures forall x :: x in r <==> x in rows && keep(x)
  {
    if rows == [] then []
    else
      assert rows == [rows[0]] + rows[1..];
      var rest := Where(rows[1..], keep);
      var r := (if keep(rows[0]) then [rows[0]] else []) + rest;
      assert forall x :: x in r <==> x in multiset(r);
      assert forall x :: x in rows <==> x in multiset(rows);
      r
  }

  /**
   * Hyperf's `skip(offset)->take(limit)`: a negative offset counts as 0 and a negative limit
   * sets no limit.
   */
  function SkipTake<T>(s: seq<T>, offset: int, limit: int): (r: seq<T>)
    ensures limit >= 0 ==> |r| <= limit
  {
    var from := Pager.Min(Pager.Max(0, offset), |s|);
    if limit < 0 then s[from..] else s[from..Pager.Min(from + limit, |s|)]
  }

  /** Skipping and taking keeps only members of the list. */
  lemma SkipTakeWithin<T>(s: seq<T>, offset: int, limit: int)
    ensures forall x :: x in SkipTake(s, offset, limit) ==> x in s
  {
    var from := Pager.Min(Pager.Max(0, offset), |s|);
    assert SkipTake(s, offset, limit) == s[from..if limit < 0 then |s| else Pager.Min(from + limit, |s|)];
  }

  /** PHP's `ceil($a / $b)` for a count a and a non-zero b: the least q with a / b <= q. */
  function CeilDiv(a: nat, b: int): (q: int)
    requires b != 0
    ensures b > 0 ==> (q - 1) * b < a <= q * b
    ensures b < 0 ==> q * b <= a < (q - 1) * b
  {
    if b > 0 then
      var q, r := (a + b - 1) / b, (a + b - 1) % b;
      assert a + b - 1 == q * b + r;
      assert (q - 1) * b == q * b - b;
      q
    else
      var f, r := a / -b, a % -b;
      assert a == f * -b + r;
      assert (-f - 1) * b == f * -b - b;
      -f
  }

  /** A filter parameter: "all" keeps every row, any other value keeps the rows whose stored code equals it. */
  predicate Keeps(filter: string, code: string) {
    filter == All || code == filter
  }

  /** A row of the statement: the caller's, of the requested type and status. */
  predicate Selected(r: TxRow, userId: nat, kind: string, status: string) {
    r.userId == userId && Keeps(kind, r.kind.Code()) && Keeps(status, r.status.Code())
  }

  /** The statement's rows before paging: the caller's rows that pass both filters, newest first. */
  function Listed(rows: seq<TxRow>, userId: nat, kind: string, status: string): (r: seq<TxRow>)
    ensures Sorted(r, NewestFirst)
    ensures forall x :: multiset(r)[x] == if Selected(x, userId, kind, status) then multiset(rows)[x] else 0
    ensures forall x :: x in r <==> x in rows && Selected(x, userId, kind, status)
  {
    NewestFirstOrders();
    var w := Where(rows, x => Selected(x, userId, kind, status));
    var r := Sort(w, NewestFirst);
    assert forall x :: x in r <==> x in multiset(r);
    assert forall x :: x in w <==> x in multiset(w);
    r
  }

  datatype Pagination = Pagination(currentPage: int, perPage: int, total: nat, totalPages: int,
                                   hasNextPage: bool, hasPrevPage: bool, nextPage: Option<int>, prevPage: Option<int>)

  datatype Statement = Statement(transactions: seq<TxRow>, pagination: Pagination)

  /**
   * `getStatement` of `Client\TransactionController` (and, once the caller is known, of the
   * older controller): the page of `Listed` that skips (page - 1) * perPage rows and takes
   * perPage, with the paging figures. A negative per_page leaves `take` without effect while
   * `skip` still sets an offset; MySQL refuses an OFFSET without a LIMIT, and the handler
   * answers 500 with the driver's text. A per_page of 0 fails in the division of the page count.
   */
  function GetStatement(rows: seq<TxRow>, userId: nat, page: int, perPage: int, kind: string, status: string)
    : (o: Outcome<Statement>)
    ensures o.Fail? <==> perPage <= 0
    ensures o.Fail? ==> o.status == 500
    ensures perPage < 0 ==> o == Fail(500, Wallet.InternalError)
    ensures perPage == 0 ==> o == Fail(500, DivisionByZero)
    ensures o.Ok? ==>
      var st := o.value; var p := st.pagination;
      && st.transactions == SkipTake(Listed(rows, userId, kind, status), (page - 1) * perPage, perPage)
      && (forall x :: x in st.transactions ==> x in rows && Selected(x, userId, kind, status))
      && Sorted(st.transactions, NewestFirst)
      && (perPage > 0 ==> |st.transactions| <= perPage)
      && p.currentPage == page && p.perPage == perPage
      && (p.hasNextPage <==> page < p.totalPages) && (p.hasPrevPage <==> page > 1)
      && p.nextPage == (if p.hasNextPage then Some(page + 1) else None)
      && p.prevPage == (if p.hasPrevPage then Some(page - 1) else None)
  {
    var listed := Listed(rows, userId, kind, status);
    if perPage < 0 then Fail(500, Wallet.InternalError)
    else if perPage == 0 then Fail(500, DivisionByZero)
    else
      var totalPages := CeilDiv(|listed|, perPage);
      var hasNext, hasPrev := page < totalPages, page > 1;
      var shown := SkipTake(listed, (page - 1) * perPage, perPage);
      SliceSorted(listed, (page - 1) * perPage, perPage);
      Ok(Statement(shown,
        Pagination(page, perPage, |listed|, totalPages, hasNext, hasPrev,
                   if hasNext then Some(page + 1) else None, if hasPrev then Some(page - 1) else None)))
  }

  /** A slice of a list in order is in order, and holds only members of the list. */
  lemma SliceSorted(s: seq<TxRow>, offset: int, limit: int)
    requires Sorted(s, NewestFirst)
    ensures Sorted(SkipTake(s, offset, limit), NewestFirst)
    ensures forall x :: x in SkipTake(s, offset, limit) ==> x in s
  {
    var from := Pager.Min(Pager.Max(0, offset), |s|);
    var to := if limit < 0 then |s| else Pager.Min(from + limit, |s|);
    assert SkipTake(s, offset, limit) == s[from..to];
    forall i | 0 <= i < to - from - 1
      ensures NewestFirst(s[from..to][i], s[from..to][i + 1])
    {
      assert s[from..to][i] == s[from + i] && s[from..to][i + 1] == s[from + i + 1];
    }
  }

  /**
   * A statement comes back exactly for a positive page size, and its total counts each row
   * that passes the filters, however the page is chosen.
   */
  lemma StatementTotal(rows: seq<TxRow>, userId: nat, page: int, perPage: int, kind: string, status: string)
    ensures var o := GetStatement(rows, userId, page, perPage, kind, status);
      && (o.Ok? <==> perPage > 0)
      && (o.Ok? ==> o.value.pagination.total == |Where(rows, x => Selected(x, userId, kind, status))|
                    && o.value.pagination.totalPages == CeilDiv(o.value.pagination.total, perPage))
  {
    if perPage > 0 {
      var w := Where(rows, x => Selected(x, userId, kind, status));
      NewestFirstOrders();
      assert |Sort(w, NewestFirst)| == |w|;
    }
  }

  /** The pages from..to of a list, one after the other. */
  function Pages(s: seq<TxRow>, perPage: int, from: int, to: int): seq<TxRow>
    decreases to - from
  {
    if from > to then [] else SkipTake(s, (from - 1) * perPage, perPage) + Pages(s, perPage, from + 1, to)
  }

  lemma MulMono(a: int, b: int, c: int)
    requires a <= b && c >= 0
    ensures a * c <= b * c
  {
  }

  /** Where pages start against the page count: page p starts inside the list exactly when p <= ceil(n / perPage). */
  lemma PageArithmetic(n: nat, perPage: int, page: int)
    requires perPage > 0
    ensures (page - 1) * perPage < n <==> page <= CeilDiv(n, perPage)
    ensures page * perPage < n <==> page < CeilDiv(n, perPage)
  {
    var last := CeilDiv(n, perPage);
    if page <= last {
      MulMono(page - 1, last - 1, perPage);
    } else {
      MulMono(last, page - 1, perPage);
    }
    if page < last {
      MulMono(page, last - 1, perPage);
    } else {
      MulMono(last, page, perPage);
    }
  }

  /** Pages p..last of a list are the list from where page p starts. */
  lemma {:induction false} PagesFrom(s: seq<TxRow>, perPage: int, p: int)
    requires perPage > 0 && 1 <= p <= CeilDiv(|s|, perPage) + 1
    ensures Pages(s, perPage, p, CeilDiv(|s|, perPage)) == s[Pager.Min((p - 1) * perPage, |s|)..]
    decreases CeilDiv(|s|, perPage) - p
  {
    var last := CeilDiv(|s|, perPage);
    PageArithmetic(|s|, perPage, p);
    if p <= last {
      var from := (p - 1) * perPage;
      MulMono(0, p - 1, perPage);
      var to := Pager.Min(from + perPage, |s|);
      assert p * perPage == from + perPage;
      assert Pager.Min(p * perPage, |s|) == to;
      PagesFrom(s, perPage, p + 1);
      assert SkipTake(s, from, perPage) == s[from..to];
      assert s[from..] == s[from..to] + s[to..];
    }
  }

  /** With a positive page size, the pages 1..total_pages together are the whole listing, in order. */
  lemma PagesPartition(s: seq<TxRow>, perPage: int)
    requires perPage > 0
    ensures Pages(s, perPage, 1, CeilDiv(|s|, perPage)) == s
  {
    PagesFrom(s, perPage, 1);
  }

  /** The rows of the statement's pages lo..hi, asked for one after the other. */
  function PagesShown(rows: seq<TxRow>, userId: nat, perPage: int, kind: string, status: string, lo: int, hi: int)
    : seq<TxRow>
    requires perPage > 0
    decreases hi - lo
  {
    if lo > hi then []
    else GetStatement(rows, userId, lo, perPage, kind, status).value.transactions
         + PagesShown(rows, userId, perPage, kind, status, lo + 1, hi)
  }

  /** The pages the statement answers are the pages of its listing. */
  lemma {:induction false} PagesShownArePages(rows: seq<TxRow>, userId: nat, perPage: int, kind: string, status: string,
                                              lo: int, hi: int)
    requires perPage > 0
    ensures PagesShown(rows, userId, perPage, kind, status, lo, hi)
         == Pages(Listed(rows, userId, kind, status), perPage, lo, hi)
    decreases hi - lo
  {
    if lo <= hi {
      PagesShownArePages(rows, userId, perPage, kind, status, lo + 1, hi);
    }
  }

  /**
   * Asking for pages 1 to total_pages in turn, with a positive page size, gives every row of
   * the filtered, newest-first listing once, in order.
   */
  lemma StatementCoversListing(rows: seq<TxRow>, userId: nat, perPage: int, kind: string, status: string)
    requires perPage > 0
    ensures var listed := Listed(rows, userId, kind, status);
      PagesShown(rows, userId, perPage, kind, status, 1, CeilDiv(|listed|, perPage)) == listed
  {
    var listed := Listed(rows, userId, kind, status);
    PagesShownArePages(rows, userId, perPage, kind, status, 1, CeilDiv(|listed|, perPage));
    PagesPartition(listed, perPage);
  }

  /**
   * With a positive page size and page >= 1, the page holds rows exactly when page <=
   * total_pages, and `has_next_page` holds exactly when rows remain after this page.
   */
  lemma PageInRange(rows: seq<TxRow>, userId: nat, page: int, perPage: int, kind: string, status: string)
    requires perPage > 0 && page >= 1
    ensures var o := GetStatement(rows, userId, page, perPage, kind, status);
      var p := o.value.pagination;
      && (o.value.transactions != [] <==> page <= p.totalPages)
      && (p.hasNextPage <==> page * perPage < p.total)
  {
    var listed := Listed(rows, userId, kind, status);
    var from := (page - 1) * perPage;
    MulMono(0, page - 1, perPage);
    PageArithmetic(|listed|, perPage, page);
    var shown := SkipTake(listed, from, perPage);
    assert shown != [] <==> from < |listed|;
  }

  /**
   * On a page with rows, the front end's "showing startItem to endItem of total" counts exactly
   * the rows the page carries.
   */
  lemma PagerCountsPage(rows: seq<TxRow>, userId: nat, page: int, perPage: int, kind: string, status: string)
    requires perPage > 0 && page >= 1
    requires var o := GetStatement(rows, userId, page, perPage, kind, status); o.value.transactions != []
    ensures var o := GetStatement(rows, userId, page, perPage, kind, status); var p := o.value.pagination;
      Pager.EndItem(page, perPage, p.total) - Pager.StartItem(page, perPage) + 1 == |o.value.transactions|
  {
    var listed := Listed(rows, userId, kind, status);
    var from := (page - 1) * perPage;
    assert from < |listed|;
    Pager.ItemRange(page, perPage, |listed|);
  }

  /** The older controller's `getStatement`: 401 without a caller; otherwise the client area's statement. */
  function LegacyGetStatement(rows: seq<TxRow>, user: Option<nat>, page: int, perPage: int, kind: string, status: string)
    : (o: Outcome<Statement>)
    ensures user.None? ==> o == Fail(401, Wallet.InvalidToken)
    ensures user.Some? ==> o == GetStatement(rows, user.value, page, perPage, kind, status)
  {
    match user
    case None => Fail(401, Wallet.InvalidToken)
    case Some(u) => GetStatement(rows, u, page, perPage, kind, status)
  }

  /** As written, the older controller's statement refuses every caller: no token yields one. */
  lemma LegacyStatementRefusesEveryone(users: seq<Users.UserRow>, tokenUserId: Option<nat>, rows: seq<TxRow>,
                                       page: int, perPage: int, kind: string, status: string)
    ensures LegacyGetStatement(rows, Wallet.LegacyCallerAsWritten(users, tokenUserId), page, perPage, kind, status)
         == Fail(401, Wallet.InvalidToken)
  {
  }

  /** `strtotime("-N days")`: the moment N whole days before now. */
  function Cutoff(now: DateTime, days: nat): int {
    Instant(now) - days * SecondsPerDay
  }

  /** A row `getRecentTransactions` may list: the caller's, created at or after the cutoff. */
  predicate Recent(r: TxRow, userId: Option<nat>, cutoff: int) {
    (userId.None? || r.userId == userId.value) && Instant(r.createdAt) >= cutoff
  }

  /** The rows of the period, newest first, before the limit. */
  function RecentListed(rows: seq<TxRow>, userId: Option<nat>, cutoff: int): (r: seq<TxRow>)
    ensures Sorted(r, NewestFirst)
    ensures forall x :: multiset(r)[x] == if Recent(x, userId, cutoff) then multiset(rows)[x] else 0
    ensures forall x :: x in r <==> x in rows && Recent(x, userId, cutoff)
  {
    NewestFirstOrders();
    var w := Where(rows, x => Recent(x, userId, cutoff));
    var r := Sort(w, NewestFirst);
    assert forall x :: x in r <==> x in multiset(r);
    assert forall x :: x in w <==> x in multiset(w);
    r
  }

  datatype RecentList = RecentList(transactions: seq<TxRow>, days: nat, totalFound: nat)

  /**
   * `getRecentTransactions`: the `limit` newest rows of the last `days` days (a negative limit
   * lists them all); `total_found` is how many were listed. With `userId` None it lists every
   * user's rows, as the administrator's version does.
   */
  function GetRecentTransactions(rows: seq<TxRow>, userId: Option<nat>, limit: int, days: nat, now: DateTime)
    : (r: RecentList)
    ensures r.totalFound == |r.transactions| && r.days == days
    ensures forall x :: x in r.transactions ==> x in rows && Recent(x, userId, Cutoff(now, days))
    ensures Sorted(r.transactions, NewestFirst)
    ensures limit >= 0 ==> |r.transactions| <= limit
    ensures |r.transactions| == if limit < 0 then |RecentListed(rows, userId, Cutoff(now, days))|
                                else Pager.Min(limit, |RecentListed(rows, userId, Cutoff(now, days))|)
  {
    var listed := RecentListed(rows, userId, Cutoff(now, days));
    var shown := SkipTake(listed, 0, limit);
    SliceSorted(listed, 0, limit);
    assert forall x :: x in listed ==> x in multiset(listed);
    RecentList(shown, days, |shown|)
  }

  /**
   * Nothing newer is left out: a row of the period that is not listed is no newer than every
   * listed row, and with room to spare (a negative limit or fewer rows than the limit) every
   * row of the period is listed.
   */
  lemma RecentAreNewest(rows: seq<TxRow>, userId: Option<nat>, limit: int, days: nat, now: DateTime, x: TxRow)
    requires x in rows && Recent(x, userId, Cutoff(now, days))
    ensures var r := GetRecentTransactions(rows, userId, limit, days, now);
      && (x !in r.transactions ==> forall y :: y in r.transactions ==> NewestFirst(y, x))
      && (limit < 0 || |RecentListed(rows, userId, Cutoff(now, days))| <= limit ==> x in r.transactions)
  {
    var listed := RecentListed(rows, userId, Cutoff(now, days));
    var n := RecentPrefix(rows, userId, limit, days, now);
    assert x in listed;
    NewestFirstOrders();
    SortedIsOrdered(listed, NewestFirst);
    PrefixBeforeRest(listed, n, x);
  }

  /**
   * The listed rows are the first min(limit, count) of the period's rows, the whole of them
   * when the limit is negative.
   */
  lemma RecentPrefix(rows: seq<TxRow>, userId: Option<nat>, limit: int, days: nat, now: DateTime) returns (n: nat)
    ensures var listed := RecentListed(rows, userId, Cutoff(now, days));
      && n <= |listed|
      && n == (if limit < 0 then |listed| else Pager.Min(limit, |listed|))
      && GetRecentTransactions(rows, userId, limit, days, now).transactions == listed[..n]
      && (limit < 0 || |listed| <= limit ==> n == |listed|)
  {
    var listed := RecentListed(rows, userId, Cutoff(now, days));
    n := if limit < 0 then |listed| else Pager.Min(limit, |listed|);
    assert SkipTake(listed, 0, limit) == listed[..n];
  }

  /** In an ordered sequence, an element outside a prefix comes after every element of the prefix. */
  lemma PrefixBeforeRest(s: seq<TxRow>, n: nat, x: TxRow)
    requires Ordered(s, NewestFirst) && n <= |s| && x in s
    ensures x !in s[..n] ==> forall y :: y in s[..n] ==> NewestFirst(y, x)
    ensures n == |s| ==> x in s[..n]
  {
    assert s[..|s|] == s;
    if x !in s[..n] {
      var k :| 0 <= k < |s| && s[k] == x;
      assert k >= n;
      forall y | y in s[..n]
        ensures NewestFirst(y, x)
      {
        var j :| 0 <= j < n && s[j] == y;
      }
    }
  }

  /** The client area's and the older controller's `getRecentTransactions`, with its defaults and the 401 of the latter. */
  function LegacyGetRecentTransactions(rows: seq<TxRow>, user: Option<nat>, limit: Option<int>, days: Option<nat>,
                                       now: DateTime): (o: Outcome<RecentList>)
    ensures user.None? <==> o == Fail(401, Wallet.InvalidToken)
    ensures o.Ok? ==> o.value == GetRecentTransactions(rows, user, limit.GetOr(DefaultRecentLimit),
                                                       days.GetOr(DefaultRecentDays), now)
    ensures o.Ok? ==> |o.value.transactions| <= limit.GetOr(DefaultRecentLimit) || limit.GetOr(0) < 0
  {
    match user
    case None => Fail(401, Wallet.InvalidToken)
    case Some(_) => Ok(GetRecentTransactions(rows, user, limit.GetOr(DefaultRecentLimit), days.GetOr(DefaultRecentDays), now))
  }

  /** As written, the older controller's recent list refuses every caller: no token yields one. */
  lemma LegacyRecentRefusesEveryone(users: seq<Users.UserRow>, tokenUserId: Option<nat>, rows: seq<TxRow>,
                                    limit: Option<int>, days: Option<nat>, now: DateTime)
    ensures LegacyGetRecentTransactions(rows, Wallet.LegacyCallerAsWritten(users, tokenUserId), limit, days, now)
         == Fail(401, Wallet.InvalidToken)
  {
  }

  /** `formatStatus`: the label of a known status code; any other text is passed through. */
  function FormatStatus(status: string): (shown: string)
    ensures status !in {"PENDENTE", "PROCESSADO", "FALHOU", "CANCELADO"} ==> shown == status
  {
    if status == Pendente.Code() then "Pendente"
    else if status == Processado.Code() then "Processado"
    else if status == Falhou.Code() then "Falhou"
    else if status == Cancelado.Code() then "Cancelado"
    else status
  }

  /** `formatPixType`: "-" for no value, "" or "0"; the label of a known key type; any other text passed through. */
  function FormatPixType(pixType: Option<string>): (shown: string)
    ensures pixType.None? || PhpEmpty(pixType.value) ==> shown == "-"
    ensures pixType.Some? && !PhpEmpty(pixType.value) && pixType.value !in {"EMAIL", "PHONE", "CPF", "RANDOM"}
            ==> shown == pixType.value
  {
    match pixType
    case None => "-"
    case Some(t) =>
      if PhpEmpty(t) then "-"
      else if t == "EMAIL" then "E-mail"
      else if t == "PHONE" then "Telefone"
      else if t == "CPF" then "CPF"
      else if t == "RANDOM" then "Chave Aleatória"
      else t
  }

  /** Different statuses get different labels, none of which is a stored code. */
  lemma StatusLabelsDistinct(a: TxStatus, b: TxStatus)
    ensures FormatStatus(a.Code()) == FormatStatus(b.Code()) <==> a == b
    ensures FormatStatus(a.Code()) != a.Code()
  {
  }
}
