/**
 * The administrator's client area (`Master\ClientController`): the paged, searchable and
 * sortable list of clients with their figures (`getClients`), one client's detail
 * (`getClient`), and registering (`createClient`) and editing (`updateClient`) a client.
 * Every endpoint first turns away callers who are not administrators, with 403.
 * The queries read `UserRow`, `AccountRow` and `TxRow` snapshots; the two writes work on the
 * store's objects.
 */
module MasterClients {
  import opened Wrappers
  import opened Calendar
  import opened Text
  import opened Transactions
  import opened Users
  import opened Ledger
  import opened Sorting
  import Statements
  import Pager
  import Wallet

  const AccessDenied: string := "Acesso negado. Apenas administradores."
  const ClientNotFound: string := "Cliente não encontrado."
  const InvalidInput: string := "Dados inválidos."
  /** What the handlers put before the text of an exception they catch. */
  const ServerError: string := "Erro interno do servidor: "
  /** The message of the query builder's exception for an order direction other than asc and desc. */
  const BadDirection: string := ServerError + "Order direction must be \"asc\" or \"desc\"."
  /** How many of a client's rows `getClient` lists. */
  const DetailRecentLimit: int := 10
  /** The `max:255` of the name and e-mail rules. */
  const MaxLength: nat := 255

  /** The caller is a logged-in administrator. */
  predicate IsMaster(caller: Option<UserRow>) {
    caller.Some? && caller.value.userType == Master
  }

  // ---------------------------------------------------------------- figures of one client

  /** A row `sum('amount')` adds up: of the user (any user for None), of the type and status. */
  predicate Counted(r: TxRow, userId: Option<nat>, kind: TxType, status: TxStatus) {
    (userId.None? || r.userId == userId.value) && r.kind == kind && r.status == status
  }

  /** `->sum('amount')` over the rows `Counted` accepts; 0 when there are none. */
  function SumOf(rows: seq<TxRow>, userId: Option<nat>, kind: TxType, status: TxStatus): int {
    if rows == [] then 0
    else SumOf(rows[..|rows| - 1], userId, kind, status)
         + (if Counted(rows[|rows| - 1], userId, kind, status) then rows[|rows| - 1].amount else 0)
  }

  datatype Stats = Stats(totalTransactions: nat, totalDeposits: int, totalWithdrawals: int, scheduledWithdrawals: int)

  /** The `stats` of a client: how many rows, processed deposits, processed and pending withdrawals. */
  function ClientStats(rows: seq<TxRow>, userId: nat): Stats {
    Stats(|Statements.Where(rows, (r: TxRow) => r.userId == userId)|,
          SumOf(rows, Some(userId), Deposito, Processado),
          SumOf(rows, Some(userId), Saque, Processado),
          SumOf(rows, Some(userId), Saque, Pendente))
  }

  /**
   * When a client's rows are exactly the rows of one account, processed deposits less processed
   * withdrawals is what those rows add to the account.
   */
  lemma {:induction false} DepositsLessWithdrawals(rows: seq<TxRow>, userId: nat, accountId: nat)
    requires forall i :: 0 <= i < |rows| ==> (rows[i].userId == userId <==> rows[i].accountId == accountId)
    ensures SumOf(rows, Some(userId), Deposito, Processado) - SumOf(rows, Some(userId), Saque, Processado)
            == Net(rows, accountId)
  {
    if rows != [] {
      DepositsLessWithdrawals(rows[..|rows| - 1], userId, accountId);
    }
  }

  /**
   * The figures agree with the balance: in balanced books, a client whose rows are exactly
   * those of their account has total_deposits - total_withdrawals equal to its balance.
   */
  lemma StatsMatchBalance(rows: seq<TxRow>, accs: seq<AccountRow>, m: nat)
    requires Balanced(rows, accs) && m < |accs|
    requires forall i :: 0 <= i < |rows| ==> (rows[i].userId == accs[m].userId <==> rows[i].accountId == accs[m].id)
    ensures var s := ClientStats(rows, accs[m].userId);
      s.totalDeposits - s.totalWithdrawals == accs[m].balance
  {
    DepositsLessWithdrawals(rows, accs[m].userId, accs[m].id);
  }

  // ---------------------------------------------------------------- getClients

  /** A user `getClients` lists: a client whose name or e-mail holds the search text, if one is given. */
  predicate Listable(u: UserRow, search: string) {
    u.userType == Cliente && (PhpEmpty(search) || Contains(u.name, search) || Contains(u.email, search))
  }

  /** The columns a client list may be ordered by. */
  datatype SortField = ByName | ByEmail | ByCreatedAt

  /** The `sort_by` whitelist: any other value leaves the list unordered. */
  function SortFieldOf(sortBy: string): Option<SortField> {
    if sortBy == "name" then Some(ByName)
    else if sortBy == "email" then Some(ByEmail)
    else if sortBy == "created_at" then Some(ByCreatedAt)
    else None
  }

  /** The query builder's direction check: "asc" or "desc" in any case; Some(true) for descending. */
  function Descending(sortOrder: string): Option<bool> {
    var d := Lower(sortOrder);
    if d == "asc" then Some(false) else if d == "desc" then Some(true) else None
  }

  /** `orderBy(field, 'asc')`: a may come before b. */
  predicate Ascending(field: SortField, a: UserRow, b: UserRow) {
    match field
    case ByName => LexLeq(a.name, b.name)
    case ByEmail => LexLeq(a.email, b.email)
    case ByCreatedAt => Instant(a.createdAt) <= Instant(b.createdAt)
  }

  function ClientOrder(field: SortField, descending: bool): (UserRow, UserRow) -> bool {
    (a, b) => if descending then Ascending(field, b, a) else Ascending(field, a, b)
  }

  lemma ClientOrderSorts(field: SortField, descending: bool)
    ensures Total(ClientOrder(field, descending)) && Transitive(ClientOrder(field, descending))
  {
    forall a, b, c
      ensures Ascending(field, a, b) || Ascending(field, b, a)
      ensures Ascending(field, a, b) && Ascending(field, b, c) ==> Ascending(field, a, c)
    {
      LexLeqOrders(a.name, b.name, c.name);
      LexLeqOrders(a.email, b.email, c.email);
    }
  }

  /**
   * The clients the list query returns before paging: the listable users, ordered by a
   * whitelisted column in the requested direction, or in store order for any other column.
   * A whitelisted column with a direction other than asc/desc raises, which answers 500.
   */
  function ClientListing(users: seq<UserRow>, search: string, sortBy: string, sortOrder: string)
    : (o: Outcome<seq<UserRow>>)
    ensures o.Fail? <==> SortFieldOf(sortBy).Some? && Descending(sortOrder).None?
    ensures o.Fail? ==> o == Fail(500, BadDirection)
    ensures o.Ok? ==> multiset(o.value) == multiset(Statements.Where(users, u => Listable(u, search)))
    ensures o.Ok? ==> |o.value| == |Statements.Where(users, u => Listable(u, search))|
    ensures o.Ok? ==> forall u :: u in o.value <==> u in users && Listable(u, search)
    ensures o.Ok? && SortFieldOf(sortBy).Some? ==>
              Sorted(o.value, ClientOrder(SortFieldOf(sortBy).value, Descending(sortOrder).value))
    ensures o.Ok? && SortFieldOf(sortBy).None? ==> o.value == Statements.Where(users, u => Listable(u, search))
  {
    var w := Statements.Where(users, u => Listable(u, search));
    match SortFieldOf(sortBy)
    case None => Ok(w)
    case Some(f) =>
      match Descending(sortOrder)
      case None => Fail(500, BadDirection)
      case Some(d) =>
        ClientOrderSorts(f, d);
        var r := Sort(w, ClientOrder(f, d));
        assert forall u :: u in r <==> u in multiset(r);
        assert forall u :: u in w <==> u in multiset(w);
        Ok(r)
  }

  /** The `account` of a list entry: id None and balance 0 for a client without one. */
  datatype AccountSummary = AccountSummary(id: Option<nat>, balance: int)

  datatype ClientEntry = ClientEntry(client: UserRow, account: AccountSummary, stats: Stats)

  /** The summary of a user's account, the first one the user owns. */
  function Summary(accs: seq<AccountRow>, userId: nat): (a: AccountSummary)
    ensures a.id.None? <==> forall i :: 0 <= i < |accs| ==> accs[i].userId != userId
    ensures a.id.None? ==> a.balance == 0
    ensures a.id.Some? ==> exists k :: 0 <= k < |accs| && accs[k] == AccountRow(a.id.value, userId, a.balance)
  {
    match FindAccount(accs, ByOwner(userId))
    case None => AccountSummary(None, 0)
    case Some(k) => AccountSummary(Some(accs[k].id), accs[k].balance)
  }

  function Entries(accs: seq<AccountRow>, rows: seq<TxRow>, clients: seq<UserRow>): (es: seq<ClientEntry>)
    ensures |es| == |clients|
    ensures forall i :: 0 <= i < |clients| ==>
      es[i] == ClientEntry(clients[i], Summary(accs, clients[i].id), ClientStats(rows, clients[i].id))
  {
    seq(|clients|, i requires 0 <= i < |clients| =>
      ClientEntry(clients[i], Summary(accs, clients[i].id), ClientStats(rows, clients[i].id)))
  }

  datatype ClientPage = ClientPage(clients: seq<ClientEntry>, currentPage: int, lastPage: int, perPage: int,
                                   total: nat, from: int, to: int)

  /**
   * `getClients`: the listing's page that skips (page - 1) * limit clients and takes limit,
   * each with its account and figures; last_page = ceil(total / limit), from = offset + 1
   * and to = min(offset + limit, total). A negative limit leaves `limit` without effect while
   * `offset` is still set; MySQL refuses an OFFSET without a LIMIT, and the handler answers 500
   * with the driver's text. A limit of 0 fails in the division of the page count.
   */
  function GetClients(users: seq<UserRow>, accs: seq<AccountRow>, rows: seq<TxRow>, caller: Option<UserRow>,
                      page: int, limit: int, search: string, sortBy: string, sortOrder: string)
    : (o: Outcome<ClientPage>)
    ensures !IsMaster(caller) <==> o == Fail(403, AccessDenied)
    ensures IsMaster(caller) ==>
      (o.Fail? <==> limit <= 0 || (SortFieldOf(sortBy).Some? && Descending(sortOrder).None?))
    ensures o.Fail? && IsMaster(caller) ==> o.status == 500
    ensures IsMaster(caller) && ClientListing(users, search, sortBy, sortOrder).Ok? && limit < 0 ==>
      o == Fail(500, Wallet.InternalError)
    ensures o.Ok? ==>
      var p := o.value;
      var offset := (page - 1) * limit;
      && p.clients == Entries(accs, rows, Statements.SkipTake(ClientListing(users, search, sortBy, sortOrder).value,
                                                              offset, limit))
      && p.currentPage == page && p.perPage == limit
      && p.total == |Statements.Where(users, u => Listable(u, search))|
      && p.lastPage == Statements.CeilDiv(p.total, limit)
      && p.from == offset + 1 && p.to == Pager.Min(offset + limit, p.total)
      && (limit > 0 ==> |p.clients| <= limit)
      && forall e :: e in p.clients ==>
           && e.client in users && Listable(e.client, search)
           && e.account == Summary(accs, e.client.id) && e.stats == ClientStats(rows, e.client.id)
  {
    if !IsMaster(caller) then Fail(403, AccessDenied)
    else match ClientListing(users, search, sortBy, sortOrder)
      case Fail(s, m) => Fail(s, m)
      case Ok(listed) =>
        if limit < 0 then Fail(500, Wallet.InternalError)
        else if limit == 0 then Fail(500, Statements.DivisionByZero)
        else
          var offset := (page - 1) * limit;
          var shown := Statements.SkipTake(listed, offset, limit);
          Statements.SkipTakeWithin(listed, offset, limit);
          Ok(ClientPage(Entries(accs, rows, shown), page, Statements.CeilDiv(|listed|, limit), limit,
                        |listed|, offset + 1, Pager.Min(offset + limit, |listed|)))
  }

  /**
   * `getClients` as written: the query eager-loads `account`, which `User` does not declare, so
   * fetching a page that holds a client raises; the handler answers 500 with the exception's
   * text after `ServerError`. An empty page loads nothing and goes on as `GetClients` does,
   * and so does a negative limit, whose query fails before anything is loaded.
   */
  function GetClientsAsWritten(users: seq<UserRow>, accs: seq<AccountRow>, rows: seq<TxRow>, caller: Option<UserRow>,
                               page: int, limit: int, search: string, sortBy: string, sortOrder: string)
    : (o: Outcome<ClientPage>)
  {
    if !IsMaster(caller) then Fail(403, AccessDenied)
    else match ClientListing(users, search, sortBy, sortOrder)
      case Fail(s, m) => Fail(s, m)
      case Ok(listed) =>
        var shown := if limit < 0 then [] else Statements.SkipTake(listed, (page - 1) * limit, limit);
        match WithAccountAsWritten(shown)
        case Fail(_, m) => Fail(500, ServerError + m)
        case Ok(_) => GetClients(users, accs, rows, caller, page, limit, search, sortBy, sortOrder)
  }

  /**
   * As written, the listing differs from `GetClients` exactly on the pages that hold clients,
   * and those all answer 500: only empty pages, refusals and failures come through.
   */
  lemma GetClientsAsWrittenFails(users: seq<UserRow>, accs: seq<AccountRow>, rows: seq<TxRow>, caller: Option<UserRow>,
                                 page: int, limit: int, search: string, sortBy: string, sortOrder: string)
    ensures var fixed := GetClients(users, accs, rows, caller, page, limit, search, sortBy, sortOrder);
      var o := GetClientsAsWritten(users, accs, rows, caller, page, limit, search, sortBy, sortOrder);
      && (fixed.Ok? && fixed.value.clients != [] <==> o != fixed)
      && (o != fixed ==> o == Fail(500, ServerError + NoAccountRelation))
      && (o.Ok? ==> o.value.clients == [])
  {
    if IsMaster(caller) && ClientListing(users, search, sortBy, sortOrder).Ok? {
      var listed := ClientListing(users, search, sortBy, sortOrder).value;
      var shown := if limit < 0 then [] else Statements.SkipTake(listed, (page - 1) * limit, limit);
      if limit <= 0 {
        assert shown == [];
      } else {
        assert |Entries(accs, rows, shown)| == |shown|;
      }
    }
  }

  /** How many items `skip(offset)->take(limit)` leaves, for offsets and limits that are not negative. */
  lemma SkipTakeLength<T>(s: seq<T>, offset: int, limit: int)
    requires offset >= 0 && limit >= 0
    ensures |Statements.SkipTake(s, offset, limit)| == Pager.Max(0, Pager.Min(offset + limit, |s|) - offset)
  {
  }

  /**
   * The pagination reads right from page 1 on: `from <= to` exactly when the page has clients,
   * and then the page holds to - from + 1 of them; the page has clients exactly when
   * page <= last_page.
   */
  lemma ClientPageBounds(users: seq<UserRow>, accs: seq<AccountRow>, rows: seq<TxRow>, caller: Option<UserRow>,
                         page: int, limit: int, search: string, sortBy: string, sortOrder: string)
    requires IsMaster(caller) && limit > 0 && page >= 1
    requires SortFieldOf(sortBy).None? || Descending(sortOrder).Some?
    ensures var o := GetClients(users, accs, rows, caller, page, limit, search, sortBy, sortOrder);
      var p := o.value;
      && (p.from <= p.to <==> p.clients != [])
      && (p.clients != [] ==> |p.clients| == p.to - p.from + 1)
      && (p.clients != [] <==> page <= p.lastPage)
  {
    var listed := ClientListing(users, search, sortBy, sortOrder).value;
    var offset := (page - 1) * limit;
    Statements.MulMono(0, page - 1, limit);
    SkipTakeLength(listed, offset, limit);
    Statements.PageArithmetic(|listed|, limit, page);
  }

  // ---------------------------------------------------------------- getClient

  /** `User::where('id', id)->where('user_type', 'CLIENTE')->first()`: the position of that client. */
  function FindClient(users: seq<UserRow>, id: nat): (k: Option<nat>)
    ensures k.Some? ==> k.value < |users| && users[k.value].id == id && users[k.value].userType == Cliente
    ensures k.None? <==> forall i :: 0 <= i < |users| ==> !(users[i].id == id && users[i].userType == Cliente)
  {
    if users == [] then None
    else if users[0].id == id && users[0].userType == Cliente then Some(0)
    else match FindClient(users[1..], id)
      case None => None
      case Some(j) => Some(j + 1)
  }

  datatype ClientDetail = ClientDetail(client: UserRow, account: Option<AccountRow>, stats: Stats, recent: seq<TxRow>)

  /** A client's rows, newest first: the statement query with both filters at "all". */
  function ClientRows(rows: seq<TxRow>, id: nat): seq<TxRow> {
    Statements.Listed(rows, id, Statements.All, Statements.All)
  }

  /**
   * `getClient`: the client with that id (404 when no client has it), the first account the
   * client owns, the figures and the client's ten newest rows.
   */
  function GetClient(users: seq<UserRow>, accs: seq<AccountRow>, rows: seq<TxRow>, caller: Option<UserRow>, id: nat)
    : (o: Outcome<ClientDetail>)
    ensures !IsMaster(caller) <==> o == Fail(403, AccessDenied)
    ensures IsMaster(caller) ==> (FindClient(users, id).None? <==> o == Fail(404, ClientNotFound))
    ensures o.Ok? ==>
      var d := o.value;
      && d.client in users && d.client.id == id && d.client.userType == Cliente
      && d.stats == ClientStats(rows, id)
      && (d.account.None? <==> forall i :: 0 <= i < |accs| ==> accs[i].userId != id)
      && (d.account.Some? ==> d.account.value in accs && d.account.value.userId == id)
      && |d.recent| <= DetailRecentLimit
      && d.recent == ClientRows(rows, id)[..Pager.Min(DetailRecentLimit, |ClientRows(rows, id)|)]
      && Sorted(d.recent, Statements.NewestFirst)
      && forall x :: x in d.recent ==> x in rows && x.userId == id
  {
    if !IsMaster(caller) then Fail(403, AccessDenied)
    else match FindClient(users, id)
      case None => Fail(404, ClientNotFound)
      case Some(k) =>
        var listed := ClientRows(rows, id);
        var recent := Statements.SkipTake(listed, 0, DetailRecentLimit);
        Statements.SliceSorted(listed, 0, DetailRecentLimit);
        assert recent == listed[..Pager.Min(DetailRecentLimit, |listed|)];
        var account := match FindAccount(accs, ByOwner(id)) case None => None case Some(j) => Some(accs[j]);
        Ok(ClientDetail(users[k], account, ClientStats(rows, id), recent))
  }

  /**
   * `getClient` as written: `first()` on the query that eager-loads `account` raises as soon as
   * it finds the client, since `User` declares no such relation; the handler answers 500.
   */
  function GetClientAsWritten(users: seq<UserRow>, caller: Option<UserRow>, id: nat): (o: Outcome<ClientDetail>)
  {
    if !IsMaster(caller) then Fail(403, AccessDenied)
    else
      var found := match FindClient(users, id) case None => [] case Some(k) => [users[k]];
      match WithAccountAsWritten(found)
      case Fail(_, m) => Fail(500, ServerError + m)
      case Ok(_) => Fail(404, ClientNotFound)
  }

  /** As written, the detail never comes through: where `GetClient` shows a client, the request answers 500. */
  lemma GetClientAsWrittenFails(users: seq<UserRow>, accs: seq<AccountRow>, rows: seq<TxRow>, caller: Option<UserRow>, id: nat)
    ensures var fixed := GetClient(users, accs, rows, caller, id);
      var o := GetClientAsWritten(users, caller, id);
      && (fixed.Fail? ==> o == fixed)
      && (fixed.Ok? ==> o == Fail(500, ServerError + NoAccountRelation))
  {
  }

  /**
   * The detail lists the client's newest rows: a row of the client left out is no newer than
   * any listed one, and a client with at most ten rows has all of them listed.
   */
  lemma ClientRecentAreNewest(users: seq<UserRow>, accs: seq<AccountRow>, rows: seq<TxRow>, caller: Option<UserRow>,
                              id: nat, x: TxRow)
    requires GetClient(users, accs, rows, caller, id).Ok?
    requires x in rows && x.userId == id
    ensures var d := GetClient(users, accs, rows, caller, id).value;
      && (x !in d.recent ==> forall y :: y in d.recent ==> Statements.NewestFirst(y, x))
      && (|ClientRows(rows, id)| <= DetailRecentLimit ==> x in d.recent)
  {
    var listed := ClientRows(rows, id);
    var n := Pager.Min(DetailRecentLimit, |listed|);
    assert Statements.SkipTake(listed, 0, DetailRecentLimit) == listed[..n];
    assert x in listed;
    Statements.NewestFirstOrders();
    SortedIsOrdered(listed, Statements.NewestFirst);
    Statements.PrefixBeforeRest(listed, n, x);
  }

  // ---------------------------------------------------------------- createClient and updateClient

  /** `required|string|max:255` on a text field: given, not blank once trimmed, at most 255 characters. */
  predicate RequiredText(v: Option<string>) {
    v.Some? && Trim(v.value) != "" && |v.value| <= MaxLength
  }

  /** Another user than the one with id `except` (if any) has this e-mail: the `unique:users,email` rule fails. */
  predicate Taken(users: seq<UserRow>, email: string, except: Option<nat>) {
    exists i :: 0 <= i < |users| && users[i].email == email && (except.None? || users[i].id != except.value)
  }

  /**
   * The validation of both forms: a required name and a required, well-formed, unused e-mail.
   * `isEmail` stands for the validator's `email` rule.
   */
  predicate ClientDataValid(users: seq<UserRow>, name: Option<string>, email: Option<string>, except: Option<nat>,
                            isEmail: string -> bool) {
    RequiredText(name) && RequiredText(email) && isEmail(email.value) && !Taken(users, email.value, except)
  }

  /** No two users share an e-mail: the invariant the unique rule keeps. */
  ghost predicate UniqueEmails(users: seq<UserRow>) {
    forall i, j :: 0 <= i < j < |users| ==> users[i].email != users[j].email
  }

  /** Adding a user whose e-mail is not taken keeps e-mails unique. */
  lemma NewEmailKeepsUnique(users: seq<UserRow>, u: UserRow)
    requires !Taken(users, u.email, None)
    ensures UniqueEmails(users) ==> UniqueEmails(users + [u])
  {
    if UniqueEmails(users) {
      forall i, j | 0 <= i < j < |users + [u]|
        ensures (users + [u])[i].email != (users + [u])[j].email
      {
        if j == |users| {
          assert users[i].email != u.email;
        }
      }
    }
  }

  /** Changing user k's e-mail to one no other user has keeps e-mails unique. */
  lemma ChangedEmailKeepsUnique(users: seq<UserRow>, k: nat, email: string, name: string)
    requires UniqueEmails(users) && k < |users|
    requires forall i :: 0 <= i < |users| && i != k ==> users[i].email != email
    ensures UniqueEmails(users[k := users[k].(name := name, email := email)])
  {
  }

  /** A new account with balance 0, which no row books to, keeps the books balanced and non-negative. */
  lemma OpenAccountKeepsBooks(rows: seq<TxRow>, accs: seq<AccountRow>, a: AccountRow)
    requires a.balance == 0
    requires forall i :: 0 <= i < |rows| ==> rows[i].accountId != a.id
    ensures Balanced(rows, accs) ==> Balanced(rows, accs + [a])
    ensures NonNegative(accs) ==> NonNegative(accs + [a])
  {
    NetOfUnused(rows, a.id);
  }

  datatype NewClient = NewClient(client: UserRow, account: AccountRow)

  /**
   * `createClient` as written: once the checks pass, `$client->password = null` hands null to
   * the `password` mutator, whose TypeError escapes the `catch (\Exception)`; the request ends
   * with 500 before the user or the account is saved.
   */
  function CreateClientAsWritten(users: seq<UserRow>, caller: Option<UserRow>, name: Option<string>,
                                 email: Option<string>, isEmail: string -> bool): (o: Outcome<NewClient>)
    ensures !IsMaster(caller) <==> o == Fail(403, AccessDenied)
    ensures IsMaster(caller) ==> (!ClientDataValid(users, name, email, None, isEmail) <==> o == Fail(422, InvalidInput))
  {
    if !IsMaster(caller) then Fail(403, AccessDenied)
    else if !ClientDataValid(users, name, email, None, isEmail) then Fail(422, InvalidInput)
    else Fail(500, NullPasswordError)
  }

  /**
   * As written, no request creates a client: the request `CreateClient` accepts (an
   * administrator's, with valid data) fails with 500 instead.
   */
  lemma CreateClientAsWrittenNeverCreates(users: seq<UserRow>, caller: Option<UserRow>, name: Option<string>,
                                          email: Option<string>, isEmail: string -> bool)
    ensures CreateClientAsWritten(users, caller, name, email, isEmail).Fail?
    ensures IsMaster(caller) && ClientDataValid(users, name, email, None, isEmail)
            ==> CreateClientAsWritten(users, caller, name, email, isEmail) == Fail(500, NullPasswordError)
  {
  }

  /**
   * `createClient` as intended: after the checks, a CLIENTE user without a password (set at the
   * first access) and an account with balance 0 for it. The name and e-mail are stored as given.
   */
  method CreateClient(store: Store, caller: Option<UserRow>, name: Option<string>, email: Option<string>,
                      isEmail: string -> bool, now: DateTime) returns (o: Outcome<NewClient>)
    requires store.Valid()
    modifies store
    ensures store.Valid()
    ensures !IsMaster(caller) ==> o == Fail(403, AccessDenied)
    ensures IsMaster(caller) && !ClientDataValid(old(store.UserRows()), name, email, None, isEmail)
            ==> o == Fail(422, InvalidInput)
    ensures o.Ok? <==> IsMaster(caller) && ClientDataValid(old(store.UserRows()), name, email, None, isEmail)
    ensures o.Fail? ==> store.UserRows() == old(store.UserRows()) && store.AccountRows() == old(store.AccountRows())
    ensures o.Ok? ==>
      && o.value.client == UserRow(old(store.nextUserId), name.value, email.value, None, Cliente, now)
      && o.value.account == AccountRow(old(store.nextAccountId), o.value.client.id, 0)
      && store.UserRows() == old(store.UserRows()) + [o.value.client]
      && store.AccountRows() == old(store.AccountRows()) + [o.value.account]
    ensures store.TxRows() == old(store.TxRows())
    ensures UniqueEmails(old(store.UserRows())) ==> UniqueEmails(store.UserRows())
    ensures Balanced(store.TxRows(), old(store.AccountRows())) ==> Balanced(store.TxRows(), store.AccountRows())
    ensures NonNegative(old(store.AccountRows())) ==> NonNegative(store.AccountRows())
  {
    if !IsMaster(caller) {
      return Fail(403, AccessDenied);
    }
    if !ClientDataValid(store.UserRows(), name, email, None, isEmail) {
      return Fail(422, InvalidInput);
    }
    ghost var users, accs, rows := store.UserRows(), store.AccountRows(), store.TxRows();
    var client, account := OpenClient(store, name.value, email.value, now);
    NewEmailKeepsUnique(users, client);
    OpenAccountKeepsBooks(rows, accs, account);
    o := Ok(NewClient(client, account));
  }

  /** Saves a new CLIENTE user without a password and a zero-balance account for it. */
  method OpenClient(store: Store, name: string, email: string, now: DateTime) returns (client: UserRow, account: AccountRow)
    requires store.Valid()
    modifies store
    ensures store.Valid()
    ensures client == UserRow(old(store.nextUserId), name, email, None, Cliente, now)
    ensures account == AccountRow(old(store.nextAccountId), client.id, 0)
    ensures store.UserRows() == old(store.UserRows()) + [client]
    ensures store.AccountRows() == old(store.AccountRows()) + [account]
    ensures store.TxRows() == old(store.TxRows())
    ensures forall i :: 0 <= i < |store.TxRows()| ==> store.TxRows()[i].accountId != account.id
  {
    client := InsertUser(store, name, email, None, Cliente, now);
    account := InsertAccount(store, client.id, 0);
  }

  /**
   * `updateClient`: the client with that id (404 when there is none) gets the new name and
   * e-mail once they pass the checks, where the e-mail may stay the client's own.
   */
  method UpdateClient(store: Store, caller: Option<UserRow>, id: nat, name: Option<string>, email: Option<string>,
                      isEmail: string -> bool) returns (o: Outcome<UserRow>)
    requires store.Valid()
    modifies store.users
    ensures store.Valid()
    ensures !IsMaster(caller) ==> o == Fail(403, AccessDenied)
    ensures IsMaster(caller) ==> (FindClient(old(store.UserRows()), id).None? <==> o == Fail(404, ClientNotFound))
    ensures o.Ok? <==> IsMaster(caller) && FindClient(old(store.UserRows()), id).Some?
                       && ClientDataValid(old(store.UserRows()), name, email, Some(id), isEmail)
    ensures o.Fail? ==> store.UserRows() == old(store.UserRows())
    ensures o.Ok? ==>
      var k := FindClient(old(store.UserRows()), id).value;
      && o.value == old(store.UserRows())[k].(name := name.value, email := email.value)
      && store.UserRows() == old(store.UserRows())[k := o.value]
    ensures store.TxRows() == old(store.TxRows()) && store.AccountRows() == old(store.AccountRows())
    ensures UniqueEmails(old(store.UserRows())) ==> UniqueEmails(store.UserRows())
  {
    var users := store.UserRows();
    if !IsMaster(caller) {
      return Fail(403, AccessDenied);
    }
    var k := FindClient(users, id);
    if k.None? {
      return Fail(404, ClientNotFound);
    }
    if !ClientDataValid(users, name, email, Some(id), isEmail) {
      return Fail(422, InvalidInput);
    }
    o := Ok(users[k.value].(name := name.value, email := email.value));
    Rename(store, k.value, name.value, email.value);
    forall i | 0 <= i < |users| && i != k.value
      ensures users[i].email != email.value
    {
      assert users[i].id != id by {
        if i < k.value { assert store.users[i].id != store.users[k.value].id; }
        else { assert store.users[k.value].id != store.users[i].id; }
      }
    }
    if UniqueEmails(users) {
      ChangedEmailKeepsUnique(users, k.value, email.value, name.value);
    }
  }

  /** Sets the name and e-mail of the user at position k; every other row reads as before. */
  method Rename(store: Store, k: nat, name: string, email: string)
    requires store.Valid() && k < |store.users|
    modifies store.users[k]
    ensures store.UserRows() == old(store.UserRows())[k := old(store.UserRows())[k].(name := name, email := email)]
    ensures store.TxRows() == old(store.TxRows()) && store.AccountRows() == old(store.AccountRows())
  {
    ghost var users := store.UserRows();
    var u := store.users[k];
    u.name := name;
    u.email := email;
    forall i | 0 <= i < |users| && i != k
      ensures store.UserRows()[i] == users[i]
    {
      if i < k { assert store.users[i].id != store.users[k].id; }
      else { assert store.users[k].id != store.users[i].id; }
    }
  }
}
