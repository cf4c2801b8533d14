# Wallet ledger of user-withdrawal-control, modelled in Dafny

The system is a digital wallet. It has Hyperf/PHP controllers and a React front end. Every
user (`CLIENTE` or `MASTER`) may own an account with a balance.

- **Deposits** are `DEPOSITO` transactions. They are processed on the spot.
- **Withdrawals** are `SAQUE` transactions paid to a PIX key. They are either immediate
  (`PROCESSADO`, with the balance debited) or scheduled (`PENDENTE`, for a later date).
- **Cancellation.** A scheduled withdrawal may be cancelled while it is still `PENDENTE`.
- **The `withdrawals:process-scheduled` command** settles every due one. It debits the account
  when the balance covers the amount at that moment, and marks the row `FALHOU` otherwise.
- **Administrators** list, inspect, create and update clients, and see overall figures.
- **The front end** pages the statement with a row of page buttons.

The model has these parts:

- **The database (`Ledger`).** A `Store` class holds the users, accounts, transactions and
  withdrawal details, with their id counters. The models `Account`, `Transaction` and `User`
  are classes whose methods update their fields in place (`Accounts`, `Transactions`,
  `Users`). `Pix` holds the PIX key types and the details row.
- **The writing endpoints.** These are imperative methods on the store:
  - the client area and the older token-checked controller (`Wallet`);
  - the batch command (`Settlement`);
  - registration and first password (`Auth`);
  - client creation and update (`MasterClients`).

  Each method states the new rows and balances as a function of the old ones.
- **The reading endpoints.** These are pure functions over read-only snapshots of the rows:
  - the statement and recent transactions (`Statements`);
  - the administrator's client list and detail (`MasterClients`);
  - the dashboard (`MasterStats`);
  - the front-end pager (`Pager`).
- **Helpers.** `Text` covers PHP's `trim`, string order and zero-padded digits. `Calendar`
  covers `Y-m-d` dates and `DateTimeHelper`. `Sorting` is an insertion sort that stands for
  `orderBy`.

The central invariant is `Ledger.Balanced`: every balance equals the processed deposits less
the processed withdrawals booked to its account. Deposits, immediate withdrawals, cancellations
and the batch are proved to keep it. `Ledger.NonNegative` (no balance below zero) is kept too.

**Representation.**

- **Money** is an integer number of cents, for the `decimal(15,2)` columns.
- **Time** is a `Calendar.DateTime` on the `America/Sao_Paulo` wall clock. The current time is
  a parameter (`now`).
- **Endpoint results.** An endpoint answers `Ok(value)` or `Fail(status, message)`, with the
  controller's HTTP status and message.
- **Server errors.** An `\Exception` the controllers catch answers 500 with "Erro interno do
  servidor: " followed by the exception's text. The model keeps that whole text where the text
  is fixed (`MasterClients.ServerError` and what follows it). Where the text comes from the
  database driver (a failed insert, a query MySQL refuses) or from `new \DateTime` refusing a
  text, it keeps only the prefix, `Wallet.InternalError`. PHP `Error`s are not
  caught: a `TypeError`, a `DivisionByZeroError`, or a method called on null or false. They
  end in status 500. The body is written by the application's exception handler, which is not
  part of this model. The model labels each such case with PHP's error message, for instance
  `Wallet.SetTimeOnBool`, and that label is not what the program sends.

## Model

| member | source | states |
|---|---|---|
| `Accounts.Account.constructor` | backend/app/Model/Account.php:13-24 | A new account has the given id, owner and balance. |
| `Accounts.Account.AddBalance` | backend/app/Model/Account.php:36-40 | The balance grows by the amount, whatever its sign. |
| `Accounts.Account.SubtractBalance` | backend/app/Model/Account.php:42-50 | It debits exactly when the balance covers the amount, and then the balance stays non-negative. Otherwise the balance is unchanged and it answers false. |
| `Users.User.constructor` | backend/app/Model/User.php:9-27 | A new user has the given fields. |
| `Users.User.Row` | backend/app/Model/User.php:13-23 | The snapshot of a user carries each of its stored fields. |
| `Users.FindUser` | backend/app/Controller/TransactionController.php:459 | `find` gives the first user with that id, or nothing exactly when no user has it. |
| `Users.WithAccountAsWritten` | backend/app/Model/User.php:9-38 | Eager loading `account` succeeds exactly on an empty result, and otherwise raises the missing-relation exception. |
| `Transactions.CodesDistinct` | backend/app/Model/Transaction.php:35-43 | The stored type and status codes are distinct, so comparing codes is comparing values. |
| `Transactions.Transaction.constructor` | backend/app/Model/Transaction.php:13-33 | A new transaction has the given fields and no failure reason. |
| `Transactions.Transaction.MarkAsProcessed` | backend/app/Model/Transaction.php:85-90 | Whatever the status before, it becomes PROCESSADO with `processed_at` now. The failure reason is kept. |
| `Transactions.Transaction.MarkAsFailed` | backend/app/Model/Transaction.php:92-98 | Whatever the status before, it becomes FALHOU with the reason and `processed_at` now. |
| `Transactions.Transaction.Row` | backend/app/Model/Transaction.php:13-58 | The snapshot of a transaction carries its fields and its details row. |
| `Transactions.StatusTestsExclusive` | backend/app/Model/Transaction.php:60-83 | At most one of isPending, isProcessed and isFailed holds, none of them for CANCELADO, and a row is exactly one of deposit or withdrawal. |
| `Pix.PixTypeFromCode` | backend/migrations/2025_10_23_234508_create_withdrawal_details_table.php:17 | A code names a key type exactly when it is one of the four enum values, and that type's code is the text. |
| `Pix.CodeRoundTrip` | backend/app/Model/WithdrawalDetails.php:27-30 | Reading back the stored code of a key type gives the type. |
| `Pix.ExactlyOneKeyType` | backend/app/Model/WithdrawalDetails.php:37-55 | Exactly one of isEmail, isPhone, isCpf and isRandom holds for a stored details row. |
| `Text.TrimLeft` | backend/app/Controller/AuthController.php:88 | It drops only trim characters at the front, and what it keeps does not start with one. |
| `Text.TrimRight` | backend/app/Controller/AuthController.php:88 | It drops only trim characters at the back, and what it keeps does not end with one. |
| `Text.TrimIsInfix` | backend/app/Controller/AuthController.php:125-129 | `trim` keeps an infix of its input, and everything outside that infix is a trim character. |
| `Text.TrimEnds` | backend/app/Controller/AuthController.php:125-129 | What `trim` keeps neither starts nor ends with a trim character. |
| `Text.TrimFixpoint` | backend/app/Controller/AuthController.php:125-129 | A text with no trim character at either end is its own trim. |
| `Text.TrimIdempotent` | backend/app/Controller/AuthController.php:88-92 | Trimming twice is trimming once, so the length checks on the trimmed name judge the stored name. |
| `Text.LexLessIrreflexive` | backend/app/Controller/TransactionController.php:145 | No text compares below itself. |
| `Text.LexTotal` | backend/app/Controller/TransactionController.php:145-152 | Two distinct texts are ordered exactly one way. |
| `Text.LexLessTransitive` | backend/app/Controller/TransactionController.php:145-152 | The text order is transitive. |
| `Text.LexLeqOrders` | backend/app/Controller/TransactionController.php:145-152 | `<=` on texts is a total order. |
| `Text.FixedDigits` | backend/app/Controller/TransactionController.php:141-143 | A zero-padded field has the requested width and only digits. |
| `Text.DigitsRoundTrip` | backend/app/Controller/TransactionController.php:141-143 | Reading back a zero-padded number gives the number. |
| `Text.DigitsRoundTripBack` | backend/app/Controller/TransactionController.php:141-143 | Rendering the value of a digit string gives the string back. |
| `Text.FixedDigitsOrder` | backend/app/Controller/TransactionController.php:141-152 | For numbers of at most n digits, the order of the padded texts is the numeric order, and equal texts mean equal numbers. |
| `Calendar.NextDay` | backend/app/Controller/TransactionController.php:138 | The next calendar day is a valid date one day number later. |
| `Calendar.AddDays` | backend/app/Controller/TransactionController.php:138 | `modify('+n days')` on the date gives a valid date exactly n day numbers later. |
| `Calendar.DayNumberOrder` | backend/app/Controller/TransactionController.php:141-152 | Calendar order is day-number order, and day numbers are one to one. |
| `Calendar.LeadingDigits` | backend/app/Helper/DateTimeHelper.php:48 | A field read takes as many leading digits as it may, and stops only at the limit, the end or a non-digit. |
| `Calendar.DayOfMonth` | backend/app/Helper/DateTimeHelper.php:48 | Day d of a month, counted on past the month's end, is a valid date. |
| `Calendar.DayOfMonthCounts` | backend/app/Helper/DateTimeHelper.php:48 | Day d of a month, counted on, lies d - 1 days after the first of that month. |
| `Calendar.MonthStart` | backend/app/Helper/DateTimeHelper.php:48 | Month number k, counted from January of year 0, starts on a valid first of a month. |
| `Calendar.DayBefore` | backend/app/Helper/DateTimeHelper.php:48 | The day before a date is a valid date; only 0000-01-01 has none. |
| `Calendar.DayBeforeCounts` | backend/app/Helper/DateTimeHelper.php:48 | The day before a date is one day number earlier. |
| `Calendar.Normalize` | backend/app/Helper/DateTimeHelper.php:48 | Fields with a month or day out of range carry over to a valid date, and to none exactly when that falls before year 0. |
| `Calendar.NormalizeCounts` | backend/app/Helper/DateTimeHelper.php:48 | The carried-over date lies day - 1 days after the first of the month the fields count to. |
| `Calendar.NormalizeValid` | backend/app/Helper/DateTimeHelper.php:48 | A valid date carries over to itself. |
| `Calendar.ParseYmd` | backend/app/Helper/DateTimeHelper.php:48 | `createFromFormat('Y-m-d')` reads a date exactly when the text is up to four digits, a dash, one or two digits, a dash and one or two digits. The date is the fields carried over into range. |
| `Calendar.ShapeNumbers` | backend/app/Helper/DateTimeHelper.php:48 | A `dddd-dd-dd` text is read as its three fields. |
| `Calendar.ParseYmdStrict` | backend/app/Helper/DateTimeHelper.php:48 | A `dddd-dd-dd` text naming a real date reads as that date, and it is that date's rendering. |
| `Calendar.ReadsShortFields` | backend/app/Helper/DateTimeHelper.php:48 | One-digit month and day (1 to 9) are read as those numbers: "2025-1-5" is 2025-01-05. |
| `Calendar.FebruaryOverflow` | backend/app/Helper/DateTimeHelper.php:48 | February 30th is March 2nd of a common year and March 1st of a leap year. |
| `Calendar.MonthOverflow` | backend/app/Helper/DateTimeHelper.php:48 | Month 13 is January of the next year. |
| `Calendar.DayZero` | backend/app/Helper/DateTimeHelper.php:48 | Day 0 is the last day of the month before. |
| `Calendar.ReadsDayOverflow` | backend/app/Helper/DateTimeHelper.php:48 | Any `yyyy-02-30` text reads as March 2nd ("2025-02-30" is 2025-03-02), or March 1st in a leap year. |
| `Calendar.ReadsMonthOverflow` | backend/app/Helper/DateTimeHelper.php:48 | Any `yyyy-13-dd` text with a day up to 31 reads as that day of January of the next year. |
| `Calendar.ReadsDayZero` | backend/app/Helper/DateTimeHelper.php:48 | Any `yyyy-mm-00` text reads as the last day of the month before. |
| `Calendar.RejectsTrailingText` | backend/app/Helper/DateTimeHelper.php:48 | Text after the day makes the read fail. |
| `Calendar.DateNumbers` | backend/app/Helper/DateTimeHelper.php:31 | The date part `new DateTime` takes has a month up to 12 and a day up to 31. |
| `Calendar.At` | backend/app/Helper/DateTimeHelper.php:31 | The moment some seconds after the start of a day is valid and lies that many seconds later. |
| `Calendar.ParseDateTime` | backend/app/Helper/DateTimeHelper.php:31 | What the date-time reader returns is a valid moment. |
| `Calendar.ParseDateTimeNormalises` | backend/app/Helper/DateTimeHelper.php:31 | An accepted `date time` text is the time's seconds after the start of the carried-over date. |
| `Calendar.ReadsDateAndTime` | backend/app/Helper/DateTimeHelper.php:31 | An accepted `date time` text is the moment `At` gives for the carried-over date and the time's seconds. |
| `Calendar.ReadsDateAlone` | backend/app/Helper/DateTimeHelper.php:31 | A date alone is read at midnight of the carried-over date ("2025-02-30" is 2025-03-02 00:00:00). |
| `Calendar.ReadsHour24` | backend/app/Helper/DateTimeHelper.php:31 | Hour 24 of a day is midnight of the next day. |
| `Calendar.RejectsMinute61` | backend/app/Helper/DateTimeHelper.php:31 | A minute past 59 makes the read fail. |
| `Calendar.CreateScheduledAt` | backend/app/Helper/DateTimeHelper.php:45-52 | There is a result exactly when `createFromFormat` reads the text, and it is the date read at 06:00:00. |
| `Calendar.ScheduledAtOfRendering` | backend/app/Helper/DateTimeHelper.php:45-52 | The rendering of a date is scheduled at 06:00:00 of that very date. |
| `Calendar.CreateBrazilDateTime` | backend/app/Helper/DateTimeHelper.php:23-32 | With no text it is now; otherwise it is the parsed text. |
| `Calendar.NowBrazil` | backend/app/Helper/DateTimeHelper.php:37-40 | The 19-character rendering of now reads back as now. |
| `Calendar.YmdRoundTrip` | backend/app/Controller/TransactionController.php:141-143 | A date rendered as `Y-m-d` reads back as the same date. |
| `Calendar.DateTimeRoundTrip` | backend/app/Helper/DateTimeHelper.php:37-40 | A moment rendered as `Y-m-d H:i:s` reads back as the same moment. |
| `Calendar.ReadsRendering` | backend/app/Helper/DateTimeHelper.php:37-40 | A date and a time of day rendered as `Y-m-d H:i:s` read back as the same fields. |
| `Calendar.TimeRoundTrip` | backend/app/Helper/DateTimeHelper.php:37-40 | A time of day rendered as `H:i:s` is in range and reads back as the same seconds. |
| `Calendar.AtFields` | backend/app/Helper/DateTimeHelper.php:37-40 | The moment a time of day's seconds after the start of a day has that time's fields. |
| `Calendar.FormatOrder` | backend/app/Controller/TransactionController.php:141-152 | For four-digit years, the text order of `Y-m-d` renderings is the order of the days. |
| `Calendar.FormatInjective` | backend/app/Controller/TransactionController.php:141-143 | Different dates render differently. |
| `Sorting.Insert` | backend/app/Controller/Client/TransactionController.php:244 | Inserting into an ordered list keeps it ordered and adds exactly that element. |
| `Sorting.Sort` | backend/app/Controller/Client/TransactionController.php:244 | `orderBy` returns an ordered permutation of its input. |
| `Sorting.SortedIsOrdered` | backend/app/Controller/Client/TransactionController.php:244 | For a transitive order, neighbours in order means every earlier element may precede every later one. |
| `Sorting.SortMembers` | backend/app/Controller/Client/TransactionController.php:244 | Sorting keeps exactly the members of its input. |
| `Ledger.DetailsFor` | backend/app/Model/Transaction.php:55-58 | The has-one relation finds a details row of that transaction, or none when no row refers to it. |
| `Ledger.RowsOf` | backend/migrations/2025_10_23_234459_create_transactions_table.php:14-28 | The transaction snapshots are the stored rows in order, each with its details. |
| `Ledger.UserRowsOf` | backend/app/Model/User.php:13-23 | The user snapshots are the stored users in order. |
| `Ledger.AccountRowsOf` | backend/migrations/2025_10_23_234451_create_accounts_table.php:14-20 | The account snapshots are the stored accounts in order, with their balances. |
| `Ledger.FindAccount` | backend/app/Model/Transaction.php:50-53 | The lookup finds the first account row whose owner (or id) is the key, or none exactly when no row matches. |
| `Ledger.FindByIdSameIds` | backend/app/Model/Account.php:36-50 | Changing balances does not change which account an id finds. |
| `Ledger.FindByIdUnique` | backend/migrations/2025_10_23_234451_create_accounts_table.php:15 | With unique ids, looking up an account's id finds that account. |
| `Ledger.Booked` | backend/app/Model/Account.php:36-50 | Booking changes the balance of one account by the amount and leaves every other account as it was. |
| `Ledger.NetAppend` | backend/app/Model/Account.php:36-50 | A new row changes what an account's rows add up to by that row's effect. |
| `Ledger.NetUpdate` | backend/app/Model/Transaction.php:85-98 | Replacing a row changes an account's total by the difference of the two rows' effects. |
| `Ledger.NetOfUnused` | backend/migrations/2025_10_23_234451_create_accounts_table.php:17 | An account no row books to accounts for 0. |
| `Ledger.BookedKeepsNonNegative` | backend/app/Model/Account.php:42-55 | A debit the balance covers keeps every balance non-negative. |
| `Ledger.BookKeepsBalanced` | backend/app/Model/Account.php:36-50 | Recording a row and booking its effect on its own account keeps every balance equal to its rows' total. |
| `Ledger.UndebitedWithdrawalUnbalances` | backend/app/Controller/Client/TransactionController.php:119-140 | A processed withdrawal recorded without its debit breaks that balance. |
| `Ledger.Store.constructor` | backend/migrations/2025_10_23_234459_create_transactions_table.php:14-28 | An empty database is well formed and has no negative balance. |
| `Ledger.Store.CreateTransaction` | backend/app/Controller/Client/TransactionController.php:119-128 | The insert appends a row under the next id with the given fields and nothing else changes. No details row refers to the new id yet. |
| `Ledger.Store.CreateDetails` | backend/app/Controller/Client/TransactionController.php:131-135 | The insert appends the details row and nothing else changes. |
| `Ledger.Store.CreateUser` | backend/app/Controller/AuthController.php:42-46 | The insert appends a user under the next id and nothing else changes. |
| `Ledger.Store.CreateAccount` | backend/app/Controller/Master/ClientController.php:169-180 | The insert appends an account under the next id and nothing else changes. |
| `Ledger.TransactionsDistinct` | backend/migrations/2025_10_23_234459_create_transactions_table.php:15 | Unique ids make the stored transactions distinct. |
| `Ledger.AccountLookup` | backend/migrations/2025_10_23_234451_create_accounts_table.php:15 | Stored account ids are unique, so each account's id finds that account. |
| `Ledger.RowsUseStoredAccounts` | backend/migrations/2025_10_23_234459_create_transactions_table.php:17 | The foreign key holds: every row books to an account id already handed out. |
| `Ledger.Debit` | backend/app/Model/Account.php:42-50 | A covered debit lowers one account by the amount and leaves the rows unchanged. |
| `Ledger.Credit` | backend/app/Model/Account.php:36-40 | A credit raises one account by the amount and leaves the rows unchanged. |
| `Ledger.Record` | backend/app/Controller/Client/TransactionController.php:41-52 | Recording appends the row under the next id with the given fields and leaves the balances unchanged. |
| `Ledger.InsertUser` | backend/app/Controller/AuthController.php:42-46 | The user rows gain the new user at the end. The transactions and accounts read as before. |
| `Ledger.InsertAccount` | backend/app/Controller/Master/ClientController.php:175-178 | The account rows gain the new account at the end, under an id no transaction books to. The other rows read as before. |
| `Ledger.AccountRowsFrame` | backend/app/Model/Account.php:36-50 | Accounts nobody touched read the same. |
| `Ledger.RowsAppend` | backend/app/Controller/Client/TransactionController.php:119-128 | The rows of one more transaction are the old rows plus its row. |
| `Ledger.Attach` | backend/app/Controller/Client/TransactionController.php:131-135 | Inserting the newest row's details attaches them to that row only. |
| `Ledger.DetailsForAppend` | backend/app/Model/Transaction.php:55-58 | A details row added at the end answers only for its own id, and only where no earlier row did. |
| `Wallet.RowEffects` | backend/app/Controller/Client/TransactionController.php:41-52 | A deposit books its whole amount. A withdrawal books minus its amount when immediate and nothing when scheduled. |
| `Wallet.WrittenKeepsBooks` | backend/app/Controller/Client/TransactionController.php:119-140 | Writing a covered withdrawal keeps balances non-negative. A completed write also keeps the books balanced. |
| `Wallet.ClientChecksBalance` | backend/app/Controller/Client/TransactionController.php:87-117 | The client endpoint accepts exactly when the amount is at least R$ 0,01, key type and key are present, the balance covers the amount (scheduled or not) and a given date is one `ParseYmd` reads, which carries out-of-range fields over. It schedules exactly when a date is given. |
| `Wallet.ClientSchedulesAtSix` | backend/app/Controller/Client/TransactionController.php:103-109 | An accepted scheduled withdrawal is due at 06:00:00 of the date `createFromFormat` reads, which for a well-formed `Y-m-d` text is the date it names. |
| `Wallet.ClientUnreadableDate` | backend/app/Controller/Client/TransactionController.php:103-109 | Past the form checks, a scheduled date `createFromFormat` cannot read ends exactly in the uncaught `setTime()` Error, before the balance is looked at. |
| `Wallet.LegacyScheduledIgnoresBalance` | backend/app/Controller/TransactionController.php:133-157 | The older controller decides a scheduled withdrawal the same way whatever the balance, and keeps the time as given. |
| `Wallet.LegacyImmediateChecksBalance` | backend/app/Controller/TransactionController.php:158-166 | The older controller accepts an immediate withdrawal only when the balance covers it. |
| `Wallet.NotAfterByText` | backend/app/Controller/TransactionController.php:145 | `<=` on `Y-m-d` texts is the order of the days. |
| `Wallet.WindowEnd` | backend/app/Controller/TransactionController.php:138 | The window's last day is seven days after today, in the same or the next year. |
| `Wallet.WindowIsSevenDays` | backend/app/Controller/TransactionController.php:133-157 | A date passes the two text comparisons exactly when it falls on one of the seven days after today. |
| `Wallet.WindowEdges` | backend/app/Controller/TransactionController.php:145-157 | Tomorrow and the seventh day pass. Today and the eighth day do not. |
| `Wallet.LegacyWindow` | backend/app/Controller/TransactionController.php:133-157 | A readable scheduled date with valid fields is accepted exactly when it is inside the window. |
| `Wallet.FindCancellable` | backend/app/Request/CancelScheduledWithdrawalRequest.php:46-56 | The query finds one of the caller's PENDENTE withdrawals with that id, or none exactly when none exists. |
| `Wallet.ValidateCancellation` | backend/app/Request/CancelScheduledWithdrawalRequest.php:26-85 | An accepted request yields the position of a row. |
| `Wallet.ValidateCancellationExact` | backend/app/Request/CancelScheduledWithdrawalRequest.php:26-85 | A request is accepted exactly when an id of at least 1 and a user are given and that user has a PENDENTE withdrawal with that id. The picked row is such a row, and the status re-check never fires. |
| `Wallet.LegacyCancelDecision` | backend/app/Controller/TransactionController.php:391-427 | An accepted request yields the position of a row. |
| `Wallet.LegacyCancelExact` | backend/app/Controller/TransactionController.php:391-427 | The older cancellation picks the caller's PENDENTE withdrawal with that id, and its status re-check never fires. |
| `Wallet.CancelKeepsBooks` | backend/app/Controller/Client/TransactionController.php:180-217 | Cancelling a PENDENTE row keeps the books balanced, and the batch never selects the row again. |
| `Wallet.CancelAt` | backend/app/Controller/Client/TransactionController.php:186-191 | The update makes that row CANCELADO now with the user's reason and changes nothing else. |
| `Wallet.WriteWithdrawal` | backend/app/Controller/Client/TransactionController.php:119-140 | It writes the row, its details and, for an immediate withdrawal, the debit. The result is the state `WithdrawalWritten` describes. A scheduled withdrawal leaves the balances unchanged. |
| `Wallet.AttachPix` | backend/app/Controller/Client/TransactionController.php:131-140 | With a known key type the details row follows and an immediate withdrawal is debited. With any other key type the insert fails after the row is written. |
| `Wallet.Detail` | backend/app/Controller/Client/TransactionController.php:131-135 | After the details insert, the new row reads with its details. |
| `Wallet.DebitIfProcessed` | backend/app/Controller/Client/TransactionController.php:138-140 | Only a PROCESSADO withdrawal is debited, by its effect on its account. |
| `Wallet.ClientDeposit` | backend/app/Controller/Client/TransactionController.php:28-85 | An invalid amount answers 422 and changes nothing. A valid one adds a PROCESSADO DEPOSITO row and credits the account. Both keep balanced and non-negative books. |
| `Wallet.Deposit` | backend/app/Controller/Client/TransactionController.php:41-52 | The write credits the amount and records the processed row. It keeps the books balanced, and non-negative for a non-negative amount. |
| `Wallet.ClientWithdraw` | backend/app/Controller/Client/TransactionController.php:87-178 | It refuses as the client checks say and changes nothing. Otherwise it writes the withdrawal, PENDENTE at 06:00 or PROCESSADO and debited. A scheduled one changes no balance. Balances stay non-negative and a completed write keeps them balanced. |
| `Wallet.ClientCancel` | backend/app/Controller/Client/TransactionController.php:180-217 | It refuses as the form request says. Otherwise exactly the picked row becomes CANCELADO now. No balance changes. |
| `Wallet.LegacyDeposit` | backend/app/Controller/TransactionController.php:23-90 | It answers 401 without a caller, 400 for a non-positive amount and 404 without an account. Otherwise it credits the account and records the row. |
| `Wallet.LegacyWithdraw` | backend/app/Controller/TransactionController.php:92-220 | It refuses as the older checks say and changes nothing. Otherwise it writes the withdrawal, with the key type defaulting to EMAIL. A scheduled one changes no balance, and balances stay non-negative. |
| `Wallet.LegacyCancel` | backend/app/Controller/TransactionController.php:380-446 | It refuses as the older checks say. Otherwise exactly the picked row becomes CANCELADO. No balance changes. |
| `Wallet.LegacyCallerAsWritten` | backend/app/Controller/TransactionController.php:448-463 | As written, no token yields a caller. |
| `Wallet.LegacyRefusesEveryone` | backend/app/Controller/TransactionController.php:92-220 | As written, every withdrawal and cancellation of the older controller answers 401. |
| `Wallet.ClientDepositNeverWrites` | backend/app/Controller/Client/TransactionController.php:28-85 | As written, no client deposit goes through. A valid amount answers 500 with the Error of assigning a balance on null. |
| `Wallet.ClientWithdrawNeverWrites` | backend/app/Controller/Client/TransactionController.php:87-178 | As written, the withdrawal refuses as `ClientDecision` does before the balance. It answers 500 exactly where `ClientDecision` would accept or look at the balance. |
| `Wallet.MessagesDiffer` | backend/app/Controller/Client/TransactionController.php:76-115 | The 422 messages for invalid data and for an uncovered balance differ from each other and from PHP's texts for the `setTime()` and `hasSufficientBalance()` calls on false and on null. |
| `Settlement.DueFrom` | backend/app/Command/ProcessScheduledWithdrawalsCommand.php:40-45 | The selection is every position of a PENDENTE SAQUE whose time has come, in store order, each once. |
| `Settlement.Step` | backend/app/Command/ProcessScheduledWithdrawalsCommand.php:58-113 | One turn settles its row and only that row, adds one to processed or failed, and queues a confirmation only for a PROCESSADO row with details. |
| `Settlement.StepFails` | backend/app/Command/ProcessScheduledWithdrawalsCommand.php:65-70 | A row whose account does not cover it, or that raised, becomes FALHOU with the reason, and no balance changes. |
| `Settlement.StepDebits` | backend/app/Command/ProcessScheduledWithdrawalsCommand.php:74-79 | A covered row is debited from its account and becomes PROCESSADO now. |
| `Settlement.Run` | backend/app/Command/ProcessScheduledWithdrawalsCommand.php:58-113 | The loop keeps the rows' number and the accounts' ids. |
| `Settlement.RunCounts` | backend/app/Command/ProcessScheduledWithdrawalsCommand.php:55-113 | processed + failed grows by the number of rows visited. |
| `Settlement.RunLeavesOthers` | backend/app/Command/ProcessScheduledWithdrawalsCommand.php:58-113 | Rows the loop does not visit are left as they were. |
| `Settlement.RunSettles` | backend/app/Command/ProcessScheduledWithdrawalsCommand.php:58-113 | Each visited row ends PROCESSADO or FALHOU, with only its status and stamps changed. |
| `Settlement.RunNotifies` | backend/app/Command/ProcessScheduledWithdrawalsCommand.php:82-97 | A confirmation goes out exactly for the visited rows that ended PROCESSADO and have details, in loop order. |
| `Settlement.RunNeverReselects` | backend/app/Command/ProcessScheduledWithdrawalsCommand.php:40-45 | A visited row is never selected again, at any later time. |
| `Settlement.NothingSelected` | backend/app/Command/ProcessScheduledWithdrawalsCommand.php:50-53 | With no row due, nothing is selected. |
| `Settlement.RunLeavesNothingDue` | backend/app/Command/ProcessScheduledWithdrawalsCommand.php:40-113 | After a run over the selection, nothing is due at the same time. |
| `Settlement.RunKeepsBalancesNonNegative` | backend/app/Command/ProcessScheduledWithdrawalsCommand.php:65-79 | A debit happens only when the balance covers it, so no balance becomes negative. |
| `Settlement.StepKeepsBooks` | backend/app/Command/ProcessScheduledWithdrawalsCommand.php:65-79 | One turn keeps every account's excess of balance over its processed rows. |
| `Settlement.RunKeepsBooks` | backend/app/Command/ProcessScheduledWithdrawalsCommand.php:58-113 | Every debit comes with its row turning PROCESSADO, once, so each account's excess is unchanged by a run. |
| `Settlement.RunKeepsBalanced` | backend/app/Command/ProcessScheduledWithdrawalsCommand.php:40-113 | A run over the selection keeps balanced books balanced. |
| `Settlement.DebitThenFailUnbalances` | backend/app/Command/ProcessScheduledWithdrawalsCommand.php:74-109 | A debit that was saved before the row's own save raised, with the row then marked FALHOU, puts the account out of balance. |
| `Settlement.StoreWellFormed` | backend/app/Command/ProcessScheduledWithdrawalsCommand.php:44 | Every stored row's account is loaded with it. |
| `Settlement.FailAt` | backend/app/Command/ProcessScheduledWithdrawalsCommand.php:65-70 | markAsFailed changes only that row, to FALHOU with the reason. |
| `Settlement.StampProcessed` | backend/app/Command/ProcessScheduledWithdrawalsCommand.php:78 | markAsProcessed changes only that row, to PROCESSADO now. |
| `Settlement.TurnFacts` | backend/app/Command/ProcessScheduledWithdrawalsCommand.php:58-64 | A turn finds its row's account among the stored ones, under a unique id. |
| `Settlement.FailTurn` | backend/app/Command/ProcessScheduledWithdrawalsCommand.php:65-70 | The failing turn on the store ends in the state `Step` specifies. |
| `Settlement.DebitTurn` | backend/app/Command/ProcessScheduledWithdrawalsCommand.php:74-97 | The debiting turn on the store ends in the state `Step` specifies. |
| `Settlement.SettleOne` | backend/app/Command/ProcessScheduledWithdrawalsCommand.php:59-112 | One loop body on the store carries the counters and confirmations as `Step` does. |
| `Settlement.RunFrom` | backend/app/Command/ProcessScheduledWithdrawalsCommand.php:58 | The run from position j is the step at j followed by the run from j + 1. |
| `Settlement.SettleAll` | backend/app/Command/ProcessScheduledWithdrawalsCommand.php:58-113 | The loop over the selection leaves the rows, balances, counters and confirmations of `Run`. |
| `Settlement.Handle` | backend/app/Command/ProcessScheduledWithdrawalsCommand.php:29-122 | The command leaves the state of `Run` over the due rows, and changes nothing when none is due. |
| `Pager.ItemRange` | frontend/src/components/ui/pagination.tsx:24-25 | On a page with items, "start to end of total" lies within 1..total and counts exactly the items of that page. |
| `Pager.Interval` | frontend/src/components/ui/pagination.tsx:32-34 | The loop's range is the consecutive integers from lo to hi. |
| `Pager.AsPages` | frontend/src/components/ui/pagination.tsx:42 | Spreading the range gives one page button per number, in order. |
| `Pager.GetVisiblePages` | frontend/src/components/ui/pagination.tsx:27-51 | The loop and pushes build exactly the button row `VisiblePages` describes. |
| `Pager.Render` | frontend/src/components/ui/pagination.tsx:53-55 | Nothing is drawn exactly when there is at most one page. Otherwise the button row is drawn. |
| `Pager.Layout` | frontend/src/components/ui/pagination.tsx:36-48 | The row is the head, then the middle run, then the tail, at known positions. |
| `Pager.StartsWithFirst` | frontend/src/components/ui/pagination.tsx:36-40 | The row starts with page 1, followed by a gap exactly when the current page is beyond 4. |
| `Pager.EndsWithLast` | frontend/src/components/ui/pagination.tsx:44-48 | The row ends with a gap and the last page exactly when the middle run stops short of it. |
| `Pager.ListedPages` | frontend/src/components/ui/pagination.tsx:27-51 | A page has a button exactly when it is the first, the last, or within two of the current one. |
| `Pager.Increasing` | frontend/src/components/ui/pagination.tsx:27-51 | Page numbers strictly increase along the row. |
| `Pager.IncludesCurrent` | frontend/src/components/ui/pagination.tsx:32-34 | The current page has a button. |
| `Pager.Steps` | frontend/src/components/ui/pagination.tsx:27-51 | Neighbouring page buttons are consecutive pages. |
| `Pager.Gaps` | frontend/src/components/ui/pagination.tsx:36-48 | For a current page within 1..totalPages, the row starts and ends with a page, and each gap sits between two pages with at least one page left out between them. |
| `Statements.NewestFirstOrders` | backend/app/Controller/Client/TransactionController.php:244 | Newest-first is a total, transitive order. |
| `Statements.Where` | backend/app/Controller/Client/TransactionController.php:231-241 | A filter keeps each accepted row as often as it occurs, and no other row. |
| `Statements.SkipTake` | backend/app/Controller/Client/TransactionController.php:250-252 | A page holds at most `limit` rows when the limit is not negative. |
| `Statements.SkipTakeWithin` | backend/app/Controller/Client/TransactionController.php:250-252 | A page holds only rows of the list. |
| `Statements.CeilDiv` | backend/app/Controller/Client/TransactionController.php:278 | `ceil(a / b)` is the least q with a <= q * b, and the mirror image for a negative b. |
| `Statements.Listed` | backend/app/Controller/Client/TransactionController.php:231-244 | The statement's rows are, newest first, exactly the caller's rows that pass both filters, each as often as stored. |
| `Statements.GetStatement` | backend/app/Controller/Client/TransactionController.php:219-304 | It fails with 500 exactly when per_page is at most 0: a negative per_page gives an OFFSET without a LIMIT, which MySQL refuses, and 0 divides by zero. Otherwise its rows are exactly those that skipping (page - 1) * per_page and taking per_page leave of the filtered, newest-first listing, with the total, `ceil(total / per_page)` and the next/previous flags. |
| `Statements.SliceSorted` | backend/app/Controller/Client/TransactionController.php:250-252 | A page of an ordered list is ordered and holds only list members. |
| `Statements.StatementTotal` | backend/app/Controller/Client/TransactionController.php:247 | The total counts every row that passes the filters, whatever page is asked for. |
| `Statements.PageArithmetic` | backend/app/Controller/Client/TransactionController.php:278-279 | Page p starts inside the list exactly when p <= total_pages, and rows follow page p exactly when p < total_pages. |
| `Statements.PagesFrom` | backend/app/Controller/Client/TransactionController.php:250-252 | The pages from p to the last together are the listing from where page p starts. |
| `Statements.PagesPartition` | backend/app/Controller/Client/TransactionController.php:250-279 | Pages 1..total_pages together are the whole listing, in order. |
| `Statements.PagesShownArePages` | backend/app/Controller/Client/TransactionController.php:250-253 | The rows the statement answers for pages lo..hi are those pages of its listing. |
| `Statements.StatementCoversListing` | backend/app/Controller/Client/TransactionController.php:219-279 | Asking for pages 1 to total_pages in turn, with a positive per_page, gives every row of the filtered, newest-first listing once, in order. |
| `Statements.PageInRange` | backend/app/Controller/Client/TransactionController.php:250-280 | A page has rows exactly when page <= total_pages, and has_next_page holds exactly when rows remain after it. |
| `Statements.PagerCountsPage` | frontend/src/components/ui/pagination.tsx:24-25 | On a page with rows, the front end's start-to-end count equals the rows the statement page carries. |
| `Statements.LegacyGetStatement` | backend/app/Controller/TransactionController.php:222-313 | The older statement answers 401 without a caller and is otherwise the client area's statement. |
| `Statements.LegacyStatementRefusesEveryone` | backend/app/Controller/TransactionController.php:448-463 | As written, the older statement answers 401 whatever the token. |
| `Statements.RecentListed` | backend/app/Controller/Client/TransactionController.php:319-322 | The period's rows are, newest first, exactly the caller's rows created at or after the cutoff. |
| `Statements.GetRecentTransactions` | backend/app/Controller/Client/TransactionController.php:306-363 | It lists exactly min(limit, count) of the period's rows, or all of them for a negative limit, newest first. total_found counts them. |
| `Statements.RecentAreNewest` | backend/app/Controller/Client/TransactionController.php:319-324 | A row of the period left out is no newer than any listed row. With room to spare, every row of the period is listed. |
| `Statements.RecentPrefix` | backend/app/Controller/Client/TransactionController.php:319-324 | The listed rows are the first min(limit, count) of the period's rows, all of them for a negative limit. |
| `Statements.PrefixBeforeRest` | backend/app/Controller/Client/TransactionController.php:322-323 | In an ordered list, an element past a prefix comes after every element of the prefix. |
| `Statements.LegacyGetRecentTransactions` | backend/app/Controller/TransactionController.php:315-378 | It answers 401 exactly without a caller. Otherwise it gives the recent list with the defaults of 5 rows and 30 days. |
| `Statements.LegacyRecentRefusesEveryone` | backend/app/Controller/TransactionController.php:448-463 | As written, the older recent list answers 401 whatever the token. |
| `Statements.FormatStatus` | backend/app/Controller/Client/TransactionController.php:522-531 | A status that is not a known code is shown as given. |
| `Statements.FormatPixType` | backend/app/Controller/Client/TransactionController.php:510-520 | No value, "" or "0" shows "-". An unknown key type is shown as given. |
| `Statements.StatusLabelsDistinct` | backend/app/Controller/Client/TransactionController.php:522-531 | Different statuses get different labels, and no label is a stored code. |
| `MasterClients.DepositsLessWithdrawals` | backend/app/Controller/Master/ClientController.php:259-266 | When a user's rows are exactly its account's rows, processed deposits less processed withdrawals is what those rows add to the account. |
| `MasterClients.StatsMatchBalance` | backend/app/Controller/Master/ClientController.php:74-102 | In balanced books, a client's listed balance equals its processed deposits less its processed withdrawals. |
| `MasterClients.ClientOrderSorts` | backend/app/Controller/Master/ClientController.php:59-62 | Each whitelisted sort column and direction is a total, transitive order. |
| `MasterClients.ClientListing` | backend/app/Controller/Master/ClientController.php:47-62 | It fails with 500 exactly for a whitelisted column with a bad direction. Otherwise it lists exactly the matching clients: sorted when the column is whitelisted, in store order when it is not. |
| `MasterClients.Summary` | backend/app/Controller/Master/ClientController.php:94-102 | A client's account summary is its first account, or no id and balance 0 when it has none. |
| `MasterClients.Entries` | backend/app/Controller/Master/ClientController.php:65-118 | Each entry is its client with that client's account summary and figures. |
| `MasterClients.GetClients` | backend/app/Controller/Master/ClientController.php:27-140 | It answers 403 exactly for a non-administrator, and 500 exactly for a bad direction or a limit of at most 0: a negative limit gives an OFFSET without a LIMIT, which MySQL refuses, and 0 divides by zero. Otherwise its clients are exactly the entries of what skipping (page - 1) * limit and taking limit leave of the listing, with their accounts and figures, and the pagination fields. |
| `MasterClients.GetClientsAsWrittenFails` | backend/app/Controller/Master/ClientController.php:47-69 | As written, the listing differs from `GetClients` exactly on the pages that hold clients, and those answer 500 with the missing-relation message. |
| `MasterClients.ClientPageBounds` | backend/app/Controller/Master/ClientController.php:104-118 | from <= to exactly when the page has clients, which then number to - from + 1. The page has clients exactly when page <= last_page. |
| `MasterClients.FindClient` | backend/app/Controller/Master/ClientController.php:222-225 | The lookup finds a CLIENTE with that id, or none exactly when there is none. |
| `MasterClients.GetClient` | backend/app/Controller/Master/ClientController.php:209-307 | It answers 403 exactly for a non-administrator and 404 exactly when no client has the id. Otherwise it gives the client, its first account, its figures and the first min(10, count) of its rows, newest first. |
| `MasterClients.GetClientAsWrittenFails` | backend/app/Controller/Master/ClientController.php:221-232 | As written, the detail answers 403 and 404 as `GetClient` does, and 500 wherever `GetClient` shows a client. |
| `MasterClients.ClientRecentAreNewest` | backend/app/Controller/Master/ClientController.php:235-239 | A row of the client left out of the detail is no newer than any listed one. A client with at most ten rows has all of them listed. |
| `MasterClients.NewEmailKeepsUnique` | backend/app/Controller/Master/ClientController.php:155-158 | Adding a user whose e-mail the unique rule let through keeps e-mails unique. |
| `MasterClients.ChangedEmailKeepsUnique` | backend/app/Controller/Master/ClientController.php:334-337 | Changing a user's e-mail to one no other user has keeps e-mails unique. |
| `MasterClients.OpenAccountKeepsBooks` | backend/app/Controller/Master/ClientController.php:175-178 | A new account with balance 0 that no row books to keeps the books balanced and non-negative. |
| `MasterClients.CreateClientAsWritten` | backend/app/Controller/Master/ClientController.php:142-207 | As written, it answers 403 exactly for a non-administrator and 422 exactly for invalid data. Every other request ends in the password setter's TypeError. |
| `MasterClients.CreateClientAsWrittenNeverCreates` | backend/app/Controller/Master/ClientController.php:169-180 | As written, no request creates a client: valid data from an administrator gets 500. |
| `MasterClients.CreateClient` | backend/app/Controller/Master/ClientController.php:142-207 | It answers 403 and 422 as written. It succeeds exactly for an administrator's valid data, and then adds a CLIENTE without password and an account with balance 0. It keeps e-mails unique and the books balanced and non-negative. |
| `MasterClients.OpenClient` | backend/app/Controller/Master/ClientController.php:169-180 | It saves the user, then an account for it with balance 0 that no row books to. |
| `MasterClients.UpdateClient` | backend/app/Controller/Master/ClientController.php:309-371 | It answers 403, 404 and 422 in the controller's order. It succeeds exactly when the client exists and the data pass, and then only that client's name and e-mail change. E-mails stay unique. |
| `MasterClients.Rename` | backend/app/Controller/Master/ClientController.php:348-350 | The save changes only that user's name and e-mail. |
| `MasterStats.UserById` | backend/app/Controller/Master/TransactionController.php:46 | The `user` relation finds the user with the row's user id, or none exactly when no user has it. |
| `MasterStats.Join` | backend/app/Controller/Master/TransactionController.php:46-49 | Each row is shown with its owner, one entry per row, in order. |
| `MasterStats.Latest` | backend/app/Controller/Master/TransactionController.php:46-48 | The newest n rows, newest first: min(n, count) of them, all taken from the rows. |
| `MasterStats.LatestAreNewest` | backend/app/Controller/Master/TransactionController.php:46-48 | A row left out is no newer than any listed one. With n rows or fewer, all are listed. |
| `MasterStats.GetStats` | backend/app/Controller/Master/TransactionController.php:21-89 | It answers 403 exactly for a non-administrator. Otherwise it gives the client count, the row count, the sum of balances, the pending-withdrawal sum and the four newest rows with owners. |
| `MasterStats.GetRecentTransactions` | backend/app/Controller/Master/TransactionController.php:92-151 | It answers 403 exactly for a non-administrator. Otherwise it gives the client area's recent list over every user's rows, defaulting to 4 rows and 30 days, with owners. |
| `MasterStats.FundsAreTotalNet` | backend/app/Controller/Master/TransactionController.php:38 | In balanced books, the funds are the sum over the accounts of what their rows add up to. |
| `MasterStats.TotalNetAppend` | backend/app/Controller/Master/TransactionController.php:38 | One more row changes that sum by the row's effect on all accounts. |
| `MasterStats.TotalNetOfNothing` | backend/app/Controller/Master/TransactionController.php:38 | With no rows, the sum is 0. |
| `MasterStats.EffectOnAbsent` | backend/app/Controller/Master/TransactionController.php:38 | A row whose account is not listed adds nothing. |
| `MasterStats.EffectOnOnce` | backend/app/Controller/Master/TransactionController.php:38 | With unique ids, a row that books to a stored account adds its effect once. |
| `MasterStats.TotalNetIsMoved` | backend/app/Controller/Master/TransactionController.php:38 | When every row books to a stored account, the sum is the money moved by all rows. |
| `MasterStats.MovedIsDepositsLessWithdrawals` | backend/app/Controller/Master/TransactionController.php:38-43 | The money moved is processed deposits less processed withdrawals. |
| `MasterStats.FundsAreNet` | backend/app/Controller/Master/TransactionController.php:38 | In balanced books, the dashboard's total funds equal all processed deposits less all processed withdrawals. |
| `MasterStats.StoreFundsAreNet` | backend/app/Controller/Master/TransactionController.php:38 | The same holds for the database whenever its books are balanced. |
| `Auth.RegisterErrorsExact` | backend/app/Controller/AuthController.php:135-175 | The error map has a key exactly for each failing field. Each field fails exactly when its rule is broken, with the message of the first failed check. |
| `Auth.NoErrorsIffValid` | backend/app/Controller/AuthController.php:121-123 | The error map is empty exactly when the form is valid. |
| `Auth.CollectErrors` | backend/app/Controller/AuthController.php:135-175 | `getValidationErrors` builds exactly the error map of the rules. |
| `Auth.CheckName` | backend/app/Controller/AuthController.php:88-94 | The name check adds its message, if any, under "name". |
| `Auth.CheckEmail` | backend/app/Controller/AuthController.php:97-105 | The e-mail check adds its message, if any, under "email". |
| `Auth.CheckPassword` | backend/app/Controller/AuthController.php:108-114 | The password check adds its message, if any, under "password". |
| `Auth.CheckUserType` | backend/app/Controller/AuthController.php:117-119 | The user-type check adds its message, if any, under "user_type". |
| `Auth.ValidateRegisterRequest` | backend/app/Controller/AuthController.php:82-130 | It passes exactly for a valid form, and then hands on the trimmed name and e-mail and the password as given. Otherwise it fails with 422. |
| `Auth.Register` | backend/app/Controller/AuthController.php:36-77 | It succeeds exactly for a valid form, adding one user with the trimmed name and e-mail and the column's default type. Otherwise it answers 422 with the error map and changes nothing. No account is created. |
| `Auth.FindByEmail` | backend/app/Controller/AuthController.php:180 | The lookup finds the first user with that e-mail, or none exactly when none has it. |
| `Auth.Login` | backend/app/Controller/AuthController.php:177-225 | It succeeds exactly for a stored e-mail with a matching password, and returns that user. An unknown e-mail and a user without password answer 401, and a given wrong password answers 401. |
| `Auth.NewClientCannotLogIn` | backend/app/Controller/AuthController.php:189-195 | A client just created by the administrator cannot log in before choosing a password. |
| `Auth.PasswordDecision` | backend/app/Controller/AuthController.php:273-292 | It answers 404 exactly for an unknown e-mail and 422 for a user who has a password. It goes ahead exactly for a user without one, and a missing password then ends in the setter's TypeError. |
| `Auth.FindByEmailIgnoresPasswords` | backend/app/Controller/AuthController.php:273 | Setting a password does not change who an e-mail belongs to. |
| `Auth.PasswordSetOnce` | backend/app/Controller/AuthController.php:282-288 | Once the first password is set, another attempt answers 422, and logging in with the chosen password succeeds. |
| `Auth.SetInitialPassword` | backend/app/Controller/AuthController.php:270-315 | It refuses as `PasswordDecision` says and changes nothing. Otherwise only that user's password is set. |
| `Auth.StorePassword` | backend/app/Controller/AuthController.php:290-292 | The save changes only that user's password. |

## Left out

- **Money.** PHP floats and `decimal:2` casts become integer cents. No rounding of float sums is modelled.
- **Dates.**
  - The time-zone offset and daylight saving are not modelled. Times are wall-clock readings.
  - Years beyond 9999, where `Y` renders five digits, are left out of the window lemmas. `Wallet.WindowIsSevenDays` and `Wallet.WindowEdges` require a four-digit year.
- Calendar.ParseYmd: texts whose fields carry over to a day before year 0 (month 0 or day 0 of year 0) are read as nothing rather than as the negative year PHP gives. The time fields `createFromFormat` fills from the clock are not modelled; `createScheduledAt` overwrites them anyway.
- Calendar.ParseDateTime: `new DateTime` accepts many more layouts (relative formats, one-digit times, other separators, a time alone). The model reads only a `Y-m-d` date with a four-digit year, alone or followed by a space and `H:i:s`, and any other text is an exception (500).
- Calendar.ParseYmdStrict: speaks only of zero-padded texts naming real dates; the reader also takes one-digit fields and carries out-of-range ones over, which `Calendar.ReadsShortFields`, `Calendar.ReadsDayOverflow`, `Calendar.ReadsMonthOverflow` and `Calendar.ReadsDayZero` state.
- Wallet.LegacyWithdraw: the source stores the `scheduled_at` text as given (backend/app/Controller/TransactionController.php:175); the model stores the moment `new DateTime` reads from it, which differs from the text when fields carry over (hour 24, day 31 of a short month).
- **The missing `account` relation.** `User` (backend/app/Model/User.php) declares no `account` relation, so every `$user->account` reads null and every `with('account')` on a non-empty user query raises. The members below model the evidently intended has-one relation, as the lookup `Ledger.FindAccount` by owner; the code as written is modelled beside them and listed under "Findings".
- Ledger.FindAccount: looking up by owner stands for the has-one relation `User` does not declare; as written, `$user->account` is always null.
- MasterClients.Summary: assumes the client's account can be loaded; as written, the page that would hold the client answers 500 (`MasterClients.GetClientsAsWrittenFails`).
- MasterClients.Entries: assumes the clients' accounts can be loaded; as written, a non-empty page answers 500 (`MasterClients.GetClientsAsWrittenFails`).
- MasterClients.GetClients: models the listing with the relation in place; as written, only empty pages come through (`MasterClients.GetClientsAsWrittenFails`).
- MasterClients.FindClient: models the lookup without the eager load; as written, `first()` raises as soon as it finds the client (`MasterClients.GetClientAsWrittenFails`).
- MasterClients.GetClient: models the detail with the relation in place; as written, it answers 500 for every existing client (`MasterClients.GetClientAsWrittenFails`).
- Statements.LegacyGetStatement: takes the caller as resolved from the token; as written, no token yields a caller and the endpoint always answers 401 (`Statements.LegacyStatementRefusesEveryone`).
- Statements.LegacyGetRecentTransactions: takes the caller as resolved from the token; as written, it always answers 401 (`Statements.LegacyRecentRefusesEveryone`).
- Wallet.LegacyDeposit: takes the caller as resolved from the token and the account by owner; as written, it always answers 401 (`Wallet.LegacyCallerAsWritten`).
- Wallet.LegacyWithdraw: takes the caller as resolved from the token and the account by owner; as written, it always answers 401 (`Wallet.LegacyRefusesEveryone`).
- Wallet.LegacyCancel: takes the caller as resolved from the token; as written, it always answers 401 (`Wallet.LegacyRefusesEveryone`).
- Wallet.ClientDeposit: takes the caller's account as loaded; as written, the account is null and a valid deposit answers 500 (`Wallet.ClientDepositNeverWrites`).
- Wallet.ClientWithdraw: takes the caller's account as loaded; as written, the account is null and every withdrawal that reaches the balance check answers 500 (`Wallet.ClientWithdrawNeverWrites`).
- **Negative `days`.** A negative `days` for the recent transactions (a cutoff in the future) is not modelled; `days` is a natural number.
- **Out of scope.** These are not part of this model:
  - JWT tokens, the `me` endpoint and the middleware;
  - `exportExcel`, `getBalanceData` and the other account controllers;
  - e-mail delivery. The batch records which ids it asked the mail service to notify, and ignores the result.
- **Query semantics.**
  - SQL `LIKE` is modelled as a case-sensitive substring test with no wildcards inside the search text.
  - Database collation is not modelled. Rows created in the same second come in the order the insertion sort fixes; the database promises no order for them.
  - The `unique` rule compares e-mails exactly, without the database's case-insensitive collation.
- **Validation errors.**
  - `createClient` and `updateClient` answer 422 with one message rather than the validator's error bag.
  - Registration errors are one message per field rather than a one-element array.
  - `filter_var(..., FILTER_VALIDATE_EMAIL)` and the `email` rule are the parameter `isEmail`.
- **Passwords.**
  - Password hashing is not modelled. `Some(p)` stands for the stored hash, and login compares it with the given text.
  - `Auth.Login`: a null password for a user that has one ends in `verifyPassword`'s TypeError (500). The contract states only the 401 cases for a given password.
- **PIX key type.** The request's key type is a text. Values outside the column's enum make the details insert fail, and this is modelled as an internal error after the transaction row was written.
- **Cancellation id.** The `transaction_id` of a cancellation is a number or absent. Non-numeric texts and their integer rule are not modelled.
- **Registration details.**
  - `Auth.Register` checks e-mail uniqueness on the raw e-mail but stores the trimmed one, as written. So a second account with the same trimmed e-mail is possible; the model keeps this behaviour.
  - `Auth.Register` judges the form by the rules directly. It does not call `ValidateRegisterRequest`, which is proved to decide the same.
  - The `user_type` column default is the parameter `defaultType`, because `user_type` is not fillable and its migration is not part of this model.
- **Batch exceptions.** The exceptions the database may raise inside the batch loop are a parameter map from transaction id to message. Such an exception is modelled as raised before anything is written for the row, and `markAsFailed` in the handler as succeeding. Two paths of backend/app/Command/ProcessScheduledWithdrawalsCommand.php are not modelled: the debit saved (:74) and then the row's save raising (:79), after which the handler marks the row FALHOU and the debit stays; and `markAsFailed` itself raising (:105-109), which leaves the row PENDENTE. `Settlement.DebitThenFailUnbalances` shows that the first path breaks the books.
- Settlement.Step: models only exceptions raised before any write for the row; the debit-then-raise path and a failing `markAsFailed` are not modelled (see "Batch exceptions").
- Settlement.StepKeepsBooks: holds for the modelled faults only; the debit-then-raise path breaks the books (`Settlement.DebitThenFailUnbalances`).
- Settlement.RunKeepsBooks: holds for the modelled faults only; the debit-then-raise path breaks the books.
- Settlement.RunKeepsBalanced: holds for the modelled faults only; the debit-then-raise path breaks the books.
- Settlement.RunSettles: a failing `markAsFailed`, which would leave a row PENDENTE, is not modelled.
- Settlement.RunNeverReselects: a failing `markAsFailed` would leave the row due, to be selected again; it is not modelled.
- Settlement.RunLeavesNothingDue: a failing `markAsFailed` would leave the row due; it is not modelled.
- Settlement.Handle: carries out `Step`, with the same fault model. The selection query (backend/app/Command/ProcessScheduledWithdrawalsCommand.php:40-45) has no `orderBy`, so the database may return the due rows in any order; the model visits them in store order (`Settlement.DueFrom`). When two due withdrawals compete for one balance, that order decides which of them fails, and other orders are not modelled.
- MasterClients.ClientListing: without a whitelisted `sort_by` the query (backend/app/Controller/Master/ClientController.php:47-62) has no `orderBy`, and the database promises no order; the model lists the clients in store order.
- MasterClients.GetClient: the source reads `$account->id` and `$account->balance` without a null check (backend/app/Controller/Master/ClientController.php:283-286). For a client without an account (registration opens none) PHP 8 only warns and reads null for both, which the model gives as `account: None`; an error handler that turned the warning into an exception would make this a 500, and no such handler is part of this model.
- MasterClients.RequiredText: `max:255` counts characters (`mb_strlen`); the model counts the elements of the text, which stand for bytes elsewhere, so a name of multi-byte characters is refused earlier than by Laravel.
- **Bodies of uncaught Errors.** The body of a 500 that ends in an uncaught PHP `Error` is written by the application's exception handler, which is not part of this model. The messages `Wallet.SetTimeOnBool`, `Wallet.AssignBalanceOnNull`, `Wallet.BalanceCheckOnNull`, `Statements.DivisionByZero`, `Users.NullPasswordError` and `Auth.PasswordNotText` only name which `Error` happened; only the status 500 is claimed.
- **Formatting.** The formatted money strings (`R$ ...`), the formatted dates and the `period` text are not modelled.
- **Lemma preconditions.**
  - `Pager` lemmas require a current page of at least 1. The component never renders with a smaller one.
  - `MasterClients.ClientPageBounds` requires page >= 1 and a positive limit.
- **Concurrency.** Two requests racing on one balance are not modelled: each endpoint runs alone.

## Findings

| source | as written | input that shows it | evidently intended | confidence | as-written member | corrected member |
|---|---|---|---|---|---|---|
| backend/app/Controller/Master/ClientController.php:172 | `$client->password = null` calls `setPasswordAttribute(string $value)` (backend/app/Model/User.php:29). Null raises a TypeError, which `catch (\Exception)` does not catch, so the request ends with 500 and neither the user nor the account is saved. | Any request from an administrator with a valid name and an unused valid e-mail. | Save a CLIENTE user with no password, to be set at first access, and an account with balance 0. | medium; not executed | `MasterClients.CreateClientAsWrittenNeverCreates` | `MasterClients.CreateClient` |
| backend/app/Controller/TransactionController.php:459 | `User::with('account')->find(id)` names a relation `User` does not declare. For any stored user the eager load raises RelationNotFoundException, the `catch` at :460-462 returns null, and the older controller answers 401. | Any request with a valid token of a stored user to the older deposit, withdraw, cancel, statement or recent endpoints. | Resolve the token's user, with its account. | high; not executed | `Wallet.LegacyRefusesEveryone` | `Wallet.LegacyWithdraw` |
| backend/app/Controller/Client/TransactionController.php:41 | The account comes from `$user->account` (backend/app/Middleware/LoadUserAccountMiddleware.php:23, backend/app/Traits/HasAuthenticatedUser.php:77), which is null because `User` declares no `account` relation. Assigning `balance` on null raises an Error that `catch (\Exception)` does not catch, so the request ends with 500. | Any client deposit of a valid amount. | Credit the caller's account and record the deposit. | high; not executed | `Wallet.ClientDepositNeverWrites` | `Wallet.ClientDeposit` |
| backend/app/Controller/Client/TransactionController.php:112 | `hasSufficientBalance` is called on the null account, an uncaught Error, so the request ends with 500. | Any client withdrawal that passes the form request, with no date or a readable one. | Check the caller's balance and write the withdrawal. | high; not executed | `Wallet.ClientWithdrawNeverWrites` | `Wallet.ClientWithdraw` |
| backend/app/Controller/Master/ClientController.php:47-48 | `with(['account'])` on the client query raises RelationNotFoundException when `get()` at :67 finds a client. The handler at :134-139 answers 500. | An administrator listing a page that holds at least one client. | List the page with each client's account. | high; not executed | `MasterClients.GetClientsAsWrittenFails` | `MasterClients.GetClients` |
| backend/app/Controller/Master/ClientController.php:222-225 | `first()` on the query with `with(['account'])` raises as soon as it finds the client, and the handler answers 500. | An administrator asking for any existing client. | Show the client with its account, figures and newest rows. | high; not executed | `MasterClients.GetClientAsWrittenFails` | `MasterClients.GetClient` |
