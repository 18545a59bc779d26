# Library stock-and-loan ledger, in Dafny

A model of the inventory-and-loans web application for a library (PHP pages over a
MySQL database) and proofs about it. The model covers the ledger at its core:

- the item, loan, return, user, category and supplier tables;
- the POST handlers of `loans.php`, `returns.php`, `items.php`, `users.php`,
  `categories.php` and `suppliers.php`, which change those tables;
- the loop in the loans listing that marks overdue loans;
- the WHERE clause the item listing builds;
- the helpers of `includes/functions.php` under them: pagination, late days, barcode,
  rupiah formatting, role checks, the CSRF token and the flash message.

## How it is modelled

- **The database.** `Store.Library` is a class with one field per table: a `map` from
  row id to a row datatype, plus the table's next auto-increment id. `returnRecords` is
  the returns table, which is only ever appended to, so it is a `seq`.
  `Library.Valid()` says that every id is positive and below its table's counter, and
  that every loan refers to an item row.
- **The session.** `Functions.Session` is a class with the four `$_SESSION` slots the
  core uses: user id, role, CSRF token and flash message.
- **The handlers.** Each handler is a method on the library and the session. Its
  `modifies` clause names exactly the tables and slots the handler writes. A
  `redirect()` ends the request, so it is an early `return`.
- **Guards that do not stop.** Several checks only set a flash message and carry on.
  These are the stock and existing-loan checks of a new loan, the not-found and
  already-returned checks of a loan delete, the loan lookup of a return, and the
  duplicate-name checks of categories. They are modelled as they are written: the write
  still happens, and the success message replaces the warning.
- **Dates and times.** A date is an integer day number and a moment is an integer
  number of seconds. A date denotes its midnight (`Midnight(d) = d * 86400`).
- **Inputs from outside.** The values drawn by `mt_rand`, the current moment, the hash
  from `password_hash` and the random hex of a fresh token are all parameters.
- **Uninterpreted helpers.** `sanitize_input` and `is_valid_email` are the two function
  fields of `Functions.Host`; the model does not interpret them.
- **Database errors in a return.** An error in one of the three writes of a return is
  the parameter `failAt`: 0 when every write succeeds, otherwise the number (1 to 3) of
  the write that raises.
- **Session state.** The session is taken as `includes/header.php` leaves it. That file
  may log a user in from a remember-me cookie, and stores a token when none is stored.
- **Column defaults of a new loan.** The insert at `loans.php:59-62` writes neither
  `status` nor `return_date`, so both come from the loans table's defaults, which are
  not part of this model. A new loan is taken to be `Borrowed` with no return date.
  `Returns.LoanThenReturn` relies on this.
- **`categories.php`.** This page has no login check: a POST needs only an accepted
  token.
- **`str_pad` with zeros.** `ZeroPadded` is a recursive definition of it, proved equal
  to the `str_pad` of the decimal rendering for every number that fits the width.
- **Decimal strings.** `DigitsValue` reads a digit string back as a number, so the
  barcode, the loan code and the rupiah text are stated as round trips.

## Model

| member | source | states |
|---|---|---|
| Functions.GetPagination | includes/functions.php:122-131 | the page count is the least number of pages holding all the rows (the ceiling of total / per page); the offset is (page − 1) × per page; the page is returned unchanged |
| Functions.PageStartsInside | includes/functions.php:123-124 | every page from 1 to the page count starts at an existing row, and the last page reaches the last row |
| Functions.ListingPages | loans.php:175-202 | the listings' page size ITEMS_PER_PAGE gives ten rows a page: the count is the ceiling of total / 10, and a requested page inside the count starts at row (page − 1) × 10, which exists |
| Functions.LateDays | includes/functions.php:81-91 | 0 when the return is at or before the due moment; otherwise the number of whole days in between (k days when k·86400 ≤ difference < (k+1)·86400) |
| Functions.LateDaysMonotone | includes/functions.php:85-90 | a later return never counts fewer late days |
| Functions.LateDaysBetweenDates | includes/functions.php:85-90 | for two dates, the late days are the day distance when the return is after the due date, else 0 |
| Functions.GenerateBarcode | includes/functions.php:66-68 | the barcode has 8 characters and starts with "BK" |
| Functions.GenerateBarcodeDigits | includes/functions.php:67 | the last six characters are digits, read back as the value drawn, and are exactly str_pad's zero-padded rendering of it |
| Php.ZeroPaddedIsStrPad | includes/functions.php:67 | for a number below 10^width, the zero-padded digits equal str_pad(n, width, '0', STR_PAD_LEFT) |
| Php.ZeroPaddedDigits | loans.php:57 | a number below 10^width reads back from its zero-padded digits, which are all digits |
| Php.DecimalRoundTrip | includes/functions.php:67 | PHP's decimal rendering of a natural number reads back as that number |
| Php.DigitsValueInjective | includes/functions.php:67 | two digit strings of one length that denote the same number are equal |
| Functions.GroupThousandsCorrect | includes/functions.php:76-78 | number_format's grouping is digit groups of three joined by '.', has no leading zero, and reads back as the number once the dots are dropped |
| Functions.FormatRupiah | includes/functions.php:76-78 | the text starts with "Rp ", then a '-' for a negative amount, then grouped digits that read back as the absolute amount, with no leading zero ("Rp 0" for zero); it has no ',' (no decimal part) |
| Functions.Session.HasRole | includes/functions.php:55-63 | true exactly when a user id is stored and the stored role equals the given role |
| Functions.Session.ValidateCsrfToken | includes/functions.php:18-21 | accepts exactly the stored token |
| Functions.CsrfAccepted | loans.php:17-20 | a POST passes the token guard exactly when a token was submitted and it equals the stored one |
| Functions.Session.GenerateCsrfToken | includes/functions.php:11-16 | a stored non-empty token is kept and returned; otherwise the fresh token is stored and returned |
| Functions.GenerateCsrfTokenTwice | includes/functions.php:11-16 | a second generation returns the token the first stored, and that token validates |
| Functions.Session.SetFlashMessage | includes/functions.php:28-33 | the slot holds the new message, whatever it held before |
| Functions.Session.GetFlashMessage | includes/functions.php:35-42 | returns the stored message and empties the slot |
| Functions.ReadFlashTwice | includes/functions.php:35-42 | a second read returns nothing |
| Loans.DateYmd | loans.php:57 | date('Ymd') has 8 characters |
| Loans.DateYmdDigits | loans.php:57 | those 8 characters are digits that read back as year, month and day |
| Loans.LoanCode | loans.php:57 | a loan code has 14 characters and starts with "LN" |
| Loans.LoanCodeDigits | loans.php:57 | after "LN" come the Ymd date and four digits that read back as the value drawn |
| Loans.AddLoan | loans.php:23-71 | a missing field, an unknown or inactive item, a bad token or no login changes no table; otherwise one loan is inserted at the next id, only that item loses one available copy, and its borrowed count rises by 1; a loan of an item with no copy left still goes through and drives availability below 0; each rejection leaves its own message |
| Loans.RecordLoan | loans.php:59-68 | the insert at the next auto-increment id and the decrement of exactly that item, keeping the ids and item references valid |
| Loans.UpdateLoan | loans.php:73-95 | only the loan date, due date and notes of an existing loan change; a missing loan changes nothing and reports not-found |
| Loans.DeleteLoan | loans.php:97-123 | the loan row goes and its item (when the join finds it) gets one copy back, even when the loan was already returned; the success message replaces the not-found and already-returned messages |
| Loans.LoanThenDeleteRestoresStock | loans.php:23-123 | recording a loan and deleting it leaves the loans and items tables as they were |
| Loans.MarkedOverdue | loans.php:279-286 | the same loans; a listed Borrowed loan due before now becomes Overdue and changes in nothing else; every other loan is untouched; no listed loan is left overdue |
| Loans.MarkOverdue | loans.php:279-286 | the listing loop leaves the loans table equal to MarkedOverdue of the table before it |
| Loans.MarkedOverdueIdempotent | loans.php:279-286 | marking a second time changes nothing |
| Returns.ReturnFine | returns.php:54-55 | the fine is a multiple of 1000, is 0 exactly when there are no late days, and is 1000 per late day |
| Returns.ReturnFineForDates | returns.php:53-55 | on dates, a return on or before the due date costs 0, a later one 1000 per day past the due date |
| Returns.ReturnFineMonotone | returns.php:53-55 | a later return never costs less |
| Returns.ClosedLoan | returns.php:62-64 | the closed loan is Returned with the return date set, and equals the loan in every other field |
| Returns.ReturnMessage | returns.php:83-87 | the success message carries a rupiah text exactly when the fine is positive; that text is "Rp " and grouped digits with no leading zero that read back as the fine |
| Returns.ReturnWrites | returns.php:58-79 | the three writes in order; a write that raises leaves the writes before it in place and the later ones undone (failing at the first write changes nothing; at the second, only the loan is closed; at the third, no record is appended); with no error, the loan row (if any) is closed, only the found loan's item gains a copy, and exactly one return record is appended |
| Returns.AddReturn | returns.php:19-98 | a bad token, a missing field or a database error leaves loans, items and returns as they were (rollback); otherwise the loan is closed even when the lookup missed, the item gains one copy only when the lookup found the Borrowed loan, one record with the late days and fine is appended, and the late days count from now when the lookup missed |
| Returns.LoanThenReturn | returns.php:62-75 | a loan recorded and then returned leaves the items table as it was, the loan Returned, and one more return record |
| Returns.ReturnThenDeleteRestocksTwice | loans.php:105-119 | deleting a returned loan restocks its item again, so the item ends one copy above where it started |
| Items.ChosenBarcode | items.php:28 | a truthy submitted barcode is kept; an empty one or "0" is replaced by generate_barcode's output for the value drawn, whose six digits read back as that value (`Functions.GenerateBarcodeDigits`) |
| Items.FormItem | items.php:29-41 | the stored row has the submitted quantities, category and supplier as they are (no check that available ≤ total) |
| Items.FindActiveItem | items.php:130-149 | the edit and view lookup finds an item exactly when its row exists and is active |
| Items.AddItem | items.php:26-53 | a bad token or no login changes nothing; otherwise exactly one active item is inserted at the next id with the chosen barcode |
| Items.UpdateItem | items.php:55-83 | the item with the given id gets every form field and keeps its active flag; other items are unchanged; a missing id changes nothing |
| Items.DeleteItem | items.php:85-105 | an item with a Borrowed loan stays; otherwise the row stays but is inactive, so the lookup no longer finds it; no row is ever removed |
| Items.AppendCondition | items.php:157-171 | appending a condition and its parameters to the WHERE list adds exactly one conjunct, and the placeholder count grows by its arity |
| Items.LikeSurroundedContains | items.php:159-162 | the pattern "%s%" matches exactly the texts that contain s |
| Items.BuildItemFilter | items.php:157-171 | the clause starts with is_active = 1, binds exactly as many parameters as it has placeholders, and selects exactly the rows that are active, match a truthy search in title, author or barcode, and are in a truthy category |
| Users.StoreKeepsUnique | users.php:59-67 | storing an account whose username and email no other account holds keeps usernames and emails unique |
| Users.OwnNamesPassUpdateCheck | users.php:104-111 | resubmitting an account's own username and email passes the update's duplicate check |
| Users.NewUserRow | users.php:29-36 | the stored account has is_active set exactly when the checkbox was submitted, and the hash, not the password |
| Users.AddUser | users.php:27-80 | only an admin with a valid token gets through; an empty field, a bad email, a password mismatch, a password under 6 characters or a taken username or email each change nothing and leave their own message; otherwise one account is inserted; unique usernames and emails stay unique |
| Users.EditedUser | users.php:113-115 | the edited account keeps its password hash and takes the new active flag |
| Users.UpdateUser | users.php:82-119 | the same guards, with the duplicate check leaving out the account itself; only the edited fields of that account change; unique usernames and emails stay unique |
| Users.DeleteUser | users.php:121-149 | the logged-in account and any account with role 1 stay; otherwise that row, and only it, goes |
| Categories.AddCategory | categories.php:20-40 | with a valid token a category row is always inserted at the next id, a taken name included, and the message is success |
| Categories.UpdateCategory | categories.php:42-60 | with a valid token the category's name and description change, a taken name included; other rows are unchanged |
| Categories.DeleteCategory | categories.php:62-81 | a category with an active item in it stays; otherwise its row, and only its row, goes |
| Categories.AddCategoryTwice | categories.php:26-36 | adding the same name twice leaves two categories with that name |
| Suppliers.FormSupplier | suppliers.php:29-33 | the stored row holds the cleaned name and email |
| Suppliers.SupplierFormError | suppliers.php:36-44 | the form fails exactly when the cleaned name is falsy or a truthy email is invalid; an empty email is never checked; a falsy name reports the missing name, and a valid name with an invalid truthy email reports the invalid email |
| Suppliers.AddSupplier | suppliers.php:7-52 | only an admin with a valid token and a passing form inserts one supplier at the next id; otherwise nothing changes and the reason is reported |
| Suppliers.UpdateSupplier | suppliers.php:54-80 | the same checks; exactly the five fields of the given supplier change |
| Suppliers.DeleteSupplier | suppliers.php:82-101 | a supplier of an active item stays; otherwise its row, and only its row, goes |

## Left out

- SQL, PDO and HTML rendering: the tables are maps, and the page templates are not modelled.
- Database errors outside the return transaction: the PDOException catch blocks of the
  other handlers are not modelled. Neither are constraint violations that the schema
  might raise, because the schema is not part of this model.
- `log_activity` writes through a global connection set outside the shown files; it is
  treated as doing nothing.
- `sanitize_input` and `is_valid_email` are uninterpreted, and `password_hash` is a parameter.
- Authentication: login, logout, the remember-me cookie (`includes/auth.php`) and
  `session_regenerate_id` are not modelled.
- Reports, the dashboard, the activity-log page, deployment checks and file upload are
  not modelled.
- `purchase_price` is a float and is not modelled; the client-side fine preview in
  JavaScript is not modelled either.
- Date parsing: `strtotime` and `DateTime` become day numbers and seconds, and time zones
  are not modelled.
- Functions.Session.GenerateCsrfToken: takes the hex text of the random bytes as a
  parameter; `random_bytes` itself is not modelled.
- Items.BuildItemFilter: LIKE is modelled for the "%s%" patterns the page builds, with `%`
  and `_` inside the search taken literally, and with case-sensitive comparison (MySQL's
  usual collations compare without case). The conversion MySQL applies when the category
  text is compared with the integer column is a parameter.
- Users.AddUser: the length check counts characters, where PHP's strlen counts bytes.
  Username and email comparisons are exact string equality.
- Loans.MarkOverdue: the page reads the loans once and then loops over them. The model
  checks each loan in the table as the loop reaches it. The two agree because nothing
  else writes the loans during the loop.
- The ordering, pagination and search of the loans and returns listings are not
  modelled; only the item listing's filter is.
- Loans.LoanCode: the random part must be in 1..9999 and the date year in 1000..9999 (the
  range of mt_rand(1, 9999) and of four-digit years).
