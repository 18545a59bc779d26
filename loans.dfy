/** loans.php: the POST handlers that record, edit and delete loans, and the listing
    loop that marks overdue loans. Every handler first needs a logged-in session (else
    the request ends without a message) and an accepted CSRF token. */
module Loans {
  import opened Php
  import opened Messages
  import opened Functions
  import opened Store

  /** The calendar date date('Ymd') prints. */
  datatype CalendarDate = CalendarDate(year: int, month: int, day: int)

  predicate ValidDate(d: CalendarDate) {
    1000 <= d.year <= 9999 && 1 <= d.month <= 12 && 1 <= d.day <= 31
  }

  /** date('Ymd'): four digits of year, two of month, two of day. */
  function DateYmd(d: CalendarDate): (s: string)
    requires ValidDate(d)
    ensures |s| == 8
  {
    ZeroPadded(d.year, 4) + ZeroPadded(d.month, 2) + ZeroPadded(d.day, 2)
  }

  /** The eight characters of date('Ymd') are digits that read back as the year, the
      month and the day. */
  lemma DateYmdDigits(d: CalendarDate)
    requires ValidDate(d)
    ensures AllDigits(DateYmd(d))
    ensures DigitsValue(DateYmd(d)[..4]) == d.year
    ensures DigitsValue(DateYmd(d)[4..6]) == d.month && DigitsValue(DateYmd(d)[6..]) == d.day
  {
    Pow10Values();
    var y, m, dd := ZeroPadded(d.year, 4), ZeroPadded(d.month, 2), ZeroPadded(d.day, 2);
    ZeroPaddedDigits(d.year, 4);
    ZeroPaddedDigits(d.month, 2);
    ZeroPaddedDigits(d.day, 2);
    DigitsConcat(y, m);
    DigitsConcat(y + m, dd);
    var s := y + m + dd;
    assert s[..4] == (y + m)[..4];
    assert s[4..6] == (y + m)[4..];
  }

  /** The code of a new loan, given today's date and the value mt_rand(1, 9999) drew:
      "LN", the date as Ymd, and the value as four zero-padded digits. */
  function LoanCode(today: CalendarDate, random: int): (code: string)
    requires ValidDate(today) && 1 <= random <= 9999
    ensures |code| == 14 && code[..2] == "LN"
  {
    "LN" + (DateYmd(today) + ZeroPadded(random, 4))
  }

  /** After "LN" a loan code is all digits: the date of the day it was recorded, then
      the random number drawn for it. */
  lemma LoanCodeDigits(today: CalendarDate, random: int)
    requires ValidDate(today) && 1 <= random <= 9999
    ensures AllDigits(LoanCode(today, random)[2..])
    ensures LoanCode(today, random)[2..10] == DateYmd(today)
    ensures DigitsValue(LoanCode(today, random)[10..]) == random
  {
    Pow10Values();
    DateYmdDigits(today);
    ZeroPaddedDigits(random, 4);
    var date, tail := DateYmd(today), ZeroPadded(random, 4);
    DigitsConcat(date, tail);
    var code := "LN" + (date + tail);
    assert code[2..] == date + tail;
    assert code[2..10] == (date + tail)[..8];
    assert code[10..] == (date + tail)[8..];
  }

  /** The fields of the add form after the (int) casts; an empty date field is None. */
  datatype LoanForm = LoanForm(
    userId: int,
    itemId: int,
    loanDate: Option<Day>,
    dueDate: Option<Day>,
    notes: string)

  /** A required field of the add form is empty (a cast id of 0 counts as empty). */
  predicate MissingLoanFields(form: LoanForm) {
    form.userId == 0 || form.itemId == 0 || form.loanDate.None? || form.dueDate.None?
  }

  /** The page lets a POST through: a logged-in session and an accepted token. */
  predicate Admits(session: Session, csrf: Option<string>)
    reads session
  {
    session.IsLoggedIn() && CsrfAccepted(session, csrf)
  }

  /** An add request passes every guard that ends the request. The stock check and the
      existing-loan check are not among them: they only set a message. */
  predicate AddLoanProceeds(session: Session, csrf: Option<string>, form: LoanForm, items: map<Id, Item>)
    reads session
  {
    Admits(session, csrf) && !MissingLoanFields(form) && ActiveItem(items, form.itemId)
  }

  /** The loans of the item the user still has out: what the existing-loan check counts. */
  function BorrowedLoans(loans: map<Id, Loan>, userId: Id, itemId: Id): set<Id> {
    set id | id in loans && loans[id].userId == userId && loans[id].itemId == itemId &&
      loans[id].status == Borrowed
  }

  /** The POST 'add' handler: record a loan and take one copy of the item out of stock. */
  method AddLoan(db: Library, session: Session, host: Host, csrf: Option<string>, form: LoanForm,
                 today: CalendarDate, random: int)
    requires db.Valid()
    requires ValidDate(today) && 1 <= random <= 9999
    modifies db`loans, db`nextLoanId, db`items, session`flash
    ensures db.Valid()
    ensures !AddLoanProceeds(session, csrf, form, old(db.items)) ==>
      db.loans == old(db.loans) && db.nextLoanId == old(db.nextLoanId) && db.items == old(db.items)
    ensures AddLoanProceeds(session, csrf, form, old(db.items)) ==>
      && old(db.nextLoanId) !in old(db.loans)
      && db.loans == old(db.loans)[old(db.nextLoanId) :=
           Loan(LoanCode(today, random), form.userId, form.itemId, form.loanDate.value,
                form.dueDate.value, host.sanitize(form.notes), Borrowed, None)]
      && db.nextLoanId == old(db.nextLoanId) + 1
      && db.items == old(db.items)[form.itemId := Restock(old(db.items)[form.itemId], -1)]
      && BorrowedCount(db.items[form.itemId]) == BorrowedCount(old(db.items)[form.itemId]) + 1
      && session.flash == Some(Flash(Success, LoanRecorded))
    // the stock guard does not stop the loan: an item with no copy left goes negative
    ensures (AddLoanProceeds(session, csrf, form, old(db.items)) &&
             old(db.items)[form.itemId].quantityAvailable <= 0) ==>
      db.items[form.itemId].quantityAvailable < 0
    ensures !session.IsLoggedIn() ==> session.flash == old(session.flash)
    ensures session.IsLoggedIn() && !CsrfAccepted(session, csrf) ==>
      session.flash == Some(Flash(Error, TokenInvalid))
    ensures Admits(session, csrf) && MissingLoanFields(form) ==>
      session.flash == Some(Flash(Error, FieldsRequired))
    ensures Admits(session, csrf) && !MissingLoanFields(form) && !ActiveItem(old(db.items), form.itemId) ==>
      session.flash == Some(Flash(Error, ItemNotFound))
  {
    if !session.IsLoggedIn() {
      return;
    }
    if !CsrfAccepted(session, csrf) {
      session.SetFlashMessage(Flash(Error, TokenInvalid));
      return;
    }
    if MissingLoanFields(form) {
      session.SetFlashMessage(Flash(Error, FieldsRequired));
      return;
    }
    if !ActiveItem(db.items, form.itemId) {
      session.SetFlashMessage(Flash(Error, ItemNotFound));
      return;
    }
    if db.items[form.itemId].quantityAvailable <= 0 {
      session.SetFlashMessage(Flash(Error, ItemUnavailable));
    }
    if BorrowedLoans(db.loans, form.userId, form.itemId) != {} {
      session.SetFlashMessage(Flash(Error, ActiveLoanExists));
    }
    RecordLoan(db, Loan(LoanCode(today, random), form.userId, form.itemId, form.loanDate.value,
                        form.dueDate.value, host.sanitize(form.notes), Borrowed, None));
    session.SetFlashMessage(Flash(Success, LoanRecorded));
  }

  /** The two writes of a recorded loan: the INSERT into loans at the next id, and the
      UPDATE that takes one copy of its item out of stock. */
  method RecordLoan(db: Library, loan: Loan)
    requires db.Valid() && loan.itemId in db.items
    modifies db`loans, db`nextLoanId, db`items
    ensures db.Valid()
    ensures old(db.nextLoanId) !in old(db.loans)
    ensures db.loans == old(db.loans)[old(db.nextLoanId) := loan]
    ensures db.nextLoanId == old(db.nextLoanId) + 1
    ensures db.items == old(db.items)[loan.itemId := Restock(old(db.items)[loan.itemId], -1)]
  {
    var id := db.nextLoanId;
    var item := Restock(db.items[loan.itemId], -1);
    InsertKeepsIdsBelow(db.loans, id, loan);
    AddLoanKeepsReferences(db.loans, db.items, id, loan, loan.itemId, item);
    db.loans := db.loans[id := loan];
    db.nextLoanId := id + 1;
    db.items := db.items[loan.itemId := item];
  }

  /** The POST 'update' handler: an existing loan gets new dates and notes; its code,
      user, item, status and return date stay. A missing loan ends the request. */
  method UpdateLoan(db: Library, session: Session, host: Host, csrf: Option<string>, id: Id,
                    loanDate: Day, dueDate: Day, notes: string)
    requires db.Valid()
    modifies db`loans, session`flash
    ensures db.Valid()
    ensures Admits(session, csrf) && id in old(db.loans) ==>
      db.loans == old(db.loans)[id := old(db.loans)[id].(loanDate := loanDate, dueDate := dueDate,
                                                         notes := host.sanitize(notes))] &&
      session.flash == Some(Flash(Success, LoanUpdated))
    ensures !(Admits(session, csrf) && id in old(db.loans)) ==> db.loans == old(db.loans)
    ensures Admits(session, csrf) && id !in old(db.loans) ==>
      session.flash == Some(Flash(Error, LoanNotFound))
    ensures session.IsLoggedIn() && !CsrfAccepted(session, csrf) ==>
      session.flash == Some(Flash(Error, TokenInvalid))
    ensures !session.IsLoggedIn() ==> session.flash == old(session.flash)
  {
    if !session.IsLoggedIn() {
      return;
    }
    if !CsrfAccepted(session, csrf) {
      session.SetFlashMessage(Flash(Error, TokenInvalid));
      return;
    }
    if id !in db.loans {
      session.SetFlashMessage(Flash(Error, LoanNotFound));
      return;
    }
    db.loans := db.loans[id := db.loans[id].(loanDate := loanDate, dueDate := dueDate,
                                             notes := host.sanitize(notes))];
    session.SetFlashMessage(Flash(Success, LoanUpdated));
  }

  /** The delete handler's lookup: the loan joined with its item row. */
  predicate LoanWithItem(loans: map<Id, Loan>, items: map<Id, Item>, id: Id) {
    id in loans && loans[id].itemId in items
  }

  /** The POST 'delete' handler: the loan row goes and its item gets one copy back. The
      not-found and already-returned checks only set a message, so a returned loan is
      restocked a second time when it is deleted. */
  method DeleteLoan(db: Library, session: Session, csrf: Option<string>, id: Id)
    requires db.Valid()
    modifies db`loans, db`items, session`flash
    ensures db.Valid()
    ensures Admits(session, csrf) ==>
      db.loans == old(db.loans) - {id} && session.flash == Some(Flash(Success, LoanDeleted))
    ensures Admits(session, csrf) && LoanWithItem(old(db.loans), old(db.items), id) ==>
      var itemId := old(db.loans)[id].itemId;
      db.items == old(db.items)[itemId := Restock(old(db.items)[itemId], 1)] &&
      BorrowedCount(db.items[itemId]) == BorrowedCount(old(db.items)[itemId]) - 1
    ensures !(Admits(session, csrf) && LoanWithItem(old(db.loans), old(db.items), id)) ==>
      db.items == old(db.items)
    ensures !Admits(session, csrf) ==> db.loans == old(db.loans)
    ensures session.IsLoggedIn() && !CsrfAccepted(session, csrf) ==>
      session.flash == Some(Flash(Error, TokenInvalid))
    ensures !session.IsLoggedIn() ==> session.flash == old(session.flash)
  {
    if !session.IsLoggedIn() {
      return;
    }
    if !CsrfAccepted(session, csrf) {
      session.SetFlashMessage(Flash(Error, TokenInvalid));
      return;
    }
    var found := LoanWithItem(db.loans, db.items, id);
    if !found {
      session.SetFlashMessage(Flash(Error, LoanNotFound));
    }
    if found && db.loans[id].status == Returned {
      session.SetFlashMessage(Flash(Error, LoanAlreadyReturned));
    }
    if found {
      var itemId := db.loans[id].itemId;
      db.items := db.items[itemId := Restock(db.items[itemId], 1)];
    }
    db.loans := db.loans - {id};
    session.SetFlashMessage(Flash(Success, LoanDeleted));
  }

  /** A borrowed loan whose due date lies before now. */
  predicate IsOverdue(loan: Loan, now: int) {
    loan.status == Borrowed && Midnight(loan.dueDate) < now
  }

  /** The loans table after the listing has looked at the loans in listed: each of them
      that is overdue is marked Overdue. */
  function MarkedOverdue(loans: map<Id, Loan>, listed: seq<Id>, now: int): (marked: map<Id, Loan>)
    ensures marked.Keys == loans.Keys
    ensures forall id :: id in loans && loans[id].status != Borrowed ==> marked[id] == loans[id]
    ensures forall id :: id in loans && marked[id] != loans[id] ==>
      id in listed && IsOverdue(loans[id], now) && marked[id] == loans[id].(status := Overdue)
    ensures forall id :: id in loans && id in listed && IsOverdue(loans[id], now) ==>
      marked[id].status == Overdue
    ensures forall id :: id in marked && id in listed ==> !IsOverdue(marked[id], now)
  {
    map id | id in loans :: if id in listed && IsOverdue(loans[id], now)
                            then loans[id].(status := Overdue) else loans[id]
  }

  /** The listing loop over the loans shown on the page (their ids in listed, as the
      page's query returned them): every overdue one is written back as Overdue. */
  method MarkOverdue(db: Library, listed: seq<Id>, now: int)
    requires db.Valid()
    modifies db`loans
    ensures db.Valid()
    ensures db.loans == MarkedOverdue(old(db.loans), listed, now)
  {
    var i := 0;
    while i < |listed|
      invariant 0 <= i <= |listed|
      invariant db.loans == MarkedOverdue(old(db.loans), listed[..i], now)
    {
      var id := listed[i];
      assert listed[..i + 1] == listed[..i] + [id];
      if id in db.loans && db.loans[id].status == Borrowed && Midnight(db.loans[id].dueDate) < now {
        db.loans := db.loans[id := db.loans[id].(status := Overdue)];
      }
      i := i + 1;
    }
    assert listed[..i] == listed;
  }

  /** Marking twice changes nothing more than marking once. */
  lemma MarkedOverdueIdempotent(loans: map<Id, Loan>, listed: seq<Id>, now: int)
    ensures MarkedOverdue(MarkedOverdue(loans, listed, now), listed, now) ==
            MarkedOverdue(loans, listed, now)
  {
  }

  /** A loan recorded and then deleted leaves the items and loans tables as they were. */
  method LoanThenDeleteRestoresStock(db: Library, session: Session, host: Host, csrf: Option<string>,
                                     form: LoanForm, today: CalendarDate, random: int)
    requires db.Valid()
    requires ValidDate(today) && 1 <= random <= 9999
    requires AddLoanProceeds(session, csrf, form, db.items)
    modifies db`loans, db`nextLoanId, db`items, session`flash
    ensures db.Valid()
    ensures db.items == old(db.items) && db.loans == old(db.loans)
  {
    var id := db.nextLoanId;
    AddLoan(db, session, host, csrf, form, today, random);
    DeleteLoan(db, session, csrf, id);
    assert db.items[form.itemId] == old(db.items)[form.itemId];
  }
}
