/** returns.php: the POST 'add' handler that takes a book back. It counts the late days
    against the loan's due date, charges a fine per late day, and writes three rows in
    one transaction: the loan closed, one copy back in stock, a return record. */
module Returns {
  import opened Php
  import opened Config
  import opened Messages
  import opened Functions
  import opened Store
  import opened Loans

  /** The fields of the return form after the (int) cast of the loan id; an empty date
      field is None. */
  datatype ReturnForm = ReturnForm(
    loanId: int,
    returnDate: Option<Day>,
    condition: string,
    notes: string)

  /** A required field of the return form is empty: a loan id of 0, no date, or a
      condition PHP's empty() rejects. */
  predicate MissingReturnFields(form: ReturnForm) {
    form.loanId == 0 || form.returnDate.None? || Empty(form.condition)
  }

  /** A request that reaches the transaction: every guard that ends the request passed.
      The loan lookup is not among them: it only sets a message. */
  predicate ReturnProceeds(session: Session, csrf: Option<string>, form: ReturnForm)
    reads session
  {
    Admits(session, csrf) && !MissingReturnFields(form)
  }

  /** The lookup of the loan to return: a row with that id, still Borrowed, joined with
      its item row. An Overdue loan is not found. */
  predicate OpenLoan(loans: map<Id, Loan>, items: map<Id, Item>, id: Id) {
    id in loans && loans[id].status == Borrowed && loans[id].itemId in items
  }

  /** The moment the late days are counted from: the loan's due date when the lookup found
      it, and otherwise the current moment, which is what a DateTime built from the
      missing due date denotes. */
  function DueMoment(loans: map<Id, Loan>, items: map<Id, Item>, id: Id, now: int): int {
    if OpenLoan(loans, items, id) then Midnight(loans[id].dueDate) else now
  }

  /** The fine for a return: LATE_FINE_PER_DAY for each late day. */
  function ReturnFine(lateDays: nat): (fine: nat)
    ensures fine % LateFinePerDay == 0
    ensures fine == 0 <==> lateDays == 0
    ensures fine / LateFinePerDay == lateDays
  {
    lateDays * LateFinePerDay
  }

  /** On dates, a return on or before the due date costs nothing, and a later one costs
      1000 for each day past the due date. */
  lemma ReturnFineForDates(due: Day, returned: Day)
    ensures ReturnFine(LateDays(Midnight(due), Midnight(returned))) ==
      if returned > due then 1000 * (returned - due) else 0
  {
  }

  /** A later return never costs less. */
  lemma ReturnFineMonotone(due: int, returned: int, later: int)
    requires returned <= later
    ensures ReturnFine(LateDays(due, returned)) <= ReturnFine(LateDays(due, later))
  {
  }

  /** The loan row after the status update: Returned, with the return date set. */
  function ClosedLoan(loan: Loan, returnDate: Day): (closed: Loan)
    ensures closed.status == Returned && closed.returnDate == Some(returnDate)
    ensures closed.(status := loan.status, returnDate := loan.returnDate) == loan
  {
    loan.(status := Returned, returnDate := Some(returnDate))
  }

  /** The success message: the fine, formatted as rupiah, is added when it is positive. */
  function ReturnMessage(fine: nat): (message: Flash)
    ensures message.kind == Success && message.notice.ReturnRecorded?
    ensures message.notice.fineText.Some? <==> fine > 0
    ensures fine > 0 ==>
      var text := message.notice.fineText.value;
      && |text| >= 4 && text[..3] == "Rp " && text[3] != '0'
      && Grouped(text[3..]) && AllDigits(StripDots(text[3..]))
      && DigitsValue(StripDots(text[3..])) == fine
  {
    Flash(Success, ReturnRecorded(if fine > 0 then Some(FormatRupiah(fine)) else None))
  }

  lemma CloseKeepsReferences(loans: map<Id, Loan>, items: map<Id, Item>, id: Id, returnDate: Day)
    requires LoansReferToItems(loans, items) && id in loans
    ensures LoansReferToItems(loans[id := ClosedLoan(loans[id], returnDate)], items)
  {
  }

  /** The three writes of the transaction, in order. A write that raises (failAt names
      it: 1, 2 or 3; 0 for none) leaves the writes before it in place and skips the rest;
      the caller rolls them back. The status update and the stock update match by id, so
      a loan id with no row, or an item id the lookup did not find, changes nothing. */
  method ReturnWrites(db: Library, loanId: Id, found: bool, record: ReturnRecord, failAt: nat)
    returns (failed: bool)
    requires db.Valid() && failAt <= 3
    requires found ==> OpenLoan(db.loans, db.items, loanId)
    modifies db`loans, db`items, db`returnRecords
    ensures db.Valid()
    ensures failed <==> failAt != 0
    ensures db.loans == (if failAt != 1 && loanId in old(db.loans)
                         then old(db.loans)[loanId := ClosedLoan(old(db.loans)[loanId], record.returnDate)]
                         else old(db.loans))
    ensures db.items == (if found && (failAt == 0 || failAt == 3)
                         then var itemId := old(db.loans)[loanId].itemId;
                              old(db.items)[itemId := Restock(old(db.items)[itemId], 1)]
                         else old(db.items))
    ensures db.returnRecords == (if failAt == 0 then old(db.returnRecords) + [record]
                                 else old(db.returnRecords))
  {
    failed := true;
    if failAt == 1 {
      return;
    }
    if loanId in db.loans {
      CloseKeepsReferences(db.loans, db.items, loanId, record.returnDate);
      db.loans := db.loans[loanId := ClosedLoan(db.loans[loanId], record.returnDate)];
    }
    if failAt == 2 {
      return;
    }
    if found {
      var itemId := db.loans[loanId].itemId;
      db.items := db.items[itemId := Restock(db.items[itemId], 1)];
    }
    if failAt == 3 {
      return;
    }
    db.returnRecords := db.returnRecords + [record];
    failed := false;
  }

  /** The POST 'add' handler. now is the moment of the request. failAt stands for the
      database: 0 when every write succeeds, otherwise the write (1, 2 or 3) that raises
      a PDOException, after which the transaction is rolled back. */
  method AddReturn(db: Library, session: Session, host: Host, csrf: Option<string>,
                   form: ReturnForm, now: int, failAt: nat)
    requires db.Valid() && failAt <= 3
    modifies db`loans, db`items, db`returnRecords, session`flash
    ensures db.Valid()
    ensures !(ReturnProceeds(session, csrf, form) && failAt == 0) ==>
      db.loans == old(db.loans) && db.items == old(db.items) &&
      db.returnRecords == old(db.returnRecords)
    ensures ReturnProceeds(session, csrf, form) && failAt == 0 ==>
      var id := form.loanId;
      var late := LateDays(DueMoment(old(db.loans), old(db.items), id, now),
                           Midnight(form.returnDate.value));
      && db.loans == (if id in old(db.loans)
                      then old(db.loans)[id := ClosedLoan(old(db.loans)[id], form.returnDate.value)]
                      else old(db.loans))
      && db.items == (if OpenLoan(old(db.loans), old(db.items), id)
                      then var itemId := old(db.loans)[id].itemId;
                           old(db.items)[itemId := Restock(old(db.items)[itemId], 1)]
                      else old(db.items))
      && db.returnRecords == old(db.returnRecords) +
           [ReturnRecord(id, form.returnDate.value, form.condition, late, ReturnFine(late),
                         host.sanitize(form.notes))]
      && session.flash == Some(ReturnMessage(ReturnFine(late)))
    ensures ReturnProceeds(session, csrf, form) && failAt != 0 ==>
      session.flash == Some(Flash(Error, DatabaseError))
    ensures !session.IsLoggedIn() ==> session.flash == old(session.flash)
    ensures session.IsLoggedIn() && !CsrfAccepted(session, csrf) ==>
      session.flash == Some(Flash(Error, TokenInvalid))
    ensures Admits(session, csrf) && MissingReturnFields(form) ==>
      session.flash == Some(Flash(Error, FieldsRequired))
  {
    if !session.IsLoggedIn() {
      return;
    }
    if !CsrfAccepted(session, csrf) {
      session.SetFlashMessage(Flash(Error, TokenInvalid));
      return;
    }
    if MissingReturnFields(form) {
      session.SetFlashMessage(Flash(Error, FieldsRequired));
      return;
    }
    var found := OpenLoan(db.loans, db.items, form.loanId);
    if !found {
      session.SetFlashMessage(Flash(Error, OpenLoanNotFound));
    }
    var late := LateDays(DueMoment(db.loans, db.items, form.loanId, now),
                         Midnight(form.returnDate.value));
    var fine := ReturnFine(late);
    var record := ReturnRecord(form.loanId, form.returnDate.value, form.condition, late, fine,
                               host.sanitize(form.notes));
    var loans, items, records := db.loans, db.items, db.returnRecords;
    var failed := ReturnWrites(db, form.loanId, found, record, failAt);
    if failed {
      db.loans, db.items, db.returnRecords := loans, items, records;
      session.SetFlashMessage(Flash(Error, DatabaseError));
      return;
    }
    session.SetFlashMessage(ReturnMessage(fine));
  }

  /** A loan recorded and then returned with no database error: the item's stock is back
      where it was, the loan is closed, and one return record is added. */
  method LoanThenReturn(db: Library, session: Session, host: Host, csrf: Option<string>,
                        form: LoanForm, today: CalendarDate, random: int,
                        returnDate: Day, condition: string, now: int)
    requires db.Valid()
    requires ValidDate(today) && 1 <= random <= 9999
    requires AddLoanProceeds(session, csrf, form, db.items)
    requires !Empty(condition)
    modifies db`loans, db`nextLoanId, db`items, db`returnRecords, session`flash
    ensures db.Valid()
    ensures db.items == old(db.items)
    ensures old(db.nextLoanId) in db.loans && db.loans[old(db.nextLoanId)].status == Returned
    ensures db.loans[old(db.nextLoanId)].itemId == form.itemId
    ensures old(db.nextLoanId) !in old(db.loans) && db.loans - {old(db.nextLoanId)} == old(db.loans)
    ensures |db.returnRecords| == |old(db.returnRecords)| + 1
  {
    var id := db.nextLoanId;
    AddLoan(db, session, host, csrf, form, today, random);
    assert OpenLoan(db.loans, db.items, id);
    AddReturn(db, session, host, csrf, ReturnForm(id, Some(returnDate), condition, ""), now, 0);
    assert db.items[form.itemId] == old(db.items)[form.itemId];
  }

  /** A loan recorded, returned and then deleted: the return puts the copy back, and the
      delete, whose already-returned check only sets a message, puts it back a second
      time, so the item ends with one more available copy than it started with. */
  method ReturnThenDeleteRestocksTwice(db: Library, session: Session, host: Host,
                                       csrf: Option<string>, form: LoanForm, today: CalendarDate,
                                       random: int, returnDate: Day, condition: string, now: int)
    requires db.Valid()
    requires ValidDate(today) && 1 <= random <= 9999
    requires AddLoanProceeds(session, csrf, form, db.items)
    requires !Empty(condition)
    modifies db`loans, db`nextLoanId, db`items, db`returnRecords, session`flash
    ensures db.Valid()
    ensures db.items == old(db.items)[form.itemId := Restock(old(db.items)[form.itemId], 1)]
    ensures db.loans == old(db.loans)
    ensures session.flash == Some(Flash(Success, LoanDeleted))
  {
    var id := db.nextLoanId;
    LoanThenReturn(db, session, host, csrf, form, today, random, returnDate, condition, now);
    DeleteLoan(db, session, csrf, id);
  }
}
