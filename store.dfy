/** The database the pages work on: one map per table, keyed by the row id, with the
    next auto-increment id of each table beside it. The returns table is only ever
    appended to, so it is a sequence (returnRecords). */
module Store {
  import opened Php
  import opened Functions

  type Id = int

  /** loans.status: 'dipinjam', 'dikembalikan', 'terlambat', 'hilang'. */
  datatype LoanStatus = Borrowed | Returned | Overdue | Lost

  datatype Item = Item(
    barcode: string,
    title: string,
    author: string,
    categoryId: int,
    supplierId: int,
    isbn: string,
    description: string,
    quantityTotal: int,
    quantityAvailable: int,
    location: string,
    condition: string,
    purchaseDate: Option<Day>,
    isActive: bool)

  datatype Loan = Loan(
    code: string,
    userId: Id,
    itemId: Id,
    loanDate: Day,
    dueDate: Day,
    notes: string,
    status: LoanStatus,
    returnDate: Option<Day>)

  datatype ReturnRecord = ReturnRecord(
    loanId: Id,
    returnDate: Day,
    condition: string,
    lateDays: nat,
    fineAmount: nat,
    notes: string)

  datatype User = User(
    username: string,
    email: string,
    passwordHash: string,
    roleId: int,
    fullName: string,
    phone: string,
    isActive: bool)

  datatype Category = Category(name: string, description: string)

  datatype Supplier = Supplier(
    name: string,
    contactPerson: string,
    phone: string,
    email: string,
    address: string)

  /** The copies of an item that are out: what the item page shows as borrowed. */
  function BorrowedCount(item: Item): int {
    item.quantityTotal - item.quantityAvailable
  }

  /** The item row with its available quantity moved by delta; nothing else changes. */
  function Restock(item: Item, delta: int): Item {
    item.(quantityAvailable := item.quantityAvailable + delta)
  }

  /** An item row that exists and has is_active = 1. */
  predicate ActiveItem(items: map<Id, Item>, id: Id) {
    id in items && items[id].isActive
  }

  /** The ids of a table: positive and below its next auto-increment id. */
  ghost predicate IdsBelow<T>(table: map<Id, T>, next: Id) {
    1 <= next && forall id :: id in table ==> 1 <= id < next
  }

  ghost predicate LoansReferToItems(loans: map<Id, Loan>, items: map<Id, Item>) {
    forall id :: id in loans ==> loans[id].itemId in items
  }

  /** An insert at the next id keeps the ids below the advanced counter. */
  lemma InsertKeepsIdsBelow<T>(table: map<Id, T>, next: Id, row: T)
    requires IdsBelow(table, next)
    ensures next !in table && IdsBelow(table[next := row], next + 1)
  {
  }

  /** A new loan of an existing item keeps every loan referring to an item row. */
  lemma AddLoanKeepsReferences(loans: map<Id, Loan>, items: map<Id, Item>, id: Id, loan: Loan,
                               itemId: Id, item: Item)
    requires LoansReferToItems(loans, items) && loan.itemId in items && itemId in items
    ensures LoansReferToItems(loans[id := loan], items[itemId := item])
  {
  }

  class Library {
    var items: map<Id, Item>
    var nextItemId: Id
    var loans: map<Id, Loan>
    var nextLoanId: Id
    var returnRecords: seq<ReturnRecord>
    var users: map<Id, User>
    var nextUserId: Id
    var categories: map<Id, Category>
    var nextCategoryId: Id
    var suppliers: map<Id, Supplier>
    var nextSupplierId: Id

    /** Row ids are positive and below the table's next auto-increment id, and every loan
        refers to an item row (item rows are only ever deactivated, never removed). */
    ghost predicate Valid()
      reads this
    {
      && IdsBelow(items, nextItemId)
      && IdsBelow(loans, nextLoanId)
      && IdsBelow(users, nextUserId)
      && IdsBelow(categories, nextCategoryId)
      && IdsBelow(suppliers, nextSupplierId)
      && LoansReferToItems(loans, items)
    }

    constructor ()
      ensures Valid()
      ensures items == map[] && loans == map[] && returnRecords == []
      ensures users == map[] && categories == map[] && suppliers == map[]
    {
      items, nextItemId := map[], 1;
      loans, nextLoanId := map[], 1;
      returnRecords := [];
      users, nextUserId := map[], 1;
      categories, nextCategoryId := map[], 1;
      suppliers, nextSupplierId := map[], 1;
    }
  }
}
