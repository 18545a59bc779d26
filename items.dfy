/** items.php: the POST handlers that add, edit and soft-delete books, the lookup the edit
    and view pages use, and the WHERE clause the listing builds from its search box and
    category filter. */
module Items {
  import opened Php
  import opened Messages
  import opened Functions
  import opened Store
  import opened Loans

  /** The fields of the add and edit forms after the (int) casts; an empty purchase date
      is None. */
  datatype ItemForm = ItemForm(
    barcode: string,
    title: string,
    author: string,
    categoryId: int,
    supplierId: int,
    isbn: string,
    description: string,
    quantityTotal: int,
    quantityAvailable: int,
    location: string,
    condition: string,
    purchaseDate: Option<Day>)

  /** The row the form writes: the text fields sanitize_input cleans are cleaned, the
      barcode and the condition are stored as submitted. */
  function FormItem(host: Host, form: ItemForm, barcode: string, isActive: bool): (item: Item)
    ensures item.barcode == barcode && item.isActive == isActive
    ensures item.quantityTotal == form.quantityTotal
    ensures item.quantityAvailable == form.quantityAvailable
    ensures item.categoryId == form.categoryId && item.supplierId == form.supplierId
  {
    Item(barcode, host.sanitize(form.title), host.sanitize(form.author), form.categoryId,
         form.supplierId, host.sanitize(form.isbn), host.sanitize(form.description),
         form.quantityTotal, form.quantityAvailable, host.sanitize(form.location),
         form.condition, form.purchaseDate, isActive)
  }

  /** The barcode add stores: the submitted one, or a generated one when the field is
      falsy ("" or "0"), given the value mt_rand(1, 999999) drew. */
  function ChosenBarcode(submitted: string, random: int): (barcode: string)
    requires 1 <= random <= 999999
    ensures !Empty(submitted) ==> barcode == submitted
    ensures Empty(submitted) ==> barcode == GenerateBarcode(random)
  {
    if Empty(submitted) then GenerateBarcode(random) else submitted
  }

  /** The edit and view lookup: an item row with is_active = 1, or nothing. */
  function FindActiveItem(items: map<Id, Item>, id: Id): (found: Option<Item>)
    ensures found.Some? <==> ActiveItem(items, id)
    ensures found.Some? ==> found.value == items[id] && found.value.isActive
  {
    if id in items && items[id].isActive then Some(items[id]) else None
  }

  lemma InsertItemKeepsReferences(loans: map<Id, Loan>, items: map<Id, Item>, id: Id, item: Item)
    requires LoansReferToItems(loans, items)
    ensures LoansReferToItems(loans, items[id := item])
  {
  }

  /** The POST 'add' handler: one item row at the next id, active, with the submitted
      quantities as they are (nothing checks available <= total). */
  method AddItem(db: Library, session: Session, host: Host, csrf: Option<string>,
                 form: ItemForm, random: int)
    requires db.Valid()
    requires 1 <= random <= 999999
    modifies db`items, db`nextItemId, session`flash
    ensures db.Valid()
    ensures Admits(session, csrf) ==>
      && old(db.nextItemId) !in old(db.items)
      && db.items == old(db.items)[old(db.nextItemId) :=
           FormItem(host, form, ChosenBarcode(form.barcode, random), true)]
      && db.nextItemId == old(db.nextItemId) + 1
      && session.flash == Some(Flash(Success, ItemAdded))
    ensures !Admits(session, csrf) ==>
      db.items == old(db.items) && db.nextItemId == old(db.nextItemId)
    ensures session.IsLoggedIn() && !CsrfAccepted(session, csrf) ==>
      session.flash == Some(Flash(Error, TokenInvalid))
    ensures !session.IsLoggedIn() ==> session.flash == old(session.flash)
  {
    if !session.IsLoggedIn() {
      return;
    }
    if !CsrfAccepted(session, csrf) {
      session.SetFlashMessage(Flash(Error, TokenInvalid));
      return;
    }
    var barcode := if Empty(form.barcode) then GenerateBarcode(random) else form.barcode;
    var id := db.nextItemId;
    var item := FormItem(host, form, barcode, true);
    InsertKeepsIdsBelow(db.items, id, item);
    InsertItemKeepsReferences(db.loans, db.items, id, item);
    db.items := db.items[id := item];
    db.nextItemId := id + 1;
    session.SetFlashMessage(Flash(Success, ItemAdded));
  }

  /** The POST 'update' handler: the row with the given id gets every field of the form
      (its is_active flag stays); an id with no row changes nothing, and the success
      message is set either way. */
  method UpdateItem(db: Library, session: Session, host: Host, csrf: Option<string>,
                    id: Id, form: ItemForm)
    requires db.Valid()
    modifies db`items, session`flash
    ensures db.Valid()
    ensures Admits(session, csrf) && id in old(db.items) ==>
      db.items == old(db.items)[id := FormItem(host, form, form.barcode, old(db.items)[id].isActive)]
    ensures !(Admits(session, csrf) && id in old(db.items)) ==> db.items == old(db.items)
    ensures Admits(session, csrf) ==> session.flash == Some(Flash(Success, ItemUpdated))
    ensures session.IsLoggedIn() && !CsrfAccepted(session, csrf) ==>
      session.flash == Some(Flash(Error, TokenInvalid))
    ensures !session.IsLoggedIn() ==> session.flash == old(session.flash)
  {
    if !session.IsLoggedIn() {
      return;
    }
    if !CsrfAccepted(session, csrf) {
      session.SetFlashMessage(Flash(Error, TokenInvalid));
      return;
    }
    if id in db.items {
      db.items := db.items[id := FormItem(host, form, form.barcode, db.items[id].isActive)];
    }
    session.SetFlashMessage(Flash(Success, ItemUpdated));
  }

  /** The loans the delete check counts: status Borrowed only, so an Overdue loan does
      not hold the item back. */
  function LoansOut(loans: map<Id, Loan>, itemId: Id): set<Id> {
    set id | id in loans && loans[id].itemId == itemId && loans[id].status == Borrowed
  }

  /** The POST 'delete' handler: an item with a loan out stays; otherwise its row stays
      too but is marked inactive, so the list, edit and view lookups no longer find it. */
  method DeleteItem(db: Library, session: Session, csrf: Option<string>, id: Id)
    requires db.Valid()
    modifies db`items, session`flash
    ensures db.Valid()
    ensures db.items.Keys == old(db.items).Keys
    ensures Admits(session, csrf) && LoansOut(old(db.loans), id) == {} ==>
      && db.items == (if id in old(db.items)
                      then old(db.items)[id := old(db.items)[id].(isActive := false)]
                      else old(db.items))
      && FindActiveItem(db.items, id).None?
      && session.flash == Some(Flash(Success, ItemDeleted))
    ensures !(Admits(session, csrf) && LoansOut(old(db.loans), id) == {}) ==>
      db.items == old(db.items)
    ensures Admits(session, csrf) && LoansOut(old(db.loans), id) != {} ==>
      session.flash == Some(Flash(Error, ItemOnLoan))
    ensures session.IsLoggedIn() && !CsrfAccepted(session, csrf) ==>
      session.flash == Some(Flash(Error, TokenInvalid))
    ensures !session.IsLoggedIn() ==> session.flash == old(session.flash)
  {
    if !session.IsLoggedIn() {
      return;
    }
    if !CsrfAccepted(session, csrf) {
      session.SetFlashMessage(Flash(Error, TokenInvalid));
      return;
    }
    if LoansOut(db.loans, id) != {} {
      session.SetFlashMessage(Flash(Error, ItemOnLoan));
    } else {
      if id in db.items {
        db.items := db.items[id := db.items[id].(isActive := false)];
      }
      session.SetFlashMessage(Flash(Success, ItemDeleted));
    }
  }

  // ---------------------------------------------------------------- list filter

  /** One entry of $where_conditions. TextSearch is "title LIKE ? OR author LIKE ? OR
      barcode LIKE ?", CategoryIs is "category_id = ?", ActiveOnly is "is_active = 1". */
  datatype Condition = ActiveOnly | TextSearch | CategoryIs

  /** The number of ? placeholders of a condition. */
  function Arity(c: Condition): nat {
    match c
    case ActiveOnly => 0
    case TextSearch => 3
    case CategoryIs => 1
  }

  /** s occurs in text. */
  predicate Contains(text: string, s: string) {
    exists i :: 0 <= i <= |text| && s <= text[i..]
  }

  /** LIKE with a pattern of the form %s%: s occurs in the text (s taken literally). */
  predicate LikeSurrounded(text: string, pattern: string) {
    2 <= |pattern| && pattern[0] == '%' && pattern[|pattern| - 1] == '%' &&
    Contains(text, pattern[1..|pattern| - 1])
  }

  /** One condition with its own parameters, on one row. number is MySQL's reading of a
      string compared with an integer column. */
  predicate Holds(c: Condition, ps: seq<string>, number: string -> int, item: Item)
    requires |ps| == Arity(c)
  {
    match c
    case ActiveOnly => item.isActive
    case TextSearch =>
      LikeSurrounded(item.title, ps[0]) || LikeSurrounded(item.author, ps[1]) ||
      LikeSurrounded(item.barcode, ps[2])
    case CategoryIs => item.categoryId == number(ps[0])
  }

  /** The number of ? placeholders of the joined WHERE clause. */
  function Placeholders(conditions: seq<Condition>): nat {
    if conditions == [] then 0
    else Placeholders(conditions[..|conditions| - 1]) + Arity(conditions[|conditions| - 1])
  }

  /** The WHERE clause the conditions joined by AND make, with the ? placeholders bound
      to params in order, on one row. */
  predicate Selects(conditions: seq<Condition>, params: seq<string>, number: string -> int,
                    item: Item)
    requires |params| == Placeholders(conditions)
  {
    if conditions == [] then true
    else
      var k := Placeholders(conditions[..|conditions| - 1]);
      Selects(conditions[..|conditions| - 1], params[..k], number, item) &&
      Holds(conditions[|conditions| - 1], params[k..], number, item)
  }

  /** Appending a condition and its parameters adds one conjunct to the clause. */
  lemma AppendCondition(conditions: seq<Condition>, params: seq<string>, c: Condition,
                        ps: seq<string>, number: string -> int, item: Item)
    requires |params| == Placeholders(conditions) && |ps| == Arity(c)
    ensures Placeholders(conditions + [c]) == Placeholders(conditions) + Arity(c)
    ensures Selects(conditions + [c], params + ps, number, item) <==>
      Selects(conditions, params, number, item) && Holds(c, ps, number, item)
  {
  }

  /** The rows the listing shows, stated directly: active, matching the search when one
      is given, and in the category when one is chosen. */
  predicate Listed(item: Item, search: string, category: string, number: string -> int) {
    item.isActive && SearchMatch(item, search) && CategoryMatch(item, category, number)
  }

  /** The search box: a falsy search ("" or "0") filters nothing, any other occurs in the
      title, the author or the barcode. */
  predicate SearchMatch(item: Item, search: string) {
    Empty(search) ||
    Contains(item.title, search) || Contains(item.author, search) || Contains(item.barcode, search)
  }

  /** The category filter: a falsy one filters nothing. */
  predicate CategoryMatch(item: Item, category: string, number: string -> int) {
    Empty(category) || item.categoryId == number(category)
  }

  /** The pattern "%search%" matches exactly the texts that contain search. */
  lemma LikeSurroundedContains(text: string, search: string)
    ensures LikeSurrounded(text, "%" + search + "%") <==> Contains(text, search)
  {
  }

  /** The listing's filter builder: starts from is_active = 1, adds the text search and
      its three parameters when search is truthy, then the category match and its
      parameter when category is truthy. The clause selects exactly the Listed rows. */
  method BuildItemFilter(search: string, category: string, ghost number: string -> int)
    returns (conditions: seq<Condition>, params: seq<string>)
    ensures |conditions| >= 1 && conditions[0] == ActiveOnly
    ensures |params| == Placeholders(conditions)
    ensures forall item :: Selects(conditions, params, number, item) <==>
      Listed(item, search, category, number)
  {
    conditions := [ActiveOnly];
    params := [];
    forall item: Item
      ensures Selects(conditions, params, number, item) <==> item.isActive
    {
      AppendCondition([], [], ActiveOnly, [], number, item);
      assert [] + [ActiveOnly] == conditions;
    }
    if !Empty(search) {
      var pattern := "%" + search + "%";
      forall item: Item
        ensures Placeholders(conditions + [TextSearch]) == Placeholders(conditions) + 3
        ensures Selects(conditions + [TextSearch], params + [pattern, pattern, pattern], number, item)
                <==> item.isActive && SearchMatch(item, search)
      {
        AppendCondition(conditions, params, TextSearch, [pattern, pattern, pattern], number, item);
        LikeSurroundedContains(item.title, search);
        LikeSurroundedContains(item.author, search);
        LikeSurroundedContains(item.barcode, search);
      }
      conditions := conditions + [TextSearch];
      params := params + [pattern, pattern, pattern];
    }
    if !Empty(category) {
      forall item: Item
        ensures Placeholders(conditions + [CategoryIs]) == Placeholders(conditions) + 1
        ensures Selects(conditions + [CategoryIs], params + [category], number, item) <==>
                Selects(conditions, params, number, item) && item.categoryId == number(category)
      {
        AppendCondition(conditions, params, CategoryIs, [category], number, item);
      }
      conditions := conditions + [CategoryIs];
      params := params + [category];
    }
  }
}
