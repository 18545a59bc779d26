/** categories.php: the POST handlers for book categories. The page has no login check
    of its own; a POST needs only an accepted CSRF token. The duplicate-name checks only
    set a message: the insert or update still happens and its success message replaces
    the warning. */
module Categories {
  import opened Php
  import opened Messages
  import opened Functions
  import opened Store

  /** The categories, other than except, that already have the name. */
  function NamedCategories(categories: map<Id, Category>, name: string, except: Option<Id>): set<Id> {
    set id | id in categories && Some(id) != except && categories[id].name == name
  }

  /** The active items filed under a category: what the delete check counts. */
  function ActiveItemsIn(items: map<Id, Item>, categoryId: Id): set<Id> {
    set id | id in items && items[id].categoryId == categoryId && items[id].isActive
  }

  /** The POST 'add' handler: a category row at the next id, whether or not the name is
      taken. */
  method AddCategory(db: Library, session: Session, host: Host, csrf: Option<string>,
                     name: string, description: string)
    requires db.Valid()
    modifies db`categories, db`nextCategoryId, session`flash
    ensures db.Valid()
    ensures CsrfAccepted(session, csrf) ==>
      && old(db.nextCategoryId) !in old(db.categories)
      && db.categories == old(db.categories)[old(db.nextCategoryId) :=
           Category(host.sanitize(name), host.sanitize(description))]
      && db.nextCategoryId == old(db.nextCategoryId) + 1
      && session.flash == Some(Flash(Success, CategoryAdded))
    ensures !CsrfAccepted(session, csrf) ==>
      db.categories == old(db.categories) && db.nextCategoryId == old(db.nextCategoryId) &&
      session.flash == Some(Flash(Error, TokenInvalid))
  {
    if !CsrfAccepted(session, csrf) {
      session.SetFlashMessage(Flash(Error, TokenInvalid));
      return;
    }
    var category := Category(host.sanitize(name), host.sanitize(description));
    if NamedCategories(db.categories, category.name, None) != {} {
      session.SetFlashMessage(Flash(Error, CategoryNameTaken));
    }
    var id := db.nextCategoryId;
    InsertKeepsIdsBelow(db.categories, id, category);
    db.categories := db.categories[id := category];
    db.nextCategoryId := id + 1;
    session.SetFlashMessage(Flash(Success, CategoryAdded));
  }

  /** The POST 'update' handler: the row with the given id gets the new name and
      description, whether or not another category has that name; an id with no row
      changes nothing. */
  method UpdateCategory(db: Library, session: Session, host: Host, csrf: Option<string>,
                        id: Id, name: string, description: string)
    requires db.Valid()
    modifies db`categories, session`flash
    ensures db.Valid()
    ensures CsrfAccepted(session, csrf) ==>
      && db.categories == (if id in old(db.categories)
                           then old(db.categories)[id := Category(host.sanitize(name), host.sanitize(description))]
                           else old(db.categories))
      && session.flash == Some(Flash(Success, CategoryUpdated))
    ensures !CsrfAccepted(session, csrf) ==>
      db.categories == old(db.categories) && session.flash == Some(Flash(Error, TokenInvalid))
  {
    if !CsrfAccepted(session, csrf) {
      session.SetFlashMessage(Flash(Error, TokenInvalid));
      return;
    }
    var category := Category(host.sanitize(name), host.sanitize(description));
    if NamedCategories(db.categories, category.name, Some(id)) != {} {
      session.SetFlashMessage(Flash(Error, CategoryNameTaken));
    }
    if id in db.categories {
      db.categories := db.categories[id := category];
    }
    session.SetFlashMessage(Flash(Success, CategoryUpdated));
  }

  /** The POST 'delete' handler: a category with an active item in it stays; otherwise
      its row, and only its row, goes. */
  method DeleteCategory(db: Library, session: Session, csrf: Option<string>, id: Id)
    requires db.Valid()
    modifies db`categories, session`flash
    ensures db.Valid()
    ensures CsrfAccepted(session, csrf) && ActiveItemsIn(db.items, id) == {} ==>
      db.categories == old(db.categories) - {id} &&
      session.flash == Some(Flash(Success, CategoryDeleted))
    ensures !(CsrfAccepted(session, csrf) && ActiveItemsIn(db.items, id) == {}) ==>
      db.categories == old(db.categories)
    ensures CsrfAccepted(session, csrf) && ActiveItemsIn(db.items, id) != {} ==>
      session.flash == Some(Flash(Error, CategoryInUse))
    ensures !CsrfAccepted(session, csrf) ==> session.flash == Some(Flash(Error, TokenInvalid))
  {
    if !CsrfAccepted(session, csrf) {
      session.SetFlashMessage(Flash(Error, TokenInvalid));
      return;
    }
    if ActiveItemsIn(db.items, id) != {} {
      session.SetFlashMessage(Flash(Error, CategoryInUse));
    } else {
      db.categories := db.categories - {id};
      session.SetFlashMessage(Flash(Success, CategoryDeleted));
    }
  }

  /** The same name submitted twice: because the duplicate check does not stop the insert,
      two categories end up with one name, and the second request reports success. */
  method AddCategoryTwice(db: Library, session: Session, host: Host, csrf: Option<string>,
                          name: string, description: string)
    returns (first: Id, second: Id)
    requires db.Valid() && CsrfAccepted(session, csrf)
    modifies db`categories, db`nextCategoryId, session`flash
    ensures db.Valid()
    ensures first != second && first in db.categories && second in db.categories
    ensures db.categories[first].name == db.categories[second].name == host.sanitize(name)
    ensures session.flash == Some(Flash(Success, CategoryAdded))
  {
    first := db.nextCategoryId;
    AddCategory(db, session, host, csrf, name, description);
    second := db.nextCategoryId;
    AddCategory(db, session, host, csrf, name, description);
  }
}
