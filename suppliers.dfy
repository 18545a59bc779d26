/** suppliers.php: the administrator's POST handlers for suppliers. A name is required,
    and an email is checked only when one is given. */
module Suppliers {
  import opened Php
  import opened Messages
  import opened Functions
  import opened Store

  /** The add and edit form, as submitted. */
  datatype SupplierForm = SupplierForm(
    name: string,
    contactPerson: string,
    phone: string,
    email: string,
    address: string)

  /** The row the form writes: every field cleaned by sanitize_input. */
  function FormSupplier(host: Host, form: SupplierForm): (supplier: Supplier)
    ensures supplier.name == host.sanitize(form.name) && supplier.email == host.sanitize(form.email)
  {
    Supplier(host.sanitize(form.name), host.sanitize(form.contactPerson), host.sanitize(form.phone),
             host.sanitize(form.email), host.sanitize(form.address))
  }

  /** The form's checks, in order: a falsy name is refused, then a truthy email that
      is_valid_email rejects; an empty email is not checked. */
  function SupplierFormError(host: Host, form: SupplierForm): (error: Option<Notice>)
    ensures error.None? <==>
      !Empty(host.sanitize(form.name)) &&
      (Empty(host.sanitize(form.email)) || host.validEmail(host.sanitize(form.email)))
    ensures error == Some(SupplierNameRequired) <==> Empty(host.sanitize(form.name))
    ensures Empty(host.sanitize(form.email)) ==> error != Some(InvalidEmail)
    ensures (!Empty(host.sanitize(form.name)) && !Empty(host.sanitize(form.email)) &&
             !host.validEmail(host.sanitize(form.email))) ==> error == Some(InvalidEmail)
  {
    var supplier := FormSupplier(host, form);
    if Empty(supplier.name) then Some(SupplierNameRequired)
    else if !Empty(supplier.email) && !host.validEmail(supplier.email) then Some(InvalidEmail)
    else None
  }

  /** The active items bought from a supplier: what the delete check counts. */
  function ActiveItemsFrom(items: map<Id, Item>, supplierId: Id): set<Id> {
    set id | id in items && items[id].supplierId == supplierId && items[id].isActive
  }

  /** The POST 'add' handler: a supplier row at the next id when the form passes. */
  method AddSupplier(db: Library, session: Session, host: Host, csrf: Option<string>,
                     form: SupplierForm)
    requires db.Valid()
    modifies db`suppliers, db`nextSupplierId, session`flash
    ensures db.Valid()
    ensures AdminAdmits(session, csrf) && SupplierFormError(host, form).None? ==>
      && old(db.nextSupplierId) !in old(db.suppliers)
      && db.suppliers == old(db.suppliers)[old(db.nextSupplierId) := FormSupplier(host, form)]
      && db.nextSupplierId == old(db.nextSupplierId) + 1
      && session.flash == Some(Flash(Success, SupplierAdded))
    ensures !(AdminAdmits(session, csrf) && SupplierFormError(host, form).None?) ==>
      db.suppliers == old(db.suppliers) && db.nextSupplierId == old(db.nextSupplierId)
    ensures AdminAdmits(session, csrf) && SupplierFormError(host, form).Some? ==>
      session.flash == Some(Flash(Error, SupplierFormError(host, form).value))
    ensures !session.HasRole("admin") ==> session.flash == Some(Flash(Error, AccessDenied))
    ensures session.HasRole("admin") && !CsrfAccepted(session, csrf) ==>
      session.flash == Some(Flash(Error, TokenInvalid))
  {
    if !session.HasRole("admin") {
      session.SetFlashMessage(Flash(Error, AccessDenied));
      return;
    }
    if !CsrfAccepted(session, csrf) {
      session.SetFlashMessage(Flash(Error, TokenInvalid));
      return;
    }
    var supplier := FormSupplier(host, form);
    if Empty(supplier.name) {
      session.SetFlashMessage(Flash(Error, SupplierNameRequired));
      return;
    }
    if !Empty(supplier.email) && !host.validEmail(supplier.email) {
      session.SetFlashMessage(Flash(Error, InvalidEmail));
      return;
    }
    var id := db.nextSupplierId;
    InsertKeepsIdsBelow(db.suppliers, id, supplier);
    db.suppliers := db.suppliers[id := supplier];
    db.nextSupplierId := id + 1;
    session.SetFlashMessage(Flash(Success, SupplierAdded));
  }

  /** The POST 'update' handler: when the form passes, the row with the given id gets
      all five fields; an id with no row changes nothing. */
  method UpdateSupplier(db: Library, session: Session, host: Host, csrf: Option<string>,
                        id: Id, form: SupplierForm)
    requires db.Valid()
    modifies db`suppliers, session`flash
    ensures db.Valid()
    ensures AdminAdmits(session, csrf) && SupplierFormError(host, form).None? ==>
      && db.suppliers == (if id in old(db.suppliers)
                          then old(db.suppliers)[id := FormSupplier(host, form)]
                          else old(db.suppliers))
      && session.flash == Some(Flash(Success, SupplierUpdated))
    ensures !(AdminAdmits(session, csrf) && SupplierFormError(host, form).None?) ==>
      db.suppliers == old(db.suppliers)
    ensures AdminAdmits(session, csrf) && SupplierFormError(host, form).Some? ==>
      session.flash == Some(Flash(Error, SupplierFormError(host, form).value))
    ensures !session.HasRole("admin") ==> session.flash == Some(Flash(Error, AccessDenied))
    ensures session.HasRole("admin") && !CsrfAccepted(session, csrf) ==>
      session.flash == Some(Flash(Error, TokenInvalid))
  {
    if !session.HasRole("admin") {
      session.SetFlashMessage(Flash(Error, AccessDenied));
      return;
    }
    if !CsrfAccepted(session, csrf) {
      session.SetFlashMessage(Flash(Error, TokenInvalid));
      return;
    }
    var supplier := FormSupplier(host, form);
    if Empty(supplier.name) {
      session.SetFlashMessage(Flash(Error, SupplierNameRequired));
      return;
    }
    if !Empty(supplier.email) && !host.validEmail(supplier.email) {
      session.SetFlashMessage(Flash(Error, InvalidEmail));
      return;
    }
    if id in db.suppliers {
      db.suppliers := db.suppliers[id := supplier];
    }
    session.SetFlashMessage(Flash(Success, SupplierUpdated));
  }

  /** The POST 'delete' handler: a supplier of an active item stays; otherwise its row,
      and only its row, goes. */
  method DeleteSupplier(db: Library, session: Session, csrf: Option<string>, id: Id)
    requires db.Valid()
    modifies db`suppliers, session`flash
    ensures db.Valid()
    ensures AdminAdmits(session, csrf) && ActiveItemsFrom(db.items, id) == {} ==>
      db.suppliers == old(db.suppliers) - {id} &&
      session.flash == Some(Flash(Success, SupplierDeleted))
    ensures !(AdminAdmits(session, csrf) && ActiveItemsFrom(db.items, id) == {}) ==>
      db.suppliers == old(db.suppliers)
    ensures AdminAdmits(session, csrf) && ActiveItemsFrom(db.items, id) != {} ==>
      session.flash == Some(Flash(Error, SupplierInUse))
    ensures !session.HasRole("admin") ==> session.flash == Some(Flash(Error, AccessDenied))
    ensures session.HasRole("admin") && !CsrfAccepted(session, csrf) ==>
      session.flash == Some(Flash(Error, TokenInvalid))
  {
    if !session.HasRole("admin") {
      session.SetFlashMessage(Flash(Error, AccessDenied));
      return;
    }
    if !CsrfAccepted(session, csrf) {
      session.SetFlashMessage(Flash(Error, TokenInvalid));
      return;
    }
    if ActiveItemsFrom(db.items, id) != {} {
      session.SetFlashMessage(Flash(Error, SupplierInUse));
    } else {
      db.suppliers := db.suppliers - {id};
      session.SetFlashMessage(Flash(Success, SupplierDeleted));
    }
  }
}
