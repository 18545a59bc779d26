/** The flash messages the pages store in the session. Each notice stands for one
    message text of the pages; its comment gives the situation it reports. */
module Messages {
  import opened Php

  /** The first argument of set_flash_message: 'success' or 'error'. */
  datatype FlashKind = Success | Error

  datatype Notice =
    | TokenInvalid          // the submitted CSRF token is missing or wrong
    | AccessDenied          // an admin-only page was opened by someone else
    | DatabaseError         // a PDOException reached the page's catch block
    | FieldsRequired        // a required form field is empty
    | ItemNotFound          // no active item with the given id
    | ItemUnavailable       // the item has no copy available
    | ActiveLoanExists      // the user already borrows this item
    | LoanRecorded
    | LoanNotFound
    | LoanUpdated
    | LoanAlreadyReturned   // a returned loan cannot be deleted
    | LoanDeleted
    | OpenLoanNotFound      // no borrowed loan with the given id to return
    | ReturnRecorded(fineText: Option<string>)  // carries the formatted fine when it is positive
    | ItemAdded
    | ItemUpdated
    | ItemOnLoan            // an item that is out on loan cannot be deleted
    | ItemDeleted
    | InvalidEmail
    | PasswordMismatch
    | PasswordTooShort
    | UserTaken             // the username or the email is already registered
    | UserAdded
    | UserUpdated
    | CannotDeleteSelf
    | CannotDeleteAdmin
    | UserDeleted
    | CategoryNameTaken
    | CategoryAdded
    | CategoryUpdated
    | CategoryInUse
    | CategoryDeleted
    | SupplierNameRequired
    | SupplierAdded
    | SupplierUpdated
    | SupplierInUse
    | SupplierDeleted

  /** The array set_flash_message stores under $_SESSION['flash_message']. */
  datatype Flash = Flash(kind: FlashKind, notice: Notice)
}
