/** users.php: the administrator's POST handlers for accounts. Every request needs an
    admin session (else an access-denied message ends it) and an accepted CSRF token;
    add and update then run a chain of checks, each of which ends the request with its
    own message. */
module Users {
  import opened Php
  import opened Config
  import opened Messages
  import opened Functions
  import opened Store

  /** The add form. isActive is whether the is_active checkbox was submitted. */
  datatype NewUserForm = NewUserForm(
    username: string,
    email: string,
    password: string,
    confirmPassword: string,
    fullName: string,
    phone: string,
    roleId: int,
    isActive: bool)

  /** The edit form: no password fields. */
  datatype UserEditForm = UserEditForm(
    username: string,
    email: string,
    fullName: string,
    phone: string,
    roleId: int,
    isActive: bool)

  /** The accounts, other than except, whose username or email is already the given one:
      what the duplicate check counts. */
  function Holders(users: map<Id, User>, username: string, email: string, except: Option<Id>): set<Id> {
    set id | id in users && Some(id) != except &&
      (users[id].username == username || users[id].email == email)
  }

  /** No two accounts share a username, and no two share an email. */
  ghost predicate UniqueAccounts(users: map<Id, User>) {
    forall a, b :: a in users && b in users && a != b ==>
      users[a].username != users[b].username && users[a].email != users[b].email
  }

  /** An account whose username and email no other account holds keeps the accounts
      unique when it is stored under id. */
  lemma StoreKeepsUnique(users: map<Id, User>, id: Id, user: User)
    requires UniqueAccounts(users)
    requires Holders(users, user.username, user.email, Some(id)) == {}
    ensures UniqueAccounts(users[id := user])
  {
    var users' := users[id := user];
    forall a, b | a in users' && b in users' && a != b
      ensures users'[a].username != users'[b].username && users'[a].email != users'[b].email
    {
      if a == id {
        assert b !in Holders(users, user.username, user.email, Some(id));
      } else if b == id {
        assert a !in Holders(users, user.username, user.email, Some(id));
      }
    }
  }

  /** Resubmitting an account's own username and email passes the update's duplicate
      check, because the check leaves the account itself out. */
  lemma OwnNamesPassUpdateCheck(users: map<Id, User>, id: Id)
    requires UniqueAccounts(users) && id in users
    ensures Holders(users, users[id].username, users[id].email, Some(id)) == {}
  {
    forall other | other in users && other != id
      ensures users[other].username != users[id].username && users[other].email != users[id].email
    {
    }
  }

  /** The row add stores: the cleaned text fields, the hash password_hash returned, and
      is_active set exactly when the checkbox was submitted. */
  function NewUserRow(host: Host, form: NewUserForm, passwordHash: string): (user: User)
    ensures user.isActive == form.isActive && user.passwordHash == passwordHash
    ensures user.username == host.sanitize(form.username) && user.email == host.sanitize(form.email)
  {
    User(host.sanitize(form.username), host.sanitize(form.email), passwordHash, form.roleId,
         host.sanitize(form.fullName), host.sanitize(form.phone), form.isActive)
  }

  /** A required field of the add form is empty once cleaned (the password is not cleaned). */
  predicate MissingNewUserFields(host: Host, form: NewUserForm) {
    Empty(host.sanitize(form.username)) || Empty(host.sanitize(form.email)) ||
    Empty(form.password) || Empty(host.sanitize(form.fullName))
  }

  /** Every check of the add handler passes, stated as one conjunction. */
  predicate NewUserAcceptable(host: Host, form: NewUserForm, users: map<Id, User>) {
    && !MissingNewUserFields(host, form)
    && host.validEmail(host.sanitize(form.email))
    && form.password == form.confirmPassword
    && |form.password| >= MinPasswordLength
    && Holders(users, host.sanitize(form.username), host.sanitize(form.email), None) == {}
  }

  /** The POST 'add' handler. passwordHash is what password_hash returns for the
      submitted password. */
  method AddUser(db: Library, session: Session, host: Host, csrf: Option<string>,
                 form: NewUserForm, passwordHash: string)
    requires db.Valid()
    modifies db`users, db`nextUserId, session`flash
    ensures db.Valid()
    ensures UniqueAccounts(old(db.users)) ==> UniqueAccounts(db.users)
    ensures AdminAdmits(session, csrf) && NewUserAcceptable(host, form, old(db.users)) ==>
      && old(db.nextUserId) !in old(db.users)
      && db.users == old(db.users)[old(db.nextUserId) := NewUserRow(host, form, passwordHash)]
      && db.nextUserId == old(db.nextUserId) + 1
      && session.flash == Some(Flash(Success, UserAdded))
    ensures !(AdminAdmits(session, csrf) && NewUserAcceptable(host, form, old(db.users))) ==>
      db.users == old(db.users) && db.nextUserId == old(db.nextUserId)
    ensures !session.HasRole("admin") ==> session.flash == Some(Flash(Error, AccessDenied))
    ensures session.HasRole("admin") && !CsrfAccepted(session, csrf) ==>
      session.flash == Some(Flash(Error, TokenInvalid))
    ensures AdminAdmits(session, csrf) && MissingNewUserFields(host, form) ==>
      session.flash == Some(Flash(Error, FieldsRequired))
    ensures AdminAdmits(session, csrf) && !MissingNewUserFields(host, form) &&
            !host.validEmail(host.sanitize(form.email)) ==>
      session.flash == Some(Flash(Error, InvalidEmail))
    ensures AdminAdmits(session, csrf) && !MissingNewUserFields(host, form) &&
            host.validEmail(host.sanitize(form.email)) && form.password != form.confirmPassword ==>
      session.flash == Some(Flash(Error, PasswordMismatch))
    ensures AdminAdmits(session, csrf) && !MissingNewUserFields(host, form) &&
            host.validEmail(host.sanitize(form.email)) && form.password == form.confirmPassword &&
            |form.password| < MinPasswordLength ==>
      session.flash == Some(Flash(Error, PasswordTooShort))
    ensures AdminAdmits(session, csrf) && !MissingNewUserFields(host, form) &&
            host.validEmail(host.sanitize(form.email)) && form.password == form.confirmPassword &&
            |form.password| >= MinPasswordLength &&
            Holders(old(db.users), host.sanitize(form.username), host.sanitize(form.email), None) != {} ==>
      session.flash == Some(Flash(Error, UserTaken))
  {
    if !session.HasRole("admin") {
      session.SetFlashMessage(Flash(Error, AccessDenied));
      return;
    }
    if !CsrfAccepted(session, csrf) {
      session.SetFlashMessage(Flash(Error, TokenInvalid));
      return;
    }
    var username, email := host.sanitize(form.username), host.sanitize(form.email);
    if MissingNewUserFields(host, form) {
      session.SetFlashMessage(Flash(Error, FieldsRequired));
      return;
    }
    if !host.validEmail(email) {
      session.SetFlashMessage(Flash(Error, InvalidEmail));
      return;
    }
    if form.password != form.confirmPassword {
      session.SetFlashMessage(Flash(Error, PasswordMismatch));
      return;
    }
    if |form.password| < MinPasswordLength {
      session.SetFlashMessage(Flash(Error, PasswordTooShort));
      return;
    }
    if Holders(db.users, username, email, None) != {} {
      session.SetFlashMessage(Flash(Error, UserTaken));
      return;
    }
    var id := db.nextUserId;
    var user := NewUserRow(host, form, passwordHash);
    InsertKeepsIdsBelow(db.users, id, user);
    if UniqueAccounts(db.users) {
      assert Holders(db.users, username, email, Some(id)) == {} by {
        assert id !in db.users;
      }
      StoreKeepsUnique(db.users, id, user);
    }
    db.users := db.users[id := user];
    db.nextUserId := id + 1;
    session.SetFlashMessage(Flash(Success, UserAdded));
  }

  /** A required field of the edit form is empty once cleaned. */
  predicate MissingEditFields(host: Host, form: UserEditForm) {
    Empty(host.sanitize(form.username)) || Empty(host.sanitize(form.email)) ||
    Empty(host.sanitize(form.fullName))
  }

  /** Every check of the update handler passes. The duplicate check leaves out the
      account being edited. */
  predicate EditAcceptable(host: Host, form: UserEditForm, users: map<Id, User>, id: Id) {
    && !MissingEditFields(host, form)
    && host.validEmail(host.sanitize(form.email))
    && Holders(users, host.sanitize(form.username), host.sanitize(form.email), Some(id)) == {}
  }

  /** The account after the update: the edited fields replaced, the password hash kept. */
  function EditedUser(host: Host, user: User, form: UserEditForm): (edited: User)
    ensures edited.passwordHash == user.passwordHash && edited.isActive == form.isActive
    ensures edited.username == host.sanitize(form.username) && edited.email == host.sanitize(form.email)
  {
    user.(username := host.sanitize(form.username), email := host.sanitize(form.email),
          roleId := form.roleId, fullName := host.sanitize(form.fullName),
          phone := host.sanitize(form.phone), isActive := form.isActive)
  }

  /** The POST 'update' handler: an id with no row passes the checks and changes nothing. */
  method UpdateUser(db: Library, session: Session, host: Host, csrf: Option<string>,
                    id: Id, form: UserEditForm)
    requires db.Valid()
    modifies db`users, session`flash
    ensures db.Valid()
    ensures UniqueAccounts(old(db.users)) ==> UniqueAccounts(db.users)
    ensures AdminAdmits(session, csrf) && EditAcceptable(host, form, old(db.users), id) ==>
      && db.users == (if id in old(db.users)
                      then old(db.users)[id := EditedUser(host, old(db.users)[id], form)]
                      else old(db.users))
      && session.flash == Some(Flash(Success, UserUpdated))
    ensures !(AdminAdmits(session, csrf) && EditAcceptable(host, form, old(db.users), id)) ==>
      db.users == old(db.users)
    ensures !session.HasRole("admin") ==> session.flash == Some(Flash(Error, AccessDenied))
    ensures session.HasRole("admin") && !CsrfAccepted(session, csrf) ==>
      session.flash == Some(Flash(Error, TokenInvalid))
    ensures AdminAdmits(session, csrf) && MissingEditFields(host, form) ==>
      session.flash == Some(Flash(Error, FieldsRequired))
    ensures AdminAdmits(session, csrf) && !MissingEditFields(host, form) &&
            !host.validEmail(host.sanitize(form.email)) ==>
      session.flash == Some(Flash(Error, InvalidEmail))
    ensures AdminAdmits(session, csrf) && !MissingEditFields(host, form) &&
            host.validEmail(host.sanitize(form.email)) &&
            Holders(old(db.users), host.sanitize(form.username), host.sanitize(form.email), Some(id)) != {} ==>
      session.flash == Some(Flash(Error, UserTaken))
  {
    if !session.HasRole("admin") {
      session.SetFlashMessage(Flash(Error, AccessDenied));
      return;
    }
    if !CsrfAccepted(session, csrf) {
      session.SetFlashMessage(Flash(Error, TokenInvalid));
      return;
    }
    var username, email := host.sanitize(form.username), host.sanitize(form.email);
    if MissingEditFields(host, form) {
      session.SetFlashMessage(Flash(Error, FieldsRequired));
      return;
    }
    if !host.validEmail(email) {
      session.SetFlashMessage(Flash(Error, InvalidEmail));
      return;
    }
    if Holders(db.users, username, email, Some(id)) != {} {
      session.SetFlashMessage(Flash(Error, UserTaken));
      return;
    }
    if id in db.users {
      var user := EditedUser(host, db.users[id], form);
      if UniqueAccounts(db.users) {
        StoreKeepsUnique(db.users, id, user);
      }
      db.users := db.users[id := user];
    }
    session.SetFlashMessage(Flash(Success, UserUpdated));
  }

  /** The POST 'delete' handler: the logged-in account and administrator accounts stay;
      any other id loses its row (an id with no row changes nothing). */
  method DeleteUser(db: Library, session: Session, csrf: Option<string>, id: Id)
    requires db.Valid()
    modifies db`users, session`flash
    ensures db.Valid()
    ensures UniqueAccounts(old(db.users)) ==> UniqueAccounts(db.users)
    ensures AdminAdmits(session, csrf) && session.userId != Some(id) &&
            !(id in old(db.users) && old(db.users)[id].roleId == AdminRoleId) ==>
      db.users == old(db.users) - {id} && session.flash == Some(Flash(Success, UserDeleted))
    ensures !(AdminAdmits(session, csrf) && session.userId != Some(id) &&
              !(id in old(db.users) && old(db.users)[id].roleId == AdminRoleId)) ==>
      db.users == old(db.users)
    ensures AdminAdmits(session, csrf) && session.userId == Some(id) ==>
      session.flash == Some(Flash(Error, CannotDeleteSelf))
    ensures AdminAdmits(session, csrf) && session.userId != Some(id) &&
            id in old(db.users) && old(db.users)[id].roleId == AdminRoleId ==>
      session.flash == Some(Flash(Error, CannotDeleteAdmin))
    ensures !session.HasRole("admin") ==> session.flash == Some(Flash(Error, AccessDenied))
    ensures session.HasRole("admin") && !CsrfAccepted(session, csrf) ==>
      session.flash == Some(Flash(Error, TokenInvalid))
  {
    if !session.HasRole("admin") {
      session.SetFlashMessage(Flash(Error, AccessDenied));
      return;
    }
    if !CsrfAccepted(session, csrf) {
      session.SetFlashMessage(Flash(Error, TokenInvalid));
      return;
    }
    if session.userId == Some(id) {
      session.SetFlashMessage(Flash(Error, CannotDeleteSelf));
      return;
    }
    if id in db.users && db.users[id].roleId == AdminRoleId {
      session.SetFlashMessage(Flash(Error, CannotDeleteAdmin));
      return;
    }
    db.users := db.users - {id};
    session.SetFlashMessage(Flash(Success, UserDeleted));
  }
}
