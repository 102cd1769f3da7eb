/**
  * The super-administrator's user endpoint (`superadmin-user.php`): add,
  * edit and delete of administrator accounts, the account list and the
  * single lookup. Every account it writes has the role 'Admin'.
  *
  * `customHash` (an MD5 digest cut to eight characters) is a parameter
  * `hash` of the requests that store a password.
  */
module SuperadminUser {
  import opened Php
  import opened Schema
  import opened Listing

  const AdminRole := "Admin"

  /** The error replies of this endpoint. */
  datatype Problem =
    | AllFieldsRequired | MissingFields | PincodeNotSixDigits | UsernameTaken
    | IdRequired | NotFound | OwnAccount
    | AddRefused(error: string) | UpdateRefused(error: string) | DeleteRefused(error: string)
  {
    /** The `message` of the JSON reply. */
    function Text(): string {
      match this
      case AllFieldsRequired => "All fields are required"
      case MissingFields => "Missing required fields"
      case PincodeNotSixDigits => "Pincode must be 6 digits"
      case UsernameTaken => "Username already exists"
      case IdRequired => "User ID is required"
      case NotFound => "User not found"
      case OwnAccount => "Cannot delete your own account"
      case AddRefused(e) => "Error adding user: " + e
      case UpdateRefused(e) => "Error updating user: " + e
      case DeleteRefused(e) => "Error deleting user: " + e
    }
  }

  /** The POST fields of add and edit; None is "not set". */
  datatype UserForm = UserForm(
    name: Option<string>,
    role: Option<string>,
    username: Option<string>,
    password: Option<string>,
    pincode: Option<string>)

  /** The columns the endpoint returns for an account: never the password
      digest or the pincode. */
  datatype Account = Account(name: string, role: string, username: string)

  function AccountOf(u: User): Account {
    Account(u.name, u.role, u.username)
  }

  /** Some account other than `self` has this username. */
  predicate UsernameHeld(users: map<int, User>, username: string, self: Option<int>) {
    exists id :: id in users && users[id].username == username && (self.None? || id != self.value)
  }

  /** No username belongs to two accounts. */
  predicate UsernamesDistinct(users: map<int, User>) {
    forall a, b :: a in users && b in users && users[a].username == users[b].username ==> a == b
  }

  /** Every account is an administrator. */
  predicate AllAdmins(users: map<int, User>) {
    forall id :: id in users ==> users[id].role == AdminRole
  }

  /** Every stored pincode is six digits. */
  predicate PincodesSixDigits(users: map<int, User>) {
    forall id :: id in users ==> SixDigits(users[id].pincode)
  }

  /** What a request does to the users table, with its reply. */
  datatype Effect<R> = Effect(reply: Reply<R>, users: map<int, User>)

  /** The checks of addUser, in its order: all five fields non-empty (the
      sent role is then ignored), a six-digit pincode, a free username, the
      INSERT; the first that fails, or None. */
  function AddRefusal(users: map<int, User>, form: UserForm, dbError: Option<string>): Option<Problem> {
    if !(Given(form.name) && Given(form.role) && Given(form.username) && Given(form.password) && Given(form.pincode))
    then Some(AllFieldsRequired)
    else if !SixDigits(form.pincode.value) then Some(PincodeNotSixDigits)
    else if UsernameHeld(users, form.username.value, None) then Some(UsernameTaken)
    else if dbError.Some? then Some(AddRefused(dbError.value))
    else None
  }

  /** The row addUser inserts: the role forced to 'Admin' and the password
      replaced by its digest. */
  function NewUser(form: UserForm, hash: string -> string): User
    requires form.name.Some? && form.username.Some? && form.password.Some? && form.pincode.Some?
  {
    User(form.name.value, AdminRole, form.username.value, hash(form.password.value), form.pincode.value)
  }

  /** addUser on the table as it is and the id the INSERT would receive. */
  function AddOutcome(users: map<int, User>, nextId: int, form: UserForm, hash: string -> string,
                      dbError: Option<string>): Effect<Row<Account>>
  {
    var refusal := AddRefusal(users, form, dbError);
    if refusal.Some? then Effect(Fail(refusal.value.Text()), users)
    else
      var row := NewUser(form, hash);
      Effect(Ok(Row(nextId, AccountOf(row))), users[nextId := row])
  }

  /** addUser. */
  method AddUser(db: Database, form: UserForm, hash: string -> string, dbError: Option<string>)
    returns (reply: Reply<Row<Account>>)
    requires db.Valid()
    modifies db`users, db`nextUserId
    ensures db.Valid()
    ensures var e := AddOutcome(old(db.users), old(db.nextUserId), form, hash, dbError);
      reply == e.reply && db.users == e.users
    ensures db.nextUserId == if reply.Ok? then old(db.nextUserId) + 1 else old(db.nextUserId)
  {
    var refusal := AddRefusal(db.users, form, dbError);
    if refusal.Some? {
      return Fail(refusal.value.Text());
    }
    var row := NewUser(form, hash);
    var id := db.nextUserId;
    db.users, db.nextUserId := db.users[id := row], id + 1;
    reply := Ok(Row(id, AccountOf(row)));
  }

  /** addUser inserts exactly when all five fields are non-empty, the
      pincode is six digits, no account has the username and the INSERT
      succeeds; the new row is an administrator holding the digest of the
      password. A refused request leaves the table as it was. */
  lemma AddInsertsExactlyWhenAccepted(users: map<int, User>, nextId: int, form: UserForm, hash: string -> string,
                                      dbError: Option<string>)
    ensures var e := AddOutcome(users, nextId, form, hash, dbError);
      && (e.reply.Ok? <==>
            && Given(form.name) && Given(form.role) && Given(form.username) && Given(form.password)
            && Given(form.pincode) && SixDigits(form.pincode.value)
            && !UsernameHeld(users, form.username.value, None) && dbError.None?)
      && (e.reply.Ok? ==>
            && e.users == users[nextId := e.users[nextId]] && e.reply.value.id == nextId
            && e.users[nextId].role == AdminRole
            && e.users[nextId].name == form.name.value && e.users[nextId].username == form.username.value
            && e.users[nextId].password == hash(form.password.value)
            && e.users[nextId].pincode == form.pincode.value)
      && (e.reply.Err? ==> e.users == users)
    ensures var e := AddOutcome(users, nextId, form, hash, dbError);
      var complete := Given(form.name) && Given(form.role) && Given(form.username) && Given(form.password) &&
                      Given(form.pincode);
      && (!complete ==> e.reply == Fail(AllFieldsRequired.Text()))
      && (complete && !SixDigits(form.pincode.value) ==> e.reply == Fail(PincodeNotSixDigits.Text()))
      && (complete && SixDigits(form.pincode.value) && UsernameHeld(users, form.username.value, None) ==>
            e.reply == Fail(UsernameTaken.Text()))
      && (AddRefusal(users, form, None).None? && dbError.Some? ==> e.reply == Fail(AddRefused(dbError.value).Text()))
  {
  }

  /** addUser keeps usernames distinct. */
  lemma AddKeepsUsernamesDistinct(users: map<int, User>, nextId: int, form: UserForm, hash: string -> string,
                                  dbError: Option<string>)
    requires UsernamesDistinct(users) && nextId !in users
    ensures UsernamesDistinct(AddOutcome(users, nextId, form, hash, dbError).users)
  {
    var e := AddOutcome(users, nextId, form, hash, dbError);
    if e.reply.Ok? {
      var name := form.username.value;
      assert !UsernameHeld(users, name, None);
      assert forall k :: k in users ==> users[k].username != name;
    }
  }

  /** addUser keeps every account an administrator with a six-digit pincode. */
  lemma AddKeepsAdminsWithPincodes(users: map<int, User>, nextId: int, form: UserForm, hash: string -> string,
                                   dbError: Option<string>)
    requires AllAdmins(users) && PincodesSixDigits(users)
    ensures var e := AddOutcome(users, nextId, form, hash, dbError);
      AllAdmins(e.users) && PincodesSixDigits(e.users)
  {
  }

  /** The checks of editUser, in its order: a non-empty id, name and
      username, a pincode that is six digits when given, a username no other
      account has, the UPDATE; the first that fails, or None. */
  function EditRefusal(users: map<int, User>, id: Option<int>, form: UserForm, dbError: Option<string>)
    : Option<Problem>
  {
    if IdMissing(id) || !Given(form.name) || !Given(form.username) then Some(MissingFields)
    else if Given(form.pincode) && !SixDigits(form.pincode.value) then Some(PincodeNotSixDigits)
    else if UsernameHeld(users, form.username.value, id) then Some(UsernameTaken)
    else if dbError.Some? then Some(UpdateRefused(dbError.value))
    else None
  }

  /** The row editUser writes: name, role and username always; password and
      pincode only when non-empty ones are sent. */
  function Edited(current: User, form: UserForm, hash: string -> string): (r: User)
    requires form.name.Some? && form.username.Some?
  {
    User(form.name.value, AdminRole, form.username.value,
         if Given(form.password) then hash(form.password.value) else current.password,
         if Given(form.pincode) then form.pincode.value else current.pincode)
  }

  /** editUser on the table as it is. */
  function EditOutcome(users: map<int, User>, id: Option<int>, form: UserForm, hash: string -> string,
                       dbError: Option<string>): Effect<Row<Account>>
  {
    var refusal := EditRefusal(users, id, form, dbError);
    if refusal.Some? then Effect(Fail(refusal.value.Text()), users)
    else
      var reply := Ok(Row(id.value, Account(form.name.value, AdminRole, form.username.value)));
      if id.value in users then Effect(reply, users[id.value := Edited(users[id.value], form, hash)])
      // the UPDATE matches no row and still reports success
      else Effect(reply, users)
  }

  /** editUser. */
  method EditUser(db: Database, id: Option<int>, form: UserForm, hash: string -> string, dbError: Option<string>)
    returns (reply: Reply<Row<Account>>)
    modifies db`users
    ensures db.users.Keys == old(db.users.Keys)
    ensures var e := EditOutcome(old(db.users), id, form, hash, dbError);
      reply == e.reply && db.users == e.users
  {
    var refusal := EditRefusal(db.users, id, form, dbError);
    if refusal.Some? {
      return Fail(refusal.value.Text());
    }
    if id.value in db.users {
      ghost var before := db.users;
      db.users := db.users[id.value := Edited(db.users[id.value], form, hash)];
      assert db.users.Keys == before.Keys;
    }
    reply := Ok(Row(id.value, Account(form.name.value, AdminRole, form.username.value)));
  }

  /** editUser succeeds exactly when its checks pass; it then rewrites name
      and username, forces the role to 'Admin', and replaces the password
      digest and the pincode only when non-empty ones are sent. Nothing
      else changes, and an id with no row is still reported as updated. */
  lemma EditRewritesAccount(users: map<int, User>, id: Option<int>, form: UserForm, hash: string -> string,
                            dbError: Option<string>)
    ensures var e := EditOutcome(users, id, form, hash, dbError);
      && (e.reply.Ok? <==>
            && !IdMissing(id) && Given(form.name) && Given(form.username)
            && (Given(form.pincode) ==> SixDigits(form.pincode.value))
            && !UsernameHeld(users, form.username.value, id) && dbError.None?)
      && e.users.Keys == users.Keys
      && (e.reply.Ok? && id.value in users ==>
            var r := e.users[id.value];
            && r.name == form.name.value && r.username == form.username.value && r.role == AdminRole
            && r.password == (if Given(form.password) then hash(form.password.value) else users[id.value].password)
            && r.pincode == (if Given(form.pincode) then form.pincode.value else users[id.value].pincode)
            && forall k :: k in users && k != id.value ==> e.users[k] == users[k])
      && (e.reply.Ok? && id.value !in users ==> e.users == users)
      && (e.reply.Err? ==> e.users == users)
    ensures var e := EditOutcome(users, id, form, hash, dbError);
      var complete := !IdMissing(id) && Given(form.name) && Given(form.username);
      var pincodeOk := Given(form.pincode) ==> SixDigits(form.pincode.value);
      && (!complete ==> e.reply == Fail(MissingFields.Text()))
      && (complete && !pincodeOk ==> e.reply == Fail(PincodeNotSixDigits.Text()))
      && (complete && pincodeOk && UsernameHeld(users, form.username.value, id) ==>
            e.reply == Fail(UsernameTaken.Text()))
      && (EditRefusal(users, id, form, None).None? && dbError.Some? ==>
            e.reply == Fail(UpdateRefused(dbError.value).Text()))
  {
  }

  /** editUser keeps usernames distinct: the username it writes is held by
      no other account. */
  lemma EditKeepsUsernamesDistinct(users: map<int, User>, id: Option<int>, form: UserForm, hash: string -> string,
                                   dbError: Option<string>)
    requires UsernamesDistinct(users)
    ensures UsernamesDistinct(EditOutcome(users, id, form, hash, dbError).users)
  {
    var e := EditOutcome(users, id, form, hash, dbError);
    if e.reply.Ok? && id.value in users {
      var me := id.value;
      var name := form.username.value;
      assert !UsernameHeld(users, name, id);
      assert forall k :: k in users && k != me ==> users[k].username != name;
    }
  }

  /** editUser keeps every account an administrator with a six-digit pincode. */
  lemma EditKeepsAdminsWithPincodes(users: map<int, User>, id: Option<int>, form: UserForm, hash: string -> string,
                                    dbError: Option<string>)
    requires AllAdmins(users) && PincodesSixDigits(users)
    ensures var e := EditOutcome(users, id, form, hash, dbError);
      AllAdmins(e.users) && PincodesSixDigits(e.users)
  {
  }

  /** deleteUser, for the session's user_id (None when none is set). */
  function DeleteOutcome(users: map<int, User>, id: Option<int>, sessionUserId: Option<int>,
                         dbError: Option<string>): Effect<()>
  {
    if IdMissing(id) then Effect(Fail(IdRequired.Text()), users)
    else if id.value !in users then Effect(Fail(NotFound.Text()), users)
    else if sessionUserId == id then Effect(Fail(OwnAccount.Text()), users)
    else if dbError.Some? then Effect(Fail(DeleteRefused(dbError.value).Text()), users)
    else Effect(Ok(()), users - {id.value})
  }

  /** deleteUser. */
  method DeleteUser(db: Database, id: Option<int>, sessionUserId: Option<int>, dbError: Option<string>)
    returns (reply: Reply<()>)
    requires db.Valid()
    modifies db`users
    ensures db.Valid()
    ensures var e := DeleteOutcome(old(db.users), id, sessionUserId, dbError);
      reply == e.reply && db.users == e.users
  {
    if IdMissing(id) {
      return Fail(IdRequired.Text());
    }
    if id.value !in db.users {
      return Fail(NotFound.Text());
    }
    if sessionUserId == id {
      return Fail(OwnAccount.Text());
    }
    if dbError.Some? {
      return Fail(DeleteRefused(dbError.value).Text());
    }
    db.users := db.users - {id.value};
    reply := Ok(());
  }

  /** deleteUser removes exactly the addressed account, and only when it
      exists, is not the session's own and the DELETE succeeds. */
  lemma DeleteRemovesExactlyTheAccount(users: map<int, User>, id: Option<int>, sessionUserId: Option<int>,
                                       dbError: Option<string>)
    ensures var e := DeleteOutcome(users, id, sessionUserId, dbError);
      && (e.reply.Ok? <==>
            !IdMissing(id) && id.value in users && sessionUserId != id && dbError.None?)
      && (e.reply.Ok? ==>
            && e.users.Keys == users.Keys - {id.value}
            && forall k :: k in e.users ==> e.users[k] == users[k])
      && (e.reply.Err? ==> e.users == users)
      && (IdMissing(id) ==> e.reply == Fail(IdRequired.Text()))
      && (!IdMissing(id) && id.value !in users ==> e.reply == Fail(NotFound.Text()))
      && (!IdMissing(id) && id.value in users && sessionUserId == id ==> e.reply == Fail(OwnAccount.Text()))
      && (!IdMissing(id) && id.value in users && sessionUserId != id && dbError.Some? ==>
            e.reply == Fail(DeleteRefused(dbError.value).Text()))
  {
  }

  /** deleteUser keeps the table's invariants: it only removes rows. */
  lemma DeleteKeepsInvariants(users: map<int, User>, id: Option<int>, sessionUserId: Option<int>,
                              dbError: Option<string>)
    requires UsernamesDistinct(users) && AllAdmins(users) && PincodesSixDigits(users)
    ensures var e := DeleteOutcome(users, id, sessionUserId, dbError);
      UsernamesDistinct(e.users) && AllAdmins(e.users) && PincodesSixDigits(e.users)
  {
  }

  /** The table as getUsers and getUser read it: the returned columns of
      each account. */
  function Accounts(users: map<int, User>): (m: map<int, Account>)
    ensures m.Keys == users.Keys
    ensures forall id :: id in m ==> m[id] == AccountOf(users[id])
  {
    map id | id in users :: AccountOf(users[id])
  }

  /** The WHERE clause getUsers builds: administrators only, and with a
      non-empty search, those whose name or username contains it. */
  predicate Listed(search: Option<string>, a: Account) {
    a.role == AdminRole && (Given(search) ==> Contains(a.name, search.value) || Contains(a.username, search.value))
  }

  function Keep(search: Option<string>): Account -> bool {
    (a: Account) => Listed(search, a)
  }

  function Name(a: Account): string {
    a.name
  }

  /** getUsers: every listed account once, ordered by name. */
  method GetUsers(db: Database, search: Option<string>) returns (rows: seq<Row<Account>>)
    ensures Selects(rows, Accounts(db.users), Keep(search))
    ensures SortedBy(rows, Name)
  {
    rows := SelectOrdered(Accounts(db.users), Keep(search), Name);
  }

  /** The getUser action. */
  function GetUser(db: Database, id: Option<int>): (r: Reply<Row<Account>>)
    reads db`users
    ensures r.Ok? <==> !IdMissing(id) && id.value in db.users
    ensures r.Ok? ==> r.value == Row(id.value, AccountOf(db.users[id.value]))
    ensures r == Fail(IdRequired.Text()) <==> IdMissing(id)
    ensures r == Fail(NotFound.Text()) <==> !IdMissing(id) && id.value !in db.users
  {
    if IdMissing(id) then Fail(IdRequired.Text())
    else if id.value in db.users then Ok(Row(id.value, AccountOf(db.users[id.value])))
    else Fail(NotFound.Text())
  }
}
