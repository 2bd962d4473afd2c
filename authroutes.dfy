/** The account routes: registration and login. The password hash run by
    the User model before a save is the parameter `hash`, the model's
    `comparePassword` is the parameter `matches` (candidate, stored
    credential), and signing a token with the server secret is the
    parameter `sign`. */
module AuthRoutes {
  import opened Common
  import opened Models
  import opened Db

  const UserExists := "User already exists"
  const InvalidCredentials := "Invalid Credentials"
  const AccountSuspended := "Account Suspended. Please contact support."

  /** What both routes answer with: a token signed over the payload, and
      the user without the credential. */
  datatype Session = Session(token: string, payload: Claims, user: UserView)

  /** The token payload: the id, the username and the admin flag. */
  function PayloadOf(id: Id, u: User): (c: Claims)
    ensures c.userId == id && c.username == u.username && c.isAdmin == u.isAdmin
  {
    Claims(id, u.username, u.isAdmin)
  }

  /** The user object of a response: id, username, email and admin flag. */
  function ViewOf(id: Id, u: User): (v: UserView)
    ensures v.id == id && v.username == u.username && v.email == u.email && v.isAdmin == u.isAdmin
  {
    UserView(id, u.username, u.email, u.isAdmin)
  }

  function SessionFor(id: Id, u: User, sign: Claims -> string): (s: Session)
    ensures s.payload == PayloadOf(id, u) && s.user == ViewOf(id, u)
    ensures s.token == sign(s.payload)
  {
    var payload := PayloadOf(id, u);
    Session(sign(payload), payload, ViewOf(id, u))
  }

  /** The response never depends on the credential: two users who differ
      only in it get the same session. */
  lemma SessionHidesCredential(id: Id, u: User, credential: string, sign: Claims -> string)
    ensures SessionFor(id, u, sign) == SessionFor(id, u.(credential := credential), sign)
  {
  }

  /** `User.findOne({ $or: [{ email }, { username }] })` finds someone. */
  predicate Taken(users: map<Id, User>, username: string, email: string)
  {
    exists id :: id in users && (users[id].email == email || users[id].username == username)
  }

  /** POST /register: 400 when any user has the email or the username, and
      nothing is stored; otherwise a new non-admin, non-suspended user
      holding the hashed password is stored under a fresh id, and the
      session for that user is returned. */
  method Register(db: Store, username: string, email: string, password: string,
                  hash: string -> string, sign: Claims -> string) returns (r: Status<(Id, Session)>)
    requires db.Valid()
    modifies db
    ensures db.Valid()
    ensures r.Bad400? <==> Taken(old(db.users), username, email)
    ensures r.Bad400? ==> r.msg == UserExists && unchanged(db)
    ensures r.Ok? || r.Bad400?
    ensures r.Ok? ==>
              var id := r.value.0;
              var u := User(username, email, hash(password), false, false);
              id == old(db.nextId) && id !in old(db.users) &&
              db.users == old(db.users)[id := u] &&
              r.value.1 == SessionFor(id, u, sign) &&
              db.notes == old(db.notes) && db.groups == old(db.groups) && db.nextId == id + 1
  {
    if Taken(db.users, username, email) {
      return Bad400(UserExists);
    }
    var user := User(username, email, hash(password), false, false);
    var id := db.FreshId();
    db.users := db.users[id := user];
    RegisterKeepsUnique(old(db.users), id, user);
    r := Ok((id, SessionFor(id, user, sign)));
  }

  /** A user whose email and username are both free keeps the users
      unique. */
  lemma RegisterKeepsUnique(users: map<Id, User>, id: Id, u: User)
    requires UsersUnique(users) && id !in users
    requires !Taken(users, u.username, u.email)
    ensures UsersUnique(users[id := u])
  {
    var users' := users[id := u];
    forall a, b | a in users' && b in users' && a != b
      ensures users'[a].email != users'[b].email && users'[a].username != users'[b].username
    {
      if a == id {
        assert b in users;
      } else if b == id {
        assert a in users;
      }
    }
  }

  /** POST /login, in the route's order: 400 for an unknown email, then 403
      for a suspended account (before the password is looked at), then 400
      with the same message for a wrong password, and the session
      otherwise. */
  method Login(db: Store, email: string, password: string,
               matches: (string, string) -> bool, sign: Claims -> string) returns (r: Status<Session>)
    requires db.Valid()
    ensures (forall id :: id in db.users ==> db.users[id].email != email) ==>
              r == Bad400(InvalidCredentials)
    ensures forall id :: id in db.users && db.users[id].email == email ==>
              (db.users[id].isSuspended ==> r == Forbidden403(AccountSuspended)) &&
              (!db.users[id].isSuspended && !matches(password, db.users[id].credential) ==>
                 r == Bad400(InvalidCredentials)) &&
              (!db.users[id].isSuspended && matches(password, db.users[id].credential) ==>
                 r == Ok(SessionFor(id, db.users[id], sign)))
  {
    if forall id :: id in db.users ==> db.users[id].email != email {
      return Bad400(InvalidCredentials);
    }
    var id :| id in db.users && db.users[id].email == email;
    var user := db.users[id];
    if user.isSuspended {
      return Forbidden403(AccountSuspended);
    }
    if !matches(password, user.credential) {
      return Bad400(InvalidCredentials);
    }
    r := Ok(SessionFor(id, user, sign));
  }

  /** A fresh account can log straight in with the password it registered
      with, and receives the same payload and user as registration gave. */
  method RegisterThenLogin(db: Store, username: string, email: string, password: string,
                           hash: string -> string, matches: (string, string) -> bool,
                           sign: Claims -> string) returns (reg: Status<(Id, Session)>, login: Status<Session>)
    requires db.Valid()
    requires matches(password, hash(password))
    modifies db
    ensures db.Valid()
    ensures reg.Ok? <==> !Taken(old(db.users), username, email)
    ensures reg.Ok? ==> login.Ok? && login.value.payload == reg.value.1.payload &&
                        login.value.user == reg.value.1.user
  {
    reg := Register(db, username, email, password, hash, sign);
    login := Login(db, email, password, matches, sign);
    if reg.Ok? {
      var id := reg.value.0;
      assert id in db.users && db.users[id].email == email;
    }
  }
}
