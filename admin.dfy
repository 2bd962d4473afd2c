/** The administrator routes: listing users, suspending and re-activating
    them, deleting a user together with their notes, listing one user's
    notes and deleting any note. Every route sits behind the auth middleware
    and the admin check, so the caller here is an accepted administrator. */
module AdminRoutes {
  import opened Common
  import opened Models
  import opened Db
  import opened AuthMiddleware

  /** A user as the listing shows it: every stored field but the password. */
  datatype ListedUser = ListedUser(username: string, email: string, isAdmin: bool, isSuspended: bool)

  const UserNotFound := "User not found"
  const NoteNotFound := "Note not found"
  const SelfDelete := "Cannot delete your own admin account."

  /** GET /users: every user, without the credential. */
  function ListUsers(db: Store): (r: map<Id, ListedUser>)
    reads db
    ensures r.Keys == db.users.Keys
    ensures forall id :: id in r ==>
              r[id].username == db.users[id].username && r[id].email == db.users[id].email &&
              r[id].isAdmin == db.users[id].isAdmin && r[id].isSuspended == db.users[id].isSuspended
  {
    map id | id in db.users :: ListedUser(db.users[id].username, db.users[id].email,
                                          db.users[id].isAdmin, db.users[id].isSuspended)
  }

  /** The message the suspension toggle answers with; the two states get
      different messages. */
  function SuspendMessage(suspended: bool): (m: string)
    ensures m == "User suspended" <==> suspended
    ensures m == "User activated" <==> !suspended
  {
    if suspended then "User suspended" else "User activated"
  }

  /** PUT /users/:id/suspend: 404 for an unknown id; otherwise the user's
      suspension flag is flipped and the new flag is returned. */
  method ToggleSuspend(db: Store, id: Id) returns (r: Status<(string, bool)>)
    requires db.Valid()
    modifies db
    ensures db.Valid()
    ensures id !in old(db.users) <==> r == NotFound404(UserNotFound)
    ensures id !in old(db.users) ==> unchanged(db)
    ensures id in old(db.users) ==>
              var u := old(db.users)[id];
              r == Ok((SuspendMessage(!u.isSuspended), !u.isSuspended)) &&
              db.users == old(db.users)[id := u.(isSuspended := !u.isSuspended)] &&
              db.notes == old(db.notes) && db.groups == old(db.groups) && db.nextId == old(db.nextId)
  {
    if id !in db.users {
      return NotFound404(UserNotFound);
    }
    var user := db.users[id];
    user := user.(isSuspended := !user.isSuspended);
    db.users := db.users[id := user];
    r := Ok((SuspendMessage(user.isSuspended), user.isSuspended));
  }

  /** Toggling twice gives the user back the flag they had. */
  method SuspendTwice(db: Store, id: Id)
    requires db.Valid()
    modifies db
    ensures db.Valid()
    ensures db.users == old(db.users) && db.notes == old(db.notes) && db.groups == old(db.groups)
  {
    var _ := ToggleSuspend(db, id);
    var _ := ToggleSuspend(db, id);
    if id in old(db.users) {
      assert old(db.users)[id].(isSuspended := old(db.users)[id].isSuspended) == old(db.users)[id];
    }
  }

  /** A suspension takes effect at once: the next request carrying the
      suspended user's token is refused with 403 by the middleware. */
  method SuspendLocksOut(db: Store, id: Id, header: Option<string>, verify: string -> Option<Claims>)
    returns (auth: Status<Caller>)
    requires db.Valid()
    requires id in db.users && !db.users[id].isSuspended
    requires Truthy(ExtractToken(header))
    requires verify(ExtractToken(header).value).Some?
    requires verify(ExtractToken(header).value).value.userId == id
    modifies db
    ensures db.Valid()
    ensures auth == Forbidden403("Account Suspended")
  {
    var _ := ToggleSuspend(db, id);
    SuspendedAlwaysForbidden(db.users, header, verify, id);
    auth := Authenticate(db.users, header, verify);
  }

  /** GET /users/:userId/notes: exactly the notes the given user owns. */
  function NotesOfUser(db: Store, uid: Id): (r: map<Id, Note>)
    reads db
    ensures forall id :: id in r <==> id in db.notes && db.notes[id].userId == uid
    ensures forall id :: id in r ==> r[id] == db.notes[id]
  {
    map id | id in db.notes && db.notes[id].userId == uid :: db.notes[id]
  }

  /** The notes left once every note of `uid` is gone. */
  function NotesWithout(notes: map<Id, Note>, uid: Id): (r: map<Id, Note>)
    ensures forall id :: id in r <==> id in notes && notes[id].userId != uid
    ensures forall id :: id in r ==> r[id] == notes[id]
  {
    map id | id in notes && notes[id].userId != uid :: notes[id]
  }

  /** The cascade splits the notes: the ones it removes are exactly the
      user's listing, the ones it keeps are everyone else's. */
  lemma CascadeSplitsNotes(db: Store, uid: Id)
    ensures NotesWithout(db.notes, uid).Keys !! NotesOfUser(db, uid).Keys
    ensures NotesWithout(db.notes, uid).Keys + NotesOfUser(db, uid).Keys == db.notes.Keys
  {
  }

  /** DELETE /users/:id: 404 for an unknown id, 400 when the administrator
      names their own account (nothing is deleted), and otherwise every
      note the user owns and then the user are removed. Groups are left as
      they are. */
  method DeleteUser(db: Store, caller: Caller, id: Id) returns (r: Status<()>)
    requires db.Valid()
    modifies db
    ensures db.Valid()
    ensures id !in old(db.users) ==> r == NotFound404(UserNotFound) && unchanged(db)
    ensures id in old(db.users) && caller.userId == id ==> r == Bad400(SelfDelete) && unchanged(db)
    ensures r.Ok? <==> id in old(db.users) && caller.userId != id
    ensures r.Ok? ==>
              db.users == old(db.users) - {id} &&
              db.notes == NotesWithout(old(db.notes), id) &&
              db.groups == old(db.groups) && db.nextId == old(db.nextId)
  {
    if id !in db.users {
      return NotFound404(UserNotFound);
    }
    if caller.userId == id {
      return Bad400(SelfDelete);
    }
    db.notes := NotesWithout(db.notes, id);
    db.users := db.users - {id};
    r := Ok(());
  }

  /** DELETE /notes/:id: any note, whoever owns it; 404 when absent. */
  method DeleteAnyNote(db: Store, id: Id) returns (r: Status<()>)
    requires db.Valid()
    modifies db
    ensures db.Valid()
    ensures id !in old(db.notes) <==> r == NotFound404(NoteNotFound)
    ensures id !in old(db.notes) ==> unchanged(db)
    ensures r.Ok? <==> id in old(db.notes)
    ensures r.Ok? ==>
              db.notes == old(db.notes) - {id} &&
              db.users == old(db.users) && db.groups == old(db.groups) && db.nextId == old(db.nextId)
  {
    if id !in db.notes {
      return NotFound404(NoteNotFound);
    }
    db.notes := db.notes - {id};
    r := Ok(());
  }
}
