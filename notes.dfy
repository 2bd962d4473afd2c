/** The note routes: the caller's listing, read by id, the public read,
    the share toggle, creation, the field-merging update and deletion. */
module NoteRoutes {
  import opened Common
  import opened Models
  import opened Db

  /** A request body as the routes receive it; every field may be absent.
      Each route reads only some of them. */
  datatype NoteBody = NoteBody(
    userId: Option<Id>,
    title: Option<string>,
    kind: Option<string>,
    content: Option<string>,
    language: Option<string>,
    tags: Option<seq<string>>,
    isFavorite: Option<bool>,
    isPublic: Option<bool>)

  const NotFound := "Note not found"
  const NotAuthorized := "Not authorized"

  predicate IsOwner(caller: Caller, n: Note)
  {
    n.userId == caller.userId
  }

  /** Reading by id and updating are open to the owner and to admins. */
  predicate OwnerOrAdmin(caller: Caller, n: Note)
    ensures IsOwner(caller, n) ==> OwnerOrAdmin(caller, n)
    ensures !caller.isAdmin ==> (OwnerOrAdmin(caller, n) <==> IsOwner(caller, n))
  {
    IsOwner(caller, n) || caller.isAdmin
  }

  /** GET /: exactly the caller's notes (sorting by update time is not
      modelled). */
  function ListNotes(db: Store, caller: Caller): (r: map<Id, Note>)
    reads db
    ensures forall id :: id in r <==> id in db.notes && IsOwner(caller, db.notes[id])
    ensures forall id :: id in r ==> id in db.notes && r[id] == db.notes[id]
  {
    map id | id in db.notes && db.notes[id].userId == caller.userId :: db.notes[id]
  }

  /** GET /:id: 404 for an absent note, 401 unless the caller owns it or is
      an admin, and the note itself otherwise. */
  function GetNote(db: Store, caller: Caller, id: Id): (r: Status<Note>)
    reads db
    ensures id !in db.notes <==> r == NotFound404(NotFound)
    ensures r.Unauth401? <==> id in db.notes && !OwnerOrAdmin(caller, db.notes[id])
    ensures r.Ok? <==> id in db.notes && OwnerOrAdmin(caller, db.notes[id])
    ensures r.Ok? ==> r.value == db.notes[id]
  {
    if id !in db.notes then NotFound404(NotFound)
    else if db.notes[id].userId != caller.userId && !caller.isAdmin then Unauth401(NotAuthorized)
    else Ok(db.notes[id])
  }

  /** GET /public/:id, open to anyone: the note only while it is public;
      403 for a private note, 404 for an absent one. */
  function PublicRead(db: Store, id: Id): (r: Status<Note>)
    reads db
    ensures id !in db.notes <==> r == NotFound404(NotFound)
    ensures r == Forbidden403("This note is private") <==> id in db.notes && !db.notes[id].isPublic
    ensures r.Ok? <==> id in db.notes && db.notes[id].isPublic
    ensures r.Ok? ==> r.value == db.notes[id]
  {
    if id !in db.notes then NotFound404(NotFound)
    else if !db.notes[id].isPublic then Forbidden403("This note is private")
    else Ok(db.notes[id])
  }

  /** PUT /:id/share: the owner, and no one else, flips `isPublic`. */
  method ToggleShare(db: Store, caller: Caller, id: Id) returns (r: Status<Note>)
    requires db.Valid()
    modifies db
    ensures db.Valid()
    ensures id !in old(db.notes) ==> r == NotFound404(NotFound) && unchanged(db)
    ensures id in old(db.notes) && !IsOwner(caller, old(db.notes)[id]) ==>
              r == Unauth401(NotAuthorized) && unchanged(db)
    ensures r.Ok? <==> id in old(db.notes) && IsOwner(caller, old(db.notes)[id])
    ensures r.Ok? ==>
              r.value == old(db.notes)[id].(isPublic := !old(db.notes)[id].isPublic) &&
              db.notes == old(db.notes)[id := r.value] &&
              db.groups == old(db.groups) && db.users == old(db.users) && db.nextId == old(db.nextId)
  {
    if id !in db.notes {
      return NotFound404(NotFound);
    }
    var note := db.notes[id];
    if note.userId != caller.userId {
      return Unauth401(NotAuthorized);
    }
    note := note.(isPublic := !note.isPublic);
    db.notes := db.notes[id := note];
    r := Ok(note);
  }

  /** Toggling twice restores the note's sharing state. */
  method ToggleTwice(db: Store, caller: Caller, id: Id) returns (first: Status<Note>, second: Status<Note>)
    requires db.Valid()
    modifies db
    ensures first.Ok? ==> second.Ok? && db.notes == old(db.notes)
    ensures first.Ok? ==> id in old(db.notes) && first.value.isPublic != old(db.notes)[id].isPublic
  {
    first := ToggleShare(db, caller, id);
    second := ToggleShare(db, caller, id);
  }

  /** A sharing toggle makes a private note readable through the public
      route, and a second toggle makes it private again. */
  method ShareThenPublicRead(db: Store, caller: Caller, id: Id) returns (shared: Status<Note>, read: Status<Note>)
    requires db.Valid()
    requires id in db.notes && IsOwner(caller, db.notes[id]) && !db.notes[id].isPublic
    modifies db
    ensures read.Ok? && read == shared
  {
    shared := ToggleShare(db, caller, id);
    read := PublicRead(db, id);
  }

  /** POST /. The schema builds the note from title, type, content,
      language and tags; its owner is always the caller, whatever the body
      says. A schema failure (type missing or outside the enum, content
      missing) gives 500 and stores nothing. */
  method CreateNote(db: Store, caller: Caller, body: NoteBody) returns (r: Status<(Id, Note)>)
    requires db.Valid()
    modifies db
    ensures db.Valid()
    ensures r.Ok? || r == ServerError500(ServerError)
    ensures var built := NewNote(caller.userId, body.title, body.kind, body.content, body.language, body.tags);
            (built.None? ==> r.ServerError500? && unchanged(db)) &&
            (built.Some? ==> r == Ok((old(db.nextId), built.value)) &&
                             db.notes == old(db.notes)[old(db.nextId) := built.value] &&
                             db.groups == old(db.groups) && db.users == old(db.users) &&
                             db.nextId == old(db.nextId) + 1)
    ensures r.Ok? ==> r.value.1.userId == caller.userId && !r.value.1.isPublic && !r.value.1.isFavorite
  {
    match NewNote(caller.userId, body.title, body.kind, body.content, body.language, body.tags)
    case None =>
      return ServerError500(ServerError);
    case Some(note) =>
      var id := db.FreshId();
      db.notes := db.notes[id := note];
      r := Ok((id, note));
  }

  /** The effect of the update route on a note: title and language are
      replaced only by a truthy value, content and isFavorite by any
      defined value, tags by any given list (trimmed by the schema's
      setter); every other field is kept. */
  function Merged(n: Note, body: NoteBody): (m: Note)
    ensures m.userId == n.userId && m.kind == n.kind && m.isPublic == n.isPublic
  {
    Note(n.userId,
         if Truthy(body.title) then body.title.value else n.title,
         n.kind,
         if body.content.Some? then body.content.value else n.content,
         if Truthy(body.language) then body.language else n.language,
         if body.tags.Some? then TrimAll(body.tags.value) else n.tags,
         if body.isFavorite.Some? then body.isFavorite.value else n.isFavorite,
         n.isPublic)
  }

  /** The `$set` document the update route builds. */
  datatype NoteFields = NoteFields(
    title: Option<string>,
    content: Option<string>,
    language: Option<string>,
    tags: Option<seq<string>>,
    isFavorite: Option<bool>)

  /** PUT /:id. The `$set` document is built field by field from the body
      and applied to the note for the owner or an admin; the response is
      the note after the update. */
  method UpdateNote(db: Store, caller: Caller, id: Id, body: NoteBody) returns (r: Status<Note>)
    requires db.Valid()
    modifies db
    ensures db.Valid()
    ensures id !in old(db.notes) ==> r == NotFound404(NotFound) && unchanged(db)
    ensures id in old(db.notes) && !OwnerOrAdmin(caller, old(db.notes)[id]) ==>
              r == Unauth401(NotAuthorized) && unchanged(db)
    ensures r.Ok? <==> id in old(db.notes) && OwnerOrAdmin(caller, old(db.notes)[id])
    ensures r.Ok? ==>
              r.value == Merged(old(db.notes)[id], body) &&
              db.notes == old(db.notes)[id := r.value] &&
              db.groups == old(db.groups) && db.users == old(db.users) && db.nextId == old(db.nextId)
  {
    var fields := CollectFields(body);
    if id !in db.notes {
      return NotFound404(NotFound);
    }
    var note := db.notes[id];
    if note.userId != caller.userId && !caller.isAdmin {
      return Unauth401(NotAuthorized);
    }
    note := ApplyFields(note, fields);
    db.notes := db.notes[id := note];
    r := Ok(note);
  }

  /** The `$set` document: title and language when truthy, the other
      editable fields when defined, nothing else. */
  method CollectFields(body: NoteBody) returns (fields: NoteFields)
    ensures fields.title == (if Truthy(body.title) then body.title else None)
    ensures fields.language == (if Truthy(body.language) then body.language else None)
    ensures fields.content == body.content && fields.tags == body.tags
    ensures fields.isFavorite == body.isFavorite
  {
    fields := NoteFields(None, None, None, None, None);
    if Truthy(body.title) { fields := fields.(title := body.title); }
    if body.content.Some? { fields := fields.(content := body.content); }
    if Truthy(body.language) { fields := fields.(language := body.language); }
    if body.tags.Some? { fields := fields.(tags := body.tags); }
    if body.isFavorite.Some? { fields := fields.(isFavorite := body.isFavorite); }
  }

  /** `findByIdAndUpdate` with `$set`: the fields present overwrite the
      note's, tags passing through the schema's setter. */
  method ApplyFields(n: Note, fields: NoteFields) returns (m: Note)
    ensures m.userId == n.userId && m.kind == n.kind && m.isPublic == n.isPublic
    ensures m.title == (if fields.title.Some? then fields.title.value else n.title)
    ensures m.content == (if fields.content.Some? then fields.content.value else n.content)
    ensures m.language == (if fields.language.Some? then fields.language else n.language)
    ensures m.tags == (if fields.tags.Some? then TrimAll(fields.tags.value) else n.tags)
    ensures m.isFavorite == (if fields.isFavorite.Some? then fields.isFavorite.value else n.isFavorite)
  {
    m := n;
    if fields.title.Some? { m := m.(title := fields.title.value); }
    if fields.content.Some? { m := m.(content := fields.content.value); }
    if fields.language.Some? { m := m.(language := fields.language); }
    if fields.tags.Some? { m := m.(tags := TrimAll(fields.tags.value)); }
    if fields.isFavorite.Some? { m := m.(isFavorite := fields.isFavorite.value); }
  }

  /** A field changes only when the body gives it a value the route
      accepts (truthy for title and language, defined for the others), and
      then it takes that value; a type, owner or sharing flag in the body is
      ignored. */
  lemma MergeFieldRules(n: Note, body: NoteBody)
    ensures var m := Merged(n, body);
            (m.title != n.title ==> Truthy(body.title)) &&
            (Truthy(body.title) ==> m.title == body.title.value) &&
            (m.language != n.language ==> Truthy(body.language)) &&
            (Truthy(body.language) ==> m.language == body.language) &&
            (m.content != n.content ==> body.content.Some?) &&
            (body.content.Some? ==> m.content == body.content.value) &&
            (m.tags != n.tags ==> body.tags.Some?) &&
            (body.tags.Some? ==> m.tags == TrimAll(body.tags.value)) &&
            (m.isFavorite != n.isFavorite ==> body.isFavorite.Some?) &&
            (body.isFavorite.Some? ==> m.isFavorite == body.isFavorite.value)
  {
  }

  /** Repeating an update changes nothing more: the merge is idempotent. */
  lemma MergeIdempotent(n: Note, body: NoteBody)
    ensures Merged(Merged(n, body), body) == Merged(n, body)
  {
    if body.tags.Some? {
      TrimAllFixed(TrimAll(body.tags.value));
    }
  }

  /** An empty body leaves the note as it was, and so does one that only
      carries the fields the route ignores. */
  lemma MergeIgnoresOtherFields(n: Note, body: NoteBody)
    requires !Truthy(body.title) && body.content.None? && !Truthy(body.language)
    requires body.tags.None? && body.isFavorite.None?
    ensures Merged(n, body) == n
  {
  }

  /** The merge keeps the schema's guarantee on tags. */
  lemma MergeKeepsValid(n: Note, body: NoteBody)
    requires NoteValid(n)
    ensures NoteValid(Merged(n, body))
  {
  }

  /** DELETE /:id: owner only (401 otherwise, 404 when absent), and exactly
      that note goes; groups keep their references to it. */
  method DeleteNote(db: Store, caller: Caller, id: Id) returns (r: Status<()>)
    requires db.Valid()
    modifies db
    ensures db.Valid()
    ensures id !in old(db.notes) ==> r == NotFound404(NotFound) && unchanged(db)
    ensures id in old(db.notes) && !IsOwner(caller, old(db.notes)[id]) ==>
              r == Unauth401(NotAuthorized) && unchanged(db)
    ensures r.Ok? <==> id in old(db.notes) && IsOwner(caller, old(db.notes)[id])
    ensures r.Ok? ==>
              db.notes == old(db.notes) - {id} &&
              db.groups == old(db.groups) && db.users == old(db.users) && db.nextId == old(db.nextId)
  {
    if id !in db.notes {
      return NotFound404(NotFound);
    }
    if db.notes[id].userId != caller.userId {
      return Unauth401(NotAuthorized);
    }
    db.notes := db.notes - {id};
    r := Ok(());
  }
}
