/** The stored records: the Note and Group schemas with their defaults and
    validation, and the User record the routes read (the User schema itself
    is not part of this model). */
module Models {
  import opened Common

  // ---------------------------------------------------------------- Note

  /** The `type` enum of a note. */
  datatype NoteType = Text | Code | Drawing

  function KindName(k: NoteType): string
  {
    match k
    case Text => "text"
    case Code => "code"
    case Drawing => "drawing"
  }

  /** Enum validation of a `type` value given as a string. */
  function ParseKind(s: string): (r: Option<NoteType>)
    ensures r.Some? <==> s in {"text", "code", "drawing"}
    ensures r.Some? ==> KindName(r.value) == s
  {
    if s == "text" then Some(Text)
    else if s == "code" then Some(Code)
    else if s == "drawing" then Some(Drawing)
    else None
  }

  lemma ParseKindName(k: NoteType)
    ensures ParseKind(KindName(k)) == Some(k)
  {
  }

  /** A stored note. `content` is Mongoose's Mixed payload, modelled as
      text; `language` is null (None) unless given. */
  datatype Note = Note(
    userId: Id,
    title: string,
    kind: NoteType,
    content: string,
    language: Option<string>,
    tags: seq<string>,
    isFavorite: bool,
    isPublic: bool)

  /** What the schema guarantees of every saved note beyond its field types:
      each tag is trimmed. */
  predicate NoteValid(n: Note)
  {
    forall i :: 0 <= i < |n.tags| ==> Trimmed(n.tags[i])
  }

  const DefaultNoteTitle := "Untitled Note"

  function TrimAll(tags: seq<string>): (r: seq<string>)
    ensures |r| == |tags|
    ensures forall i :: 0 <= i < |r| ==> r[i] == Trim(tags[i]) && Trimmed(r[i])
  {
    if tags == [] then []
    else [Trim(tags[0])] + TrimAll(tags[1..])
  }

  /** Tags that are already trimmed pass through the setter unchanged. */
  lemma {:induction false} TrimAllFixed(tags: seq<string>)
    requires forall i :: 0 <= i < |tags| ==> Trimmed(tags[i])
    ensures TrimAll(tags) == tags
  {
    if tags != [] {
      TrimmedFixed(tags[0]);
      TrimAllFixed(tags[1..]);
    }
  }

  /** `new Note({...})` followed by `save()`: the schema's defaults, casting
      and validation. None is a validation error: `type` missing or outside
      the enum, or `content` missing. */
  function NewNote(owner: Id, title: Option<string>, kind: Option<string>,
                   content: Option<string>, language: Option<string>,
                   tags: Option<seq<string>>): (r: Option<Note>)
    ensures r.Some? <==> kind.Some? && ParseKind(kind.value).Some? && content.Some?
    ensures r.Some? ==> NoteValid(r.value) && r.value.userId == owner
    ensures r.Some? ==> KindName(r.value.kind) == kind.value && r.value.content == content.value
    ensures r.Some? ==> !r.value.isFavorite && !r.value.isPublic
    ensures r.Some? && title.None? ==> r.value.title == DefaultNoteTitle
    ensures r.Some? && language.None? ==> r.value.language.None?
    ensures r.Some? && tags.None? ==> r.value.tags == []
    ensures r.Some? && title.Some? ==> r.value.title == title.value
    ensures r.Some? ==> r.value.language == language
    ensures r.Some? && tags.Some? ==> r.value.tags == TrimAll(tags.value)
  {
    if kind.None? || content.None? then None
    else
      match ParseKind(kind.value)
      case None => None
      case Some(k) =>
        Some(Note(owner,
                  if title.Some? then title.value else DefaultNoteTitle,
                  k, content.value, language,
                  if tags.Some? then TrimAll(tags.value) else [],
                  false, false))
  }

  // --------------------------------------------------------------- Group

  /** A stored group. `notes` is an ordered list of note references that may
      go stale when a note is deleted; `shareCode` is optional. */
  datatype Group = Group(
    userId: Id,
    title: string,
    notes: seq<Id>,
    isPublic: bool,
    shareCode: Option<string>)

  const DefaultGroupTitle := "Untitled Group"

  /** The title setter stores a trimmed, non-empty title. */
  predicate GroupTitleValid(g: Group)
  {
    g.title != "" && Trimmed(g.title)
  }

  /** `new Group({userId, title, notes})` followed by `save()`: a missing
      title takes the default, a given one is trimmed, and a title that trims
      to the empty string fails the `required` validator (None). */
  function NewGroup(owner: Id, title: Option<string>, notes: seq<Id>): (r: Option<Group>)
    ensures r.None? <==> title.Some? && Trim(title.value) == ""
    ensures r.Some? ==> GroupTitleValid(r.value)
    ensures r.Some? ==> r.value.userId == owner && r.value.notes == notes
    ensures r.Some? ==> !r.value.isPublic && r.value.shareCode.None?
    ensures r.Some? && title.None? ==> r.value.title == DefaultGroupTitle
    ensures r.Some? && title.Some? ==> r.value.title == Trim(title.value)
  {
    var t := if title.Some? then Trim(title.value) else DefaultGroupTitle;
    if t == "" then None
    else Some(Group(owner, t, notes, false, None))
  }

  // ---------------------------------------------------------------- User

  /** A stored user. `credential` is the hashed password. */
  datatype User = User(
    username: string,
    email: string,
    credential: string,
    isAdmin: bool,
    isSuspended: bool)

  /** The user as the API shows it: the credential is never part of it. */
  datatype UserView = UserView(id: Id, username: string, email: string, isAdmin: bool)

  /** The claims a signed token carries. */
  datatype Claims = Claims(userId: Id, username: string, isAdmin: bool)

  /** `req.user` once the auth middleware has accepted a request. */
  datatype Caller = Caller(userId: Id, username: string, isAdmin: bool, isSuspended: bool)
}
