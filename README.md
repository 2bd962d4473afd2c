# notes-app-server, modelled in Dafny

notes-app-server is the back end of a note-taking application. Users
register and log in and receive signed tokens. They keep text, code and
drawing notes, mark notes favourite, and share single notes publicly. A
user can bundle at least one text note and one code note into a group. A
group can be shared by a six-character code, and other users can import it
as deep copies. Administrators list users, suspend and re-activate them,
delete a user together with that user's notes, and delete any note. A
proxy route names the source file for a language and forwards code to an
external execution service.

The model represents the database as one `Db.Store` object. It holds the
notes, groups and users collections, keyed by document id, and a single
supply of fresh ids. `Store.Valid()` is the invariant every route
preserves:
- every stored tag is trimmed;
- every group title is trimmed and non-empty;
- group references are ids that have been handed out;
- share codes are well-formed and unique (the sparse unique index);
- e-mails and usernames are unique.

Each route module has one method per handler that changes the store.
Read-only handlers are functions, except login, which is a method that
changes nothing. A handler's response is a `Status`:
a value, or one of 400/401/403/404/500 with the route's message. JSON
`undefined` is `None`, and JavaScript truthiness of a string is
`Common.Truthy`. The route modules take four outside services as
parameters:
- token verification is `verify`, a partial function from tokens to claims;
- token signing is `sign`;
- password hashing is `hash`;
- password comparison is `matches`.

`crypto.randomBytes(3)` becomes a finite sequence of draws supplied by the
caller.

Files: `common.dfy` (options, statuses, `String.prototype.trim`),
`models.dfy` (Note and Group schemas, the user records), `sharecode.dfy`
(the share-code encoding), `db.dfy` (the store), `authmw.dfy` (the auth
middleware), `notes.dfy`, `groups.dfy`, `admin.dfy`, `authroutes.dfy` (the
routes) and `compiler.dfy` (the execution proxy).

## Model

| member | source | states |
|---|---|---|
| Common.Trim | src/models/Group.js:12 | the stored value has no white space at either end and is no longer than the input |
| Common.TrimCutsSpaces | src/models/Note.js:27-30 | trimming keeps a contiguous slice of the input and everything it removes, at either end, is white space |
| Common.TrimmedFixed | src/models/Group.js:9-14 | a value that is already trimmed is stored exactly as given |
| Common.TrimIdempotent | src/models/Note.js:27-30 | trimming a second time changes nothing |
| Models.ParseKind | src/models/Note.js:13-17 | a `type` string is accepted exactly when it is "text", "code" or "drawing", and the accepted kind prints back as that string |
| Models.ParseKindName | src/models/Note.js:13-17 | every kind's name parses back to that kind |
| Models.TrimAll | src/models/Note.js:27-30 | the tag setter keeps the number and order of tags and trims each one |
| Models.TrimAllFixed | src/models/Note.js:27-30 | tags that are already trimmed pass through the setter unchanged |
| Models.NewNote | src/models/Note.js:3-39 | a note is built exactly when `type` is in the enum and `content` is present; the built note is valid, belongs to the given owner, has the given type and content, keeps a given title and language, trims the given tags, defaults a missing title, language or tags, and has both flags false |
| Models.NewGroup | src/models/Group.js:3-28 | saving fails exactly when a given title trims to the empty string; otherwise the group has a valid title (the default when none is given, else the trimmed one), the given owner and references, is private and has no code |
| ShareCode.HexUpper | src/routes/groups.js:82 | three bytes become a string of six characters, two per byte |
| ShareCode.HexUpperAt | src/routes/groups.js:82 | byte i of the draw becomes the upper-case hexadecimal digits at positions 2i and 2i+1, high nibble first |
| ShareCode.HexUpperWellFormed | src/routes/groups.js:82 | three random bytes always encode to a well-formed code of six upper-case hexadecimal characters |
| ShareCode.CodeOf | src/routes/groups.js:82 | every code drawn is well-formed |
| ShareCode.CodeRoundTrip | src/routes/groups.js:82 | decoding a drawn code gives back the three bytes it came from |
| ShareCode.CodeOfInjective | src/routes/groups.js:82 | two different draws never encode to the same code |
| Db.Store.Valid | src/models/Group.js:23-27 | the store invariant, under which the next id is free in every collection |
| Db.Store.FreshId | src/routes/groups.js:127-133 | a saved document gets an id that no stored note, group or user has |
| Db.CodeHeld | src/routes/groups.js:83 | a share-code look-up finds a group exactly when some stored group holds that code |
| Db.CodeHeldByOne | src/models/Group.js:23-27 | under the sparse unique index a held share code belongs to exactly one group, so the look-up by code is unambiguous |
| Compiler.FileNameFor | src/routes/compiler.js:19-27 | each of java, python, cpp, c and javascript gets its own file name, and that name comes from no other language; every other language, and a missing one, gets main.txt |
| Compiler.BuildRequest | src/routes/compiler.js:30-38 | the forwarded body carries the language unchanged, exactly one file named for the language and holding the code, and an empty stdin |
| Compiler.LookupAsWritten | src/routes/compiler.js:27 | the property lookup is `undefined` exactly when the key is neither one of the five own entries nor an inherited name; a string it finds is one of the five file names |
| Compiler.FileNameAsWritten | src/routes/compiler.js:27 | the `\|\|` expression always yields a truthy value, and a string it yields is one of the five file names or main.txt |
| Compiler.InheritedNameEscapesDefault | src/routes/compiler.js:27 | as written, "toString" yields a function and "__proto__" an object instead of a file name, where the intended map gives main.txt |
| Compiler.AsWrittenAgreesElsewhere | src/routes/compiler.js:19-27 | apart from the inherited property names, the lookup as written and the corrected map agree |
| AuthMiddleware.IndexFrom | src/middleware/auth.js:4 | finds the first occurrence of the pattern at or after the start index, or reports that there is none |
| AuthMiddleware.RemoveFirst | src/middleware/auth.js:4 | a string without the pattern comes back unchanged, and one with it loses exactly the pattern's length |
| AuthMiddleware.ExtractToken | src/middleware/auth.js:4 | there is a token exactly when there is a header, and it is never longer than the header |
| AuthMiddleware.ExtractBearer | src/middleware/auth.js:4 | the header "Bearer t" yields exactly the token t |
| AuthMiddleware.ExtractWithoutPrefix | src/middleware/auth.js:4 | a header without "Bearer " in it is taken whole as the token |
| AuthMiddleware.ExtractRemovesOnlyFirst | src/middleware/auth.js:4 | only the first "Bearer " is removed, wherever it occurs |
| AuthMiddleware.Authenticate | src/middleware/auth.js:3-40 | a missing or empty token gives 401; the request passes exactly when the token verifies, its user exists and is not suspended; a suspended user gives 403; the only outcomes are 401, 403 and acceptance; the accepted caller has the token's id and username and the stored admin flag |
| AuthMiddleware.SuspendedAlwaysForbidden | src/middleware/auth.js:28-30 | whatever else the token claims, a token naming a suspended user gives 403 "Account Suspended" |
| AuthMiddleware.RoleComesFromStore | src/middleware/auth.js:32-34 | changing only the stored admin flag changes only the caller's admin flag, so the role is the stored one and not the token's |
| GroupRoutes.Resolve | src/routes/groups.js:20 | populating keeps list order, never yields more notes than references, yields every referenced note when none is stale, and yields only valid notes |
| GroupRoutes.ResolveAppend | src/routes/groups.js:20 | populating a concatenated list gives the concatenation of the populated parts |
| GroupRoutes.ResolveSingle | src/routes/groups.js:20 | a single reference populates to its note when it exists and to nothing when it is stale |
| GroupRoutes.ResolveAllStale | src/routes/groups.js:20 | a list of stale references populates to nothing |
| GroupRoutes.Clone | src/routes/groups.js:30-39 | the copy belongs to the importer, has both flags reset, and agrees with the source note in every other field |
| GroupRoutes.CloneIsSchemaNote | src/routes/groups.js:30-40 | the copy is exactly the note the schema builds from the fields the import loop passes |
| GroupRoutes.ClonedAt | src/routes/groups.js:29-42 | the saved copies occupy exactly the consecutive fresh ids, the i-th holding the copy of the i-th source note |
| GroupRoutes.ImportedTitle | src/routes/groups.js:44-48 | the imported title is the source title followed by " (Imported)", stored without change by the trimming setter |
| GroupRoutes.Import | src/routes/groups.js:12-59 | a missing or empty code gives 400 and an unknown code 404, both leaving the store unchanged; a held code always imports, and the resulting state is the import of the group holding that code; the store stays valid |
| GroupRoutes.ImportFrom | src/routes/groups.js:26-50 | the copies are saved first, then the new group referencing them, keeping the store valid |
| GroupRoutes.CloneAll | src/routes/groups.js:27-42 | the loop saves one copy per resolved note under consecutive fresh ids and returns those ids in order, touching nothing else |
| GroupRoutes.ImportKeepsValid | src/routes/groups.js:40-50 | the state after an import satisfies the store invariant |
| GroupRoutes.ClonedNotesValid | src/routes/groups.js:40 | the saved copies are valid notes below the id bound |
| GroupRoutes.ImportedGroupsValid | src/models/Group.js:23-27 | adding the imported group, which has no code, keeps every group valid and the codes unique |
| GroupRoutes.ImportIsIndependent | src/routes/groups.js:29-48 | the new group references only fresh ids, none of them a note in use before or a reference of the source; there is one copy per resolved note, each equal to the copy of its source; every earlier note and group is left as it was |
| GroupRoutes.Share | src/routes/groups.js:64-96 | a group the caller does not own gives 404; an existing truthy code is returned with nothing written; otherwise the first draw whose code no group holds is stored and the group made public; if every draw collides the result is 500; the codes stay unique |
| GroupRoutes.DrawUniqueCode | src/routes/groups.js:78-85 | when the loop finds a code, it belongs to the first draw whose code no group holds; when it finds none, every draw collided |
| GroupRoutes.IssueKeepsValid | src/routes/groups.js:87-89 | storing a free, well-formed code on a group that had none keeps the store valid and the codes unique |
| GroupRoutes.ShareTwice | src/routes/groups.js:72-75 | issuing a code twice returns the same code the second time |
| GroupRoutes.OwnedAmong | src/routes/groups.js:110-113 | the query finds exactly the listed ids that name a note of the caller |
| GroupRoutes.CountCheckExact | src/routes/groups.js:110-117 | the count test passes exactly when every listed id names a note of the caller and no id is repeated |
| GroupRoutes.FoundKinds | src/routes/groups.js:120-121 | the type test on the fetched notes agrees with the type test on the listed ids |
| GroupRoutes.Create | src/routes/groups.js:101-143 | fewer than two ids gives 400; an unknown, foreign or repeated id gives 400; a selection without both a text note and a code note gives 400 with nothing stored; a valid selection whose title trims to nothing gives 500 "Server Error" with nothing stored, and a 500 happens only then; otherwise the caller's new group lists the ids in the order given |
| GroupRoutes.AddGroup | src/routes/groups.js:127-133 | a new group is stored under a fresh id and the store stays valid |
| GroupRoutes.ListGroups | src/routes/groups.js:148-158 | the listing holds exactly the caller's groups |
| GroupRoutes.Delete | src/routes/groups.js:163-177 | only the owner's group is removed, otherwise 404 with no change; notes and other groups are kept |
| NoteRoutes.IsOwner | src/routes/notes.js:55 | the caller owns the note exactly when the note's owner is the caller's id |
| NoteRoutes.OwnerOrAdmin | src/routes/notes.js:30 | the owner always passes the read and update check, and a caller who is not an admin passes exactly when they own the note |
| NoteRoutes.ListNotes | src/routes/notes.js:9-17 | the listing holds exactly the caller's notes |
| NoteRoutes.GetNote | src/routes/notes.js:22-35 | an absent note gives 404; the note is returned exactly when the caller owns it or is an admin, and 401 is given otherwise |
| NoteRoutes.PublicRead | src/routes/notes.js:73-86 | an absent note gives 404; the note is returned exactly when it is public, and 403 "This note is private" is given exactly when it is private |
| NoteRoutes.ToggleShare | src/routes/notes.js:48-63 | only the owner can toggle, with no admin override; the toggle flips `isPublic` and changes nothing else |
| NoteRoutes.ToggleTwice | src/routes/notes.js:60 | toggling twice restores the notes |
| NoteRoutes.ShareThenPublicRead | src/routes/notes.js:48-86 | once its owner toggles a private note, the public route returns it |
| NoteRoutes.CreateNote | src/routes/notes.js:99-120 | the stored note is the schema's note built from the body, always owned by the caller and private; a schema failure gives 500 with nothing stored |
| NoteRoutes.Merged | src/routes/notes.js:129-134 | an update never changes a note's owner, type or sharing flag |
| NoteRoutes.MergeFieldRules | src/routes/notes.js:129-134 | title and language change only to a truthy value given in the body; content, tags and isFavorite change only to a defined value; a field that is given takes that value, with tags trimmed |
| NoteRoutes.CollectFields | src/routes/notes.js:129-134 | the update document holds title and language only when truthy, and the other editable fields only when defined |
| NoteRoutes.ApplyFields | src/routes/notes.js:146-150 | each field of the update document overwrites the note's field, and fields outside it are kept |
| NoteRoutes.UpdateNote | src/routes/notes.js:125-157 | an absent note gives 404; the update proceeds exactly for the owner or an admin, and 401 with no change otherwise; the response is the merged note, which is also what is stored |
| NoteRoutes.MergeIdempotent | src/routes/notes.js:129-134 | repeating an update changes nothing more |
| NoteRoutes.MergeIgnoresOtherFields | src/routes/notes.js:126 | a body carrying none of the editable fields leaves the note as it was |
| NoteRoutes.MergeKeepsValid | src/models/Note.js:27-30 | an update keeps every tag trimmed |
| NoteRoutes.DeleteNote | src/routes/notes.js:162-180 | only the owner deletes, 401 otherwise and 404 when absent, and exactly that note is removed |
| AdminRoutes.ListUsers | src/routes/admin.js:13-21 | the listing has exactly the stored users, showing username, email and both flags but never the password |
| AdminRoutes.SuspendMessage | src/routes/admin.js:35 | the message says "User suspended" exactly when the new flag is set and "User activated" exactly when it is cleared |
| AdminRoutes.ToggleSuspend | src/routes/admin.js:25-40 | an unknown id gives 404 with no change; otherwise exactly that user's suspension flag flips, and the new flag and its message are returned |
| AdminRoutes.SuspendTwice | src/routes/admin.js:32 | suspending twice leaves the users as they were |
| AdminRoutes.SuspendLocksOut | src/routes/admin.js:32 | after a suspension, the next request with that user's token is refused with 403 |
| AdminRoutes.NotesOfUser | src/routes/admin.js:76 | exactly the notes owned by the given user |
| AdminRoutes.NotesWithout | src/routes/admin.js:60 | exactly the notes not owned by the given user, unchanged |
| AdminRoutes.CascadeSplitsNotes | src/routes/admin.js:60-76 | the notes the cascade removes are exactly the user's listing, and those it keeps are everyone else's |
| AdminRoutes.DeleteUser | src/routes/admin.js:44-70 | an unknown id gives 404 and the caller's own id gives 400, both with nothing deleted; otherwise the user and exactly that user's notes are removed, and groups are left alone |
| AdminRoutes.DeleteAnyNote | src/routes/admin.js:86-97 | the route succeeds exactly when the note exists, whoever owns it, and then removes exactly that note; otherwise 404 with no change |
| AuthRoutes.PayloadOf | src/routes/auth.js:31-35 | the token payload holds the user's id, username and admin flag |
| AuthRoutes.ViewOf | src/routes/auth.js:46-51 | the response user holds the id, username, email and admin flag |
| AuthRoutes.SessionFor | src/routes/auth.js:38-52 | the response is the token signed over the payload together with the user view |
| AuthRoutes.SessionHidesCredential | src/routes/auth.js:44-51 | the response does not depend on the stored password |
| AuthRoutes.Taken | src/routes/auth.js:16 | the duplicate query finds someone exactly when a stored user has the e-mail or the username |
| AuthRoutes.Register | src/routes/auth.js:11-60 | a duplicate e-mail or username gives 400 "User already exists" with no change; otherwise a non-admin, non-suspended user holding the hashed password is stored under a fresh id and that user's session is returned; e-mails and usernames stay unique |
| AuthRoutes.RegisterKeepsUnique | src/routes/auth.js:16-19 | adding a user whose e-mail and username are both free keeps them unique |
| AuthRoutes.Login | src/routes/auth.js:67-116 | an unknown e-mail gives 400 "Invalid Credentials"; a suspended user gives 403 whatever the password; a wrong password gives the same 400 as an unknown e-mail; otherwise the user's session |
| AuthRoutes.RegisterThenLogin | src/routes/auth.js:11-116 | a fresh registration can log straight in with its password and receives the same token payload and user as registration gave |

## Left out

- HTTP, Express routing, JSON serialisation and the response status of successful requests are not modelled. The `Status` of a response stands in for them.
- `jwt.sign` and `jwt.verify`, password hashing, `comparePassword` and `process.env` are parameters. Token expiry is part of `verify`.
- `sign` is a function of the payload alone. The `iat` and `exp` claims `jwt.sign` adds are not modelled, so two tokens signed over the same payload at different times are equal in the model.
- Request body fields are assumed to have the JSON types the routes expect: strings, booleans, a list of tags, a list of ids. A Mongo query-operator object in the body, such as `{"$ne": null}` given as the share code to the import's `findOne`, is not modelled.
- `crypto.randomBytes` is the `draws` sequence supplied by the caller.
- AuthRoutes.Register: the User schema is not part of this model. The defaults (not an administrator, not suspended) and the password hash on save are assumed.
- AuthRoutes.Register: the duplicate check treats username and email as present strings. It does not model a query with an `undefined` field.
- GroupRoutes.Share: when every supplied draw collides the result is 500. The source would keep drawing, and the model does not claim the loop terminates.
- GroupRoutes.Share: the check-then-save between `findOne` and `save` is not atomic in the source. Requests are modelled as sequential, so a race between two requests is not captured.
- GroupRoutes.Import: a storage failure in the middle of the clone loop would leave orphan notes. Storage failures are not modelled. The model does save the group only after all its notes.
- `populate` is modelled as dropping stale references, in `GroupRoutes.Resolve`. The populated documents in the responses of create, import and listing are returned as ids.
- Sorting by `createdAt` and `updatedAt` is not modelled, because timestamps are not modelled. The listings are maps keyed by id.
- An ObjectId cast error (`err.kind === 'ObjectId'`) and any other database error are not modelled, and neither are the 500 responses that follow from them. Ids are natural numbers.
- `adminMiddleware` is not part of this model. The admin routes assume the caller is an accepted administrator.
- `GroupRoutes.Create` takes `noteIds` as a list of ids. A body value that is another JavaScript type is not modelled.
- A note's Mixed `content` is a string, and `null` is not distinguished from `undefined`.
- The informational GET handlers for `/register` and `/login` are not modelled. They only return a fixed message.
- The axios call to the execution service and its error forwarding are network I/O and are not modelled. Only the request body is.
- makeAdmin.js, checkAdmin.js and seed.js are one-off scripts and are not part of this model.
- Concurrency in general: every handler runs to completion before the next one starts.
- JavaScript's Unicode `toUpperCase` is modelled only on ASCII letters. Those are the only letters a hexadecimal string holds.

## Findings

| source | as written | input that shows it | evidently intended | confidence | as-written member | corrected member |
|---|---|---|---|---|---|---|
| src/routes/compiler.js:27 | `fileNames[language] \|\| 'main.txt'` looks the language up on a plain object literal, so inherited `Object.prototype` properties are found and are truthy | language "toString" (or "constructor", "valueOf", "__proto__", ...) | languages outside the five listed fall back to main.txt | not executed | Compiler.FileNameAsWritten, Compiler.InheritedNameEscapesDefault | Compiler.FileNameFor |
