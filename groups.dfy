/** The group routes: import by share code (a deep clone under the
    importer), share-code issuance, creation with its validation, the
    owner's listing, and deletion. */
module GroupRoutes {
  import opened Common
  import opened Models
  import opened ShareCode
  import opened Db

  // ------------------------------------------------------------ populate

  /** `populate('notes')`: the referenced notes in list order, with
      references to deleted notes dropped. */
  function Resolve(notes: map<Id, Note>, ids: seq<Id>): (r: seq<Note>)
    ensures |r| <= |ids|
    ensures (forall i :: 0 <= i < |ids| ==> ids[i] in notes) ==>
              |r| == |ids| && forall i :: 0 <= i < |r| ==> r[i] == notes[ids[i]]
    ensures (forall id :: id in notes ==> NoteValid(notes[id])) ==>
              forall i :: 0 <= i < |r| ==> NoteValid(r[i])
  {
    if ids == [] then []
    else
      var rest := Resolve(notes, ids[1..]);
      if ids[0] in notes then [notes[ids[0]]] + rest else rest
  }

  /** Populating a concatenation populates each part: together with
      `ResolveSingle` this pins the result down for any list, stale
      references included. */
  lemma {:induction false} ResolveAppend(notes: map<Id, Note>, a: seq<Id>, b: seq<Id>)
    ensures Resolve(notes, a + b) == Resolve(notes, a) + Resolve(notes, b)
  {
    if a == [] {
      assert a + b == b;
    } else {
      assert (a + b)[0] == a[0];
      assert (a + b)[1..] == a[1..] + b;
      ResolveAppend(notes, a[1..], b);
    }
  }

  /** One reference yields its note when that note exists and nothing when
      it has been deleted. */
  lemma ResolveSingle(notes: map<Id, Note>, x: Id)
    ensures Resolve(notes, [x]) == if x in notes then [notes[x]] else []
  {
    assert [x][1..] == [];
  }

  /** A list of stale references only populates to nothing. */
  lemma {:induction false} ResolveAllStale(notes: map<Id, Note>, ids: seq<Id>)
    requires forall i :: 0 <= i < |ids| ==> ids[i] !in notes
    ensures Resolve(notes, ids) == []
  {
    if ids != [] {
      ResolveAllStale(notes, ids[1..]);
    }
  }

  // -------------------------------------------------------------- import

  /** The copy of `n` the importer receives: owned by `owner`, with title,
      type, content, language and tags copied and both flags reset. */
  function Clone(n: Note, owner: Id): (c: Note)
    ensures c.userId == owner && !c.isFavorite && !c.isPublic
    ensures c.(userId := n.userId, isFavorite := n.isFavorite, isPublic := n.isPublic) == n
  {
    Note(owner, n.title, n.kind, n.content, n.language, n.tags, false, false)
  }

  /** The clone is exactly what the Note schema builds from the fields the
      import loop passes. */
  lemma CloneIsSchemaNote(n: Note, owner: Id)
    requires NoteValid(n)
    ensures NewNote(owner, Some(n.title), Some(KindName(n.kind)), Some(n.content),
                    n.language, Some(n.tags)) == Some(Clone(n, owner))
  {
    ParseKindName(n.kind);
    TrimAllFixed(n.tags);
  }

  /** The ids `base`, `base + 1`, ..., `base + count - 1`, in order. */
  function FreshIds(base: nat, count: nat): (ids: seq<Id>)
    ensures |ids| == count && forall i :: 0 <= i < count ==> ids[i] == base + i
  {
    seq(count, i requires 0 <= i < count => base + i)
  }

  /** The first `count` clones of `src`, stored under consecutive fresh ids. */
  ghost function Cloned(src: seq<Note>, count: nat, owner: Id, base: nat): map<Id, Note>
    requires count <= |src|
  {
    if count == 0 then map[]
    else Cloned(src, count - 1, owner, base)[base + count - 1 := Clone(src[count - 1], owner)]
  }

  /** The clones occupy exactly the ids `base` to `base + count - 1`, the
      `i`-th holding the copy of the `i`-th source note. */
  lemma {:induction false} ClonedAt(src: seq<Note>, count: nat, owner: Id, base: nat)
    requires count <= |src|
    ensures forall k :: k in Cloned(src, count, owner, base) <==> base <= k < base + count
    ensures forall i :: 0 <= i < count ==> Cloned(src, count, owner, base)[base + i] == Clone(src[i], owner)
  {
    if count > 0 {
      ClonedAt(src, count - 1, owner, base);
    }
  }

  const ImportedSuffix := " (Imported)"

  /** The imported title is stored as written: a valid source title
      followed by the suffix is already trimmed. */
  lemma ImportedTitle(src: Group, owner: Id, ids: seq<Id>)
    requires GroupTitleValid(src)
    ensures NewGroup(owner, Some(src.title + ImportedSuffix), ids) ==
            Some(Group(owner, src.title + ImportedSuffix, ids, false, None))
  {
    var t := src.title + ImportedSuffix;
    assert t[0] == src.title[0] && t[|t| - 1] == ')';
    TrimmedFixed(t);
  }

  /** The state an import leaves behind, given the source group `src` and the
      state before it (`notes0`, `groups0`, first fresh id `base`). */
  ghost predicate IsImport(src: Group, owner: Id, notes0: map<Id, Note>,
                           groups0: map<Id, Group>, base: nat,
                           notes1: map<Id, Note>, groups1: map<Id, Group>,
                           next1: nat, result: (Id, Group))
  {
    var clones := Resolve(notes0, src.notes);
    var gid := base + |clones|;
    var g := Group(owner, src.title + ImportedSuffix, FreshIds(base, |clones|), false, None);
    notes1 == notes0 + Cloned(clones, |clones|, owner, base) &&
    groups1 == groups0[gid := g] &&
    next1 == gid + 1 &&
    result == (gid, g)
  }

  /** POST /import. A missing or empty code gives 400 and a code no group
      holds gives 404, both leaving the store unchanged. Otherwise every
      note the source group still references is cloned, in order, and a new
      group owned by the caller references exactly the clones. */
  method Import(db: Store, caller: Caller, shareCode: Option<string>)
    returns (r: Status<(Id, Group)>)
    requires db.Valid()
    modifies db
    ensures db.Valid()
    ensures !Truthy(shareCode) ==> r == Bad400("Share Code is required") && unchanged(db)
    ensures Truthy(shareCode) && !CodeHeld(old(db.groups), shareCode.value) ==>
              r == NotFound404("Invalid Share Code") && unchanged(db)
    ensures Truthy(shareCode) && CodeHeld(old(db.groups), shareCode.value) ==> r.Ok?
    ensures r.Ok? ==> db.users == old(db.users)
    ensures r.Ok? ==>
              forall s :: s in old(db.groups) && old(db.groups)[s].shareCode == shareCode ==>
                IsImport(old(db.groups)[s], caller.userId, old(db.notes), old(db.groups),
                         old(db.nextId), db.notes, db.groups, db.nextId, r.value)
  {
    if !Truthy(shareCode) {
      return Bad400("Share Code is required");
    }
    var code := shareCode.value;
    if !CodeHeld(db.groups, code) {
      return NotFound404("Invalid Share Code");
    }
    var s :| s in db.groups && db.groups[s].shareCode == Some(code);
    var result := ImportFrom(db, db.groups[s], caller.userId);
    r := Ok(result);
    forall s' | s' in old(db.groups) && old(db.groups)[s'].shareCode == shareCode
      ensures s' == s
    {
    }
  }

  /** The import proper, once the source group is found: the clones are
      saved, then the group that references them. */
  method ImportFrom(db: Store, source: Group, owner: Id) returns (result: (Id, Group))
    requires db.Valid() && GroupTitleValid(source)
    modifies db
    ensures db.Valid() && db.users == old(db.users)
    ensures IsImport(source, owner, old(db.notes), old(db.groups), old(db.nextId),
                     db.notes, db.groups, db.nextId, result)
  {
    var clones := Resolve(db.notes, source.notes);
    ghost var notes0, base := db.notes, db.nextId;
    var newIds := CloneAll(db, clones, owner);
    ImportedTitle(source, owner, newIds);
    var newGroup := NewGroup(owner, Some(source.title + ImportedSuffix), newIds).value;
    var gid := db.FreshId();
    db.groups := db.groups[gid := newGroup];
    result := (gid, newGroup);
    ImportKeepsValid(db, notes0, old(db.groups), base, clones, owner, gid, newGroup);
    ImportRecorded(source, owner, notes0, old(db.groups), base, db.notes, db.groups, db.nextId,
                   clones, gid, newGroup);
  }

  lemma ImportRecorded(src: Group, owner: Id, notes0: map<Id, Note>, groups0: map<Id, Group>,
                       base: nat, notes1: map<Id, Note>, groups1: map<Id, Group>, next1: nat,
                       clones: seq<Note>, gid: Id, g: Group)
    requires clones == Resolve(notes0, src.notes)
    requires notes1 == notes0 + Cloned(clones, |clones|, owner, base)
    requires gid == base + |clones| && next1 == gid + 1
    requires g == Group(owner, src.title + ImportedSuffix, FreshIds(base, |clones|), false, None)
    requires groups1 == groups0[gid := g]
    ensures IsImport(src, owner, notes0, groups0, base, notes1, groups1, next1, (gid, g))
  {
  }

  /** The clone loop: each note of `clones` is copied for `owner` and
      saved under the next fresh id, and the ids are collected in order. */
  method CloneAll(db: Store, clones: seq<Note>, owner: Id) returns (newIds: seq<Id>)
    modifies db
    ensures newIds == FreshIds(old(db.nextId), |clones|)
    ensures db.notes == old(db.notes) + Cloned(clones, |clones|, owner, old(db.nextId))
    ensures db.nextId == old(db.nextId) + |clones|
    ensures db.groups == old(db.groups) && db.users == old(db.users)
  {
    ghost var notes0, base := db.notes, db.nextId;
    newIds := [];
    var i := 0;
    while i < |clones|
      invariant 0 <= i <= |clones|
      invariant db.nextId == base + i
      invariant |newIds| == i && forall k :: 0 <= k < i ==> newIds[k] == base + k
      invariant db.notes == notes0 + Cloned(clones, i, owner, base)
      invariant db.groups == old(db.groups) && db.users == old(db.users)
    {
      var id := db.FreshId();
      ghost var step := Cloned(clones, i, owner, base);
      assert Cloned(clones, i + 1, owner, base) == step[id := Clone(clones[i], owner)];
      UnionUpdate(notes0, step, id, Clone(clones[i], owner));
      db.notes := db.notes[id := Clone(clones[i], owner)];
      newIds := newIds + [id];
      i := i + 1;
    }
    assert newIds == FreshIds(base, |clones|);
  }

  /** Saving into the union is saving into its right-hand side. */
  lemma UnionUpdate<K, V>(a: map<K, V>, b: map<K, V>, k: K, v: V)
    ensures (a + b)[k := v] == a + b[k := v]
  {
  }

  lemma ImportKeepsValid(db: Store, notes0: map<Id, Note>, groups0: map<Id, Group>,
                         base: nat, clones: seq<Note>, owner: Id, gid: Id, g: Group)
    requires forall id :: id in notes0 ==> id < base && NoteValid(notes0[id])
    requires forall id :: id in groups0 ==> id < base && GroupValid(groups0[id], base)
    requires forall id :: id in db.users ==> id < base
    requires CodesUnique(groups0) && UsersUnique(db.users)
    requires forall i :: 0 <= i < |clones| ==> NoteValid(clones[i])
    requires db.notes == notes0 + Cloned(clones, |clones|, owner, base)
    requires gid == base + |clones| && db.nextId == gid + 1
    requires db.groups == groups0[gid := g]
    requires g == Group(owner, g.title, FreshIds(base, |clones|), false, None) && GroupTitleValid(g)
    ensures db.Valid()
  {
    ClonedNotesValid(notes0, base, clones, owner);
    ImportedGroupsValid(groups0, base, |clones|, gid, g);
  }

  /** The notes after the clone loop are valid and below the id bound. */
  lemma ClonedNotesValid(notes0: map<Id, Note>, base: nat, clones: seq<Note>, owner: Id)
    requires forall id :: id in notes0 ==> id < base && NoteValid(notes0[id])
    requires forall i :: 0 <= i < |clones| ==> NoteValid(clones[i])
    ensures var notes1 := notes0 + Cloned(clones, |clones|, owner, base);
            forall id :: id in notes1 ==> id < base + |clones| && NoteValid(notes1[id])
  {
    var notes1 := notes0 + Cloned(clones, |clones|, owner, base);
    ClonedAt(clones, |clones|, owner, base);
    forall id | id in notes1 ensures id < base + |clones| && NoteValid(notes1[id]) {
      if id !in notes0 {
        var i := id - base;
        assert 0 <= i < |clones| && notes1[base + i] == Clone(clones[i], owner);
      }
    }
  }

  /** Adding the imported group, which has no code and references only the
      fresh ids, keeps every group valid and the codes unique. */
  lemma ImportedGroupsValid(groups0: map<Id, Group>, base: nat, count: nat, gid: Id, g: Group)
    requires forall id :: id in groups0 ==> id < base && GroupValid(groups0[id], base)
    requires CodesUnique(groups0)
    requires gid == base + count
    requires g.notes == FreshIds(base, count) && g.shareCode.None? && GroupTitleValid(g)
    ensures var groups1 := groups0[gid := g];
            (forall id :: id in groups1 ==> id < gid + 1 && GroupValid(groups1[id], gid + 1)) &&
            CodesUnique(groups1)
  {
    forall id | id in groups0 ensures GroupValid(groups0[id], gid + 1) {
      GroupValidMonotone(groups0[id], base, gid + 1);
    }
  }

  /** What the import promises about the copies: the new group references
      only fresh ids, none of which is a note id in use before or a
      reference of the source group, as many as the source still resolves,
      each holding the clone of the corresponding source note; every group
      and note that existed before is left as it was. */
  lemma ImportIsIndependent(src: Group, owner: Id, notes0: map<Id, Note>,
                            groups0: map<Id, Group>, base: nat,
                            notes1: map<Id, Note>, groups1: map<Id, Group>,
                            next1: nat, result: (Id, Group))
    requires IsImport(src, owner, notes0, groups0, base, notes1, groups1, next1, result)
    requires forall id :: id in notes0 ==> id < base
    requires forall id :: id in groups0 ==> id < base
    requires forall i :: 0 <= i < |src.notes| ==> src.notes[i] < base
    ensures var g := result.1;
            var clones := Resolve(notes0, src.notes);
            |g.notes| == |clones| && g.userId == owner &&
            g.title == src.title + ImportedSuffix &&
            (forall i :: 0 <= i < |g.notes| ==>
               g.notes[i] !in notes0 && g.notes[i] !in src.notes &&
               g.notes[i] in notes1 && notes1[g.notes[i]] == Clone(clones[i], owner))
    ensures result.0 !in groups0 && groups1[result.0] == result.1
    ensures forall id :: id in notes0 ==> id in notes1 && notes1[id] == notes0[id]
    ensures forall id :: id in groups0 ==> id in groups1 && groups1[id] == groups0[id]
  {
    var clones := Resolve(notes0, src.notes);
    var g := result.1;
    ClonedAt(clones, |clones|, owner, base);
    forall i | 0 <= i < |g.notes|
      ensures g.notes[i] !in notes0 && g.notes[i] !in src.notes
      ensures g.notes[i] in notes1 && notes1[g.notes[i]] == Clone(clones[i], owner)
    {
      assert g.notes[i] == base + i;
    }
  }

  // --------------------------------------------------------------- share

  /** Draw `k` is the first whose code no group holds. */
  ghost predicate FirstFreeDraw(groups: map<Id, Group>, draws: seq<Draw>, k: nat)
  {
    k < |draws| && !CodeHeld(groups, CodeOf(draws[k])) &&
    forall j :: 0 <= j < k ==> CodeHeld(groups, CodeOf(draws[j]))
  }

  predicate OwnedBy(groups: map<Id, Group>, id: Id, owner: Id)
  {
    id in groups && groups[id].userId == owner
  }

  /** PUT /:id/share. `draws` are the successive results of
      `crypto.randomBytes(3)`. A group the caller does not own gives 404; an
      existing code is returned as it is; otherwise the code of the first
      draw no group holds is stored and the group marked public. If every
      draw collides the handler fails with 500 (the source keeps drawing). */
  method Share(db: Store, caller: Caller, id: Id, draws: seq<Draw>) returns (r: Status<string>)
    requires db.Valid()
    modifies db
    ensures db.Valid()
    ensures r.Ok? ==> IsShareCode(r.value)
    ensures !OwnedBy(old(db.groups), id, caller.userId) ==>
              r == NotFound404("Group not found") && unchanged(db)
    ensures OwnedBy(old(db.groups), id, caller.userId) && Truthy(old(db.groups)[id].shareCode) ==>
              r == Ok(old(db.groups)[id].shareCode.value) && unchanged(db)
    ensures OwnedBy(old(db.groups), id, caller.userId) && !Truthy(old(db.groups)[id].shareCode) ==>
              (r.Ok? || r == ServerError500(ServerError)) &&
              (r.Ok? ==>
                 (exists k: nat :: FirstFreeDraw(old(db.groups), draws, k) && r.value == CodeOf(draws[k])) &&
                 db.groups == old(db.groups)[id := old(db.groups)[id].(shareCode := Some(r.value), isPublic := true)] &&
                 db.notes == old(db.notes) && db.users == old(db.users) && db.nextId == old(db.nextId)) &&
              (r.ServerError500? ==>
                 (forall k :: 0 <= k < |draws| ==> CodeHeld(old(db.groups), CodeOf(draws[k]))) &&
                 unchanged(db))
  {
    if !OwnedBy(db.groups, id, caller.userId) {
      return NotFound404("Group not found");
    }
    var group := db.groups[id];
    if Truthy(group.shareCode) {
      return Ok(group.shareCode.value);
    }

    var isUnique, code, used := DrawUniqueCode(db.groups, draws);
    if !isUnique {
      return ServerError500(ServerError);
    }
    assert FirstFreeDraw(db.groups, draws, used - 1) && IsShareCode(code) && !CodeHeld(db.groups, code);
    db.groups := db.groups[id := group.(shareCode := Some(code), isPublic := true)];
    r := Ok(code);
    IssueKeepsValid(db, old(db.groups), id, code);
  }

  /** The `while (!isUnique)` loop: codes are drawn until one is found that
      no group holds. `used` counts the draws consumed; when `isUnique`, the
      last of them is the first draw whose code is free, and otherwise every
      draw collided. */
  method DrawUniqueCode(groups: map<Id, Group>, draws: seq<Draw>)
    returns (isUnique: bool, code: string, used: nat)
    ensures used <= |draws|
    ensures isUnique ==> 0 < used && FirstFreeDraw(groups, draws, used - 1) && code == CodeOf(draws[used - 1])
    ensures !isUnique ==> forall k :: 0 <= k < |draws| ==> CodeHeld(groups, CodeOf(draws[k]))
  {
    code := "";
    isUnique := false;
    used := 0;
    while !isUnique && used < |draws|
      invariant used <= |draws|
      invariant isUnique ==> 0 < used && FirstFreeDraw(groups, draws, used - 1) && code == CodeOf(draws[used - 1])
      invariant !isUnique ==> forall j :: 0 <= j < used ==> CodeHeld(groups, CodeOf(draws[j]))
      decreases |draws| - used
    {
      code := CodeOf(draws[used]);
      var existing := CodeHeld(groups, code);
      if !existing {
        isUnique := true;
      }
      used := used + 1;
    }
  }

  /** Storing a code no group holds on a group that had none keeps the
      store valid, and in particular keeps codes unique. */
  lemma IssueKeepsValid(db: Store, groups0: map<Id, Group>, id: Id, code: string)
    requires id in groups0 && groups0[id].shareCode.None?
    requires !CodeHeld(groups0, code) && IsShareCode(code)
    requires forall k :: k in groups0 ==> k < db.nextId && GroupValid(groups0[k], db.nextId)
    requires CodesUnique(groups0)
    requires db.groups == groups0[id := groups0[id].(shareCode := Some(code), isPublic := true)]
    requires forall k :: k in db.notes ==> k < db.nextId && NoteValid(db.notes[k])
    requires (forall k :: k in db.users ==> k < db.nextId) && UsersUnique(db.users)
    ensures db.Valid()
  {
    forall a, b | a in db.groups && b in db.groups && a != b && db.groups[a].shareCode.Some?
      ensures db.groups[a].shareCode != db.groups[b].shareCode
    {
      if a == id {
        assert !(b in groups0 && groups0[b].shareCode == Some(code));
      } else if b == id {
        assert !(a in groups0 && groups0[a].shareCode == Some(code));
      }
    }
  }

  /** Issuing twice hands out the same code, and the second call writes
      nothing. */
  method ShareTwice(db: Store, caller: Caller, id: Id, draws1: seq<Draw>, draws2: seq<Draw>)
    returns (first: Status<string>, second: Status<string>)
    requires db.Valid()
    modifies db
    ensures first.Ok? ==> second == first
  {
    first := Share(db, caller, id, draws1);
    ghost var between := db.groups;
    second := Share(db, caller, id, draws2);
    if first.Ok? {
      assert OwnedBy(between, id, caller.userId) && between[id].shareCode == Some(first.value);
    }
  }

  // -------------------------------------------------------------- create

  /** `Note.find({ _id: { $in: noteIds }, userId })`: the distinct ids in
      the list that name a note of `owner`. */
  function OwnedAmong(notes: map<Id, Note>, owner: Id, ids: seq<Id>): (r: set<Id>)
    ensures forall id :: id in r ==> id in ids && id in notes && notes[id].userId == owner
    ensures forall i :: 0 <= i < |ids| && ids[i] in notes && notes[ids[i]].userId == owner ==> ids[i] in r
  {
    set id | id in ids && id in notes && notes[id].userId == owner
  }

  predicate NoDuplicates(ids: seq<Id>)
  {
    forall i, j :: 0 <= i < j < |ids| ==> ids[i] != ids[j]
  }

  /** Every id of the list names a note of `owner`, and none is repeated. */
  predicate AllOwnedDistinct(notes: map<Id, Note>, owner: Id, ids: seq<Id>)
  {
    NoDuplicates(ids) && forall i :: 0 <= i < |ids| ==> ids[i] in notes && notes[ids[i]].userId == owner
  }

  function Elements(ids: seq<Id>): set<Id>
  {
    set id | id in ids
  }

  /** A list has at most as many distinct elements as entries, and exactly
      as many when no entry is repeated. */
  lemma {:induction false} ElementsCount(ids: seq<Id>)
    ensures |Elements(ids)| <= |ids|
    ensures |Elements(ids)| == |ids| <==> NoDuplicates(ids)
  {
    if ids != [] {
      var rest := ids[1..];
      ElementsCount(rest);
      assert Elements(ids) == {ids[0]} + Elements(rest);
      if ids[0] in rest {
        assert Elements(ids) == Elements(rest);
        var j :| 0 <= j < |rest| && rest[j] == ids[0];
        assert ids[j + 1] == ids[0];
      } else {
        assert |Elements(ids)| == 1 + |Elements(rest)|;
        if NoDuplicates(ids) {
          assert NoDuplicates(rest) by {
            forall i, j | 0 <= i < j < |rest| ensures rest[i] != rest[j] {
              assert rest[i] == ids[i + 1] && rest[j] == ids[j + 1];
            }
          }
        }
        if NoDuplicates(rest) {
          forall i, j | 0 <= i < j < |ids| ensures ids[i] != ids[j] {
            if i > 0 {
              assert ids[i] == rest[i - 1] && ids[j] == rest[j - 1];
            } else {
              assert ids[j] in rest;
            }
          }
        }
      }
    }
  }

  /** The count test of the create route is exact: the query finds as many
      notes as ids were given if and only if every id names a note of the
      caller and none is repeated. */
  lemma CountCheckExact(notes: map<Id, Note>, owner: Id, ids: seq<Id>)
    ensures |OwnedAmong(notes, owner, ids)| == |ids| <==> AllOwnedDistinct(notes, owner, ids)
  {
    var found := OwnedAmong(notes, owner, ids);
    ElementsCount(ids);
    assert found <= Elements(ids);
    if |found| == |ids| {
      assert |Elements(ids) - found| == 0;
      assert found == Elements(ids);
      forall i | 0 <= i < |ids| ensures ids[i] in notes && notes[ids[i]].userId == owner {
        assert ids[i] in Elements(ids);
      }
    }
    if AllOwnedDistinct(notes, owner, ids) {
      assert found == Elements(ids);
    }
  }

  const AtLeastTwo := "Please select at least 2 notes."
  const InvalidNotes := "One or more selected notes are invalid."
  const NeedTextAndCode := "Group must contain at least 1 Text Note and 1 Code Note."

  /** Some listed note of the caller has type `kind`. */
  predicate ListsKind(notes: map<Id, Note>, ids: seq<Id>, kind: NoteType)
  {
    exists i :: 0 <= i < |ids| && ids[i] in notes && notes[ids[i]].kind == kind
  }

  /** POST /. Fewer than two ids, an id that is unknown, foreign or
      repeated, or a selection without a text note and a code note give 400
      without changing the store; a title that trims to nothing fails
      validation (500). Otherwise the group is stored under a fresh id,
      owned by the caller and listing the ids in the order given. */
  method Create(db: Store, caller: Caller, title: Option<string>, noteIds: Option<seq<Id>>)
    returns (r: Status<(Id, Group)>)
    requires db.Valid()
    modifies db
    ensures db.Valid()
    ensures (noteIds.None? || |noteIds.value| < 2) ==> r == Bad400(AtLeastTwo) && unchanged(db)
    ensures noteIds.Some? && |noteIds.value| >= 2 &&
            !AllOwnedDistinct(old(db.notes), caller.userId, noteIds.value) ==>
              r == Bad400(InvalidNotes) && unchanged(db)
    ensures noteIds.Some? && |noteIds.value| >= 2 &&
            AllOwnedDistinct(old(db.notes), caller.userId, noteIds.value) &&
            !(ListsKind(old(db.notes), noteIds.value, Text) && ListsKind(old(db.notes), noteIds.value, Code)) ==>
              r == Bad400(NeedTextAndCode) && unchanged(db)
    ensures r.ServerError500? ==> unchanged(db) && title.Some? && Trim(title.value) == ""
    ensures noteIds.Some? && |noteIds.value| >= 2 &&
            AllOwnedDistinct(old(db.notes), caller.userId, noteIds.value) &&
            ListsKind(old(db.notes), noteIds.value, Text) && ListsKind(old(db.notes), noteIds.value, Code) &&
            NewGroup(caller.userId, title, noteIds.value).None? ==>
              r == ServerError500(ServerError) && unchanged(db)
    ensures r.Ok? <==>
              noteIds.Some? && |noteIds.value| >= 2 &&
              AllOwnedDistinct(old(db.notes), caller.userId, noteIds.value) &&
              ListsKind(old(db.notes), noteIds.value, Text) && ListsKind(old(db.notes), noteIds.value, Code) &&
              NewGroup(caller.userId, title, noteIds.value).Some?
    ensures r.Ok? ==>
              r.value == (old(db.nextId), NewGroup(caller.userId, title, noteIds.value).value) &&
              r.value.1.userId == caller.userId && r.value.1.notes == noteIds.value &&
              db.groups == old(db.groups)[r.value.0 := r.value.1] &&
              db.notes == old(db.notes) && db.users == old(db.users) && db.nextId == old(db.nextId) + 1
  {
    if noteIds.None? || |noteIds.value| < 2 {
      return Bad400(AtLeastTwo);
    }
    var ids := noteIds.value;
    var found := OwnedAmong(db.notes, caller.userId, ids);
    CountCheckExact(db.notes, caller.userId, ids);
    if |found| != |ids| {
      return Bad400(InvalidNotes);
    }
    var hasText := exists n :: n in found && db.notes[n].kind == Text;
    var hasCode := exists n :: n in found && db.notes[n].kind == Code;
    FoundKinds(db.notes, caller.userId, ids, Text);
    FoundKinds(db.notes, caller.userId, ids, Code);
    if !hasText || !hasCode {
      return Bad400(NeedTextAndCode);
    }
    match NewGroup(caller.userId, title, ids)
    case None =>
      return ServerError500(ServerError);
    case Some(g) =>
      var id := AddGroup(db, g);
      r := Ok((id, g));
  }

  /** The type test on the found notes is the type test on the listed
      ones. */
  lemma FoundKinds(notes: map<Id, Note>, owner: Id, ids: seq<Id>, kind: NoteType)
    requires AllOwnedDistinct(notes, owner, ids)
    ensures (exists n :: n in OwnedAmong(notes, owner, ids) && notes[n].kind == kind) <==>
            ListsKind(notes, ids, kind)
  {
    if ListsKind(notes, ids, kind) {
      var i :| 0 <= i < |ids| && ids[i] in notes && notes[ids[i]].kind == kind;
      assert ids[i] in OwnedAmong(notes, owner, ids);
    }
  }

  /** Saves a new group without a share code, whose references are ids
      already handed out, under a fresh id. */
  method AddGroup(db: Store, g: Group) returns (id: Id)
    requires db.Valid() && GroupTitleValid(g) && g.shareCode.None?
    requires forall i :: 0 <= i < |g.notes| ==> g.notes[i] < db.nextId
    modifies db
    ensures db.Valid()
    ensures id == old(db.nextId) && db.nextId == id + 1
    ensures db.groups == old(db.groups)[id := g]
    ensures db.notes == old(db.notes) && db.users == old(db.users)
  {
    id := db.FreshId();
    db.groups := db.groups[id := g];
    forall k | k in db.groups ensures GroupValid(db.groups[k], db.nextId) {
      if k != id {
        GroupValidMonotone(db.groups[k], old(db.nextId), db.nextId);
      }
    }
  }

  // ------------------------------------------------------ list and delete

  /** GET /: exactly the caller's groups (sorting by creation time is not
      modelled). */
  function ListGroups(db: Store, caller: Caller): (r: map<Id, Group>)
    reads db
    ensures forall id :: id in r <==> OwnedBy(db.groups, id, caller.userId)
    ensures forall id :: id in r ==> id in db.groups && r[id] == db.groups[id]
  {
    map id | id in db.groups && db.groups[id].userId == caller.userId :: db.groups[id]
  }

  /** DELETE /:id. Only the owner's group is removed; otherwise 404. Notes
      are never removed, so other groups and the deleted group's notes stay
      as they were. */
  method Delete(db: Store, caller: Caller, id: Id) returns (r: Status<()>)
    requires db.Valid()
    modifies db
    ensures db.Valid()
    ensures !OwnedBy(old(db.groups), id, caller.userId) ==>
              r == NotFound404("Group not found") && unchanged(db)
    ensures OwnedBy(old(db.groups), id, caller.userId) ==>
              r == Ok(()) && db.groups == old(db.groups) - {id} &&
              db.notes == old(db.notes) && db.users == old(db.users) && db.nextId == old(db.nextId)
  {
    if !OwnedBy(db.groups, id, caller.userId) {
      return NotFound404("Group not found");
    }
    db.groups := db.groups - {id};
    r := Ok(());
  }
}
