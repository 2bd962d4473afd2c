/** The persistence layer as one in-memory store: the notes, groups and
    users collections keyed by id, and the supply of fresh ids. */
module Db {
  import opened Common
  import opened Models
  import opened ShareCode

  /** What the Group schema guarantees of a saved group in a store whose
      fresh ids start at `bound`: a trimmed non-empty title, references to
      ids that have been handed out (they may since have been deleted), and a
      well-formed share code when there is one. */
  ghost predicate GroupValid(g: Group, bound: nat)
  {
    GroupTitleValid(g) &&
    (forall i :: 0 <= i < |g.notes| ==> g.notes[i] < bound) &&
    (g.shareCode.Some? ==> IsShareCode(g.shareCode.value))
  }

  /** The sparse unique index on `shareCode`: groups without a code are not
      constrained, two groups never share one. */
  ghost predicate CodesUnique(groups: map<Id, Group>)
  {
    forall a, b :: a in groups && b in groups && a != b && groups[a].shareCode.Some? ==>
      groups[a].shareCode != groups[b].shareCode
  }

  /** `Group.findOne({ shareCode: code })` finds a group. */
  predicate CodeHeld(groups: map<Id, Group>, code: string)
  {
    exists g :: g in groups && groups[g].shareCode == Some(code)
  }

  /** Under the unique index, a code that is held is held by exactly one
      group, so `findOne` by code is unambiguous. */
  lemma CodeHeldByOne(groups: map<Id, Group>, code: string)
    requires CodesUnique(groups) && CodeHeld(groups, code)
    ensures exists g :: g in groups && groups[g].shareCode == Some(code) &&
              forall h :: h in groups && groups[h].shareCode == Some(code) ==> h == g
  {
    var g :| g in groups && groups[g].shareCode == Some(code);
    assert forall h :: h in groups && groups[h].shareCode == Some(code) ==> h == g;
  }

  /** No two users share an email or a username. */
  ghost predicate UsersUnique(users: map<Id, User>)
  {
    forall a, b :: a in users && b in users && a != b ==>
      users[a].email != users[b].email && users[a].username != users[b].username
  }

  class Store {
    var notes: map<Id, Note>
    var groups: map<Id, Group>
    var users: map<Id, User>
    var nextId: nat

    /** The store invariant; in particular the next id is free in every
        collection. */
    ghost predicate Valid()
      reads this
      ensures Valid() ==> nextId !in notes && nextId !in groups && nextId !in users
    {
      (forall id :: id in notes ==> id < nextId && NoteValid(notes[id])) &&
      (forall id :: id in groups ==> id < nextId && GroupValid(groups[id], nextId)) &&
      (forall id :: id in users ==> id < nextId) &&
      CodesUnique(groups) &&
      UsersUnique(users)
    }

    /** An empty database. */
    constructor ()
      ensures Valid()
      ensures notes == map[] && groups == map[] && users == map[] && nextId == 0
    {
      notes, groups, users, nextId := map[], map[], map[], 0;
    }

    /** A new document id, distinct from every id handed out before. */
    method FreshId() returns (id: Id)
      modifies this`nextId
      ensures id == old(nextId) && nextId == id + 1
      ensures old(Valid()) ==> id !in notes && id !in groups && id !in users
    {
      id := nextId;
      nextId := nextId + 1;
    }
  }

  /** A group reference that stays below the id bound stays below a larger
      one, so growing the id supply keeps every group valid. */
  lemma GroupValidMonotone(g: Group, b0: nat, b1: nat)
    requires GroupValid(g, b0) && b0 <= b1
    ensures GroupValid(g, b1)
  {
  }
}
