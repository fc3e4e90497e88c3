/** The note handlers of the REST server: listing, public listing, lookup,
    create, update and delete, over a note table and a tag table. */
module NotesController {
  import opened Js
  import opened Seqs
  import opened Tables

  type NoteId = nat
  /** A tag's id is its position in the tag table. */
  type TagId = nat

  /** A row of the note table; `tagIds` is the note's side of the note/tag relation. */
  datatype Note = Note(
    id: NoteId,
    title: string,
    content: string,
    isPublic: bool,
    userId: UserId,
    tagIds: set<TagId>,
    createdAt: int,
    updatedAt: int)

  /** The JSON body of a create or update request. */
  datatype NoteBody = NoteBody(
    title: Option<string>,
    content: Option<string>,
    isPublic: Option<bool>,
    tags: Option<seq<string>>)

  function NoteKey(n: Note): nat
  {
    n.id
  }

  /** `orderBy: { updatedAt: 'desc' }`. */
  predicate UpdatedLater(a: Note, b: Note)
  {
    a.updatedAt >= b.updatedAt
  }

  lemma UpdatedLaterIsPreorder()
    ensures TotalPreorder(UpdatedLater)
  {
  }

  /** A note is readable by its owner and, when public, by anyone. */
  predicate CanRead(n: Note, user: UserId)
  {
    n.userId == user || n.isPublic
  }

  /** The tag names a request supplies; an absent list supplies none. */
  function TagList(tags: Option<seq<string>>): seq<string>
  {
    if tags.Some? then tags.value else []
  }

  /** The `title || existing.title`, `content || existing.content`,
      `isPublic !== undefined ? isPublic : existing.isPublic` merge of an update. */
  function MergeNote(existing: Note, body: NoteBody, now: int): (n: Note)
    ensures n.id == existing.id && n.userId == existing.userId
    ensures n.createdAt == existing.createdAt && n.tagIds == existing.tagIds
    ensures n.updatedAt == now
    ensures Truthy(body.title) ==> n.title == body.title.value
    ensures !Truthy(body.title) ==> n.title == existing.title
    ensures Truthy(body.content) ==> n.content == body.content.value
    ensures !Truthy(body.content) ==> n.content == existing.content
    ensures body.isPublic.Some? ==> n.isPublic == body.isPublic.value
    ensures body.isPublic.None? ==> n.isPublic == existing.isPublic
  {
    existing.(
      title := Or(body.title, existing.title),
      content := Or(body.content, existing.content),
      isPublic := if body.isPublic.Some? then body.isPublic.value else existing.isPublic,
      updatedAt := now)
  }

  /** An update that supplies no field changes nothing but the update time. */
  lemma MergeNoteEmptyBody(existing: Note, now: int)
    ensures MergeNote(existing, NoteBody(None, None, None, None), now) == existing.(updatedAt := now)
  {
  }

  /** Merging is idempotent: repeating the same update at the same time has no further effect. */
  lemma MergeNoteIdempotent(existing: Note, body: NoteBody, now: int)
    ensures MergeNote(MergeNote(existing, body, now), body, now) == MergeNote(existing, body, now)
  {
  }

  /** The tag `findFirst({ where: { name } })` returns: the first one with that name. */
  function IndexOf(table: seq<string>, name: string): (i: TagId)
    requires name in table
    ensures i < |table| && table[i] == name && name !in table[..i]
  {
    if table[0] == name then 0
    else
      var i := 1 + IndexOf(table[1..], name);
      assert table[..i] == [table[0]] + table[1..][..i - 1];
      i
  }

  /** The first position of a name is the only position with no earlier occurrence. */
  lemma IndexOfUnique(table: seq<string>, name: string, i: nat)
    requires i < |table| && table[i] == name && name !in table[..i]
    ensures IndexOf(table, name) == i
  {
  }

  /** Appending to the tag table does not move the first occurrence of a name already in it. */
  lemma IndexOfPrefix(table: seq<string>, longer: seq<string>, name: string)
    requires |table| <= |longer| && longer[..|table|] == table
    requires name in table
    ensures name in longer && IndexOf(longer, name) == IndexOf(table, name)
  {
    var i := IndexOf(table, name);
    assert longer[i] == name;
    assert longer[..i] == table[..i];
    IndexOfUnique(longer, name, i);
  }

  /** One turn of the tag loop on the tag table: `findFirst({ where: { name } })`,
      then `create({ data: { name } })` when nothing is found. Gives the table
      afterwards and the id of the tag found or created. */
  function FindOrCreate(table: seq<string>, name: string): (r: (seq<string>, TagId))
    ensures name in table ==> r.0 == table
    ensures name !in table ==> r.0 == table + [name]
    ensures name in r.0 && r.1 == IndexOf(r.0, name)
  {
    if name in table then (table, IndexOf(table, name))
    else
      var t := table + [name];
      assert t[..|table|] == table;
      IndexOfUnique(t, name, |table|);
      (t, |table|)
  }

  /** The tag table after the loop has run over `names`: a missing name is
      appended, a present one is reused. */
  function AddNames(table: seq<string>, names: seq<string>): (r: seq<string>)
    ensures |table| <= |r| && r[..|table|] == table
    ensures forall n :: n in names ==> n in r
    decreases |names|
  {
    if names == [] then table
    else
      var t := FindOrCreate(table, names[0]).0;
      var r := AddNames(t, names[1..]);
      assert r[..|table|] == r[..|t|][..|table|];
      assert forall n :: n in names ==> n == names[0] || n in names[1..];
      assert names[0] in r by {
        assert r[IndexOf(t, names[0])] == names[0];
      }
      r
  }

  /** The ids of the tags the loop connects to the note, one per turn. */
  function Connected(table: seq<string>, names: seq<string>): set<TagId>
    decreases |names|
  {
    if names == [] then {}
    else
      var step := FindOrCreate(table, names[0]);
      {step.1} + Connected(step.0, names[1..])
  }

  /** Find-or-create never creates a tag whose name is already in the table, so a
      duplicate-free tag table stays duplicate-free. */
  lemma {:induction false} AddNamesCreatesOnlyMissing(table: seq<string>, names: seq<string>)
    ensures forall i :: |table| <= i < |AddNames(table, names)| ==>
      AddNames(table, names)[i] in names && AddNames(table, names)[i] !in table
    ensures NoDuplicates(table) ==> NoDuplicates(AddNames(table, names))
    decreases |names|
  {
    if names != [] {
      var t := FindOrCreate(table, names[0]).0;
      var r := AddNames(t, names[1..]);
      AddNamesCreatesOnlyMissing(t, names[1..]);
      assert forall n :: n in names[1..] ==> n in names;
      if names[0] in table {
        assert t == table;
      } else {
        assert t == table + [names[0]];
        if NoDuplicates(table) {
          AppendFreshName(table, names[0]);
        }
        forall i | |table| <= i < |r| ensures r[i] in names && r[i] !in table {
          if i < |t| {
            assert r[i] == r[..|t|][i] == names[0];
          } else {
            assert r[i] !in t;
          }
        }
      }
    }
  }

  /** Appending a name the table lacks keeps it duplicate-free. */
  lemma AppendFreshName(table: seq<string>, name: string)
    requires NoDuplicates(table) && name !in table
    ensures NoDuplicates(table + [name])
  {
    var t := table + [name];
    assert forall i :: 0 <= i < |table| ==> t[i] == table[i];
  }

  /** The connected tags are the first tags carrying the given names: each one
      has a given name, and each given name has its tag connected. */
  lemma {:induction false} ConnectedNames(table: seq<string>, names: seq<string>)
    ensures forall t :: t in Connected(table, names) ==>
      t < |AddNames(table, names)| && AddNames(table, names)[t] in names
    ensures forall n :: n in names ==>
      n in AddNames(table, names) && IndexOf(AddNames(table, names), n) in Connected(table, names)
    decreases |names|
  {
    if names != [] {
      var step := FindOrCreate(table, names[0]);
      var r := AddNames(step.0, names[1..]);
      ConnectedNames(step.0, names[1..]);
      assert forall n :: n in names ==> n == names[0] || n in names[1..];
      assert r[step.1] == r[..|step.0|][step.1] == names[0];
      IndexOfPrefix(step.0, r, names[0]);
    }
  }

  /** The note table with the tag set of note `id` replaced by `ids`. */
  function Retag(m: map<NoteId, Note>, id: NoteId, ids: set<TagId>): (r: map<NoteId, Note>)
    requires id in m
    ensures id in r && r[id].tagIds == ids
  {
    m[id := m[id].(tagIds := ids)]
  }

  lemma RetagTwice(m: map<NoteId, Note>, id: NoteId, a: set<TagId>, b: set<TagId>)
    requires id in m
    ensures Retag(Retag(m, id, a), id, b) == Retag(m, id, b)
  {
  }

  /** Some tag among `ids` carries `name` in the tag table. */
  ghost predicate HasTagNamed(ids: set<TagId>, table: seq<string>, name: string)
  {
    exists t :: t in ids && t < |table| && table[t] == name
  }

  /** After the tag loop, every given name has a tag of that name connected,
      every connected tag carries a given name, and a duplicate-free tag table
      is still duplicate-free. */
  lemma TagsAttached(table: seq<string>, names: seq<string>)
    ensures forall name :: name in names ==> HasTagNamed(Connected(table, names), AddNames(table, names), name)
    ensures forall t :: t in Connected(table, names) ==>
      t < |AddNames(table, names)| && AddNames(table, names)[t] in names
    ensures NoDuplicates(table) ==> NoDuplicates(AddNames(table, names))
  {
    ConnectedNames(table, names);
    AddNamesCreatesOnlyMissing(table, names);
    forall name | name in names ensures HasTagNamed(Connected(table, names), AddNames(table, names), name) {
      var t := IndexOf(AddNames(table, names), name);
      assert t in Connected(table, names) && t < |AddNames(table, names)| && AddNames(table, names)[t] == name;
    }
  }

  /** The note table, the tag table and the id the next created note receives. */
  class NoteDb {
    var notes: map<NoteId, Note>
    var tags: seq<string>
    var nextId: NoteId

    ghost predicate Valid()
      reads this
    {
      && (forall k :: k in notes ==> notes[k].id == k && k < nextId)
      && (forall k, t :: k in notes && t in notes[k].tagIds ==> t < |tags|)
    }

    constructor ()
      ensures Valid()
      ensures notes == map[] && tags == [] && nextId == 0
    {
      notes, tags, nextId := map[], [], 0;
    }

    /** `getNotes`: the requester's notes, newest update first. */
    function GetNotes(user: UserId): (r: seq<Note>)
      reads this
      requires Valid()
      ensures NoDuplicates(r)
      ensures forall n :: n in r <==> n.id in notes && notes[n.id] == n && n.userId == user
      ensures Sorted(r, UpdatedLater)
    {
      assert TotalPreorder(UpdatedLater) by { UpdatedLaterIsPreorder(); }
      assert Keyed(notes, NoteKey, nextId);
      var mine := Filter(Rows(notes, NoteKey, nextId), (n: Note) => n.userId == user);
      var r := Sort(mine, UpdatedLater);
      SortKeepsMembers(mine, UpdatedLater);
      r
    }

    /** `getPublicNotes`: every public note, whoever owns it, newest update first. */
    function GetPublicNotes(): (r: seq<Note>)
      reads this
      requires Valid()
      ensures NoDuplicates(r)
      ensures forall n :: n in r <==> n.id in notes && notes[n.id] == n && n.isPublic
      ensures Sorted(r, UpdatedLater)
    {
      assert TotalPreorder(UpdatedLater) by { UpdatedLaterIsPreorder(); }
      assert Keyed(notes, NoteKey, nextId);
      var mine := Filter(Rows(notes, NoteKey, nextId), (n: Note) => n.isPublic);
      var r := Sort(mine, UpdatedLater);
      SortKeepsMembers(mine, UpdatedLater);
      r
    }

    /** `getNoteById`: 404 before 403, and 403 only for a private note of someone else. */
    function GetNoteById(id: NoteId, user: UserId): (r: Response<Note>)
      reads this
      ensures r.NotFound? <==> id !in notes
      ensures r.Forbidden? <==> id in notes && !CanRead(notes[id], user)
      ensures r.Ok? <==> id in notes && CanRead(notes[id], user)
      ensures r.Ok? ==> r.body == notes[id]
    {
      if id !in notes then NotFound("Note not found")
      else if notes[id].userId != user && !notes[id].isPublic then
        Forbidden("Not authorized to access this note")
      else Ok(notes[id])
    }

    /** One turn of the tag loop, on the tag table. */
    method FindOrCreateTag(name: string) returns (tagId: TagId)
      requires Valid()
      modifies this`tags
      ensures Valid()
      ensures (tags, tagId) == FindOrCreate(old(tags), name)
    {
      if name in tags {
        tagId := IndexOf(tags, name);
      } else {
        tagId := |tags|;
        tags := tags + [name];
      }
    }

    /** `note.update({ data: { tags: { connect: { id: tagId } } } })`. */
    method ConnectTag(id: NoteId, tagId: TagId)
      requires Valid() && id in notes && tagId < |tags|
      modifies this`notes
      ensures Valid()
      ensures notes == Retag(old(notes), id, old(notes[id].tagIds) + {tagId})
    {
      notes := notes[id := notes[id].(tagIds := notes[id].tagIds + {tagId})];
    }

    /** The `for (const tagName of tags)` loop: find or create each tag and connect it to note `id`. */
    method AttachTags(id: NoteId, names: seq<string>)
      requires Valid() && id in notes
      modifies this
      ensures Valid()
      ensures nextId == old(nextId)
      ensures tags == AddNames(old(tags), names)
      ensures notes == Retag(old(notes), id, old(notes[id].tagIds) + Connected(old(tags), names))
    {
      ghost var start := notes[id];
      ghost var table := notes;
      RetagTwice(table, id, start.tagIds, start.tagIds);
      assert Retag(table, id, start.tagIds) == table;
      var i := 0;
      while i < |names|
        invariant 0 <= i <= |names|
        invariant Valid() && nextId == old(nextId) && id in notes
        invariant notes == Retag(table, id, notes[id].tagIds)
        invariant AddNames(tags, names[i..]) == AddNames(old(tags), names)
        invariant notes[id].tagIds + Connected(tags, names[i..]) == start.tagIds + Connected(old(tags), names)
      {
        assert names[i..][0] == names[i] && names[i..][1..] == names[i + 1..];
        var tagId := FindOrCreateTag(names[i]);
        RetagTwice(table, id, notes[id].tagIds, notes[id].tagIds + {tagId});
        ConnectTag(id, tagId);
        i := i + 1;
      }
      assert names[i..] == [];
      assert Connected(tags, []) == {};
      assert notes[id].tagIds == start.tagIds + Connected(old(tags), names);
    }

    /** `createNote`: 400 without a truthy title and content, otherwise a new
        row owned by the requester, with every supplied tag attached. */
    method CreateNote(user: UserId, body: NoteBody, now: int) returns (r: Response<Note>)
      requires Valid()
      modifies this
      ensures Valid()
      ensures r.BadRequest? <==> !Truthy(body.title) || !Truthy(body.content)
      ensures r.BadRequest? ==> notes == old(notes) && tags == old(tags) && nextId == old(nextId)
      ensures !r.BadRequest? ==> r.Created?
      ensures r.Created? ==>
        var n := r.body;
        && n.id == old(nextId) && old(nextId) !in old(notes) && nextId == old(nextId) + 1
        && notes == old(notes)[n.id := n]
        && n.title == body.title.value && n.content == body.content.value
        && n.isPublic == (body.isPublic == Some(true))
        && n.userId == user && n.createdAt == now && n.updatedAt == now
        && tags == AddNames(old(tags), TagList(body.tags))
        && n.tagIds == Connected(old(tags), TagList(body.tags))
      ensures r.Created? ==> forall name :: name in TagList(body.tags) ==> HasTagNamed(r.body.tagIds, tags, name)
      ensures r.Created? ==> forall t :: t in r.body.tagIds ==> t < |tags| && tags[t] in TagList(body.tags)
      ensures r.Created? ==> GetNoteById(r.body.id, user) == Ok(r.body)
      ensures NoDuplicates(old(tags)) ==> NoDuplicates(tags)
    {
      if !Truthy(body.title) || !Truthy(body.content) {
        return BadRequest("Please provide title and content");
      }
      var n := InsertNote(user, body.title.value, body.content.value, body.isPublic == Some(true), TagList(body.tags), now);
      r := Created(n);
      TagsAttached(old(tags), TagList(body.tags));
    }

    /** The validated path of `createNote`: the new row under the next id, then,
        for a non-empty tag list, the tag loop. */
    method InsertNote(user: UserId, title: string, content: string, isPublic: bool, names: seq<string>, now: int)
      returns (n: Note)
      requires Valid()
      modifies this
      ensures Valid()
      ensures old(nextId) !in old(notes) && nextId == old(nextId) + 1
      ensures notes == old(notes)[n.id := n]
      ensures tags == AddNames(old(tags), names)
      ensures n == Note(old(nextId), title, content, isPublic, user, Connected(old(tags), names), now, now)
    {
      var id := nextId;
      notes := notes[id := Note(id, title, content, isPublic, user, {}, now, now)];
      nextId := nextId + 1;
      if |names| > 0 {
        AttachTags(id, names);
      }
      n := notes[id];
    }

    /** The owner's path of `updateNote`: write the merged row, then, for a
        non-empty tag list, clear the note's tags with `set: []` and run the tag loop. */
    method ApplyUpdate(id: NoteId, body: NoteBody, now: int) returns (n: Note)
      requires Valid() && id in notes
      modifies this
      ensures Valid()
      ensures nextId == old(nextId)
      ensures notes == old(notes)[id := n]
      ensures tags == AddNames(old(tags), TagList(body.tags))
      ensures n == MergeNote(old(notes[id]), body, now).(
        tagIds := if |TagList(body.tags)| > 0 then Connected(old(tags), TagList(body.tags)) else old(notes[id].tagIds))
    {
      notes := notes[id := MergeNote(notes[id], body, now)];
      var names := TagList(body.tags);
      if |names| > 0 {
        notes := notes[id := notes[id].(tagIds := {})];
        AttachTags(id, names);
      }
      n := notes[id];
    }

    /** `updateNote`: 404 before 403; for the owner, the merged row, and the
        tag set replaced only when a non-empty list is supplied. */
    method UpdateNote(id: NoteId, user: UserId, body: NoteBody, now: int) returns (r: Response<Note>)
      requires Valid()
      modifies this
      ensures Valid()
      ensures r.NotFound? <==> id !in old(notes)
      ensures r.Forbidden? <==> id in old(notes) && old(notes[id]).userId != user
      ensures r.IsError() ==> notes == old(notes) && tags == old(tags) && nextId == old(nextId)
      ensures !r.IsError() ==> r.Ok?
      ensures r.Ok? <==> id in old(notes) && old(notes[id]).userId == user
      ensures r.Ok? ==>
        var names := TagList(body.tags);
        && id in old(notes) && nextId == old(nextId)
        && notes == old(notes)[id := r.body]
        && tags == AddNames(old(tags), names)
        && r.body == MergeNote(old(notes[id]), body, now).(
             tagIds := if |names| > 0 then Connected(old(tags), names) else old(notes[id].tagIds))
      ensures r.Ok? && |TagList(body.tags)| > 0 ==>
        forall name :: name in TagList(body.tags) ==> HasTagNamed(r.body.tagIds, tags, name)
      ensures r.Ok? && |TagList(body.tags)| > 0 ==>
        forall t :: t in r.body.tagIds ==> t < |tags| && tags[t] in TagList(body.tags)
      ensures r.Ok? ==> GetNoteById(id, user) == Ok(r.body)
      ensures NoDuplicates(old(tags)) ==> NoDuplicates(tags)
    {
      if id !in notes {
        return NotFound("Note not found");
      }
      if notes[id].userId != user {
        return Forbidden("Not authorized to update this note");
      }
      var n := ApplyUpdate(id, body, now);
      r := Ok(n);
      TagsAttached(old(tags), TagList(body.tags));
    }

    /** `deleteNote`: 404 before 403; the owner's delete removes that row and no other. */
    method DeleteNote(id: NoteId, user: UserId) returns (r: Response<string>)
      requires Valid()
      modifies this
      ensures Valid()
      ensures r.NotFound? <==> id !in old(notes)
      ensures r.Forbidden? <==> id in old(notes) && old(notes[id]).userId != user
      ensures r.Ok? <==> id in old(notes) && old(notes[id]).userId == user
      ensures r.Ok? ==> notes == old(notes) - {id}
      ensures r.IsError() ==> notes == old(notes)
      ensures tags == old(tags) && nextId == old(nextId)
      ensures r.Ok? ==> GetNoteById(id, user).NotFound?
    {
      if id !in notes {
        return NotFound("Note not found");
      }
      if notes[id].userId != user {
        return Forbidden("Not authorized to delete this note");
      }
      notes := notes - {id};
      r := Ok("Note deleted successfully");
    }
  }

  /** Deleting the same note twice: once the first delete succeeds, the second finds nothing. */
  method DeleteTwice(db: NoteDb, id: NoteId, user: UserId) returns (first: Response<string>, second: Response<string>)
    requires db.Valid()
    modifies db
    ensures first.Ok? ==> second.NotFound?
  {
    first := db.DeleteNote(id, user);
    second := db.DeleteNote(id, user);
  }
}
