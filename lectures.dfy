/** The lecture-recording handlers of the REST server: listing, listing by
    module, lookup, create, update and delete, over one table. Unlike notes,
    a recording is visible to its owner only. */
module LecturesController {
  import opened Js
  import opened Seqs
  import opened Tables

  type LectureId = nat

  /** A row of the lecture-recording table. `recordedAt` and `createdAt` are
      millisecond timestamps. */
  datatype Lecture = Lecture(
    id: LectureId,
    moduleName: string,
    title: string,
    recordingUrl: string,
    description: Option<string>,
    recordedAt: int,
    userId: UserId,
    createdAt: int)

  /** The JSON body of a create or update request. `recordedAt` is the date
      text that the handler hands to `new Date`. */
  datatype LectureBody = LectureBody(
    moduleName: Option<string>,
    title: Option<string>,
    recordingUrl: Option<string>,
    description: Nullable,
    recordedAt: Option<string>)

  function LectureKey(l: Lecture): nat
  {
    l.id
  }

  /** `orderBy: [{ recordedAt: 'desc' }, { createdAt: 'desc' }]`. */
  predicate RecentFirst(a: Lecture, b: Lecture)
  {
    a.recordedAt > b.recordedAt || (a.recordedAt == b.recordedAt && a.createdAt >= b.createdAt)
  }

  /** `orderBy: { recordedAt: 'desc' }`. */
  predicate RecordedLater(a: Lecture, b: Lecture)
  {
    a.recordedAt >= b.recordedAt
  }

  lemma RecentFirstIsPreorder()
    ensures TotalPreorder(RecentFirst)
  {
  }

  lemma RecordedLaterIsPreorder()
    ensures TotalPreorder(RecordedLater)
  {
  }

  /** What `create` stores for `description`: the value given, or nothing when
      it is `undefined` or `null`. */
  function StoredDescription(d: Nullable): (r: Option<string>)
    ensures d.Text? <==> r.Some?
    ensures d.Text? ==> r.value == d.text
  {
    if d.Text? then Some(d.text) else None
  }

  /** All four required fields are truthy. */
  predicate Complete(body: LectureBody)
  {
    Truthy(body.moduleName) && Truthy(body.title) && Truthy(body.recordingUrl) && Truthy(body.recordedAt)
  }

  /** The data of an update: `||` for moduleName, title and recordingUrl, a truthy
      test for recordedAt, and `!== undefined` for description. `parseDate` is
      `new Date(...)`, turned into a timestamp. */
  function MergeLecture(existing: Lecture, body: LectureBody, parseDate: string -> int): (l: Lecture)
    ensures l.id == existing.id && l.userId == existing.userId && l.createdAt == existing.createdAt
    ensures Truthy(body.moduleName) ==> l.moduleName == body.moduleName.value
    ensures !Truthy(body.moduleName) ==> l.moduleName == existing.moduleName
    ensures Truthy(body.title) ==> l.title == body.title.value
    ensures !Truthy(body.title) ==> l.title == existing.title
    ensures Truthy(body.recordingUrl) ==> l.recordingUrl == body.recordingUrl.value
    ensures !Truthy(body.recordingUrl) ==> l.recordingUrl == existing.recordingUrl
    ensures Truthy(body.recordedAt) ==> l.recordedAt == parseDate(body.recordedAt.value)
    ensures !Truthy(body.recordedAt) ==> l.recordedAt == existing.recordedAt
    ensures body.description.Undefined? ==> l.description == existing.description
    ensures body.description.Null? ==> l.description.None?
    ensures body.description.Text? ==> l.description == Some(body.description.text)
  {
    existing.(
      moduleName := Or(body.moduleName, existing.moduleName),
      title := Or(body.title, existing.title),
      recordingUrl := Or(body.recordingUrl, existing.recordingUrl),
      description := if body.description.Undefined? then existing.description else StoredDescription(body.description),
      recordedAt := if Truthy(body.recordedAt) then parseDate(body.recordedAt.value) else existing.recordedAt)
  }

  /** An update that supplies no field leaves the row as it was. */
  lemma MergeLectureEmptyBody(existing: Lecture, parseDate: string -> int)
    ensures MergeLecture(existing, LectureBody(None, None, None, Undefined, None), parseDate) == existing
  {
  }

  /** Repeating the same update has no further effect. */
  lemma MergeLectureIdempotent(existing: Lecture, body: LectureBody, parseDate: string -> int)
    ensures MergeLecture(MergeLecture(existing, body, parseDate), body, parseDate) == MergeLecture(existing, body, parseDate)
  {
  }

  /** An explicit empty description overwrites the old one, unlike an empty title. */
  lemma EmptyDescriptionOverwrites(existing: Lecture, parseDate: string -> int)
    requires existing.description != Some("") && existing.title != ""
    ensures var l := MergeLecture(existing, LectureBody(None, Some(""), None, Text(""), None), parseDate);
      l.description == Some("") && l.title == existing.title
  {
  }

  class LectureDb {
    var lectures: map<LectureId, Lecture>
    var nextId: nat

    ghost predicate Valid()
      reads this
    {
      forall k :: k in lectures ==> lectures[k].id == k && k < nextId
    }

    constructor ()
      ensures Valid()
      ensures lectures == map[] && nextId == 0
    {
      lectures, nextId := map[], 0;
    }

    /** `getLectureRecordings`: the requester's rows, latest recording first,
        latest creation first among equal recording times. */
    function GetLectureRecordings(user: UserId): (r: seq<Lecture>)
      reads this
      requires Valid()
      ensures NoDuplicates(r)
      ensures forall l :: l in r <==> l.id in lectures && lectures[l.id] == l && l.userId == user
      ensures Sorted(r, RecentFirst)
    {
      assert TotalPreorder(RecentFirst) by { RecentFirstIsPreorder(); }
      assert Keyed(lectures, LectureKey, nextId);
      var mine := Filter(Rows(lectures, LectureKey, nextId), (l: Lecture) => l.userId == user);
      var r := Sort(mine, RecentFirst);
      SortKeepsMembers(mine, RecentFirst);
      r
    }

    /** `getLectureRecordingsByModule`: the requester's rows of one module,
        latest recording first. */
    function GetLectureRecordingsByModule(user: UserId, moduleName: string): (r: seq<Lecture>)
      reads this
      requires Valid()
      ensures NoDuplicates(r)
      ensures forall l :: l in r <==>
        l.id in lectures && lectures[l.id] == l && l.userId == user && l.moduleName == moduleName
      ensures Sorted(r, RecordedLater)
    {
      assert TotalPreorder(RecordedLater) by { RecordedLaterIsPreorder(); }
      assert Keyed(lectures, LectureKey, nextId);
      var mine := Filter(Rows(lectures, LectureKey, nextId),
        (l: Lecture) => l.userId == user && l.moduleName == moduleName);
      var r := Sort(mine, RecordedLater);
      SortKeepsMembers(mine, RecordedLater);
      r
    }

    /** `getLectureRecordingById`: 404 before 403, and 403 for anyone but the owner. */
    function GetLectureRecordingById(id: LectureId, user: UserId): (r: Response<Lecture>)
      reads this
      ensures r.NotFound? <==> id !in lectures
      ensures r.Forbidden? <==> id in lectures && lectures[id].userId != user
      ensures r.Ok? <==> id in lectures && lectures[id].userId == user
      ensures r.Ok? ==> r.body == lectures[id]
    {
      if id !in lectures then NotFound("Lecture recording not found")
      else if lectures[id].userId != user then
        Forbidden("Not authorized to access this lecture recording")
      else Ok(lectures[id])
    }

    /** `createLectureRecording`: 400 unless the four required fields are
        truthy; otherwise a new row owned by the requester. */
    method CreateLectureRecording(user: UserId, body: LectureBody, now: int, parseDate: string -> int)
      returns (r: Response<Lecture>)
      requires Valid()
      modifies this
      ensures Valid()
      ensures r.BadRequest? <==> !Complete(body)
      ensures r.BadRequest? ==> lectures == old(lectures) && nextId == old(nextId)
      ensures !r.BadRequest? ==> r.Created?
      ensures r.Created? ==>
        var l := r.body;
        && l.id == old(nextId) && old(nextId) !in old(lectures) && nextId == old(nextId) + 1
        && lectures == old(lectures)[l.id := l]
        && l.moduleName == body.moduleName.value && l.title == body.title.value
        && l.recordingUrl == body.recordingUrl.value
        && l.recordedAt == parseDate(body.recordedAt.value)
        && l.description == StoredDescription(body.description)
        && l.userId == user && l.createdAt == now
      ensures r.Created? ==> GetLectureRecordingById(r.body.id, user) == Ok(r.body)
    {
      if !Complete(body) {
        return BadRequest("Please provide module name, title, recording URL, and recorded date");
      }
      var l := Lecture(nextId, body.moduleName.value, body.title.value, body.recordingUrl.value,
        StoredDescription(body.description), parseDate(body.recordedAt.value), user, now);
      lectures := lectures[nextId := l];
      nextId := nextId + 1;
      r := Created(l);
    }

    /** `updateLectureRecording`: 404 before 403; for the owner, the merged row. */
    method UpdateLectureRecording(id: LectureId, user: UserId, body: LectureBody, parseDate: string -> int)
      returns (r: Response<Lecture>)
      requires Valid()
      modifies this
      ensures Valid()
      ensures nextId == old(nextId)
      ensures r.NotFound? <==> id !in old(lectures)
      ensures r.Forbidden? <==> id in old(lectures) && old(lectures[id]).userId != user
      ensures r.IsError() ==> lectures == old(lectures)
      ensures !r.IsError() ==> r.Ok?
      ensures r.Ok? <==> id in old(lectures) && old(lectures[id]).userId == user
      ensures r.Ok? ==>
        && id in old(lectures)
        && r.body == MergeLecture(old(lectures[id]), body, parseDate)
        && lectures == old(lectures)[id := r.body]
      ensures r.Ok? ==> GetLectureRecordingById(id, user) == Ok(r.body)
    {
      if id !in lectures {
        return NotFound("Lecture recording not found");
      }
      if lectures[id].userId != user {
        return Forbidden("Not authorized to update this lecture recording");
      }
      var l := MergeLecture(lectures[id], body, parseDate);
      lectures := lectures[id := l];
      r := Ok(l);
    }

    /** `deleteLectureRecording`: 404 before 403; the owner's delete removes
        that row and no other. */
    method DeleteLectureRecording(id: LectureId, user: UserId) returns (r: Response<string>)
      requires Valid()
      modifies this
      ensures Valid()
      ensures nextId == old(nextId)
      ensures r.NotFound? <==> id !in old(lectures)
      ensures r.Forbidden? <==> id in old(lectures) && old(lectures[id]).userId != user
      ensures r.Ok? <==> id in old(lectures) && old(lectures[id]).userId == user
      ensures r.Ok? ==> lectures == old(lectures) - {id}
      ensures r.IsError() ==> lectures == old(lectures)
      ensures r.Ok? ==> GetLectureRecordingById(id, user).NotFound?
    {
      if id !in lectures {
        return NotFound("Lecture recording not found");
      }
      if lectures[id].userId != user {
        return Forbidden("Not authorized to delete this lecture recording");
      }
      lectures := lectures - {id};
      r := Ok("Lecture recording deleted successfully");
    }
  }
}
