/** The course endpoints of backend/main.py: `get_my_courses`,
    `get_course_detail`, `complete_module` and `delete_course`, each over the
    course collection and the id of the user the bearer token names. */
module CourseApi {
  import opened Wrappers
  import opened CourseModel
  import opened ObjectIds
  import opened CourseCollection

  /** An endpoint's outcome: a body, or the status and detail of the
      `HTTPException` it raises. */
  datatype Response<T> = Ok(body: T) | HttpError(status: int, detail: string)

  /** The `CourseOut` response model: `_id` rendered as a string, then the
      title, the modules and the owner. */
  datatype CourseOut = CourseOut(id: string, title: string, modules: seq<Module>, userId: string)

  /** The `CourseListItem` response model. */
  datatype CourseListItem = CourseListItem(id: string, courseTitle: string, isCompleted: bool)

  const LIST_LENGTH: nat := 100

  function InvalidId<T>(): Response<T>
  {
    HttpError(400, "Invalid Course ID format")
  }

  function CourseNotFound<T>(): Response<T>
  {
    HttpError(404, "Course not found or access denied")
  }

  function ModuleNotFound<T>(): Response<T>
  {
    HttpError(404, "Course or module not found, or access denied")
  }

  function CompletedMessage(moduleId: string): string
  {
    "Module " + moduleId + " successfully marked as complete."
  }

  const DELETED_MESSAGE := "Course successfully deleted."

  function OwnedBy(user: string): Filter
  {
    Filter(None, Some(user), None, false)
  }

  function CourseOf(oid: ObjectId, user: string): Filter
  {
    Filter(Some(oid), Some(user), None, false)
  }

  function ModuleOf(oid: ObjectId, user: string, moduleId: string): Filter
  {
    Filter(Some(oid), Some(user), Some(moduleId), false)
  }

  function ToCourseOut(d: CourseDoc): CourseOut
  {
    CourseOut(ToHex(d.id), d.title, d.modules, d.userId)
  }

  /** A listed course: its id, its title and its completion flag. */
  function ToListItem(d: CourseDoc): CourseListItem
  {
    CourseListItem(ToHex(d.id), d.title, d.isCompleted)
  }

  // ---------------------------------------------------------------------
  // GET /api/courses/my
  // ---------------------------------------------------------------------

  /** The caller's courses, at most 100 of them, in collection order. */
  method GetMyCourses(c: Collection, user: string) returns (r: seq<CourseListItem>)
    ensures |r| <= LIST_LENGTH
    ensures |r| == if |Filtered(c.docs, OwnedBy(user))| < LIST_LENGTH then |Filtered(c.docs, OwnedBy(user))| else LIST_LENGTH
    ensures forall i :: 0 <= i < |r| ==>
      var d := Filtered(c.docs, OwnedBy(user))[i];
      d in c.docs && d.userId == user && r[i] == ToListItem(d)
    ensures |r| < LIST_LENGTH ==>
      forall d :: d in c.docs && d.userId == user ==> ToListItem(d) in r
  {
    var found := c.Find(OwnedBy(user), LIST_LENGTH);
    FilteredMembers(c.docs, OwnedBy(user));
    r := seq(|found|, i requires 0 <= i < |found| => ToListItem(found[i]));
    var owned := Filtered(c.docs, OwnedBy(user));
    forall i | 0 <= i < |r|
      ensures r[i] == ToListItem(owned[i])
    {
      assert found[i] == owned[i];
    }
    if |r| < LIST_LENGTH {
      forall d | d in c.docs && d.userId == user
        ensures ToListItem(d) in r
      {
        assert d in found;
        var i :| 0 <= i < |found| && found[i] == d;
        assert r[i] == ToListItem(d);
      }
    }
    forall i | 0 <= i < |r|
      ensures owned[i] in c.docs && owned[i].userId == user
    {
      assert owned[i] in owned;
    }
  }

  /** Response validation of one stored document against `CourseListItem` as
      declared: the `course_title` key is required. */
  function ListItemAsWritten(d: CourseDoc): Option<CourseListItem>
  {
    if d.courseTitle.Some? then Some(CourseListItem(ToHex(d.id), d.courseTitle.value, d.isCompleted)) else None
  }

  /** `get_my_courses` as written: the up to 100 documents found are
      validated against `List[CourseListItem]`, and one that fails makes the
      whole response an internal server error. */
  function MyCoursesAsWritten(docs: seq<CourseDoc>, user: string): (r: Response<seq<CourseListItem>>)
    ensures r.Ok? <==> forall d :: d in Take(Filtered(docs, OwnedBy(user)), LIST_LENGTH) ==> d.courseTitle.Some?
    ensures r.HttpError? ==> r.status == 500
    ensures r.Ok? ==> |r.body| == |Take(Filtered(docs, OwnedBy(user)), LIST_LENGTH)| <= LIST_LENGTH
    ensures r.Ok? ==> forall i :: 0 <= i < |r.body| ==>
      r.body[i] == ListItemAsWritten(Take(Filtered(docs, OwnedBy(user)), LIST_LENGTH)[i]).value
  {
    var found := Take(Filtered(docs, OwnedBy(user)), LIST_LENGTH);
    if forall i :: 0 <= i < |found| ==> ListItemAsWritten(found[i]).Some? then
      Ok(seq(|found|, i requires 0 <= i < |found| && ListItemAsWritten(found[i]).Some? => ListItemAsWritten(found[i]).value))
    else HttpError(500, "Internal Server Error")
  }

  /** Stored courses carry `title` and never `course_title`, so as written
      the listing fails for every user who owns a course. */
  lemma MyCoursesAsWrittenFailsForOwners(docs: seq<CourseDoc>, user: string, d: CourseDoc)
    requires forall e :: e in docs ==> e.courseTitle.None?
    requires d in docs && d.userId == user
    ensures MyCoursesAsWritten(docs, user) == HttpError(500, "Internal Server Error")
  {
    FilteredMembers(docs, OwnedBy(user));
    var owned := Filtered(docs, OwnedBy(user));
    assert d in owned;
    var found := Take(owned, LIST_LENGTH);
    assert found[0] == owned[0] && owned[0] in docs;
    assert ListItemAsWritten(found[0]).None?;
  }

  // ---------------------------------------------------------------------
  // GET /api/courses/{course_id}
  // ---------------------------------------------------------------------

  /** The course with that id, only when the caller owns it. */
  method GetCourseDetail(c: Collection, courseId: string, user: string) returns (r: Response<CourseOut>)
    ensures !IsValid(courseId) ==> r == InvalidId()
    ensures IsValid(courseId) ==>
      (r.Ok? <==> exists d :: d in c.docs && d.id == Parse(courseId).value && d.userId == user)
    ensures r.Ok? ==> exists d :: (d in c.docs && d.id == Parse(courseId).value && d.userId == user
      && r.body == ToCourseOut(d))
    ensures IsValid(courseId) && r.HttpError? ==> r == CourseNotFound()
  {
    if !IsValid(courseId) {
      return InvalidId();
    }
    var courseDoc := c.FindOne(CourseOf(Parse(courseId).value, user));
    if courseDoc.None? {
      return CourseNotFound();
    }
    return Ok(ToCourseOut(courseDoc.value));
  }

  // ---------------------------------------------------------------------
  // PATCH /api/courses/{course_id}/complete/{module_id}
  // ---------------------------------------------------------------------

  /** The response and the collection after `complete_module`. */
  function CompleteSpec(docs: seq<CourseDoc>, courseId: string, moduleId: string, user: string)
    : (Response<string>, seq<CourseDoc>)
  {
    match Parse(courseId)
    case None => (InvalidId(), docs)
    case Some(oid) =>
      if FirstMatch(docs, ModuleOf(oid, user, moduleId)).None? then (ModuleNotFound(), docs)
      else
        var updated := UpdatedOne(docs, ModuleOf(oid, user, moduleId), SetMatchedModuleCompleted);
        var pending := FirstMatch(updated, Filter(Some(oid), None, None, true));
        var final := if pending.None? then UpdatedOne(updated, Filter(Some(oid), None, None, false), SetCourseCompleted)
                     else updated;
        (Ok(CompletedMessage(moduleId)), final)
  }

  method CompleteModule(c: Collection, courseId: string, moduleId: string, user: string)
    returns (r: Response<string>)
    requires c.Valid()
    modifies c
    ensures c.Valid()
    ensures (r, c.docs) == CompleteSpec(old(c.docs), courseId, moduleId, user)
  {
    if !IsValid(courseId) {
      return InvalidId();
    }
    var oid := Parse(courseId).value;
    var matched := c.UpdateOne(ModuleOf(oid, user, moduleId), SetMatchedModuleCompleted);
    if matched == 0 {
      return ModuleNotFound();
    }
    var pendingModule := c.FindOne(Filter(Some(oid), None, None, true));
    if pendingModule.None? {
      var _ := c.UpdateOne(Filter(Some(oid), None, None, false), SetCourseCompleted);
    }
    return Ok(CompletedMessage(moduleId));
  }

  /** An id that is not 24 hexadecimal characters is refused with 400 and
      the collection is left as it was. */
  lemma CompleteRejectsInvalidId(docs: seq<CourseDoc>, courseId: string, moduleId: string, user: string)
    requires !IsValid(courseId)
    ensures CompleteSpec(docs, courseId, moduleId, user) == (InvalidId(), docs)
  {
  }

  /** When no course with that id is owned by the caller and holds a module
      with that id, the answer is 404 and nothing changes. */
  lemma CompleteNotFound(docs: seq<CourseDoc>, courseId: string, moduleId: string, user: string)
    requires IsValid(courseId)
    requires forall d :: d in docs ==>
      !(d.id == Parse(courseId).value && d.userId == user && HasModule(d.modules, moduleId))
    ensures CompleteSpec(docs, courseId, moduleId, user) == (ModuleNotFound(), docs)
  {
  }

  /** On success only the course hit changes: the first of its modules with
      that id becomes completed, every other module keeps its state, and the
      course becomes completed iff it was already or no module is pending. */
  lemma CompleteSucceeds(docs: seq<CourseDoc>, courseId: string, moduleId: string, user: string, i: nat)
    requires UniqueIds(docs) && IsValid(courseId)
    requires i < |docs| && docs[i].id == Parse(courseId).value && docs[i].userId == user
    requires HasModule(docs[i].modules, moduleId)
    ensures var (r, after) := CompleteSpec(docs, courseId, moduleId, user);
      var ms := docs[i].modules;
      var k := FirstModule(ms, moduleId).value;
      var ms' := ms[k := ms[k].(isCompleted := true)];
      && r == Ok(CompletedMessage(moduleId))
      && |after| == |docs|
      && (forall j :: 0 <= j < |docs| && j != i ==> after[j] == docs[j])
      && after[i] == docs[i].(modules := ms', isCompleted := docs[i].isCompleted || !HasPendingModule(ms'))
  {
    var oid := Parse(courseId).value;
    var target := ModuleOf(oid, user, moduleId);
    assert Matches(docs[i], target);
    var found := FirstMatch(docs, target).value;
    assert found == i;
    var updated := UpdatedOne(docs, target, SetMatchedModuleCompleted);
    var byId := Filter(Some(oid), None, None, false);
    assert Matches(updated[i], byId);
    UpdatedOneKeepsIds(docs, target, SetMatchedModuleCompleted);
    var pending := FirstMatch(updated, Filter(Some(oid), None, None, true));
    if pending.Some? {
      assert pending.value == i;
    } else {
      assert !HasPendingModule(updated[i].modules);
      assert FirstMatch(updated, byId).value == i;
    }
  }

  /** Completing a module that is already completed still succeeds and
      leaves the modules as they were (the endpoint tests the match count,
      not the modification count). */
  lemma CompleteIsIdempotent(docs: seq<CourseDoc>, courseId: string, moduleId: string, user: string, i: nat)
    requires UniqueIds(docs) && IsValid(courseId)
    requires i < |docs| && docs[i].id == Parse(courseId).value && docs[i].userId == user
    requires HasModule(docs[i].modules, moduleId)
    requires docs[i].modules[FirstModule(docs[i].modules, moduleId).value].isCompleted
    ensures CompleteSpec(docs, courseId, moduleId, user).0.Ok?
    ensures CompleteSpec(docs, courseId, moduleId, user).1[i].modules == docs[i].modules
  {
    CompleteSucceeds(docs, courseId, moduleId, user, i);
    var ms := docs[i].modules;
    var k := FirstModule(ms, moduleId).value;
    assert ms[k := ms[k].(isCompleted := true)] == ms;
  }

  /** Nothing is ever un-completed: a completed course, and a completed
      module, stay completed whatever the outcome. */
  lemma CompleteNeverResets(docs: seq<CourseDoc>, courseId: string, moduleId: string, user: string)
    requires UniqueIds(docs)
    ensures var after := CompleteSpec(docs, courseId, moduleId, user).1;
      && |after| == |docs|
      && (forall j :: 0 <= j < |docs| ==> after[j].id == docs[j].id)
      && (forall j :: 0 <= j < |docs| && docs[j].isCompleted ==> after[j].isCompleted)
      && (forall j, k :: 0 <= j < |docs| && 0 <= k < |docs[j].modules| && docs[j].modules[k].isCompleted ==>
            k < |after[j].modules| && after[j].modules[k].isCompleted)
  {
    if IsValid(courseId) {
      var oid := Parse(courseId).value;
      var target := ModuleOf(oid, user, moduleId);
      var m := FirstMatch(docs, target);
      if m.Some? {
        var i := m.value;
        CompleteSucceeds(docs, courseId, moduleId, user, i);
        var after := CompleteSpec(docs, courseId, moduleId, user).1;
        var ms := docs[i].modules;
        var k := FirstModule(ms, moduleId).value;
        assert after[i].modules == ms[k := ms[k].(isCompleted := true)];
      }
    }
  }

  // ---------------------------------------------------------------------
  // DELETE /api/courses/{course_id}
  // ---------------------------------------------------------------------

  /** The response and the collection after `delete_course`. */
  function DeleteSpec(docs: seq<CourseDoc>, courseId: string, user: string): (Response<string>, seq<CourseDoc>)
  {
    match Parse(courseId)
    case None => (InvalidId(), docs)
    case Some(oid) =>
      if FirstMatch(docs, CourseOf(oid, user)).None? then (CourseNotFound(), docs)
      else (Ok(DELETED_MESSAGE), DeletedOne(docs, CourseOf(oid, user)))
  }

  method DeleteCourse(c: Collection, courseId: string, user: string) returns (r: Response<string>)
    requires c.Valid()
    modifies c
    ensures c.Valid()
    ensures (r, c.docs) == DeleteSpec(old(c.docs), courseId, user)
  {
    if !IsValid(courseId) {
      return InvalidId();
    }
    var deleted := c.DeleteOne(CourseOf(Parse(courseId).value, user));
    if deleted == 0 {
      return CourseNotFound();
    }
    return Ok(DELETED_MESSAGE);
  }

  /** `delete_course` answers 400 for a malformed id and 404 when the caller
      owns no course with that id, changing nothing; otherwise it removes
      exactly that course, keeps every other one in order, and the caller's
      listing no longer contains it. */
  lemma DeleteRemovesOnlyTheOwnedCourse(docs: seq<CourseDoc>, courseId: string, user: string)
    requires UniqueIds(docs)
    ensures var (r, after) := DeleteSpec(docs, courseId, user);
      && (!IsValid(courseId) ==> r == InvalidId() && after == docs)
      && (IsValid(courseId) ==>
        var oid := Parse(courseId).value;
        && (r.Ok? <==> exists d :: d in docs && d.id == oid && d.userId == user)
        && (r.HttpError? ==> r == CourseNotFound() && after == docs)
        && (r.Ok? ==> |after| == |docs| - 1)
        && (r.Ok? ==> forall d :: d in after <==> d in docs && d.id != oid)
        && (forall d :: d in Filtered(after, OwnedBy(user)) ==> d.id != oid))
  {
    if IsValid(courseId) {
      var oid := Parse(courseId).value;
      var (r, after) := DeleteSpec(docs, courseId, user);
      var m := FirstMatch(docs, CourseOf(oid, user));
      FilteredMembers(after, OwnedBy(user));
      if m.Some? {
        var i := m.value;
        assert after == docs[..i] + docs[i + 1..];
        RemovedAt(docs, i);
      } else {
        forall d | d in docs && d.userId == user
          ensures d.id != oid
        {
          var j :| 0 <= j < |docs| && docs[j] == d;
          assert !Matches(docs[j], CourseOf(oid, user));
        }
      }
    }
  }
}
