/** The `course_plans` MongoDB collection that backend/main.py reaches as
    `course_collection`, reduced to the documents the course endpoints read
    and write and to the four operations they call on it: `find_one`,
    `find(...).to_list(length)`, `update_one` and `delete_one`. Documents are
    kept in the collection's natural (insertion) order. */
module CourseCollection {
  import opened Wrappers
  import opened CourseModel
  import opened ObjectIds

  /** A stored course plan. `userId` is the owner's id as the string
      `current_user.id`; `isCompleted` is the `is_completed` key, read as
      false while it is absent; `courseTitle` is a `course_title` key, which
      no endpoint of the repository writes. */
  datatype CourseDoc = CourseDoc(
    id: ObjectId,
    userId: string,
    title: string,
    modules: seq<Module>,
    isCompleted: bool,
    courseTitle: Option<string>)

  /** The query documents the endpoints pass: `{"_id": ..}`, `{"user_id": ..}`,
      `{"modules.id": ..}` and `{"modules.is_completed": False}`; a part that
      is absent (or false) does not constrain the match. */
  datatype Filter = Filter(
    id: Option<ObjectId>,
    userId: Option<string>,
    moduleId: Option<string>,
    pendingModule: bool)

  predicate Matches(d: CourseDoc, f: Filter)
  {
    && (f.id.Some? ==> d.id == f.id.value)
    && (f.userId.Some? ==> d.userId == f.userId.value)
    && (f.moduleId.Some? ==> HasModule(d.modules, f.moduleId.value))
    && (f.pendingModule ==> HasPendingModule(d.modules))
  }

  /** The two update documents the endpoints pass to `update_one`:
      `{"$set": {"modules.$.is_completed": True}}`, where the positional `$`
      stands for the first module matched by the filter's `modules.id`, and
      `{"$set": {"is_completed": True}}`. */
  datatype Update = SetMatchedModuleCompleted | SetCourseCompleted

  /** A positional update needs a filter that names a module. */
  predicate Applicable(f: Filter, u: Update)
  {
    u.SetMatchedModuleCompleted? ==> f.moduleId.Some?
  }

  /** `_id` is unique in a MongoDB collection. */
  predicate UniqueIds(docs: seq<CourseDoc>)
  {
    forall i, j :: 0 <= i < j < |docs| ==> docs[i].id != docs[j].id
  }

  /** The index of the first document matching `f`, if any. */
  function FirstMatch(docs: seq<CourseDoc>, f: Filter): (r: Option<nat>)
    ensures r.Some? ==> r.value < |docs| && Matches(docs[r.value], f)
    ensures r.Some? ==> forall j :: 0 <= j < r.value ==> !Matches(docs[j], f)
    ensures r.None? ==> forall j :: 0 <= j < |docs| ==> !Matches(docs[j], f)
  {
    if docs == [] then None
    else if Matches(docs[0], f) then Some(0)
    else match FirstMatch(docs[1..], f)
      case None => None
      case Some(k) => Some(k + 1)
  }

  /** A matching document with no match before it is the first match. */
  lemma FirstMatchAt(docs: seq<CourseDoc>, f: Filter, i: nat)
    requires i < |docs| && Matches(docs[i], f)
    requires forall j :: 0 <= j < i ==> !Matches(docs[j], f)
    ensures FirstMatch(docs, f) == Some(i)
  {
    var r := FirstMatch(docs, f);
    assert r.Some?;
    assert !(r.value < i) && !(r.value > i);
  }

  /** The index of the first module with id `moduleId`, if any. */
  function FirstModule(ms: seq<Module>, moduleId: string): (r: Option<nat>)
    ensures r.Some? ==> r.value < |ms| && ms[r.value].id == moduleId
    ensures r.Some? ==> forall j :: 0 <= j < r.value ==> ms[j].id != moduleId
    ensures r.None? <==> !HasModule(ms, moduleId)
  {
    if ms == [] then None
    else if ms[0].id == moduleId then Some(0)
    else match FirstModule(ms[1..], moduleId)
      case None => (assert forall j :: 1 <= j < |ms| ==> ms[j] == ms[1..][j - 1]; None)
      case Some(k) => Some(k + 1)
  }

  /** The documents matching `f`, in collection order. */
  function Filtered(docs: seq<CourseDoc>, f: Filter): seq<CourseDoc>
  {
    if docs == [] then []
    else Filtered(docs[..|docs| - 1], f) + (if Matches(docs[|docs| - 1], f) then [docs[|docs| - 1]] else [])
  }

  /** At most the first `n` elements of `s`. */
  function Take<T>(s: seq<T>, n: nat): (r: seq<T>)
    ensures |r| <= n && r <= s
    ensures |s| <= n ==> r == s
    ensures |r| == if |s| <= n then |s| else n
  {
    if |s| <= n then s else s[..n]
  }

  /** `u` applied to one document that matches `f`. */
  function Applied(d: CourseDoc, f: Filter, u: Update): CourseDoc
    requires Matches(d, f) && Applicable(f, u)
  {
    match u
    case SetCourseCompleted => d.(isCompleted := true)
    case SetMatchedModuleCompleted =>
      var k := FirstModule(d.modules, f.moduleId.value).value;
      d.(modules := d.modules[k := d.modules[k].(isCompleted := true)])
  }

  /** The collection after `update_one(f, u)`: the first matching document is
      updated, or nothing changes when none matches. */
  function UpdatedOne(docs: seq<CourseDoc>, f: Filter, u: Update): seq<CourseDoc>
    requires Applicable(f, u)
  {
    match FirstMatch(docs, f)
    case None => docs
    case Some(i) => docs[i := Applied(docs[i], f, u)]
  }

  /** The collection after `delete_one(f)`: the first matching document is
      removed, or nothing changes when none matches. */
  function DeletedOne(docs: seq<CourseDoc>, f: Filter): seq<CourseDoc>
  {
    match FirstMatch(docs, f)
    case None => docs
    case Some(i) => docs[..i] + docs[i + 1..]
  }

  // ---------------------------------------------------------------------
  // Properties of the collection operations
  // ---------------------------------------------------------------------

  lemma {:induction false} FilteredAppend(a: seq<CourseDoc>, b: seq<CourseDoc>, f: Filter)
    ensures Filtered(a + b, f) == Filtered(a, f) + Filtered(b, f)
    decreases |b|
  {
    if b == [] {
      assert a + b == a;
    } else {
      var b' := b[..|b| - 1];
      assert (a + b)[..|a + b| - 1] == a + b';
      FilteredAppend(a, b', f);
    }
  }

  /** `find(f)` yields exactly the matching documents. */
  lemma {:induction false} FilteredMembers(docs: seq<CourseDoc>, f: Filter)
    ensures forall d :: d in Filtered(docs, f) <==> d in docs && Matches(d, f)
  {
    if docs != [] {
      var init := docs[..|docs| - 1];
      FilteredMembers(init, f);
      assert docs == init + [docs[|docs| - 1]];
    }
  }

  /** An update changes only the document it hits, keeps every `_id`, and
      so keeps the `_id`s unique. */
  lemma UpdatedOneKeepsIds(docs: seq<CourseDoc>, f: Filter, u: Update)
    requires Applicable(f, u)
    ensures |UpdatedOne(docs, f, u)| == |docs|
    ensures forall j :: 0 <= j < |docs| ==> UpdatedOne(docs, f, u)[j].id == docs[j].id
    ensures UniqueIds(docs) ==> UniqueIds(UpdatedOne(docs, f, u))
  {
  }

  /** A deletion keeps the `_id`s unique. */
  lemma DeletedOneKeepsUniqueIds(docs: seq<CourseDoc>, f: Filter)
    requires UniqueIds(docs)
    ensures UniqueIds(DeletedOne(docs, f))
  {
    match FirstMatch(docs, f)
    case None =>
    case Some(i) =>
      var r := docs[..i] + docs[i + 1..];
      forall a, b | 0 <= a < b < |r|
        ensures r[a].id != r[b].id
      {
        var a' := if a < i then a else a + 1;
        var b' := if b < i then b else b + 1;
        assert r[a] == docs[a'] && r[b] == docs[b'];
      }
  }

  /** The positional update `modules.$.is_completed = True`: the first
      module with that id becomes completed. */
  method CompleteFirstModule(ms: seq<Module>, moduleId: string) returns (r: seq<Module>)
    requires HasModule(ms, moduleId)
    ensures var k := FirstModule(ms, moduleId).value;
      r == ms[k := ms[k].(isCompleted := true)]
  {
    var k := 0;
    while ms[k].id != moduleId
      invariant 0 <= k < |ms|
      invariant FirstModule(ms, moduleId).value >= k
      decreases |ms| - k
    {
      k := k + 1;
    }
    r := ms[k := ms[k].(isCompleted := true)];
  }

  /** With unique `_id`s, removing the document at `i` removes exactly the
      document with its `_id`. */
  lemma RemovedAt(docs: seq<CourseDoc>, i: nat)
    requires UniqueIds(docs) && i < |docs|
    ensures forall d :: d in docs[..i] + docs[i + 1..] <==> d in docs && d.id != docs[i].id
  {
    var r := docs[..i] + docs[i + 1..];
    forall d
      ensures d in r <==> d in docs && d.id != docs[i].id
    {
      if d in docs && d.id != docs[i].id {
        var j :| 0 <= j < |docs| && docs[j] == d;
        if j < i { assert r[j] == d; } else { assert r[j - 1] == d; }
      }
      if d in r {
        var j :| 0 <= j < |r| && r[j] == d;
        if j < i { assert docs[j] == d; } else { assert docs[j + 1] == d; }
      }
    }
  }

  // ---------------------------------------------------------------------
  // The collection object
  // ---------------------------------------------------------------------

  class Collection {
    var docs: seq<CourseDoc>

    ghost predicate Valid()
      reads this
    {
      UniqueIds(docs)
    }

    constructor(initial: seq<CourseDoc>)
      requires UniqueIds(initial)
      ensures Valid() && docs == initial
    {
      docs := initial;
    }

    /** `find_one(f)`: the first matching document, or none. */
    method FindOne(f: Filter) returns (r: Option<CourseDoc>)
      ensures r.None? <==> forall d :: d in docs ==> !Matches(d, f)
      ensures r.Some? ==> r.value in docs && Matches(r.value, f)
      ensures r.Some? ==> r.value == docs[FirstMatch(docs, f).value]
    {
      var i := 0;
      while i < |docs|
        invariant 0 <= i <= |docs|
        invariant forall j :: 0 <= j < i ==> !Matches(docs[j], f)
      {
        if Matches(docs[i], f) {
          FirstMatchAt(docs, f, i);
          return Some(docs[i]);
        }
        i := i + 1;
      }
      return None;
    }

    /** `find(f).to_list(length)`: the first `length` matching documents in
        collection order. */
    method Find(f: Filter, length: nat) returns (r: seq<CourseDoc>)
      ensures r == Take(Filtered(docs, f), length)
    {
      r := [];
      var i := 0;
      while i < |docs| && |r| < length
        invariant 0 <= i <= |docs|
        invariant r == Filtered(docs[..i], f)
        invariant |r| <= length
      {
        assert docs[..i + 1][..i] == docs[..i];
        if Matches(docs[i], f) {
          r := r + [docs[i]];
        }
        i := i + 1;
      }
      assert docs == docs[..i] + docs[i..];
      FilteredAppend(docs[..i], docs[i..], f);
    }

    /** `update_one(f, u)`; the result is the `matched_count`. */
    method UpdateOne(f: Filter, u: Update) returns (matched: nat)
      requires Valid() && Applicable(f, u)
      modifies this
      ensures Valid()
      ensures matched == (if FirstMatch(old(docs), f).Some? then 1 else 0)
      ensures docs == UpdatedOne(old(docs), f, u)
    {
      UpdatedOneKeepsIds(docs, f, u);
      var i := 0;
      while i < |docs|
        invariant 0 <= i <= |docs|
        invariant forall j :: 0 <= j < i ==> !Matches(docs[j], f)
      {
        if Matches(docs[i], f) {
          FirstMatchAt(docs, f, i);
          var d := docs[i];
          if u.SetCourseCompleted? {
            d := d.(isCompleted := true);
          } else {
            var ms := CompleteFirstModule(d.modules, f.moduleId.value);
            d := d.(modules := ms);
          }
          assert d == Applied(docs[i], f, u);
          docs := docs[i := d];
          return 1;
        }
        i := i + 1;
      }
      return 0;
    }

    /** `delete_one(f)`; the result is the `deleted_count`. */
    method DeleteOne(f: Filter) returns (deleted: nat)
      requires Valid()
      modifies this
      ensures Valid()
      ensures deleted == (if FirstMatch(old(docs), f).Some? then 1 else 0)
      ensures docs == DeletedOne(old(docs), f)
    {
      DeletedOneKeepsUniqueIds(docs, f);
      var i := 0;
      while i < |docs|
        invariant 0 <= i <= |docs|
        invariant forall j :: 0 <= j < i ==> !Matches(docs[j], f)
      {
        if Matches(docs[i], f) {
          FirstMatchAt(docs, f, i);
          docs := docs[..i] + docs[i + 1..];
          return 1;
        }
        i := i + 1;
      }
      return 0;
    }
  }
}
