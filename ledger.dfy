/** The enrollment and progress tables, the invariant the database keeps over them, and the
    three EnrollmentService operations as transitions on them: enrol a user in a course, mark
    a subtopic complete, and report an enrollment's progress. */
module Ledger {
  import opened Wrappers
  import opened Catalog

  /** An enrollments row; it refers to its course, which the model keeps as the value. */
  datatype Enrollment = Enrollment(id: int, userId: int, course: Course, enrolledAt: int)

  /** A subtopic_progress row, referring to its enrollment by id and to its subtopic. */
  datatype ProgressRecord = ProgressRecord(enrollmentId: int, subtopic: Subtopic, completed: bool, completedAt: int)

  /** Both tables, in insertion order, with the next identity value for enrollments. */
  datatype Store = Store(enrollments: seq<Enrollment>, records: seq<ProgressRecord>, nextEnrollmentId: int)

  datatype EnrollmentResponse = EnrollmentResponse(enrollmentId: int, courseId: string, courseTitle: string,
                                                   enrolledAt: int)
  datatype SubtopicCompleteResponse = SubtopicCompleteResponse(subtopicId: string, completed: bool, completedAt: int)
  datatype CompletedItem = CompletedItem(subtopicId: string, subtopicTitle: string, completedAt: int)
  /** `completionHundredths` is the completion percentage times 100, a whole number. */
  datatype ProgressResponse = ProgressResponse(enrollmentId: int, courseId: string, courseTitle: string,
                                               totalSubtopics: nat, completedSubtopics: nat,
                                               completionHundredths: nat, completedItems: seq<CompletedItem>)

  /** What a state-changing operation answers, with the tables after it. */
  datatype Outcome<T> = Outcome(reply: Result<T>, after: Store)

  // ---------------------------------------------------------------------------------------
  // Repository lookups

  /** enrollmentRepository.findById: the position of the first enrollment with id `id`. */
  function EnrollmentIndex(es: seq<Enrollment>, id: int): (r: Option<nat>)
    ensures r.Some? ==> r.value < |es| && es[r.value].id == id
                        && forall j :: 0 <= j < r.value ==> es[j].id != id
    ensures r.None? ==> forall j :: 0 <= j < |es| ==> es[j].id != id
  {
    if es == [] then None
    else if es[0].id == id then Some(0)
    else match EnrollmentIndex(es[1..], id)
      case None => None
      case Some(i) => Some(i + 1)
  }

  function EnrollmentById(es: seq<Enrollment>, id: int): (r: Option<Enrollment>)
    ensures r.Some? ==> r.value in es && r.value.id == id
    ensures r.None? <==> forall e :: e in es ==> e.id != id
  {
    match EnrollmentIndex(es, id)
    case None => None
    case Some(i) => Some(es[i])
  }

  /** findByUserIdAndCourseId (and existsByUserIdAndCourseId, its `.Some?`): the position of
      the first enrollment of `userId` in the course `courseId`. */
  function EnrollmentOf(es: seq<Enrollment>, userId: int, courseId: string): (r: Option<nat>)
    ensures r.Some? ==> r.value < |es| && es[r.value].userId == userId && es[r.value].course.id == courseId
                        && forall j :: 0 <= j < r.value ==> !(es[j].userId == userId && es[j].course.id == courseId)
    ensures r.None? ==> forall j :: 0 <= j < |es| ==> !(es[j].userId == userId && es[j].course.id == courseId)
  {
    if es == [] then None
    else if es[0].userId == userId && es[0].course.id == courseId then Some(0)
    else match EnrollmentOf(es[1..], userId, courseId)
      case None => None
      case Some(i) => Some(i + 1)
  }

  /** findByEnrollmentIdAndSubtopicId: the position of the first record of enrollment `eid`
      for the subtopic `sid`. */
  function RecordOf(rs: seq<ProgressRecord>, eid: int, sid: string): (r: Option<nat>)
    ensures r.Some? ==> r.value < |rs| && rs[r.value].enrollmentId == eid && rs[r.value].subtopic.id == sid
                        && forall j :: 0 <= j < r.value ==> !(rs[j].enrollmentId == eid && rs[j].subtopic.id == sid)
    ensures r.None? ==> forall j :: 0 <= j < |rs| ==> !(rs[j].enrollmentId == eid && rs[j].subtopic.id == sid)
  {
    if rs == [] then None
    else if rs[0].enrollmentId == eid && rs[0].subtopic.id == sid then Some(0)
    else match RecordOf(rs[1..], eid, sid)
      case None => None
      case Some(i) => Some(i + 1)
  }

  /** findByEnrollmentId: the records of enrollment `eid`, in table order. */
  function RecordsOf(rs: seq<ProgressRecord>, eid: int): (r: seq<ProgressRecord>)
    ensures |r| <= |rs|
    ensures forall x :: x in r <==> x in rs && x.enrollmentId == eid
  {
    if rs == [] then []
    else (if rs[0].enrollmentId == eid then [rs[0]] else []) + RecordsOf(rs[1..], eid)
  }

  /** Selecting from two tables one after the other is selecting from their concatenation,
      so each record of the enrollment appears once, at its place in the table. */
  lemma {:induction false} RecordsOfAppend(a: seq<ProgressRecord>, b: seq<ProgressRecord>, eid: int)
    ensures RecordsOf(a + b, eid) == RecordsOf(a, eid) + RecordsOf(b, eid)
  {
    if a != [] {
      assert (a + b)[1..] == a[1..] + b;
      RecordsOfAppend(a[1..], b, eid);
    } else {
      assert a + b == b;
    }
  }

  /** One record is selected exactly when it belongs to the enrollment. */
  lemma RecordsOfOne(x: ProgressRecord, eid: int)
    ensures RecordsOf([x], eid) == if x.enrollmentId == eid then [x] else []
  {
    assert [x][1..] == [];
  }

  // ---------------------------------------------------------------------------------------
  // The constraints on the tables: the database enforces the foreign keys and the unique
  // (user, course) and (enrollment, subtopic) pairs; that a record is for a subtopic of its
  // own enrollment's course and is completed is kept by the operations, as the preservation
  // lemmas show.

  /** Every enrollment is of a catalog course and a registered user and has an id below the
      next identity value; ids are distinct, and (user_id, course_id) is unique. */
  ghost predicate EnrollmentsValid(cat: seq<Course>, users: set<int>, es: seq<Enrollment>, next: int) {
    && (forall i :: 0 <= i < |es| ==> es[i].course in cat && es[i].userId in users && es[i].id < next)
    && (forall i, j :: 0 <= i < j < |es| ==> es[i].id != es[j].id)
    && (forall i, j :: 0 <= i < j < |es| ==>
          es[i].userId != es[j].userId || es[i].course.id != es[j].course.id)
  }

  /** Every record belongs to an existing enrollment (a foreign key), is for a subtopic of that
      enrollment's course and is completed (both kept by markSubtopicComplete, the only
      writer); (enrollment_id, subtopic_id) is unique. */
  ghost predicate RecordsValid(es: seq<Enrollment>, rs: seq<ProgressRecord>) {
    && (forall k :: 0 <= k < |rs| ==>
          && EnrollmentById(es, rs[k].enrollmentId).Some?
          && rs[k].subtopic in SubtopicsOf(EnrollmentById(es, rs[k].enrollmentId).value.course)
          && rs[k].completed)
    && (forall k, l :: 0 <= k < l < |rs| ==>
          rs[k].enrollmentId != rs[l].enrollmentId || rs[k].subtopic.id != rs[l].subtopic.id)
  }

  ghost predicate Consistent(cat: seq<Course>, users: set<int>, s: Store) {
    && UniqueCourseIds(cat)
    && EnrollmentsValid(cat, users, s.enrollments, s.nextEnrollmentId)
    && RecordsValid(s.enrollments, s.records)
  }

  /** The empty tables are consistent with any catalog whose course ids are unique. */
  lemma EmptyConsistent(cat: seq<Course>, users: set<int>, next: int)
    requires UniqueCourseIds(cat)
    ensures Consistent(cat, users, Store([], [], next))
  {
  }

  // ---------------------------------------------------------------------------------------
  // enrollInCourse

  function CourseMissing(courseId: string): string {
    "Course with id '" + courseId + "' does not exist"
  }
  const UserMissing := "User not found"
  const AlreadyEnrolled := "You are already enrolled in this course"

  /** enrollInCourse: the course must exist, then the user, then the pair must
      not be enrolled yet; only then is one enrollment, dated `now`, appended. */
  function Enroll(cat: seq<Course>, users: set<int>, s: Store, courseId: string, userId: int, now: int)
    : Outcome<EnrollmentResponse>
  {
    match FindCourse(cat, courseId)
    case None => Outcome(Err(NotFound(CourseMissing(courseId))), s)
    case Some(course) =>
      if userId !in users then Outcome(Err(NotFound(UserMissing)), s)
      else if EnrollmentOf(s.enrollments, userId, courseId).Some? then Outcome(Err(Conflict(AlreadyEnrolled)), s)
      else
        var e := Enrollment(s.nextEnrollmentId, userId, course, now);
        Outcome(Ok(EnrollmentResponse(e.id, course.id, course.title, e.enrolledAt)),
                Store(s.enrollments + [e], s.records, s.nextEnrollmentId + 1))
  }

  /** The error cases, in the order they are checked, each leaving the tables unchanged; and
      the success case, which appends exactly one enrollment of that user in that catalog
      course under the next id and changes nothing else. */
  lemma EnrollSpec(cat: seq<Course>, users: set<int>, s: Store, courseId: string, userId: int, now: int)
    ensures var o := Enroll(cat, users, s, courseId, userId, now);
      && (o.reply.Err? ==> o.after == s)
      && (o.reply == Err(NotFound(CourseMissing(courseId))) <==> forall c :: c in cat ==> c.id != courseId)
      && (o.reply == Err(NotFound(UserMissing)) <==>
            (exists c :: c in cat && c.id == courseId) && userId !in users)
      && (o.reply == Err(Conflict(AlreadyEnrolled)) <==>
            && (exists c :: c in cat && c.id == courseId) && userId in users
            && exists e :: e in s.enrollments && e.userId == userId && e.course.id == courseId)
      && (o.reply.Ok? <==>
            && (exists c :: c in cat && c.id == courseId) && userId in users
            && forall e :: e in s.enrollments ==> !(e.userId == userId && e.course.id == courseId))
      && (o.reply.Ok? ==>
            && FindCourse(cat, courseId).Some?
            && var c := FindCourse(cat, courseId).value;
               && o.reply.value == EnrollmentResponse(s.nextEnrollmentId, courseId, c.title, now)
               && o.after == Store(s.enrollments + [Enrollment(s.nextEnrollmentId, userId, c, now)],
                                   s.records, s.nextEnrollmentId + 1))
  {
    var o := Enroll(cat, users, s, courseId, userId, now);
    assert |CourseMissing(courseId)| != |UserMissing|;
    var found := EnrollmentOf(s.enrollments, userId, courseId);
    if found.Some? {
      assert s.enrollments[found.value] in s.enrollments;
    } else if o.reply.Err? {
      assert forall e :: e in s.enrollments ==> !(e.userId == userId && e.course.id == courseId);
    }
  }

  /** A successful enrolment keeps the tables consistent. */
  lemma EnrollPreservesConsistent(cat: seq<Course>, users: set<int>, s: Store, courseId: string, userId: int,
                                  now: int)
    requires Consistent(cat, users, s)
    ensures Consistent(cat, users, Enroll(cat, users, s, courseId, userId, now).after)
  {
    var o := Enroll(cat, users, s, courseId, userId, now);
    if o.reply.Ok? {
      var c := FindCourse(cat, courseId).value;
      var e := Enrollment(s.nextEnrollmentId, userId, c, now);
      var es := s.enrollments + [e];
      assert EnrollmentsValid(cat, users, es, s.nextEnrollmentId + 1);
      forall id | EnrollmentById(s.enrollments, id).Some?
        ensures EnrollmentById(es, id) == EnrollmentById(s.enrollments, id)
      {
        EnrollmentIndexAppend(s.enrollments, e, id);
      }
    }
  }

  /** Appending an enrollment does not change where an existing id is found. */
  lemma EnrollmentIndexAppend(es: seq<Enrollment>, e: Enrollment, id: int)
    requires EnrollmentIndex(es, id).Some?
    ensures EnrollmentIndex(es + [e], id) == EnrollmentIndex(es, id)
  {
    var i := EnrollmentIndex(es, id).value;
    assert forall j :: 0 <= j <= i ==> (es + [e])[j] == es[j];
  }

  /** Enrolling the same user in the same course a second time is refused as a conflict. */
  lemma EnrollTwiceConflicts(cat: seq<Course>, users: set<int>, s: Store, courseId: string, userId: int,
                             t1: int, t2: int)
    requires Enroll(cat, users, s, courseId, userId, t1).reply.Ok?
    ensures var s1 := Enroll(cat, users, s, courseId, userId, t1).after;
            Enroll(cat, users, s1, courseId, userId, t2) == Outcome(Err(Conflict(AlreadyEnrolled)), s1)
  {
    var s1 := Enroll(cat, users, s, courseId, userId, t1).after;
    var k := |s.enrollments|;
    assert s1.enrollments[k].userId == userId && s1.enrollments[k].course.id == courseId;
  }

  // ---------------------------------------------------------------------------------------
  // markSubtopicComplete

  function SubtopicMissing(subtopicId: string): string {
    "Subtopic with id '" + subtopicId + "' does not exist"
  }
  const NotEnrolled := "You must be enrolled in this course to mark subtopics as complete"

  /** The progress table once the record of `eid` for `sub` is marked done at `now`: the
      existing record is updated in place, or a new one is appended. */
  function MarkRecord(rs: seq<ProgressRecord>, eid: int, sub: Subtopic, now: int): seq<ProgressRecord>
  {
    match RecordOf(rs, eid, sub.id)
    case Some(i) => rs[i := rs[i].(completed := true, completedAt := now)]
    case None => rs + [ProgressRecord(eid, sub, true, now)]
  }

  /** markSubtopicComplete: the subtopic must exist, and the user must be
      enrolled in the course that owns it; then that enrollment's record for the subtopic is
      marked complete at `now`. */
  function MarkComplete(cat: seq<Course>, s: Store, subtopicId: string, userId: int, now: int)
    : Outcome<SubtopicCompleteResponse>
  {
    match FindSubtopic(cat, subtopicId)
    case None => Outcome(Err(NotFound(SubtopicMissing(subtopicId))), s)
    case Some(ref) =>
      match EnrollmentOf(s.enrollments, userId, ref.course.id)
      case None => Outcome(Err(Forbidden(NotEnrolled)), s)
      case Some(k) =>
        Outcome(Ok(SubtopicCompleteResponse(subtopicId, true, now)),
                s.(records := MarkRecord(s.records, s.enrollments[k].id, ref.subtopic, now)))
  }

  /** After marking, exactly one record of `eid` is for the subtopic, it is completed at
      `now`, and every other record is as it was: the table either keeps its length, when a
      record existed, or grows by that one record at the end. */
  lemma MarkRecordSpec(rs: seq<ProgressRecord>, eid: int, sub: Subtopic, now: int)
    ensures var rs' := MarkRecord(rs, eid, sub, now);
      && RecordOf(rs', eid, sub.id).Some?
      && var i := RecordOf(rs', eid, sub.id).value;
         && rs'[i].completed && rs'[i].completedAt == now && rs'[i].subtopic.id == sub.id
         && (RecordOf(rs, eid, sub.id).Some? ==>
               && |rs'| == |rs| && i == RecordOf(rs, eid, sub.id).value
               && rs'[i] == rs[i].(completed := true, completedAt := now))
         && (RecordOf(rs, eid, sub.id).None? ==> |rs'| == |rs| + 1 && i == |rs| && rs'[i].subtopic == sub)
         && (forall j :: 0 <= j < |rs| && j != i ==> rs'[j] == rs[j])
  {
    var rs' := MarkRecord(rs, eid, sub, now);
    match RecordOf(rs, eid, sub.id)
    case Some(i) =>
      assert rs'[i].enrollmentId == eid && rs'[i].subtopic.id == sub.id;
      assert forall j :: 0 <= j < i ==> rs'[j] == rs[j];
    case None =>
      var i := |rs|;
      assert rs'[i].enrollmentId == eid && rs'[i].subtopic.id == sub.id;
      assert forall j :: 0 <= j < i ==> rs'[j] == rs[j];
  }

  /** The error cases, in the order they are checked, each leaving the tables unchanged; on
      success the enrollments stay as they are, the user is enrolled in the course owning
      the subtopic, and the enrollment's record for it is marked complete at `now`. */
  lemma MarkSpec(cat: seq<Course>, s: Store, subtopicId: string, userId: int, now: int)
    ensures var o := MarkComplete(cat, s, subtopicId, userId, now);
      && (o.reply.Err? ==> o.after == s)
      && (o.reply == Err(NotFound(SubtopicMissing(subtopicId))) <==>
            forall c, t :: c in cat && t in SubtopicsOf(c) ==> t.id != subtopicId)
      && (o.reply == Err(Forbidden(NotEnrolled)) <==>
            && FindSubtopic(cat, subtopicId).Some?
            && forall e :: e in s.enrollments ==>
                 !(e.userId == userId && e.course.id == FindSubtopic(cat, subtopicId).value.course.id))
      && (o.reply.Ok? <==>
            && FindSubtopic(cat, subtopicId).Some?
            && EnrollmentOf(s.enrollments, userId, FindSubtopic(cat, subtopicId).value.course.id).Some?)
      && (o.reply.Ok? ==>
            && o.reply.value == SubtopicCompleteResponse(subtopicId, true, now)
            && FindSubtopic(cat, subtopicId).Some?
            && var ref := FindSubtopic(cat, subtopicId).value;
               && EnrollmentOf(s.enrollments, userId, ref.course.id).Some?
               && var e := s.enrollments[EnrollmentOf(s.enrollments, userId, ref.course.id).value];
                  && o.after == Store(s.enrollments, MarkRecord(s.records, e.id, ref.subtopic, now),
                                      s.nextEnrollmentId))
  {
    var o := MarkComplete(cat, s, subtopicId, userId, now);
    if FindSubtopic(cat, subtopicId).Some? {
      var ref := FindSubtopic(cat, subtopicId).value;
      var found := EnrollmentOf(s.enrollments, userId, ref.course.id);
      if found.Some? {
        assert s.enrollments[found.value] in s.enrollments;
      } else {
        assert forall e :: e in s.enrollments ==> !(e.userId == userId && e.course.id == ref.course.id);
      }
    }
  }

  /** Marking keeps the tables consistent: the record it adds belongs to an enrollment whose
      course owns the subtopic, and no second record for the same pair ever appears. */
  lemma MarkPreservesConsistent(cat: seq<Course>, users: set<int>, s: Store, subtopicId: string, userId: int,
                                now: int)
    requires Consistent(cat, users, s)
    ensures Consistent(cat, users, MarkComplete(cat, s, subtopicId, userId, now).after)
  {
    var o := MarkComplete(cat, s, subtopicId, userId, now);
    if o.reply.Ok? {
      var ref := FindSubtopic(cat, subtopicId).value;
      var k := EnrollmentOf(s.enrollments, userId, ref.course.id).value;
      OwningEnrollment(cat, users, s, ref, k);
      MarkRecordValid(s.enrollments, s.records, s.enrollments[k], ref.subtopic, now);
    }
  }

  /** In a consistent store, the enrollment found for a catalog course is an enrollment in
      that very course, and its id finds it. */
  lemma OwningEnrollment(cat: seq<Course>, users: set<int>, s: Store, ref: SubtopicRef, k: nat)
    requires Consistent(cat, users, s)
    requires ref.course in cat
    requires k < |s.enrollments| && s.enrollments[k].course.id == ref.course.id
    ensures s.enrollments[k].course == ref.course
    ensures EnrollmentById(s.enrollments, s.enrollments[k].id) == Some(s.enrollments[k])
  {
    var e := s.enrollments[k];
    assert e.course in cat;
    assert FindCourse(cat, ref.course.id) == Some(ref.course);
    UniqueIdFound(s.enrollments, k);
  }

  /** Marking a record of an existing enrollment for a subtopic of its course keeps the
      progress table valid. */
  lemma MarkRecordValid(es: seq<Enrollment>, rs: seq<ProgressRecord>, e: Enrollment, sub: Subtopic, now: int)
    requires RecordsValid(es, rs)
    requires EnrollmentById(es, e.id) == Some(e) && sub in SubtopicsOf(e.course)
    ensures RecordsValid(es, MarkRecord(rs, e.id, sub, now))
  {
    var rs' := MarkRecord(rs, e.id, sub, now);
    match RecordOf(rs, e.id, sub.id)
    case Some(i) =>
      assert forall j :: 0 <= j < |rs| ==>
        rs'[j].enrollmentId == rs[j].enrollmentId && rs'[j].subtopic == rs[j].subtopic;
    case None =>
      assert forall j :: 0 <= j < |rs| ==> rs'[j] == rs[j];
  }

  /** In a table with distinct ids, the id of the enrollment at position `k` finds it. */
  lemma UniqueIdFound(es: seq<Enrollment>, k: nat)
    requires k < |es|
    requires forall i, j :: 0 <= i < j < |es| ==> es[i].id != es[j].id
    ensures EnrollmentById(es, es[k].id) == Some(es[k])
  {
    assert EnrollmentIndex(es, es[k].id).Some?;
  }

  /** Marking the same subtopic twice leaves the tables as marking it once at the later time:
      the second call finds the record the first one made or updated. */
  lemma MarkIdempotent(cat: seq<Course>, s: Store, subtopicId: string, userId: int, t1: int, t2: int)
    ensures var s1 := MarkComplete(cat, s, subtopicId, userId, t1).after;
            MarkComplete(cat, s1, subtopicId, userId, t2) == MarkComplete(cat, s, subtopicId, userId, t2)
  {
    var o := MarkComplete(cat, s, subtopicId, userId, t1);
    if o.reply.Ok? {
      var ref := FindSubtopic(cat, subtopicId).value;
      var k := EnrollmentOf(s.enrollments, userId, ref.course.id).value;
      var eid := s.enrollments[k].id;
      var rs := s.records;
      var rs1 := MarkRecord(rs, eid, ref.subtopic, t1);
      MarkRecordSpec(rs, eid, ref.subtopic, t1);
      var i := RecordOf(rs1, eid, subtopicId).value;
      assert rs1[i := rs1[i].(completed := true, completedAt := t2)] == MarkRecord(rs, eid, ref.subtopic, t2);
    }
  }

  // ---------------------------------------------------------------------------------------
  // getProgress

  const EnrollmentMissing := "Enrollment not found"
  const NotOwnProgress := "You can only view your own progress"

  /** The completed records among `rs`, in order. */
  function CompletedOf(rs: seq<ProgressRecord>): (r: seq<ProgressRecord>)
    ensures |r| <= |rs|
    ensures forall x :: x in r <==> x in rs && x.completed
    ensures (forall k :: 0 <= k < |rs| ==> rs[k].completed) ==> r == rs
  {
    if rs == [] then [] else (if rs[0].completed then [rs[0]] else []) + CompletedOf(rs[1..])
  }

  function ItemOf(p: ProgressRecord): CompletedItem {
    CompletedItem(p.subtopic.id, p.subtopic.title, p.completedAt)
  }

  /** Math.round(completed * 100.0 / total * 100.0) / 100.0 held in hundredths: the nearest
      whole number of hundredths, halves rounded up, and 0 for an empty course. */
  function Hundredths(completed: nat, total: nat): nat {
    if total > 0 then (20000 * completed + total) / (2 * total) else 0
  }

  /** getProgress: the enrollment must exist and belong to the caller; then
      the total is the course's subtopic count, the completed count and the items come from
      the enrollment's completed records in table order, and the percentage is rounded to
      hundredths. */
  function Progress(s: Store, enrollmentId: int, userId: int): Result<ProgressResponse>
  {
    match EnrollmentById(s.enrollments, enrollmentId)
    case None => Err(NotFound(EnrollmentMissing))
    case Some(e) =>
      if e.userId != userId then Err(Forbidden(NotOwnProgress))
      else
        var total := SubtopicCount(e.course.topics);
        var done := CompletedOf(RecordsOf(s.records, enrollmentId));
        Ok(ProgressResponse(enrollmentId, e.course.id, e.course.title, total, |done|,
                            Hundredths(|done|, total),
                            seq(|done|, i requires 0 <= i < |done| => ItemOf(done[i]))))
  }

  /** The rounding is to the nearest hundredth of the exact percentage: within half a
      hundredth of 10000 * completed / total, and at most 10000 when completed <= total. */
  lemma HundredthsSpec(completed: nat, total: nat)
    requires total > 0
    ensures var h := Hundredths(completed, total) as real;
            var exact := (10000 * completed) as real / total as real;
            h - 0.5 <= exact < h + 0.5
    ensures completed <= total ==> Hundredths(completed, total) <= 10000
    ensures completed == total ==> Hundredths(completed, total) == 10000
  {
    var h := Hundredths(completed, total);
    var n := 20000 * completed + total;
    var d := 2 * total;
    assert n == d * h + n % d && 0 <= n % d < d;
    assert d * h == 2 * (total * h);
    assert 2 * (total * h) - total <= 20000 * completed < 2 * (total * h) + total;
    NearestReal(h, completed, total);
    if completed <= total && h > 10000 {
      MulLe(total, 10001, h);
      assert false;
    }
    if completed == total && h < 10000 {
      MulLe(total, h, 9999);
      assert false;
    }
  }

  lemma MulLe(t: int, a: int, b: int)
    requires t > 0 && a <= b
    ensures t * a <= t * b
  {
    assert t * b - t * a == t * (b - a);
  }

  /** Bounds on `2 * t * h` around `20000 * c` say that `h` is 10000 * c / t rounded to the
      nearest whole number. */
  lemma NearestReal(h: int, c: int, t: int)
    requires t > 0
    requires 2 * (t * h) - t <= 20000 * c < 2 * (t * h) + t
    ensures h as real - 0.5 <= (10000 * c) as real / t as real < h as real + 0.5
  {
    var tr := t as real;
    var hr := h as real;
    var cr := c as real;
    CastMul(t, h);
    assert 2.0 * (tr * hr) - tr <= 20000.0 * cr < 2.0 * (tr * hr) + tr;
    var exact := 10000.0 * cr / tr;
    assert (10000 * c) as real == 10000.0 * cr;
    assert exact * tr == 10000.0 * cr;
    assert (hr - 0.5) * tr == tr * hr - 0.5 * tr;
    assert (hr + 0.5) * tr == tr * hr + 0.5 * tr;
    ScaleDown(hr - 0.5, exact, tr);
    ScaleDownStrict(exact, hr + 0.5, tr);
  }

  lemma CastMul(a: int, b: int)
    ensures (a * b) as real == (a as real) * (b as real)
  {
  }

  /** Dividing both sides of an inequality by a positive number keeps it. */
  lemma ScaleDown(a: real, b: real, t: real)
    requires t > 0.0 && a * t <= b * t
    ensures a <= b
  {
  }

  lemma ScaleDownStrict(a: real, b: real, t: real)
    requires t > 0.0 && a * t < b * t
    ensures a < b
  {
  }

  /** The failure cases of getProgress, and for a consistent store the figures of a
      successful answer: at most as many completed subtopics as the course has, a percentage
      between 0 and 100 that is 0 for a course without subtopics, one item per completed
      record of the enrollment, in table order, and every record of the enrollment counted
      (only completed records are ever written). */
  lemma ProgressSpec(cat: seq<Course>, users: set<int>, s: Store, enrollmentId: int, userId: int)
    ensures var r := Progress(s, enrollmentId, userId);
      && (r == Err(NotFound(EnrollmentMissing)) <==> forall e :: e in s.enrollments ==> e.id != enrollmentId)
      && (r == Err(Forbidden(NotOwnProgress)) <==>
            EnrollmentById(s.enrollments, enrollmentId).Some?
            && EnrollmentById(s.enrollments, enrollmentId).value.userId != userId)
      && (r.Ok? <==>
            EnrollmentById(s.enrollments, enrollmentId).Some?
            && EnrollmentById(s.enrollments, enrollmentId).value.userId == userId)
      && (r.Ok? ==>
            && EnrollmentById(s.enrollments, enrollmentId).Some?
            && var e := EnrollmentById(s.enrollments, enrollmentId).value;
               var done := CompletedOf(RecordsOf(s.records, enrollmentId));
               && e.userId == userId
               && r.value.courseId == e.course.id && r.value.courseTitle == e.course.title
               && r.value.totalSubtopics == |SubtopicsOf(e.course)|
               && r.value.completedSubtopics == |r.value.completedItems| == |done|
               && (forall i :: 0 <= i < |done| ==> r.value.completedItems[i] == ItemOf(done[i]))
               && r.value.completionHundredths == Hundredths(r.value.completedSubtopics, r.value.totalSubtopics)
               && (r.value.totalSubtopics == 0 ==> r.value.completionHundredths == 0)
               && (Consistent(cat, users, s) ==>
                     && done == RecordsOf(s.records, enrollmentId)
                     && r.value.completedSubtopics <= r.value.totalSubtopics
                     && r.value.completionHundredths <= 10000))
  {
    var r := Progress(s, enrollmentId, userId);
    assert |EnrollmentMissing| != |NotOwnProgress|;
    if r.Ok? {
      var e := EnrollmentById(s.enrollments, enrollmentId).value;
      var recs := RecordsOf(s.records, enrollmentId);
      EntriesCount(e.course.topics);
      if Consistent(cat, users, s) {
        RecordsOfValid(s.enrollments, s.records, e);
        assert forall k :: 0 <= k < |recs| ==> recs[k].completed;
        DistinctBound(recs, SubtopicsOf(e.course));
        if SubtopicCount(e.course.topics) > 0 {
          HundredthsSpec(|recs|, SubtopicCount(e.course.topics));
        }
      }
    }
  }

  /** The records of an enrollment of a consistent store are completed, are for subtopics
      of its course, and name pairwise different subtopics. */
  lemma RecordsOfValid(es: seq<Enrollment>, rs: seq<ProgressRecord>, e: Enrollment)
    requires RecordsValid(es, rs)
    requires EnrollmentById(es, e.id) == Some(e)
    ensures forall k :: 0 <= k < |RecordsOf(rs, e.id)| ==>
              RecordsOf(rs, e.id)[k].completed && RecordsOf(rs, e.id)[k].subtopic in SubtopicsOf(e.course)
    ensures forall k, l :: 0 <= k < l < |RecordsOf(rs, e.id)| ==>
              RecordsOf(rs, e.id)[k].subtopic.id != RecordsOf(rs, e.id)[l].subtopic.id
  {
    RecordsOfDistinct(rs, e.id);
    forall k | 0 <= k < |RecordsOf(rs, e.id)|
      ensures RecordsOf(rs, e.id)[k].completed && RecordsOf(rs, e.id)[k].subtopic in SubtopicsOf(e.course)
    {
      var x := RecordsOf(rs, e.id)[k];
      assert x in RecordsOf(rs, e.id);
      var j :| 0 <= j < |rs| && rs[j] == x;
    }
  }

  /** Records of one enrollment that are unique per (enrollment, subtopic) name pairwise
      different subtopics. */
  lemma {:induction false} RecordsOfDistinct(rs: seq<ProgressRecord>, eid: int)
    requires forall k, l :: 0 <= k < l < |rs| ==>
               rs[k].enrollmentId != rs[l].enrollmentId || rs[k].subtopic.id != rs[l].subtopic.id
    ensures forall k, l :: 0 <= k < l < |RecordsOf(rs, eid)| ==>
              RecordsOf(rs, eid)[k].subtopic.id != RecordsOf(rs, eid)[l].subtopic.id
  {
    if rs != [] {
      RecordsOfDistinct(rs[1..], eid);
      var tail := RecordsOf(rs[1..], eid);
      if rs[0].enrollmentId == eid {
        var r := RecordsOf(rs, eid);
        assert r == [rs[0]] + tail;
        forall l | 0 <= l < |tail|
          ensures tail[l].subtopic.id != rs[0].subtopic.id
        {
          assert tail[l] in tail;
          var j :| 0 <= j < |rs[1..]| && rs[1..][j] == tail[l];
          assert rs[j + 1] == tail[l];
        }
      }
    }
  }

  /** Records for pairwise different subtopics, all drawn from `subs`, are no more than
      `subs` holds. */
  lemma {:induction false} DistinctBound(rs: seq<ProgressRecord>, subs: seq<Subtopic>)
    requires forall k :: 0 <= k < |rs| ==> rs[k].subtopic in subs
    requires forall k, l :: 0 <= k < l < |rs| ==> rs[k].subtopic.id != rs[l].subtopic.id
    ensures |rs| <= |subs|
  {
    if rs != [] {
      var x := rs[0].subtopic;
      var p :| 0 <= p < |subs| && subs[p] == x;
      var rest := subs[..p] + subs[p + 1..];
      forall k | 0 <= k < |rs[1..]|
        ensures rs[1..][k].subtopic in rest
      {
        var y := rs[1..][k].subtopic;
        assert y == rs[k + 1].subtopic;
        var q :| 0 <= q < |subs| && subs[q] == y;
        assert q != p;
        if q < p {
          assert rest[q] == y;
        } else {
          assert rest[q - 1] == y;
        }
      }
      DistinctBound(rs[1..], rest);
    }
  }

  /** After a successful mark in a consistent store, the caller's progress for that
      enrollment lists the subtopic as completed at the time of marking. */
  lemma MarkThenProgress(cat: seq<Course>, users: set<int>, s: Store, subtopicId: string, userId: int, now: int)
    requires Consistent(cat, users, s)
    requires MarkComplete(cat, s, subtopicId, userId, now).reply.Ok?
    ensures var s1 := MarkComplete(cat, s, subtopicId, userId, now).after;
            var ref := FindSubtopic(cat, subtopicId).value;
            var k := EnrollmentOf(s.enrollments, userId, ref.course.id).value;
            var r := Progress(s1, s.enrollments[k].id, userId);
            && r.Ok?
            && exists i :: 0 <= i < |r.value.completedItems|
                 && r.value.completedItems[i].subtopicId == subtopicId
                 && r.value.completedItems[i].completedAt == now
  {
    var s1 := MarkComplete(cat, s, subtopicId, userId, now).after;
    var ref := FindSubtopic(cat, subtopicId).value;
    var k := EnrollmentOf(s.enrollments, userId, ref.course.id).value;
    var e := s.enrollments[k];
    UniqueIdFound(s.enrollments, k);
    assert s1.enrollments == s.enrollments;
    var done := CompletedOf(RecordsOf(s1.records, e.id));
    var i := MarkedRecordListed(s.records, e.id, ref.subtopic, now);
    var r := Progress(s1, e.id, userId);
    assert r.value.completedItems[i] == ItemOf(done[i]);
  }

  /** Once marked, the record appears among the enrollment's completed records, completed at
      the time of marking. */
  lemma MarkedRecordListed(rs: seq<ProgressRecord>, eid: int, sub: Subtopic, now: int) returns (i: nat)
    ensures var done := CompletedOf(RecordsOf(MarkRecord(rs, eid, sub, now), eid));
            i < |done| && done[i].subtopic.id == sub.id && done[i].completedAt == now
  {
    var rs' := MarkRecord(rs, eid, sub, now);
    MarkRecordSpec(rs, eid, sub, now);
    var x := rs'[RecordOf(rs', eid, sub.id).value];
    assert x in RecordsOf(rs', eid);
    var done := CompletedOf(RecordsOf(rs', eid));
    assert x in done;
    i :| i < |done| && done[i] == x;
  }
}
