/** EnrollmentService as an object: the enrollment and progress tables are fields its
    methods update in place, against read-only course and user tables. */
module EnrollmentService {
  import opened Wrappers
  import opened Catalog
  import opened Ledger

  class Service {
    // The course table (with its topics and subtopics) and the ids of registered users,
    // which these operations only read.
    const courses: seq<Course>
    const users: set<int>

    // The enrollments and subtopic_progress tables, in insertion order, and the identity
    // value the next enrollment gets.
    var enrollments: seq<Enrollment>
    var records: seq<ProgressRecord>
    var nextEnrollmentId: int

    /** The tables as a value. */
    function State(): Store
      reads this
    {
      Store(enrollments, records, nextEnrollmentId)
    }

    /** The database's constraints hold. */
    ghost predicate Valid()
      reads this
    {
      Consistent(courses, users, State())
    }

    /** Empty enrollment and progress tables over a catalog and a set of users. */
    constructor (courses: seq<Course>, users: set<int>)
      requires UniqueCourseIds(courses)
      ensures Valid()
      ensures this.courses == courses && this.users == users
      ensures enrollments == [] && records == [] && nextEnrollmentId == 1
    {
      this.courses := courses;
      this.users := users;
      enrollments := [];
      records := [];
      nextEnrollmentId := 1;
      new;
      EmptyConsistent(courses, users, 1);
    }

    /** enrollInCourse: NotFound for an unknown course, then NotFound for an unknown user,
        then Conflict when the user is already enrolled, each leaving the tables as they
        were; otherwise one enrollment is saved, dated `now`, under the next id. */
    method EnrollInCourse(courseId: string, userId: int, now: int) returns (reply: Result<EnrollmentResponse>)
      requires Valid()
      modifies this
      ensures Valid()
      ensures reply == Enroll(courses, users, old(State()), courseId, userId, now).reply
      ensures State() == Enroll(courses, users, old(State()), courseId, userId, now).after
    {
      ghost var before := State();
      EnrollPreservesConsistent(courses, users, before, courseId, userId, now);
      var found := FindCourse(courses, courseId);
      if found.None? {
        return Err(NotFound(CourseMissing(courseId)));
      }
      var course := found.value;
      if userId !in users {
        return Err(NotFound(UserMissing));
      }
      if EnrollmentOf(enrollments, userId, courseId).Some? {
        return Err(Conflict(AlreadyEnrolled));
      }
      var enrollment := Enrollment(nextEnrollmentId, userId, course, now);
      enrollments := enrollments + [enrollment];
      nextEnrollmentId := nextEnrollmentId + 1;
      reply := Ok(EnrollmentResponse(enrollment.id, course.id, course.title, enrollment.enrolledAt));
    }

    /** markSubtopicComplete: NotFound for an unknown subtopic, then Forbidden when the user
        is not enrolled in the course that owns it, each leaving the tables as they were;
        otherwise the enrollment's record for the subtopic, found or new, is set completed
        at `now` and saved. */
    method MarkSubtopicComplete(subtopicId: string, userId: int, now: int)
      returns (reply: Result<SubtopicCompleteResponse>)
      requires Valid()
      modifies this
      ensures Valid()
      ensures reply == MarkComplete(courses, old(State()), subtopicId, userId, now).reply
      ensures State() == MarkComplete(courses, old(State()), subtopicId, userId, now).after
    {
      ghost var before := State();
      MarkPreservesConsistent(courses, users, before, subtopicId, userId, now);
      var found := FindSubtopic(courses, subtopicId);
      if found.None? {
        return Err(NotFound(SubtopicMissing(subtopicId)));
      }
      var ref := found.value;
      var index := EnrollmentOf(enrollments, userId, ref.course.id);
      if index.None? {
        return Err(Forbidden(NotEnrolled));
      }
      var enrollment := enrollments[index.value];
      var existing := RecordOf(records, enrollment.id, subtopicId);
      var progress;
      if existing.Some? {
        progress := records[existing.value];
      } else {
        // A fresh record: not yet completed, and its completion time (null in the source)
        // is overwritten below.
        progress := ProgressRecord(enrollment.id, ref.subtopic, false, now);
      }
      progress := progress.(completed := true, completedAt := now);
      if existing.Some? {
        records := records[existing.value := progress];
      } else {
        records := records + [progress];
      }
      reply := Ok(SubtopicCompleteResponse(subtopicId, progress.completed, progress.completedAt));
    }

    /** getProgress: NotFound for an unknown enrollment, Forbidden for another user's; for the
        owner, the course's subtopic count, the number of completed records with one item
        each, and a percentage between 0 and 100 that is 0 for a course without subtopics. */
    function GetProgress(enrollmentId: int, userId: int): (r: Result<ProgressResponse>)
      reads this
      ensures r == Progress(State(), enrollmentId, userId)
      ensures r.Err? <==> EnrollmentById(enrollments, enrollmentId).None?
                          || EnrollmentById(enrollments, enrollmentId).value.userId != userId
      ensures r.Ok? ==> r.value.enrollmentId == enrollmentId
                        && r.value.courseId == EnrollmentById(enrollments, enrollmentId).value.course.id
                        && r.value.completedSubtopics == |r.value.completedItems|
                        && r.value.totalSubtopics == |SubtopicsOf(EnrollmentById(enrollments, enrollmentId).value.course)|
                        && r.value.completionHundredths
                           == Hundredths(r.value.completedSubtopics, r.value.totalSubtopics)
                        && (r.value.totalSubtopics == 0 ==> r.value.completionHundredths == 0)
      ensures Valid() && r.Ok? ==>
                && r.value.completedSubtopics == |RecordsOf(records, enrollmentId)|
                && r.value.completedSubtopics <= r.value.totalSubtopics
                && r.value.completionHundredths <= 10000
    {
      ProgressSpec(courses, users, State(), enrollmentId, userId);
      Progress(State(), enrollmentId, userId)
    }
  }
}
