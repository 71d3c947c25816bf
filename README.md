# course-platform: course catalogue, search and enrollment progress in Dafny

This project models the service layer of a course platform. A course holds ordered topics, and each topic holds ordered subtopics with text content. Users enrol in courses, mark subtopics as completed and read back their progress. The model covers the two services that hold the platform's logic:

- **CourseService**
  - `getAllCourses` lists every course with its topic count and subtopic count.
  - `getCourseById` returns the detail view of one course, or NotFound.
  - `searchCourses` handles the keyword search. It matches the lower-cased query against every subtopic's title, then its content. A title hit gives a match of type "subtopic" whose snippet is the content, cut to 150 characters plus "..." when longer. A content hit gives a match of type "content" whose snippet is a window around the first occurrence. Courses without matches are dropped.
- **EnrollmentService**
  - `enrollInCourse` creates one enrollment per (user, course).
  - `markSubtopicComplete` creates or updates the single progress record per (enrollment, subtopic).
  - `getProgress` counts completed subtopics and rounds the completion percentage to hundredths.

Modules:

- `Wrappers` (`wrappers.dfy`): `Option`, the three error categories (NotFound, Conflict and Forbidden), each with its message, and `Result`.
- `Text` (`text.dfy`): the `java.lang.String` operations the search uses.
  - `toLowerCase`, restricted to ASCII.
  - `trim`, which strips every character up to U+0020.
  - `indexOf`, which gives the first occurrence or -1.
  - `contains`.
- `Catalog` (`catalog.dfy`): the Course, Topic and Subtopic entities, the subtopic walk in topic-then-subtopic order, and the repository lookups `findById` for courses and for subtopics.
- `CourseService` (`course_service.dfy`):
  - the response shapes;
  - `GetAllCourses` and `GetCourseById`, modelled as functions;
  - the search. The nested loops of `searchCourses` are the methods `CollectMatches` (outer loop), `CollectTopicMatches` (inner loop) and `SubtopicMatch` (loop body). Each is proved equal to the walk functions `CourseWalk` and `TopicWalk` applied to `MatchStep`. `CourseMatchesSpec` then relates those to a flat, independent reading. The stream map and filter around the loops is the function `Results`, and the whole operation is the function `Search`.
- `Ledger` (`ledger.dfy`):
  - the enrollments and subtopic_progress tables as a value (`Store`);
  - the constraints on them (`Consistent`):
    - course ids are unique (the primary key);
    - every enrollment names a catalog course and a registered user, and has an id below the next identity value; enrollment ids are distinct;
    - (user, course) is unique;
    - every record belongs to an existing enrollment;
    - (enrollment, subtopic) is unique;
    - every record is for a subtopic of its own enrollment's course;
    - every record is completed.

    The database enforces the keys, the foreign keys and the two unique pairs. The last two conditions are not database constraints: `markSubtopicComplete`, the only writer of progress records, finds the enrollment through the subtopic's own course and sets `completed`, and `MarkPreservesConsistent` proves that it keeps them. The bound "completed ≤ total" of `ProgressSpec` rests on them;
  - the three EnrollmentService operations as transitions, `Enroll`, `MarkComplete` and `Progress`, with lemmas about errors, preserved constraints, idempotence and bounds.
- `EnrollmentService` (`enrollment_service.dfy`): the class `Service`. Its methods update the `enrollments` and `records` fields in place. Each method keeps `Valid()` (the constraints above) and is proved to produce exactly the reply and new tables of the corresponding transition. `GetProgress` is a function that reads the object.

Clock readings (`LocalDateTime.now()` and `@PrePersist`) become a parameter `now`. The repository query behind `courseRepository.searchCourses` is a parameter `prefilter: string -> seq<Course>`; it receives the trimmed query, as in the source. Users are represented only by the set of existing user ids.

## Model

| member | source | states |
|---|---|---|
| Text.LowerChar | src/main/java/com/courseplatform/service/CourseService.java:89 | an upper-case ASCII letter becomes its lower-case letter; every other character is kept; the result is never an upper-case letter |
| Text.ToLower | src/main/java/com/courseplatform/service/CourseService.java:93 | lower-casing keeps the length and maps each character in place |
| Text.Trim | src/main/java/com/courseplatform/service/CourseService.java:80 | the trimmed string is a slice of the input; only space characters (up to U+0020) lie outside it; a non-empty result neither starts nor ends with one |
| Text.TrimEmptyIffBlank | src/main/java/com/courseplatform/service/CourseService.java:80 | `trim().isEmpty()` holds exactly when every character is a space character |
| Text.TrimIdempotent | src/main/java/com/courseplatform/service/CourseService.java:84 | trimming a trimmed query changes nothing |
| Text.IndexFrom | src/main/java/com/courseplatform/service/CourseService.java:106 | the result is -1 or an occurrence at or after the start, and no earlier position from the start on is an occurrence |
| Text.IndexOf | src/main/java/com/courseplatform/service/CourseService.java:106 | the result is -1 or the first index at which the pattern occurs |
| Text.ContainsIffOccurs | src/main/java/com/courseplatform/service/CourseService.java:93 | `contains` holds exactly when the pattern occurs at some index |
| Catalog.EntriesCount | src/main/java/com/courseplatform/service/CourseService.java:30-32 | the summed subtopic count equals the number of subtopics met walking all topics |
| Catalog.FindCourse | src/main/java/com/courseplatform/service/CourseService.java:49-50 | a found course is in the catalog with that id; nothing is found exactly when no course has the id; with unique ids the found course is the one with the id |
| Catalog.FindSubtopic | src/main/java/com/courseplatform/service/EnrollmentService.java:63-66 | a found subtopic belongs to a catalog course that is returned as its owner and has the id; nothing is found exactly when no course has a subtopic with the id |
| CourseService.GetAllCourses | src/main/java/com/courseplatform/service/CourseService.java:24-45 | one summary per course in repository order, with the course's id, title and description, its number of topics and the number of subtopics across them |
| CourseService.GetCourseById | src/main/java/com/courseplatform/service/CourseService.java:48-76 | NotFound with the source's message exactly when no course has the id; otherwise the view has that id and rebuilding a course from it gives back the course findById returns |
| CourseService.ViewRoundTrip | src/main/java/com/courseplatform/service/CourseService.java:52-75 | the detail view keeps every topic and subtopic, in order, with id, title and content: projecting and rebuilding is the identity |
| CourseService.TitleSnippet | src/main/java/com/courseplatform/service/CourseService.java:94-96 | content of at most 150 characters is kept whole; longer content becomes its first 150 characters plus "..."; never more than 153 characters |
| CourseService.WindowStart | src/main/java/com/courseplatform/service/CourseService.java:107 | the window starts at most 50 characters before the occurrence, and exactly 50 unless it starts at 0 |
| CourseService.WindowEnd | src/main/java/com/courseplatform/service/CourseService.java:108 | the window ends within the content, at most 100 characters after the occurrence starts, and exactly 100 unless it reaches the end |
| CourseService.MatchOfSpec | src/main/java/com/courseplatform/service/CourseService.java:93-120 | a subtopic matches exactly when its lower-cased title or content contains the query; the match names the topic and subtopic; the title check wins: type "subtopic" exactly when the title contains the query, then with the title snippet, otherwise type "content" |
| CourseService.ContentHit | src/main/java/com/courseplatform/service/CourseService.java:105-119 | for a content-only hit, the index is the first case-insensitive occurrence in the original content; the snippet is the window [max(0,i-50), min(len,i+100)) with "..." in front exactly when the window starts after 0 and behind exactly when it stops before the end; the window spans at most 150 characters and holds the whole occurrence when the query has at most 100 characters |
| CourseService.SubtopicMatch | src/main/java/com/courseplatform/service/CourseService.java:93-120 | the loop body adds exactly the subtopic's match, if any |
| CourseService.CollectTopicMatches | src/main/java/com/courseplatform/service/CourseService.java:92-121 | the inner loop collects the matches of the topic's subtopics in order |
| CourseService.CollectMatches | src/main/java/com/courseplatform/service/CourseService.java:88-122 | the nested loops collect exactly the course's matches, topic by topic |
| CourseService.CourseWalkFlat | src/main/java/com/courseplatform/service/CourseService.java:91-122 | the nested walk equals one flat pass over the subtopics in topic-then-subtopic order |
| CourseService.EntryWalkSpec | src/main/java/com/courseplatform/service/CourseService.java:91-122 | everything the walk yields comes from some subtopic, everything a subtopic adds is kept, and at most one item per subtopic gives at most one per subtopic in total |
| CourseService.CourseMatchesSpec | src/main/java/com/courseplatform/service/CourseService.java:91-122 | a course yields at most one match per subtopic; every match is the match of one of its subtopics, and every matching subtopic has its match listed |
| CourseService.Search | src/main/java/com/courseplatform/service/CourseService.java:79-134 | the query is echoed back unchanged; a null or blank query gives no results |
| CourseService.BlankQueryNoResults | src/main/java/com/courseplatform/service/CourseService.java:80-81 | a null, empty or all-space query answers with an empty list, not an error |
| CourseService.ResultsAppend | src/main/java/com/courseplatform/service/CourseService.java:86-131 | results keep the order of the repository's courses |
| CourseService.ResultsSpec | src/main/java/com/courseplatform/service/CourseService.java:86-131 | at most one result per course; every result has matches and is the result of one of the courses; every course with a match is represented |
| CourseService.SearchSpec | src/main/java/com/courseplatform/service/CourseService.java:84-131 | for a non-blank query the results are drawn from the prefilter's courses for the trimmed query, each non-empty, and none with a match is missing |
| CourseService.UntrimmedQueryMisses | src/main/java/com/courseplatform/service/CourseService.java:84-89 | " java" and "java" trim to the same query, the course is returned for both, yet only "java" finds its subtopic |
| CourseService.SearchTrimmed | src/main/java/com/courseplatform/service/CourseService.java:79-134 | the corrected search: query echoed, null or blank query gives no results, matching on the trimmed query |
| CourseService.SearchTrimmedIgnoresSurroundingSpace | src/main/java/com/courseplatform/service/CourseService.java:84-89 | with matching on the trimmed query, surrounding space never changes the results, and on already trimmed queries it agrees with the search as written |
| Ledger.EnrollmentById | src/main/java/com/courseplatform/service/EnrollmentService.java:94-95 | a found enrollment is in the table with that id; nothing is found exactly when no enrollment has it |
| Ledger.EnrollmentOf | src/main/java/com/courseplatform/service/EnrollmentService.java:68-69 | the first enrollment of the user in the course, or none exactly when there is no such enrollment |
| Ledger.RecordOf | src/main/java/com/courseplatform/service/EnrollmentService.java:71-73 | the first record of the enrollment for the subtopic id, or none exactly when there is no such record |
| Ledger.RecordsOf | src/main/java/com/courseplatform/service/EnrollmentService.java:107 | exactly the records of the enrollment |
| Ledger.RecordsOfAppend | src/main/java/com/courseplatform/service/EnrollmentService.java:107 | selecting from a concatenation is concatenating the selections, so the enrollment's records keep their table order and appear once each |
| Ledger.RecordsOfOne | src/main/java/com/courseplatform/service/EnrollmentService.java:107 | a single record is selected exactly when it belongs to the enrollment |
| Ledger.EmptyConsistent | src/main/java/com/courseplatform/entity/Enrollment.java:12-14 | empty tables satisfy the database constraints |
| Ledger.EnrollSpec | src/main/java/com/courseplatform/service/EnrollmentService.java:36-59 | NotFound for no such course, then NotFound for no such user, then Conflict when already enrolled, each exactly under its condition and each leaving the tables unchanged; success exactly otherwise, appending one enrollment of the user in that course under the next id, dated now, and answering with its id, course and date |
| Ledger.EnrollPreservesConsistent | src/main/java/com/courseplatform/entity/Enrollment.java:12-14 | enrolling keeps the constraints, among them one enrollment per (user, course) |
| Ledger.EnrollTwiceConflicts | src/main/java/com/courseplatform/service/EnrollmentService.java:43-45 | a second enrolment of the same user in the same course is a Conflict and changes nothing |
| Ledger.MarkRecordSpec | src/main/java/com/courseplatform/service/EnrollmentService.java:71-83 | after marking, the pair's record exists, is completed at now; when a record existed it stays in place with only `completed` and `completedAt` changed, otherwise the new record for the subtopic is last; every other record is unchanged |
| Ledger.MarkSpec | src/main/java/com/courseplatform/service/EnrollmentService.java:62-90 | NotFound exactly when no subtopic has the id, then Forbidden exactly when the user is not enrolled in the owning course, each leaving the tables unchanged; success exactly when the subtopic exists and the user is enrolled in its course, and it answers completed at now and changes only the progress table |
| Ledger.MarkPreservesConsistent | src/main/java/com/courseplatform/entity/SubtopicProgress.java:10-12 | marking keeps the constraints, among them one record per (enrollment, subtopic) |
| Ledger.OwningEnrollment | src/main/java/com/courseplatform/service/EnrollmentService.java:66-68 | the enrollment found by the owning course's id is an enrollment in that very course |
| Ledger.MarkRecordValid | src/main/java/com/courseplatform/service/EnrollmentService.java:71-83 | a record made or updated for a subtopic of the enrollment's course keeps the progress table valid |
| Ledger.MarkIdempotent | src/main/java/com/courseplatform/service/EnrollmentService.java:71-83 | marking the same subtopic twice equals marking it once at the later time: no second record appears |
| Ledger.CompletedOf | src/main/java/com/courseplatform/service/EnrollmentService.java:109-111 | exactly the completed records, and all of them when every record is completed |
| Ledger.HundredthsSpec | src/main/java/com/courseplatform/service/EnrollmentService.java:113-115 | the percentage in hundredths is within half a hundredth of 100 * completed / total, at most 100 % when completed does not exceed total, and exactly 100 % when all are completed |
| Ledger.ProgressSpec | src/main/java/com/courseplatform/service/EnrollmentService.java:93-135 | NotFound exactly for an unknown enrollment, then Forbidden exactly for another user's, and success exactly for the owner; the total is the course's subtopic count, one item per completed record in table order, the percentage is `Hundredths(completed, total)` (rounded to the nearest hundredth by `HundredthsSpec`), 0 % for a course without subtopics, and under the constraints every record counts, completed never exceeds total and the percentage is at most 100 |
| Ledger.MarkThenProgress | src/main/java/com/courseplatform/service/EnrollmentService.java:80-83 | after a successful mark, the owner's progress lists the subtopic as completed at the marking time |
| EnrollmentService.Service.EnrollInCourse | src/main/java/com/courseplatform/service/EnrollmentService.java:36-59 | keeps the constraints, and its reply and new tables are those of the enrolment transition |
| EnrollmentService.Service.MarkSubtopicComplete | src/main/java/com/courseplatform/service/EnrollmentService.java:62-90 | keeps the constraints, updating the found record in place or appending a new one; reply and new tables are those of the marking transition |
| EnrollmentService.Service.GetProgress | src/main/java/com/courseplatform/service/EnrollmentService.java:93-135 | the answer is the `Progress` of the current tables: an error exactly for an unknown enrollment or another user's; the total is the course's subtopic count; one item per completed subtopic; the percentage is `Hundredths(completed, total)`; 0 % without subtopics; under the constraints completed counts every record of the enrollment, never exceeds total, and the percentage is at most 100 |

## Left out

- Controllers, `AuthService`, `DataSeederService` and `GlobalExceptionHandler` are not part of this model. They cover HTTP routing, password hashing and tokens, JSON seeding, and the mapping of errors to status codes. The services receive an already resolved user id, and the error datatype keeps the three categories and their messages.
- The JPQL query behind `courseRepository.searchCourses` is not shown, so it is an arbitrary function of the trimmed query.
- `findAll` is the catalog sequence itself.
- JPA details are left out: lazy loading, cascades, transactions and the generated ids of progress records. A progress record has no id of its own; it is found by (enrollment, subtopic id).
- Concurrency is left out. Two concurrent requests could both pass the uniqueness checks before the database constraint rejects one; the model is sequential.
- Text.LowerChar: only ASCII letters are lower-cased. Java's full Unicode `toLowerCase` can change a string's length, and the no-argument `toLowerCase()` follows the default locale (in a Turkish locale 'I' becomes a dotless 'ı'); neither locale-dependent case mapping nor length changes are modelled.
- Text.Trim and Text.IndexOf work on Dafny `char`s. Java strings are UTF-16 code units; the model makes no distinction for characters outside the Basic Multilingual Plane.
- Ledger.Hundredths: `Math.round(c * 100.0 / t * 100.0) / 100.0` is modelled as an exact rational rounded half-up to a whole number of hundredths. Double-precision rounding error is not modelled.
- Counts and ids are unbounded integers. Java `int`/`Long` overflow is not modelled.
- Timestamps are integers given as `now`. The source's null `completedAt` of a fresh record is replaced by `now` before it is saved, so it is not modelled.
- CourseService.ContentHit: the window holds the whole occurrence only for queries of at most 100 characters. This follows the source: a longer query's occurrence is cut at index + 100.
- A null query is `None`, and a present string is `Some`.
- Catalog.FindSubtopic: subtopic ids are the subtopic table's primary key, but the catalog invariant `UniqueCourseIds` states only course-id uniqueness. With two catalog subtopics sharing an id the model takes the first course holding it, a catalog the database cannot hold.

## Findings

| source | as written | input that shows it | evidently intended | confidence | as-written member | corrected member |
|---|---|---|---|---|---|---|
| src/main/java/com/courseplatform/service/CourseService.java:84-89 | the repository is asked with `query.trim()`, but the in-memory matching lower-cases the untrimmed `query` | a course with a subtopic titled "JavaBasics" and the query " java": the course is returned for "java", yet " java" matches nothing in it, so the search answers no results where "java" finds the subtopic | match on the trimmed query, so surrounding space does not change the answer | not executed | CourseService.UntrimmedQueryMisses | CourseService.SearchTrimmed |
