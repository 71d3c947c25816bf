/** CourseService: the course listing with derived counts, the course detail view and the
    keyword search with its snippets. */
module CourseService {
  import opened Wrappers
  import opened Text
  import opened Catalog

  // ---------------------------------------------------------------------------------------
  // Response shapes

  datatype CourseSummary = CourseSummary(id: string, title: string, description: string,
                                         topicCount: nat, subtopicCount: nat)
  datatype CourseListResponse = CourseListResponse(courses: seq<CourseSummary>)

  datatype SubtopicDetail = SubtopicDetail(id: string, title: string, content: string)
  datatype TopicDetail = TopicDetail(id: string, title: string, subtopics: seq<SubtopicDetail>)
  datatype CourseDetailResponse = CourseDetailResponse(id: string, title: string, description: string,
                                                       topics: seq<TopicDetail>)

  datatype SearchMatch = SearchMatch(matchType: string, topicTitle: string, subtopicId: string,
                                     subtopicTitle: string, snippet: string)
  datatype SearchResult = SearchResult(courseId: string, courseTitle: string, matches: seq<SearchMatch>)
  /** `query` is echoed back as given, untrimmed; None stands for a null query. */
  datatype SearchResponse = SearchResponse(query: Option<string>, results: seq<SearchResult>)

  // ---------------------------------------------------------------------------------------
  // getAllCourses

  function Summary(c: Course): CourseSummary {
    CourseSummary(c.id, c.title, c.description, |c.topics|, SubtopicCount(c.topics))
  }

  /** One summary per course, in the repository's order. Its counts agree with the tree: the
      topic count is the number of topics and the subtopic count is the number of subtopics
      met walking every topic. */
  function GetAllCourses(courses: seq<Course>): (r: CourseListResponse)
    ensures |r.courses| == |courses|
    ensures forall i :: 0 <= i < |courses| ==>
      && r.courses[i].id == courses[i].id
      && r.courses[i].title == courses[i].title
      && r.courses[i].description == courses[i].description
      && r.courses[i].topicCount == |courses[i].topics|
      && r.courses[i].subtopicCount == |Entries(courses[i].topics)|
  {
    EntriesCountAll(courses);
    CourseListResponse(seq(|courses|, i requires 0 <= i < |courses| => Summary(courses[i])))
  }

  lemma EntriesCountAll(courses: seq<Course>)
    ensures forall i :: 0 <= i < |courses| ==> |Entries(courses[i].topics)| == SubtopicCount(courses[i].topics)
  {
    forall i | 0 <= i < |courses| {
      EntriesCount(courses[i].topics);
    }
  }

  // ---------------------------------------------------------------------------------------
  // getCourseById

  function SubtopicView(s: Subtopic): SubtopicDetail {
    SubtopicDetail(s.id, s.title, s.content)
  }

  function TopicView(t: Topic): TopicDetail {
    TopicDetail(t.id, t.title, seq(|t.subtopics|, k requires 0 <= k < |t.subtopics| => SubtopicView(t.subtopics[k])))
  }

  function CourseView(c: Course): CourseDetailResponse {
    CourseDetailResponse(c.id, c.title, c.description,
                         seq(|c.topics|, k requires 0 <= k < |c.topics| => TopicView(c.topics[k])))
  }

  /** Rebuilds a course from its detail view; used to state that the view loses nothing. */
  function CourseOfView(d: CourseDetailResponse): Course {
    Course(d.id, d.title, d.description,
           seq(|d.topics|, k requires 0 <= k < |d.topics| => TopicOfView(d.topics[k])))
  }

  function TopicOfView(d: TopicDetail): Topic {
    Topic(d.id, d.title, seq(|d.subtopics|, k requires 0 <= k < |d.subtopics| =>
      Subtopic(d.subtopics[k].id, d.subtopics[k].title, d.subtopics[k].content)))
  }

  /** The detail view of the course with id `id`, or NotFound when the catalog has none. A
      found course's view keeps its id, title and description and every topic and subtopic
      with its id, title and content, in order: rebuilding a course from it gives the course
      back. */
  function GetCourseById(courses: seq<Course>, id: string): (r: Result<CourseDetailResponse>)
    ensures r.Err? <==> forall c :: c in courses ==> c.id != id
    ensures r.Err? ==> r.error == NotFound("Course with id '" + id + "' does not exist")
    ensures r.Ok? ==> r.value.id == id && CourseOfView(r.value) in courses
    ensures r.Ok? ==> Some(CourseOfView(r.value)) == FindCourse(courses, id)
  {
    match FindCourse(courses, id)
    case None => Err(NotFound("Course with id '" + id + "' does not exist"))
    case Some(c) =>
      ViewRoundTrip(c);
      Ok(CourseView(c))
  }

  /** Projecting a course to its detail view and back is the identity. */
  lemma ViewRoundTrip(c: Course)
    ensures CourseOfView(CourseView(c)) == c
  {
    var d := CourseView(c);
    forall k | 0 <= k < |c.topics|
      ensures TopicOfView(d.topics[k]) == c.topics[k]
    {
      var t := c.topics[k];
      assert TopicOfView(TopicView(t)).subtopics == t.subtopics;
    }
    assert CourseOfView(d).topics == c.topics;
  }

  // ---------------------------------------------------------------------------------------
  // searchCourses

  const SubtopicMatchType := "subtopic"
  const ContentMatchType := "content"
  const Ellipsis := "..."
  /** How much of the content a title hit shows. */
  const TitleSnippetLength := 150
  /** How far a content hit's window reaches before and after the occurrence. */
  const ContextBefore := 50
  const ContextAfter := 100

  /** The snippet of a title hit: the content, cut to its first 150 characters plus an
      ellipsis when it is longer. It never exceeds 153 characters and always begins with as
      much of the content as fits. */
  function TitleSnippet(content: string): (r: string)
    ensures |r| <= TitleSnippetLength + |Ellipsis|
    ensures |content| <= TitleSnippetLength ==> r == content
    ensures |content| > TitleSnippetLength ==> |r| == TitleSnippetLength + |Ellipsis|
                                               && r[..TitleSnippetLength] == content[..TitleSnippetLength]
                                               && r[TitleSnippetLength..] == Ellipsis
  {
    if |content| > TitleSnippetLength then content[..TitleSnippetLength] + Ellipsis else content
  }

  /** Math.max(0, index - 50): the window starts 50 characters before the occurrence, or at 0. */
  function WindowStart(idx: nat): (start: nat)
    ensures start <= idx && idx - start <= ContextBefore
    ensures start == 0 || idx - start == ContextBefore
  {
    if idx - ContextBefore > 0 then idx - ContextBefore else 0
  }

  /** Math.min(length, index + 100): the window ends 100 characters after the occurrence's
      start, or at the end of the content. */
  function WindowEnd(len: nat, idx: nat): (end: nat)
    requires idx <= len
    ensures idx <= end <= len && end - idx <= ContextAfter
    ensures end == len || end - idx == ContextAfter
  {
    if len < idx + ContextAfter then len else idx + ContextAfter
  }

  /** The snippet of a content hit whose first occurrence starts at `idx`. */
  function ContentSnippet(content: string, idx: nat): string
    requires idx <= |content|
  {
    var start := WindowStart(idx);
    var end := WindowEnd(|content|, idx);
    (if start > 0 then Ellipsis else "") + content[start..end] + (if end < |content| then Ellipsis else "")
  }

  /** What one subtopic of `topic` contributes to the matches for the lower-cased query `lq`
      (the body of searchCourses' inner loop). */
  function MatchOf(topic: Topic, s: Subtopic, lq: string): Option<SearchMatch>
  {
    if Contains(ToLower(s.title), lq) then
      Some(SearchMatch(SubtopicMatchType, topic.title, s.id, s.title, TitleSnippet(s.content)))
    else if Contains(ToLower(s.content), lq) then
      var idx := IndexOf(ToLower(s.content), lq);
      Some(SearchMatch(ContentMatchType, topic.title, s.id, s.title, ContentSnippet(s.content, idx)))
    else
      None
  }

  /** A subtopic matches when its lower-cased title or its lower-cased content contains the
      query; the match names the subtopic and its topic. A title hit wins over a content hit:
      the match is of type "subtopic" exactly when the title contains the query, and then its
      snippet is the title-hit snippet of the content; otherwise it is of type "content". */
  lemma MatchOfSpec(topic: Topic, s: Subtopic, lq: string)
    ensures var r := MatchOf(topic, s, lq);
      && (r.Some? <==> Contains(ToLower(s.title), lq) || Contains(ToLower(s.content), lq))
      && (r.Some? ==> r.value.topicTitle == topic.title && r.value.subtopicId == s.id
                      && r.value.subtopicTitle == s.title)
      && (r.Some? ==> (r.value.matchType == SubtopicMatchType <==> Contains(ToLower(s.title), lq)))
      && (r.Some? ==> (r.value.matchType == ContentMatchType <==> !Contains(ToLower(s.title), lq)))
      && (Contains(ToLower(s.title), lq) ==> r.value.snippet == TitleSnippet(s.content))
  {
  }

  /** Lower-casing commutes with slicing, since it works character by character. */
  lemma ToLowerSlice(s: string, a: nat, b: nat)
    requires a <= b <= |s|
    ensures ToLower(s[a..b]) == ToLower(s)[a..b]
  {
    assert |ToLower(s[a..b])| == b - a;
    forall k | 0 <= k < b - a
      ensures ToLower(s[a..b])[k] == ToLower(s)[a..b][k]
    {
    }
  }

  /** A content-only hit: the match has the type "content" and its snippet is the content's
      window [start, end) around the first case-insensitive occurrence at `idx`, with an
      ellipsis in front exactly when the window does not start at 0 and one behind exactly
      when it stops short of the end. The window holds at most 150 characters, starts at or
      before the occurrence, and holds the whole occurrence whenever the query has at most
      100 characters. The index, found in the lower-cased content, points at the same
      occurrence in the original content. */
  lemma ContentHit(topic: Topic, s: Subtopic, lq: string)
    requires !Contains(ToLower(s.title), lq) && Contains(ToLower(s.content), lq)
    ensures var idx := IndexOf(ToLower(s.content), lq);
            && 0 <= idx && idx + |lq| <= |s.content|
            && ToLower(s.content[idx..idx + |lq|]) == lq
            && (forall j :: 0 <= j < idx ==> !OccursAt(ToLower(s.content), lq, j))
            && var start := WindowStart(idx);
               var end := WindowEnd(|s.content|, idx);
               && start <= idx <= end <= |s.content|
               && end - start <= TitleSnippetLength
               && (|lq| <= ContextAfter ==> idx + |lq| <= end)
               && MatchOf(topic, s, lq) == Some(SearchMatch(ContentMatchType, topic.title, s.id, s.title,
                    (if start > 0 then Ellipsis else "") + s.content[start..end]
                    + (if end < |s.content| then Ellipsis else "")))
  {
    var idx := IndexOf(ToLower(s.content), lq);
    ToLowerSlice(s.content, idx, idx + |lq|);
  }

  /** The match of a subtopic as a list of zero or one entries. */
  function MatchSeq(m: Option<SearchMatch>): (r: seq<SearchMatch>)
    ensures |r| <= 1
    ensures m.Some? ==> r == [m.value]
    ensures m.None? ==> r == []
  {
    if m.Some? then [m.value] else []
  }

  /** What one subtopic, with its topic, adds to the matches for the lower-cased query `lq`. */
  function MatchStep(lq: string): Entry -> seq<SearchMatch> {
    (e: Entry) => MatchSeq(MatchOf(e.topic, e.subtopic, lq))
  }

  // The nested walk of searchCourses with what each subtopic adds left as a parameter `step`, so
  // that its shape can be reasoned about apart from the matching itself.

  /** What the first `n` subtopics of `topic` add, in order. */
  function TopicWalk(topic: Topic, n: nat, step: Entry -> seq<SearchMatch>): seq<SearchMatch>
    requires n <= |topic.subtopics|
  {
    if n == 0 then [] else TopicWalk(topic, n - 1, step) + step(Entry(topic, topic.subtopics[n - 1]))
  }

  /** What the subtopics of the first `n` topics of `c` add, topic by topic. */
  function CourseWalk(c: Course, n: nat, step: Entry -> seq<SearchMatch>): seq<SearchMatch>
    requires n <= |c.topics|
  {
    if n == 0 then []
    else CourseWalk(c, n - 1, step) + TopicWalk(c.topics[n - 1], |c.topics[n - 1].subtopics|, step)
  }

  /** The matches of one course for the lower-cased query `lq`. */
  function CourseMatches(c: Course, lq: string): seq<SearchMatch> {
    CourseWalk(c, |c.topics|, MatchStep(lq))
  }

  /** The body of searchCourses' inner loop: a title hit gives a "subtopic" match with the
      title snippet, otherwise a content hit gives a "content" match with the window around
      the first occurrence, otherwise nothing is added. */
  method SubtopicMatch(topic: Topic, s: Subtopic, lq: string) returns (found: seq<SearchMatch>)
    ensures found == MatchStep(lq)(Entry(topic, s))
  {
    if Contains(ToLower(s.title), lq) {
      var snippet := TitleSnippet(s.content);
      found := [SearchMatch(SubtopicMatchType, topic.title, s.id, s.title, snippet)];
    } else if Contains(ToLower(s.content), lq) {
      var index := IndexOf(ToLower(s.content), lq);
      var snippet := ContentSnippet(s.content, index);
      found := [SearchMatch(ContentMatchType, topic.title, s.id, s.title, snippet)];
    } else {
      found := [];
    }
  }

  /** searchCourses' inner loop: every subtopic of `topic` in order, each adding its
      match, if any. */
  method CollectTopicMatches(topic: Topic, lq: string) returns (found: seq<SearchMatch>)
    ensures found == TopicWalk(topic, |topic.subtopics|, MatchStep(lq))
  {
    ghost var step := MatchStep(lq);
    found := [];
    var j := 0;
    while j < |topic.subtopics|
      invariant 0 <= j <= |topic.subtopics|
      invariant found == TopicWalk(topic, j, step)
    {
      var m := SubtopicMatch(topic, topic.subtopics[j], lq);
      assert m == step(Entry(topic, topic.subtopics[j]));
      assert TopicWalk(topic, j + 1, step) == TopicWalk(topic, j, step) + m;
      found := found + m;
      j := j + 1;
    }
  }

  /** searchCourses' outer loop: every topic of `c` in order, each adding the matches
      of its subtopics to `matches`. */
  method CollectMatches(c: Course, lq: string) returns (matches: seq<SearchMatch>)
    ensures matches == CourseMatches(c, lq)
  {
    ghost var step := MatchStep(lq);
    matches := [];
    var i := 0;
    while i < |c.topics|
      invariant 0 <= i <= |c.topics|
      invariant matches == CourseWalk(c, i, step)
    {
      var found := CollectTopicMatches(c.topics[i], lq);
      assert CourseWalk(c, i + 1, step) == CourseWalk(c, i, step) + found;
      matches := matches + found;
      i := i + 1;
    }
  }

  // An independent, flat reading of the same walk: one step per subtopic in topic-then-
  // subtopic order.

  function EntryWalk(es: seq<Entry>, step: Entry -> seq<SearchMatch>): seq<SearchMatch>
  {
    if es == [] then [] else step(es[0]) + EntryWalk(es[1..], step)
  }

  lemma {:induction false} EntryWalkAppend(a: seq<Entry>, b: seq<Entry>, step: Entry -> seq<SearchMatch>)
    ensures EntryWalk(a + b, step) == EntryWalk(a, step) + EntryWalk(b, step)
  {
    if a == [] {
      assert a + b == b;
    } else {
      assert (a + b)[1..] == a[1..] + b;
      EntryWalkAppend(a[1..], b, step);
    }
  }

  lemma {:induction false} EntriesAppend(a: seq<Topic>, b: seq<Topic>)
    ensures Entries(a + b) == Entries(a) + Entries(b)
  {
    if a == [] {
      assert a + b == b;
    } else {
      assert (a + b)[1..] == a[1..] + b;
      EntriesAppend(a[1..], b);
    }
  }

  lemma {:induction false} TopicWalkFlat(t: Topic, n: nat, step: Entry -> seq<SearchMatch>)
    requires n <= |t.subtopics|
    ensures TopicWalk(t, n, step) == EntryWalk(TopicEntries(t)[..n], step)
  {
    if n == 0 {
      assert TopicEntries(t)[..0] == [];
    } else {
      TopicWalkFlat(t, n - 1, step);
      var e := Entry(t, t.subtopics[n - 1]);
      assert TopicEntries(t)[..n] == TopicEntries(t)[..n - 1] + [e];
      EntryWalkAppend(TopicEntries(t)[..n - 1], [e], step);
      assert [e][1..] == [];
      assert EntryWalk([e], step) == step(e);
    }
  }

  /** The nested walk equals the flat one: a course's walk is, in topic-then-subtopic order,
      what each of its subtopics adds. */
  lemma {:induction false} CourseWalkFlat(c: Course, n: nat, step: Entry -> seq<SearchMatch>)
    requires n <= |c.topics|
    ensures CourseWalk(c, n, step) == EntryWalk(Entries(c.topics[..n]), step)
  {
    if n == 0 {
      assert c.topics[..0] == [];
    } else {
      var last := c.topics[n - 1];
      CourseWalkFlat(c, n - 1, step);
      assert c.topics[..n] == c.topics[..n - 1] + [last];
      EntriesAppend(c.topics[..n - 1], [last]);
      assert Entries([last]) == TopicEntries(last);
      EntryWalkAppend(Entries(c.topics[..n - 1]), TopicEntries(last), step);
      TopicWalkFlat(last, |last.subtopics|, step);
      assert TopicEntries(last)[..|last.subtopics|] == TopicEntries(last);
    }
  }

  /** Everything the flat walk yields comes from one of the entries, everything an entry
      adds is in it, and when no entry adds more than one item it is no longer than `es`. */
  lemma {:induction false} EntryWalkSpec(es: seq<Entry>, step: Entry -> seq<SearchMatch>)
    ensures forall m :: m in EntryWalk(es, step) ==> exists k :: 0 <= k < |es| && m in step(es[k])
    ensures forall k, m :: 0 <= k < |es| && m in step(es[k]) ==> m in EntryWalk(es, step)
    ensures (forall k :: 0 <= k < |es| ==> |step(es[k])| <= 1) ==> |EntryWalk(es, step)| <= |es|
  {
    if es != [] {
      var rest := EntryWalk(es[1..], step);
      EntryWalkSpec(es[1..], step);
      forall m | m in EntryWalk(es, step)
        ensures exists k :: 0 <= k < |es| && m in step(es[k])
      {
        if m in rest {
          var k :| 0 <= k < |es[1..]| && m in step(es[1..][k]);
          assert es[k + 1] == es[1..][k];
        } else {
          assert m in step(es[0]);
        }
      }
      forall k, m | 0 <= k < |es| && m in step(es[k])
        ensures m in EntryWalk(es, step)
      {
        if k > 0 {
          assert es[1..][k - 1] == es[k];
        }
      }
      if forall k :: 0 <= k < |es| ==> |step(es[k])| <= 1 {
        assert forall k :: 0 <= k < |es[1..]| ==> |step(es[1..][k])| <= 1 by {
          forall k | 0 <= k < |es[1..]| ensures |step(es[1..][k])| <= 1 {
            assert es[1..][k] == es[k + 1];
          }
        }
      }
    }
  }

  /** A course yields at most one match per subtopic; its matches are, in topic-then-subtopic
      order, the matches of its subtopics: every match is the match of one of its subtopics,
      and every subtopic that matches has its match among them. */
  lemma CourseMatchesSpec(c: Course, lq: string)
    ensures CourseMatches(c, lq) == EntryWalk(Entries(c.topics), MatchStep(lq))
    ensures |CourseMatches(c, lq)| <= SubtopicCount(c.topics)
    ensures forall m :: m in CourseMatches(c, lq) ==>
              exists e :: e in Entries(c.topics) && MatchOf(e.topic, e.subtopic, lq) == Some(m)
    ensures forall e :: e in Entries(c.topics) && MatchOf(e.topic, e.subtopic, lq).Some? ==>
              MatchOf(e.topic, e.subtopic, lq).value in CourseMatches(c, lq)
  {
    var es := Entries(c.topics);
    var step := MatchStep(lq);
    CourseWalkFlat(c, |c.topics|, step);
    assert c.topics[..|c.topics|] == c.topics;
    EntryWalkSpec(es, step);
    EntriesCount(c.topics);
    forall m | m in CourseMatches(c, lq)
      ensures exists e :: e in es && MatchOf(e.topic, e.subtopic, lq) == Some(m)
    {
      var k :| 0 <= k < |es| && m in step(es[k]);
      assert es[k] in es;
    }
    forall e | e in es && MatchOf(e.topic, e.subtopic, lq).Some?
      ensures MatchOf(e.topic, e.subtopic, lq).value in CourseMatches(c, lq)
    {
      var k :| 0 <= k < |es| && es[k] == e;
      assert MatchOf(e.topic, e.subtopic, lq).value in step(es[k]);
    }
  }

  /** The search result searchCourses builds for one course. */
  function ResultOf(c: Course, lq: string): SearchResult {
    SearchResult(c.id, c.title, CourseMatches(c, lq))
  }

  /** The stream searchCourses runs over the prefiltered courses: one result per course, dropping courses without matches. */
  function Results(courses: seq<Course>, lq: string): seq<SearchResult>
  {
    if courses == [] then []
    else (if CourseMatches(courses[0], lq) == [] then [] else [ResultOf(courses[0], lq)])
         + Results(courses[1..], lq)
  }

  /** searchCourses. A null or blank query answers with no results; otherwise `prefilter`
      stands for the repository query, which sees the trimmed query, while the matching in
      memory lower-cases the query as given, untrimmed. */
  function Search(query: Option<string>, prefilter: string -> seq<Course>): (r: SearchResponse)
    ensures r.query == query
    ensures query.None? || Trim(query.value) == [] ==> r.results == []
  {
    if query.None? || Trim(query.value) == [] then SearchResponse(query, [])
    else SearchResponse(query, Results(prefilter(Trim(query.value)), ToLower(query.value)))
  }

  /** A null query, the empty query and any query of spaces only answer with an empty
      result list. */
  lemma BlankQueryNoResults(query: Option<string>, prefilter: string -> seq<Course>)
    requires query.None? || forall i :: 0 <= i < |query.value| ==> IsSpace(query.value[i])
    ensures Search(query, prefilter) == SearchResponse(query, [])
  {
    if query.Some? {
      TrimEmptyIffBlank(query.value);
    }
  }

  /** Results keeps the order of the courses: it distributes over concatenation. */
  lemma {:induction false} ResultsAppend(a: seq<Course>, b: seq<Course>, lq: string)
    ensures Results(a + b, lq) == Results(a, lq) + Results(b, lq)
  {
    if a == [] {
      assert a + b == b;
    } else {
      assert (a + b)[1..] == a[1..] + b;
      ResultsAppend(a[1..], b, lq);
    }
  }

  /** Every result has matches and is the result of one of the courses; every course with a
      match has its result among them; there is at most one result per course. */
  lemma {:induction false} ResultsSpec(courses: seq<Course>, lq: string)
    ensures |Results(courses, lq)| <= |courses|
    ensures forall r :: r in Results(courses, lq) ==> r.matches != []
    ensures forall r :: r in Results(courses, lq) ==> exists c :: c in courses && r == ResultOf(c, lq)
    ensures forall c :: c in courses && CourseMatches(c, lq) != [] ==> ResultOf(c, lq) in Results(courses, lq)
  {
    if courses != [] {
      ResultsSpec(courses[1..], lq);
      forall r | r in Results(courses, lq)
        ensures exists c :: c in courses && r == ResultOf(c, lq)
      {
        if r in Results(courses[1..], lq) {
          var c :| c in courses[1..] && r == ResultOf(c, lq);
          assert c in courses;
        } else {
          assert r == ResultOf(courses[0], lq);
        }
      }
      forall c | c in courses && CourseMatches(c, lq) != []
        ensures ResultOf(c, lq) in Results(courses, lq)
      {
        if c != courses[0] {
          assert c in courses[1..];
        }
      }
    }
  }

  /** For a query that is not blank: the answer's results are drawn, in order, from the
      courses the prefilter returns for the trimmed query, each with at least one match for
      the untrimmed, lower-cased query. */
  lemma SearchSpec(query: string, prefilter: string -> seq<Course>)
    requires Trim(query) != []
    ensures var r := Search(Some(query), prefilter).results;
            var cs := prefilter(Trim(query));
            && |r| <= |cs|
            && (forall x :: x in r ==> x.matches != [])
            && (forall x :: x in r ==> exists c :: c in cs && x == ResultOf(c, ToLower(query)))
            && (forall c :: c in cs && CourseMatches(c, ToLower(query)) != [] ==> ResultOf(c, ToLower(query)) in r)
  {
    ResultsSpec(prefilter(Trim(query)), ToLower(query));
  }

  // ---------------------------------------------------------------------------------------
  // The untrimmed query used for matching

  /** No occurrence of a pattern that holds a space in a text that holds none. */
  lemma NoSpaceNoMatch(text: string, pat: string, p: nat)
    requires p < |pat| && pat[p] == ' '
    requires forall i :: 0 <= i < |text| ==> text[i] != ' '
    ensures !Contains(text, pat)
  {
    forall k | 0 <= k && k + |pat| <= |text|
      ensures !OccursAt(text, pat, k)
    {
      assert text[k..k + |pat|][p] == text[k + p];
    }
    ContainsIffOccurs(text, pat);
  }

  /** A course whose one subtopic is titled "JavaBasics". */
  function JavaCourse(): Course {
    Course("java", "Java", "Learn Java", [Topic("t1", "Intro", [Subtopic("s1", "JavaBasics", "Syntax")])])
  }

  lemma JavaLowerCase()
    ensures ToLower(" java") == " java" && ToLower("java") == "java"
    ensures ToLower("JavaBasics") == "javabasics" && ToLower("Syntax") == "syntax"
  {
    assert ToLower(" java") == " java" by { assert forall i :: 0 <= i < 5 ==> ToLower(" java")[i] == " java"[i]; }
    assert ToLower("java") == "java" by { assert forall i :: 0 <= i < 4 ==> ToLower("java")[i] == "java"[i]; }
    assert ToLower("JavaBasics") == "javabasics" by {
      assert forall i :: 0 <= i < 10 ==> ToLower("JavaBasics")[i] == "javabasics"[i];
    }
    assert ToLower("Syntax") == "syntax" by { assert forall i :: 0 <= i < 6 ==> ToLower("Syntax")[i] == "syntax"[i]; }
  }

  /** The course's matches for a query, given what its one subtopic yields. */
  lemma JavaCourseMatches(lq: string)
    ensures var t := JavaCourse().topics[0];
            CourseMatches(JavaCourse(), lq) == MatchSeq(MatchOf(t, t.subtopics[0], lq))
  {
    var c := JavaCourse();
    var t := c.topics[0];
    assert CourseWalk(c, 1, MatchStep(lq)) == CourseWalk(c, 0, MatchStep(lq)) + TopicWalk(t, 1, MatchStep(lq));
    assert TopicWalk(t, 1, MatchStep(lq)) == TopicWalk(t, 0, MatchStep(lq)) + MatchStep(lq)(Entry(t, t.subtopics[0]));
  }

  lemma SpacedJavaMisses()
    ensures CourseMatches(JavaCourse(), " java") == []
  {
    var t := JavaCourse().topics[0];
    JavaLowerCase();
    NoSpaceNoMatch("javabasics", " java", 0);
    NoSpaceNoMatch("syntax", " java", 0);
    assert MatchOf(t, t.subtopics[0], " java") == None;
    JavaCourseMatches(" java");
  }

  lemma PlainJavaHits()
    ensures CourseMatches(JavaCourse(), "java") != []
  {
    var t := JavaCourse().topics[0];
    JavaLowerCase();
    assert OccursAt("javabasics", "java", 0);
    assert MatchOf(t, t.subtopics[0], "java").Some?;
    JavaCourseMatches("java");
  }

  /** Searching for " java" finds nothing in a course the prefilter returns (the trimmed
      query "java" occurs in its subtopic's title), while searching for "java" finds that
      subtopic: leading space changes the answer although both queries trim to the same. */
  lemma UntrimmedQueryMisses()
    ensures Trim(" java") == Trim("java") == "java"
    ensures Search(Some(" java"), q => [JavaCourse()]).results == []
    ensures Search(Some("java"), q => [JavaCourse()]).results != []
  {
    JavaTrim();
    JavaLowerCase();
    SpacedJavaMisses();
    PlainJavaHits();
    ResultsOfOne(JavaCourse(), " java");
    ResultsOfOne(JavaCourse(), "java");
  }

  lemma JavaTrim()
    ensures Trim(" java") == "java" && Trim("java") == "java"
  {
    assert LeadingSpaces(" java") == 1;
    assert LeadingSpaces("java") == 0;
  }

  /** One course yields one result exactly when it has a match. */
  lemma ResultsOfOne(c: Course, lq: string)
    ensures Results([c], lq) == (if CourseMatches(c, lq) == [] then [] else [ResultOf(c, lq)])
  {
    assert [c][1..] == [];
  }

  /** searchCourses as evidently intended: matching uses the same trimmed query as the
      prefilter. */
  function SearchTrimmed(query: Option<string>, prefilter: string -> seq<Course>): (r: SearchResponse)
    ensures r.query == query
    ensures query.None? || Trim(query.value) == [] ==> r.results == []
  {
    if query.None? || Trim(query.value) == [] then SearchResponse(query, [])
    else SearchResponse(query, Results(prefilter(Trim(query.value)), ToLower(Trim(query.value))))
  }

  /** With matching on the trimmed query, surrounding space no longer changes the results,
      and on a query that is already trimmed the two searches agree. */
  lemma SearchTrimmedIgnoresSurroundingSpace(query: string, prefilter: string -> seq<Course>)
    ensures SearchTrimmed(Some(query), prefilter).results == SearchTrimmed(Some(Trim(query)), prefilter).results
    ensures Trim(query) == query ==> SearchTrimmed(Some(query), prefilter) == Search(Some(query), prefilter)
  {
    TrimIdempotent(query);
  }
}
