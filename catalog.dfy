/** The read-only catalog: courses made of ordered topics made of ordered subtopics, and
    the repository lookups the services make against it (findById on courses and on
    subtopics). */
module Catalog {
  import opened Wrappers

  datatype Subtopic = Subtopic(id: string, title: string, content: string)
  datatype Topic = Topic(id: string, title: string, subtopics: seq<Subtopic>)
  datatype Course = Course(id: string, title: string, description: string, topics: seq<Topic>)

  /** A subtopic together with the topic that holds it. */
  datatype Entry = Entry(topic: Topic, subtopic: Subtopic)

  /** The entries of one topic, in the topic's order. */
  function TopicEntries(t: Topic): (r: seq<Entry>)
    ensures |r| == |t.subtopics|
    ensures forall k :: 0 <= k < |r| ==> r[k] == Entry(t, t.subtopics[k])
  {
    seq(|t.subtopics|, k requires 0 <= k < |t.subtopics| => Entry(t, t.subtopics[k]))
  }

  /** Every subtopic of `topics` with its topic: topic by topic, and in order within each. */
  function Entries(topics: seq<Topic>): seq<Entry>
  {
    if topics == [] then [] else TopicEntries(topics[0]) + Entries(topics[1..])
  }

  /** The sum of the topics' subtopic counts (`mapToInt(topic -> topic.getSubtopics().size()).sum()`). */
  function SubtopicCount(topics: seq<Topic>): nat
  {
    if topics == [] then 0 else |topics[0].subtopics| + SubtopicCount(topics[1..])
  }

  /** The summed count is exactly the number of subtopics one meets walking the tree. */
  lemma {:induction false} EntriesCount(topics: seq<Topic>)
    ensures |Entries(topics)| == SubtopicCount(topics)
  {
    if topics != [] {
      EntriesCount(topics[1..]);
    }
  }

  /** Every subtopic of `c`, topic by topic. */
  function SubtopicsOf(c: Course): (r: seq<Subtopic>)
    ensures |r| == |Entries(c.topics)|
    ensures forall k :: 0 <= k < |r| ==> r[k] == Entries(c.topics)[k].subtopic
  {
    var es := Entries(c.topics);
    seq(|es|, k requires 0 <= k < |es| => es[k].subtopic)
  }

  /** Course ids are the table's primary key, so no two catalog courses share one. */
  predicate UniqueCourseIds(cat: seq<Course>) {
    forall i, j :: 0 <= i < j < |cat| ==> cat[i].id != cat[j].id
  }

  /** courseRepository.findById: the course with that id, if the catalog has one. */
  function FindCourse(cat: seq<Course>, id: string): (r: Option<Course>)
    ensures r.Some? ==> r.value in cat && r.value.id == id
    ensures r.None? <==> forall c :: c in cat ==> c.id != id
    ensures UniqueCourseIds(cat) ==> forall c :: c in cat && c.id == id ==> r == Some(c)
  {
    if cat == [] then None
    else if cat[0].id == id then Some(cat[0])
    else FindCourse(cat[1..], id)
  }

  /** A subtopic found by id, with the course that owns it (`subtopic.getTopic().getCourse()`). */
  datatype SubtopicRef = SubtopicRef(course: Course, subtopic: Subtopic)

  /** The first subtopic in `subs` with the given id. */
  function FindSubtopicIn(subs: seq<Subtopic>, id: string): (r: Option<Subtopic>)
    ensures r.Some? ==> r.value in subs && r.value.id == id
    ensures r.None? <==> forall s :: s in subs ==> s.id != id
  {
    if subs == [] then None
    else if subs[0].id == id then Some(subs[0])
    else FindSubtopicIn(subs[1..], id)
  }

  /** subtopicRepository.findById, followed to the owning course. */
  function FindSubtopic(cat: seq<Course>, id: string): (r: Option<SubtopicRef>)
    ensures r.Some? ==> r.value.course in cat && r.value.subtopic in SubtopicsOf(r.value.course)
                        && r.value.subtopic.id == id
    ensures r.None? <==> forall c, s :: c in cat && s in SubtopicsOf(c) ==> s.id != id
  {
    if cat == [] then None
    else match FindSubtopicIn(SubtopicsOf(cat[0]), id)
      case Some(s) => Some(SubtopicRef(cat[0], s))
      case None => FindSubtopic(cat[1..], id)
  }
}
