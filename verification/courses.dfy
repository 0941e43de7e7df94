/**
 * The course catalogue page: the catalogue joined with the user's stored
 * course list, the level and search filter, and enrolment.
 */
module Courses {
  import opened Wrappers
  import opened Seqs
  import opened Text
  import opened Records
  import opened Store

  /** One catalogue entry as the page shows it. */
  datatype Course = Course(
    id: string, title: string, description: string, level: string,
    duration: string, modules: int, image: string, instructor: string,
    enrolled: bool, progress: Option<int>)

  /** The six catalogue courses, none enrolled. */
  const Catalogue: seq<Course> := [
    Course("alfabeto-basico", "Libras Básico - Primeiros Passos",
      "Aprenda os fundamentos da Língua Brasileira de Sinais. Alfabeto, números e cumprimentos básicos.",
      "basico", "4 semanas", 8, "/images/sonar-curso-libras.png", "Prof. Ana Silva", false, None),
    Course("numeros-quantidades", "Libras no Ambiente de Trabalho",
      "Vocabulário específico para o mercado de trabalho e comunicação profissional em Libras.",
      "intermediario", "6 semanas", 12, "/images/sonar-emprego.png", "Prof. Carlos Santos", false, None),
    Course("3", "Interpretação Avançada em Libras",
      "Técnicas avançadas de interpretação e tradução simultânea em Libras.",
      "avancado", "8 semanas", 16, "/images/sonar-acessibilidade.png", "Prof. Maria Oliveira", false, None),
    Course("4", "Libras para Crianças",
      "Metodologia lúdica para ensinar Libras para crianças surdas e ouvintes.",
      "intermediario", "5 semanas", 10, "/images/sonar-inicio.jpg", "Prof. João Pedro", false, None),
    Course("5", "Gramática Avançada de Libras",
      "Estruturas gramaticais complexas e aspectos linguísticos avançados da Libras.",
      "avancado", "10 semanas", 20, "/images/sonar-curso-libras.png", "Prof. Fernanda Costa", false, None),
    Course("6", "Libras Conversacional",
      "Desenvolva fluência em conversas cotidianas e expressões idiomáticas em Libras.",
      "basico", "6 semanas", 12, "/images/sonar-emprego.png", "Prof. Roberto Lima", false, None)
  ]

  /** Some stored course record has this id. */
  predicate IsStored(stored: seq<StoredCourse>, id: string) {
    exists k :: 0 <= k < |stored| && stored[k].id == id
  }

  /** The progress of the first stored record with this id, or 0 when there is none. */
  function StoredProgress(stored: seq<StoredCourse>, id: string): (p: int)
    ensures !IsStored(stored, id) ==> p == 0
    ensures IsStored(stored, id) ==>
              exists k :: 0 <= k < |stored| && stored[k].id == id && p == stored[k].progress
                          && forall j :: 0 <= j < k ==> stored[j].id != id
  {
    match FindFirst(stored, (c: StoredCourse) => c.id == id)
    case None => 0
    case Some(k) => stored[k].progress
  }

  /**
   * The load effect for a signed-in user: each course is marked enrolled
   * exactly when a stored record has its id, and shows that record's
   * progress, or 0. Without a user the courses are left as they are.
   */
  function JoinProgress(user: Option<User>, courses: seq<Course>, store: Store): (r: seq<Course>)
    ensures user.None? ==> r == courses
    ensures |r| == |courses|
    ensures user.Some? ==> forall i :: 0 <= i < |r| ==>
              var stored := Courses(store, user.value.id);
              && (r[i].enrolled <==> IsStored(stored, courses[i].id))
              && r[i].progress == Some(StoredProgress(stored, courses[i].id))
              && r[i].(enrolled := courses[i].enrolled, progress := courses[i].progress) == courses[i]
  {
    if user.None? then courses
    else
      var stored := Courses(store, user.value.id);
      seq(|courses|, i requires 0 <= i < |courses| =>
        var found := FindFirst(stored, (uc: StoredCourse) => uc.id == courses[i].id);
        courses[i].(enrolled := found.Some?,
                    progress := Some(if found.Some? then stored[found.value].progress else 0)))
  }

  // ---------------------------------------------------------------------------
  // Filtering

  /** The level filter: "todos" admits every level. */
  predicate LevelMatches(c: Course, level: string) {
    level == "todos" || c.level == level
  }

  /** The search filter: empty admits everything, otherwise title, description or instructor. */
  predicate SearchMatches(c: Course, search: string) {
    || search == ""
    || IncludesIgnoringCase(c.title, search)
    || IncludesIgnoringCase(c.description, search)
    || IncludesIgnoringCase(c.instructor, search)
  }

  /** Both conditions, as one predicate. */
  function Matching(level: string, search: string): Course -> bool {
    c => LevelMatches(c, level) && SearchMatches(c, search)
  }

  /**
   * The filter effect: first by level when one is selected, then by search
   * text when there is one.
   */
  function FilterCourses(courses: seq<Course>, level: string, search: string): (r: seq<Course>)
    ensures forall c :: c in r <==> c in courses && LevelMatches(c, level) && SearchMatches(c, search)
    ensures IsSubsequence(r, courses)
  {
    var byLevel := if level != "todos" then Filter(courses, (c: Course) => c.level == level) else courses;
    var r := if search != "" then
      Filter(byLevel, (c: Course) =>
        IncludesIgnoringCase(c.title, search) || IncludesIgnoringCase(c.description, search)
        || IncludesIgnoringCase(c.instructor, search))
    else byLevel;
    FilterCourseSteps(courses, level, search);
    r
  }

  /** The two filter steps together are one filter by both conditions. */
  lemma FilterCourseSteps(courses: seq<Course>, level: string, search: string)
    ensures var byLevel := if level != "todos" then Filter(courses, (c: Course) => c.level == level) else courses;
            var r := if search != "" then
              Filter(byLevel, (c: Course) =>
                IncludesIgnoringCase(c.title, search) || IncludesIgnoringCase(c.description, search)
                || IncludesIgnoringCase(c.instructor, search))
            else byLevel;
            && r == Filter(courses, Matching(level, search))
            && IsSubsequence(r, courses)
  {
    var both := Matching(level, search);
    var lv := (c: Course) => c.level == level;
    var tx := (c: Course) =>
      IncludesIgnoringCase(c.title, search) || IncludesIgnoringCase(c.description, search)
      || IncludesIgnoringCase(c.instructor, search);
    if level != "todos" {
      if search != "" {
        FilterCompose(courses, lv, tx, both);
      } else {
        FilterCongruent(courses, lv, both);
      }
    } else {
      if search != "" {
        FilterCongruent(courses, tx, both);
      } else {
        FilterAll(courses, both);
      }
    }
    FilterIsSubsequence(courses, both);
  }

  // ---------------------------------------------------------------------------
  // Enrolment

  /** The record the page stores on enrolment. */
  function NewEnrolment(id: string, title: string, now: int): StoredCourse {
    StoredCourse(id, title, 0, Some(now), None, None, None, None, None, None)
  }

  /**
   * `handleEnroll`: without a user, or for an id not in the page's list,
   * nothing changes. Otherwise that course is shown enrolled with progress 0
   * and every other course is unchanged; storage gains the new record only
   * when no record with the id exists.
   */
  function Enroll(user: Option<User>, courseId: string, view: seq<Course>, store: Store, now: int)
    : (r: (seq<Course>, Store))
    ensures user.None? ==> r == (view, store)
    ensures (forall i :: 0 <= i < |view| ==> view[i].id != courseId) ==> r == (view, store)
    ensures |r.0| == |view|
    ensures forall i :: 0 <= i < |view| && view[i].id != courseId ==> r.0[i] == view[i]
    ensures user.Some? && (exists i :: 0 <= i < |view| && view[i].id == courseId) ==>
              && (forall i :: 0 <= i < |view| && view[i].id == courseId ==>
                    r.0[i] == view[i].(enrolled := true, progress := Some(0)))
              && IsStored(Courses(r.1, user.value.id), courseId)
    ensures user.Some? && IsStored(Courses(store, user.value.id), courseId) ==> r.1 == store
    ensures user.Some? && !IsStored(Courses(store, user.value.id), courseId)
            && (exists i :: 0 <= i < |view| && view[i].id == courseId) ==>
              && (exists i :: && 0 <= i < |view| && view[i].id == courseId
                              && (forall j :: 0 <= j < i ==> view[j].id != courseId)
                              && Courses(r.1, user.value.id)
                                 == Courses(store, user.value.id) + [NewEnrolment(courseId, view[i].title, now)])
              && SameExcept(store, r.1, {CoursesKey(user.value.id)})
  {
    if user.None? then (view, store)
    else
      match FindFirst(view, (c: Course) => c.id == courseId)
      case None => (view, store)
      case Some(k) =>
        var course := view[k];
        var updated := seq(|view|, i requires 0 <= i < |view| =>
          if view[i].id == courseId then view[i].(enrolled := true, progress := Some(0)) else view[i]);
        var stored := Courses(store, user.value.id);
        if FindFirst(stored, (uc: StoredCourse) => uc.id == courseId).None? then
          var stored' := stored + [NewEnrolment(courseId, course.title, now)];
          assert stored'[|stored|].id == courseId;
          (updated, store[CoursesKey(user.value.id) := CourseList(stored')])
        else
          (updated, store)
  }

  /** Enrolling again changes neither the view nor storage. */
  lemma EnrollIdempotent(user: Option<User>, courseId: string, view: seq<Course>, store: Store,
                         now1: int, now2: int)
    ensures var once := Enroll(user, courseId, view, store, now1);
            Enroll(user, courseId, once.0, once.1, now2) == once
  {
    var once := Enroll(user, courseId, view, store, now1);
    var twice := Enroll(user, courseId, once.0, once.1, now2);
    if user.Some? && exists i :: 0 <= i < |view| && view[i].id == courseId {
      var i :| 0 <= i < |view| && view[i].id == courseId;
      assert once.0[i].id == courseId;
      assert twice.0 == once.0;
    }
  }

  /** After enrolling, the next load of the page shows the course enrolled. */
  lemma EnrollThenJoin(user: User, courseId: string, view: seq<Course>, store: Store, now: int,
                       courses: seq<Course>, i: int)
    requires exists k :: 0 <= k < |view| && view[k].id == courseId
    requires 0 <= i < |courses| && courses[i].id == courseId
    ensures JoinProgress(Some(user), courses, Enroll(Some(user), courseId, view, store, now).1)[i].enrolled
  {
  }
}
