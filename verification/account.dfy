/**
 * The account page: the signed-in user's course progress, loaded from the
 * stored course list with defaults filled in, module completion with the
 * recomputed rounded percentage, and the write-back to storage; plus the
 * page gate, the tab list and the label and colour tables.
 */
module Account {
  import opened Wrappers
  import opened Seqs
  import opened Records
  import opened Store
  import JobBoard

  /** A module count the page divides by: never zero. */
  type Positive = n: int | n > 0 witness 1

  /** The module count assumed for a course that stores none. */
  const DefaultModules: Positive := 8

  /** The level assumed for a course that stores none. */
  const DefaultLevel: string := "basico"

  /** A course as the account page holds it after loading. */
  datatype CourseProgress = CourseProgress(
    id: string, title: string, progress: int, enrolledAt: Option<int>,
    modules: seq<Module>, totalModules: Positive, completedModules: int,
    level: string, lastAccessed: int, completedAt: Option<int>)

  // ---------------------------------------------------------------------------
  // Rounding

  /**
   * `Math.round(count / total * 100)` on exact rationals: the integer nearest
   * to the percentage, halves rounded up.
   */
  function RoundPercent(count: nat, total: Positive): (r: int)
    ensures 2 * total * r - total <= 200 * count < 2 * total * r + total
  {
    var n := 200 * count + total;
    var d := 2 * total;
    assert d * (n / d) <= n < d * (n / d) + d;
    n / d
  }

  /** A positive `t` times a whole `x` of at least one is at least `t`. */
  lemma ScaledAtLeast(t: int, x: int)
    requires t > 0
    ensures x >= 1 ==> t * x >= t
  {
    if x >= 1 {
      assert t * x == t * (x - 1) + t;
    }
  }

  /** `t * x < t` with `t` positive forces `x < 1`. */
  lemma ScaledBelowOne(t: int, x: int)
    requires t > 0 && t * x < t
    ensures x < 1
  {
    ScaledAtLeast(t, x);
  }

  /** The rounding bounds pin the result down: nothing else satisfies them. */
  lemma RoundPercentUnique(count: nat, total: Positive, r: int)
    requires 2 * total * r - total <= 200 * count < 2 * total * r + total
    ensures RoundPercent(count, total) == r
  {
    var q := RoundPercent(count, total);
    ScaledBelowOne(2 * total, q - r);
    ScaledBelowOne(2 * total, r - q);
  }

  /** More completed modules never give a lower percentage. */
  lemma RoundPercentMonotone(c1: nat, c2: nat, total: Positive)
    requires c1 <= c2
    ensures RoundPercent(c1, total) <= RoundPercent(c2, total)
  {
    var r1 := RoundPercent(c1, total);
    var r2 := RoundPercent(c2, total);
    ScaledBelowOne(2 * total, r1 - r2);
  }

  /** With no more completed modules than the total, the percentage lies in 0..100. */
  lemma RoundPercentBounds(count: nat, total: Positive)
    requires count <= total
    ensures 0 <= RoundPercent(count, total) <= 100
  {
    var r := RoundPercent(count, total);
    ScaledBelowOne(2 * total, -r);
    ScaledBelowOne(2 * total, r - 100);
  }

  /** No module done is 0%, every module done is 100%. */
  lemma RoundPercentEnds(total: Positive)
    ensures RoundPercent(0, total) == 0
    ensures RoundPercent(total, total) == 100
  {
    RoundPercentUnique(0, total, 0);
    RoundPercentUnique(total, total, 100);
  }

  /**
   * Below 200 modules, 100% is reached exactly when every module is done.
   */
  lemma HundredOnlyWhenDone(count: nat, total: Positive)
    requires count <= total < 200
    ensures RoundPercent(count, total) == 100 <==> count == total
  {
    RoundPercentEnds(total);
    if RoundPercent(count, total) == 100 {
      assert 200 * total - total <= 200 * count;
      assert count >= total;
    }
  }

  /** From 200 modules on, one module short already rounds to 100%. */
  lemma HundredOneShort()
    ensures RoundPercent(199, 200) == 100
  {
    RoundPercentUnique(199, 200, 100);
  }

  // ---------------------------------------------------------------------------
  // Modules

  /** How many modules are marked completed. */
  function CountCompleted(ms: seq<Module>): (n: nat)
    ensures n <= |ms|
    ensures n == |ms| <==> forall j :: 0 <= j < |ms| ==> ms[j].completed
    ensures n == 0 <==> forall j :: 0 <= j < |ms| ==> !ms[j].completed
  {
    if |ms| == 0 then 0
    else (if ms[0].completed then 1 else 0) + CountCompleted(ms[1..])
  }

  /** Two module lists agree on which positions are completed. */
  predicate SameCompletion(a: seq<Module>, b: seq<Module>) {
    |a| == |b| && forall j :: 0 <= j < |a| ==> a[j].completed == b[j].completed
  }

  /** The count depends on the completion flags alone. */
  lemma {:induction false} SameCompletionSameCount(a: seq<Module>, b: seq<Module>)
    requires SameCompletion(a, b)
    ensures CountCompleted(a) == CountCompleted(b)
    decreases |a|
  {
    if |a| > 0 {
      assert SameCompletion(a[1..], b[1..]);
      SameCompletionSameCount(a[1..], b[1..]);
    }
  }

  /** Each module with the given id is marked completed at `now`; the others are kept. */
  function MarkModule(ms: seq<Module>, moduleId: string, now: int): (r: seq<Module>)
    ensures |r| == |ms|
    ensures forall j :: 0 <= j < |ms| ==>
              && (r[j].completed <==> ms[j].completed || ms[j].id == moduleId)
              && (ms[j].id == moduleId ==> r[j].completedAt == Some(now))
              && r[j].(completed := ms[j].completed, completedAt := ms[j].completedAt) == ms[j]
    ensures forall j :: 0 <= j < |ms| && ms[j].id != moduleId ==> r[j] == ms[j]
  {
    seq(|ms|, j requires 0 <= j < |ms| =>
      if ms[j].id == moduleId then ms[j].(completed := true, completedAt := Some(now)) else ms[j])
  }

  /** Marking a module never lowers the count of completed modules. */
  lemma {:induction false} MarkModuleCountGrows(ms: seq<Module>, moduleId: string, now: int)
    ensures CountCompleted(ms) <= CountCompleted(MarkModule(ms, moduleId, now))
    decreases |ms|
  {
    if |ms| > 0 {
      MarkModuleCountGrows(ms[1..], moduleId, now);
      assert MarkModule(ms, moduleId, now)[1..] == MarkModule(ms[1..], moduleId, now);
    }
  }

  /** Marking the same module again changes no completion flag. */
  lemma MarkModuleAgain(ms: seq<Module>, moduleId: string, t1: int, t2: int)
    ensures SameCompletion(MarkModule(MarkModule(ms, moduleId, t1), moduleId, t2), MarkModule(ms, moduleId, t1))
  {
  }

  // ---------------------------------------------------------------------------
  // Completing a module

  /** The progress fields agree with the module list: the count and its rounded percentage. */
  predicate Consistent(c: CourseProgress) {
    && c.completedModules == CountCompleted(c.modules)
    && c.progress == RoundPercent(CountCompleted(c.modules), c.totalModules)
  }

  /**
   * The update of the matching course in `completeModule`: the module is
   * marked, the count and percentage are recomputed from the module list,
   * the course is accessed now and is completed now exactly when the
   * percentage is 100; nothing else changes.
   */
  function CompleteCourse(c: CourseProgress, moduleId: string, now: int): (r: CourseProgress)
    ensures r.modules == MarkModule(c.modules, moduleId, now)
    ensures Consistent(r)
    ensures 2 * r.totalModules * r.progress - r.totalModules
            <= 200 * r.completedModules
            < 2 * r.totalModules * r.progress + r.totalModules
    ensures r.lastAccessed == now
    ensures r.completedAt.Some? <==> r.progress == 100
    ensures r.completedAt.Some? ==> r.completedAt.value == now
    ensures r.(modules := c.modules, completedModules := c.completedModules, progress := c.progress,
               lastAccessed := c.lastAccessed, completedAt := c.completedAt) == c
  {
    var modules := MarkModule(c.modules, moduleId, now);
    var count := CountCompleted(modules);
    var progress := RoundPercent(count, c.totalModules);
    c.(modules := modules, completedModules := count, progress := progress,
       lastAccessed := now, completedAt := if progress == 100 then Some(now) else None)
  }

  /**
   * `completeModule` on the page's list: the course with the id is updated,
   * every other course is kept.
   */
  function CompleteModule(courses: seq<CourseProgress>, courseId: string, moduleId: string, now: int)
    : (r: seq<CourseProgress>)
    ensures |r| == |courses|
    ensures forall i :: 0 <= i < |courses| && courses[i].id != courseId ==> r[i] == courses[i]
    ensures forall i :: 0 <= i < |courses| && courses[i].id == courseId ==>
              r[i] == CompleteCourse(courses[i], moduleId, now)
  {
    seq(|courses|, i requires 0 <= i < |courses| =>
      if courses[i].id == courseId then CompleteCourse(courses[i], moduleId, now) else courses[i])
  }

  /** An id that names no course leaves the list as it was. */
  lemma CompleteUnknownCourse(courses: seq<CourseProgress>, courseId: string, moduleId: string, now: int)
    requires forall i :: 0 <= i < |courses| ==> courses[i].id != courseId
    ensures CompleteModule(courses, courseId, moduleId, now) == courses
  {
  }

  /**
   * Completing the same module twice: the second call leaves the completion
   * flags, the count and the percentage where the first left them.
   */
  lemma CompleteModuleTwice(courses: seq<CourseProgress>, courseId: string, moduleId: string,
                            t1: int, t2: int, i: int)
    requires 0 <= i < |courses|
    ensures var once := CompleteModule(courses, courseId, moduleId, t1);
            var twice := CompleteModule(once, courseId, moduleId, t2);
            && SameCompletion(twice[i].modules, once[i].modules)
            && twice[i].completedModules == once[i].completedModules
            && twice[i].progress == once[i].progress
  {
    var once := CompleteModule(courses, courseId, moduleId, t1);
    if courses[i].id == courseId {
      MarkModuleAgain(courses[i].modules, moduleId, t1, t2);
      SameCompletionSameCount(MarkModule(once[i].modules, moduleId, t2), once[i].modules);
    }
  }

  /** On a consistent course, completing a module never lowers the percentage. */
  lemma CompleteNeverLowersProgress(c: CourseProgress, moduleId: string, now: int)
    requires Consistent(c)
    ensures CompleteCourse(c, moduleId, now).progress >= c.progress
    ensures CompleteCourse(c, moduleId, now).completedModules >= c.completedModules
  {
    MarkModuleCountGrows(c.modules, moduleId, now);
    RoundPercentMonotone(CountCompleted(c.modules), CountCompleted(MarkModule(c.modules, moduleId, now)),
                         c.totalModules);
  }

  /**
   * When the module list is as long as the module count and shorter than 200,
   * the course is stamped completed exactly when every module is completed.
   */
  lemma CompletedExactlyWhenAllDone(c: CourseProgress, moduleId: string, now: int)
    requires |c.modules| == c.totalModules < 200
    ensures var r := CompleteCourse(c, moduleId, now);
            r.completedAt.Some? <==> forall j :: 0 <= j < |r.modules| ==> r.modules[j].completed
  {
    var r := CompleteCourse(c, moduleId, now);
    HundredOnlyWhenDone(r.completedModules, r.totalModules);
  }

  // ---------------------------------------------------------------------------
  // Loading and saving

  /**
   * The load effect for one stored course: a missing or zero module count
   * becomes 8, missing modules come from the generator `mock`, a missing or
   * zero completed count is derived from the stored percentage, a missing or
   * empty level becomes "basico", a missing access date becomes `now`; every
   * other field is kept.
   */
  function LoadCourse(c: StoredCourse, mock: (string, Positive) -> seq<Module>, now: int): (r: CourseProgress)
    ensures r.id == c.id && r.title == c.title && r.progress == c.progress
    ensures r.enrolledAt == c.enrolledAt && r.completedAt == c.completedAt
    ensures c.totalModules.Some? && c.totalModules.value > 0 ==> r.totalModules == c.totalModules.value
    ensures (c.totalModules.None? || c.totalModules.value == 0) ==> r.totalModules == DefaultModules
    ensures c.modules.Some? ==> r.modules == c.modules.value
    ensures c.modules.None? ==> r.modules == mock(c.id, r.totalModules)
    ensures c.completedModules.Some? && c.completedModules.value != 0 ==> r.completedModules == c.completedModules.value
    ensures (c.completedModules.None? || c.completedModules.value == 0) ==>
              100 * r.completedModules <= 8 * c.progress < 100 * r.completedModules + 100
    ensures r.level != ""
    ensures c.level.Some? && c.level.value != "" ==> r.level == c.level.value
    ensures (c.level.None? || c.level.value == "") ==> r.level == DefaultLevel
    ensures r.lastAccessed == (if c.lastAccessed.Some? then c.lastAccessed.value else now)
  {
    var total: Positive := if c.totalModules.Some? && c.totalModules.value != 0 then c.totalModules.value
                           else DefaultModules;
    CourseProgress(
      c.id, c.title, c.progress, c.enrolledAt,
      if c.modules.Some? then c.modules.value else mock(c.id, total),
      total,
      if c.completedModules.Some? && c.completedModules.value != 0 then c.completedModules.value
      else c.progress * 8 / 100,
      if c.level.Some? && c.level.value != "" then c.level.value else DefaultLevel,
      if c.lastAccessed.Some? then c.lastAccessed.value else now,
      c.completedAt)
  }

  /** The load effect for the whole list, course by course. */
  function LoadCourses(stored: seq<StoredCourse>, mock: (string, Positive) -> seq<Module>, now: int)
    : (r: seq<CourseProgress>)
    ensures |r| == |stored|
    ensures forall i :: 0 <= i < |stored| ==> r[i] == LoadCourse(stored[i], mock, now)
  {
    seq(|stored|, i requires 0 <= i < |stored| => LoadCourse(stored[i], mock, now))
  }

  /** The JSON written back for one course: every field present. */
  function SaveCourse(c: CourseProgress): StoredCourse {
    StoredCourse(c.id, c.title, c.progress, c.enrolledAt, Some(c.modules), Some(c.totalModules),
                 Some(c.completedModules), Some(c.level), Some(c.lastAccessed), c.completedAt)
  }

  /**
   * A course that loading gives back unchanged once saved: a level is
   * present, and a zero completed count is what the percentage derives anyway.
   */
  predicate Reloadable(c: CourseProgress) {
    c.level != "" && (c.completedModules == 0 ==> c.progress * 8 / 100 == 0)
  }

  /** Saving and loading again gives back a reloadable course exactly. */
  lemma LoadSaveRoundTrip(c: CourseProgress, mock: (string, Positive) -> seq<Module>, now: int)
    requires Reloadable(c)
    ensures LoadCourse(SaveCourse(c), mock, now) == c
  {
  }

  /** Every course the page loads is reloadable. */
  lemma LoadedIsReloadable(c: StoredCourse, mock: (string, Positive) -> seq<Module>, now: int)
    ensures Reloadable(LoadCourse(c, mock, now))
  {
  }

  /** Completing a module keeps a course with a level reloadable. */
  lemma CompleteKeepsReloadable(c: CourseProgress, moduleId: string, now: int)
    requires c.level != ""
    ensures Reloadable(CompleteCourse(c, moduleId, now))
  {
    var r := CompleteCourse(c, moduleId, now);
    if r.completedModules == 0 {
      RoundPercentEnds(r.totalModules);
    }
  }

  /**
   * The save effect of `completeModule`: with a user, their course list is
   * replaced by the page's list and nothing else changes; without one,
   * storage is left alone.
   */
  function SaveCourses(user: Option<User>, courses: seq<CourseProgress>, store: Store): (st: Store)
    ensures user.None? ==> st == store
    ensures user.Some? ==> |Courses(st, user.value.id)| == |courses|
    ensures user.Some? ==> forall i :: 0 <= i < |courses| ==> Courses(st, user.value.id)[i] == SaveCourse(courses[i])
    ensures user.Some? ==> SameExcept(store, st, {CoursesKey(user.value.id)})
  {
    if user.None? then store
    else
      var saved := seq(|courses|, i requires 0 <= i < |courses| => SaveCourse(courses[i]));
      store[CoursesKey(user.value.id) := CourseList(saved)]
  }

  /** `completeModule` with its write-back: the new list and the new storage. */
  function CompleteAndSave(user: Option<User>, courses: seq<CourseProgress>, courseId: string,
                           moduleId: string, now: int, store: Store): (r: (seq<CourseProgress>, Store))
    ensures r.0 == CompleteModule(courses, courseId, moduleId, now)
    ensures r.1 == SaveCourses(user, r.0, store)
  {
    var updated := CompleteModule(courses, courseId, moduleId, now);
    (updated, SaveCourses(user, updated, store))
  }

  /**
   * After completing a module, reloading the page gives back the list the
   * page showed, when every course was reloadable: progress survives a reload.
   */
  lemma {:induction false} ReloadAfterComplete(user: User, courses: seq<CourseProgress>, courseId: string,
                                               moduleId: string, now: int, store: Store,
                                               mock: (string, Positive) -> seq<Module>, later: int)
    requires forall i :: 0 <= i < |courses| ==> Reloadable(courses[i])
    ensures var r := CompleteAndSave(Some(user), courses, courseId, moduleId, now, store);
            LoadCourses(Courses(r.1, user.id), mock, later) == r.0
  {
    var r := CompleteAndSave(Some(user), courses, courseId, moduleId, now, store);
    var reloaded := LoadCourses(Courses(r.1, user.id), mock, later);
    forall i | 0 <= i < |courses|
      ensures reloaded[i] == r.0[i]
    {
      if courses[i].id == courseId {
        CompleteKeepsReloadable(courses[i], moduleId, now);
      }
      LoadSaveRoundTrip(r.0[i], mock, later);
    }
  }

  // ---------------------------------------------------------------------------
  // Dates after a reload, as the page is written

  /** A date as the page holds it: a `Date` object, or the ISO text that `JSON.parse` leaves. */
  datatype Moment = DateObject(time: int) | IsoText(time: int)

  /**
   * Formats every date present: `toLocaleDateString` on a `Date` gives its
   * time; on text the method does not exist and the call throws (None).
   */
  function FormatAll(ms: seq<Option<Moment>>): (r: Option<seq<int>>)
    ensures r.Some? <==> forall i :: 0 <= i < |ms| && ms[i].Some? ==> ms[i].value.DateObject?
  {
    if |ms| == 0 then Some([])
    else
      var rest := FormatAll(ms[1..]);
      if ms[0].Some? && ms[0].value.IsoText? then None
      else if rest.None? then
        assert exists i :: 1 <= i < |ms| && ms[i].Some? && !ms[i].value.DateObject? by {
          var k :| 0 <= k < |ms[1..]| && ms[1..][k].Some? && !ms[1..][k].value.DateObject?;
          assert ms[k + 1] == ms[1..][k];
        }
        None
      else
        Some((if ms[0].Some? then [ms[0].value.time] else []) + rest.value)
  }

  /**
   * The modules' completion dates as held after loading: JSON text for
   * modules read from storage, `Date` objects for generated ones.
   */
  function ModuleMoments(ms: seq<Module>, fromStorage: bool): (r: seq<Option<Moment>>)
    ensures |r| == |ms|
    ensures forall j :: 0 <= j < |ms| ==>
              && (r[j].Some? <==> ms[j].completedAt.Some?)
              && (r[j].Some? ==> r[j].value.time == ms[j].completedAt.value
                                 && (r[j].value.IsoText? <==> fromStorage))
  {
    seq(|ms|, j requires 0 <= j < |ms| =>
      var d := ms[j].completedAt;
      if d.None? then None
      else if fromStorage then Some(IsoText(d.value))
      else Some(DateObject(d.value)))
  }

  /**
   * The dates the course tab formats for one stored course, as the page is
   * written: the access date is revived into a `Date`, while the completion
   * dates of the course and of stored modules stay JSON text; only generated
   * modules carry real dates.
   */
  function CourseDatesAsWritten(c: StoredCourse, mock: (string, Positive) -> seq<Module>, now: int)
    : (r: Option<seq<int>>)
    ensures r.None? <==> c.completedAt.Some? || (c.modules.Some? && StoredModuleDated(c.modules.value))
    ensures r.Some? ==> r == CourseDatesRevived(c, mock, now)
  {
    AsWrittenMomentsFail(c, mock, now);
    FormatAll(AsWrittenMoments(c, mock, now))
  }

  /** The moments the course tab formats, as the page holds them after loading. */
  function AsWrittenMoments(c: StoredCourse, mock: (string, Positive) -> seq<Module>, now: int)
    : seq<Option<Moment>>
  {
    var loaded := LoadCourse(c, mock, now);
    var moduleDates := ModuleMoments(loaded.modules, c.modules.Some?);
    var courseDate := if c.completedAt.Some? then Some(IsoText(c.completedAt.value)) else None;
    [Some(DateObject(loaded.lastAccessed))] + moduleDates + [courseDate]
  }

  /** The same moments with every date revived. */
  function RevivedMoments(c: StoredCourse, mock: (string, Positive) -> seq<Module>, now: int)
    : seq<Option<Moment>>
  {
    var loaded := LoadCourse(c, mock, now);
    var moduleDates := ModuleMoments(loaded.modules, false);
    var courseDate := if c.completedAt.Some? then Some(DateObject(c.completedAt.value)) else None;
    [Some(DateObject(loaded.lastAccessed))] + moduleDates + [courseDate]
  }

  /**
   * Formatting the moments as held fails exactly when a stored date is
   * present; when none is, they are the revived moments.
   */
  lemma AsWrittenMomentsFail(c: StoredCourse, mock: (string, Positive) -> seq<Module>, now: int)
    ensures FormatAll(AsWrittenMoments(c, mock, now)).None?
            <==> c.completedAt.Some? || (c.modules.Some? && StoredModuleDated(c.modules.value))
    ensures FormatAll(AsWrittenMoments(c, mock, now)).Some?
            ==> AsWrittenMoments(c, mock, now) == RevivedMoments(c, mock, now)
  {
    var loaded := LoadCourse(c, mock, now);
    var moduleDates := ModuleMoments(loaded.modules, c.modules.Some?);
    var courseDate := if c.completedAt.Some? then Some(IsoText(c.completedAt.value)) else None;
    var all := AsWrittenMoments(c, mock, now);
    assert all == [Some(DateObject(loaded.lastAccessed))] + moduleDates + [courseDate];
    assert all[|all| - 1] == courseDate;
    assert forall j :: 0 <= j < |moduleDates| ==> all[j + 1] == moduleDates[j];
    if c.modules.Some? && StoredModuleDated(c.modules.value) {
      var j :| 0 <= j < |c.modules.value| && c.modules.value[j].completedAt.Some?;
      assert all[j + 1].Some? && all[j + 1].value.IsoText?;
    }
    if !c.completedAt.Some? && !(c.modules.Some? && StoredModuleDated(c.modules.value)) {
      assert moduleDates == ModuleMoments(loaded.modules, false);
      forall i | 0 <= i < |all| && all[i].Some?
        ensures all[i].value.DateObject?
      {
        if 1 <= i < |all| - 1 {
          assert all[i] == moduleDates[i - 1];
        }
      }
    }
  }

  /** Some module read from storage carries a completion date. */
  predicate StoredModuleDated(ms: seq<Module>) {
    exists j :: 0 <= j < |ms| && ms[j].completedAt.Some?
  }

  /**
   * As written, once a module has been marked and the list saved, the next
   * load of the course tab throws while formatting that module's date.
   */
  lemma ReloadAfterMarkThrows(c: CourseProgress, moduleId: string, now: int,
                              mock: (string, Positive) -> seq<Module>, later: int, j: int)
    requires 0 <= j < |c.modules| && c.modules[j].id == moduleId
    ensures CourseDatesAsWritten(SaveCourse(CompleteCourse(c, moduleId, now)), mock, later).None?
  {
    var saved := SaveCourse(CompleteCourse(c, moduleId, now));
    var loaded := LoadCourse(saved, mock, later);
    assert loaded.modules[j].completedAt == Some(now);
    var moduleDates := ModuleMoments(loaded.modules, true);
    var courseDate := if saved.completedAt.Some? then Some(IsoText(saved.completedAt.value)) else None;
    var all := [Some(DateObject(loaded.lastAccessed))] + moduleDates + [courseDate];
    assert all[j + 1] == Some(IsoText(now));
  }

  /**
   * The dates the course tab shows for a loaded course, in the order it
   * shows them: the access date, each module's completion date in module
   * order, then the course's completion date when there is one.
   */
  function CourseDates(c: CourseProgress): (r: seq<int>)
    ensures |r| == 1 + |Dates(c.modules)| + (if c.completedAt.Some? then 1 else 0)
    ensures r[0] == c.lastAccessed
    ensures r[1..1 + |Dates(c.modules)|] == Dates(c.modules)
    ensures c.completedAt.Some? ==> r[|r| - 1] == c.completedAt.value
  {
    var ds := Dates(c.modules);
    var r := [c.lastAccessed] + ds + (if c.completedAt.Some? then [c.completedAt.value] else []);
    assert r[1..1 + |ds|] == ds;
    r
  }

  /** A module that carries a completion date. */
  predicate HasDate(m: Module) {
    m.completedAt.Some?
  }

  /**
   * The completion dates of the modules that have one, in module order: the
   * k-th date is the date of the k-th dated module.
   */
  function Dates(ms: seq<Module>): (r: seq<int>)
    ensures |r| == |Filter(ms, HasDate)|
    ensures forall k :: 0 <= k < |r| ==> Some(r[k]) == Filter(ms, HasDate)[k].completedAt
    ensures forall d :: d in r <==> exists j :: 0 <= j < |ms| && ms[j].completedAt == Some(d)
  {
    if |ms| == 0 then []
    else
      var rest := Dates(ms[1..]);
      DatesOrderStep(ms, rest);
      DatesMemberStep(ms, rest);
      (if ms[0].completedAt.Some? then [ms[0].completedAt.value] else []) + rest
  }

  /** One step of `Dates`: prefixing the first module's date keeps the dates aligned with the dated modules. */
  lemma DatesOrderStep(ms: seq<Module>, rest: seq<int>)
    requires |ms| > 0
    requires |rest| == |Filter(ms[1..], HasDate)|
    requires forall k :: 0 <= k < |rest| ==> Some(rest[k]) == Filter(ms[1..], HasDate)[k].completedAt
    ensures var r := (if ms[0].completedAt.Some? then [ms[0].completedAt.value] else []) + rest;
            && |r| == |Filter(ms, HasDate)|
            && forall k :: 0 <= k < |r| ==> Some(r[k]) == Filter(ms, HasDate)[k].completedAt
  {
    var r := (if ms[0].completedAt.Some? then [ms[0].completedAt.value] else []) + rest;
    var tail := Filter(ms[1..], HasDate);
    var dated := Filter(ms, HasDate);
    assert dated == (if HasDate(ms[0]) then [ms[0]] else []) + tail;
    forall k | 0 <= k < |r|
      ensures Some(r[k]) == dated[k].completedAt
    {
      if ms[0].completedAt.Some? && k > 0 {
        assert r[k] == rest[k - 1];
        assert dated[k] == tail[k - 1];
      }
    }
  }

  /** One step of `Dates`: prefixing the first module's date keeps membership exact. */
  lemma DatesMemberStep(ms: seq<Module>, rest: seq<int>)
    requires |ms| > 0
    requires forall d :: d in rest <==> exists j :: 0 <= j < |ms[1..]| && ms[1..][j].completedAt == Some(d)
    ensures var r := (if ms[0].completedAt.Some? then [ms[0].completedAt.value] else []) + rest;
            forall d :: d in r <==> exists j :: 0 <= j < |ms| && ms[j].completedAt == Some(d)
  {
    var r := (if ms[0].completedAt.Some? then [ms[0].completedAt.value] else []) + rest;
    forall d
      ensures d in r <==> exists j :: 0 <= j < |ms| && ms[j].completedAt == Some(d)
    {
      if d in rest {
        var k :| 0 <= k < |ms[1..]| && ms[1..][k].completedAt == Some(d);
        assert ms[k + 1] == ms[1..][k];
      }
      if exists j :: 0 <= j < |ms| && ms[j].completedAt == Some(d) {
        var j :| 0 <= j < |ms| && ms[j].completedAt == Some(d);
        if j > 0 {
          assert ms[1..][j - 1] == ms[j];
        }
      }
    }
  }

  /** Formatting a concatenation formats each part, failing when either part fails. */
  lemma {:induction false} FormatAllAppend(a: seq<Option<Moment>>, b: seq<Option<Moment>>)
    ensures FormatAll(a + b).Some? <==> FormatAll(a).Some? && FormatAll(b).Some?
    ensures FormatAll(a + b).Some? ==> FormatAll(a + b).value == FormatAll(a).value + FormatAll(b).value
    decreases |a|
  {
    if |a| > 0 {
      assert (a + b)[1..] == a[1..] + b;
      FormatAllAppend(a[1..], b);
    } else {
      assert a + b == b;
    }
  }

  /** A single date that is absent or a real date formats to itself. */
  lemma FormatOne(m: Option<Moment>)
    requires m.None? || m.value.DateObject?
    ensures FormatAll([m]) == Some(if m.Some? then [m.value.time] else [])
  {
    assert [m][1..] == [];
    var pre: seq<int> := if m.Some? then [m.value.time] else [];
    assert pre + [] == pre;
  }

  /** Revived completion dates format to exactly the dates the tab lists, in order. */
  lemma {:induction false} RevivedModulesFormat(ms: seq<Module>)
    ensures FormatAll(ModuleMoments(ms, false)) == Some(Dates(ms))
    decreases |ms|
  {
    if |ms| > 0 {
      assert ModuleMoments(ms, false)[1..] == ModuleMoments(ms[1..], false);
      RevivedModulesFormat(ms[1..]);
    }
  }

  /**
   * The dates the course tab formats for one stored course when the load
   * effect revives every date, not only the access date.
   */
  function CourseDatesRevived(c: StoredCourse, mock: (string, Positive) -> seq<Module>, now: int)
    : (r: Option<seq<int>>)
    ensures r == Some(CourseDates(LoadCourse(c, mock, now)))
  {
    var loaded := LoadCourse(c, mock, now);
    var moduleDates := ModuleMoments(loaded.modules, false);
    var courseDate := if c.completedAt.Some? then Some(DateObject(c.completedAt.value)) else None;
    var head := [Some(DateObject(loaded.lastAccessed))];
    FormatAllAppend(head + moduleDates, [courseDate]);
    FormatAllAppend(head, moduleDates);
    RevivedModulesFormat(loaded.modules);
    FormatOne(head[0]);
    FormatOne(courseDate);
    assert RevivedMoments(c, mock, now) == head + moduleDates + [courseDate];
    FormatAll(RevivedMoments(c, mock, now))
  }

  /**
   * With the dates revived on load, a reload after completing a module
   * formats without failing and shows the same dates the page showed before.
   */
  lemma ReloadKeepsDates(user: User, courses: seq<CourseProgress>, courseId: string, moduleId: string,
                         now: int, store: Store, mock: (string, Positive) -> seq<Module>, later: int, i: int)
    requires forall k :: 0 <= k < |courses| ==> Reloadable(courses[k])
    requires 0 <= i < |courses|
    ensures var r := CompleteAndSave(Some(user), courses, courseId, moduleId, now, store);
            && |Courses(r.1, user.id)| == |courses|
            && CourseDatesRevived(Courses(r.1, user.id)[i], mock, later) == Some(CourseDates(r.0[i]))
  {
    ReloadAfterComplete(user, courses, courseId, moduleId, now, store, mock, later);
  }

  /** The account page shows the applications stored for the signed-in user. */
  function LoadApplications(user: User, store: Store): (r: seq<Application>)
    ensures ApplicationsKey(user.id) !in store ==> r == []
    ensures ApplicationsKey(user.id) in store && store[ApplicationsKey(user.id)].ApplicationList?
            ==> r == store[ApplicationsKey(user.id)].applications
  {
    Applications(store, user.id)
  }

  /** Applying on the job board leaves every other user's applications as they were. */
  lemma ApplyLeavesOthersAlone(user: User, other: User, store: Store, jobId: string, jobTitle: string,
                               company: string, id: string, now: int)
    requires other.id != user.id
    ensures LoadApplications(other, JobBoard.Apply(Some(user), store, jobId, jobTitle, company, id, now).1)
            == LoadApplications(other, store)
  {
    KeysDistinct(user.id, other.id);
  }

  /**
   * An application made on the job board shows on the account page, last,
   * after every application the page showed before.
   */
  lemma AppliedShowsOnAccount(user: User, store: Store, jobId: string, jobTitle: string,
                              company: string, id: string, now: int)
    requires JobBoard.Apply(Some(user), store, jobId, jobTitle, company, id, now).0 == JobBoard.Applied
    ensures var shown := LoadApplications(user, JobBoard.Apply(Some(user), store, jobId, jobTitle, company, id, now).1);
            && |shown| == |LoadApplications(user, store)| + 1
            && shown[..|shown| - 1] == LoadApplications(user, store)
            && shown[|shown| - 1] == Application(id, jobId, jobTitle, company, user.id, now, "pendente")
  {
  }

  // ---------------------------------------------------------------------------
  // Gate, tabs and labels

  /** What the page renders: a loading message, nothing (and a redirect), or the account. */
  datatype PageView = Loading | RedirectToSignIn | ShowAccount(user: User)

  /** The page gate: wait while the session loads, send an anonymous visitor to sign in. */
  function AccountView(isLoading: bool, user: Option<User>): (v: PageView)
    ensures v.Loading? <==> isLoading
    ensures v.RedirectToSignIn? <==> !isLoading && user.None?
    ensures v.ShowAccount? ==> user == Some(v.user)
  {
    if isLoading then Loading
    else if user.None? then RedirectToSignIn
    else ShowAccount(user.value)
  }

  /** Every tab the page knows, in the order it lists them. */
  const AllTabs: seq<string> := ["perfil", "candidaturas", "cursos", "curriculo"]

  /**
   * The tabs shown, in the page's order: applications and résumé only for a
   * candidate account.
   */
  function Tabs(accountType: AccountType): (r: seq<string>)
    ensures IsSubsequence(r, AllTabs)
    ensures "perfil" in r && "cursos" in r
    ensures "candidaturas" in r <==> accountType == Candidato
    ensures "curriculo" in r <==> accountType == Candidato
  {
    var r := Filter(AllTabs, (t: string) => TabShown(t, accountType));
    FilterIsSubsequence(AllTabs, (t: string) => TabShown(t, accountType));
    r
  }

  /** The `show` flag of a tab: applications and résumé carry the candidate test, the others none. */
  predicate TabShown(tab: string, accountType: AccountType) {
    (tab != "candidaturas" && tab != "curriculo") || accountType == Candidato
  }

  /** The account type as the page header names it. */
  function AccountTypeLabel(accountType: AccountType): string {
    if accountType == Candidato then "Candidato a Emprego"
    else if accountType == Empresa then "Empresa Recrutadora"
    else "Aluno de Libras"
  }

  /** Different account types get different header labels. */
  lemma AccountTypeLabelDistinct(a: AccountType, b: AccountType)
    ensures AccountTypeLabel(a) == AccountTypeLabel(b) <==> a == b
  {
  }

  /** The badge colour of an application status; unknown statuses are grey. */
  function StatusColor(status: string): string {
    if status == "pendente" then "bg-yellow-100 text-yellow-800"
    else if status == "visualizado" then "bg-blue-100 text-blue-800"
    else if status == "aprovado" then "bg-green-100 text-green-800"
    else if status == "rejeitado" then "bg-red-100 text-red-800"
    else "bg-gray-100 text-gray-800"
  }

  /** The four known statuses get four different colours, none of them the fallback grey. */
  lemma StatusColorsDistinct(a: string, b: string)
    requires a in {"pendente", "visualizado", "aprovado", "rejeitado"}
    requires b in {"pendente", "visualizado", "aprovado", "rejeitado"}
    ensures StatusColor(a) == StatusColor(b) <==> a == b
    ensures StatusColor(a) != "bg-gray-100 text-gray-800"
  {
  }

  /** The badge colour of a course level; unknown levels are grey. */
  function LevelColor(level: string): string {
    if level == "basico" then "bg-green-100 text-green-800"
    else if level == "intermediario" then "bg-yellow-100 text-yellow-800"
    else if level == "avancado" then "bg-red-100 text-red-800"
    else "bg-gray-100 text-gray-800"
  }

  /** The three known levels get three different colours, none of them the fallback grey. */
  lemma LevelColorsDistinct(a: string, b: string)
    requires a in {"basico", "intermediario", "avancado"}
    requires b in {"basico", "intermediario", "avancado"}
    ensures LevelColor(a) == LevelColor(b) <==> a == b
    ensures LevelColor(a) != "bg-gray-100 text-gray-800"
  {
  }

  /** A known level's display name; any other level is shown as stored. */
  function LevelText(level: string): string {
    if level == "basico" then "Básico"
    else if level == "intermediario" then "Intermediário"
    else if level == "avancado" then "Avançado"
    else level
  }

  /**
   * Level names: each known level is renamed to an accented name, the three
   * names differ, and an unknown level passes through unchanged.
   */
  lemma LevelTextRenamesKnown(a: string, b: string)
    ensures a !in {"basico", "intermediario", "avancado"} ==> LevelText(a) == a
    ensures a in {"basico", "intermediario", "avancado"} ==> LevelText(a) != a
    ensures a in {"basico", "intermediario", "avancado"} && b in {"basico", "intermediario", "avancado"} ==>
              (LevelText(a) == LevelText(b) <==> a == b)
  {
  }
}
