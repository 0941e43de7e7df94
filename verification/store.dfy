/**
 * Browser `localStorage` as the pages use it: one JSON document per key. The
 * model keeps the decoded documents; each reader treats a missing key as the
 * empty collection, as the pages' `JSON.parse(getItem(k) || "[]")` does.
 */
module Store {
  import opened Wrappers
  import opened Records

  /** The decoded document under one key. */
  datatype Value =
    | UserList(accounts: seq<Account>)
    | SessionUser(user: User)
    | JobList(jobs: seq<Job>)
    | ApplicationList(applications: seq<Application>)
    | CourseList(courses: seq<StoredCourse>)

  type Store = map<string, Value>

  const UsersKey: string := "sonar_users"
  const SessionKey: string := "sonar_user"
  const JobsKey: string := "sonar_jobs"

  /** The key of one user's application list. */
  function ApplicationsKey(userId: string): string {
    "applications_" + userId
  }

  /** The key of one user's course list. */
  function CoursesKey(userId: string): string {
    "courses_" + userId
  }

  function Accounts(st: Store): seq<Account> {
    if UsersKey in st && st[UsersKey].UserList? then st[UsersKey].accounts else []
  }

  function Session(st: Store): Option<User> {
    if SessionKey in st && st[SessionKey].SessionUser? then Some(st[SessionKey].user) else None
  }

  function Jobs(st: Store): seq<Job> {
    if JobsKey in st && st[JobsKey].JobList? then st[JobsKey].jobs else []
  }

  function Applications(st: Store, userId: string): seq<Application> {
    var k := ApplicationsKey(userId);
    if k in st && st[k].ApplicationList? then st[k].applications else []
  }

  function Courses(st: Store, userId: string): seq<StoredCourse> {
    var k := CoursesKey(userId);
    if k in st && st[k].CourseList? then st[k].courses else []
  }

  /** `st2` differs from `st1` at most at the keys in `changed`. */
  predicate SameExcept(st1: Store, st2: Store, changed: set<string>) {
    && (forall k :: k in st1 && k !in changed ==> k in st2 && st2[k] == st1[k])
    && (forall k :: k in st2 && k !in changed ==> k in st1)
  }

  /**
   * The keys never collide: the fixed keys differ from each other and from
   * every per-user key, and each per-user key names exactly one user.
   */
  lemma KeysDistinct(a: string, b: string)
    ensures UsersKey != SessionKey && UsersKey != JobsKey && SessionKey != JobsKey
    ensures ApplicationsKey(a) != CoursesKey(b)
    ensures ApplicationsKey(a) !in {UsersKey, SessionKey, JobsKey}
    ensures CoursesKey(a) !in {UsersKey, SessionKey, JobsKey}
    ensures ApplicationsKey(a) == ApplicationsKey(b) <==> a == b
    ensures CoursesKey(a) == CoursesKey(b) <==> a == b
  {
    assert ApplicationsKey(a)[0] == 'a' && CoursesKey(b)[0] == 'c';
    assert UsersKey[0] == 's' && SessionKey[0] == 's' && JobsKey[0] == 's';
    if ApplicationsKey(a) == ApplicationsKey(b) {
      assert a == ApplicationsKey(a)[13..];
      assert b == ApplicationsKey(b)[13..];
    }
    if CoursesKey(a) == CoursesKey(b) {
      assert a == CoursesKey(a)[8..];
      assert b == CoursesKey(b)[8..];
    }
  }
}
