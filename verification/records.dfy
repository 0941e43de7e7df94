/**
 * The records the pages keep in browser storage, with the shapes the pages
 * give them. Dates are integer timestamps supplied by the caller.
 */
module Records {
  import opened Wrappers

  /** `User["type"]`: candidate, company or student. */
  datatype AccountType = Candidato | Empresa | Aluno

  /** The signed-in user as the session holds it: an account without its password. */
  datatype User = User(id: string, name: string, email: string, accountType: AccountType, createdAt: int)

  /** An entry of the user list: the session fields plus the password, kept verbatim. */
  datatype Account = Account(
    id: string, name: string, email: string, password: string,
    accountType: AccountType, createdAt: int)

  /** The `{ password: _, ...userWithoutPassword }` destructuring. */
  function WithoutPassword(a: Account): (u: User)
    ensures u.id == a.id && u.name == a.name && u.email == a.email
    ensures u.accountType == a.accountType && u.createdAt == a.createdAt
  {
    User(a.id, a.name, a.email, a.accountType, a.createdAt)
  }

  /**
   * The job form's state object: company data, job details and preferences.
   * `logo` is the chosen file's name, or null; `jobType` is the `type` property.
   */
  datatype JobForm = JobForm(
    company: string, site: string, email: string, phone: string, logo: Option<string>,
    title: string, location: string, jobType: string, mode: string, seniority: string,
    salary: string, summary: string, description: string, responsibilities: string,
    requirements: string, benefits: string, deadline: string, applyUrl: string, tags: string,
    highlight: bool, acceptRemote: bool, receiveEmail: bool, terms: bool)

  /**
   * An entry of the job list. The built-in listings have a fixed shape with a
   * tag array; a job posted through the job form is the form object itself,
   * extended with id, company id, creation date and status, so its tags are
   * the form's comma-separated text.
   */
  datatype Job =
    | Listing(
        id: string, title: string, company: string, location: string,
        jobType: string, mode: string, salary: string, summary: string,
        tags: seq<string>, postedAt: string, highlighted: bool, companyId: string)
    | Posted(id: string, form: JobForm, companyId: string, createdAt: int, status: string)
  {
    function Title(): string {
      if Listing? then title else form.title
    }

    function Company(): string {
      if Listing? then company else form.company
    }

    function Location(): string {
      if Listing? then location else form.location
    }

    function JobType(): string {
      if Listing? then jobType else form.jobType
    }

    function Mode(): string {
      if Listing? then mode else form.mode
    }
  }

  /** A candidate's application to one job. */
  datatype Application = Application(
    id: string, jobId: string, jobTitle: string, company: string,
    userId: string, appliedAt: int, status: string)

  /** One module of a course on the account page. */
  datatype Module = Module(id: string, title: string, completed: bool, completedAt: Option<int>)

  /**
   * An entry of a user's course list. The course catalogue page writes only
   * id, title, progress and enrolment date; the account page writes the
   * remaining fields back after its first update, so they are optional here.
   */
  datatype StoredCourse = StoredCourse(
    id: string, title: string, progress: int, enrolledAt: Option<int>,
    modules: Option<seq<Module>>, totalModules: Option<nat>,
    completedModules: Option<int>, level: Option<string>,
    lastAccessed: Option<int>, completedAt: Option<int>)
}
