/**
 * The job posting form: its initial and reset state, the single change
 * handler every input shares, the submission that appends the form object
 * to the stored job list, and the page gate that admits company accounts only.
 */
module JobPosting {
  import opened Wrappers
  import opened Seqs
  import opened Records
  import opened Store
  import opened JobBoard

  /** The form properties that hold text: text inputs, text areas and selects. */
  datatype TextKey =
    | Company | Site | Email | Phone | Title | Location | JobType | Mode | Seniority | Salary
    | Summary | Description | Responsibilities | Requirements | Benefits | Deadline | ApplyUrl | Tags

  /** The form properties bound to checkboxes. */
  datatype FlagKey = Highlight | AcceptRemote | ReceiveEmail | Terms

  /** The `name` attribute of each text input. */
  function TextName(k: TextKey): string {
    match k
    case Company => "company"
    case Site => "site"
    case Email => "email"
    case Phone => "phone"
    case Title => "title"
    case Location => "location"
    case JobType => "type"
    case Mode => "mode"
    case Seniority => "seniority"
    case Salary => "salary"
    case Summary => "summary"
    case Description => "description"
    case Responsibilities => "responsibilities"
    case Requirements => "requirements"
    case Benefits => "benefits"
    case Deadline => "deadline"
    case ApplyUrl => "applyUrl"
    case Tags => "tags"
  }

  /** The `name` attribute of each checkbox. */
  function FlagName(k: FlagKey): string {
    match k
    case Highlight => "highlight"
    case AcceptRemote => "acceptRemote"
    case ReceiveEmail => "receiveEmail"
    case Terms => "terms"
  }

  /** The `name` attribute of the file input. */
  const LogoName: string := "logo"

  /** The text property a name refers to, if any. */
  function TextKeyNamed(name: string): Option<TextKey> {
    if name == "company" then Some(Company)
    else if name == "site" then Some(Site)
    else if name == "email" then Some(Email)
    else if name == "phone" then Some(Phone)
    else if name == "title" then Some(Title)
    else if name == "location" then Some(Location)
    else if name == "type" then Some(JobType)
    else if name == "mode" then Some(Mode)
    else if name == "seniority" then Some(Seniority)
    else if name == "salary" then Some(Salary)
    else if name == "summary" then Some(Summary)
    else if name == "description" then Some(Description)
    else if name == "responsibilities" then Some(Responsibilities)
    else if name == "requirements" then Some(Requirements)
    else if name == "benefits" then Some(Benefits)
    else if name == "deadline" then Some(Deadline)
    else if name == "applyUrl" then Some(ApplyUrl)
    else if name == "tags" then Some(Tags)
    else None
  }

  /** The checkbox property a name refers to, if any. */
  function FlagKeyNamed(name: string): Option<FlagKey> {
    if name == "highlight" then Some(Highlight)
    else if name == "acceptRemote" then Some(AcceptRemote)
    else if name == "receiveEmail" then Some(ReceiveEmail)
    else if name == "terms" then Some(Terms)
    else None
  }

  /** Each text input's name leads back to its own property: the names are distinct. */
  lemma TextNamesRoundTrip(k: TextKey)
    ensures TextKeyNamed(TextName(k)) == Some(k)
    ensures FlagKeyNamed(TextName(k)) == None && TextName(k) != LogoName
  {
    match k
    case Company =>
    case Site =>
    case Email =>
    case Phone =>
    case Title =>
    case Location =>
    case JobType =>
    case Mode =>
    case Seniority =>
    case Salary =>
    case Summary =>
    case Description =>
    case Responsibilities =>
    case Requirements =>
    case Benefits =>
    case Deadline =>
    case ApplyUrl =>
    case Tags =>
  }

  /** Each checkbox's name leads back to its own property and to no text property. */
  lemma FlagNamesRoundTrip(k: FlagKey)
    ensures FlagKeyNamed(FlagName(k)) == Some(k)
    ensures TextKeyNamed(FlagName(k)) == None && FlagName(k) != LogoName
  {
    match k
    case Highlight =>
    case AcceptRemote =>
    case ReceiveEmail =>
    case Terms =>
  }

  /** The text held by one property. */
  function GetText(f: JobForm, k: TextKey): string {
    match k
    case Company => f.company
    case Site => f.site
    case Email => f.email
    case Phone => f.phone
    case Title => f.title
    case Location => f.location
    case JobType => f.jobType
    case Mode => f.mode
    case Seniority => f.seniority
    case Salary => f.salary
    case Summary => f.summary
    case Description => f.description
    case Responsibilities => f.responsibilities
    case Requirements => f.requirements
    case Benefits => f.benefits
    case Deadline => f.deadline
    case ApplyUrl => f.applyUrl
    case Tags => f.tags
  }

  /** The state of one checkbox. */
  function GetFlag(f: JobForm, k: FlagKey): bool {
    match k
    case Highlight => f.highlight
    case AcceptRemote => f.acceptRemote
    case ReceiveEmail => f.receiveEmail
    case Terms => f.terms
  }

  /** `{ ...prev, [name]: value }` for a text property. */
  function SetText(f: JobForm, k: TextKey, v: string): (r: JobForm)
    ensures GetText(r, k) == v
    ensures forall k' :: k' != k ==> GetText(r, k') == GetText(f, k')
    ensures forall g :: GetFlag(r, g) == GetFlag(f, g)
    ensures r.logo == f.logo
  {
    match k
    case Company => f.(company := v)
    case Site => f.(site := v)
    case Email => f.(email := v)
    case Phone => f.(phone := v)
    case Title => f.(title := v)
    case Location => f.(location := v)
    case JobType => f.(jobType := v)
    case Mode => f.(mode := v)
    case Seniority => f.(seniority := v)
    case Salary => f.(salary := v)
    case Summary => f.(summary := v)
    case Description => f.(description := v)
    case Responsibilities => f.(responsibilities := v)
    case Requirements => f.(requirements := v)
    case Benefits => f.(benefits := v)
    case Deadline => f.(deadline := v)
    case ApplyUrl => f.(applyUrl := v)
    case Tags => f.(tags := v)
  }

  /** `{ ...prev, [name]: checked }` for a checkbox property. */
  function SetFlag(f: JobForm, k: FlagKey, b: bool): (r: JobForm)
    ensures GetFlag(r, k) == b
    ensures forall g :: g != k ==> GetFlag(r, g) == GetFlag(f, g)
    ensures forall t :: GetText(r, t) == GetText(f, t)
    ensures r.logo == f.logo
  {
    match k
    case Highlight => f.(highlight := b)
    case AcceptRemote => f.(acceptRemote := b)
    case ReceiveEmail => f.(receiveEmail := b)
    case Terms => f.(terms := b)
  }

  /** Two forms agree on every property. */
  lemma FormsEqual(a: JobForm, b: JobForm)
    requires forall t :: GetText(a, t) == GetText(b, t)
    requires forall g :: GetFlag(a, g) == GetFlag(b, g)
    requires a.logo == b.logo
    ensures a == b
  {
    assert GetText(a, Company) == GetText(b, Company) && GetText(a, Site) == GetText(b, Site);
    assert GetText(a, Email) == GetText(b, Email) && GetText(a, Phone) == GetText(b, Phone);
    assert GetText(a, Title) == GetText(b, Title) && GetText(a, Location) == GetText(b, Location);
    assert GetText(a, JobType) == GetText(b, JobType) && GetText(a, Mode) == GetText(b, Mode);
    assert GetText(a, Seniority) == GetText(b, Seniority) && GetText(a, Salary) == GetText(b, Salary);
    assert GetText(a, Summary) == GetText(b, Summary) && GetText(a, Description) == GetText(b, Description);
    assert GetText(a, Responsibilities) == GetText(b, Responsibilities);
    assert GetText(a, Requirements) == GetText(b, Requirements) && GetText(a, Benefits) == GetText(b, Benefits);
    assert GetText(a, Deadline) == GetText(b, Deadline) && GetText(a, ApplyUrl) == GetText(b, ApplyUrl);
    assert GetText(a, Tags) == GetText(b, Tags);
    assert GetFlag(a, Highlight) == GetFlag(b, Highlight) && GetFlag(a, AcceptRemote) == GetFlag(b, AcceptRemote);
    assert GetFlag(a, ReceiveEmail) == GetFlag(b, ReceiveEmail) && GetFlag(a, Terms) == GetFlag(b, Terms);
  }

  // ---------------------------------------------------------------------------
  // Initial state and reset

  /** The state the page starts with: empty texts, no logo, only "receive e-mail" ticked. */
  function InitialForm(): (f: JobForm)
    ensures forall t :: GetText(f, t) == ""
    ensures f.logo.None?
    ensures forall g :: GetFlag(f, g) <==> g == ReceiveEmail
  {
    JobForm("", "", "", "", None, "", "", "", "", "", "", "", "", "", "", "", "", "", "",
            false, false, true, false)
  }

  /** `handleReset`: the page writes the whole object out again. */
  function ResetForm(): JobForm {
    JobForm(
      /* company */ "", /* site */ "", /* email */ "", /* phone */ "", /* logo */ None,
      /* title */ "", /* location */ "", /* type */ "", /* mode */ "", /* seniority */ "",
      /* salary */ "", /* summary */ "", /* description */ "", /* responsibilities */ "",
      /* requirements */ "", /* benefits */ "", /* deadline */ "", /* applyUrl */ "", /* tags */ "",
      /* highlight */ false, /* acceptRemote */ false, /* receiveEmail */ true, /* terms */ false)
  }

  /** Resetting returns the form to exactly the state the page starts with. */
  lemma ResetRestoresInitial()
    ensures ResetForm() == InitialForm()
  {
  }

  // ---------------------------------------------------------------------------
  // Editing

  /**
   * A change event as the handler reads it: the input's name and type, its
   * text value, its checked state and the names of the chosen files.
   */
  datatype InputEvent = InputEvent(name: string, inputType: string, value: string, checked: bool,
                                   files: seq<string>)

  /**
   * `handleInputChange`: a checkbox stores its checked state, a file input
   * its first file or null, anything else its text. Events are taken from
   * the form's own inputs; one naming no property of the kind its type
   * writes leaves the form as it was.
   */
  function HandleInputChange(form: JobForm, e: InputEvent): (r: JobForm)
    ensures e.inputType == "checkbox" && FlagKeyNamed(e.name).Some? ==>
              r == SetFlag(form, FlagKeyNamed(e.name).value, e.checked)
    ensures e.inputType == "file" && e.name == LogoName ==>
              && (r.logo.Some? <==> |e.files| > 0)
              && (|e.files| > 0 ==> r.logo.value == e.files[0])
              && r.(logo := form.logo) == form
    ensures e.inputType != "checkbox" && e.inputType != "file" && TextKeyNamed(e.name).Some? ==>
              r == SetText(form, TextKeyNamed(e.name).value, e.value)
    ensures FlagKeyNamed(e.name).None? && TextKeyNamed(e.name).None? && e.name != LogoName ==> r == form
  {
    if e.inputType == "checkbox" then
      match FlagKeyNamed(e.name)
      case Some(k) => SetFlag(form, k, e.checked)
      case None => form
    else if e.inputType == "file" then
      if e.name == LogoName then form.(logo := if |e.files| > 0 then Some(e.files[0]) else None)
      else form
    else
      match TextKeyNamed(e.name)
      case Some(k) => SetText(form, k, e.value)
      case None => form
  }

  /** Typing into a text input changes that property and nothing else. */
  lemma TypingChangesOneText(form: JobForm, k: TextKey, inputType: string, value: string,
                             checked: bool, files: seq<string>)
    requires inputType != "checkbox" && inputType != "file"
    ensures var r := HandleInputChange(form, InputEvent(TextName(k), inputType, value, checked, files));
            && GetText(r, k) == value
            && (forall t :: t != k ==> GetText(r, t) == GetText(form, t))
            && (forall g :: GetFlag(r, g) == GetFlag(form, g))
            && r.logo == form.logo
  {
    TextNamesRoundTrip(k);
  }

  /** Ticking a checkbox changes that flag and nothing else. */
  lemma TickingChangesOneFlag(form: JobForm, k: FlagKey, value: string, checked: bool, files: seq<string>)
    ensures var r := HandleInputChange(form, InputEvent(FlagName(k), "checkbox", value, checked, files));
            && GetFlag(r, k) == checked
            && (forall g :: g != k ==> GetFlag(r, g) == GetFlag(form, g))
            && (forall t :: GetText(r, t) == GetText(form, t))
            && r.logo == form.logo
  {
    FlagNamesRoundTrip(k);
  }

  /** Typing a property's current text again leaves the form as it was. */
  lemma RetypingIsNoChange(form: JobForm, k: TextKey, inputType: string, checked: bool,
                           files: seq<string>)
    requires inputType != "checkbox" && inputType != "file"
    ensures HandleInputChange(form, InputEvent(TextName(k), inputType, GetText(form, k), checked, files))
            == form
  {
    TextNamesRoundTrip(k);
    var r := HandleInputChange(form, InputEvent(TextName(k), inputType, GetText(form, k), checked, files));
    FormsEqual(r, form);
  }

  // ---------------------------------------------------------------------------
  // Submitting

  /**
   * The job object `handleSubmit` builds: a fresh id, the form's properties,
   * then the company's id, the creation date and the status "active".
   */
  function NewJob(form: JobForm, id: string, companyId: string, now: int): (j: Job)
    ensures j.Posted? && j.id == id && j.form == form
    ensures j.companyId == companyId && j.createdAt == now && j.status == "active"
  {
    Posted(id, form, companyId, now, "active")
  }

  /**
   * `handleSubmit`: without a user nothing happens; otherwise the new job is
   * appended to the stored job list and nothing else in storage changes.
   */
  function HandleSubmit(user: Option<User>, form: JobForm, store: Store, id: string, now: int)
    : (st: Store)
    ensures user.None? ==> st == store
    ensures user.Some? ==> Jobs(st) == Jobs(store) + [NewJob(form, id, user.value.id, now)]
    ensures user.Some? ==> SameExcept(store, st, {JobsKey})
  {
    if user.None? then store
    else store[JobsKey := JobList(Jobs(store) + [NewJob(form, id, user.value.id, now)])]
  }

  /** A posted form reads back on the job board with the form's own texts. */
  lemma PostedJobReadsBack(form: JobForm, id: string, companyId: string, now: int)
    ensures var j := NewJob(form, id, companyId, now);
            && JobId(j) == id
            && j.Title() == GetText(form, Title)
            && j.Company() == GetText(form, Company)
            && j.Location() == GetText(form, Location)
            && j.JobType() == GetText(form, JobType)
            && j.Mode() == GetText(form, Mode)
  {
  }

  /**
   * A job posted with an id that no listing and no stored job has shows up
   * on the job board's next load.
   */
  lemma PostedJobOnBoard(user: User, form: JobForm, store: Store, id: string, now: int)
    requires forall j :: j in SeedJobs + Jobs(store) ==> JobId(j) != id
    ensures NewJob(form, id, user.id, now) in LoadJobs(HandleSubmit(Some(user), form, store, id, now)).0
  {
    var nj := NewJob(form, id, user.id, now);
    var st := HandleSubmit(Some(user), form, store, id, now);
    var all := SeedJobs + Jobs(st);
    assert all == (SeedJobs + Jobs(store)) + [nj];
    var i := |all| - 1;
    forall k | 0 <= k < i
      ensures JobId(all[k]) != JobId(all[i])
    {
      assert all[k] in SeedJobs + Jobs(store);
    }
    assert IsFirstWithKey(all, JobId, i);
    DedupeKeepsFirst(all, JobId);
  }

  // ---------------------------------------------------------------------------
  // The page gate

  /** What the page renders: a loading message, the restricted notice, or the form. */
  datatype PostingView = Loading | Restricted | ShowForm(user: User)

  /** The page gate: only a company account sees the form. */
  function PostingPage(isLoading: bool, user: Option<User>): (v: PostingView)
    ensures v.Loading? <==> isLoading
    ensures v.ShowForm? <==> !isLoading && user.Some? && user.value.accountType == Empresa
    ensures v.ShowForm? ==> user == Some(v.user)
  {
    if isLoading then Loading
    else if user.None? || user.value.accountType != Empresa then Restricted
    else ShowForm(user.value)
  }

  /** The page sends the visitor to sign in exactly when it shows the restricted notice. */
  function RedirectsToSignIn(isLoading: bool, user: Option<User>): (r: bool)
    ensures r <==> PostingPage(isLoading, user).Restricted?
  {
    !isLoading && (user.None? || user.value.accountType != Empresa)
  }

  /**
   * A submission from the page: only possible while the form is shown, so
   * every job it stores carries a company account's id.
   */
  function SubmitFromPage(isLoading: bool, user: Option<User>, form: JobForm, store: Store,
                          id: string, now: int): (st: Store)
    ensures !PostingPage(isLoading, user).ShowForm? ==> st == store
    ensures PostingPage(isLoading, user).ShowForm? ==> st == HandleSubmit(user, form, store, id, now)
  {
    match PostingPage(isLoading, user)
    case ShowForm(u) => HandleSubmit(Some(u), form, store, id, now)
    case _ => store
  }

  /** Through the page, only a company account adds to the job list. */
  lemma OnlyCompaniesPost(isLoading: bool, user: Option<User>, form: JobForm, store: Store,
                          id: string, now: int)
    requires Jobs(SubmitFromPage(isLoading, user, form, store, id, now)) != Jobs(store)
    ensures user.Some? && user.value.accountType == Empresa
    ensures Jobs(SubmitFromPage(isLoading, user, form, store, id, now))
            == Jobs(store) + [NewJob(form, id, user.value.id, now)]
  {
  }
}
