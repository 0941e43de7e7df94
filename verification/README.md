# Sonar data layer in Dafny

Sonar is a job board and Libras course site for deaf and hard-of-hearing
people. It keeps all of its data in the browser's `localStorage`, and this
project models that data layer together with the small pieces of page logic
that read and write it:

- **Identity and session store** (`lib/auth.tsx`, module `Auth`). A user list,
  a persisted session slot and the provider's in-memory session, with
  `login`, `register`, `logout` and the restore effect.
- **Job board** (`app/vagas/page.tsx`, module `JobBoard`). The built-in
  listings merged with the stored jobs (first occurrence of each id kept,
  merged list written back), the search/location/type/mode filter, and
  `handleApply` with its guards.
- **Course catalogue** (`app/cursos/page.tsx`, module `Courses`). The catalogue
  joined with the user's stored course list, the level and search filter,
  and enrolment.
- **Account page** (`app/minha-conta/page.tsx`, module `Account`). Course
  progress loaded with defaults, `completeModule` with its rounded
  percentage and write-back, the page gate, the tabs, and the label and
  colour tables.
- **Job posting form** (`app/cadastrar-vaga/page.tsx`, module `JobPosting`).
  Initial and reset state, the shared change handler, submission, and the
  company-only gate.
- **Sign-up page** (`app/cadastrar/page.tsx`, module `SignUp`). The ordered
  password checks in front of `register`.
- **Navigation bar** (`components/navigation.tsx`, module `Navigation`).
  `isActive`, the first-name greeting, the visible links and logout.

Supporting modules:

- `Wrappers` holds `Option`.
- `Seqs` holds filter, find-first, dedupe and subsequence, with their lemmas.
- `Text` holds `toLowerCase`, `includes`, `startsWith` and `split`.
- `Records` holds the stored record shapes.
- `Store` models `localStorage`. It is a map from key to decoded document. A
  missing key reads as an empty list, as the pages' `JSON.parse(getItem(k) || "[]")`
  does. A key holding the wrong kind of document also reads as an empty list,
  which is this model's own choice for corrupt storage; the pages would parse
  whatever is stored.

Identifiers and timestamps (`Date.now()`, `new Date()`) are parameters of
the operations. Dates are integer times.

Where the documented behaviour and the code differ, the model follows the
code. The three rows under "## Findings" are the exception: the tag-text
defect at lines 174 and 358 of the job board, and the date revival on the
account page. Each is modelled as written and also in corrected form, and the rest of the model uses the
corrected form. In particular `JobBoard.FilterJobs`, `JobBoard.Tags` and
`JobBoard.TagChips` are the corrected job board, which reads a posted job's
tag text as its comma-separated parts. The page itself throws on that text
(`JobBoard.FilterJobsAsWritten`, `JobBoard.TagChipsAsWritten`).

The differences from the documented behaviour are these:

- `completeModule` stamps the module's completion date again on every call,
  even for a module that is already completed. It also clears or re-stamps
  the course's completion date on every call. Only the completion flags, the
  count and the percentage are idempotent (`Account.CompleteModuleTwice`).
- `completeModule` with an unknown module id in a known course is not a
  no-op. It still recomputes the count and percentage from the module list
  and sets the access date.
- The percentage invariant holds for a course once `completeModule` has
  touched it (`Account.Consistent`). A freshly loaded course carries its
  stored percentage next to generated modules, so it need not be consistent.
- The merged job list keeps the first job with each id. The built-in
  listings come first, so they win every id clash.

## Model

| member | source | states |
|---|---|---|
| `Records.WithoutPassword` | lib/auth.tsx:44 | the session record keeps every account field except the password |
| `Auth.Restore` | lib/auth.tsx:27-34 | a session is installed exactly when the session key holds one, and it is that stored user; storage is untouched |
| `Auth.Login` | lib/auth.tsx:36-53 | succeeds iff some account matches email and password exactly; the session becomes the first match without its password, in memory and under the session key, nothing else in storage changes; a failure changes nothing |
| `Auth.Register` | lib/auth.tsx:55-85 | succeeds iff no account has the email (case-sensitive); on success the list grows by exactly the new account at the end, the new user is signed in and persisted, only the user list and session keys change; on failure nothing changes |
| `Auth.Logout` | lib/auth.tsx:87-90 | the session is empty, its key is absent, and no other key changes |
| `Auth.RestoreIgnoresUserList` | lib/auth.tsx:27-34 | two stores with the same session slot restore the same session, whatever their user lists hold |
| `Auth.LogoutThenRestore` | lib/auth.tsx:87-90 | after logout a restart of the provider restores no session |
| `Auth.SignInSurvivesRestore` | lib/auth.tsx:44-46 | a state whose persisted session equals its in-memory one is reproduced exactly by a restart |
| `Auth.RegisterKeepsEmailsUnique` | lib/auth.tsx:59-77 | registration preserves pairwise-distinct emails in the user list |
| `Auth.LoginAfterRegister` | lib/auth.tsx:67-81 | right after a successful registration, logging in with the same email and password succeeds and yields the same session |
| `Auth.WrongPasswordFails` | lib/auth.tsx:40-52 | with unique emails, a wrong password for a registered email fails and leaves the state as it was |
| `Text.Includes` | app/vagas/page.tsx:172-176 | `includes` is true exactly when the needle occurs at some offset of the haystack |
| `Text.StartsWith` | components/navigation.tsx:15 | `startsWith` is true exactly when the prefix is no longer than the string and equals its front |
| `Text.Split` | components/navigation.tsx:87 | `split` yields at least one piece and no piece contains the separator |
| `Text.JoinSplit` | components/navigation.tsx:87 | joining the pieces of a split with the separator gives the original string back |
| `JobBoard.MergeJobs` | app/vagas/page.tsx:124-128 | the merged list has pairwise-distinct ids, every id of listings plus stored jobs survives, and only given jobs appear |
| `JobBoard.LoadJobs` | app/vagas/page.tsx:124-133 | the page shows the merged list and writes exactly that list back under the jobs key, changing no other key |
| `JobBoard.MergePreservesOrder` | app/vagas/page.tsx:126-128 | the merged list is an order-preserving subsequence of listings followed by stored jobs |
| `JobBoard.MergeKeepsEarlier` | app/vagas/page.tsx:126-128 | on an id clash the earlier job is the one kept, so a listing beats a stored job |
| `JobBoard.MergeIdempotent` | app/vagas/page.tsx:126-132 | merging the listings with an already merged list gives that list again |
| `JobBoard.LoadJobsIdempotent` | app/vagas/page.tsx:124-133 | loading the page a second time changes neither the list nor storage |
| `JobBoard.SeedIds` | app/vagas/page.tsx:23-114 | there are six listings, with ids "1" to "6" in order |
| `JobBoard.SeedIdsDistinct` | app/vagas/page.tsx:23-114 | the six built-in listings have pairwise-distinct ids |
| `JobBoard.SeedsAloneAreKept` | app/vagas/page.tsx:23-128 | with no stored jobs the board shows exactly the six listings, in order |
| `JobBoard.FilterJobs` | app/vagas/page.tsx:170-181 | the corrected filter: a job is shown iff it is in the list and matches search (title, company or a tag, a posted job's tags being its comma-separated parts), location, type and mode; on built-in listings this is the page's filter |
| `JobBoard.FilterJobsPreservesOrder` | app/vagas/page.tsx:170-181 | the shown jobs are an order-preserving subsequence of the list |
| `JobBoard.EmptyCriteriaKeepAll` | app/vagas/page.tsx:170-181 | with every criterion empty the whole list is shown |
| `JobBoard.FilterIgnoresCase` | app/vagas/page.tsx:171-176 | criteria whose search and location agree after lower-casing show the same jobs |
| `JobBoard.FilterJobsAsWritten` | app/vagas/page.tsx:170-181 | the filter as written throws iff some job makes its callback reach `tags.some` on a posted job |
| `JobBoard.PostedTagsBreakFilter` | app/vagas/page.tsx:174 | as written, searching "marketing" with a posted job tagged "TI, Marketing" on the board throws |
| `JobBoard.AsWrittenAgreesOnListings` | app/vagas/page.tsx:170-181 | on lists of built-in-shaped jobs the filter as written and the corrected filter agree |
| `JobBoard.FoundByTag` | app/vagas/page.tsx:174 | with only a search text, jobs that all carry a tag containing it are all shown |
| `JobBoard.PostedTagIsSearchable` | app/vagas/page.tsx:174 | the corrected filter finds that posted job by its comma-separated tag |
| `JobBoard.TagChipsAsWritten` | app/vagas/page.tsx:357-365 | rendering the tag chips as written fails iff some shown job is a posted one; otherwise each job's chips are its tags |
| `JobBoard.TagChips` | app/vagas/page.tsx:357-365 | the corrected chips: a listing's tag array, a posted job's tag text split at commas, one entry per shown job |
| `JobBoard.TagChipsAgreeOnListings` | app/vagas/page.tsx:357-365 | on built-in listings the chips as written and the corrected chips are the same |
| `JobBoard.PostedJobBreaksBoard` | app/vagas/page.tsx:358 | as written, with an empty search the filter keeps a posted job and rendering its chips then throws |
| `JobBoard.PostedJobRendersTags` | app/vagas/page.tsx:358 | the corrected board shows that posted job, with chips "TI" and " Marketing" |
| `JobBoard.Apply` | app/vagas/page.tsx:135-168 | no user, then a company account, then an existing application for the job each leave storage unchanged, in that order; otherwise exactly one pending application with the job and user ids is appended and only that user's list changes |
| `JobBoard.ApplyTwiceRecordsOnce` | app/vagas/page.tsx:156-165 | applying twice to a job succeeds once, is refused the second time, and leaves exactly one application for it |
| `JobBoard.ApplyKeepsOnePerJob` | app/vagas/page.tsx:156-165 | applying keeps a user's applications free of repeated job ids |
| `Courses.StoredProgress` | app/cursos/page.tsx:102-106 | the progress of the first stored record with the id, or 0 when none has it |
| `Courses.JoinProgress` | app/cursos/page.tsx:97-112 | with a user, each course is enrolled iff a stored record has its id and shows that record's progress or 0, other fields unchanged; without a user nothing changes |
| `Courses.FilterCourses` | app/cursos/page.tsx:114-133 | a course is shown iff it is listed, its level matches ("todos" matches all) and the search is empty or found in title, description or instructor; order is kept |
| `Courses.FilterCourseSteps` | app/cursos/page.tsx:114-133 | the level step followed by the search step is one filter by both conditions |
| `Courses.Enroll` | app/cursos/page.tsx:161-187 | no user or an unknown id changes nothing; otherwise only that course is shown enrolled with progress 0, and storage gains one record only when none has the id, carrying the title of the first course with that id |
| `Courses.EnrollIdempotent` | app/cursos/page.tsx:175-186 | enrolling a second time changes neither the view nor storage |
| `Courses.EnrollThenJoin` | app/cursos/page.tsx:97-108 | after enrolling, the next load shows the course enrolled |
| `Account.RoundPercent` | app/minha-conta/page.tsx:104 | the result is the integer nearest to 100·count/total, halves rounded up |
| `Account.RoundPercentUnique` | app/minha-conta/page.tsx:104 | any integer within half a point of the exact percentage is the rounded percentage |
| `Account.RoundPercentMonotone` | app/minha-conta/page.tsx:104 | more completed modules never give a lower percentage |
| `Account.RoundPercentBounds` | app/minha-conta/page.tsx:104 | with no more completed modules than the total, the percentage lies in 0..100 |
| `Account.RoundPercentEnds` | app/minha-conta/page.tsx:104 | no module done is 0%, all modules done is 100% |
| `Account.HundredOnlyWhenDone` | app/minha-conta/page.tsx:104-112 | below 200 modules, 100% is reached exactly when every module is done |
| `Account.HundredOneShort` | app/minha-conta/page.tsx:104-112 | at 200 modules, 199 done already rounds to 100% |
| `Account.CountCompleted` | app/minha-conta/page.tsx:103 | the count is at most the list length, equals it iff all modules are completed, and is 0 iff none is |
| `Account.SameCompletionSameCount` | app/minha-conta/page.tsx:103 | the count depends on the completion flags alone |
| `Account.MarkModule` | app/minha-conta/page.tsx:100-102 | modules with the id become completed with the given date, every other module is unchanged |
| `Account.MarkModuleCountGrows` | app/minha-conta/page.tsx:100-103 | marking never lowers the number of completed modules |
| `Account.MarkModuleAgain` | app/minha-conta/page.tsx:100-102 | marking the same module again changes no completion flag |
| `Account.CompleteCourse` | app/minha-conta/page.tsx:99-114 | the module is marked, the count and the rounded percentage over the stored total agree with the new module list, the course is accessed now and completed now iff the percentage is 100; nothing else changes |
| `Account.CompleteModule` | app/minha-conta/page.tsx:97-116 | the course with the id is updated and every other course is unchanged |
| `Account.CompleteUnknownCourse` | app/minha-conta/page.tsx:98-116 | an id that names no course leaves the list unchanged |
| `Account.CompleteModuleTwice` | app/minha-conta/page.tsx:100-104 | a second identical call leaves flags, count and percentage where the first left them |
| `Account.CompleteNeverLowersProgress` | app/minha-conta/page.tsx:100-104 | on a consistent course, completing a module never lowers count or percentage |
| `Account.CompletedExactlyWhenAllDone` | app/minha-conta/page.tsx:103-112 | with as many modules as the total and under 200, the course is stamped completed iff every module is completed |
| `Account.LoadCourse` | app/minha-conta/page.tsx:56-64 | a missing or zero module count becomes 8, missing modules are generated, a missing or zero count is derived from the percentage, a missing or empty level becomes "basico", a missing access date becomes now; the rest is kept |
| `Account.LoadCourses` | app/minha-conta/page.tsx:55-64 | every stored course is loaded, one for one and in order |
| `Account.LoadSaveRoundTrip` | app/minha-conta/page.tsx:56-64 | saving a reloadable course and loading it again gives it back exactly |
| `Account.LoadedIsReloadable` | app/minha-conta/page.tsx:56-64 | every loaded course is reloadable |
| `Account.CompleteKeepsReloadable` | app/minha-conta/page.tsx:99-114 | completing a module keeps a course with a level reloadable |
| `Account.SaveCourses` | app/minha-conta/page.tsx:120-123 | with a user their stored list becomes the page's list and no other key changes; without one storage is untouched |
| `Account.CompleteAndSave` | app/minha-conta/page.tsx:97-124 | the page's new list is the updated list and storage holds what saving it writes |
| `Account.ReloadAfterComplete` | app/minha-conta/page.tsx:55-64 | when every course was reloadable, completing a module, saving and reloading the page gives back exactly the list it showed |
| `Account.FormatAll` | app/minha-conta/page.tsx:421 | formatting succeeds iff every date present is a real date rather than JSON text |
| `Account.ModuleMoments` | app/minha-conta/page.tsx:56-64 | modules read from storage hold their completion dates as text, generated ones as dates |
| `Account.CourseDatesAsWritten` | app/minha-conta/page.tsx:352-432 | the course tab as written fails to format iff the course or one of its stored modules carries a completion date; when it succeeds it shows the same dates as with every date revived |
| `Account.AsWrittenMomentsFail` | app/minha-conta/page.tsx:56-64 | the dates held after loading contain JSON text iff a stored completion date is present; otherwise they are the revived dates |
| `Account.ReloadAfterMarkThrows` | app/minha-conta/page.tsx:421 | as written, once a module is marked and saved, the next load of the course tab throws while formatting its date |
| `Account.CourseDates` | app/minha-conta/page.tsx:352-432 | the tab shows the access date first, then the module completion dates in module order, then the course's completion date exactly when it has one |
| `Account.Dates` | app/minha-conta/page.tsx:376-424 | the module dates shown are one per dated module, in module order: the k-th date is the k-th dated module's completion date |
| `Account.RevivedModulesFormat` | app/minha-conta/page.tsx:376-424 | module completion dates held as real dates format to exactly the module dates, in order |
| `Account.CourseDatesRevived` | app/minha-conta/page.tsx:56-64 | with every date revived on load, the tab formats without failing and shows exactly the loaded course's dates |
| `Account.ReloadKeepsDates` | app/minha-conta/page.tsx:56-64 | with dates revived on load, a reload after completing a module formats without failing and shows the same dates as before |
| `Account.LoadApplications` | app/minha-conta/page.tsx:52-53 | the page shows the list stored under the user's applications key, or none when the key is absent |
| `Account.ApplyLeavesOthersAlone` | app/minha-conta/page.tsx:52-53 | applying on the job board leaves every other user's applications on the account page unchanged |
| `Account.AppliedShowsOnAccount` | app/minha-conta/page.tsx:52-53 | an application made on the job board shows on the account page, last, after all those shown before |
| `Account.AccountView` | app/minha-conta/page.tsx:126-139 | the page waits while loading, turns away an anonymous visitor, and otherwise shows that user's account |
| `Account.Tabs` | app/minha-conta/page.tsx:205-211 | the tabs are shown in the page's order with no others; profile and courses always, applications and résumé iff the account is a candidate's |
| `Account.AccountTypeLabelDistinct` | app/minha-conta/page.tsx:194-198 | the three account types get three different header labels |
| `Account.StatusColorsDistinct` | app/minha-conta/page.tsx:141-154 | the four statuses get four different colours, none the fallback grey |
| `Account.LevelColorsDistinct` | app/minha-conta/page.tsx:156-167 | the three levels get three different colours, none the fallback grey |
| `Account.LevelTextRenamesKnown` | app/minha-conta/page.tsx:169-180 | unknown levels pass through unchanged; the three known ones are renamed, to three different names |
| `JobPosting.TextNamesRoundTrip` | app/cadastrar-vaga/page.tsx:20-43 | each text property's input name leads back to that property and to no checkbox or file input |
| `JobPosting.FlagNamesRoundTrip` | app/cadastrar-vaga/page.tsx:44-48 | each checkbox's name leads back to its own flag and to no text or file input |
| `JobPosting.SetText` | app/cadastrar-vaga/page.tsx:61 | the named text property takes the value; every other property is unchanged |
| `JobPosting.SetFlag` | app/cadastrar-vaga/page.tsx:56 | the named flag takes the value; every other property is unchanged |
| `JobPosting.InitialForm` | app/cadastrar-vaga/page.tsx:20-49 | every text is empty, there is no logo, and only "receive e-mail" is ticked |
| `JobPosting.ResetRestoresInitial` | app/cadastrar-vaga/page.tsx:86-112 | reset gives exactly the initial state |
| `JobPosting.HandleInputChange` | app/cadastrar-vaga/page.tsx:51-63 | a checkbox stores its checked state, the file input its first file or null, a text input its value, each under its own property only |
| `JobPosting.TypingChangesOneText` | app/cadastrar-vaga/page.tsx:60-62 | typing into a text input changes that property to the value and no other property |
| `JobPosting.TickingChangesOneFlag` | app/cadastrar-vaga/page.tsx:54-56 | ticking a checkbox changes that flag to the checked state and no other property |
| `JobPosting.RetypingIsNoChange` | app/cadastrar-vaga/page.tsx:60-62 | typing a property's current text again leaves the form unchanged |
| `JobPosting.NewJob` | app/cadastrar-vaga/page.tsx:70-76 | the job carries the given id, the whole form, the company's id, the date and status "active"; company id, date and status follow the form's properties so the form cannot override them, and the id precedes them but no form input is named `id` |
| `JobPosting.HandleSubmit` | app/cadastrar-vaga/page.tsx:65-84 | without a user storage is unchanged; otherwise exactly the new job is appended to the job list and no other key changes |
| `JobPosting.PostedJobReadsBack` | app/cadastrar-vaga/page.tsx:70-76 | a posted job's id, title, company, location, type and mode as the board reads them are the form's |
| `JobPosting.PostedJobOnBoard` | app/cadastrar-vaga/page.tsx:78-80 | a job posted with an id no listing or stored job has appears on the board's next load |
| `JobPosting.PostingPage` | app/cadastrar-vaga/page.tsx:114-146 | the form is shown iff loading is done and the user is a company account |
| `JobPosting.RedirectsToSignIn` | app/cadastrar-vaga/page.tsx:14-18 | the page redirects to sign-in exactly when it shows the restricted notice |
| `JobPosting.SubmitFromPage` | app/cadastrar-vaga/page.tsx:65-80 | a submission has effect only while the form is shown |
| `JobPosting.OnlyCompaniesPost` | app/cadastrar-vaga/page.tsx:125 | through the page, only a company account adds to the job list, and then by exactly its job |
| `SignUp.ErrorMessagesDistinct` | app/cadastrar/page.tsx:26-44 | each failure has its own message and only a registration shows none |
| `SignUp.Submit` | app/cadastrar/page.tsx:22-47 | a mismatch is reported first, then a password under 6 characters, then a taken email, none touching state; registration happens iff both checks pass and the email is free |
| `SignUp.NextPage` | app/cadastrar/page.tsx:40-44 | the page moves to the account page iff the registration succeeded |
| `SignUp.MismatchReportedFirst` | app/cadastrar/page.tsx:26-34 | a short password that also mismatches is reported as a mismatch |
| `SignUp.SubmitKeepsPasswordsLong` | app/cadastrar/page.tsx:31-34 | signing up through the page keeps every stored password at least 6 characters long |
| `SignUp.SignedUpCanLogIn` | app/cadastrar/page.tsx:38-41 | after signing up, logging in with the same email and password succeeds |
| `Navigation.IsActive` | components/navigation.tsx:13-17 | the home link is active iff the path is exactly "/"; any other link iff the path is that link followed by anything |
| `Navigation.HomeOnlyAtHome` | components/navigation.tsx:14-16 | away from "/", the home link is never active |
| `Navigation.ActiveBelow` | components/navigation.tsx:15 | a link is active on every path that extends it |
| `Navigation.PrefixIsNotSegmentAware` | components/navigation.tsx:15 | "/vagasx" highlights the "/vagas" link: the test is on raw text |
| `Navigation.FirstName` | components/navigation.tsx:87 | the greeting name is a prefix of the name, contains no space, and stops at the first space or the end |
| `Navigation.FirstNameOfOneWord` | components/navigation.tsx:87 | a name without spaces is greeted in full |
| `Navigation.FirstNameOfTwoWords` | components/navigation.tsx:87 | a name with a space is greeted by the part before the first space |
| `Navigation.Greeting` | components/navigation.tsx:81-88 | only a signed-in user is greeted, with "Olá, " and their first name |
| `Navigation.Links` | components/navigation.tsx:35-119 | only the bar's own links, each at most once and in the bar's left-to-right order; the three sections always; company area and job posting iff a company account; account link iff signed in; sign-in and sign-up iff not |
| `Navigation.ToggleMenu` | components/navigation.tsx:123 | the menu button flips the mobile menu and nothing else |
| `Navigation.HandleLogout` | components/navigation.tsx:19-22 | logout closes the mobile menu, ends the session and removes only the session key |
| `Navigation.LogoutShowsVisitorLinks` | components/navigation.tsx:19-22 | after logging out from the bar the sign-in link is back and the account link gone |

## Left out

- Rendering, hooks, effect scheduling, `isLoading` timing, `router.push`, `alert` and the `async` wrappers are left out. Each operation is one synchronous step, and a redirect is a returned value.
- JSON encoding of storage values is left out. Storage holds decoded documents; corrupt contents are out of scope.
- `Date.now()` and `new Date()` are parameters. Ids are not claimed to be unique, because two calls in the same millisecond collide.
- `Account.LoadCourse`: `generateMockModules` and `timeSpent` use `Math.random`. The generator is the parameter `mock`; `timeSpent` is not modelled.
- `formatDate` on the job board is left out; it is float and clock arithmetic.
- The scroll tracker of the home page, the company dashboard (mock data without handlers), the sign-in page wrapper and the layout are left out.
- `Text.Lower`: `toLowerCase` is modelled for ASCII letters only; Unicode case mapping is not.
- `SignUp.Submit`: password length is counted in characters, not UTF-16 code units.
- `JobPosting.HandleInputChange`: an event naming no property of the kind its input type writes leaves the form unchanged. The page would add or overwrite that property with a value of another kind, but its own inputs never produce such events.
- The logo upload keeps only the chosen file's name; the `File` object itself is out of scope.
- Browser-side `required` validation on the form inputs is left out.
- Races between tabs sharing `localStorage` are left out.
- `Math.round` is modelled on exact rationals, not on floating-point numbers.
- `Account.CourseDates`: dates are shown as their integer times; `toLocaleDateString` formatting is not modelled.

## Findings

| source | as written | input that shows it | evidently intended | confidence | as-written member | corrected member |
|---|---|---|---|---|---|---|
| app/vagas/page.tsx:174 | the search callback calls `job.tags.some(...)`, but a job posted through the job form stores `tags` as the form's comma-separated text (app/cadastrar-vaga/page.tsx:42,70-76), which has no `some`; the render at line 358 fails on the same text (next row) | a posted job with title "Analista", company "Sonar", tags "TI, Marketing" on the board; search "marketing" | tags of posted jobs are searched as the comma-separated parts of that text | high, not executed | `JobBoard.PostedTagsBreakFilter` | `JobBoard.PostedTagIsSearchable` |
| app/vagas/page.tsx:358 | every shown job's tags are rendered with `job.tags.map(...)`, which a posted job's tag text does not have; the filter keeps a posted job whenever the search text is empty, since its title test succeeds first | any job posted through the job form on the board, with no search text | posted jobs show their comma-separated tags as chips | high, not executed | `JobBoard.PostedJobBreaksBoard` | `JobBoard.PostedJobRendersTags` |
| app/minha-conta/page.tsx:421 | the load effect revives `lastAccessed` into a `Date` but leaves the stored modules' and the course's `completedAt` as the JSON text; the course tab then calls `toLocaleDateString` on that text (also line 432) | mark any module as completed (the list is saved), then reload the account page and open the courses tab | completion dates are revived on load like the access date, so a reload shows the same dates | high, not executed | `Account.ReloadAfterMarkThrows` | `Account.ReloadKeepsDates` |
