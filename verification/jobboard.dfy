/**
 * The job board page: the built-in listings merged with the stored job list,
 * the search/location/type/mode filter, and applying to a job.
 */
module JobBoard {
  import opened Wrappers
  import opened Seqs
  import opened Text
  import opened Records
  import opened Store

  /** The six built-in listings. */
  const SeedJobs: seq<Job> := [
    Listing("1", "Desenvolvedor Front-end", "TechLibras", "São Paulo, SP", "CLT", "Híbrido",
      "R$ 5.000 - R$ 8.000",
      "Buscamos desenvolvedor front-end com experiência em React e TypeScript. Empresa inclusiva com intérpretes de Libras disponíveis.",
      ["React", "TypeScript", "JavaScript", "CSS", "Libras"], "2025-01-10", true, "tech1"),
    Listing("2", "Designer UX/UI", "InclusiveDesign", "Rio de Janeiro, RJ", "PJ", "Remoto",
      "R$ 4.000 - R$ 6.500",
      "Procuramos designer especializado em acessibilidade e experiência do usuário. Conhecimento em design inclusivo é um diferencial.",
      ["Figma", "Adobe XD", "UX", "UI", "Acessibilidade"], "2025-01-09", false, "design1"),
    Listing("3", "Analista de Dados", "DataSurdo", "Brasília, DF", "CLT", "Presencial",
      "R$ 6.000 - R$ 9.000",
      "Vaga para analista de dados com foco em análise estatística. Ambiente de trabalho 100% acessível com comunicação em Libras.",
      ["Python", "SQL", "Power BI", "Excel", "Estatística"], "2025-01-08", false, "data1"),
    Listing("4", "Desenvolvedor Mobile", "AppInclusivo", "Belo Horizonte, MG", "CLT", "Híbrido",
      "R$ 5.500 - R$ 8.500",
      "Desenvolvedor mobile para criar aplicativos acessíveis. Experiência com React Native e conhecimento em acessibilidade mobile.",
      ["React Native", "Flutter", "iOS", "Android", "Acessibilidade"], "2025-01-07", true, "mobile1"),
    Listing("5", "Intérprete de Libras", "EduLibras", "Porto Alegre, RS", "CLT", "Presencial",
      "R$ 3.500 - R$ 5.000",
      "Intérprete de Libras para atuar em ambiente corporativo de tecnologia. Certificação PROLIBRAS obrigatória.",
      ["Libras", "Interpretação", "PROLIBRAS", "Educação", "Comunicação"], "2025-01-06", false, "edu1"),
    Listing("6", "Suporte Técnico", "TechSupport+", "Recife, PE", "CLT", "Remoto",
      "R$ 2.800 - R$ 4.200",
      "Suporte técnico especializado em atendimento à comunidade surda. Fluência em Libras e conhecimento técnico em informática.",
      ["Suporte", "Libras", "Informática", "Atendimento", "Remoto"], "2025-01-05", false, "support1")
  ]

  function JobId(j: Job): string { j.id }

  // ---------------------------------------------------------------------------
  // Merging the built-in listings with the stored list

  /**
   * The listings followed by the stored jobs, keeping the first job of each id.
   * Every id survives, ids are distinct, and only given jobs appear.
   */
  function MergeJobs(seeds: seq<Job>, stored: seq<Job>): (r: seq<Job>)
    ensures DistinctKeys(r, JobId)
    ensures KeySet(r, JobId) == KeySet(seeds + stored, JobId)
    ensures forall j :: j in r ==> j in seeds || j in stored
  {
    Dedupe(seeds + stored, JobId)
  }

  /** The page's load effect: the merged list, which is also written back to storage. */
  function LoadJobs(store: Store): (r: (seq<Job>, Store))
    ensures r.0 == MergeJobs(SeedJobs, Jobs(store))
    ensures Jobs(r.1) == r.0
    ensures SameExcept(store, r.1, {JobsKey})
  {
    var merged := MergeJobs(SeedJobs, Jobs(store));
    (merged, store[JobsKey := JobList(merged)])
  }

  /** The merged list keeps the order of `seeds + stored`. */
  lemma MergePreservesOrder(seeds: seq<Job>, stored: seq<Job>)
    ensures IsSubsequence(MergeJobs(seeds, stored), seeds + stored)
  {
    DedupeIsSubsequence(seeds + stored, JobId);
  }

  /**
   * On an id clash the earlier job wins: every first occurrence of an id is
   * kept, and a merged job whose id belongs to a listing is that listing.
   */
  lemma {:induction false} MergeKeepsEarlier(seeds: seq<Job>, stored: seq<Job>)
    ensures forall i :: 0 <= i < |seeds + stored| && IsFirstWithKey(seeds + stored, JobId, i)
              ==> (seeds + stored)[i] in MergeJobs(seeds, stored)
    ensures forall j :: j in MergeJobs(seeds, stored) && JobId(j) in KeySet(seeds, JobId) ==> j in seeds
  {
    var all := seeds + stored;
    DedupeKeepsFirst(all, JobId);
    DedupeOnlyFirst(all, JobId);
    forall j | j in MergeJobs(seeds, stored) && JobId(j) in KeySet(seeds, JobId)
      ensures j in seeds
    {
      var i :| 0 <= i < |all| && all[i] == j && IsFirstWithKey(all, JobId, i);
      var k :| 0 <= k < |seeds| && JobId(seeds[k]) == JobId(j);
      assert all[k] == seeds[k];
      assert i <= k;
      assert all[i] == seeds[i];
    }
  }

  /**
   * Merging is idempotent: merging the written-back list with the listings
   * again gives the same list.
   */
  lemma MergeIdempotent(seeds: seq<Job>, stored: seq<Job>)
    ensures MergeJobs(seeds, MergeJobs(seeds, stored)) == MergeJobs(seeds, stored)
  {
    var m := MergeJobs(seeds, stored);
    var novel := Outside(KeySet(seeds, JobId), JobId);
    var ds := Dedupe(seeds, JobId);
    var rest := Filter(Dedupe(stored, JobId), novel);
    DedupeAppend(seeds, stored, JobId);
    assert m == ds + rest;
    DedupeAppend(seeds, m, JobId);
    DedupeOfDistinct(m, JobId);
    assert MergeJobs(seeds, m) == ds + Filter(m, novel);
    FilterAppend(ds, rest, novel);
    assert forall i :: 0 <= i < |ds| ==> JobId(ds[i]) in KeySet(ds, JobId);
    FilterNone(ds, novel);
    FilterIdempotent(Dedupe(stored, JobId), novel);
    assert Filter(m, novel) == rest;
  }

  /** Loading the page twice leaves the same list, in memory and in storage. */
  lemma LoadJobsIdempotent(store: Store)
    ensures LoadJobs(LoadJobs(store).1) == LoadJobs(store)
  {
    MergeIdempotent(SeedJobs, Jobs(store));
    var (merged, st) := LoadJobs(store);
    assert st[JobsKey := JobList(merged)] == st;
  }

  /** The built-in listings have distinct ids, so with no stored jobs the board shows exactly them. */
  lemma SeedsAloneAreKept()
    ensures MergeJobs(SeedJobs, []) == SeedJobs
  {
    assert SeedJobs + [] == SeedJobs;
    SeedIdsDistinct();
    DedupeOfDistinct(SeedJobs, JobId);
  }

  /** The listings' ids are "1" to "6". */
  lemma SeedIds()
    ensures |SeedJobs| == 6
    ensures SeedJobs[0].id == "1" && SeedJobs[1].id == "2" && SeedJobs[2].id == "3"
    ensures SeedJobs[3].id == "4" && SeedJobs[4].id == "5" && SeedJobs[5].id == "6"
  {
  }

  /** No two listings share an id. */
  lemma SeedIdsDistinct()
    ensures DistinctKeys(SeedJobs, JobId)
  {
    SeedIds();
    forall i, j | 0 <= i < j < |SeedJobs|
      ensures JobId(SeedJobs[i]) != JobId(SeedJobs[j])
    {
      assert SeedJobs[i].id == [(49 + i) as char];
      assert SeedJobs[j].id == [(49 + j) as char];
      assert SeedJobs[i].id[0] != SeedJobs[j].id[0];
    }
  }

  // ---------------------------------------------------------------------------
  // Filtering

  /** The four filter inputs; the empty string means "no constraint". */
  datatype Criteria = Criteria(search: string, location: string, jobType: string, mode: string)

  /**
   * The tags a job is searched by and shown with, in the corrected reading.
   * Posted jobs keep the form's comma-separated text; the page calls array
   * methods on it and throws (see `FilterJobsAsWritten` and
   * `TagChipsAsWritten`), while this reading takes its comma-separated parts.
   */
  function Tags(j: Job): seq<string> {
    if j.Listing? then j.tags else Split(j.form.tags, ',')
  }

  /** Search text in the title, the company, or any tag, ignoring case. */
  predicate MatchesSearch(j: Job, search: string) {
    || IncludesIgnoringCase(j.Title(), search)
    || IncludesIgnoringCase(j.Company(), search)
    || exists t :: t in Tags(j) && IncludesIgnoringCase(t, search)
  }

  /** Location, type and mode: each constrains only when it is non-empty. */
  predicate MatchesOthers(j: Job, c: Criteria) {
    && (c.location == "" || IncludesIgnoringCase(j.Location(), c.location))
    && (c.jobType == "" || j.JobType() == c.jobType)
    && (c.mode == "" || j.Mode() == c.mode)
  }

  predicate Matches(j: Job, c: Criteria) {
    MatchesSearch(j, c.search) && MatchesOthers(j, c)
  }

  /**
   * The corrected filter: exactly the matching jobs, in their original order,
   * with posted jobs searched by their comma-separated tags. On built-in
   * listings it is the page's filter (`AsWrittenAgreesOnListings`).
   */
  function FilterJobs(jobs: seq<Job>, c: Criteria): (r: seq<Job>)
    ensures forall j :: j in r ==> j in jobs && Matches(j, c)
    ensures forall i :: 0 <= i < |jobs| && Matches(jobs[i], c) ==> jobs[i] in r
  {
    Filter(jobs, j => Matches(j, c))
  }

  lemma FilterJobsPreservesOrder(jobs: seq<Job>, c: Criteria)
    ensures IsSubsequence(FilterJobs(jobs, c), jobs)
  {
    FilterIsSubsequence(jobs, j => Matches(j, c));
  }

  /** With every criterion empty, every job is shown. */
  lemma EmptyCriteriaKeepAll(jobs: seq<Job>)
    ensures FilterJobs(jobs, Criteria("", "", "", "")) == jobs
  {
    var c := Criteria("", "", "", "");
    LowerEmpty();
    forall i | 0 <= i < |jobs|
      ensures Matches(jobs[i], c)
    {
      IncludesEmpty(Lower(jobs[i].Title()));
    }
    FilterAll(jobs, j => Matches(j, c));
  }

  /** Search and location ignore case: criteria that agree after lower-casing show the same jobs. */
  lemma FilterIgnoresCase(jobs: seq<Job>, c1: Criteria, c2: Criteria)
    requires Lower(c1.search) == Lower(c2.search)
    requires Lower(c1.location) == Lower(c2.location)
    requires (c1.location == "") == (c2.location == "")
    requires c1.jobType == c2.jobType && c1.mode == c2.mode
    ensures FilterJobs(jobs, c1) == FilterJobs(jobs, c2)
  {
    FilterCongruent(jobs, j => Matches(j, c1), j => Matches(j, c2));
  }

  // ---------------------------------------------------------------------------
  // The filter as written: `job.tags.some(...)` on a posted job

  /**
   * One job through the page's filter callback as written. None stands for
   * the TypeError thrown when `tags.some` is called on a posted job, whose
   * `tags` is a string; `||` reaches it only when neither the title nor the
   * company matches.
   */
  function MatchesAsWritten(j: Job, c: Criteria): Option<bool> {
    if IncludesIgnoringCase(j.Title(), c.search) || IncludesIgnoringCase(j.Company(), c.search) then
      Some(MatchesOthers(j, c))
    else if j.Posted? then
      None
    else
      Some((exists t :: t in j.tags && IncludesIgnoringCase(t, c.search)) && MatchesOthers(j, c))
  }

  /** The page's filter as written: None when any job makes the callback throw. */
  function FilterJobsAsWritten(jobs: seq<Job>, c: Criteria): (r: Option<seq<Job>>)
    ensures r.None? <==> exists i :: 0 <= i < |jobs| && MatchesAsWritten(jobs[i], c).None?
  {
    if exists i :: 0 <= i < |jobs| && MatchesAsWritten(jobs[i], c).None? then None
    else Some(Filter(jobs, j => MatchesAsWritten(j, c).GetOr(false)))
  }

  /** A job posted through the form, tagged "TI, Marketing". */
  const PostedExample: Job := Posted("1736500000000",
    JobForm("Sonar", "", "rh@sonar.com", "", None, "Analista", "Recife, PE", "CLT", "Remoto", "",
            "", "", "", "", "", "", "", "", "TI, Marketing", false, false, true, true),
    "c1", 1736500000000, "active")

  /**
   * The filter as written throws as soon as a posted job is on the board and
   * the search text is in neither its title nor its company.
   */
  lemma PostedTagsBreakFilter()
    ensures FilterJobsAsWritten([PostedExample], Criteria("marketing", "", "", "")) == None
  {
    var c := Criteria("marketing", "", "", "");
    NoRoomNoMatch(Lower("Analista"), Lower("marketing"));
    NoRoomNoMatch(Lower("Sonar"), Lower("marketing"));
    assert MatchesAsWritten(PostedExample, c).None?;
    assert [PostedExample][0] == PostedExample;
  }

  /** On built-in-shaped jobs the filter as written and the corrected filter agree. */
  lemma AsWrittenAgreesOnListings(jobs: seq<Job>, c: Criteria)
    requires forall i :: 0 <= i < |jobs| ==> jobs[i].Listing?
    ensures FilterJobsAsWritten(jobs, c) == Some(FilterJobs(jobs, c))
  {
    FilterCongruent(jobs, j => MatchesAsWritten(j, c).GetOr(false), j => Matches(j, c));
  }

  lemma SplitExampleTags()
    ensures Split("TI, Marketing", ',') == ["TI", " Marketing"]
  {
    SplitTwo("TI", " Marketing", ',');
    assert "TI" + [','] + " Marketing" == "TI, Marketing";
  }

  lemma LowerExample()
    ensures Lower(" Marketing") == " marketing"
    ensures Lower("marketing") == "marketing"
  {
  }

  lemma ExampleTagListed()
    ensures " Marketing" in Tags(PostedExample)
  {
    SplitExampleTags();
  }

  lemma ExampleTagMatches()
    ensures IncludesIgnoringCase(" Marketing", "marketing")
  {
    LowerExample();
    assert OccursAt(" marketing", "marketing", 1);
  }

  /** With only a search text, jobs carrying a tag that contains it are all shown. */
  lemma FoundByTag(jobs: seq<Job>, t: string, search: string)
    requires forall i :: 0 <= i < |jobs| ==> t in Tags(jobs[i])
    requires IncludesIgnoringCase(t, search)
    ensures FilterJobs(jobs, Criteria(search, "", "", "")) == jobs
  {
    var c := Criteria(search, "", "", "");
    forall i | 0 <= i < |jobs|
      ensures Matches(jobs[i], c)
    {
    }
    FilterAll(jobs, j => Matches(j, c));
  }

  /** The corrected filter finds the same posted job by one of its comma-separated tags. */
  lemma PostedTagIsSearchable()
    ensures FilterJobs([PostedExample], Criteria("marketing", "", "", "")) == [PostedExample]
  {
    ExampleTagListed();
    ExampleTagMatches();
    FoundByTag([PostedExample], " Marketing", "marketing");
  }

  /**
   * The tag chips rendered for each shown job, as written: `job.tags.map`
   * throws (None) on a posted job, whose `tags` is text.
   */
  function TagChipsAsWritten(shown: seq<Job>): (r: Option<seq<seq<string>>>)
    ensures r.None? <==> exists i :: 0 <= i < |shown| && shown[i].Posted?
    ensures r.Some? ==> |r.value| == |shown| && forall i :: 0 <= i < |shown| ==> r.value[i] == Tags(shown[i])
  {
    if exists i :: 0 <= i < |shown| && shown[i].Posted? then None
    else Some(seq(|shown|, i requires 0 <= i < |shown| => if shown[i].Listing? then shown[i].tags else []))
  }

  /** The corrected tag chips: every shown job's tags, posted jobs' split at commas. */
  function TagChips(shown: seq<Job>): (r: seq<seq<string>>)
    ensures |r| == |shown|
    ensures forall i :: 0 <= i < |shown| && shown[i].Listing? ==> r[i] == shown[i].tags
    ensures forall i :: 0 <= i < |shown| && shown[i].Posted? ==> r[i] == Split(shown[i].form.tags, ',')
  {
    seq(|shown|, i requires 0 <= i < |shown| => Tags(shown[i]))
  }

  /** On built-in listings the chips as written and the corrected chips agree. */
  lemma TagChipsAgreeOnListings(shown: seq<Job>)
    requires forall i :: 0 <= i < |shown| ==> shown[i].Listing?
    ensures TagChipsAsWritten(shown) == Some(TagChips(shown))
  {
    var r := TagChipsAsWritten(shown);
    assert r.Some?;
    assert r.value == TagChips(shown);
  }

  /**
   * As written, a posted job breaks the board even with an empty search: the
   * filter keeps it (the title test succeeds first), and rendering its tag
   * chips throws.
   */
  lemma PostedJobBreaksBoard()
    ensures FilterJobsAsWritten([PostedExample], Criteria("", "", "", "")) == Some([PostedExample])
    ensures TagChipsAsWritten(FilterJobsAsWritten([PostedExample], Criteria("", "", "", "")).value).None?
  {
    var c := Criteria("", "", "", "");
    LowerEmpty();
    IncludesEmpty(Lower(PostedExample.Title()));
    assert MatchesAsWritten(PostedExample, c) == Some(true);
    FilterAll([PostedExample], j => MatchesAsWritten(j, c).GetOr(false));
  }

  /** The corrected board shows that posted job with its two tags as chips. */
  lemma PostedJobRendersTags()
    ensures FilterJobs([PostedExample], Criteria("", "", "", "")) == [PostedExample]
    ensures TagChips([PostedExample]) == [["TI", " Marketing"]]
  {
    EmptyCriteriaKeepAll([PostedExample]);
    SplitExampleTags();
  }

  // ---------------------------------------------------------------------------
  // Applying

  datatype ApplyResult = NotSignedIn | CompanyAccount | AlreadyApplied | Applied

  /** The user already holds an application for this job. */
  predicate HasApplied(apps: seq<Application>, jobId: string) {
    exists i :: 0 <= i < |apps| && apps[i].jobId == jobId
  }

  /** How many of `apps` are for this job. */
  function CountFor(apps: seq<Application>, jobId: string): nat {
    |Filter(apps, (a: Application) => a.jobId == jobId)|
  }

  /**
   * `handleApply`, with its three guards in order: no user, a company
   * account, an existing application for the job. Each guard leaves storage
   * as it was; otherwise one pending application is appended to the user's
   * list and nothing else changes.
   */
  function Apply(user: Option<User>, store: Store, jobId: string, jobTitle: string,
                 company: string, id: string, now: int): (r: (ApplyResult, Store))
    ensures user.None? ==> r == (NotSignedIn, store)
    ensures user.Some? && user.value.accountType == Empresa ==> r == (CompanyAccount, store)
    ensures user.Some? && user.value.accountType != Empresa && HasApplied(Applications(store, user.value.id), jobId)
            ==> r == (AlreadyApplied, store)
    ensures r.0 == Applied <==>
              user.Some? && user.value.accountType != Empresa && !HasApplied(Applications(store, user.value.id), jobId)
    ensures r.0 == Applied ==>
              && Applications(r.1, user.value.id)
                 == Applications(store, user.value.id)
                    + [Application(id, jobId, jobTitle, company, user.value.id, now, "pendente")]
              && SameExcept(store, r.1, {ApplicationsKey(user.value.id)})
  {
    if user.None? then (NotSignedIn, store)
    else if user.value.accountType == Empresa then (CompanyAccount, store)
    else
      var u := user.value;
      var application := Application(id, jobId, jobTitle, company, u.id, now, "pendente");
      var existing := Applications(store, u.id);
      if FindFirst(existing, (a: Application) => a.jobId == jobId).Some? then (AlreadyApplied, store)
      else (Applied, store[ApplicationsKey(u.id) := ApplicationList(existing + [application])])
  }

  /** Applying twice to the same job leaves exactly one application for it. */
  lemma ApplyTwiceRecordsOnce(user: User, store: Store, jobId: string, jobTitle: string, company: string,
                              id1: string, now1: int, id2: string, now2: int)
    requires user.accountType != Empresa
    requires CountFor(Applications(store, user.id), jobId) == 0
    ensures var first := Apply(Some(user), store, jobId, jobTitle, company, id1, now1);
            var second := Apply(Some(user), first.1, jobId, jobTitle, company, id2, now2);
            && first.0 == Applied && second.0 == AlreadyApplied
            && CountFor(Applications(second.1, user.id), jobId) == 1
  {
    var apps := Applications(store, user.id);
    var p := (a: Application) => a.jobId == jobId;
    var first := Apply(Some(user), store, jobId, jobTitle, company, id1, now1);
    var app := Application(id1, jobId, jobTitle, company, user.id, now1, "pendente");
    assert Applications(first.1, user.id) == apps + [app];
    assert (apps + [app])[|apps|].jobId == jobId;
    FilterAppend(apps, [app], p);
    assert Filter([app], p) == [app];
    assert |Filter(apps, p)| == 0;
  }

  /** One application per job: applying keeps a user's list free of repeats. */
  lemma ApplyKeepsOnePerJob(user: Option<User>, store: Store, jobId: string, jobTitle: string,
                            company: string, id: string, now: int)
    requires user.Some?
    requires DistinctKeys(Applications(store, user.value.id), (a: Application) => a.jobId)
    ensures var r := Apply(user, store, jobId, jobTitle, company, id, now);
            DistinctKeys(Applications(r.1, user.value.id), (a: Application) => a.jobId)
  {
  }
}
