/** The job detail page (`src/pages/JobDetail.tsx`): the lookup by the route's
    id, the "already applied" badge, the apply button's guards and the
    application form's submit. The signed-in user and the authentication flag
    come from the authentication hook, which is not part of this model, so
    they are parameters; so are the clock reading and the generated id. */
module JobDetail {
  import opened Wrappers
  import opened Entities
  import Tables
  import Storage

  /** What the page shows: "Job Not Found", or the job with either the apply
      button or the "Application Submitted" badge. */
  datatype View = NotFound | Found(job: Job, alreadyApplied: bool)

  /** What pressing "Apply for this Job" leads to. */
  datatype ApplyOutcome = RedirectToRegister | AccessDenied | FormOpened

  /** The id the job is looked up by: the route parameter, or "" without one. */
  function RouteKey(routeId: Option<string>): string {
    routeId.GetOr("")
  }

  /** The page to come back to after signing up; a missing route parameter
      is interpolated as "undefined". */
  function RedirectPath(routeId: Option<string>): (path: string)
    ensures |path| >= 6 && path[..6] == "/jobs/"
    ensures routeId.Some? ==> path[6..] == routeId.value
    ensures routeId.None? ==> path[6..] == "undefined"
  {
    "/jobs/" + if routeId.Some? then routeId.value else "undefined"
  }

  /** Only a signed-in candidate may open the application form. */
  predicate IsCandidate(user: Option<User>) {
    user.Some? && user.value.userType == Candidate
  }

  /** The rendered page over the stored jobs and applications: "not found"
      exactly when no stored job has the route's id (`getJobById`);
      otherwise that job, with the badge in place of the apply button exactly
      when the signed-in user already has an application stored for it
      (`hasUserApplied`). */
  function Render(jobs: seq<Job>, applications: seq<Application>, routeId: Option<string>,
                  user: Option<User>): (v: View)
    ensures v.NotFound? <==> forall i :: 0 <= i < |jobs| ==> jobs[i].id != RouteKey(routeId)
    ensures v.Found? ==> v.job.id == RouteKey(routeId) && v.job in jobs
    ensures v.Found? ==> v.job == jobs[Tables.FindIndex(jobs, JobId, RouteKey(routeId))]
    ensures v.Found? ==>
              (v.alreadyApplied <==>
                 user.Some? &&
                 exists i :: (0 <= i < |applications| &&
                              applications[i].jobId == v.job.id &&
                              applications[i].candidateId == user.value.id))
  {
    match Tables.Find(jobs, JobId, RouteKey(routeId))
    case None => NotFound
    case Some(job) => Found(job, user.Some? && Tables.Any(applications, AppliedBy(job.id, user.value.id)))
  }

  /** Once an application of the signed-in user for the shown job is saved,
      the same page shows the badge. */
  lemma RenderAfterSubmit(jobs: seq<Job>, applications: seq<Application>, routeId: Option<string>,
                          user: User, a: Application)
    requires Render(jobs, applications, routeId, Some(user)).Found?
    requires a.jobId == Render(jobs, applications, routeId, Some(user)).job.id && a.candidateId == user.id
    ensures Render(jobs, Tables.Upsert(applications, ApplicationId, a), routeId, Some(user)) ==
            Render(jobs, applications, routeId, Some(user)).(alreadyApplied := true)
  {
    var after := Tables.Upsert(applications, ApplicationId, a);
    Tables.FindAfterUpsert(applications, ApplicationId, a);
    var i := Tables.FindIndex(after, ApplicationId, a.id);
    assert after[i] == a;
  }

  /** The record the form submits: the job, the applicant's id, name and
      e-mail, the cover letter as typed, and the status "pending". */
  function NewApplication(job: Job, user: User, id: string, coverLetter: string, now: int): (a: Application)
    ensures a.id == id && a.jobId == job.id && a.candidateId == user.id
    ensures a.candidateName == user.fullName && a.candidateEmail == user.email
    ensures a.coverLetter == coverLetter && a.appliedAt == now
    ensures a.status == Pending && a.resumeUrl.None?
  {
    Application(id, job.id, user.id, user.fullName, user.email, coverLetter, None, now, Pending)
  }

  /** Submitting does not look at the badge: an application under a fresh id
      adds one more record pairing the job and the candidate, however many
      were stored before, and the badge shows afterwards. */
  lemma {:induction false} ResubmitAddsRecord(apps: seq<Application>, job: Job, user: User, id: string,
                                              coverLetter: string, now: int)
    requires !Tables.Present(apps, ApplicationId, id)
    ensures var after := Tables.Upsert(apps, ApplicationId, NewApplication(job, user, id, coverLetter, now));
            && |Tables.Filter(after, AppliedBy(job.id, user.id))| ==
               |Tables.Filter(apps, AppliedBy(job.id, user.id))| + 1
            && Tables.Any(after, AppliedBy(job.id, user.id))
  {
    var a := NewApplication(job, user, id, coverLetter, now);
    Tables.FilterUpsertFresh(apps, ApplicationId, a, AppliedBy(job.id, user.id));
    var after := Tables.Upsert(apps, ApplicationId, a);
    assert after[|apps|] == a;
  }

  /** What a submit does to the page: the badge shows for the same job, and
      under a fresh id one more record pairs the job with the user. */
  lemma SubmitEffect(jobs: seq<Job>, apps: seq<Application>, routeId: Option<string>, user: User, a: Application)
    requires Render(jobs, apps, routeId, Some(user)).Found?
    requires a == NewApplication(Render(jobs, apps, routeId, Some(user)).job, user, a.id, a.coverLetter, a.appliedAt)
    ensures Render(jobs, Tables.Upsert(apps, ApplicationId, a), routeId, Some(user)) ==
            Found(Render(jobs, apps, routeId, Some(user)).job, true)
    ensures !Tables.Present(apps, ApplicationId, a.id) ==>
              |Tables.Filter(Tables.Upsert(apps, ApplicationId, a), AppliedBy(a.jobId, user.id))| ==
              |Tables.Filter(apps, AppliedBy(a.jobId, user.id))| + 1
  {
    RenderAfterSubmit(jobs, apps, routeId, user, a);
    if !Tables.Present(apps, ApplicationId, a.id) {
      ResubmitAddsRecord(apps, Render(jobs, apps, routeId, Some(user)).job, user, a.id, a.coverLetter, a.appliedAt);
    }
  }

  /** The page state: the route parameter, whether the application form is
      open, the cover letter being typed and the busy flag. */
  class JobDetailPage {
    const routeId: Option<string>
    var showApplicationForm: bool
    var coverLetter: string
    var applying: bool

    constructor (routeId: Option<string>)
      ensures this.routeId == routeId
      ensures !showApplicationForm && coverLetter == "" && !applying
    {
      this.routeId := routeId;
      showApplicationForm := false;
      coverLetter := "";
      applying := false;
    }

    /** `handleApply`, reachable only on a found job. A visitor who is not
        signed in is sent to register, with this job remembered as the page
        to return to; a signed-in user who is not a candidate is refused;
        a candidate gets the form. Only the first case touches the store,
        and only the last opens the form. */
    method HandleApply(store: Storage.Store, isAuthenticated: bool, user: Option<User>)
      returns (outcome: ApplyOutcome)
      requires Render(store.jobs, store.applications, routeId, user).Found?
      modifies this`showApplicationForm, store`redirectAfterLogin
      ensures !isAuthenticated ==>
                outcome == RedirectToRegister
                && store.redirectAfterLogin == Some(RedirectPath(routeId))
                && showApplicationForm == old(showApplicationForm)
      ensures isAuthenticated && !IsCandidate(user) ==>
                outcome == AccessDenied
                && store.redirectAfterLogin == old(store.redirectAfterLogin)
                && showApplicationForm == old(showApplicationForm)
      ensures isAuthenticated && IsCandidate(user) ==>
                outcome == FormOpened
                && store.redirectAfterLogin == old(store.redirectAfterLogin)
                && showApplicationForm
    {
      if !isAuthenticated {
        store.redirectAfterLogin := Some(RedirectPath(routeId));
        return RedirectToRegister;
      }
      if !IsCandidate(user) {
        return AccessDenied;
      }
      showApplicationForm := true;
      outcome := FormOpened;
    }

    /** `submitApplication`, reachable only on a found job. Without a user
        nothing happens. Otherwise one application for this job and this
        user, with the typed cover letter and the status "pending", is saved
        under the given id; the badge then shows, the form is closed, the
        cover letter cleared and the busy flag lowered. Whether the user had
        applied already is not consulted, so under a fresh id the number of
        records pairing the two grows by one. */
    method SubmitApplication(store: Storage.Store, user: Option<User>, id: string, now: int)
      returns (submitted: Option<Application>)
      requires Render(store.jobs, store.applications, routeId, user).Found?
      modifies this`showApplicationForm, this`coverLetter, this`applying, store`applications
      ensures user.None? ==>
                submitted == None && store.applications == old(store.applications)
                && showApplicationForm == old(showApplicationForm)
                && coverLetter == old(coverLetter) && applying == old(applying)
      ensures user.Some? ==>
                var job := old(Render(store.jobs, store.applications, routeId, user)).job;
                && submitted == Some(NewApplication(job, user.value, id, old(coverLetter), now))
                && submitted.value.jobId == job.id && submitted.value.candidateId == user.value.id
                && submitted.value.candidateName == user.value.fullName
                && submitted.value.candidateEmail == user.value.email
                && submitted.value.status == Pending
                && store.applications == Tables.Upsert(old(store.applications), ApplicationId, submitted.value)
                && Render(store.jobs, store.applications, routeId, user) == Found(job, true)
                && !showApplicationForm && coverLetter == "" && !applying
      ensures user.Some? && !Tables.Present(old(store.applications), ApplicationId, id) ==>
                |Tables.Filter(store.applications, AppliedBy(submitted.value.jobId, user.value.id))| ==
                |Tables.Filter(old(store.applications), AppliedBy(submitted.value.jobId, user.value.id))| + 1
    {
      if user.None? {
        return None;
      }
      var job := Render(store.jobs, store.applications, routeId, user).job;
      applying := true;
      var application := NewApplication(job, user.value, id, coverLetter, now);
      SubmitEffect(store.jobs, store.applications, routeId, user.value, application);
      store.SaveApplication(application);
      submitted := Some(application);
      showApplicationForm := false;
      coverLetter := "";
      applying := false;
    }
  }
}
