/** The job posting page (`src/pages/PostJob.tsx`): who may post, which
    fields must be filled, and the record that is saved. The signed-in user
    comes from the authentication hook, which is not part of this model, so
    it is a parameter; so are the clock reading and the generated id. */
module PostJob {
  import opened Wrappers
  import opened Entities
  import Tables
  import Storage

  /** The form's fields as the page holds them. */
  datatype Form = Form(
    title: string,
    company: string,
    location: string,
    jobType: string,
    salary: string,
    description: string,
    requirements: string,
    featured: bool)

  /** The empty form the page starts with. */
  const EmptyForm := Form("", "", "", "", "", "", "", false)

  datatype SubmitOutcome = AccessRestricted | ValidationError | Posted(job: Job)

  /** Only a signed-in employer gets the form; anyone else sees
      "Access Restricted". */
  predicate CanPost(user: Option<User>) {
    user.Some? && user.value.userType == Employer
  }

  /** Title, company, location, type, salary and description are required;
      requirements and the featured flag are not checked. */
  predicate RequiredFilled(f: Form) {
    f.title != "" && f.company != "" && f.location != "" && f.jobType != ""
    && f.salary != "" && f.description != ""
  }

  /** The record built from the form: `company || user.companyName || ""`,
      the poster as employer, `now` as posting time. */
  function NewJob(f: Form, user: User, id: string, now: int): (j: Job)
    ensures f.company != "" ==> j.company == f.company
    ensures f.company == "" ==> j.company == user.companyName.GetOr("")
    ensures j.id == id && j.employerId == user.id && j.postedAt == now
    ensures j.requirements == Some(f.requirements) && j.featured == f.featured
  {
    Job(id, f.title, if f.company != "" then f.company else user.companyName.GetOr(""),
        f.location, f.jobType, f.salary, f.description, Some(f.requirements),
        user.id, now, f.featured)
  }

  /** What a submit leads to. A visitor who is not a signed-in employer never
      gets a job posted, and a form with a required field left empty is
      refused; otherwise the posted job copies every field of the form, the
      entered company included (the fallback to the account's company name
      is never taken, since the company field is required), and names the
      poster as its employer. */
  function Submit(f: Form, user: Option<User>, id: string, now: int): (r: SubmitOutcome)
    ensures r.Posted? <==> CanPost(user) && RequiredFilled(f)
    ensures !CanPost(user) ==> r == AccessRestricted
    ensures CanPost(user) && !RequiredFilled(f) ==> r == ValidationError
    ensures r.Posted? ==>
              && r.job.id == id && r.job.title == f.title && r.job.company == f.company
              && r.job.location == f.location && r.job.jobType == f.jobType && r.job.salary == f.salary
              && r.job.description == f.description && r.job.requirements == Some(f.requirements)
              && r.job.featured == f.featured && r.job.employerId == user.value.id && r.job.postedAt == now
  {
    if !CanPost(user) then AccessRestricted
    else if !RequiredFilled(f) then ValidationError
    else Posted(NewJob(f, user.value, id, now))
  }

  /** Leaving the requirements empty does not stop a post. */
  lemma EmptyRequirementsAccepted(f: Form, user: Option<User>, id: string, now: int)
    requires CanPost(user) && RequiredFilled(f) && f.requirements == ""
    ensures Submit(f, user, id, now) == Posted(NewJob(f, user.value, id, now))
    ensures Submit(f, user, id, now).job.requirements == Some("")
  {
  }

  /** The page state: the form and the busy flag. */
  class PostJobPage {
    var form: Form
    var loading: bool

    constructor ()
      ensures form == EmptyForm && !loading
    {
      form := EmptyForm;
      loading := false;
    }

    /** `handleSubmit`. For someone who may post, `loading` is raised for the
        duration and lowered on every path; a valid form is saved with
        exactly one `saveJob`, so a lookup by the new id finds it. Anyone
        else is shown the restricted page and nothing happens. */
    method HandleSubmit(store: Storage.Store, user: Option<User>, id: string, now: int)
      returns (outcome: SubmitOutcome)
      modifies this`loading, store`jobs
      ensures outcome == Submit(form, user, id, now)
      ensures !CanPost(user) ==> loading == old(loading)
      ensures CanPost(user) ==> !loading
      ensures outcome.Posted? ==>
                store.jobs == Tables.Upsert(old(store.jobs), JobId, outcome.job)
                && store.GetJobById(id) == Some(outcome.job)
      ensures !outcome.Posted? ==> store.jobs == old(store.jobs)
    {
      if !CanPost(user) {
        return AccessRestricted;
      }
      loading := true;
      if !RequiredFilled(form) {
        outcome := ValidationError;
      } else {
        var job := NewJob(form, user.value, id, now);
        store.SaveJob(job);
        outcome := Posted(job);
      }
      loading := false;
    }
  }
}
