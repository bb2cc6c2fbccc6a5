/** The three records the job board stores: users, job postings and
    applications. Timestamps (`createdAt`, `postedAt`, `appliedAt`) are
    milliseconds since the epoch, the value an ISO date string stands for. */
module Entities {
  import opened Wrappers

  /** Milliseconds in a day: `1000 * 60 * 60 * 24`. */
  const MS_PER_DAY: nat := 1000 * 60 * 60 * 24

  datatype UserType = Candidate | Employer

  datatype User = User(
    id: string,
    email: string,
    password: string,
    fullName: string,
    companyName: Option<string>,
    userType: UserType,
    createdAt: int)

  /** A posting; `jobType` is the source's free-form `type` tag. */
  datatype Job = Job(
    id: string,
    title: string,
    company: string,
    location: string,
    jobType: string,
    salary: string,
    description: string,
    requirements: Option<string>,
    employerId: string,
    postedAt: int,
    featured: bool)

  datatype ApplicationStatus = Pending | Reviewed | Accepted | Rejected

  datatype Application = Application(
    id: string,
    jobId: string,
    candidateId: string,
    candidateName: string,
    candidateEmail: string,
    coverLetter: string,
    resumeUrl: Option<string>,
    appliedAt: int,
    status: ApplicationStatus)

  // The keys the repositories look entries up by.

  function UserId(u: User): string { u.id }
  function UserEmail(u: User): string { u.email }
  function JobId(j: Job): string { j.id }
  function JobEmployer(j: Job): string { j.employerId }
  function JobCompany(j: Job): string { j.company }
  function ApplicationId(a: Application): string { a.id }
  function ApplicationJob(a: Application): string { a.jobId }
  function ApplicationCandidate(a: Application): string { a.candidateId }

  /** The test `app => app.jobId === jobId && app.candidateId === candidateId`. */
  function AppliedBy(jobId: string, candidateId: string): Application -> bool {
    (a: Application) => a.jobId == jobId && a.candidateId == candidateId
  }
}
