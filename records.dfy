/** The documents of the placement portal's store (users, jobs, applications,
    interests), the authenticated caller, and the (status, payload) pair every
    route handler answers with.

    JavaScript truthiness is kept by the representation: an absent or empty
    string field is "" (both are falsy), an absent or zero number is 0.0
    (both are falsy), and an optional Date is an Option because a Date object
    is truthy whatever its value. */
module Records {

  datatype Option<T> = None | Some(value: T)

  /** Document ids (ObjectIds) as numbers, and times as milliseconds since the epoch. */
  type Id = nat
  type Time = int

  /** `role` of a user: enum ["student", "admin"], default "student". */
  datatype Role = Student | Admin

  /** `status` of an application: enum ["Applied", "Shortlisted", "Rejected"], default "Applied". */
  datatype Status = Applied | Shortlisted | Rejected

  function StatusText(s: Status): string
  {
    match s
    case Applied => "Applied"
    case Shortlisted => "Shortlisted"
    case Rejected => "Rejected"
  }

  datatype Resume = Resume(name: string, url: string)

  /** A user document. `password` holds a bcrypt hash, an opaque value here;
      `otp`/`otpExpiry` are the one-time-password pair of the password-reset
      flow (absent when no code is outstanding). */
  datatype User = User(
    id: Id,
    name: string,
    email: string,
    password: string,
    role: Role,
    contact: string,
    cgpa: real,
    branch: string,
    resumes: seq<Resume>,
    otp: Option<string>,
    otpExpiry: Option<Time>,
    isVerified: bool)

  /** A job posting; `minCgpa` and `deadline` are optional. */
  datatype Job = Job(
    id: Id,
    company: string,
    role: string,
    description: string,
    jdPdfUrl: string,
    eligibleBranches: seq<string>,
    minCgpa: Option<real>,
    deadline: Option<Time>,
    postedBy: Id,
    createdAt: Time)

  /** One value of the free-form answers of an application. */
  datatype Answer = Text(text: string) | Number(number: real) | Flag(flag: bool)

  /** An application: the student's name/email/branch/cgpa are a snapshot
      taken when applying. */
  datatype Application = Application(
    id: Id,
    jobId: Id,
    studentId: Id,
    name: string,
    email: string,
    contact: string,
    cgpa: real,
    branch: string,
    resumeUrl: string,
    answers: map<string, Answer>,
    status: Status,
    createdAt: Time,
    updatedAt: Time)

  /** A student's interest in a job; `notified` defaults to false. */
  datatype Interest = Interest(id: Id, jobId: Id, studentId: Id, notified: bool, createdAt: Time)

  /** The caller as the token cookie describes it once verified: no token, or
      the token's `id` and `role` claims. */
  datatype Actor = NoToken | Token(id: Id, role: Role)

  /** Payload pieces of particular routes. */
  datatype InterestView = InterestView(id: Id, jobId: Id, createdAt: Time)
  datatype Notice = Notice(jobId: Id, company: string, role: string, deadline: Time)
  datatype Stats = Stats(
    totalJobs: nat,
    totalApplications: nat,
    totalStudents: nat,
    appliedCount: nat,
    interestedNotApplied: nat)
  datatype JobSummary = JobSummary(id: Id, company: string, role: string, createdAt: Time)
  datatype ProfileView = ProfileView(id: Id, name: string, email: string, branch: string, cgpa: real, contact: string)
  datatype AdminView = AdminView(id: Id, email: string, name: string)

  /** The JSON (or CSV) body of a response. */
  datatype Body =
    | Error(error: string)
    | Message(message: string)
    | AlreadyApplied
    | ApplicationSaved(application: Application)
    | InterestSaved(note: string, interest: Interest)
    | InterestList(interests: seq<InterestView>)
    | Done(text: string)
    | Notifications(notifications: seq<Notice>)
    | DashboardData(stats: Stats, recentApplications: seq<Application>, recentJobs: seq<JobSummary>)
    | CsvFile(csv: string)
    | ResumeSaved(resume: Resume)
    | ResumeList(resumes: seq<Resume>)
    | ProfileSaved(profile: ProfileView)
    | LoggedIn(userRole: Role, cookieMaxAge: nat)
    | AdminSaved(outcome: string, admin: AdminView)
    | JobSaved(job: Job)
    | JobCreated(created: string, createdJob: Job)
    | JobList(jobs: seq<Job>)

  datatype Response = Response(status: int, body: Body)
}
