/** Job creation and listing by an admin. Two routes create jobs:
    /api/admin (cookie token, the caller looked up as an admin) also lists
    the jobs newest first; /api/admin/jobs (bearer token in the
    Authorization header) stores no minimum CGPA. */
module AdminJobs {
  import opened Records
  import opened Storage
  import Seqs
  import Text
  import Eligibility

  /** The JSON body of a create request. A missing string is "", a missing
      branch list None; `minCgpa` and `deadline` are None when absent. */
  datatype JobRequest = JobRequest(
    company: string,
    role: string,
    description: string,
    jdPdfUrl: string,
    eligibleBranches: Option<seq<string>>,
    minCgpa: Option<real>,
    deadline: Option<Time>)

  /** `!company || !role || !eligibleBranches?.length`. */
  predicate MissingFields(req: JobRequest)
  {
    req.company == "" || req.role == "" || req.eligibleBranches.None? || |req.eligibleBranches.value| == 0
  }

  /** `getAdmin`: the caller's user document when the token names an existing
      user whose stored role is admin, -1 otherwise (the token's own role
      claim is not consulted). */
  function AdminCaller(users: seq<User>, actor: Actor): (k: int)
    ensures -1 <= k < |users|
    ensures k >= 0 <==>
      actor.Token? && UserIndex(users, actor.id) >= 0 && users[UserIndex(users, actor.id)].role == Admin
    ensures k >= 0 ==> users[k].id == actor.id && users[k].role == Admin
  {
    if actor.NoToken? then -1
    else
      var k := UserIndex(users, actor.id);
      if k >= 0 && users[k].role == Admin then k else -1
  }

  /** The job /api/admin stores (its id is given by the store): the body's
      fields without `jdPdfUrl`, posted by the admin at `now`. */
  function CookieRouteJob(req: JobRequest, postedBy: Id, now: Time): (j: Job)
    requires req.eligibleBranches.Some?
    ensures j.company == req.company && j.role == req.role && j.description == req.description
    ensures j.eligibleBranches == req.eligibleBranches.value
    ensures j.minCgpa == req.minCgpa && j.deadline == req.deadline
    ensures j.jdPdfUrl == "" && j.postedBy == postedBy && j.createdAt == now
  {
    Job(0, req.company, req.role, req.description, "", req.eligibleBranches.value,
        req.minCgpa, req.deadline, postedBy, now)
  }

  /** The job /api/admin/jobs stores: the body's fields with `jdPdfUrl` but
      without `minCgpa`. */
  function HeaderRouteJob(req: JobRequest, postedBy: Id, now: Time): (j: Job)
    requires req.eligibleBranches.Some?
    ensures j.company == req.company && j.role == req.role && j.description == req.description
    ensures j.eligibleBranches == req.eligibleBranches.value
    ensures j.minCgpa.None? && j.deadline == req.deadline
    ensures j.jdPdfUrl == req.jdPdfUrl && j.postedBy == postedBy && j.createdAt == now
  {
    Job(0, req.company, req.role, req.description, req.jdPdfUrl, req.eligibleBranches.value,
        None, req.deadline, postedBy, now)
  }

  /** POST /api/admin. */
  method CreateJob(st: Store, actor: Actor, req: JobRequest, now: Time) returns (r: Response)
    requires st.Valid()
    modifies st
    ensures st.Valid()
    ensures st.users == old(st.users) && st.applications == old(st.applications) && st.interests == old(st.interests)
    ensures AdminCaller(old(st.users), actor) == -1 ==>
      r == Response(401, Message("Unauthorized")) && st.jobs == old(st.jobs)
    ensures AdminCaller(old(st.users), actor) >= 0 && MissingFields(req) ==>
      r == Response(400, Message("Missing required fields")) && st.jobs == old(st.jobs)
    ensures AdminCaller(old(st.users), actor) >= 0 && !MissingFields(req) ==>
      var n := |old(st.jobs)|;
      && |st.jobs| == n + 1 && st.jobs[..n] == old(st.jobs)
      && st.jobs[n] == CookieRouteJob(req, actor.id, now).(id := old(st.nextId))
      && r == Response(201, JobCreated("Job created successfully", st.jobs[n]))
  {
    var k := AdminCaller(st.users, actor);
    if k == -1 {
      return Response(401, Message("Unauthorized"));
    }
    if MissingFields(req) {
      return Response(400, Message("Missing required fields"));
    }
    var saved := st.AddJob(CookieRouteJob(req, st.users[k].id, now));
    r := Response(201, JobCreated("Job created successfully", saved));
  }

  /** GET /api/admin: every job, newest first. */
  function ListJobs(users: seq<User>, jobs: seq<Job>, actor: Actor): (r: Response)
    ensures AdminCaller(users, actor) == -1 ==> r == Response(401, Message("Unauthorized"))
    ensures AdminCaller(users, actor) >= 0 ==>
      && r.status == 200 && r.body.JobList? && |r.body.jobs| == |jobs|
      && forall i :: 0 <= i < |jobs| ==> r.body.jobs[i] == jobs[|jobs| - 1 - i]
  {
    if AdminCaller(users, actor) == -1 then Response(401, Message("Unauthorized"))
    else Response(200, JobList(Seqs.Newest(jobs, |jobs|)))
  }

  /** A job just created is the first one the listing shows. */
  lemma CreatedJobListedFirst(users: seq<User>, jobs: seq<Job>, actor: Actor, job: Job)
    requires AdminCaller(users, actor) >= 0
    ensures ListJobs(users, jobs + [job], actor).body.jobs[0] == job
    ensures ListJobs(users, jobs + [job], actor).body.jobs[1..] == ListJobs(users, jobs, actor).body.jobs
  {
    var before := ListJobs(users, jobs, actor).body.jobs;
    var after := ListJobs(users, jobs + [job], actor).body.jobs;
    assert |after| == |jobs| + 1;
    forall i | 0 <= i < |jobs| ensures after[1..][i] == before[i] {
      assert after[i + 1] == (jobs + [job])[|jobs| - 1 - i];
    }
  }

  /** The token of an Authorization header: `auth.split(" ")[1]`, "" when
      the header has no second space-separated part. */
  function BearerToken(auth: string): (token: string)
    ensures token != "" ==> ' ' !in token && Text.Count(auth, ' ') >= 1
  {
    var parts := Text.Split(auth, ' ');
    if |parts| >= 2 then parts[1] else ""
  }

  /** "Bearer <token>" gives back the token, whenever the token holds no space. */
  lemma BearerTokenOfHeader(token: string)
    requires ' ' !in token
    ensures BearerToken("Bearer " + token) == token
  {
    Text.SplitAfterPiece("Bearer", ' ', token);
    Text.SplitWithoutSeparator(token, ' ');
    Text.SplitWithoutSeparator("Bearer", ' ');
    assert "Bearer " + token == "Bearer" + [' '] + token;
  }

  /** POST /api/admin/jobs. `auth` is the Authorization header ("" when
      absent) and `verify` the token check: the id claim of a valid token,
      None for a token that does not verify (which throws, and the handler
      answers 500). */
  method CreateJobWithHeader(st: Store, auth: string, verify: string -> Option<Id>, req: JobRequest, now: Time)
    returns (r: Response)
    requires st.Valid()
    modifies st
    ensures st.Valid()
    ensures st.users == old(st.users) && st.applications == old(st.applications) && st.interests == old(st.interests)
    ensures auth == "" ==> r == Response(401, Error("Unauthorized")) && st.jobs == old(st.jobs)
    ensures auth != "" && BearerToken(auth) == "" ==>
      r == Response(401, Error("Invalid token format")) && st.jobs == old(st.jobs)
    ensures auth != "" && BearerToken(auth) != "" ==>
      var id := verify(BearerToken(auth));
      if id.None? then
        r == Response(500, Error("Server error")) && st.jobs == old(st.jobs)
      else if UserIndex(old(st.users), id.value) == -1 || old(st.users)[UserIndex(old(st.users), id.value)].role != Admin then
        r == Response(403, Error("Forbidden")) && st.jobs == old(st.jobs)
      else if MissingFields(req) then
        r == Response(400, Error("Missing required fields")) && st.jobs == old(st.jobs)
      else
        var n := |old(st.jobs)|;
        && |st.jobs| == n + 1 && st.jobs[..n] == old(st.jobs)
        && st.jobs[n] == HeaderRouteJob(req, id.value, now).(id := old(st.nextId))
        && r == Response(201, JobSaved(st.jobs[n]))
  {
    if auth == "" {
      return Response(401, Error("Unauthorized"));
    }
    var token := BearerToken(auth);
    if token == "" {
      return Response(401, Error("Invalid token format"));
    }
    var id := verify(token);
    if id.None? {
      return Response(500, Error("Server error"));
    }
    var k := UserIndex(st.users, id.value);
    if k == -1 || st.users[k].role != Admin {
      return Response(403, Error("Forbidden"));
    }
    if MissingFields(req) {
      return Response(400, Error("Missing required fields"));
    }
    var saved := st.AddJob(HeaderRouteJob(req, st.users[k].id, now));
    r := Response(201, JobSaved(saved));
  }

  /** A job created through the header route has no CGPA requirement, so the
      CGPA check passes for every student. */
  lemma HeaderRouteJobsIgnoreCgpa(req: JobRequest, postedBy: Id, now: Time, id: Id, u: User)
    requires req.eligibleBranches.Some?
    ensures Eligibility.CgpaAllowed(HeaderRouteJob(req, postedBy, now).(id := id), u)
  {
  }
}
