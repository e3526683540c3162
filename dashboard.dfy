/** GET /api/admin/dashboard: the admin's statistics. Totals of jobs,
    applications and students, the five newest applications and jobs, and
    the number of interests whose student has not applied to that job. The
    handler reads the store and changes nothing. */
module Dashboard {
  import opened Records
  import Seqs

  /** The (studentId, jobId) pairs that have an application (`appliedPairs`). */
  function AppliedPairs(apps: seq<Application>): (pairs: set<(Id, Id)>)
    ensures forall a :: a in apps ==> (a.studentId, a.jobId) in pairs
    ensures forall p :: p in pairs ==> exists a :: a in apps && (a.studentId, a.jobId) == p
  {
    set a | a in apps :: (a.studentId, a.jobId)
  }

  /** The positions of the interests whose (student, job) pair has no
      application. */
  function NotAppliedPositions(interests: seq<Interest>, apps: seq<Application>): set<nat>
  {
    set i: nat | i < |interests| && (interests[i].studentId, interests[i].jobId) !in AppliedPairs(apps)
  }

  /** The positions of the users whose role is student. */
  function StudentPositions(users: seq<User>): set<nat>
  {
    set i: nat | i < |users| && users[i].role == Student
  }

  /** `interestedNotApplied`: how many interests have no application for
      their (student, job) pair. */
  function InterestedNotApplied(interests: seq<Interest>, apps: seq<Application>): (n: nat)
    ensures n == |NotAppliedPositions(interests, apps)|
    ensures n <= |interests|
    ensures |apps| == 0 ==> n == |interests|
    ensures (forall i :: 0 <= i < |interests| ==> exists a :: a in apps && a.studentId == interests[i].studentId && a.jobId == interests[i].jobId)
            ==> n == 0
  {
    var pairs := AppliedPairs(apps);
    var notApplied := (it: Interest) => (it.studentId, it.jobId) !in pairs;
    var kept := Seqs.Filter(interests, notApplied);
    assert |apps| == 0 ==> kept == interests by {
      if |apps| == 0 {
        assert pairs == {};
        Seqs.FilterKeepsAll(interests, notApplied);
      }
    }
    assert (forall i :: 0 <= i < |interests| ==> (interests[i].studentId, interests[i].jobId) in pairs) ==> kept == [] by {
      if kept != [] {
        assert kept[0] in interests;
      }
    }
    Seqs.FilterCounts(interests, notApplied);
    assert Seqs.Positions(interests, notApplied) == NotAppliedPositions(interests, apps);
    |kept|
  }

  /** `totalStudents`: the users whose role is student. */
  function StudentCount(users: seq<User>): (n: nat)
    ensures n == |StudentPositions(users)|
    ensures n <= |users|
    ensures n == 0 <==> forall i :: 0 <= i < |users| ==> users[i].role != Student
  {
    var isStudent := (u: User) => u.role == Student;
    var students := Seqs.Filter(users, isStudent);
    assert students != [] ==> students[0] in users;
    Seqs.FilterCounts(users, isStudent);
    assert Seqs.Positions(users, isStudent) == StudentPositions(users);
    |students|
  }

  function Summary(j: Job): JobSummary
  {
    JobSummary(j.id, j.company, j.role, j.createdAt)
  }

  /** The handler: 401 without a token, 403 unless the token's role claim is
      admin (the role is read from the token, not from the store). */
  function Dashboard(users: seq<User>, jobs: seq<Job>, apps: seq<Application>, interests: seq<Interest>, actor: Actor)
    : (r: Response)
    ensures actor.NoToken? ==> r == Response(401, Error("Unauthorized"))
    ensures actor.Token? && actor.role != Admin ==> r == Response(403, Error("Forbidden"))
    ensures actor.Token? && actor.role == Admin ==>
      && r.status == 200 && r.body.DashboardData?
      && r.body.stats.totalJobs == |jobs|
      && r.body.stats.totalApplications == |apps|
      && r.body.stats.appliedCount == r.body.stats.totalApplications
      && r.body.stats.totalStudents == |StudentPositions(users)|
      && r.body.stats.interestedNotApplied == |NotAppliedPositions(interests, apps)|
      && |r.body.recentApplications| == (if |apps| < 5 then |apps| else 5)
      && (forall i :: 0 <= i < |r.body.recentApplications| ==> r.body.recentApplications[i] == apps[|apps| - 1 - i])
      && |r.body.recentJobs| == (if |jobs| < 5 then |jobs| else 5)
      && (forall i :: 0 <= i < |r.body.recentJobs| ==> r.body.recentJobs[i] == Summary(jobs[|jobs| - 1 - i]))
  {
    if actor.NoToken? then Response(401, Error("Unauthorized"))
    else if actor.role != Admin then Response(403, Error("Forbidden"))
    else
      var stats := Stats(|jobs|, |apps|, StudentCount(users), |apps|, InterestedNotApplied(interests, apps));
      var newestJobs := Seqs.Newest(jobs, 5);
      var recentJobs := seq(|newestJobs|, i requires 0 <= i < |newestJobs| => Summary(newestJobs[i]));
      Response(200, DashboardData(stats, Seqs.Newest(apps, 5), recentJobs))
  }
}
