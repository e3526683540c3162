/** POST /api/applications: a student applies to a job. A repeated apply is
    refused unless `force` is set; a forced re-apply overwrites the existing
    record without re-checking eligibility; a first apply runs the
    eligibility checks and stores a snapshot of the student's profile. */
module Applications {
  import opened Records
  import opened Storage
  import Eligibility

  /** The request body `{ jobId, answers = {}, force = false }`. */
  datatype ApplyRequest = ApplyRequest(jobId: Id, answers: map<string, Answer>, force: bool)

  /** The application a first apply creates (its id is given by the store):
      a snapshot of the user's name, email, branch and CGPA, not of the
      contact, with the answers, in status Applied. */
  function Snapshot(u: User, req: ApplyRequest, now: Time): (a: Application)
    ensures a.jobId == req.jobId && a.studentId == u.id
    ensures a.name == u.name && a.email == u.email && a.branch == u.branch && a.cgpa == u.cgpa
    ensures a.contact == "" && a.resumeUrl == "" && a.answers == req.answers
    ensures a.status == Applied && a.createdAt == now && a.updatedAt == now
  {
    Application(0, req.jobId, u.id, u.name, u.email, "", u.cgpa, u.branch, "", req.answers, Applied, now, now)
  }

  /** A forced re-apply: the same record (id, job, student, creation time,
      contact and resume untouched) with a fresh snapshot, the new answers
      and status back to Applied whatever it was. */
  function Refreshed(a: Application, u: User, answers: map<string, Answer>, now: Time): (b: Application)
    ensures b.id == a.id && b.jobId == a.jobId && b.studentId == a.studentId && b.createdAt == a.createdAt
    ensures b.contact == a.contact && b.resumeUrl == a.resumeUrl
    ensures b.name == u.name && b.email == u.email && b.branch == u.branch && b.cgpa == u.cgpa
    ensures b.answers == answers && b.status == Applied && b.updatedAt == now
  {
    a.(name := u.name, email := u.email, branch := u.branch, cgpa := u.cgpa,
       answers := answers, status := Applied, updatedAt := now)
  }

  method Apply(st: Store, actor: Actor, req: ApplyRequest, now: Time, show: real -> string) returns (r: Response)
    requires st.Valid()
    modifies st
    ensures st.Valid()
    ensures st.users == old(st.users) && st.jobs == old(st.jobs) && st.interests == old(st.interests)
    ensures OneApplicationPerPair(old(st.applications)) ==> OneApplicationPerPair(st.applications)
    ensures actor.NoToken? ==>
      r == Response(401, Error("Unauthorized")) && st.applications == old(st.applications)
    ensures actor.Token? && UserIndex(old(st.users), actor.id) == -1 ==>
      r == Response(404, Error("User not found")) && st.applications == old(st.applications)
    ensures actor.Token? && UserIndex(old(st.users), actor.id) >= 0 ==>
      var u := old(st.users)[UserIndex(old(st.users), actor.id)];
      var k := ApplicationIndex(old(st.applications), req.jobId, u.id);
      if k >= 0 && !req.force then
        r == Response(409, AlreadyApplied) && st.applications == old(st.applications)
      else if k >= 0 then
        && st.applications == old(st.applications)[k := Refreshed(old(st.applications)[k], u, req.answers, now)]
        && r == Response(200, ApplicationSaved(st.applications[k]))
      else
        var why := Eligibility.Check(u, FindJob(old(st.jobs), req.jobId), now);
        if why.Some? then
          && r == Response(Eligibility.ReasonStatus(why.value),
                           Error(Eligibility.ReasonMessage(why.value, Eligibility.Applying, show)))
          && st.applications == old(st.applications)
        else
          var n := |old(st.applications)|;
          && |st.applications| == n + 1
          && st.applications[..n] == old(st.applications)
          && st.applications[n] == Snapshot(u, req, now).(id := old(st.nextId))
          && r == Response(201, ApplicationSaved(st.applications[n]))
  {
    if actor.NoToken? {
      return Response(401, Error("Unauthorized"));
    }
    var ui := UserIndex(st.users, actor.id);
    if ui == -1 {
      return Response(404, Error("User not found"));
    }
    var user := st.users[ui];

    var k := ApplicationIndex(st.applications, req.jobId, user.id);
    if k >= 0 && !req.force {
      return Response(409, AlreadyApplied);
    }
    if k >= 0 {
      var refreshed := Refreshed(st.applications[k], user, req.answers, now);
      st.SetApplication(k, refreshed);
      if OneApplicationPerPair(old(st.applications)) {
        ReplaceKeepsOnePerPair(old(st.applications), k, refreshed);
      }
      return Response(200, ApplicationSaved(refreshed));
    }

    var why := Eligibility.Check(user, FindJob(st.jobs, req.jobId), now);
    if why.Some? {
      return Response(Eligibility.ReasonStatus(why.value),
                      Error(Eligibility.ReasonMessage(why.value, Eligibility.Applying, show)));
    }
    var saved := st.AddApplication(Snapshot(user, req, now));
    if OneApplicationPerPair(old(st.applications)) {
      AppendKeepsOnePerPair(old(st.applications), saved);
    }
    r := Response(201, ApplicationSaved(saved));
  }

  /** Two applies in a row with the same request and no `force`: once the
      first one has created the record, the second is refused with 409 and
      stores nothing. */
  method ApplyTwice(st: Store, actor: Actor, req: ApplyRequest, now: Time, later: Time, show: real -> string)
    returns (first: Response, second: Response)
    requires st.Valid() && !req.force
    modifies st
    ensures first.status == 201 ==>
      second == Response(409, AlreadyApplied) && |st.applications| == |old(st.applications)| + 1
  {
    first := Apply(st, actor, req, now, show);
    if first.status == 201 {
      assert st.applications[|st.applications| - 1].studentId == actor.id;
      assert ApplicationIndex(st.applications, req.jobId, actor.id) >= 0;
    }
    second := Apply(st, actor, req, later, show);
  }
}
