/** /api/interests: a student marks interest in a job (POST), lists their
    interests (GET) and removes one (DELETE). Only an existing user whose
    role is student gets past the gate; marking is idempotent and runs the
    same eligibility checks as applying; removing is an idempotent delete. */
module Interests {
  import opened Records
  import opened Storage
  import Eligibility
  import Seqs

  /** `getStudent`: the index of the caller's user document when the token
      names an existing user whose role is student, -1 otherwise. */
  function StudentIndex(users: seq<User>, actor: Actor): (k: int)
    ensures -1 <= k < |users|
    ensures k >= 0 <==>
      actor.Token? && UserIndex(users, actor.id) >= 0 && users[UserIndex(users, actor.id)].role == Student
    ensures k >= 0 ==> users[k].id == actor.id && users[k].role == Student
  {
    if actor.NoToken? then -1
    else
      var k := UserIndex(users, actor.id);
      if k >= 0 && users[k].role == Student then k else -1
  }

  const NotAStudent := Response(401, Error("Unauthorized. Please log in as a student."))
  const MissingJobId := Response(400, Error("Job ID is required"))

  /** POST: `jobId` is None when the body has no (or an empty) jobId. */
  method MarkInterest(st: Store, actor: Actor, jobId: Option<Id>, now: Time, show: real -> string)
    returns (r: Response)
    requires st.Valid()
    modifies st
    ensures st.Valid()
    ensures st.users == old(st.users) && st.jobs == old(st.jobs) && st.applications == old(st.applications)
    ensures StudentIndex(old(st.users), actor) == -1 ==> r == NotAStudent && st.interests == old(st.interests)
    ensures StudentIndex(old(st.users), actor) >= 0 && jobId.None? ==>
      r == MissingJobId && st.interests == old(st.interests)
    ensures StudentIndex(old(st.users), actor) >= 0 && jobId.Some? ==>
      var u := old(st.users)[StudentIndex(old(st.users), actor)];
      var e := InterestIndex(old(st.interests), jobId.value, u.id);
      if e >= 0 then
        r == Response(200, InterestSaved("Already marked as interested", old(st.interests)[e]))
        && st.interests == old(st.interests)
      else
        var why := Eligibility.Check(u, FindJob(old(st.jobs), jobId.value), now);
        if why.Some? then
          && r == Response(Eligibility.ReasonStatus(why.value),
                           Error(Eligibility.ReasonMessage(why.value, Eligibility.MarkingInterest, show)))
          && st.interests == old(st.interests)
        else
          var n := |old(st.interests)|;
          && |st.interests| == n + 1
          && st.interests[..n] == old(st.interests)
          && st.interests[n] == Interest(old(st.nextId), jobId.value, u.id, false, now)
          && r == Response(200, InterestSaved("Marked as interested", st.interests[n]))
  {
    var k := StudentIndex(st.users, actor);
    if k == -1 {
      return NotAStudent;
    }
    var student := st.users[k];
    if jobId.None? {
      return MissingJobId;
    }
    var e := InterestIndex(st.interests, jobId.value, student.id);
    if e >= 0 {
      return Response(200, InterestSaved("Already marked as interested", st.interests[e]));
    }
    var why := Eligibility.Check(student, FindJob(st.jobs, jobId.value), now);
    if why.Some? {
      return Response(Eligibility.ReasonStatus(why.value),
                      Error(Eligibility.ReasonMessage(why.value, Eligibility.MarkingInterest, show)));
    }
    var saved := st.AddInterest(Interest(0, jobId.value, student.id, false, now));
    r := Response(200, InterestSaved("Marked as interested", saved));
  }

  function View(it: Interest): InterestView
  {
    InterestView(it.id, it.jobId, it.createdAt)
  }

  /** The views of `xs`, in order. */
  function Views(xs: seq<Interest>): (vs: seq<InterestView>)
    ensures |vs| == |xs| && forall i :: 0 <= i < |xs| ==> vs[i] == View(xs[i])
  {
    seq(|xs|, i requires 0 <= i < |xs| => View(xs[i]))
  }

  /** The interests of one student. */
  function Mine(interests: seq<Interest>, studentId: Id): seq<Interest>
  {
    Seqs.Filter(interests, (it: Interest) => it.studentId == studentId)
  }

  /** GET: the caller's interests (id, jobId, createdAt), and no one else's. */
  function ListInterests(users: seq<User>, interests: seq<Interest>, actor: Actor): (r: Response)
    ensures StudentIndex(users, actor) == -1 ==> r == NotAStudent
    ensures StudentIndex(users, actor) >= 0 ==>
      && r.status == 200 && r.body.InterestList?
      && (forall v :: v in r.body.interests ==>
            exists i :: 0 <= i < |interests| && interests[i].studentId == actor.id && View(interests[i]) == v)
      && (forall i :: 0 <= i < |interests| && interests[i].studentId == actor.id ==>
            View(interests[i]) in r.body.interests)
  {
    if StudentIndex(users, actor) == -1 then NotAStudent
    else
      MineListed(interests, actor.id);
      Response(200, InterestList(Views(Mine(interests, actor.id))))
  }

  /** The views of a student's interests are those of their interests, all
      of them and no one else's. */
  lemma MineListed(interests: seq<Interest>, studentId: Id)
    ensures forall v :: v in Views(Mine(interests, studentId)) ==>
      exists i :: 0 <= i < |interests| && interests[i].studentId == studentId && View(interests[i]) == v
    ensures forall i :: 0 <= i < |interests| && interests[i].studentId == studentId ==>
      View(interests[i]) in Views(Mine(interests, studentId))
  {
    var mine := Mine(interests, studentId);
    var vs := Views(mine);
    forall v | v in vs
      ensures exists i :: 0 <= i < |interests| && interests[i].studentId == studentId && View(interests[i]) == v
    {
      var j :| 0 <= j < |vs| && vs[j] == v;
      assert mine[j] in interests;
      var i :| 0 <= i < |interests| && interests[i] == mine[j];
    }
    forall i | 0 <= i < |interests| && interests[i].studentId == studentId
      ensures View(interests[i]) in vs
    {
      assert interests[i] in mine;
      var j :| 0 <= j < |mine| && mine[j] == interests[i];
      assert vs[j] == View(interests[i]);
    }
  }

  /** DELETE: `jobId` is None when the query has no (or an empty) jobId. It
      answers success whether or not an interest existed, and removes at
      most the caller's interest in that job. */
  method RemoveInterest(st: Store, actor: Actor, jobId: Option<Id>) returns (r: Response)
    requires st.Valid()
    modifies st
    ensures st.Valid()
    ensures st.users == old(st.users) && st.jobs == old(st.jobs) && st.applications == old(st.applications)
    ensures StudentIndex(old(st.users), actor) == -1 ==> r == NotAStudent && st.interests == old(st.interests)
    ensures StudentIndex(old(st.users), actor) >= 0 && jobId.None? ==>
      r == MissingJobId && st.interests == old(st.interests)
    ensures StudentIndex(old(st.users), actor) >= 0 && jobId.Some? ==>
      var e := InterestIndex(old(st.interests), jobId.value, actor.id);
      && r == Response(200, Done("Interest removed"))
      && st.interests == (if e >= 0 then Seqs.RemoveAt(old(st.interests), e) else old(st.interests))
      && InterestIndex(st.interests, jobId.value, actor.id) == -1
  {
    var k := StudentIndex(st.users, actor);
    if k == -1 {
      return NotAStudent;
    }
    if jobId.None? {
      return MissingJobId;
    }
    var e := InterestIndex(st.interests, jobId.value, st.users[k].id);
    if e >= 0 {
      RemovedPairIsGone(st.interests, st.nextId, jobId.value, st.users[k].id);
      st.DeleteInterest(e);
    }
    r := Response(200, Done("Interest removed"));
  }

  /** Marking the same job twice: once the first call has stored the
      interest, the second answers with that same interest and stores
      nothing. */
  method MarkTwice(st: Store, actor: Actor, jobId: Option<Id>, now: Time, later: Time, show: real -> string)
    returns (first: Response, second: Response)
    requires st.Valid()
    modifies st
    ensures first.body.InterestSaved? && first.body.note == "Marked as interested" ==>
      && second == Response(200, InterestSaved("Already marked as interested", first.body.interest))
      && |st.interests| == |old(st.interests)| + 1
  {
    first := MarkInterest(st, actor, jobId, now, show);
    ghost var between := st.interests;
    second := MarkInterest(st, actor, jobId, later, show);
    if first.body.InterestSaved? && first.body.note == "Marked as interested" {
      var k := StudentIndex(st.users, actor);
      assert InterestIndex(between, jobId.value, st.users[k].id) == |between| - 1;
    }
  }

  /** After a removal the caller's listing no longer shows that job. */
  method RemoveThenList(st: Store, actor: Actor, jobId: Id) returns (removed: Response, listed: Response)
    requires st.Valid()
    modifies st
    ensures StudentIndex(st.users, actor) >= 0 ==>
      listed.body.InterestList? && forall v :: v in listed.body.interests ==> v.jobId != jobId
  {
    removed := RemoveInterest(st, actor, Some(jobId));
    listed := ListInterests(st.users, st.interests, actor);
  }
}
