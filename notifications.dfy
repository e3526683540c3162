/** GET /api/notifications/check: the deadline-reminder sweep. For the
    calling student it walks their not-yet-notified interests in store order
    and emits a reminder for each one whose job exists, has a deadline within
    the next 24 hours (both ends inclusive) and has not been applied to; each
    emitted interest is marked notified so it is never emitted again. */
module Notifications {
  import opened Records
  import opened Storage

  /** 24 hours in milliseconds. */
  const Day: int := 24 * 60 * 60 * 1000

  /** The ids of the jobs the student has applied to (`appliedJobIds`). */
  function AppliedJobIds(apps: seq<Application>, studentId: Id): (ids: set<Id>)
    ensures forall a :: a in apps && a.studentId == studentId ==> a.jobId in ids
    ensures forall id :: id in ids ==> exists a :: a in apps && a.studentId == studentId && a.jobId == id
  {
    set a | a in apps && a.studentId == studentId :: a.jobId
  }

  /** Whether the sweep emits a reminder for `it`: the student's own interest,
      not yet notified, whose job exists and has a deadline in [now, now + Day],
      for a job the student has not applied to. */
  predicate Due(it: Interest, studentId: Id, jobs: seq<Job>, applied: set<Id>, now: Time)
  {
    && it.studentId == studentId
    && !it.notified
    && var job := FindJob(jobs, it.jobId);
       && job.Some?
       && job.value.deadline.Some?
       && now <= job.value.deadline.value <= now + Day
       && job.value.id !in applied
  }

  /** The reminder for an interest: the job's id, company, role and deadline. */
  function NoticeFor(it: Interest, jobs: seq<Job>): Notice
    requires FindJob(jobs, it.jobId).Some? && FindJob(jobs, it.jobId).value.deadline.Some?
  {
    var job := FindJob(jobs, it.jobId).value;
    Notice(job.id, job.company, job.role, job.deadline.value)
  }

  /** The reminders of a sweep over `xs`, in the order of `xs`. */
  function Notices(xs: seq<Interest>, studentId: Id, jobs: seq<Job>, applied: set<Id>, now: Time): (ns: seq<Notice>)
    ensures |ns| <= |xs|
  {
    if xs == [] then []
    else
      var last := xs[|xs| - 1];
      Notices(xs[..|xs| - 1], studentId, jobs, applied, now)
      + (if Due(last, studentId, jobs, applied, now) then [NoticeFor(last, jobs)] else [])
  }

  /** The interest after the sweep: marked notified exactly when it was due. */
  function Marked(it: Interest, studentId: Id, jobs: seq<Job>, applied: set<Id>, now: Time): (m: Interest)
    ensures m.id == it.id && m.jobId == it.jobId && m.studentId == it.studentId && m.createdAt == it.createdAt
    ensures m.notified <==> it.notified || Due(it, studentId, jobs, applied, now)
  {
    if Due(it, studentId, jobs, applied, now) then it.(notified := true) else it
  }

  /** The reminders of one more interest are those of the shorter prefix
      followed by that interest's own. */
  lemma NoticesStep(xs: seq<Interest>, i: nat, studentId: Id, jobs: seq<Job>, applied: set<Id>, now: Time)
    requires i < |xs|
    ensures Notices(xs[..i + 1], studentId, jobs, applied, now)
            == Notices(xs[..i], studentId, jobs, applied, now)
               + (if Due(xs[i], studentId, jobs, applied, now) then [NoticeFor(xs[i], jobs)] else [])
  {
    assert xs[..i + 1][..i] == xs[..i];
  }

  /** The sweep handler. The source's query fetches the student's un-notified
      interests in store order; the loop here walks the whole collection in
      the same order and `Due` skips every other interest. */
  method CheckNotifications(st: Store, actor: Actor, now: Time) returns (r: Response)
    requires st.Valid()
    modifies st
    ensures st.Valid()
    ensures st.users == old(st.users) && st.jobs == old(st.jobs) && st.applications == old(st.applications)
    ensures |st.interests| == |old(st.interests)|
    ensures !(actor.Token? && UserIndex(old(st.users), actor.id) >= 0
              && old(st.users)[UserIndex(old(st.users), actor.id)].role == Student) ==>
      r == Response(401, Error("Unauthorized")) && st.interests == old(st.interests)
    ensures actor.Token? && UserIndex(old(st.users), actor.id) >= 0
            && old(st.users)[UserIndex(old(st.users), actor.id)].role == Student ==>
      var applied := AppliedJobIds(old(st.applications), actor.id);
      && r == Response(200, Notifications(Notices(old(st.interests), actor.id, old(st.jobs), applied, now)))
      && forall i :: 0 <= i < |st.interests| ==>
           st.interests[i] == Marked(old(st.interests)[i], actor.id, old(st.jobs), applied, now)
  {
    if actor.NoToken? {
      return Response(401, Error("Unauthorized"));
    }
    var k := UserIndex(st.users, actor.id);
    if k == -1 || st.users[k].role != Student {
      return Response(401, Error("Unauthorized"));
    }
    var student := st.users[k].id;
    var applied := AppliedJobIds(st.applications, student);
    var notes := Sweep(st, student, applied, now);
    r := Response(200, Notifications(notes));
  }

  /** The loop of the handler: walks the interests in store order, collects
      the reminders of the due ones and marks each of them notified. */
  method Sweep(st: Store, student: Id, applied: set<Id>, now: Time) returns (notes: seq<Notice>)
    requires st.Valid()
    modifies st
    ensures st.Valid()
    ensures st.users == old(st.users) && st.jobs == old(st.jobs) && st.applications == old(st.applications)
    ensures |st.interests| == |old(st.interests)|
    ensures notes == Notices(old(st.interests), student, st.jobs, applied, now)
    ensures forall i :: 0 <= i < |st.interests| ==>
              st.interests[i] == Marked(old(st.interests)[i], student, st.jobs, applied, now)
  {
    notes := [];
    ghost var before := st.interests;
    var jobs := st.jobs;
    var i := 0;
    while i < |st.interests|
      invariant st.Valid()
      invariant st.users == old(st.users) && st.jobs == jobs && st.applications == old(st.applications)
      invariant |st.interests| == |before| && 0 <= i <= |before|
      invariant forall j :: 0 <= j < i ==> st.interests[j] == Marked(before[j], student, jobs, applied, now)
      invariant forall j :: i <= j < |before| ==> st.interests[j] == before[j]
      invariant notes == Notices(before[..i], student, jobs, applied, now)
    {
      NoticesStep(before, i, student, jobs, applied, now);
      var note := MarkOne(st, i, student, applied, now);
      notes := notes + note;
      i := i + 1;
    }
    assert before[..i] == before;
  }

  /** One step of the sweep: when the interest at index i is due, marks it
      notified and saves it, and returns its reminder. */
  method MarkOne(st: Store, i: nat, student: Id, applied: set<Id>, now: Time) returns (note: seq<Notice>)
    requires st.Valid() && i < |st.interests|
    modifies st
    ensures st.Valid()
    ensures st.users == old(st.users) && st.jobs == old(st.jobs) && st.applications == old(st.applications)
    ensures st.interests == old(st.interests)[i := Marked(old(st.interests)[i], student, st.jobs, applied, now)]
    ensures note == if Due(old(st.interests)[i], student, st.jobs, applied, now)
                    then [NoticeFor(old(st.interests)[i], st.jobs)] else []
  {
    var it := st.interests[i];
    note := [];
    if Due(it, student, st.jobs, applied, now) {
      note := [NoticeFor(it, st.jobs)];
      st.SetInterest(i, it.(notified := true));
    }
  }

  /** Every reminder comes from a due interest of `xs`. */
  lemma {:induction false} NoticesSound(xs: seq<Interest>, studentId: Id, jobs: seq<Job>, applied: set<Id>, now: Time, n: Notice)
    requires n in Notices(xs, studentId, jobs, applied, now)
    ensures exists i :: 0 <= i < |xs| && Due(xs[i], studentId, jobs, applied, now) && n == NoticeFor(xs[i], jobs)
  {
    var init := xs[..|xs| - 1];
    var last := xs[|xs| - 1];
    if n in Notices(init, studentId, jobs, applied, now) {
      NoticesSound(init, studentId, jobs, applied, now, n);
      var i :| 0 <= i < |init| && Due(init[i], studentId, jobs, applied, now) && n == NoticeFor(init[i], jobs);
      assert xs[i] == init[i];
    } else {
      assert Due(last, studentId, jobs, applied, now) && n == NoticeFor(last, jobs);
    }
  }

  /** Every due interest of `xs` gets its reminder. */
  lemma {:induction false} NoticesComplete(xs: seq<Interest>, studentId: Id, jobs: seq<Job>, applied: set<Id>, now: Time, i: nat)
    requires i < |xs| && Due(xs[i], studentId, jobs, applied, now)
    ensures NoticeFor(xs[i], jobs) in Notices(xs, studentId, jobs, applied, now)
  {
    if i < |xs| - 1 {
      var init := xs[..|xs| - 1];
      assert init[i] == xs[i];
      NoticesComplete(init, studentId, jobs, applied, now, i);
    }
  }

  /** A sweep over interests none of which is due emits nothing. */
  lemma {:induction false} NothingDueNothingEmitted(xs: seq<Interest>, studentId: Id, jobs: seq<Job>, applied: set<Id>, now: Time)
    requires forall i :: 0 <= i < |xs| ==> !Due(xs[i], studentId, jobs, applied, now)
    ensures Notices(xs, studentId, jobs, applied, now) == []
  {
    if xs != [] {
      var init := xs[..|xs| - 1];
      assert forall i :: 0 <= i < |init| ==> init[i] == xs[i];
      NothingDueNothingEmitted(init, studentId, jobs, applied, now);
    }
  }

  /** Once swept, an interest is never due again, at any later time; so a
      repeated sweep over the swept interests, with the same jobs and
      applications, emits nothing. */
  lemma {:induction false} SweepIsNotRepeated(xs: seq<Interest>, studentId: Id, jobs: seq<Job>, applied: set<Id>, now: Time, later: Time)
    ensures forall i :: 0 <= i < |xs| && Due(xs[i], studentId, jobs, applied, now) ==>
      !Due(Marked(xs[i], studentId, jobs, applied, now), studentId, jobs, applied, later)
    ensures var swept := seq(|xs|, i requires 0 <= i < |xs| => Marked(xs[i], studentId, jobs, applied, now));
      Notices(swept, studentId, jobs, applied, now) == []
  {
    var swept := seq(|xs|, i requires 0 <= i < |xs| => Marked(xs[i], studentId, jobs, applied, now));
    NothingDueNothingEmitted(swept, studentId, jobs, applied, now);
  }
}
