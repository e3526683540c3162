/** The document store as in-memory collections held by one object, with the
    finders the handlers use and the invariant the store keeps: unique ids,
    the unique index on a user's email, and the unique index on an interest's
    (jobId, studentId). Collections keep their documents in creation order. */
module Storage {
  import opened Records
  import Seqs

  /** `User.findById(id)`: the position of the user with that id, or -1. */
  function UserIndex(users: seq<User>, id: Id): (k: int)
    ensures -1 <= k < |users|
    ensures k >= 0 ==> users[k].id == id
    ensures k == -1 <==> forall i :: 0 <= i < |users| ==> users[i].id != id
  {
    Seqs.FindIndex(users, (u: User) => u.id == id)
  }

  /** Replacing a user by one with the same id moves no user's position. */
  lemma UserIndexAfterSet(users: seq<User>, k: nat, u: User, id: Id)
    requires k < |users| && u.id == users[k].id
    ensures UserIndex(users[k := u], id) == UserIndex(users, id)
  {
    var after := users[k := u];
    assert forall i :: 0 <= i < |users| ==> after[i].id == users[i].id;
    var a, b := UserIndex(users, id), UserIndex(after, id);
    if a >= 0 && b >= 0 {
      assert !(a < b) && !(b < a);
    }
  }

  /** `User.findOne({ email })`. */
  function EmailIndex(users: seq<User>, email: string): (k: int)
    ensures -1 <= k < |users|
    ensures k >= 0 ==> users[k].email == email
    ensures k == -1 <==> forall i :: 0 <= i < |users| ==> users[i].email != email
  {
    Seqs.FindIndex(users, (u: User) => u.email == email)
  }

  /** `Job.findById(id)`, with a missing job as None. */
  function FindJob(jobs: seq<Job>, id: Id): (r: Option<Job>)
    ensures r.Some? ==> r.value in jobs && r.value.id == id
    ensures r.None? <==> forall i :: 0 <= i < |jobs| ==> jobs[i].id != id
  {
    var k := Seqs.FindIndex(jobs, (j: Job) => j.id == id);
    if k == -1 then None else Some(jobs[k])
  }

  /** `Application.findOne({ jobId, studentId })`. */
  function ApplicationIndex(apps: seq<Application>, jobId: Id, studentId: Id): (k: int)
    ensures -1 <= k < |apps|
    ensures k >= 0 ==> apps[k].jobId == jobId && apps[k].studentId == studentId
    ensures k == -1 <==> forall i :: 0 <= i < |apps| ==> !(apps[i].jobId == jobId && apps[i].studentId == studentId)
  {
    Seqs.FindIndex(apps, (a: Application) => a.jobId == jobId && a.studentId == studentId)
  }

  /** `Interest.findOne({ jobId, studentId })`. */
  function InterestIndex(interests: seq<Interest>, jobId: Id, studentId: Id): (k: int)
    ensures -1 <= k < |interests|
    ensures k >= 0 ==> interests[k].jobId == jobId && interests[k].studentId == studentId
    ensures k == -1 <==> forall i :: 0 <= i < |interests| ==> !(interests[i].jobId == jobId && interests[i].studentId == studentId)
  {
    Seqs.FindIndex(interests, (it: Interest) => it.jobId == jobId && it.studentId == studentId)
  }

  predicate UsersValid(users: seq<User>, bound: Id)
  {
    && (forall i :: 0 <= i < |users| ==> users[i].id < bound)
    && (forall i, j :: 0 <= i < j < |users| ==> users[i].id != users[j].id && users[i].email != users[j].email)
  }

  predicate JobsValid(jobs: seq<Job>, bound: Id)
  {
    && (forall i :: 0 <= i < |jobs| ==> jobs[i].id < bound)
    && (forall i, j :: 0 <= i < j < |jobs| ==> jobs[i].id != jobs[j].id)
  }

  predicate ApplicationsValid(apps: seq<Application>, bound: Id)
  {
    && (forall i :: 0 <= i < |apps| ==> apps[i].id < bound)
    && (forall i, j :: 0 <= i < j < |apps| ==> apps[i].id != apps[j].id)
  }

  predicate InterestsValid(interests: seq<Interest>, bound: Id)
  {
    && (forall i :: 0 <= i < |interests| ==> interests[i].id < bound)
    && (forall i, j :: 0 <= i < j < |interests| ==>
          interests[i].id != interests[j].id
          && !(interests[i].jobId == interests[j].jobId && interests[i].studentId == interests[j].studentId))
  }

  /** At most one application per (job, student). The store does not enforce
      this (Application has no unique index); the apply handler keeps it. */
  predicate OneApplicationPerPair(apps: seq<Application>)
  {
    forall i, j :: 0 <= i < j < |apps| ==> !(apps[i].jobId == apps[j].jobId && apps[i].studentId == apps[j].studentId)
  }

  /** Appending an application for a pair that has none keeps one
      application per pair. */
  lemma AppendKeepsOnePerPair(apps: seq<Application>, a: Application)
    requires OneApplicationPerPair(apps)
    requires ApplicationIndex(apps, a.jobId, a.studentId) == -1
    ensures OneApplicationPerPair(apps + [a])
  {
  }

  /** Replacing an application by one for the same pair keeps one
      application per pair. */
  lemma ReplaceKeepsOnePerPair(apps: seq<Application>, k: nat, a: Application)
    requires OneApplicationPerPair(apps)
    requires k < |apps| && a.jobId == apps[k].jobId && a.studentId == apps[k].studentId
    ensures OneApplicationPerPair(apps[k := a])
  {
  }

  /** Removing the interest of a (job, student) pair leaves none for that
      pair, since the unique index allows only one. */
  lemma RemovedPairIsGone(interests: seq<Interest>, bound: Id, jobId: Id, studentId: Id)
    requires InterestsValid(interests, bound)
    requires InterestIndex(interests, jobId, studentId) >= 0
    ensures InterestIndex(Seqs.RemoveAt(interests, InterestIndex(interests, jobId, studentId)), jobId, studentId) == -1
  {
    var e := InterestIndex(interests, jobId, studentId);
    var rest := Seqs.RemoveAt(interests, e);
    forall i | 0 <= i < |rest| ensures !(rest[i].jobId == jobId && rest[i].studentId == studentId) {
      var j := if i < e then i else i + 1;
      assert rest[i] == interests[j] && j != e;
    }
  }

  class Store {
    var users: seq<User>
    var jobs: seq<Job>
    var applications: seq<Application>
    var interests: seq<Interest>
    /** The next document id to hand out. */
    var nextId: Id

    ghost predicate Valid()
      reads this
    {
      && UsersValid(users, nextId)
      && JobsValid(jobs, nextId)
      && ApplicationsValid(applications, nextId)
      && InterestsValid(interests, nextId)
    }

    constructor ()
      ensures Valid()
      ensures users == [] && jobs == [] && applications == [] && interests == []
    {
      users, jobs, applications, interests := [], [], [], [];
      nextId := 0;
    }

    /** `User.create(u)`: stores `u` under a new id; the email index is unique. */
    method AddUser(u: User) returns (saved: User)
      requires Valid()
      requires EmailIndex(users, u.email) == -1
      modifies this
      ensures Valid()
      ensures saved == u.(id := old(nextId))
      ensures users == old(users) + [saved]
      ensures jobs == old(jobs) && applications == old(applications) && interests == old(interests)
    {
      saved := u.(id := nextId);
      users := users + [saved];
      nextId := nextId + 1;
    }

    /** `user.save()` for the user at index k, whose id stays and whose email
        no other user holds. */
    method SetUser(k: nat, u: User)
      requires Valid()
      requires k < |users| && u.id == users[k].id
      requires forall i :: 0 <= i < |users| && i != k ==> users[i].email != u.email
      modifies this
      ensures Valid()
      ensures users == old(users)[k := u]
      ensures jobs == old(jobs) && applications == old(applications) && interests == old(interests)
      ensures nextId == old(nextId)
    {
      users := users[k := u];
    }

    /** `Job.create(j)`. */
    method AddJob(j: Job) returns (saved: Job)
      requires Valid()
      modifies this
      ensures Valid()
      ensures saved == j.(id := old(nextId))
      ensures jobs == old(jobs) + [saved]
      ensures users == old(users) && applications == old(applications) && interests == old(interests)
    {
      saved := j.(id := nextId);
      jobs := jobs + [saved];
      nextId := nextId + 1;
    }

    /** `Application.create(a)`. */
    method AddApplication(a: Application) returns (saved: Application)
      requires Valid()
      modifies this
      ensures Valid()
      ensures saved == a.(id := old(nextId))
      ensures applications == old(applications) + [saved]
      ensures users == old(users) && jobs == old(jobs) && interests == old(interests)
    {
      saved := a.(id := nextId);
      applications := applications + [saved];
      nextId := nextId + 1;
    }

    /** `application.save()` for the application at index k. */
    method SetApplication(k: nat, a: Application)
      requires Valid()
      requires k < |applications| && a.id == applications[k].id
      modifies this
      ensures Valid()
      ensures applications == old(applications)[k := a]
      ensures users == old(users) && jobs == old(jobs) && interests == old(interests)
      ensures nextId == old(nextId)
    {
      applications := applications[k := a];
    }

    /** `Interest.create(it)`; the (jobId, studentId) index is unique. */
    method AddInterest(it: Interest) returns (saved: Interest)
      requires Valid()
      requires InterestIndex(interests, it.jobId, it.studentId) == -1
      modifies this
      ensures Valid()
      ensures saved == it.(id := old(nextId))
      ensures interests == old(interests) + [saved]
      ensures users == old(users) && jobs == old(jobs) && applications == old(applications)
    {
      saved := it.(id := nextId);
      interests := interests + [saved];
      nextId := nextId + 1;
    }

    /** `interest.save()` for the interest at index k, keeping its id and pair. */
    method SetInterest(k: nat, it: Interest)
      requires Valid()
      requires k < |interests|
      requires it.id == interests[k].id && it.jobId == interests[k].jobId && it.studentId == interests[k].studentId
      modifies this
      ensures Valid()
      ensures interests == old(interests)[k := it]
      ensures users == old(users) && jobs == old(jobs) && applications == old(applications)
      ensures nextId == old(nextId)
    {
      interests := interests[k := it];
    }

    /** Deletes the interest at index k. */
    method DeleteInterest(k: nat)
      requires Valid()
      requires k < |interests|
      modifies this
      ensures Valid()
      ensures interests == Seqs.RemoveAt(old(interests), k)
      ensures users == old(users) && jobs == old(jobs) && applications == old(applications)
      ensures nextId == old(nextId)
    {
      interests := Seqs.RemoveAt(interests, k);
    }
  }
}
