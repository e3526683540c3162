/** The eligibility checks that both the apply handler and the mark-interest
    handler run before creating a record, in their fixed order: the job
    exists, the profile is complete, the deadline has not passed, the branch
    is eligible, the CGPA is high enough. The first failing check decides the
    answer. */
module Eligibility {
  import opened Records
  import Text

  datatype Reason =
    | JobNotFound
    | IncompleteProfile
    | DeadlinePassed
    | BranchNotEligible(branches: seq<string>)
    | CgpaTooLow(minCgpa: real, cgpa: real)

  /** `resumes` non-empty and `branch`, `cgpa`, `contact` all truthy: an empty
      contact or branch and a CGPA of 0 count as missing. */
  predicate ProfileComplete(u: User)
  {
    |u.resumes| > 0 && u.branch != "" && u.cgpa != 0.0 && u.contact != ""
  }

  /** Only a deadline strictly before `now` is past; no deadline never is. */
  predicate DeadlineOpen(j: Job, now: Time)
  {
    j.deadline.None? || now <= j.deadline.value
  }

  /** An empty branch list admits every branch. */
  predicate BranchAllowed(j: Job, u: User)
  {
    |j.eligibleBranches| == 0 || u.branch in j.eligibleBranches
  }

  /** An absent or zero `minCgpa` disables the check; otherwise the CGPA may
      equal the minimum. */
  predicate CgpaAllowed(j: Job, u: User)
  {
    j.minCgpa.None? || j.minCgpa.value == 0.0 || j.minCgpa.value <= u.cgpa
  }

  /** The checks in order; None when the user may apply or mark interest. */
  function Check(u: User, job: Option<Job>, now: Time): (r: Option<Reason>)
    ensures r.None? <==>
      job.Some? && ProfileComplete(u) && DeadlineOpen(job.value, now)
      && BranchAllowed(job.value, u) && CgpaAllowed(job.value, u)
    ensures r == Some(JobNotFound) <==> job.None?
    ensures r == Some(IncompleteProfile) <==> job.Some? && !ProfileComplete(u)
    ensures r == Some(DeadlinePassed) <==>
      job.Some? && ProfileComplete(u) && !DeadlineOpen(job.value, now)
    ensures r == Some(BranchNotEligible(if job.Some? then job.value.eligibleBranches else [])) <==>
      job.Some? && ProfileComplete(u) && DeadlineOpen(job.value, now) && !BranchAllowed(job.value, u)
    ensures (r.Some? && r.value.CgpaTooLow?) <==>
      job.Some? && ProfileComplete(u) && DeadlineOpen(job.value, now)
      && BranchAllowed(job.value, u) && !CgpaAllowed(job.value, u)
    ensures r.Some? && r.value.CgpaTooLow? ==>
      job.value.minCgpa == Some(r.value.minCgpa) && r.value.cgpa == u.cgpa && u.cgpa < r.value.minCgpa
  {
    if job.None? then Some(JobNotFound)
    else if !ProfileComplete(u) then Some(IncompleteProfile)
    else if !DeadlineOpen(job.value, now) then Some(DeadlinePassed)
    else if !BranchAllowed(job.value, u) then Some(BranchNotEligible(job.value.eligibleBranches))
    else if !CgpaAllowed(job.value, u) then Some(CgpaTooLow(job.value.minCgpa.value, u.cgpa))
    else None
  }

  /** A missing job is 404, every other failure 400. */
  function ReasonStatus(r: Reason): (status: int)
    ensures status == 404 <==> r.JobNotFound?
    ensures status == 400 <==> !r.JobNotFound?
  {
    if r.JobNotFound? then 404 else 400
  }

  /** What the caller was about to do; it only changes the profile message. */
  datatype Action = Applying | MarkingInterest

  /** The opening of the incomplete-profile message. */
  const ProfilePrompt: string := "Please fill all the details in your profile page (Resume, Branch, CGPA, Contact) before "

  /** The prefix of every "not eligible" message. */
  const NotEligible: string := "You are not eligible: "

  /** The error text for a failed check; `show` is JavaScript's conversion of
      a number to a string. */
  function ReasonMessage(r: Reason, action: Action, show: real -> string): (msg: string)
    ensures r.JobNotFound? ==> msg == "Job not found"
    ensures r.IncompleteProfile? ==>
      msg == ProfilePrompt + (if action == Applying then "applying." else "marking interest.")
    ensures r.DeadlinePassed? ==> msg == NotEligible + "Application deadline has passed."
    ensures r.BranchNotEligible? ==>
      msg == NotEligible + "This job is open for " + Text.Join(r.branches, ", ") + " branches only."
    ensures r.CgpaTooLow? ==>
      msg == NotEligible + "Minimum CGPA required is " + show(r.minCgpa) + ". Your CGPA is " + show(r.cgpa) + "."
  {
    match r
    case JobNotFound => "Job not found"
    case IncompleteProfile => ProfilePrompt + (if action == Applying then "applying." else "marking interest.")
    case DeadlinePassed => NotEligible + "Application deadline has passed."
    case BranchNotEligible(branches) =>
      NotEligible + "This job is open for " + Text.Join(branches, ", ") + " branches only."
    case CgpaTooLow(minCgpa, cgpa) =>
      NotEligible + "Minimum CGPA required is " + show(minCgpa) + ". Your CGPA is " + show(cgpa) + "."
  }

  /** With no resume the profile check fails, whatever else the profile or
      the job holds. */
  lemma NoResumeIsIncomplete(u: User, j: Job, now: Time)
    requires |u.resumes| == 0
    ensures Check(u, Some(j), now) == Some(IncompleteProfile)
  {
  }

  /** A CGPA equal to the minimum passes, and a zero minimum is no minimum. */
  lemma CgpaBoundaries(u: User, j: Job)
    ensures j.minCgpa == Some(u.cgpa) ==> CgpaAllowed(j, u)
    ensures j.minCgpa == Some(0.0) ==> CgpaAllowed(j, u)
  {
  }

  /** A deadline equal to the current time has not passed. */
  lemma DeadlineAtNowIsOpen(j: Job, now: Time)
    requires j.deadline == Some(now)
    ensures DeadlineOpen(j, now)
  {
  }
}
