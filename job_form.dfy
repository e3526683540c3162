/** The admin's create-job form (`handleSubmit` of the create page): the
    form's text fields become the JSON payload posted to /api/admin/jobs.
    The branches field is split at commas and each piece trimmed; an empty
    minimum CGPA is left out, any other is converted to a number. */
module JobForm {
  import opened Records
  import Text
  import Eligibility

  /** The form's state: every field is the text typed into it. */
  datatype FormState = FormState(
    company: string,
    role: string,
    description: string,
    eligibleBranches: string,
    minCgpa: string,
    deadline: string)

  datatype JobPayload = JobPayload(
    company: string,
    role: string,
    description: string,
    eligibleBranches: seq<string>,
    minCgpa: Option<real>,
    deadline: string)

  /** `s.split(",").map(b => b.trim())`. */
  function Branches(s: string): (bs: seq<string>)
    ensures |bs| == Text.Count(s, ',') + 1
    ensures forall i :: 0 <= i < |bs| ==> bs[i] == Text.Trim(Text.Split(s, ',')[i])
    ensures forall i :: 0 <= i < |bs| ==> ',' !in bs[i]
  {
    var pieces := Text.Split(s, ',');
    var bs := seq(|pieces|, i requires 0 <= i < |pieces| => Text.Trim(pieces[i]));
    assert forall i :: 0 <= i < |bs| ==> bs[i] == pieces[i][Text.SkipSpaces(pieces[i], 0)..][..|bs[i]|];
    bs
  }

  /** The payload: the text fields as typed, the branch list, and the
      minimum CGPA when the field is not empty. `number` is JavaScript's
      Number(); None stands for NaN, which JSON sends as null, so the job
      then has no minimum either. */
  function Payload(form: FormState, number: string -> Option<real>): (p: JobPayload)
    ensures p.company == form.company && p.role == form.role
    ensures p.description == form.description && p.deadline == form.deadline
    ensures p.eligibleBranches == Branches(form.eligibleBranches)
    ensures p.minCgpa.None? <==> form.minCgpa == "" || number(form.minCgpa).None?
    ensures p.minCgpa.Some? ==> p.minCgpa == number(form.minCgpa)
  {
    JobPayload(form.company, form.role, form.description, Branches(form.eligibleBranches),
               if form.minCgpa != "" then number(form.minCgpa) else None, form.deadline)
  }

  /** The branch list is never empty, so the server's "eligibleBranches
      missing or empty" check never fires for a form submission; an empty
      field sends [""]. */
  lemma BranchesNeverEmpty(s: string)
    ensures |Branches(s)| >= 1
    ensures s == "" ==> Branches(s) == [""]
  {
    if s == "" {
      Text.SplitWithoutSeparator(s, ',');
      Text.TrimKeepsTrimmed("");
    }
  }

  /** Branch names typed as a comma-separated list, each without a comma
      and without white space at its ends, come back as exactly that list,
      when no white space surrounds the commas. */
  lemma BranchesRoundTrip(names: seq<string>)
    requires |names| >= 1
    requires forall i :: 0 <= i < |names| ==> ',' !in names[i]
    requires forall i :: 0 <= i < |names| ==> Text.Trimmed(names[i])
    ensures Branches(Text.Join(names, ",")) == names
  {
    var s := Text.Join(names, [',']);
    Text.SplitJoin(names, ',');
    var pieces := Text.Split(s, ',');
    assert pieces == names;
    var bs := Branches(s);
    assert |bs| == |names|;
    forall i | 0 <= i < |names| ensures bs[i] == names[i] {
      assert bs[i] == Text.Trim(pieces[i]);
      Text.TrimKeepsTrimmed(names[i]);
    }
  }

  /** A job whose branch list is [""] (the form's empty field) admits no
      student: a student without a branch fails the profile check, any other
      the branch check. */
  lemma EmptyBranchFieldAdmitsNoOne(u: User, job: Job, now: Time)
    requires job.eligibleBranches == Branches("")
    ensures Eligibility.Check(u, Some(job), now).Some?
  {
    BranchesNeverEmpty("");
    if u.branch != "" {
      assert u.branch !in job.eligibleBranches;
    }
  }
}
