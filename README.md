# EASY_Apply placement portal — a verified model of its route handlers

EASY_Apply is a college placement portal. Students keep a profile with
resumes and apply to jobs or mark interest in them. Admins post jobs, watch a
dashboard and export applications as CSV. Its server side is a set of route
handlers over a MongoDB store. This project models the business rules inside
those handlers and proves what they promise.

- **The store** (`Storage.Store`) is a class with one sequence per collection
  (users, jobs, applications, interests) and an id counter. Its methods are
  the inserts, saves and deletes the handlers perform. Every one of them keeps
  the store's invariant: ids are unique and below the counter, no two users
  share an email (the unique index on `email`), and no two interests share a
  (job, student) pair (the unique compound index).
- **The caller** is an `Actor`: either no token cookie, or the `id` and `role`
  claims of a token that has already been verified.
- **Every handler** answers with a `Response`: a status code and a payload, or
  an error text, with the exact strings of the source.
- **JavaScript truthiness** is kept by the representation:
  - an absent or empty string is `""`;
  - a CGPA of 0 is falsy;
  - an optional number or date is an `Option`.
- **Handlers that change the store** are methods on the store. Each `ensures`
  clause gives the new state of every collection, case by case.
- **What the handlers compute** (eligibility, the notification sweep, CSV
  rows, the dashboard counts, the branch-list parser, the OTP tests) is given
  by functions, with lemmas about them.

Modules follow the source files:

| module | source |
|---|---|
| `Eligibility`, `Applications` | src/app/api/applications/route.js |
| `Interests` | src/app/api/interests/route.js |
| `Notifications` | src/app/api/notifications/check/route.js |
| `Dashboard` | src/app/api/admin/dashboard/route.js |
| `CsvExport` | src/app/api/admin/applications/export/route.js |
| `Resumes` | src/app/api/profile/resume/route.js |
| `Profile` | src/app/api/profile/update/route.js |
| `Otp` | the forgot-password, verify-otp and reset-password routes |
| `AdminSetup` | src/app/api/admin/setup/route.js |
| `AdminJobs` | src/app/api/admin/route.js and src/app/api/admin/jobs/route.js |
| `JobForm` | src/app/admin/jobs/create/page.js |

`Records`, `Storage`, `Seqs` and `Text` hold the documents, the store and the
array and string operations the handlers use. Those are JavaScript's
`findIndex`, `splice`, `filter`, `split`, `join`, `trim` and number-to-text.

Three behaviours of the source as written are stated as lemmas:

- **verify-otp has no "a code is stored" guard.** `user.otp !== otp` is plain
  equality, so a request without a code passes for any user with no code
  outstanding (`Otp.MissingCodeAcceptedByVerify`).
- **The CSV export does not escape values.** A comma inside a value adds
  columns to its line (`CsvExport.CommaInValueShiftsColumns`).
- **The create-job form sends `[""]` for an empty branches field.** The
  resulting job admits no student (`JobForm.EmptyBranchFieldAdmitsNoOne`).
  The form also posts to /api/admin/jobs without an Authorization header;
  that route answers 401 to such a request (`AdminJobs.CreateJobWithHeader`).

## Model

| member | source | states |
|---|---|---|
| Seqs.FindIndex | src/app/api/profile/resume/route.js:168-170 | the result is the first index whose element satisfies the test, or -1 exactly when none does |
| Seqs.RemoveAt | src/app/api/profile/resume/route.js:180 | `splice(k, 1)`: one element shorter, elements before k kept, elements after k shifted down, the same multiset less the removed element |
| Seqs.Filter | src/app/api/admin/dashboard/route.js:56-58 | only elements of the input that pass the test, and every element that passes is kept |
| Seqs.FilterKeepsAll | src/app/api/admin/dashboard/route.js:56-58 | a filter every element passes returns the whole sequence |
| Seqs.FilterAppend | src/app/api/admin/dashboard/route.js:56-58 | filtering distributes over concatenation |
| Seqs.FilterCounts | src/app/api/admin/dashboard/route.js:56-58 | `filter(...).length` is the number of positions whose element passes the test |
| Seqs.Newest | src/app/api/admin/dashboard/route.js:35-39 | sort by creation time descending then limit: min(n, limit) records, the i-th being the i-th newest |
| Text.Split | src/app/admin/jobs/create/page.js:19-21 | `split(sep)`: one piece more than there are separators, and no piece holds the separator |
| Text.JoinSplit | src/app/admin/jobs/create/page.js:19-21 | joining the pieces of a split with the separator gives back the string |
| Text.SplitJoin | src/app/admin/jobs/create/page.js:19-21 | splitting a join of separator-free pieces gives back the pieces |
| Text.CountPositive | src/app/api/admin/applications/export/route.js:37-46 | a character occurs in a string exactly when its count is positive |
| Text.CountAppend | src/app/api/admin/applications/export/route.js:37-46 | counts add up over concatenation |
| Text.JoinCountsSeparators | src/app/api/admin/applications/export/route.js:37-46 | a join of n pieces holds at least n-1 separators |
| Text.JoinAvoids | src/app/api/admin/applications/export/route.js:37-46 | a character in neither the pieces nor the separator is not in their join |
| Text.Join | src/app/api/applications/route.js:112-114 | `join(sep)`: empty for no pieces, otherwise opening with the first piece and at least as long as the first piece plus one separator per further piece |
| Text.JoinEnds | src/app/api/applications/route.js:112-114 | with two or more pieces the separator follows the first piece, and the join ends with the last piece |
| Text.Trim | src/app/admin/jobs/create/page.js:21 | `trim()`: a slice with no white space at either end, only white space outside it, empty exactly when the input is all white space |
| Text.TrimKeepsTrimmed | src/app/admin/jobs/create/page.js:21 | trimming a string without white space at its ends changes nothing |
| Text.NatToString | src/app/api/auth/forgot-password/route.js:21 | at least one decimal digit, a leading zero only for 0 |
| Text.DecimalRoundTrip | src/app/api/auth/forgot-password/route.js:21 | reading the decimal notation of n gives back n |
| Text.NatToStringLength | src/app/api/auth/forgot-password/route.js:21 | a number in [10^(k-1), 10^k) is written with k digits |
| Text.NatToStringInjective | src/app/api/profile/resume/route.js:67-68 | different numbers are written differently |
| Text.IntToStringInjective | src/app/api/profile/resume/route.js:67-68 | different integers (timestamps) are written differently |
| Text.IntToStringAlphabet | src/app/api/profile/resume/route.js:67-68 | the text of an integer holds only a sign and digits |
| Text.CutAtFirst | src/app/api/profile/resume/route.js:67-68 | equal strings cut at their first marker give equal parts |
| Storage.UserIndex | src/app/api/applications/route.js:26 | `findById`: the position of the user with that id, -1 exactly when there is none |
| Storage.EmailIndex | src/app/api/auth/forgot-password/route.js:12 | `findOne({ email })`: the position of a user with that email, -1 exactly when there is none |
| Storage.FindJob | src/app/api/applications/route.js:72-74 | a found job is in the store with that id, None exactly when no job has it |
| Storage.ApplicationIndex | src/app/api/applications/route.js:35-38 | the position of the (job, student) application, -1 exactly when there is none |
| Storage.InterestIndex | src/app/api/interests/route.js:57-60 | the position of the (job, student) interest, -1 exactly when there is none |
| Storage.UserIndexAfterSet | src/app/api/profile/update/route.js:56 | saving a user under the same id moves no user's position |
| Storage.Store.AddUser | src/models/User.js:25-29 | `User.create` with a fresh id, appended, other collections untouched; the unique email index is kept |
| Storage.Store.SetUser | src/app/api/profile/update/route.js:56 | `user.save()` replaces that one user, keeping ids and email uniqueness |
| Storage.Store.AddJob | src/app/api/admin/route.js:42-50 | `Job.create` with a fresh id, appended |
| Storage.Store.AddApplication | src/app/api/applications/route.js:130-141 | `Application.create` with a fresh id, appended |
| Storage.Store.SetApplication | src/app/api/applications/route.js:61 | `save()` replaces that one application |
| Storage.Store.AddInterest | src/models/Interest.js:26 | `Interest.create` with a fresh id, appended; the unique (job, student) index is kept |
| Storage.Store.SetInterest | src/app/api/notifications/check/route.js:75-76 | `save()` replaces that one interest, keeping its id and pair |
| Storage.Store.DeleteInterest | src/app/api/interests/route.js:195-198 | deletes exactly that interest, others keep their order |
| Eligibility.Check | src/app/api/applications/route.js:72-128 | first failure wins: job missing, else profile incomplete, else deadline strictly past, else branch not listed, else CGPA below a non-zero minimum; no reason exactly when every check passes |
| Eligibility.ReasonMessage | src/app/api/applications/route.js:77-127 | the error text of each reason: "Job not found"; the profile prompt ending "applying." (or "marking interest." at src/app/api/interests/route.js:76-126); "You are not eligible: " followed by the deadline text, the listed branches joined by ", ", or the minimum and the student's CGPA |
| Eligibility.ReasonStatus | src/app/api/applications/route.js:76-128 | a missing job is 404, every other failure 400 |
| Eligibility.NoResumeIsIncomplete | src/app/api/applications/route.js:80-94 | with no resume the check fails on the profile for any existing job |
| Eligibility.CgpaBoundaries | src/app/api/applications/route.js:120-128 | a CGPA equal to the minimum passes, and a minimum of 0 admits everyone |
| Eligibility.DeadlineAtNowIsOpen | src/app/api/applications/route.js:96-102 | a deadline equal to now has not passed |
| Applications.Snapshot | src/app/api/applications/route.js:130-141 | the new record copies name, email, branch and CGPA (not contact) and the answers, status Applied |
| Applications.Refreshed | src/app/api/applications/route.js:52-59 | a forced re-apply refreshes the snapshot, answers, status Applied and updatedAt, and keeps id, job, student and creation time |
| Applications.Apply | src/app/api/applications/route.js:7-146 | 401, 404 user, 409 already applied with nothing stored, forced overwrite in place with no eligibility check, the eligibility error with nothing stored, or exactly one new snapshot with 201; one application per (job, student) is preserved |
| Applications.ApplyTwice | src/app/api/applications/route.js:35-49 | after a successful apply, the same apply without force gets 409 and stores nothing |
| Interests.StudentIndex | src/app/api/interests/route.js:8-34 | a caller is accepted exactly when the token names an existing user whose role is student |
| Interests.MarkInterest | src/app/api/interests/route.js:37-139 | 401 non-student, 400 missing job id, an existing interest returned before any job lookup, the apply route's eligibility errors, or exactly one new un-notified interest |
| Interests.ListInterests | src/app/api/interests/route.js:150-164 | the listing holds the caller's interests, all of them and no one else's |
| Interests.MineListed | src/app/api/interests/route.js:160-162 | the views of a student's interests come from that student's interests only, and cover all of them |
| Interests.RemoveInterest | src/app/api/interests/route.js:175-203 | success whether or not an interest existed; at most the caller's interest in that job is removed and none is left |
| Interests.MarkTwice | src/app/api/interests/route.js:56-68 | marking the same job again answers with the stored interest and stores nothing |
| Interests.RemoveThenList | src/app/api/interests/route.js:160-198 | after a removal the caller's listing shows no interest in that job |
| Notifications.AppliedJobIds | src/app/api/notifications/check/route.js:50-54 | exactly the jobs the student has an application for |
| Notifications.Marked | src/app/api/notifications/check/route.js:74-76 | an interest is marked notified exactly when it was due, nothing else changes |
| Notifications.Notices | src/app/api/notifications/check/route.js:57-73 | never more reminders than interests |
| Notifications.CheckNotifications | src/app/api/notifications/check/route.js:9-80 | 401 unless the caller is an existing student; otherwise the reminders of the due interests in order, every due interest marked and every other interest unchanged |
| Notifications.Sweep | src/app/api/notifications/check/route.js:57-78 | the loop: the reminders are those of the due interests in store order, each interest ends as marked, users, jobs and applications unchanged |
| Notifications.MarkOne | src/app/api/notifications/check/route.js:60-76 | one interest: marked and saved exactly when due, its reminder returned, nothing else changed |
| Notifications.NoticesSound | src/app/api/notifications/check/route.js:58-73 | every reminder comes from a due interest: own, un-notified, job present, deadline in [now, now+24h], not applied |
| Notifications.NoticesComplete | src/app/api/notifications/check/route.js:58-73 | every due interest gets its reminder |
| Notifications.NothingDueNothingEmitted | src/app/api/notifications/check/route.js:57-66 | no due interest, no reminder |
| Notifications.SweepIsNotRepeated | src/app/api/notifications/check/route.js:44-76 | a swept interest is never due again, so a second sweep re-emits nothing |
| Dashboard.AppliedPairs | src/app/api/admin/dashboard/route.js:51-53 | exactly the (student, job) pairs that have an application |
| Dashboard.InterestedNotApplied | src/app/api/admin/dashboard/route.js:51-58 | the number of interests whose (student, job) pair has no application, i.e. the size of `NotAppliedPositions`; hence at most the number of interests, all of them when there are no applications, none when every pair has applied |
| Dashboard.StudentCount | src/app/api/admin/dashboard/route.js:34 | the number of users whose role is student (the size of `StudentPositions`); hence at most the number of users, zero exactly when no user is a student |
| Dashboard.Dashboard | src/app/api/admin/dashboard/route.js:9-76 | 401, 403 unless the token role is admin, otherwise the totals (totalStudents the number of student users, interestedNotApplied the number of interests without an application for their pair), appliedCount equal to totalApplications, and at most five recent applications and jobs, newest first |
| CsvExport.Quote | src/app/api/admin/applications/export/route.js:38-45 | the value verbatim between two double quotes; its characters are the value's and the quote |
| CsvExport.Fields | src/app/api/admin/applications/export/route.js:38-45 | eight values; name and email fall back to the student's then to ""; company and role from the job, "" when it is gone; branch from the snapshot; CGPA empty when 0 and otherwise its text; status as stored; the creation time in ISO form |
| CsvExport.QuotedFields | src/app/api/admin/applications/export/route.js:38-45 | eight values, each quoted |
| CsvExport.Row | src/app/api/admin/applications/export/route.js:37-46 | every line ends with a line break |
| CsvExport.Rows | src/app/api/admin/applications/export/route.js:37-46 | the `forEach` accumulation: empty exactly when there are no applications, at least one character per application, ending with the last application's line |
| CsvExport.Selected | src/app/api/admin/applications/export/route.js:24-31 | only and all applications of the given job (all without one); without a job, all of them newest first |
| CsvExport.RowsExtend | src/app/api/admin/applications/export/route.js:37-46 | the lines of a longer prefix are those of the shorter one plus one line |
| CsvExport.Export | src/app/api/admin/applications/export/route.js:8-55 | 401, 403 unless the token role is admin, otherwise the header followed by one line per selected application |
| CsvExport.RowSplitsIntoFields | src/app/api/admin/applications/export/route.js:37-46 | a line whose values hold no comma splits back into exactly its eight quoted values |
| CsvExport.CommaInValueShiftsColumns | src/app/api/admin/applications/export/route.js:38-45 | a comma inside a value makes the line split into more than eight pieces |
| CsvExport.JoinHasExtraSeparator | src/app/api/admin/applications/export/route.js:38-45 | a join with a piece holding the separator has at least as many separators as pieces |
| CsvExport.RowHasOneBreak | src/app/api/admin/applications/export/route.js:45 | a line whose values hold no line break holds exactly one |
| CsvExport.OneLinePerApplication | src/app/api/admin/applications/export/route.js:37-46 | with no line break in any value, the lines after the header hold one line break per application |
| Resumes.ResumeUrl | src/app/api/profile/resume/route.js:66-77 | the URL lies under /uploads/resumes/ and ends with the file's name |
| Resumes.UrlNamesItsUpload | src/app/api/profile/resume/route.js:66-68 | two uploads share a URL only for the same user, millisecond and file name |
| Resumes.ResumeIndex | src/app/api/profile/resume/route.js:168-170 | the first resume with that URL, -1 exactly when none has it |
| Resumes.UploadError | src/app/api/profile/resume/route.js:36-58 | no file, then not a PDF, then more than 5242880 bytes; no error exactly for a PDF of at most that size |
| Resumes.ListResumes | src/app/api/profile/resume/route.js:104-125 | 401, 404, or the caller's resumes |
| Resumes.UploadResume | src/app/api/profile/resume/route.js:9-93 | 401, 404, the upload errors with nothing stored, or exactly one resume appended (name defaulting to "Resume"), which the next listing shows last |
| Resumes.DeleteResume | src/app/api/profile/resume/route.js:136-198 | 401, 404 user, 400 without URL, 404 unknown URL with nothing changed, or the first matching resume removed with the others in order |
| Resumes.DeleteUndoesUpload | src/app/api/profile/resume/route.js:168-181 | deleting by the URL just uploaded restores the previous list when no earlier resume had it |
| Resumes.SizeBoundary | src/app/api/profile/resume/route.js:52-58 | exactly 5 MiB passes, one byte more is refused |
| Profile.RoundCgpa | src/app/api/profile/update/route.js:46-49 | a multiple of 0.01 within (x - 0.005, x + 0.005] |
| Profile.RoundingIsIdempotent | src/app/api/profile/update/route.js:48 | rounding a rounded CGPA changes nothing |
| Profile.Updated | src/app/api/profile/update/route.js:32-54 | each field present in the body replaces the stored one, absent fields are kept, the password changes only to the hash of a non-blank one, id, role and resumes are kept |
| Profile.OtherWithEmail | src/app/api/profile/update/route.js:36 | a user with another id holding the email, -1 exactly when there is none, so the caller's own email is no conflict |
| Profile.UpdateIsIdempotent | src/app/api/profile/update/route.js:32-54 | applying the same body twice stores what applying it once does, the password aside |
| Profile.EmptyUpdateChangesNothing | src/app/api/profile/update/route.js:33-50 | an empty body changes nothing |
| Profile.UpdateProfile | src/app/api/profile/update/route.js:7-68 | 401, 404, 409 with nothing saved when another user holds the email, 500 when the schema refuses the save, otherwise the updated user saved and echoed without its password |
| Otp.CodeValue | src/app/api/auth/forgot-password/route.js:21 | the code lies in [100000, 999999] |
| Otp.CodeIsSixDigits | src/app/api/auth/forgot-password/route.js:21 | the code is six digits without a leading zero and reads back as its value |
| Otp.Issued | src/app/api/auth/forgot-password/route.js:22-26 | the code and an expiry 15 minutes on replace any earlier pair, nothing else changes |
| Otp.Consumed | src/app/api/auth/reset-password/route.js:48-51 | both OTP fields cleared, nothing else changes |
| Otp.IssuedCodeAccepted | src/app/api/auth/verify-otp/route.js:18 | a fresh code passes both tests exactly until its expiry, the expiry instant included |
| Otp.WrongCodeRefused | src/app/api/auth/verify-otp/route.js:18 | any other code fails both tests |
| Otp.UsedCodeRefused | src/app/api/auth/reset-password/route.js:48-51 | a used code fails both tests ever after |
| Otp.MissingCodeAcceptedByVerify | src/app/api/auth/verify-otp/route.js:18 | as written, no code against no stored code passes verify-otp |
| Otp.ResetIsStricter | src/app/api/auth/reset-password/route.js:29-42 | for a given code, the reset test is the verify test |
| Otp.ForgotPassword | src/app/api/auth/forgot-password/route.js:7-46 | 404 with nothing changed, otherwise a code issued and stored before the mail is sent, so a mail failure (500) leaves it stored |
| Otp.VerifyOtp | src/app/api/auth/verify-otp/route.js:6-50 | 400 unknown email, 400 with nothing changed on a mismatch or expiry, otherwise code cleared, user verified, logged in for 604800 s |
| Otp.ResetPassword | src/app/api/auth/reset-password/route.js:6-60 | the checks in order (fields, user, code, expiry), nothing changed on any failure, otherwise the password replaced and the code cleared |
| AdminSetup.AdminIndex | src/app/api/admin/setup/route.js:20 | a user with that email and role admin, -1 exactly when there is none |
| AdminSetup.NewAdmin | src/app/api/admin/setup/route.js:41-48 | name "Admin", role admin, CGPA 0, branch "N/A", the hashed password |
| AdminSetup.SetupAdmin | src/app/api/admin/setup/route.js:6-66 | 400, password update of the existing admin only, 500 when a non-admin holds the email, or one new admin; after a success an admin with that email has the new password |
| AdminSetup.AdminIndexFinds | src/app/api/admin/setup/route.js:20 | with unique emails the admin lookup finds the one user holding the email |
| AdminSetup.StudentEmailIsNeverAdmin | src/app/api/admin/setup/route.js:20-48 | a student's email is never found as an admin, so setup with it fails rather than promoting the student |
| AdminJobs.AdminCaller | src/app/api/admin/route.js:6-18 | accepted exactly when the token names an existing user whose stored role is admin |
| AdminJobs.CookieRouteJob | src/app/api/admin/route.js:42-50 | the job keeps the body's fields, minCgpa and deadline as given, posted by the admin, without jdPdfUrl |
| AdminJobs.HeaderRouteJob | src/app/api/admin/jobs/route.js:44-52 | the job keeps the body's fields and jdPdfUrl, never a minimum CGPA |
| AdminJobs.CreateJob | src/app/api/admin/route.js:21-60 | 401, 400 with nothing stored when company, role or branches are missing, or exactly one job appended, 201 |
| AdminJobs.ListJobs | src/app/api/admin/route.js:63-78 | 401, or every job newest first |
| AdminJobs.CreatedJobListedFirst | src/app/api/admin/route.js:72 | a job just created heads the listing, followed by the earlier listing |
| AdminJobs.BearerToken | src/app/api/admin/jobs/route.js:15-19 | a non-empty token holds no space and comes from a header with a space |
| AdminJobs.BearerTokenOfHeader | src/app/api/admin/jobs/route.js:15 | "Bearer " followed by a space-free token gives that token back |
| AdminJobs.CreateJobWithHeader | src/app/api/admin/jobs/route.js:8-57 | 401 without header, 401 without token part, 500 when the token does not verify, 403 non-admin, 400 missing fields, or one job appended, 201 |
| AdminJobs.HeaderRouteJobsIgnoreCgpa | src/app/api/admin/jobs/route.js:28-52 | jobs from this route pass the CGPA check for every student |
| JobForm.Branches | src/app/admin/jobs/create/page.js:19-21 | one entry per comma plus one, each the trimmed piece, none holding a comma |
| JobForm.Payload | src/app/admin/jobs/create/page.js:17-23 | text fields pass through, branches parsed, minCgpa absent exactly when the field is empty or not a number |
| JobForm.BranchesNeverEmpty | src/app/admin/jobs/create/page.js:19-21 | the list is never empty; an empty field gives [""] |
| JobForm.BranchesRoundTrip | src/app/admin/jobs/create/page.js:19-21 | comma-separated trimmed names come back as exactly that list |
| JobForm.EmptyBranchFieldAdmitsNoOne | src/app/admin/jobs/create/page.js:19-21 | a job with the branch list [""] fails the eligibility check for every student |

## Left out

- Token handling: signing and verifying JWTs and reading cookies are not modelled. A handler receives the verified claims as an `Actor`. A token that fails to verify is not modelled: it gives 500 in most routes and 401 in the routes with a `getStudent`/`getAdmin` helper. The header route takes the check as a `verify` parameter.
- Password hashing: bcrypt is the parameter `hash`. The model's hash is deterministic, while bcrypt salts every hash; for that reason `Profile.UpdateIsIdempotent` leaves the password out.
- Database failures are not modelled: the catch-all 500 answers for a failed connection, a malformed JSON body or an exception thrown by a query.
- The database library (MongoDB, mongoose):
  - `populate` is modelled only as the lookup of the referenced document. The dashboard's recent applications are returned without their populated job and student.
  - ObjectIds are numbers. A resume URL therefore writes the user id in decimal rather than as 24 hexadecimal digits.
  - "Sort by creation time, newest first" is reverse insertion order.
  - Automatic `createdAt`/`updatedAt` timestamps are set only where a handler sets them or where a record is created.
- The User schema in src/models/User.js declares no `otp`, `otpExpiry` or `isVerified` path, and the Application schema no `answers` path. Under mongoose's strict mode those assignments would not be stored. The model follows the handlers' evident intent and stores them.
- A body field whose JSON type differs from the expected one (a number for a string, null, an array for a string) is not modelled. Absent strings are "". An absent email in the auth routes is modelled as an email no user holds.
- Profile.UpdateProfile: the schema's save-time validation is modelled only as required name, email and branch non-empty and a CGPA that parses. Other casting failures are left out.
- Floating point is not modelled. CGPAs are exact reals, and `Profile.RoundCgpa` rounds exact reals half up. Converting numbers and dates to text (`show`, `iso`) is a parameter.
- File I/O is not modelled: writing and deleting resume files, and the uploaded file's bytes. The job-description upload route (src/app/api/admin/jobs/upload-jd/route.js) is not part of this model: it is file I/O with the same type and size checks.
- Mail delivery: the mailer is the parameter `mail`, which is either delivered or failed with a reason.
- Otp.ForgotPassword: the random draw is the parameter `random`, constrained to [0, 1).
- Concurrency is not modelled. Two simultaneous applies can both pass the "already applied" check, because applications have no unique index. The model is sequential; `Applications.Apply` keeps one application per (job, student) only under that assumption.
- The unused deadline query at src/app/api/notifications/check/route.js:36-41 is not modelled. Notifications.CheckNotifications walks every interest in store order and skips the ones that are not the student's un-notified ones, which is what the route's filtered query returns.
- CsvExport.Selected: with a job filter, its contract states membership only. `CsvExport.Export` fixes the order through the body of `Selected` (the filtered applications, newest first).
- The React pages other than the create-job form's payload are not modelled: the forms and listings of the user interface.
