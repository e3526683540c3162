/** /api/profile/resume: a user uploads a PDF resume (POST), lists their
    resumes (GET) and deletes one by its URL (DELETE). The file itself is
    written under the public uploads directory; here only the user
    document's list of (name, url) pairs is kept. */
module Resumes {
  import opened Records
  import opened Storage
  import Seqs
  import Text

  /** The largest accepted file: 5 * 1024 * 1024 bytes. */
  const MaxSize: nat := 5 * 1024 * 1024

  /** The public directory the resume URLs point into. */
  const Dir: string := "/uploads/resumes/"

  /** The `resume` form field: no file, or a file with its name, MIME type
      and size in bytes. */
  datatype Upload = NoFile | File(fileName: string, mimeType: string, size: nat)

  /** `/uploads/resumes/${user._id}_${timestamp}_${file.name}`. */
  function ResumeUrl(userId: Id, now: Time, fileName: string): (url: string)
    ensures |url| >= |Dir| + |fileName| && url[..|Dir|] == Dir && url[|url| - |fileName|..] == fileName
  {
    Dir + Text.NatToString(userId) + "_" + Text.IntToString(now) + "_" + fileName
  }

  /** The stored URL names its owner, its upload time and the file's name:
      two uploads get the same URL only for the same user, millisecond and
      file name. */
  lemma UrlNamesItsUpload(u1: Id, t1: Time, f1: string, u2: Id, t2: Time, f2: string)
    requires ResumeUrl(u1, t1, f1) == ResumeUrl(u2, t2, f2)
    ensures u1 == u2 && t1 == t2 && f1 == f2
  {
    var n1, n2 := Text.NatToString(u1), Text.NatToString(u2);
    var i1, i2 := Text.IntToString(t1), Text.IntToString(t2);
    assert '_' !in n1 && '_' !in n2;
    Text.IntToStringAlphabet(t1, '_');
    Text.IntToStringAlphabet(t2, '_');
    UrlAfterDir(u1, t1, f1);
    UrlAfterDir(u2, t2, f2);
    Text.CutAtFirst(n1, i1 + ['_'] + f1, n2, i2 + ['_'] + f2, '_');
    Text.NatToStringInjective(u1, u2);
    Text.CutAtFirst(i1, f1, i2, f2, '_');
    Text.IntToStringInjective(t1, t2);
  }

  /** What follows the directory in a URL: the id, the time and the file
      name, each pair separated by an underscore. */
  lemma UrlAfterDir(userId: Id, now: Time, fileName: string)
    ensures ResumeUrl(userId, now, fileName)[|Dir|..]
            == Text.NatToString(userId) + ['_'] + (Text.IntToString(now) + ['_'] + fileName)
  {
  }

  /** `user.resumes.findIndex(r => r.url === url)`. */
  function ResumeIndex(resumes: seq<Resume>, url: string): (k: int)
    ensures -1 <= k < |resumes|
    ensures k >= 0 ==> resumes[k].url == url && forall i :: 0 <= i < k ==> resumes[i].url != url
    ensures k == -1 <==> forall i :: 0 <= i < |resumes| ==> resumes[i].url != url
  {
    Seqs.FindIndex(resumes, (r: Resume) => r.url == url)
  }

  /** The checks of an upload, in order: 400 "No file uploaded", 400 "Only
      PDF files are allowed", 400 when the file is larger than 5 MB. */
  function UploadError(file: Upload): (e: Option<string>)
    ensures e.None? <==> file.File? && file.mimeType == "application/pdf" && file.size <= MaxSize
    ensures file.NoFile? ==> e == Some("No file uploaded")
    ensures file.File? && file.mimeType != "application/pdf" ==> e == Some("Only PDF files are allowed")
    ensures file.File? && file.mimeType == "application/pdf" && file.size > MaxSize ==>
      e == Some("File size must be less than 5MB")
  {
    if file.NoFile? then Some("No file uploaded")
    else if file.mimeType != "application/pdf" then Some("Only PDF files are allowed")
    else if file.size > MaxSize then Some("File size must be less than 5MB")
    else None
  }

  /** GET: the caller's resumes. */
  function ListResumes(users: seq<User>, actor: Actor): (r: Response)
    ensures actor.NoToken? ==> r == Response(401, Error("Unauthorized"))
    ensures actor.Token? && UserIndex(users, actor.id) == -1 ==> r == Response(404, Error("User not found"))
    ensures actor.Token? && UserIndex(users, actor.id) >= 0 ==>
      r.status == 200 && r.body.ResumeList? && r.body.resumes == users[UserIndex(users, actor.id)].resumes
  {
    if actor.NoToken? then Response(401, Error("Unauthorized"))
    else
      var k := UserIndex(users, actor.id);
      if k == -1 then Response(404, Error("User not found"))
      else Response(200, ResumeList(users[k].resumes))
  }

  /** POST: `name` is the form's name field ("" when absent). A stored
      resume is appended to the caller's list, which the next GET returns. */
  method UploadResume(st: Store, actor: Actor, file: Upload, name: string, now: Time) returns (r: Response)
    requires st.Valid()
    modifies st
    ensures st.Valid()
    ensures st.jobs == old(st.jobs) && st.applications == old(st.applications) && st.interests == old(st.interests)
    ensures actor.NoToken? ==> r == Response(401, Error("Unauthorized")) && st.users == old(st.users)
    ensures actor.Token? && UserIndex(old(st.users), actor.id) == -1 ==>
      r == Response(404, Error("User not found")) && st.users == old(st.users)
    ensures actor.Token? && UserIndex(old(st.users), actor.id) >= 0 && UploadError(file).Some? ==>
      r == Response(400, Error(UploadError(file).value)) && st.users == old(st.users)
    ensures actor.Token? && UserIndex(old(st.users), actor.id) >= 0 && UploadError(file).None? ==>
      var k := UserIndex(old(st.users), actor.id);
      var u := old(st.users)[k];
      var resume := Resume(if name != "" then name else "Resume", ResumeUrl(u.id, now, file.fileName));
      && st.users == old(st.users)[k := u.(resumes := u.resumes + [resume])]
      && r == Response(200, ResumeSaved(resume))
      && ListResumes(st.users, actor) == Response(200, ResumeList(u.resumes + [resume]))
  {
    if actor.NoToken? {
      return Response(401, Error("Unauthorized"));
    }
    var k := UserIndex(st.users, actor.id);
    if k == -1 {
      return Response(404, Error("User not found"));
    }
    var u := st.users[k];
    var resumeName := if name != "" then name else "Resume";
    var error := UploadError(file);
    if error.Some? {
      return Response(400, Error(error.value));
    }
    var resume := Resume(resumeName, ResumeUrl(u.id, now, file.fileName));
    UserIndexAfterSet(st.users, k, u.(resumes := u.resumes + [resume]), actor.id);
    st.SetUser(k, u.(resumes := u.resumes + [resume]));
    r := Response(200, ResumeSaved(resume));
  }

  /** DELETE: `url` is the query's url parameter ("" when absent). The first
      resume with that URL is removed; the others keep their order. */
  method DeleteResume(st: Store, actor: Actor, url: string) returns (r: Response)
    requires st.Valid()
    modifies st
    ensures st.Valid()
    ensures st.jobs == old(st.jobs) && st.applications == old(st.applications) && st.interests == old(st.interests)
    ensures actor.NoToken? ==> r == Response(401, Error("Unauthorized")) && st.users == old(st.users)
    ensures actor.Token? && UserIndex(old(st.users), actor.id) == -1 ==>
      r == Response(404, Error("User not found")) && st.users == old(st.users)
    ensures actor.Token? && UserIndex(old(st.users), actor.id) >= 0 ==>
      var k := UserIndex(old(st.users), actor.id);
      var u := old(st.users)[k];
      var i := ResumeIndex(u.resumes, url);
      if url == "" then
        r == Response(400, Error("Resume URL is required")) && st.users == old(st.users)
      else if i == -1 then
        r == Response(404, Error("Resume not found")) && st.users == old(st.users)
      else
        && st.users == old(st.users)[k := u.(resumes := Seqs.RemoveAt(u.resumes, i))]
        && r == Response(200, Done("Resume deleted successfully"))
        && ListResumes(st.users, actor) == Response(200, ResumeList(Seqs.RemoveAt(u.resumes, i)))
  {
    if actor.NoToken? {
      return Response(401, Error("Unauthorized"));
    }
    var k := UserIndex(st.users, actor.id);
    if k == -1 {
      return Response(404, Error("User not found"));
    }
    var u := st.users[k];
    if url == "" {
      return Response(400, Error("Resume URL is required"));
    }
    var i := ResumeIndex(u.resumes, url);
    if i == -1 {
      return Response(404, Error("Resume not found"));
    }
    UserIndexAfterSet(st.users, k, u.(resumes := Seqs.RemoveAt(u.resumes, i)), actor.id);
    st.SetUser(k, u.(resumes := Seqs.RemoveAt(u.resumes, i)));
    r := Response(200, Done("Resume deleted successfully"));
  }

  /** Deleting by the URL of the resume just uploaded gives back the list as
      it was, provided no earlier resume had that URL. */
  lemma DeleteUndoesUpload(resumes: seq<Resume>, resume: Resume)
    requires forall i :: 0 <= i < |resumes| ==> resumes[i].url != resume.url
    ensures ResumeIndex(resumes + [resume], resume.url) == |resumes|
    ensures Seqs.RemoveAt(resumes + [resume], |resumes|) == resumes
  {
    var s := resumes + [resume];
    assert forall i :: 0 <= i < |resumes| ==> s[i].url != resume.url;
    assert s[|resumes|].url == resume.url;
  }

  /** The exact 5 MB boundary: a file of 5242880 bytes passes, one byte more
      does not. */
  lemma SizeBoundary(fileName: string)
    ensures UploadError(File(fileName, "application/pdf", 5242880)).None?
    ensures UploadError(File(fileName, "application/pdf", 5242881)) == Some("File size must be less than 5MB")
  {
  }
}
