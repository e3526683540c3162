/** GET /api/admin/applications/export: the admin's CSV download. A fixed
    header line, then one line per application (of one job, when a jobId is
    given), newest first, each line eight double-quoted fields separated by
    commas. Field values are written between the quotes verbatim: a quote,
    comma or line break inside a value is not escaped (section 2 of RFC 4180
    asks for doubled quotes), so such a value shifts or splits the columns. */
module CsvExport {
  import opened Records
  import opened Storage
  import Seqs
  import Text

  const Header: string := "Name,Email,Company,Role,Branch,CGPA,Status,Applied At\n"

  /** `"${s}"`: the value between double quotes, unescaped. */
  function Quote(s: string): (q: string)
    ensures |q| == |s| + 2 && q[0] == '"' && q[|q| - 1] == '"' && q[1..|q| - 1] == s
    ensures forall c :: c in q <==> c == '"' || c in s
  {
    "\"" + s + "\""
  }

  /** `a || b` on strings. */
  function Or(a: string, b: string): string
  {
    if a != "" then a else b
  }

  /** The eight values of an application's line. Name and email fall back
      from the snapshot to the student's current document to ""; company and
      role come from the job ("" when it is gone); branch and CGPA only from
      the snapshot, a CGPA of 0 printing as ""; the status as stored; the
      creation time through `iso` (Date.toISOString). `show` converts a
      number to text. */
  function Fields(a: Application, users: seq<User>, jobs: seq<Job>, show: real -> string, iso: Time -> string)
    : (f: seq<string>)
    ensures |f| == 8
    ensures var k := UserIndex(users, a.studentId);
      f[0] == (if a.name != "" then a.name else if k >= 0 then users[k].name else "")
      && f[1] == (if a.email != "" then a.email else if k >= 0 then users[k].email else "")
    ensures var job := FindJob(jobs, a.jobId);
      f[2] == (if job.Some? then job.value.company else "")
      && f[3] == (if job.Some? then job.value.role else "")
    ensures f[4] == a.branch && (f[5] == "" <==> a.cgpa == 0.0 || show(a.cgpa) == "")
    ensures a.cgpa != 0.0 ==> f[5] == show(a.cgpa)
    ensures f[6] == StatusText(a.status)
    ensures f[7] == iso(a.createdAt)
  {
    var k := UserIndex(users, a.studentId);
    var job := FindJob(jobs, a.jobId);
    [ Or(a.name, if k >= 0 then users[k].name else ""),
      Or(a.email, if k >= 0 then users[k].email else ""),
      if job.Some? then job.value.company else "",
      if job.Some? then job.value.role else "",
      a.branch,
      if a.cgpa == 0.0 then "" else show(a.cgpa),
      StatusText(a.status),
      iso(a.createdAt) ]
  }

  function QuotedFields(a: Application, users: seq<User>, jobs: seq<Job>, show: real -> string, iso: Time -> string)
    : (q: seq<string>)
    ensures |q| == 8
    ensures forall i :: 0 <= i < 8 ==> q[i] == Quote(Fields(a, users, jobs, show, iso)[i])
  {
    var f := Fields(a, users, jobs, show, iso);
    seq(8, i requires 0 <= i < 8 => Quote(f[i]))
  }

  /** One line: the quoted values joined by commas, ended by a line break. */
  function Row(a: Application, users: seq<User>, jobs: seq<Job>, show: real -> string, iso: Time -> string)
    : (row: string)
    ensures |row| >= 1 && row[|row| - 1] == '\n'
  {
    Text.Join(QuotedFields(a, users, jobs, show, iso), ",") + "\n"
  }

  /** The lines of `apps`, in order (the `forEach` that appends a line per
      application): empty exactly when there is no application, otherwise
      ended by the last application's line. */
  function Rows(apps: seq<Application>, users: seq<User>, jobs: seq<Job>, show: real -> string, iso: Time -> string)
    : (r: string)
    ensures r == "" <==> apps == []
    ensures |r| >= |apps|
    ensures apps != [] ==> var last := Row(apps[|apps| - 1], users, jobs, show, iso);
      |last| <= |r| && r[|r| - |last|..] == last
  {
    if apps == [] then ""
    else
      var init := Rows(apps[..|apps| - 1], users, jobs, show, iso);
      var last := Row(apps[|apps| - 1], users, jobs, show, iso);
      assert (init + last)[|init + last| - |last|..] == last;
      init + last
  }

  /** The exported applications: those of the given job, or all when no job
      is given, newest first. */
  function Selected(apps: seq<Application>, jobFilter: Option<Id>): (s: seq<Application>)
    ensures |s| <= |apps|
    ensures forall a :: a in s ==> a in apps && (jobFilter.Some? ==> a.jobId == jobFilter.value)
    ensures forall a :: a in apps && (jobFilter.None? || a.jobId == jobFilter.value) ==> a in s
    ensures jobFilter.None? ==> |s| == |apps| && forall i :: 0 <= i < |s| ==> s[i] == apps[|apps| - 1 - i]
  {
    var matching := if jobFilter.None? then apps
                    else Seqs.Filter(apps, (a: Application) => a.jobId == jobFilter.value);
    var s := Seqs.Newest(matching, |matching|);
    assert forall a :: a in matching ==> a in s by {
      forall a | a in matching ensures a in s {
        var j :| 0 <= j < |matching| && matching[j] == a;
        assert s[|matching| - 1 - j] == a;
      }
    }
    s
  }

  lemma RowsExtend(apps: seq<Application>, i: nat, users: seq<User>, jobs: seq<Job>, show: real -> string,
                   iso: Time -> string)
    requires i < |apps|
    ensures Rows(apps[..i + 1], users, jobs, show, iso) == Rows(apps[..i], users, jobs, show, iso) + Row(apps[i], users, jobs, show, iso)
  {
    assert apps[..i + 1][..i] == apps[..i];
  }

  /** The handler: 401 without a token, 403 unless the token's role claim is
      admin; otherwise the CSV text, built line by line. */
  method Export(users: seq<User>, jobs: seq<Job>, apps: seq<Application>, actor: Actor, jobFilter: Option<Id>,
                show: real -> string, iso: Time -> string) returns (r: Response)
    ensures actor.NoToken? ==> r == Response(401, Error("Unauthorized"))
    ensures actor.Token? && actor.role != Admin ==> r == Response(403, Error("Forbidden"))
    ensures actor.Token? && actor.role == Admin ==>
      r == Response(200, CsvFile(Header + Rows(Selected(apps, jobFilter), users, jobs, show, iso)))
  {
    if actor.NoToken? {
      return Response(401, Error("Unauthorized"));
    }
    if actor.role != Admin {
      return Response(403, Error("Forbidden"));
    }
    var selected := Selected(apps, jobFilter);
    var lines := "";
    var i := 0;
    while i < |selected|
      invariant 0 <= i <= |selected|
      invariant lines == Rows(selected[..i], users, jobs, show, iso)
    {
      RowsExtend(selected, i, users, jobs, show, iso);
      lines := lines + Row(selected[i], users, jobs, show, iso);
      i := i + 1;
    }
    assert selected[..i] == selected;
    r := Response(200, CsvFile(Header + lines));
  }

  /** A line whose values hold no comma splits back, at its commas, into
      exactly the eight quoted values. */
  lemma RowSplitsIntoFields(a: Application, users: seq<User>, jobs: seq<Job>, show: real -> string, iso: Time -> string)
    requires forall i :: 0 <= i < 8 ==> ',' !in Fields(a, users, jobs, show, iso)[i]
    ensures var row := Row(a, users, jobs, show, iso);
      Text.Split(row[..|row| - 1], ',') == QuotedFields(a, users, jobs, show, iso)
  {
    var f := Fields(a, users, jobs, show, iso);
    var q := QuotedFields(a, users, jobs, show, iso);
    var row := Row(a, users, jobs, show, iso);
    assert row[..|row| - 1] == Text.Join(q, [',']);
    Text.SplitJoin(q, ',');
  }

  /** Since values are not escaped, a comma inside one of them splits the
      line into more than eight pieces: the columns shift. */
  lemma CommaInValueShiftsColumns(a: Application, users: seq<User>, jobs: seq<Job>, show: real -> string,
                                  iso: Time -> string, i: nat)
    requires i < 8 && ',' in Fields(a, users, jobs, show, iso)[i]
    ensures var row := Row(a, users, jobs, show, iso);
      |Text.Split(row[..|row| - 1], ',')| > 8
  {
    var f := Fields(a, users, jobs, show, iso);
    var q := QuotedFields(a, users, jobs, show, iso);
    var row := Row(a, users, jobs, show, iso);
    var body := Text.Join(q, [',']);
    assert row[..|row| - 1] == body;
    // the separators alone give seven commas, the value at least one more
    JoinHasExtraSeparator(q, ',', i);
  }

  /** A join of pieces one of which holds the separator has more separators
      than the join needs. */
  lemma {:induction false} JoinHasExtraSeparator(pieces: seq<string>, sep: char, i: nat)
    requires i < |pieces| && sep in pieces[i]
    ensures Text.Count(Text.Join(pieces, [sep]), sep) >= |pieces|
  {
    Text.CountPositive(pieces[0], sep);
    if |pieces| == 1 {
    } else {
      var rest := Text.Join(pieces[1..], [sep]);
      Text.CountAppend(pieces[0], [sep], sep);
      Text.CountAppend(pieces[0] + [sep], rest, sep);
      if i == 0 {
        Text.JoinCountsSeparators(pieces[1..], sep);
      } else {
        JoinHasExtraSeparator(pieces[1..], sep, i - 1);
      }
    }
  }

  /** A line whose values hold no line break holds just its final one. */
  lemma RowHasOneBreak(a: Application, users: seq<User>, jobs: seq<Job>, show: real -> string, iso: Time -> string)
    requires forall i :: 0 <= i < 8 ==> '\n' !in Fields(a, users, jobs, show, iso)[i]
    ensures Text.Count(Row(a, users, jobs, show, iso), '\n') == 1
  {
    var q := QuotedFields(a, users, jobs, show, iso);
    Text.JoinAvoids(q, ",", '\n');
    Text.CountPositive(Text.Join(q, ","), '\n');
    Text.CountAppend(Text.Join(q, ","), "\n", '\n');
  }

  /** When no value holds a line break, the lines after the header hold
      exactly one line break per application. */
  lemma {:induction false} OneLinePerApplication(apps: seq<Application>, users: seq<User>, jobs: seq<Job>,
                                                 show: real -> string, iso: Time -> string)
    requires forall k, i :: 0 <= k < |apps| && 0 <= i < 8 ==> '\n' !in Fields(apps[k], users, jobs, show, iso)[i]
    ensures Text.Count(Rows(apps, users, jobs, show, iso), '\n') == |apps|
  {
    if apps != [] {
      var init := apps[..|apps| - 1];
      OneLinePerApplication(init, users, jobs, show, iso);
      RowHasOneBreak(apps[|apps| - 1], users, jobs, show, iso);
      Text.CountAppend(Rows(init, users, jobs, show, iso), Row(apps[|apps| - 1], users, jobs, show, iso), '\n');
    }
  }
}
