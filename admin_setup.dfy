/** POST /api/admin/setup: bootstraps an admin account. An existing admin
    with the email gets the new password; otherwise an admin user is created
    with fixed defaults. The user collection's unique index on email makes
    the creation fail when a non-admin user already holds the email. */
module AdminSetup {
  import opened Records
  import opened Storage
  import Seqs

  /** `User.findOne({ email, role: "admin" })`. */
  function AdminIndex(users: seq<User>, email: string): (k: int)
    ensures -1 <= k < |users|
    ensures k >= 0 ==> users[k].email == email && users[k].role == Admin
    ensures k == -1 <==> forall i :: 0 <= i < |users| ==> !(users[i].email == email && users[i].role == Admin)
  {
    Seqs.FindIndex(users, (u: User) => u.email == email && u.role == Admin)
  }

  /** The account a first setup creates (its id is given by the store). */
  function NewAdmin(email: string, hashed: string): (u: User)
    ensures u.role == Admin && u.email == email && u.password == hashed
    ensures u.name == "Admin" && u.cgpa == 0.0 && u.branch == "N/A"
    ensures u.contact == "" && u.resumes == [] && u.otp.None? && u.otpExpiry.None? && !u.isVerified
  {
    User(0, "Admin", email, hashed, Admin, "", 0.0, "N/A", [], None, None, false)
  }

  function View(u: User): AdminView
  {
    AdminView(u.id, u.email, u.name)
  }

  /** `email` and `password` are "" when absent; `hash` is bcrypt with cost
      10. A successful setup leaves an admin with that email whose password
      is the new hash, so a repeated setup takes the update path. */
  method SetupAdmin(st: Store, email: string, password: string, hash: string -> string) returns (r: Response)
    requires st.Valid()
    modifies st
    ensures st.Valid()
    ensures st.jobs == old(st.jobs) && st.applications == old(st.applications) && st.interests == old(st.interests)
    ensures email == "" || password == "" ==>
      r == Response(400, Error("Email and password are required")) && st.users == old(st.users)
    ensures email != "" && password != "" ==>
      var a := AdminIndex(old(st.users), email);
      if a >= 0 then
        && st.users == old(st.users)[a := old(st.users)[a].(password := hash(password))]
        && r == Response(200, AdminSaved("Admin account updated successfully", View(old(st.users)[a])))
      else if EmailIndex(old(st.users), email) >= 0 then
        r == Response(500, Error("Failed to setup admin account")) && st.users == old(st.users)
      else
        var n := |old(st.users)|;
        && |st.users| == n + 1 && st.users[..n] == old(st.users)
        && st.users[n] == NewAdmin(email, hash(password)).(id := old(st.nextId))
        && r == Response(200, AdminSaved("Admin account created successfully", View(st.users[n])))
    ensures r.status == 200 ==>
      && AdminIndex(st.users, email) >= 0
      && st.users[AdminIndex(st.users, email)].password == hash(password)
  {
    if email == "" || password == "" {
      return Response(400, Error("Email and password are required"));
    }
    var a := AdminIndex(st.users, email);
    if a >= 0 {
      var updated := st.users[a].(password := hash(password));
      st.SetUser(a, updated);
      AdminIndexFinds(st.users, a, email);
      return Response(200, AdminSaved("Admin account updated successfully", View(updated)));
    }
    if EmailIndex(st.users, email) >= 0 {
      return Response(500, Error("Failed to setup admin account"));
    }
    var saved := st.AddUser(NewAdmin(email, hash(password)));
    AdminIndexFinds(st.users, |st.users| - 1, email);
    r := Response(200, AdminSaved("Admin account created successfully", View(saved)));
  }

  /** In a store where emails are unique, the admin with an email is the one
      user holding it. */
  lemma AdminIndexFinds(users: seq<User>, k: nat, email: string)
    requires k < |users| && users[k].email == email && users[k].role == Admin
    requires forall i, j :: 0 <= i < j < |users| ==> users[i].email != users[j].email
    ensures AdminIndex(users, email) == k
  {
    assert forall i :: 0 <= i < |users| && i != k ==> users[i].email != email;
  }

  /** A non-admin holding the email is never promoted or changed: setup can
      only fail for it. */
  lemma StudentEmailIsNeverAdmin(users: seq<User>, k: nat, email: string)
    requires k < |users| && users[k].email == email && users[k].role == Student
    requires forall i, j :: 0 <= i < j < |users| ==> users[i].email != users[j].email
    ensures AdminIndex(users, email) == -1 && EmailIndex(users, email) >= 0
  {
    forall i | 0 <= i < |users| ensures !(users[i].email == email && users[i].role == Admin) {
      if i != k {
        assert users[i].email != users[k].email;
      }
    }
  }
}
