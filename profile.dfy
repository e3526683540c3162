/** PUT /api/profile/update: the caller edits their own profile. Every field
    present in the body replaces the stored one; the email must not belong
    to another user; the CGPA is rounded to two decimals; a new password is
    taken only when it is not blank, and stored hashed. The document is
    then saved, which the store refuses when a required field (name, email,
    branch, a numeric CGPA) is empty. */
module Profile {
  import opened Records
  import opened Storage
  import Text
  import Seqs

  /** The body's fields; None is a field the body does not have. A CGPA
      that does not parse as a number is Some(None) (parseFloat gives NaN). */
  datatype ProfileUpdate = ProfileUpdate(
    name: Option<string>,
    email: Option<string>,
    branch: Option<string>,
    cgpa: Option<Option<real>>,
    contact: Option<string>,
    password: Option<string>)

  /** `Math.round(x * 100) / 100`: rounding half up to a multiple of 0.01. */
  function RoundCgpa(x: real): (r: real)
    ensures (r * 100.0).Floor as real == r * 100.0
    ensures x - 0.005 < r <= x + 0.005
  {
    var n := (x * 100.0 + 0.5).Floor;
    assert n as real <= x * 100.0 + 0.5 < n as real + 1.0;
    assert (n as real / 100.0) * 100.0 == n as real;
    n as real / 100.0
  }

  /** Rounding a rounded CGPA changes nothing. */
  lemma RoundingIsIdempotent(x: real)
    ensures RoundCgpa(RoundCgpa(x)) == RoundCgpa(x)
  {
    var r := RoundCgpa(x);
    var n := (r * 100.0).Floor;
    assert (r * 100.0 + 0.5).Floor == n;
  }

  /** Whether a new password is taken: present and not blank after trimming. */
  predicate ChangesPassword(req: ProfileUpdate)
  {
    req.password.Some? && Text.Trim(req.password.value) != ""
  }

  /** The user after the body's fields are applied. A CGPA that is not a
      number is kept as the stored one here; `Savable` then refuses the
      update. `hash` is the password hash (bcrypt, cost 10). */
  function Updated(u: User, req: ProfileUpdate, hash: string -> string): (v: User)
    ensures v.id == u.id && v.role == u.role && v.resumes == u.resumes
    ensures v.otp == u.otp && v.otpExpiry == u.otpExpiry && v.isVerified == u.isVerified
    ensures v.name == (if req.name.Some? then req.name.value else u.name)
    ensures v.email == (if req.email.Some? then req.email.value else u.email)
    ensures v.branch == (if req.branch.Some? then req.branch.value else u.branch)
    ensures v.contact == (if req.contact.Some? then req.contact.value else u.contact)
    ensures req.cgpa.Some? && req.cgpa.value.Some? ==> v.cgpa == RoundCgpa(req.cgpa.value.value)
    ensures !(req.cgpa.Some? && req.cgpa.value.Some?) ==> v.cgpa == u.cgpa
    ensures v.password == (if ChangesPassword(req) then hash(req.password.value) else u.password)
  {
    var cgpa := if req.cgpa.Some? && req.cgpa.value.Some? then RoundCgpa(req.cgpa.value.value) else u.cgpa;
    var password := if ChangesPassword(req) then hash(req.password.value) else u.password;
    var name := if req.name.Some? then req.name.value else u.name;
    var email := if req.email.Some? then req.email.value else u.email;
    var branch := if req.branch.Some? then req.branch.value else u.branch;
    var contact := if req.contact.Some? then req.contact.value else u.contact;
    User(u.id, name, email, password, u.role, contact, cgpa, branch, u.resumes, u.otp, u.otpExpiry, u.isVerified)
  }

  /** Whether the save passes the schema: the required strings are not
      empty and a CGPA given in the body is a number. */
  predicate Savable(v: User, req: ProfileUpdate)
  {
    v.name != "" && v.email != "" && v.branch != "" && !(req.cgpa.Some? && req.cgpa.value.None?)
  }

  function View(u: User): (p: ProfileView)
  {
    ProfileView(u.id, u.name, u.email, u.branch, u.cgpa, u.contact)
  }

  /** Applying the same body twice stores what applying it once does, but
      for the password, which is hashed again. */
  lemma UpdateIsIdempotent(u: User, req: ProfileUpdate, hash: string -> string)
    ensures Updated(Updated(u, req, hash), req, hash).(password := u.password)
         == Updated(u, req, hash).(password := u.password)
  {
    if req.cgpa.Some? && req.cgpa.value.Some? {
      RoundingIsIdempotent(req.cgpa.value.value);
    }
  }

  /** An empty body changes nothing. */
  lemma EmptyUpdateChangesNothing(u: User, hash: string -> string)
    ensures Updated(u, ProfileUpdate(None, None, None, None, None, None), hash) == u
  {
  }

  method UpdateProfile(st: Store, actor: Actor, req: ProfileUpdate, hash: string -> string) returns (r: Response)
    requires st.Valid()
    modifies st
    ensures st.Valid()
    ensures st.jobs == old(st.jobs) && st.applications == old(st.applications) && st.interests == old(st.interests)
    ensures actor.NoToken? ==> r == Response(401, Error("Unauthorized")) && st.users == old(st.users)
    ensures actor.Token? && UserIndex(old(st.users), actor.id) == -1 ==>
      r == Response(404, Error("User not found")) && st.users == old(st.users)
    ensures actor.Token? && UserIndex(old(st.users), actor.id) >= 0 ==>
      var k := UserIndex(old(st.users), actor.id);
      var v := Updated(old(st.users)[k], req, hash);
      if req.email.Some? && exists i :: 0 <= i < |old(st.users)| && i != k && old(st.users)[i].email == req.email.value then
        r == Response(409, Error("Email already in use")) && st.users == old(st.users)
      else if !Savable(v, req) then
        r == Response(500, Error("Failed to update profile")) && st.users == old(st.users)
      else
        && st.users == old(st.users)[k := v]
        && r == Response(200, ProfileSaved(View(v)))
  {
    if actor.NoToken? {
      return Response(401, Error("Unauthorized"));
    }
    var k := UserIndex(st.users, actor.id);
    if k == -1 {
      return Response(404, Error("User not found"));
    }
    var u := st.users[k];
    if req.email.Some? {
      var other := OtherWithEmail(st.users, u.id, req.email.value);
      if other >= 0 {
        return Response(409, Error("Email already in use"));
      }
    }
    var v := Updated(u, req, hash);
    if !Savable(v, req) {
      return Response(500, Error("Failed to update profile"));
    }
    st.SetUser(k, v);
    r := Response(200, ProfileSaved(View(v)));
  }

  /** `User.findOne({ email, _id: { $ne: id } })`: the position of a user
      other than the one with that id holding the email, or -1. */
  function OtherWithEmail(users: seq<User>, id: Id, email: string): (i: int)
    ensures -1 <= i < |users|
    ensures i >= 0 ==> users[i].id != id && users[i].email == email
    ensures i == -1 <==> forall j :: 0 <= j < |users| && users[j].id != id ==> users[j].email != email
  {
    Seqs.FindIndex(users, (v: User) => v.email == email && v.id != id)
  }
}
