/** The request middleware's routing decision (lib/supabase/middleware.ts,
    `updateSession`): who may see which path, where everyone else is sent,
    and when the session is signed out. */
module Access {
  import opened Common
  import opened Records

  /** What the middleware does with a request: let it through, or redirect
      it to `path`, signing the session out first when `signOut` holds. */
  datatype Decision = Pass | Redirect(path: string, signOut: bool)

  const LoginPath := "/auth/login"
  const AdminHome := "/dashboard"
  const TeacherHome := "/teacher/dashboard"

  /** `.from("profiles").select(...).eq("id", user).single()`: the profile
      when exactly one row carries the id, `null` otherwise (and when the
      read fails). */
  function ProfileLookup(profiles: seq<Profile>, user: Id, readOk: bool): (r: Option<Profile>)
    ensures r.Some? ==> r.value in profiles && r.value.id == user
    ensures readOk && |Filter((p: Profile) => p.id == user, profiles)| == 1 ==> r.Some?
  {
    var rows := Filter((p: Profile) => p.id == user, profiles);
    if readOk && |rows| == 1 then
      assert rows[0] in rows;
      Some(rows[0])
    else None
  }

  /** `!profile?.is_active`: no profile, or an inactive one. */
  predicate Barred(profile: Option<Profile>)
  {
    profile.None? || !profile.value.isActive
  }

  /** `profile?.role === role`. */
  predicate HasRole(profile: Option<Profile>, role: string)
  {
    profile.Some? && profile.value.role == role
  }

  /** `updateSession`: `user` is the signed-in user, if any, and `profile`
      the lookup of that user's profile. */
  function Route(user: Option<Id>, path: string, profile: Option<Profile>): Decision
  {
    if user.None? then
      if StartsWith(path, "/auth") then Pass else Redirect(LoginPath, false)
    else if StartsWith(path, LoginPath) then
      if Barred(profile) then Redirect(LoginPath, true)
      else Redirect(if HasRole(profile, "admin") then AdminHome else TeacherHome, false)
    else if Barred(profile) then Redirect(LoginPath, true)
    else if HasRole(profile, "teacher") && StartsWith(path, "/admin") then Redirect(TeacherHome, false)
    else if !HasRole(profile, "admin") && StartsWith(path, "/dashboard") then Redirect(TeacherHome, false)
    else if HasRole(profile, "admin") && StartsWith(path, "/teacher") then Redirect(AdminHome, false)
    else Pass
  }

  /** Without a user, the `/auth` pages pass and everything else goes to
      the login page. */
  lemma AnonymousSpec(path: string, profile: Option<Profile>)
    ensures Route(None, path, profile) == Pass <==> StartsWith(path, "/auth")
    ensures !StartsWith(path, "/auth") ==> Route(None, path, profile) == Redirect(LoginPath, false)
  {
  }

  /** A signed-in user without an active profile is signed out and sent to
      the login page, whatever the path; on the login page an active user
      is sent home: an admin to the admin dashboard, any other role to the
      teacher dashboard. */
  lemma SignedInSpec(user: Id, path: string, profile: Option<Profile>)
    ensures Barred(profile) ==> Route(Some(user), path, profile) == Redirect(LoginPath, true)
    ensures !Barred(profile) && StartsWith(path, LoginPath) ==>
      Route(Some(user), path, profile) == Redirect(if profile.value.role == "admin" then AdminHome else TeacherHome, false)
  {
  }

  /** An active admin passes everywhere except the `/teacher` pages (sent to
      the admin dashboard) and the login page. */
  lemma AdminSpec(user: Id, path: string, profile: Profile)
    requires profile.isActive && profile.role == "admin"
    ensures Route(Some(user), path, Some(profile)) == Pass <==>
      !StartsWith(path, LoginPath) && !StartsWith(path, "/teacher")
    ensures !StartsWith(path, LoginPath) && StartsWith(path, "/teacher") ==>
      Route(Some(user), path, Some(profile)) == Redirect(AdminHome, false)
  {
  }

  /** An active teacher passes everywhere except the `/admin` and
      `/dashboard` pages (sent to the teacher dashboard) and the login page. */
  lemma TeacherSpec(user: Id, path: string, profile: Profile)
    requires profile.isActive && profile.role == "teacher"
    ensures Route(Some(user), path, Some(profile)) == Pass <==>
      !StartsWith(path, LoginPath) && !StartsWith(path, "/admin") && !StartsWith(path, "/dashboard")
    ensures !StartsWith(path, LoginPath) && (StartsWith(path, "/admin") || StartsWith(path, "/dashboard")) ==>
      Route(Some(user), path, Some(profile)) == Redirect(TeacherHome, false)
  {
  }

  /** An active user of any other role is kept off `/dashboard` only: the
      `/admin` pages let it through. */
  lemma OtherRoleReachesAdmin(user: Id, profile: Profile)
    requires profile.isActive && profile.role != "admin" && profile.role != "teacher"
    ensures Route(Some(user), "/admin/settings", Some(profile)) == Pass
    ensures Route(Some(user), "/dashboard", Some(profile)) == Redirect(TeacherHome, false)
  {
    var path := "/admin/settings";
    assert path[2] != LoginPath[2] && path[1] != "/dashboard"[1];
    assert path[..6] == "/admin";
    TargetPrefixes();
  }

  /** The redirect targets themselves. */
  lemma TargetPrefixes()
    ensures StartsWith(LoginPath, "/auth") && StartsWith(LoginPath, LoginPath)
    ensures !StartsWith(AdminHome, LoginPath) && !StartsWith(AdminHome, "/teacher")
      && !StartsWith(AdminHome, "/admin") && StartsWith(AdminHome, "/dashboard")
    ensures !StartsWith(TeacherHome, LoginPath) && StartsWith(TeacherHome, "/teacher")
      && !StartsWith(TeacherHome, "/admin") && !StartsWith(TeacherHome, "/dashboard")
  {
    assert AdminHome[1] != LoginPath[1] && AdminHome[1] != "/teacher"[1] && AdminHome[1] != "/admin"[1];
    assert TeacherHome[1] != LoginPath[1] && TeacherHome[1] != "/admin"[1] && TeacherHome[1] != "/dashboard"[1];
  }

  /** No redirect loop: following a redirect, with the session signed out
      when the redirect says so and the same profile otherwise, passes. */
  lemma NoRedirectLoop(user: Option<Id>, path: string, profile: Option<Profile>)
    ensures var d := Route(user, path, profile);
      d.Redirect? ==> Route(if d.signOut then None else user, d.path, profile) == Pass
  {
    TargetPrefixes();
  }
}
