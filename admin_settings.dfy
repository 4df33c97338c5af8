/** The administrator's user settings page (app/admin/settings/page.tsx):
    the list of profiles with its search box, editing a profile, switching
    it on and off, deleting it, and setting a new password for it. */
module AdminSettings {
  import opened Common
  import opened Records
  import opened Database
  import Access
  import ChangePassword

  /** `editData`, a `Partial<ProfileData>`: `None` for a field never
      touched. */
  datatype Edit = Edit(fullName: Option<string>, role: Option<string>, isActive: Option<bool>, subject: Option<string>)

  const NoEdit := Edit(None, None, None, None)

  /** `v || fallback` for an edited text: an untouched or emptied field
      falls back. */
  function TextOr(v: Option<string>, fallback: string): string
  {
    if v.Some? && v.value != "" then v.value else fallback
  }

  /** `v || fallback` where the fallback may itself be `null`. */
  function NullableOr(v: Option<string>, fallback: Option<string>): Option<string>
  {
    if v.Some? && v.value != "" then v else fallback
  }

  /** The update `handleUpdateUser` sends: full name, role and subject from
      the edit when it holds a non-empty text and from the selected user
      otherwise; `is_active` from the edit whenever the edit set it. */
  function Merge(selected: Profile, edit: Edit): ProfileUpdate
  {
    ProfileUpdate(
      Some(NullableOr(edit.fullName, selected.fullName)),
      Some(TextOr(edit.role, selected.role)),
      Some(if edit.isActive.Some? then edit.isActive.value else selected.isActive),
      Some(NullableOr(edit.subject, selected.subject)))
  }

  /** The merged row: an emptied text field keeps the stored value, a
      false `is_active` is honoured, and id and email never change. */
  lemma MergeSpec(selected: Profile, edit: Edit)
    ensures var r := ApplyProfileUpdate(selected, Merge(selected, edit));
      r.id == selected.id && r.email == selected.email
      && (edit.fullName == Some("") || edit.fullName.None? ==> r.fullName == selected.fullName)
      && (edit.fullName.Some? && edit.fullName.value != "" ==> r.fullName == edit.fullName)
      && (r.role == if edit.role.Some? && edit.role.value != "" then edit.role.value else selected.role)
      && (edit.isActive.Some? ==> r.isActive == edit.isActive.value)
      && (edit.isActive.None? ==> r.isActive == selected.isActive)
      && (edit.subject == Some("") || edit.subject.None? ==> r.subject == selected.subject)
      && (edit.subject.Some? && edit.subject.value != "" ==> r.subject == edit.subject)
    ensures Merge(selected, NoEdit) == ProfileUpdate(Some(selected.fullName), Some(selected.role),
                                                     Some(selected.isActive), Some(selected.subject))
  {
  }

  /** `setEditData(user)` when a user is picked: every field of the edit
      holds that user's value, a `null` name or subject included. */
  function EditOf(u: Profile): (e: Edit)
    ensures e.role == Some(u.role) && e.isActive == Some(u.isActive)
    ensures e.fullName == u.fullName && e.subject == u.subject
  {
    Edit(u.fullName, Some(u.role), Some(u.isActive), u.subject)
  }

  /** Saving a freshly picked user without touching a field sends the same
      update as an empty edit would, and writes the listed values back onto
      the stored row of that id. */
  lemma PickedEditWritesListed(u: Profile, stored: Profile)
    ensures Merge(u, EditOf(u)) == Merge(u, NoEdit)
    ensures ApplyProfileUpdate(stored, Merge(u, EditOf(u)))
      == stored.(fullName := u.fullName, role := u.role, isActive := u.isActive, subject := u.subject)
    ensures ApplyProfileUpdate(u, Merge(u, EditOf(u))) == u
  {
  }

  /** `handleToggleActive`: `is_active` set to the opposite of the shown
      status. */
  function Toggle(current: bool): ProfileUpdate
  {
    ProfileUpdate(None, None, Some(!current), None)
  }

  /** The soft delete: `is_active` set to false. */
  const Deactivate := ProfileUpdate(None, None, Some(false), None)

  /** Both send the `is_active` column alone. */
  lemma ActiveColumnOnly(current: bool)
    ensures ProfileColumns(Toggle(current)) == ["is_active"]
    ensures ProfileColumns(Deactivate) == ["is_active"]
  {
  }

  /** Toggling a user whose rows all show `current`, and then toggling
      again from the new status, restores the table. */
  lemma ToggleTwice(t: seq<Profile>, id: Id, current: bool)
    requires forall p :: p in t && p.id == id ==> p.isActive == current
    ensures UpdateProfiles(UpdateProfiles(t, id, Toggle(current)), id, Toggle(!current)) == t
  {
    var once := UpdateProfiles(t, id, Toggle(current));
    var twice := UpdateProfiles(once, id, Toggle(!current));
    forall i | 0 <= i < |t|
      ensures twice[i] == t[i]
    {
      if t[i].id == id {
        assert t[i] in t;
      }
    }
  }

  /** A deleted user keeps a row, now inactive, and is signed out and sent
      to the login page on the next request, whatever the path. */
  lemma DeletedUserIsSignedOut(t: seq<Profile>, id: Id, path: string)
    ensures var r := UpdateProfiles(t, id, Deactivate);
      |r| == |t| && Ids(r, ProfileId) == Ids(t, ProfileId)
      && forall p :: p in r && p.id == id ==>
           !p.isActive && Access.Route(Some(id), path, Some(p)) == Access.Redirect(Access.LoginPath, true)
  {
    var r := UpdateProfiles(t, id, Deactivate);
    forall p | p in r && p.id == id
      ensures !p.isActive
    {
      var i :| 0 <= i < |r| && r[i] == p;
    }
    Access.TargetPrefixes();
  }

  /** `!newPassword || newPassword.length < 6`. */
  predicate PasswordRejected(password: string)
  {
    password == "" || |password| < ChangePassword.MinLength
  }

  /** A password the page lets through also passes the endpoint's input
      checks, and one it rejects the endpoint would reject too. */
  lemma PasswordGuardMatchesEndpoint(id: Id, password: string, caller: Option<string>, role: Option<string>,
                                     upstream: ChangePassword.Upstream)
    requires id != ""
    ensures var r := ChangePassword.Post(ChangePassword.Json(ChangePassword.Body(Some(id), Some(password))), caller, role, upstream);
      PasswordRejected(password) <==> r.status == 400
  {
  }

  /** `user.email.includes(term) || (user.full_name || "").includes(term)`. */
  predicate Matches(u: Profile, term: string)
  {
    Contains(u.email, term) || Contains(Or(u.fullName, ""), term)
  }

  /** `filteredUsers`: the users the search matches, in list order. */
  function FilteredUsers(users: seq<Profile>, term: string): (r: seq<Profile>)
    ensures forall u :: u in r <==> u in users && Matches(u, term)
  {
    Filter((u: Profile) => Matches(u, term), users)
  }

  /** The search is case-sensitive substring search on the email or the
      full name (a missing name matches only the empty term), and the empty
      term keeps every user in order. */
  lemma FilteredUsersSpec(users: seq<Profile>, term: string)
    ensures forall u :: u in FilteredUsers(users, term) <==>
      u in users && ((exists i :: 0 <= i <= |u.email| && term <= u.email[i..])
                     || (exists i :: 0 <= i <= |Or(u.fullName, "")| && term <= Or(u.fullName, "")[i..]))
    ensures FilteredUsers(users, "") == users
  {
    forall u: Profile
      ensures Matches(u, term) <==>
        ((exists i :: 0 <= i <= |u.email| && term <= u.email[i..])
         || (exists i :: 0 <= i <= |Or(u.fullName, "")| && term <= Or(u.fullName, "")[i..]))
    {
      ContainsAt(u.email, term);
      ContainsAt(Or(u.fullName, ""), term);
    }
    FilterKeepsAll((u: Profile) => Matches(u, ""), users);
  }

  // ---------------------------------------------------------------------
  // The page

  class AdminSettingsPage {
    var users: seq<Profile>
    var searchTerm: string
    var selectedUser: Option<Profile>
    var editData: Edit
    var newPassword: string
    var showPasswordField: bool

    constructor ()
      ensures users == [] && searchTerm == "" && selectedUser.None? && editData == NoEdit
      ensures newPassword == "" && !showPasswordField
    {
      users, searchTerm, selectedUser, editData := [], "", None, NoEdit;
      newPassword, showPasswordField := "", false;
    }

    /** `fetchUsers`: the profiles, or the old list after a failed read. */
    method FetchUsers(db: Db, ok: bool)
      modifies this`users, db`log
      ensures db.log == old(db.log) + [Select(Profiles)]
      ensures users == if ok then db.profiles else old(users)
    {
      db.Read(Profiles);
      if ok {
        users := db.profiles;
      }
    }

    /** Picking a user in the list: `setSelectedUser(user); setEditData(user)`. */
    method SelectUser(u: Profile)
      modifies this`selectedUser, this`editData
      ensures selectedUser == Some(u) && editData == EditOf(u)
    {
      selectedUser, editData := Some(u), EditOf(u);
    }

    /** `handleUpdateUser`: without a selected user nothing happens;
        otherwise the merged update is written by id and, once it
        succeeds, the selection and edit are cleared and the list is read
        again. A failed write changes nothing on the page. */
    method HandleUpdateUser(db: Db, ok: bool, refetchOk: bool)
      requires db.Valid()
      modifies this`users, this`selectedUser, this`editData, db`profiles, db`log
      ensures db.Valid()
      ensures old(selectedUser).None? ==>
        db.log == old(db.log) && db.profiles == old(db.profiles) && users == old(users)
        && selectedUser == old(selectedUser) && editData == old(editData)
      ensures old(selectedUser).Some? ==>
        var u := Merge(old(selectedUser).value, old(editData));
        var id := old(selectedUser).value.id;
        db.log == old(db.log) + [Update(Profiles, id, ProfileColumns(u))] + (if ok then [Select(Profiles)] else [])
        && db.profiles == (if ok then UpdateProfiles(old(db.profiles), id, u) else old(db.profiles))
        && (ok ==> selectedUser.None? && editData == NoEdit
                   && users == if refetchOk then db.profiles else old(users))
        && (!ok ==> selectedUser == old(selectedUser) && editData == old(editData) && users == old(users))
    {
      if selectedUser.None? {
        return;
      }
      var u := Merge(selectedUser.value, editData);
      db.UpdateProfile(selectedUser.value.id, u, ok);
      if !ok {
        return;
      }
      selectedUser, editData := None, NoEdit;
      FetchUsers(db, refetchOk);
    }

    /** `handleToggleActive`: `is_active` flipped from the shown status,
        then the list read again. */
    method HandleToggleActive(db: Db, userId: Id, current: bool, ok: bool, refetchOk: bool)
      requires db.Valid()
      modifies this`users, db`profiles, db`log
      ensures db.Valid()
      ensures db.log == old(db.log) + [Update(Profiles, userId, ["is_active"])] + (if ok then [Select(Profiles)] else [])
      ensures db.profiles == if ok then UpdateProfiles(old(db.profiles), userId, Toggle(current)) else old(db.profiles)
      ensures users == if ok && refetchOk then db.profiles else old(users)
    {
      ActiveColumnOnly(current);
      db.UpdateProfile(userId, Toggle(current), ok);
      if ok {
        FetchUsers(db, refetchOk);
      }
    }

    /** `handleDeleteUser`: after the confirmation, `is_active` set to
        false and, once that succeeds, the delete endpoint called without
        looking at its answer, and the list read again. The profile row
        stays. */
    method HandleDeleteUser(db: Db, userId: Id, confirmed: bool, ok: bool, refetchOk: bool)
      requires db.Valid()
      modifies this`users, db`profiles, db`log
      ensures db.Valid()
      ensures !confirmed ==> db.log == old(db.log) && db.profiles == old(db.profiles) && users == old(users)
      ensures confirmed ==>
        db.log == old(db.log) + [Update(Profiles, userId, ["is_active"])]
                  + (if ok then [Request("/api/auth/delete-user"), Select(Profiles)] else [])
        && db.profiles == (if ok then UpdateProfiles(old(db.profiles), userId, Deactivate) else old(db.profiles))
        && users == if ok && refetchOk then db.profiles else old(users)
    {
      if !confirmed {
        return;
      }
      ActiveColumnOnly(false);
      db.UpdateProfile(userId, Deactivate, ok);
      if ok {
        db.Post("/api/auth/delete-user");
        FetchUsers(db, refetchOk);
        assert db.log == old(db.log) + [Update(Profiles, userId, ["is_active"])]
                         + [Request("/api/auth/delete-user"), Select(Profiles)];
      }
    }

    /** `handleChangePassword`: nothing without a selected user; a password
        that is empty or under six characters is refused before any
        request; after the confirmation the endpoint is called and, when it
        accepts, the password field is cleared and hidden. */
    method HandleChangePassword(db: Db, confirmed: bool, accepted: bool) returns (requested: bool)
      modifies this`newPassword, this`showPasswordField, db`log
      ensures requested <==> old(selectedUser).Some? && !PasswordRejected(old(newPassword)) && confirmed
      ensures db.log == old(db.log) + (if requested then [Request("/api/auth/change-password")] else [])
      ensures requested && accepted ==> newPassword == "" && !showPasswordField
      ensures !(requested && accepted) ==>
        newPassword == old(newPassword) && showPasswordField == old(showPasswordField)
    {
      requested := false;
      if selectedUser.None? || PasswordRejected(newPassword) || !confirmed {
        return;
      }
      requested := true;
      db.Post("/api/auth/change-password");
      if accepted {
        newPassword, showPasswordField := "", false;
      }
    }
  }
}
