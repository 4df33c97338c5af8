/** Password changes: the administrator endpoint that sets another user's
    password (app/api/auth/change-password/route.ts) and the page where a
    signed-in user changes their own (app/profile/change-password/page.tsx). */
module ChangePassword {
  import opened Common

  /** The shortest password either side accepts. */
  const MinLength := 6

  // ---------------------------------------------------------------------
  // The endpoint

  const MissingFields := "معرف المستخدم وكلمة المرور مطلوبان"
  const TooShortText := "كلمة المرور يجب أن تكون 6 أحرف على الأقل"
  const NotAuthorized := "غير مصرح لك بهذا الإجراء"
  const AdminsOnly := "هذه العملية متاحة للإداريين فقط"
  const UpdateFailed := "فشل تحديث كلمة المرور"
  const GenericFailure := "خطأ في تحديث كلمة المرور"
  const Updated := "تم تحديث كلمة المرور بنجاح"

  /** The request body's two fields; `None` stands for a missing field. */
  datatype Body = Body(userId: Option<string>, newPassword: Option<string>)

  /** The body as `request.json()` gives it, or the message of the error it
      throws. */
  datatype Parsed = Json(body: Body) | Malformed(message: string)

  /** The upstream password update: it succeeds, or fails with the message
      its error body carries (possibly empty). */
  datatype Upstream = UpstreamOk | UpstreamFailed(message: string)

  /** The password update the endpoint sends upstream. */
  datatype Put = Put(userId: string, password: string)

  /** The response: a status with an error text or the success message,
      and the update sent upstream, if any. */
  datatype Response = Response(status: int, message: string, put: Option<Put>)

  /** `!v`: a missing field or an empty string. */
  predicate Falsy(v: Option<string>)
  {
    v.None? || v.value == ""
  }

  /** `error.message || fallback`. */
  function MessageOr(message: string, fallback: string): (r: string)
    ensures fallback != "" ==> r != ""
    ensures message != "" ==> r == message
    ensures message == "" ==> r == fallback
  {
    if message != "" then message else fallback
  }

  /** `POST`: `caller` is the signed-in user, `callerRole` the role of that
      user's profile (`None` when it cannot be read), and `upstream` the
      outcome of the upstream update. */
  function Post(parsed: Parsed, caller: Option<string>, callerRole: Option<string>, upstream: Upstream): Response
  {
    match parsed
    case Malformed(m) => Response(500, MessageOr(m, GenericFailure), None)
    case Json(b) =>
      if Falsy(b.userId) || Falsy(b.newPassword) then Response(400, MissingFields, None)
      else if |b.newPassword.value| < MinLength then Response(400, TooShortText, None)
      else if caller.None? then Response(401, NotAuthorized, None)
      else if callerRole != Some("admin") then Response(403, AdminsOnly, None)
      else
        var put := Put(b.userId.value, b.newPassword.value);
        match upstream
        case UpstreamOk => Response(200, Updated, Some(put))
        case UpstreamFailed(m) => Response(500, MessageOr(m, UpdateFailed), Some(put))
  }

  /** The input checks come first: a request missing a field, or with a
      password under six characters, gets 400 whoever sends it, and nothing
      is sent upstream. Six characters are enough. */
  lemma PostValidation(b: Body, caller: Option<string>, callerRole: Option<string>, upstream: Upstream)
    ensures Falsy(b.userId) || Falsy(b.newPassword) ==>
      Post(Json(b), caller, callerRole, upstream) == Response(400, MissingFields, None)
    ensures !Falsy(b.userId) && !Falsy(b.newPassword) && |b.newPassword.value| < 6 ==>
      Post(Json(b), caller, callerRole, upstream) == Response(400, TooShortText, None)
    ensures !Falsy(b.userId) && b.newPassword.Some? && |b.newPassword.value| == 6 ==>
      Post(Json(b), caller, callerRole, upstream).status != 400
  {
  }

  /** With valid input: no caller gets 401, a caller whose profile is not
      an admin's (or cannot be read) gets 403, and only then does an update
      go upstream; its failure gives 500 with the upstream message or a
      default, its success 200. */
  lemma PostAuthorization(b: Body, caller: Option<string>, callerRole: Option<string>, upstream: Upstream)
    requires !Falsy(b.userId) && !Falsy(b.newPassword) && |b.newPassword.value| >= MinLength
    ensures var r := Post(Json(b), caller, callerRole, upstream);
      (caller.None? ==> r.status == 401)
      && (caller.Some? && callerRole != Some("admin") ==> r.status == 403)
      && (r.put.Some? <==> caller.Some? && callerRole == Some("admin"))
      && (r.put.Some? ==> r.put.value == Put(b.userId.value, b.newPassword.value))
      && (r.status == 200 <==> r.put.Some? && upstream.UpstreamOk?)
      && (r.put.Some? && upstream.UpstreamFailed? ==> r.status == 500 && r.message != "")
      && (caller.Some? && callerRole == Some("admin") && upstream.UpstreamFailed? ==>
            r.message == (if upstream.message != "" then upstream.message else UpdateFailed))
  {
  }

  /** An update goes upstream only for a valid request from an admin, and
      it carries exactly the requested user and password. */
  lemma PostSendsOnlyWhenAllowed(parsed: Parsed, caller: Option<string>, callerRole: Option<string>, upstream: Upstream)
    ensures var r := Post(parsed, caller, callerRole, upstream);
      r.put.Some? <==>
        parsed.Json? && !Falsy(parsed.body.userId) && !Falsy(parsed.body.newPassword)
        && |parsed.body.newPassword.value| >= MinLength && caller.Some? && callerRole == Some("admin")
    ensures var r := Post(parsed, caller, callerRole, upstream);
      r.put.Some? ==> r.put.value.password == parsed.body.newPassword.value
  {
  }

  // ---------------------------------------------------------------------
  // The page

  /** What `handleChangePassword` ends with. */
  datatype Outcome = Mismatch | TooShort | NoUser | Failed(message: string) | Changed

  /** The fields of the form. */
  datatype PasswordForm = PasswordForm(current: string, newPassword: string, confirm: string)

  /** The result of a submit: its outcome, the password sent to
      `updateUser` if one was, and the form afterwards (cleared on
      success). */
  datatype Submit = Submit(outcome: Outcome, sent: Option<string>, form: PasswordForm)

  /** `handleChangePassword`: `email` is the signed-in user's email, `None`
      when there is no user or no email; `updateError` is the update's
      error message, if it fails. */
  function HandleChangePassword(form: PasswordForm, email: Option<string>, updateError: Option<string>): Submit
  {
    if form.newPassword != form.confirm then Submit(Mismatch, None, form)
    else if |form.newPassword| < MinLength then Submit(TooShort, None, form)
    else if Falsy(email) then Submit(NoUser, None, form)
    else if updateError.Some? then Submit(Failed(updateError.value), Some(form.newPassword), form)
    else Submit(Changed, Some(form.newPassword), PasswordForm("", "", ""))
  }

  /** The mismatch check comes before the length check, and either one, or
      a missing user, stops the submit before any update; otherwise the new
      password, and nothing else, is sent. */
  lemma ChangePasswordGuards(form: PasswordForm, email: Option<string>, updateError: Option<string>)
    ensures var s := HandleChangePassword(form, email, updateError);
      (form.newPassword != form.confirm ==> s.outcome == Mismatch)
      && (form.newPassword == form.confirm && |form.newPassword| < MinLength ==> s.outcome == TooShort)
      && (s.sent.Some? <==> form.newPassword == form.confirm && |form.newPassword| >= MinLength && !Falsy(email))
      && (s.sent.Some? ==> s.sent.value == form.newPassword)
      && (s.outcome == Changed <==> s.sent.Some? && updateError.None?)
      && (s.outcome == Changed ==> s.form == PasswordForm("", "", ""))
  {
  }

  /** The current password is never checked: the submit does the same
      whatever it holds. */
  lemma CurrentPasswordIgnored(form: PasswordForm, other: string, email: Option<string>, updateError: Option<string>)
    ensures HandleChangePassword(form, email, updateError).outcome
         == HandleChangePassword(form.(current := other), email, updateError).outcome
    ensures HandleChangePassword(form, email, updateError).sent
         == HandleChangePassword(form.(current := other), email, updateError).sent
  {
  }

  /** The page's frame. */
  datatype Layout = Loading | AdminLayout | TeacherLayout

  /** `getUserRole`: with a user, the profile's role or "teacher" when it is
      missing or empty; without one the role stays unset. */
  function LoadedRole(signedIn: bool, profileRole: Option<string>): (r: Option<string>)
    ensures r.Some? <==> signedIn
    ensures r.Some? ==> r.value != ""
  {
    if signedIn then Some(Or(profileRole, "teacher")) else None
  }

  /** The frame the page renders for its role. */
  function LayoutFor(role: Option<string>): Layout
  {
    if role.None? || role.value == "" then Loading
    else if role.value == "admin" then AdminLayout
    else TeacherLayout
  }

  /** Only an admin gets the admin frame; a missing role and every other
      role get the teacher frame; without a user the page keeps loading. */
  lemma LayoutSpec(signedIn: bool, profileRole: Option<string>)
    ensures var l := LayoutFor(LoadedRole(signedIn, profileRole));
      (l == Loading <==> !signedIn)
      && (l == AdminLayout <==> signedIn && profileRole == Some("admin"))
      && (signedIn && (profileRole.None? || profileRole == Some("")) ==> l == TeacherLayout)
  {
  }
}
