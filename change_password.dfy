/** The password-change form: three checks in a fixed order before the
    change request is sent. */
module ChangePassword {

  datatype PasswordForm = PasswordForm(
    role: string,
    userId: string,
    currentPassword: string,
    newPassword: string,
    confirmPassword: string)

  /** The body of `POST /api/auth/change-password`; the confirmation is not sent. */
  datatype ChangeRequest = ChangeRequest(role: string, userId: string, currentPassword: string, newPassword: string)

  datatype PasswordCheck = FillAllFields | PasswordsDoNotMatch | MustBeDifferent | SendChange(request: ChangeRequest)

  predicate AllFilled(f: PasswordForm)
  {
    f.role != [] && f.userId != [] && f.currentPassword != [] && f.newPassword != [] && f.confirmPassword != []
  }

  /** handleChangePassword up to the request: an empty field first, then a
      confirmation that differs, then a new password equal to the current
      one; only a form passing all three is sent. */
  function CheckPasswordChange(f: PasswordForm): (r: PasswordCheck)
    ensures r == FillAllFields <==> !AllFilled(f)
    ensures r == PasswordsDoNotMatch <==> AllFilled(f) && f.newPassword != f.confirmPassword
    ensures r == MustBeDifferent <==>
      AllFilled(f) && f.newPassword == f.confirmPassword && f.newPassword == f.currentPassword
    ensures r.SendChange? <==>
      AllFilled(f) && f.newPassword == f.confirmPassword && f.newPassword != f.currentPassword
    ensures r.SendChange? ==>
      r.request == ChangeRequest(f.role, f.userId, f.currentPassword, f.newPassword)
  {
    if f.role == [] || f.userId == [] || f.currentPassword == [] || f.newPassword == [] || f.confirmPassword == [] then
      FillAllFields
    else if f.newPassword != f.confirmPassword then PasswordsDoNotMatch
    else if f.newPassword == f.currentPassword then MustBeDifferent
    else SendChange(ChangeRequest(f.role, f.userId, f.currentPassword, f.newPassword))
  }

  /** The error toast each refusal shows. */
  function RefusalText(r: PasswordCheck): string
  {
    match r
    case FillAllFields => "Please fill all fields"
    case PasswordsDoNotMatch => "New passwords do not match"
    case MustBeDifferent => "New password must be different"
    case SendChange(_) => ""
  }

  /** Whatever is sent has a non-empty new password that differs from the
      current one and was typed twice alike. */
  lemma SentRequestIsSound(f: PasswordForm)
    requires CheckPasswordChange(f).SendChange?
    ensures var q := CheckPasswordChange(f).request;
      q.newPassword != [] && q.newPassword != q.currentPassword && q.newPassword == f.confirmPassword
  {
  }
}
