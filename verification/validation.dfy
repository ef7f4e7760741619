/** Request-body validators run before the register and login handlers. */
module AuthValidation {
  import opened Wrappers
  import opened Messages
  import opened Types

  /** A validator either lets the request through or throws a bad-request error. */
  datatype Verdict = Valid | Invalid(failure: Failure)

  /** `request.body || {}`: a missing body reads as one with every field absent. */
  function RegisterFields(body: Option<RawRegisterBody>): (b: RawRegisterBody)
    ensures body.None? ==> b.email.None? && b.password.None? && b.firstName.None? && b.lastName.None? && b.role.None?
    ensures body.Some? ==> b == body.value
  {
    if body.Some? then body.value else RawRegisterBody(None, None, None, None, None)
  }

  function LoginFields(body: Option<RawLoginBody>): (b: RawLoginBody)
    ensures body.None? ==> b.email.None? && b.password.None?
    ensures body.Some? ==> b == body.value
  {
    if body.Some? then body.value else RawLoginBody(None, None)
  }

  /**
   * Registration needs a non-empty email and password first, then non-empty names and
   * role. The role is only checked for being non-empty, not for being a known role.
   */
  function ValidateRegisterBody(body: Option<RawRegisterBody>): (r: Verdict)
    ensures var b := RegisterFields(body);
      r.Valid? <==> Truthy(b.email) && Truthy(b.password) && Truthy(b.firstName) && Truthy(b.lastName) && Truthy(b.role)
    ensures var b := RegisterFields(body);
      r == Invalid(Failure(BadRequest, EmailPasswordRequired)) <==> !Truthy(b.email) || !Truthy(b.password)
    ensures var b := RegisterFields(body);
      r == Invalid(Failure(BadRequest, MissingRequiredFields)) <==>
        Truthy(b.email) && Truthy(b.password) && (!Truthy(b.firstName) || !Truthy(b.lastName) || !Truthy(b.role))
  {
    var b := RegisterFields(body);
    if !Truthy(b.email) || !Truthy(b.password) then Invalid(Failure(BadRequest, EmailPasswordRequired))
    else if !Truthy(b.firstName) || !Truthy(b.lastName) || !Truthy(b.role) then
      Invalid(Failure(BadRequest, MissingRequiredFields))
    else Valid
  }

  /** Login needs a non-empty email and password. */
  function ValidateLoginBody(body: Option<RawLoginBody>): (r: Verdict)
    ensures var b := LoginFields(body);
      r.Valid? <==> Truthy(b.email) && Truthy(b.password)
    ensures r.Invalid? ==> r.failure == Failure(BadRequest, EmailPasswordRequired)
  {
    var b := LoginFields(body);
    if !Truthy(b.email) || !Truthy(b.password) then Invalid(Failure(BadRequest, EmailPasswordRequired))
    else Valid
  }

  /** A missing body is rejected by both validators, with the email/password error. */
  lemma MissingBodyRejected()
    ensures ValidateRegisterBody(None) == Invalid(Failure(BadRequest, EmailPasswordRequired))
    ensures ValidateLoginBody(None) == Invalid(Failure(BadRequest, EmailPasswordRequired))
  {
  }

  /** When both field groups are missing, the email/password error is the one reported. */
  lemma CredentialErrorTakesPrecedence(b: RawRegisterBody)
    requires !Truthy(b.email) && !Truthy(b.firstName)
    ensures ValidateRegisterBody(Some(b)) == Invalid(Failure(BadRequest, EmailPasswordRequired))
  {
  }

  /** A body that passes registration validation carries credentials that pass login validation. */
  lemma RegisterValidImpliesLoginValid(b: RawRegisterBody)
    requires ValidateRegisterBody(Some(b)).Valid?
    ensures ValidateLoginBody(Some(RawLoginBody(b.email, b.password))).Valid?
  {
  }

  /** Any non-empty role passes, including the admin role a registering user is not typed to choose. */
  lemma AnyRoleAccepted(first: string, last: string, email: string, password: string, role: string)
    requires first != "" && last != "" && email != "" && password != "" && role != ""
    ensures ValidateRegisterBody(Some(RawRegisterBody(Some(first), Some(last), Some(email), Some(password), Some(role)))).Valid?
    ensures ValidateRegisterBody(Some(RawRegisterBody(Some(first), Some(last), Some(email), Some(password),
                                                       Some(RoleName(Admin))))).Valid?
  {
  }
}
