/** Sign-up (`POST /auth`): the input check that runs before the server looks
    the e-mail address up in the `users` collection. */
module Auth {
  import opened Wrappers

  /** The posted form; a field the browser did not send is missing. */
  datatype SignUpForm = SignUpForm(name: Option<string>, email: Option<string>, password: Option<string>)

  /** The shortest password sign-up accepts. */
  const MinPasswordLength: nat := 6

  /** What the route answers. `Registered` carries the session it starts. */
  datatype SignUpOutcome = InvalidInput | EmailAlreadyExists | Registered(username: string, email: string)

  /** JavaScript's `!field` for a form field: missing or the empty string. */
  predicate Blank(field: Option<string>) {
    field.None? || field.value == ""
  }

  /** The accepted input, stated positively: a non-empty name and e-mail, and a
      password of at least six characters. */
  predicate AcceptableSignUp(form: SignUpForm) {
    form.name.Some? && |form.name.value| > 0 &&
    form.email.Some? && |form.email.value| > 0 &&
    form.password.Some? && |form.password.value| >= MinPasswordLength
  }

  /** The route's decision. `emailTaken` is what the `users` query answers.
      Invalid input is refused exactly when the input is not acceptable; an
      acceptable sign-up is refused only for an e-mail already registered;
      otherwise the session holds the posted name and e-mail. */
  function SignUp(form: SignUpForm, emailTaken: bool): (outcome: SignUpOutcome)
    ensures outcome == InvalidInput <==> !AcceptableSignUp(form)
    ensures outcome == EmailAlreadyExists <==> AcceptableSignUp(form) && emailTaken
    ensures outcome.Registered? <==> AcceptableSignUp(form) && !emailTaken
    ensures outcome.Registered? ==> outcome == Registered(form.name.value, form.email.value)
  {
    if Blank(form.name) || Blank(form.email) || Blank(form.password) ||
       |form.password.value| < MinPasswordLength
    then InvalidInput
    else if emailTaken then EmailAlreadyExists
    else Registered(form.name.value, form.email.value)
  }

  /** The input check decides before the store is consulted: whether sign-up is
      refused as invalid does not depend on what the `users` query would answer. */
  lemma SignUpChecksBeforeStore(form: SignUpForm, emailTaken: bool)
    ensures SignUp(form, emailTaken) == InvalidInput <==> SignUp(form, !emailTaken) == InvalidInput
    ensures SignUp(form, emailTaken) == InvalidInput ==> SignUp(form, emailTaken) == SignUp(form, !emailTaken)
  {
  }

  /** A five-character password is refused; a six-character one is not. */
  lemma PasswordBoundary()
    ensures SignUp(SignUpForm(Some("Ann"), Some("ann@x.com"), Some("12345")), false) == InvalidInput
    ensures SignUp(SignUpForm(Some("Ann"), Some("ann@x.com"), Some("123456")), false) == Registered("Ann", "ann@x.com")
  {
  }
}
