/**
 * The authentication forms' validators (flaskr/auth.py) and the test a
 * password-reset link goes through before its form is shown.
 */
module Auth {
  import opened Wrappers
  import opened Text
  import opened Messages
  import opened Checks
  import opened Storage
  import Json
  import UserForms

  /** The login form; the password is checked against its hash afterwards. */
  datatype LoginForm = LoginForm(email: string)           // 'log-email'

  /** The forgot-password form. */
  datatype ForgotPasswordForm = ForgotPasswordForm(email: string)  // 'forgot-pass-email'

  /** `validate_login_data`: the only error is an e-mail without '@' or without '.'. */
  function ValidateLogin(f: LoginForm): (errors: seq<ErrorKey>)
    ensures errors == (if UserForms.EmailLooksValid(f.email) then [] else [AuthInvalidEmail])
  {
    Flag(!UserForms.EmailLooksValid(f.email), AuthInvalidEmail)
  }

  /** `validate_forgot_password_data`: the same e-mail rule as the login form. */
  function ValidateForgotPassword(f: ForgotPasswordForm): (errors: seq<ErrorKey>)
    ensures errors == ValidateLogin(LoginForm(f.email))
  {
    Flag(!UserForms.EmailLooksValid(f.email), AuthInvalidEmail)
  }

  /** The registration form. */
  datatype RegisterForm = RegisterForm(
    firstName: string,          // 'reg-fn'
    lastName: string,           // 'reg-ln'
    email: string,              // 'reg-email'
    password: string,           // 'reg-pass'
    passwordConfirm: string,    // 'reg-pass-confirm'
    phone: string,              // 'reg-ph'
    regCheckbox: Json.Value)    // 'reg-reg-checkbox'

  /** The registration checks, in the order `validate_register_data` makes them. */
  const RegisterChecks: seq<ErrorKey> := [
    AuthInvalidName, AuthInvalidLastName, AuthInvalidEmail, AuthInvalidPassLowerCase,
    AuthInvalidPassUpperCase, AuthInvalidPassDigit, AuthInvalidPhone, AuthInvalidPassLength,
    AuthInvalidPassConfirm, AuthInvalidRegCheckbox]

  /** `validate_register_data`; `minLength` is the configured minimum password length. */
  function ValidateRegister(f: RegisterForm, minLength: int): (errors: seq<ErrorKey>)
    ensures IsSubseq(errors, RegisterChecks) && NoDup(errors) && |errors| <= 10
    ensures AuthInvalidName in errors <==> !(1 <= |f.firstName| <= 45)
    ensures AuthInvalidLastName in errors <==> !(1 <= |f.lastName| <= 255)
    ensures AuthInvalidEmail in errors <==> !UserForms.EmailLooksValid(f.email)
    ensures AuthInvalidPassLowerCase in errors <==> !HasLower(f.password)
    ensures AuthInvalidPassUpperCase in errors <==> !HasUpper(f.password)
    ensures AuthInvalidPassDigit in errors <==> !HasDigit(f.password)
    ensures AuthInvalidPhone in errors <==> !HasDigit(f.phone) || |f.phone| > 20
    ensures AuthInvalidPassLength in errors <==> |f.password| < minLength
    ensures AuthInvalidPassConfirm in errors <==> f.password != f.passwordConfirm
    ensures AuthInvalidRegCheckbox in errors <==> !Json.EqualsTrue(f.regCheckbox)
  {
    RegisterErrors(RegisterFailures(f, minLength))
  }

  /** The error list of the registration checks, given which of them failed. */
  function RegisterErrors(failed: seq<bool>): (errors: seq<ErrorKey>)
    requires |failed| == |RegisterChecks|
    ensures IsSubseq(errors, RegisterChecks) && NoDup(errors) && |errors| <= 10
    ensures AuthInvalidName in errors <==> failed[0]
    ensures AuthInvalidLastName in errors <==> failed[1]
    ensures AuthInvalidEmail in errors <==> failed[2]
    ensures AuthInvalidPassLowerCase in errors <==> failed[3]
    ensures AuthInvalidPassUpperCase in errors <==> failed[4]
    ensures AuthInvalidPassDigit in errors <==> failed[5]
    ensures AuthInvalidPhone in errors <==> failed[6]
    ensures AuthInvalidPassLength in errors <==> failed[7]
    ensures AuthInvalidPassConfirm in errors <==> failed[8]
    ensures AuthInvalidRegCheckbox in errors <==> failed[9]
  {
    ChecksAreDistinct();
    CollectOrder(failed, RegisterChecks);
    CollectHas(failed, RegisterChecks, 0, AuthInvalidName);
    CollectHas(failed, RegisterChecks, 1, AuthInvalidLastName);
    CollectHas(failed, RegisterChecks, 2, AuthInvalidEmail);
    CollectHas(failed, RegisterChecks, 3, AuthInvalidPassLowerCase);
    CollectHas(failed, RegisterChecks, 4, AuthInvalidPassUpperCase);
    CollectHas(failed, RegisterChecks, 5, AuthInvalidPassDigit);
    CollectHas(failed, RegisterChecks, 6, AuthInvalidPhone);
    CollectHas(failed, RegisterChecks, 7, AuthInvalidPassLength);
    CollectHas(failed, RegisterChecks, 8, AuthInvalidPassConfirm);
    CollectHas(failed, RegisterChecks, 9, AuthInvalidRegCheckbox);
    Collect(failed, RegisterChecks)
  }

  /** The registration checks all pass. */
  predicate RegisterFormValid(f: RegisterForm, minLength: int) {
    && 1 <= |f.firstName| <= 45 && 1 <= |f.lastName| <= 255 && UserForms.EmailLooksValid(f.email)
    && HasLower(f.password) && HasUpper(f.password) && HasDigit(f.password)
    && HasDigit(f.phone) && |f.phone| <= 20 && |f.password| >= minLength
    && f.password == f.passwordConfirm && Json.EqualsTrue(f.regCheckbox)
  }

  /** A registration form is accepted exactly when every one of its checks passes. */
  lemma RegisterAccepted(f: RegisterForm, minLength: int)
    ensures ValidateRegister(f, minLength) == [] <==> RegisterFormValid(f, minLength)
  {
    var errors := ValidateRegister(f, minLength);
    if RegisterFormValid(f, minLength) {
      SubseqMembers(errors, RegisterChecks);
    }
  }

  /** Which of the registration checks fail, in check order. */
  function RegisterFailures(f: RegisterForm, minLength: int): seq<bool> {
    [f.firstName == "" || |f.firstName| > 45,
     f.lastName == "" || |f.lastName| > 255,
     !UserForms.EmailLooksValid(f.email),
     !HasLower(f.password),
     !HasUpper(f.password),
     !HasDigit(f.password),
     !HasDigit(f.phone) || |f.phone| > 20,
     |f.password| < minLength,
     f.password != f.passwordConfirm,
     !Json.EqualsTrue(f.regCheckbox)]
  }

  /** The form behind a password-reset link. */
  datatype NewPasswordForm = NewPasswordForm(
    password: string,           // 'new-pass'
    passwordConfirm: string,    // 'new-pass-confirm'
    token: string)              // 'new-pass-token'

  const NewPasswordChecks: seq<ErrorKey> := [
    AuthInvalidPassLowerCase, AuthInvalidPassUpperCase, AuthInvalidPassDigit,
    AuthInvalidPassLength, AuthInvalidPassConfirm]

  /** `validate_new_password_data`: the password checks of registration, without a checkbox. */
  function ValidateNewPassword(f: NewPasswordForm, minLength: int): (errors: seq<ErrorKey>)
    ensures IsSubseq(errors, NewPasswordChecks) && NoDup(errors)
    ensures AuthInvalidPassLowerCase in errors <==> !HasLower(f.password)
    ensures AuthInvalidPassUpperCase in errors <==> !HasUpper(f.password)
    ensures AuthInvalidPassDigit in errors <==> !HasDigit(f.password)
    ensures AuthInvalidPassLength in errors <==> |f.password| < minLength
    ensures AuthInvalidPassConfirm in errors <==> f.password != f.passwordConfirm
  {
    var failed := NewPasswordFailures(f, minLength);
    ChecksAreDistinct();
    CollectOrder(failed, NewPasswordChecks);
    CollectHas(failed, NewPasswordChecks, 0, AuthInvalidPassLowerCase);
    CollectHas(failed, NewPasswordChecks, 1, AuthInvalidPassUpperCase);
    CollectHas(failed, NewPasswordChecks, 2, AuthInvalidPassDigit);
    CollectHas(failed, NewPasswordChecks, 3, AuthInvalidPassLength);
    CollectHas(failed, NewPasswordChecks, 4, AuthInvalidPassConfirm);
    Collect(failed, NewPasswordChecks)
  }

  /** Which of the new-password checks fail, in check order. */
  function NewPasswordFailures(f: NewPasswordForm, minLength: int): seq<bool> {
    [!HasLower(f.password),
     !HasUpper(f.password),
     !HasDigit(f.password),
     |f.password| < minLength,
     f.password != f.passwordConfirm]
  }

  /** The keys of the password checks that registration and password reset share. */
  const PasswordKeys: set<ErrorKey> := {
    AuthInvalidPassLowerCase, AuthInvalidPassUpperCase, AuthInvalidPassDigit,
    AuthInvalidPassLength, AuthInvalidPassConfirm}

  /**
   * Resetting a password reports exactly the password errors registration
   * would report for the same password and confirmation, in the same order.
   */
  lemma NewPasswordMatchesRegistration(r: RegisterForm, token: string, minLength: int)
    ensures ValidateNewPassword(NewPasswordForm(r.password, r.passwordConfirm, token), minLength)
         == Keep(ValidateRegister(r, minLength), PasswordKeys)
  {
    var a := ValidateNewPassword(NewPasswordForm(r.password, r.passwordConfirm, token), minLength);
    var reg := ValidateRegister(r, minLength);
    assert forall k :: k in PasswordKeys ==> (k in a <==> k in reg);
    PasswordErrorsAreKept(a, reg);
  }

  /**
   * A list in new-password order and a list in registration order that
   * agree on the password keys: the first is the second's password keys.
   */
  lemma PasswordErrorsAreKept(a: seq<ErrorKey>, reg: seq<ErrorKey>)
    requires IsSubseq(a, NewPasswordChecks) && IsSubseq(reg, RegisterChecks)
    requires forall k :: k in PasswordKeys ==> (k in a <==> k in reg)
    ensures a == Keep(reg, PasswordKeys)
  {
    var b := Keep(reg, PasswordKeys);
    NewPasswordChecksInRegistrationOrder();
    ChecksAreDistinct();
    SubseqTrans(a, NewPasswordChecks, RegisterChecks);
    KeepFacts(reg, PasswordKeys);
    SubseqTrans(b, reg, RegisterChecks);
    SubseqMembers(a, NewPasswordChecks);
    SubseqUnique(a, b, RegisterChecks);
  }

  /** Each form's checks report distinct keys. */
  lemma ChecksAreDistinct()
    ensures NoDup(RegisterChecks) && NoDup(NewPasswordChecks)
  {
  }

  /** The new-password checks come in the order registration makes them. */
  lemma NewPasswordChecksInRegistrationOrder()
    ensures IsSubseq(NewPasswordChecks, RegisterChecks)
  {
  }

  /** A password that differs from its confirmation is reported, whatever else the form holds. */
  lemma MismatchAlwaysReported(f: RegisterForm, minLength: int)
    requires f.password != f.passwordConfirm
    ensures AuthInvalidPassConfirm in ValidateRegister(f, minLength)
  {
  }

  /** The expiry test of a reset token created at `creationTime`, `ttl` seconds long, at time `now`. */
  predicate TokenExpired(creationTime: int, ttl: int, now: int) {
    creationTime + ttl < now
  }

  /** A token is still valid up to and including the instant `creationTime + ttl`. */
  lemma TokenValidAtDeadline(creationTime: int, ttl: int, now: int)
    ensures !TokenExpired(creationTime, ttl, now) <==> now <= creationTime + ttl
  {
  }

  /** The first row with a given token, as `fetchone` returns it. */
  function FindToken(tokens: seq<TokenRow>, token: string): (r: Option<TokenRow>)
    ensures r.None? <==> forall row :: row in tokens ==> row.token != token
    ensures r.Some? ==> r.value in tokens && r.value.token == token
    decreases |tokens|
  {
    if tokens == [] then None
    else if tokens[0].token == token then Some(tokens[0])
    else
      assert forall row :: row in tokens ==> row == tokens[0] || row in tokens[1..];
      FindToken(tokens[1..], token)
  }

  /** The row found is the first that carries the token. */
  lemma {:induction false} FindTokenIsFirst(tokens: seq<TokenRow>, token: string, i: nat)
    requires FindToken(tokens, token).Some?
    requires i < |tokens| && tokens[i].token == token
    ensures exists k :: 0 <= k <= i && tokens[k] == FindToken(tokens, token).value
    decreases |tokens|
  {
    if tokens[0].token != token {
      FindTokenIsFirst(tokens[1..], token, i - 1);
      var k :| 0 <= k <= i - 1 && tokens[1..][k] == FindToken(tokens[1..], token).value;
      assert tokens[k + 1] == tokens[1..][k];
    }
  }

  /** What the GET of a reset link renders. */
  datatype ResetLinkPage = LinkNotFound | LinkExpired | NewPasswordPage(token: string)

  /** The page a reset link leads to, given the token table `tokens`. */
  function ResetLinkOutcome(tokens: seq<TokenRow>, token: string, ttl: int, now: int): (page: ResetLinkPage)
    ensures page == LinkNotFound <==> forall row :: row in tokens ==> row.token != token
    ensures page == LinkExpired <==>
      exists row :: row in tokens && row.token == token && TokenExpired(row.creationTime, ttl, now) &&
        FindToken(tokens, token) == Some(row)
    ensures page.NewPasswordPage? ==>
      page.token == token && FindToken(tokens, token).Some? &&
      !TokenExpired(FindToken(tokens, token).value.creationTime, ttl, now)
  {
    match FindToken(tokens, token)
    case None => LinkNotFound
    case Some(row) => if TokenExpired(row.creationTime, ttl, now) then LinkExpired else NewPasswordPage(token)
  }

  /**
   * The GET branch of `new_forgot_password`: an expired token is deleted
   * (every row carrying it) before the expiry page is shown.
   */
  method OpenResetLink(db: Database, token: string, ttl: int, now: int) returns (page: ResetLinkPage)
    modifies db`forgotPassTokens
    ensures page == ResetLinkOutcome(old(db.forgotPassTokens), token, ttl, now)
    ensures db.forgotPassTokens ==
      if page == LinkExpired then TokensWithout(old(db.forgotPassTokens), token) else old(db.forgotPassTokens)
  {
    var row := FindToken(db.forgotPassTokens, token);
    if row.None? {
      return LinkNotFound;
    }
    if TokenExpired(row.value.creationTime, ttl, now) {
      db.forgotPassTokens := TokensWithout(db.forgotPassTokens, token);
      return LinkExpired;
    }
    return NewPasswordPage(token);
  }
}
