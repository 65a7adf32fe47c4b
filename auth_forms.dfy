// The sign-up and sign-in forms of the client:
// frontend/src/pages/RegisterPage.jsx and frontend/src/pages/LoginPage.jsx.
// Both test the email with the unanchored pattern /\S+@\S+\.\S+/; the lemmas
// compare that test with the stored-email pattern of module UserModel.

module AuthForms {
  import opened Common
  import opened JsText
  import UserModel

  // ---------------------------------------------------------------------------
  // The client email test

  /** One match of `\S+@\S+\.\S+` spanning `s[a..e]`, with its '@' at `i` and
      its '.' at `j`. */
  ghost predicate MatchAt(s: string, a: int, i: int, j: int, e: int) {
    0 <= a < i && i + 1 < j && j + 1 < e <= |s|
    && NoSpace(s[a..i]) && s[i] == '@' && NoSpace(s[i + 1..j]) && s[j] == '.' && NoSpace(s[j + 1..e])
  }

  /** `/\S+@\S+\.\S+/.test(s)`, as the regular expression reads: a match
      somewhere in `s`. */
  ghost predicate LooseEmailRegex(s: string) {
    exists a, i, j, e :: MatchAt(s, a, i, j, e)
  }

  /** A match of the test with its '@' at `i` and its '.' at `j`: a non-space
      character before the '@', only non-space characters between, and a
      non-space character after the '.'. */
  predicate LooseAt(s: string, i: int, j: int) {
    0 < i && i + 1 < j && j + 1 < |s|
    && !IsSpace(s[i - 1]) && s[i] == '@' && NoSpace(s[i + 1..j]) && s[j] == '.' && !IsSpace(s[j + 1])
  }

  /** The test checked directly, over the positions of '@' and '.'. */
  predicate LooseEmail(s: string) {
    exists i, j | 0 < i < |s| && 0 < j < |s| :: LooseAt(s, i, j)
  }

  /** The direct check accepts exactly the strings in which the pattern finds a
      match. */
  lemma LooseEmailIsRegex(s: string)
    ensures LooseEmail(s) <==> LooseEmailRegex(s)
  {
    if LooseEmail(s) {
      LooseEmailMatches(s);
    }
    if LooseEmailRegex(s) {
      MatchIsLoose(s);
    }
  }

  lemma LooseEmailMatches(s: string)
    requires LooseEmail(s)
    ensures LooseEmailRegex(s)
  {
    var i, j :| 0 < i < |s| && 0 < j < |s| && LooseAt(s, i, j);
    assert s[i - 1..i] == [s[i - 1]] && s[j + 1..j + 2] == [s[j + 1]];
    assert MatchAt(s, i - 1, i, j, j + 2);
  }

  lemma MatchIsLoose(s: string)
    requires LooseEmailRegex(s)
    ensures LooseEmail(s)
  {
    var a, i, j, e :| MatchAt(s, a, i, j, e);
    assert s[i - 1] == s[a..i][i - 1 - a];
    assert s[j + 1] == s[j + 1..e][0];
    assert LooseAt(s, i, j);
  }

  lemma WordCharNotSpace(c: char)
    requires UserModel.IsWord(c) || UserModel.IsSeparator(c)
    ensures !IsSpace(c)
  {
  }

  lemma WordRunNoSpace(r: string)
    requires UserModel.WordRun(r)
    ensures NoSpace(r)
  {
    forall k | 0 <= k < |r| ensures !IsSpace(r[k]) {
      WordCharNotSpace(r[k]);
    }
  }

  /** An address of the schema's shape passes the client test at its '@' and
      its last '.'. */
  lemma ShapePassesClient(e: string)
    requires UserModel.EmailShape(e)
    ensures LooseEmail(e)
  {
    var i :| 0 <= i < |e| && e[i] == '@' && UserModel.WordRun(e[..i]) && UserModel.DomainShape(e[i + 1..]);
    DomainPassesClient(e, i);
  }

  lemma DomainPassesClient(e: string, i: int)
    requires 0 <= i < |e| && e[i] == '@' && UserModel.WordRun(e[..i]) && UserModel.DomainShape(e[i + 1..])
    ensures LooseEmail(e)
  {
    var d := e[i + 1..];
    if |d| >= 4 && d[|d| - 3] == '.' && UserModel.AllWord(d[|d| - 2..]) && UserModel.WordRun(d[..|d| - 3]) {
      TldPassesClient(e, i, 3);
    } else {
      TldPassesClient(e, i, 4);
    }
  }

  /** The case of a last segment of `n - 1` word characters. */
  lemma TldPassesClient(e: string, i: int, n: int)
    requires n == 3 || n == 4
    requires 0 <= i < |e| && e[i] == '@' && UserModel.WordRun(e[..i])
    requires var d := e[i + 1..];
      |d| > n && d[|d| - n] == '.' && UserModel.AllWord(d[|d| - n + 1..]) && UserModel.WordRun(d[..|d| - n])
    ensures LooseEmail(e)
  {
    var d := e[i + 1..];
    var j := |e| - n;
    assert d[..|d| - n] == e[i + 1..j];
    WordRunNoSpace(e[i + 1..j]);
    assert e[i - 1] == e[..i][i - 1];
    WordCharNotSpace(e[i - 1]);
    assert e[j] == d[|d| - n];
    assert e[j + 1] == d[|d| - n + 1..][0];
    WordCharNotSpace(e[j + 1]);
    assert LooseAt(e, i, j);
  }

  /** Lower-casing changes neither white space nor '@' and '.'. */
  lemma LowerKeepsTest(raw: string)
    requires LooseEmail(LowerAscii(raw))
    ensures LooseEmail(raw)
  {
    var e := LowerAscii(raw);
    var i, j :| 0 < i < |e| && 0 < j < |e| && LooseAt(e, i, j);
    forall k | i + 1 <= k < j ensures !IsSpace(raw[k]) {
      assert e[k] == e[i + 1..j][k - i - 1];
    }
    assert LooseAt(raw, i, j);
  }

  /** Every address the user schema stores passes the client test: the test
      is looser than the schema's pattern. */
  lemma StoredEmailPassesClient(raw: string)
    requires UserModel.StoredEmail(raw).Some?
    ensures LooseEmail(raw)
  {
    ShapePassesClient(LowerAscii(raw));
    LowerKeepsTest(raw);
  }

  /** The client test lets through addresses the schema refuses: "a@b.c" has a
      one-letter top-level domain. */
  lemma LooseEmailTooLoose()
    ensures LooseEmail("a@b.c")
    ensures UserModel.StoredEmail("a@b.c").None?
  {
    var s := "a@b.c";
    assert s[2..3] == "b";
    assert LooseAt(s, 1, 3);
    ShortDomainRefused();
  }

  lemma ShortDomainRefused()
    ensures UserModel.StoredEmail("a@b.c").None?
  {
    var s := "a@b.c";
    assert LowerAscii(s) == s;
    forall i | 0 <= i < |s| && s[i] == '@' ensures !UserModel.DomainShape(s[i + 1..]) {
      assert i >= 1;
    }
  }

  // ---------------------------------------------------------------------------
  // The forms

  /** The keys of `newErrors` on both pages. */
  datatype AuthField = NameField | EmailField | PasswordField | ConfirmPasswordField

  datatype RegisterForm = RegisterForm(name: string, email: string, password: string, confirmPassword: string)

  datatype LoginForm = LoginForm(email: string, password: string)

  const NameRequired := "Name is required"
  const EmailRequired := "Email is required"
  const EmailInvalid := "Email is invalid"
  const LoginEmailInvalid := "Please enter a valid email"
  const PasswordRequired := "Password is required"
  const PasswordTooShort := "Password must be at least 6 characters"
  const ConfirmRequired := "Please confirm your password"
  const PasswordsDiffer := "Passwords do not match"

  function NameError(name: string): Option<string> {
    if Trim(name) == "" then Some(NameRequired) else None
  }

  /** Both pages check the email the same way; only the second message
      differs. */
  function EmailError(email: string, invalid: string): Option<string> {
    if email == "" then Some(EmailRequired)
    else if !LooseEmail(email) then Some(invalid)
    else None
  }

  function PasswordError(password: string): Option<string> {
    if password == "" then Some(PasswordRequired)
    else if |password| < 6 then Some(PasswordTooShort)
    else None
  }

  function ConfirmError(password: string, confirmPassword: string): Option<string> {
    if confirmPassword == "" then Some(ConfirmRequired)
    else if password != confirmPassword then Some(PasswordsDiffer)
    else None
  }

  /** The message the sign-up `validateForm` records for `field`, if any. */
  function RegisterError(f: RegisterForm, field: AuthField): Option<string> {
    match field
    case NameField => NameError(f.name)
    case EmailField => EmailError(f.email, EmailInvalid)
    case PasswordField => PasswordError(f.password)
    case ConfirmPasswordField => ConfirmError(f.password, f.confirmPassword)
  }

  /** The message the sign-in `validateForm` records for `field`, if any. */
  function LoginError(f: LoginForm, field: AuthField): Option<string> {
    match field
    case EmailField => EmailError(f.email, LoginEmailInvalid)
    case PasswordField => if f.password == "" then Some(PasswordRequired) else None
    case _ => None
  }

  /** `errors` holds, for `field`, exactly the message `message`, if any. */
  predicate Recorded(errors: map<AuthField, string>, field: AuthField, message: Option<string>) {
    (field in errors <==> message.Some?) && (field in errors ==> errors[field] == message.value)
  }

  /** Recording a message under another field leaves `field` as it was. */
  lemma RecordedKept(errors: map<AuthField, string>, field: AuthField, message: Option<string>, other: AuthField, text: string)
    requires Recorded(errors, field, message) && other != field
    ensures Recorded(errors[other := text], field, message)
  {
  }

  /** Sign-up accepts a form exactly when the name is not blank, the email
      passes the test, the password has at least six characters and the
      confirmation repeats it. */
  lemma RegisterErrorMeaning(f: RegisterForm)
    ensures RegisterError(f, NameField).None? <==> !AllSpace(f.name)
    ensures RegisterError(f, EmailField).None? <==> LooseEmail(f.email)
    ensures RegisterError(f, PasswordField).None? <==> |f.password| >= 6
    ensures RegisterError(f, ConfirmPasswordField).None? <==> f.confirmPassword != "" && f.confirmPassword == f.password
  {
    TrimEmptyIffAllSpace(f.name);
    if f.email == "" {
      assert !LooseEmail(f.email);
    }
  }

  /** Sign-in only asks for an email that passes the test and a password that
      is not empty; there is no minimum length. */
  lemma LoginErrorMeaning(f: LoginForm)
    ensures LoginError(f, EmailField).None? <==> LooseEmail(f.email)
    ensures LoginError(f, PasswordField).None? <==> f.password != ""
    ensures LoginError(f, NameField).None? && LoginError(f, ConfirmPasswordField).None?
  {
    if f.email == "" {
      assert !LooseEmail(f.email);
    }
  }

  /** Sign-up `validateForm`: each check in turn, one message per field at
      most; valid when no message was recorded. */
  method ValidateRegister(formData: RegisterForm) returns (valid: bool, errors: map<AuthField, string>)
    ensures forall field :: Recorded(errors, field, RegisterError(formData, field))
    ensures valid <==> forall field :: RegisterError(formData, field).None?
  {
    var newErrors: map<AuthField, string> := map[];
    if Trim(formData.name) == "" {
      newErrors := newErrors[NameField := NameRequired];
    }
    ghost var name := NameError(formData.name);
    assert Recorded(newErrors, NameField, name);
    assert EmailField !in newErrors && PasswordField !in newErrors && ConfirmPasswordField !in newErrors;
    if formData.email == "" {
      RecordedKept(newErrors, NameField, name, EmailField, EmailRequired);
      newErrors := newErrors[EmailField := EmailRequired];
    } else if !LooseEmail(formData.email) {
      RecordedKept(newErrors, NameField, name, EmailField, EmailInvalid);
      newErrors := newErrors[EmailField := EmailInvalid];
    }
    ghost var email := EmailError(formData.email, EmailInvalid);
    assert Recorded(newErrors, EmailField, email);
    assert PasswordField !in newErrors && ConfirmPasswordField !in newErrors;
    if formData.password == "" {
      RecordedKept(newErrors, NameField, name, PasswordField, PasswordRequired);
      RecordedKept(newErrors, EmailField, email, PasswordField, PasswordRequired);
      newErrors := newErrors[PasswordField := PasswordRequired];
    } else if |formData.password| < 6 {
      RecordedKept(newErrors, NameField, name, PasswordField, PasswordTooShort);
      RecordedKept(newErrors, EmailField, email, PasswordField, PasswordTooShort);
      newErrors := newErrors[PasswordField := PasswordTooShort];
    }
    ghost var password := PasswordError(formData.password);
    assert Recorded(newErrors, PasswordField, password);
    assert ConfirmPasswordField !in newErrors;
    if formData.confirmPassword == "" {
      RecordedKept(newErrors, NameField, name, ConfirmPasswordField, ConfirmRequired);
      RecordedKept(newErrors, EmailField, email, ConfirmPasswordField, ConfirmRequired);
      RecordedKept(newErrors, PasswordField, password, ConfirmPasswordField, ConfirmRequired);
      newErrors := newErrors[ConfirmPasswordField := ConfirmRequired];
    } else if formData.password != formData.confirmPassword {
      RecordedKept(newErrors, NameField, name, ConfirmPasswordField, PasswordsDiffer);
      RecordedKept(newErrors, EmailField, email, ConfirmPasswordField, PasswordsDiffer);
      RecordedKept(newErrors, PasswordField, password, ConfirmPasswordField, PasswordsDiffer);
      newErrors := newErrors[ConfirmPasswordField := PasswordsDiffer];
    }
    ghost var confirm := ConfirmError(formData.password, formData.confirmPassword);
    assert Recorded(newErrors, ConfirmPasswordField, confirm);
    errors := newErrors;
    valid := |newErrors| == 0;
    EmptyMap(newErrors);
    forall field ensures Recorded(newErrors, field, RegisterError(formData, field)) {
      match field
      case NameField =>
      case EmailField =>
      case PasswordField =>
      case ConfirmPasswordField =>
    }
    assert (forall field :: field !in newErrors) <==> (forall field :: RegisterError(formData, field).None?) by {
      forall field ensures field !in newErrors <==> RegisterError(formData, field).None? {
        assert Recorded(newErrors, field, RegisterError(formData, field));
      }
    }
  }

  /** Sign-in `validateForm`. */
  method ValidateLogin(formData: LoginForm) returns (valid: bool, errors: map<AuthField, string>)
    ensures forall field :: Recorded(errors, field, LoginError(formData, field))
    ensures valid <==> forall field :: LoginError(formData, field).None?
  {
    var newErrors: map<AuthField, string> := map[];
    if formData.email == "" {
      newErrors := newErrors[EmailField := EmailRequired];
    } else if !LooseEmail(formData.email) {
      newErrors := newErrors[EmailField := LoginEmailInvalid];
    }
    ghost var email := EmailError(formData.email, LoginEmailInvalid);
    assert Recorded(newErrors, EmailField, email);
    if formData.password == "" {
      RecordedKept(newErrors, EmailField, email, PasswordField, PasswordRequired);
      newErrors := newErrors[PasswordField := PasswordRequired];
    }
    errors := newErrors;
    valid := |newErrors| == 0;
    EmptyMap(newErrors);
    forall field ensures Recorded(newErrors, field, LoginError(formData, field)) {
      match field
      case EmailField =>
      case _ =>
    }
    assert (forall field :: field !in newErrors) <==> (forall field :: LoginError(formData, field).None?) by {
      forall field ensures field !in newErrors <==> LoginError(formData, field).None? {
        assert Recorded(newErrors, field, LoginError(formData, field));
      }
    }
  }

  /** Whoever could sign up with an email and password passes the sign-in
      form with them. */
  lemma RegisterThenLogin(f: RegisterForm)
    requires forall field :: RegisterError(f, field).None?
    ensures forall field :: LoginError(LoginForm(f.email, f.password), field).None?
  {
    assert RegisterError(f, EmailField).None? && RegisterError(f, PasswordField).None?;
  }

  /** The converse fails: sign-in accepts a three-character password that
      sign-up refuses. */
  lemma LoginLooserThanRegister()
    ensures LoginError(LoginForm("a@b.co", "abc"), PasswordField).None?
    ensures RegisterError(RegisterForm("A", "a@b.co", "abc", "abc"), PasswordField).Some?
  {
  }
}
