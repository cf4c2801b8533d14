/**
 * The account side of `AuthController`: the registration rules (`validateRegisterRequest` and
 * `getValidationErrors`, which apply the same checks), `register`, `login`, and
 * `setInitialPassword`, by which a client created by an administrator chooses a password once.
 * A stored password `Some(p)` stands for the hash of p, and checking a password against it is
 * comparing with p.
 */
module Auth {
  import opened Wrappers
  import opened Calendar
  import opened Text
  import opened Users
  import opened Ledger
  import MasterClients

  const NameRequired: string := "O nome é obrigatório"
  const NameTooShort: string := "O nome deve ter pelo menos 2 caracteres"
  const NameTooLong: string := "O nome não pode ter mais de 255 caracteres"
  const EmailRequired: string := "O email é obrigatório"
  const EmailMalformed: string := "O email deve ter um formato válido"
  const EmailTooLong: string := "O email não pode ter mais de 255 caracteres"
  const EmailTaken: string := "Este email já está sendo usado por outro usuário"
  const PasswordRequired: string := "A senha é obrigatória"
  const PasswordTooShort: string := "A senha deve ter pelo menos 6 caracteres"
  const PasswordTooLong: string := "A senha não pode ter mais de 255 caracteres"
  const UserTypeInvalid: string := "O tipo de usuário deve ser CLIENTE ou MASTER"
  const InvalidData: string := "Dados inválidos"
  const InvalidCredentials: string := "Credenciais inválidas"
  const NoPasswordSet: string := "Usuário sem senha definida. Entre em contato com o administrador."
  const UserNotFound: string := "Usuário não encontrado"
  const PasswordAlreadySet: string := "Usuário já possui senha definida"
  /** The TypeError of `verifyPassword(string)` given null; like `NullPasswordError`, it ends the request with 500. */
  const PasswordNotText: string := "App\\Model\\User::verifyPassword(): Argument #1 ($password) must be of type string, null given"

  const MinNameLength: nat := 2
  const MinPasswordLength: nat := 6
  const MaxLength: nat := 255

  /** The registration form's fields; None for a field the request does not carry. */
  datatype RegisterInput = RegisterInput(name: Option<string>, email: Option<string>, password: Option<string>,
                                         userType: Option<string>)

  /** What the checks hand on: the trimmed name and e-mail and the password as given. */
  datatype Registration = Registration(name: string, email: string, password: string)

  // ---------------------------------------------------------------- registration rules

  /** The name's message, from the first check it fails, on the trimmed text. */
  function NameError(name: Option<string>): Option<string> {
    var n := Trim(name.GetOr(""));
    if PhpEmpty(n) then Some(NameRequired)
    else if |n| < MinNameLength then Some(NameTooShort)
    else if |n| > MaxLength then Some(NameTooLong)
    else None
  }

  /**
   * The e-mail's message: blank once trimmed, then the untrimmed text badly formed (`isEmail`
   * stands for `filter_var(..., FILTER_VALIDATE_EMAIL)`), too long, or some user's e-mail.
   */
  function EmailError(users: seq<UserRow>, email: Option<string>, isEmail: string -> bool): Option<string> {
    if PhpEmpty(Trim(email.GetOr(""))) then Some(EmailRequired)
    else if !isEmail(email.value) then Some(EmailMalformed)
    else if |email.value| > MaxLength then Some(EmailTooLong)
    else if MasterClients.Taken(users, email.value, None) then Some(EmailTaken)
    else None
  }

  /** The password's message, on the untrimmed text. */
  function PasswordError(password: Option<string>): Option<string> {
    if PhpEmpty(password.GetOr("")) then Some(PasswordRequired)
    else if |password.value| < MinPasswordLength then Some(PasswordTooShort)
    else if |password.value| > MaxLength then Some(PasswordTooLong)
    else None
  }

  function UserTypeError(userType: Option<string>): Option<string> {
    if userType.Some? && userType.value != Cliente.Code() && userType.value != Master.Code() then Some(UserTypeInvalid)
    else None
  }

  function With(errors: map<string, string>, field: string, e: Option<string>): map<string, string> {
    if e.Some? then errors[field := e.value] else errors
  }

  /** The `$errors` array: one message for each field that fails a check. */
  function RegisterErrors(users: seq<UserRow>, input: RegisterInput, isEmail: string -> bool): map<string, string> {
    With(With(With(With(map[], "name", NameError(input.name)), "email", EmailError(users, input.email, isEmail)),
              "password", PasswordError(input.password)),
         "user_type", UserTypeError(input.userType))
  }

  /** The registration rules stated field by field, as conditions a valid form meets. */
  predicate RegistrationValid(users: seq<UserRow>, input: RegisterInput, isEmail: string -> bool) {
    var n := Trim(input.name.GetOr(""));
    && !PhpEmpty(n) && MinNameLength <= |n| <= MaxLength
    && input.email.Some? && !PhpEmpty(Trim(input.email.value)) && isEmail(input.email.value)
    && |input.email.value| <= MaxLength && !MasterClients.Taken(users, input.email.value, None)
    && input.password.Some? && !PhpEmpty(input.password.value)
    && MinPasswordLength <= |input.password.value| <= MaxLength
    && (input.userType.None? || input.userType.value in {"CLIENTE", "MASTER"})
  }

  /**
   * Each field has an entry exactly when it breaks a rule, holding the message of the first
   * rule it breaks, and there is no other entry.
   */
  lemma RegisterErrorsExact(users: seq<UserRow>, input: RegisterInput, isEmail: string -> bool)
    ensures var errors := RegisterErrors(users, input, isEmail);
      && errors.Keys <= {"name", "email", "password", "user_type"}
      && ("name" in errors <==> NameError(input.name).Some?)
      && ("email" in errors <==> EmailError(users, input.email, isEmail).Some?)
      && ("password" in errors <==> PasswordError(input.password).Some?)
      && ("user_type" in errors <==> UserTypeError(input.userType).Some?)
      && ("name" in errors ==> errors["name"] == NameError(input.name).value)
      && ("email" in errors ==> errors["email"] == EmailError(users, input.email, isEmail).value)
      && ("password" in errors ==> errors["password"] == PasswordError(input.password).value)
  {
    var m1 := With(map[], "name", NameError(input.name));
    var m2 := With(m1, "email", EmailError(users, input.email, isEmail));
    var m3 := With(m2, "password", PasswordError(input.password));
    assert m1.Keys <= {"name"};
    assert m2.Keys <= {"name", "email"} && ("name" in m2 <==> "name" in m1);
    assert m3.Keys <= {"name", "email", "password"} && ("name" in m3 <==> "name" in m1) && ("email" in m3 <==> "email" in m2);
  }

  /** So the map is empty exactly when the form is valid. */
  lemma NoErrorsIffValid(users: seq<UserRow>, input: RegisterInput, isEmail: string -> bool)
    ensures RegisterErrors(users, input, isEmail) == map[] <==> RegistrationValid(users, input, isEmail)
  {
    var errors := RegisterErrors(users, input, isEmail);
    RegisterErrorsExact(users, input, isEmail);
    var passes := NameError(input.name).None? && EmailError(users, input.email, isEmail).None?
                  && PasswordError(input.password).None? && UserTypeError(input.userType).None?;
    assert passes <==> RegistrationValid(users, input, isEmail);
    if passes {
      assert errors.Keys == {};
    } else {
      assert "name" in errors || "email" in errors || "password" in errors || "user_type" in errors;
    }
  }

  /** `getValidationErrors`: builds the error map entry by entry, one field after the other. */
  method CollectErrors(users: seq<UserRow>, input: RegisterInput, isEmail: string -> bool)
    returns (errors: map<string, string>)
    ensures errors == RegisterErrors(users, input, isEmail)
  {
    errors := map[];
    errors := CheckName(errors, input.name);
    errors := CheckEmail(errors, users, input.email, isEmail);
    errors := CheckPassword(errors, input.password);
    errors := CheckUserType(errors, input.userType);
  }

  method CheckName(errors: map<string, string>, name: Option<string>) returns (r: map<string, string>)
    ensures r == With(errors, "name", NameError(name))
  {
    r := errors;
    var trimmed := Trim(name.GetOr(""));
    if PhpEmpty(trimmed) {
      r := r["name" := NameRequired];
    } else if |trimmed| < MinNameLength {
      r := r["name" := NameTooShort];
    } else if |trimmed| > MaxLength {
      r := r["name" := NameTooLong];
    }
  }

  method CheckEmail(errors: map<string, string>, users: seq<UserRow>, email: Option<string>, isEmail: string -> bool)
    returns (r: map<string, string>)
    ensures r == With(errors, "email", EmailError(users, email, isEmail))
  {
    var blank := PhpEmpty(Trim(email.GetOr("")));
    var message: Option<string>;
    if blank {
      message := Some(EmailRequired);
    } else if !isEmail(email.value) {
      message := Some(EmailMalformed);
    } else if |email.value| > MaxLength {
      message := Some(EmailTooLong);
    } else if MasterClients.Taken(users, email.value, None) {
      message := Some(EmailTaken);
    } else {
      message := None;
    }
    assert message == EmailError(users, email, isEmail);
    r := With(errors, "email", message);
  }

  method CheckPassword(errors: map<string, string>, password: Option<string>) returns (r: map<string, string>)
    ensures r == With(errors, "password", PasswordError(password))
  {
    r := errors;
    if PhpEmpty(password.GetOr("")) {
      r := r["password" := PasswordRequired];
    } else if |password.value| < MinPasswordLength {
      r := r["password" := PasswordTooShort];
    } else if |password.value| > MaxLength {
      r := r["password" := PasswordTooLong];
    }
  }

  method CheckUserType(errors: map<string, string>, userType: Option<string>) returns (r: map<string, string>)
    ensures r == With(errors, "user_type", UserTypeError(userType))
  {
    r := errors;
    if userType.Some? && userType.value != "CLIENTE" && userType.value != "MASTER" {
      r := r["user_type" := UserTypeInvalid];
    }
  }

  /**
   * `validateRegisterRequest`: the same checks; 422 when any fails, otherwise the trimmed name
   * and e-mail and the password as given.
   */
  method ValidateRegisterRequest(users: seq<UserRow>, input: RegisterInput, isEmail: string -> bool)
    returns (o: Outcome<Registration>)
    ensures o.Ok? <==> RegistrationValid(users, input, isEmail)
    ensures o.Fail? ==> o.status == 422
    ensures o.Ok? ==> o.value == Registration(Trim(input.name.value), Trim(input.email.value), input.password.value)
  {
    var errors := CollectErrors(users, input, isEmail);
    NoErrorsIffValid(users, input, isEmail);
    if errors != map[] {
      return Fail(422, "Validation failed");
    }
    o := Ok(Registration(Trim(input.name.value), Trim(input.email.value), input.password.value));
  }

  // ---------------------------------------------------------------- register and login

  /**
   * `register`: a valid form creates a user with the trimmed name and e-mail and the password;
   * the user type is the column's default, since it is not among the fields filled in. No
   * account is created. An invalid form answers 422 with the error map. The form is judged by
   * `RegistrationValid`, which `ValidateRegisterRequest` is proved to decide.
   */
  method Register(store: Store, input: RegisterInput, isEmail: string -> bool, defaultType: UserType, now: DateTime)
    returns (o: Outcome<UserRow>, errors: map<string, string>)
    requires store.Valid()
    modifies store
    ensures store.Valid()
    ensures o.Ok? <==> RegistrationValid(old(store.UserRows()), input, isEmail)
    ensures o.Fail? ==> o == Fail(422, InvalidData) && errors == RegisterErrors(old(store.UserRows()), input, isEmail)
    ensures o.Fail? ==> store.UserRows() == old(store.UserRows())
    ensures o.Ok? ==>
      && o.value == UserRow(old(store.nextUserId), Trim(input.name.value), Trim(input.email.value),
                            Some(input.password.value), defaultType, now)
      && store.UserRows() == old(store.UserRows()) + [o.value]
    ensures store.TxRows() == old(store.TxRows()) && store.AccountRows() == old(store.AccountRows())
  {
    var users := store.UserRows();
    if !RegistrationValid(users, input, isEmail) {
      return Fail(422, InvalidData), RegisterErrors(users, input, isEmail);
    }
    errors := map[];
    var row := InsertUser(store, Trim(input.name.value), Trim(input.email.value), Some(input.password.value),
                          defaultType, now);
    o := Ok(row);
  }

  /** `User::where('email', ...)->first()`: the position of the first user with that e-mail. */
  function FindByEmail(users: seq<UserRow>, email: Option<string>): (k: Option<nat>)
    ensures k.Some? ==> email.Some? && k.value < |users| && users[k.value].email == email.value
    ensures k.Some? ==> forall i :: 0 <= i < k.value ==> users[i].email != email.value
    ensures k.None? <==> email.None? || forall i :: 0 <= i < |users| ==> users[i].email != email.value
  {
    if email.None? || users == [] then None
    else if users[0].email == email.value then Some(0)
    else match FindByEmail(users[1..], email)
      case None => None
      case Some(j) => Some(j + 1)
  }

  /**
   * `login`: 401 for an unknown e-mail, then for a user without a password, then for a wrong
   * password; a request without a password that gets that far fails with 500.
   */
  function Login(users: seq<UserRow>, email: Option<string>, password: Option<string>): (o: Outcome<UserRow>)
    ensures o.Ok? <==> exists k :: 0 <= k < |users| && FindByEmail(users, email) == Some(k)
                                   && users[k].password.Some? && password == users[k].password
    ensures o.Ok? ==> o.value in users && Some(o.value.email) == email
    ensures FindByEmail(users, email).None? ==> o == Fail(401, InvalidCredentials)
    ensures FindByEmail(users, email).Some? && users[FindByEmail(users, email).value].password.None?
            ==> o == Fail(401, NoPasswordSet)
    ensures o.Fail? && password.Some? ==> o.status == 401
  {
    match FindByEmail(users, email)
    case None => Fail(401, InvalidCredentials)
    case Some(k) =>
      if users[k].password.None? then Fail(401, NoPasswordSet)
      else if password.None? then Fail(500, PasswordNotText)
      else if password != users[k].password then Fail(401, InvalidCredentials)
      else Ok(users[k])
  }

  /** A client the administrator has just created cannot log in before choosing a password. */
  lemma NewClientCannotLogIn(users: seq<UserRow>, client: UserRow, password: Option<string>)
    requires !MasterClients.Taken(users, client.email, None) && client.password.None?
    ensures Login(users + [client], Some(client.email), password) == Fail(401, NoPasswordSet)
  {
    var all := users + [client];
    assert all[|users|] == client;
    assert forall i :: 0 <= i < |users| ==> all[i].email != client.email;
  }

  // ---------------------------------------------------------------- setInitialPassword

  /**
   * What `setInitialPassword` decides: the position of the user to update, or 404 for an
   * unknown e-mail, 422 for a user who has a password, 500 for a request without one.
   */
  function PasswordDecision(users: seq<UserRow>, email: Option<string>, password: Option<string>): (o: Outcome<nat>)
    ensures FindByEmail(users, email).None? <==> o == Fail(404, UserNotFound)
    ensures o.Ok? <==> FindByEmail(users, email).Some? && users[FindByEmail(users, email).value].password.None?
                       && password.Some?
    ensures o.Ok? ==> o.value < |users| && Some(users[o.value].email) == email
    ensures FindByEmail(users, email).Some? && users[FindByEmail(users, email).value].password.Some?
            ==> o == Fail(422, PasswordAlreadySet)
    ensures FindByEmail(users, email).Some? && users[FindByEmail(users, email).value].password.None? && password.None?
            ==> o == Fail(500, NullPasswordError)
  {
    match FindByEmail(users, email)
    case None => Fail(404, UserNotFound)
    case Some(k) =>
      if users[k].password.Some? then Fail(422, PasswordAlreadySet)
      else if password.None? then Fail(500, NullPasswordError)
      else Ok(k)
  }

  /** The user rows once user k has the password. */
  function WithPassword(users: seq<UserRow>, k: nat, password: string): seq<UserRow>
    requires k < |users|
  {
    users[k := users[k].(password := Some(password))]
  }

  /** Setting a password does not change who an e-mail belongs to. */
  lemma FindByEmailIgnoresPasswords(users: seq<UserRow>, k: nat, p: string, email: Option<string>)
    requires k < |users|
    ensures FindByEmail(WithPassword(users, k, p), email) == FindByEmail(users, email)
  {
    var after := WithPassword(users, k, p);
    assert forall i :: 0 <= i < |users| ==> after[i].email == users[i].email;
    var f, g := FindByEmail(after, email), FindByEmail(users, email);
    if f.Some? && g.Some? {
      assert users[f.value].email == email.value && after[g.value].email == email.value;
    }
  }

  /**
   * The password is set once: after it has been set, a second request for the same e-mail
   * answers 422, and logging in with the password chosen succeeds.
   */
  lemma PasswordSetOnce(users: seq<UserRow>, email: Option<string>, p: string, q: Option<string>)
    requires PasswordDecision(users, email, Some(p)).Ok?
    ensures var after := WithPassword(users, PasswordDecision(users, email, Some(p)).value, p);
      && PasswordDecision(after, email, q) == Fail(422, PasswordAlreadySet)
      && Login(after, email, Some(p)).Ok?
  {
    var k := PasswordDecision(users, email, Some(p)).value;
    FindByEmailIgnoresPasswords(users, k, p, email);
  }

  /** `setInitialPassword`: stores the password of a user who has none, found by e-mail. */
  method SetInitialPassword(store: Store, email: Option<string>, password: Option<string>) returns (o: Outcome<UserRow>)
    requires store.Valid()
    modifies store.users
    ensures store.Valid()
    ensures o.Fail? ==> var d := PasswordDecision(old(store.UserRows()), email, password);
      d.Fail? && o == Fail(d.status, d.message)
    ensures o.Fail? ==> store.UserRows() == old(store.UserRows())
    ensures o.Ok? <==> PasswordDecision(old(store.UserRows()), email, password).Ok?
    ensures o.Ok? ==>
      var k := PasswordDecision(old(store.UserRows()), email, password).value;
      && store.UserRows() == WithPassword(old(store.UserRows()), k, password.value)
      && o.value == store.UserRows()[k]
    ensures store.TxRows() == old(store.TxRows()) && store.AccountRows() == old(store.AccountRows())
  {
    var users := store.UserRows();
    var d := PasswordDecision(users, email, password);
    if d.Fail? {
      return Fail(d.status, d.message);
    }
    StorePassword(store, d.value, password.value);
    o := Ok(store.UserRows()[d.value]);
  }

  /** Sets the password of the user at position k; every other row reads as before. */
  method StorePassword(store: Store, k: nat, password: string)
    requires store.Valid() && k < |store.users|
    modifies store.users[k]
    ensures store.UserRows() == WithPassword(old(store.UserRows()), k, password)
    ensures store.TxRows() == old(store.TxRows()) && store.AccountRows() == old(store.AccountRows())
  {
    ghost var users := store.UserRows();
    var u := store.users[k];
    u.password := Some(password);
    forall i | 0 <= i < |users| && i != k
      ensures store.UserRows()[i] == users[i]
    {
      if i < k { assert store.users[i].id != store.users[k].id; }
      else { assert store.users[k].id != store.users[i].id; }
    }
  }
}
