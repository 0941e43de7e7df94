/**
 * The sign-up page's submit handler: two checks on the password, in order,
 * before the account is registered, each failure reported by its message.
 */
module SignUp {
  import opened Wrappers
  import opened Records
  import opened Store
  import opened Auth

  /** The shortest password the page accepts. */
  const MinPasswordLength: nat := 6

  /** How a submission ends. */
  datatype Outcome = PasswordMismatch | PasswordTooShort | DuplicateEmail | Registered

  /** The error shown for each failure; a registration shows none. */
  function ErrorMessage(o: Outcome): string {
    match o
    case PasswordMismatch => "As senhas não coincidem"
    case PasswordTooShort => "A senha deve ter pelo menos 6 caracteres"
    case DuplicateEmail => "Este email já está cadastrado"
    case Registered => ""
  }

  /** Each outcome has its own message, and only a registration shows none. */
  lemma ErrorMessagesDistinct(a: Outcome, b: Outcome)
    ensures ErrorMessage(a) == ErrorMessage(b) <==> a == b
    ensures ErrorMessage(a) == "" <==> a == Registered
  {
  }

  /**
   * `handleSubmit`: a mismatched confirmation is reported first, then a
   * password shorter than six characters; only then is `register` called,
   * and its refusal is reported as a duplicate email. Neither check touches
   * the session or storage.
   */
  function Submit(s: AuthState, name: string, email: string, password: string, confirmation: string,
                  accountType: AccountType, id: string, now: int): (r: (Outcome, AuthState))
    ensures password != confirmation ==> r == (PasswordMismatch, s)
    ensures password == confirmation && |password| < MinPasswordLength ==> r == (PasswordTooShort, s)
    ensures r.0 == Registered <==>
              password == confirmation && |password| >= MinPasswordLength
              && !EmailTaken(Accounts(s.store), email)
    ensures r.0 == DuplicateEmail <==>
              password == confirmation && |password| >= MinPasswordLength
              && EmailTaken(Accounts(s.store), email)
    ensures r.0 != Registered ==> r.1 == s
    ensures r.0 == Registered ==> r.1 == Register(s, name, email, password, accountType, id, now).state
  {
    if password != confirmation then (PasswordMismatch, s)
    else if |password| < MinPasswordLength then (PasswordTooShort, s)
    else
      var step := Register(s, name, email, password, accountType, id, now);
      if step.ok then (Registered, step.state) else (DuplicateEmail, s)
  }

  /** Where the page goes next: the account page after a registration, nowhere otherwise. */
  function NextPage(o: Outcome): (r: Option<string>)
    ensures r.Some? <==> o == Registered
  {
    if o == Registered then Some("/minha-conta") else None
  }

  /** A short password that also mismatches is reported as a mismatch. */
  lemma MismatchReportedFirst(s: AuthState, name: string, email: string, password: string,
                              confirmation: string, accountType: AccountType, id: string, now: int)
    requires password != confirmation && |password| < MinPasswordLength
    ensures Submit(s, name, email, password, confirmation, accountType, id, now).0 == PasswordMismatch
  {
  }

  /** Every account in the list has a password of at least six characters. */
  predicate PasswordsLongEnough(accounts: seq<Account>) {
    forall i :: 0 <= i < |accounts| ==> |accounts[i].password| >= MinPasswordLength
  }

  /** Signing up through the page keeps every stored password at least six characters long. */
  lemma SubmitKeepsPasswordsLong(s: AuthState, name: string, email: string, password: string,
                                 confirmation: string, accountType: AccountType, id: string, now: int)
    requires PasswordsLongEnough(Accounts(s.store))
    ensures PasswordsLongEnough(Accounts(Submit(s, name, email, password, confirmation, accountType, id, now).1.store))
  {
  }

  /** After signing up, logging in with the same email and password succeeds. */
  lemma SignedUpCanLogIn(s: AuthState, name: string, email: string, password: string,
                         accountType: AccountType, id: string, now: int)
    requires Submit(s, name, email, password, password, accountType, id, now).0 == Registered
    ensures Login(Submit(s, name, email, password, password, accountType, id, now).1, email, password).ok
  {
    LoginAfterRegister(s, name, email, password, accountType, id, now);
  }
}
