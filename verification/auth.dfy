/**
 * The identity and session store behind every page: the user list and the
 * persisted session in browser storage, and the in-memory session of the
 * auth provider. The session is either anonymous (None) or a user.
 */
module Auth {
  import opened Wrappers
  import opened Seqs
  import opened Records
  import opened Store

  /** The provider's in-memory session together with browser storage. */
  datatype AuthState = AuthState(user: Option<User>, store: Store)

  /** The result of `login` / `register`: the returned boolean and the new state. */
  datatype Step = Step(ok: bool, state: AuthState)

  /** The account that `login` looks for: email and password both equal. */
  predicate CredentialsMatch(a: Account, email: string, password: string) {
    a.email == email && a.password == password
  }

  /** Some account in the list has the given email (case-sensitive). */
  predicate EmailTaken(accounts: seq<Account>, email: string) {
    exists i :: 0 <= i < |accounts| && accounts[i].email == email
  }

  /** No two accounts share an email. */
  predicate EmailsUnique(accounts: seq<Account>) {
    forall i, j :: 0 <= i < j < |accounts| ==> accounts[i].email != accounts[j].email
  }

  /**
   * The provider's mount effect: the persisted session is installed when the
   * session key holds one, without looking at the user list.
   */
  function Restore(store: Store): (s: AuthState)
    ensures s.store == store
    ensures s.user.Some? <==> SessionKey in store && store[SessionKey].SessionUser?
    ensures s.user.Some? ==> s.user.value == store[SessionKey].user
  {
    AuthState(Session(store), store)
  }

  /**
   * `login`: succeeds exactly when some stored account matches email and
   * password; the session becomes the first such account without its
   * password, in memory and under the session key. A failure changes nothing.
   */
  function Login(s: AuthState, email: string, password: string): (r: Step)
    ensures r.ok <==> exists i :: 0 <= i < |Accounts(s.store)| && CredentialsMatch(Accounts(s.store)[i], email, password)
    ensures r.ok ==>
              exists i :: && 0 <= i < |Accounts(s.store)|
                          && CredentialsMatch(Accounts(s.store)[i], email, password)
                          && (forall j :: 0 <= j < i ==> !CredentialsMatch(Accounts(s.store)[j], email, password))
                          && r.state.user == Some(WithoutPassword(Accounts(s.store)[i]))
    ensures r.ok ==> Session(r.state.store) == r.state.user
    ensures r.ok ==> SameExcept(s.store, r.state.store, {SessionKey})
    ensures !r.ok ==> r.state == s
  {
    var accounts := Accounts(s.store);
    match FindFirst(accounts, a => CredentialsMatch(a, email, password))
    case None => Step(false, s)
    case Some(i) =>
      var u := WithoutPassword(accounts[i]);
      Step(true, AuthState(Some(u), s.store[SessionKey := SessionUser(u)]))
  }

  /**
   * `register`: refuses an email already in the user list, leaving everything
   * as it was; otherwise appends the new account at the end of the list and
   * signs the new user in, in memory and under the session key.
   */
  function Register(s: AuthState, name: string, email: string, password: string,
                    accountType: AccountType, id: string, now: int): (r: Step)
    ensures r.ok <==> !EmailTaken(Accounts(s.store), email)
    ensures !r.ok ==> r.state == s
    ensures r.ok ==> Accounts(r.state.store)
                     == Accounts(s.store) + [Account(id, name, email, password, accountType, now)]
    ensures r.ok ==> r.state.user == Some(User(id, name, email, accountType, now))
    ensures r.ok ==> Session(r.state.store) == r.state.user
    ensures r.ok ==> SameExcept(s.store, r.state.store, {UsersKey, SessionKey})
  {
    var accounts := Accounts(s.store);
    if FindFirst(accounts, (a: Account) => a.email == email).Some? then
      Step(false, s)
    else
      var account := Account(id, name, email, password, accountType, now);
      var u := WithoutPassword(account);
      var store := s.store[UsersKey := UserList(accounts + [account])][SessionKey := SessionUser(u)];
      KeysDistinct("", "");
      Step(true, AuthState(Some(u), store))
  }

  /** `logout`: the session is cleared in memory and its key removed; nothing else changes. */
  function Logout(s: AuthState): (r: AuthState)
    ensures r.user.None?
    ensures SessionKey !in r.store
    ensures SameExcept(s.store, r.store, {SessionKey})
  {
    AuthState(None, s.store - {SessionKey})
  }

  // ---------------------------------------------------------------------------
  // Lemmas relating the operations

  /** The session that `Restore` installs depends on the session key alone. */
  lemma RestoreIgnoresUserList(st1: Store, st2: Store)
    requires SessionKey in st1 <==> SessionKey in st2
    requires SessionKey in st1 ==> st1[SessionKey] == st2[SessionKey]
    ensures Restore(st1).user == Restore(st2).user
  {
  }

  /** After `logout`, restarting the provider restores no session. */
  lemma LogoutThenRestore(s: AuthState)
    ensures Restore(Logout(s).store).user == None
  {
  }

  /** A successful `login` or `register` survives a restart of the provider. */
  lemma SignInSurvivesRestore(r: Step)
    requires r.ok && Session(r.state.store) == r.state.user
    ensures Restore(r.state.store) == r.state
  {
  }

  /** Registration keeps emails unique across the user list, whether it succeeds or not. */
  lemma RegisterKeepsEmailsUnique(s: AuthState, name: string, email: string, password: string,
                                  accountType: AccountType, id: string, now: int)
    requires EmailsUnique(Accounts(s.store))
    ensures EmailsUnique(Accounts(Register(s, name, email, password, accountType, id, now).state.store))
  {
  }

  /**
   * Right after a successful registration, logging in with the same email and
   * password succeeds and installs the same session.
   */
  lemma {:induction false} LoginAfterRegister(s: AuthState, name: string, email: string, password: string,
                                              accountType: AccountType, id: string, now: int)
    requires Register(s, name, email, password, accountType, id, now).ok
    ensures var r := Register(s, name, email, password, accountType, id, now);
            var l := Login(r.state, email, password);
            l.ok && l.state.user == r.state.user
  {
    var r := Register(s, name, email, password, accountType, id, now);
    var accounts := Accounts(r.state.store);
    var n := |accounts| - 1;
    assert CredentialsMatch(accounts[n], email, password);
    forall j | 0 <= j < n
      ensures !CredentialsMatch(accounts[j], email, password)
    {
      assert accounts[j] == Accounts(s.store)[j];
    }
  }

  /**
   * With unique emails, a wrong password for a registered email fails and
   * leaves the current session as it was.
   */
  lemma WrongPasswordFails(s: AuthState, email: string, password: string)
    requires EmailsUnique(Accounts(s.store))
    requires exists i :: 0 <= i < |Accounts(s.store)| && Accounts(s.store)[i].email == email
                         && Accounts(s.store)[i].password != password
    ensures !Login(s, email, password).ok
    ensures Login(s, email, password).state == s
  {
  }
}
