/**
 * The navigation bar: which link is highlighted for the current path, the
 * greeting with the user's first name, the links each visitor sees, and
 * the logout button that also closes the mobile menu.
 */
module Navigation {
  import opened Wrappers
  import opened Text
  import opened Records
  import opened Store
  import opened Auth

  /**
   * `isActive`: the home link only on the home path itself, every other
   * link on any path that starts with it.
   */
  function IsActive(pathname: string, path: string): (r: bool)
    ensures path == "/" ==> (r <==> pathname == "/")
    ensures path != "/" ==> (r <==> exists rest :: pathname == path + rest)
  {
    if path == "/" && pathname == "/" then true
    else if path != "/" && StartsWith(pathname, path) then
      assert pathname == path + pathname[|path|..];
      true
    else
      forall rest
        ensures StartsWith(path + rest, path)
      {
        assert (path + rest)[..|path|] == path;
      }
      false
  }

  /** Away from the home path, the home link is never highlighted. */
  lemma HomeOnlyAtHome(pathname: string)
    requires pathname != "/"
    ensures !IsActive(pathname, "/")
  {
  }

  /** A link is highlighted on every path below it. */
  lemma ActiveBelow(path: string, rest: string)
    requires path != "/"
    ensures IsActive(path + rest, path)
  {
  }

  /** The test is on raw text, not path segments: "/vagasx" highlights the "/vagas" link. */
  lemma PrefixIsNotSegmentAware()
    ensures IsActive("/vagasx", "/vagas")
  {
    ActiveBelow("/vagas", "x");
    assert "/vagas" + "x" == "/vagasx";
  }

  /** `name.split(" ")[0]`: the name up to its first space. */
  function FirstName(name: string): (r: string)
    ensures r <= name
    ensures ' ' !in r
    ensures |r| == |name| || name[|r|] == ' '
  {
    FirstPiece(name, ' ');
    Split(name, ' ')[0]
  }

  /** A name without spaces is greeted in full. */
  lemma FirstNameOfOneWord(name: string)
    requires ' ' !in name
    ensures FirstName(name) == name
  {
    SplitNoSeparator(name, ' ');
  }

  /** The greeting's name is the first word followed by a space and the rest. */
  lemma FirstNameOfTwoWords(first: string, rest: string)
    requires ' ' !in first
    ensures FirstName(first + " " + rest) == first
  {
    SplitAtSeparator(first, rest, ' ');
    assert first + " " + rest == first + [' '] + rest;
  }

  /** The greeting on the account link, for a signed-in user. */
  function Greeting(user: Option<User>): (r: Option<string>)
    ensures r.Some? <==> user.Some?
    ensures user.Some? ==> r.value == "Olá, " + FirstName(user.value.name)
  {
    if user.Some? then Some("Olá, " + FirstName(user.value.name)) else None
  }

  /** A link's place in the bar, from left to right; -1 for a path the bar never links. */
  function Rank(link: string): int {
    if link == "/" then 0
    else if link == "/vagas" then 1
    else if link == "/cursos" then 2
    else if link == "/empresa" then 3
    else if link == "/minha-conta" then 4
    else if link == "/cadastrar-vaga" then 5
    else if link == "/entrar" then 6
    else if link == "/cadastrar" then 7
    else -1
  }

  /**
   * The links the bar shows, left to right: the three sections, the company
   * area for a company account, then the account link and, for a company,
   * the job posting link; or the sign-in and sign-up links for a visitor.
   */
  function Links(user: Option<User>): (r: seq<string>)
    ensures forall i :: 0 <= i < |r| ==> Rank(r[i]) >= 0
    ensures forall i, j :: 0 <= i < j < |r| ==> Rank(r[i]) < Rank(r[j])
    ensures "/" in r && "/vagas" in r && "/cursos" in r
    ensures "/empresa" in r <==> user.Some? && user.value.accountType == Empresa
    ensures "/cadastrar-vaga" in r <==> user.Some? && user.value.accountType == Empresa
    ensures "/minha-conta" in r <==> user.Some?
    ensures "/entrar" in r <==> user.None?
    ensures "/cadastrar" in r <==> user.None?
  {
    var company := user.Some? && user.value.accountType == Empresa;
    ["/", "/vagas", "/cursos"]
    + (if company then ["/empresa"] else [])
    + (if user.Some? then ["/minha-conta"] + (if company then ["/cadastrar-vaga"] else [])
       else ["/entrar", "/cadastrar"])
  }

  /** The bar's own state together with the session it reads. */
  datatype NavState = NavState(menuOpen: bool, auth: AuthState)

  /** The menu button flips the mobile menu. */
  function ToggleMenu(n: NavState): (r: NavState)
    ensures r.menuOpen == !n.menuOpen && r.auth == n.auth
  {
    n.(menuOpen := !n.menuOpen)
  }

  /** `handleLogout`: the session ends and the mobile menu closes. */
  function HandleLogout(n: NavState): (r: NavState)
    ensures !r.menuOpen
    ensures r.auth.user.None? && SessionKey !in r.auth.store
    ensures SameExcept(n.auth.store, r.auth.store, {SessionKey})
  {
    NavState(false, Logout(n.auth))
  }

  /** After logging out from the bar, the visitor links are back. */
  lemma LogoutShowsVisitorLinks(n: NavState)
    ensures "/entrar" in Links(HandleLogout(n).auth.user)
    ensures "/minha-conta" !in Links(HandleLogout(n).auth.user)
  {
  }
}
