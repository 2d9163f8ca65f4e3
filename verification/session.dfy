/** The session guard every page loads (`frontend/js/session-check.js`): which paths skip the
    check, how an authenticated user's role gates a path, when an unauthenticated visitor is
    sent to the login page, and which page elements are filled from the user record. */
module Session {
  import opened Text
  import opened Wrappers

  /** `noCheckPages` without the per-user URLs. */
  const NoCheckPages: seq<string> :=
    ["/login", "/login/", "/cadastro", "/cadastro/", "/contato", "/politica", "/termos", "/", ""]

  /** `[a-f0-9-]`. */
  predicate IsIdChar(c: char) {
    '0' <= c <= '9' || 'a' <= c <= 'f' || c == '-'
  }

  /** `/^\/<role>\/[a-f0-9-]+$/`: the role's directory followed by a non-empty id. */
  predicate IsUserUrl(path: string, role: string) {
    var dir := "/" + role + "/";
    && StartsWith(path, dir)
    && |path| > |dir|
    && forall k :: |dir| <= k < |path| ==> IsIdChar(path[k])
  }

  /** `noCheckPages` for the current path: the fixed list, plus the path itself when it is a
      student's or a professor's personal URL. */
  function NoCheckPagesFor(path: string): (pages: seq<string>)
    ensures |pages| >= |NoCheckPages|
    ensures pages[..|NoCheckPages|] == NoCheckPages
    ensures |pages| > |NoCheckPages| ==> IsUserUrl(path, "aluno") || IsUserUrl(path, "professor")
    ensures forall k :: |NoCheckPages| <= k < |pages| ==> pages[k] == path
  {
    NoCheckPages
    + (if IsUserUrl(path, "aluno") then [path] else [])
    + (if IsUserUrl(path, "professor") then [path] else [])
  }

  /** `pages.some(page => path === page || path === page + '/')`. */
  predicate AnyPageMatches(pages: seq<string>, path: string) {
    if pages == [] then false
    else path == pages[0] || path == pages[0] + "/" || AnyPageMatches(pages[1..], path)
  }

  lemma {:induction false} AnyPageMatchesIff(pages: seq<string>, path: string)
    ensures AnyPageMatches(pages, path) <==>
      exists k :: 0 <= k < |pages| && (path == pages[k] || path == pages[k] + "/")
    decreases |pages|
  {
    if pages != [] {
      AnyPageMatchesIff(pages[1..], path);
      if AnyPageMatches(pages[1..], path) && !(path == pages[0] || path == pages[0] + "/") {
        var k :| 0 <= k < |pages| - 1 && (path == pages[1..][k] || path == pages[1..][k] + "/");
        assert pages[k + 1] == pages[1..][k];
      }
      if !AnyPageMatches(pages, path) {
        forall k | 0 <= k < |pages| ensures path != pages[k] && path != pages[k] + "/" {
          if k > 0 {
            assert pages[k] == pages[1..][k - 1];
          }
        }
      }
    }
  }

  /** `isExcluded`. */
  predicate IsExcluded(path: string) {
    AnyPageMatches(NoCheckPagesFor(path), path)
  }

  /** The paths the fixed list skips, spelled out: each listed page with and without one more
      `/` (which makes `//` and `/login//` skipped too). */
  const ListedPaths: set<string> :=
    {"/login", "/login/", "/login//", "/cadastro", "/cadastro/", "/cadastro//",
     "/contato", "/contato/", "/politica", "/politica/", "/termos", "/termos/",
     "/", "//", ""}

  predicate MatchesListedPage(path: string) {
    exists k :: 0 <= k < |NoCheckPages| && (path == NoCheckPages[k] || path == NoCheckPages[k] + "/")
  }

  lemma ListedPageSpelled(k: nat)
    requires k < |NoCheckPages|
    ensures NoCheckPages[k] in ListedPaths && NoCheckPages[k] + "/" in ListedPaths
  {
    var p := NoCheckPages[k];
    if k == 0 { assert p + "/" == "/login/"; }
    else if k == 1 { assert p + "/" == "/login//"; }
    else if k == 2 { assert p + "/" == "/cadastro/"; }
    else if k == 3 { assert p + "/" == "/cadastro//"; }
    else if k == 4 { assert p + "/" == "/contato/"; }
    else if k == 5 { assert p + "/" == "/politica/"; }
    else if k == 6 { assert p + "/" == "/termos/"; }
    else if k == 7 { assert p + "/" == "//"; }
    else { assert p + "/" == "/"; }
  }

  lemma ListedPathMatches(path: string)
    requires path in ListedPaths
    ensures MatchesListedPage(path)
  {
    var p := NoCheckPages;
    if path == "/login" { assert path == p[0]; }
    else if path == "/login/" { assert path == p[1]; }
    else if path == "/login//" { assert path == p[1] + "/"; }
    else if path == "/cadastro" { assert path == p[2]; }
    else if path == "/cadastro/" { assert path == p[3]; }
    else if path == "/cadastro//" { assert path == p[3] + "/"; }
    else if path == "/contato" { assert path == p[4]; }
    else if path == "/contato/" { assert path == p[4] + "/"; }
    else if path == "/politica" { assert path == p[5]; }
    else if path == "/politica/" { assert path == p[5] + "/"; }
    else if path == "/termos" { assert path == p[6]; }
    else if path == "/termos/" { assert path == p[6] + "/"; }
    else if path == "/" { assert path == p[7]; }
    else if path == "//" { assert path == p[7] + "/"; }
    else { assert path == p[8]; }
  }

  lemma ExcludedIffListedOrUserUrl(path: string)
    ensures IsExcluded(path) <==>
      MatchesListedPage(path) || IsUserUrl(path, "aluno") || IsUserUrl(path, "professor")
  {
    var pages := NoCheckPagesFor(path);
    AnyPageMatchesIff(pages, path);
    if IsUserUrl(path, "aluno") || IsUserUrl(path, "professor") {
      assert pages[|NoCheckPages|] == path;
    }
    if MatchesListedPage(path) {
      var k :| 0 <= k < |NoCheckPages| && (path == NoCheckPages[k] || path == NoCheckPages[k] + "/");
      assert pages[k] == NoCheckPages[k];
    }
    if IsExcluded(path) && !IsUserUrl(path, "aluno") && !IsUserUrl(path, "professor") {
      var k :| 0 <= k < |pages| && (path == pages[k] || path == pages[k] + "/");
      assert k < |NoCheckPages|;
      assert pages[k] == NoCheckPages[k];
    }
  }

  /** Every path the guard skips: a listed page, a listed page with one more `/`, or a
      personal URL. */
  lemma ExcludedPaths(path: string)
    ensures IsExcluded(path) <==>
      path in ListedPaths || IsUserUrl(path, "aluno") || IsUserUrl(path, "professor")
  {
    ExcludedIffListedOrUserUrl(path);
    if path in ListedPaths {
      ListedPathMatches(path);
    }
    if MatchesListedPage(path) {
      var k :| 0 <= k < |NoCheckPages| && (path == NoCheckPages[k] || path == NoCheckPages[k] + "/");
      ListedPageSpelled(k);
    }
  }

  // ---------------------------------------------------------------------------
  // handleAuthenticated
  // ---------------------------------------------------------------------------

  /** The user record of an authenticated session: its properties by name (absent and empty
      values both read as falsy). Its type is the `tipo` property, the same value a
      `data-user="tipo"` element shows. */
  datatype SessionUser = SessionUser(props: map<string, string>)
  {
    function Tipo(): string {
      if "tipo" in props then props["tipo"] else ""
    }
  }

  datatype AuthDecision = DeniedProfessorsOnly | DeniedStudentsOnly | ShowUser

  /** `handleAuthenticated`: a path mentioning `/professor` is for professors only; otherwise a
      path mentioning `/aluno` is for students only. */
  function HandleAuthenticated(path: string, user: SessionUser): (d: AuthDecision)
    ensures d == DeniedProfessorsOnly <==> Contains(path, "/professor") && user.Tipo() != "professor"
    ensures d == DeniedStudentsOnly <==>
      !(Contains(path, "/professor") && user.Tipo() != "professor")
      && Contains(path, "/aluno") && user.Tipo() != "aluno"
    ensures d == ShowUser ==>
      (Contains(path, "/professor") ==> user.Tipo() == "professor")
      && (Contains(path, "/aluno") ==> user.Tipo() == "aluno")
  {
    if Contains(path, "/professor") && user.Tipo() != "professor" then DeniedProfessorsOnly
    else if Contains(path, "/aluno") && user.Tipo() != "aluno" then DeniedStudentsOnly
    else ShowUser
  }

  /** A path naming both roles admits nobody: each role fails the other role's test. */
  lemma BothRolesAdmitNobody(path: string, user: SessionUser)
    requires Contains(path, "/professor") && Contains(path, "/aluno")
    ensures HandleAuthenticated(path, user) != ShowUser
  {
  }

  /** `updateUserInterface`: each `[data-user]` element, given as the property it names and its
      current text, gets the user's value for that property when the value is non-empty and
      keeps its text otherwise. */
  datatype Element = Element(prop: string, text: string)

  function UpdateUserInterface(elements: seq<Element>, user: SessionUser): (texts: seq<string>)
    ensures |texts| == |elements|
    ensures forall k :: 0 <= k < |elements| ==>
      var p := elements[k].prop;
      if p in user.props && user.props[p] != "" then texts[k] == user.props[p]
      else texts[k] == elements[k].text
  {
    seq(|elements|, k requires 0 <= k < |elements| =>
      var p := elements[k].prop;
      if p in user.props && user.props[p] != "" then user.props[p] else elements[k].text)
  }

  // ---------------------------------------------------------------------------
  // handleNotAuthenticated
  // ---------------------------------------------------------------------------

  const FiveMinutes: int := 5 * 60 * 1000
  const ExpiredUrl := "/login/?error=Sessão expirada. Faça login novamente."

  datatype GuestDecision = StayOnLogin | StayRecentLogin | RedirectToLogin(url: string)

  /** `handleNotAuthenticated` at wall-clock time `now` (milliseconds), with the parsed
      `lastLogin` session entry if there is one. */
  function HandleNotAuthenticated(path: string, lastLogin: Option<int>, now: int): (d: GuestDecision)
    ensures d == StayOnLogin <==> Contains(path, "/login")
    ensures d == StayRecentLogin <==>
      !Contains(path, "/login") && lastLogin.Some? && now - lastLogin.value < 300000
    ensures d.RedirectToLogin? ==> d.url == ExpiredUrl
  {
    if Contains(path, "/login") then StayOnLogin
    else if lastLogin.Some? && now - lastLogin.value < FiveMinutes then StayRecentLogin
    else RedirectToLogin(ExpiredUrl)
  }

  /** A visitor is redirected exactly when off the login pages and without a login in the last
      five minutes. */
  lemma RedirectIff(path: string, lastLogin: Option<int>, now: int)
    ensures HandleNotAuthenticated(path, lastLogin, now).RedirectToLogin? <==>
      !Contains(path, "/login") && (lastLogin.None? || now - lastLogin.value >= FiveMinutes)
  {
  }

  // ---------------------------------------------------------------------------
  // The whole guard
  // ---------------------------------------------------------------------------

  datatype Outcome =
    | Skipped
    | Authenticated(decision: AuthDecision, texts: seq<string>)
    | Guest(guest: GuestDecision)

  /** The page-load guard: skipped paths do nothing; otherwise the answer of the session check
      (`Some(user)` when authenticated, `None` when not or when the request failed) picks the
      authenticated or the guest path. */
  function CheckSession(path: string, session: Option<SessionUser>, elements: seq<Element>,
                        lastLogin: Option<int>, now: int): (o: Outcome)
    ensures o == Skipped <==> IsExcluded(path)
    ensures o.Authenticated? <==> !IsExcluded(path) && session.Some?
    ensures o.Authenticated? && o.decision != ShowUser ==> o.texts == []
    ensures o.Authenticated? ==>
      && o.decision == HandleAuthenticated(path, session.value)
      && (o.decision == ShowUser ==> o.texts == UpdateUserInterface(elements, session.value))
    ensures o.Guest? ==> o.guest == HandleNotAuthenticated(path, lastLogin, now)
  {
    if IsExcluded(path) then Skipped
    else if session.Some? then
      var d := HandleAuthenticated(path, session.value);
      Authenticated(d, if d == ShowUser then UpdateUserInterface(elements, session.value) else [])
    else Guest(HandleNotAuthenticated(path, lastLogin, now))
  }

  /** The user's properties are written into the page exactly for an authenticated user on a
      checked path whose role markers, if any, match the user's type. */
  lemma ShowsUserIff(path: string, session: Option<SessionUser>, elements: seq<Element>,
                     lastLogin: Option<int>, now: int)
    ensures CheckSession(path, session, elements, lastLogin, now).Authenticated?
            && CheckSession(path, session, elements, lastLogin, now).decision == ShowUser
      <==>
      && !IsExcluded(path) && session.Some?
      && (Contains(path, "/professor") ==> session.value.Tipo() == "professor")
      && (Contains(path, "/aluno") ==> session.value.Tipo() == "aluno")
  {
  }

  /** An element showing the user's type shows the same type the role gate checked. */
  lemma TipoElementShowsCheckedType(path: string, user: SessionUser, elements: seq<Element>,
                                    lastLogin: Option<int>, now: int, k: int)
    requires 0 <= k < |elements| && elements[k].prop == "tipo"
    requires CheckSession(path, Some(user), elements, lastLogin, now).Authenticated?
    requires CheckSession(path, Some(user), elements, lastLogin, now).decision == ShowUser
    requires user.Tipo() != ""
    ensures CheckSession(path, Some(user), elements, lastLogin, now).texts[k] == user.Tipo()
    ensures Contains(path, "/professor") ==>
      CheckSession(path, Some(user), elements, lastLogin, now).texts[k] == "professor"
  {
  }

  /** Login pages never redirect a guest. */
  lemma LoginPagesNeverRedirect(path: string, lastLogin: Option<int>, now: int)
    requires StartsWith(path, "/login")
    ensures HandleNotAuthenticated(path, lastLogin, now) == StayOnLogin
  {
    StartsWithContains(path, "/login");
  }
}
