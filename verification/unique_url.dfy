/** The personal-URL page of `frontend/js/url.js`: which authenticated users it accepts and
    the URL it shows them. */
module UniqueUrl {
  import opened Text
  import opened Wrappers
  import CpfFormat

  /** The user record returned by the authentication check; absent fields are empty. */
  datatype AuthUser = AuthUser(nome: string, cpf: string, id: string, tipo: string)

  /** What the page fills in. */
  datatype Page = Page(userName: string, userCpf: string, url: string)

  datatype InterfaceError = IncompleteUser | UnsupportedType

  datatype Shown = Shown(page: Page) | Failed(error: InterfaceError)

  const StudentBase := "http://localhost:3000/aluno/"
  const ProfessorBase := "http://localhost:3000/professor/"

  /** `atualizarInterface`: a user lacking name, CPF or id is rejected first; then the URL is
      chosen by type, and any type other than the two roles is rejected. */
  function AtualizarInterface(user: Option<AuthUser>): (s: Shown)
    ensures s == Failed(IncompleteUser) <==>
      user.None? || user.value.nome == "" || user.value.cpf == "" || user.value.id == ""
    ensures s == Failed(UnsupportedType) ==> user.value.tipo != "aluno" && user.value.tipo != "professor"
    ensures s.Shown? ==>
      && user.Some? && user.value.nome != "" && user.value.cpf != "" && user.value.id != ""
      && s.page.userName == user.value.nome
      && StartsWith(s.page.userCpf, "CPF: ")
      && s.page.userCpf == "CPF: " + CpfFormat.FormatarCpf(Some(user.value.cpf))
      && CpfFormat.RemoveSeparators(s.page.userCpf[5..]) == DigitsOnly(user.value.cpf)
      && (user.value.tipo == "aluno" ==> s.page.url == StudentBase + user.value.id)
      && (user.value.tipo == "professor" ==> s.page.url == ProfessorBase + user.value.id)
      && (user.value.tipo == "aluno" || user.value.tipo == "professor")
  {
    if user.None? || user.value.nome == "" || user.value.cpf == "" || user.value.id == "" then
      Failed(IncompleteUser)
    else
      var u := user.value;
      var cpfText := "CPF: " + CpfFormat.FormatarCpf(Some(u.cpf));
      CpfFormat.FormatRoundTrip(Some(u.cpf));
      assert cpfText[5..] == CpfFormat.FormatarCpf(Some(u.cpf));
      if u.tipo == "aluno" then Shown(Page(u.nome, cpfText, StudentBase + u.id))
      else if u.tipo == "professor" then Shown(Page(u.nome, cpfText, ProfessorBase + u.id))
      else Failed(UnsupportedType)
  }

  /** The id is the last path segment of the URL shown, after the role's base. */
  lemma UrlEndsWithId(user: AuthUser)
    requires AtualizarInterface(Some(user)).Shown?
    ensures var url := AtualizarInterface(Some(user)).page.url;
      EndsWith(url, user.id)
      && (StartsWith(url, StudentBase) <==> user.tipo == "aluno")
  {
    if user.tipo == "aluno" {
      BaseAndId(StudentBase, user.id);
    } else {
      BaseAndId(ProfessorBase, user.id);
      ProfessorUrlNotStudent(user.id);
    }
  }

  lemma BaseAndId(base: string, id: string)
    ensures EndsWith(base + id, id) && StartsWith(base + id, base)
  {
    var url := base + id;
    assert url[|url| - |id|..] == id;
    assert url[..|base|] == base;
  }

  lemma ProfessorUrlNotStudent(id: string)
    ensures !StartsWith(ProfessorBase + id, StudentBase)
  {
    var url := ProfessorBase + id;
    assert url[22] == ProfessorBase[22] == 'p';
    assert StudentBase[22] == 'a';
  }

  const RestrictedUrl := "/login/?error=Acesso restrito a alunos ou professores"
  const LoginUrl := "/login/"
  const ReloginAlert := "Erro ao carregar seus dados. Por favor, faça login novamente."

  /** Where the authentication check leaves the browser: on the page, filled in; or sent to
      `url`, after an alert with text `alert` when there is one. */
  datatype Arrival = ShowPage(page: Page) | Redirect(url: string, alert: Option<string>)

  /** The chain run on the authentication check's answer. A failed reply (`replyOk` false)
      throws, and so does `atualizarInterface` on an incomplete record; both land in the catch,
      which alerts and goes to the bare login page. An answer that is not an authenticated
      student or professor goes to the login page with the access-restricted error. */
  function OnAuthCheck(replyOk: bool, isAuthenticated: bool, user: Option<AuthUser>): (a: Arrival)
    ensures a.ShowPage? <==>
      && replyOk && isAuthenticated && user.Some?
      && (user.value.tipo == "aluno" || user.value.tipo == "professor")
      && user.value.nome != "" && user.value.cpf != "" && user.value.id != ""
    ensures a.ShowPage? ==> AtualizarInterface(user) == Shown(a.page)
    ensures a == Redirect(RestrictedUrl, None) <==>
      replyOk && !(isAuthenticated && user.Some? && (user.value.tipo == "aluno" || user.value.tipo == "professor"))
    ensures a == Redirect(LoginUrl, Some(ReloginAlert)) <==>
      !replyOk || (isAuthenticated && user.Some?
                   && (user.value.tipo == "aluno" || user.value.tipo == "professor")
                   && AtualizarInterface(user) == Failed(IncompleteUser))
    ensures a.ShowPage? || a == Redirect(RestrictedUrl, None) || a == Redirect(LoginUrl, Some(ReloginAlert))
  {
    if !replyOk then Redirect(LoginUrl, Some(ReloginAlert))
    else if isAuthenticated && user.Some? && (user.value.tipo == "aluno" || user.value.tipo == "professor") then
      match AtualizarInterface(user)
      case Shown(page) => ShowPage(page)
      case Failed(_) => Redirect(LoginUrl, Some(ReloginAlert))
    else Redirect(RestrictedUrl, None)
  }
}
