/** The logged-in user header of `frontend/js/user-display.js`: avatar initials, the
    formatted CPF, the role tests and the redirect the page makes from them. */
module UserDisplay {
  import opened Text
  import opened Wrappers
  import CpfFormat

  /** The stored `userData` record: each field empty when absent. */
  datatype UserData = UserData(nome: string, cpf: string, tipo: string)

  /** `getInitials`: `'U'` for an empty or absent name; otherwise the upper-cased first
      characters of the first and the last space-separated pieces (one piece: its first
      character only). */
  function GetInitials(name: Option<string>): (r: string)
    ensures name.None? || name == Some("") ==> r == "U"
    ensures |r| <= 2
    ensures name.Some? && name.value != "" && ' ' !in name.value ==> r == [UpperChar(name.value[0])]
  {
    if name.None? || name == Some("") then "U"
    else
      var names := Split(name.value, ' ');
      SplitSingleIff(name.value, ' ');
      if |names| == 1 then
        FirstPiece(name.value, ' ');
        Upper(CharAt0(names[0]))
      else
        Upper(CharAt0(names[0]) + CharAt0(names[|names| - 1]))
  }

  /** A name with a space gives the upper-cased first character of the text before its first
      space and of the text after its last space; a piece that is empty (a leading or a
      trailing space) contributes no letter, as `charAt(0)` of an empty string is empty. */
  lemma InitialsOfFullName(name: string)
    requires ' ' in name
    ensures var r := GetInitials(Some(name));
      exists k :: 0 <= k < |name| && name[k] == ' ' && ' ' !in name[k + 1..]
        && r == (if name[0] != ' ' then [UpperChar(name[0])] else [])
                + (if k + 1 < |name| then [UpperChar(name[k + 1])] else [])
  {
    var names := Split(name, ' ');
    SplitSingleIff(name, ' ');
    var r := GetInitials(Some(name));
    assert r == Upper(CharAt0(names[0]) + CharAt0(names[|names| - 1]));
    FirstPieceInitial(name);
    var k := LastPieceInitial(name);
    var a := if name[0] != ' ' then [name[0]] else [];
    var b := if k + 1 < |name| then [name[k + 1]] else [];
    UpperConcat(a, b);
    assert Upper(a) == if name[0] != ' ' then [UpperChar(name[0])] else [];
    assert Upper(b) == if k + 1 < |name| then [UpperChar(name[k + 1])] else [];
  }

  /** The first piece of a name with a space starts with the name's first character, unless
      that character is the space itself and the piece is empty. */
  lemma FirstPieceInitial(name: string)
    requires ' ' in name
    ensures CharAt0(Split(name, ' ')[0]) == if name[0] != ' ' then [name[0]] else []
  {
    var first := Split(name, ' ')[0];
    FirstPiece(name, ' ');
    assert |first| < |name|;
    if first != [] {
      assert first[0] == name[..|first|][0];
      assert first[0] in first;
    }
  }

  /** The last piece of a name with a space follows the space at `k`, the last one, and
      starts with the character after it when there is one. */
  lemma LastPieceInitial(name: string) returns (k: nat)
    requires ' ' in name
    ensures var names := Split(name, ' '); var last := names[|names| - 1];
      && k < |name| && name[k] == ' ' && name[k + 1..] == last && ' ' !in name[k + 1..]
      && CharAt0(last) == if k + 1 < |name| then [name[k + 1]] else []
  {
    var names := Split(name, ' ');
    var last := names[|names| - 1];
    LastPiece(name, ' ');
    assert |last| < |name|;
    k := |name| - |last| - 1;
    assert name[k + 1..] == last;
  }

  /** `isProfessor` and `isStudent`: a stored user whose type is the given one. */
  predicate IsProfessor(user: Option<UserData>) {
    user.Some? && user.value.tipo == "professor"
  }

  predicate IsStudent(user: Option<UserData>) {
    user.Some? && user.value.tipo == "aluno"
  }

  /** No user is both a professor and a student. */
  lemma RolesExclusive(user: Option<UserData>)
    ensures !(IsProfessor(user) && IsStudent(user))
  {
  }

  /** What `displayUserInfo` writes: each piece only when its source field is non-empty. */
  datatype Header = Header(
    userName: Option<string>,
    userCpf: Option<string>,
    avatar: Option<string>,
    professorTitle: bool)

  function DisplayUserInfo(user: Option<UserData>): (h: Header)
    ensures user.None? ==> h == Header(None, None, None, false)
    ensures user.Some? ==>
      && (h.userName.Some? <==> user.value.nome != "")
      && (h.avatar.Some? <==> user.value.nome != "")
      && (h.userCpf.Some? <==> user.value.cpf != "")
      && (h.professorTitle <==> user.value.tipo == "professor")
    ensures h.userName.Some? ==> h.userName.value == user.value.nome
    ensures h.avatar.Some? ==> |h.avatar.value| <= 2
    ensures h.avatar.Some? ==> h.avatar.value == GetInitials(Some(user.value.nome))
    ensures h.userCpf.Some? ==>
      CpfFormat.RemoveSeparators(h.userCpf.value) == DigitsOnly(user.value.cpf)
    ensures h.userCpf.Some? ==> h.userCpf.value == CpfFormat.FormatCpf(Some(user.value.cpf))
  {
    match user
    case None => Header(None, None, None, false)
    case Some(u) =>
      CpfFormat.FormatRoundTrip(Some(u.cpf));
      Header(
        if u.nome != "" then Some(u.nome) else None,
        if u.cpf != "" then Some(CpfFormat.FormatCpf(Some(u.cpf))) else None,
        if u.nome != "" then Some(GetInitials(Some(u.nome))) else None,
        u.tipo == "professor")
  }

  /** Where the page goes 100 ms after loading. */
  datatype Landing = StayAsProfessor | RedirectToAluno | RedirectToLogin

  function LandingFor(user: Option<UserData>): (l: Landing)
    ensures l == StayAsProfessor <==> IsProfessor(user)
    ensures l == RedirectToAluno <==> IsStudent(user)
    ensures l == RedirectToLogin <==> !IsProfessor(user) && !IsStudent(user)
  {
    if IsProfessor(user) then StayAsProfessor
    else if IsStudent(user) then RedirectToAluno
    else RedirectToLogin
  }
}
