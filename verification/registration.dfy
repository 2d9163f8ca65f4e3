/** The checks the registration/login form of `frontend/js/cadastro.js` makes on submit,
    before anything is sent to the server. */
module Registration {
  import opened Text
  import opened Wrappers
  import Cpf

  /** The form fields as read on submit: `tipo` is the value of the checked radio button,
      if any; each user type has its own class selector. */
  datatype Form = Form(
    cpf: string,
    password: string,
    tipo: Option<string>,
    turmaAluno: string,
    turmaProfessor: string)

  /** The outcome of the submit handler's checks. */
  datatype Verdict =
    | MissingFields
    | MissingTurmaAluno
    | MissingTurmaProfessor
    | InvalidCpf
    | Submit(cpf: string, password: string, tipo: string, turma: string)

  /** The class selector read for the chosen user type; none for any other type. */
  function TurmaFor(f: Form): (turma: Option<string>)
    ensures turma.Some? <==> f.tipo == Some("aluno") || f.tipo == Some("professor")
  {
    if f.tipo == Some("aluno") then Some(f.turmaAluno)
    else if f.tipo == Some("professor") then Some(f.turmaProfessor)
    else None
  }

  /** A JavaScript string is falsy exactly when it is empty. */
  predicate Blank(s: Option<string>) {
    s.None? || s == Some("")
  }

  function CheckForm(f: Form): (v: Verdict)
    ensures v == MissingFields <==>
      DigitsOnly(f.cpf) == [] || Trim(f.password) == [] || Blank(f.tipo)
    ensures (v == MissingTurmaAluno || v == MissingTurmaProfessor) ==>
      DigitsOnly(f.cpf) != [] && Trim(f.password) != [] && !Blank(f.tipo) && Blank(TurmaFor(f))
    ensures v == MissingTurmaAluno <==>
      DigitsOnly(f.cpf) != [] && Trim(f.password) != [] && f.tipo == Some("aluno") && f.turmaAluno == ""
    ensures v == MissingTurmaProfessor <==>
      DigitsOnly(f.cpf) != [] && Trim(f.password) != [] && !Blank(f.tipo) && f.tipo != Some("aluno")
      && Blank(TurmaFor(f))
    ensures v == InvalidCpf <==>
      DigitsOnly(f.cpf) != [] && Trim(f.password) != [] && !Blank(f.tipo) && !Blank(TurmaFor(f))
      && !Cpf.IsValidCpf(f.cpf)
    ensures v.Submit? ==>
      && Cpf.IsValidCpf(v.cpf) && v.cpf == DigitsOnly(f.cpf)
      && v.password == Trim(f.password) && v.password != []
      && Some(v.tipo) == f.tipo && (v.tipo == "aluno" || v.tipo == "professor")
      && Some(v.turma) == TurmaFor(f) && v.turma != []
  {
    var cpf := DigitsOnly(Trim(f.cpf));
    var password := Trim(f.password);
    DigitsOnlyTrim(f.cpf);
    Cpf.VerdictIgnoresSeparators(f.cpf);
    var turma := TurmaFor(f);
    if cpf == [] || password == [] || Blank(f.tipo) then MissingFields
    else if Blank(turma) then
      (if f.tipo == Some("aluno") then MissingTurmaAluno else MissingTurmaProfessor)
    else if !Cpf.IsValidCpf(cpf) then InvalidCpf
    else Submit(cpf, password, f.tipo.value, turma.value)
  }

  /** A missing field is reported whatever the CPF is, as long as it has some digit: the
      presence checks come before the CPF algorithm. */
  lemma PresenceBeforeCpf(f: Form, otherCpf: string)
    requires DigitsOnly(f.cpf) != [] && DigitsOnly(otherCpf) != []
    requires CheckForm(f) in {MissingFields, MissingTurmaAluno, MissingTurmaProfessor}
    ensures CheckForm(f.(cpf := otherCpf)) == CheckForm(f)
  {
  }
}
