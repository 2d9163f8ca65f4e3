/** The shared credentials record (`frontend/js/credenciais.js`): the base students and
    professors, the professor list restored from browser storage, and `adicionarProfessor`,
    which appends a CPF once and writes the list back to storage. */
module Credentials {
  import opened Wrappers

  datatype Student = Student(cpf: string, turma: string, nome: string)

  datatype Credentials = Credentials(
    alunos: seq<Student>,
    professores: seq<string>,
    senhaPadrao: string,
    turmas: seq<string>)

  /** `CREDENCIAIS_BASE`. */
  const Base: Credentials := Credentials(
    [ Student("12345678901", "9A", "Aluno 1"),
      Student("23456789012", "9B", "Aluno 2"),
      Student("34567890123", "8A", "Aluno 3"),
      Student("51833319877", "9B", "Samuel Reis") ],
    ["98765432100"],
    "Escolasesi123456",
    ["9B", "9A", "8B", "8A", "7A", "7B", "6A", "6B"])

  /** The record built at load time from the `credenciaisProfessores` storage entry, given as
      the parsed list (`None` when the entry is absent or does not parse): a non-empty saved
      list replaces the base professors, anything else keeps them. */
  function Load(saved: Option<seq<string>>): (c: Credentials)
    ensures c.alunos == Base.alunos && c.senhaPadrao == Base.senhaPadrao && c.turmas == Base.turmas
    ensures saved.Some? && saved.value != [] ==> c.professores == saved.value
    ensures saved.None? || saved.value == [] ==> c.professores == Base.professores
    ensures c.professores != []
  {
    var salvos := if saved.Some? then saved.value else [];
    if |salvos| > 0 then Base.(professores := salvos) else Base
  }

  /** The outcome of `adicionarProfessor`: the record afterwards, the storage entry afterwards
      and the returned flag. */
  datatype AddResult = AddResult(creds: Credentials, storage: Option<seq<string>>, added: bool)

  /** `adicionarProfessor(cpf)`, with `storage` the current storage entry and `persistOk`
      telling whether the storage write succeeds. The CPF is appended when absent, before the
      write is attempted, so a failed write still leaves it in the in-memory list. */
  function AdicionarProfessor(c: Credentials, cpf: string, storage: Option<seq<string>>,
                              persistOk: bool): (r: AddResult)
    ensures r.creds.alunos == c.alunos && r.creds.senhaPadrao == c.senhaPadrao
    ensures r.creds.turmas == c.turmas
    ensures cpf in r.creds.professores
    ensures cpf in c.professores ==> r == AddResult(c, storage, false)
    ensures cpf !in c.professores ==> r.creds.professores == c.professores + [cpf]
    ensures r.added <==> cpf !in c.professores && persistOk
    ensures r.storage != storage ==> r.storage == Some(r.creds.professores)
    ensures r.added ==> r.storage == Some(r.creds.professores)
  {
    if cpf !in c.professores then
      var c' := c.(professores := c.professores + [cpf]);
      if persistOk then AddResult(c', Some(c'.professores), true)
      else AddResult(c', storage, false)
    else AddResult(c, storage, false)
  }

  predicate NoDuplicates(s: seq<string>) {
    forall i, j :: 0 <= i < j < |s| ==> s[i] != s[j]
  }

  /** Adding keeps the professor list free of duplicates. */
  lemma AddKeepsNoDuplicates(c: Credentials, cpf: string, storage: Option<seq<string>>, persistOk: bool)
    requires NoDuplicates(c.professores)
    ensures NoDuplicates(AdicionarProfessor(c, cpf, storage, persistOk).creds.professores)
  {
  }

  /** Adding the same CPF twice: the second call returns false and changes nothing. */
  lemma AddTwice(c: Credentials, cpf: string, storage: Option<seq<string>>, ok1: bool, ok2: bool)
    ensures var r1 := AdicionarProfessor(c, cpf, storage, ok1);
      AdicionarProfessor(r1.creds, cpf, r1.storage, ok2) == AddResult(r1.creds, r1.storage, false)
  {
  }

  /** After a successful addition, reloading the page restores the same professor list. */
  lemma AddThenReload(c: Credentials, cpf: string, storage: Option<seq<string>>)
    requires c.alunos == Base.alunos && c.senhaPadrao == Base.senhaPadrao && c.turmas == Base.turmas
    requires AdicionarProfessor(c, cpf, storage, true).added
    ensures Load(AdicionarProfessor(c, cpf, storage, true).storage)
         == AdicionarProfessor(c, cpf, storage, true).creds
  {
  }

  /** A run of additions, each with its own storage outcome. */
  function AddAll(c: Credentials, cpfs: seq<string>, storage: Option<seq<string>>,
                  persist: seq<bool>): (r: AddResult)
    requires |persist| == |cpfs|
    decreases |cpfs|
  {
    if cpfs == [] then AddResult(c, storage, false)
    else
      var r1 := AdicionarProfessor(c, cpfs[0], storage, persist[0]);
      AddAll(r1.creds, cpfs[1..], r1.storage, persist[1..])
  }

  /** Any run of additions keeps the list duplicate-free and ends with exactly the old
      professors plus the added CPFs, the old ones first and in order. */
  lemma {:induction false} AddAllContents(c: Credentials, cpfs: seq<string>,
                                          storage: Option<seq<string>>, persist: seq<bool>)
    requires |persist| == |cpfs|
    requires NoDuplicates(c.professores)
    ensures var p := AddAll(c, cpfs, storage, persist).creds.professores;
      && NoDuplicates(p)
      && c.professores <= p
      && (forall x :: x in p <==> x in c.professores || x in cpfs)
    decreases |cpfs|
  {
    if cpfs != [] {
      var r1 := AdicionarProfessor(c, cpfs[0], storage, persist[0]);
      AddKeepsNoDuplicates(c, cpfs[0], storage, persist[0]);
      AddAllContents(r1.creds, cpfs[1..], r1.storage, persist[1..]);
      var p := AddAll(c, cpfs, storage, persist).creds.professores;
      assert c.professores <= r1.creds.professores <= p;
      forall x ensures x in p <==> x in c.professores || x in cpfs {
        assert x in cpfs <==> x == cpfs[0] || x in cpfs[1..];
      }
    }
  }
}
