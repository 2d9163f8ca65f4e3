/** The e-mail login page of `frontend/js/login.js`: the e-mail shape check, the matching of
    an e-mail and password against the six hard-coded accounts, and the user record stored on
    success. */
module Login {
  import opened Text
  import opened Wrappers
  import Links

  // ---------------------------------------------------------------------------
  // isValidEmail: /^[^\s@]+@[^\s@]+\.[^\s@]+$/
  // ---------------------------------------------------------------------------

  /** `[^\s@]`: neither white space nor `@`. */
  predicate Plain(c: char) {
    !IsSpace(c) && c != '@'
  }

  predicate AllPlain(s: string) {
    forall k :: 0 <= k < |s| ==> Plain(s[k])
  }

  /** The regular expression read literally: `s` splits as `A@B.C` with `A`, `B` and `C`
      non-empty runs of plain characters. */
  predicate MatchesEmailPattern(s: string) {
    exists i, j | 0 < i && i + 1 < j && j + 1 < |s| ::
      s[i] == '@' && s[j] == '.' && AllPlain(s[..i]) && AllPlain(s[i + 1..j]) && AllPlain(s[j + 1..])
  }

  /** The position of the first `c` in `s` at or after `from`. */
  function IndexFrom(s: string, c: char, from: nat): (r: Option<nat>)
    requires from <= |s|
    ensures r.Some? ==> from <= r.value < |s| && s[r.value] == c
    ensures r.Some? ==> forall k :: from <= k < r.value ==> s[k] != c
    ensures r.None? ==> forall k :: from <= k < |s| ==> s[k] != c
    decreases |s| - from
  {
    if from == |s| then None
    else if s[from] == c then Some(from)
    else IndexFrom(s, c, from + 1)
  }

  /** `s.indexOf(c)`: the position of the first `c` in `s`. */
  function IndexOf(s: string, c: char): (r: Option<nat>)
    ensures r.Some? ==> r.value < |s| && s[r.value] == c && forall k :: 0 <= k < r.value ==> s[k] != c
    ensures r.None? ==> forall k :: 0 <= k < |s| ==> s[k] != c
  {
    IndexFrom(s, c, 0)
  }

  /** `isValidEmail`, stated as the checks a reader makes: no white space at all, exactly one
      `@`, something before it, and after it a `.` with something on either side. */
  predicate IsValidEmail(s: string) {
    var at := IndexOf(s, '@');
    at.Some? && ValidAround(s, at.value)
  }

  /** The checks once the first `@` is known to sit at `i`. */
  predicate ValidAround(s: string, i: nat)
    requires i < |s|
  {
    && i > 0
    && AllPlain(s[i + 1..])
    && (forall k :: 0 <= k < i ==> !IsSpace(s[k]))
    && var domain := s[i + 1..];
       |domain| >= 3 && '.' in domain[1..|domain| - 1]
  }

  /** A string passing the checks matches the regular expression. */
  lemma EmailCheckMatchesPattern(s: string)
    requires IsValidEmail(s)
    ensures MatchesEmailPattern(s)
  {
    var i := IndexOf(s, '@').value;
    var domain := s[i + 1..];
    var inner := domain[1..|domain| - 1];
    var k :| 0 <= k < |inner| && inner[k] == '.';
    var j := i + 2 + k;
    assert s[j] == inner[k];
    LocalPartPlain(s, i);
    DomainPlain(s, i, j);
    PatternWitness(s, i, j);
  }

  /** Before the first `@` there is no `@`, so a local part without white space is plain. */
  lemma LocalPartPlain(s: string, i: nat)
    requires i <= |s|
    requires forall k :: 0 <= k < i ==> s[k] != '@' && !IsSpace(s[k])
    ensures AllPlain(s[..i])
  {
    var t := s[..i];
    forall m | 0 <= m < |t| ensures Plain(t[m]) {
      assert t[m] == s[m];
    }
  }

  /** A plain domain splits at its `.` into two plain runs. */
  lemma DomainPlain(s: string, i: nat, j: nat)
    requires i < j < |s| && AllPlain(s[i + 1..])
    ensures AllPlain(s[i + 1..j]) && AllPlain(s[j + 1..])
  {
    var d := s[i + 1..];
    var b := s[i + 1..j];
    var c := s[j + 1..];
    forall m | 0 <= m < |b| ensures Plain(b[m]) {
      assert b[m] == d[m];
    }
    forall m | 0 <= m < |c| ensures Plain(c[m]) {
      assert c[m] == d[j - i + m];
    }
  }

  /** The split positions witness the regular expression. */
  lemma PatternWitness(s: string, i: nat, j: nat)
    requires 0 < i && i + 1 < j && j + 1 < |s| && s[i] == '@' && s[j] == '.'
    requires AllPlain(s[..i]) && AllPlain(s[i + 1..j]) && AllPlain(s[j + 1..])
    ensures MatchesEmailPattern(s)
  {
  }

  /** The first occurrence is where `c` occurs with no `c` before it. */
  lemma IndexOfFirst(s: string, c: char, i: nat)
    requires i < |s| && s[i] == c && forall k :: 0 <= k < i ==> s[k] != c
    ensures IndexOf(s, c) == Some(i)
  {
    IndexFromFirst(s, c, 0, i);
  }

  lemma {:induction false} IndexFromFirst(s: string, c: char, from: nat, i: nat)
    requires from <= i < |s| && s[i] == c && forall k :: from <= k < i ==> s[k] != c
    ensures IndexFrom(s, c, from) == Some(i)
    decreases i - from
  {
    if from < i {
      IndexFromFirst(s, c, from + 1, i);
    }
  }

  /** Two plain runs around a `.` make a plain run. */
  lemma PlainAroundDot(B: string, C: string)
    requires AllPlain(B) && AllPlain(C)
    ensures AllPlain(B + "." + C)
  {
    var d := B + "." + C;
    forall m | 0 <= m < |d| ensures Plain(d[m]) {
      if m < |B| {
        assert d[m] == B[m];
      } else if m > |B| {
        assert d[m] == C[m - |B| - 1];
      }
    }
  }

  /** The checks pass once the first `@`, the plain domain and an inner `.` are known. */
  lemma EmailCheckFromParts(s: string, i: nat, j: nat)
    requires IndexOf(s, '@') == Some(i) && i > 0 && i + 1 < j && j + 1 < |s| && s[j] == '.'
    requires AllPlain(s[i + 1..])
    requires forall k :: 0 <= k < i ==> !IsSpace(s[k])
    ensures IsValidEmail(s)
  {
    var domain := s[i + 1..];
    var inner := domain[1..|domain| - 1];
    assert inner[j - i - 2] == s[j];
    assert ValidAround(s, i);
  }

  /** A string split as the regular expression demands passes the checks. */
  lemma PatternPartsPassCheck(s: string, i: nat, j: nat)
    requires 0 < i && i + 1 < j && j + 1 < |s| && s[i] == '@' && s[j] == '.'
    requires AllPlain(s[..i]) && AllPlain(s[i + 1..j]) && AllPlain(s[j + 1..])
    ensures IsValidEmail(s)
  {
    var A, B, C := s[..i], s[i + 1..j], s[j + 1..];
    assert forall k :: 0 <= k < i ==> s[k] != '@' && !IsSpace(s[k]) by {
      forall m | 0 <= m < i ensures s[m] != '@' && !IsSpace(s[m]) {
        assert Plain(A[m]) && A[m] == s[m];
      }
    }
    IndexOfFirst(s, '@', i);
    assert s[i + 1..] == B + "." + C;
    PlainAroundDot(B, C);
    EmailCheckFromParts(s, i, j);
  }

  /** A string matching the regular expression passes the checks. */
  lemma PatternPassesEmailCheck(s: string)
    requires MatchesEmailPattern(s)
    ensures IsValidEmail(s)
  {
    var i, j :| 0 < i && i + 1 < j && j + 1 < |s| &&
      s[i] == '@' && s[j] == '.' && AllPlain(s[..i]) && AllPlain(s[i + 1..j]) && AllPlain(s[j + 1..]);
    PatternPartsPassCheck(s, i, j);
  }

  /** The checks and the regular expression accept the same strings. */
  lemma EmailCheckIffPattern(s: string)
    ensures IsValidEmail(s) <==> MatchesEmailPattern(s)
  {
    if IsValidEmail(s) {
      EmailCheckMatchesPattern(s);
    }
    if MatchesEmailPattern(s) {
      PatternPassesEmailCheck(s);
    }
  }

  // ---------------------------------------------------------------------------
  // The hard-coded accounts
  // ---------------------------------------------------------------------------

  datatype Credential = Credential(email: string, senha: string, tipo: string)

  const Password := "123456"
  const Domain := "@escola.com"

  /** `CREDENCIAIS`: three students and three professors, all with the same password. */
  const Credenciais: map<string, Credential> := map[
    "aluno1" := Credential("aluno1@escola.com", Password, "aluno"),
    "aluno2" := Credential("aluno2@escola.com", Password, "aluno"),
    "aluno3" := Credential("aluno3@escola.com", Password, "aluno"),
    "professor1" := Credential("professor1@escola.com", Password, "professor"),
    "professor2" := Credential("professor2@escola.com", Password, "professor"),
    "professor3" := Credential("professor3@escola.com", Password, "professor")
  ]

  /** Each key names an account of its own role whose password is the shared one. */
  lemma CredenciaisShape(key: string)
    requires key in Credenciais
    ensures Credenciais[key].senha == Password
    ensures exists d :: '1' <= d <= '3' && (key == "aluno" + [d] || key == "professor" + [d])
    ensures StartsWith(key, "aluno") ==> Credenciais[key].tipo == "aluno"
    ensures StartsWith(key, "professor") ==> Credenciais[key].tipo == "professor"
  {
    if key == "aluno1" { assert key == "aluno" + ['1'] && key[0] == 'a'; }
    else if key == "aluno2" { assert key == "aluno" + ['2'] && key[0] == 'a'; }
    else if key == "aluno3" { assert key == "aluno" + ['3'] && key[0] == 'a'; }
    else if key == "professor1" { assert key == "professor" + ['1'] && key[0] == 'p'; }
    else if key == "professor2" { assert key == "professor" + ['2'] && key[0] == 'p'; }
    else { assert key == "professor" + ['3'] && key[0] == 'p'; }
  }

  /** `word(\d)@escola\.com` occurs at position `i` of `s`. */
  predicate MatchAt(s: string, word: string, i: nat) {
    && i + |word| + 1 + |Domain| <= |s|
    && s[i..i + |word|] == word
    && IsDigit(s[i + |word|])
    && s[i + |word| + 1..i + |word| + 1 + |Domain|] == Domain
  }

  /** `s.match(/word(\d)@escola\.com/)`: the leftmost match at or after `from`. */
  function FindMatch(s: string, word: string, from: nat): (r: Option<nat>)
    ensures r.Some? ==> from <= r.value && MatchAt(s, word, r.value)
    ensures r.Some? ==> forall i :: from <= i < r.value ==> !MatchAt(s, word, i)
    ensures r.None? ==> forall i :: from <= i ==> !MatchAt(s, word, i)
    decreases |s| - from
  {
    if from + |word| + 1 + |Domain| > |s| then None
    else if MatchAt(s, word, from) then Some(from)
    else FindMatch(s, word, from + 1)
  }

  /** The account one role's `if` block selects: the e-mail starts with the role word and ends
      with the school domain, the pattern finds a digit, the key names an account, and the
      password is that account's. */
  function Lookup(word: string, email: string, password: string): (r: Option<Credential>)
    requires word == "aluno" || word == "professor"
    ensures r.Some? ==>
      && StartsWith(email, word) && EndsWith(email, Domain)
      && password == r.value.senha == Password
      && r.value.tipo == word
      && (exists i: nat :: MatchAt(email, word, i) && word + [email[i + |word|]] in Credenciais
            && r.value == Credenciais[word + [email[i + |word|]]])
  {
    if StartsWith(email, word) && EndsWith(email, Domain) then
      var m := FindMatch(email, word, 0);
      if m.Some? then
        var key := word + [email[m.value + |word|]];
        if key in Credenciais && password == Credenciais[key].senha then
          CredenciaisShape(key);
          assert key[..|word|] == word;
          Some(Credenciais[key])
        else None
      else None
    else None
  }

  /** The outcome of submitting the login form. */
  datatype LoginResult =
    | MissingFields
    | InvalidEmail
    | WrongCredentials
    | LoggedIn(user: Links.StoredUser)

  /** The submit handler, given the wall-clock time and page origin it reads: presence first,
      then the e-mail shape, then the student block and the professor block (the professor
      match, when there is one, is the one kept); on success the user record to store. */
  function Submit(email: string, password: string, now: nat, origin: string): (r: LoginResult)
    ensures r == MissingFields <==> email == "" || password == ""
    ensures r == InvalidEmail <==> email != "" && password != "" && !IsValidEmail(email)
    ensures r.LoggedIn? ==>
      && IsValidEmail(email) && EndsWith(email, Domain) && password == Password
      && r.user.email == email
      && r.user.idUnico == Links.GerarIdUnico(email, now)
      && r.user.linkUnico == Links.GerarLinkUnico(origin, r.user.tipo, r.user.idUnico)
      && (StartsWith(email, "aluno") ==> r.user.tipo == "aluno")
      && (StartsWith(email, "professor") ==> r.user.tipo == "professor")
      && (StartsWith(email, "aluno") || StartsWith(email, "professor"))
  {
    if email == "" || password == "" then MissingFields
    else if !IsValidEmail(email) then InvalidEmail
    else
      var aluno := Lookup("aluno", email, password);
      var professor := Lookup("professor", email, password);
      var found := if professor.Some? then professor else aluno;
      if found.None? then WrongCredentials
      else
        var cred := found.value;
        RolePrefixesExclusive(email);
        var id := Links.GerarIdUnico(email, now);
        LoggedIn(Links.StoredUser(email, cred.tipo, id, Links.GerarLinkUnico(origin, cred.tipo, id)))
  }

  /** No e-mail starts with both role words. */
  lemma RolePrefixesExclusive(email: string)
    ensures !(StartsWith(email, "aluno") && StartsWith(email, "professor"))
  {
    if StartsWith(email, "aluno") {
      assert email[0] == email[..5][0] == 'a';
    }
  }

  /** A valid e-mail has its `@` at one position only. */
  lemma OnlyOneAt(s: string, p: nat)
    requires IsValidEmail(s) && p < |s| && s[p] == '@'
    ensures IndexOf(s, '@') == Some(p)
  {
  }

  /** A login succeeds through the lookup of the role it reports. */
  lemma LoggedInByLookup(email: string, password: string, now: nat, origin: string)
    requires Submit(email, password, now, origin).LoggedIn?
    ensures var tipo := Submit(email, password, now, origin).user.tipo;
      (tipo == "aluno" || tipo == "professor") && IsValidEmail(email)
      && Lookup(tipo, email, password).Some?
  {
  }

  /** The table's keys are the two role words followed by a digit from 1 to 3. */
  lemma AccountKey(word: string, c: char)
    requires word == "aluno" || word == "professor"
    ensures word + [c] in Credenciais <==> '1' <= c <= '3'
    ensures word + [c] in Credenciais ==>
      Credenciais[word + [c]].tipo == word && Credenciais[word + [c]].senha == Password
  {
    var key := word + [c];
    if word == "aluno" {
      if c == '1' { assert key == "aluno1"; }
      else if c == '2' { assert key == "aluno2"; }
      else if c == '3' { assert key == "aluno3"; }
      else { assert key[5] == c; }
    } else {
      if c == '1' { assert key == "professor1"; }
      else if c == '2' { assert key == "professor2"; }
      else if c == '3' { assert key == "professor3"; }
      else { assert key[9] == c; }
    }
  }

  /** In a valid e-mail ending with the school domain, a match of the pattern sits at the end. */
  lemma MatchAtEnd(word: string, email: string, i: nat)
    requires IsValidEmail(email) && EndsWith(email, Domain) && MatchAt(email, word, i)
    ensures i + |word| + 12 == |email|
    ensures email[|email| - (|word| + 12)..] == word + [email[i + |word|]] + Domain
  {
    var at := i + |word| + 1;
    assert email[at] == Domain[0];
    assert email[|email| - 11] == Domain[0];
    OnlyOneAt(email, at);
    OnlyOneAt(email, |email| - 11);
    assert email[i..] == email[i..i + |word|] + [email[i + |word|]] + email[at..at + |Domain|];
  }

  /** A lookup that succeeds on a valid e-mail matched the end of it. */
  lemma LookupMatchesEnd(word: string, email: string, password: string)
    requires word == "aluno" || word == "professor"
    requires IsValidEmail(email) && Lookup(word, email, password).Some?
    ensures |email| >= 12 && '1' <= email[|email| - 12] <= '3'
    ensures EndsWith(email, word + [email[|email| - 12]] + Domain)
  {
    var found := Lookup(word, email, password);
    var i: nat :| MatchAt(email, word, i) && word + [email[i + |word|]] in Credenciais
      && found.value == Credenciais[word + [email[i + |word|]]];
    AccountKey(word, email[i + |word|]);
    MatchNamesEnd(word, email, i);
  }

  /** A match in a valid e-mail ending with the school domain names the end of it. */
  lemma MatchNamesEnd(word: string, email: string, i: nat)
    requires IsValidEmail(email) && EndsWith(email, Domain) && MatchAt(email, word, i)
    ensures |email| >= |word| + 12 && email[|email| - 12] == email[i + |word|]
    ensures EndsWith(email, word + [email[|email| - 12]] + Domain)
  {
    var c := email[i + |word|];
    MatchAtEnd(word, email, i);
    assert i + |word| == |email| - 12;
    SuffixEndsWith(email, word + [c] + Domain);
  }

  lemma SuffixEndsWith(s: string, t: string)
    requires |t| <= |s| && s[|s| - |t|..] == t
    ensures EndsWith(s, t)
  {
  }

  /** An accepted e-mail is exactly `<role><digit>@escola.com` with a digit from 1 to 3 at its
      end, preceded by anything: the pattern is not anchored at the start, but the single `@`
      pins the match to the end. */
  lemma LoggedInNamesAccount(email: string, password: string, now: nat, origin: string)
    requires Submit(email, password, now, origin).LoggedIn?
    ensures var tipo := Submit(email, password, now, origin).user.tipo;
      && |email| >= 12 && '1' <= email[|email| - 12] <= '3'
      && EndsWith(email, tipo + [email[|email| - 12]] + Domain)
  {
    LoggedInByLookup(email, password, now, origin);
    LookupMatchesEnd(Submit(email, password, now, origin).user.tipo, email, password);
  }

  /** An account's own e-mail is a valid e-mail. */
  lemma AccountEmailValid(word: string, d: char)
    requires word == "aluno" || word == "professor"
    requires '1' <= d <= '3'
    ensures IsValidEmail(word + [d] + Domain)
  {
    var A := word + [d];
    VisiblePlain(A);
    VisiblePlain("escola");
    VisiblePlain("com");
    assert word + [d] + Domain == A + "@" + "escola" + "." + "com";
    ValidFromParts(A, "escola", "com");
  }

  /** Printable ASCII other than `@` is plain. */
  lemma VisiblePlain(w: string)
    requires forall k :: 0 <= k < |w| ==> '!' <= w[k] <= '~' && w[k] != '@'
    ensures AllPlain(w)
  {
  }

  /** Three non-empty plain runs joined by `@` and `.` pass the checks. */
  lemma ValidFromParts(A: string, B: string, C: string)
    requires A != [] && B != [] && C != []
    requires AllPlain(A) && AllPlain(B) && AllPlain(C)
    ensures IsValidEmail(A + "@" + B + "." + C)
  {
    var s := A + "@" + B + "." + C;
    var i := |A|;
    var j := |A| + 1 + |B|;
    assert s[..i] == A && s[i + 1..j] == B && s[j + 1..] == C;
    assert s[i] == '@' && s[j] == '.';
    PatternPartsPassCheck(s, i, j);
  }

  /** Looking an account's own e-mail up under its role finds it; under the other role, nothing. */
  lemma AccountLookup(word: string, d: char)
    requires word == "aluno" || word == "professor"
    requires '1' <= d <= '3'
    ensures Lookup(word, word + [d] + Domain, Password).Some?
    ensures Lookup(if word == "aluno" then "professor" else "aluno", word + [d] + Domain, Password).None?
  {
    var email := word + [d] + Domain;
    assert MatchAt(email, word, 0) by {
      assert email[..|word|] == word;
      assert email[|word| + 1..|word| + 1 + |Domain|] == Domain;
    }
    assert FindMatch(email, word, 0) == Some(0);
    assert StartsWith(email, word) && EndsWith(email, Domain);
    AccountKey(word, d);
    var other := if word == "aluno" then "professor" else "aluno";
    assert !StartsWith(email, other) by {
      assert email[0] == word[0] != other[0];
    }
  }

  /** Each of the six accounts logs in with its own e-mail and the shared password, with the
      role its e-mail names. */
  lemma AccountsLogIn(word: string, d: char, now: nat, origin: string)
    requires word == "aluno" || word == "professor"
    requires '1' <= d <= '3'
    ensures var r := Submit(word + [d] + Domain, Password, now, origin);
      r.LoggedIn? && r.user.tipo == word
  {
    AccountEmailValid(word, d);
    AccountLookup(word, d);
    AccountKey(word, d);
  }

  /** Under its own role, the lookup finds the account any valid e-mail names at its end:
      `<role><1-3>@escola.com` after the role word, with the shared password. */
  lemma LookupFindsNamedAccount(word: string, d: char, email: string)
    requires word == "aluno" || word == "professor"
    requires '1' <= d <= '3'
    requires IsValidEmail(email) && StartsWith(email, word) && EndsWith(email, word + [d] + Domain)
    ensures word + [d] in Credenciais && Lookup(word, email, Password) == Some(Credenciais[word + [d]])
  {
    NamedSuffixMatches(word, d, email);
    MatchFindsNamedDigit(word, d, email);
    AccountKey(word, d);
  }

  /** In such an e-mail the search finds the match whose digit is `d`. */
  lemma MatchFindsNamedDigit(word: string, d: char, email: string)
    requires '1' <= d <= '3'
    requires IsValidEmail(email) && EndsWith(email, word + [d] + Domain)
    ensures FindMatch(email, word, 0).Some?
    ensures email[FindMatch(email, word, 0).value + |word|] == d
  {
    NamedSuffixMatches(word, d, email);
    FoundWhereMatched(email, word, |email| - |word| - 12);
    var m := FindMatch(email, word, 0).value;
    MatchAtEnd(word, email, m);
  }

  /** The search finds something once some position matches. */
  lemma FoundWhereMatched(s: string, word: string, i: nat)
    requires MatchAt(s, word, i)
    ensures FindMatch(s, word, 0).Some?
  {
  }

  /** An e-mail ending with `word<d>@escola.com` ends with the domain and has a match there. */
  lemma NamedSuffixMatches(word: string, d: char, email: string)
    requires EndsWith(email, word + [d] + Domain)
    ensures EndsWith(email, Domain)
    ensures MatchAt(email, word, |email| - |word| - 12) || !IsDigit(d)
  {
    var suffix := word + [d] + Domain;
    var p := |email| - |suffix|;
    assert email[p..] == suffix;
    assert email[p..p + |word|] == suffix[..|word|] == word;
    assert email[p + |word|] == suffix[|word|] == d;
    assert email[p + |word| + 1..p + |word| + 1 + |Domain|] == suffix[|word| + 1..] == Domain;
    assert email[|email| - |Domain|..] == suffix[|word| + 1..];
  }

  /** Any valid e-mail that starts with a role word and ends with that role's account name and
      the school domain logs in with the shared password, under that role; the e-mail need not
      be an account's own, since the pattern is not anchored at the start. */
  lemma NamedAccountLogsIn(email: string, word: string, d: char, now: nat, origin: string)
    requires word == "aluno" || word == "professor"
    requires '1' <= d <= '3'
    requires IsValidEmail(email) && StartsWith(email, word) && EndsWith(email, word + [d] + Domain)
    ensures var r := Submit(email, Password, now, origin);
      r.LoggedIn? && r.user.tipo == word
  {
    LookupFindsNamedAccount(word, d, email);
    RolePrefixesExclusive(email);
    AccountKey(word, d);
  }

  /** A login succeeds exactly for a valid e-mail of the form `<role>…<role><1-3>@escola.com`
      with the shared password. */
  lemma LoginIff(email: string, password: string, now: nat, origin: string)
    ensures Submit(email, password, now, origin).LoggedIn? <==>
      && IsValidEmail(email) && password == Password
      && exists word, d :: (word == "aluno" || word == "professor") && '1' <= d <= '3'
           && StartsWith(email, word) && EndsWith(email, word + [d] + Domain)
  {
    if Submit(email, password, now, origin).LoggedIn? {
      var tipo := Submit(email, password, now, origin).user.tipo;
      LoggedInNamesAccount(email, password, now, origin);
      LoggedInByLookup(email, password, now, origin);
      assert StartsWith(email, tipo) && EndsWith(email, tipo + [email[|email| - 12]] + Domain);
    }
    if IsValidEmail(email) && password == Password
       && exists word, d :: (word == "aluno" || word == "professor") && '1' <= d <= '3'
            && StartsWith(email, word) && EndsWith(email, word + [d] + Domain) {
      var word, d :| (word == "aluno" || word == "professor") && '1' <= d <= '3'
        && StartsWith(email, word) && EndsWith(email, word + [d] + Domain);
      NamedAccountLogsIn(email, word, d, now, origin);
    }
  }

  /** A successful login stores a user whose own link passes the token check and whose role
      passes the permission check for its own area. */
  lemma LoginGrantsAccess(email: string, password: string, now: nat, origin: string)
    requires Submit(email, password, now, origin).LoggedIn?
    ensures var user := Submit(email, password, now, origin).user;
      && Links.ValidarTokenAcesso(Some(user), Links.TokenOf(user.linkUnico)).Valid?
      && Links.VerificarPermissaoAcesso(Some(user), user.tipo).allowed
  {
    var user := Submit(email, password, now, origin).user;
    Links.LinkCarriesId(origin, user.tipo, email, now);
  }

  /** On loading the login page, a stored user is sent to its own area. */
  function RedirectIfLoggedIn(stored: Option<Links.StoredUser>, pathname: string): (r: Option<string>)
    ensures r.Some? <==> stored.Some? && pathname == "/login"
    ensures r.Some? ==> r.value == "/" + stored.value.tipo
  {
    if stored.Some? && pathname == "/login" then Some("/" + stored.value.tipo) else None
  }
}
