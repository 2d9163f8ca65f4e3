/** Personal access identifiers and links of `frontend/js/linksUnicos.js`: a 32-bit string
    hash in the style of Java's `hashCode`, base-36 rendering, the link string, and the token
    and role checks against the stored user. */
module Links {
  import opened Text
  import opened Wrappers

  const TwoTo31: int := 0x8000_0000
  const TwoTo32: int := 0x1_0000_0000

  /** ECMAScript ToInt32, what `x | 0` and the operands of `<<` go through: the value modulo
      2^32 read as a signed 32-bit integer. */
  function ToInt32(x: int): (r: int)
    ensures -TwoTo31 <= r < TwoTo31
    ensures (x - r) % TwoTo32 == 0
  {
    var m := x % TwoTo32;
    if m >= TwoTo31 then m - TwoTo32 else m
  }

  /** ToInt32 depends only on the value modulo 2^32. */
  lemma ToInt32Congruent(x: int, y: int)
    requires (x - y) % TwoTo32 == 0
    ensures ToInt32(x) == ToInt32(y)
  {
    var q := (x - y) / TwoTo32;
    assert x == y + q * TwoTo32;
    ModShift(y, q);
  }

  lemma ModShift(y: int, q: int)
    ensures (y + q * TwoTo32) % TwoTo32 == y % TwoTo32
  {
  }

  /** One step of the loop body: `hash = ((hash << 5) - hash) + code; hash |= 0`. */
  function HashStep(hash: int, c: char): int {
    ToInt32(ToInt32(hash * 32) - hash + c as int)
  }

  /** The hash of a string: the loop run over every character, starting from 0. */
  function Hash(s: string): (h: int)
    ensures -TwoTo31 <= h < TwoTo31
  {
    if s == [] then 0 else HashStep(Hash(s[..|s| - 1]), s[|s| - 1])
  }

  /** The step is the multiply-by-31 update `h*31 + c`, wrapped to int32. */
  lemma HashStepIsTimes31(hash: int, c: char)
    ensures HashStep(hash, c) == ToInt32(hash * 31 + c as int)
  {
    var a := ToInt32(hash * 32);
    assert (hash * 32 - a) % TwoTo32 == 0;
    assert (a - hash + c as int) - (hash * 31 + c as int) == a - hash * 32;
    ToInt32Congruent(a - hash + c as int, hash * 31 + c as int);
  }

  /** The polynomial hash over the unbounded integers: sum of `c_i * 31^(n-1-i)`. */
  function PolyHash(s: string): int {
    if s == [] then 0 else PolyHash(s[..|s| - 1]) * 31 + s[|s| - 1] as int
  }

  /** The 32-bit hash is the polynomial hash read as int32: the wrap after every step gives the
      same result as one wrap at the end. */
  lemma {:induction false} HashIsWrappedPolyHash(s: string)
    ensures Hash(s) == ToInt32(PolyHash(s))
    decreases |s|
  {
    if s != [] {
      var p := s[..|s| - 1];
      var c := s[|s| - 1];
      HashIsWrappedPolyHash(p);
      HashStepIsTimes31(Hash(p), c);
      WrapTimes31(Hash(p), PolyHash(p), c as int);
    }
  }

  /** Values congruent modulo 2^32 stay congruent through `x * 31 + c`. */
  lemma WrapTimes31(h: int, P: int, c: int)
    requires h == ToInt32(P)
    ensures ToInt32(h * 31 + c) == ToInt32(P * 31 + c)
  {
    var d := P - h;
    var k := d / TwoTo32;
    assert d == k * TwoTo32;
    var diff := (P * 31 + c) - (h * 31 + c);
    assert diff == (k * 31) * TwoTo32 by {
      assert diff == d * 31;
    }
    ModShift(0, k * 31);
    ToInt32Congruent(P * 31 + c, h * 31 + c);
  }

  /** The hash of the empty string is 0. */
  lemma HashEmpty()
    ensures Hash("") == 0
  {
  }

  // ---------------------------------------------------------------------------
  // Number.prototype.toString(36) on non-negative integers
  // ---------------------------------------------------------------------------

  predicate IsBase36Char(c: char) {
    '0' <= c <= '9' || 'a' <= c <= 'z'
  }

  function Base36Digit(v: nat): (c: char)
    requires v < 36
    ensures IsBase36Char(c)
  {
    if v < 10 then ('0' as int + v) as char else ('a' as int + v - 10) as char
  }

  function Base36Value(c: char): (v: nat)
    requires IsBase36Char(c)
    ensures v < 36 && Base36Digit(v) == c
  {
    if c <= '9' then c as int - '0' as int else c as int - 'a' as int + 10
  }

  /** The base-36 numeral of `n`, most significant digit first, without leading zeros. */
  function ToBase36(n: nat): (r: string)
    ensures |r| >= 1
    ensures forall i :: 0 <= i < |r| ==> IsBase36Char(r[i])
    ensures r[0] == '0' ==> n == 0 && r == "0"
  {
    if n < 36 then [Base36Digit(n)] else ToBase36(n / 36) + [Base36Digit(n % 36)]
  }

  /** Reading a base-36 numeral. */
  function FromBase36(s: string): nat
    requires forall i :: 0 <= i < |s| ==> IsBase36Char(s[i])
  {
    if s == [] then 0 else FromBase36(s[..|s| - 1]) * 36 + Base36Value(s[|s| - 1])
  }

  /** Rendering loses nothing: reading the numeral back gives the number. */
  lemma {:induction false} Base36RoundTrip(n: nat)
    ensures FromBase36(ToBase36(n)) == n
    decreases n
  {
    var r := ToBase36(n);
    if n < 36 {
      assert r[..0] == [];
    } else {
      Base36RoundTrip(n / 36);
      assert r[..|r| - 1] == ToBase36(n / 36);
    }
  }

  /** Distinct numbers render differently. */
  lemma Base36Injective(m: nat, n: nat)
    requires ToBase36(m) == ToBase36(n)
    ensures m == n
  {
    Base36RoundTrip(m);
    Base36RoundTrip(n);
  }

  // ---------------------------------------------------------------------------
  // gerarIdUnico, gerarLinkUnico
  // ---------------------------------------------------------------------------

  function Abs(x: int): nat {
    if x < 0 then -x else x
  }

  /** `gerarIdUnico(email)` at wall-clock time `now` (milliseconds): the base-36 magnitude of
      the hash, then the base-36 timestamp. */
  function GerarIdUnico(email: string, now: nat): (id: string)
    ensures |id| >= 2
    ensures forall i :: 0 <= i < |id| ==> IsBase36Char(id[i])
    ensures var h := ToBase36(Abs(Hash(email)));
      StartsWith(id, h) && FromBase36(id[|h|..]) == now
    ensures |id| == |ToBase36(Abs(Hash(email)))| + |ToBase36(now)|
  {
    var h := ToBase36(Abs(Hash(email)));
    var t := ToBase36(now);
    Base36RoundTrip(now);
    assert (h + t)[|h|..] == t;
    h + t
  }

  /** The hash is not injective: two different e-mails can share a hash, and then, at the
      same instant, the same identifier. */
  lemma IdsCanCollide(now: nat)
    ensures GerarIdUnico("Aa", now) == GerarIdUnico("BB", now)
  {
    assert Hash("A") == 65 by {
      assert "A"[..0] == [];
      assert ToInt32(0) == 0;
      assert ToInt32(65) == 65;
    }
    assert Hash("B") == 66 by {
      assert "B"[..0] == [];
      assert ToInt32(0) == 0;
      assert ToInt32(66) == 66;
    }
    assert Hash("Aa") == 2112 by {
      assert "Aa"[..1] == "A";
      assert ToInt32(2080) == 2080;
      assert ToInt32(2112) == 2112;
    }
    assert Hash("BB") == 2112 by {
      assert "BB"[..1] == "B";
      assert ToInt32(2112) == 2112;
    }
  }

  /** `gerarLinkUnico(tipo, idUnico)` under the page origin `origin`. */
  function GerarLinkUnico(origin: string, tipo: string, id: string): (link: string)
    ensures StartsWith(link, origin + "/" + tipo + "/")
    ensures EndsWith(link, "/acesso?token=" + id)
    ensures |link| == |origin| + |tipo| + 15 + |id|
  {
    var link := origin + "/" + tipo + "/acesso?token=" + id;
    assert link == (origin + "/" + tipo + "/") + ("acesso?token=" + id);
    assert link == (origin + "/" + tipo) + ("/acesso?token=" + id);
    link
  }

  /** The text after the last `=`: the token a link carries. */
  function TokenOf(link: string): (t: string)
    ensures '=' !in t && EndsWith(link, t)
  {
    if link == [] || link[|link| - 1] == '=' then []
    else
      var t := TokenOf(link[..|link| - 1]) + [link[|link| - 1]];
      assert link == link[..|link| - 1] + [link[|link| - 1]];
      t
  }

  lemma {:induction false} TokenOfAppend(prefix: string, token: string)
    requires '=' !in token
    requires prefix != [] && prefix[|prefix| - 1] == '='
    ensures TokenOf(prefix + token) == token
    decreases |token|
  {
    if token != [] {
      var l := prefix + token;
      assert l[..|l| - 1] == prefix + token[..|token| - 1];
      TokenOfAppend(prefix, token[..|token| - 1]);
    } else {
      assert prefix + token == prefix;
    }
  }

  /** A generated link gives back its identifier as its token. */
  lemma LinkCarriesId(origin: string, tipo: string, email: string, now: nat)
    ensures var id := GerarIdUnico(email, now);
      TokenOf(GerarLinkUnico(origin, tipo, id)) == id
  {
    var id := GerarIdUnico(email, now);
    var prefix := origin + "/" + tipo + "/acesso?token=";
    assert GerarLinkUnico(origin, tipo, id) == prefix + id;
    assert '=' !in id by {
      forall i | 0 <= i < |id| ensures id[i] != '=' {
        assert IsBase36Char(id[i]);
      }
    }
    TokenOfAppend(prefix, id);
  }

  // ---------------------------------------------------------------------------
  // validarTokenAcesso, verificarPermissaoAcesso
  // ---------------------------------------------------------------------------

  /** The `usuarioLogado` record the login page stores. */
  datatype StoredUser = StoredUser(email: string, tipo: string, idUnico: string, linkUnico: string)

  datatype TokenCheck = Valid(user: StoredUser) | Invalid

  /** `validarTokenAcesso(token)` against the stored user, if any. */
  function ValidarTokenAcesso(stored: Option<StoredUser>, token: string): (r: TokenCheck)
    ensures r.Valid? <==> stored.Some? && stored.value.idUnico == token
    ensures r.Valid? ==> r.user == stored.value
  {
    if stored.Some? && stored.value.idUnico == token then Valid(stored.value) else Invalid
  }

  /** The answer of `verificarPermissaoAcesso` and where the page is sent when denied. */
  datatype Permission = Permission(allowed: bool, redirect: Option<string>)

  function VerificarPermissaoAcesso(stored: Option<StoredUser>, tipoPermitido: string): (p: Permission)
    ensures p.allowed <==> stored.Some? && stored.value.tipo == tipoPermitido
    ensures p.allowed <==> p.redirect.None?
    ensures stored.None? ==> p.redirect == Some("/login")
    ensures stored.Some? && !p.allowed ==> p.redirect == Some("/" + stored.value.tipo)
  {
    if stored.None? then Permission(false, Some("/login"))
    else if stored.value.tipo != tipoPermitido then Permission(false, Some("/" + stored.value.tipo))
    else Permission(true, None)
  }
}
