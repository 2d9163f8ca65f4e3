/** String primitives the browser code relies on: `replace(/\D/g, '')`, `trim()`,
    `split(' ')`, `includes`, `startsWith`, `endsWith` and ASCII `toUpperCase`. */
module Text {

  /** `\d` in a JavaScript regular expression: the ASCII digits only. */
  predicate IsDigit(c: char) {
    '0' <= c <= '9'
  }

  predicate AllDigits(s: string) {
    forall i :: 0 <= i < |s| ==> IsDigit(s[i])
  }

  /** ECMAScript WhiteSpace and LineTerminator code points: the characters `\s` matches
      and that `String.prototype.trim` removes. */
  predicate IsSpace(c: char) {
    var n := c as int;
    || 0x09 <= n <= 0x0D || n == 0x20 || n == 0xA0 || n == 0x1680
    || 0x2000 <= n <= 0x200A || n == 0x2028 || n == 0x2029 || n == 0x202F
    || n == 0x205F || n == 0x3000 || n == 0xFEFF
  }

  predicate AllSpace(s: string) {
    forall i :: 0 <= i < |s| ==> IsSpace(s[i])
  }

  // ---------------------------------------------------------------------------
  // replace(/\D/g, '')
  // ---------------------------------------------------------------------------

  /** The digits of `s`, in order: `s.replace(/\D/g, '')`. */
  function DigitsOnly(s: string): (r: string)
    ensures AllDigits(r)
    ensures |r| <= |s|
    ensures AllDigits(s) ==> r == s
  {
    if s == [] then []
    else (if IsDigit(s[0]) then [s[0]] else []) + DigitsOnly(s[1..])
  }

  /** Stripping non-digits works piecewise, so it can be pushed through a concatenation. */
  lemma {:induction false} DigitsOnlyAppend(a: string, b: string)
    ensures DigitsOnly(a + b) == DigitsOnly(a) + DigitsOnly(b)
    decreases |a|
  {
    if a == [] {
      assert a + b == b;
    } else {
      assert (a + b)[1..] == a[1..] + b;
      DigitsOnlyAppend(a[1..], b);
    }
  }

  /** A single character is kept exactly when it is a digit; with `DigitsOnlyAppend` this
      fixes `DigitsOnly` on every string. */
  lemma DigitsOnlySingle(c: char)
    ensures DigitsOnly([c]) == (if IsDigit(c) then [c] else [])
  {
    assert [c][1..] == [];
  }

  /** A character occurs in the stripped string exactly when it is a digit of the input. */
  lemma {:induction false} DigitsOnlyKeepsDigits(s: string)
    ensures forall c :: c in DigitsOnly(s) <==> c in s && IsDigit(c)
    decreases |s|
  {
    if s != [] {
      DigitsOnlyKeepsDigits(s[1..]);
      assert s == [s[0]] + s[1..];
      forall c
        ensures c in s <==> c == s[0] || c in s[1..]
      {
        if c in s {
          var k :| 0 <= k < |s| && s[k] == c;
          if k > 0 {
            assert s[1..][k - 1] == c;
          }
        }
      }
    }
  }

  /** Stripping twice is stripping once. */
  lemma DigitsOnlyIdempotent(s: string)
    ensures DigitsOnly(DigitsOnly(s)) == DigitsOnly(s)
  {
  }

  // ---------------------------------------------------------------------------
  // trim()
  // ---------------------------------------------------------------------------

  /** `s` without its leading white space: a suffix of `s`. */
  function TrimStart(s: string): (r: string)
    ensures |r| <= |s|
    ensures r == [] || !IsSpace(r[0])
    decreases |s|
  {
    if |s| > 0 && IsSpace(s[0]) then TrimStart(s[1..]) else s
  }

  /** `s` without its trailing white space: a prefix of `s`. */
  function TrimEnd(s: string): (r: string)
    ensures |r| <= |s|
    ensures r == [] || !IsSpace(r[|r| - 1])
    decreases |s|
  {
    if |s| > 0 && IsSpace(s[|s| - 1]) then TrimEnd(s[..|s| - 1]) else s
  }

  /** `TrimStart` keeps a suffix of its argument. */
  lemma {:induction false} TrimStartSuffix(s: string)
    ensures TrimStart(s) == s[|s| - |TrimStart(s)|..]
    decreases |s|
  {
    if |s| > 0 && IsSpace(s[0]) {
      TrimStartSuffix(s[1..]);
    }
  }

  /** `TrimEnd` keeps a prefix of its argument. */
  lemma {:induction false} TrimEndPrefix(s: string)
    ensures TrimEnd(s) == s[..|TrimEnd(s)|]
    decreases |s|
  {
    if |s| > 0 && IsSpace(s[|s| - 1]) {
      TrimEndPrefix(s[..|s| - 1]);
    }
  }

  /** What `TrimStart` drops is white space. */
  lemma {:induction false} TrimStartDropsSpace(s: string)
    ensures AllSpace(s[..|s| - |TrimStart(s)|])
    decreases |s|
  {
    if |s| > 0 && IsSpace(s[0]) {
      TrimStartDropsSpace(s[1..]);
      var n := |s| - |TrimStart(s)|;
      assert s[..n] == [s[0]] + s[1..][..n - 1];
    }
  }

  /** What `TrimEnd` drops is white space. */
  lemma {:induction false} TrimEndDropsSpace(s: string)
    ensures AllSpace(s[|TrimEnd(s)|..])
    decreases |s|
  {
    if |s| > 0 && IsSpace(s[|s| - 1]) {
      var init := s[..|s| - 1];
      TrimEndDropsSpace(init);
      var n := |TrimEnd(s)|;
      assert s[n..] == init[n..] + [s[|s| - 1]];
    }
  }

  /** `s.trim()`: the slice of `s` left after dropping white space at both ends. */
  function Trim(s: string): (r: string)
    ensures r == [] || (!IsSpace(r[0]) && !IsSpace(r[|r| - 1]))
    ensures |r| <= |s|
  {
    TrimEndPrefix(TrimStart(s));
    TrimEnd(TrimStart(s))
  }

  /** What `trim()` returns is a slice of its input, and what it cuts off on either side is
      white space. (Kept out of `Trim`'s own contract so that its many callers do not carry
      the quantifier.) */
  lemma TrimIsInfix(s: string)
    ensures exists i, j :: 0 <= i <= j <= |s| && Trim(s) == s[i..j] && AllSpace(s[..i]) && AllSpace(s[j..])
  {
    var t := TrimStart(s);
    var i := |s| - |t|;
    var j := i + |TrimEnd(t)|;
    TrimStartSuffix(s);
    TrimStartDropsSpace(s);
    TrimEndPrefix(t);
    TrimEndDropsSpace(t);
    assert Trim(s) == s[i..j];
    assert t[|TrimEnd(t)|..] == s[j..];
  }

  /** A string is blank after trimming exactly when every character is white space,
      which is what `if (!x.trim())` tests. */
  lemma TrimEmptyIffAllSpace(s: string)
    ensures Trim(s) == [] <==> AllSpace(s)
  {
    var t := TrimStart(s);
    TrimStartSuffix(s);
    TrimStartDropsSpace(s);
    TrimEndDropsSpace(t);
    if Trim(s) == [] {
      assert AllSpace(t[0..]);
      assert t == [];
      assert s[..|s|] == s;
    }
  }

  /** Trimming text that has no white space at its ends gives it back. */
  lemma TrimOfTrimmed(s: string)
    requires s == [] || (!IsSpace(s[0]) && !IsSpace(s[|s| - 1]))
    ensures Trim(s) == s
  {
  }

  /** Trimming never removes a digit, so stripping non-digits after `trim()` gives the same
      digits as stripping the untrimmed text. */
  lemma DigitsOnlyTrim(s: string)
    ensures DigitsOnly(Trim(s)) == DigitsOnly(s)
  {
    DigitsOnlyTrimStart(s);
    DigitsOnlyTrimEnd(TrimStart(s));
  }

  lemma DigitsOnlyTrimStart(s: string)
    ensures DigitsOnly(TrimStart(s)) == DigitsOnly(s)
  {
    var t := TrimStart(s);
    TrimStartSuffix(s);
    TrimStartDropsSpace(s);
    var pre := s[..|s| - |t|];
    assert s == pre + t;
    DigitsOnlyAppend(pre, t);
    NoDigitsInSpace(pre);
  }

  lemma DigitsOnlyTrimEnd(t: string)
    ensures DigitsOnly(TrimEnd(t)) == DigitsOnly(t)
  {
    var u := TrimEnd(t);
    TrimEndPrefix(t);
    TrimEndDropsSpace(t);
    var post := t[|u|..];
    assert t == u + post;
    DigitsOnlyAppend(u, post);
    NoDigitsInSpace(post);
  }

  lemma NoDigitsInSpace(s: string)
    requires AllSpace(s)
    ensures DigitsOnly(s) == []
  {
  }

  // ---------------------------------------------------------------------------
  // startsWith, endsWith, includes
  // ---------------------------------------------------------------------------

  predicate StartsWith(s: string, prefix: string) {
    |prefix| <= |s| && s[..|prefix|] == prefix
  }

  predicate EndsWith(s: string, suffix: string) {
    |suffix| <= |s| && s[|s| - |suffix|..] == suffix
  }

  /** `s.includes(sub)`: `sub` occurs at some position of `s`. */
  predicate Contains(s: string, sub: string)
    decreases |s|
  {
    StartsWith(s, sub) || (|s| > 0 && Contains(s[1..], sub))
  }

  /** `sub` sits at offset `k` of `s`. */
  predicate OccursAt(s: string, sub: string, k: nat) {
    k + |sub| <= |s| && s[k..k + |sub|] == sub
  }

  /** `includes` read as a search: `sub` occurs in `s` exactly when it sits at some offset. */
  lemma {:induction false} ContainsIff(s: string, sub: string)
    ensures Contains(s, sub) <==> exists k: nat :: OccursAt(s, sub, k)
    decreases |s|
  {
    if Contains(s, sub) {
      if StartsWith(s, sub) {
        assert OccursAt(s, sub, 0);
      } else {
        ContainsIff(s[1..], sub);
        var k: nat :| OccursAt(s[1..], sub, k);
        assert s[k + 1..k + 1 + |sub|] == s[1..][k..k + |sub|];
        assert OccursAt(s, sub, k + 1);
      }
    }
    if exists k: nat :: OccursAt(s, sub, k) {
      var k: nat :| OccursAt(s, sub, k);
      if k > 0 {
        assert s[1..][k - 1..k - 1 + |sub|] == s[k..k + |sub|];
        assert OccursAt(s[1..], sub, k - 1);
        ContainsIff(s[1..], sub);
      } else {
        assert StartsWith(s, sub);
      }
    }
  }

  /** Whatever starts with `p` contains `p`. */
  lemma StartsWithContains(s: string, p: string)
    requires StartsWith(s, p)
    ensures Contains(s, p)
  {
  }

  /** Occurrence in a suffix is occurrence in the whole. */
  lemma {:induction false} ContainsInSuffix(s: string, k: nat, sub: string)
    requires k <= |s|
    requires Contains(s[k..], sub)
    ensures Contains(s, sub)
    decreases k
  {
    if k > 0 {
      assert s[1..][k - 1..] == s[k..];
      ContainsInSuffix(s[1..], k - 1, sub);
    }
  }

  // ---------------------------------------------------------------------------
  // split(' ') and its inverse
  // ---------------------------------------------------------------------------

  /** `s.split(sep)` for a one-character separator: every piece between separators, empty
      pieces included, so there is always at least one piece. */
  function Split(s: string, sep: char): (r: seq<string>)
    ensures |r| >= 1
    ensures forall k :: 0 <= k < |r| ==> sep !in r[k]
    decreases |s|
  {
    if s == [] then [[]]
    else
      var rest := Split(s[1..], sep);
      if s[0] == sep then [[]] + rest
      else [[s[0]] + rest[0]] + rest[1..]
  }

  /** `pieces.join(sep)`. */
  function Join(pieces: seq<string>, sep: char): string
    requires |pieces| >= 1
    decreases |pieces|
  {
    if |pieces| == 1 then pieces[0] else pieces[0] + [sep] + Join(pieces[1..], sep)
  }

  /** Splitting loses nothing: joining the pieces back gives the original string. */
  lemma {:induction false} JoinSplit(s: string, sep: char)
    ensures Join(Split(s, sep), sep) == s
    decreases |s|
  {
    if s != [] {
      var rest := Split(s[1..], sep);
      JoinSplit(s[1..], sep);
      if s[0] == sep {
        assert Split(s, sep)[1..] == rest;
      } else {
        var r := Split(s, sep);
        if |rest| == 1 {
          assert r == [[s[0]] + rest[0]];
        } else {
          assert r[1..] == rest[1..];
          assert Join(rest, sep) == rest[0] + [sep] + Join(rest[1..], sep);
        }
      }
    }
  }

  /** There is exactly one piece when the separator does not occur. */
  lemma {:induction false} SplitSingleIff(s: string, sep: char)
    ensures |Split(s, sep)| == 1 <==> sep !in s
    decreases |s|
  {
    if s != [] {
      SplitSingleIff(s[1..], sep);
      if s[0] != sep {
        assert s == [s[0]] + s[1..];
      }
    }
  }

  /** The first piece is the text before the first separator. */
  lemma FirstPiece(s: string, sep: char)
    ensures var p := Split(s, sep)[0];
      StartsWith(s, p) && (|p| == |s| || s[|p|] == sep)
  {
    var r := Split(s, sep);
    JoinSplit(s, sep);
    if |r| > 1 {
      assert s == r[0] + [sep] + Join(r[1..], sep);
      assert s[|r[0]|] == sep;
    }
  }

  /** The last piece is the text after the last separator. */
  lemma {:induction false} LastPiece(s: string, sep: char)
    ensures var r := Split(s, sep); var p := r[|r| - 1];
      EndsWith(s, p) && (|p| == |s| || s[|s| - |p| - 1] == sep)
    decreases |s|
  {
    var r := Split(s, sep);
    if s != [] {
      var rest := Split(s[1..], sep);
      LastPiece(s[1..], sep);
      var p := r[|r| - 1];
      if s[0] == sep {
        assert p == rest[|rest| - 1];
        assert s[1..][|s| - 1 - |p|..] == s[|s| - |p|..];
        if |p| == |s| - 1 {
          assert s[|s| - |p| - 1] == s[0];
        } else {
          assert s[|s| - |p| - 1] == s[1..][|s| - 1 - |p| - 1];
        }
      } else if |rest| == 1 {
        assert p == [s[0]] + rest[0];
        JoinSplit(s[1..], sep);
        assert rest[0] == s[1..];
        assert s[1..][|s| - 1 - |rest[0]|..] == rest[0];
        assert s == [s[0]] + s[1..];
      } else {
        assert p == rest[|rest| - 1];
        assert s[1..][|s| - 1 - |p|..] == s[|s| - |p|..];
        if |p| == |s| - 1 {
          JoinSplit(s[1..], sep);
          JoinLength(rest, sep);
          assert false;
        } else {
          assert s[|s| - |p| - 1] == s[1..][|s| - 1 - |p| - 1];
        }
      }
    }
  }

  /** Joining at least two pieces is longer than the first and the last piece together. */
  lemma {:induction false} JoinLength(pieces: seq<string>, sep: char)
    requires |pieces| >= 2
    ensures |Join(pieces, sep)| >= |pieces[0]| + 1 + |pieces[|pieces| - 1]|
    decreases |pieces|
  {
    if |pieces| > 2 {
      JoinLength(pieces[1..], sep);
    }
  }

  // ---------------------------------------------------------------------------
  // toUpperCase (ASCII letters)
  // ---------------------------------------------------------------------------

  function UpperChar(c: char): (u: char)
    ensures 'a' <= c <= 'z' ==> 'A' <= u <= 'Z' && u as int == c as int - 32
    ensures !('a' <= c <= 'z') ==> u == c
  {
    if 'a' <= c <= 'z' then (c as int - 32) as char else c
  }

  function Upper(s: string): (r: string)
    ensures |r| == |s|
    ensures forall i :: 0 <= i < |s| ==> r[i] == UpperChar(s[i])
  {
    seq(|s|, i requires 0 <= i < |s| => UpperChar(s[i]))
  }

  /** Upper-casing works piecewise. */
  lemma UpperConcat(a: string, b: string)
    ensures Upper(a + b) == Upper(a) + Upper(b)
  {
  }

  /** `s.charAt(0)`: the first character, or the empty string for an empty `s`. */
  function CharAt0(s: string): (r: string)
    ensures |r| <= 1
    ensures |r| == 1 <==> |s| > 0
    ensures |s| > 0 ==> r[0] == s[0]
  {
    if s == [] then [] else [s[0]]
  }
}
