/** The two CPF formatters that render `ddd.ddd.ddd-dd`: `formatCPF` of
    `frontend/js/user-display.js` and `formatarCPF` of `frontend/js/url.js`. */
module CpfFormat {
  import opened Text
  import opened Wrappers
  import Cpf

  /** `d.replace(/(\d{3})(\d{3})(\d{3})(\d{2})/, '$1.$2.$3-$4')` on a digit string: the
      pattern first matches at position 0 when there are at least eleven digits, so the first
      eleven are grouped and the rest follows unchanged; with fewer there is no match. */
  function GroupDigits(d: string): (r: string)
    requires AllDigits(d)
    ensures |d| < 11 ==> r == d
    ensures |d| >= 11 ==> |r| == |d| + 3 && r[3] == '.' && r[7] == '.' && r[11] == '-'
    ensures |d| >= 11 ==> r[14..] == d[11..]
  {
    if |d| < 11 then d
    else d[..3] + "." + d[3..6] + "." + d[6..9] + "-" + d[9..11] + d[11..]
  }

  /** Deleting every `.` and `-`. */
  function RemoveSeparators(s: string): (r: string)
    ensures '.' !in r && '-' !in r
    ensures |r| <= |s|
  {
    if s == [] then []
    else (if s[0] == '.' || s[0] == '-' then [] else [s[0]]) + RemoveSeparators(s[1..])
  }

  lemma {:induction false} RemoveSeparatorsAppend(a: string, b: string)
    ensures RemoveSeparators(a + b) == RemoveSeparators(a) + RemoveSeparators(b)
    decreases |a|
  {
    if a == [] {
      assert a + b == b;
    } else {
      assert (a + b)[1..] == a[1..] + b;
      RemoveSeparatorsAppend(a[1..], b);
    }
  }

  lemma {:induction false} RemoveSeparatorsOfDigits(d: string)
    requires AllDigits(d)
    ensures RemoveSeparators(d) == d
    decreases |d|
  {
    if d != [] {
      RemoveSeparatorsOfDigits(d[1..]);
    }
  }

  /** Removing separators keeps a leading run of digits ... */
  lemma RemoveSeparatorsDigits(a: string, x: string)
    requires AllDigits(a)
    ensures RemoveSeparators(a + x) == a + RemoveSeparators(x)
  {
    RemoveSeparatorsAppend(a, x);
    RemoveSeparatorsOfDigits(a);
  }

  /** ... and drops a leading separator. */
  lemma RemoveSeparatorsSep(sep: char, x: string)
    requires sep == '.' || sep == '-'
    ensures RemoveSeparators([sep] + x) == RemoveSeparators(x)
  {
    assert ([sep] + x)[1..] == x;
  }

  /** Stripping non-digits keeps a leading run of digits ... */
  lemma DigitsOnlyDigits(a: string, x: string)
    requires AllDigits(a)
    ensures DigitsOnly(a + x) == a + DigitsOnly(x)
  {
    DigitsOnlyAppend(a, x);
  }

  /** ... and drops a leading separator. */
  lemma DigitsOnlySep(sep: char, x: string)
    requires sep == '.' || sep == '-'
    ensures DigitsOnly([sep] + x) == DigitsOnly(x)
  {
    DigitsOnlyAppend([sep], x);
    assert !IsDigit([sep][0]);
  }

  /** The grouped form spelled as a right-nested concatenation. */
  lemma GroupDigitsShape(d: string)
    requires AllDigits(d) && |d| >= 11
    ensures GroupDigits(d) == d[..3] + ("." + (d[3..6] + ("." + (d[6..9] + ("-" + d[9..])))))
    ensures d == d[..3] + (d[3..6] + (d[6..9] + d[9..]))
  {
    var a, b, c, e := d[..3], d[3..6], d[6..9], d[9..];
    assert e == d[9..11] + d[11..];
    var t5 := "-" + e;
    var t4 := c + t5;
    var t3 := "." + t4;
    var t2 := b + t3;
    var t1 := "." + t2;
    var l2 := a + ".";
    var l3 := l2 + b;
    var l4 := l3 + ".";
    var l5 := l4 + c;
    var l6 := l5 + "-";
    Assoc(l6, d[9..11], d[11..]);
    Assoc(l5, "-", e);
    Assoc(l4, c, t5);
    Assoc(l3, ".", t4);
    Assoc(l2, b, t3);
    Assoc(a, ".", t2);
    assert d == a + (b + (c + e)) by {
      assert d == ((a + b) + c) + e;
      Assoc(a + b, c, e);
      Assoc(a, b, c + e);
    }
  }

  lemma Assoc(a: string, b: string, c: string)
    ensures (a + b) + c == a + (b + c)
  {
  }

  /** Grouping only inserts separators: removing them gives the digits back. */
  lemma GroupDigitsRoundTrip(d: string)
    requires AllDigits(d)
    ensures RemoveSeparators(GroupDigits(d)) == d
  {
    if |d| >= 11 {
      GroupDigitsShape(d);
      RemoveSeparatorsOfGroups(d[..3], d[3..6], d[6..9], d[9..]);
    } else {
      RemoveSeparatorsOfDigits(d);
    }
  }

  lemma RemoveSeparatorsOfGroups(a: string, b: string, c: string, e: string)
    requires AllDigits(a) && AllDigits(b) && AllDigits(c) && AllDigits(e)
    ensures RemoveSeparators(a + ("." + (b + ("." + (c + ("-" + e)))))) == a + (b + (c + e))
  {
    var t4 := "-" + e;
    var t3 := c + t4;
    var t2 := "." + t3;
    var t1 := b + t2;
    var t0 := "." + t1;
    RemoveSeparatorsSep('-', e);
    RemoveSeparatorsOfDigits(e);
    RemoveSeparatorsDigits(c, t4);
    RemoveSeparatorsSep('.', t3);
    RemoveSeparatorsDigits(b, t2);
    RemoveSeparatorsSep('.', t1);
    RemoveSeparatorsDigits(a, t0);
  }

  /** Grouping adds no digit: stripping non-digits gives the digits back. */
  lemma GroupDigitsKeepsDigits(d: string)
    requires AllDigits(d)
    ensures DigitsOnly(GroupDigits(d)) == d
  {
    if |d| >= 11 {
      GroupDigitsShape(d);
      DigitsOnlyOfGroups(d[..3], d[3..6], d[6..9], d[9..]);
    }
  }

  lemma DigitsOnlyOfGroups(a: string, b: string, c: string, e: string)
    requires AllDigits(a) && AllDigits(b) && AllDigits(c) && AllDigits(e)
    ensures DigitsOnly(a + ("." + (b + ("." + (c + ("-" + e)))))) == a + (b + (c + e))
  {
    var t4 := "-" + e;
    var t3 := c + t4;
    var t2 := "." + t3;
    var t1 := b + t2;
    var t0 := "." + t1;
    DigitsOnlySep('-', e);
    DigitsOnlyDigits(c, t4);
    DigitsOnlySep('.', t3);
    DigitsOnlyDigits(b, t2);
    DigitsOnlySep('.', t1);
    DigitsOnlyDigits(a, t0);
  }

  /** `formatCPF` (user display): empty or absent gives `''`; exactly eleven digits are
      grouped; any other digit count gives the bare digits. */
  function FormatCpf(cpf: Option<string>): (r: string)
    ensures cpf.None? || cpf == Some("") ==> r == ""
    ensures cpf.Some? && |DigitsOnly(cpf.value)| == 11 ==>
      |r| == 14 && r[3] == '.' && r[7] == '.' && r[11] == '-'
    ensures cpf.Some? && |DigitsOnly(cpf.value)| != 11 ==> r == DigitsOnly(cpf.value)
  {
    if cpf.None? || cpf == Some("") then ""
    else
      var d := DigitsOnly(cpf.value);
      if |d| == 11 then GroupDigits(d) else d
  }

  /** `formatarCPF` (unique-URL page): the same, except that it groups whenever there are
      eleven or more digits, leaving the extra digits after the `-dd` group. */
  function FormatarCpf(cpf: Option<string>): (r: string)
    ensures cpf.None? || cpf == Some("") ==> r == ""
    ensures cpf.Some? && |DigitsOnly(cpf.value)| < 11 ==> r == DigitsOnly(cpf.value)
    ensures cpf.Some? && |DigitsOnly(cpf.value)| >= 11 ==>
      |r| == |DigitsOnly(cpf.value)| + 3 && r[3] == '.' && r[7] == '.' && r[11] == '-'
      && r[14..] == DigitsOnly(cpf.value)[11..]
  {
    if cpf.None? || cpf == Some("") then "" else GroupDigits(DigitsOnly(cpf.value))
  }

  /** Removing `.` and `-` from either formatter's output gives back the stripped digits. */
  lemma FormatRoundTrip(cpf: Option<string>)
    ensures RemoveSeparators(FormatCpf(cpf)) == DigitsOnly(cpf.GetOr(""))
    ensures RemoveSeparators(FormatarCpf(cpf)) == DigitsOnly(cpf.GetOr(""))
  {
    if cpf.Some? && cpf != Some("") {
      var d := DigitsOnly(cpf.value);
      GroupDigitsRoundTrip(d);
      RemoveSeparatorsOfDigits(d);
    }
  }

  /** Formatting does not change a CPF's verdict. */
  lemma FormattedCpfSameVerdict(cpf: string)
    ensures Cpf.IsValidCpf(FormatCpf(Some(cpf))) == Cpf.IsValidCpf(cpf)
  {
    if cpf != "" {
      var d := DigitsOnly(cpf);
      GroupDigitsKeepsDigits(d);
    }
  }

  /** The two formatters agree except on inputs with more than eleven digits. */
  lemma FormattersAgree(cpf: Option<string>)
    requires cpf.Some? ==> |DigitsOnly(cpf.value)| <= 11
    ensures FormatCpf(cpf) == FormatarCpf(cpf)
  {
  }
}
