/** The Brazilian CPF number check of the registration page (`frontend/js/cadastro.js`):
    eleven digits, not all equal, whose last two digits are modulo-11 check digits of the
    digits before them. */
module Cpf {
  import opened Text

  /** `parseInt` of a one-digit string. */
  function DigitValue(c: char): (v: nat)
    requires IsDigit(c)
    ensures v < 10
    ensures c == ('0' as int + v) as char
  {
    c as int - '0' as int
  }

  /** The character `parseInt` reads back as `v`. */
  function DigitChar(v: nat): (c: char)
    requires v < 10
    ensures IsDigit(c) && DigitValue(c) == v
  {
    ('0' as int + v) as char
  }

  /** The sum over the first `n` digits of `d[j] * (top - j)`. */
  function WeightedSum(d: string, n: nat, top: int): int
    requires n <= |d| && AllDigits(d)
  {
    if n == 0 then 0 else WeightedSum(d, n - 1, top) + DigitValue(d[n - 1]) * (top - (n - 1))
  }

  /** The sum sees only the first `n` digits. */
  lemma {:induction false} WeightedSumPrefix(d: string, e: string, n: nat, top: int)
    requires n <= |d| && n <= |e| && AllDigits(d) && AllDigits(e)
    requires d[..n] == e[..n]
    ensures WeightedSum(d, n, top) == WeightedSum(e, n, top)
  {
    if n > 0 {
      assert d[..n - 1] == e[..n - 1] by {
        assert d[..n - 1] == d[..n][..n - 1];
        assert e[..n - 1] == e[..n][..n - 1];
      }
      assert d[n - 1] == d[..n][n - 1];
      assert e[n - 1] == e[..n][n - 1];
      WeightedSumPrefix(d, e, n - 1, top);
    }
  }

  /** The usual statement of a CPF check digit: with `r` the remainder of the weighted sum
      by 11, the digit is 0 when `r < 2` and `11 - r` otherwise. */
  function CheckDigit(sum: int): (dv: nat)
    ensures dv < 10
    ensures dv == 0 || (sum + dv) % 11 == 0
    ensures dv == 0 <==> sum % 11 < 2
  {
    var r := sum % 11;
    if r < 2 then 0 else 11 - r
  }

  /** The regular expression `/^(\d)\1+$/` on a digit string: two or more copies of one digit. */
  predicate IsRepdigit(d: string) {
    |d| >= 2 && forall i :: 0 <= i < |d| ==> d[i] == d[0]
  }

  /** A valid CPF: after dropping non-digits, eleven digits, not all equal, where the tenth
      is the check digit of the first nine (weights 10 down to 2) and the eleventh the check
      digit of the first ten (weights 11 down to 2). */
  predicate IsValidCpf(cpf: string) {
    var d := DigitsOnly(cpf);
    && |d| == 11
    && !IsRepdigit(d)
    && DigitValue(d[9]) == CheckDigit(WeightedSum(d, 9, 10))
    && DigitValue(d[10]) == CheckDigit(WeightedSum(d, 10, 11))
  }

  /** `(soma * 10) % 11`, with 10 and 11 read as 0, is the usual check digit. */
  lemma TimesTenReduction(soma: int)
    ensures var resto := (soma * 10) % 11;
      (if resto == 10 || resto == 11 then 0 else resto) == CheckDigit(soma)
  {
    var q := soma / 11;
    var r := soma % 11;
    assert soma * 10 == 11 * (10 * q) + 10 * r;
    assert (soma * 10) % 11 == (10 * r) % 11;
    assert 0 <= r < 11;
    if r == 0 {} else if r == 1 {} else if r == 2 {} else if r == 3 {} else if r == 4 {}
    else if r == 5 {} else if r == 6 {} else if r == 7 {} else if r == 8 {} else if r == 9 {}
    else {}
  }

  /** `isValidCPF` as written: strip, length test, repeated-digit test, then the two loops
      that accumulate the weighted sums and compare the reduced sum with the check digit. */
  method ValidateCpf(input: string) returns (valid: bool)
    ensures valid <==> IsValidCpf(input)
  {
    var cpf := DigitsOnly(input);
    if |cpf| != 11 {
      return false;
    }
    if IsRepdigit(cpf) {
      return false;
    }
    var soma := 0;
    var i := 1;
    while i <= 9
      invariant 1 <= i <= 10
      invariant soma == WeightedSum(cpf, i - 1, 10)
    {
      soma := soma + DigitValue(cpf[i - 1]) * (11 - i);
      i := i + 1;
    }
    var resto := (soma * 10) % 11;
    TimesTenReduction(soma);
    if resto == 10 || resto == 11 {
      resto := 0;
    }
    if resto != DigitValue(cpf[9]) {
      return false;
    }
    soma := 0;
    i := 1;
    while i <= 10
      invariant 1 <= i <= 11
      invariant soma == WeightedSum(cpf, i - 1, 11)
    {
      soma := soma + DigitValue(cpf[i - 1]) * (12 - i);
      i := i + 1;
    }
    resto := (soma * 10) % 11;
    TimesTenReduction(soma);
    if resto == 10 || resto == 11 {
      resto := 0;
    }
    if resto != DigitValue(cpf[10]) {
      return false;
    }
    return true;
  }

  /** Only the digits matter: a formatted CPF and its bare digits get the same verdict. */
  lemma VerdictIgnoresSeparators(cpf: string)
    ensures IsValidCpf(cpf) == IsValidCpf(DigitsOnly(cpf))
  {
    DigitsOnlyIdempotent(cpf);
  }

  /** Anything that does not reduce to eleven digits is rejected. */
  lemma RejectsWrongLength(cpf: string)
    requires |DigitsOnly(cpf)| != 11
    ensures !IsValidCpf(cpf)
  {
  }

  /** Nine base digits followed by their two check digits. */
  function CompleteCpf(base: string): (cpf: string)
    requires |base| == 9 && AllDigits(base)
    ensures |cpf| == 11 && AllDigits(cpf) && cpf[..9] == base
  {
    var d1 := DigitChar(CheckDigit(WeightedSum(base, 9, 10)));
    var partial := base + [d1];
    var d2 := DigitChar(CheckDigit(WeightedSum(partial, 10, 11)));
    partial + [d2]
  }

  /** `0 + 1 + ... + (n - 1)`: what the falling weights lose against `top`. */
  function Triangle(n: nat): nat {
    if n == 0 then 0 else Triangle(n - 1) + (n - 1)
  }

  /** When the first `n` digits are all `k`, the weighted sum is `k` times the sum of the
      weights `top, top - 1, ..., top - n + 1`; so nine copies give `54k` and ten give `65k`. */
  lemma {:induction false} ConstantWeightedSum(d: string, n: nat, top: int, k: nat)
    requires n <= |d| && AllDigits(d) && k < 10
    requires forall i :: 0 <= i < n ==> DigitValue(d[i]) == k
    ensures WeightedSum(d, n, top) == k * (n * top - Triangle(n))
  {
    if n > 0 {
      ConstantWeightedSum(d, n - 1, top, k);
      var a := (n - 1) * top - Triangle(n - 1);
      var b := top - (n - 1);
      assert (n - 1) * top + top == n * top;
      assert k * a + k * b == k * (a + b);
    }
  }

  /** The check digit of `54k` and of `65k` is `k` again, for every digit `k`. */
  lemma RepdigitCheckDigits(k: nat)
    requires k < 10
    ensures CheckDigit(54 * k) == k && CheckDigit(65 * k) == k
  {
    if k == 0 {} else if k == 1 {} else if k == 2 {} else if k == 3 {} else if k == 4 {}
    else if k == 5 {} else if k == 6 {} else if k == 7 {} else if k == 8 {} else {}
  }

  /** The weighted sums of a run of `k`: `54k` over nine digits with weights 10..2, `65k`
      over ten digits with weights 11..2. */
  lemma RepdigitSums(d: string, k: nat)
    requires |d| >= 10 && AllDigits(d) && k < 10
    requires forall i :: 0 <= i < 10 ==> DigitValue(d[i]) == k
    ensures WeightedSum(d, 9, 10) == 54 * k && WeightedSum(d, 10, 11) == 65 * k
  {
    ConstantWeightedSum(d, 9, 10, k);
    ConstantWeightedSum(d, 10, 11, k);
    assert Triangle(9) == 36 && Triangle(10) == 45;
  }

  /** A run of one digit always carries consistent check digits: the check digits of nine
      copies of `k` are `k` and `k` again. */
  lemma RepdigitChecksOut(base: string)
    requires |base| == 9 && AllDigits(base) && IsRepdigit(base)
    ensures IsRepdigit(CompleteCpf(base))
  {
    var cpf := CompleteCpf(base);
    var k := DigitValue(base[0]);
    RepdigitCheckDigits(k);
    var d1 := DigitChar(k);
    var padded := base + [d1];
    assert forall i :: 0 <= i < 10 ==> DigitValue(padded[i]) == k;
    RepdigitSums(padded, k);
    WeightedSumPrefix(padded, base, 9, 10);
    assert cpf[9] == d1;
    assert cpf[..10] == padded;
    assert cpf[10] == d1;
    assert d1 == base[0];
    forall i | 0 <= i < 11 ensures cpf[i] == cpf[0] {
      if i < 9 { assert cpf[i] == base[i]; }
    }
  }

  /** Completing nine digits gives a valid CPF exactly when the nine are not all equal. */
  lemma CompleteCpfValidIff(base: string)
    requires |base| == 9 && AllDigits(base)
    ensures IsValidCpf(CompleteCpf(base)) <==> !IsRepdigit(base)
  {
    var cpf := CompleteCpf(base);
    var partial := base + [cpf[9]];
    assert DigitsOnly(cpf) == cpf;
    WeightedSumPrefix(cpf, base, 9, 10);
    WeightedSumPrefix(cpf, partial, 10, 11);
    if IsRepdigit(base) {
      RepdigitChecksOut(base);
    } else {
      var i :| 0 <= i < 9 && base[i] != base[0];
      assert cpf[i] == base[i] && cpf[0] == base[0];
    }
  }

  /** The check digits are determined by the first nine: every valid CPF is the completion
      of its first nine digits. */
  lemma ValidCpfIsCompletion(input: string)
    requires IsValidCpf(input)
    ensures var d := DigitsOnly(input); d == CompleteCpf(d[..9])
  {
    var d := DigitsOnly(input);
    var base := d[..9];
    var cpf := CompleteCpf(base);
    WeightedSumPrefix(d, base, 9, 10);
    assert cpf[9] == d[9] by {
      assert DigitChar(DigitValue(d[9])) == d[9];
    }
    var partial := base + [cpf[9]];
    assert partial == d[..10];
    WeightedSumPrefix(d, partial, 10, 11);
    assert cpf[10] == d[10] by {
      assert DigitChar(DigitValue(d[10])) == d[10];
    }
    assert cpf[..9] == d[..9];
    assert forall i :: 0 <= i < 11 ==> cpf[i] == d[i] by {
      forall i | 0 <= i < 11 ensures cpf[i] == d[i] {
        if i < 9 { assert cpf[i] == cpf[..9][i] && d[i] == d[..9][i]; }
      }
    }
  }
}
