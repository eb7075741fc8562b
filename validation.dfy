/**
 * The form validators `validarNome`, `validarEmail`, `validarTelefone` and
 * `validarSenha` (validation-controller.js, with identical copies in login.js
 * and inline in cadastroelogin.js), each regular expression restated as an
 * explicit scan over character classes and proved equal to a declarative
 * description of the strings it accepts; and the order of the checks in the
 * registration forms.
 */
module Validation {
  import opened Text
  import PhoneFormat

  // ----- validarNome: /^[a-zA-ZÀ-ÖØ-öø-ÿ\s]+$/ -----

  /** `[a-zA-ZÀ-ÖØ-öø-ÿ\s]`: ASCII letters, the Latin-1 letters and `\s`. */
  predicate NameChar(c: char) {
    IsAsciiLetter(c)
    || ('\U{C0}' <= c <= '\U{D6}') || ('\U{D8}' <= c <= '\U{F6}') || ('\U{F8}' <= c <= '\U{FF}')
    || IsSpace(c)
  }

  /** Scans the characters of a name from left to right. */
  function NameScan(s: string): (ok: bool)
    ensures ok <==> forall i :: 0 <= i < |s| ==> NameChar(s[i])
  {
    if s == [] then true
    else NameChar(s[0]) && NameScan(s[1..])
  }

  /** The `+` of the expression: at least one character, all from the class. */
  function ValidarNome(nome: string): (ok: bool)
    ensures ok <==> |nome| > 0 && forall i :: 0 <= i < |nome| ==> NameChar(nome[i])
  {
    nome != [] && NameScan(nome)
  }

  // ----- validarEmail: /^[a-zA-Z0-9_.]+@[a-zA-Z0-9-]+\.[a-zA-Z0-9-.]+$/ -----

  predicate AsciiAlnum(c: char) { IsAsciiLetter(c) || IsDigit(c) }

  /** `[a-zA-Z0-9_.]`, before the `@`. */
  predicate LocalChar(c: char) { AsciiAlnum(c) || c == '_' || c == '.' }

  /** `[a-zA-Z0-9-]`, the label after the `@`. */
  predicate LabelChar(c: char) { AsciiAlnum(c) || c == '-' }

  /** `[a-zA-Z0-9-.]`, after the first dot of the domain. */
  predicate TailChar(c: char) { AsciiAlnum(c) || c == '-' || c == '.' }

  /** A non-empty run of characters from the class of `local`, `label` or `tail`. */
  predicate LocalRun(s: string) { |s| > 0 && forall i :: 0 <= i < |s| ==> LocalChar(s[i]) }
  predicate LabelRun(s: string) { |s| > 0 && forall i :: 0 <= i < |s| ==> LabelChar(s[i]) }
  predicate TailRun(s: string) { |s| > 0 && forall i :: 0 <= i < |s| ==> TailChar(s[i]) }

  /** The declarative reading of the expression: local part, `@`, label, `.`, tail. */
  predicate EmailShape(s: string) {
    exists i, j :: 0 <= i < j < |s| && s[i] == '@' && s[j] == '.'
      && LocalRun(s[..i]) && LabelRun(s[i + 1..j]) && TailRun(s[j + 1..])
  }

  /** Position of the first `c` in `s`, or `|s|` when there is none. */
  function IndexOf(s: string, c: char): (i: nat)
    ensures i <= |s| && (i < |s| ==> s[i] == c)
    ensures forall k :: 0 <= k < i ==> s[k] != c
  {
    if s == [] then 0
    else if s[0] == c then 0
    else 1 + IndexOf(s[1..], c)
  }

  /**
   * The matcher: neither the local part nor the label can hold `@` or `.`
   * respectively, so the match splits at the first `@` and at the first `.`
   * after it.
   */
  function ValidarEmail(email: string): (ok: bool) {
    var i := IndexOf(email, '@');
    i < |email| && LocalRun(email[..i]) &&
      var domain := email[i + 1..];
      var j := IndexOf(domain, '.');
      j < |domain| && LabelRun(domain[..j]) && TailRun(domain[j + 1..])
  }

  /** The matcher accepts exactly the strings of the expression's shape. */
  lemma ValidarEmailIff(email: string)
    ensures ValidarEmail(email) <==> EmailShape(email)
  {
    if ValidarEmail(email) {
      ValidEmailHasShape(email);
    }
    if EmailShape(email) {
      var a, b :| 0 <= a < b < |email| && email[a] == '@' && email[b] == '.'
        && LocalRun(email[..a]) && LabelRun(email[a + 1..b]) && TailRun(email[b + 1..]);
      ShapeIsValidEmail(email, a, b);
    }
  }

  lemma ValidEmailHasShape(email: string)
    requires ValidarEmail(email)
    ensures EmailShape(email)
  {
    var i := IndexOf(email, '@');
    var domain := email[i + 1..];
    var j := IndexOf(domain, '.');
    assert email[i + 1..i + 1 + j] == domain[..j];
    assert email[i + 1 + j + 1..] == domain[j + 1..];
    assert email[i + 1 + j] == '.';
  }

  lemma ShapeIsValidEmail(email: string, a: int, b: int)
    requires 0 <= a < b < |email| && email[a] == '@' && email[b] == '.'
    requires LocalRun(email[..a]) && LabelRun(email[a + 1..b]) && TailRun(email[b + 1..])
    ensures ValidarEmail(email)
  {
    var i := IndexOf(email, '@');
    assert forall k :: 0 <= k < a ==> email[k] == email[..a][k];
    assert i == a;
    var domain := email[a + 1..];
    var j := IndexOf(domain, '.');
    assert domain[b - a - 1] == '.';
    assert forall k :: 0 <= k < b - a - 1 ==> domain[k] == email[a + 1..b][k];
    assert j == b - a - 1;
    assert domain[..j] == email[a + 1..b];
    assert domain[j + 1..] == email[b + 1..];
  }

  /** An accepted address holds exactly one `@`. */
  lemma ValidEmailOneAt(email: string)
    requires ValidarEmail(email)
    ensures exists i :: 0 <= i < |email| && email[i] == '@'
    ensures forall p, q :: 0 <= p < q < |email| && email[p] == '@' ==> email[q] != '@'
  {
    var i := IndexOf(email, '@');
    var domain := email[i + 1..];
    var j := IndexOf(domain, '.');
    forall q | i < q < |email| ensures email[q] != '@' {
      if q - i - 1 < j {
        assert LabelChar(domain[..j][q - i - 1]);
      } else if q - i - 1 > j {
        assert TailChar(domain[j + 1..][q - i - 1 - j - 1]);
      }
    }
  }

  // ----- validarTelefone -----

  /** The phone check only counts UTF-16 code units. */
  function ValidarTelefone(telefone: string): bool {
    Utf16Length(telefone) >= 14
  }

  /** A value produced by the phone mask passes iff the raw input had at least ten digits. */
  lemma MaskedPhoneValid(value: string)
    ensures ValidarTelefone(PhoneFormat.PhoneMask(value)) <==> |Digits(value)| >= 10
  {
    PhoneFormat.PhoneMaskShape(value);
    PhoneFormat.PhoneMaskAscii(value);
    Utf16LengthIff(PhoneFormat.PhoneMask(value));
  }

  // ----- validarSenha: /^(?=.*[a-z])(?=.*[A-Z])(?=.*[special]).{8,}$/ -----

  /** The special characters of the third look-ahead. */
  const SpecialChars: string := "!@#$%^&*()_+-=[]{};':\"\\|,.<>/?"

  predicate SpecialChar(c: char) {
    c in SpecialChars
  }

  /** What one left-to-right pass over a password finds. */
  datatype PasswordScan = PasswordScan(lower: bool, upper: bool, special: bool, terminator: bool)

  /** Some character of `s` has property `p`. */
  predicate Occurs(s: string, p: char -> bool) {
    exists i :: 0 <= i < |s| && p(s[i])
  }

  lemma OccursCons(s: string, p: char -> bool)
    requires s != []
    ensures Occurs(s, p) <==> p(s[0]) || Occurs(s[1..], p)
  {
    if Occurs(s[1..], p) {
      var i :| 0 <= i < |s[1..]| && p(s[1..][i]);
      assert s[i + 1] == s[1..][i];
    }
    if Occurs(s, p) && !p(s[0]) {
      var i :| 0 <= i < |s| && p(s[i]);
      assert s[1..][i - 1] == s[i];
    }
  }

  function ScanPassword(s: string): (f: PasswordScan)
    ensures f.lower <==> Occurs(s, IsLowerAscii)
    ensures f.upper <==> Occurs(s, IsUpperAscii)
    ensures f.special <==> Occurs(s, SpecialChar)
    ensures f.terminator <==> Occurs(s, IsLineTerminator)
  {
    if s == [] then PasswordScan(false, false, false, false)
    else
      var rest := ScanPassword(s[1..]);
      OccursCons(s, IsLowerAscii);
      OccursCons(s, IsUpperAscii);
      OccursCons(s, SpecialChar);
      OccursCons(s, IsLineTerminator);
      PasswordScan(rest.lower || IsLowerAscii(s[0]), rest.upper || IsUpperAscii(s[0]),
                   rest.special || SpecialChar(s[0]), rest.terminator || IsLineTerminator(s[0]))
  }

  /**
   * `.` matches no line terminator and the pattern is anchored at both ends,
   * so a password is accepted when it has at least eight UTF-16 code units
   * (the pattern has no `u` flag, so `.` matches each half of a surrogate
   * pair), no line terminator, and the three kinds of character occur.
   */
  function ValidarSenha(senha: string): (ok: bool)
    ensures ok <==> (
      && Utf16Length(senha) >= 8
      && (forall i :: 0 <= i < |senha| ==> !IsLineTerminator(senha[i]))
      && (exists i :: 0 <= i < |senha| && IsLowerAscii(senha[i]))
      && (exists i :: 0 <= i < |senha| && IsUpperAscii(senha[i]))
      && (exists i :: 0 <= i < |senha| && SpecialChar(senha[i])))
  {
    var f := ScanPassword(senha);
    Utf16Length(senha) >= 8 && !f.terminator && f.lower && f.upper && f.special
  }

  /** The password of `AstralPasswordAccepted`. */
  const AstralPassword: string := "Aa!aaa\U{1F600}"

  /** Seven characters, one of them astral, make eight code units. */
  lemma AstralPasswordLength()
    ensures |AstralPassword| == 7 && Utf16Length(AstralPassword) == 8
  {
    var s := AstralPassword;
    assert Astral(s[6]) && Utf16Length(s[6..]) == 2;
    assert s[5..][1..] == s[6..];
    assert Utf16Length(s[5..]) == 3;
    assert Utf16Length(s[..5]) == 5 by {
      assert forall i :: 0 <= i < 5 ==> !Astral(s[..5][i]);
      Utf16LengthIff(s[..5]);
    }
    Utf16Append(s[..5], s[5..]);
    assert s[..5] + s[5..] == s;
  }

  /** That is enough for the length check, so the password is accepted. */
  lemma AstralPasswordAccepted()
    ensures ValidarSenha(AstralPassword)
  {
    var s := AstralPassword;
    AstralPasswordLength();
    forall i | 0 <= i < |s| ensures !IsLineTerminator(s[i]) {
    }
    assert IsLowerAscii(s[1]) && IsUpperAscii(s[0]) && SpecialChar(s[2]);
  }

  // ----- registration forms (login.js, cadastroelogin.js) -----

  /** The alert a registration form stops at, or `Ready` when every check passed. */
  datatype Registration =
    | InvalidName | InvalidEmail | InvalidPhone | InvalidPassword | PasswordMismatch | Ready

  /** The checks of the registration form, in the order the form runs them. */
  function CheckRegistration(nome: string, email: string, telefone: string,
                             senha: string, confirmarSenha: string): (r: Registration)
    ensures r == Ready <==> ValidarNome(nome) && ValidarEmail(email) && ValidarTelefone(telefone)
                            && ValidarSenha(senha) && senha == confirmarSenha
    ensures r == InvalidName <==> !ValidarNome(nome)
    ensures r == InvalidEmail <==> ValidarNome(nome) && !ValidarEmail(email)
    ensures r == InvalidPhone <==> ValidarNome(nome) && ValidarEmail(email) && Utf16Length(telefone) < 14
    ensures r == InvalidPassword <==>
      ValidarNome(nome) && ValidarEmail(email) && ValidarTelefone(telefone) && !ValidarSenha(senha)
  {
    if !ValidarNome(nome) then InvalidName
    else if !ValidarEmail(email) then InvalidEmail
    else if !ValidarTelefone(telefone) then InvalidPhone
    else if !ValidarSenha(senha) then InvalidPassword
    else if senha != confirmarSenha then PasswordMismatch
    else Ready
  }
}
