/**
 * The Brazilian phone mask `(DD) DDDDD-DDDD` and the e-mail input mask.
 *
 * The mask is written twice in the application: as `formatarTelefone`, which
 * builds `resultado` with successive `+=` steps (validation-controller.js,
 * copied in login.js and cadastroelogin.js), and as the input listener of
 * `applyPhoneMask` (input-masks.js), which reassigns a local `value` by cases.
 * Both are proved equal to one reference definition: the digits are written
 * into the template "(##) #####-####" slot by slot, each literal character
 * of the template being emitted only when a digit follows it.
 */
module PhoneFormat {
  import opened Text

  /** An `<input>` element; the listeners overwrite its `value`. */
  class TextInput {
    var value: string

    constructor (initial: string)
      ensures value == initial
    {
      value := initial;
    }
  }

  /** A mask template: literal text, or a run of digit slots, each followed by the rest of the template. */
  datatype Template = Done | Lit(text: string, next: Template) | Run(count: nat, next: Template)

  /** "(##) #####-####" */
  const PhoneTemplate: Template := Lit("(", Run(2, Lit(") ", Run(5, Lit("-", Run(4, Done))))))

  function Min(a: int, b: int): int { if a <= b then a else b }

  /**
   * Writes the digits `d` into the slots of template `t`; a literal is written
   * only when a digit remains to follow it, and writing stops when `d` or `t`
   * runs out.
   */
  function Fill(t: Template, d: string): string {
    if d == [] then []
    else match t
      case Done => []
      case Lit(s, n) => s + Fill(n, d)
      case Run(k, n) => d[..Min(k, |d|)] + Fill(n, d[Min(k, |d|)..])
  }

  /** The reference phone mask: the digits of `value` written into `PhoneTemplate`. */
  function PhoneMask(value: string): string {
    Fill(PhoneTemplate, Digits(value))
  }

  /** The reference mask spelled out by the number of digits. */
  function PhoneCases(d: string): string {
    if |d| == 0 then ""
    else if |d| <= 2 then "(" + d
    else if |d| <= 7 then "(" + d[..2] + ") " + d[2..]
    else "(" + d[..2] + ") " + d[2..7] + "-" + d[7..Min(11, |d|)]
  }

  lemma PhoneFillCases(d: string)
    ensures Fill(PhoneTemplate, d) == PhoneCases(d)
  {
    if |d| == 0 {
    } else if |d| <= 2 {
      FillFirstRun("(", 2, Lit(") ", Run(5, Lit("-", Run(4, Done)))), d);
    } else if |d| <= 7 {
      FillSecondRun("(", 2, ") ", 5, Lit("-", Run(4, Done)), d);
    } else {
      FillThirdRun("(", 2, ") ", 5, "-", 4, d);
    }
  }

  /** Digits that fit in the first run follow the first literal and end the text. */
  lemma FillFirstRun(a: string, p: nat, rest: Template, d: string)
    requires 0 < |d| <= p
    ensures Fill(Lit(a, Run(p, rest)), d) == a + d
  {
    assert d[..Min(p, |d|)] == d && d[Min(p, |d|)..] == [];
    assert Fill(rest, []) == [];
    assert Fill(Run(p, rest), d) == d + [];
    assert d + [] == d;
  }

  /** Digits that overflow the first run but fit in the second: the second literal sits between them. */
  lemma FillSecondRun(a: string, p: nat, b: string, q: nat, rest: Template, d: string)
    requires p < |d| <= p + q
    ensures Fill(Lit(a, Run(p, Lit(b, Run(q, rest)))), d) == a + d[..p] + b + d[p..]
  {
    var e := d[p..];
    FillPair(a, p, Lit(b, Run(q, rest)), d);
    FillFirstRun(b, q, rest, e);
    assert a + (d[..p] + (b + e)) == a + d[..p] + b + e;
  }

  /** Digits beyond both runs: the third literal and up to `r` more digits follow. */
  lemma FillThirdRun(a: string, p: nat, b: string, q: nat, c: string, r: nat, d: string)
    requires p + q < |d|
    ensures Fill(Lit(a, Run(p, Lit(b, Run(q, Lit(c, Run(r, Done)))))), d)
      == a + d[..p] + b + d[p..p + q] + c + d[p + q..Min(p + q + r, |d|)]
  {
    var e := d[p..];
    var f := e[q..];
    var g := f[..Min(r, |f|)];
    var x, y := d[p..p + q], d[p + q..Min(p + q + r, |d|)];
    SlicesOfSlices(d, p, q, r);
    assert e[..q] == x && g == y;
    FillPair(a, p, Lit(b, Run(q, Lit(c, Run(r, Done)))), d);
    FillPair(b, q, Lit(c, Run(r, Done)), e);
    FillLastRun(c, r, f);
    assert Fill(Lit(a, Run(p, Lit(b, Run(q, Lit(c, Run(r, Done)))))), d) == a + (d[..p] + (b + (x + (c + (y + [])))));
    Regroup(a, d[..p], b, x, c, y);
  }

  /** A literal followed by a run that the digits fill completely. */
  lemma FillPair(a: string, p: nat, rest: Template, d: string)
    requires p < |d|
    ensures Fill(Lit(a, Run(p, rest)), d) == a + (d[..p] + Fill(rest, d[p..]))
  {
    assert Fill(Run(p, rest), d) == d[..p] + Fill(rest, d[p..]);
  }

  /** A literal followed by a final run takes up to `r` digits and ends the text. */
  lemma FillLastRun(c: string, r: nat, f: string)
    requires f != []
    ensures Fill(Lit(c, Run(r, Done)), f) == c + (f[..Min(r, |f|)] + [])
  {
    assert Fill(Run(r, Done), f) == f[..Min(r, |f|)] + [];
  }

  lemma SlicesOfSlices(d: string, p: nat, q: nat, r: nat)
    requires p + q < |d|
    ensures d[p..][q..] == d[p + q..]
    ensures d[p..][..q] == d[p..p + q]
    ensures d[p..][q..][..Min(r, |d[p..][q..]|)] == d[p + q..Min(p + q + r, |d|)]
  {
  }

  lemma Regroup(a: string, x: string, b: string, y: string, c: string, z: string)
    ensures a + (x + (b + (y + (c + (z + []))))) == a + x + b + y + c + z
  {
    assert z + [] == z;
  }

  /**
   * The listener of `applyPhoneMask`: keep the digits, then rewrite `value` by
   * the number of digits, and write it back into the element.
   */
  method ApplyPhoneMask(input: TextInput)
    modifies input
    ensures input.value == PhoneMask(old(input.value))
  {
    var value := Digits(input.value);
    if |value| > 0 {
      if |value| <= 2 {
        value := "(" + value;
      } else if |value| <= 7 {
        value := "(" + value[..2] + ") " + value[2..];
      } else {
        value := "(" + value[..2] + ") " + value[2..7] + "-" + value[7..Min(11, |value|)];
      }
    }
    PhoneFillCases(Digits(old(input.value)));
    input.value := value;
  }

  /**
   * `formatarTelefone`: keep the digits, append the area code, the next five
   * digits and the last four in three guarded `+=` steps, and overwrite the
   * element's value.
   */
  method FormatarTelefone(input: TextInput)
    modifies input
    ensures input.value == PhoneMask(old(input.value))
  {
    var valor := Digits(input.value);
    var resultado := "";
    if |valor| > 0 {
      resultado := "(" + valor[..Min(2, |valor|)];
    }
    if |valor| > 2 {
      resultado := resultado + ") " + valor[2..Min(7, |valor|)];
    }
    if |valor| > 7 {
      resultado := resultado + "-" + valor[7..Min(11, |valor|)];
    }
    PhoneFillCases(valor);
    input.value := resultado;
  }

  /** Number of digit slots in a template. */
  function SlotCount(t: Template): nat {
    match t
    case Done => 0
    case Lit(_, n) => SlotCount(n)
    case Run(k, n) => k + SlotCount(n)
  }

  /** No literal of the template contains a digit. */
  predicate DigitFreeLiterals(t: Template) {
    match t
    case Done => true
    case Lit(s, n) => Digits(s) == [] && DigitFreeLiterals(n)
    case Run(_, n) => DigitFreeLiterals(n)
  }

  /** Filling a template whose literals hold no digit writes exactly the first `SlotCount` digits. */
  lemma {:induction false} FillDigits(t: Template, d: string)
    requires AllDigits(d) && DigitFreeLiterals(t)
    ensures Digits(Fill(t, d)) == d[..Min(SlotCount(t), |d|)]
  {
    if d != [] {
      match t
      case Done =>
      case Lit(s, n) =>
        FillDigits(n, d);
        DigitsAppend(s, Fill(n, d));
      case Run(k, n) =>
        var m := Min(k, |d|);
        assert AllDigits(d[m..]) && AllDigits(d[..m]);
        FillDigits(n, d[m..]);
        DigitsAppend(d[..m], Fill(n, d[m..]));
        DigitsOfDigits(d[..m]);
        TakeTwice(d, m, SlotCount(n));
        assert Min(m + SlotCount(n), |d|) == Min(SlotCount(t), |d|);
    }
  }

  /** Taking `m` elements and then up to `k` more takes up to `m + k`. */
  lemma TakeTwice(d: string, m: nat, k: nat)
    requires m <= |d|
    ensures d[..m] + d[m..][..Min(k, |d| - m)] == d[..Min(m + k, |d|)]
  {
  }

  /** The mask keeps only the ASCII digits of its input, at most the first eleven. */
  lemma PhoneMaskDigits(value: string)
    ensures Digits(PhoneMask(value)) == Digits(value)[..Min(11, |Digits(value)|)]
  {
    assert DigitFreeLiterals(PhoneTemplate) by {
      assert Digits("(") == [] && Digits(") ") == [] && Digits("-") == [];
    }
    FillDigits(PhoneTemplate, Digits(value));
  }

  /** The mask writes only ASCII: its separators and digits. */
  lemma PhoneMaskAscii(value: string)
    ensures forall i :: 0 <= i < |PhoneMask(value)| ==> PhoneMask(value)[i] as int < 0x80
  {
    var d := Digits(value);
    PhoneFillCases(d);
    var r := PhoneMask(value);
    assert forall c :: c in r ==> c in "() -" || c in d;
    forall i | 0 <= i < |r| ensures r[i] as int < 0x80 {
      assert r[i] in r;
    }
  }

  /** Length of the mask's output for `n` digits. */
  function PhoneLength(n: nat): nat {
    if n == 0 then 0 else if n <= 2 then n + 1 else if n <= 7 then n + 3 else Min(n, 11) + 4
  }

  /**
   * Shape of the mask: empty exactly when there are no digits; otherwise "("
   * and the first one or two digits; ") " follows iff there are more than two
   * digits and "-" appears iff there are more than seven; eleven or more
   * digits give exactly `(DD) DDDDD-DDDD`.
   */
  lemma PhoneMaskShape(value: string)
    ensures var d, r := Digits(value), PhoneMask(value);
      && |r| == PhoneLength(|d|)
      && (r == "" <==> |d| == 0)
      && (|d| > 0 ==> r[0] == '(' && r[1..1 + Min(2, |d|)] == d[..Min(2, |d|)])
      && (|d| > 2 <==> ')' in r)
      && (|d| > 2 ==> r[3..5] == ") ")
      && (|d| > 7 <==> '-' in r)
      && (|d| >= 11 ==> r == "(" + d[..2] + ") " + d[2..7] + "-" + d[7..11] && |r| == 15)
  {
    var d := Digits(value);
    PhoneFillCases(d);
    if |d| == 0 {
    } else if |d| <= 2 {
      ShapeAreaCode(d);
    } else if |d| <= 7 {
      ShapeLocal(d);
    } else {
      ShapeFull(d);
    }
  }

  lemma ShapeAreaCode(d: string)
    requires AllDigits(d) && 0 < |d| <= 2
    ensures var r := PhoneCases(d);
      && |r| == |d| + 1 && r[0] == '(' && r[1..1 + |d|] == d && ')' !in r && '-' !in r
  {
    var r := PhoneCases(d);
    assert r == "(" + d;
    NoPunctuationInDigits(d);
  }

  lemma ShapeLocal(d: string)
    requires AllDigits(d) && 2 < |d| <= 7
    ensures var r := PhoneCases(d);
      && |r| == |d| + 3 && r[0] == '(' && r[1..3] == d[..2] && r[3..5] == ") " && ')' in r && '-' !in r
  {
    var r := PhoneCases(d);
    assert r == "(" + d[..2] + ") " + d[2..];
    assert r[3] == ')';
    NoPunctuationInDigits(d[..2]);
    NoPunctuationInDigits(d[2..]);
  }

  lemma ShapeFull(d: string)
    requires AllDigits(d) && 7 < |d|
    ensures var r := PhoneCases(d);
      && |r| == Min(|d|, 11) + 4 && r[0] == '(' && r[1..3] == d[..2] && r[3..5] == ") "
      && ')' in r && '-' in r
      && (|d| >= 11 ==> r == "(" + d[..2] + ") " + d[2..7] + "-" + d[7..11] && |r| == 15)
  {
    var r := PhoneCases(d);
    assert r == "(" + d[..2] + ") " + d[2..7] + "-" + d[7..Min(11, |d|)];
    assert r[3] == ')' && r[10] == '-';
  }

  lemma NoPunctuationInDigits(d: string)
    requires AllDigits(d)
    ensures ')' !in d && '-' !in d && '(' !in d && ' ' !in d
  {
  }

  /** Masking a masked value changes nothing. */
  lemma PhoneMaskIdempotent(value: string)
    ensures PhoneMask(PhoneMask(value)) == PhoneMask(value)
  {
    var d := Digits(value);
    var k := d[..Min(11, |d|)];
    PhoneMaskDigits(value);
    assert Digits(PhoneMask(value)) == k;
    PhoneFillCases(d);
    PhoneFillCases(k);
    if |d| > 7 {
      assert k[..2] == d[..2] && k[2..7] == d[2..7];
      assert k[7..Min(11, |k|)] == d[7..Min(11, |d|)];
    } else {
      assert k == d;
    }
  }

  // ----- e-mail mask -----

  /** `[a-z0-9@._-]`: the characters the e-mail mask lets through. */
  predicate EmailMaskChar(c: char) {
    IsLowerAscii(c) || IsDigit(c) || c == '@' || c == '.' || c == '_' || c == '-'
  }

  /**
   * Reference definition of the e-mail mask, in one pass: each character that
   * is not `\s` is lower-cased and kept if the result is an allowed character.
   */
  function EmailMask(s: string): (r: string)
    ensures forall i :: 0 <= i < |r| ==> EmailMaskChar(r[i])
  {
    if s == [] then []
    else if !IsSpace(s[0]) && EmailMaskChar(LowerChar(s[0])) then [LowerChar(s[0])] + EmailMask(s[1..])
    else EmailMask(s[1..])
  }

  /** `value.replace(/\s/g, "")`. */
  function RemoveSpaces(s: string): string {
    if s == [] then [] else (if IsSpace(s[0]) then [] else [s[0]]) + RemoveSpaces(s[1..])
  }

  /** `value.replace(/[^a-z0-9@._-]/g, "")`. */
  function KeepEmailChars(s: string): string {
    if s == [] then [] else (if EmailMaskChar(s[0]) then [s[0]] else []) + KeepEmailChars(s[1..])
  }

  /** The three rewriting steps of the listener compute the one-pass definition. */
  lemma {:induction false} EmailStepsAgree(s: string)
    ensures KeepEmailChars(Lower(RemoveSpaces(s))) == EmailMask(s)
  {
    if s != [] {
      EmailStepsAgree(s[1..]);
      var head := if IsSpace(s[0]) then [] else [s[0]];
      assert RemoveSpaces(s) == head + RemoveSpaces(s[1..]);
      LowerAppend(head, RemoveSpaces(s[1..]));
      KeepAppend(Lower(head), Lower(RemoveSpaces(s[1..])));
      if !IsSpace(s[0]) {
        assert Lower(head) == [LowerChar(s[0])];
        assert KeepEmailChars([LowerChar(s[0])]) == if EmailMaskChar(LowerChar(s[0])) then [LowerChar(s[0])] else [];
      }
    }
  }

  lemma LowerAppend(a: string, b: string)
    ensures Lower(a + b) == Lower(a) + Lower(b)
  {
  }

  lemma {:induction false} KeepAppend(a: string, b: string)
    ensures KeepEmailChars(a + b) == KeepEmailChars(a) + KeepEmailChars(b)
  {
    if a != [] {
      assert (a + b)[1..] == a[1..] + b;
      KeepAppend(a[1..], b);
    } else {
      assert a + b == b;
    }
  }

  /**
   * The listener of `applyEmailMask`: strip `\s`, lower-case, drop every
   * character outside `[a-z0-9@._-]`, and write the value back.
   */
  method ApplyEmailMask(input: TextInput)
    modifies input
    ensures input.value == EmailMask(old(input.value))
  {
    var value := input.value;
    value := RemoveSpaces(value);
    value := Lower(value);
    value := KeepEmailChars(value);
    EmailStepsAgree(old(input.value));
    input.value := value;
  }

  /** The e-mail mask's output has no `\s`, no upper-case letter, only `[a-z0-9@._-]`. */
  lemma EmailMaskOutput(s: string)
    ensures var r := EmailMask(s);
      forall i :: 0 <= i < |r| ==> EmailMaskChar(r[i]) && !IsSpace(r[i]) && !IsUpperAscii(r[i])
  {
  }

  /** Applying the e-mail mask to its own output changes nothing. */
  lemma {:induction false} EmailMaskIdempotent(s: string)
    ensures EmailMask(EmailMask(s)) == EmailMask(s)
  {
    EmailMaskFixes(EmailMask(s));
  }

  lemma {:induction false} EmailMaskFixes(s: string)
    requires forall i :: 0 <= i < |s| ==> EmailMaskChar(s[i])
    ensures EmailMask(s) == s
  {
    if s != [] {
      assert !IsSpace(s[0]) && LowerChar(s[0]) == s[0];
      EmailMaskFixes(s[1..]);
    }
  }
}
