/**
 * The browser-side `Validator` object: four predicates over form input.
 * Every input is a form field's string value, or `None` when it is absent or
 * falsy.
 */
module Validator {
  import opened JsText
  import EmailPattern

  const MaxEmailLength: nat := 254
  const MinPhoneDigits: nat := 9
  const MaxPhoneDigits: nat := 15
  /** The default of `required`'s second parameter. */
  const DefaultMinLength: int := 1

  /**
   * `Validator.email`: the input is present, matches the email expression and
   * has at most 254 characters. Non-emptiness needs no test of its own: no
   * empty string matches.
   */
  predicate Email(email: Option<string>)
    ensures Email(email) <==>
      email.Some? && EmailPattern.MatchesRegex(email.value) && |email.value| <= MaxEmailLength
  {
    Truthy(email) && EmailPattern.Matches(email.value) && |email.value| <= MaxEmailLength
  }

  /** `s.replace(/\D/g, '')`: the digits of `s`, every one of them and nothing else. */
  function Digits(s: string): (r: string)
    ensures |r| <= |s|
    ensures forall i :: 0 <= i < |r| ==> IsDigit(r[i])
    ensures forall c :: IsDigit(c) ==> multiset(r)[c] == multiset(s)[c]
  {
    if s == [] then []
    else
      assert s == [s[0]] + s[1..];
      (if IsDigit(s[0]) then [s[0]] else []) + Digits(s[1..])
  }

  /** `Validator.phone`: between 9 and 15 digits, whatever else the input holds. */
  predicate Phone(phone: Option<string>)
    ensures phone.None? ==> !Phone(phone)
    ensures Phone(phone) ==> MinPhoneDigits <= |OrEmpty(phone)|
  {
    var cleaned := Digits(OrEmpty(phone));
    MinPhoneDigits <= |cleaned| <= MaxPhoneDigits
  }

  /**
   * `Validator.required(value, minLength)`: present, and at least `minLength`
   * characters once trimmed.
   */
  predicate Required(value: Option<string>, minLength: int)
    ensures !Truthy(value) ==> !Required(value, minLength)
    ensures Truthy(value) && minLength <= 0 ==> Required(value, minLength)
    ensures Required(value, minLength) ==> |value.value| >= minLength
  {
    TrimSpec(OrEmpty(value));
    Truthy(value) && |Trim(value.value)| >= minLength
  }

  /** `Validator.maxLength(value, max)`: absent, or at most `max` characters untrimmed. */
  predicate MaxLength(value: Option<string>, max: int)
    ensures !Truthy(value) ==> MaxLength(value, max)
    ensures MaxLength(value, max) && value.Some? && value.value != "" ==> |value.value| <= max
  {
    !Truthy(value) || |value.value| <= max
  }

  /** Digit extraction distributes over concatenation. */
  lemma {:induction false} DigitsAppend(a: string, b: string)
    ensures Digits(a + b) == Digits(a) + Digits(b)
  {
    if a == [] {
      assert a + b == b;
    } else {
      assert (a + b)[0] == a[0] && (a + b)[1..] == a[1..] + b;
      DigitsAppend(a[1..], b);
    }
  }

  /** A string with no digit in it contributes nothing. */
  lemma {:induction false} DigitsOfNonDigits(s: string)
    requires forall i :: 0 <= i < |s| ==> !IsDigit(s[i])
    ensures Digits(s) == []
  {
    if s != [] {
      DigitsOfNonDigits(s[1..]);
    }
  }

  /** A string of digits only is its own digit string. */
  lemma {:induction false} DigitsOfDigits(s: string)
    requires forall i :: 0 <= i < |s| ==> IsDigit(s[i])
    ensures Digits(s) == s
  {
    if s != [] {
      DigitsOfDigits(s[1..]);
    }
  }

  /**
   * Separators never matter to `phone`: inserting any run of non-digits
   * anywhere in the input leaves the verdict as it was.
   */
  lemma PhoneIgnoresSeparators(a: string, sep: string, b: string)
    requires forall i :: 0 <= i < |sep| ==> !IsDigit(sep[i])
    ensures Phone(Some(a + sep + b)) == Phone(Some(a + b))
  {
    DigitsAppend(a + sep, b);
    DigitsAppend(a, sep);
    DigitsAppend(a, b);
    DigitsOfNonDigits(sep);
  }

  /** For an input of digits only, `phone` is a length test. */
  lemma PhoneOfDigits(s: string)
    requires forall i :: 0 <= i < |s| ==> IsDigit(s[i])
    ensures Phone(Some(s)) <==> MinPhoneDigits <= |s| <= MaxPhoneDigits
  {
    DigitsOfDigits(s);
  }

  /** With its default minimum, `required` holds exactly when the input has a non-blank character. */
  lemma RequiredByDefault(value: Option<string>)
    ensures Required(value, DefaultMinLength) <==>
      value.Some? && exists i :: 0 <= i < |value.value| && !IsSpace(value.value[i])
  {
    if value.Some? {
      TrimEmptyIffAllSpace(value.value);
    }
  }

  /** A blank but present input passes `required` with a minimum of zero, an empty one does not. */
  lemma RequiredBlankAtZero()
    ensures Required(Some(" "), 0)
    ensures !Required(Some(""), 0)
  {
  }

  /** Lowering the minimum never turns a pass into a failure. */
  lemma RequiredMonotone(value: Option<string>, k: int, j: int)
    requires j <= k && Required(value, k)
    ensures Required(value, j)
  {
  }

  /** Raising the maximum never turns a pass into a failure. */
  lemma MaxLengthMonotone(value: Option<string>, m: int, n: int)
    requires m <= n && MaxLength(value, m)
    ensures MaxLength(value, n)
  {
  }
}
