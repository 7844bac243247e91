/**
 * The bcrypt primitive the controllers call: `bcrypt.hash(plain, 10)` and
 * `bcrypt.compare(candidate, digest)`. It is modelled as an ideal one-way
 * function: a digest accepts exactly the text it was made from. The salt and
 * the cost factor change nothing that `compare` observes and are not modelled.
 */
module Crypto {

  /** A stored password or OTP digest. The rest of the model never reads
      `preimage`; it only asks `Matches`. */
  datatype Digest = Digest(preimage: string)

  /** `bcrypt.compare(candidate, d)`. */
  predicate Matches(candidate: string, d: Digest)
  {
    candidate == d.preimage
  }

  /** `bcrypt.hash(plain, 10)`: the digest accepts `plain` and nothing else. */
  function Hash(plain: string): (d: Digest)
    ensures Matches(plain, d)
    ensures forall other: string :: Matches(other, d) ==> other == plain
  {
    Digest(plain)
  }

  /** The text of a 4-digit OTP: what `Math.floor(1000 + Math.random() * 9000)`
      yields, before `.toString()`. */
  type OtpCode = c: int | 1000 <= c <= 9999 witness 1000

  function DigitChar(d: int): (c: char)
    requires 0 <= d <= 9
    ensures '0' <= c <= '9' && c as int - '0' as int == d
  {
    ('0' as int + d) as char
  }

  /** The number a string of decimal digits denotes. */
  function DecimalValue(s: string): int
  {
    if s == [] then 0 else 10 * DecimalValue(s[..|s| - 1]) + (s[|s| - 1] as int - '0' as int)
  }

  lemma DecimalValueSnoc(s: string, c: char)
    ensures DecimalValue(s + [c]) == 10 * DecimalValue(s) + (c as int - '0' as int)
  {
    assert (s + [c])[..|s|] == s;
  }

  /** The decimal digits of a 4-digit number, most significant first. */
  lemma FourDigits(code: OtpCode)
    ensures 1 <= code / 1000 <= 9
    ensures code / 100 == 10 * (code / 1000) + code / 100 % 10
    ensures code / 10 == 10 * (code / 100) + code / 10 % 10
    ensures code == 10 * (code / 10) + code % 10
  {
  }

  /** The four digit characters of `code`, most significant first. */
  function DigitsOf(code: OtpCode): seq<char>
  {
    FourDigits(code);
    [DigitChar(code / 1000), DigitChar(code / 100 % 10), DigitChar(code / 10 % 10), DigitChar(code % 10)]
  }

  lemma DigitsOfValue(code: OtpCode)
    ensures DecimalValue(DigitsOf(code)) == code
  {
    FourDigits(code);
    var s := DigitsOf(code);
    assert [] + [s[0]] == s[..1] && s[..1] + [s[1]] == s[..2] && s[..2] + [s[2]] == s[..3] && s[..3] + [s[3]] == s;
    DecimalValueSnoc([], s[0]);
    DecimalValueSnoc(s[..1], s[1]);
    DecimalValueSnoc(s[..2], s[2]);
    DecimalValueSnoc(s[..3], s[3]);
  }

  /** `code.toString()`: four decimal digits, the first not zero, that read back as `code`. */
  function OtpText(code: OtpCode): (s: string)
    ensures |s| == 4 && s[0] != '0'
    ensures '0' <= s[0] <= '9' && '0' <= s[1] <= '9' && '0' <= s[2] <= '9' && '0' <= s[3] <= '9'
    ensures DecimalValue(s) == code
  {
    DigitsOfValue(code);
    DigitsOf(code)
  }

  /** Distinct codes have distinct texts, so a code's digest accepts no other code. */
  lemma OtpTextInjective(a: OtpCode, b: OtpCode)
    ensures Matches(OtpText(a), Hash(OtpText(b))) <==> a == b
  {
    if OtpText(a) == OtpText(b) {
      assert DecimalValue(OtpText(a)) == DecimalValue(OtpText(b));
    }
  }
}
