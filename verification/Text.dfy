/** Byte classes, decimal numerals and small sequence facts shared by the other modules.
    A C++ `char` is modelled by the Dafny `char` whose code is the byte's value as an
    `unsigned char`; a `std::string` is a Dafny `string`. */
module Text {
  type UInt8 = n: int | 0 <= n < 256

  datatype Option<+T> = None | Some(value: T)

  const CRLF := "\r\n"

  predicate IsChar(c: int) { 0 <= c <= 127 }

  predicate IsCtl(c: int) { 0 <= c <= 31 || c == 127 }

  predicate IsTspecial(c: int) {
    || c == '(' as int || c == ')' as int || c == '<' as int || c == '>' as int || c == '@' as int
    || c == ',' as int || c == ';' as int || c == ':' as int || c == '\\' as int || c == '\"' as int
    || c == '/' as int || c == '[' as int || c == ']' as int || c == '?' as int || c == '=' as int
    || c == '{' as int || c == '}' as int || c == ' ' as int || c == '\t' as int
  }

  predicate IsDigit(c: int) { '0' as int <= c <= '9' as int }

  /** A byte that may occur in a method or a header name. */
  predicate TokenByte(c: char) {
    IsChar(c as int) && !IsCtl(c as int) && !IsTspecial(c as int)
  }

  predicate Blank(c: char) { c == ' ' || c == '\t' }

  predicate Token(s: string) { forall i | 0 <= i < |s| :: TokenByte(s[i]) }

  predicate CtlFree(s: string) { forall i | 0 <= i < |s| :: !IsCtl(s[i] as int) }

  predicate Digits(s: string) { forall i | 0 <= i < |s| :: IsDigit(s[i] as int) }

  predicate Blanks(s: string) { forall i | 0 <= i < |s| :: Blank(s[i]) }

  predicate UriText(s: string) { CtlFree(s) && ' ' !in s }

  /** Where `char` is signed a byte n >= 128 reaches the classifiers as n - 256; either way
      the four answers are the same, so one unsigned model covers both compilers. */
  lemma SignednessIrrelevant(n: int)
    requires 128 <= n < 256
    ensures IsChar(n) == IsChar(n - 256) && IsCtl(n) == IsCtl(n - 256)
    ensures IsTspecial(n) == IsTspecial(n - 256) && IsDigit(n) == IsDigit(n - 256)
  {
  }

  /** The digit a character stands for. */
  function DigitOf(c: char): (d: int) {
    c as int - '0' as int
  }

  /** The number a run of decimal digits denotes. */
  function Number(s: string): (n: int)
    ensures Digits(s) ==> 0 <= n
  {
    if s == "" then 0
    else
      assert Digits(s) ==> Digits(s[..|s| - 1]) && IsDigit(s[|s| - 1] as int);
      Number(s[..|s| - 1]) * 10 + DigitOf(s[|s| - 1])
  }

  /** `std::to_string` on an unsigned value. */
  function Decimal(n: nat): (s: string)
    ensures s != "" && Digits(s)
  {
    var digit := ['0' + (n % 10) as char];
    if n < 10 then digit else Decimal(n / 10) + digit
  }

  /** The numeral printed for n denotes n again, and has no leading zero. */
  lemma {:induction false} NumberOfDecimal(n: nat)
    ensures Number(Decimal(n)) == n
    ensures Decimal(n)[0] == '0' ==> n == 0
  {
    var digit := ['0' + (n % 10) as char];
    if n < 10 {
      assert digit[..0] == "";
    } else {
      NumberOfDecimal(n / 10);
      assert (Decimal(n / 10) + digit)[..|Decimal(n)| - 1] == Decimal(n / 10);
    }
  }

  /** One more digit keeps a wrapped accumulator in step with the value of the run. */
  lemma WrapStep(value: int, wrapped: int, d: int)
    requires wrapped == value % 256
    ensures (wrapped * 10 + d) % 256 == (value * 10 + d) % 256
  {
    var k := value / 256;
    assert value * 10 + d == (wrapped * 10 + d) + 256 * (k * 10);
  }

  /** No line end inside s. */
  predicate OneLine(s: string) {
    forall i | 0 <= i < |s| - 1 :: !(s[i] == '\r' && s[i + 1] == '\n')
  }
}
