/** Decimal numerals and dotted addresses. */
module Numerals {
  import opened Wrappers

  predicate IsDigit(c: char) {
    '0' <= c <= '9'
  }

  function Digit(c: char): int {
    c as int - '0' as int
  }

  function DigitChar(d: nat): char
    requires d < 10
  {
    ('0' as int + d) as char
  }

  function Decimal(n: nat): string {
    if n < 10 then [DigitChar(n)] else Decimal(n / 10) + [DigitChar(n % 10)]
  }

  lemma {:induction false} DecimalDigits(n: nat)
    ensures Decimal(n) != "" && IsDigit(Decimal(n)[0])
  {
    if n >= 10 {
      DecimalDigits(n / 10);
    }
  }

  function Ten(k: nat): nat {
    if k == 0 then 1 else 10 * Ten(k - 1)
  }

  lemma {:induction false} DecimalLength(n: nat, k: nat)
    requires k > 0 && n < Ten(k)
    ensures |Decimal(n)| <= k && forall i :: 0 <= i < |Decimal(n)| ==> IsDigit(Decimal(n)[i])
  {
    if n >= 10 {
      DecimalLength(n / 10, k - 1);
    }
  }

  /** An IPv4 address, its first byte first. */
  datatype Octets = Octets(a: Byte, b: Byte, c: Byte, d: Byte)

  function Dotted(ip: Octets): string {
    Decimal(ip.a) + "." + Decimal(ip.b) + "." + Decimal(ip.c) + "." + Decimal(ip.d)
  }

  function AddressOf(ip: Octets): (n: nat)
    ensures n < 0x1_0000_0000
  {
    ip.a * 0x100_0000 + ip.b * 0x1_0000 + ip.c * 0x100 + ip.d
  }
}
