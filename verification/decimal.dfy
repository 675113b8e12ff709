/**
 * Decimal rendering of counters, as a JavaScript template literal `${n}` renders a
 * non-negative integer: digits, most significant first, no leading zeros.
 * Both generated identifiers of the system (`policy_<n>` and `api_key_<n>`) are built from it.
 */
module Decimal {

  function DigitChar(d: nat): (c: char)
    requires d < 10
    ensures '0' <= c <= '9'
  {
    "0123456789"[d]
  }

  predicate IsDigit(c: char) {
    '0' <= c <= '9'
  }

  /** The decimal text of `n`. */
  function NatToString(n: nat): (s: string)
    ensures |s| >= 1
    ensures forall i :: 0 <= i < |s| ==> IsDigit(s[i])
    ensures n >= 10 ==> |s| >= 2
    ensures s[|s| - 1] == DigitChar(n % 10)
    decreases n
  {
    if n < 10 then [DigitChar(n)] else NatToString(n / 10) + [DigitChar(n % 10)]
  }

  lemma DigitCharInjective(a: nat, b: nat)
    requires a < 10 && b < 10 && DigitChar(a) == DigitChar(b)
    ensures a == b
  {
  }

  /** Different counters render as different texts. */
  lemma {:induction false} NatToStringInjective(m: nat, n: nat)
    requires NatToString(m) == NatToString(n)
    ensures m == n
    decreases m
  {
    var s := NatToString(m);
    DigitCharInjective(m % 10, n % 10);
    if m >= 10 && n >= 10 {
      assert NatToString(m / 10) == s[..|s| - 1] == NatToString(n / 10);
      NatToStringInjective(m / 10, n / 10);
    }
  }

  /** An identifier made of a fixed prefix followed by a counter's decimal text. */
  function Labelled(prefix: string, n: nat): (id: string)
    ensures |id| > |prefix| && id[..|prefix|] == prefix
    ensures forall i :: |prefix| <= i < |id| ==> IsDigit(id[i])
  {
    prefix + NatToString(n)
  }

  /** Under one prefix, distinct counters give distinct identifiers. */
  lemma LabelledInjective(prefix: string, m: nat, n: nat)
    requires Labelled(prefix, m) == Labelled(prefix, n)
    ensures m == n
  {
    assert NatToString(m) == Labelled(prefix, m)[|prefix|..];
    assert NatToString(n) == Labelled(prefix, n)[|prefix|..];
    NatToStringInjective(m, n);
  }
}
