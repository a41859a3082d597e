/** Small value types and string helpers shared by the two scripts:
    an Option and a Result for the error paths, and the decimal rendering
    JavaScript uses when a non-negative integer is interpolated into a
    template string (`Area ${n}`, `${desired} (${i})`). */
module Text {

  datatype Option<+T> = None | Some(value: T)

  datatype Result<+T, +E> = Success(value: T) | Failure(error: E)

  /** The decimal digit character for 0 <= d < 10. */
  function DigitChar(d: nat): (c: char)
    requires d < 10
    ensures '0' <= c <= '9'
    ensures c as int - '0' as int == d
  {
    ('0' as int + d) as char
  }

  /** The number a string of decimal digits denotes, most significant
      digit first. */
  function DecValue(s: string): nat
    requires forall k :: 0 <= k < |s| ==> '0' <= s[k] <= '9'
  {
    if s == [] then 0 else DecValue(s[..|s| - 1]) * 10 + (s[|s| - 1] as int - '0' as int)
  }

  /** `String(n)` for a non-negative integer: its shortest decimal form. */
  function NatToString(n: nat): (s: string)
    ensures |s| >= 1
    ensures forall k :: 0 <= k < |s| ==> '0' <= s[k] <= '9'
    ensures n < 10 <==> |s| == 1
    ensures s[|s| - 1] == DigitChar(n % 10)
  {
    if n < 10 then [DigitChar(n)] else NatToString(n / 10) + [DigitChar(n % 10)]
  }

  /** The digits of `String(n)` denote n, and only 0 itself starts with the
      digit 0. */
  lemma {:induction false} NatToStringValue(n: nat)
    ensures DecValue(NatToString(n)) == n
    ensures NatToString(n)[0] == '0' <==> n == 0
  {
    if n >= 10 {
      var high := NatToString(n / 10);
      NatToStringValue(n / 10);
      assert NatToString(n)[..|high|] == high;
      assert NatToString(n)[0] == high[0];
    }
  }

  /** Distinct numbers render as distinct strings, so a counter that only
      grows never hands out the same label twice. */
  lemma {:induction false} NatToStringInjective(a: nat, b: nat)
    requires NatToString(a) == NatToString(b)
    ensures a == b
  {
    if a >= 10 && b >= 10 {
      var sa, sb := NatToString(a), NatToString(b);
      assert NatToString(a / 10) == sa[..|sa| - 1];
      assert NatToString(b / 10) == sb[..|sb| - 1];
      NatToStringInjective(a / 10, b / 10);
      assert DigitChar(a % 10) == DigitChar(b % 10);
    }
  }

  /** The labels `prefix + n` that the drawing tool and the sheet helper
      build are distinct for distinct n. */
  lemma LabelInjective(prefix: string, suffix: string, a: nat, b: nat)
    requires prefix + NatToString(a) + suffix == prefix + NatToString(b) + suffix
    ensures a == b
  {
    var x, y := prefix + NatToString(a) + suffix, prefix + NatToString(b) + suffix;
    assert |NatToString(a)| == |NatToString(b)|;
    assert NatToString(a) == x[|prefix|..|x| - |suffix|];
    assert NatToString(b) == y[|prefix|..|y| - |suffix|];
    NatToStringInjective(a, b);
  }
}
