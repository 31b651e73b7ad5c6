/** String helpers the game relies on: case-insensitive comparison (the
    game's stand-in for Go's strings.EqualFold, restricted to ASCII), prefix
    tests (strings.HasPrefix) and the decimal rendering of a natural number
    (fmt.Sprintf("%d", n) for n >= 0). */
module Text {

  /** ASCII lower-casing of one character; every other character folds to itself. */
  function FoldChar(c: char): char {
    if 'A' <= c <= 'Z' then (c as int - 'A' as int + 'a' as int) as char else c
  }

  /** Two strings are equal up to ASCII case. */
  predicate EqualFold(a: string, b: string) {
    |a| == |b| && forall i :: 0 <= i < |a| ==> FoldChar(a[i]) == FoldChar(b[i])
  }

  /** `s` starts with `prefix`. */
  predicate HasPrefix(s: string, prefix: string) {
    |prefix| <= |s| && s[..|prefix|] == prefix
  }

  /** The decimal digit for `d`. */
  function DigitChar(d: nat): (c: char)
    requires d < 10
    ensures '0' <= c <= '9'
  {
    ('0' as int + d) as char
  }

  /** Decimal rendering of `n`, most significant digit first, without
      leading zeros. */
  function NatToString(n: nat): (r: string)
    ensures |r| >= 1
    ensures |r| == 1 <==> n < 10
    ensures forall i :: 0 <= i < |r| ==> '0' <= r[i] <= '9'
    ensures r[0] == '0' <==> n == 0
    decreases n
  {
    if n < 10 then [DigitChar(n)] else NatToString(n / 10) + [DigitChar(n % 10)]
  }

  /** Different numbers render differently, so "%d" keys never collide. */
  lemma {:induction false} NatToStringInjective(a: nat, b: nat)
    ensures NatToString(a) == NatToString(b) ==> a == b
    decreases a
  {
    if NatToString(a) == NatToString(b) {
      var s := NatToString(a);
      if a >= 10 {
        assert b >= 10;
        var pa, pb := NatToString(a / 10), NatToString(b / 10);
        assert s == pa + [DigitChar(a % 10)];
        assert s == pb + [DigitChar(b % 10)];
        assert |pa| == |pb|;
        assert pa == s[..|s| - 1] == pb;
        NatToStringInjective(a / 10, b / 10);
        assert DigitChar(a % 10) == s[|s| - 1] == DigitChar(b % 10);
      }
    }
  }
}
