/**
 * The few JavaScript string and number built-ins that the session controller
 * relies on, written out over `seq<char>`:
 *   - `Number.prototype.toString()` on a non-negative integer (the clock),
 *   - `String.prototype.slice(-k)`,
 *   - `String.prototype.split('@')[0]`,
 *   - `charAt(0).toUpperCase()`, restricted to ASCII letters.
 */
module JsText {

  /** The character of a decimal digit. */
  function DigitChar(d: nat): (c: char)
    requires d < 10
    ensures '0' <= c <= '9'
  {
    (('0' as int) + d) as char
  }

  lemma DigitCharInjective(d: nat, e: nat)
    requires d < 10 && e < 10
    ensures DigitChar(d) == DigitChar(e) <==> d == e
  {
  }

  function Pow10(k: nat): (p: nat)
    ensures p >= 1
  {
    if k == 0 then 1 else 10 * Pow10(k - 1)
  }

  predicate IsDigits(s: string)
  {
    forall i :: 0 <= i < |s| ==> '0' <= s[i] <= '9'
  }

  /**
   * `n.toString()` for a non-negative integer: its decimal digits, most
   * significant first, with no leading zero (except for `0` itself).
   */
  function NatToString(n: nat): (s: string)
    ensures |s| >= 1 && IsDigits(s)
    ensures s[0] == '0' ==> n == 0
    decreases n
  {
    if n < 10 then [DigitChar(n)] else NatToString(n / 10) + [DigitChar(n % 10)]
  }

  /** The last `k` decimal digits of `m`, padded with leading zeros. */
  function LastDigits(m: nat, k: nat): (s: string)
    ensures |s| == k && IsDigits(s)
  {
    if k == 0 then [] else LastDigits(m / 10, k - 1) + [DigitChar(m % 10)]
  }

  /**
   * `s.slice(-k)`: the last `k` characters, or all of `s` when it is shorter.
   * `slice(-0)` is `slice(0)`, the whole string.
   */
  function SliceFromEnd(s: string, k: nat): (r: string)
    ensures |r| == if k == 0 || |s| <= k then |s| else k
    ensures s == s[..|s| - |r|] + r
  {
    if k == 0 || |s| <= k then s else s[|s| - k..]
  }

  /** A number with at least `k + 1` digits, i.e. at least 10^k, prints as at least `k + 1` characters. */
  lemma {:induction false} NatToStringLength(n: nat, k: nat)
    requires n >= Pow10(k)
    ensures |NatToString(n)| >= k + 1
    decreases n
  {
    if k > 0 {
      assert n >= 10;
      assert n / 10 >= Pow10(k - 1);
      NatToStringLength(n / 10, k - 1);
    }
  }

  /** The last `k` characters of `n.toString()` are the last `k` digits of `n`. */
  lemma {:induction false} NatToStringSuffix(n: nat, k: nat)
    requires k <= |NatToString(n)|
    ensures NatToString(n)[|NatToString(n)| - k..] == LastDigits(n, k)
    decreases n
  {
    if k > 0 && n >= 10 {
      NatToStringSuffix(n / 10, k - 1);
      SuffixOfSnoc(NatToString(n / 10), DigitChar(n % 10), k);
    } else if k > 0 {
      assert n % 10 == n && n / 10 == 0;
    }
  }

  /** The last `k` elements of `t + [c]` are the last `k - 1` of `t`, then `c`. */
  lemma SuffixOfSnoc(t: string, c: char, k: nat)
    requires 1 <= k <= |t| + 1
    ensures (t + [c])[|t| + 1 - k..] == t[|t| - (k - 1)..] + [c]
  {
  }

  /** Euclidean division is unique. */
  lemma DivModUnique(n: nat, d: nat, q: nat, r: nat)
    requires d > 0 && r < d && n == q * d + r
    ensures n / d == q && n % d == r
  {
    var q', r' := n / d, n % d;
    if q' > q {
      MulMonotone(q + 1, q', d);
      assert false;
    } else if q' < q {
      MulMonotone(q' + 1, q, d);
      assert false;
    }
  }

  /** Two numbers less than `d` apart have different remainders modulo `d`. */
  lemma CloseValuesDifferModulo(n: nat, n': nat, d: nat)
    requires n < n' < n + d
    ensures n % d != n' % d
  {
    var q, q' := n / d, n' / d;
    var r, r' := n % d, n' % d;
    assert n == q * d + r && n' == q' * d + r';
    if r == r' {
      if q' <= q {
        MulMonotone(q', q, d);
      } else {
        MulMonotone(q + 1, q', d);
      }
      assert false;
    }
  }

  lemma MulMonotone(a: int, b: int, d: int)
    ensures 0 <= d && a <= b ==> a * d <= b * d
  {
  }

  /** Splitting off the last digit of a remainder modulo 10^(k+1). */
  lemma ModPow10Split(n: nat, k: nat)
    ensures n % Pow10(k + 1) == 10 * ((n / 10) % Pow10(k)) + n % 10
  {
    var p := Pow10(k);
    var q, r := n / 10, n % 10;
    var a, b := q / p, q % p;
    assert q == a * p + b;
    assert n == q * 10 + r;
    assert n == a * (10 * p) + (10 * b + r) by {
      calc {
        n;
        (a * p + b) * 10 + r;
        a * (10 * p) + (10 * b + r);
      }
    }
    assert 10 * b + r < 10 * p;
    DivModUnique(n, 10 * p, a, 10 * b + r);
  }

  /** The last `k` digits of two numbers agree exactly when the numbers agree modulo 10^k. */
  lemma {:induction false} LastDigitsEqual(m: nat, m': nat, k: nat)
    ensures LastDigits(m, k) == LastDigits(m', k) <==> m % Pow10(k) == m' % Pow10(k)
  {
    if k > 0 {
      LastDigitsEqual(m / 10, m' / 10, k - 1);
      ModPow10Split(m, k - 1);
      ModPow10Split(m', k - 1);
      DigitCharInjective(m % 10, m' % 10);
      var s, s' := LastDigits(m, k), LastDigits(m', k);
      if s == s' {
        assert s[..k - 1] == LastDigits(m / 10, k - 1);
        assert s'[..k - 1] == LastDigits(m' / 10, k - 1);
        assert s[k - 1] == DigitChar(m % 10) && s'[k - 1] == DigitChar(m' % 10);
      }
    }
  }

  /** `s.split('@')[0]`: everything before the first `'@'`, or all of `s` when it has none. */
  function BeforeAt(s: string): (r: string)
    ensures '@' !in r
    ensures |r| <= |s| && r == s[..|r|]
    ensures |r| == |s| || s[|r|] == '@'
  {
    if s == [] || s[0] == '@' then [] else [s[0]] + BeforeAt(s[1..])
  }

  /** `toUpperCase` on one character, for ASCII letters only. */
  function UpperAscii(c: char): (u: char)
    ensures 'a' <= c <= 'z' ==> 'A' <= u <= 'Z' && u as int == c as int - 32
    ensures !('a' <= c <= 'z') ==> u == c
  {
    if 'a' <= c <= 'z' then (c as int - 32) as char else c
  }

  /** `s.charAt(0).toUpperCase() + s.slice(1)`; `charAt(0)` of the empty string is empty. */
  function Capitalize(s: string): (r: string)
    ensures |r| == |s|
    ensures s != [] ==> r[0] == UpperAscii(s[0]) && r[1..] == s[1..]
  {
    if s == [] then [] else [UpperAscii(s[0])] + s[1..]
  }
}
