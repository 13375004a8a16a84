/** String helpers that stand for the Go standard library calls the core uses. */
module Text {

  /** `strings.HasPrefix(s, p)`. */
  predicate HasPrefix(s: string, p: string) {
    |p| <= |s| && s[..|p|] == p
  }

  /** `needle` occurs in `hay` starting at offset `i`. */
  predicate OccursAt(hay: string, needle: string, i: int) {
    0 <= i && i + |needle| <= |hay| && hay[i..i + |needle|] == needle
  }

  /** `strings.Contains(hay, needle)`: `needle` occurs at some offset of `hay`. */
  predicate Contains(hay: string, needle: string) {
    exists i :: 0 <= i <= |hay| && OccursAt(hay, needle, i)
  }

  /** The decimal digit for `d`. */
  function DigitChar(d: nat): (c: char)
    requires d < 10
    ensures '0' <= c <= '9' && c as int - '0' as int == d
  {
    ('0' as int + d) as char
  }

  /**
   * `n` written in exactly `width` decimal digits, with leading zeros, as Go's
   * time layouts "2006", "01", "02", "15", "04", "05" and ".000" print fields.
   */
  function ZeroPad(n: nat, width: nat): (s: string)
    ensures |s| == width
    ensures forall i :: 0 <= i < |s| ==> '0' <= s[i] <= '9'
  {
    if width == 0 then [] else ZeroPad(n / 10, width - 1) + [DigitChar(n % 10)]
  }

  /** The number of bytes of `c` in UTF-8. */
  function Utf8Width(c: char): (n: nat)
    ensures 1 <= n <= 4
    ensures n == 1 <==> c as int < 0x80
  {
    if c as int < 0x80 then 1
    else if c as int < 0x800 then 2
    else if c as int < 0x1_0000 then 3
    else 4
  }

  /** Go's `len(s)` on a string: its length in UTF-8 bytes. */
  function Utf8Len(s: string): (n: nat)
    ensures |s| <= n <= 4 * |s|
    ensures (forall i :: 0 <= i < |s| ==> s[i] as int < 0x80) ==> n == |s|
  {
    if s == [] then 0 else Utf8Width(s[0]) + Utf8Len(s[1..])
  }

  /** ASCII upper-case letters mapped to lower case; every other character kept. */
  function ToLowerAscii(s: string): (r: string)
    ensures |r| == |s|
    ensures forall i :: 0 <= i < |s| ==>
      r[i] == if 'A' <= s[i] <= 'Z' then (s[i] as int + 32) as char else s[i]
  {
    if s == [] then []
    else [if 'A' <= s[0] <= 'Z' then (s[0] as int + 32) as char else s[0]] + ToLowerAscii(s[1..])
  }

  /**
   * Go's `path.Ext` (and `filepath.Ext` with '/' as separator): the suffix
   * from the last '.' of the final '/'-separated element, or "" when that
   * element has no '.'.
   */
  function Ext(p: string): (r: string)
    ensures |r| <= |p| && r == p[|p| - |r|..]
    ensures r != [] ==> r[0] == '.' && '.' !in r[1..] && '/' !in r
    ensures r == [] ==> forall i :: 0 <= i < |p| && p[i] == '.' ==> '/' in p[i + 1..]
  {
    if p == [] then ""
    else
      var q, c := p[..|p| - 1], p[|p| - 1];
      assert p == q + [c];
      if c == '/' then
        assert forall i | 0 <= i < |q| && p[i] == '.' :: '/' in p[i + 1..] by {
          forall i | 0 <= i < |q| && p[i] == '.' ensures '/' in p[i + 1..] {
            assert p[i + 1..][|p| - i - 2] == '/';
          }
        }
        ""
      else if c == '.' then "."
      else
        var e := Ext(q);
        if e == "" then
          assert forall i | 0 <= i < |p| && p[i] == '.' :: '/' in p[i + 1..] by {
            forall i | 0 <= i < |p| && p[i] == '.' ensures '/' in p[i + 1..] {
              assert q[i] == '.' && p[i + 1..] == q[i + 1..] + [c];
            }
          }
          ""
        else e + [c]
  }

  /** A path with no '.' has no extension. */
  lemma ExtWithoutDot(p: string)
    requires forall i :: 0 <= i < |p| ==> p[i] != '.'
    ensures Ext(p) == ""
  {
  }

  /** When the last '.' of `p` is at `i` and no '/' follows it, the extension is `p[i..]`. */
  lemma ExtAtLastDot(p: string, i: nat)
    requires i < |p| && p[i] == '.'
    requires forall k :: i < k < |p| ==> p[k] != '.' && p[k] != '/'
    ensures Ext(p) == p[i..]
  {
    var r := Ext(p);
    if r != [] {
      var s := |p| - |r|;
      assert p[s] == r[0];
    }
  }

  function Pow10(k: nat): (r: nat)
    ensures r >= 1
  {
    if k == 0 then 1 else 10 * Pow10(k - 1)
  }

  /** The number a string of decimal digits denotes. */
  function DecimalValue(s: string): nat
    requires forall i :: 0 <= i < |s| ==> '0' <= s[i] <= '9'
  {
    if s == [] then 0 else DecimalValue(s[..|s| - 1]) * 10 + (s[|s| - 1] as int - '0' as int)
  }

  lemma {:induction false} MulAtLeast(m: nat, k: nat)
    requires k >= 1
    ensures m * k >= m
  {
    if k > 1 {
      MulAtLeast(m, k - 1);
      assert m * k == m * (k - 1) + m;
    }
  }

  /** The remainder of a division is determined by any decomposition with a small enough rest. */
  lemma ModUnique(n: nat, m: nat, a: nat, c: nat)
    requires 0 <= c < m && n == m * a + c
    ensures n % m == c
  {
    var q, r := n / m, n % m;
    assert m * a + c == m * q + r;
    if a > q {
      assert m * a == m * q + m * (a - q);
      MulAtLeast(m, a - q);
    } else if a < q {
      assert m * q == m * a + m * (q - a);
      MulAtLeast(m, q - a);
    }
  }

  /** One decimal digit more: the low digit plus ten times the remaining value. */
  lemma ModTenStep(n: nat, p: nat)
    requires p > 0
    ensures (n / 10) % p * 10 + n % 10 == n % (10 * p)
  {
    var q, r := n / 10, n % 10;
    var a, b := q / p, q % p;
    assert n == 10 * q + r;
    assert q == p * a + b;
    assert n == (10 * p) * a + (10 * b + r);
    ModUnique(n, 10 * p, a, 10 * b + r);
  }

  /** ZeroPad keeps the low `width` digits of `n`: reading them back gives `n` modulo 10^width. */
  lemma {:induction false} ZeroPadValue(n: nat, width: nat)
    ensures DecimalValue(ZeroPad(n, width)) == n % Pow10(width)
  {
    if width > 0 {
      var s := ZeroPad(n, width);
      assert s[..|s| - 1] == ZeroPad(n / 10, width - 1);
      ZeroPadValue(n / 10, width - 1);
      ModTenStep(n, Pow10(width - 1));
    }
  }

  predicate AllDigits(s: string) {
    forall i :: 0 <= i < |s| ==> '0' <= s[i] <= '9'
  }

  /** A string of `k` digits denotes a number below 10^k. */
  lemma {:induction false} DecimalBound(s: string)
    requires AllDigits(s)
    ensures DecimalValue(s) < Pow10(|s|)
  {
    if s != [] {
      DecimalBound(s[..|s| - 1]);
    }
  }

  /** A number below 10^width survives zero-padding to `width` digits. */
  lemma ZeroPadReadsBack(n: nat, width: nat)
    requires n < Pow10(width)
    ensures DecimalValue(ZeroPad(n, width)) == n
  {
    ZeroPadValue(n, width);
  }

  /** Ext read off the last character: the recursion of its definition as a single equation. */
  lemma ExtLast(p: string)
    requires p != []
    ensures var q, c := p[..|p| - 1], p[|p| - 1];
      Ext(p) == if c == '/' then "" else if c == '.' then "." else if Ext(q) == "" then "" else Ext(q) + [c]
  {
  }
}
