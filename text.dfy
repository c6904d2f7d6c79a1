/** The few string operations of JavaScript the core relies on. */
module Text {

  /** The white space of ECMAScript (WhiteSpace and LineTerminator code points):
      the set matched by `\s` in a regular expression and removed by `trim()`. */
  predicate IsSpace(c: char) {
    var n := c as int;
    n == 0x09 || n == 0x0A || n == 0x0B || n == 0x0C || n == 0x0D || n == 0x20
    || n == 0xA0 || n == 0x1680 || (0x2000 <= n <= 0x200A) || n == 0x2028
    || n == 0x2029 || n == 0x202F || n == 0x205F || n == 0x3000 || n == 0xFEFF
  }

  /** `toLowerCase()` restricted to the ASCII letters; every other character is kept. */
  function LowerChar(c: char): char {
    if 'A' <= c <= 'Z' then (c as int + 32) as char else c
  }

  predicate IsUpper(c: char) { 'A' <= c <= 'Z' }

  /** Every ASCII capital becomes its small letter (32 code points on); nothing else changes,
      so no capital is left. */
  function ToLower(s: string): (r: string)
    ensures |r| == |s|
    ensures forall k :: 0 <= k < |s| && IsUpper(s[k]) ==> r[k] as int == s[k] as int + 32
    ensures forall k :: 0 <= k < |s| && !IsUpper(s[k]) ==> r[k] == s[k]
    ensures forall k :: 0 <= k < |r| ==> !IsUpper(r[k])
  {
    seq(|s|, k requires 0 <= k < |s| => LowerChar(s[k]))
  }

  /** Leading white space removed: the result is a suffix of `s`, everything cut off is
      white space, and the result does not start with white space. */
  function TrimStart(s: string): (r: string)
    ensures |r| <= |s| && r == s[|s| - |r|..]
    ensures forall k :: 0 <= k < |s| - |r| ==> IsSpace(s[k])
    ensures r != [] ==> !IsSpace(r[0])
  {
    if |s| > 0 && IsSpace(s[0]) then TrimStart(s[1..]) else s
  }

  /** Trailing white space removed, symmetrically to TrimStart. */
  function TrimEnd(s: string): (r: string)
    ensures |r| <= |s| && r == s[..|r|]
    ensures forall k :: |r| <= k < |s| ==> IsSpace(s[k])
    ensures r != [] ==> !IsSpace(r[|r| - 1])
  {
    if |s| > 0 && IsSpace(s[|s| - 1]) then TrimEnd(s[..|s| - 1]) else s
  }

  /** All of `s` is white space. */
  predicate AllSpace(s: string) {
    forall k :: 0 <= k < |s| ==> IsSpace(s[k])
  }

  /** `trim()`: the result is the middle slice `s[a..b]` of the input, everything before `a`
      and from `b` on is white space, the slice neither starts nor ends with white space, and
      it is empty exactly when the input is all white space. */
  function Trim(s: string): (r: string)
    ensures exists a :: 0 <= a <= |s| - |r| && r == s[a..a + |r|]
                        && AllSpace(s[..a]) && AllSpace(s[a + |r|..])
    ensures r != [] ==> !IsSpace(r[0]) && !IsSpace(r[|r| - 1])
    ensures r == [] <==> AllSpace(s)
  {
    var t := TrimStart(s);
    var r := TrimEnd(t);
    TrimCuts(s, t, r, |s| - |t|);
    r
  }

  /** What TrimStart and TrimEnd each cut off, seen from the original string. */
  lemma TrimCuts(s: string, t: string, r: string, a: int)
    requires t == TrimStart(s) && r == TrimEnd(t) && a == |s| - |t|
    ensures 0 <= a <= |s| - |r| && r == s[a..a + |r|] && AllSpace(s[..a]) && AllSpace(s[a + |r|..])
    ensures r == [] <==> AllSpace(s)
    ensures r != [] ==> !IsSpace(r[0]) && !IsSpace(r[|r| - 1])
  {
    StartCut(s);
    EndCut(t);
    Slices(s, a, |r|);
    EmptyCut(s);
  }

  lemma Slices<T>(s: seq<T>, a: int, m: int)
    requires 0 <= a <= |s| && 0 <= m <= |s| - a
    ensures s[a..][..m] == s[a..a + m] && s[a..][m..] == s[a + m..]
  {
  }

  lemma EmptyCut(s: string)
    ensures TrimEnd(TrimStart(s)) == [] <==> AllSpace(s)
  {
    var t := TrimStart(s);
    var a := |s| - |t|;
    if TrimEnd(t) == [] {
      StartCut(s);
      EndCut(t);
      assert t[0..] == t;
      assert s == s[..a] + t;
      AllSpaceConcat(s[..a], t);
    }
  }

  lemma StartCut(s: string)
    ensures AllSpace(s[..|s| - |TrimStart(s)|])
  {
    var a := |s| - |TrimStart(s)|;
    assert forall k :: 0 <= k < a ==> s[..a][k] == s[k];
  }

  lemma EndCut(t: string)
    ensures AllSpace(t[|TrimEnd(t)|..])
  {
    var b := |TrimEnd(t)|;
    assert forall k :: 0 <= k < |t| - b ==> t[b..][k] == t[b + k];
  }

  lemma AllSpaceConcat(x: string, y: string)
    requires AllSpace(x) && AllSpace(y)
    ensures AllSpace(x + y)
  {
  }

  /** Trimming a string without capitals leaves none. */
  lemma TrimKeepsLower(s: string)
    requires forall k :: 0 <= k < |s| ==> !IsUpper(s[k])
    ensures forall k :: 0 <= k < |Trim(s)| ==> !IsUpper(Trim(s)[k])
  {
    var t := TrimStart(s);
    assert forall k :: 0 <= k < |t| ==> !IsUpper(t[k]) by {
      assert forall k :: 0 <= k < |t| ==> t[k] == s[|s| - |t| + k];
    }
    var r := TrimEnd(t);
    assert forall k :: 0 <= k < |r| ==> r[k] == t[k];
  }

  /** A string with no surrounding white space is its own trim. */
  lemma TrimOfTrimmed(s: string)
    requires s != [] ==> !IsSpace(s[0]) && !IsSpace(s[|s| - 1])
    ensures Trim(s) == s
  {
    assert TrimStart(s) == s;
    assert TrimEnd(s) == s;
  }

  function DigitChar(d: int): char
    requires 0 <= d < 10
  {
    ('0' as int + d) as char
  }

  predicate IsDigit(c: char) { '0' <= c <= '9' }

  /** The decimal digits of `n`, most significant first, without leading zeros. */
  function NatToString(n: nat): (s: string)
    ensures |s| >= 1 && forall k :: 0 <= k < |s| ==> IsDigit(s[k])
    ensures |s| > 1 ==> s[0] != '0'
    decreases n
  {
    if n < 10 then [DigitChar(n)] else NatToString(n / 10) + [DigitChar(n % 10)]
  }

  /** How JavaScript prints an integer-valued number in a template literal: a minus sign
      exactly for a negative number, then the decimal digits of its magnitude. */
  function IntToString(i: int): (s: string)
    ensures |s| >= 1 && (s[0] == '-' <==> i < 0)
    ensures forall k :: (if i < 0 then 1 else 0) <= k < |s| ==> IsDigit(s[k])
    ensures SignedValue(s) == i
  {
    if i < 0 then
      NatToStringRoundTrip(-i);
      var s := "-" + NatToString(-i);
      assert s[1..] == NatToString(-i);
      s
    else
      NatToStringRoundTrip(i);
      NatToString(i)
  }

  /** The integer a printed number denotes: an optional minus sign, then decimal digits. */
  function SignedValue(s: string): int {
    if |s| > 0 && s[0] == '-' && AllDigits(s[1..]) then -DigitsValue(s[1..])
    else if AllDigits(s) then DigitsValue(s)
    else 0
  }

  predicate AllDigits(s: string) {
    forall k :: 0 <= k < |s| ==> IsDigit(s[k])
  }

  /** The number a string of decimal digits denotes; the reference reading for NatToString. */
  function DigitsValue(s: string): int
    requires forall k :: 0 <= k < |s| ==> IsDigit(s[k])
  {
    if s == [] then 0 else 10 * DigitsValue(s[..|s| - 1]) + (s[|s| - 1] as int - '0' as int)
  }

  /** Reading back the printed digits gives the number. */
  lemma {:induction false} NatToStringRoundTrip(n: nat)
    ensures DigitsValue(NatToString(n)) == n
    decreases n
  {
    if n >= 10 {
      NatToStringRoundTrip(n / 10);
      var s := NatToString(n);
      assert s[..|s| - 1] == NatToString(n / 10);
    }
  }

  /** A number below 1000 prints as one to three digits. */
  lemma {:induction false} NatToStringShort(n: nat)
    requires n < 1000
    ensures 1 <= |NatToString(n)| <= 3
  {
    if n >= 10 {
      NatToStringShort(n / 10);
      if n / 10 >= 10 {
        assert n / 100 < 10;
        assert |NatToString(n / 10)| == 2;
      }
    }
  }
}
