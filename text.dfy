/**
 * String helpers the handlers rely on: `String.prototype.trim`, lower-casing,
 * `String.prototype.includes`, and the decimal rendering used by the timer.
 */
module Text {

  // ---------------------------------------------------------------------
  // trim
  // ---------------------------------------------------------------------

  /**
   * The code points ECMAScript's `trim` removes: the WhiteSpace characters
   * (tab, vertical tab, form feed, space, no-break space, the byte order mark
   * and the Unicode space separators) and the LineTerminator characters.
   */
  predicate IsWhite(c: char) {
    var n := c as int;
    n == 0x09 || n == 0x0A || n == 0x0B || n == 0x0C || n == 0x0D
    || n == 0x20 || n == 0xA0 || n == 0x1680 || (0x2000 <= n <= 0x200A)
    || n == 0x2028 || n == 0x2029 || n == 0x202F || n == 0x205F
    || n == 0x3000 || n == 0xFEFF
  }

  predicate AllWhite(s: string) {
    forall i :: 0 <= i < |s| ==> IsWhite(s[i])
  }

  /** Drops the leading white space. */
  function TrimStart(s: string): string {
    if s != [] && IsWhite(s[0]) then TrimStart(s[1..]) else s
  }

  /** Drops the trailing white space. */
  function TrimEnd(s: string): string {
    if s != [] && IsWhite(s[|s| - 1]) then TrimEnd(s[..|s| - 1]) else s
  }

  /** `TrimStart` keeps a suffix, drops only white space, and stops at a non-white character. */
  lemma {:induction false} TrimStartSpec(s: string)
    ensures |TrimStart(s)| <= |s| && TrimStart(s) == s[|s| - |TrimStart(s)|..]
    ensures AllWhite(s[..|s| - |TrimStart(s)|])
    ensures TrimStart(s) == [] || !IsWhite(TrimStart(s)[0])
    decreases |s|
  {
    if s != [] && IsWhite(s[0]) {
      var r := TrimStart(s[1..]);
      TrimStartSpec(s[1..]);
      assert s[1..][|s| - 1 - |r|..] == s[|s| - |r|..];
      assert forall k :: 1 <= k < |s| - |r| ==> s[k] == s[1..][..|s| - 1 - |r|][k - 1];
    }
  }

  /** `TrimEnd` keeps a prefix, drops only white space, and stops at a non-white character. */
  lemma {:induction false} TrimEndSpec(s: string)
    ensures |TrimEnd(s)| <= |s| && TrimEnd(s) == s[..|TrimEnd(s)|]
    ensures AllWhite(s[|TrimEnd(s)|..])
    ensures TrimEnd(s) == [] || !IsWhite(TrimEnd(s)[|TrimEnd(s)| - 1])
    decreases |s|
  {
    if s != [] && IsWhite(s[|s| - 1]) {
      var r := TrimEnd(s[..|s| - 1]);
      TrimEndSpec(s[..|s| - 1]);
      assert s[..|s| - 1][..|r|] == s[..|r|];
      assert forall k :: |r| <= k < |s| - 1 ==> s[k] == s[..|s| - 1][|r|..][k - |r|];
    }
  }

  /**
   * `r` is `s[i..j]`, with only white space before `i` and from `j` on,
   * and neither end of `r` white.
   */
  predicate TrimmedAt(r: string, s: string, i: nat, j: nat) {
    i <= j <= |s| && r == s[i..j] && AllWhite(s[..i]) && AllWhite(s[j..])
    && (r != [] ==> !IsWhite(r[0]) && !IsWhite(r[|r| - 1]))
  }

  /** `r` is what `trim` makes of `s`. */
  ghost predicate IsTrimOf(r: string, s: string) {
    exists i: nat, j: nat :: TrimmedAt(r, s, i, j)
  }

  /** `String.prototype.trim`. */
  function Trim(s: string): string {
    TrimEnd(TrimStart(s))
  }

  /** `Trim` removes the white space at both ends and nothing else. */
  lemma TrimIsTrim(s: string)
    ensures IsTrimOf(Trim(s), s)
  {
    var t := TrimStart(s);
    var r := TrimEnd(t);
    TrimStartSpec(s);
    TrimEndSpec(t);
    var i := |s| - |t|;
    assert r == s[i..i + |r|];
    assert AllWhite(s[i + |r|..]) by {
      assert s[i + |r|..] == t[|r|..];
    }
    assert TrimmedAt(r, s, i, i + |r|);
  }

  lemma WhiteBefore(s: string, n: nat, k: nat)
    requires n <= |s| && AllWhite(s[..n]) && k < n
    ensures IsWhite(s[k])
  {
    assert s[..n][k] == s[k];
  }

  /** Where `Trim` cuts: white space up to `a` and from `b`, non-white ends in between. */
  lemma TrimCut(s: string) returns (a: nat, b: nat)
    ensures a <= b <= |s| && Trim(s) == s[a..b]
    ensures AllWhite(s[..a]) && AllWhite(s[b..])
    ensures a < b ==> !IsWhite(s[a]) && !IsWhite(s[b - 1])
  {
    var t := TrimStart(s);
    var r := TrimEnd(t);
    TrimStartSpec(s);
    TrimEndSpec(t);
    assert Trim(s) == r;
    a := |s| - |t|;
    b := a + |r|;
    assert t == s[a..];
    assert r == t[..|r|];
    assert s[a..b] == r;
    assert s[b..] == t[|r|..];
    if a < b {
      assert s[a] == t[0];
      assert s[b - 1] == r[|r| - 1];
    }
  }

  /** Any witness of `IsTrimOf` cuts out exactly what `Trim` returns. */
  lemma TrimWitness(r: string, s: string, i: nat, j: nat)
    requires TrimmedAt(r, s, i, j)
    ensures r == Trim(s)
  {
    var a, b := TrimCut(s);
    if i < j && a < b {
      if i < a { WhiteBefore(s, a, i); }
      else if a < i { WhiteBefore(s, i, a); }
    } else if i < j {
      if i < a { WhiteBefore(s, a, i); }
    } else if a < b {
      if a < i { WhiteBefore(s, i, a); }
    }
  }

  /** Trimming removes exactly the white padding around a string whose ends are not white. */
  lemma TrimPadded(w1: string, r: string, w2: string)
    requires AllWhite(w1) && AllWhite(w2)
    requires r != [] ==> !IsWhite(r[0]) && !IsWhite(r[|r| - 1])
    ensures Trim(w1 + r + w2) == r
  {
    var s := w1 + r + w2;
    assert s[..|w1|] == w1;
    assert s[|w1|..|w1| + |r|] == r;
    assert s[|w1| + |r|..] == w2;
    TrimWitness(r, s, |w1|, |w1| + |r|);
  }

  /** The characterisation of `trim` leaves no choice: it fixes the result. */
  lemma TrimOfUnique(r1: string, r2: string, s: string)
    requires IsTrimOf(r1, s) && IsTrimOf(r2, s)
    ensures r1 == r2
  {
    var i1: nat, j1: nat :| TrimmedAt(r1, s, i1, j1);
    var i2: nat, j2: nat :| TrimmedAt(r2, s, i2, j2);
    TrimWitness(r1, s, i1, j1);
    TrimWitness(r2, s, i2, j2);
  }

  /** A string trims to nothing exactly when it is all white space. */
  lemma TrimEmptyIffWhite(s: string)
    ensures Trim(s) == [] <==> AllWhite(s)
  {
    TrimIsTrim(s);
    var i: nat, j: nat :| TrimmedAt(Trim(s), s, i, j);
    if Trim(s) == [] {
      assert i == j;
      forall k | 0 <= k < |s| ensures IsWhite(s[k]) {
        if k < i { assert s[..i][k] == s[k]; } else { assert s[j..][k - j] == s[k]; }
      }
    } else {
      assert s[i] == Trim(s)[0];
    }
  }

  /** Trimming twice is trimming once. */
  lemma TrimIdempotent(s: string)
    ensures Trim(Trim(s)) == Trim(s)
  {
    var r := Trim(s);
    TrimIsTrim(s);
    var i: nat, j: nat :| TrimmedAt(r, s, i, j);
    TrimPadded([], r, []);
    assert [] + r + [] == r;
  }

  // ---------------------------------------------------------------------
  // toLowerCase (ASCII letters only)
  // ---------------------------------------------------------------------

  /** An ASCII capital becomes the small letter 32 code points above it; anything else is kept. */
  function LowerChar(c: char): (r: char)
    ensures 'A' <= c <= 'Z' ==> 'a' <= r <= 'z' && r as int == c as int + 32
    ensures !('A' <= c <= 'Z') ==> r == c
    ensures !('A' <= r <= 'Z')
  {
    if 'A' <= c <= 'Z' then (c as int + 32) as char else c
  }

  function Lower(s: string): (r: string)
    ensures |r| == |s|
    ensures forall i :: 0 <= i < |s| ==> r[i] == LowerChar(s[i])
  {
    seq(|s|, i requires 0 <= i < |s| => LowerChar(s[i]))
  }

  /** Lower-casing twice is lower-casing once. */
  lemma LowerIdempotent(s: string)
    ensures Lower(Lower(s)) == Lower(s)
  {
    assert forall i :: 0 <= i < |s| ==> Lower(Lower(s))[i] == Lower(s)[i];
  }

  // ---------------------------------------------------------------------
  // includes
  // ---------------------------------------------------------------------

  predicate IsPrefix(p: string, s: string) {
    |p| <= |s| && s[..|p|] == p
  }

  /** Position of the first `c` in `s` (|s| when there is none). */
  function IndexOfChar(s: string, c: char): (k: nat)
    ensures k <= |s|
    ensures k < |s| ==> s[k] == c
    ensures forall j :: 0 <= j < k ==> s[j] != c
  {
    if s == [] || s[0] == c then 0 else 1 + IndexOfChar(s[1..], c)
  }

  /** A `c` with none before it is the first one. */
  lemma {:induction false} IndexOfCharAt(s: string, c: char, k: nat)
    requires k < |s| && s[k] == c
    requires forall j :: 0 <= j < k ==> s[j] != c
    ensures IndexOfChar(s, c) == k
  {
    if k > 0 {
      IndexOfCharAt(s[1..], c, k - 1);
    }
  }

  /** `q` occurs in `s` starting at position `i`. */
  predicate OccursAt(s: string, q: string, i: nat) {
    i + |q| <= |s| && s[i..i + |q|] == q
  }

  /** `s.includes(q)`: tries each starting position from the left. */
  predicate Contains(s: string, q: string)
    decreases |s|
  {
    IsPrefix(q, s) || (s != [] && Contains(s[1..], q))
  }

  /** `includes` holds exactly when `q` occurs somewhere in `s`. */
  lemma {:induction false} ContainsIff(s: string, q: string)
    ensures Contains(s, q) <==> exists i: nat :: OccursAt(s, q, i)
    decreases |s|
  {
    assert OccursAt(s, q, 0) <==> IsPrefix(q, s);
    if s != [] {
      ContainsIff(s[1..], q);
      forall i: nat | OccursAt(s[1..], q, i)
        ensures OccursAt(s, q, i + 1)
      {
        assert s[1..][i..i + |q|] == s[i + 1..i + 1 + |q|];
      }
      forall i: nat | 0 < i && OccursAt(s, q, i)
        ensures OccursAt(s[1..], q, i - 1)
      {
        assert s[1..][i - 1..i - 1 + |q|] == s[i..i + |q|];
      }
    }
  }

  /** Every string includes the empty string. */
  lemma ContainsEmpty(s: string)
    ensures Contains(s, [])
  {
    assert IsPrefix([], s);
  }

  // ---------------------------------------------------------------------
  // decimal numerals: String(n) and padStart(2, "0")
  // ---------------------------------------------------------------------

  predicate IsDigit(c: char) {
    '0' <= c <= '9'
  }

  predicate AllDigits(s: string) {
    forall i :: 0 <= i < |s| ==> IsDigit(s[i])
  }

  function DigitChar(d: nat): (c: char)
    requires d < 10
    ensures IsDigit(c)
  {
    ('0' as int + d) as char
  }

  function DigitValue(c: char): (d: nat)
    requires IsDigit(c)
    ensures d < 10
  {
    c as int - '0' as int
  }

  /** `String(n)` for a non-negative integer: its decimal digits, no leading zero. */
  function NatToString(n: nat): (r: string)
    ensures |r| >= 1 && AllDigits(r)
    ensures |r| > 1 ==> r[0] != '0'
    ensures (n < 10) == (|r| == 1)
    decreases n
  {
    if n < 10 then [DigitChar(n)] else NatToString(n / 10) + [DigitChar(n % 10)]
  }

  /** The value of a string of decimal digits (the empty string reads as 0). */
  function ParseDigits(s: string): nat
    requires AllDigits(s)
  {
    if s == [] then 0 else 10 * ParseDigits(s[..|s| - 1]) + DigitValue(s[|s| - 1])
  }

  /** Reading back the decimal rendering of `n` gives `n`. */
  lemma {:induction false} NatToStringRoundTrip(n: nat)
    ensures ParseDigits(NatToString(n)) == n
    decreases n
  {
    if n >= 10 {
      var r := NatToString(n);
      assert r[..|r| - 1] == NatToString(n / 10);
      NatToStringRoundTrip(n / 10);
    }
  }

  /** A leading zero does not change the value of a numeral. */
  lemma {:induction false} ParseLeadingZero(s: string)
    requires AllDigits(s)
    ensures AllDigits("0" + s) && ParseDigits("0" + s) == ParseDigits(s)
    decreases |s|
  {
    if s != [] {
      assert ("0" + s)[..|"0" + s| - 1] == "0" + s[..|s| - 1];
      ParseLeadingZero(s[..|s| - 1]);
    }
  }

  /** `padStart(2, "0")`. */
  function PadStart2(s: string): (r: string)
    ensures |r| == if |s| < 2 then 2 else |s|
    ensures r[|r| - |s|..] == s
    ensures forall i :: 0 <= i < |r| - |s| ==> r[i] == '0'
  {
    if |s| == 0 then "00" else if |s| == 1 then "0" + s else s
  }

  /** `String(n).padStart(2, "0")`: at least two digits, reading back as `n`. */
  function Pad2(n: nat): (r: string)
    ensures AllDigits(r) && ParseDigits(r) == n
    ensures n < 100 <==> |r| == 2
  {
    var d := NatToString(n);
    NatToStringRoundTrip(n);
    if n < 10 then
      ParseLeadingZero(d);
      PadStart2(d)
    else
      assert n < 100 ==> |d| == 2 by {
        if n < 100 { assert n / 10 < 10; }
      }
      assert |d| == 2 ==> n < 100 by {
        if |d| == 2 { assert |NatToString(n / 10)| == 1; }
      }
      PadStart2(d)
  }
}
