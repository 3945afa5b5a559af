/**
 * The string operations the game relies on, with JavaScript's meaning:
 * String.prototype.trim (used to clean the player's name), the decimal
 * rendering of a non-negative integer (Number.prototype.toString), padStart,
 * and the MM:SS timer display formatTime built from them.
 */
module Strings {
  import opened Wrappers

  /**
   * The characters String.prototype.trim removes: ECMAScript's WhiteSpace
   * (tab, vertical tab, form feed, no-break space, byte order mark and every
   * space separator) and LineTerminator (line feed, carriage return, line and
   * paragraph separators).
   */
  const WhiteSpaceChars: set<char> := {
    '\t', '\n', '\U{000B}', '\U{000C}', '\r', ' ', '\U{00A0}', '\U{1680}',
    '\U{2000}', '\U{2001}', '\U{2002}', '\U{2003}', '\U{2004}', '\U{2005}',
    '\U{2006}', '\U{2007}', '\U{2008}', '\U{2009}', '\U{200A}',
    '\U{2028}', '\U{2029}', '\U{202F}', '\U{205F}', '\U{3000}', '\U{FEFF}'
  }

  predicate IsWhiteSpace(c: char) {
    c in WhiteSpaceChars
  }

  predicate AllWhiteSpace(s: string) {
    forall i :: 0 <= i < |s| ==> IsWhiteSpace(s[i])
  }

  /** The first index at or after i that does not hold white space (|s| if none). */
  function SkipForward(s: string, i: nat): (j: nat)
    requires i <= |s|
    ensures i <= j <= |s|
    ensures forall k :: i <= k < j ==> IsWhiteSpace(s[k])
    ensures j == |s| || !IsWhiteSpace(s[j])
    decreases |s| - i
  {
    if i < |s| && IsWhiteSpace(s[i]) then SkipForward(s, i + 1) else i
  }

  /** The least index i in [lo, j] such that s[i..j] is all white space. */
  function SkipBackward(s: string, lo: nat, j: nat): (i: nat)
    requires lo <= j <= |s|
    ensures lo <= i <= j
    ensures forall k :: i <= k < j ==> IsWhiteSpace(s[k])
    ensures i == lo || !IsWhiteSpace(s[i - 1])
    decreases j
  {
    if lo < j && IsWhiteSpace(s[j - 1]) then SkipBackward(s, lo, j - 1) else j
  }

  /** String.prototype.trim: s with its leading and trailing white space removed. */
  function Trim(s: string): string {
    var i := SkipForward(s, 0);
    s[i..SkipBackward(s, i, |s|)]
  }

  /** A string with no white space at either end. */
  predicate Trimmed(m: string) {
    m == [] || (!IsWhiteSpace(m[0]) && !IsWhiteSpace(m[|m| - 1]))
  }

  /**
   * Trim cuts s into white space, Trim(s) and white space, and Trim(s) has
   * none at either end.
   */
  lemma TrimSplits(s: string)
    ensures Trimmed(Trim(s))
    ensures exists i :: (0 <= i <= |s| - |Trim(s)| &&
      s[i..i + |Trim(s)|] == Trim(s) &&
      AllWhiteSpace(s[..i]) && AllWhiteSpace(s[i + |Trim(s)|..]))
  {
    var i := SkipForward(s, 0);
    var j := SkipBackward(s, i, |s|);
    assert Trim(s) == s[i..j];
    if i < j {
      assert Trim(s)[0] == s[i];
    }
    assert AllWhiteSpace(s[..i]);
  }

  lemma {:induction false} SkipForwardStops(s: string, i: nat, j: nat)
    requires i <= j <= |s|
    requires forall k :: i <= k < j ==> IsWhiteSpace(s[k])
    requires j == |s| || !IsWhiteSpace(s[j])
    ensures SkipForward(s, i) == j
    decreases j - i
  {
    if i < j {
      SkipForwardStops(s, i + 1, j);
    }
  }

  lemma {:induction false} SkipBackwardStops(s: string, lo: nat, i: nat, j: nat)
    requires lo <= i <= j <= |s|
    requires forall k :: i <= k < j ==> IsWhiteSpace(s[k])
    requires i == lo || !IsWhiteSpace(s[i - 1])
    ensures SkipBackward(s, lo, j) == i
    decreases j
  {
    if i < j {
      SkipBackwardStops(s, lo, i, j - 1);
    }
  }

  /** ... and that split is the only one: any such cut of s yields Trim(s). */
  lemma TrimUnique(p: string, m: string, q: string)
    requires AllWhiteSpace(p) && AllWhiteSpace(q) && Trimmed(m)
    ensures Trim(p + m + q) == m
  {
    var s := p + m + q;
    if m == [] {
      assert forall k :: |p| <= k < |s| ==> s[k] == q[k - |p|];
      SkipForwardStops(s, 0, |s|);
      SkipBackwardStops(s, |s|, |s|, |s|);
    } else {
      assert forall k :: 0 <= k < |p| ==> s[k] == p[k];
      assert s[|p|] == m[0];
      SkipForwardStops(s, 0, |p|);
      assert forall k :: |p| + |m| <= k < |s| ==> s[k] == q[k - |p| - |m|];
      assert s[|p| + |m| - 1] == m[|m| - 1];
      SkipBackwardStops(s, |p|, |p| + |m|, |s|);
      assert s[|p|..|p| + |m|] == m;
    }
  }

  /** The player's name is rejected exactly when it is empty or only white space. */
  lemma TrimBlank(s: string)
    ensures Trim(s) == [] <==> AllWhiteSpace(s)
  {
    if AllWhiteSpace(s) {
      SkipForwardStops(s, 0, |s|);
    }
  }

  predicate IsDigit(c: char) { '0' <= c <= '9' }

  predicate IsDecimal(s: string) {
    forall i :: 0 <= i < |s| ==> IsDigit(s[i])
  }

  function DigitChar(d: nat): (c: char)
    requires d < 10
    ensures IsDigit(c) && c as int - '0' as int == d
  {
    (('0' as int) + d) as char
  }

  /** The number a string of decimal digits denotes. */
  function DecimalValue(s: string): nat
    requires IsDecimal(s)
    decreases |s|
  {
    if s == [] then 0
    else DecimalValue(s[..|s| - 1]) * 10 + (s[|s| - 1] as int - '0' as int)
  }

  /** Number.prototype.toString for a non-negative integer: decimal, no leading zero. */
  function NatToDecimal(n: nat): (r: string)
    ensures IsDecimal(r) && |r| >= 1
    ensures DecimalValue(r) == n
    ensures r[0] == '0' ==> n == 0
    ensures n < 10 <==> |r| == 1
    ensures n < 100 <==> |r| <= 2
  {
    if n < 10 then [DigitChar(n)]
    else
      var r := NatToDecimal(n / 10) + [DigitChar(n % 10)];
      assert r[..|r| - 1] == NatToDecimal(n / 10);
      r
  }

  /** String.prototype.padStart(target, fill) with a one-character fill. */
  function PadStart(s: string, target: nat, fill: char): (r: string)
    ensures |r| == if |s| < target then target else |s|
    ensures r[|r| - |s|..] == s
    ensures forall i :: 0 <= i < |r| - |s| ==> r[i] == fill
  {
    if |s| < target then seq(target - |s|, _ => fill) + s else s
  }

  /** Leading zeros do not change the number a digit string denotes. */
  lemma {:induction false} LeadingZeros(z: string, s: string)
    requires forall i :: 0 <= i < |z| ==> z[i] == '0'
    requires IsDecimal(s)
    ensures IsDecimal(z + s) && DecimalValue(z + s) == DecimalValue(s)
    decreases |s|
  {
    if s == [] {
      assert z + s == z;
      ZerosAreZero(z);
    } else {
      var s' := s[..|s| - 1];
      assert (z + s)[..|z + s| - 1] == z + s';
      LeadingZeros(z, s');
    }
  }

  lemma {:induction false} ZerosAreZero(z: string)
    requires forall i :: 0 <= i < |z| ==> z[i] == '0'
    ensures IsDecimal(z) && DecimalValue(z) == 0
    decreases |z|
  {
    if z != [] {
      ZerosAreZero(z[..|z| - 1]);
    }
  }

  /** The timer display: whole minutes and remaining seconds, each padded to two digits. */
  function FormatTime(seconds: nat): string {
    Field(seconds / 60) + ":" + Field(seconds % 60)
  }

  /** Reads an MM:SS display back as seconds; None when r is not of that form. */
  function ParseTime(r: string): Option<nat> {
    if |r| >= 4 && r[|r| - 3] == ':' && IsDecimal(r[..|r| - 3]) && IsDecimal(r[|r| - 2..])
    then Some(60 * DecimalValue(r[..|r| - 3]) + DecimalValue(r[|r| - 2..]))
    else None
  }

  /**
   * FormatTime(s) is MM:SS with at least two minute digits and exactly two
   * second digits, the seconds field is below 60, it reads back as s, and it
   * is five characters long exactly when s is under 100 minutes.
   */
  lemma FormatTimeRoundTrip(seconds: nat)
    ensures var r := FormatTime(seconds);
      && |r| >= 5 && r[|r| - 3] == ':'
      && IsDecimal(r[|r| - 2..]) && DecimalValue(r[|r| - 2..]) < 60
      && ParseTime(r) == Some(seconds)
      && (seconds < 6000 <==> |r| == 5)
  {
    var mins, secs := Field(seconds / 60), Field(seconds % 60);
    FieldValue(seconds / 60);
    FieldValue(seconds % 60);
    JoinFields(mins, secs);
    assert seconds / 60 < 100 <==> seconds < 6000;
  }

  /** One field of the display: n in decimal, padded to two digits with zeros. */
  function Field(n: nat): string {
    PadStart(NatToDecimal(n), 2, '0')
  }

  lemma FieldValue(n: nat)
    ensures IsDecimal(Field(n)) && DecimalValue(Field(n)) == n
    ensures |Field(n)| >= 2 && (|Field(n)| == 2 <==> n < 100)
  {
    PaddedValue(NatToDecimal(n));
  }

  lemma JoinFields(mins: string, secs: string)
    requires IsDecimal(mins) && IsDecimal(secs) && |mins| >= 2 && |secs| == 2
    ensures var r := mins + ":" + secs;
      && |r| == |mins| + 3 && r[|r| - 3] == ':'
      && r[..|r| - 3] == mins && r[|r| - 2..] == secs
      && ParseTime(r) == Some(60 * DecimalValue(mins) + DecimalValue(secs))
  {
    var r := mins + ":" + secs;
    assert r[..|r| - 3] == mins && r[|r| - 2..] == secs;
  }

  lemma PaddedValue(s: string)
    requires IsDecimal(s)
    ensures IsDecimal(PadStart(s, 2, '0'))
    ensures DecimalValue(PadStart(s, 2, '0')) == DecimalValue(s)
  {
    var r := PadStart(s, 2, '0');
    var z := r[..|r| - |s|];
    assert r == z + s;
    LeadingZeros(z, s);
  }

  /** Distinct times are displayed differently. */
  lemma FormatTimeInjective(a: nat, b: nat)
    requires FormatTime(a) == FormatTime(b)
    ensures a == b
  {
    FormatTimeRoundTrip(a);
    FormatTimeRoundTrip(b);
  }
}
