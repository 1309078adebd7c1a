/** The string operations of Python that the classifier relies on: `str.strip()` with no
    argument, `str.startswith`, the substring test `p in s`, and the decimal rendering of an
    integer inside an f-string. */
module Text {

  /** The characters for which Python's `str.isspace()` holds, which are exactly the characters
      `str.strip()` removes when called without an argument. */
  const Whitespace: set<char> :=
    {'\t', '\n', '\U{000B}', '\U{000C}', '\r',
     '\U{001C}', '\U{001D}', '\U{001E}', '\U{001F}', ' ',
     '\U{0085}', '\U{00A0}', '\U{1680}',
     '\U{2000}', '\U{2001}', '\U{2002}', '\U{2003}', '\U{2004}', '\U{2005}',
     '\U{2006}', '\U{2007}', '\U{2008}', '\U{2009}', '\U{200A}',
     '\U{2028}', '\U{2029}', '\U{202F}', '\U{205F}', '\U{3000}'}

  predicate IsSpace(c: char)
  {
    c in Whitespace
  }

  predicate AllSpace(s: string)
  {
    forall i :: 0 <= i < |s| ==> IsSpace(s[i])
  }

  /** True when `t` sits inside `s` starting at `lead`, with only whitespace before and after it. */
  predicate Frames(s: string, t: string, lead: nat)
  {
    && lead + |t| <= |s|
    && s[lead..lead + |t|] == t
    && (forall m :: 0 <= m < lead ==> IsSpace(s[m]))
    && (forall m :: lead + |t| <= m < |s| ==> IsSpace(s[m]))
  }

  /** True when `t` neither begins nor ends with whitespace (the empty string qualifies). */
  predicate Trimmed(t: string)
  {
    t == [] || (!IsSpace(t[0]) && !IsSpace(t[|t| - 1]))
  }

  /** The first position at or after `i` that holds no whitespace, or `|s|` if there is none. */
  function TextStart(s: string, i: nat): (k: nat)
    requires i <= |s|
    ensures i <= k <= |s|
    ensures forall m :: i <= m < k ==> IsSpace(s[m])
    ensures k < |s| ==> !IsSpace(s[k])
    decreases |s| - i
  {
    if i == |s| || !IsSpace(s[i]) then i else TextStart(s, i + 1)
  }

  /** The position just after the last character before `j` that is no whitespace, but not
      below `lo`: everything from the result up to `j` is whitespace. */
  function TextEnd(s: string, j: nat, lo: nat): (k: nat)
    requires lo <= j <= |s|
    ensures lo <= k <= j
    ensures forall m :: k <= m < j ==> IsSpace(s[m])
    ensures lo < k ==> !IsSpace(s[k - 1])
    decreases j
  {
    if j == lo || !IsSpace(s[j - 1]) then j else TextEnd(s, j - 1, lo)
  }

  /** Python's `s.strip()`: the result is `s` with whitespace cut from both ends, and
      neither of its ends is whitespace. */
  function Strip(s: string): (r: string)
    ensures Trimmed(r)
    ensures exists lead: nat :: Frames(s, r, lead)
  {
    var a := TextStart(s, 0);
    var b := TextEnd(s, |s|, a);
    assert Frames(s, s[a..b], a);
    s[a..b]
  }

  /** Framing pins down the stripped text: a trimmed `t` that sits between two runs of
      whitespace in `s` is exactly `Strip(s)`. Together with the contract of `Strip` this
      makes that contract a complete specification of Python's `strip()`. */
  lemma StripCharacterized(s: string, t: string, lead: nat)
    requires Trimmed(t) && Frames(s, t, lead)
    ensures Strip(s) == t
  {
    var a := TextStart(s, 0);
    var b := TextEnd(s, |s|, a);
    assert Strip(s) == s[a..b];
    if t == [] {
      assert a == |s|;
    } else {
      FramedChar(s, t, lead, 0);
      FramedChar(s, t, lead, |t| - 1);
      assert lead == a;
      assert lead + |t| == b;
    }
  }

  /** The `k`-th character of a framed string is the matching character of `s`. */
  lemma FramedChar(s: string, t: string, lead: nat, k: nat)
    requires Frames(s, t, lead) && k < |t|
    ensures s[lead + k] == t[k]
  {
    assert s[lead..lead + |t|][k] == s[lead + k];
  }

  /** Surrounding whitespace of any kind and amount is invisible after stripping. */
  lemma StripPadded(pre: string, t: string, post: string)
    requires AllSpace(pre) && AllSpace(post) && Trimmed(t)
    ensures Strip(pre + t + post) == t
  {
    var s := pre + t + post;
    assert s[|pre|..|pre| + |t|] == t;
    assert forall m :: 0 <= m < |pre| ==> s[m] == pre[m];
    assert forall m :: |pre| + |t| <= m < |s| ==> s[m] == post[m - |pre| - |t|];
    StripCharacterized(s, t, |pre|);
  }

  /** Stripping twice is the same as stripping once. */
  lemma StripIdempotent(s: string)
    ensures Strip(Strip(s)) == Strip(s)
  {
    var t := Strip(s);
    assert Frames(t, t, 0) by {
      assert t[0..|t|] == t;
    }
    StripCharacterized(t, t, 0);
  }

  /** Python's `s.startswith(p)`. */
  predicate StartsWith(s: string, p: string)
  {
    |p| <= |s| && s[..|p|] == p
  }

  /** Two strings with the same prefix are equal when the whole strings are. */
  lemma PrefixCancel(p: string, x: string, y: string)
    requires p + x == p + y
    ensures x == y
  {
    assert x == (p + x)[|p|..];
    assert y == (p + y)[|p|..];
  }

  /** Two strings with the same surroundings are equal when the whole strings are. */
  lemma InfixCancel(p: string, x: string, y: string, q: string)
    requires p + x + q == p + y + q
    ensures x == y
  {
    var s := p + x + q;
    assert x == s[|p|..|p| + |x|];
    assert y == (p + y + q)[|p|..|p| + |y|];
  }

  /** True when `p` occurs in `s` at position `i`. */
  predicate OccursAt(s: string, p: string, i: nat)
  {
    i + |p| <= |s| && s[i..i + |p|] == p
  }

  /** Python's substring test `p in s`, scanning `s` from the left. The scan succeeds exactly
      when `p` occurs somewhere in `s`, the empty needle included. */
  function Contains(s: string, p: string): (r: bool)
    ensures r <==> exists i: nat :: OccursAt(s, p, i)
    decreases |s|
  {
    if |p| > |s| then false
    else if s[..|p|] == p then assert OccursAt(s, p, 0); true
    else
      var r := Contains(s[1..], p);
      OccursShift(s, p);
      r
  }

  /** When `p` does not occur at the front of `s`, it occurs in `s` exactly when it occurs in
      `s` without its first character. */
  lemma OccursShift(s: string, p: string)
    requires |p| <= |s| && s[..|p|] != p
    ensures (exists i: nat :: OccursAt(s[1..], p, i)) <==> (exists i: nat :: OccursAt(s, p, i))
  {
    if exists i: nat :: OccursAt(s[1..], p, i) {
      var i: nat :| OccursAt(s[1..], p, i);
      assert s[1..][i..i + |p|] == s[i + 1..i + 1 + |p|];
      assert OccursAt(s, p, i + 1);
    }
    if exists i: nat :: OccursAt(s, p, i) {
      var i: nat :| OccursAt(s, p, i);
      assert i != 0;
      assert s[1..][i - 1..i - 1 + |p|] == s[i..i + |p|];
      assert OccursAt(s[1..], p, i - 1);
    }
  }

  /** Stripping never cuts into a non-empty trimmed needle: an occurrence of `p` in `s`
      is still an occurrence in `Strip(s)`, shifted left by the whitespace removed. */
  lemma StripKeepsTrimmedOccurrence(s: string, p: string, i: nat) returns (j: nat)
    requires p != [] && Trimmed(p) && OccursAt(s, p, i)
    ensures OccursAt(Strip(s), p, j)
  {
    var a := TextStart(s, 0);
    var b := TextEnd(s, |s|, a);
    var r := Strip(s);
    assert r == s[a..b];
    OccursChar(s, p, i, 0);
    OccursChar(s, p, i, |p| - 1);
    assert a <= i && i + |p| <= b;
    j := i - a;
    assert r[j..j + |p|] == s[i..i + |p|];
  }

  /** The `k`-th character of an occurrence is the matching character of `s`. */
  lemma OccursChar(s: string, p: string, i: nat, k: nat)
    requires OccursAt(s, p, i) && k < |p|
    ensures s[i + k] == p[k]
  {
    assert s[i..i + |p|][k] == s[i + k];
  }

  // ---------------------------------------------------------------------------------------
  // Decimal rendering of integers, as Python's `f"{n}"` produces it.

  predicate IsDigit(c: char)
  {
    '0' <= c <= '9'
  }

  predicate AllDigits(s: string)
  {
    forall i :: 0 <= i < |s| ==> IsDigit(s[i])
  }

  function DigitChar(d: nat): (c: char)
    requires d < 10
    ensures IsDigit(c)
  {
    ('0' as int + d) as char
  }

  function DigitValue(c: char): (d: nat)
    requires IsDigit(c)
    ensures d < 10 && DigitChar(d) == c
  {
    c as int - '0' as int
  }

  /** The decimal digits of `n`, most significant first, with no leading zero. */
  function NatToDecimal(n: nat): (s: string)
    ensures |s| > 0 && AllDigits(s)
    ensures s[0] == '0' ==> n == 0
    decreases n
  {
    if n < 10 then [DigitChar(n)] else NatToDecimal(n / 10) + [DigitChar(n % 10)]
  }

  /** The number a string of decimal digits denotes. */
  function DecimalValue(s: string): nat
    requires AllDigits(s)
  {
    if s == [] then 0 else DecimalValue(s[..|s| - 1]) * 10 + DigitValue(s[|s| - 1])
  }

  lemma {:induction false} DecimalValueOfNatToDecimal(n: nat)
    ensures DecimalValue(NatToDecimal(n)) == n
    decreases n
  {
    if n >= 10 {
      var s := NatToDecimal(n);
      var prefix := NatToDecimal(n / 10);
      assert s[..|s| - 1] == prefix;
      DecimalValueOfNatToDecimal(n / 10);
    }
  }

  /** Python's `str(n)` for an integer: a minus sign for negatives, then the digits. The
      result is a well-formed literal that reads back as `n`, in canonical form: a minus sign
      exactly for negatives, and no leading zero except in "0" itself (so no "007", "00" or "-0"). */
  function IntToDecimal(n: int): (r: string)
    ensures IsIntLiteral(r) && ParseInt(r) == n
    ensures (r[0] == '-') <==> n < 0
    ensures r[if n < 0 then 1 else 0] == '0' ==> r == "0"
  {
    if n < 0 then
      var r := "-" + NatToDecimal(-n);
      assert r[1..] == NatToDecimal(-n);
      DecimalValueOfNatToDecimal(-n);
      r
    else
      DecimalValueOfNatToDecimal(n);
      NatToDecimal(n)
  }

  /** True of the strings `IntToDecimal` can produce a number from: an optional minus sign
      followed by at least one digit. */
  predicate IsIntLiteral(s: string)
  {
    if |s| > 0 && s[0] == '-' then |s| > 1 && AllDigits(s[1..]) else |s| > 0 && AllDigits(s)
  }

  /** Reads back an integer literal. */
  function ParseInt(s: string): int
    requires IsIntLiteral(s)
  {
    if s[0] == '-' then -(DecimalValue(s[1..]) as int) else DecimalValue(s)
  }

  /** Distinct integers render as distinct strings. */
  lemma IntToDecimalInjective(a: int, b: int)
    ensures IntToDecimal(a) == IntToDecimal(b) ==> a == b
  {
  }
}
