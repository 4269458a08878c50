/** The optional value returned by parsers and lookups. */
module Wrappers {
  datatype Option<+T> = None | Some(value: T) {
    function GetOr(default: T): T {
      match this
      case Some(v) => v
      case None => default
    }
  }
}

/**
 * The few `java.lang.String` / `java.lang.Integer` operations the core relies on:
 * `trim`, `Integer.parseInt`, `Integer.toString`, `toLowerCase().startsWith`,
 * `contains` and `equalsIgnoreCase`, restricted to ASCII letters and digits.
 */
module Text {
  import opened Wrappers

  const MinInt32: int := -0x8000_0000
  const MaxInt32: int := 0x7fff_ffff

  /** `String.trim` removes every leading and trailing character at or below U+0020. */
  predicate IsTrimmable(c: char) { c <= ' ' }

  function TrimLeft(s: string): string
  {
    if |s| > 0 && IsTrimmable(s[0]) then TrimLeft(s[1..]) else s
  }

  function TrimRight(s: string): string
  {
    if |s| > 0 && IsTrimmable(s[|s| - 1]) then TrimRight(s[..|s| - 1]) else s
  }

  /** `String.trim`. */
  function Trim(s: string): string
  {
    TrimRight(TrimLeft(s))
  }

  /** `trim` leaves a suffix of the line, that does not start with a trimmable character. */
  lemma {:induction false} TrimLeftShape(s: string)
    ensures |TrimLeft(s)| <= |s| && TrimLeft(s) == s[|s| - |TrimLeft(s)|..]
    ensures TrimLeft(s) == [] || !IsTrimmable(TrimLeft(s)[0])
    ensures forall k :: 0 <= k < |s| - |TrimLeft(s)| ==> IsTrimmable(s[k])
  {
    if |s| > 0 && IsTrimmable(s[0]) {
      TrimLeftShape(s[1..]);
      assert forall k :: 1 <= k < |s| ==> s[k] == s[1..][k - 1];
    }
  }

  lemma {:induction false} TrimRightShape(s: string)
    ensures |TrimRight(s)| <= |s| && TrimRight(s) == s[..|TrimRight(s)|]
    ensures TrimRight(s) == [] || !IsTrimmable(TrimRight(s)[|TrimRight(s)| - 1])
    ensures forall k :: |TrimRight(s)| <= k < |s| ==> IsTrimmable(s[k])
  {
    if |s| > 0 && IsTrimmable(s[|s| - 1]) {
      TrimRightShape(s[..|s| - 1]);
    }
  }

  /** Every character of `s` outside `[i, j)` is trimmable. */
  predicate BlankOutside(s: string, i: int, j: int)
  {
    forall k :: 0 <= k < |s| && !(i <= k < j) ==> IsTrimmable(s[k])
  }

  /**
   * `String.trim` returns the infix of the line left after dropping the blanks at both ends: it
   * neither starts nor ends with a trimmable character, and everything dropped is trimmable.
   */
  lemma TrimShape(s: string)
    ensures var i := |s| - |TrimLeft(s)|;
      0 <= i && i + |Trim(s)| <= |s| && Trim(s) == s[i..i + |Trim(s)|] && BlankOutside(s, i, i + |Trim(s)|)
    ensures Trim(s) == [] || (!IsTrimmable(Trim(s)[0]) && !IsTrimmable(Trim(s)[|Trim(s)| - 1]))
  {
    var l := TrimLeft(s);
    TrimLeftShape(s);
    TrimRightShape(l);
    var i := |s| - |l|;
    var r := Trim(s);
    assert l == s[i..];
    assert r == l[..|r|];
    forall k | 0 <= k < |s| && !(i <= k < i + |r|)
      ensures IsTrimmable(s[k])
    {
      if k >= i {
        assert s[k] == l[k - i];
      }
    }
  }

  /** A string already free of leading and trailing blanks is left as it is by `trim`. */
  lemma TrimClean(s: string)
    requires s == [] || (!IsTrimmable(s[0]) && !IsTrimmable(s[|s| - 1]))
    ensures Trim(s) == s
  {
    assert TrimLeft(s) == s;
  }

  /** Trimming twice is trimming once. */
  lemma TrimIdempotent(s: string)
    ensures Trim(Trim(s)) == Trim(s)
  {
    TrimShape(s);
    TrimClean(Trim(s));
  }

  predicate IsDigit(c: char) { '0' <= c <= '9' }

  predicate AllDigits(s: string) { forall i :: 0 <= i < |s| ==> IsDigit(s[i]) }

  /** The value of a non-empty run of decimal digits, most significant first. */
  function DigitsValue(s: string): nat
    requires AllDigits(s)
  {
    if s == [] then 0 else 10 * DigitsValue(s[..|s| - 1]) + (s[|s| - 1] - '0') as int
  }

  function DigitChar(d: nat): (c: char)
    requires d < 10
    ensures IsDigit(c) && (c - '0') as int == d
  {
    ['0', '1', '2', '3', '4', '5', '6', '7', '8', '9'][d]
  }

  /** The decimal digits of `n`, without leading zeros. */
  function Decimal(n: nat): (r: string)
    ensures |r| >= 1 && AllDigits(r)
    ensures !IsTrimmable(r[0]) && !IsTrimmable(r[|r| - 1])
  {
    if n < 10 then [DigitChar(n)] else Decimal(n / 10) + [DigitChar(n % 10)]
  }

  lemma {:induction false} DecimalValue(n: nat)
    ensures DigitsValue(Decimal(n)) == n
  {
    if n >= 10 {
      DecimalValue(n / 10);
      var s := Decimal(n);
      assert s[..|s| - 1] == Decimal(n / 10);
    }
  }

  /** `Integer.toString`. */
  function Show(v: int): string
  {
    if v < 0 then "-" + Decimal(-v) else Decimal(v)
  }

  /**
   * `Integer.parseInt`: an optional `-` or `+`, then at least one (ASCII) decimal digit, with a
   * value in the 32-bit range; anything else (including surrounding blanks) is a `NumberFormatException`,
   * modelled as `None`.
   */
  function ParseInt(s: string): (r: Option<int>)
    ensures r.Some? ==> MinInt32 <= r.value <= MaxInt32
    ensures r.Some? ==> |s| > 0 && !IsTrimmable(s[0]) && !IsTrimmable(s[|s| - 1])
    ensures r.Some? ==> (s[0] == '-' || s[0] == '+' || IsDigit(s[0])) && AllDigits(s[1..])
  {
    if |s| == 0 then None
    else if s[0] == '-' || s[0] == '+' then
      if |s| == 1 || !AllDigits(s[1..]) then None
      else
        var v := if s[0] == '-' then -(DigitsValue(s[1..]) as int) else DigitsValue(s[1..]) as int;
        if MinInt32 <= v <= MaxInt32 then Some(v) else None
    else if !AllDigits(s) then None
    else if DigitsValue(s) <= MaxInt32 then Some(DigitsValue(s))
    else None
  }

  /** An unsigned run of digits parses to its value when that value fits. */
  lemma ParseDigits(d: string)
    requires |d| > 0 && AllDigits(d) && DigitsValue(d) <= MaxInt32
    ensures ParseInt(d) == Some(DigitsValue(d))
  {
    assert IsDigit(d[0]);
  }

  /** A minus sign followed by a run of digits parses to the negated value when that fits. */
  lemma ParseNegatedDigits(d: string)
    requires |d| > 0 && AllDigits(d) && DigitsValue(d) <= -MinInt32
    ensures ParseInt("-" + d) == Some(-(DigitsValue(d) as int))
  {
    var s := "-" + d;
    assert s[0] == '-' && s[1..] == d;
  }

  /** Every 32-bit integer survives `Integer.toString` followed by `Integer.parseInt`. */
  lemma ParseShow(v: int)
    requires MinInt32 <= v <= MaxInt32
    ensures ParseInt(Show(v)) == Some(v)
  {
    if v < 0 {
      DecimalValue(-v);
      ParseNegatedDigits(Decimal(-v));
    } else {
      DecimalValue(v);
      ParseDigits(Decimal(v));
    }
  }

  /** Whatever `parseInt` accepts is unchanged by `trim`, so trimming first only rescues blanks. */
  lemma ParseAcceptsOnlyTrimmed(s: string)
    requires ParseInt(s).Some?
    ensures Trim(s) == s
  {
    TrimClean(s);
  }

  /** `pattern` occurs in `s` starting at index `i`. */
  predicate OccursAt(s: string, pattern: string, i: int)
  {
    0 <= i <= |s| - |pattern| && s[i..i + |pattern|] == pattern
  }

  /** `String.contains`. */
  predicate Contains(s: string, pattern: string)
  {
    exists i | 0 <= i <= |s| :: OccursAt(s, pattern, i)
  }

  lemma ContainsInfix(a: string, pattern: string, b: string)
    ensures Contains(a + pattern + b, pattern)
  {
    var s := a + pattern + b;
    assert s[|a|..|a| + |pattern|] == pattern;
    assert OccursAt(s, pattern, |a|);
  }

  /** A string that lacks one character of the pattern cannot contain the pattern. */
  lemma MissingCharNotContained(s: string, pattern: string, k: nat)
    requires k < |pattern|
    requires forall i :: 0 <= i < |s| ==> s[i] != pattern[k]
    ensures !Contains(s, pattern)
  {
    forall i | 0 <= i <= |s| - |pattern|
      ensures !OccursAt(s, pattern, i)
    {
      assert s[i..i + |pattern|][k] == s[i + k];
    }
  }

  /** `Character.toLowerCase` on ASCII letters. */
  function LowerChar(c: char): (d: char)
    ensures 'A' <= c <= 'Z' ==> d != c && 'a' <= d <= 'z'
    ensures !('A' <= c <= 'Z') ==> d == c
  {
    if 'A' <= c <= 'Z' then (c as int + 32) as char else c
  }

  function ToLower(s: string): (r: string)
    ensures |r| == |s|
    ensures forall i :: 0 <= i < |s| ==> r[i] == LowerChar(s[i])
  {
    seq(|s|, i requires 0 <= i < |s| => LowerChar(s[i]))
  }

  /** `s.toLowerCase().startsWith(prefix)`. */
  predicate StartsWithIgnoreCase(s: string, prefix: string)
  {
    prefix <= ToLower(s)
  }

  /** A string starts, ignoring case, with the lower-cased form of any of its prefixes. */
  lemma StartsWithLoweredPrefix(a: string, b: string)
    ensures StartsWithIgnoreCase(a + b, ToLower(a))
  {
    assert ToLower(a + b)[..|a|] == ToLower(a);
  }

  /** `s.equalsIgnoreCase(t)`. */
  predicate EqualsIgnoreCase(s: string, t: string)
  {
    ToLower(s) == ToLower(t)
  }

  /** The only lines that confirm a deletion are `y` and `Y`. */
  lemma ConfirmationLines(line: string)
    ensures EqualsIgnoreCase(line, "y") <==> line == "y" || line == "Y"
  {
    if EqualsIgnoreCase(line, "y") {
      assert |line| == 1 && LowerChar(line[0]) == 'y';
    }
  }
}
