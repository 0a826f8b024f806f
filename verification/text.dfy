/** The string operations the command line relies on: `toLowerCase`,
    `startsWith`, `split("x", 2)` and `Integer.parseInt`, restricted to ASCII
    (see README for what that leaves out). */
module Text {
  import opened Results
  import opened JavaNum

  function LowerChar(c: char): char
  {
    if 'A' <= c <= 'Z' then (c as int + 32) as char else c
  }

  /** `String.toLowerCase` on ASCII letters; every other character is kept. */
  function Lower(s: string): (t: string)
    ensures |t| == |s|
    ensures forall i :: 0 <= i < |s| ==> t[i] == LowerChar(s[i])
  {
    seq(|s|, i requires 0 <= i < |s| => LowerChar(s[i]))
  }

  /** `String.equalsIgnoreCase`: equal lengths and characters equal after
      case folding (ASCII). */
  predicate EqualsIgnoreCase(a: string, b: string): (r: bool)
    ensures r <==> |a| == |b| && forall i :: 0 <= i < |a| ==> LowerChar(a[i]) == LowerChar(b[i])
  {
    assert |a| == |b| ==> (Lower(a) == Lower(b) <==> forall i :: 0 <= i < |a| ==> Lower(a)[i] == Lower(b)[i]);
    Lower(a) == Lower(b)
  }

  /** `String.startsWith`: `s` is at least as long as `prefix` and agrees
      with it position by position. */
  predicate StartsWith(s: string, prefix: string): (r: bool)
    ensures r <==> |prefix| <= |s| && forall i :: 0 <= i < |prefix| ==> s[i] == prefix[i]
  {
    assert |prefix| <= |s| ==> (s[..|prefix|] == prefix <==> forall i :: 0 <= i < |prefix| ==> s[..|prefix|][i] == prefix[i]);
    |prefix| <= |s| && s[..|prefix|] == prefix
  }

  /** Position of the first `c` in `s`, or `|s|` when there is none. */
  function IndexOf(s: string, c: char): (k: nat)
    ensures k <= |s|
    ensures k < |s| ==> s[k] == c
    ensures forall i :: 0 <= i < k ==> s[i] != c
  {
    if |s| == 0 then 0
    else if s[0] == c then 0
    else 1 + IndexOf(s[1..], c)
  }

  /** `s.split(sep, 2)` for a separator that is a single ordinary character:
      the text before the first separator and everything after it, or the
      whole string as the only part when there is no separator. Empty parts
      are kept, as a positive limit keeps trailing empty strings. */
  function SplitOnce(s: string, sep: char): (parts: seq<string>)
    ensures |parts| == 1 <==> sep !in s
    ensures |parts| == 1 || |parts| == 2
    ensures |parts| == 1 ==> parts[0] == s
    ensures |parts| == 2 ==> parts[0] + [sep] + parts[1] == s && sep !in parts[0]
  {
    var k := IndexOf(s, sep);
    if k == |s| then [s]
    else
      assert s[..k] + [sep] + s[k + 1..] == s;
      [s[..k], s[k + 1..]]
  }

  /** The two parts are determined by the position of the first
      separator. */
  lemma SplitOnceAt(s: string, sep: char, k: nat)
    requires k < |s| && s[k] == sep && sep !in s[..k]
    ensures SplitOnce(s, sep) == [s[..k], s[k + 1..]]
  {
  }

  predicate IsDigit(c: char)
  {
    '0' <= c <= '9'
  }

  predicate AllDigits(s: string)
  {
    forall i :: 0 <= i < |s| ==> IsDigit(s[i])
  }

  /** The decimal value of a string of ASCII digits, most significant
      first. */
  function DigitsValue(s: string): nat
    requires AllDigits(s)
    decreases |s|
  {
    if |s| == 0 then 0
    else DigitsValue(s[..|s| - 1]) * 10 + (s[|s| - 1] as int - '0' as int)
  }

  /** `Integer.parseInt(s)`: an optional sign followed by at least one
      digit, with a value inside the `int` range; anything else raises
      `NumberFormatException`, modelled as `None`. Leading zeros and a
      leading `+` are accepted. */
  function ParseInt(s: string): (r: Option<int>)
    ensures r.Some? ==> IsInt32(r.value)
    ensures r.Some? ==>
              || (0 < |s| && AllDigits(s) && r.value == DigitsValue(s))
              || (1 < |s| && s[0] == '+' && AllDigits(s[1..]) && r.value == DigitsValue(s[1..]))
              || (1 < |s| && s[0] == '-' && AllDigits(s[1..]) && r.value == -(DigitsValue(s[1..]) as int))
    ensures 0 < |s| && AllDigits(s) && IsInt32(DigitsValue(s)) ==> r == Some(DigitsValue(s))
    ensures 1 < |s| && s[0] == '+' && AllDigits(s[1..]) && IsInt32(DigitsValue(s[1..])) ==>
              r == Some(DigitsValue(s[1..]))
    ensures 1 < |s| && s[0] == '-' && AllDigits(s[1..]) && IsInt32(-(DigitsValue(s[1..]) as int)) ==>
              r == Some(-(DigitsValue(s[1..]) as int))
  {
    if |s| == 0 then None
    else
      var negative := s[0] == '-';
      var digits := if s[0] == '-' || s[0] == '+' then s[1..] else s;
      if |digits| == 0 || !AllDigits(digits) then None
      else
        var v: int := if negative then 0 - DigitsValue(digits) else DigitsValue(digits);
        if IsInt32(v) then Some(v) else None
  }

  function DigitChar(d: nat): char
    requires d < 10
  {
    ('0' as int + d) as char
  }

  /** `Integer.toString` of a non-negative number: decimal digits with no
      leading zero. */
  function FormatNat(n: nat): (s: string)
    ensures 0 < |s|
    decreases n
  {
    if n < 10 then [DigitChar(n)] else FormatNat(n / 10) + [DigitChar(n % 10)]
  }

  function FormatInt(n: int): string
  {
    if n < 0 then "-" + FormatNat(-n) else FormatNat(n)
  }

  /** Formatting a natural number gives digits whose value is that number. */
  lemma {:induction false} FormatNatValue(n: nat)
    ensures AllDigits(FormatNat(n))
    ensures DigitsValue(FormatNat(n)) == n
    decreases n
  {
    var s := FormatNat(n);
    if n >= 10 {
      FormatNatValue(n / 10);
      assert s[..|s| - 1] == FormatNat(n / 10);
    }
  }

  /** `parseInt` reads back every `int` that `toString` writes. */
  lemma ParseFormatRoundTrip(n: int)
    requires IsInt32(n)
    ensures ParseInt(FormatInt(n)) == Some(n)
  {
    var s := FormatInt(n);
    if n < 0 {
      FormatNatValue(-n);
      assert s[0] == '-' && s[1..] == FormatNat(-n);
    } else {
      FormatNatValue(n);
      assert IsDigit(s[0]);
    }
  }

  /** The text of a formatted number contains no `x`, so it survives
      splitting at `x` unchanged. */
  lemma FormatHasNoLetterX(n: int)
    ensures 'x' !in FormatInt(n)
  {
    var m := if n < 0 then -n else n;
    FormatNatValue(m);
    if n < 0 {
      assert FormatInt(n) == "-" + FormatNat(m);
    }
  }
}
