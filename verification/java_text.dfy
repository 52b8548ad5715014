/** The few java.lang.String and java.lang.Integer operations the core relies on:
    trim, startsWith, split on one character, Integer.parseInt and the
    decimal rendering of an int by String.format("%d"). */
module JavaText {
  import opened Wrappers

  const INT_MIN: int := -0x8000_0000
  const INT_MAX: int := 0x7FFF_FFFF

  predicate InInt32(n: int) {
    INT_MIN <= n <= INT_MAX
  }

  // ---------------------------------------------------------------------
  // trim / isEmpty / startsWith

  /** String.trim drops every leading and trailing character whose code is at
      most U+0020 (spaces and all ASCII control characters). */
  predicate IsTrimmable(c: char) {
    c <= ' '
  }

  function TrimStart(s: string): (r: string)
    ensures |r| <= |s| && r == s[|s| - |r|..]
    ensures |r| > 0 ==> !IsTrimmable(r[0])
    ensures forall i :: 0 <= i < |s| - |r| ==> IsTrimmable(s[i])
  {
    if |s| > 0 && IsTrimmable(s[0]) then TrimStart(s[1..]) else s
  }

  function TrimEnd(s: string): (r: string)
    ensures |r| <= |s| && r == s[..|r|]
    ensures |r| > 0 ==> !IsTrimmable(r[|r| - 1])
    ensures forall i :: |r| <= i < |s| ==> IsTrimmable(s[i])
  {
    if |s| > 0 && IsTrimmable(s[|s| - 1]) then TrimEnd(s[..|s| - 1]) else s
  }

  /** String.trim: neither end of the result is a char trim removes, and a
      text that starts and ends with kept chars comes back unchanged. */
  function Trim(s: string): (r: string)
    ensures |r| <= |s|
    ensures |r| > 0 ==> !IsTrimmable(r[0]) && !IsTrimmable(r[|r| - 1])
    ensures |s| > 0 && !IsTrimmable(s[0]) && !IsTrimmable(s[|s| - 1]) ==> r == s
  {
    TrimEnd(TrimStart(s))
  }

  /** `s.trim().isEmpty()` holds exactly when every character of `s` is one
      that trim removes. */
  lemma TrimEmptyIffBlank(s: string)
    ensures |Trim(s)| == 0 <==> forall i :: 0 <= i < |s| ==> IsTrimmable(s[i])
  {
    if |Trim(s)| == 0 {
      // a non-empty TrimStart(s) would begin with a character TrimEnd keeps
      assert |TrimStart(s)| == 0;
    }
  }

  /** The trimmed string is a contiguous piece of the original. */
  lemma TrimIsInfix(s: string)
    ensures exists i, j :: && 0 <= i <= j <= |s| && Trim(s) == s[i..j]
                           && (forall k :: 0 <= k < i ==> IsTrimmable(s[k]))
                           && (forall k :: j <= k < |s| ==> IsTrimmable(s[k]))
  {
    var a := TrimStart(s);
    var i := |s| - |a|;
    var b := TrimEnd(a);
    assert Trim(s) == b;
    assert a == s[i..];
    assert b == a[..|b|];
    assert a[..|b|] == s[i..i + |b|];
    assert forall k :: i + |b| <= k < |s| ==> IsTrimmable(s[k]) by {
      forall k | i + |b| <= k < |s| ensures IsTrimmable(s[k]) {
        assert s[k] == a[k - i];
      }
    }
    assert 0 <= i <= i + |b| <= |s| && Trim(s) == s[i..i + |b|];
  }

  predicate StartsWith(s: string, prefix: string) {
    |prefix| <= |s| && s[..|prefix|] == prefix
  }

  // ---------------------------------------------------------------------
  // split

  /** Splits `s` at every occurrence of `d`, keeping every field, empty ones
      included; there is always one more field than there are separators. */
  function Split(s: string, d: char): (r: seq<string>)
    ensures |r| >= 1
    ensures forall k :: 0 <= k < |r| ==> d !in r[k]
    decreases |s|
  {
    if |s| == 0 then [""]
    else
      var rest := Split(s[1..], d);
      if s[0] == d then [""] + rest
      else [[s[0]] + rest[0]] + rest[1..]
  }

  /** Number of occurrences of `d` in `s`. */
  function Count(s: string, d: char): nat {
    if |s| == 0 then 0 else (if s[0] == d then 1 else 0) + Count(s[1..], d)
  }

  lemma {:induction false} SplitLength(s: string, d: char)
    ensures |Split(s, d)| == Count(s, d) + 1
    decreases |s|
  {
    if |s| > 0 {
      SplitLength(s[1..], d);
    }
  }

  lemma {:induction false} SplitNoSeparator(s: string, d: char)
    requires d !in s
    ensures Split(s, d) == [s]
    decreases |s|
  {
    if |s| > 0 {
      assert d !in s[1..] by {
        forall k | 0 <= k < |s[1..]| ensures s[1..][k] != d {
          assert s[1..][k] == s[k + 1];
        }
      }
      SplitNoSeparator(s[1..], d);
      assert [s[0]] + s[1..] == s;
    }
  }

  /** Splitting `a + [d] + b` gives the fields of `a` followed by those of `b`. */
  lemma {:induction false} SplitAppend(a: string, d: char, b: string)
    ensures Split(a + [d] + b, d) == Split(a, d) + Split(b, d)
    decreases |a|
  {
    if |a| == 0 {
      assert a + [d] + b == [d] + b;
      assert ([d] + b)[1..] == b;
    } else {
      var s := a + [d] + b;
      assert s[0] == a[0];
      assert s[1..] == a[1..] + [d] + b;
      SplitAppend(a[1..], d, b);
    }
  }

  /** String.split with limit 0, as Java defines it: the plain split with the
      trailing empty fields removed (an input with no separator at all yields
      itself as the only field). */
  function JavaSplit(s: string, d: char): (r: seq<string>)
    ensures |r| <= |Split(s, d)|
    ensures r == Split(s, d)[..|r|]
    ensures forall k :: |r| <= k < |Split(s, d)| ==> Split(s, d)[k] == ""
    ensures |r| > 0 ==> r[|r| - 1] != "" || (|r| == 1 && r[0] == s)
    ensures d !in s ==> r == [s]
  {
    var fields := Split(s, d);
    if |s| == 0 then fields
    else if d !in s then
      SplitNoSeparator(s, d);
      fields[..DropTrailingEmpty(fields)]
    else
      fields[..DropTrailingEmpty(fields)]
  }

  /** Length of `fields` once its trailing empty strings are dropped. */
  function DropTrailingEmpty(fields: seq<string>): (n: nat)
    ensures n <= |fields|
    ensures forall k :: n <= k < |fields| ==> fields[k] == ""
    ensures n > 0 ==> fields[n - 1] != ""
  {
    if |fields| == 0 then 0
    else if fields[|fields| - 1] == "" then DropTrailingEmpty(fields[..|fields| - 1])
    else |fields|
  }

  // ---------------------------------------------------------------------
  // Integer.parseInt and String.format("%d")

  predicate IsDigit(c: char) {
    '0' <= c <= '9'
  }

  predicate AllDigits(s: string) {
    forall i :: 0 <= i < |s| ==> IsDigit(s[i])
  }

  function DigitValue(c: char): nat
    requires IsDigit(c)
  {
    (c as int) - ('0' as int)
  }

  /** Value of a non-empty run of decimal digits, most significant first. */
  function DigitsValue(s: string): nat
    requires AllDigits(s)
  {
    if |s| == 0 then 0
    else DigitsValue(s[..|s| - 1]) * 10 + DigitValue(s[|s| - 1])
  }

  /** Integer.parseInt(s): an optional '+' or '-', then at least one ASCII
      digit, with the value inside the int range; anything else throws
      NumberFormatException, modelled as None. */
  function ParseInt(s: string): (r: Option<int>)
    ensures r.Some? ==> InInt32(r.value)
    ensures r.Some? ==> |s| > 0 && forall i :: 0 <= i < |s| ==> IsDigit(s[i]) || (i == 0 && s[i] in "+-")
    ensures |s| > 0 && AllDigits(s) && DigitsValue(s) <= INT_MAX ==> r == Some(DigitsValue(s))
    ensures |s| > 1 && s[0] == '+' && AllDigits(s[1..]) && DigitsValue(s[1..]) <= INT_MAX ==>
              r == Some(DigitsValue(s[1..]))
    ensures |s| > 1 && s[0] == '-' && AllDigits(s[1..]) && DigitsValue(s[1..]) <= -INT_MIN ==>
              r == Some(-(DigitsValue(s[1..]) as int))
  {
    if |s| == 0 then None
    else if s[0] == '-' || s[0] == '+' then
      var digits := s[1..];
      if |digits| == 0 || !AllDigits(digits) then None
      else
        var magnitude: int := DigitsValue(digits);
        var v := if s[0] == '-' then -magnitude else magnitude;
        if InInt32(v) then Some(v) else None
    else if AllDigits(s) && DigitsValue(s) <= INT_MAX then Some(DigitsValue(s))
    else None
  }

  function DigitChar(d: nat): (c: char)
    requires d < 10
    ensures IsDigit(c) && DigitValue(c) == d
  {
    "0123456789"[d]
  }

  /** Decimal digits of a natural number, without leading zeros. */
  function NatToString(n: nat): (r: string)
    ensures |r| > 0 && AllDigits(r)
    ensures r[0] == '0' <==> n == 0
    ensures n == 0 ==> r == "0"
  {
    if n < 10 then [DigitChar(n)] else NatToString(n / 10) + [DigitChar(n % 10)]
  }

  /** Integer.toString(n), which is also what String.format("%d", n) prints. */
  function IntToString(n: int): (r: string)
    ensures |r| > 0
    ensures forall i :: 0 <= i < |r| ==> IsDigit(r[i]) || (i == 0 && r[i] == '-')
    ensures r[0] == '-' <==> n < 0
    ensures n >= 0 ==> AllDigits(r) && DigitsValue(r) == n && (r[0] == '0' ==> r == "0")
    ensures n < 0 ==> |r| >= 2 && AllDigits(r[1..]) && DigitsValue(r[1..]) == -n && r[1] != '0'
  {
    if n < 0 then
      NatToStringValue(-n);
      var r := "-" + NatToString(-n);
      assert r[1..] == NatToString(-n);
      r
    else
      NatToStringValue(n);
      NatToString(n)
  }

  lemma {:induction false} NatToStringValue(n: nat)
    ensures DigitsValue(NatToString(n)) == n
  {
    if n >= 10 {
      var s := NatToString(n);
      assert s[..|s| - 1] == NatToString(n / 10);
      NatToStringValue(n / 10);
    }
  }

  /** Integer.parseInt reads back what Integer.toString wrote. */
  lemma ParseIntToString(n: int)
    requires InInt32(n)
    ensures ParseInt(IntToString(n)) == Some(n)
  {
    var s := IntToString(n);
    if n < 0 {
      var digits := NatToString(-n);
      assert s == "-" + digits && s[1..] == digits;
      NatToStringValue(-n);
      assert s[0] == '-' && |digits| > 0 && AllDigits(digits);
    } else {
      NatToStringValue(n);
      assert s[0] != '-' && s[0] != '+' && AllDigits(s);
    }
  }
}
