/** The `java.lang.String` and `Integer` operations the core relies on, restricted to what it uses. */
module JavaText {
  import opened Wrappers
  import JavaInt

  // ---------------------------------------------------------------------------------------------
  // String.trim()

  /** `trim()` removes every leading and trailing char whose code is at most U+0020. */
  predicate IsTrimmable(c: char) {
    c <= ' '
  }

  predicate AllTrimmable(s: string) {
    forall i :: 0 <= i < |s| ==> IsTrimmable(s[i])
  }

  /** A string that `trim()` leaves as it is. */
  predicate IsTrimmed(s: string) {
    s == [] || (!IsTrimmable(s[0]) && !IsTrimmable(s[|s| - 1]))
  }

  /** `s` without its leading whitespace. */
  function TrimStart(s: string): (r: string)
    ensures |r| <= |s|
  {
    if s != [] && IsTrimmable(s[0]) then TrimStart(s[1..]) else s
  }

  /** `s` without its trailing whitespace. */
  function TrimEnd(s: string): (r: string)
    ensures |r| <= |s|
  {
    if s != [] && IsTrimmable(s[|s| - 1]) then TrimEnd(s[..|s| - 1]) else s
  }

  /** `s.trim()`: `s` without its leading and trailing whitespace. */
  function Trim(s: string): string {
    TrimEnd(TrimStart(s))
  }

  /** How many leading chars `trim()` drops. */
  function TrimOffset(s: string): nat {
    |s| - |TrimStart(s)|
  }

  lemma {:induction false} TrimStartShape(s: string)
    ensures |TrimStart(s)| <= |s| && TrimStart(s) == s[|s| - |TrimStart(s)|..]
    ensures AllTrimmable(s[..|s| - |TrimStart(s)|])
    ensures TrimStart(s) == [] || !IsTrimmable(TrimStart(s)[0])
  {
    if s != [] && IsTrimmable(s[0]) {
      TrimStartShape(s[1..]);
      var k := |s| - |TrimStart(s)|;
      assert s[..k] == [s[0]] + s[1..][..k - 1];
    }
  }

  lemma {:induction false} TrimEndShape(s: string)
    ensures |TrimEnd(s)| <= |s| && TrimEnd(s) == s[..|TrimEnd(s)|]
    ensures AllTrimmable(s[|TrimEnd(s)|..])
    ensures TrimEnd(s) == [] || !IsTrimmable(TrimEnd(s)[|TrimEnd(s)| - 1])
  {
    if s != [] && IsTrimmable(s[|s| - 1]) {
      TrimEndShape(s[..|s| - 1]);
      var k := |TrimEnd(s)|;
      assert s[k..] == s[..|s| - 1][k..] + [s[|s| - 1]];
    }
  }

  /** `trim(s)` is the slice of `s` that starts at `TrimOffset(s)`; everything before and after
      it is whitespace; it neither starts nor ends with whitespace; and it is empty exactly when
      `s` is all whitespace. */
  lemma TrimShape(s: string)
    ensures IsTrimmed(Trim(s))
    ensures TrimOffset(s) + |Trim(s)| <= |s| && Trim(s) == s[TrimOffset(s)..TrimOffset(s) + |Trim(s)|]
    ensures AllTrimmable(s[..TrimOffset(s)]) && AllTrimmable(s[TrimOffset(s) + |Trim(s)|..])
    ensures Trim(s) == [] <==> AllTrimmable(s)
  {
    TrimStartShape(s);
    TrimEndShape(TrimStart(s));
    var k, r := TrimOffset(s), Trim(s);
    var t := TrimStart(s);
    assert s[k + |r|..] == t[|r|..];
    if r == [] {
      assert AllTrimmable(t) by {
        assert t[|r|..] == t;
      }
      assert |t| == 0;
      forall i | 0 <= i < |s| ensures IsTrimmable(s[i]) {
        assert s[i] == s[..k][i];
      }
    } else {
      assert !IsTrimmable(s[k]);
    }
  }

  /** Every char of `trim(s)` is a char of `s`. */
  lemma TrimKeepsChars(s: string, c: char)
    requires c in Trim(s)
    ensures c in s
  {
    TrimShape(s);
    var r, k := Trim(s), TrimOffset(s);
    var i :| 0 <= i < |r| && r[i] == c;
    assert s[k + i] == c;
  }

  /** Trimming a string that is already trimmed changes nothing. */
  lemma {:induction false} TrimOfTrimmed(s: string)
    requires IsTrimmed(s)
    ensures Trim(s) == s
  {
    assert TrimStart(s) == s;
    assert TrimEnd(s) == s;
  }

  /** A whitespace char in front of a string does not change its trim. */
  lemma TrimSkipsLeading(c: char, s: string)
    requires IsTrimmable(c)
    ensures Trim([c] + s) == Trim(s)
  {
    assert ([c] + s)[1..] == s;
  }

  /** Whitespace in front of a trimmed string is all that `trim()` removes. */
  lemma {:induction false} TrimAfterWhitespace(w: string, s: string)
    requires AllTrimmable(w) && IsTrimmed(s)
    ensures Trim(w + s) == s
  {
    if w == [] {
      assert w + s == s;
      TrimOfTrimmed(s);
    } else {
      assert (w + s)[1..] == w[1..] + s;
      TrimAfterWhitespace(w[1..], s);
      assert TrimStart(w + s) == TrimStart(w[1..] + s);
    }
  }

  /** Leading whitespace in front of text that does not start with whitespace is what
      `TrimStart` drops. */
  lemma {:induction false} TrimStartDropsWhitespace(w: string, t: string)
    requires AllTrimmable(w) && (t == [] || !IsTrimmable(t[0]))
    ensures TrimStart(w + t) == t
  {
    if w == [] {
      assert w + t == t;
    } else {
      assert (w + t)[1..] == w[1..] + t;
      TrimStartDropsWhitespace(w[1..], t);
    }
  }

  /** Trailing whitespace behind text that does not end with whitespace is what `TrimEnd` drops. */
  lemma {:induction false} TrimEndDropsWhitespace(t: string, v: string)
    requires AllTrimmable(v) && (t == [] || !IsTrimmable(t[|t| - 1]))
    ensures TrimEnd(t + v) == t
  {
    if v == [] {
      assert t + v == t;
    } else {
      var n := |v| - 1;
      assert (t + v)[..|t + v| - 1] == t + v[..n];
      TrimEndDropsWhitespace(t, v[..n]);
    }
  }

  /** Whitespace on both sides of a trimmed string is all that `trim()` removes. */
  lemma TrimAroundWhitespace(w: string, s: string, v: string)
    requires AllTrimmable(w) && IsTrimmed(s) && AllTrimmable(v)
    ensures Trim(w + s + v) == s
  {
    if s == [] {
      TrimShape(w + s + v);
    } else {
      assert w + s + v == w + (s + v);
      TrimStartDropsWhitespace(w, s + v);
      TrimEndDropsWhitespace(s, v);
    }
  }

  // ---------------------------------------------------------------------------------------------
  // String.startsWith(prefix)

  predicate StartsWith(s: string, prefix: string) {
    |prefix| <= |s| && s[..|prefix|] == prefix
  }

  // ---------------------------------------------------------------------------------------------
  // String.compareToIgnoreCase(other), for ASCII letters

  /** The case folding `compareToIgnoreCase` applies (upper case, then lower case); only the ASCII
      letters are folded here. */
  function FoldCase(c: char): (r: char)
    ensures 'A' <= c <= 'Z' ==> 'a' <= r <= 'z'
    ensures !('A' <= c <= 'Z') ==> r == c
  {
    if 'A' <= c <= 'Z' then (c as int + 32) as char else c
  }

  /** The first position where the folded chars differ decides; otherwise the length does.
      Negative, zero or positive as `a` sorts before, with or after `b`. */
  function CompareIgnoreCase(a: string, b: string): int
  {
    if a == [] || b == [] then |a| - |b|
    else if FoldCase(a[0]) != FoldCase(b[0]) then FoldCase(a[0]) as int - FoldCase(b[0]) as int
    else CompareIgnoreCase(a[1..], b[1..])
  }

  /** Swapping the operands negates the comparison. */
  lemma {:induction false} CompareIgnoreCaseAntisymmetric(a: string, b: string)
    ensures CompareIgnoreCase(b, a) == -CompareIgnoreCase(a, b)
  {
    if a != [] && b != [] && FoldCase(a[0]) == FoldCase(b[0]) {
      CompareIgnoreCaseAntisymmetric(a[1..], b[1..]);
    }
  }

  /** "sorts no later than" is transitive. */
  lemma {:induction false} CompareIgnoreCaseTransitive(a: string, b: string, c: string)
    requires CompareIgnoreCase(a, b) <= 0 && CompareIgnoreCase(b, c) <= 0
    ensures CompareIgnoreCase(a, c) <= 0
  {
    if a != [] && b != [] && c != [] && FoldCase(a[0]) == FoldCase(b[0]) && FoldCase(b[0]) == FoldCase(c[0]) {
      CompareIgnoreCaseTransitive(a[1..], b[1..], c[1..]);
    }
  }

  // ---------------------------------------------------------------------------------------------
  // Integer.parseInt(s) and String.valueOf(int)

  predicate IsDigit(c: char) {
    '0' <= c <= '9'
  }

  predicate AllDigits(s: string) {
    forall i :: 0 <= i < |s| ==> IsDigit(s[i])
  }

  /** The number a string of decimal digits denotes. */
  function DigitsValue(s: string): nat
    requires AllDigits(s)
  {
    if s == [] then 0 else DigitsValue(s[..|s| - 1]) * 10 + (s[|s| - 1] as int - '0' as int)
  }

  /** `Integer.parseInt(s)`: an optional `-` or `+`, then one or more decimal digits, denoting a
      value within the int range; anything else raises NumberFormatException (here `None`). */
  function ParseInt(s: string): (r: Option<int>)
    ensures r.Some? ==> JavaInt.InRange(r.value)
    ensures r.Some? ==> s != [] && (IsDigit(s[0]) || s[0] == '-' || s[0] == '+') && AllDigits(s[1..])
    ensures r.Some? && s[0] != '-' ==> r.value >= 0
  {
    if s == [] then None
    else
      var digits := if s[0] == '-' || s[0] == '+' then s[1..] else s;
      if digits == [] || !AllDigits(digits) then None
      else
        var v: int := if s[0] == '-' then -(DigitsValue(digits) as int) else DigitsValue(digits);
        if JavaInt.InRange(v) then Some(v) else None
  }

  /** Which texts parse, and to what: digits alone, or after a `+`, parse to the number they denote,
      and digits after a `-` to its negation, whenever that value is an int. */
  lemma ParseIntAccepts(s: string)
    ensures s != [] && AllDigits(s) && JavaInt.InRange(DigitsValue(s)) ==> ParseInt(s) == Some(DigitsValue(s))
    ensures |s| >= 2 && s[0] == '+' && AllDigits(s[1..]) && JavaInt.InRange(DigitsValue(s[1..])) ==>
              ParseInt(s) == Some(DigitsValue(s[1..]))
    ensures |s| >= 2 && s[0] == '-' && AllDigits(s[1..]) && JavaInt.InRange(-(DigitsValue(s[1..]) as int)) ==>
              ParseInt(s) == Some(-(DigitsValue(s[1..]) as int))
  {
    if s != [] && IsDigit(s[0]) {
      assert s[0] != '-' && s[0] != '+';
    }
  }

  /** The decimal digits of a natural number, without leading zeros. */
  function Digits(n: nat): (r: string)
    ensures r != [] && AllDigits(r)
    ensures DigitsValue(r) == n
  {
    var d := ((n % 10) + '0' as int) as char;
    if n < 10 then [d]
    else
      var r := Digits(n / 10) + [d];
      assert r[..|r| - 1] == Digits(n / 10);
      r
  }

  /** `String.valueOf(n)` for an int `n`. */
  function ShowInt(n: int): string
  {
    if n < 0 then "-" + Digits(-n) else Digits(n)
  }

  /** `Integer.parseInt(String.valueOf(n)) == n` for every int `n`. */
  lemma ParseShowRoundTrip(n: int)
    requires JavaInt.InRange(n)
    ensures ParseInt(ShowInt(n)) == Some(n)
  {
    if n < 0 {
      assert ShowInt(n)[1..] == Digits(-n);
    }
  }
}
