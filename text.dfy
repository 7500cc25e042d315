/** The few Python string operations the services and validators rely on:
    `str.split`, `str.join`, `str.strip`, `int()`, `str()` of a natural
    number and the `in` operator on strings. */
module Text {
  import opened Wrappers

  /** `str.split(sep)` with a one-character separator: the pieces between
      separators, in order; there is always at least one piece. */
  function Split(s: string, sep: char): (parts: seq<string>)
    ensures |parts| >= 1
    ensures forall i :: 0 <= i < |parts| ==> sep !in parts[i]
    decreases |s|
  {
    if s == [] then [[]]
    else if s[0] == sep then [[]] + Split(s[1..], sep)
    else
      var rest := Split(s[1..], sep);
      [[s[0]] + rest[0]] + rest[1..]
  }

  /** `sep.join(parts)`. */
  function Join(parts: seq<string>, sep: char): string
    requires |parts| >= 1
  {
    if |parts| == 1 then parts[0] else parts[0] + [sep] + Join(parts[1..], sep)
  }

  /** A join of four pieces written out. */
  lemma JoinFour(p0: string, p1: string, p2: string, p3: string, sep: char)
    ensures Join([p0, p1, p2, p3], sep) == p0 + [sep] + p1 + [sep] + p2 + [sep] + p3
  {
    var parts := [p0, p1, p2, p3];
    assert parts[1..][1..][1..] == [p3];
    assert Join(parts[1..][1..], sep) == p2 + [sep] + p3;
  }

  /** Joining the pieces of a split gives back the original string. */
  lemma {:induction false} JoinSplit(s: string, sep: char)
    ensures Join(Split(s, sep), sep) == s
    decreases |s|
  {
    if s == [] {
    } else if s[0] == sep {
      JoinSplit(s[1..], sep);
      assert s == [sep] + s[1..];
    } else {
      JoinSplit(s[1..], sep);
      JoinHead(s[0], Split(s[1..], sep), sep);
      assert s == [s[0]] + s[1..];
    }
  }

  /** Putting a character in front of the first piece puts it in front of the join. */
  lemma JoinHead(c: char, rest: seq<string>, sep: char)
    requires |rest| >= 1
    ensures Join([[c] + rest[0]] + rest[1..], sep) == [c] + Join(rest, sep)
  {
    var parts := [[c] + rest[0]] + rest[1..];
    assert parts[1..] == rest[1..];
  }

  lemma {:induction false} SplitWithoutSep(a: string, sep: char)
    requires sep !in a
    ensures Split(a, sep) == [a]
    decreases |a|
  {
    if a != [] {
      SplitWithoutSep(a[1..], sep);
      assert a == [a[0]] + a[1..];
    }
  }

  lemma {:induction false} SplitAfterPiece(a: string, sep: char, b: string)
    requires sep !in a
    ensures Split(a + [sep] + b, sep) == [a] + Split(b, sep)
    decreases |a|
  {
    var s := a + [sep] + b;
    if a == [] {
      assert s[1..] == b;
    } else {
      assert s[1..] == a[1..] + [sep] + b;
      SplitAfterPiece(a[1..], sep, b);
      assert a == [a[0]] + a[1..];
    }
  }

  /** Splitting a join whose pieces contain no separator gives back the pieces. */
  lemma {:induction false} SplitJoin(parts: seq<string>, sep: char)
    requires |parts| >= 1
    requires forall i :: 0 <= i < |parts| ==> sep !in parts[i]
    ensures Split(Join(parts, sep), sep) == parts
    decreases |parts|
  {
    if |parts| == 1 {
      SplitWithoutSep(parts[0], sep);
    } else {
      SplitJoin(parts[1..], sep);
      SplitAfterPiece(parts[0], sep, Join(parts[1..], sep));
    }
  }

  /** The characters Python's `str.strip()` removes, restricted to ASCII:
      tab, line feed, vertical tab, form feed, carriage return, the four
      information separators and space. */
  predicate IsSpace(c: char) {
    9 <= c as int <= 13 || 28 <= c as int <= 32
  }

  function StripLeft(s: string): (r: string)
    ensures |r| <= |s| && r == s[|s| - |r|..]
    ensures forall i :: 0 <= i < |s| - |r| ==> IsSpace(s[i])
    ensures r == [] || !IsSpace(r[0])
    decreases |s|
  {
    if s != [] && IsSpace(s[0]) then StripLeft(s[1..]) else s
  }

  function StripRight(s: string): (r: string)
    ensures |r| <= |s| && r == s[..|r|]
    ensures forall i :: |r| <= i < |s| ==> IsSpace(s[i])
    ensures r == [] || !IsSpace(r[|r| - 1])
    decreases |s|
  {
    if s != [] && IsSpace(s[|s| - 1]) then StripRight(s[..|s| - 1]) else s
  }

  /** `str.strip()`: a contiguous piece of `s` with no leading or trailing
      space, everything cut away being space. */
  function Strip(s: string): (r: string)
    ensures Contains(s, r)
    ensures r == [] || (!IsSpace(r[0]) && !IsSpace(r[|r| - 1]))
  {
    var l := StripLeft(s);
    var r := StripRight(l);
    SliceOfSuffix(s, |s| - |l|, |r|);
    ContainsAt(s, r, |s| - |l|);
    r
  }

  lemma SliceOfSuffix(s: string, a: nat, n: nat)
    requires a + n <= |s|
    ensures s[a..][..n] == s[a..a + n]
  {
  }

  /** A string that neither starts nor ends with space is its own stripped form. */
  lemma StripNoSpace(s: string)
    requires s == [] || (!IsSpace(s[0]) && !IsSpace(s[|s| - 1]))
    ensures Strip(s) == s
  {
    assert StripLeft(s) == s;
  }

  predicate IsDigit(c: char) {
    '0' <= c <= '9'
  }

  predicate AllDigits(s: string) {
    forall i :: 0 <= i < |s| ==> IsDigit(s[i])
  }

  /** A non-empty decimal numeral without a superfluous leading zero. */
  predicate IsCanonicalDecimal(s: string) {
    |s| >= 1 && AllDigits(s) && (|s| > 1 ==> s[0] != '0')
  }

  function DigitChar(d: nat): (c: char)
    requires d < 10
    ensures IsDigit(c)
  {
    ('0' as int + d) as char
  }

  /** The value of a numeral, most significant digit first. */
  function DecimalValue(s: string): nat
    requires AllDigits(s)
  {
    if s == [] then 0
    else 10 * DecimalValue(s[..|s| - 1]) + (s[|s| - 1] as int - '0' as int)
  }

  /** `str(n)` for a natural number. */
  function Decimal(n: nat): (s: string)
    ensures IsCanonicalDecimal(s)
    ensures n < 10 ==> |s| == 1
    ensures 10 <= n < 100 ==> |s| == 2
    ensures 100 <= n < 1000 ==> |s| == 3
  {
    if n < 10 then [DigitChar(n)] else Decimal(n / 10) + [DigitChar(n % 10)]
  }

  lemma {:induction false} DecimalRoundTrip(n: nat)
    ensures DecimalValue(Decimal(n)) == n
  {
    if n >= 10 {
      DecimalRoundTrip(n / 10);
      var s := Decimal(n);
      assert s[..|s| - 1] == Decimal(n / 10);
    }
  }

  /** A canonical numeral is the printed form of its value. */
  lemma {:induction false} DecimalCanonical(s: string)
    requires IsCanonicalDecimal(s)
    ensures Decimal(DecimalValue(s)) == s
    decreases |s|
  {
    if |s| > 1 {
      var init := s[..|s| - 1];
      assert IsCanonicalDecimal(init) by { assert init[0] == s[0]; }
      DecimalCanonical(init);
      DecimalPositive(init);
      assert s == init + [s[|s| - 1]];
    }
  }

  lemma {:induction false} DecimalPositive(s: string)
    requires IsCanonicalDecimal(s) && s[0] != '0'
    ensures DecimalValue(s) >= 1
    decreases |s|
  {
    if |s| > 1 {
      DecimalPositive(s[..|s| - 1]);
    }
  }

  /** Python's `int(s)` for a string: surrounding white space is ignored,
      then an optional sign and a non-empty run of ASCII decimal digits
      (leading zeros allowed). */
  function ParseInt(s: string): (r: Option<int>)
    ensures |s| >= 1 && AllDigits(s) ==> r == Some(DecimalValue(s))
    ensures r.Some? ==> |Strip(s)| >= 1
  {
    var t := Strip(s);
    if |t| >= 1 && (t[0] == '+' || t[0] == '-') then
      var d := t[1..];
      if |d| >= 1 && AllDigits(d) then
        Some(if t[0] == '-' then -(DecimalValue(d) as int) else DecimalValue(d))
      else None
    else if |t| >= 1 && AllDigits(t) then Some(DecimalValue(t))
    else None
  }

  /** `int(str(n)) == n`. */
  lemma ParseIntOfDecimal(n: nat)
    ensures ParseInt(Decimal(n)) == Some(n)
  {
    DecimalRoundTrip(n);
  }

  predicate StartsWith(s: string, prefix: string) {
    |prefix| <= |s| && s[..|prefix|] == prefix
  }

  /** Python's `sub in s`. */
  predicate Contains(s: string, sub: string)
    decreases |s|
  {
    StartsWith(s, sub) || (s != [] && Contains(s[1..], sub))
  }

  lemma {:induction false} ContainsAt(s: string, sub: string, i: nat)
    requires i + |sub| <= |s| && s[i..i + |sub|] == sub
    ensures Contains(s, sub)
    decreases i
  {
    if i > 0 {
      assert s[1..][i - 1..i - 1 + |sub|] == s[i..i + |sub|];
      ContainsAt(s[1..], sub, i - 1);
    }
  }

  lemma {:induction false} ContainsWitness(s: string, sub: string) returns (i: nat)
    requires Contains(s, sub)
    ensures i + |sub| <= |s| && s[i..i + |sub|] == sub
    decreases |s|
  {
    if StartsWith(s, sub) {
      i := 0;
    } else {
      var j := ContainsWitness(s[1..], sub);
      i := j + 1;
      assert s[i..i + |sub|] == s[1..][j..j + |sub|];
    }
  }

  /** A string of `n` copies of `c`. */
  function Repeat(c: char, n: nat): (r: string)
    ensures |r| == n && forall i :: 0 <= i < n ==> r[i] == c
  {
    if n == 0 then [] else [c] + Repeat(c, n - 1)
  }

  lemma RepeatAdd(c: char, a: nat, b: nat)
    ensures Repeat(c, a) + Repeat(c, b) == Repeat(c, a + b)
  {
    assert forall i :: 0 <= i < a + b ==> (Repeat(c, a) + Repeat(c, b))[i] == c;
  }

  /** A character absent from every piece and distinct from the separator is
      absent from the join. */
  lemma {:induction false} NotInJoin(parts: seq<string>, sep: char, c: char)
    requires |parts| >= 1 && c != sep
    requires forall i :: 0 <= i < |parts| ==> c !in parts[i]
    ensures c !in Join(parts, sep)
    decreases |parts|
  {
    if |parts| > 1 {
      NotInJoin(parts[1..], sep, c);
    }
  }
}
