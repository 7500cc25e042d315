/** Binary numerals as Python prints them: `bin(n)[2:]`, `zfill`, and
    counting the `'1'` characters, together with powers of two. */
module Binary {
  import opened Text

  function Pow2(n: nat): (r: nat)
    ensures r >= 1
  {
    if n == 0 then 1 else 2 * Pow2(n - 1)
  }

  lemma {:induction false} Pow2Add(a: nat, b: nat)
    ensures Pow2(a) * Pow2(b) == Pow2(a + b)
    decreases a
  {
    if a > 0 {
      Pow2Add(a - 1, b);
    }
  }

  lemma Pow2Values()
    ensures Pow2(8) == 0x100 && Pow2(16) == 0x1_0000 && Pow2(24) == 0x100_0000
    ensures Pow2(32) == 0x1_0000_0000
  {
    assert Pow2(4) == 16 by {
      assert Pow2(1) == 2;
      assert Pow2(2) == 4;
      assert Pow2(3) == 8;
    }
    Pow2Add(4, 4);
    Pow2Add(8, 8);
    Pow2Add(16, 8);
    Pow2Add(16, 16);
  }

  lemma {:induction false} Pow2Monotone(a: nat, b: nat)
    requires a <= b
    ensures Pow2(a) <= Pow2(b)
    decreases b
  {
    if a < b {
      Pow2Monotone(a, b - 1);
    }
  }

  predicate IsBit(c: char) {
    c == '0' || c == '1'
  }

  predicate AllBits(s: string) {
    forall i :: 0 <= i < |s| ==> IsBit(s[i])
  }

  /** The value of a binary numeral, most significant bit first. */
  function BitsValue(s: string): nat
    requires AllBits(s)
  {
    if s == [] then 0 else 2 * BitsValue(s[..|s| - 1]) + (if s[|s| - 1] == '1' then 1 else 0)
  }

  /** `bin(n)[2:]`: the binary numeral of `n` without leading zeros
      (`"0"` for zero). */
  function Bin(n: nat): (s: string)
    ensures |s| >= 1 && AllBits(s)
    ensures n >= 1 ==> s[0] == '1'
  {
    if n < 2 then (if n == 0 then "0" else "1")
    else Bin(n / 2) + (if n % 2 == 0 then "0" else "1")
  }

  /** `s.zfill(width)`: left-padded with `'0'` to at least `width` characters. */
  function ZFill(s: string, width: nat): (r: string)
    ensures |r| == if |s| >= width then |s| else width
    ensures r == Repeat('0', |r| - |s|) + s
  {
    if |s| >= width then s else Repeat('0', width - |s|) + s
  }

  /** `bin(n)[2:]` for any integer: for a negative `n`, `bin` writes
      `-0b...`, so the slice keeps the `b`. */
  function BinSlice(n: int): (s: string)
    ensures n >= 0 ==> s == Bin(n)
    ensures n < 0 ==> |s| >= 2 && s[0] == 'b' && s[1..] == Bin(-n)
  {
    if n >= 0 then Bin(n) else "b" + Bin(-n)
  }

  /** `bin(n)[2:].zfill(8)`, the eight-character form of one octet. */
  function OctetBits(n: int): string {
    ZFill(BinSlice(n), 8)
  }

  /** `s.count(c)` for a single character. */
  function CountChar(s: string, c: char): (k: nat)
    ensures k <= |s|
  {
    if s == [] then 0 else CountChar(s[..|s| - 1], c) + (if s[|s| - 1] == c then 1 else 0)
  }

  lemma {:induction false} CountCharAppend(a: string, b: string, c: char)
    ensures CountChar(a + b, c) == CountChar(a, c) + CountChar(b, c)
    decreases |b|
  {
    if b == [] {
      assert a + b == a;
    } else {
      assert (a + b)[..|a + b| - 1] == a + b[..|b| - 1];
      CountCharAppend(a, b[..|b| - 1], c);
    }
  }

  lemma {:induction false} CountRepeat(d: char, n: nat, c: char)
    ensures CountChar(Repeat(d, n), c) == if d == c then n else 0
    decreases n
  {
    if n > 0 {
      assert Repeat(d, n) == Repeat(d, n - 1) + [d] by { RepeatAdd(d, n - 1, 1); }
      CountCharAppend(Repeat(d, n - 1), [d], c);
      CountRepeat(d, n - 1, c);
    }
  }

  lemma {:induction false} BinRoundTrip(n: nat)
    ensures BitsValue(Bin(n)) == n
  {
    if n >= 2 {
      BinRoundTrip(n / 2);
      var s := Bin(n);
      assert s[..|s| - 1] == Bin(n / 2);
    }
  }

  /** `bin(2^n)[2:]` is a one followed by `n` zeros. */
  lemma {:induction false} BinOfPow2(n: nat)
    ensures Bin(Pow2(n)) == "1" + Repeat('0', n)
  {
    if n > 0 {
      BinOfPow2(n - 1);
      assert Pow2(n) / 2 == Pow2(n - 1) && Pow2(n) % 2 == 0 && Pow2(n) >= 2;
      RepeatAdd('0', n - 1, 1);
    }
  }

  /** A number below `2^k` prints in at most `k` binary digits, and one at
      or above `2^k` in more. */
  lemma {:induction false} BinLength(n: nat, k: nat)
    requires k >= 1
    ensures n < Pow2(k) <==> |Bin(n)| <= k
    decreases k
  {
    if n >= 2 && k >= 2 {
      BinLength(n / 2, k - 1);
    } else if n >= 2 {
      assert |Bin(n / 2)| >= 1;
    }
  }

  lemma {:induction false} LeadingZerosValue(z: nat, s: string)
    requires AllBits(s)
    ensures AllBits(Repeat('0', z) + s) && BitsValue(Repeat('0', z) + s) == BitsValue(s)
    decreases |s|
  {
    var t := Repeat('0', z) + s;
    assert AllBits(t);
    if s == [] {
      ZerosValue(z);
      assert t == Repeat('0', z);
    } else {
      assert t[..|t| - 1] == Repeat('0', z) + s[..|s| - 1];
      LeadingZerosValue(z, s[..|s| - 1]);
    }
  }

  lemma {:induction false} ZerosValue(z: nat)
    ensures AllBits(Repeat('0', z)) && BitsValue(Repeat('0', z)) == 0
    decreases z
  {
    if z > 0 {
      assert Repeat('0', z)[..z - 1] == Repeat('0', z - 1);
      ZerosValue(z - 1);
    }
  }

  /** For an octet value, the padded numeral has exactly eight bits and
      denotes the octet. */
  lemma OctetBitsValue(n: nat)
    requires n < 256
    ensures |OctetBits(n)| == 8 && AllBits(OctetBits(n)) && BitsValue(OctetBits(n)) == n
  {
    BinLength(n, 8);
    BinRoundTrip(n);
    LeadingZerosValue(8 - |Bin(n)|, Bin(n));
  }

  /** A bit string is "ones then zeros" exactly when it has no "01". */
  predicate OnesThenZeros(s: string) {
    s == Repeat('1', CountChar(s, '1')) + Repeat('0', |s| - CountChar(s, '1'))
  }

  lemma NoZeroOneIsContiguous(s: string)
    requires AllBits(s)
    ensures !Contains(s, "01") <==> OnesThenZeros(s)
  {
    if OnesThenZeros(s) {
      ContiguousHasNoRise(s);
    } else if !Contains(s, "01") {
      NoRiseIsContiguous(s);
    }
  }

  lemma ContiguousCount(k: nat, m: nat)
    ensures CountChar(Repeat('1', k) + Repeat('0', m), '1') == k
  {
    CountCharAppend(Repeat('1', k), Repeat('0', m), '1');
    CountRepeat('1', k, '1');
    CountRepeat('0', m, '1');
  }

  lemma ContiguousHasNoRise(s: string)
    requires OnesThenZeros(s)
    ensures !Contains(s, "01")
  {
    if Contains(s, "01") {
      var i := ContainsWitness(s, "01");
      assert s[i..i + 2] == "01";
      assert s[i] == s[i..i + 2][0] == '0';
      assert s[i + 1] == s[i..i + 2][1] == '1';
      OnesThenZerosNoRise(s, i);
      assert false;
    }
  }

  lemma {:induction false} NoRiseIsContiguous(s: string)
    requires AllBits(s) && !Contains(s, "01")
    ensures OnesThenZeros(s)
    decreases |s|
  {
    if s == [] {
      assert s == Repeat('1', 0) + Repeat('0', 0);
    } else {
      var t := s[1..];
      assert !Contains(t, "01");
      assert AllBits(t);
      NoRiseIsContiguous(t);
      var k := CountChar(t, '1');
      var m := |t| - k;
      assert s == [s[0]] + t;
      if s[0] == '1' {
        ConsOne(t, k, m);
      } else {
        assert !StartsWith(s, "01");
        ConsZero(t, k, m);
      }
    }
  }

  lemma ConsOne(t: string, k: nat, m: nat)
    requires t == Repeat('1', k) + Repeat('0', m)
    ensures OnesThenZeros(['1'] + t)
  {
    RepeatAdd('1', 1, k);
    assert ['1'] + t == Repeat('1', k + 1) + Repeat('0', m);
    ContiguousCount(k + 1, m);
  }

  lemma ConsZero(t: string, k: nat, m: nat)
    requires t == Repeat('1', k) + Repeat('0', m)
    requires !StartsWith(['0'] + t, "01")
    ensures OnesThenZeros(['0'] + t)
  {
    RepeatAdd('0', 1, m);
    assert ['0'] + t == Repeat('1', 0) + Repeat('0', m + 1);
    ContiguousCount(0, m + 1);
  }

  lemma OnesThenZerosNoRise(s: string, i: nat)
    requires OnesThenZeros(s) && i + 1 < |s|
    ensures !(s[i] == '0' && s[i + 1] == '1')
  {
  }

  lemma {:induction false} ContiguousNoZeroOne(k: nat, m: nat)
    ensures AllBits(Repeat('1', k) + Repeat('0', m))
    ensures !Contains(Repeat('1', k) + Repeat('0', m), "01")
  {
    ContiguousCount(k, m);
    ContiguousHasNoRise(Repeat('1', k) + Repeat('0', m));
  }

  lemma {:induction false} BitsValueAppend(a: string, b: string)
    requires AllBits(a) && AllBits(b)
    ensures AllBits(a + b) && BitsValue(a + b) == BitsValue(a) * Pow2(|b|) + BitsValue(b)
    decreases |b|
  {
    if b == [] {
      assert a + b == a;
    } else {
      var b' := b[..|b| - 1];
      var last := if b[|b| - 1] == '1' then 1 else 0;
      assert (a + b)[..|a + b| - 1] == a + b';
      assert (a + b)[|a + b| - 1] == b[|b| - 1];
      BitsValueAppend(a, b');
      assert BitsValue(a + b) == 2 * BitsValue(a + b') + last;
      DoubleShift(BitsValue(a), Pow2(|b'|), BitsValue(b'), last);
    }
  }

  lemma DoubleShift(x: nat, p: nat, y: nat, last: nat)
    ensures 2 * (x * p + y) + last == x * (2 * p) + (2 * y + last)
  {
  }

  lemma {:induction false} OnesValue(c: nat)
    ensures AllBits(Repeat('1', c)) && BitsValue(Repeat('1', c)) == Pow2(c) - 1
    decreases c
  {
    if c > 0 {
      assert Repeat('1', c)[..c - 1] == Repeat('1', c - 1);
      OnesValue(c - 1);
    }
  }

  /** Two bit strings of one length that denote the same number are equal. */
  lemma {:induction false} BitsValueInjective(s: string, t: string)
    requires AllBits(s) && AllBits(t) && |s| == |t| && BitsValue(s) == BitsValue(t)
    ensures s == t
    decreases |s|
  {
    if s != [] {
      var n := |s| - 1;
      assert s[n] == t[n];
      BitsValueInjective(s[..n], t[..n]);
      assert s == s[..n] + [s[n]] && t == t[..n] + [t[n]];
    }
  }

  lemma {:induction false} Pow2StrictlyMonotone(a: nat, b: nat)
    requires a < b
    ensures Pow2(a) < Pow2(b)
    decreases b
  {
    if a < b - 1 {
      Pow2StrictlyMonotone(a, b - 1);
    }
  }
}
