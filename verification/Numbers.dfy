/**
  itoa and atoi of lib/string.c.  Characters are their codes; C's `/` and `%`
  round towards zero, and atoi's sum is an unsigned 32-bit word.
 */
module Numbers {

  const WORD := 0x1_0000_0000
  const INT_MIN := -0x8000_0000
  const INT_MAX := 0x7FFF_FFFF

  // '0' is 48, '9' is 57, 'A' is 65
  function TruncDiv(a: int): int { if a >= 0 then a / 10 else -((-a) / 10) }
  function TruncMod(a: int): int { if a >= 0 then a % 10 else -((-a) % 10) }

  // The text itoa writes: most significant digit first.
  function Text(a: int): (s: seq<int>)
    ensures |s| >= 1
    decreases if a >= 0 then a else -a
  {
    if TruncDiv(a) == 0 then [TruncMod(a) + 48] else Text(TruncDiv(a)) + [TruncMod(a) + 48]
  }

  function DigitValue(c: int): int { if 48 <= c <= 57 then c - 48 else c - 65 + 10 }

  // The number atoi reads, before reduction to a word.
  function Value(s: seq<int>, base: int): int {
    if s == [] then 0 else Value(s[..|s| - 1], base) * base + DigitValue(s[|s| - 1])
  }

  function Pow10(k: nat): nat { if k == 0 then 1 else 10 * Pow10(k - 1) }

  // The text of a k-digit number has at most k characters.
  lemma {:induction false} TextLength(a: int, k: nat)
    requires k >= 1 && 0 - Pow10(k) < a < Pow10(k)
    ensures |Text(a)| <= k
    decreases k
  {
    if TruncDiv(a) != 0 {
      if k == 1 { assert Pow10(1) == 10 * Pow10(0); }
      TextLength(TruncDiv(a), k - 1);
    }
  }

  lemma IntTextLength(a: int)
    requires INT_MIN <= a <= INT_MAX
    ensures |Text(a)| <= 10
  {
    assert Pow10(10) == 10_000_000_000 by {
      assert Pow10(2) == 100; assert Pow10(4) == 10_000; assert Pow10(6) == 1_000_000; assert Pow10(8) == 100_000_000;
    }
    TextLength(a, 10);
  }

  // Canonical decimal: digits only, and no leading zero except for 0 itself.
  lemma {:induction false} TextCanonical(n: nat)
    ensures forall i :: 0 <= i < |Text(n)| ==> 48 <= Text(n)[i] <= 57
    ensures Text(n)[0] == 48 <==> n == 0
    ensures n == 0 ==> Text(n) == [48]
    decreases n
  {
    if n >= 10 { TextCanonical(n / 10); }
  }

  lemma ValueSnoc(s: seq<int>, c: int, base: int)
    ensures Value(s + [c], base) == Value(s, base) * base + DigitValue(c)
  {
    assert (s + [c])[..|s|] == s;
  }

  // The decimal places of n that hold a non-zero digit, as a number of ones.
  function Ones(n: nat): (m: nat)
    ensures m <= n && (m == 0 <==> n == 0)
  {
    if n == 0 then 0 else 10 * Ones(n / 10) + if n % 10 == 0 then 0 else 1
  }

  lemma {:induction false} PositiveValue(n: nat)
    ensures Value(Text(n), 10) == n
    decreases n
  {
    if n >= 10 {
      PositiveValue(n / 10);
      ValueSnoc(Text(n / 10), n % 10 + 48, 10);
    } else {
      ValueSnoc([], n + 48, 10);
      assert [] + [n + 48] == [n + 48];
    }
  }

  // The text of n in base 16.
  function HexText(n: nat): seq<int> {
    (if n < 16 then [] else HexText(n / 16)) + ["0123456789ABCDEF"[n % 16] as int]
  }

  // atoi in base 16 reads it as n.
  lemma {:induction false} HexValue(n: nat)
    ensures Value(HexText(n), 16) == n
    decreases n
  {
    HexDigit(n % 16);
    if n < 16 {
      ValueSnoc([], "0123456789ABCDEF"[n % 16] as int, 16);
    } else {
      HexValue(n / 16);
      ValueSnoc(HexText(n / 16), "0123456789ABCDEF"[n % 16] as int, 16);
    }
  }

  lemma HexDigit(d: nat)
    requires d < 16
    ensures DigitValue("0123456789ABCDEF"[d] as int) == d
  {}

  // Below zero every non-zero digit comes out as a character 7 places off.
  lemma {:induction false} NegativeValue(n: int)
    requires n >= 0
    ensures Value(Text(-n), 10) == -n - 7 * Ones(n)
    decreases n
  {
    if n >= 10 {
      NegativeValue(n / 10);
      assert TruncDiv(-n) == -(n / 10) && TruncMod(-n) == -(n % 10);
      ValueSnoc(Text(-(n / 10)), 48 - n % 10, 10);
    } else {
      ValueSnoc([], 48 - n, 10);
      assert [] + [48 - n] == [48 - n];
    }
  }

  // atoi undoes itoa on an int exactly when the int is not negative.
  lemma RoundTripIff(a: int)
    requires INT_MIN <= a <= INT_MAX
    ensures Value(Text(a), 10) % WORD == a % WORD <==> a >= 0
  {
    if a >= 0 {
      PositiveValue(a);
    } else {
      NegativeValue(-a);
      SevenTimes(Ones(-a));
      NotCongruent(a, Ones(-a));
    }
  }

  lemma NotCongruent(a: int, m: int)
    requires 7 * m % WORD != 0
    ensures (a - 7 * m) % WORD != a % WORD
  {
    var x := a - 7 * m;
    var k := a / WORD - x / WORD;
    assert 7 * m == k * WORD + (a % WORD - x % WORD);
  }

  lemma SevenTimes(m: int)
    requires 0 < m <= 0x8000_0000
    ensures 7 * m % WORD != 0
  {}

  method Atoi(s: seq<int>, base: int) returns (sum: int)
    ensures sum == Value(s, base) % WORD
  {
    sum := 0;
    var i := 0;
    while i < |s|
      invariant 0 <= i <= |s| && sum == Value(s[..i], base) % WORD
    {
      ValueSnoc(s[..i], s[i], base);
      assert s[..i + 1] == s[..i] + [s[i]];
      ModStep(Value(s[..i], base), sum, base, DigitValue(s[i]));
      sum := sum * base % WORD;
      sum := (sum + DigitValue(s[i])) % WORD;
      i := i + 1;
    }
    assert s[..i] == s;
  }

  lemma ModStep(v: int, sum: int, base: int, d: int)
    requires sum == v % WORD
    ensures (sum * base % WORD + d) % WORD == (v * base + d) % WORD
  {
    var q := v / WORD;
    assert v * base == sum * base + q * base * WORD by { assert v == q * WORD + sum; }
    ModShift(sum * base, q * base);
  }

  lemma ModShift(x: int, k: int)
    ensures (x + k * WORD) % WORD == x % WORD
  {}

  function Reversed(s: seq<int>): (r: seq<int>)
    ensures |r| == |s| && forall i :: 0 <= i < |s| ==> r[i] == s[|s| - 1 - i]
  {
    seq(|s|, i requires 0 <= i < |s| => s[|s| - 1 - i])
  }

  lemma OneMoreDigit(x: int, c: int, tail: seq<int>)
    requires x != 0 && c == TruncMod(x) + 48
    ensures Reversed([c] + tail) == Reversed(tail) + [c]
    ensures Text(x) + tail == (if TruncDiv(x) == 0 then [] else Text(TruncDiv(x))) + ([c] + tail)
  {
    assert Text(x) == (if TruncDiv(x) == 0 then [] else Text(TruncDiv(x))) + [c];
  }

  // The digit loop writes the text backwards.
  method WriteDigits(a: int, buf: array<int>) returns (n: int)
    requires |Text(a)| <= buf.Length
    modifies buf
    ensures n == |Text(a)| && buf[..n] == Reversed(Text(a))
    ensures forall i :: n <= i < buf.Length ==> buf[i] == old(buf[i])
  {
    var x := a;
    n := 0;
    buf[n] := TruncMod(x) + 48;
    n := 1;
    x := TruncDiv(x);
    ghost var tail := [TruncMod(a) + 48];
    while x != 0
      invariant 1 <= n <= buf.Length && n == |tail| && buf[..n] == Reversed(tail)
      invariant x != 0 ==> Text(x) + tail == Text(a)
      invariant x == 0 ==> tail == Text(a)
      invariant forall i :: n <= i < buf.Length ==> buf[i] == old(buf[i])
      decreases if x >= 0 then x else -x
    {
      var c := TruncMod(x) + 48;
      assert |Text(x) + tail| <= buf.Length;
      buf[n] := c;
      OneMoreDigit(x, c, tail);
      assert buf[..n + 1] == Reversed(tail) + [c];
      tail := [c] + tail;
      n := n + 1;
      x := TruncDiv(x);
    }
  }

  // In-place reversal of the first n cells.
  method ReverseCells(buf: array<int>, n: int)
    requires 0 <= n <= buf.Length
    modifies buf
    ensures buf[..n] == Reversed(old(buf[..n]))
    ensures forall i :: n <= i < buf.Length ==> buf[i] == old(buf[i])
  {
    var i, j := n - 1, 0;
    while i > j
      invariant 0 <= j && i == n - 1 - j && j <= i + 1
      invariant forall k :: 0 <= k < j ==> buf[k] == old(buf[n - 1 - k]) && buf[n - 1 - k] == old(buf[k])
      invariant forall k :: j <= k <= i ==> buf[k] == old(buf[k])
      invariant forall k :: n <= k < buf.Length ==> buf[k] == old(buf[k])
    {
      var c := buf[j];
      buf[j] := buf[i];
      buf[i] := c;
      i := i - 1;
      j := j + 1;
    }
  }

  // itoa: the canonical text, then zeros.
  method Itoa(a: int, buf: array<int>)
    requires INT_MIN <= a <= INT_MAX && buf.Length >= 11
    modifies buf
    ensures |Text(a)| <= 10
    ensures buf[..|Text(a)|] == Text(a)
    ensures forall i :: |Text(a)| <= i < buf.Length ==> buf[i] == 0
  {
    IntTextLength(a);
    for k := 0 to buf.Length
      invariant forall i :: 0 <= i < k ==> buf[i] == 0
    {
      buf[k] := 0;
    }
    var n := WriteDigits(a, buf);
    ReverseCells(buf, n);
  }
}
