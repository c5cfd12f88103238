/** Decimal text and cutting strings apart, as the Go standard library does it. A Go string is a
    sequence of bytes; here each byte is a character below 256. */
module Text {
  import opened Common

  predicate IsDigit(c: char) {
    '0' <= c <= '9'
  }

  function Digit(d: int): char
    requires 0 <= d < 10
  {
    (d + 48) as char
  }

  function DigitValue(c: char): int
    requires IsDigit(c)
  {
    c as int - 48
  }

  predicate AllDigits(s: string) {
    forall i :: 0 <= i < |s| ==> IsDigit(s[i])
  }

  function Value(s: string): nat
    requires AllDigits(s)
  {
    if s == "" then 0 else 10 * Value(s[..|s| - 1]) + DigitValue(s[|s| - 1])
  }

  // Decimal digits without leading zeros.
  function Decimal(n: nat): (s: string)
    ensures s != "" && AllDigits(s)
  {
    if n < 10 then [Digit(n)] else Decimal(n / 10) + [Digit(n % 10)]
  }

  lemma {:induction false} DecimalValue(n: nat)
    ensures Value(Decimal(n)) == n
  {
    if n >= 10 {
      DecimalValue(n / 10);
      assert Decimal(n)[..|Decimal(n)| - 1] == Decimal(n / 10);
    } else {
      assert Decimal(n)[..0] == "";
    }
  }

  function Pow10(w: nat): nat {
    if w == 0 then 1 else 10 * Pow10(w - 1)
  }

  // The last `w` decimal digits, zero-padded.
  function Padded(n: nat, w: nat): (s: string)
    ensures |s| == w && AllDigits(s)
  {
    if w == 0 then "" else Padded(n / 10, w - 1) + [Digit(n % 10)]
  }

  lemma {:induction false} PaddedValue(n: nat, w: nat)
    requires n < Pow10(w)
    ensures Value(Padded(n, w)) == n
  {
    if w > 0 {
      PaddedValue(n / 10, w - 1);
      assert Padded(n, w)[..w - 1] == Padded(n / 10, w - 1);
    }
  }

  // strconv.FormatInt(i, 10)
  function FormatInt(i: int): string {
    if i < 0 then "-" + Decimal(-i) else Decimal(i)
  }

  const MIN_INT64 := -0x8000_0000_0000_0000
  const MAX_INT64 := 0x7fff_ffff_ffff_ffff

  function InRange(v: int): Option<int> {
    if MIN_INT64 <= v <= MAX_INT64 then Some(v) else None
  }

  // strconv.ParseInt(s, 10, 64)
  function ParseInt(s: string): Option<int> {
    var signed := s != "" && (s[0] == '-' || s[0] == '+');
    var digits := if signed then s[1..] else s;
    if digits == "" || !AllDigits(digits) then None
    else InRange(if s[0] == '-' then 0 - Value(digits) else Value(digits))
  }

  lemma ParseDigits(digits: string)
    requires digits != "" && AllDigits(digits)
    ensures ParseInt(digits) == InRange(Value(digits))
    ensures ParseInt("-" + digits) == InRange(0 - Value(digits))
  {
    assert IsDigit(digits[0]);
    assert ("-" + digits)[1..] == digits;
  }

  /** Printing an integer and parsing it again gives it back exactly when it fits 64 bits. */
  lemma IntRoundTrip(i: int)
    ensures ParseInt(FormatInt(i)) == if MIN_INT64 <= i <= MAX_INT64 then Some(i) else None
  {
    var n: nat := if i < 0 then -i else i;
    DecimalValue(n);
    ParseDigits(Decimal(n));
  }

  lemma NumberChars(s: string, c: char)
    requires ParseInt(s).Some? && !IsDigit(c) && c != '-' && c != '+'
    ensures c !in s
  {
    var signed := s[0] == '-' || s[0] == '+';
    if signed {
      assert AllDigits(s[1..]);
      assert s == [s[0]] + s[1..];
    }
  }

  lemma FormatIntChars(i: int)
    ensures forall c :: c in FormatInt(i) ==> IsDigit(c) || c == '-'
    ensures FormatInt(i) != ""
  {
  }

  lemma {:induction false} DecimalShape(n: nat)
    ensures n > 0 ==> Decimal(n)[0] != '0'
    ensures n == 0 ==> Decimal(n) == "0"
  {
    if n >= 10 {
      DecimalShape(n / 10);
    }
  }

  /** A printed integer has a minus sign exactly if it is negative, and no leading zero but "0". */
  lemma IntShape(i: int)
    ensures FormatInt(i)[0] == '-' <==> i < 0
    ensures i > 0 ==> FormatInt(i)[0] != '0'
    ensures i < 0 ==> FormatInt(i)[1] != '0'
    ensures i == 0 ==> FormatInt(i) == "0"
  {
    DecimalShape(if i < 0 then -i else i);
    assert IsDigit(Decimal(if i < 0 then -i else i)[0]);
  }

  // ----- cutting at a separator -----

  // Index of the first occurrence, or -1.
  function IndexOf(s: string, sep: char): (k: int)
    ensures -1 <= k < |s|
    ensures k >= 0 ==> s[k] == sep && sep !in s[..k]
    ensures k < 0 ==> sep !in s
  {
    if s == "" then -1
    else if s[0] == sep then 0
    else
      var r := IndexOf(s[1..], sep);
      assert s == [s[0]] + s[1..];
      if r < 0 then -1 else (assert s[..r + 1] == [s[0]] + s[1..][..r]; r + 1)
  }

  // Index of the last occurrence, or -1.
  function LastIndexOf(s: string, sep: char): (k: int)
    ensures -1 <= k < |s|
    ensures k >= 0 ==> s[k] == sep && sep !in s[k + 1..]
    ensures k < 0 ==> sep !in s
  {
    if s == "" then -1
    else if s[|s| - 1] == sep then |s| - 1
    else
      var init := s[..|s| - 1];
      assert s == init + [s[|s| - 1]];
      var r := LastIndexOf(init, sep);
      if r >= 0 then (assert s[r + 1..] == init[r + 1..] + [s[|s| - 1]]; r) else r
  }

  // A text with a separator in it is what stands before it, the separator, and the rest.
  lemma CutAt(s: string, sep: char, k: nat)
    requires k < |s| && s[k] == sep
    ensures s == s[..k] + [sep] + s[k + 1..]
  {
  }

  lemma {:induction false} FirstCut(a: string, sep: char, b: string)
    requires sep !in a
    ensures IndexOf(a + [sep] + b, sep) == |a|
    ensures (a + [sep] + b)[..|a|] == a && (a + [sep] + b)[|a| + 1..] == b
  {
    if a != "" {
      FirstCut(a[1..], sep, b);
      assert (a + [sep] + b)[1..] == a[1..] + [sep] + b;
    }
  }

  lemma {:induction false} LastCut(a: string, sep: char, b: string)
    requires sep !in b
    ensures LastIndexOf(a + [sep] + b, sep) == |a|
    ensures (a + [sep] + b)[..|a|] == a && (a + [sep] + b)[|a| + 1..] == b
    decreases |b|
  {
    var s := a + [sep] + b;
    if b != "" {
      LastCut(a, sep, b[..|b| - 1]);
      assert s[..|s| - 1] == a + [sep] + b[..|b| - 1];
      assert s[|s| - 1] == b[|b| - 1];
    }
  }
}
