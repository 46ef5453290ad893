/** Decimal text of 64-bit integers: strconv.Itoa, and strconv.Atoi / ParseInt(s, 10, 64). */
module Decimal {
  import opened Outcomes

  const MIN_INT64: int := -0x8000_0000_0000_0000
  const MAX_INT64: int := 0x7fff_ffff_ffff_ffff

  type Int64 = n: int | MIN_INT64 <= n <= MAX_INT64

  /** Two's complement wrap-around of an int64 sum. */
  function Wrap(n: int): Int64 {
    (n - MIN_INT64) % 0x1_0000_0000_0000_0000 + MIN_INT64
  }

  function Digit(d: int): char
    requires 0 <= d < 10
  {
    '0' + d as char
  }

  function Digits(n: nat): string {
    if n < 10 then [Digit(n)] else Digits(n / 10) + [Digit(n % 10)]
  }

  function Itoa(n: int): string {
    if n < 0 then "-" + Digits(-n) else Digits(n)
  }

  /** The value of a run of digits, None when another character is among them. */
  function Magnitude(s: string): Option<nat> {
    if s == "" then Some(0)
    else match Magnitude(s[..|s| - 1])
      case None => None
      case Some(v) => if '0' <= s[|s| - 1] <= '9' then Some(10 * v + (s[|s| - 1] - '0') as int) else None
  }

  function Unsigned(s: string): string {
    if s != "" && (s[0] == '-' || s[0] == '+') then s[1..] else s
  }

  function Atoi(s: string): Result<Int64, string> {
    if Unsigned(s) == "" then Err("invalid syntax")
    else match Magnitude(Unsigned(s))
      case None => Err("invalid syntax")
      case Some(v) =>
        var n: int := if s[0] == '-' then 0 - v else v;
        if MIN_INT64 <= n <= MAX_INT64 then Ok(n) else Err("value out of range")
  }

  lemma {:induction false} DigitsRead(n: nat)
    ensures Digits(n) != "" && '0' <= Digits(n)[0] <= '9' && Magnitude(Digits(n)) == Some(n)
  {
    if n < 10 {
      assert Digits(n)[..0] == "";
    } else {
      DigitsRead(n / 10);
      assert Digits(n)[..|Digits(n)| - 1] == Digits(n / 10);
    }
  }

  /** What is printed: digits that read as the magnitude, after a minus sign exactly when negative. */
  lemma PrintedDigits(n: int)
    ensures Itoa(n) != "" && (n < 0 <==> Itoa(n)[0] == '-')
    ensures Unsigned(Itoa(n)) != "" && Magnitude(Unsigned(Itoa(n))) == Some(if n < 0 then -n else n)
  {
    DigitsRead(if n < 0 then -n else n);
    if n < 0 { assert Itoa(n)[1..] == Digits(-n); }
  }

  /** Reading a printed integer gives it back, as long as it fits in 64 bits. */
  lemma AtoiItoa(n: int)
    ensures Atoi(Itoa(n)) == if MIN_INT64 <= n <= MAX_INT64 then Ok(n) else Err("value out of range")
  {
    PrintedDigits(n);
  }

  /** No two integers print alike. */
  lemma ItoaInjective(a: int, b: int)
    requires Itoa(a) == Itoa(b)
    ensures a == b
  {
    PrintedDigits(a);
    PrintedDigits(b);
  }

  lemma {:induction false} LeadingZero(s: string)
    ensures Magnitude("0" + s) == Magnitude(s)
  {
    var t := "0" + s;
    if s == "" {
      assert t[..0] == "";
    } else {
      LeadingZero(s[..|s| - 1]);
      assert t[..|t| - 1] == "0" + s[..|s| - 1];
    }
  }

  /** Reading is not injective: a sign or a leading zero may be added. */
  lemma AtoiAcceptsOtherSpellings(n: nat)
    requires n <= MAX_INT64
    ensures Atoi("+" + Itoa(n)) == Ok(n) && Atoi("0" + Itoa(n)) == Ok(n)
  {
    DigitsRead(n);
    assert Unsigned("+" + Itoa(n)) == Itoa(n) && Unsigned("0" + Itoa(n)) == "0" + Itoa(n);
    LeadingZero(Digits(n));
  }

  lemma Multiple(d: int, m: int)
    requires m > 0
    ensures d >= 1 ==> d * m >= m
    ensures d <= -1 ==> d * m <= -m
  {
  }

  lemma RemainderUnique(x: int, q: int, r: int, m: int)
    requires 0 <= r < m && x == q * m + r
    ensures x % m == r
  {
    var d := x / m - q;
    assert x / m * m == q * m + d * m;
    Multiple(d, m);
  }

  lemma ModShift(x: int, q: int, m: int)
    requires m > 0
    ensures (x - q * m) % m == x % m
  {
    var r := x / m;
    assert x - q * m == (r - q) * m + x % m by {
      assert (r - q) * m == r * m - q * m;
    }
    RemainderUnique(x - q * m, r - q, x % m, m);
  }

  lemma WrapAdds(a: int, b: int)
    ensures Wrap(Wrap(a) + b) == Wrap(a + b)
  {
    var m := 0x1_0000_0000_0000_0000;
    var q := (a - MIN_INT64) / m;
    assert Wrap(a) == a - q * m;
    ModShift(a + b - MIN_INT64, q, m);
  }

  lemma WrapExact(n: int)
    requires MIN_INT64 <= n <= MAX_INT64
    ensures Wrap(n) == n
  {
  }
}
