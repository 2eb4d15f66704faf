/** Go's `strconv.Atoi` and `strconv.Itoa` on a 64-bit platform, and the
    `[]byte(s)` conversion (UTF-8 encoding). */
module GoStrconv {
  import opened Faults

  const MinInt64: int := -0x8000_0000_0000_0000
  const MaxInt64: int := 0x7FFF_FFFF_FFFF_FFFF

  /** Values a Go `int` can hold. */
  predicate InInt64(n: int) {
    MinInt64 <= n <= MaxInt64
  }

  type byte = b: int | 0 <= b < 0x100

  predicate IsDigit(c: char) {
    '0' <= c <= '9'
  }

  predicate AllDigits(s: string) {
    forall i :: 0 <= i < |s| ==> IsDigit(s[i])
  }

  function DigitChar(d: nat): (c: char)
    requires d < 10
    ensures IsDigit(c) && c as int - '0' as int == d
  {
    ('0' as int + d) as char
  }

  /** The number a string of decimal digits spells, most significant first. */
  function DigitsValue(ds: string): nat
    requires AllDigits(ds)
    decreases |ds|
  {
    if |ds| == 0 then 0
    else 10 * DigitsValue(ds[..|ds| - 1]) + (ds[|ds| - 1] as int - '0' as int)
  }

  /** The shortest decimal spelling of `n`: no leading zero except for 0 itself. */
  function Digits(n: nat): (ds: string)
    ensures |ds| > 0 && AllDigits(ds)
    ensures |ds| > 1 ==> ds[0] != '0'
    decreases n
  {
    if n < 10 then [DigitChar(n)]
    else
      var hi := Digits(n / 10);
      assert (hi + [DigitChar(n % 10)])[0] == hi[0];
      hi + [DigitChar(n % 10)]
  }

  lemma {:induction false} DigitsValueOfDigits(n: nat)
    ensures DigitsValue(Digits(n)) == n
    decreases n
  {
    if n >= 10 {
      var ds := Digits(n);
      assert ds[..|ds| - 1] == Digits(n / 10);
      DigitsValueOfDigits(n / 10);
    }
  }

  /** A sign and the text after it, as `strconv.Atoi` reads them. */
  function SignAndMagnitude(s: string): (bool, string) {
    if |s| > 0 && (s[0] == '-' || s[0] == '+') then (s[0] == '-', s[1..]) else (false, s)
  }

  /** `strconv.Atoi`: an optional `+` or `-`, then one or more ASCII digits,
      naming a value a 64-bit `int` can hold. No white space, no `_`, no base
      prefix. */
  function Atoi(s: string): (r: Option<int>)
    ensures r.Some? ==> InInt64(r.value) && |s| > 0
  {
    var (negative, magnitude) := SignAndMagnitude(s);
    if |magnitude| == 0 || !AllDigits(magnitude) then None
    else
      var v: int := if negative then -(DigitsValue(magnitude) as int) else DigitsValue(magnitude);
      if InInt64(v) then Some(v) else None
  }

  /** Plain digits are read as the number they spell, when it fits. */
  lemma AtoiDigits(s: string)
    requires |s| > 0 && AllDigits(s)
    ensures Atoi(s) == if DigitsValue(s) <= MaxInt64 then Some(DigitsValue(s)) else None
  {
  }

  /** Text that starts with neither a sign nor a digit is not a number. */
  lemma AtoiRejectsNonDigit(s: string)
    requires |s| > 0 && !IsDigit(s[0]) && s[0] != '-' && s[0] != '+'
    ensures Atoi(s) == None
  {
    assert !AllDigits(s);
  }

  /** A number read from text without a `-` is not negative. */
  lemma AtoiWithoutMinusIsNonNegative(s: string)
    requires '-' !in s
    ensures Atoi(s).Some? ==> Atoi(s).value >= 0
  {
  }

  /** `strconv.Itoa`: decimal, with a leading `-` for negative numbers. */
  function Itoa(n: int): (s: string)
    ensures |s| > 0
    ensures n >= 0 ==> AllDigits(s)
    ensures n < 0 ==> s[0] == '-' && AllDigits(s[1..])
  {
    if n < 0 then
      var ds := Digits(-n);
      assert ("-" + ds)[1..] == ds;
      "-" + ds
    else
      Digits(n)
  }

  /** Reading the text `Itoa` prints gives the number back. */
  lemma AtoiItoa(n: int)
    requires InInt64(n)
    ensures Atoi(Itoa(n)) == Some(n)
  {
    if n < 0 {
      DigitsValueOfDigits(-n);
      assert Itoa(n)[1..] == Digits(-n);
    } else {
      DigitsValueOfDigits(n);
    }
  }

  /** Digits never contain the characters the URL syntax uses as delimiters. */
  lemma DigitsAreNotDelimiters(s: string)
    requires AllDigits(s)
    ensures '-' !in s && '[' !in s && ']' !in s && ' ' !in s && ';' !in s && '_' !in s
  {
  }

  /** Number of bytes UTF-8 uses for `c`. */
  function Utf8Width(c: char): nat {
    if c as int < 0x80 then 1
    else if c as int < 0x800 then 2
    else if c as int < 0x1_0000 then 3
    else 4
  }

  /** UTF-8 encoding of one character. */
  function EncodeChar(c: char): (bs: seq<byte>)
    ensures |bs| == Utf8Width(c)
    ensures c as int < 0x80 ==> bs == [c as int]
  {
    var n := c as int;
    if n < 0x80 then [n]
    else if n < 0x800 then [0xC0 + n / 0x40, 0x80 + n % 0x40]
    else if n < 0x1_0000 then [0xE0 + n / 0x1000, 0x80 + (n / 0x40) % 0x40, 0x80 + n % 0x40]
    else [0xF0 + n / 0x4_0000, 0x80 + (n / 0x1000) % 0x40, 0x80 + (n / 0x40) % 0x40, 0x80 + n % 0x40]
  }

  /** `[]byte(s)`: the UTF-8 encoding of `s`. ASCII text keeps one byte per
      character, with the same values. */
  function Utf8(s: string): (bs: seq<byte>)
    ensures (forall i :: 0 <= i < |s| ==> s[i] as int < 0x80) ==>
      |bs| == |s| && forall i :: 0 <= i < |s| ==> bs[i] == s[i] as int
    decreases |s|
  {
    if |s| == 0 then []
    else EncodeChar(s[0]) + Utf8(s[1..])
  }
}
