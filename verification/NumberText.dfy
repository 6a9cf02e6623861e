/** ui2a and i2a of src/lib/libc/stdio/printf.c. */
module NumberText {
  import opened Common
  import opened Modular

  const NUL: char := '\0'

  function DigitChar(d: nat): char
    requires d < 36
  {
    if d < 10 then (d + '0' as int) as char else (d + ('A' as int - 10)) as char
  }

  function DigitValue(c: char): int {
    if c <= '9' then c as int - '0' as int else c as int - ('A' as int - 10)
  }

  /** The usual numeral of a number, most significant digit first. */
  function Digits(n: nat, base: nat): (s: string)
    requires 2 <= base <= 36
    ensures |s| >= 1
  {
    if n < base then [DigitChar(n)]
    else
      Shrinks(n, base);
      Digits(n / base, base) + [DigitChar(n % base)]
  }

  lemma Shrinks(n: nat, base: nat)
    requires 2 <= base <= n
    ensures 0 < n / base < n
  {
    if n / base >= n {
      AtLeastOnce(n, base - 1);
    }
  }

  /** The number that digits stand for, behind `value`. */
  function Fold(value: int, s: string, base: nat): int {
    if s == [] then value else base * Fold(value, s[..|s| - 1], base) + DigitValue(s[|s| - 1])
  }

  function Parse(s: string, base: nat): int {
    Fold(0, s, base)
  }

  function Signed(n: int, base: nat): string
    requires 2 <= base <= 36
  {
    if n < 0 then "-" + Digits(-n, base) else Digits(n, base)
  }

  function ParseSigned(s: string, base: nat): int {
    if s != [] && s[0] == '-' then -Parse(s[1..], base) else Parse(s, base)
  }

  // ---- Round trip ---------------------------------------------------------

  lemma FoldAppend(value: int, s: string, c: char, base: nat)
    ensures Fold(value, s + [c], base) == base * Fold(value, s, base) + DigitValue(c)
  {
    assert (s + [c])[..|s|] == s;
  }

  lemma DigitCharValue(d: nat)
    requires d < 36
    ensures DigitValue(DigitChar(d)) == d
  {
  }

  lemma Parts(n: nat, base: nat)
    requires 1 <= base
    ensures n == base * (n / base) + n % base
    ensures n < base ==> n / base == 0 && n % base == n
  {
    if n < base {
      DivModUnique(n, base, 0, n);
    }
  }

  lemma {:induction false} DigitsRoundTrip(n: nat, base: nat)
    requires 2 <= base <= 36
    ensures Parse(Digits(n, base), base) == n
  {
    var q, low: nat := n / base, n % base;
    assert Fold(0, [], base) == 0;
    hide Fold, DigitValue, DigitChar;
    Parts(n, base);
    DigitCharValue(low);
    if n < base {
      FoldAppend(0, [], DigitChar(n), base);
      assert Digits(n, base) == [] + [DigitChar(n)];
    } else {
      Shrinks(n, base);
      DigitsRoundTrip(q, base);
      FoldAppend(0, Digits(q, base), DigitChar(low), base);
    }
  }

  /** Only zero begins with 0, and no digit is a sign. */
  lemma {:induction false} NoLeadingZero(n: nat, base: nat)
    requires 2 <= base <= 36
    ensures Digits(n, base)[0] == '0' <==> n == 0
    ensures Digits(0, base) == "0"
    ensures forall c :: c in Digits(n, base) ==> '0' <= c <= '9' || (base > 10 && 'A' <= c <= 'Z')
  {
    if n >= base {
      Shrinks(n, base);
      NoLeadingZero(n / base, base);
    }
  }

  lemma SignedRoundTrip(n: int, base: nat)
    requires 2 <= base <= 36
    ensures ParseSigned(Signed(n, base), base) == n
    ensures Signed(n, base)[0] == '-' <==> n < 0
  {
    var m: nat := if n < 0 then -n else n;
    DigitsRoundTrip(m, base);
    NoLeadingZero(m, base);
    if n < 0 {
      assert Signed(n, base)[1..] == Digits(m, base);
    } else {
      assert Digits(m, base)[0] in Digits(m, base);
    }
  }

  // ---- How long the text is -----------------------------------------------

  lemma QuotientBounds(n: nat, base: nat, p: nat)
    requires 1 <= base
    ensures n < base * p <==> n / base < p
  {
    var q := n / base;
    assert n == base * q + n % base;
    if q < p {
      AtLeastOnce(base, p - q);
      assert base * p == base * q + base * (p - q);
    } else {
      assert base * q == base * p + base * (q - p);
      if q > p {
        AtLeastOnce(base, q - p);
      }
    }
  }

  /** A number has at most k + 1 digits exactly when it is below base^(k + 1). */
  lemma {:induction false} DigitCount(n: nat, base: nat, k: nat)
    requires 2 <= base <= 36
    ensures |Digits(n, base)| <= k + 1 <==> n < Power(base, k + 1)
  {
    var p := Power(base, k);
    AtLeastOnce(base, p);
    if n >= base {
      Shrinks(n, base);
      QuotientBounds(n, base, p);
      if k > 0 {
        DigitCount(n / base, base, k - 1);
      }
    }
  }

  /** The longest texts that printf makes of a 32-bit number. */
  lemma TextFits(n: int)
    requires -0x8000_0000 <= n < MOD32
    ensures |Signed(n, 10)| <= (if n < 0 then 11 else 10)
    ensures |Signed(n, 16)| <= (if n < 0 then 9 else 8)
  {
    var m: nat := if n < 0 then -n else n;
    Powers();
    DigitCount(m, 10, 9);
    DigitCount(m, 16, 7);
  }

  lemma Powers()
    ensures Power(10, 9) == 1_000_000_000 && Power(10, 10) == 10_000_000_000
    ensures Power(16, 7) == 0x1000_0000 && Power(16, 8) == MOD32
  {
    assert Power(10, 5) == 100_000;
    assert Power(16, 4) == 0x1_0000;
  }

  /** The bounds are reached. */
  lemma TextFillsBuffer()
    ensures |Signed(-0x8000_0000, 10)| == 11
    ensures |Signed(-0x8000_0000, 16)| == 9
  {
    Powers();
    TextFits(-0x8000_0000);
    DigitCount(0x8000_0000, 10, 8);
    DigitCount(0x8000_0000, 16, 6);
  }

  // ---- The loops, with the arithmetic of C --------------------------------

  const MOD64: int := 0x1_0000_0000_0000_0000

  /** A quotient of unsigned numbers. */
  function Div(a: nat, b: nat): nat
    requires b > 0
  {
    a / b
  }

  /** A value stored in an int. */
  function AsInt(x: int): int {
    if x % MOD32 < 0x8000_0000 then x % MOD32 else x % MOD32 - MOD32
  }

  /** A product of unsigned ints. */
  function Times32(a: int, b: int): (r: nat) {
    a * b % MOD32
  }

  /** A difference of unsigned long longs. */
  function Minus64(a: int, b: int): (r: nat) {
    (a - b) % MOD64
  }

  function CharOf(dgt: int): char {
    ((if dgt < 10 then dgt + '0' as int else dgt + ('A' as int - 10)) % 256) as char
  }

  /** The first loop, from divisor d on. None: it divides by zero (or would go on
      for more turns than are left, which does not happen for even bases). */
  function FirstDivisor(num: nat, d: nat, base: nat, turns: nat): Option<nat>
    decreases turns
  {
    if d == 0 then None
    else if Div(num, d) < base then Some(d)
    else if turns == 0 then None
    else FirstDivisor(num, Times32(d, base), base, turns - 1)
  }

  lemma Divides(a: nat, b: nat)
    requires 1 <= b
    ensures a == b * Div(a, b) + a % b && Div(a, b) * b <= a < Div(a, b) * b + b
    ensures a > 0 && b >= 2 ==> Div(a, b) < a
    ensures a < b ==> Div(a, b) == 0
  {
    assert Div(a, b) * b == b * (a / b);
    if a < b {
      DivModUnique(a, b, 0, a);
    } else if b >= 2 {
      Shrinks(a, b);
    }
  }

  /** What the second loop stores, from divisor d on. */
  function Written(num: nat, d: nat, base: nat, started: bool): string
    requires 2 <= base
    decreases d
  {
    if d == 0 then ""
    else
      Divides(d, base);
      var dgt, left, lower := AsInt(Div(num, d)), Left(num, d), Div(d, base);
      if started || dgt > 0 || lower == 0 then [CharOf(dgt)] + Written(left, lower, base, true)
      else Written(left, lower, base, false)
  }

  function Left(num: nat, d: nat): nat
    requires d > 0
  {
    Minus64(num, Times32(AsInt(Div(num, d)), d))
  }

  datatype Limit = Limit(turns: nat)

  /** 2^32 is reached after 32 doublings. */
  const LIMIT := Limit(32)

  /** What ui2a stores; None: it divides by zero. */
  function UiText(num: nat, base: nat): Option<string>
    requires 2 <= base
  {
    var d := FirstDivisor(num, 1, base, LIMIT.turns);
    if d.None? then None else Some(Written(num, d.value, base, false))
  }

  /** What i2a stores. */
  function IText(num: int, base: nat): Option<string>
    requires 2 <= base
  {
    if num >= 0 then UiText(num, base)
    else
      var text := UiText(-num, base);
      if text.None? then None else Some("-" + text.value)
  }

  /** The text with its end mark is in the buffer, from `at` on. */
  ghost predicate Contains(bf: seq<char>, at: nat, text: string) {
    at + |text| < |bf| && bf[at .. at + |text|] == text && bf[at + |text|] == NUL
  }

  lemma {:induction false} PowerOfProduct(a: nat, b: nat, k: nat)
    ensures Power(a * b, k) == Power(a, k) * Power(b, k)
  {
    if k > 0 {
      PowerOfProduct(a, b, k - 1);
      FourFactors(a, b, Power(a, k - 1), Power(b, k - 1));
    }
  }

  lemma FourFactors(a: nat, b: nat, c: nat, d: nat)
    ensures (a * b) * (c * d) == (a * c) * (b * d)
  {
    assert (a * b) * (c * d) == a * (b * (c * d));
    assert b * (c * d) == c * (b * d);
    assert a * (c * (b * d)) == (a * c) * (b * d);
  }

  /** In an even base the divisor is 0 after 32 turns at the latest; in no base is
      it below 2^32 then. */
  lemma LastTurn(base: nat)
    requires 2 <= base
    ensures base % 2 == 0 ==> Power(base, LIMIT.turns) % MOD32 == 0
    ensures Power(base, LIMIT.turns) >= MOD32
  {
    hide Power;
    PowersOfTwo();
    if base % 2 == 0 {
      PowerOfProduct(2, base / 2, LIMIT.turns);
      RemovesMultiples(0, MOD32, Power(base / 2, LIMIT.turns));
    }
    PowerOfLargerBase(2, base, LIMIT.turns);
  }

  lemma {:induction false} PowerOfLargerBase(a: nat, b: nat, k: nat)
    requires a <= b
    ensures Power(a, k) <= Power(b, k)
  {
    if k > 0 {
      PowerOfLargerBase(a, b, k - 1);
      ProductBound(a, b, Power(a, k - 1), Power(b, k - 1));
    }
  }

  lemma CutTwice(x: int, y: int)
    ensures x % MOD32 * y % MOD32 == x * y % MOD32
  {
    var q := x / MOD32;
    assert x * y == x % MOD32 * y + MOD32 * (q * y) by {
      assert x == MOD32 * q + x % MOD32;
    }
    RemovesMultiples(x % MOD32 * y, MOD32, q * y);
  }

  lemma SmallProduct(a: nat, b: nat)
    requires a * b < MOD32
    ensures Times32(a, b) == a * b
  {
    DivModUnique(a * b, MOD32, 0, a * b);
  }

  /** The first loop. */
  method LeadingPower(num: nat, base: nat) returns (d: nat)
    requires 2 <= base <= 36 && num < MOD64 && (base % 2 == 0 || num < MOD32)
    ensures FirstDivisor(num, 1, base, LIMIT.turns) == if d == 0 then None else Some(d)
    ensures d < MOD32
  {
    hide Power, Times32, Div;
    d := 1;
    ghost var k: nat := 0;
    FirstTurn(num, base);
    while d != 0 && Div(num, d) >= base
      invariant k <= LIMIT.turns && d < MOD32 && Turn(num, base, k, d)
      invariant FirstDivisor(num, 1, base, LIMIT.turns) == FirstDivisor(num, d, base, LIMIT.turns - k)
      decreases LIMIT.turns - k
    {
      NextTurn(num, base, k, d);
      d := Times32(d, base);
      k := k + 1;
    }
  }

  /** The divisor after k turns. */
  ghost predicate Turn(num: nat, base: nat, k: nat, d: nat) {
    d == Power(base, k) % MOD32 && (num < MOD32 ==> d == Power(base, k) && (k == 0 || d <= num))
  }

  lemma FirstTurn(num: nat, base: nat)
    ensures Turn(num, base, 0, 1)
  {
  }

  lemma NextTurn(num: nat, base: nat, k: nat, d: nat)
    requires 2 <= base && Turn(num, base, k, d) && k <= LIMIT.turns && (base % 2 == 0 || num < MOD32)
    requires 0 < d < MOD32 && Div(num, d) >= base
    ensures k < LIMIT.turns && Turn(num, base, k + 1, Times32(d, base))
    ensures Times32(d, base) < MOD32
  {
    assert Power(base, k + 1) == base * Power(base, k);
    hide Power, Div;
    LastTurn(base);
    CutTwice(Power(base, k), base);
    if num < MOD32 {
      Divides(num, d);
      ProductBound(base, Div(num, d), d, d);
      SmallProduct(d, base);
    }
  }

  // ---- For which numbers this is the numeral ------------------------------

  /** The power of the base for the first digit, and the product of both, fit 32
      bits. */
  ghost predicate Fits(n: nat, base: nat)
    requires 2 <= base <= 36
  {
    var p := Power(base, |Digits(n, base)| - 1);
    0 < p < MOD32 && Div(n, p) * p < MOD32
  }

  lemma LeadingDigit(n: nat, base: nat)
    requires 2 <= base <= 36
    ensures var p := Power(base, |Digits(n, base)| - 1);
            0 < p && n < base * p && (|Digits(n, base)| > 1 ==> p <= n)
  {
    var k := |Digits(n, base)| - 1;
    DigitCount(n, base, k);
    if k > 0 {
      DigitCount(n, base, k - 1);
    }
  }

  lemma Fits32(n: nat, base: nat)
    requires 2 <= base <= 36 && n < MOD32
    ensures Fits(n, base)
  {
    hide Div;
    LeadingDigit(n, base);
    Divides(n, Power(base, |Digits(n, base)| - 1));
  }

  /** Of num0, `high` has been written and num is left, which is below base^m. */
  ghost predicate Split(num0: nat, base: nat, m: nat, high: nat, num: nat) {
    num < Power(base, m) && num0 == high * Power(base, m) + num
  }

  /** The number whose digits are those of `high` and one more. */
  function Extended(high: nat, base: nat, digit: nat): nat {
    high * base + digit
  }

  /** What a digit leaves. */
  function Rest(num: nat, d: nat): nat
    requires d > 0
  {
    num % d
  }

  /** The digit for base^m, and what is left after it. */
  lemma NextDigit(num0: nat, base: nat, m: nat, high: nat, num: nat, d: nat)
    requires 2 <= base && Split(num0, base, m + 1, high, num) && d == Power(base, m) > 0
    ensures Div(num, d) < base && Rest(num, d) < d && Rest(num, d) <= num
    ensures Split(num0, base, m, Extended(high, base, Div(num, d)), Rest(num, d))
    ensures high > 0 || d <= num ==> Extended(high, base, Div(num, d)) > 0
    ensures d <= num ==> Div(num, d) > 0
  {
    var digit := Div(num, d);
    QuotientBounds(num, d, base);
    QuotientBounds(num, d, 1);
    Regroup(high, base, d, digit);
    Divides(num, d);
    if high > 0 {
      AtLeastOnce(base, high);
    }
  }

  lemma Regroup(high: nat, base: nat, p: nat, digit: nat)
    ensures high * (base * p) + digit * p == (high * base + digit) * p
    ensures p * base == base * p && p * digit == digit * p
  {
    assert high * (base * p) == (high * base) * p;
  }

  lemma DigitsAppend(high: nat, digit: nat, base: nat)
    requires 2 <= base <= 36 && digit < base
    ensures Digits(Extended(high, base, digit), base) == (if high == 0 then [] else Digits(high, base)) + [DigitChar(digit)]
  {
    if high > 0 {
      AtLeastOnce(base, high);
      DivModUnique(high * base + digit, base, high, digit);
    }
  }

  lemma LowerPower(base: nat, k: nat)
    requires 2 <= base
    ensures Div(Power(base, k), base) == if k == 0 then 0 else Power(base, k - 1)
  {
    if k > 0 {
      DivModUnique(Power(base, k), base, Power(base, k - 1), 0);
    }
  }

  /** The first loop finds the power of the first digit. */
  lemma {:induction false} FindsPower(n: nat, base: nat, k: nat)
    requires 2 <= base <= 36 && Fits(n, base) && k < |Digits(n, base)| && k <= LIMIT.turns
    ensures FirstDivisor(n, Power(base, k), base, LIMIT.turns - k) == Some(Power(base, |Digits(n, base)| - 1))
    decreases |Digits(n, base)| - k
  {
    var top := |Digits(n, base)| - 1;
    var d := Power(base, k);
    QuotientBounds(n, d, base);
    DigitCount(n, base, k);
    if k < top {
      PowersIncrease(base, k + 1, top);
      LastTurn(base);
      if k == LIMIT.turns {
        PowersIncrease(base, k, top);
      }
      assert Times32(d, base) == Power(base, k + 1) by {
        DivModUnique(Power(base, k + 1), MOD32, 0, Power(base, k + 1));
      }
      FindsPower(n, base, k + 1);
    }
  }

  /** While the products fit, the operators of C compute what they say. */
  lemma NothingIsCut(num: nat, d: nat)
    requires 0 < d && num < MOD64 && Div(num, d) < 36 && Div(num, d) * d < MOD32
    ensures AsInt(Div(num, d)) == Div(num, d) && CharOf(Div(num, d)) == DigitChar(Div(num, d))
    ensures Left(num, d) == Rest(num, d)
  {
    hide Div, Times32, Minus64, CharOf, DigitChar;
    var digit := Div(num, d);
    Divides(num, d);
    CharOfDigit(digit);
    SmallProduct(digit, d);
    SmallDifference(num, digit * d);
    RestIs(num, d);
  }

  lemma RestIs(num: nat, d: nat)
    requires 0 < d
    ensures Rest(num, d) == num - Div(num, d) * d
  {
    Divides(num, d);
  }

  lemma CharOfDigit(digit: nat)
    requires digit < 36
    ensures CharOf(digit) == DigitChar(digit)
    ensures digit < 16 ==> CharOf(digit) == "0123456789ABCDEF"[digit]
  {
  }

  lemma SmallDifference(a: nat, b: nat)
    requires b <= a < MOD64
    ensures Minus64(a, b) == a - b
  {
    DivModUnique(a - b, MOD64, 0, a - b);
  }

  /** One digit of the second loop. */
  lemma WritesOne(num0: nat, base: nat, m: nat, high: nat, num: nat, d: nat, started: bool)
    returns (digit: nat, left: nat, high': nat)
    requires 2 <= base <= 36 && Split(num0, base, m + 1, high, num) && num < MOD64
    requires 0 < d == Power(base, m) && Div(num, d) * d < MOD32
    requires started || m == 0 || d <= num
    ensures Split(num0, base, m, high', left) && (high > 0 || d <= num ==> high' > 0)
    ensures digit < base && left < d
    ensures Digits(high', base) == (if high == 0 then [] else Digits(high, base)) + [DigitChar(digit)]
    ensures Written(num, d, base, started)
         == [DigitChar(digit)] + Written(left, if m == 0 then 0 else Power(base, m - 1), base, true)
  {
    hide Split, Div, Rest, Extended, Left, AsInt, CharOf, DigitChar, Digits, Written, Power;
    digit, left, high' := Div(num, d), Rest(num, d), Extended(high, base, Div(num, d));
    NextDigit(num0, base, m, high, num, d);
    NothingIsCut(num, d);
    LowerPower(base, m);
    WrittenTurn(num, d, base, started);
    DigitsAppend(high, digit, base);
  }

  /** The second loop behind the first digit. */
  lemma {:induction false} WritesRest(num0: nat, base: nat, m: nat, high: nat, num: nat)
    requires 2 <= base <= 36 && Split(num0, base, m, high, num) && Power(base, m) < MOD32
    requires high > 0 || m == 0
    ensures Digits(high, base) + Written(num, if m == 0 then 0 else Power(base, m - 1), base, true) == Digits(num0, base)
    decreases m
  {
    SplitBelow(num0, base, m, high, num);
    NothingLeft(num, base, true);
    hide Written, Digits, Div, Split, Power;
    if m > 0 {
      var d := Power(base, m - 1);
      PowersIncrease(base, m - 1, m);
      Divides(num, d);
      var digit, left, high' := WritesOne(num0, base, m - 1, high, num, d, true);
      WritesRest(num0, base, m - 1, high', left);
      OneCharacter(Digits(high, base), DigitChar(digit), Written(left, if m == 1 then 0 else Power(base, m - 2), base, true));
    }
  }

  lemma SplitBelow(num0: nat, base: nat, m: nat, high: nat, num: nat)
    requires Split(num0, base, m, high, num)
    ensures num < Power(base, m) && (m == 0 ==> high == num0)
  {
  }

  lemma OneCharacter(a: string, c: char, b: string)
    ensures a + ([c] + b) == (a + [c]) + b
  {
  }

  /** ui2a stores the numeral. */
  lemma StoresNumeral(n: nat, base: nat)
    requires 2 <= base <= 36 && n < MOD64 && Fits(n, base)
    ensures UiText(n, base) == Some(Digits(n, base))
  {
    var top := |Digits(n, base)| - 1;
    var d := Power(base, top);
    LeadingDigit(n, base);
    assert Split(n, base, top + 1, 0, n);
    assert FirstDivisor(n, 1, base, LIMIT.turns) == Some(d) by {
      FindsPower(n, base, 0);
    }
    hide Written, Digits, Div, FirstDivisor, Split, Power;
    var digit, left, high := WritesOne(n, base, top, 0, n, d, false);
    WritesRest(n, base, top, high, left);
    assert [] + [DigitChar(digit)] == [DigitChar(digit)];
  }

  lemma StoresSigned32(n: int, base: nat)
    requires 2 <= base <= 36 && -MOD32 < n < MOD32
    ensures IText(n, base) == Some(Signed(n, base))
  {
    var m: nat := if n < 0 then -n else n;
    Fits32(m, base);
    StoresNumeral(m, base);
  }

  // ---- Where it fails -----------------------------------------------------

  lemma {:induction false} DivisorBound(num: nat, d: nat, base: nat, turns: nat)
    requires d < MOD32
    ensures var r := FirstDivisor(num, d, base, turns); r.Some? ==> 0 < r.value < MOD32
    decreases turns
  {
    if d != 0 && Div(num, d) >= base && turns > 0 {
      DivisorBound(num, Times32(d, base), base, turns - 1);
    }
  }

  /** At most as many characters are stored as the divisor has digits. */
  lemma {:induction false} WrittenLength(num: nat, d: nat, base: nat, started: bool)
    requires 2 <= base <= 36
    ensures |Written(num, d, base, started)| <= if d == 0 then 0 else |Digits(d, base)|
    decreases d
  {
    if d != 0 {
      WrittenTurn(num, d, base, started);
      Divides(d, base);
      hide Written, Left, AsInt, CharOf;
      WrittenLength(Left(num, d), Div(d, base), base, started || AsInt(Div(num, d)) > 0 || Div(d, base) == 0);
    }
  }

  /** One turn of the second loop. */
  lemma WrittenTurn(num: nat, d: nat, base: nat, started: bool)
    requires 2 <= base && d != 0
    ensures var dgt, lower := AsInt(Div(num, d)), Div(d, base);
            var stores := started || dgt > 0 || lower == 0;
            && Written(num, d, base, started)
               == (if stores then [CharOf(dgt)] else []) + Written(Left(num, d), lower, base, stores)
            && lower < d
  {
    hide Div, AsInt, Left, CharOf;
    Divides(d, base);
  }

  /** So a numeral with more digits than 2^32 - 1 is not stored. */
  lemma TooLong(n: nat, base: nat, k: nat)
    requires 2 <= base <= 36 && MOD32 <= Power(base, k + 1) <= n
    ensures UiText(n, base) != Some(Digits(n, base))
  {
    var d := FirstDivisor(n, 1, base, LIMIT.turns);
    DivisorBound(n, 1, base, LIMIT.turns);
    if d.Some? {
      WrittenLength(n, d.value, base, false);
      DigitCount(d.value, base, k);
      DigitCount(n, base, k);
    }
  }

  /** From 5 * 10^9 on the product of the first digit and 10^9 is cut to 32 bits:
      what is left is too much for one decimal digit. */
  lemma FirstProductIsCut(n: nat)
    requires 5_000_000_000 <= n < 10_000_000_000
    ensures var dgt := n / 1_000_000_000;
      && AsInt(dgt) == dgt && 5 <= dgt <= 9
      && var second := Left(n, 1_000_000_000) / 100_000_000;
      && 42 <= second <= 95 && AsInt(second) == second
      && (n == 5_000_000_000 ==> second == 42)
  {
  }

  lemma SecondCharacter(n: nat, p9: nat, p8: nat, base: nat)
    requires 5_000_000_000 <= n < 10_000_000_000 && p9 == 1_000_000_000 && p8 == 100_000_000 && base == 10
    ensures var text := Written(n, p9, base, false);
            var second := AsInt(Div(Left(n, p9), p8));
            |text| >= 2 && text[1] == CharOf(second) && 42 <= second <= 95 && (n == 5_000_000_000 ==> second == 42)
  {
    FirstProductIsCut(n);
    assert AsInt(Div(n, p9)) == n / 1_000_000_000 && Div(p9, base) == p8 && Div(p8, base) != 0;
    WrittenTurn(n, p9, base, false);
    WrittenTurn(Left(n, p9), p8, base, true);
  }

  lemma TenDigits(n: nat)
    ensures n < 10_000_000_000 ==> |Digits(n, 10)| <= 10
    ensures 1_000_000_000 <= n < 10_000_000_000 ==> |Digits(n, 10)| == 10
    ensures n < 5_000_000_000 ==> Fits(n, 10)
  {
    Powers();
    DigitCount(n, 10, 9);
    DigitCount(n, 10, 8);
    if 1_000_000_000 <= n < 5_000_000_000 {
      assert Div(n, 1_000_000_000) <= 4;
    } else if n < 1_000_000_000 {
      Fits32(n, 10);
    }
  }

  /** The exact range, in the bases that cnprintf passes: ui2a stores the numeral
      of n in base 10 exactly for n below 5 * 10^9, in base 16 exactly for n
      below 2^32. */
  lemma StoresNumeralIff(n: nat)
    requires n < MOD64
    ensures UiText(n, 10) == Some(Digits(n, 10)) <==> n < 5_000_000_000
    ensures UiText(n, 16) == Some(Digits(n, 16)) <==> n < MOD32
  {
    DecimalIff(n);
    Powers();
    if n < MOD32 {
      Fits32(n, 16);
      StoresNumeral(n, 16);
    } else {
      TooLong(n, 16, 7);
    }
  }

  lemma DecimalIff(n: nat)
    requires n < MOD64
    ensures UiText(n, 10) == Some(Digits(n, 10)) <==> n < 5_000_000_000
  {
    Powers();
    TenDigits(n);
    if n < 5_000_000_000 {
      StoresNumeral(n, 10);
    } else if n < 10_000_000_000 {
      WrongDigit(n);
    } else {
      TooLong(n, 10, 9);
    }
  }

  /** The input 5 * 10^9, and all up to 10^10. */
  lemma WrongDigit(n: nat)
    requires 5_000_000_000 <= n < 10_000_000_000
    ensures UiText(n, 10).Some? && |UiText(n, 10).value| >= 2
    ensures UiText(n, 10).value[1] !in Digits(n, 10)
    ensures n == 5_000_000_000 ==> UiText(n, 10).value[1] == 'a'
  {
    hide Written, Digits, AsInt, Left, Div;
    FindsBillion(n);
    var p9, p8 := Power(10, 9), Power(10, 8);
    Powers();
    assert p9 == 10 * p8;
    SecondCharacter(n, p9, p8, 10);
    NoLeadingZero(n, 10);
  }

  lemma FindsBillion(n: nat)
    requires 1_000_000_000 <= n < 10_000_000_000
    ensures FirstDivisor(n, 1, 10, LIMIT.turns) == Some(Power(10, 9))
  {
    FindsBillionFrom(n, 0);
  }

  lemma {:induction false} FindsBillionFrom(n: nat, k: nat)
    requires 1_000_000_000 <= n < 10_000_000_000 && k <= 9
    ensures FirstDivisor(n, Power(10, k), 10, LIMIT.turns - k) == Some(Power(10, 9))
    decreases 9 - k
  {
    var d := Power(10, k);
    Powers();
    QuotientBounds(n, d, 10);
    if k < 9 {
      PowersIncrease(10, k + 1, 9);
      DivModUnique(Power(10, k + 1), MOD32, 0, Power(10, k + 1));
      FindsBillionFrom(n, k + 1);
    }
  }

  /** For 2^32 in base 16 the divisor becomes 0, and the code divides by it. */
  lemma DivisorVanishes()
    ensures UiText(MOD32, 16) == None
  {
    hide FirstDivisor;
    VanishesFrom(0);
    assert Power(16, 0) % MOD32 == 1;
  }

  lemma {:induction false} VanishesFrom(k: nat)
    requires k <= 8
    ensures FirstDivisor(MOD32, Power(16, k) % MOD32, 16, LIMIT.turns - k) == None
    decreases 8 - k
  {
    assert Power(16, k + 1) == 16 * Power(16, k) >= 16;
    hide Power, Div;
    Powers();
    if k < 8 {
      var d := Power(16, k);
      PowersIncrease(16, k, 7);
      PowersIncrease(16, k + 1, 8);
      DivModUnique(d, MOD32, 0, d);
      NotBelow(MOD32, d, 16);
      VanishesFrom(k + 1);
    }
  }

  lemma NotBelow(n: nat, d: nat, base: nat)
    requires 0 < d && d * base <= n
    ensures Div(n, d) >= base
  {
    QuotientBounds(n, d, base);
  }

  // ---- The methods --------------------------------------------------------

  lemma OneMoreStored(bf: seq<char>, bf': seq<char>, at: nat, n: nat, c: char)
    requires at + n < |bf| && bf' == bf[at + n := c]
    ensures bf'[at .. at + n + 1] == bf[at .. at + n] + [c]
  {
    assert bf'[at .. at + n] == bf[at .. at + n];
  }

  /** !ok: the code divides by zero. */
  method Ui2a(num0: nat, base: nat, bf: array<char>, at: nat) returns (ok: bool, end: nat)
    requires 2 <= base <= 36 && num0 < MOD64 && (base % 2 == 0 || num0 < MOD32)
    requires UiText(num0, base).Some? ==> at + |UiText(num0, base).value| < bf.Length
    modifies bf
    ensures ok == UiText(num0, base).Some?
    ensures ok ==> end == at + |UiText(num0, base).value| && Contains(bf[..], at, UiText(num0, base).value)
    ensures ok ==> forall j :: 0 <= j < bf.Length && !(at <= j <= end) ==> bf[j] == old(bf[j])
    ensures !ok ==> bf[..] == old(bf[..])
  {
    hide AsInt, Div, Times32, Minus64, CharOf, FirstDivisor, Written;
    var num: nat, n: nat := num0, 0;
    var d := LeadingPower(num0, base);
    if d == 0 {
      return false, at;
    }
    ghost var text := Written(num0, d, base, false);
    while d != 0
      invariant at + |text| < bf.Length
      invariant at + n <= bf.Length && text == bf[at .. at + n] + Written(num, d, base, n != 0)
      invariant forall j :: 0 <= j < bf.Length && !(at <= j < at + n) ==> bf[j] == old(bf[j])
      decreases d
    {
      WrittenTurn(num, d, base, n != 0);
      var dgt := AsInt(Div(num, d));
      num := Minus64(num, Times32(dgt, d));
      d := Div(d, base);
      if n != 0 || dgt > 0 || d == 0 {
        ghost var before := bf[..];
        bf[at + n] := CharOf(dgt);
        OneMoreStored(before, bf[..], at, n, CharOf(dgt));
        n := n + 1;
      }
    }
    NothingLeft(num, base, n != 0);
    bf[at + n] := NUL;
    ok, end := true, at + n;
  }

  lemma NothingLeft(num: nat, base: nat, started: bool)
    requires 2 <= base
    ensures Written(num, 0, base, started) == ""
  {
  }

  lemma PutsSign(bf: seq<char>, at: nat, text: string)
    requires Contains(bf, at + 1, text) && bf[at] == '-'
    ensures Contains(bf, at, "-" + text)
  {
    assert bf[at .. at + 1 + |text|] == [bf[at]] + bf[at + 1 .. at + 1 + |text|];
  }

  /** The most negative number has no negation in C. */
  method I2a(num: int, base: nat, bf: array<char>, at: nat) returns (ok: bool, end: nat)
    requires 2 <= base <= 36 && -MOD64 < 2 * num < MOD64 && (base % 2 == 0 || -MOD32 < num < MOD32)
    requires IText(num, base).Some? ==> at + |IText(num, base).value| < bf.Length
    requires num < 0 ==> at < bf.Length
    modifies bf
    ensures ok == IText(num, base).Some?
    ensures ok ==> end == at + |IText(num, base).value| && Contains(bf[..], at, IText(num, base).value)
    ensures ok ==> forall j :: 0 <= j < bf.Length && !(at <= j <= end) ==> bf[j] == old(bf[j])
  {
    if num < 0 {
      bf[at] := '-';
      ok, end := Ui2a(-num, base, bf, at + 1);
      if ok {
        PutsSign(bf[..], at, UiText(-num, base).value);
      }
    } else {
      ok, end := Ui2a(num, base, bf, at);
    }
  }
}
