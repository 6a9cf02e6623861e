/** Division of polynomials over GF(2) by the generator x^7 + x^3 + 1 of
    section 4.5 of the SD Physical Layer Simplified Specification.

    A polynomial is its sequence of coefficients, highest power first. */
module Polynomial {

  /** The coefficient of x^i. */
  function Coef(p: seq<bool>, i: int): bool {
    0 <= i < |p| && p[|p| - 1 - i]
  }

  function Xor(a: bool, b: bool): bool {
    a != b
  }

  /** A polynomial of degree less than 7. */
  datatype Register = Register(b6: bool, b5: bool, b4: bool, b3: bool, b2: bool, b1: bool, b0: bool)

  const ZERO: Register := Register(false, false, false, false, false, false, false)
  const ONE: Register := Register(false, false, false, false, false, false, true)

  function Low(r: Register, i: int): bool {
    match i
    case 6 => r.b6
    case 5 => r.b5
    case 4 => r.b4
    case 3 => r.b3
    case 2 => r.b2
    case 1 => r.b1
    case 0 => r.b0
    case _ => false
  }

  function Add(r: Register, s: Register): Register {
    Register(Xor(r.b6, s.b6), Xor(r.b5, s.b5), Xor(r.b4, s.b4), Xor(r.b3, s.b3), Xor(r.b2, s.b2), Xor(r.b1, s.b1), Xor(r.b0, s.b0))
  }

  /** Coefficient i of q * (x^7 + x^3 + 1). */
  function Product(q: seq<bool>, i: int): bool {
    Xor(Xor(Coef(q, i - 7), Coef(q, i - 3)), Coef(q, i))
  }

  /** p == q * (x^7 + x^3 + 1) + r */
  ghost predicate Division(p: seq<bool>, q: seq<bool>, r: Register) {
    forall i: int {:trigger Product(q, i)} :: Coef(p, i) == Xor(Product(q, i), Low(r, i))
  }

  ghost predicate Remainder(p: seq<bool>, r: Register) {
    exists q :: Division(p, q, r)
  }

  ghost predicate Divisible(p: seq<bool>) {
    Remainder(p, ZERO)
  }

  // ---- The remainder is unique --------------------------------------------

  lemma {:induction false} QuotientIsUnique(p: seq<bool>, q: seq<bool>, q': seq<bool>, r: Register, r': Register, i: int)
    requires Division(p, q, r) && Division(p, q', r') && 0 <= i
    ensures Coef(q, i) == Coef(q', i)
    decreases |q| + |q'| - i
  {
    if i < |q| + |q'| {
      QuotientIsUnique(p, q, q', r, r', i + 4);
      QuotientIsUnique(p, q, q', r, r', i + 7);
      assert Coef(p, i + 7) == Xor(Product(q, i + 7), Low(r, i + 7)) == Xor(Product(q', i + 7), Low(r', i + 7));
    }
  }

  lemma RemainderIsUnique(p: seq<bool>, r: Register, r': Register)
    requires Remainder(p, r) && Remainder(p, r')
    ensures r == r'
  {
    var q :| Division(p, q, r);
    var q' :| Division(p, q', r');
    forall i | 0 <= i < 7 ensures Low(r, i) == Low(r', i) {
      QuotientIsUnique(p, q, q', r, r', i);
      if 3 <= i { QuotientIsUnique(p, q, q', r, r', i - 3); }
      assert Coef(p, i) == Xor(Product(q, i), Low(r, i)) == Xor(Product(q', i), Low(r', i));
    }
    assert Low(r, 0) == Low(r', 0) && Low(r, 1) == Low(r', 1) && Low(r, 2) == Low(r', 2) && Low(r, 3) == Low(r', 3)
        && Low(r, 4) == Low(r', 4) && Low(r, 5) == Low(r', 5) && Low(r, 6) == Low(r', 6);
  }

  // ---- The remainder is linear --------------------------------------------

  function Sum(p: seq<bool>, p': seq<bool>): (s: seq<bool>)
    requires |p| == |p'|
    ensures |s| == |p| && forall i :: 0 <= i < |s| ==> s[i] == Xor(p[i], p'[i])
  {
    seq(|p|, i requires 0 <= i < |p| => Xor(p[i], p'[i]))
  }

  /** The same polynomial with leading zeros, so that quotients can be added. */
  function Padded(q: seq<bool>, n: nat): seq<bool> {
    seq(n, _ => false) + q
  }

  lemma PaddedProduct(q: seq<bool>, n: nat, i: int)
    ensures Product(Padded(q, n), i) == Product(q, i)
  {
  }

  /** A polynomial of degree less than 7 is its own remainder. */
  lemma OwnRemainder(r: Register)
    ensures Remainder([r.b6, r.b5, r.b4, r.b3, r.b2, r.b1, r.b0], r)
  {
    var p := [r.b6, r.b5, r.b4, r.b3, r.b2, r.b1, r.b0];
    forall i: int ensures Coef(p, i) == Xor(Product([], i), Low(r, i)) {
    }
    assert Division(p, [], r);
  }

  lemma PadRemainder(p: seq<bool>, n: nat, r: Register)
    requires Remainder(p, r)
    ensures Remainder(Padded(p, n), r)
  {
    var q :| Division(p, q, r);
    forall i: int ensures Coef(Padded(p, n), i) == Xor(Product(q, i), Low(r, i)) {
    }
    assert Division(Padded(p, n), q, r);
  }

  lemma RemainderIsLinear(p: seq<bool>, p': seq<bool>, r: Register, r': Register)
    requires |p| == |p'| && Remainder(p, r) && Remainder(p', r')
    ensures Remainder(Sum(p, p'), Add(r, r'))
  {
    hide Product, Low, Add, Sum;
    var q0 :| Division(p, q0, r);
    var q1 :| Division(p', q1, r');
    var q, q' := Padded(q0, |q1|), Padded(q1, |q0|);
    forall i: int ensures Coef(Sum(p, p'), i) == Xor(Product(Sum(q, q'), i), Low(Add(r, r'), i)) {
      PaddedProduct(q0, |q1|, i);
      PaddedProduct(q1, |q0|, i);
      SumProduct(q, q', i);
      SumCoefficient(p, p', i);
      SumLow(r, r', i);
    }
    assert Division(Sum(p, p'), Sum(q, q'), Add(r, r'));
  }

  lemma SumLow(r: Register, r': Register, i: int)
    ensures Low(Add(r, r'), i) == Xor(Low(r, i), Low(r', i))
  {
  }

  lemma SumProduct(q: seq<bool>, q': seq<bool>, i: int)
    requires |q| == |q'|
    ensures Product(Sum(q, q'), i) == Xor(Product(q, i), Product(q', i))
  {
    SumCoefficient(q, q', i);
    SumCoefficient(q, q', i - 3);
    SumCoefficient(q, q', i - 7);
  }

  lemma SumCoefficient(p: seq<bool>, p': seq<bool>, i: int)
    requires |p| == |p'|
    ensures Coef(Sum(p, p'), i) == Xor(Coef(p, i), Coef(p', i))
  {
  }

  // ---- Dividing bit by bit ------------------------------------------------

  /** r * x with its top bit dropped, plus (x^3 + 1) if `feedback`. */
  function Shift(r: Register, feedback: bool): Register {
    Register(r.b5, r.b4, r.b3, Xor(r.b2, feedback), r.b1, r.b0, feedback)
  }

  lemma ShiftCoefficients(r: Register, feedback: bool)
    ensures forall i :: 0 <= i < 7 ==> Low(Shift(r, feedback), i) == Xor(Low(r, i - 1), feedback && (i == 0 || i == 3))
  {
    var s := Shift(r, feedback);
    assert Low(s, 0) == feedback && Low(s, 1) == r.b0 && Low(s, 2) == r.b1 && Low(s, 3) == Xor(r.b2, feedback);
    assert Low(s, 4) == r.b3 && Low(s, 5) == r.b4 && Low(s, 6) == r.b5;
  }

  const SEVEN_ZEROS: seq<bool> := [false, false, false, false, false, false, false]

  /** The check register after the bits of a message, first bit first. */
  function Crc(message: seq<bool>): Register {
    if message == [] then ZERO
    else
      var r := Crc(message[..|message| - 1]);
      Shift(r, Xor(r.b6, message[|message| - 1]))
  }

  /** One more message bit b: p * x + b * x^7. */
  lemma DivisionStep(p: seq<bool>, p': seq<bool>, q: seq<bool>, r: Register, b: bool)
    requires Division(p, q, r)
    requires forall i :: Coef(p', i) == Xor(Coef(p, i - 1), b && i == 7)
    ensures Division(p', q + [Xor(r.b6, b)], Shift(r, Xor(r.b6, b)))
  {
    var feedback := Xor(r.b6, b);
    var q', r' := q + [feedback], Shift(r, feedback);
    ShiftCoefficients(r, feedback);
    forall i: int ensures Coef(p', i) == Xor(Product(q', i), Low(r', i)) {
      assert Coef(q', i) == if i == 0 then feedback else Coef(q, i - 1);
      assert Coef(q', i - 3) == if i == 3 then feedback else Coef(q, i - 4);
      assert Coef(q', i - 7) == if i == 7 then feedback else Coef(q, i - 8);
      assert Coef(p, i - 1) == Xor(Product(q, i - 1), Low(r, i - 1));
    }
  }

  /** The register holds message * x^7 modulo the generator. */
  lemma {:induction false} CrcIsRemainder(message: seq<bool>)
    ensures Remainder(message + SEVEN_ZEROS, Crc(message))
  {
    if message == [] {
      assert Division(message + SEVEN_ZEROS, [], ZERO);
    } else {
      var past, b := message[..|message| - 1], message[|message| - 1];
      CrcIsRemainder(past);
      var q :| Division(past + SEVEN_ZEROS, q, Crc(past));
      assert message == past + [b];
      DivisionStep(past + SEVEN_ZEROS, message + SEVEN_ZEROS, q, Crc(past), b);
    }
  }

  /** Exclusive or of two messages of equal length gives exclusive or of their
      check registers. */
  lemma CrcIsLinear(m: seq<bool>, m': seq<bool>)
    requires |m| == |m'|
    ensures Crc(Sum(m, m')) == Add(Crc(m), Crc(m'))
  {
    CrcIsRemainder(m);
    CrcIsRemainder(m');
    CrcIsRemainder(Sum(m, m'));
    RemainderIsLinear(m + SEVEN_ZEROS, m' + SEVEN_ZEROS, Crc(m), Crc(m'));
    assert Sum(m + SEVEN_ZEROS, m' + SEVEN_ZEROS) == Sum(m, m') + SEVEN_ZEROS;
    RemainderIsUnique(Sum(m, m') + SEVEN_ZEROS, Crc(Sum(m, m')), Add(Crc(m), Crc(m')));
  }

  // ---- What divisible polynomials look like -------------------------------

  /** The quotient has no lower power than the product. */
  lemma {:induction false} LowPowers(p: seq<bool>, q: seq<bool>, b: int, i: int)
    requires Division(p, q, ZERO) && i < b
    requires forall j :: j < b ==> !Coef(p, j)
    ensures !Coef(q, i)
    decreases i
  {
    if 0 <= i {
      LowPowers(p, q, b, i - 3);
      LowPowers(p, q, b, i - 7);
      assert Coef(p, i) == Xor(Product(q, i), Low(ZERO, i));
    }
  }

  lemma {:induction false} TopPower(q: seq<bool>, b: int) returns (d: int)
    requires Coef(q, b)
    ensures b <= d && Coef(q, d) && forall j :: d < j ==> !Coef(q, j)
    decreases |q| - b
  {
    if j :| b < j && Coef(q, j) {
      d := TopPower(q, j);
    } else {
      d := b;
    }
  }

  /** A multiple of the generator that is not zero spans at least 8 bits. */
  lemma MultiplesAreWide(p: seq<bool>, b: int)
    requires Divisible(p) && Coef(p, b) && forall j :: j < b ==> !Coef(p, j)
    ensures exists t :: t >= b + 7 && Coef(p, t)
  {
    var q :| Division(p, q, ZERO);
    LowPowers(p, q, b, b - 3);
    LowPowers(p, q, b, b - 7);
    assert Coef(p, b) == Xor(Product(q, b), Low(ZERO, b));
    var d := TopPower(q, b);
    assert Coef(p, d + 7) == Xor(Product(q, d + 7), Low(ZERO, d + 7));
  }

  /** x^d */
  function Power(d: nat): seq<bool> {
    [true] + seq(d, _ => false)
  }

  lemma PowerCoefficient(d: nat, i: int)
    ensures Coef(Power(d), i) <==> i == d
  {
  }

  function PowerRegister(d: nat): Register {
    if d == 0 then ONE else Shift(PowerRegister(d - 1), PowerRegister(d - 1).b6)
  }

  lemma {:induction false} PowerRemainder(d: nat)
    ensures Remainder(Power(d), PowerRegister(d))
  {
    if d == 0 {
      forall i: int ensures Coef(Power(0), i) == Xor(Product([], i), Low(ONE, i)) {
        PowerCoefficient(0, i);
      }
      assert Division(Power(0), [], ONE);
    } else {
      PowerRemainder(d - 1);
      var q :| Division(Power(d - 1), q, PowerRegister(d - 1));
      forall i: int ensures Coef(Power(d), i) == Coef(Power(d - 1), i - 1) {
        PowerCoefficient(d, i);
        PowerCoefficient(d - 1, i - 1);
      }
      DivisionStep(Power(d - 1), Power(d), q, PowerRegister(d - 1), false);
    }
  }

  /** Shifting from the register with these bits meets 1 after n shifts, and
      not before. */
  predicate FirstOne(b6: bool, b5: bool, b4: bool, b3: bool, b2: bool, b1: bool, b0: bool, n: nat)
    decreases n
  {
    var isOne := !(b6 || b5 || b4 || b3 || b2 || b1 || !b0);
    if n == 0 then isOne
    else !isOne && FirstOne(b5, b4, b3, if b2 then !b6 else b6, b1, b0, b6, n - 1)
  }

  lemma {:induction false} FirstOneMeans(d: nat, n: nat, k: nat)
    requires var r := PowerRegister(d); FirstOne(r.b6, r.b5, r.b4, r.b3, r.b2, r.b1, r.b0, n)
    requires k <= n
    ensures PowerRegister(d + k) == ONE <==> k == n
    decreases n
  {
    if 0 < k {
      FirstOneMeans(d + 1, n - 1, k - 1);
    }
  }

  /** The 126 shifts from x in nine stages of 14, last stage first. */
  predicate Stage(k: nat) {
    match k
    case 1 => FirstOne(true, true, false, false, false, true, true, 14)
    case 2 => FirstOne(true, true, true, true, true, true, true, 28)
    case 3 => FirstOne(false, false, true, true, false, true, false, 42)
    case 4 => FirstOne(false, true, true, true, true, false, true, 56)
    case 5 => FirstOne(false, true, true, false, true, true, true, 70)
    case 6 => FirstOne(true, false, true, false, true, true, false, 84)
    case 7 => FirstOne(true, true, false, false, true, true, false, 98)
    case 8 => FirstOne(false, false, false, true, false, true, true, 112)
    case 9 => FirstOne(false, false, false, false, false, true, false, 126)
    case _ => true
  }

  lemma {:induction false} Stages(k: nat)
    ensures Stage(k)
  {
    if 1 < k <= 9 {
      Stages(k - 1);
    }
    match k {
    case 1 =>
    case 2 =>
    case 3 =>
    case 4 =>
    case 5 =>
    case 6 =>
    case 7 =>
    case 8 =>
    case 9 =>
    case _ =>
    }
  }

  /** x has order 127 modulo the generator: of x, x^2, ... x^127 the last one is
      the first that is 1. */
  lemma OrderIs127(d: nat)
    requires 0 < d <= 127
    ensures PowerRegister(d) == ONE <==> d == 127
  {
    assert PowerRegister(1) == Register(false, false, false, false, false, true, false);
    Stages(9);
    FirstOneMeans(1, 126, d - 1);
  }

  /** A sum of two different powers less than 127 apart is not divisible. */
  lemma TwoPowersAreNotDivisible(p: seq<bool>, a: int, b: int)
    requires 0 <= b < a < b + 127
    requires forall i :: Coef(p, i) <==> i == a || i == b
    ensures !Divisible(p)
  {
    if Divisible(p) {
      var q :| Division(p, q, ZERO);
      var d := a - b;
      // divide by x^b: p == x^b * (x^d + 1)
      var w := if b <= |q| then q[..|q| - b] else [];
      forall i: int ensures Coef(Power(d), i) == Xor(Product(w, i), Low(ONE, i)) {
        PowerCoefficient(d, i);
        QuotientBelow(p, q, w, b, i);
        QuotientBelow(p, q, w, b, i - 3);
        QuotientBelow(p, q, w, b, i - 7);
        assert Coef(p, i + b) == Xor(Product(q, i + b), Low(ZERO, i + b));
      }
      assert Division(Power(d), w, ONE);
      PowerRemainder(d);
      RemainderIsUnique(Power(d), ONE, PowerRegister(d));
      OrderIs127(d);
    }
  }

  lemma QuotientBelow(p: seq<bool>, q: seq<bool>, w: seq<bool>, b: nat, i: int)
    requires Division(p, q, ZERO) && forall j :: j < b ==> !Coef(p, j)
    requires w == if b <= |q| then q[..|q| - b] else []
    ensures Coef(w, i) == Coef(q, i + b)
  {
    if i < 0 {
      LowPowers(p, q, b, i + b);
    }
  }
}
