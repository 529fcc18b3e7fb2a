/** The shift-and-subtract division of gnu-efi/lib/ia32/math.c: 64 steps on a 64-bit dividend and a
    32-bit remainder register. */
module Division {

  const TWO31: nat := 0x8000_0000
  const TWO32: nat := 0x1_0000_0000
  const TWO63: nat := 0x8000_0000_0000_0000
  const TWO64: nat := 0x1_0000_0000_0000_0000

  datatype State = State(dividend: int, rem: int)

  /** One step: shift rem:dividend left by one, each register losing what does not fit; if the remainder
      register then holds at least the divisor, subtract it and set the dividend's low bit. */
  function Step(s: State, divisor: nat): State {
    var bit := if s.dividend >= TWO63 then 1 else 0;
    var dividend := if s.dividend >= TWO63 then 2 * s.dividend - TWO64 else 2 * s.dividend;
    var rem := (2 * s.rem + bit) % TWO32;
    if rem >= divisor then State(dividend + 1, rem - divisor) else State(dividend, rem)
  }

  function Steps(s: State, divisor: nat, n: nat): State
    decreases n
  {
    if n == 0 then s else Steps(Step(s, divisor), divisor, n - 1)
  }

  /** What the code computes: quotient in the dividend register, remainder beside it. */
  function Divide(dividend: nat, divisor: nat): State {
    Steps(State(dividend, 0), divisor, 64)
  }

  function Pow2(n: nat): nat {
    if n == 0 then 1 else 2 * Pow2(n - 1)
  }

  lemma Pow2Of64()
    ensures Pow2(31) == TWO31 && Pow2(32) == TWO32 && Pow2(63) == TWO63 && Pow2(64) == TWO64
  {
    assert Pow2(8) == 256;
    assert Pow2(16) == 256 * 256;
    assert Pow2(24) == 256 * 256 * 256;
    assert Pow2(31) == TWO31 && Pow2(32) == TWO32;
    assert Pow2(40) == TWO32 * 256;
    assert Pow2(48) == TWO32 * 256 * 256;
    assert Pow2(56) == TWO32 * 256 * 256 * 256;
  }

  // ---------- small facts about products ----------

  lemma MulLe(a: nat, b: nat, c: nat)
    requires a <= b
    ensures a * c <= b * c
  {
  }

  lemma MulAdd(a: nat, b: nat, c: nat)
    ensures (a + b) * c == a * c + b * c
  {
  }

  lemma MulTwice(a: nat, b: nat)
    ensures (2 * a) * b == 2 * (a * b) == a * (2 * b)
  {
  }

  lemma {:induction false} Pow2Adds(m: nat, n: nat)
    ensures Pow2(m + n) == Pow2(m) * Pow2(n)
  {
    if m > 0 {
      Pow2Adds(m - 1, n);
      MulTwice(Pow2(m - 1), Pow2(n));
    }
  }

  // ---------- one step ----------

  /** Between steps: the `n` bits not yet consumed sit at the top of the dividend register, the quotient
      of the bits consumed so far at the bottom, and their remainder in the other register. */
  ghost predicate Invariant(s: State, divisor: nat, n: nat, k: nat, value: nat, low: nat, quotient: nat) {
    && n + k == 64
    && s.dividend == low * Pow2(k) + quotient
    && low < Pow2(n) && quotient < Pow2(k)
    && value == quotient * divisor + s.rem
    && 0 <= s.rem < divisor
  }

  function TopBit(low: nat, n: nat): nat
    requires n > 0
  {
    if low >= Pow2(n - 1) then 1 else 0
  }

  function Taken(rem: int, bit: nat, divisor: nat): nat {
    if 2 * rem + bit >= divisor then 1 else 0
  }

  lemma ShiftCore(low: nat, p: nat, q: nat, quotient: nat, dividend: nat)
    requires p * q == TWO63 && low < 2 * p && quotient < q && dividend == low * q + quotient
    ensures low >= p ==> dividend >= TWO63 && 2 * dividend == (low - p) * (2 * q) + 2 * quotient + TWO64
    ensures low < p ==> dividend < TWO63 && 2 * dividend == low * (2 * q) + 2 * quotient
  {
  }

  /** Shifting the dividend register takes the top bit off what is left. */
  lemma ShiftLow(low: nat, n: nat, k: nat, quotient: nat, dividend: nat)
    requires n > 0 && n + k == 64 && low < Pow2(n) && quotient < Pow2(k) && dividend == low * Pow2(k) + quotient
    ensures var bit := TopBit(low, n);
            && (dividend >= TWO63 <==> bit == 1)
            && bit * Pow2(n - 1) <= low
            && 2 * dividend == (low - bit * Pow2(n - 1)) * Pow2(k + 1) + 2 * quotient + bit * TWO64
  {
    var p, q := Pow2(n - 1), Pow2(k);
    assert Pow2(n) == 2 * p && Pow2(k + 1) == 2 * q;
    hide Pow2;
    Pow2Of64();
    Pow2Adds(n - 1, k);
    assert p * q == TWO63;
    ShiftCore(low, p, q, quotient, dividend);
  }

  lemma SmallRem(rem: int)
    requires 0 <= rem < TWO32
    ensures rem % TWO32 == rem
  {
  }

  lemma StepKeeps(s: State, divisor: nat, n: nat, k: nat, value: nat, low: nat, quotient: nat)
    requires n > 0 && 0 < divisor <= TWO31 && Invariant(s, divisor, n, k, value, low, quotient)
    ensures var bit := TopBit(low, n);
            && bit * Pow2(n - 1) <= low
            && Invariant(Step(s, divisor), divisor, n - 1, k + 1, 2 * value + bit,
                         low - bit * Pow2(n - 1), 2 * quotient + Taken(s.rem, bit, divisor))
  {
    var bit := TopBit(low, n);
    var taken := Taken(s.rem, bit, divisor);
    ShiftLow(low, n, k, quotient, s.dividend);
    assert Pow2(n) == 2 * Pow2(n - 1) && Pow2(k + 1) == 2 * Pow2(k);
    hide Pow2;
    SmallRem(2 * s.rem + bit);
    MulAdd(2 * quotient, taken, divisor);
    MulTwice(quotient, divisor);
  }

  /** Running the remaining steps divides value * 2^n + low. */
  lemma {:induction false} StepsDivide(s: State, divisor: nat, n: nat, k: nat, value: nat, low: nat, quotient: nat)
    requires 0 < divisor <= TWO31 && Invariant(s, divisor, n, k, value, low, quotient)
    ensures var t := Steps(s, divisor, n);
            t.dividend * divisor + t.rem == value * Pow2(n) + low && 0 <= t.rem < divisor && 0 <= t.dividend
    decreases n
  {
    hide Step;
    if n == 0 {
      assert low == 0 && s.dividend == quotient;
    } else {
      var bit := TopBit(low, n);
      StepKeeps(s, divisor, n, k, value, low, quotient);
      StepsDivide(Step(s, divisor), divisor, n - 1, k + 1, 2 * value + bit, low - bit * Pow2(n - 1),
                  2 * quotient + Taken(s.rem, bit, divisor));
      MulAdd(2 * value, bit, Pow2(n - 1));
      MulTwice(value, Pow2(n - 1));
    }
  }

  lemma DivisionUnique(q: nat, d: nat, r: nat, n: nat)
    requires n == q * d + r && r < d
    ensures q == n / d && r == n % d
  {
    var q', r' := n / d, n % d;
    assert n == q' * d + r' && r' < d;
    if q < q' {
      MulLe(q + 1, q', d);
      MulAdd(q, 1, d);
    } else if q' < q {
      MulLe(q' + 1, q, d);
      MulAdd(q', 1, d);
    }
  }

  /** For every dividend and every divisor up to 2^31 the loop agrees with / and %. */
  lemma DivideExact(dividend: nat, divisor: nat)
    requires dividend < TWO64 && 0 < divisor <= TWO31
    ensures Divide(dividend, divisor) == State(dividend / divisor, dividend % divisor)
  {
    hide Steps;
    Pow2Of64();
    StepsDivide(State(dividend, 0), divisor, 64, 0, 0, dividend, 0);
    var t := Divide(dividend, divisor);
    DivisionUnique(t.dividend, divisor, t.rem, dividend);
  }

  // ---------- larger divisors ----------

  /** Steps on a small dividend and an empty remainder register only shift. */
  lemma {:induction false} Shifts(k: nat, n: nat, divisor: nat)
    requires divisor > 0 && k + n <= 63
    ensures Steps(State(Pow2(k), 0), divisor, n) == State(Pow2(k + n), 0)
    decreases n
  {
    if n > 0 {
      ShiftOnce(k, divisor);
      hide Pow2, Step;
      Shifts(k + 1, n - 1, divisor);
    }
  }

  lemma ShiftOnce(k: nat, divisor: nat)
    requires divisor > 0 && k < 63
    ensures Step(State(Pow2(k), 0), divisor) == State(Pow2(k + 1), 0)
  {
    PowBelow(k, 63);
    Pow2Of64();
  }

  lemma {:induction false} PowBelow(k: nat, n: nat)
    requires k < n
    ensures 2 * Pow2(k) <= Pow2(n)
    decreases n
  {
    if k < n - 1 { PowBelow(k, n - 1); }
  }

  /** A lone remainder bit below the divisor is shifted up. */
  lemma {:induction false} Climbs(k: nat, n: nat, divisor: nat)
    requires k + n <= 31 && TWO31 < divisor < TWO32
    ensures Steps(State(0, Pow2(k)), divisor, n) == State(0, Pow2(k + n))
    decreases n
  {
    if n > 0 {
      Pow2Of64();
      PowBelow(k, 31);
      assert Step(State(0, Pow2(k)), divisor) == State(0, Pow2(k + 1));
      Climbs(k + 1, n - 1, divisor);
    }
  }

  lemma {:induction false} StepsAdd(s: State, divisor: nat, m: nat, n: nat)
    ensures Steps(s, divisor, m + n) == Steps(Steps(s, divisor, m), divisor, n)
    decreases m
  {
    if m > 0 { StepsAdd(Step(s, divisor), divisor, m - 1, n); }
  }

  /** Beyond 2^31 the remainder register overflows: 2^32 divided by such a divisor comes out as zero
      with no remainder, because the shifted-out bit is lost. */
  lemma LargeDivisorFails(divisor: nat)
    requires TWO31 < divisor < TWO32
    ensures Divide(TWO32, divisor) == State(0, 0) && TWO32 / divisor == 1
  {
    Pow2Of64();
    var s0, s1, s2 := State(TWO32, 0), State(TWO63, 0), State(0, 1);
    assert Step(s1, divisor) == s2 && Step(State(0, TWO31), divisor) == State(0, 0);
    Shifts(32, 31, divisor);
    Climbs(0, 31, divisor);
    assert Pow2(0) == 1;
    hide Step, Pow2, Steps;
    StepsAdd(s0, divisor, 31, 33);
    StepsAdd(s1, divisor, 1, 32);
    OneStep(s1, divisor);
    StepsAdd(s2, divisor, 31, 1);
    OneStep(State(0, TWO31), divisor);
    DivisionUnique(1, divisor, TWO32 - divisor, TWO32);
  }

  lemma OneStep(s: State, divisor: nat)
    ensures Steps(s, divisor, 1) == Step(s, divisor)
  {
  }

  /** Whether the routine divides every 64-bit number by this divisor. */
  ghost predicate Serves(divisor: nat)
    requires divisor > 0
  {
    forall n: nat :: n < TWO64 ==> Divide(n, divisor) == State(n / divisor, n % divisor)
  }

  /** Exactly which divisors the routine serves: the ones up to 2^31, one more than its comment and its
      assertion allow. */
  lemma ServesIff(divisor: nat)
    requires 0 < divisor < TWO32
    ensures Serves(divisor) <==> divisor <= TWO31
  {
    hide Divide;
    if divisor <= TWO31 {
      forall n: nat | n < TWO64 ensures Divide(n, divisor) == State(n / divisor, n % divisor) {
        DivideExact(n, divisor);
      }
    } else {
      LargeDivisorFails(divisor);
      assert Divide(TWO32, divisor) != State(TWO32 / divisor, TWO32 % divisor);
    }
  }

  lemma DivideIs(dividend: nat, divisor: nat)
    ensures Divide(dividend, divisor) == Steps(State(dividend, 0), divisor, 64)
  {
  }

  lemma NextStep(s: State, divisor: nat, n: nat)
    requires n > 0
    ensures Steps(s, divisor, n) == Steps(Step(s, divisor), divisor, n - 1)
  {
  }

  lemma NoSteps(s: State, divisor: nat)
    ensures Steps(s, divisor, 0) == s
  {
  }

  /** The routine itself. */
  method DivU64x32(dividend0: nat, divisor: nat) returns (dividend: int, remainder: int)
    requires dividend0 < TWO64 && 0 < divisor < TWO31
    ensures dividend == dividend0 / divisor && remainder == dividend0 % divisor
  {
    hide Steps, Divide;
    dividend := dividend0;
    var rem := 0;
    var bit := 0;
    DivideIs(dividend0, divisor);
    while bit < 64
      invariant bit <= 64
      invariant Steps(State(dividend, rem), divisor, 64 - bit) == Divide(dividend0, divisor)
    {
      ghost var before := State(dividend, rem);
      NextStep(before, divisor, 64 - bit);
      var carry := if dividend >= TWO63 then 1 else 0;
      dividend := if carry == 1 then 2 * dividend - TWO64 else 2 * dividend;
      rem := (2 * rem + carry) % TWO32;
      if rem >= divisor {
        dividend := dividend + 1;
        rem := rem - divisor;
      }
      assert State(dividend, rem) == Step(before, divisor);
      bit := bit + 1;
    }
    NoSteps(State(dividend, rem), divisor);
    remainder := rem;
    DivideExact(dividend0, divisor);
  }
}
