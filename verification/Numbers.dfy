/** Printing and parsing of numbers: ValueToHex and ValueToString of gnu-efi/lib/print.c, xtoi and Atoi
    of gnu-efi/lib/str.c. */
module Numbers {
  import opened Text
  import Division

  const WORD: nat := 0x1_0000_0000_0000_0000

  const ZERO: CHAR16 := Ch('0')
  const SPACE: CHAR16 := Ch(' ')
  const MINUS: CHAR16 := Ch('-')
  const COMMA: CHAR16 := Ch(',')

  predicate Base(base: nat) {
    base == 10 || base == 16
  }

  // ---------- digits ----------

  function DigitChar(d: nat): CHAR16
    requires d < 16
  {
    if d < 10 then ZERO + d as CHAR16 else Ch('A') + (d - 10) as CHAR16
  }

  /** The value of a character as a digit, or the base if it is none. Only xtoi knows letters. */
  function DigitValue(base: nat, c: CHAR16): (d: nat)
    requires Base(base)
    ensures d <= base
  {
    if ZERO <= c <= Ch('9') then (c - ZERO) as nat
    else if base == 16 && Ch('A') <= c <= Ch('F') then (c - Ch('A')) as nat + 10
    else if base == 16 && Ch('a') <= c <= Ch('f') then (c - Ch('a')) as nat + 10
    else base
  }

  /** The usual rendering, most significant digit first, "0" for zero. */
  function Digits(base: nat, v: nat): (s: seq<CHAR16>)
    requires Base(base)
    ensures |s| > 0
    ensures forall c :: c in s ==> DigitValue(base, c) < base
  {
    if v < base then [DigitChar(v)] else Digits(base, v / base) + [DigitChar(v % base)]
  }

  // ---------- parsing ----------

  /** Reads digits until one is none; the accumulator is a 64-bit word. */
  function ParseFrom(base: nat, s: seq<CHAR16>, u: nat): nat
    requires Base(base)
    decreases |s|
  {
    if s == [] || DigitValue(base, s[0]) == base then u
    else ParseFrom(base, s[1..], (u * base + DigitValue(base, s[0])) % WORD)
  }

  /** Leading spaces are skipped. */
  function Parse(base: nat, s: seq<CHAR16>): nat
    requires Base(base)
    decreases |s|
  {
    if s != [] && s[0] == SPACE then Parse(base, s[1..]) else ParseFrom(base, s, 0)
  }

  lemma {:induction false} ParseConcat(base: nat, s: seq<CHAR16>, t: seq<CHAR16>, u: nat)
    requires Base(base) && forall c :: c in s ==> DigitValue(base, c) < base
    ensures ParseFrom(base, s + t, u) == ParseFrom(base, t, ParseFrom(base, s, u))
    decreases |s|
  {
    if s == [] {
      assert s + t == t;
    } else {
      assert (s + t)[1..] == s[1..] + t;
      ParseConcat(base, s[1..], t, (u * base + DigitValue(base, s[0])) % WORD);
    }
  }

  lemma Recompose(base: nat, v: nat)
    requires Base(base)
    ensures v / base * base + v % base == v && v % base < base && (v >= base ==> v / base < v)
  {
  }

  lemma {:induction false} ParseDigits(base: nat, v: nat)
    requires Base(base) && v < WORD
    ensures ParseFrom(base, Digits(base, v), 0) == v
  {
    hide Digits, ParseFrom, DigitValue;
    Recompose(base, v);
    DigitsUnfold(base, v);
    ParseOne(base, v % base, v / base);
    if v >= base {
      ParseDigits(base, v / base);
      ParseConcat(base, Digits(base, v / base), [DigitChar(v % base)], 0);
    } else {
      assert v / base == 0 by { SmallQuotient(base, v); }
      assert [] + [DigitChar(v % base)] == [DigitChar(v % base)];
    }
  }

  lemma SmallQuotient(base: nat, v: nat)
    requires Base(base) && v < base
    ensures v / base == 0
  {
  }

  lemma ParseOne(base: nat, d: nat, u: nat)
    requires Base(base) && d < base
    ensures ParseFrom(base, [DigitChar(d)], u) == (u * base + d) % WORD
  {
  }

  lemma DigitsUnfold(base: nat, v: nat)
    requires Base(base)
    ensures Digits(base, v) == (if v < base then [] else Digits(base, v / base)) + [DigitChar(v % base)]
  {
  }

  /** Parsing undoes printing, in both bases. */
  lemma RoundTrip(base: nat, v: nat)
    requires Base(base) && v < WORD
    ensures Parse(base, Digits(base, v)) == v
  {
    ParseDigits(base, v);
    assert Digits(base, v)[0] in Digits(base, v);
  }

  // ---------- commas ----------

  /** A comma before every digit that has a multiple of three digits from it to the end, the first digit
      excepted. */
  function WithCommas(s: seq<CHAR16>, first: bool): seq<CHAR16> {
    if s == [] then [] else Head(|s|, s[0], first) + WithCommas(s[1..], false)
  }

  function Head(length: nat, c: CHAR16, first: bool): seq<CHAR16> {
    if length % 3 == 0 && !first then [COMMA, c] else [c]
  }

  function Without(s: seq<CHAR16>, c: CHAR16): seq<CHAR16> {
    if s == [] then [] else (if s[0] == c then [] else [s[0]]) + Without(s[1..], c)
  }

  lemma {:induction false} WithoutConcat(s: seq<CHAR16>, t: seq<CHAR16>, c: CHAR16)
    ensures Without(s + t, c) == Without(s, c) + Without(t, c)
  {
    if s == [] {
      assert s + t == t;
    } else {
      assert (s + t)[1..] == s[1..] + t;
      WithoutConcat(s[1..], t, c);
    }
  }

  /** Deleting the commas gives the plain rendering back. */
  lemma {:induction false} CommasDelete(s: seq<CHAR16>, first: bool)
    requires COMMA !in s
    ensures Without(WithCommas(s, first), COMMA) == s
  {
    if s != [] {
      CommasDelete(s[1..], false);
      var head := Head(|s|, s[0], first);
      WithoutConcat(head, WithCommas(s[1..], false), COMMA);
      assert s[0] in s;
      assert Without(head, COMMA) == [s[0]];
    }
  }

  /** Grouping by thousands from the right. */
  function Grouped(s: seq<CHAR16>): seq<CHAR16> {
    if |s| <= 3 then s else Grouped(s[..|s| - 3]) + [Ch(',')] + s[|s| - 3..]
  }

  lemma CommasThree(t: seq<CHAR16>)
    requires |t| == 3
    ensures WithCommas(t, false) == [COMMA] + t
  {
    assert t[1..][1..] == t[2..] && t[2..][1..] == [];
    assert WithCommas(t[2..], false) == [t[2]];
    assert WithCommas(t[1..], false) == [t[1]] + [t[2]];
  }

  lemma CommasStep(s: seq<CHAR16>, first: bool)
    requires s != []
    ensures WithCommas(s, first) == Head(|s|, s[0], first) + WithCommas(s[1..], false)
    ensures Head(|s| + 3, s[0], first) == Head(|s|, s[0], first)
  {
  }

  lemma Regroup(a: seq<CHAR16>, b: seq<CHAR16>, t: seq<CHAR16>)
    ensures a + (b + [COMMA] + t) == (a + b) + [COMMA] + t
    ensures [] + [COMMA] + t == [COMMA] + t
  {
  }

  lemma {:induction false} CommasConcat(s: seq<CHAR16>, t: seq<CHAR16>, first: bool)
    requires |t| == 3 && (s == [] ==> !first)
    ensures WithCommas(s + t, first) == WithCommas(s, first) + [COMMA] + t
    decreases |s|
  {
    if s == [] {
      assert s + t == t;
      CommasThree(t);
      Regroup([], [], t);
    } else {
      assert (s + t)[1..] == s[1..] + t;
      CommasConcat(s[1..], t, false);
      CommasMove(s, t, first);
    }
  }

  lemma CommasMove(s: seq<CHAR16>, t: seq<CHAR16>, first: bool)
    requires |t| == 3 && s != [] && (s + t)[1..] == s[1..] + t
    requires WithCommas(s[1..] + t, false) == WithCommas(s[1..], false) + [COMMA] + t
    ensures WithCommas(s + t, first) == WithCommas(s, first) + [COMMA] + t
  {
    hide WithCommas, Head;
    CommasStep(s, first);
    CommasStep(s + t, first);
    Regroup(Head(|s|, s[0], first), WithCommas(s[1..], false), t);
  }

  /** The commas are where thousands are grouped. */
  lemma {:induction false} CommasGroup(s: seq<CHAR16>)
    ensures WithCommas(s, true) == Grouped(s)
    decreases |s|
  {
    if |s| <= 3 {
      if |s| > 0 {
        assert |s| > 1 ==> s[1..][1..] == s[2..];
        assert |s| > 2 ==> s[2..][1..] == [];
        assert |s| > 2 ==> WithCommas(s[2..], false) == [s[2]];
        assert |s| > 1 ==> WithCommas(s[1..], false) == s[1..];
      }
    } else {
      var n := |s| - 3;
      assert s == s[..n] + s[n..];
      CommasConcat(s[..n], s[n..], true);
      CommasGroup(s[..n]);
    }
  }

  // ---------- the code ----------

  /** The digits in the order in which they are produced. */
  function Reversed(s: seq<CHAR16>): (r: seq<CHAR16>)
    ensures |r| == |s|
  {
    if s == [] then [] else Reversed(s[1..]) + [s[0]]
  }

  lemma {:induction false} ReversedSnoc(s: seq<CHAR16>, c: CHAR16)
    ensures Reversed(s + [c]) == [c] + Reversed(s)
  {
    if s == [] {
      assert [c][1..] == [];
    } else {
      assert (s + [c])[1..] == s[1..] + [c];
      ReversedSnoc(s[1..], c);
    }
  }

  lemma {:induction false} DigitsShort(base: nat, v: nat, n: nat)
    requires Base(base) && n > 0 && v < Power(base, n)
    ensures |Digits(base, v)| <= n
    decreases n
  {
    if v >= base {
      DigitsShort(base, v / base, n - 1);
    }
  }

  function Power(base: nat, n: nat): nat {
    if n == 0 then 1 else base * Power(base, n - 1)
  }

  lemma WordPowers()
    ensures WORD <= Power(16, 16) && WORD <= Power(10, 20)
  {
    assert Power(16, 4) == 0x1_0000;
    assert Power(16, 8) == 0x1_0000_0000;
    assert Power(16, 12) == 0x1_0000_0000_0000;
    assert Power(10, 5) == 100000;
    assert Power(10, 10) == 10000000000;
    assert Power(10, 15) == 1000000000000000;
  }

  lemma {:induction false} ReversedTake(s: seq<CHAR16>, n: nat)
    requires 0 < n <= |s|
    ensures Reversed(s[..n]) == [s[n - 1]] + Reversed(s[..n - 1])
  {
    assert s[..n] == s[..n - 1] + [s[n - 1]];
    ReversedSnoc(s[..n - 1], s[n - 1]);
  }

  /** What is still to be produced of the digits of a number that has been divided down to `v`. */
  function Left(base: nat, v: nat): seq<CHAR16>
    requires Base(base)
  {
    if v == 0 then [] else Digits(base, v)
  }

  lemma LeftStep(base: nat, v: nat, done: seq<CHAR16>, all: seq<CHAR16>)
    requires Base(base) && v > 0 && all == Left(base, v) + done
    ensures all == Left(base, v / base) + ([DigitChar(v % base)] + done)
    ensures |Left(base, v / base)| < |Left(base, v)|
  {
  }

  /** `s` followed by NUL stands at the start of the buffer. */
  predicate Holds(buffer: array<CHAR16>, s: seq<CHAR16>)
    reads buffer
  {
    |s| < buffer.Length && buffer[..|s|] == s && buffer[|s|] == NUL
  }

  /** The first loop of ValueToHex: digits from the low end. */
  method HexDigits(str: array<CHAR16>, v0: nat) returns (p1: nat)
    requires v0 < WORD && str.Length >= 16
    modifies str
    ensures p1 <= 16 && p1 <= str.Length && Reversed(str[..p1]) == Left(16, v0)
  {
    hide Digits, Left, DigitValue;
    var v: nat := v0;
    p1 := 0;
    LeftLength(16, v0, 16);
    assert Reversed(str[..0]) == [];
    while v != 0
      invariant p1 + |Left(16, v)| == |Left(16, v0)| <= 16
      invariant Left(16, v0) == Left(16, v) + Reversed(str[..p1])
      decreases v
    {
      LeftStep(16, v, Reversed(str[..p1]), Left(16, v0));
      ghost var done := str[..p1];
      str[p1] := DigitChar(v % 16);
      p1 := p1 + 1;
      assert str[..p1] == done + [DigitChar(v % 16)];
      ReversedSnoc(done, DigitChar(v % 16));
      v := v / 16;
    }
    LeftNothing(16);
  }

  /** The first loop of ValueToString, which divides with DivU64x32. */
  method DecimalDigits(str: array<CHAR16>, v0: nat) returns (p1: nat)
    requires v0 < WORD && str.Length >= 20
    modifies str
    ensures p1 <= 20 && p1 <= str.Length && Reversed(str[..p1]) == Left(10, v0)
  {
    hide Digits, Left, DigitValue;
    var v: nat := v0;
    p1 := 0;
    LeftLength(10, v0, 20);
    assert Reversed(str[..0]) == [];
    while v != 0
      invariant v < WORD && p1 + |Left(10, v)| == |Left(10, v0)| <= 20
      invariant Left(10, v0) == Left(10, v) + Reversed(str[..p1])
      decreases v
    {
      LeftStep(10, v, Reversed(str[..p1]), Left(10, v0));
      ghost var done := str[..p1];
      var q, r := Division.DivU64x32(v, 10);
      str[p1] := ZERO + r as CHAR16;
      p1 := p1 + 1;
      assert str[p1 - 1] == DigitChar(v % 10);
      assert str[..p1] == done + [DigitChar(v % 10)];
      ReversedSnoc(done, DigitChar(v % 10));
      v := q;
    }
    LeftNothing(10);
  }

  lemma LeftLength(base: nat, v: nat, n: nat)
    requires Base(base) && v < WORD && n == (if base == 16 then 16 else 20)
    ensures |Left(base, v)| <= n
  {
    WordPowers();
    DigitsShort(base, v, n);
  }

  lemma LeftWhole(base: nat, v: nat)
    requires Base(base) && v > 0
    ensures Left(base, v) == Digits(base, v)
  {
  }

  lemma LeftNothing(base: nat)
    requires Base(base)
    ensures Left(base, 0) == []
  {
  }

  /** ValueToHex writes the hexadecimal digits. */
  method ValueToHex(buffer: array<CHAR16>, v: nat)
    requires v < WORD && buffer.Length > 16
    modifies buffer
    ensures Holds(buffer, Digits(16, v))
  {
    hide Digits, Left, DigitValue;
    if v == 0 {
      buffer[0] := ZERO;
      buffer[1] := NUL;
      ZeroDigits(16);
      return;
    }
    var str := new CHAR16[30];
    var p1 := HexDigits(str, v);
    LeftWhole(16, v);
    CopyBack(buffer, str, p1);
  }

  /** The second loop: the digits the other way round, and a NUL. */
  method CopyBack(buffer: array<CHAR16>, str: array<CHAR16>, n: nat)
    requires n <= str.Length && n < buffer.Length && buffer != str
    modifies buffer
    ensures Holds(buffer, Reversed(str[..n]))
  {
    ghost var whole, done: seq<CHAR16> := str[..n], [];
    var p1: nat, p2: nat := n, 0;
    hide Reversed;
    assert whole[..n] == whole;
    while p1 != 0
      invariant p1 <= n && p2 + p1 == n && str[..n] == whole
      invariant buffer[..p2] == done && done + Reversed(whole[..p1]) == Reversed(whole)
    {
      MoveBack(done, whole, p1);
      p1 := p1 - 1;
      buffer[p2] := str[p1];
      p2 := p2 + 1;
      done := done + [whole[p1]];
    }
    NothingReversed(whole);
    buffer[p2] := NUL;
  }

  lemma MoveBack(done: seq<CHAR16>, s: seq<CHAR16>, n: nat)
    requires 0 < n <= |s|
    ensures (done + [s[n - 1]]) + Reversed(s[..n - 1]) == done + Reversed(s[..n])
  {
    hide Reversed;
    ReversedTake(s, n);
  }

  lemma TakeBack(s: seq<CHAR16>, n: nat)
    requires 0 < n <= |s|
    ensures Reversed(s[..n])[0] == s[n - 1] && Reversed(s[..n])[1..] == Reversed(s[..n - 1])
  {
    ReversedTake(s, n);
  }

  lemma ZeroDigits(base: nat)
    requires Base(base)
    ensures Digits(base, 0) == [ZERO]
  {
  }

  /** What ValueToString writes: a sign, the digits of the magnitude, commas if asked for. */
  function Decimal(v: int, comma: bool): seq<CHAR16>
  {
    var digits := Digits(10, if v < 0 then -v else v);
    (if v < 0 then [MINUS] else []) + if comma then WithCommas(digits, true) else digits
  }

  /** The counter that decides about commas, before a digit is written with `left` digits to go: it
      reaches zero exactly where Head puts one. */
  predicate CounterOk(c: nat, comma: bool, left: nat, first: bool) {
    if comma then c == (if first && left % 3 == 0 then 4 else left % 3 + 1)
    else c > left
  }

  function Output(s: seq<CHAR16>, comma: bool, first: bool): seq<CHAR16> {
    if comma then WithCommas(s, first) else s
  }

  lemma OutputStep(s: seq<CHAR16>, c: nat, comma: bool, first: bool)
    requires s != [] && CounterOk(c, comma, |s|, first)
    ensures c > 0
    ensures Output(s, comma, first) == (if c == 1 then [COMMA, s[0]] else [s[0]]) + Output(s[1..], comma, false)
    ensures CounterOk(if c == 1 then 3 else c - 1, comma, |s| - 1, false)
  {
  }

  /** ValueToString, for every signed 64-bit value. */
  method ValueToString(buffer: array<CHAR16>, comma: bool, v: int)
    requires -0x8000_0000_0000_0000 <= v < 0x8000_0000_0000_0000 && buffer.Length > 41
    modifies buffer
    ensures Holds(buffer, Decimal(v, comma))
  {
    hide Digits, Left, DigitValue, WithCommas, Output, CounterOk;
    if v == 0 {
      buffer[0] := ZERO;
      buffer[1] := NUL;
      ZeroDigits(10);
      OneDigit(comma);
      return;
    }
    var str := new CHAR16[40];
    var p2 := 0;
    var u := v;
    if v < 0 {
      buffer[0] := MINUS;
      p2 := 1;
      u := -v;
    }
    var p1 := DecimalDigits(str, u);
    LeftWhole(10, u);
    WriteGrouped(buffer, p2, str, p1, comma);
    OutputIsDecimal(v, comma);
  }

  /** The second loop of ValueToString, from position `start` of the buffer on. */
  method WriteGrouped(buffer: array<CHAR16>, start: nat, str: array<CHAR16>, n: nat, comma: bool)
    requires n <= 20 && n <= str.Length && start + 2 * n < buffer.Length && buffer != str
    modifies buffer
    ensures Holds(buffer, old(buffer[..start]) + Output(Reversed(str[..n]), comma, true))
  {
    hide WithCommas, Output, CounterOk, Reversed;
    ghost var all, first := buffer[..start] + Output(Reversed(str[..n]), comma, true), true;
    var p1: nat, p2: nat := n, start;
    var c: nat := (if comma then (if n % 3 == 0 then 3 else n % 3) else 999) + 1;
    CounterStart(c, comma, n);
    while p1 != 0
      invariant p1 <= n && p2 + 2 * p1 <= start + 2 * n
      invariant CounterOk(c, comma, p1, first)
      invariant buffer[..p2] + Output(Reversed(str[..p1]), comma, first) == all
    {
      TakeBack(str[..], p1);
      ghost var s := Reversed(str[..p1]);
      OutputStep(s, c, comma, first);
      ghost var out := buffer[..p2];
      c := c - 1;
      if c == 0 {
        buffer[p2] := COMMA;
        p2 := p2 + 1;
        c := 3;
      }
      p1 := p1 - 1;
      buffer[p2] := str[p1];
      p2 := p2 + 1;
      assert buffer[..p2] == out + (if p2 == |out| + 2 then [COMMA, s[0]] else [s[0]]);
      first := false;
    }
    NothingReversed(str[..]);
    OutputNothing(comma, first);
    buffer[p2] := NUL;
    assert buffer[..p2] == all;
  }

  lemma NothingReversed(s: seq<CHAR16>)
    ensures Reversed(s[..0]) == []
  {
  }

  lemma OneDigit(comma: bool)
    ensures WithCommas([ZERO], true) == [ZERO]
  {
  }

  lemma CounterStart(c: nat, comma: bool, n: nat)
    requires n <= 20 && c == (if comma then (if n % 3 == 0 then 3 else n % 3) else 999) + 1
    ensures CounterOk(c, comma, n, true)
  {
  }

  lemma OutputNothing(comma: bool, first: bool)
    ensures Output([], comma, first) == []
  {
  }

  lemma OutputIsDecimal(v: int, comma: bool)
    requires v != 0
    ensures Decimal(v, comma) == (if v < 0 then [MINUS] else []) + Output(Digits(10, if v < 0 then -v else v), comma, true)
  {
  }

  // ---------- the parsers ----------

  /** The leading spaces do not matter. */
  method SkipSpaces(base: nat, str: CString) returns (i: nat)
    requires Base(base)
    ensures i <= |str| && At(str, i) != SPACE
    ensures Parse(base, str) == ParseFrom(base, str[i..], 0)
  {
    i := 0;
    assert str[0..] == str;
    while At(str, i) != NUL && At(str, i) == SPACE
      invariant i <= |str| && Parse(base, str) == Parse(base, str[i..])
      decreases |str| - i
    {
      assert str[i..][1..] == str[i + 1..];
      i := i + 1;
    }
  }

  /** The letter xtoi uses for a digit. */
  function Upper(c: CHAR16): CHAR16 {
    if c >= Ch('a') && c <= Ch('f') then c - (Ch('a') - Ch('A')) else c
  }

  lemma HexDigitValue(c: CHAR16, u: nat)
    requires u < WORD
    ensures var d := Upper(c);
            if (d >= ZERO && d <= Ch('9')) || (d >= Ch('A') && d <= Ch('F')) then
              var n := (d - (if d >= Ch('A') then Ch('A') - 10 else ZERO)) as nat;
              DigitValue(16, c) == n < 16 && u * 16 % WORD + n == (u * 16 + n) % WORD
            else DigitValue(16, c) == 16
  {
  }

  /** xtoi: spaces, then hexadecimal digits in either case. u << 4 has its four low bits clear, so that
      adding a digit is the same as or-ing it in. */
  method xtoi(str: CString) returns (u: nat)
    ensures u == Parse(16, str)
    ensures exists i: nat, j: nat :: Field(16, str, i, j) && u == Value(16, str[i..j]) % 0x1_0000_0000_0000_0000
  {
    FieldRead(16, str);
    hide DigitValue, Upper;
    var i := SkipSpaces(16, str);
    u := 0;
    var c := At(str, i);
    i := i + 1;
    while c != NUL
      invariant 0 < i <= |str| + 1 && c == At(str, i - 1) && u < WORD
      invariant ParseFrom(16, str[i - 1..], u) == Parse(16, str)
      decreases |str| + 1 - i
    {
      assert str[i - 1..][1..] == str[i..];
      HexDigitValue(c, u);
      c := Upper(c);
      if (c >= ZERO && c <= Ch('9')) || (c >= Ch('A') && c <= Ch('F')) {
        u := u * 16 % WORD + (c - (if c >= Ch('A') then Ch('A') - 10 else ZERO)) as nat;
      } else {
        break;
      }
      c := At(str, i);
      i := i + 1;
    }
  }

  /** Atoi: spaces, then decimal digits. */
  method Atoi(str: CString) returns (u: nat)
    ensures u == Parse(10, str)
    ensures exists i: nat, j: nat :: Field(10, str, i, j) && u == Value(10, str[i..j]) % 0x1_0000_0000_0000_0000
  {
    FieldRead(10, str);
    var i := SkipSpaces(10, str);
    u := 0;
    var c := At(str, i);
    i := i + 1;
    while c != NUL
      invariant 0 < i <= |str| + 1 && c == At(str, i - 1)
      invariant ParseFrom(10, str[i - 1..], u) == Parse(10, str)
      decreases |str| + 1 - i
    {
      assert str[i - 1..][1..] == str[i..];
      if c >= ZERO && c <= Ch('9') {
        u := (u * 10 + (c - ZERO) as nat) % WORD;
      } else {
        break;
      }
      c := At(str, i);
      i := i + 1;
    }
  }

  // ---------- what digits say ----------

  /** What a digit in either case is worth. */
  function Worth(c: CHAR16): nat {
    if Ch('0') <= c <= Ch('9') then (c - Ch('0')) as nat
    else if Ch('A') <= c <= Ch('F') then 10 + (c - Ch('A')) as nat
    else if Ch('a') <= c <= Ch('f') then 10 + (c - Ch('a')) as nat
    else 0
  }

  lemma WorthTable(d: nat)
    requires d < 16
    ensures Worth(Ch("0123456789ABCDEF"[d])) == d == Worth(Ch("0123456789abcdef"[d]))
  {
    assert Ch("0123456789ABCDEF"[d]) == if d < 10 then 48 + d as CHAR16 else 55 + d as CHAR16;
    assert Ch("0123456789abcdef"[d]) == if d < 10 then 48 + d as CHAR16 else 87 + d as CHAR16;
  }

  lemma DigitTable(d: nat)
    requires d < 16
    ensures DigitChar(d) == Ch("0123456789ABCDEF"[d])
  {
  }

  /** The characters that are printed, and those that are read, as digits. */
  predicate Printed(base: nat, c: CHAR16) {
    Ch('0') <= c <= Ch('9') || (base == 16 && Ch('A') <= c <= Ch('F'))
  }

  predicate Readable(base: nat, c: CHAR16) {
    Printed(base, c) || (base == 16 && Ch('a') <= c <= Ch('f'))
  }

  lemma ReadableValue(base: nat, c: CHAR16)
    requires Base(base)
    ensures DigitValue(base, c) == if Readable(base, c) then Worth(c) else base
    ensures Readable(base, c) ==> Worth(c) < base
  {
  }

  /** The number that a string of digits stands for. */
  function Value(base: nat, s: seq<CHAR16>): nat {
    if s == [] then 0 else Value(base, s[..|s| - 1]) * base + Worth(s[|s| - 1])
  }

  /** Digits of the printed kind, without a leading zero. */
  predicate Canonical(base: nat, s: seq<CHAR16>) {
    s != [] && (forall c :: c in s ==> Printed(base, c)) && (s[0] == Ch('0') ==> |s| == 1)
  }

  lemma DigitFacts(base: nat, d: nat)
    requires Base(base) && d < base
    ensures Printed(base, DigitChar(d)) && Worth(DigitChar(d)) == d && (DigitChar(d) == Ch('0') <==> d == 0)
  {
  }

  lemma PrintedFacts(base: nat, c: CHAR16)
    requires Base(base) && Printed(base, c)
    ensures Worth(c) < base && DigitChar(Worth(c)) == c && (c == Ch('0') <==> Worth(c) == 0)
  {
  }

  lemma ValueSnoc(base: nat, s: seq<CHAR16>, c: CHAR16)
    ensures Value(base, s + [c]) == Value(base, s) * base + Worth(c)
  {
    assert (s + [c])[..|s|] == s;
  }

  lemma {:induction false} DigitsSay(base: nat, v: nat)
    requires Base(base)
    ensures Canonical(base, Digits(base, v)) && Value(base, Digits(base, v)) == v
    ensures Digits(base, v)[0] == Ch('0') <==> v == 0
    decreases v
  {
    var c := DigitChar(v % base);
    Recompose(base, v);
    DigitsUnfold(base, v);
    DigitFacts(base, v % base);
    hide Digits, Worth, Printed, DigitChar;
    if v < base {
      SmallQuotient(base, v);
      ValueSnoc(base, [], c);
      assert [] + [c] == [c];
      assert v % base == v;
    } else {
      DigitsSay(base, v / base);
      ValueSnoc(base, Digits(base, v / base), c);
      assert v / base != 0;
    }
  }

  lemma {:induction false} CanonicalIsDigits(base: nat, s: seq<CHAR16>)
    requires Base(base) && Canonical(base, s)
    ensures s == Digits(base, Value(base, s))
    decreases |s|
  {
    var front, c := s[..|s| - 1], s[|s| - 1];
    assert s == front + [c];
    PrintedFacts(base, c);
    var v := Value(base, front);
    Recomposed(base, v, Worth(c));
    DigitsUnfold(base, v * base + Worth(c));
    hide Digits, Worth, Printed, DigitChar;
    if front != [] {
      assert s[0] == front[0];
      CanonicalIsDigits(base, front);
      DigitsSay(base, v);
      assert v != 0;
    }
  }

  lemma Recomposed(base: nat, v: nat, d: nat)
    requires Base(base) && d < base
    ensures (v * base + d) / base == v && (v * base + d) % base == d && (v * base + d < base <==> v == 0)
  {
  }

  /** The digits of a number are the one string without a leading zero that stands for it, the letters in
      upper case. */
  lemma DigitsIff(base: nat, v: nat, s: seq<CHAR16>)
    requires Base(base)
    ensures s == Digits(base, v) <==> Canonical(base, s) && Value(base, s) == v
  {
    hide Canonical, Value, Digits;
    DigitsSay(base, v);
    if Canonical(base, s) {
      CanonicalIsDigits(base, s);
    }
  }

  /** A signed number has a minus sign exactly if it is negative, and then the digits of its magnitude. */
  lemma DecimalIff(v: int, s: seq<CHAR16>)
    ensures s == Decimal(v, false) <==>
            if v < 0 then s != [] && s[0] == Ch('-') && Canonical(10, s[1..]) && Value(10, s[1..]) == -v
            else Canonical(10, s) && Value(10, s) == v
  {
    hide Canonical, Value, Digits;
    if v < 0 {
      if s != [] {
        DigitsIff(10, -v, s[1..]);
        assert s == [s[0]] + s[1..];
      }
      assert Decimal(v, false)[1..] == Digits(10, -v);
    } else {
      DigitsIff(10, v, s);
      assert [] + Digits(10, v) == Digits(10, v);
    }
  }

  /** What the parsers read: behind the spaces, the digits up to the first character that is none. */
  predicate Field(base: nat, s: seq<CHAR16>, i: nat, j: nat) {
    && i <= j <= |s|
    && (forall k :: 0 <= k < i ==> s[k] == Ch(' ')) && (i < |s| ==> s[i] != Ch(' '))
    && (forall k :: i <= k < j ==> Readable(base, s[k])) && (j < |s| ==> !Readable(base, s[j]))
  }

  lemma {:induction false} ParsePrefix(base: nat, s: seq<CHAR16>, j: nat)
    requires Base(base) && j <= |s| && forall k :: 0 <= k < j ==> Readable(base, s[k])
    ensures ParseFrom(base, s, 0) == ParseFrom(base, s[j..], Value(base, s[..j]) % WORD)
  {
    if j == 0 {
      assert s[0..] == s;
    } else {
      ParsePrefix(base, s, j - 1);
      var t, c := s[j - 1..], s[j - 1];
      assert t[0] == c && t[1..] == s[j..];
      assert s[..j] == s[..j - 1] + [c];
      hide Value, Worth, Readable;
      ValueSnoc(base, s[..j - 1], c);
      ReadableValue(base, c);
      WrapStep(base, Value(base, s[..j - 1]), Worth(c));
    }
  }

  lemma WrapStep(base: nat, v: nat, d: nat)
    requires Base(base)
    ensures (v % WORD * base + d) % WORD == (v * base + d) % WORD
  {
    assert v == v / WORD * WORD + v % WORD;
    var q := v / WORD * base;
    assert v * base + d == q * WORD + (v % WORD * base + d);
    WrapOff(q, v % WORD * base + d);
  }

  lemma WrapOff(q: nat, r: nat)
    ensures (q * WORD + r) % WORD == r % WORD
  {
  }

  lemma {:induction false} ParseSpaces(base: nat, s: seq<CHAR16>, i: nat)
    requires Base(base) && i <= |s|
    requires (forall k :: 0 <= k < i ==> s[k] == Ch(' ')) && (i < |s| ==> s[i] != Ch(' '))
    ensures Parse(base, s) == ParseFrom(base, s[i..], 0)
    decreases i
  {
    if i > 0 {
      ParseSpaces(base, s[1..], i - 1);
      assert s[1..][i - 1..] == s[i..];
    } else {
      assert s[0..] == s;
    }
  }

  /** Parsing gives the number that the digits stand for, as a 64-bit word. */
  lemma ParseMeans(base: nat, s: seq<CHAR16>, i: nat, j: nat)
    requires Base(base) && Field(base, s, i, j)
    ensures Parse(base, s) == Value(base, s[i..j]) % 0x1_0000_0000_0000_0000
  {
    hide Parse, Value, Readable;
    ParseSpaces(base, s, i);
    var t, n := s[i..], j - i;
    assert s[i..j] == t[..n] && t[n..] == s[j..];
    ParsePrefix(base, t, n);
    if j < |s| {
      ReadableValue(base, s[j]);
    }
  }

  /** Every string has such a field. */
  lemma FieldRead(base: nat, s: seq<CHAR16>)
    requires Base(base)
    ensures exists i: nat, j: nat :: Field(base, s, i, j) && Parse(base, s) == Value(base, s[i..j]) % 0x1_0000_0000_0000_0000
  {
    hide Parse, Value, Readable;
    var i: nat := 0;
    while i < |s| && s[i] == Ch(' ')
      invariant i <= |s| && forall k :: 0 <= k < i ==> s[k] == Ch(' ')
    {
      i := i + 1;
    }
    var j := i;
    while j < |s| && Readable(base, s[j])
      invariant i <= j <= |s| && forall k :: i <= k < j ==> Readable(base, s[k])
    {
      j := j + 1;
    }
    ParseMeans(base, s, i, j);
  }

  // ---------- the parsers undo the printers ----------

  /** Atoi reads back what ValueToString prints of a non-negative value; of a negative one it reads 0. */
  lemma AtoiUndoes(v: int)
    requires -0x8000_0000_0000_0000 <= v < 0x8000_0000_0000_0000
    ensures Parse(10, Decimal(v, false)) == if v < 0 then 0 else v
  {
    if v < 0 {
      assert Decimal(v, false)[0] == MINUS;
    } else {
      assert Decimal(v, false) == Digits(10, v);
      RoundTrip(10, v);
    }
  }

  /** With commas the digits are grouped in threes from the right, and without the commas it is the
      plain rendering. */
  lemma CommaForm(v: int)
    ensures var digits := Digits(10, if v < 0 then -v else v);
            && Decimal(v, true) == (if v < 0 then [Ch('-')] else []) + Grouped(digits)
            && Without(Decimal(v, true), Ch(',')) == Decimal(v, false)
  {
    var digits := Digits(10, if v < 0 then -v else v);
    var sign := if v < 0 then [MINUS] else [];
    assert COMMA !in digits;
    CommasGroup(digits);
    CommasDelete(digits, true);
    WithoutConcat(sign, WithCommas(digits, true), COMMA);
    assert Without(sign, COMMA) == sign;
  }
}
