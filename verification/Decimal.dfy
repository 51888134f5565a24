// Integers as decimal text: the ladder that measures the text, and the writer that fills it from
// the back, two digits at a time.
module Decimal {
  const UINT64_MAX: nat := 0xffff_ffff_ffff_ffff
  const INT64_MAX: int := 0x7fff_ffff_ffff_ffff
  const INT64_MIN: int := -0x8000_0000_0000_0000
  const ZERO: nat := 48
  const MINUS: nat := 45

  lemma Characters()
    ensures ZERO == '0' as int && MINUS == '-' as int && ZERO + 9 == '9' as int
  {
  }

  // ---------- digits ----------

  /** The decimal digits of a number, no leading zero. */
  function Digits(v: nat): (d: seq<nat>)
    ensures |d| > 0 && (v > 0 ==> d[0] != ZERO)
    ensures forall i :: 0 <= i < |d| ==> ZERO <= d[i] < ZERO + 10
  {
    if v < 10 then [ZERO + v] else Digits(v / 10) + [ZERO + v % 10]
  }

  /** The number a text of digits stands for. */
  function Evaluate(d: seq<nat>): int {
    if d == [] then 0 else Evaluate(d[..|d| - 1]) * 10 + (d[|d| - 1] - ZERO)
  }

  lemma {:induction false} DigitsEvaluate(v: nat)
    ensures Evaluate(Digits(v)) == v
  {
    var d := Digits(v);
    if v < 10 {
      assert d[..0] == [];
    } else {
      DigitsEvaluate(v / 10);
      assert d[..|d| - 1] == Digits(v / 10);
    }
  }

  function Pow10(n: nat): nat { if n == 0 then 1 else 10 * Pow10(n - 1) }

  lemma {:induction false} DigitCount(v: nat, n: nat)
    requires n > 0 && v < Pow10(n) && (v > 0 ==> Pow10(n - 1) <= v) && (v == 0 ==> n == 1)
    ensures |Digits(v)| == n
  {
    if v >= 10 {
      PowStep(n);
      DigitCount(v / 10, n - 1);
    } else if n >= 2 {
      PowLeast(n - 2);
    }
  }

  lemma PowStep(n: nat)
    requires n > 0
    ensures Pow10(n) == 10 * Pow10(n - 1) && (n > 1 ==> Pow10(n - 1) == 10 * Pow10(n - 2)) && (n == 1 ==> Pow10(n) == 10)
  {
  }

  lemma {:induction false} PowLeast(n: nat)
    ensures Pow10(n) >= 1 && Pow10(n + 1) >= 10
  {
    if n > 0 { PowLeast(n - 1); }
  }

  // ---------- the ladder ----------

  /** `arnm_uint64_to_string_size` */
  function StringSize(value: nat): nat {
    if value < 100000000 then
      if value < 10000 then
        if value < 100 then (if value < 10 then 1 else 2)
        else if value < 1000 then 3 else 4
      else if value < 1000000 then (if value < 100000 then 5 else 6)
      else if value < 10000000 then 7 else 8
    else if value < 1000000000000 then
      if value < 10000000000 then (if value < 1000000000 then 9 else 10)
      else if value < 100000000000 then 11 else 12
    else if value < 10000000000000000 then
      if value < 100000000000000 then (if value < 10000000000000 then 13 else 14)
      else if value < 1000000000000000 then 15 else 16
    else if value < 100000000000000000 then 17
    else if value < 1000000000000000000 then 18
    else if value < 10000000000000000000 then 19 else 20
  }

  lemma Powers()
    ensures Pow10(0) == 1 && Pow10(1) == 10 && Pow10(2) == 100 && Pow10(3) == 1000 && Pow10(4) == 10000
    ensures Pow10(5) == 100000 && Pow10(6) == 1000000 && Pow10(7) == 10000000 && Pow10(8) == 100000000
    ensures Pow10(9) == 1000000000 && Pow10(10) == 10000000000 && Pow10(11) == 100000000000
    ensures Pow10(12) == 1000000000000 && Pow10(13) == 10000000000000 && Pow10(14) == 100000000000000
    ensures Pow10(15) == 1000000000000000 && Pow10(16) == 10000000000000000 && Pow10(17) == 100000000000000000
    ensures Pow10(18) == 1000000000000000000 && Pow10(19) == 10000000000000000000
    ensures Pow10(20) == 100000000000000000000
  {
    assert Pow10(4) == 10000;
    assert Pow10(8) == 100000000;
    assert Pow10(12) == 1000000000000;
    assert Pow10(16) == 10000000000000000;
    assert Pow10(20) == 100000000000000000000;
  }

  /** The ladder measures the text of every 64 bit number. */
  lemma LadderMeasures(value: nat)
    requires value <= UINT64_MAX
    ensures StringSize(value) == |Digits(value)| <= 20
  {
    Powers();
    DigitCount(value, StringSize(value));
  }

  // ---------- the writer ----------

  /** `DIGIT_TABLE`: the two digits of 0 to 99, one after the other. */
  function TableDigit(i: nat): nat
    requires i < 200
  {
    ZERO + if i % 2 == 0 then i / 2 / 10 else i / 2 % 10
  }

  lemma TwoDigits(v: nat)
    ensures v >= 100 ==> Digits(v) == Digits(v / 100) + [TableDigit(v % 100 * 2), TableDigit(v % 100 * 2 + 1)]
    ensures 10 <= v < 100 ==> Digits(v) == [TableDigit(v * 2), TableDigit(v * 2 + 1)]
  {
    if v >= 100 {
      assert v / 10 / 10 == v / 100 && v / 10 % 10 == v % 100 / 10 && v % 100 % 10 == v % 10;
      assert Digits(v) == Digits(v / 10) + [ZERO + v % 10];
      assert Digits(v / 10) == Digits(v / 100) + [ZERO + v / 10 % 10];
    } else if v >= 10 {
      assert Digits(v / 10) == [ZERO + v / 10];
    }
  }

  /** Two digits put before what is written already. */
  method PutPair(buffer: array<nat>, cursor: nat, end: nat, pair: nat)
    requires 2 <= cursor <= end < buffer.Length && pair < 100
    modifies buffer
    ensures buffer[cursor - 2..end] == [TableDigit(pair * 2), TableDigit(pair * 2 + 1)] + old(buffer[cursor..end])
    ensures forall j :: 0 <= j < cursor - 2 || cursor <= j < buffer.Length ==> buffer[j] == old(buffer[j])
  {
    hide TableDigit;
    buffer[cursor - 1] := TableDigit(pair * 2 + 1);
    buffer[cursor - 2] := TableDigit(pair * 2);
  }

  lemma DigitsFew(v: nat)
    ensures v < 10 <==> |Digits(v)| == 1
    ensures 10 <= v < 100 ==> |Digits(v)| == 2
    ensures v >= 100 ==> |Digits(v)| >= 3
  {
    if v >= 100 { assert |Digits(v)| == |Digits(v / 10)| + 1 && |Digits(v / 10)| == |Digits(v / 10 / 10)| + 1; }
  }

  lemma Associates(a: seq<nat>, b: seq<nat>, c: seq<nat>)
    ensures a + b + c == a + (b + c)
  {
  }

  /**
   * `arnm_uint64_to_string_known_string_size`: the text ends at the size it was given. With the
   * ladder's size it fills exactly that many characters; a size too small is answered with the one
   * that is needed.
   */
  method Write(buffer: array<nat>, from: nat, value: nat, size: nat) returns (answer: nat)
    requires value <= UINT64_MAX && from + size < buffer.Length && (value == 0 ==> from + 1 < buffer.Length)
    modifies buffer
    ensures value > 0 && size >= StringSize(value) ==>
              answer == size && buffer[from + size - StringSize(value)..from + size] == Digits(value) && buffer[from + size] == 0
    ensures value > 0 && size < StringSize(value) ==> answer == StringSize(value)
    ensures value == 0 ==> answer == 1 && (size >= 1 ==> buffer[from..from + 1] == Digits(0) && buffer[from + 1] == 0)
    ensures forall j :: 0 <= j < from ==> buffer[j] == old(buffer[j])
  {
    hide StringSize, TableDigit, Digits;
    LadderMeasures(value);
    if value == 0 {
      ZeroDigits();
      if size < 1 { return 1; }
      buffer[from] := ZERO;
      buffer[from + 1] := 0;
      return 1;
    }
    var temp := value;
    var end := from + size;
    var cursor: nat := end;
    buffer[cursor] := 0;
    assert buffer[end..end] == [] && Digits(value) + [] == Digits(value);
    while temp >= 100
      invariant 0 < temp <= value && from <= cursor <= end && buffer[end] == 0
      invariant Digits(temp) + buffer[cursor..end] == Digits(value)
      invariant |Digits(temp)| + (end - cursor) == |Digits(value)|
      invariant forall j :: 0 <= j < from ==> buffer[j] == old(buffer[j])
    {
      TwoDigits(temp);
      DigitsFew(temp);
      if cursor < from + 2 { return StringSize(value); }
      var q := temp / 100;
      var r := temp - q * 100;
      Associates(Digits(q), [TableDigit(r * 2), TableDigit(r * 2 + 1)], buffer[cursor..end]);
      PutPair(buffer, cursor, end, r);
      cursor := cursor - 2;
      temp := q;
    }
    DigitsFew(temp);
    if cursor < from + (if temp < 10 then 1 else 2) { return StringSize(value); }
    PutLast(buffer, cursor, end, temp);
    answer := size;
  }

  /** The one or two digits that are left, before what is written. */
  method PutLast(buffer: array<nat>, cursor: nat, end: nat, temp: nat)
    requires 0 < temp < 100 && (if temp < 10 then 1 else 2) <= cursor <= end < buffer.Length
    modifies buffer
    ensures |Digits(temp)| <= cursor && buffer[cursor - |Digits(temp)|..end] == Digits(temp) + old(buffer[cursor..end])
    ensures forall j :: 0 <= j < cursor - |Digits(temp)| || cursor <= j < buffer.Length ==> buffer[j] == old(buffer[j])
  {
    TwoDigits(temp);
    hide TableDigit;
    if temp < 10 {
      OneDigit(temp);
      buffer[cursor - 1] := ZERO + temp;
    } else {
      PutPair(buffer, cursor, end, temp);
    }
  }

  lemma ZeroDigits()
    ensures Digits(0) == [ZERO]
  {
  }

  lemma OneDigit(v: nat)
    requires v < 10
    ensures Digits(v) == [ZERO + v]
  {
  }

  // ---------- signed ----------

  /** A signed value as the 64 bits it is converted to. */
  function ToUnsigned(v: int): nat
    requires INT64_MIN <= v <= INT64_MAX
  {
    if v < 0 then v + UINT64_MAX + 1 else v
  }

  /** `int64_to_abs_u64`: negated after the conversion, where the subtraction wraps. */
  function Magnitude(v: int): (m: nat)
    requires INT64_MIN <= v <= INT64_MAX
    ensures m == if v < 0 then -v else v
  {
    if v < 0 then (0 - ToUnsigned(v)) % (UINT64_MAX + 1) else ToUnsigned(v)
  }

  /** The text of a signed number, and the number a signed text stands for. */
  function SignedDigits(v: int): seq<nat> { if v < 0 then [MINUS] + Digits(-v) else Digits(v) }

  function SignedEvaluate(d: seq<nat>): int { if d != [] && d[0] == MINUS then -Evaluate(d[1..]) else Evaluate(d) }

  lemma SignedDigitsEvaluate(v: int)
    ensures SignedEvaluate(SignedDigits(v)) == v
  {
    if v < 0 {
      DigitsEvaluate(-v);
      assert SignedDigits(v)[1..] == Digits(-v);
    } else {
      DigitsEvaluate(v);
      assert Digits(v)[0] >= ZERO;
    }
  }

  /** `arnm_int64_to_string_size` */
  function SignedStringSize(v: int): nat
    requires INT64_MIN <= v <= INT64_MAX
  {
    StringSize(Magnitude(v)) + if v < 0 then 1 else 0
  }

  /** `arnm_int64_to_string`: the text of every signed number, INT64_MIN among them, if the buffer takes it. */
  method WriteSigned(buffer: array<nat>, value: int) returns (answer: nat)
    requires INT64_MIN <= value <= INT64_MAX
    modifies buffer
    ensures answer == |SignedDigits(value)|
    ensures buffer.Length > answer ==> buffer[..answer] == SignedDigits(value) && buffer[answer] == 0
    ensures 0 < buffer.Length <= answer ==> buffer[0] == 0
  {
    hide StringSize;
    var required := SignedStringSize(value);
    LadderMeasures(Magnitude(value));
    if buffer.Length < required + 1 {
      if buffer.Length > 0 { buffer[0] := 0; }
      return required;
    }
    if value >= 0 {
      answer := Write(buffer, 0, value, required);
      assert buffer[0..required] == buffer[..required];
    } else {
      buffer[0] := MINUS;
      var written := Write(buffer, 1, Magnitude(value), required - 1);
      answer := written + 1;
      assert buffer[..answer] == [buffer[0]] + buffer[1..answer];
    }
  }

  /** `arnm_uint64_to_string` */
  method WriteUnsigned(buffer: array<nat>, value: nat) returns (answer: nat)
    requires value <= UINT64_MAX
    modifies buffer
    ensures answer == |Digits(value)|
    ensures buffer.Length > answer ==> buffer[..answer] == Digits(value) && buffer[answer] == 0
    ensures 0 < buffer.Length <= answer ==> buffer[0] == 0
  {
    hide StringSize;
    var required := StringSize(value);
    LadderMeasures(value);
    if buffer.Length < required + 1 {
      if buffer.Length > 0 { buffer[0] := 0; }
      return required;
    }
    answer := Write(buffer, 0, value, required);
    assert buffer[0..required] == buffer[..required];
  }
}
