/**
  ConOutPrintDecimal: the decimal digits of a 64-bit number, written backwards into a small buffer.
 */
module Decimal {
  import opened Bits

  type u16 = x: nat | x < 0x1_0000
  const CHAR_ZERO := 48
  const BUFFER_LENGTH := 32

  function Power10(n: nat): (p: nat)
    ensures p > 0
  {
    if n == 0 then 1 else 10 * Power10(n - 1)
  }

  predicate IsDigit(c: u16)
  {
    CHAR_ZERO <= c < CHAR_ZERO + 10
  }

  predicate AllDigits(t: seq<u16>)
  {
    forall i :: 0 <= i < |t| ==> IsDigit(t[i])
  }

  // The number that digits denote, the most significant first
  function Parse(t: seq<u16>): nat
    requires AllDigits(t)
  {
    if t == [] then 0 else 10 * Parse(t[..|t| - 1]) + (t[|t| - 1] - CHAR_ZERO)
  }

  // The usual way of writing a number: digits without a leading zero
  predicate Decimal(t: seq<u16>, value: nat)
  {
    && t != [] && AllDigits(t) && Parse(t) == value
    && (t[0] == CHAR_ZERO ==> |t| == 1)
  }

  lemma {:induction false} ParsePrepend(c: u16, t: seq<u16>)
    requires IsDigit(c) && AllDigits(t)
    ensures AllDigits([c] + t) && Parse([c] + t) == (c - CHAR_ZERO) * Power10(|t|) + Parse(t)
  {
    var w := [c] + t;
    assert AllDigits(w);
    if t != [] {
      var n := |t| - 1;
      ParsePrepend(c, t[..n]);
      assert w[..|w| - 1] == [c] + t[..n] && w[|w| - 1] == t[n];
      assert 10 * ((c - CHAR_ZERO) * Power10(n)) == (c - CHAR_ZERO) * Power10(|t|);
    } else {
      assert w[..0] == [];
    }
  }

  lemma {:induction false} ParseBound(t: seq<u16>)
    requires AllDigits(t)
    ensures Parse(t) < Power10(|t|)
    ensures t != [] && t[0] != CHAR_ZERO ==> Parse(t) * 10 >= Power10(|t|)
  {
    if t != [] {
      ParseBound(t[..|t| - 1]);
    }
  }

  lemma {:induction false} PowersGrow(m: nat, n: nat)
    requires m < n
    ensures 10 * Power10(m) <= Power10(n)
    decreases n
  {
    if m < n - 1 {
      PowersGrow(m, n - 1);
    }
  }

  lemma {:induction false} SameLengthUnique(s: seq<u16>, t: seq<u16>)
    requires AllDigits(s) && AllDigits(t) && |s| == |t| && Parse(s) == Parse(t)
    ensures s == t
  {
    if s != [] {
      var n := |s| - 1;
      assert IsDigit(s[n]) && IsDigit(t[n]);
      SameLengthUnique(s[..n], t[..n]);
      assert s == s[..n] + [s[n]] && t == t[..n] + [t[n]];
    }
  }

  lemma LongerIsLarger(s: seq<u16>, t: seq<u16>)
    requires AllDigits(s) && AllDigits(t) && |s| < |t| && t[0] != CHAR_ZERO
    ensures Parse(s) < Parse(t)
  {
    ParseBound(s);
    ParseBound(t);
    PowersGrow(|s|, |t|);
  }

  /** A number has one decimal form only, so what is printed is determined by its value. */
  lemma DecimalUnique(s: seq<u16>, t: seq<u16>, value: nat)
    requires Decimal(s, value) && Decimal(t, value)
    ensures s == t
  {
    if |s| < |t| {
      LongerIsLarger(s, t);
    } else if |t| < |s| {
      LongerIsLarger(t, s);
    } else {
      SameLengthUnique(s, t);
    }
  }

  lemma {:induction false} DigitsAreEnough()
    ensures 0x1_0000_0000_0000_0000 <= Power10(20)
  {
    assert Power10(5) == 100000;
    PowersAdd(5, 5);
    PowersAdd(10, 10);
  }

  lemma {:induction false} PowersAdd(m: nat, n: nat)
    ensures Power10(m + n) == Power10(m) * Power10(n)
  {
    if m > 0 {
      PowersAdd(m - 1, n);
      assert 10 * (Power10(m - 1) * Power10(n)) == Power10(m) * Power10(n);
    }
  }

  // The digits written so far, and what is left of the value
  ghost predicate Written(t: seq<u16>, rest: nat, value: nat)
  {
    && AllDigits(t) && rest * Power10(|t|) + Parse(t) == value
    && |t| <= 20 && rest < Power10(20 - |t|)
    && (rest == 0 ==> t == [] || t[0] != CHAR_ZERO)
  }

  lemma MoveDigit(rest: nat, p: nat)
    ensures rest / 10 * (10 * p) + rest % 10 * p == rest * p
  {
    var q, r := rest / 10, rest % 10;
    assert rest == 10 * q + r;
    assert (10 * q + r) * p == 10 * q * p + r * p;
    assert q * (10 * p) == 10 * q * p;
  }

  lemma DigitWritten(t: seq<u16>, rest: nat, value: nat)
    requires Written(t, rest, value) && rest > 0
    ensures |t| < 20 && Written([CHAR_ZERO + rest % 10] + t, rest / 10, value)
  {
    var p, room := Power10(|t|), Power10(20 - |t|);
    assert |t| == 20 ==> room == 1;
    assert |t| < 20 ==> room == 10 * Power10(19 - |t|);
    assert Power10(|t| + 1) == 10 * p;
    MoveDigit(rest, p);
    ParsePrepend(CHAR_ZERO + rest % 10, t);
    hide Power10, Parse, AllDigits;
  }

  lemma ZeroWritten()
    ensures Decimal([CHAR_ZERO], 0)
  {
    assert Parse([CHAR_ZERO][..0]) == 0;
  }

  lemma NothingWritten(value: nat)
    requires 0 < value < Power10(20)
    ensures Written([], value, value)
  {
  }

  lemma AllWritten(t: seq<u16>, value: nat)
    requires Written(t, 0, value) && value > 0
    ensures Decimal(t, value) && |t| <= 20
  {
  }

  // Digits are the characters 0x30 to 0x39, the one for zero alone stands for zero only
  lemma DigitsAre(t: seq<u16>, value: nat)
    requires Decimal(t, value)
    ensures forall i :: 0 <= i < |t| ==> 0x30 <= t[i] <= 0x39
    ensures t == [0x30] <==> value == 0
  {
    ZeroWritten();
    if value == 0 {
      DecimalUnique(t, [CHAR_ZERO], 0);
    }
    assert forall i :: 0 <= i < |t| ==> IsDigit(t[i]);
  }

  /** What is printed for any 64-bit value is its decimal form, and the buffer is never filled: at most 20
      of its 32 places hold digits. */
  method ConOutPrintDecimal(number: u64) returns (text: seq<u16>)
    ensures Decimal(text, number) && |text| <= 20
    ensures forall i :: 0 <= i < |text| ==> 0x30 <= text[i] <= 0x39
    ensures text == [0x30] <==> number == 0
  {
    hide Parse, Power10, AllDigits, Decimal, Written;
    var value := number;
    var buf := new u16[BUFFER_LENGTH];
    var pos := 31;
    buf[pos] := 0;
    if value == 0 {
      pos := pos - 1;
      buf[pos] := CHAR_ZERO;
      assert buf[pos..31] == [CHAR_ZERO];
      ZeroWritten();
    } else {
      DigitsAreEnough();
      NothingWritten(value);
      assert buf[pos..31] == [];
      while value > 0 && pos > 0
        invariant 11 <= pos <= 31 && 0 <= value && buf[31] == 0
        invariant Written(buf[pos..31], value, number)
      {
        ghost var t := buf[pos..31];
        DigitWritten(t, value, number);
        var q := value / 10;
        var r := value - q * 10;
        value := q;
        pos := pos - 1;
        buf[pos] := CHAR_ZERO + r;
        assert buf[pos..31] == [CHAR_ZERO + r] + t;
      }
      AllWritten(buf[pos..31], number);
    }
    text := buf[pos..31];
    DigitsAre(text, number);
  }
}
