/** The kernel's formatted print: libc/stdio.c. */
module Stdio {
  import opened Common

  const PRINT_BUF_LEN: nat := 12

  type Int32 = x: int | -0x8000_0000 <= x < 0x8000_0000

  /* ---------- What is printed ---------- */

  function Repeat(c: char, n: int): string {
    if n <= 0 then "" else seq(n, _ => c)
  }

  /** A string in a field: pad characters on the left, or on the right with the '-' flag. */
  function Field(s: string, width: int, right: bool, zero: bool): (f: string)
    ensures |f| == Max(width, |s|)
  {
    var fill := Repeat(if zero then '0' else ' ', width - |s|);
    if right then s + fill else fill + s
  }

  /** The character of digit t, with letters from `letbase`. */
  function DigitChar(t: nat, letbase: char): char
    requires t < 16 && (letbase == 'a' || letbase == 'A')
  {
    if t >= 10 then (t - 10 + letbase as int) as char else (t + '0' as int) as char
  }

  /** The digits of u, most significant first; none for zero. */
  function Digits(u: nat, b: nat, letbase: char): string
    requires (b == 10 || b == 16) && (letbase == 'a' || letbase == 'A')
    decreases u
  {
    if u == 0 then "" else Digits(u / b, b, letbase) + [DigitChar(u % b, letbase)]
  }

  /** The magnitude printi works on: -i for a negative signed decimal, the unsigned word otherwise. */
  function Magnitude(i: Int32, b: nat, sg: bool): Word {
    var value: int := i;
    if sg && b == 10 && i < 0 then Wrap32(-value) else Wrap32(value)
  }

  predicate Negative(i: Int32, b: nat, sg: bool) {
    sg && b == 10 && i < 0
  }

  /** What printi prints. A zero-padded negative number in a field has its sign before the zeros. */
  function Number(i: Int32, b: nat, sg: bool, width: nat, right: bool, zero: bool, letbase: char): string
    requires (b == 10 || b == 16) && (letbase == 'a' || letbase == 'A')
  {
    var digits := Digits(Magnitude(i, b, sg), b, letbase);
    if i == 0 then Field("0", width, right, zero)
    else if Negative(i, b, sg) then
      if width != 0 && zero then "-" + Field(digits, width - 1, right, zero)
        else Field("-" + digits, width, right, zero)
    else Field(digits, width, right, zero)
  }

  /* ---------- The printers ---------- */

  /** Where characters go: the cursor of the caller's buffer, or the screen. */
  class Output {
    var text: string

    constructor ()
      ensures text == ""
    {
      text := "";
    }

    method PrintChar(c: char)
      modifies this
      ensures text == old(text) + [c]
    {
      text := text + [c];
    }
  }

  lemma RepeatSteps(c: char, n: nat)
    ensures Repeat(c, n + 1) == Repeat(c, n) + [c]
  {
  }

  /** `for ( ; width > 0; --width)` of prints. */
  method PrintPadding(out: Output, padchar: char, width: int) returns (pc: nat)
    modifies out
    ensures out.text == old(out.text) + Repeat(padchar, width)
    ensures pc == Max(width, 0)
  {
    pc := 0;
    var left := width;
    while left > 0
      invariant pc == Max(width, 0) - Max(left, 0) && left <= width
      invariant out.text == old(out.text) + Repeat(padchar, pc)
    {
      RepeatSteps(padchar, pc);
      out.PrintChar(padchar);
      pc := pc + 1;
      left := left - 1;
    }
  }

  /** `for ( ; *string ; ++string)` of prints. */
  method PrintString(out: Output, s: string) returns (pc: nat)
    modifies out
    ensures out.text == old(out.text) + s && pc == |s|
  {
    pc := 0;
    while pc < |s|
      invariant 0 <= pc <= |s| && out.text == old(out.text) + s[..pc]
    {
      out.PrintChar(s[pc]);
      pc := pc + 1;
    }
    assert s[..pc] == s;
  }

  /** prints: returns the number of characters emitted. */
  method Prints(out: Output, s: string, fieldWidth: int, right: bool, zero: bool) returns (pc: nat)
    modifies out
    ensures out.text == old(out.text) + Field(s, Max(fieldWidth, 0), right, zero)
    ensures pc == |out.text| - |old(out.text)|
  {
    pc := 0;
    var padchar := ' ';
    var width := fieldWidth;
    if width > 0 {
      var len := |s|;
      if len >= width {
        width := 0;
      } else {
        width := width - len;
      }
      if zero {
        padchar := '0';
      }
    }
    ghost var before := out.text;
    ghost var fill := Repeat(padchar, width);
    assert fill == Repeat(if zero then '0' else ' ', Max(fieldWidth, 0) - |s|);
    pc := 0;
    if !right {
      var n := PrintPadding(out, padchar, width);
      pc, width := pc + n, 0;
    }
    var m := PrintString(out, s);
    var n := PrintPadding(out, padchar, width);
    pc := pc + m + n;
    if right {
      assert out.text == before + (s + fill);
    } else {
      assert out.text == before + (fill + s);
    }
  }

  /* ---------- The number buffer ---------- */

  function Power(b: nat, k: nat): nat {
    if k == 0 then 1 else b * Power(b, k - 1)
  }

  lemma {:induction false} DigitsBound(u: nat, b: nat, letbase: char, k: nat)
    requires (b == 10 || b == 16) && (letbase == 'a' || letbase == 'A') && u < Power(b, k)
    ensures |Digits(u, b, letbase)| <= k
    decreases k
  {
    if u > 0 {
      assert u / b < Power(b, k - 1) by {
        assert u < b * Power(b, k - 1);
      }
      DigitsBound(u / b, b, letbase, k - 1);
    }
  }

  /** Ten digits are enough for any 32-bit number in bases 10 and 16. */
  lemma DigitsFit(u: Word, b: nat, letbase: char)
    requires (b == 10 || b == 16) && (letbase == 'a' || letbase == 'A')
    ensures |Digits(u, b, letbase)| <= 10
  {
    TenPowers(b);
    DigitsBound(u, b, letbase, 10);
  }

  lemma TenPowers(b: nat)
    requires b == 10 || b == 16
    ensures Power(b, 10) > 0xFFFF_FFFF
  {
    assert Power(b, 0) == 1;
    assert Power(b, 1) == b && Power(b, 2) == b * b;
    assert Power(b, 3) >= 1000 && Power(b, 4) >= 10000;
    assert Power(b, 5) >= 100000 && Power(b, 6) >= 1000000;
    assert Power(b, 7) >= 10000000 && Power(b, 8) >= 100000000;
    assert Power(b, 9) >= 1000000000;
  }

  lemma DigitsStep(u: nat, b: nat, letbase: char)
    requires (b == 10 || b == 16) && (letbase == 'a' || letbase == 'A')
    ensures u == 0 ==> Digits(u, b, letbase) == ""
    ensures u > 0 ==> u / b < u && Digits(u, b, letbase) == Digits(u / b, b, letbase) + [DigitChar(u % b, letbase)]
  {
  }

  /** The loop of printi: digits written backwards from the end of the buffer, leaving room for a sign. */
  method WriteDigits(buffer: array<char>, value: Word, b: nat, letbase: char) returns (s: nat)
    requires buffer.Length == PRINT_BUF_LEN && (b == 10 || b == 16) && (letbase == 'a' || letbase == 'A')
    modifies buffer
    ensures 1 <= s <= PRINT_BUF_LEN - 1 && buffer[s..PRINT_BUF_LEN - 1] == Digits(value, b, letbase)
  {
    DigitsFit(value, b, letbase);
    DigitsStep(0, b, letbase);
    hide Digits, DigitChar, DigitCode;
    s := PRINT_BUF_LEN - 1;
    var u: nat := value;
    while u > 0
      invariant s <= PRINT_BUF_LEN - 1 && PRINT_BUF_LEN - 1 - s + |Digits(u, b, letbase)| <= 10
      invariant Digits(u, b, letbase) + buffer[s..PRINT_BUF_LEN - 1] == Digits(value, b, letbase)
      decreases u
    {
      ghost var tail := buffer[s..PRINT_BUF_LEN - 1];
      DigitsStep(u, b, letbase);
      var c := DigitCode(u % b, letbase);
      s := s - 1;
      buffer[s] := c;
      assert buffer[s..PRINT_BUF_LEN - 1] == [c] + tail;
      MoveDigit(Digits(u / b, b, letbase), c, tail);
      u := u / b;
    }
  }

  /** `if( t >= 10 ) t += letbase - '0' - 10; ... t + '0'` */
  function DigitCode(t: nat, letbase: char): (c: char)
    requires t < 16 && (letbase == 'a' || letbase == 'A')
    ensures c == DigitChar(t, letbase)
  {
    var shifted := if t >= 10 then t + (letbase as int - '0' as int - 10) else t;
    (shifted + '0' as int) as char
  }

  lemma MoveDigit(digits: string, c: char, tail: string)
    ensures (digits + [c]) + tail == digits + ([c] + tail)
  {
  }

  /** printi. Digits, sign and terminator never overrun the buffer of PRINT_BUF_LEN characters. */
  method Printi(out: Output, i: Int32, b: nat, sg: bool, fieldWidth: nat, right: bool, zero: bool,
                letbase: char) returns (pc: nat)
    requires (b == 10 || b == 16) && (letbase == 'a' || letbase == 'A')
    modifies out
    ensures out.text == old(out.text) + Number(i, b, sg, fieldWidth, right, zero, letbase)
    ensures pc == |out.text| - |old(out.text)|
  {
    hide Digits, Field, DigitChar, Repeat;
    pc := 0;
    var width := fieldWidth;
    if i == 0 {
      pc := Prints(out, "0", width, right, zero);
      return;
    }
    var value: int := i;
    var u: nat := Wrap32(value);
    var neg := false;
    if sg && b == 10 && i < 0 {
      neg := true;
      u := Wrap32(-value);
    }
    ghost var u0: nat := u;
    assert u0 == Magnitude(i, b, sg);
    hide Magnitude, Wrap32;
    var buffer := new char[PRINT_BUF_LEN](_ => '\0');
    var s := WriteDigits(buffer, u, b, letbase);
    ghost var before, digits := out.text, buffer[s..PRINT_BUF_LEN - 1];
    ghost var signed := neg && width != 0 && zero;
    if neg {
      if width != 0 && zero {
        out.PrintChar('-');
        pc := pc + 1;
        width := width - 1;
      } else {
        s := s - 1;
        buffer[s] := '-';
        assert buffer[s..PRINT_BUF_LEN - 1] == "-" + digits;
      }
    }
    assert buffer[s..PRINT_BUF_LEN - 1] == if neg && !signed then "-" + digits else digits;
    var more := Prints(out, buffer[s..PRINT_BUF_LEN - 1], width, right, zero);
    pc := pc + more;
    if signed {
      assert out.text == before + ("-" + Field(digits, width, right, zero));
    }
  }

  /* ---------- Reading a printed number back ---------- */

  /** The value of a digit character in base b. */
  function DigitValue(c: char, b: nat): Option<nat> {
    var v := if '0' <= c <= '9' then c as int - '0' as int
             else if 'a' <= c <= 'f' then 10 + c as int - 'a' as int
             else if 'A' <= c <= 'F' then 10 + c as int - 'A' as int
             else 16;
    if v < b then Some(v) else None
  }

  /** The number at the front of s, continuing from acc and stopping at the first non-digit. */
  function ParseDigits(s: string, b: nat, acc: nat): nat {
    if s == "" || DigitValue(s[0], b) == None then acc
    else ParseDigits(s[1..], b, acc * b + DigitValue(s[0], b).value)
  }

  /** Skip blanks, read an optional sign, read digits. */
  function ParseNumber(s: string, b: nat): int {
    if s == "" then 0
    else if s[0] == ' ' then ParseNumber(s[1..], b)
    else if s[0] == '-' then 0 - ParseDigits(s[1..], b, 0)
    else ParseDigits(s, b, 0)
  }

  /** The value that appending the digits of u to acc makes. */
  function Shift(acc: nat, u: nat, b: nat): nat
    requires b == 10 || b == 16
    decreases u
  {
    if u == 0 then acc else Shift(acc, u / b, b) * b + u % b
  }

  lemma {:induction false} ShiftZero(u: nat, b: nat)
    requires b == 10 || b == 16
    ensures Shift(0, u, b) == u
    decreases u
  {
    if u > 0 {
      ShiftZero(u / b, b);
    }
  }

  lemma DigitCharValue(t: nat, b: nat, letbase: char)
    requires t < b && (b == 10 || b == 16) && (letbase == 'a' || letbase == 'A')
    ensures DigitValue(DigitChar(t, letbase), b) == Some(t)
    ensures DigitChar(t, letbase) != ' ' && DigitChar(t, letbase) != '-' && (DigitChar(t, letbase) == '0' <==> t == 0)
  {
  }

  lemma ParseOne(t: nat, b: nat, letbase: char, acc: nat, rest: string)
    requires t < b && (b == 10 || b == 16) && (letbase == 'a' || letbase == 'A')
    ensures ParseDigits([DigitChar(t, letbase)] + rest, b, acc) == ParseDigits(rest, b, acc * b + t)
  {
    DigitCharValue(t, b, letbase);
    assert ([DigitChar(t, letbase)] + rest)[1..] == rest;
  }

  lemma {:induction false} ParseAfterDigits(u: nat, b: nat, letbase: char, acc: nat, rest: string)
    requires (b == 10 || b == 16) && (letbase == 'a' || letbase == 'A')
    ensures ParseDigits(Digits(u, b, letbase) + rest, b, acc) == ParseDigits(rest, b, Shift(acc, u, b))
    decreases u
  {
    hide ParseDigits, DigitChar;
    if u == 0 {
      assert "" + rest == rest;
    } else {
      var c := DigitChar(u % b, letbase);
      MoveDigit(Digits(u / b, b, letbase), c, rest);
      ParseAfterDigits(u / b, b, letbase, acc, [c] + rest);
      ParseOne(u % b, b, letbase, Shift(acc, u / b, b), rest);
    }
  }

  lemma {:induction false} ParseLeadingZeros(n: nat, b: nat, rest: string)
    requires b == 10 || b == 16
    ensures ParseDigits(Repeat('0', n) + rest, b, 0) == ParseDigits(rest, b, 0)
    decreases n
  {
    if n == 0 {
      assert Repeat('0', 0) + rest == rest;
    } else {
      var s := Repeat('0', n) + rest;
      assert s[0] == '0' && s[1..] == Repeat('0', n - 1) + rest;
      ParseLeadingZeros(n - 1, b, rest);
    }
  }

  lemma {:induction false} ParseLeadingBlanks(n: nat, b: nat, rest: string)
    ensures ParseNumber(Repeat(' ', n) + rest, b) == ParseNumber(rest, b)
    decreases n
  {
    if n == 0 {
      assert Repeat(' ', 0) + rest == rest;
    } else {
      var s := Repeat(' ', n) + rest;
      assert s[0] == ' ' && s[1..] == Repeat(' ', n - 1) + rest;
      ParseLeadingBlanks(n - 1, b, rest);
    }
  }

  /** Blanks after a number end it. */
  lemma ParseBlanks(n: int, b: nat, acc: nat)
    requires b == 10 || b == 16
    ensures ParseDigits(Repeat(' ', n), b, acc) == acc
  {
  }

  /** The digits of a number, anything blank after them, read back as the number. */
  lemma ParseDigitsBack(u: nat, b: nat, letbase: char, n: int)
    requires (b == 10 || b == 16) && (letbase == 'a' || letbase == 'A')
    ensures ParseDigits(Digits(u, b, letbase) + Repeat(' ', n), b, 0) == u
  {
    ParseAfterDigits(u, b, letbase, 0, Repeat(' ', n));
    ParseBlanks(n, b, u);
    ShiftZero(u, b);
  }

  /** A padded field reads back as what it pads: unsigned digits with any padding, a signed number with blanks. */
  lemma FieldReadsBack(s: string, width: nat, right: bool, zero: bool, b: nat, value: int)
    requires b == 10 || b == 16
    requires s != "" && s[0] != ' ' && !(right && zero)
    requires zero ==> s[0] != '-' && ParseDigits(s, b, 0) == value
    requires forall n: int :: ParseNumber(s + Repeat(' ', n), b) == value
    ensures ParseNumber(Field(s, width, right, zero), b) == value
  {
    var n := width - |s|;
    if zero {
      ParseLeadingZeros(Max(n, 0), b, s);
      assert Repeat('0', n) == Repeat('0', Max(n, 0));
      var f := Repeat('0', n) + s;
      assert f == Field(s, width, right, zero);
      assert f[0] == if n > 0 then '0' else s[0];
    } else if right {
      assert Field(s, width, right, zero) == s + Repeat(' ', n);
    } else {
      ParseLeadingBlanks(Max(n, 0), b, s);
      assert Repeat(' ', n) == Repeat(' ', Max(n, 0));
      assert s + Repeat(' ', 0) == s;
    }
  }

  /** First character and value of a digit string. */
  lemma DigitsReadBack(u: nat, b: nat, letbase: char)
    requires (b == 10 || b == 16) && (letbase == 'a' || letbase == 'A') && u > 0
    ensures var s := Digits(u, b, letbase);
            && s != "" && s[0] != ' ' && s[0] != '-' && ParseDigits(s, b, 0) == u
            && (forall n: int :: ParseNumber(s + Repeat(' ', n), b) == u)
            && (forall n: int :: ParseNumber("-" + s + Repeat(' ', n), b) == 0 - u)
  {
    var s := Digits(u, b, letbase);
    FirstDigit(u, b, letbase);
    forall n: int
      ensures ParseNumber(s + Repeat(' ', n), b) == u && ParseNumber("-" + s + Repeat(' ', n), b) == 0 - u
    {
      ParseDigitsBack(u, b, letbase, n);
      assert ("-" + s + Repeat(' ', n))[1..] == s + Repeat(' ', n);
    }
    ParseDigitsBack(u, b, letbase, 0);
    assert s + Repeat(' ', 0) == s;
  }

  lemma {:induction false} FirstDigit(u: nat, b: nat, letbase: char)
    requires (b == 10 || b == 16) && (letbase == 'a' || letbase == 'A') && u > 0
    ensures var s := Digits(u, b, letbase);
            s != "" && s[0] != ' ' && s[0] != '-' && s[0] != '0' && DigitValue(s[0], b).Some?
    decreases u
  {
    hide DigitValue, DigitChar;
    if u / b > 0 {
      FirstDigit(u / b, b, letbase);
    } else {
      DigitCharValue(u % b, b, letbase);
    }
  }

  lemma ZeroReadsBack(b: nat, width: nat, right: bool, zero: bool)
    requires (b == 10 || b == 16) && !(right && zero)
    ensures ParseNumber(Field("0", width, right, zero), b) == 0
  {
    forall n: int
      ensures ParseNumber("0" + Repeat(' ', n), b) == 0
    {
      assert ("0" + Repeat(' ', n))[1..] == Repeat(' ', n);
      ParseBlanks(n, b, 0);
    }
    assert ParseDigits("0", b, 0) == ParseDigits("", b, 0);
    FieldReadsBack("0", width, right, zero, b, 0);
  }

  lemma PositiveReadsBack(u: Word, b: nat, letbase: char, width: nat, right: bool, zero: bool)
    requires (b == 10 || b == 16) && (letbase == 'a' || letbase == 'A') && !(right && zero) && u > 0
    ensures ParseNumber(Field(Digits(u, b, letbase), width, right, zero), b) == u
  {
    hide ParseNumber, Field, Digits, ParseDigits;
    DigitsReadBack(u, b, letbase);
    FieldReadsBack(Digits(u, b, letbase), width, right, zero, b, u);
  }

  /** A negative decimal: its sign before the zeros of a zero-padded field, next to the digits otherwise. */
  lemma NegativeReadsBack(u: Word, letbase: char, width: nat, right: bool, zero: bool)
    requires (letbase == 'a' || letbase == 'A') && !(right && zero) && u > 0
    ensures width != 0 && zero ==> ParseNumber("-" + Field(Digits(u, 10, letbase), width - 1, right, zero), 10) == 0 - u
    ensures !(width != 0 && zero) ==> ParseNumber(Field("-" + Digits(u, 10, letbase), width, right, zero), 10) == 0 - u
  {
    hide Digits, ParseDigits;
    DigitsReadBack(u, 10, letbase);
    var digits := Digits(u, 10, letbase);
    if width != 0 && zero {
      ZeroFieldDigits(digits, width - 1, 10, u);
      assert ("-" + Field(digits, width - 1, right, zero))[1..] == Field(digits, width - 1, right, zero);
    } else if zero {
      assert Field("-" + digits, width, right, zero) == "-" + digits + Repeat(' ', 0);
    } else {
      FieldReadsBack("-" + digits, width, right, zero, 10, 0 - u);
    }
  }

  /** What printi prints reads back as its argument: signed for %d, including the least integer, and the
      unsigned word otherwise. Only '-' with '0' together is excluded: it pads on the right with zeros
      (RightZerosMisread). */
  lemma PrintedNumberReadsBack(i: Int32, b: nat, sg: bool, width: nat, right: bool, zero: bool, letbase: char)
    requires (b == 10 || b == 16) && (letbase == 'a' || letbase == 'A') && !(right && zero)
    ensures ParseNumber(Number(i, b, sg, width, right, zero, letbase), b)
         == if Negative(i, b, sg) then i else Wrap32(i as int)
  {
    hide ParseNumber, Field, Digits;
    if i == 0 {
      ZeroReadsBack(b, width, right, zero);
    } else {
      assert Magnitude(i, b, sg) > 0;
      if Negative(i, b, sg) {
        NegativeReadsBack(Magnitude(i, b, sg), letbase, width, right, zero);
      } else {
        PositiveReadsBack(Magnitude(i, b, sg), b, letbase, width, right, zero);
      }
    }
  }

  lemma ZeroFieldDigits(digits: string, width: nat, b: nat, u: nat)
    requires (b == 10 || b == 16) && ParseDigits(digits, b, 0) == u
    ensures ParseDigits(Field(digits, width, false, true), b, 0) == u
  {
    var n := width - |digits|;
    ParseLeadingZeros(Max(n, 0), b, digits);
    assert Repeat('0', n) == Repeat('0', Max(n, 0));
  }

  /** The length of a printed number is the larger of the field and its own digits and sign. */
  lemma PrintedNumberLength(i: Int32, b: nat, sg: bool, width: nat, right: bool, zero: bool, letbase: char)
    requires (b == 10 || b == 16) && (letbase == 'a' || letbase == 'A')
    ensures |Number(i, b, sg, width, right, zero, letbase)|
         == Max(width, if i == 0 then 1 else |Digits(Magnitude(i, b, sg), b, letbase)| + if Negative(i, b, sg) then 1
           else 0)
  {
  }

  /** Zeros after a number multiply it. */
  lemma {:induction false} TrailingZeros(n: int, b: nat, acc: nat)
    requires b == 10 || b == 16
    ensures n <= 0 || acc == 0 ==> ParseDigits(Repeat('0', n), b, acc) == acc
    ensures n > 0 && acc > 0 ==> ParseDigits(Repeat('0', n), b, acc) > acc
    decreases n
  {
    if n > 0 {
      assert Repeat('0', n)[1..] == Repeat('0', n - 1);
      TrailingZeros(n - 1, b, acc * b);
    }
  }

  /** Digits with zeros on the right read back as the number exactly when there is no room for a zero. */
  lemma RightZerosReadBack(u: nat, b: nat, letbase: char, width: int)
    requires (b == 10 || b == 16) && (letbase == 'a' || letbase == 'A') && u > 0
    ensures ParseDigits(Digits(u, b, letbase) + Repeat('0', width - |Digits(u, b, letbase)|), b, 0) == u
       <==> width <= |Digits(u, b, letbase)|
  {
    var n := width - |Digits(u, b, letbase)|;
    ParseAfterDigits(u, b, letbase, 0, Repeat('0', n));
    ShiftZero(u, b);
    TrailingZeros(n, b, u);
  }

  /** With both '-' and '0' the zeros follow the digits: the number reads back exactly when it is zero or
      fills its field. */
  lemma BothFlagsReadBackIff(i: Int32, b: nat, sg: bool, width: nat, letbase: char)
    requires (b == 10 || b == 16) && (letbase == 'a' || letbase == 'A')
    ensures ParseNumber(Number(i, b, sg, width, true, true, letbase), b)
        == (if Negative(i, b, sg) then i else Wrap32(i as int))
       <==> i == 0 || width <= |Digits(Magnitude(i, b, sg), b, letbase)| + if Negative(i, b, sg) then 1 else 0
  {
    hide Digits, ParseDigits;
    var u: nat := Magnitude(i, b, sg);
    if i == 0 {
      ZeroRightZeros(b, width);
    } else {
      FirstDigit(u, b, letbase);
      var digits := Digits(u, b, letbase);
      if Negative(i, b, sg) {
        RightZerosReadBack(u, b, letbase, width - 1);
        SignedField(digits, width, b);
        assert Number(i, b, sg, width, true, true, letbase) == "-" + (digits + Repeat('0', width - 1 - |digits|));
      } else {
        RightZerosReadBack(u, b, letbase, width);
        assert Field(digits, width, true, true) == digits + Repeat('0', width - |digits|);
      }
    }
  }

  lemma ZeroRightZeros(b: nat, width: nat)
    requires b == 10 || b == 16
    ensures ParseNumber(Field("0", width, true, true), b) == 0
  {
    var f := Field("0", width, true, true);
    TrailingZeros(width - 1, b, 0);
    assert f[1..] == Repeat('0', width - 1);
  }

  lemma SignedField(digits: string, width: nat, b: nat)
    requires b == 10 || b == 16
    ensures var f := digits + Repeat('0', width - 1 - |digits|);
            ParseNumber("-" + f, b) == 0 - ParseDigits(f, b, 0)
    ensures (if width != 0 then "-" + Field(digits, width - 1, true, true) else Field("-" + digits, width, true, true))
         == "-" + (digits + Repeat('0', width - 1 - |digits|))
  {
    var f := digits + Repeat('0', width - 1 - |digits|);
    assert ("-" + f)[1..] == f;
  }

  /** Five columns of 42 with both flags print as 42000. */
  lemma RightZerosMisread()
    ensures Number(42, 10, true, 5, true, true, 'a') == "42000"
  {
    assert Digits(4, 10, 'a') == "4";
    assert Digits(42, 10, 'a') == Digits(4, 10, 'a') + "2";
    assert Repeat('0', 3) == "000";
  }

  /* ---------- Format strings ---------- */

  /** A format string, piece by piece: a character, a doubled percent sign, or a conversion with its flags,
      width digits and letter. */
  datatype Piece =
    | Literal(c: char)
    | Percent
    | Conversion(right: bool, zeros: nat, width: string, kind: char)
  {
    /** A conversion after its percent sign and dash. */
    function Tail(): string
      requires Conversion?
    {
      Repeat('0', zeros) + (width + [kind])
    }
  }

  /** Text is the value of a C string, without its NUL; None is a null pointer. */
  datatype Arg = Integer(i: Int32) | Text(s: Option<string>)

  predicate IsDigit(c: char) {
    '0' <= c <= '9'
  }

  function DigitOf(c: char): nat
    requires IsDigit(c)
  {
    c as int - '0' as int
  }

  /** The value of the width digits, continuing from acc. */
  function WidthValue(digits: string, acc: nat): nat
    requires forall i :: 0 <= i < |digits| ==> IsDigit(digits[i])
  {
    if digits == "" then acc else WidthValue(digits[1..], acc * 10 + DigitOf(digits[0]))
  }

  predicate WidthOk(digits: string) {
    (forall i :: 0 <= i < |digits| ==> IsDigit(digits[i])) && (digits != "" ==> digits[0] != '0')
  }

  /** What print takes as one piece, and reads the same way back. A letter that is no conversion is
      ignored together with its flags and width; so is the terminator, when a format ends inside a
      conversion. */
  predicate WellFormed(p: Piece) {
    match p
    case Literal(c) => c != '%' && c != '\0'
    case Percent => true
    case Conversion(right, zeros, width, kind) =>
      && WidthOk(width) && !IsDigit(kind)
      && (!right && zeros == 0 && width == "" ==> kind != '%' && kind != '-' && kind != '\0')
  }

  /** A conversion whose letter is the format's terminator. */
  predicate CutOff(p: Piece) {
    p.Conversion? && p.kind == '\0'
  }

  function Show(p: Piece): string {
    match p
    case Literal(c) => [c]
    case Percent => "%%"
    case Conversion(right, zeros, width, kind) =>
      "%" + ((if right then "-" else "") + p.Tail())
  }

  function ShowAll(pieces: seq<Piece>): string {
    if pieces == [] then "" else Show(pieces[0]) + ShowAll(pieces[1..])
  }

  predicate TakesArgument(p: Piece) {
    p.Conversion? && p.kind in {'s', 'd', 'x', 'X', 'u', 'c'}
  }

  /** The argument a piece takes has the type its letter names. */
  predicate Typed(p: Piece, args: seq<Arg>) {
    TakesArgument(p) ==> args != [] && (args[0].Text? <==> p.kind == 's')
  }

  function Rest(p: Piece, args: seq<Arg>): seq<Arg>
    requires Typed(p, args)
  {
    if TakesArgument(p) then args[1..] else args
  }

  predicate AllTyped(pieces: seq<Piece>, args: seq<Arg>) {
    pieces == [] || (Typed(pieces[0], args) && AllTyped(pieces[1..], Rest(pieces[0], args)))
  }

  /** A character argument printed as a string: nothing when it is NUL. */
  function CharText(i: Int32): string {
    var c := (i as int % 256) as char;
    if c == '\0' then "" else [c]
  }

  /** What a conversion prints. */
  function Converted(kind: char, right: bool, zero: bool, width: nat, arg: Arg): string
    requires kind in {'s', 'd', 'x', 'X', 'u', 'c'} && (arg.Text? <==> kind == 's')
  {
    match kind
    case 's' => Field(if arg.s.Some? then arg.s.value else "(null)", width, right, zero)
    case 'd' => Number(arg.i, 10, true, width, right, zero, 'a')
    case 'x' => Number(arg.i, 16, false, width, right, zero, 'a')
    case 'X' => Number(arg.i, 16, false, width, right, zero, 'A')
    case 'u' => Number(arg.i, 10, false, width, right, zero, 'a')
    case _ => Field(CharText(arg.i), width, right, zero)
  }

  function Emitted(p: Piece, args: seq<Arg>): string
    requires WellFormed(p) && Typed(p, args)
  {
    match p
    case Literal(c) => [c]
    case Percent => "%"
    case Conversion(right, zeros, width, kind) =>
      if TakesArgument(p) then Converted(kind, right, zeros > 0, WidthValue(width, 0), args[0]) else ""
  }

  predicate AllWellFormed(pieces: seq<Piece>) {
    forall i :: 0 <= i < |pieces| ==> WellFormed(pieces[i])
  }

  function EmittedAll(pieces: seq<Piece>, args: seq<Arg>): string
    requires AllWellFormed(pieces) && AllTyped(pieces, args)
  {
    if pieces == [] then "" else Emitted(pieces[0], args) + EmittedAll(pieces[1..], Rest(pieces[0], args))
  }

  /** `*format`; NUL past the end of the string. */
  function At(format: string, i: nat): char {
    if i < |format| then format[i] else '\0'
  }

  /* ---------- print ---------- */

  /** From position i the format reads: optional '-', zeros, width digits, then `kind` and `tail`. */
  ghost predicate Reads(format: string, i: nat, s: string) {
    i <= |format| && format[i..] == s
  }

  lemma ReadsStep(format: string, i: nat, c: char, s: string)
    requires Reads(format, i, [c] + s)
    ensures At(format, i) == c && i < |format| && Reads(format, i + 1, s)
  {
    assert |format[i..]| == 1 + |s|;
    assert format[i..][0] == c;
    assert format[i + 1..] == format[i..][1..];
  }

  /** What stands at position i when zeros and then s follow. */
  lemma ZerosAhead(format: string, i: nat, zeros: nat, s: string)
    requires Reads(format, i, Repeat('0', zeros) + s) && s != "" && s[0] != '0'
    ensures At(format, i) == '0' <==> zeros > 0
    ensures zeros > 0 ==> Reads(format, i + 1, Repeat('0', zeros - 1) + s)
    ensures zeros == 0 ==> Reads(format, i, s)
  {
    if zeros > 0 {
      assert Repeat('0', zeros) + s == ['0'] + (Repeat('0', zeros - 1) + s);
      ReadsStep(format, i, '0', Repeat('0', zeros - 1) + s);
    } else {
      assert Repeat('0', 0) + s == s == [s[0]] + s[1..];
      ReadsStep(format, i, s[0], s[1..]);
    }
  }

  /** `while (*format == '0')` */
  method SkipZeros(format: string, start: nat, ghost zeros: nat, ghost s: string) returns (i: nat, zero: bool)
    requires Reads(format, start, Repeat('0', zeros) + s) && s != "" && s[0] != '0'
    ensures Reads(format, i, s) && zero == (zeros > 0)
  {
    hide Reads, Repeat;
    i, zero := start, false;
    ghost var left: nat := zeros;
    ZerosAhead(format, i, left, s);
    while At(format, i) == '0'
      invariant left <= zeros && Reads(format, i, Repeat('0', left) + s) && zero == (left < zeros)
      invariant At(format, i) == '0' <==> left > 0
      invariant left == 0 ==> Reads(format, i, s)
      decreases left
    {
      ZerosAhead(format, i, left, s);
      i, zero, left := i + 1, true, left - 1;
      ZerosAhead(format, i, left, s);
    }
  }

  lemma DigitsAhead(format: string, i: nat, digits: string, s: string)
    requires Reads(format, i, digits + s) && s != "" && !IsDigit(s[0])
    requires forall j :: 0 <= j < |digits| ==> IsDigit(digits[j])
    ensures IsDigit(At(format, i)) <==> digits != ""
    ensures digits != "" ==> At(format, i) == digits[0] && Reads(format, i + 1, digits[1..] + s)
    ensures digits == "" ==> Reads(format, i, s)
  {
    if digits != "" {
      assert digits + s == [digits[0]] + (digits[1..] + s);
      ReadsStep(format, i, digits[0], digits[1..] + s);
    } else {
      assert digits + s == s;
      assert s == [s[0]] + s[1..];
      ReadsStep(format, i, s[0], s[1..]);
    }
  }

  /** `for ( ; *format >= '0' && *format <= '9'; ++format)` */
  method ReadWidth(format: string, start: nat, ghost digits: string, ghost s: string) returns (i: nat, width: nat)
    requires Reads(format, start, digits + s) && s != "" && !IsDigit(s[0])
    requires forall j :: 0 <= j < |digits| ==> IsDigit(digits[j])
    ensures Reads(format, i, s) && width == WidthValue(digits, 0)
  {
    hide Reads;
    i, width := start, 0;
    ghost var left := digits;
    DigitsAhead(format, i, left, s);
    while IsDigit(At(format, i))
      invariant forall j :: 0 <= j < |left| ==> IsDigit(left[j])
      invariant Reads(format, i, left + s) && WidthValue(left, width) == WidthValue(digits, 0)
      invariant IsDigit(At(format, i)) <==> left != ""
      invariant left == "" ==> Reads(format, i, s)
      decreases |left|
    {
      DigitsAhead(format, i, left, s);
      width := width * 10 + (At(format, i) as int - '0' as int);
      i, left := i + 1, left[1..];
      DigitsAhead(format, i, left, s);
    }
  }

  /** The format from a conversion's zeros on. */
  function FromZeros(p: Piece, tail: string): string
    requires p.Conversion?
  {
    Repeat('0', p.zeros) + (p.width + ([p.kind] + tail))
  }

  /** A conversion, unrolled: the percent sign, then the dash if any, then zeros, width and letter. */
  lemma ConversionAhead(format: string, i: nat, p: Piece, tail: string)
    requires p.Conversion? && WellFormed(p) && Reads(format, i, Show(p) + tail)
    ensures At(format, i) == '%' && At(format, i + 1) != '%' && At(format, i + 1) != '\0'
    ensures At(format, i + 1) == '-' <==> p.right
    ensures Reads(format, if p.right then i + 2 else i + 1, FromZeros(p, tail))
  {
    ShowUnrolled(p, tail);
    var from := FromZeros(p, tail);
    hide Reads, Show, At, FromZeros, WellFormed;
    if p.right {
      assert ['-'] + from == "-" + from;
      ReadsStep(format, i, '%', ['-'] + from);
      ReadsStep(format, i + 1, '-', from);
    } else {
      ReadsStep(format, i, '%', from);
      FlagsAhead(format, i + 1, p, tail);
    }
  }

  lemma ShowUnrolled(p: Piece, tail: string)
    requires p.Conversion?
    ensures Show(p) + tail == ['%'] + (if p.right then ['-'] + FromZeros(p, tail) else FromZeros(p, tail))
  {
    hide Repeat;
    var dash := if p.right then "-" else "";
    JoinEmitted("%", dash + p.Tail(), tail);
    JoinEmitted(dash, p.Tail(), tail);
    JoinEmitted(Repeat('0', p.zeros), p.width + [p.kind], tail);
    JoinEmitted(p.width, [p.kind], tail);
    assert "" + FromZeros(p, tail) == FromZeros(p, tail);
  }

  /** Without a dash, the character after the percent sign is a zero, a width digit or the letter. */
  lemma FlagsAhead(format: string, i: nat, p: Piece, tail: string)
    requires p.Conversion? && WellFormed(p) && !p.right && Reads(format, i, FromZeros(p, tail))
    ensures At(format, i) != '%' && At(format, i) != '-' && At(format, i) != '\0'
  {
    hide Reads, Repeat, At;
    var after := p.width + ([p.kind] + tail);
    assert after[0] == if p.width == "" then p.kind else p.width[0];
    ZerosAhead(format, i, p.zeros, after);
    if p.zeros == 0 {
      assert after == [after[0]] + after[1..];
      ReadsStep(format, i, after[0], after[1..]);
    }
  }

  /** The conversion branch of print, from the character after the percent sign to the letter. */
  method PrintConversion(out: Output, format: string, start: nat, va: seq<Arg>, ghost p: Piece, ghost tail: string)
    returns (i: nat, vb: seq<Arg>, pc: nat)
    requires p.Conversion? && WellFormed(p) && Typed(p, va) && start > 0 && Reads(format, start - 1, Show(p) + tail)
    modifies out
    ensures i < |format| && Reads(format, i + 1, tail) && vb == Rest(p, va)
    ensures out.text == old(out.text) + Emitted(p, va) && pc == |Emitted(p, va)|
  {
    hide Reads, Field, Number, Repeat;
    ConversionAhead(format, start - 1, p, tail);
    i, vb, pc := start, va, 0;
    var right := false;
    if At(format, i) == '-' {
      i := i + 1;
      right := true;
    }
    var zero; var width;
    i, zero := SkipZeros(format, i, p.zeros, p.width + ([p.kind] + tail));
    i, width := ReadWidth(format, i, p.width, [p.kind] + tail);
    ReadsStep(format, i, p.kind, tail);
    var kind := At(format, i);
    if kind in {'s', 'd', 'x', 'X', 'u', 'c'} {
      vb := va[1..];
      pc := PrintArgument(out, kind, right, zero, width, va[0]);
    }
    assert out.text == old(out.text) + Emitted(p, va);
  }

  /** The chain of `if( *format == ... )` tests of print, for the letters that print something. */
  method PrintArgument(out: Output, kind: char, right: bool, zero: bool, width: nat, arg: Arg) returns (pc: nat)
    requires kind in {'s', 'd', 'x', 'X', 'u', 'c'} && (arg.Text? <==> kind == 's')
    modifies out
    ensures out.text == old(out.text) + Converted(kind, right, zero, width, arg)
    ensures pc == |Converted(kind, right, zero, width, arg)|
  {
    hide Field, Number;
    if kind == 's' {
      pc := Prints(out, if arg.s.Some? then arg.s.value else "(null)", width, right, zero);
    } else if kind == 'd' {
      pc := Printi(out, arg.i, 10, true, width, right, zero, 'a');
    } else if kind == 'x' {
      pc := Printi(out, arg.i, 16, false, width, right, zero, 'a');
    } else if kind == 'X' {
      pc := Printi(out, arg.i, 16, false, width, right, zero, 'A');
    } else if kind == 'u' {
      pc := Printi(out, arg.i, 10, false, width, right, zero, 'a');
    } else {
      pc := Prints(out, CharText(arg.i), width, right, zero);
    }
  }

  /** What is at the front of a well-formed format. */
  lemma PieceAhead(format: string, i: nat, p: Piece, tail: string)
    requires WellFormed(p) && Reads(format, i, Show(p) + tail)
    ensures i < |format|
    ensures p.Literal? ==> At(format, i) == p.c != '%' && Reads(format, i + 1, tail)
    ensures !p.Literal? ==> At(format, i) == '%' && At(format, i + 1) != '\0'
    ensures !p.Literal? ==> (At(format, i + 1) == '%' <==> p.Percent?)
    ensures p.Percent? ==> i + 1 < |format| && Reads(format, i + 2, tail)
  {
    match p
    case Literal(c) => ReadsStep(format, i, c, tail);
    case Percent =>
      assert "%%" + tail == ['%'] + (['%'] + tail);
      ReadsStep(format, i, '%', ['%'] + tail);
      ReadsStep(format, i + 1, '%', tail);
    case Conversion(_, _, _, _) => ConversionAhead(format, i, p, tail);
  }

  /** One turn of print's loop. */
  method PrintPiece(out: Output, format: string, start: nat, va: seq<Arg>, ghost p: Piece, ghost tail: string)
    returns (i: nat, vb: seq<Arg>, pc: nat)
    requires WellFormed(p) && Typed(p, va) && Reads(format, start, Show(p) + tail)
    modifies out
    ensures Reads(format, i, tail) && vb == Rest(p, va)
    ensures out.text == old(out.text) + Emitted(p, va) && pc == |Emitted(p, va)|
  {
    hide Reads, Show, Converted;
    PieceAhead(format, start, p, tail);
    i, vb, pc := start, va, 0;
    if At(format, i) == '%' {
      i := i + 1;
      if At(format, i) == '%' {
        out.PrintChar(At(format, i));
        pc := pc + 1;
      } else {
        i, vb, pc := PrintConversion(out, format, i, va, p, tail);
      }
    } else {
      out.PrintChar(At(format, i));
      pc := pc + 1;
    }
    i := i + 1;
  }

  /** What follows the conversion's zeros, and its width digits. */
  function PastZeros(s: string): string {
    if s != "" && s[0] == '0' then PastZeros(s[1..]) else s
  }

  function PastDigits(s: string): (rest: string)
    ensures |rest| <= |s|
  {
    if s != "" && IsDigit(s[0]) then PastDigits(s[1..]) else s
  }

  function PastFlags(s: string): string {
    PastDigits(PastZeros(if s != "" && s[0] == '-' then s[1..] else s))
  }

  lemma {:induction false} PastZerosShrinks(s: string)
    ensures |PastZeros(s)| <= |s|
  {
    if s != "" && s[0] == '0' {
      PastZerosShrinks(s[1..]);
    }
  }

  /** A scan of the format: its last percent sign is followed by flags or a width and nothing more. */
  predicate EndsInside(format: string)
    decreases |format|
  {
    if |format| <= 1 then false
    else if format[0] != '%' then EndsInside(format[1..])
    else if format[1] == '%' then EndsInside(format[2..])
    else
      PastZerosShrinks(if format[1] == '-' then format[2..] else format[1..]);
      var from := PastFlags(format[1..]);
      from == "" || EndsInside(from[1..])
  }

  /** The format, terminator included, is these pieces and what ends it: the terminator, a lone percent sign
      before it, or nothing when the last piece is cut off. */
  ghost predicate Decomposes(format: string, pieces: seq<Piece>, end: string) {
    && AllWellFormed(pieces) && format + ['\0'] == ShowAll(pieces) + end
    && (end == ['\0'] || end == ['%', '\0'] || end == "")
    && (end == "" <==> pieces != [] && CutOff(pieces[|pieces| - 1]))
  }

  /** Every C string is a format of this form, and its last conversion is cut off exactly when the scan says so. */
  lemma {:induction false} EveryFormat(format: string) returns (pieces: seq<Piece>, end: string)
    requires '\0' !in format
    ensures Decomposes(format, pieces, end)
    ensures end == "" <==> EndsInside(format)
    decreases |format|
  {
    if format == "" {
      pieces, end := [], ['\0'];
    } else if format == "%" {
      pieces, end := [], ['%', '\0'];
    } else {
      var p, rest := FirstPiece(format);
      if CutOff(p) {
        pieces, end := [p], "";
        assert ShowAll(pieces[1..]) == "";
      } else {
        var more;
        more, end := EveryFormat(rest);
        pieces := [p] + more;
        PrependPiece(format, p, rest, more, end);
      }
    }
  }

  lemma PrependPiece(format: string, p: Piece, rest: string, more: seq<Piece>, end: string)
    requires WellFormed(p) && !CutOff(p) && format == Show(p) + rest && Decomposes(rest, more, end)
    ensures Decomposes(format, [p] + more, end)
  {
    var pieces := [p] + more;
    assert pieces[1..] == more;
    assert format + ['\0'] == Show(p) + (rest + ['\0']);
    JoinEmitted(Show(p), ShowAll(more), end);
    if more != [] {
      assert pieces[|pieces| - 1] == more[|more| - 1];
    }
  }

  /** The first piece of a format that is neither empty nor a lone percent sign, and what is left. */
  lemma FirstPiece(format: string) returns (p: Piece, rest: string)
    requires '\0' !in format && format != "" && format != "%"
    ensures WellFormed(p)
    ensures CutOff(p) ==> Show(p) == format + ['\0']
    ensures !CutOff(p) ==> format == Show(p) + rest && |rest| < |format| && '\0' !in rest
    ensures EndsInside(format) <==> CutOff(p) || EndsInside(rest)
  {
    if format[0] != '%' {
      p, rest := Literal(format[0]), format[1..];
    } else if format[1] == '%' {
      p, rest := Percent, format[2..];
    } else {
      var right := format[1] == '-';
      var from := if right then format[2..] else format[1..];
      assert format == ['%'] + ((if right then "-" else "") + from);
      assert right ==> format[1..][1..] == format[2..];
      assert PastFlags(format[1..]) == PastDigits(PastZeros(from));
      p, rest := FirstConversion(right, from);
      JoinEmitted(['%'], (if right then "-" else "") + p.Tail(), rest);
      JoinEmitted(if right then "-" else "", p.Tail(), rest);
      JoinEmitted(['%'], (if right then "-" else "") + from, ['\0']);
      JoinEmitted(if right then "-" else "", from, ['\0']);
    }
  }

  /** The conversion in front of `from`, which follows a percent sign and, with `right`, a dash. */
  lemma FirstConversion(right: bool, from: string) returns (p: Piece, rest: string)
    requires '\0' !in from && (!right ==> from != "" && from[0] != '%' && from[0] != '-')
    ensures p.Conversion? && p.right == right && WellFormed(p)
    ensures CutOff(p) ==> p.Tail() == from + ['\0']
    ensures !CutOff(p) ==> from == p.Tail() + rest && '\0' !in rest
    ensures var after := PastDigits(PastZeros(from));
            (CutOff(p) <==> after == "") && (!CutOff(p) ==> rest == after[1..])
  {
    var zeros, fromWidth := LeadingZeros(from);
    var width, fromKind := LeadingDigits(fromWidth);
    JoinEmitted(Repeat('0', zeros), width, fromKind);
    if fromKind == "" {
      p, rest := Conversion(right, zeros, width, '\0'), "";
      assert width + fromKind == width;
      JoinEmitted(Repeat('0', zeros), width, ['\0']);
    } else {
      p, rest := Conversion(right, zeros, width, fromKind[0]), fromKind[1..];
      assert fromKind == [p.kind] + rest;
      JoinEmitted(width, [p.kind], rest);
      JoinEmitted(Repeat('0', zeros), width + [p.kind], rest);
      assert p.kind in from && forall c :: c in rest ==> c in from;
    }
    if !right && zeros == 0 && width == "" {
      assert from == fromKind;
    }
  }

  lemma {:induction false} LeadingZeros(s: string) returns (zeros: nat, rest: string)
    ensures s == Repeat('0', zeros) + rest && (rest != "" ==> rest[0] != '0') && rest == PastZeros(s)
    decreases |s|
  {
    if s != "" && s[0] == '0' {
      zeros, rest := LeadingZeros(s[1..]);
      assert Repeat('0', zeros + 1) == ['0'] + Repeat('0', zeros);
      zeros := zeros + 1;
    } else {
      zeros, rest := 0, s;
      assert Repeat('0', 0) == "";
    }
  }

  lemma {:induction false} LeadingDigits(s: string) returns (digits: string, rest: string)
    ensures s == digits + rest && (rest != "" ==> !IsDigit(rest[0])) && rest == PastDigits(s)
    ensures forall i :: 0 <= i < |digits| ==> IsDigit(digits[i])
    decreases |s|
  {
    if s != "" && IsDigit(s[0]) {
      digits, rest := LeadingDigits(s[1..]);
      digits := [s[0]] + digits;
    } else {
      digits, rest := "", s;
    }
  }

  /** What is in memory from the format on: pieces, then a terminator or a percent sign and a terminator,
      then what print does not read. A cut-off piece among them is a conversion whose letter was a NUL. */
  ghost predicate InMemory(memory: string, pieces: seq<Piece>, end: string, rest: string) {
    && AllWellFormed(pieces) && memory == ShowAll(pieces) + (end + rest)
    && (end == ['\0'] || end == ['%', '\0'])
  }

  /** A format with `beyond` after its terminator: print stops at that terminator exactly when the format
      does not end inside a conversion; otherwise the NUL is taken for a letter and print goes on as if
      `beyond` were more of the format. */
  lemma ReadsPastEndIff(format: string, beyond: string) returns (pieces: seq<Piece>, end: string)
    requires '\0' !in format
    ensures !EndsInside(format) ==>
              InMemory(format + ['\0'] + beyond, pieces, end, beyond) && |ShowAll(pieces) + end| == |format| + 1
    ensures EndsInside(format) ==> forall more, end1, rest :: InMemory(beyond, more, end1, rest) ==>
              && InMemory(format + ['\0'] + beyond, pieces + more, end1, rest)
              && |ShowAll(pieces + more) + end1| > |format| + 1
  {
    pieces, end := EveryFormat(format);
    if !EndsInside(format) {
      JoinEmitted(ShowAll(pieces), end, beyond);
    } else {
      forall more, end1, rest | InMemory(beyond, more, end1, rest)
        ensures InMemory(format + ['\0'] + beyond, pieces + more, end1, rest)
        ensures |ShowAll(pieces + more) + end1| > |format| + 1
      {
        ShowAllConcat(pieces, more);
        assert ShowAll(pieces) + "" == ShowAll(pieces);
        JoinEmitted(ShowAll(pieces), ShowAll(more), end1 + rest);
      }
    }
  }

  lemma {:induction false} ShowAllConcat(a: seq<Piece>, b: seq<Piece>)
    ensures ShowAll(a + b) == ShowAll(a) + ShowAll(b)
  {
    hide Show;
    if a == [] {
      assert a + b == b;
    } else {
      assert (a + b)[1..] == a[1..] + b && (a + b)[0] == a[0];
      ShowAllConcat(a[1..], b);
      JoinEmitted(Show(a[0]), ShowAll(a[1..]), ShowAll(b));
    }
  }

  /** What stands at position i of a memory of which `left`, `end` and `rest` remain. */
  lemma FormatEnds(memory: string, i: nat, left: seq<Piece>, end: string, rest: string)
    requires Reads(memory, i, ShowAll(left) + (end + rest)) && AllWellFormed(left)
    requires end == ['\0'] || end == ['%', '\0']
    ensures i + |ShowAll(left)| + |end| + |rest| == |memory|
    ensures left == [] && end == ['\0'] ==> At(memory, i) == '\0'
    ensures left == [] && end == ['%', '\0'] ==> At(memory, i) == '%' && At(memory, i + 1) == '\0'
    ensures left != [] ==> Reads(memory, i, Show(left[0]) + (ShowAll(left[1..]) + (end + rest)))
    ensures left != [] ==> At(memory, i) != '\0'
    ensures left != [] && At(memory, i) == '%' ==> At(memory, i + 1) != '\0'
  {
    assert |memory[i..]| == |ShowAll(left) + (end + rest)|;
    if left == [] {
      assert ShowAll(left) + (end + rest) == end + rest;
      if end == ['\0'] {
        ReadsStep(memory, i, '\0', rest);
      } else {
        assert end + rest == ['%'] + (['\0'] + rest);
        ReadsStep(memory, i, '%', ['\0'] + rest);
        ReadsStep(memory, i + 1, '\0', rest);
      }
    } else {
      JoinEmitted(Show(left[0]), ShowAll(left[1..]), end + rest);
      PieceAhead(memory, i, left[0], ShowAll(left[1..]) + (end + rest));
    }
  }

  /** print on the memory its format starts at: emits exactly what the pieces it reads specify, and returns how
      much that is. `stop` is the NUL it ends at. */
  method Print(out: Output, memory: string, args: seq<Arg>, ghost pieces: seq<Piece>, ghost end: string,
               ghost rest: string)
    returns (pc: nat, stop: nat)
    requires InMemory(memory, pieces, end, rest) && AllTyped(pieces, args)
    modifies out
    ensures out.text == old(out.text) + EmittedAll(pieces, args) && pc == |EmittedAll(pieces, args)|
    ensures stop + 1 == |ShowAll(pieces) + end| && At(memory, stop) == '\0'
  {
    assert memory[0..] == memory;
    assert Reads(memory, 0, ShowAll(pieces) + (end + rest));
    hide Reads, Emitted, Show, WellFormed, Typed, Rest, CutOff;
    pc, stop := 0, 0;
    var va := args;
    ghost var left, before := pieces, out.text;
    FormatEnds(memory, stop, left, end, rest);
    while At(memory, stop) != '\0'
      invariant AllWellFormed(left) && AllTyped(left, va) && Reads(memory, stop, ShowAll(left) + (end + rest))
      invariant out.text + EmittedAll(left, va) == before + EmittedAll(pieces, args)
      invariant pc == |out.text| - |before|
      decreases |left|
    {
      FormatEnds(memory, stop, left, end, rest);
      if At(memory, stop) == '%' && At(memory, stop + 1) == '\0' {
        stop := stop + 1;
        assert out.text + "" == out.text;
        return;
      }
      ghost var text, va0 := out.text, va;
      var n;
      stop, va, n := PrintPiece(out, memory, stop, va, left[0], ShowAll(left[1..]) + (end + rest));
      pc := pc + n;
      JoinEmitted(text, Emitted(left[0], va0), EmittedAll(left[1..], va));
      left := left[1..];
      FormatEnds(memory, stop, left, end, rest);
    }
    FormatEnds(memory, stop, left, end, rest);
    assert out.text + "" == out.text;
  }

  /* ---------- What each conversion letter prints ---------- */

  lemma RepeatIs(c: char, n: int)
    ensures |Repeat(c, n)| == Max(n, 0) && forall i :: 0 <= i < |Repeat(c, n)| ==> Repeat(c, n)[i] == c
  {
  }

  /** A conversion without flags or width. */
  function Plain(kind: char, arg: Arg): string
    requires kind in {'s', 'd', 'x', 'X', 'u', 'c'} && (arg.Text? <==> kind == 's')
  {
    Converted(kind, false, false, 0, arg)
  }

  lemma FieldOfNone(s: string, right: bool, zero: bool)
    ensures Field(s, 0, right, zero) == s
  {
  }

  lemma PlainNumber(i: Int32, b: nat, sg: bool, letbase: char)
    requires (b == 10 || b == 16) && (letbase == 'a' || letbase == 'A')
    ensures Number(i, b, sg, 0, false, false, letbase) ==
              if i == 0 then "0" else (if Negative(i, b, sg) then "-" else "") + Digits(Magnitude(i, b, sg), b, letbase)
  {
    hide Field;
    var digits := Digits(Magnitude(i, b, sg), b, letbase);
    FieldOfNone("0", false, false);
    FieldOfNone(digits, false, false);
    FieldOfNone("-" + digits, false, false);
    assert "" + digits == digits;
  }

  /** The number a letter prints: signed for d, the unsigned word for the others. */
  function Meant(kind: char, i: Int32): int {
    if kind == 'd' || i >= 0 then i else i + 0x1_0000_0000
  }

  /** No zero in front, unless it is the only digit. */
  predicate NoLeadingZero(s: string) {
    s == "0" || (s != "" && s[0] != '0' && (s[0] == '-' ==> 1 < |s| && s[1] != '0'))
  }

  /** What the number letters print: d and u the decimal number, signed and unsigned; x and X the unsigned number
      in base 16, x without capital letters and X without small ones. None has a leading zero. */
  lemma PlainReadsBack(kind: char, arg: Arg)
    requires kind in {'d', 'u', 'x', 'X'} && arg.Integer?
    ensures ParseNumber(Plain(kind, arg), if kind == 'x' || kind == 'X' then 16 else 10) == Meant(kind, arg.i)
    ensures kind == 'x' ==> forall c :: c in Plain(kind, arg) ==> !('A' <= c <= 'Z')
    ensures kind == 'X' ==> forall c :: c in Plain(kind, arg) ==> !('a' <= c <= 'z')
    ensures NoLeadingZero(Plain(kind, arg))
  {
    var b := if kind == 'x' || kind == 'X' then 16 else 10;
    var letbase := if kind == 'X' then 'A' else 'a';
    UnsignedWord(arg.i);
    PlainNumber(arg.i, b, kind == 'd', letbase);
    var u: nat := Magnitude(arg.i, b, kind == 'd');
    hide ParseNumber, Number, Digits, Magnitude;
    PrintedNumberReadsBack(arg.i, b, kind == 'd', 0, false, false, letbase);
    if arg.i != 0 {
      MagnitudePositive(arg.i, b, kind == 'd');
      LetterCase(u, b, letbase);
      FirstDigit(u, b, letbase);
    }
  }

  lemma UnsignedWord(i: Int32)
    ensures Wrap32(i as int) == if i >= 0 then i else i + 0x1_0000_0000
  {
    if i < 0 {
      assert Wrap32(i as int) == i as int + 0x1_0000_0000;
    }
  }

  lemma MagnitudePositive(i: Int32, b: nat, sg: bool)
    requires i != 0
    ensures Magnitude(i, b, sg) > 0
  {
    UnsignedWord(i);
  }

  lemma {:induction false} LetterCase(u: nat, b: nat, letbase: char)
    requires (b == 10 || b == 16) && (letbase == 'a' || letbase == 'A')
    ensures letbase == 'a' ==> forall c :: c in Digits(u, b, letbase) ==> !('A' <= c <= 'Z')
    ensures letbase == 'A' ==> forall c :: c in Digits(u, b, letbase) ==> !('a' <= c <= 'z')
    decreases u
  {
    if u > 0 {
      LetterCase(u / b, b, letbase);
    }
  }

  /** s prints its text and c the character of the argument's low byte, nothing for a NUL. */
  lemma PlainText(kind: char, arg: Arg)
    requires kind in {'s', 'c'} && (arg.Text? <==> kind == 's')
    ensures arg == Text(None) ==> Plain(kind, arg) == "(null)"
    ensures arg.Text? && arg.s.Some? ==> Plain(kind, arg) == arg.s.value
    ensures arg.Integer? && arg.i % 256 == 0 ==> Plain(kind, arg) == ""
    ensures arg.Integer? && arg.i % 256 != 0 ==> Plain(kind, arg) == [(arg.i % 256) as char]
  {
    FieldOfNone(if kind == 'c' then CharText(arg.i) else if arg.s.Some? then arg.s.value else "(null)", false, false);
  }

  /** Flags and width only pad what is printed without them: with '-' behind it, otherwise in front of it, with
      zeros for '0' and blanks without. Zeros in front of a negative number go behind its sign. */
  lemma FlagsPad(kind: char, right: bool, zero: bool, width: nat, arg: Arg)
    requires kind in {'s', 'd', 'x', 'X', 'u', 'c'} && (arg.Text? <==> kind == 's')
    ensures var plain := Plain(kind, arg);
            var fill := Repeat(if zero then '0' else ' ', width - |plain|);
            Converted(kind, right, zero, width, arg) ==
              if right then plain + fill
              else if zero && kind == 'd' && arg.i < 0 then "-" + fill + plain[1..]
              else fill + plain
  {
    if kind in {'d', 'u', 'x', 'X'} {
      var b := if kind == 'x' || kind == 'X' then 16 else 10;
      NumberPads(arg.i, b, kind == 'd', width, right, zero, if kind == 'X' then 'A' else 'a');
    } else {
      FieldOfNone(if kind == 'c' then CharText(arg.i) else if arg.s.Some? then arg.s.value else "(null)", false, false);
    }
  }

  lemma NumberPads(i: Int32, b: nat, sg: bool, width: nat, right: bool, zero: bool, letbase: char)
    requires (b == 10 || b == 16) && (letbase == 'a' || letbase == 'A')
    ensures var plain := Number(i, b, sg, 0, false, false, letbase);
            && (Negative(i, b, sg) ==> plain != "")
            && Number(i, b, sg, width, right, zero, letbase)
            == PaddedNumber(plain, width, right, zero, Negative(i, b, sg))
  {
    PlainNumber(i, b, sg, letbase);
    var digits := Digits(Magnitude(i, b, sg), b, letbase);
    SignPads(digits, width, right, zero);
    UnsignedPads(digits, width, right, zero);
    UnsignedPads("0", width, right, zero);
    hide Digits, Magnitude, Field, PaddedNumber;
    assert "" + digits == digits;
  }

  function PaddedNumber(plain: string, width: nat, right: bool, zero: bool, negative: bool): string
    requires negative ==> plain != ""
  {
    var fill := Repeat(if zero then '0' else ' ', width - |plain|);
    if right then plain + fill
    else if zero && negative then "-" + fill + plain[1..]
    else fill + plain
  }

  lemma UnsignedPads(plain: string, width: nat, right: bool, zero: bool)
    ensures Field(plain, width, right, zero) == PaddedNumber(plain, width, right, zero, false)
  {
  }

  lemma SignPads(digits: string, width: nat, right: bool, zero: bool)
    ensures (if width != 0 && zero then "-" + Field(digits, width - 1, right, zero)
             else Field("-" + digits, width, right, zero))
         == PaddedNumber("-" + digits, width, right, zero, true)
  {
    var plain := "-" + digits;
    var fill := Repeat(if zero then '0' else ' ', width - |plain|);
    assert plain[1..] == digits;
    JoinEmitted("-", digits, fill);
    JoinEmitted("-", fill, digits);
  }

  /** The width is the decimal number its digits write. */
  lemma {:induction false} WidthDecimal(digits: string, acc: nat)
    requires forall i :: 0 <= i < |digits| ==> IsDigit(digits[i])
    ensures WidthValue(digits, acc) == ParseDigits(digits, 10, acc)
  {
    if digits != "" {
      WidthDecimal(digits[1..], acc * 10 + DigitOf(digits[0]));
    }
  }

  lemma {:induction false} DecimalDigits(u: nat)
    ensures forall i :: 0 <= i < |Digits(u, 10, 'a')| ==> IsDigit(Digits(u, 10, 'a')[i])
    decreases u
  {
    if u > 0 {
      DecimalDigits(u / 10);
    }
  }

  /** One piece of a format, whatever its letter: a character and a doubled percent sign stand for themselves, a
      letter that is no conversion prints nothing, and every other prints its first argument padded to the width
      written in decimal. */
  lemma PieceMeans(c: char, right: bool, zeros: nat, width: nat, kind: char, args: seq<Arg>)
    requires c != '%' && c != '\0'
    ensures Emitted(Literal(c), args) == [c] && Emitted(Percent, args) == "%"
    ensures var p := Conversion(right, zeros, Digits(width, 10, 'a'), kind);
            WellFormed(p) && Typed(p, args) ==>
              if kind in {'s', 'd', 'x', 'X', 'u', 'c'}
              then args != [] && (args[0].Text? <==> kind == 's')
                && Emitted(p, args) == Converted(kind, right, zeros != 0, width, args[0])
              else Emitted(p, args) == ""
  {
    DecimalDigits(width);
    WidthDecimal(Digits(width, 10, 'a'), 0);
    ParseDigitsBack(width, 10, 'a', 0);
    assert Digits(width, 10, 'a') + Repeat(' ', 0) == Digits(width, 10, 'a');
    hide Converted, Digits, ParseDigits;
  }

  /** How many arguments the first k pieces take. */
  function Taken(pieces: seq<Piece>, k: nat): (n: nat)
    requires k <= |pieces|
    ensures n <= k
  {
    if k == 0 then 0
    else Taken(pieces, k - 1) + (if pieces[k - 1].Conversion? && pieces[k - 1].kind in "sdxXuc" then 1 else 0)
  }

  /** What piece k adds to the pieces before it is printed from the argument after those they took. */
  ghost predicate TakesNext(pieces: seq<Piece>, args: seq<Arg>, k: nat)
    requires AllWellFormed(pieces) && k < |pieces|
  {
    && Taken(pieces, k) <= |args| && Typed(pieces[k], args[Taken(pieces, k)..])
    && AllTyped(pieces[..k], args) && AllTyped(pieces[..k + 1], args)
    && EmittedAll(pieces[..k + 1], args)
    == EmittedAll(pieces[..k], args) + Emitted(pieces[k], args[Taken(pieces, k)..])
  }

  /** Arguments are taken in order, one for each conversion before. */
  lemma {:induction false} ArgumentsInOrder(pieces: seq<Piece>, args: seq<Arg>, k: nat)
    requires AllWellFormed(pieces) && AllTyped(pieces, args) && k < |pieces|
    ensures TakesNext(pieces, args, k)
    decreases k
  {
    hide TakesNext, Emitted, WellFormed, Typed, Rest;
    if k == 0 {
      FirstTakesFirst(pieces, args);
    } else {
      ArgumentsInOrder(pieces[1..], Rest(pieces[0], args), k - 1);
      LaterTakesNext(pieces, args, k);
    }
  }

  lemma FirstTakesFirst(pieces: seq<Piece>, args: seq<Arg>)
    requires AllWellFormed(pieces) && pieces != [] && Typed(pieces[0], args)
    ensures TakesNext(pieces, args, 0)
  {
    var p := pieces[0];
    assert args[0..] == args && pieces[..1] == [p];
    hide Emitted, WellFormed, Typed;
    assert AllTyped([p], args);
    assert EmittedAll([p], args) == Emitted(p, args) + "" == "" + Emitted(p, args);
  }

  lemma LaterTakesNext(pieces: seq<Piece>, args: seq<Arg>, k: nat)
    requires AllWellFormed(pieces) && 0 < k < |pieces| && Typed(pieces[0], args)
    requires TakesNext(pieces[1..], Rest(pieces[0], args), k - 1)
    ensures TakesNext(pieces, args, k)
  {
    var p, more := pieces[0], pieces[1..];
    var rest := Rest(p, args);
    assert pieces[k] == more[k - 1];
    TakenFromFirst(pieces, k);
    RestFrom(p, args, Taken(more, k - 1));
    hide Emitted, WellFormed, Typed, AllTyped, EmittedAll, Taken, Rest;
    FirstEmitted(pieces, args, k);
    FirstEmittedNext(pieces, args, k);
    JoinEmitted(Emitted(p, args), EmittedAll(more[..k - 1], rest), Emitted(pieces[k], rest[Taken(more, k - 1)..]));
  }

  lemma RestFrom(p: Piece, args: seq<Arg>, m: nat)
    requires Typed(p, args) && m <= |Rest(p, args)|
    ensures var n := (if TakesArgument(p) then 1 else 0) + m;
            n <= |args| && args[n..] == Rest(p, args)[m..]
  {
  }

  /** What the first k pieces print starts with what the first one prints. */
  lemma FirstEmitted(pieces: seq<Piece>, args: seq<Arg>, k: nat)
    requires AllWellFormed(pieces) && 0 < k <= |pieces| && Typed(pieces[0], args)
    requires AllTyped(pieces[1..][..k - 1], Rest(pieces[0], args))
    ensures AllTyped(pieces[..k], args)
    ensures EmittedAll(pieces[..k], args)
         == Emitted(pieces[0], args) + EmittedAll(pieces[1..][..k - 1], Rest(pieces[0], args))
  {
    hide Emitted, WellFormed, Typed;
    assert pieces[..k][1..] == pieces[1..][..k - 1];
  }

  lemma FirstEmittedNext(pieces: seq<Piece>, args: seq<Arg>, k: nat)
    requires AllWellFormed(pieces) && 0 < k < |pieces| && Typed(pieces[0], args)
    requires AllTyped(pieces[1..][..k], Rest(pieces[0], args))
    ensures AllTyped(pieces[..k + 1], args)
    ensures EmittedAll(pieces[..k + 1], args)
         == Emitted(pieces[0], args) + EmittedAll(pieces[1..][..k], Rest(pieces[0], args))
  {
    FirstEmitted(pieces, args, k + 1);
  }

  lemma {:induction false} TakenFromFirst(pieces: seq<Piece>, k: nat)
    requires 0 < k <= |pieces|
    ensures Taken(pieces, k) == (if TakesArgument(pieces[0]) then 1 else 0) + Taken(pieces[1..], k - 1)
  {
    if k > 1 {
      TakenFromFirst(pieces, k - 1);
      assert pieces[1..][k - 2] == pieces[k - 1];
    }
  }

  lemma JoinEmitted(a: string, b: string, c: string)
    ensures (a + b) + c == a + (b + c)
  {
  }
}
