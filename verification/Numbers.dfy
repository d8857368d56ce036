/** The number printers of the format library: decimal, least digit first and then reversed, and
    hexadecimal, greatest digit first. */
module Numbers {

  /** The size of the callers' buffer and of the local one. */
  const BUFFER_SIZE: nat := 22

  // ----- numerals

  function DigitChar(d: nat): char
    requires d < 16
  {
    if d > 9 then 'A' + (d - 10) as char else '0' + d as char
  }

  function DigitValue(c: char): nat {
    if '0' <= c <= '9' then (c - '0') as nat
    else if 'A' <= c <= 'F' then 10 + (c - 'A') as nat
    else 0
  }

  predicate IsDigit(c: char) {
    '0' <= c <= '9' || 'A' <= c <= 'F'
  }

  lemma DigitReadsBack(d: nat)
    requires d < 16
    ensures DigitChar(d) == "0123456789ABCDEF"[d]
    ensures DigitValue(DigitChar(d)) == d && IsDigit(DigitChar(d)) && (d > 0 ==> DigitChar(d) != '0')
  {
  }

  /** The canonical numeral of `n`: no leading zero, except for zero itself. */
  function Numeral(n: nat, base: nat): (s: string)
    requires 2 <= base <= 16
    ensures s != []
    decreases n
  {
    if n < base then [DigitChar(n)] else Numeral(n / base, base) + [DigitChar(n % base)]
  }

  /** The value of a numeral, read from left to right. */
  function Read(s: string, base: nat): nat {
    if s == [] then 0 else Read(s[..|s| - 1], base) * base + DigitValue(s[|s| - 1])
  }

  /** The C string in a buffer: what comes before the first zero. */
  function CString(s: string): string {
    if s == [] || s[0] == '\0' then [] else [s[0]] + CString(s[1..])
  }

  lemma DivMod(n: nat, base: nat)
    requires base > 0
    ensures (n / base) * base + n % base == n
    ensures n >= base ==> n / base > 0
  {
  }

  /** A numeral reads back as the number. */
  lemma {:induction false} NumeralReadsBack(n: nat, base: nat)
    requires 2 <= base <= 16
    ensures Read(Numeral(n, base), base) == n
    decreases n
  {
    if n < base {
      DigitReadsBack(n);
      ReadLast([], DigitChar(n), base);
      assert [] + [DigitChar(n)] == Numeral(n, base);
    } else {
      NumeralReadsBack(n / base, base);
      ReadNext(Numeral(n / base, base), n, base);
    }
  }

  lemma ReadNext(s: string, n: nat, base: nat)
    requires 2 <= base <= 16 && Read(s, base) == n / base
    ensures Read(s + [DigitChar(n % base)], base) == n
  {
    DigitReadsBack(n % base);
    ReadLast(s, DigitChar(n % base), base);
    DivMod(n, base);
  }

  /** A numeral consists of digits below its base, and has no leading zero. */
  lemma {:induction false} NumeralCanonical(n: nat, base: nat)
    requires 2 <= base <= 16
    ensures n > 0 ==> Numeral(n, base)[0] != '0'
    ensures forall i :: 0 <= i < |Numeral(n, base)| ==>
              IsDigit(Numeral(n, base)[i]) && DigitValue(Numeral(n, base)[i]) < base
    decreases n
  {
    if n < base {
      DigitReadsBack(n);
    } else {
      DivMod(n, base);
      NumeralCanonical(n / base, base);
      DigitReadsBack(n % base);
    }
  }

  lemma ReadLast(s: string, c: char, base: nat)
    ensures Read(s + [c], base) == Read(s, base) * base + DigitValue(c)
  {
  }

  function Pow(base: nat, k: nat): nat {
    if k == 0 then 1 else base * Pow(base, k - 1)
  }

  lemma DivLess(n: nat, base: nat, p: nat)
    requires base > 0 && n < base * p
    ensures n / base < p
  {
  }

  /** A number below base^k has at most k digits. */
  lemma {:induction false} NumeralLength(n: nat, base: nat, k: nat)
    requires 2 <= base <= 16 && k > 0 && n < Pow(base, k)
    ensures |Numeral(n, base)| <= k
    decreases k
  {
    if n >= base {
      assert Pow(base, 0) == 1 && Pow(base, 1) == base * Pow(base, 0);
      DivLess(n, base, Pow(base, k - 1));
      NumeralLength(n / base, base, k - 1);
    }
  }

  lemma {:induction false} CStringOf(s: string, rest: string)
    requires forall i :: 0 <= i < |s| ==> s[i] != '\0'
    ensures CString(s + ['\0'] + rest) == s
  {
    if s == [] {
      assert s + ['\0'] + rest == ['\0'] + rest;
    } else {
      assert (s + ['\0'] + rest)[1..] == s[1..] + ['\0'] + rest;
      CStringOf(s[1..], rest);
    }
  }

  // ----- decimal

  /** The digits that a buffer holds, last one first, once `n` is down to `rest`. */
  ghost predicate Emitted(n: nat, rest: nat, digits: string) {
    var s := Numeral(n, 10);
    && |digits| <= |s|
    && (forall j :: 0 <= j < |digits| ==> digits[j] == s[|s| - 1 - j])
    && if rest == 0 then |digits| == |s| else Numeral(rest, 10) == s[..|s| - |digits|]
  }

  lemma EmitOne(n: nat, rest: nat, digits: string)
    requires Emitted(n, rest, digits) && rest > 0
    ensures Emitted(n, rest / 10, digits + [DigitChar(rest % 10)])
  {
  }

  /** Writes the digits of a positive number into `lbuf` from `start` on, least one first. */
  method EmitDigits(n: nat, lbuf: array<char>, start: nat) returns (pos: nat)
    requires n > 0 && start + |Numeral(n, 10)| <= lbuf.Length
    modifies lbuf
    ensures pos == start + |Numeral(n, 10)|
    ensures Emitted(n, 0, lbuf[start..pos]) && lbuf[..start] == old(lbuf[..start])
  {
    pos := start;
    var number := n;
    while number > 0
      invariant start <= pos <= start + |Numeral(n, 10)|
      invariant Emitted(n, number, lbuf[start..pos]) && lbuf[..start] == old(lbuf[..start])
      decreases number
    {
      var div := number / 10;
      EmitOne(n, number, lbuf[start..pos]);
      ghost var digits := lbuf[start..pos];
      lbuf[pos] := '0' + (number - div * 10) as char;
      pos := pos + 1;
      assert lbuf[start..pos] == digits + [DigitChar(number % 10)];
      number := div;
    }
  }

  /** Copies the first `pos` characters back to front, and terminates the string. */
  method CopyBack(lbuf: array<char>, pos: nat, aout: array<char>)
    requires pos <= lbuf.Length && pos < aout.Length && lbuf != aout
    modifies aout
    ensures forall i :: 0 <= i < pos ==> aout[i] == lbuf[pos - 1 - i]
    ensures aout[pos] == '\0'
  {
    for i := 0 to pos
      invariant forall j :: 0 <= j < i ==> aout[j] == lbuf[pos - 1 - j]
    {
      aout[i] := lbuf[pos - i - 1];
    }
    aout[pos] := '\0';
  }

  /** The buffer holds the string `s` and its terminator. */
  ghost predicate Holds(buf: string, s: string) {
    |s| < |buf| && buf[..|s|] == s && buf[|s|] == '\0'
  }

  lemma HoldsString(buf: string, s: string)
    requires Holds(buf, s) && forall i :: 0 <= i < |s| ==> s[i] != '\0'
    ensures CString(buf) == s
  {
    assert buf == s + ['\0'] + buf[|s| + 1..];
    CStringOf(s, buf[|s| + 1..]);
  }

  lemma HoldsNumeral(buf: string, n: nat, base: nat)
    requires 2 <= base <= 16 && Holds(buf, Numeral(n, base))
    ensures CString(buf) == Numeral(n, base)
  {
    NumeralCanonical(n, base);
    HoldsString(buf, Numeral(n, base));
  }

  lemma Pow10Bound(n: nat)
    requires n < 0x1_0000_0000_0000_0000
    ensures |Numeral(n, 10)| <= 20
  {
    assert Pow(10, 5) == 100_000;
    assert Pow(10, 10) == 10_000_000_000;
    assert Pow(10, 15) == 1_000_000_000_000_000;
    assert Pow(10, 20) == 100_000_000_000_000_000_000;
    NumeralLength(n, 10, 20);
  }

  /** Prints an unsigned 64-bit number: the string in the buffer is its decimal numeral. */
  method Lltoa(n: nat, aout: array<char>)
    requires n < 0x1_0000_0000_0000_0000 && aout.Length >= BUFFER_SIZE
    modifies aout
    ensures CString(aout[..]) == Numeral(n, 10) && |Numeral(n, 10)| + 1 <= BUFFER_SIZE
  {
    var lbuf := new char[BUFFER_SIZE];
    Pow10Bound(n);
    var pos := 0;
    if n == 0 {
      lbuf[0] := '0';
      pos := 1;
    } else {
      pos := EmitDigits(n, lbuf, 0);
    }
    CopyBack(lbuf, pos, aout);
    assert aout[..|Numeral(n, 10)|] == Numeral(n, 10);
    HoldsNumeral(aout[..], n, 10);
  }

  // ----- signed decimal

  const MIN_LONG: int := -0x8000_0000

  /** How a signed number should read. */
  function SignedNumeral(n: int): string {
    if n < 0 then ['-'] + Numeral(-n, 10) else Numeral(n, 10)
  }

  /** What the printer leaves in the buffer; `junk` is what the local buffer held at the start.
      For a negative number the sign is overwritten, and the first character of the local
      buffer, which nothing has written, is copied after the digits. */
  function ItoaString(n: int, junk: char): string {
    if n >= 0 then Numeral(n, 10)
    else if n == MIN_LONG then [junk]
    else Numeral(-n, 10) + [junk]
  }

  /** Prints a signed 32-bit number. The negation of the least one wraps to itself. */
  method Itoa(n: int, aout: array<char>, lbuf: array<char>)
    requires MIN_LONG <= n < 0x8000_0000
    requires aout.Length >= BUFFER_SIZE && lbuf.Length == BUFFER_SIZE && aout != lbuf
    modifies aout, lbuf
    ensures Holds(aout[..], ItoaString(n, old(lbuf[0])))
  {
    var pos, number := 0, n;
    if number < 0 {
      aout[0] := '-';
      pos := 1;
      number := if number == MIN_LONG then MIN_LONG else -number;
    }
    if number == 0 {
      lbuf[0] := '0';
      pos := pos + 1;
    }
    if number > 0 {
      Pow10Bound(number);
      pos := EmitDigits(number, lbuf, pos);
    }
    CopyBack(lbuf, pos, aout);
    assert aout[..pos] == ItoaString(n, old(lbuf[0])) by {
      ItoaBuffer(n, old(lbuf[0]), lbuf[..], pos, aout[..]);
    }
  }

  lemma ItoaBuffer(n: int, junk: char, lbuf: string, pos: nat, aout: string)
    requires MIN_LONG <= n && pos <= |lbuf| && pos < |aout|
    requires forall i :: 0 <= i < pos ==> aout[i] == lbuf[pos - 1 - i]
    requires n == 0 ==> pos == 1 && lbuf[0] == '0'
    requires n > 0 ==> pos == |Numeral(n, 10)| && Emitted(n, 0, lbuf[..pos])
    requires n < 0 ==> pos >= 1 && lbuf[0] == junk
    requires n == MIN_LONG ==> pos == 1
    requires MIN_LONG < n < 0 ==> pos == 1 + |Numeral(-n, 10)| && Emitted(-n, 0, lbuf[1..pos])
    ensures aout[..pos] == ItoaString(n, junk)
  {
    if n > 0 {
      var s := Numeral(n, 10);
      forall i | 0 <= i < pos
        ensures aout[i] == s[i]
      {
        assert lbuf[..pos][pos - 1 - i] == s[i];
      }
    } else if MIN_LONG < n < 0 {
      var s := Numeral(-n, 10);
      forall i | 0 <= i < pos - 1
        ensures aout[i] == s[i]
      {
        assert lbuf[1..pos][pos - 2 - i] == s[i];
      }
    }
  }

  /** So the printed string is the signed numeral exactly for the non-negative numbers. */
  lemma ItoaRight(n: int, junk: char, buf: string)
    requires MIN_LONG <= n < 0x8000_0000 && Holds(buf, ItoaString(n, junk))
    ensures CString(buf) == SignedNumeral(n) <==> n >= 0
  {
    if n >= 0 {
      HoldsNumeral(buf, n, 10);
    } else {
      var s := ItoaString(n, junk);
      if n > MIN_LONG {
        NumeralCanonical(-n, 10);
        assert buf[0] == s[0] == Numeral(-n, 10)[0];
        assert IsDigit(buf[0]);
        assert CString(buf)[0] == buf[0] && SignedNumeral(n)[0] == '-';
      } else {
        assert buf[1..][0] == '\0';
        assert CString(buf[1..]) == [];
        assert |CString(buf)| <= 1;
        assert |SignedNumeral(n)| >= 2;
      }
    }
  }

  /** What it prints for a negative number: the digits of its magnitude without a sign, and one
      character of junk; for the least number, the junk alone. */
  lemma ItoaNegative(n: int, junk: char)
    requires -0x8000_0000 <= n < 0
    ensures var s := ItoaString(n, junk);
            && s != [] && s[|s| - 1] == junk
            && (n == -0x8000_0000 ==> |s| == 1)
            && (n > -0x8000_0000 ==> |s| > 1 && s[0] != '0' && Read(s[..|s| - 1], 10) == -n)
            && forall i :: 0 <= i < |s| - 1 ==> '0' <= s[i] <= '9'
  {
    if n > MIN_LONG {
      var s := ItoaString(n, junk);
      assert s[..|s| - 1] == Numeral(-n, 10);
      NumeralReadsBack(-n, 10);
      NumeralCanonical(-n, 10);
      forall i | 0 <= i < |s| - 1
        ensures '0' <= s[i] <= '9'
      {
        assert s[i] == Numeral(-n, 10)[i];
      }
    }
  }

  // ----- hexadecimal

  /** The last `k` hexadecimal digits of `n`, leading zeros included. */
  function Padded(n: nat, k: nat): (s: string)
    ensures |s| == k
    decreases k
  {
    if k == 0 then [] else Padded(n / 16, k - 1) + [DigitChar(n % 16)]
  }

  lemma Div16(p: nat, r: nat)
    ensures (16 * p + r) / 16 == p + r / 16 && (16 * p + r) % 16 == r % 16
  {
  }

  lemma Mul16(q: nat, p: nat)
    ensures q * (16 * p) == 16 * (q * p)
  {
  }

  /** The greatest digit comes first. */
  lemma PaddedTop(q: nat, r: nat, k: nat)
    requires q < 16 && r < Pow(16, k)
    ensures Padded(q * Pow(16, k) + r, k + 1) == [DigitChar(q)] + Padded(r, k)
  {
    PaddedWith(q * Pow(16, k) + r, q, r, k);
  }

  /** `n` has the digit `q` in front of the `k` last ones, which write `r`. */
  ghost predicate TopIs(n: nat, q: nat, r: nat, k: nat) {
    n == q * Pow(16, k) + r && r < Pow(16, k)
  }

  lemma {:induction false} PaddedWith(n: nat, q: nat, r: nat, k: nat)
    requires q < 16 && TopIs(n, q, r, k)
    ensures Padded(n, k + 1) == [DigitChar(q)] + Padded(r, k)
    decreases k
  {
    if k == 0 {
      assert Padded(n / 16, 0) == [];
    } else {
      TopShift(n, q, r, k);
      PaddedWith(n / 16, q, r / 16, k - 1);
      PaddedLast(n, k, [DigitChar(q)], Padded(r / 16, k - 1));
    }
  }

  lemma TopShift(n: nat, q: nat, r: nat, k: nat)
    requires k > 0 && TopIs(n, q, r, k)
    ensures TopIs(n / 16, q, r / 16, k - 1) && n % 16 == r % 16
  {
    Mul16(q, Pow(16, k - 1));
    Div16(q * Pow(16, k - 1), r);
  }

  lemma PaddedLast(n: nat, k: nat, a: string, b: string)
    requires Padded(n / 16, k) == a + b
    ensures Padded(n, k + 1) == a + (b + [DigitChar(n % 16)])
  {
  }

  /** With exactly as many digits as needed, padding gives the canonical numeral. */
  lemma {:induction false} PaddedNumeral(n: nat, k: nat)
    requires n < Pow(16, k + 1) && (k > 0 ==> n >= Pow(16, k))
    ensures Padded(n, k + 1) == Numeral(n, 16)
    decreases k
  {
    if k == 0 {
      assert Pow(16, 1) == 16 * Pow(16, 0) == 16;
      assert Padded(n / 16, 0) == [];
    } else {
      assert Pow(16, k) == 16 * Pow(16, k - 1) && Pow(16, k + 1) == 16 * Pow(16, k);
      PowPositive(16, k - 1);
      if k == 1 {
        assert Pow(16, 0) == 1;
      }
      PaddedNumeral(n / 16, k - 1);
    }
  }

  lemma {:induction false} PowPositive(base: nat, k: nat)
    requires base > 0
    ensures Pow(base, k) > 0
  {
    if k > 0 {
      PowPositive(base, k - 1);
    }
  }

  /** Prints an unsigned 32-bit number in hexadecimal. A shift by `i` divides by 16^(i/4), and
      clearing the four bits at `i` subtracts that digit. */
  method Itox(n: nat, xout: array<char>)
    requires n < 0x1_0000_0000 && xout.Length >= BUFFER_SIZE
    modifies xout
    ensures CString(xout[..]) == Numeral(n, 16) && |Numeral(n, 16)| + 1 <= BUFFER_SIZE
  {
    var k := TopDigit(n);
    PaddedNumeral(n, k);
    EmitHex(n, k, xout);
    HoldsNumeral(xout[..], n, 16);
  }

  /** The position of the greatest digit. */
  method TopDigit(n: nat) returns (k: nat)
    requires n < 0x1_0000_0000
    ensures n < Pow(16, k + 1) && (k > 0 ==> n >= Pow(16, k)) && k < 8
  {
    var i := 0;
    k := 0;
    Pow16Bound();
    while n / Pow(16, i / 4) > 15
      invariant i == 4 * k && 0 <= k < 8 && (k > 0 ==> n >= Pow(16, k))
      decreases 32 - i
    {
      PowPositive(16, k);
      ShiftStep(n, k);
      assert k < 7;
      i := i + 4;
      k := k + 1;
    }
    PowPositive(16, k);
    ShiftDone(n, k);
  }

  lemma Pow16Bound()
    ensures Pow(16, 8) == 0x1_0000_0000
  {
  }

  lemma ShiftStep(n: nat, k: nat)
    requires Pow(16, k) > 0 && n / Pow(16, k) > 15
    ensures n >= Pow(16, k + 1)
  {
  }

  lemma ShiftDone(n: nat, k: nat)
    requires Pow(16, k) > 0 && n / Pow(16, k) <= 15
    ensures n < Pow(16, k + 1)
  {
    DivBounds(n, Pow(16, k));
  }

  lemma DivBounds(n: nat, p: nat)
    requires p > 0
    ensures n / p <= 15 <==> n < 16 * p
    ensures 0 <= n - (n / p) * p < p
  {
  }

  /** `done` has been printed, and `left` digits of `number` are still to come. */
  ghost predicate Printing(n: nat, k: nat, done: string, number: nat, left: nat) {
    |done| + left == k + 1 && number < Pow(16, left) && done + Padded(number, left) == Padded(n, k + 1)
  }

  lemma PrintOne(n: nat, k: nat, done: string, number: nat, left: nat, c: char, rest: nat)
    requires left > 0 && Printing(n, k, done, number, left) && rest < Pow(16, left - 1)
    requires Padded(number, left) == [c] + Padded(rest, left - 1)
    ensures Printing(n, k, done + [c], rest, left - 1)
  {
  }

  method EmitHex(n: nat, k: nat, xout: array<char>)
    requires k < 8 && n < Pow(16, k + 1) && xout.Length >= BUFFER_SIZE
    modifies xout
    ensures Holds(xout[..], Padded(n, k + 1))
  {
    var i, pos := 4 * k, 0;
    var number: nat := n;
    while i >= 0
      invariant i == 4 * (k - pos) && 0 <= pos <= k + 1
      invariant Printing(n, k, xout[..pos], number, k + 1 - pos)
      decreases i + 4
    {
      var digit, rest := NextDigit(number, i / 4);
      PrintOne(n, k, xout[..pos], number, k + 1 - pos, DigitChar(digit), rest);
      ghost var done := xout[..pos] + [DigitChar(digit)];
      xout[pos] := DigitChar(digit);
      pos := pos + 1;
      assert xout[..pos] == done;
      number := rest;
      i := i - 4;
    }
    xout[pos] := '\0';
    assert xout[..pos] == Padded(n, k + 1);
  }

  /** Splits the digit at position `k` off: shift it down, then clear its four bits. */
  method NextDigit(number: nat, k: nat) returns (digit: nat, rest: nat)
    requires number < Pow(16, k + 1)
    ensures digit < 16 && rest < Pow(16, k)
    ensures Padded(number, k + 1) == [DigitChar(digit)] + Padded(rest, k)
  {
    var p := Pow(16, k);
    PowPositive(16, k);
    DivBounds(number, p);
    digit := number / p;
    var bits := digit % 16;
    assert bits == digit;
    rest := number - bits * p;
    assert number == digit * p + rest;
    PaddedTop(digit, rest, k);
  }
}
