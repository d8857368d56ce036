/** The total order on doubles that compares their bit patterns as integers, and its agreement
    with the numbers that the patterns encode (sections 3.4 and 5.10 of IEEE 754-2008). */
module FloatOrder {
  import opened BinaryNumbers

  // ----- the comparison, on the bits

  predicate Negative(b: bv64) {
    b & 0x8000_0000_0000_0000 != 0
  }

  /** The sign bit in every position: an arithmetic shift to the right by 63. */
  function Spread(b: bv64): bv64 {
    if Negative(b) then 0xFFFF_FFFF_FFFF_FFFF else 0
  }

  /** The pattern, with the bits below the sign flipped if the sign is set. */
  function SortKey(b: bv64): bv64 {
    b ^ (Spread(b) >> 1)
  }

  /** A signed integer as an unsigned one in the same order: its sign is flipped. */
  function Biased(b: bv64): bv64 {
    b ^ 0x8000_0000_0000_0000
  }

  function CompareTotal(u: bv64, v: bv64): int {
    if u == v then 0
    else if Less(Biased(SortKey(u)), Biased(SortKey(v))) then -1 else 1
  }

  // ----- the bits as numbers

  function Half(b: bv64): bv64 { b >> 1 }

  predicate Odd(b: bv64) { b & 1 == 1 }

  predicate Less(a: bv64, b: bv64) { a < b }

  lemma SameHalves(a: bv64, b: bv64)
    ensures Half(a) == Half(b) && Odd(a) == Odd(b) ==> a == b
  {
  }

  lemma HalvesLess(a: bv64, b: bv64)
    ensures Less(Half(a), Half(b)) ==> Less(a, b)
  {
  }

  lemma LastBitLess(a: bv64, b: bv64)
    ensures Half(a) == Half(b) && !Odd(a) && Odd(b) ==> Less(a, b)
  {
  }

  lemma LessAsymmetric(a: bv64, b: bv64)
    ensures !(Less(a, b) && Less(b, a))
  {
  }

  lemma BitsLexicographic()
    ensures Lexicographic(Half, Odd, Less)
  {
    forall x: bv64, y: bv64
      ensures Half(x) == Half(y) && Odd(x) == Odd(y) ==> x == y
      ensures Less(Half(x), Half(y)) ==> Less(x, y)
      ensures Half(x) == Half(y) && !Odd(x) && Odd(y) ==> Less(x, y)
      ensures !(Less(x, y) && Less(y, x))
    {
      SameHalves(x, y);
      HalvesLess(x, y);
      LastBitLess(x, y);
      LessAsymmetric(x, y);
    }
  }

  lemma DropByte(b: bv64)
    ensures Drop(Half, b, 8) == b >> 8
  {
  }

  lemma DropSeven(b: bv64)
    ensures Drop(Half, b, 7) == b >> 7
  {
  }

  /** What is left without the last `k` bytes. */
  function Bytes(b: bv64, k: nat): bv64 {
    if k == 0 then b else Bytes(b >> 8, k - 1)
  }

  lemma {:induction false} DropBytes(b: bv64, k: nat, n: nat)
    ensures Drop(Half, b, 8 * k + n) == Drop(Half, Bytes(b, k), n)
    decreases k
  {
    if k > 0 {
      DropByte(b);
      DropMore(Half, b, 8, 8 * (k - 1) + n);
      DropBytes(b >> 8, k - 1, n);
    }
  }

  lemma TwoBytes(b: bv64, k: nat)
    ensures Bytes(b, k + 2) == Bytes(b >> 16, k)
  {
    assert (b >> 8) >> 8 == b >> 16;
  }

  lemma Shifts(b: bv64)
    ensures (b >> 16) >> 16 == b >> 32 && (b >> 32) >> 16 == b >> 48
    ensures (b >> 48) >> 8 == b >> 56 && (b >> 48) >> 16 == 0
  {
  }

  lemma SevenBytes(b: bv64)
    ensures Bytes(b, 7) == b >> 56 && Bytes(b, 8) == 0
  {
    SixBytes(b, 1);
    SixBytes(b, 2);
    Shifts(b);
    TwoBytes(b >> 48, 0);
  }

  lemma SixBytes(b: bv64, k: nat)
    ensures Bytes(b, k + 6) == Bytes(b >> 48, k)
  {
    Shifts(b);
    TwoBytes(b, k + 4);
    TwoBytes(b >> 16, k + 2);
    TwoBytes(b >> 32, k);
  }

  /** Without its last 63 bits a pattern is its sign, and without all of them nothing. */
  lemma DropAll(b: bv64)
    ensures Drop(Half, b, 63) == (b >> 56) >> 7
    ensures Drop(Half, b, 64) == 0
  {
    SevenBytes(b);
    DropBytes(b, 7, 7);
    DropSeven(b >> 56);
    DropBytes(b, 8, 0);
  }

  lemma SignBit(b: bv64)
    ensures Odd((b >> 56) >> 7) == Negative(b)
  {
  }

  /** The low 63 bits as a number: exponent and fraction. */
  function Low(b: bv64): nat {
    Number(Half, Odd, b, 63)
  }

  /** All the bits as a number. */
  function Nat(b: bv64): nat {
    Number(Half, Odd, b, 64)
  }

  const TWO63: nat := 0x8000_0000_0000_0000

  /** The sign counts 2^63, and the other bits together less. */
  lemma NatParts(b: bv64)
    ensures Low(b) < TWO63 && Nat(b) == Low(b) + (if Negative(b) then TWO63 else 0)
  {
    NumberBound(Half, Odd, b, 63);
    NumberTop(Half, Odd, b, 63);
    DropAll(b);
    SignBit(b);
    Pow2Of63();
  }

  /** The unsigned order of the patterns is the order of the numbers they write. */
  lemma NatOrder(a: bv64, b: bv64)
    ensures Less(a, b) <==> Nat(a) < Nat(b)
    ensures a == b <==> Nat(a) == Nat(b)
  {
    BitsLexicographic();
    DropAll(a);
    DropAll(b);
    NumberOrder(Half, Odd, Less, a, b, 64);
  }

  // ----- what the comparison does

  /** The key of a pattern, with the sign of the key flipped. */
  lemma PositiveKey(b: bv64)
    requires !Negative(b)
    ensures Biased(SortKey(b)) == b | 0x8000_0000_0000_0000
  {
  }

  lemma NegativeKey(b: bv64)
    requires Negative(b)
    ensures Biased(SortKey(b)) == Not(b)
  {
  }

  lemma PositiveOrder(u: bv64, v: bv64)
    requires !Negative(u) && !Negative(v)
    ensures Less(u | 0x8000_0000_0000_0000, v | 0x8000_0000_0000_0000) <==> Less(u, v)
  {
  }

  function Not(b: bv64): bv64 { !b }

  lemma NotReverses(u: bv64, v: bv64)
    requires Less(v, u)
    ensures Less(Not(u), Not(v))
  {
  }

  lemma NotTwice(u: bv64)
    ensures Not(Not(u)) == u
  {
  }

  lemma NegativeOrder(u: bv64, v: bv64)
    ensures Less(Not(u), Not(v)) <==> Less(v, u)
  {
    if Less(v, u) {
      NotReverses(u, v);
    } else if Less(Not(u), Not(v)) {
      NotReverses(Not(v), Not(u));
      NotTwice(u);
      NotTwice(v);
    }
  }

  lemma MixedOrder(u: bv64, v: bv64)
    requires !Negative(u) && Negative(v)
    ensures Less(Not(v), u | 0x8000_0000_0000_0000)
  {
  }

  /** Patterns without a sign compare as they are, those with one the other way round, and a
      pattern with a sign comes before one without. */
  lemma CompareCases(u: bv64, v: bv64)
    requires u != v
    ensures CompareTotal(u, v) == -1
            <==> if Negative(u) then !Negative(v) || Less(v, u) else !Negative(v) && Less(u, v)
  {
    if Negative(u) {
      NegativeKey(u);
    } else {
      PositiveKey(u);
    }
    if Negative(v) {
      NegativeKey(v);
    } else {
      PositiveKey(v);
    }
    if Negative(u) && Negative(v) {
      NegativeOrder(u, v);
    } else if Negative(u) {
      MixedOrder(v, u);
    } else if Negative(v) {
      MixedOrder(u, v);
      LessAsymmetric(Not(v), u | 0x8000_0000_0000_0000);
    } else {
      PositiveOrder(u, v);
    }
  }

  /** The place of a pattern in the order: the number of its low bits, or minus that less one. */
  function Place(b: bv64): int {
    SignedPlace(Negative(b), Low(b))
  }

  function SignedPlace(negative: bool, m: nat): int {
    if negative then -1 - m else m
  }

  function Sign(a: int, b: int): int {
    if a == b then 0 else if a < b then -1 else 1
  }

  /** The comparison of the source is the comparison of the places. */
  lemma ComparePlaces(u: bv64, v: bv64)
    ensures CompareTotal(u, v) == Sign(Place(u), Place(v))
    ensures u == v <==> Place(u) == Place(v)
  {
    NatParts(u);
    NatParts(v);
    NatOrder(u, v);
    NatOrder(v, u);
    if u != v {
      CompareCases(u, v);
    }
  }

  /** A strict total order on all patterns: zero only on equal ones, antisymmetric, transitive. */
  lemma TotalOrder(u: bv64, v: bv64, w: bv64)
    ensures CompareTotal(u, v) == 0 <==> u == v
    ensures CompareTotal(u, v) == -CompareTotal(v, u)
    ensures CompareTotal(u, v) <= 0 && CompareTotal(v, w) <= 0 ==> CompareTotal(u, w) <= 0
    ensures CompareTotal(u, v) < 0 && CompareTotal(v, w) <= 0 ==> CompareTotal(u, w) < 0
  {
    Antisymmetric(u, v);
    Transitive(u, v, w);
  }

  lemma Antisymmetric(u: bv64, v: bv64)
    ensures CompareTotal(u, v) == -CompareTotal(v, u)
  {
    calc {
      CompareTotal(u, v);
      { ComparePlaces(u, v); }
      Sign(Place(u), Place(v));
      { SignFlips(Place(u), Place(v)); }
      -Sign(Place(v), Place(u));
      { ComparePlaces(v, u); }
      -CompareTotal(v, u);
    }
  }

  lemma SignFlips(a: int, b: int)
    ensures Sign(a, b) == -Sign(b, a)
  {
  }

  lemma Transitive(u: bv64, v: bv64, w: bv64)
    ensures CompareTotal(u, v) <= 0 && CompareTotal(v, w) <= 0 ==> CompareTotal(u, w) <= 0
    ensures CompareTotal(u, v) < 0 && CompareTotal(v, w) <= 0 ==> CompareTotal(u, w) < 0
  {
    ComparePlaces(u, v);
    ComparePlaces(v, w);
    ComparePlaces(u, w);
  }

  // ----- the encoded numbers

  const TWO52: nat := 0x10_0000_0000_0000

  function Exponent(m: nat): nat { m / TWO52 }

  function Fraction(m: nat): nat { m % TWO52 }

  /** The magnitude that the low bits encode, in units of 2^-1074, the least subnormal. */
  function Magnitude(m: nat): nat {
    if Exponent(m) == 0 then Fraction(m) else (TWO52 + Fraction(m)) * Pow2(Exponent(m) - 1)
  }

  predicate Finite(b: bv64) {
    Exponent(Low(b)) < 2047
  }

  /** The number, in the same units. */
  function Value(b: bv64): int
    requires Finite(b)
  {
    SignedMagnitude(Negative(b), Low(b))
  }

  function SignedMagnitude(negative: bool, m: nat): int {
    if negative then -(Magnitude(m) as int) else Magnitude(m)
  }

  lemma {:induction false} Pow2Monotone(a: nat, b: nat)
    requires a <= b
    ensures 0 < Pow2(a) <= Pow2(b)
    decreases b
  {
    if a < b {
      Pow2Monotone(a, b - 1);
    } else if b > 0 {
      Pow2Monotone(a - 1, b - 1);
    }
  }

  lemma Scale(a: nat, b: nat, p: nat)
    requires p > 0
    ensures a < b ==> a * p < b * p
    ensures a <= b ==> a * p <= b * p
  {
  }

  /** A magnitude lies in the binade of its exponent. */
  lemma Binade(m: nat)
    ensures Magnitude(m) < TWO52 * Pow2(Exponent(m))
    ensures Exponent(m) > 0 ==> Magnitude(m) >= TWO52 * Pow2(Exponent(m) - 1)
  {
    var e, f := Exponent(m), Fraction(m);
    if e > 0 {
      var p := Pow2(e - 1);
      Pow2Monotone(e - 1, e - 1);
      Scale(TWO52 + f, 2 * TWO52, p);
      Scale(TWO52, TWO52 + f, p);
      assert Pow2(e) == 2 * p;
    }
  }

  /** Greater patterns encode greater magnitudes, across subnormals and exponent boundaries. */
  lemma MagnitudeMonotone(m: nat, n: nat)
    requires m < n
    ensures Magnitude(m) < Magnitude(n)
  {
    var d, e := Exponent(m), Exponent(n);
    assert m == d * TWO52 + Fraction(m) && n == e * TWO52 + Fraction(n);
    if d == e {
      if e > 0 {
        Pow2Monotone(e - 1, e - 1);
        Scale(TWO52 + Fraction(m), TWO52 + Fraction(n), Pow2(e - 1));
      }
    } else {
      assert d < e;
      Binade(m);
      Binade(n);
      Pow2Monotone(d, e - 1);
    }
  }

  lemma MagnitudeZero(m: nat)
    ensures Magnitude(m) == 0 <==> m == 0
  {
    assert Magnitude(0) == 0;
    if m > 0 {
      MagnitudeMonotone(0, m);
    }
  }

  lemma MagnitudeOrder(m: nat, n: nat)
    ensures m < n <==> Magnitude(m) < Magnitude(n)
    ensures m == n <==> Magnitude(m) == Magnitude(n)
  {
    if m < n {
      MagnitudeMonotone(m, n);
    } else if n < m {
      MagnitudeMonotone(n, m);
    }
  }

  /** On finite doubles the order is the numeric one, except that it puts -0 before +0. */
  lemma AgreesWithNumbers(u: bv64, v: bv64)
    requires Finite(u) && Finite(v)
    ensures CompareTotal(u, v) < 0
            <==> Value(u) < Value(v) || (Low(u) == Low(v) == 0 && Negative(u) && !Negative(v))
    ensures Value(u) == Value(v) <==> u == v || Low(u) == Low(v) == 0
  {
    LessPlaces(u, v);
    ValuesAgree(u, v);
  }

  lemma LessPlaces(u: bv64, v: bv64)
    ensures CompareTotal(u, v) < 0 <==> Place(u) < Place(v)
    ensures u == v <==> Place(u) == Place(v)
  {
    ComparePlaces(u, v);
  }

  lemma ValuesAgree(u: bv64, v: bv64)
    requires Finite(u) && Finite(v)
    ensures Place(u) < Place(v)
            <==> Value(u) < Value(v) || (Low(u) == Low(v) == 0 && Negative(u) && !Negative(v))
    ensures Value(u) == Value(v) <==> Place(u) == Place(v) || Low(u) == Low(v) == 0
  {
    PlacesAgree(Negative(u), Low(u), Negative(v), Low(v));
  }

  /** The same of a sign and the number of the low bits. */
  lemma PlacesAgree(s: bool, m: nat, t: bool, n: nat)
    ensures SignedPlace(s, m) < SignedPlace(t, n)
            <==> SignedMagnitude(s, m) < SignedMagnitude(t, n) || (m == n == 0 && s && !t)
    ensures SignedMagnitude(s, m) == SignedMagnitude(t, n)
            <==> SignedPlace(s, m) == SignedPlace(t, n) || m == n == 0
  {
    MagnitudeOrder(m, n);
    MagnitudeZero(m);
    MagnitudeZero(n);
  }

  /** The infinities lie beyond all finite doubles, and the NaNs beyond the infinities, each on
      the side of its sign. */
  lemma SpecialValues(u: bv64, special: bv64, infinity: bv64)
    requires Finite(u) && !Finite(special)
    requires Low(infinity) == 2047 * TWO52 && Negative(infinity) == Negative(special)
    ensures CompareTotal(u, special) == if Negative(special) then 1 else -1
    ensures CompareTotal(infinity, special)
            == if special == infinity then 0 else if Negative(special) then 1 else -1
  {
    ComparePlaces(u, special);
    ComparePlaces(infinity, special);
  }
}
