/** Numbers written in binary over any type of bit patterns: a pattern is known only by its last
    bit, by the pattern without that bit, and by an order that compares the greater bits first. */
module BinaryNumbers {

  function Pow2(k: nat): nat {
    if k == 0 then 1 else 2 * Pow2(k - 1)
  }

  lemma {:induction false} Pow2Sum(m: nat, n: nat)
    ensures Pow2(m + n) == Pow2(m) * Pow2(n)
  {
    if m > 0 {
      Pow2Sum(m - 1, n);
      Twice(Pow2(m - 1), Pow2(n));
    }
  }

  lemma Twice(a: nat, b: nat)
    ensures 2 * (a * b) == (2 * a) * b
  {
  }

  lemma Pow2Of63()
    ensures Pow2(63) == 0x8000_0000_0000_0000
  {
    assert Pow2(7) == 128;
    Pow2Sum(7, 7);
    Pow2Sum(7, 14);
    Pow2Sum(21, 21);
    Pow2Sum(42, 21);
  }

  /** What is left of `x` without its last `n` bits. */
  function Drop<T>(half: T -> T, x: T, n: nat): T {
    if n == 0 then x else Drop(half, half(x), n - 1)
  }

  /** The number that the last `n` bits of `x` write. */
  function Number<T>(half: T -> T, odd: T -> bool, x: T, n: nat): nat {
    if n == 0 then 0 else 2 * Number(half, odd, half(x), n - 1) + (if odd(x) then 1 else 0)
  }

  lemma {:induction false} NumberBound<T>(half: T -> T, odd: T -> bool, x: T, n: nat)
    ensures Number(half, odd, x, n) < Pow2(n)
    decreases n
  {
    if n > 0 {
      NumberBound(half, odd, half(x), n - 1);
    }
  }

  /** The bit in front of the last `n` counts 2^n. */
  lemma {:induction false} NumberTop<T>(half: T -> T, odd: T -> bool, x: T, n: nat)
    ensures Number(half, odd, x, n + 1)
         == Number(half, odd, x, n) + (if odd(Drop(half, x, n)) then Pow2(n) else 0)
    decreases n
  {
    if n > 0 {
      NumberTop(half, odd, half(x), n - 1);
    }
  }

  lemma {:induction false} DropMore<T>(half: T -> T, x: T, m: nat, n: nat)
    ensures Drop(half, x, m + n) == Drop(half, Drop(half, x, m), n)
    decreases m
  {
    if m > 0 {
      DropMore(half, half(x), m - 1, n);
    }
  }

  /** The patterns are determined by their bits, and `less` is decided by the greatest bit in
      which they differ. */
  ghost predicate Lexicographic<T(!new)>(half: T -> T, odd: T -> bool, less: (T, T) -> bool) {
    && (forall x, y {:trigger half(x), half(y)} :: half(x) == half(y) && odd(x) == odd(y) ==> x == y)
    && (forall x, y {:trigger half(x), half(y)} :: less(half(x), half(y)) ==> less(x, y))
    && (forall x, y {:trigger half(x), half(y)} :: half(x) == half(y) && !odd(x) && odd(y) ==> less(x, y))
    && (forall x, y {:trigger less(x, y)} :: !(less(x, y) && less(y, x)))
  }

  lemma {:induction false} NumberInjective<T(!new)>(half: T -> T, odd: T -> bool, less: (T, T) -> bool,
                                                    x: T, y: T, n: nat)
    requires Lexicographic(half, odd, less) && Drop(half, x, n) == Drop(half, y, n)
    requires Number(half, odd, x, n) == Number(half, odd, y, n)
    ensures x == y
    decreases n
  {
    if n > 0 {
      NumberInjective(half, odd, less, half(x), half(y), n - 1);
    }
  }

  lemma {:induction false} NumberLess<T(!new)>(half: T -> T, odd: T -> bool, less: (T, T) -> bool,
                                               x: T, y: T, n: nat)
    requires Lexicographic(half, odd, less) && Drop(half, x, n) == Drop(half, y, n)
    requires Number(half, odd, x, n) < Number(half, odd, y, n)
    ensures less(x, y)
    decreases n
  {
    var h, k := half(x), half(y);
    if Number(half, odd, h, n - 1) < Number(half, odd, k, n - 1) {
      NumberLess(half, odd, less, h, k, n - 1);
    } else {
      NumberInjective(half, odd, less, h, k, n - 1);
    }
  }

  /** The order of the patterns is the order of the numbers they write. */
  lemma NumberOrder<T(!new)>(half: T -> T, odd: T -> bool, less: (T, T) -> bool, x: T, y: T, n: nat)
    requires Lexicographic(half, odd, less) && Drop(half, x, n) == Drop(half, y, n)
    ensures less(x, y) <==> Number(half, odd, x, n) < Number(half, odd, y, n)
    ensures x == y <==> Number(half, odd, x, n) == Number(half, odd, y, n)
  {
    var a, b := Number(half, odd, x, n), Number(half, odd, y, n);
    if a < b {
      NumberLess(half, odd, less, x, y, n);
    } else if b < a {
      NumberLess(half, odd, less, y, x, n);
    } else {
      NumberInjective(half, odd, less, x, y, n);
    }
    assert !(less(x, y) && less(y, x));
  }
}
