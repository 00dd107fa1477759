/**
 * The C++ integer types that downCast converts between, the conversions C++
 * applies to them, and downCast itself, together with the sizeof32 macro
 * built on it (include/Common.h).
 *
 * A value of an integer type is modelled as a mathematical integer that lies
 * in the type's range. The platform is LP64 (size_t is 64-bit unsigned), and
 * conversion to a signed type is the modular (two's complement) conversion
 * that GCC and Clang define.
 */
module Narrowing {

  /** The widths of the C++ integer types. */
  datatype Width = W8 | W16 | W32 | W64

  /** A C++ integer type: its width and whether it is signed. */
  datatype IntType = IntType(width: Width, signed: bool)

  /** `int`, the target of integral promotion. */
  const Int: IntType := IntType(W32, true)
  /** `uint32_t`, the result type of sizeof32. */
  const UInt32: IntType := IntType(W32, false)
  /** `size_t`, the type of a sizeof expression. */
  const SizeT: IntType := IntType(W64, false)

  function Bits(w: Width): nat
  {
    match w
    case W8 => 8
    case W16 => 16
    case W32 => 32
    case W64 => 64
  }

  /** 2 to the power Bits(w): the number of values of a type of width w. */
  function Modulus(w: Width): int
  {
    match w
    case W8 => 0x100
    case W16 => 0x1_0000
    case W32 => 0x1_0000_0000
    case W64 => 0x1_0000_0000_0000_0000
  }

  function Min(t: IntType): int
  {
    if t.signed then -(Modulus(t.width) / 2) else 0
  }

  function Max(t: IntType): int
  {
    if t.signed then Modulus(t.width) / 2 - 1 else Modulus(t.width) - 1
  }

  /** x is a value of type t. */
  predicate InRange(t: IntType, x: int)
  {
    Min(t) <= x <= Max(t)
  }

  /**
   * x modulo 2 to the power Bits(w), in [0, Modulus(w)). Each case names its
   * modulus as a literal, which keeps the solver's reasoning about % linear.
   */
  function Reduce(w: Width, x: int): int
  {
    match w
    case W8 => x % 0x100
    case W16 => x % 0x1_0000
    case W32 => x % 0x1_0000_0000
    case W64 => x % 0x1_0000_0000_0000_0000
  }

  /** A residue reduces to itself, and so does the residue minus the modulus. */
  lemma ReduceResidue(w: Width, u: int)
    requires 0 <= u < Modulus(w)
    ensures Reduce(w, u) == u
    ensures Reduce(w, u - Modulus(w)) == u
  {
  }

  /** Between minus and plus the modulus, only 0 reduces to 0. */
  lemma ReduceZero(w: Width, d: int)
    requires -Modulus(w) < d < Modulus(w)
    ensures Reduce(w, d) == 0 <==> d == 0
  {
    if d >= 0 {
      ReduceResidue(w, d);
    } else {
      ReduceResidue(w, d + Modulus(w));
    }
  }

  /**
   * Numbers equal modulo a wide type's modulus are equal modulo a narrower
   * one's, by halving the width one step at a time.
   */
  lemma ReduceNarrower(x: int, y: int, narrow: Width, wide: Width)
    requires Bits(narrow) <= Bits(wide)
    requires Reduce(wide, x) == Reduce(wide, y)
    ensures Reduce(narrow, x) == Reduce(narrow, y)
    decreases Bits(wide)
  {
    if narrow != wide {
      match wide
      case W16 =>
        Halve16(x, y);
        ReduceNarrower(x, y, narrow, W8);
      case W32 =>
        Halve32(x, y);
        ReduceNarrower(x, y, narrow, W16);
      case W64 =>
        Halve64(x, y);
        ReduceNarrower(x, y, narrow, W32);
    }
  }

  lemma Halve16(x: int, y: int)
    requires x % 0x1_0000 == y % 0x1_0000
    ensures x % 0x100 == y % 0x100
  {
    ReduceTwice16(x);
    ReduceTwice16(y);
  }

  lemma ReduceTwice16(x: int)
    ensures x % 0x100 == (x % 0x1_0000) % 0x100
  {
    var q := x / 0x1_0000;
    assert x == (q * 0x100) * 0x100 + x % 0x1_0000;
    DropMultiple8(q * 0x100, x % 0x1_0000);
  }

  lemma DropMultiple8(a: int, r: int)
    ensures (a * 0x100 + r) % 0x100 == r % 0x100
  {
  }

  lemma Halve32(x: int, y: int)
    requires x % 0x1_0000_0000 == y % 0x1_0000_0000
    ensures x % 0x1_0000 == y % 0x1_0000
  {
    ReduceTwice32(x);
    ReduceTwice32(y);
  }

  lemma ReduceTwice32(x: int)
    ensures x % 0x1_0000 == (x % 0x1_0000_0000) % 0x1_0000
  {
    var q := x / 0x1_0000_0000;
    assert x == (q * 0x1_0000) * 0x1_0000 + x % 0x1_0000_0000;
    DropMultiple16(q * 0x1_0000, x % 0x1_0000_0000);
  }

  lemma DropMultiple16(a: int, r: int)
    ensures (a * 0x1_0000 + r) % 0x1_0000 == r % 0x1_0000
  {
  }

  lemma Halve64(x: int, y: int)
    requires x % 0x1_0000_0000_0000_0000 == y % 0x1_0000_0000_0000_0000
    ensures x % 0x1_0000_0000 == y % 0x1_0000_0000
  {
    ReduceTwice64(x);
    ReduceTwice64(y);
  }

  lemma ReduceTwice64(x: int)
    ensures x % 0x1_0000_0000 == (x % 0x1_0000_0000_0000_0000) % 0x1_0000_0000
  {
    var q := x / 0x1_0000_0000_0000_0000;
    assert x == (q * 0x1_0000_0000) * 0x1_0000_0000 + x % 0x1_0000_0000_0000_0000;
    DropMultiple32(q * 0x1_0000_0000, x % 0x1_0000_0000_0000_0000);
  }

  lemma DropMultiple32(a: int, r: int)
    ensures (a * 0x1_0000_0000 + r) % 0x1_0000_0000 == r % 0x1_0000_0000
  {
  }

  /**
   * The value that x takes when converted to type t, by static_cast or by an
   * implicit conversion: the one value of t that is congruent to x modulo
   * 2 to the power of t's width.
   */
  function Convert(t: IntType, x: int): (r: int)
    ensures InRange(t, r)
    ensures Reduce(t.width, r) == Reduce(t.width, x)
  {
    var m := Modulus(t.width);
    var u := Reduce(t.width, x);
    assert 0 <= u < m;
    ReduceResidue(t.width, u);
    if t.signed && u >= m / 2 then u - m else u
  }

  /** A value of t is unchanged by conversion to t. */
  lemma ConvertKeepsInRange(t: IntType, x: int)
    requires InRange(t, x)
    ensures Convert(t, x) == x
  {
    if x >= 0 {
      ReduceResidue(t.width, x);
    } else {
      ReduceResidue(t.width, x + Modulus(t.width));
    }
  }

  /** Values congruent modulo t's width convert to the same value. */
  lemma ConvertCongruent(t: IntType, x: int, y: int)
    requires Reduce(t.width, x) == Reduce(t.width, y)
    ensures Convert(t, x) == Convert(t, y)
  {
  }

  /** Integral promotion: a type narrower than int becomes int. */
  function Promote(t: IntType): (r: IntType)
    ensures forall x :: InRange(t, x) ==> InRange(r, x)
  {
    if Bits(t.width) < 32 then Int else t
  }

  /**
   * The usual arithmetic conversions for integers: the type to which both
   * operands of a binary operator are converted. Ranks follow widths, so
   * of two promoted types of different signedness the unsigned one wins
   * unless the signed one is strictly wider.
   */
  function CommonType(a: IntType, b: IntType): (c: IntType)
    ensures Bits(c.width) >= Bits(a.width) && Bits(c.width) >= Bits(b.width)
    ensures c.signed ==> forall x :: InRange(a, x) ==> InRange(c, x)
    ensures c.signed ==> forall x :: InRange(b, x) ==> InRange(c, x)
  {
    var pa, pb := Promote(a), Promote(b);
    if pa.signed == pb.signed then
      if Bits(pa.width) >= Bits(pb.width) then pa else pb
    else
      var u, s := if pa.signed then pb else pa, if pa.signed then pa else pb;
      if Bits(u.width) >= Bits(s.width) then u else s
  }

  /** The result of an arithmetic operation: a value, or undefined behaviour. */
  datatype Outcome = Defined(value: int) | Undefined

  /**
   * x - y for two operands of type t: unsigned arithmetic wraps around,
   * signed overflow is undefined behaviour.
   */
  function Subtract(t: IntType, x: int, y: int): (r: Outcome)
    requires InRange(t, x) && InRange(t, y)
    ensures !t.signed ==> r.Defined? && Reduce(t.width, r.value) == Reduce(t.width, x - y)
    ensures t.signed ==> (r.Defined? <==> InRange(t, x - y)) && (r.Defined? ==> r.value == x - y)
    ensures r.Defined? ==> InRange(t, r.value)
    ensures r == Defined(0) <==> x == y
  {
    var d := x - y;
    if !t.signed then
      ReduceZero(t.width, d);
      Defined(Convert(t, d))
    else if InRange(t, d) then Defined(d)
    else Undefined
  }

  /**
   * The expression `large - small` that downCast asserts to be zero, where
   * small is static_cast<Small>(large).
   */
  function Guard(large: IntType, small: IntType, v: int): (r: Outcome)
    requires InRange(large, v)
    ensures !CommonType(large, small).signed ==> r.Defined?
    ensures r.Defined? ==> InRange(CommonType(large, small), r.value)
  {
    var s := Convert(small, v);
    var c := CommonType(large, small);
    Subtract(c, Convert(c, v), Convert(c, s))
  }

  /**
   * The assertion `large - small == 0` in downCast holds: exactly when v and
   * its cast to Small are the same value once both are converted to the
   * common type of the subtraction.
   */
  predicate GuardHolds(large: IntType, small: IntType, v: int): (b: bool)
    requires InRange(large, v)
    ensures b <==> Convert(CommonType(large, small), v) == Convert(CommonType(large, small), Convert(small, v))
  {
    Guard(large, small, v) == Defined(0)
  }

  /**
   * downCast<Small, Large>(large): static_cast of v (of type large) to type
   * small, with the assertion as precondition. Converting the result back to
   * Large gives v; when both types have the same signedness the value itself
   * is unchanged.
   */
  function DownCast(small: IntType, large: IntType, v: int): (r: int)
    requires InRange(large, v)
    requires GuardHolds(large, small, v)
    ensures InRange(small, r)
    ensures Reduce(small.width, r) == Reduce(small.width, v)
    ensures Convert(large, r) == v
    ensures small.signed == large.signed ==> r == v
  {
    GuardRoundTrip(large, small, v);
    if small.signed == large.signed then
      GuardSameSignedness(large, small, v);
      ConvertKeepsInRange(small, v);
      Convert(small, v)
    else
      Convert(small, v)
  }

  /** When the guard holds, static_cast back to Large reproduces v. */
  lemma GuardRoundTrip(large: IntType, small: IntType, v: int)
    requires InRange(large, v)
    requires GuardHolds(large, small, v)
    ensures Convert(large, Convert(small, v)) == v
  {
    var s := Convert(small, v);
    var c := CommonType(large, small);
    var cv, cs := Convert(c, v), Convert(c, s);
    assert cv == cs;
    // v and s are congruent modulo the common type's modulus, hence modulo
    // Large's, which divides it
    assert Reduce(c.width, v) == Reduce(c.width, s);
    ReduceNarrower(v, s, large.width, c.width);
    ConvertCongruent(large, v, s);
    ConvertKeepsInRange(large, v);
  }

  /**
   * Between types of the same signedness the guard holds exactly when v is a
   * value of Small.
   */
  lemma GuardSameSignedness(large: IntType, small: IntType, v: int)
    requires InRange(large, v)
    requires large.signed == small.signed
    ensures GuardHolds(large, small, v) <==> InRange(small, v)
  {
    var s := Convert(small, v);
    var c := CommonType(large, small);
    if InRange(small, v) {
      ConvertKeepsInRange(small, v);
      assert s == v;
    } else if GuardHolds(large, small, v) {
      assert Convert(c, v) == Convert(c, s);
      if c.signed {
        ConvertKeepsInRange(c, v);
        ConvertKeepsInRange(c, s);
      } else {
        assert !large.signed && !small.signed;
        assert InRange(c, v) && InRange(c, s) by {
          assert Min(c) == 0 && Min(large) == 0 && Min(small) == 0;
          assert Max(large) <= Max(c) && Max(small) <= Max(c);
        }
        ConvertKeepsInRange(c, v);
        ConvertKeepsInRange(c, s);
      }
      assert false;
    }
  }

  /**
   * sizeof32(x): sizeof(x), a size_t, narrowed to uint32_t by downCast.
   */
  function SizeOf32(size: int): (r: int)
    requires InRange(SizeT, size)
    requires GuardHolds(SizeT, UInt32, size)
    ensures r == size
    ensures r < 0x1_0000_0000
  {
    DownCast(UInt32, SizeT, size)
  }

  /** The guard of sizeof32 holds exactly for sizes below 2^32. */
  lemma SizeOf32Guard(size: int)
    requires InRange(SizeT, size)
    ensures GuardHolds(SizeT, UInt32, size) <==> size < 0x1_0000_0000
  {
    GuardSameSignedness(SizeT, UInt32, size);
  }

  /**
   * Between types of different signedness the guard can pass while the value
   * changes: int -1 becomes uint32_t 4294967295, and uint32_t 4294967295
   * becomes int -1.
   */
  lemma MixedSignednessAccepted()
    ensures GuardHolds(Int, UInt32, -1) && DownCast(UInt32, Int, -1) == 0xFFFF_FFFF
    ensures GuardHolds(UInt32, Int, 0xFFFF_FFFF) && DownCast(Int, UInt32, 0xFFFF_FFFF) == -1
  {
  }

  /**
   * Integral promotion makes 8-bit conversions behave differently: uint8_t 255
   * to int8_t fails the guard (both sides are promoted to int, where
   * 255 - (-1) is 256), although the same reinterpretation passes at 32 bits.
   */
  lemma PromotionRejectsNarrowMixedSignedness()
    ensures !GuardHolds(IntType(W8, false), IntType(W8, true), 255)
    ensures Convert(IntType(W8, false), Convert(IntType(W8, true), 255)) == 255
  {
    var u8, i8 := IntType(W8, false), IntType(W8, true);
    assert Convert(i8, 255) == -1;
    assert CommonType(u8, i8) == Int;
    assert Convert(Int, 255) == 255 && Convert(Int, -1) == -1;
    assert Guard(u8, i8, 255) == Subtract(Int, 255, -1);
  }
}
