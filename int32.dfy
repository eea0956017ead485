/**
 * JavaScript's 32-bit integer semantics over unbounded integers: the
 * conversions ToInt32 and ToUint32 and the operators &, |, ^, ~, <<, >> and
 * >>>.  ECMAScript defines each of these operators on the 32-bit
 * two's-complement word of its operands.  A word is modelled as a sequence of
 * 32 booleans, bit 0 first; Bits(x, n) gives the low n bits of any integer,
 * negative ones in two's complement.
 */
module Int32 {

  const TwoTo31: int := 0x8000_0000
  const TwoTo32: int := 0x1_0000_0000

  predicate IsInt32(x: int) {
    -TwoTo31 <= x < TwoTo31
  }

  predicate IsUint32(x: int) {
    0 <= x < TwoTo32
  }

  function Pow2(k: nat): (r: nat)
    ensures r >= 1
  {
    if k == 0 then 1 else 2 * Pow2(k - 1)
  }

  lemma {:induction false} Pow2Add(a: nat, b: nat)
    ensures Pow2(a + b) == Pow2(a) * Pow2(b)
  {
    if a > 0 {
      Pow2Add(a - 1, b);
    }
  }

  lemma Pow2Values()
    ensures Pow2(31) == TwoTo31 && Pow2(32) == TwoTo32
  {
    assert Pow2(4) == 16;
    Pow2Add(4, 4);
    Pow2Add(8, 8);
    Pow2Add(16, 15);
    Pow2Add(16, 16);
  }

  lemma {:induction false} Pow2Monotone(a: nat, b: nat)
    requires a <= b
    ensures Pow2(a) <= Pow2(b)
    decreases b
  {
    if a < b {
      Pow2Monotone(a, b - 1);
    }
  }

  // ---------------------------------------------------------------------
  // Division facts
  // ---------------------------------------------------------------------

  lemma MulAtLeast(d: int, m: int)
    requires d >= 1 && m > 0
    ensures d * m >= m
  {
    assert d * m == (d - 1) * m + m;
    assert (d - 1) * m >= 0;
  }

  /** Euclidean division is determined by its quotient-remainder equation. */
  lemma DivModUnique(x: int, m: int, a: int, r: int)
    requires m > 0 && x == a * m + r && 0 <= r < m
    ensures x / m == a && x % m == r
  {
    var a', r' := x / m, x % m;
    var d := a - a';
    assert d * m == r' - r by {
      assert a * m - a' * m == r' - r;
      assert d * m == a * m - a' * m;
    }
    if d > 0 {
      MulAtLeast(d, m);
    } else if d < 0 {
      MulAtLeast(-d, m);
    }
  }

  /** The low bit and the rest of c + 2q, for a bit c. */
  lemma LowBitSplit(x: int, c: int, q: int)
    requires x == c + 2 * q && 0 <= c < 2
    ensures x % 2 == c && x / 2 == q
  {
    DivModUnique(x, 2, q, c);
  }

  /** Floor division by a positive number moves toward zero, never past it. */
  lemma DivBounds(x: int, p: int)
    requires p >= 1
    ensures x >= 0 ==> 0 <= x / p <= x
    ensures x < 0 ==> x <= x / p < 0
  {
    if x >= 0 {
      DivNonNegative(x, p);
    } else {
      DivNegative(x, p);
    }
  }

  lemma DivNonNegative(x: int, p: int)
    requires p >= 1 && x >= 0
    ensures 0 <= x / p <= x
  {
    var d := x / p;
    if d >= 1 {
      MulAtLeast(p, d);
      assert d * p >= d;
    }
  }

  lemma DivNegative(x: int, p: int)
    requires p >= 1 && x < 0
    ensures x <= x / p < 0
  {
    var d := x / p;
    assert x == d * p + x % p;
    if p > 1 {
      MulAtLeast(-d, p - 1);
      assert d * p == d - (-d) * (p - 1);
    }
  }

  /** Halving k + 1 times is halving once and then k times. */
  lemma HalveTwice(x: int, m: nat)
    ensures x / (2 * Pow2(m)) == (x / 2) / Pow2(m)
  {
    var p := Pow2(m);
    var a := (x / 2) / p;
    var b := (x / 2) % p;
    assert x == 2 * (a * p + b) + x % 2;
    assert x == a * (2 * p) + (2 * b + x % 2);
    DivModUnique(x, 2 * p, a, 2 * b + x % 2);
  }

  // ---------------------------------------------------------------------
  // The conversions
  // ---------------------------------------------------------------------

  /** ToUint32 of the ECMAScript language standard, for integral numbers: x modulo 2^32. */
  function ToUint32(x: int): (r: int)
    ensures IsUint32(r)
  {
    x % TwoTo32
  }

  /**
   * ToInt32 of the ECMAScript language standard, for integral numbers: x modulo
   * 2^32, less 2^32 when that is 2^31 or more.
   */
  function ToInt32(x: int): (r: int)
    ensures IsInt32(r)
  {
    (x + TwoTo31) % TwoTo32 - TwoTo31
  }

  lemma ToInt32OfInt32(x: int)
    requires IsInt32(x)
    ensures ToInt32(x) == x
  {
    DivModUnique(x + TwoTo31, TwoTo32, 0, x + TwoTo31);
  }

  lemma ToUint32OfUint32(x: int)
    requires IsUint32(x)
    ensures ToUint32(x) == x
  {
    DivModUnique(x, TwoTo32, 0, x);
  }

  /** ToInt32(x) differs from x by a multiple of 2^32. */
  lemma ToInt32Shift(x: int) returns (k: int)
    ensures ToInt32(x) == x + k * Pow2(32)
  {
    Pow2Values();
    k := -((x + TwoTo31) / TwoTo32);
  }

  lemma ToUint32Shift(x: int) returns (k: int)
    ensures ToUint32(x) == x + k * Pow2(32)
  {
    Pow2Values();
    k := -(x / TwoTo32);
  }

  // ---------------------------------------------------------------------
  // Words
  // ---------------------------------------------------------------------

  /**
   * The low n bits of x, bit 0 first: bit i is the parity of x halved i
   * times (floor division), which gives a negative x in two's complement.
   */
  function Bits(x: int, n: nat): (s: seq<bool>)
    ensures |s| == n
  {
    seq(n, i requires 0 <= i => (x / Pow2(i)) % 2 == 1)
  }

  /** The low bit, then the bits of x halved. */
  lemma BitsCons(x: int, n: nat)
    requires n >= 1
    ensures Bits(x, n) == [x % 2 == 1] + Bits(x / 2, n - 1)
  {
    forall i | 1 <= i < n
      ensures Bits(x, n)[i] == Bits(x / 2, n - 1)[i - 1]
    {
      HalveTwice(x, i - 1);
    }
  }

  /** The bits read as an unsigned number. */
  function Value(s: seq<bool>): (r: int)
    ensures 0 <= r < Pow2(|s|)
  {
    if s == [] then 0 else (if s[0] then 1 else 0) + 2 * Value(s[1..])
  }

  /** The 32-bit word of x. */
  function WordOf(x: int): (w: seq<bool>)
    ensures |w| == 32
  {
    Bits(x, 32)
  }

  /** A word read as a two's-complement integer: bit 31 weighs -2^31. */
  function Signed(w: seq<bool>): (r: int)
    requires |w| == 32
    ensures IsInt32(r)
  {
    TopBitIsSign(w);
    Value(w) - if w[31] then TwoTo32 else 0
  }

  /** The top bit weighs 2^(n-1). */
  lemma {:induction false} ValueTop(s: seq<bool>)
    requires |s| >= 1
    ensures Value(s) == Value(s[..|s| - 1]) + if s[|s| - 1] then Pow2(|s| - 1) else 0
    decreases |s|
  {
    if |s| > 1 {
      var t := s[1..];
      ValueTop(t);
      var p := s[..|s| - 1];
      assert p[1..] == t[..|t| - 1];
      assert Value(p) == (if s[0] then 1 else 0) + 2 * Value(p[1..]);
    }
  }

  /** Bit 31 of a word is set exactly when its unsigned value is 2^31 or more. */
  lemma TopBitIsSign(w: seq<bool>)
    requires |w| == 32
    ensures w[31] <==> Value(w) >= TwoTo31
    ensures Value(w) < TwoTo32
  {
    Pow2Values();
    ValueTop(w);
  }

  /** Reading back the bits of a value gives those bits. */
  lemma {:induction false} BitsOfValue(s: seq<bool>)
    ensures Bits(Value(s), |s|) == s
    decreases |s|
  {
    if s != [] {
      BitsOfValue(s[1..]);
      var v := Value(s);
      var b := if s[0] then 1 else 0;
      LowBitSplit(v, b, Value(s[1..]));
      BitsCons(v, |s|);
      assert s == [s[0]] + s[1..];
    }
  }

  /** The low n bits, read back as a number, are x mod 2^n. */
  lemma {:induction false} ValueOfBits(x: int, n: nat)
    ensures Value(Bits(x, n)) == x % Pow2(n)
    decreases n
  {
    if n > 0 {
      ValueOfBits(x / 2, n - 1);
      BitsCons(x, n);
      ModOfDouble(x, Pow2(n - 1));
    }
  }

  /** x mod 2p is its low bit plus twice (x / 2) mod p. */
  lemma ModOfDouble(x: int, p: int)
    requires p >= 1
    ensures x % (2 * p) == x % 2 + 2 * ((x / 2) % p)
  {
    var a, b := (x / 2) / p, (x / 2) % p;
    assert x == a * (2 * p) + (2 * b + x % 2);
    DivModUnique(x, 2 * p, a, 2 * b + x % 2);
  }

  /** Adding a multiple of 2^n does not change the low n bits. */
  lemma {:induction false} BitsOfShifted(x: int, k: int, n: nat)
    ensures Bits(x + k * Pow2(n), n) == Bits(x, n)
    decreases n
  {
    if n > 0 {
      var m := k * Pow2(n - 1);
      assert k * Pow2(n) == 2 * m;
      var y := x + k * Pow2(n);
      BitsCons(x, n);
      BitsCons(y, n);
      LowBitSplit(y, x % 2, x / 2 + m);
      BitsOfShifted(x / 2, k, n - 1);
      assert Bits(y / 2, n - 1) == Bits(x / 2, n - 1);
    }
  }

  /** Fewer bits are a prefix of more bits. */
  lemma BitsPrefix(x: int, n: nat, m: nat)
    requires n <= m
    ensures Bits(x, n) == Bits(x, m)[..n]
  {
  }

  /** A number below 2^j has no bit set from bit j on. */
  lemma {:induction false} BitsOfSmall(x: int, j: nat, n: nat)
    requires 0 <= x < Pow2(j)
    ensures forall i :: j <= i < n ==> !Bits(x, n)[i]
    decreases n
  {
    if n > 0 {
      BitsCons(x, n);
      if j == 0 {
        assert x == 0;
        BitsOfSmall(0, 0, n - 1);
      } else {
        BitsOfSmall(x / 2, j - 1, n - 1);
      }
    }
  }

  /** -x - 1 has every bit of x flipped. */
  lemma {:induction false} BitsOfComplement(x: int, n: nat)
    ensures forall i :: 0 <= i < n ==> Bits(-x - 1, n)[i] == !Bits(x, n)[i]
    decreases n
  {
    if n > 0 {
      var a, b := x / 2, x % 2;
      assert -x - 1 == 2 * (-a - 1) + (1 - b);
      DivModUnique(-x - 1, 2, -a - 1, 1 - b);
      BitsOfComplement(a, n - 1);
      BitsCons(x, n);
      BitsCons(-x - 1, n);
    }
  }

  /** The word of a signed reading is the word itself. */
  lemma WordOfSigned(w: seq<bool>)
    requires |w| == 32
    ensures WordOf(Signed(w)) == w
  {
    Pow2Values();
    var k := if w[31] then -1 else 0;
    assert Signed(w) == Value(w) + k * Pow2(32);
    BitsOfShifted(Value(w), k, 32);
    BitsOfValue(w);
  }

  /** The word of an unsigned reading is the word itself. */
  lemma WordOfValue(w: seq<bool>)
    requires |w| == 32
    ensures WordOf(Value(w)) == w
  {
    BitsOfValue(w);
  }

  /** Numbers that differ by a multiple of 2^n have the same low n bits. */
  lemma BitsOfCongruent(x: int, y: int, k: int, n: nat)
    requires y == x + k * Pow2(n)
    ensures Bits(y, n) == Bits(x, n)
  {
    BitsOfShifted(x, k, n);
  }

  lemma WordOfToInt32(x: int)
    ensures WordOf(ToInt32(x)) == WordOf(x)
  {
    var k := ToInt32Shift(x);
    BitsOfCongruent(x, ToInt32(x), k, 32);
  }

  lemma WordOfToUint32(x: int)
    ensures WordOf(ToUint32(x)) == WordOf(x)
  {
    var k := ToUint32Shift(x);
    BitsOfCongruent(x, ToUint32(x), k, 32);
  }

  /** A 32-bit integer is the signed reading of its word. */
  lemma SignedOfInt32(t: int)
    requires IsInt32(t)
    ensures Signed(WordOf(t)) == t
  {
    Pow2Values();
    ValueOfBits(t, 32);
    TopBitIsSign(WordOf(t));
    if t >= 0 {
      DivModUnique(t, TwoTo32, 0, t);
    } else {
      DivModUnique(t, TwoTo32, -1, t + TwoTo32);
    }
  }

  /** Reading the word of x as signed gives ToInt32(x). */
  lemma SignedOfWord(x: int)
    ensures Signed(WordOf(x)) == ToInt32(x)
  {
    WordOfToInt32(x);
    SignedOfInt32(ToInt32(x));
  }

  /** Reading the word of x as unsigned gives ToUint32(x). */
  lemma ValueOfWord(x: int)
    ensures Value(WordOf(x)) == ToUint32(x)
  {
    Pow2Values();
    ValueOfBits(x, 32);
  }

  /** A 32-bit integer is determined by its word. */
  lemma WordDetermines(a: int, b: int)
    requires IsInt32(a) && IsInt32(b) && WordOf(a) == WordOf(b)
    ensures a == b
  {
    SignedOfInt32(a);
    SignedOfInt32(b);
  }

  /** An unsigned 32-bit number is determined by its word. */
  lemma UnsignedWordDetermines(a: int, b: int)
    requires IsUint32(a) && IsUint32(b) && WordOf(a) == WordOf(b)
    ensures a == b
  {
    ValueOfWord(a);
    ValueOfWord(b);
    ToUint32OfUint32(a);
    ToUint32OfUint32(b);
  }

  /** The sign bit: bit 31 of the word is set exactly when ToInt32 is negative. */
  lemma SignBit(x: int)
    ensures WordOf(x)[31] <==> ToInt32(x) < 0
  {
    SignedOfWord(x);
    TopBitIsSign(WordOf(x));
  }

  /** The word of 2^k has bit k set and no other. */
  lemma {:induction false} BitsOfPow2(k: nat, n: nat)
    ensures forall i :: 0 <= i < n ==> Bits(Pow2(k), n)[i] == (i == k)
    decreases n
  {
    if n > 0 {
      BitsCons(Pow2(k), n);
      if k == 0 {
        BitsOfSmall(0, 0, n - 1);
      } else {
        BitsOfPow2(k - 1, n - 1);
      }
    }
  }

  /** The word of 2^k - 1 has the bits below k set and no other. */
  lemma {:induction false} BitsOfOnes(x: int, k: nat, n: nat)
    requires x == Pow2(k) - 1
    ensures forall i :: 0 <= i < n ==> Bits(x, n)[i] == (i < k)
    decreases n
  {
    if n > 0 {
      BitsCons(x, n);
      if k == 0 {
        BitsOfSmall(0, 0, n - 1);
      } else {
        assert x / 2 == Pow2(k - 1) - 1;
        BitsOfOnes(x / 2, k - 1, n - 1);
      }
    }
  }

  /** Adding 2^k to a number whose bit k is clear sets that bit and changes no other. */
  lemma {:induction false} BitsOfAddedPow2(x: int, k: nat, n: nat)
    requires k < n && !Bits(x, n)[k]
    ensures Bits(x + Pow2(k), n) == Bits(x, n)[k := true]
    decreases k
  {
    var y := x + Pow2(k);
    var t := Bits(x / 2, n - 1);
    BitsCons(x, n);
    BitsCons(y, n);
    if k == 0 {
      assert y % 2 == 1 && y / 2 == x / 2 by {
        assert x % 2 == 0;
        DivModUnique(y, 2, x / 2, 1);
      }
      assert Bits(y, n) == [true] + t;
      assert Bits(x, n)[k := true] == [true] + t;
    } else {
      assert y % 2 == x % 2 && y / 2 == x / 2 + Pow2(k - 1) by {
        DivModUnique(y, 2, x / 2 + Pow2(k - 1), x % 2);
      }
      BitsOfAddedPow2(x / 2, k - 1, n - 1);
      assert Bits(y, n) == [x % 2 == 1] + t[k - 1 := true];
      assert Bits(x, n)[k := true] == [x % 2 == 1] + t[k - 1 := true];
    }
  }

  lemma QuotientLessOne(x: int, p: int)
    requires p >= 1
    ensures (x - p) / p == x / p - 1
  {
    DivModUnique(x - p, p, x / p - 1, x % p);
  }

  /** Subtracting 2^k from a number whose bit k is set clears that bit and changes no other. */
  lemma BitsOfSubtractedPow2(x: int, k: nat, n: nat)
    requires k < n && Bits(x, n)[k]
    ensures Bits(x - Pow2(k), n) == Bits(x, n)[k := false]
  {
    var y := x - Pow2(k);
    QuotientLessOne(x, Pow2(k));
    var b := Bits(y, n);
    assert !b[k];
    assert Bits(x, n) == b[k := true] by {
      BitsOfAddedPow2(y, k, n);
    }
    assert b == b[k := true][k := false];
  }

  /** A number in [-2^j, 2^j) repeats its sign in every bit from bit j on. */
  lemma SignExtension(x: int, j: nat, n: nat)
    requires -(Pow2(j) as int) <= x < Pow2(j)
    ensures forall i :: j <= i < n ==> Bits(x, n)[i] == (x < 0)
  {
    if x >= 0 {
      BitsOfSmall(x, j, n);
    } else {
      var y := -x - 1;
      BitsOfSmall(y, j, n);
      BitsOfComplement(y, n);
      assert -y - 1 == x;
      forall i | j <= i < n
        ensures Bits(x, n)[i]
      {
        assert Bits(-y - 1, n)[i] == !Bits(y, n)[i];
      }
    }
  }

  /** Doubling shifts the bits up by one and brings in a zero. */
  lemma BitsOfDouble(x: int, n: nat)
    requires n >= 1
    ensures Bits(2 * x, n) == [false] + Bits(x, n - 1)
  {
    assert (2 * x) % 2 == 0 && (2 * x) / 2 == x;
    BitsCons(2 * x, n);
  }

  /** Multiplying by 2^k shifts the bits up by k and brings in zeros. */
  lemma {:induction false} BitsOfScaled(x: int, k: nat, n: nat)
    requires k <= n
    ensures Bits(x * Pow2(k), n) == seq(k, _ => false) + Bits(x, n - k)
    decreases k
  {
    if k > 0 {
      var y := x * Pow2(k - 1);
      assert x * Pow2(k) == 2 * y;
      BitsOfDouble(y, n);
      BitsOfScaled(x, k - 1, n - 1);
      assert seq(k, _ => false) == [false] + seq(k - 1, _ => false);
    }
  }

  /** Floor division by 2^k shifts the bits down by k. */
  lemma {:induction false} BitsOfQuotient(x: int, k: nat, n: nat)
    ensures Bits(x / Pow2(k), n) == Bits(x, n + k)[k..]
    decreases k
  {
    if k > 0 {
      HalveTwice(x, k - 1);
      BitsOfQuotient(x / 2, k - 1, n);
      BitsCons(x, n + k);
    }
  }

  // ---------------------------------------------------------------------
  // The operators
  // ---------------------------------------------------------------------

  datatype BitOp = AndOp | OrOp | XorOp

  function ApplyBit(op: BitOp, a: bool, b: bool): bool {
    match op
    case AndOp => a && b
    case OrOp => a || b
    case XorOp => a != b
  }

  /** The bit-by-bit operation on the binary expansions of two natural numbers. */
  function NaturalBitwise(op: BitOp, a: nat, b: nat): (r: nat)
    decreases a + b
  {
    if a == 0 && b == 0 then 0
    else (if ApplyBit(op, a % 2 == 1, b % 2 == 1) then 1 else 0) + 2 * NaturalBitwise(op, a / 2, b / 2)
  }

  /**
   * a & b, a | b and a ^ b: the operation applied to the unsigned 32-bit
   * readings of the operands, the result read as a signed 32-bit integer.
   */
  function Bitwise(op: BitOp, a: int, b: int): (r: int)
    ensures IsInt32(r)
  {
    ToInt32(NaturalBitwise(op, ToUint32(a), ToUint32(b)))
  }

  function And(a: int, b: int): (r: int)
    ensures IsInt32(r)
  {
    Bitwise(AndOp, a, b)
  }

  function Or(a: int, b: int): (r: int)
    ensures IsInt32(r)
  {
    Bitwise(OrOp, a, b)
  }

  function Xor(a: int, b: int): (r: int)
    ensures IsInt32(r)
  {
    Bitwise(XorOp, a, b)
  }

  /** ~v is -v - 1 on the 32-bit reading of v. */
  function Not(v: int): (r: int)
    ensures IsInt32(r)
  {
    -ToInt32(v) - 1
  }

  /** The shift count: the count modulo 32. */
  function ShiftCount(count: int): (k: nat)
    ensures k < 32
  {
    count % 32
  }

  /** value << count: the 32-bit reading times 2^count, wrapped to 32 bits. */
  function ShiftLeft(value: int, count: int): (r: int)
    ensures IsInt32(r)
  {
    ToInt32(ToInt32(value) * Pow2(ShiftCount(count)))
  }

  /** value >> count: the 32-bit reading divided by 2^count, rounded down. */
  function ShiftRight(value: int, count: int): (r: int)
    ensures IsInt32(r)
  {
    DivBounds(ToInt32(value), Pow2(ShiftCount(count)));
    ToInt32(value) / Pow2(ShiftCount(count))
  }

  /** value >>> count: the unsigned 32-bit reading divided by 2^count, rounded down. */
  function UnsignedShiftRight(value: int, count: int): (r: int)
    ensures IsUint32(r)
  {
    DivBounds(ToUint32(value), Pow2(ShiftCount(count)));
    ToUint32(value) / Pow2(ShiftCount(count))
  }

  // ---------------------------------------------------------------------
  // The operators on words
  // ---------------------------------------------------------------------

  /** Two words combined bit by bit. */
  function Combined(op: BitOp, u: seq<bool>, v: seq<bool>): (w: seq<bool>)
    requires |u| == 32 && |v| == 32
    ensures |w| == 32
    ensures forall i :: 0 <= i < 32 ==> w[i] == ApplyBit(op, u[i], v[i])
  {
    seq(32, i requires 0 <= i < 32 => ApplyBit(op, u[i], v[i]))
  }

  /** A word with every bit flipped. */
  function Flipped(u: seq<bool>): (w: seq<bool>)
    requires |u| == 32
    ensures |w| == 32
    ensures forall i :: 0 <= i < 32 ==> w[i] == !u[i]
  {
    seq(32, i requires 0 <= i < 32 => !u[i])
  }

  /** A word moved up by k places, zeros coming in at the bottom. */
  function MovedUp(u: seq<bool>, k: nat): (w: seq<bool>)
    requires |u| == 32 && k < 32
    ensures |w| == 32
    ensures forall i :: 0 <= i < 32 ==> w[i] == (i >= k && u[i - k])
  {
    seq(32, i requires 0 <= i < 32 => i >= k && u[i - k])
  }

  /** A word moved down by k places, the fill bit coming in at the top. */
  function MovedDown(u: seq<bool>, k: nat, fill: bool): (w: seq<bool>)
    requires |u| == 32 && k < 32
    ensures |w| == 32
    ensures forall i :: 0 <= i < 32 ==> w[i] == if i + k < 32 then u[i + k] else fill
  {
    seq(32, i requires 0 <= i < 32 => if i + k < 32 then u[i + k] else fill)
  }

  lemma {:induction false} BitsOfNaturalBitwise(op: BitOp, a: nat, b: nat, n: nat)
    ensures forall i :: 0 <= i < n ==>
      Bits(NaturalBitwise(op, a, b), n)[i] == ApplyBit(op, Bits(a, n)[i], Bits(b, n)[i])
    decreases n
  {
    if n > 0 {
      var r := NaturalBitwise(op, a, b);
      if a == 0 && b == 0 {
        BitsOfSmall(0, 0, n);
        assert r == 0;
      } else {
        var c := if ApplyBit(op, a % 2 == 1, b % 2 == 1) then 1 else 0;
        var rest := NaturalBitwise(op, a / 2, b / 2);
        LowBitSplit(r, c, rest);
        BitsOfNaturalBitwise(op, a / 2, b / 2, n - 1);
        BitsCons(r, n);
        BitsCons(a, n);
        BitsCons(b, n);
      }
    }
  }

  /** &, | and ^ act on the operands' words bit by bit. */
  lemma WordOfBitwise(op: BitOp, a: int, b: int)
    ensures WordOf(Bitwise(op, a, b)) == Combined(op, WordOf(a), WordOf(b))
  {
    var r := NaturalBitwise(op, ToUint32(a), ToUint32(b));
    WordOfToInt32(r);
    WordOfToUint32(a);
    WordOfToUint32(b);
    BitsOfNaturalBitwise(op, ToUint32(a), ToUint32(b), 32);
  }

  /** ~ flips every bit of the word. */
  lemma WordOfNot(v: int)
    ensures WordOf(Not(v)) == Flipped(WordOf(v))
  {
    var t := ToInt32(v);
    WordOfToInt32(v);
    BitsOfComplement(t, 32);
  }

  /** Only the low five bits of the count matter: the count is masked with 0x1F. */
  lemma ShiftCountIsMasked(count: int)
    ensures ShiftCount(count) == And(count, 31)
  {
    assert Pow2(5) == 32;
    BitsOfOnes(31, 5, 32);
    LowFiveBits(count, 31);
    WordOfBitwise(AndOp, count, 31);
    WordDetermines(ShiftCount(count), And(count, 31));
  }

  lemma LowFiveBits(count: int, mask: int)
    requires forall i :: 0 <= i < 32 ==> WordOf(mask)[i] == (i < 5)
    ensures WordOf(count % 32) == Combined(AndOp, WordOf(count), WordOf(mask))
  {
    assert Pow2(5) == 32;
    WordOfLowBits(count, 5);
  }

  /** The word of x mod 2^n keeps the bits of x below n and clears the others. */
  lemma WordOfLowBits(x: int, n: nat)
    requires n <= 32
    ensures forall i :: 0 <= i < 32 ==> WordOf(x % Pow2(n))[i] == (i < n && WordOf(x)[i])
  {
    var k := x % Pow2(n);
    ValueOfBits(x, n);
    BitsOfValue(Bits(x, n));
    BitsPrefix(x, n, 32);
    BitsPrefix(k, n, 32);
    BitsOfSmall(k, n, 32);
    forall i | 0 <= i < n
      ensures WordOf(k)[i] == WordOf(x)[i]
    {
      assert WordOf(k)[i] == Bits(k, n)[i];
      assert WordOf(x)[i] == Bits(x, n)[i];
    }
  }

  /** Multiplying by 2^k moves the word up by k places. */
  lemma WordOfScaled(t: int, k: nat)
    requires k < 32
    ensures WordOf(t * Pow2(k)) == MovedUp(WordOf(t), k)
  {
    var z := seq(k, _ => false);
    var low := Bits(t, 32 - k);
    BitsOfScaled(t, k, 32);
    BitsPrefix(t, 32 - k, 32);
    forall i | 0 <= i < 32
      ensures WordOf(t * Pow2(k))[i] == MovedUp(WordOf(t), k)[i]
    {
      if i < k {
        assert (z + low)[i] == z[i];
      } else {
        assert (z + low)[i] == low[i - k];
      }
    }
  }

  /** Dividing by 2^k moves the word down by k places; the bits above bit 31 come in. */
  lemma WordOfQuotient(x: int, k: nat, m: nat, fill: bool)
    requires k < 32 && m == 32 + k
    requires forall j :: 32 <= j < m ==> Bits(x, m)[j] == fill
    ensures WordOf(x / Pow2(k)) == MovedDown(WordOf(x), k, fill)
  {
    BitsOfQuotient(x, k, 32);
    BitsPrefix(x, 32, m);
  }

  /** Dividing a 32-bit integer by 2^k moves its word down, copies of the sign bit coming in. */
  lemma WordOfSignedQuotient(t: int, k: nat)
    requires IsInt32(t) && k < 32
    ensures WordOf(t / Pow2(k)) == MovedDown(WordOf(t), k, WordOf(t)[31])
  {
    Pow2Values();
    SignExtension(t, 31, 32 + k);
    SignExtension(t, 31, 32);
    WordOfQuotient(t, k, 32 + k, t < 0);
  }

  /** Dividing an unsigned 32-bit number by 2^k moves its word down, zeros coming in. */
  lemma WordOfUnsignedQuotient(u: int, k: nat)
    requires IsUint32(u) && k < 32
    ensures WordOf(u / Pow2(k)) == MovedDown(WordOf(u), k, false)
  {
    Pow2Values();
    BitsOfSmall(u, 32, 32 + k);
    WordOfQuotient(u, k, 32 + k, false);
  }

  /** << moves the word up by the shift count, zeros coming in. */
  lemma WordOfShiftLeft(value: int, count: int)
    ensures WordOf(ShiftLeft(value, count)) == MovedUp(WordOf(value), ShiftCount(count))
  {
    var t := ToInt32(value);
    var p := t * Pow2(ShiftCount(count));
    WordOfToInt32(p);
    WordOfScaled(t, ShiftCount(count));
    WordOfToInt32(value);
  }

  /** >> moves the word down by the shift count, copies of the sign bit coming in. */
  lemma WordOfShiftRight(value: int, count: int)
    ensures WordOf(ShiftRight(value, count))
         == MovedDown(WordOf(value), ShiftCount(count), WordOf(value)[31])
  {
    WordOfSignedQuotient(ToInt32(value), ShiftCount(count));
    WordOfToInt32(value);
  }

  /** >>> moves the word down by the shift count, zeros coming in. */
  lemma WordOfUnsignedShiftRight(value: int, count: int)
    ensures WordOf(UnsignedShiftRight(value, count)) == MovedDown(WordOf(value), ShiftCount(count), false)
  {
    WordOfUnsignedQuotient(ToUint32(value), ShiftCount(count));
    WordOfToUint32(value);
  }

  /** A shift count below 32 is used as it is. */
  lemma ShiftCountOf(c: int)
    requires 0 <= c < 32
    ensures ShiftCount(c) == c
  {
    DivModUnique(c, 32, 0, c);
  }
}
