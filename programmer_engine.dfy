/**
 * The programmer-mode engine: conversion of integer numerals between the
 * binary, octal, decimal and hexadecimal bases, and the bitwise helpers,
 * which follow JavaScript's 32-bit semantics (module Int32).
 */
module ProgrammerEngine {
  import opened Wrappers
  import opened Types
  import opened Int32

  const InvalidBase: string := "Invalid base"

  /** Number.MAX_SAFE_INTEGER, 2^53 - 1: above it parseInt rounds and the numeral no longer names one integer. */
  const MaxSafeInteger: int := 0x1F_FFFF_FFFF_FFFF

  // ---------------------------------------------------------------------
  // Bases and numerals
  // ---------------------------------------------------------------------

  /** The base a name denotes; any other name is not a base. */
  function BaseNamed(name: string): (b: Option<NumberBase>)
    ensures b.Some? <==> name in {"binary", "octal", "decimal", "hexadecimal"}
  {
    if name == "binary" then Some(Binary)
    else if name == "octal" then Some(Octal)
    else if name == "decimal" then Some(Decimal)
    else if name == "hexadecimal" then Some(Hexadecimal)
    else None
  }

  function Radix(b: NumberBase): (r: nat)
    ensures r in {2, 8, 10, 16}
  {
    match b
    case Binary => 2
    case Octal => 8
    case Decimal => 10
    case Hexadecimal => 16
  }

  /**
   * The value of a digit character as parseInt reads it: 0-9, then the
   * letters a-z in either case for 10-35; 36 for any other character.
   */
  function DigitValue(c: char): (d: nat)
    ensures d <= 36
  {
    if '0' <= c <= '9' then c as nat - '0' as nat
    else if 'a' <= c <= 'z' then c as nat - 'a' as nat + 10
    else if 'A' <= c <= 'Z' then c as nat - 'A' as nat + 10
    else 36
  }

  /** The lower-case digit character of d, as Number.prototype.toString writes it. */
  function DigitChar(d: nat): (c: char)
    requires d < 36
    ensures DigitValue(c) == d
  {
    if d < 10 then ('0' as nat + d) as char else ('a' as nat + d - 10) as char
  }

  predicate IsDigits(s: string, radix: nat) {
    |s| > 0 && forall i :: 0 <= i < |s| ==> DigitValue(s[i]) < radix
  }

  /** A numeral in the given radix: digits, optionally after a minus sign. */
  predicate IsNumeral(s: string, radix: nat) {
    IsDigits(s, radix) || (|s| >= 2 && s[0] == '-' && IsDigits(s[1..], radix))
  }

  /** The value of a digit string, most significant digit first. */
  function DigitsValue(s: string, radix: nat): nat
    requires IsDigits(s, radix)
    decreases |s|
  {
    var last := DigitValue(s[|s| - 1]);
    if |s| == 1 then last else DigitsValue(s[..|s| - 1], radix) * radix + last
  }

  /** parseInt(s, radix) on a well-formed numeral. */
  function ParseInt(s: string, radix: nat): (p: int)
    requires IsNumeral(s, radix)
    ensures p < 0 ==> s[0] == '-'
    ensures s[0] == '-' && radix <= 36 ==> p <= 0
  {
    if IsDigits(s, radix) then DigitsValue(s, radix) else -(DigitsValue(s[1..], radix) as int)
  }

  /** The digits of n in the radix, most significant first, without leading zeros. */
  function Digits(n: nat, radix: nat): (s: string)
    requires 2 <= radix <= 36
    ensures IsDigits(s, radix)
    ensures |s| > 1 ==> s[0] != '0'
    decreases n
  {
    if n < radix then [DigitChar(n)]
    else
      DivideByRadix(n, radix);
      Digits(n / radix, radix) + [DigitChar(n % radix)]
  }

  /** Number.prototype.toString(radix) on an integer. */
  function ToRadixString(n: int, radix: nat): (s: string)
    requires 2 <= radix <= 36
    ensures IsNumeral(s, radix)
    ensures s[0] == '-' <==> n < 0
  {
    if n < 0 then
      var d := Digits(-n, radix);
      assert ("-" + d)[1..] == d;
      "-" + d
    else
      var d := Digits(n, radix);
      assert DigitValue(d[0]) < radix;
      d
  }

  function ToUpperChar(c: char): char {
    if 'a' <= c <= 'z' then (c as nat - 'a' as nat + 'A' as nat) as char else c
  }

  /** String.prototype.toUpperCase on the characters a numeral can hold. */
  function ToUpperCase(s: string): (u: string)
    ensures |u| == |s| && forall i :: 0 <= i < |s| ==> u[i] == ToUpperChar(s[i])
  {
    if s == [] then [] else [ToUpperChar(s[0])] + ToUpperCase(s[1..])
  }

  // ---------------------------------------------------------------------
  // The conversions
  // ---------------------------------------------------------------------

  /** The numeral is well formed for the base when the base is a valid one. */
  predicate NumeralFor(value: string, base: string) {
    BaseNamed(base).Some? ==> IsNumeral(value, Radix(BaseNamed(base).value))
  }

  /** toDecimal: parse the numeral in the radix of the base; an unknown base raises. */
  function ToDecimal(value: string, fromBase: string): (r: Result<int, string>)
    requires NumeralFor(value, fromBase)
    ensures r.Failure? <==> BaseNamed(fromBase).None?
    ensures r.Failure? ==> r.error == InvalidBase
    ensures r.Success? && r.value < 0 ==> value[0] == '-'
  {
    match BaseNamed(fromBase)
    case None => Failure(InvalidBase)
    case Some(b) => Success(ParseInt(value, Radix(b)))
  }

  /** fromDecimal: render in the radix of the base, hexadecimal upper-cased. */
  function FromDecimal(value: int, toBase: string): (r: Result<string, string>)
    ensures r.Failure? <==> BaseNamed(toBase).None?
    ensures r.Failure? ==> r.error == InvalidBase
    ensures r.Success? ==> NumeralFor(r.value, toBase) && ToDecimal(r.value, toBase) == Success(value)
  {
    match BaseNamed(toBase)
    case None => Failure(InvalidBase)
    case Some(b) =>
      var s := ToRadixString(value, Radix(b));
      ParseIntOfToRadixString(value, Radix(b));
      UpperNumeralValue(s, Radix(b));
      Success(if b == Hexadecimal then ToUpperCase(s) else s)
  }

  /** convertBase: toDecimal, then fromDecimal. */
  function ConvertBase(value: string, fromBase: string, toBase: string): (r: Result<string, string>)
    requires NumeralFor(value, fromBase)
    ensures r.Failure? <==> BaseNamed(fromBase).None? || BaseNamed(toBase).None?
    ensures r.Failure? ==> r.error == InvalidBase
    ensures r.Success? ==> NumeralFor(r.value, toBase) && ToDecimal(r.value, toBase) == ToDecimal(value, fromBase)
  {
    match ToDecimal(value, fromBase)
    case Failure(e) => Failure(e)
    case Success(n) => FromDecimal(n, toBase)
  }

  // ---------------------------------------------------------------------
  // Properties of the conversions
  // ---------------------------------------------------------------------

  lemma DivideByRadix(n: nat, radix: nat)
    requires 2 <= radix <= n
    ensures n / radix < n && (n / radix) * radix + n % radix == n
  {
    DivBounds(n, radix);
    if n / radix == n {
      MulAtLeast(radix, n);
    }
  }

  lemma {:induction false} DigitsRoundTrip(n: nat, radix: nat)
    requires 2 <= radix <= 36
    ensures DigitsValue(Digits(n, radix), radix) == n
    decreases n
  {
    var s := Digits(n, radix);
    if n >= radix {
      assert s[..|s| - 1] == Digits(n / radix, radix);
      assert DigitValue(s[|s| - 1]) == n % radix;
      DivideByRadix(n, radix);
      DigitsRoundTrip(n / radix, radix);
    } else {
      assert DigitValue(s[0]) == n;
    }
  }

  /** Parsing what toString wrote gives back the integer, in every radix. */
  lemma ParseIntOfToRadixString(n: int, radix: nat)
    requires 2 <= radix <= 36
    ensures IsNumeral(ToRadixString(n, radix), radix)
    ensures ParseInt(ToRadixString(n, radix), radix) == n
  {
    DigitsRoundTrip(if n < 0 then -n else n, radix);
    if n < 0 {
      var s := ToRadixString(n, radix);
      assert s[1..] == Digits(-n, radix);
      assert !IsDigits(s, radix) by { assert DigitValue(s[0]) == 36; }
    }
  }

  lemma ToUpperCharValue(c: char)
    ensures DigitValue(ToUpperChar(c)) == DigitValue(c)
  {
  }

  /** Upper-casing a digit string changes neither its validity nor its value. */
  lemma {:induction false} UpperDigitsValue(s: string, radix: nat)
    requires IsDigits(s, radix)
    ensures IsDigits(ToUpperCase(s), radix)
    ensures DigitsValue(ToUpperCase(s), radix) == DigitsValue(s, radix)
    decreases |s|
  {
    var u := ToUpperCase(s);
    forall i | 0 <= i < |s| ensures DigitValue(u[i]) == DigitValue(s[i]) {
      ToUpperCharValue(s[i]);
    }
    if |s| > 1 {
      assert ToUpperCase(s[..|s| - 1]) == u[..|u| - 1];
      UpperDigitsValue(s[..|s| - 1], radix);
    }
  }

  /** Hexadecimal input is read the same in either case. */
  lemma UpperNumeralValue(s: string, radix: nat)
    requires IsNumeral(s, radix)
    ensures IsNumeral(ToUpperCase(s), radix)
    ensures ParseInt(ToUpperCase(s), radix) == ParseInt(s, radix)
  {
    var u := ToUpperCase(s);
    if IsDigits(s, radix) {
      UpperDigitsValue(s, radix);
    } else {
      assert u[1..] == ToUpperCase(s[1..]);
      UpperDigitsValue(s[1..], radix);
      assert !IsDigits(u, radix) by { assert DigitValue(u[0]) == 36; }
    }
  }

  /** A character of an upper-case hexadecimal numeral. */
  predicate IsUpperHexChar(c: char) {
    c == '-' || '0' <= c <= '9' || 'A' <= c <= 'F'
  }

  /** Hexadecimal output holds only upper-case digits, after an optional minus sign. */
  lemma HexOutputUpperCase(n: int)
    ensures FromDecimal(n, "hexadecimal").Success?
    ensures forall i :: 0 <= i < |FromDecimal(n, "hexadecimal").value| ==>
      IsUpperHexChar(FromDecimal(n, "hexadecimal").value[i])
  {
    var s := ToRadixString(n, 16);
    NumeralChars(s, 16);
    var u := ToUpperCase(s);
    assert FromDecimal(n, "hexadecimal").value == u;
    forall i | 0 <= i < |u| ensures IsUpperHexChar(u[i]) {
      UpperHexChar(s[i]);
    }
  }

  lemma NumeralChars(s: string, radix: nat)
    requires IsNumeral(s, radix)
    ensures forall i :: 0 <= i < |s| ==> s[i] == '-' || DigitValue(s[i]) < radix
  {
    if !IsDigits(s, radix) {
      forall i | 1 <= i < |s| ensures DigitValue(s[i]) < radix {
        assert s[i] == s[1..][i - 1];
      }
    }
  }

  lemma UpperHexChar(c: char)
    requires c == '-' || DigitValue(c) < 16
    ensures IsUpperHexChar(ToUpperChar(c))
  {
  }

  /** A base outside the four raises "Invalid base", whichever side it is on. */
  lemma ConvertBaseInvalid(value: string, fromBase: string, toBase: string)
    requires NumeralFor(value, fromBase)
    ensures ConvertBase(value, fromBase, toBase) == Failure(InvalidBase)
        <==> BaseNamed(fromBase).None? || BaseNamed(toBase).None?
  {
  }

  /**
   * Converting the decimal numeral of a safe integer n into any base and
   * back gives the decimal numeral again.
   */
  lemma ConvertBaseRoundTrip(n: nat, base: string)
    requires n <= MaxSafeInteger
    requires BaseNamed(base).Some?
    ensures var there := ConvertBase(ToRadixString(n, 10), "decimal", base);
      && there.Success?
      && NumeralFor(there.value, base)
      && ConvertBase(there.value, base, "decimal") == Success(ToRadixString(n, 10))
  {
    var b := BaseNamed(base).value;
    var r := Radix(b);
    ParseIntOfToRadixString(n, 10);
    ParseIntOfToRadixString(n, r);
    var s := ToRadixString(n, r);
    if b == Hexadecimal {
      UpperNumeralValue(s, r);
    }
  }

  // ---------------------------------------------------------------------
  // The bitwise helpers
  // ---------------------------------------------------------------------

  function BitwiseAnd(a: int, b: int): (r: int) ensures IsInt32(r) { And(a, b) }
  function BitwiseOr(a: int, b: int): (r: int) ensures IsInt32(r) { Or(a, b) }
  function BitwiseXor(a: int, b: int): (r: int) ensures IsInt32(r) { Xor(a, b) }
  function BitwiseNot(value: int): (r: int) ensures IsInt32(r) { Not(value) }
  function LeftShift(value: int, positions: int): (r: int) ensures IsInt32(r) { ShiftLeft(value, positions) }
  function RightShift(value: int, positions: int): (r: int) ensures IsInt32(r) { ShiftRight(value, positions) }

  /** The word of 0 has no bit set. */
  lemma WordOfZero()
    ensures forall i :: 0 <= i < 32 ==> !WordOf(0)[i]
  {
    BitsOfSmall(0, 0, 32);
  }

  /** The word of 2^k has bit k set and no other. */
  lemma WordOfPow2(k: nat)
    ensures forall i :: 0 <= i < 32 ==> WordOf(Pow2(k))[i] == (i == k)
  {
    BitsOfPow2(k, 32);
  }

  lemma XorWithItself(a: int)
    ensures BitwiseXor(a, a) == 0
  {
    WordOfZero();
    WordOfBitwise(XorOp, a, a);
    WordDetermines(BitwiseXor(a, a), 0);
  }

  lemma AndWithZero(a: int)
    ensures BitwiseAnd(a, 0) == 0
  {
    WordOfZero();
    WordOfBitwise(AndOp, a, 0);
    WordDetermines(BitwiseAnd(a, 0), 0);
  }

  /** a | 0 is the 32-bit reading of a; a itself when a fits in 32 bits. */
  lemma OrWithZero(a: int)
    ensures BitwiseOr(a, 0) == ToInt32(a)
    ensures IsInt32(a) ==> BitwiseOr(a, 0) == a
  {
    WordOfZero();
    WordOfToInt32(a);
    WordOfBitwise(OrOp, a, 0);
    WordDetermines(BitwiseOr(a, 0), ToInt32(a));
    if IsInt32(a) {
      ToInt32OfInt32(a);
    }
  }

  /** The word of 0 or 1 has at most bit 0 set. */
  lemma WordOfBit(b: int)
    requires 0 <= b <= 1
    ensures forall i :: 0 <= i < 32 ==> WordOf(b)[i] == (i == 0 && b == 1)
  {
    if b == 0 {
      WordOfZero();
    } else {
      WordOfPow2(0);
    }
  }

  /** x & 1 is the parity of x. */
  lemma AndOne(x: int)
    ensures And(x, 1) == x % 2
  {
    WordOfBit(x % 2);
    WordOfBit(1);
    BitsCons(x, 32);
    WordOfBitwise(AndOp, x, 1);
    assert WordOf(And(x, 1)) == WordOf(x % 2);
    WordDetermines(And(x, 1), x % 2);
  }

  /** On non-negative 32-bit operands, &, | and ^ are the bit operations on binary expansions. */
  lemma BitwiseOfNaturals(op: BitOp, a: nat, b: nat)
    requires IsInt32(a) && IsInt32(b)
    ensures Bitwise(op, a, b) == NaturalBitwise(op, a, b)
  {
    Pow2Values();
    ToUint32OfUint32(a);
    ToUint32OfUint32(b);
    NaturalBitwiseBound(op, a, b, 31);
    ToInt32OfInt32(NaturalBitwise(op, a, b));
  }

  lemma {:induction false} NaturalBitwiseBound(op: BitOp, a: nat, b: nat, n: nat)
    requires a < Pow2(n) && b < Pow2(n)
    ensures NaturalBitwise(op, a, b) < Pow2(n)
    decreases n
  {
    if n > 0 && !(a == 0 && b == 0) {
      NaturalBitwiseBound(op, a / 2, b / 2, n - 1);
    } else if n == 0 {
      assert a == 0 && b == 0;
    }
  }

  lemma AndExample()
    ensures BitwiseAnd(12, 10) == 8
  {
    BitwiseOfNaturals(AndOp, 12, 10);
  }

  lemma OrExample()
    ensures BitwiseOr(12, 10) == 14
  {
    BitwiseOfNaturals(OrOp, 12, 10);
  }

  lemma XorExample()
    ensures BitwiseXor(12, 10) == 6
  {
    BitwiseOfNaturals(XorOp, 12, 10);
  }

  lemma NotExamples()
    ensures BitwiseNot(5) == -6 && BitwiseNot(0) == -1
  {
    ToInt32OfInt32(5);
    ToInt32OfInt32(0);
  }

  lemma LeftShiftExamples()
    ensures LeftShift(5, 1) == 10 && LeftShift(3, 2) == 12
  {
    ToInt32OfInt32(5);
    ToInt32OfInt32(3);
    ToInt32OfInt32(10);
    ToInt32OfInt32(12);
  }

  lemma RightShiftExamples()
    ensures RightShift(10, 1) == 5 && RightShift(12, 2) == 3
  {
    ToInt32OfInt32(10);
    ToInt32OfInt32(12);
  }

  // ---------------------------------------------------------------------
  // Rotations
  // ---------------------------------------------------------------------

  /** The mask the rotations compute: (1 << bitWidth) - 1, a plain subtraction. */
  function RotationMask(bitWidth: int): (m: int)
    ensures -TwoTo31 - 1 <= m < TwoTo31 - 1
  {
    ShiftLeft(1, bitWidth) - 1
  }

  /** Both rotations within the low bitWidth bits, under a given mask. */
  function RotateLeftUnder(value: int, positions: int, bitWidth: int, mask: int): (r: int)
    ensures IsInt32(r)
  {
    var v := And(value, mask);
    And(Or(ShiftLeft(v, positions), UnsignedShiftRight(v, bitWidth - positions)), mask)
  }

  function RotateRightUnder(value: int, positions: int, bitWidth: int, mask: int): (r: int)
    ensures IsInt32(r)
  {
    var v := And(value, mask);
    And(Or(UnsignedShiftRight(v, positions), ShiftLeft(v, bitWidth - positions)), mask)
  }

  function RotateLeft(value: int, positions: int, bitWidth: int := 32): (r: int)
    ensures IsInt32(r)
  {
    RotateLeftUnder(value, positions, bitWidth, RotationMask(bitWidth))
  }

  function RotateRight(value: int, positions: int, bitWidth: int := 32): (r: int)
    ensures IsInt32(r)
  {
    RotateRightUnder(value, positions, bitWidth, RotationMask(bitWidth))
  }

  /** The word whose bits below w are set. */
  function LowMask(w: nat): (m: seq<bool>)
    requires w <= 32
    ensures |m| == 32
    ensures forall i :: 0 <= i < 32 ==> m[i] == (i < w)
  {
    seq(32, i requires 0 <= i < 32 => i < w)
  }

  /** The bits of u below w, the others cleared. */
  function LowPart(u: seq<bool>, w: nat): (m: seq<bool>)
    requires |u| == 32 && w <= 32
    ensures |m| == 32
    ensures forall i :: 0 <= i < 32 ==> m[i] == (i < w && u[i])
  {
    seq(32, i requires 0 <= i < 32 => i < w && u[i])
  }

  /** The bit that a left rotation by p within w bits brings to bit q. */
  function LeftSource(q: nat, p: nat, w: nat): (j: nat)
    requires q < w && p < w
    ensures j < w
  {
    if q >= p then q - p else q + w - p
  }

  /** The bit that a right rotation by p within w bits brings to bit q. */
  function RightSource(q: nat, p: nat, w: nat): (j: nat)
    requires q < w && p < w
    ensures j < w
  {
    if q + p < w then q + p else q + p - w
  }

  /** The low w bits of u rotated left by p places; the bits from w up cleared. */
  function LeftRotated(u: seq<bool>, p: nat, w: nat): (r: seq<bool>)
    requires |u| == 32 && p < w <= 32
    ensures |r| == 32
    ensures forall q :: 0 <= q < 32 ==> r[q] == (q < w && u[LeftSource(q, p, w)])
  {
    seq(32, q requires 0 <= q < 32 => q < w && u[LeftSource(q, p, w)])
  }

  function RightRotated(u: seq<bool>, p: nat, w: nat): (r: seq<bool>)
    requires |u| == 32 && p < w <= 32
    ensures |r| == 32
    ensures forall q :: 0 <= q < 32 ==> r[q] == (q < w && u[RightSource(q, p, w)])
  {
    seq(32, q requires 0 <= q < 32 => q < w && u[RightSource(q, p, w)])
  }

  /** The rotation mask has the low (bitWidth mod 32) bits set. */
  lemma RotationMaskWord(bitWidth: int)
    ensures WordOf(RotationMask(bitWidth)) == LowMask(ShiftCount(bitWidth))
  {
    var k := ShiftCount(bitWidth);
    MaskIsOnes(bitWidth, k, Pow2(k) - 1);
    BitsOfOnes(Pow2(k) - 1, k, 32);
  }

  lemma MaskIsOnes(bitWidth: int, k: nat, ones: int)
    requires k == ShiftCount(bitWidth) && ones == Pow2(k) - 1
    ensures WordOf(RotationMask(bitWidth)) == Bits(ones, 32)
  {
    assert ShiftLeft(1, bitWidth) == ToInt32(Pow2(k)) by {
      ToInt32OfInt32(1);
    }
    var K := ToInt32Shift(Pow2(k));
    BitsOfCongruent(ones, RotationMask(bitWidth), K, 32);
  }

  /** The two shifted halves of a left rotation meet in the rotated word. */
  lemma LeftHalvesMeet(u: seq<bool>, v: seq<bool>, a: seq<bool>, b: seq<bool>, r: seq<bool>, p: nat, s: nat, w: nat)
    requires |u| == 32 && p < w <= 32 && s < 32
    requires s == if w - p < 32 then w - p else 0
    requires v == LowPart(u, w)
    requires a == MovedUp(v, p) && b == MovedDown(v, s, false)
    requires r == Combined(AndOp, Combined(OrOp, a, b), LowMask(w))
    ensures r == LeftRotated(u, p, w)
  {
    forall q | 0 <= q < 32
      ensures r[q] == LeftRotated(u, p, w)[q]
    {
      if q < w && s == 0 {
        assert p == 0;
      }
    }
  }

  lemma RightHalvesMeet(u: seq<bool>, v: seq<bool>, a: seq<bool>, b: seq<bool>, r: seq<bool>, p: nat, s: nat, w: nat)
    requires |u| == 32 && p < w <= 32 && s < 32
    requires s == if w - p < 32 then w - p else 0
    requires v == LowPart(u, w)
    requires a == MovedDown(v, p, false) && b == MovedUp(v, s)
    requires r == Combined(AndOp, Combined(OrOp, a, b), LowMask(w))
    ensures r == RightRotated(u, p, w)
  {
    forall q | 0 <= q < 32
      ensures r[q] == RightRotated(u, p, w)[q]
    {
      if q < w && s == 0 {
        assert p == 0;
      }
    }
  }

  /** The count w - p as the shifts see it. */
  lemma ComplementCount(p: nat, w: nat)
    requires p < w <= 32
    ensures ShiftCount(w - p) == if w - p < 32 then w - p else 0
  {
    if w - p < 32 {
      ShiftCountOf(w - p);
    }
  }

  /** Under a mask of the low w bits, the left rotation rotates the low w bits of the word. */
  lemma WordOfRotateLeftUnder(x: int, p: nat, w: nat, mask: int)
    requires p < w <= 32 && WordOf(mask) == LowMask(w)
    ensures WordOf(RotateLeftUnder(x, p, w, mask)) == LeftRotated(WordOf(x), p, w)
  {
    var v := And(x, mask);
    var a := ShiftLeft(v, p);
    var b := UnsignedShiftRight(v, w - p);
    assert WordOf(v) == LowPart(WordOf(x), w) by {
      WordOfBitwise(AndOp, x, mask);
      MaskedWord(WordOf(x), WordOf(mask), w);
    }
    assert WordOf(a) == MovedUp(WordOf(v), p) by {
      WordOfShiftLeft(v, p);
      ShiftCountOf(p);
    }
    var s := ShiftCount(w - p);
    assert WordOf(b) == MovedDown(WordOf(v), s, false) by {
      WordOfUnsignedShiftRight(v, w - p);
    }
    ComplementCount(p, w);
    var r := RotateLeftUnder(x, p, w, mask);
    assert WordOf(r) == Combined(AndOp, Combined(OrOp, WordOf(a), WordOf(b)), LowMask(w)) by {
      WordOfBitwise(OrOp, a, b);
      WordOfBitwise(AndOp, Or(a, b), mask);
    }
    LeftHalvesMeet(WordOf(x), WordOf(v), WordOf(a), WordOf(b), WordOf(r), p, s, w);
  }

  lemma WordOfRotateRightUnder(x: int, p: nat, w: nat, mask: int)
    requires p < w <= 32 && WordOf(mask) == LowMask(w)
    ensures WordOf(RotateRightUnder(x, p, w, mask)) == RightRotated(WordOf(x), p, w)
  {
    var v := And(x, mask);
    var a := UnsignedShiftRight(v, p);
    var b := ShiftLeft(v, w - p);
    assert WordOf(v) == LowPart(WordOf(x), w) by {
      WordOfBitwise(AndOp, x, mask);
      MaskedWord(WordOf(x), WordOf(mask), w);
    }
    assert WordOf(a) == MovedDown(WordOf(v), p, false) by {
      WordOfUnsignedShiftRight(v, p);
      ShiftCountOf(p);
    }
    var s := ShiftCount(w - p);
    assert WordOf(b) == MovedUp(WordOf(v), s) by {
      WordOfShiftLeft(v, w - p);
    }
    ComplementCount(p, w);
    var r := RotateRightUnder(x, p, w, mask);
    assert WordOf(r) == Combined(AndOp, Combined(OrOp, WordOf(a), WordOf(b)), LowMask(w)) by {
      WordOfBitwise(OrOp, a, b);
      WordOfBitwise(AndOp, Or(a, b), mask);
    }
    RightHalvesMeet(WordOf(x), WordOf(v), WordOf(a), WordOf(b), WordOf(r), p, s, w);
  }

  /** For widths 1 to 31, the rotations rotate the low bitWidth bits of the 32-bit word. */
  lemma WordOfRotateLeft(x: int, p: nat, w: nat)
    requires p < w <= 31
    ensures WordOf(RotateLeft(x, p, w)) == LeftRotated(WordOf(x), p, w)
  {
    RotationMaskWord(w);
    ShiftCountOf(w);
    WordOfRotateLeftUnder(x, p, w, RotationMask(w));
  }

  lemma WordOfRotateRight(x: int, p: nat, w: nat)
    requires p < w <= 31
    ensures WordOf(RotateRight(x, p, w)) == RightRotated(WordOf(x), p, w)
  {
    RotationMaskWord(w);
    ShiftCountOf(w);
    WordOfRotateRightUnder(x, p, w, RotationMask(w));
  }

  /** A 32-bit integer whose bits from n up are clear lies in [0, 2^n). */
  lemma InRangeOfClearBits(r: int, n: nat)
    requires IsInt32(r) && n < 32
    requires forall i :: n <= i < 32 ==> !WordOf(r)[i]
    ensures 0 <= r < Pow2(n)
  {
    var m := r % Pow2(n);
    WordOfLowBits(r, n);
    Pow2Monotone(n, 31);
    Pow2Values();
    WordDetermines(r, m);
  }

  /** The result of either rotation lies in [0, 2^(bitWidth mod 32)), whatever the positions. */
  lemma RotateRange(x: int, p: int, w: int)
    ensures 0 <= RotateLeft(x, p, w) < Pow2(ShiftCount(w))
    ensures 0 <= RotateRight(x, p, w) < Pow2(ShiftCount(w))
  {
    var mask := RotationMask(w);
    RotationMaskWord(w);
    var v := And(x, mask);
    WordOfBitwise(AndOp, Or(ShiftLeft(v, p), UnsignedShiftRight(v, w - p)), mask);
    InRangeOfClearBits(RotateLeft(x, p, w), ShiftCount(w));
    WordOfBitwise(AndOp, Or(UnsignedShiftRight(v, p), ShiftLeft(v, w - p)), mask);
    InRangeOfClearBits(RotateRight(x, p, w), ShiftCount(w));
  }

  /** With bitWidth 32 the mask (1 << 32) - 1 is 0, so both rotations return 0. */
  lemma RotateWidth32IsZero(x: int, p: int)
    ensures RotateLeft(x, p, 32) == 0 && RotateRight(x, p, 32) == 0
  {
    RotateRange(x, p, 32);
    assert ShiftCount(32) == 0;
  }

  /** Rotating back by the same amount undoes a rotation, on words. */
  lemma RotatedWordsRoundTrip(u: seq<bool>, p: nat, w: nat)
    requires |u| == 32 && p < w <= 32
    ensures RightRotated(LeftRotated(u, p, w), p, w) == LowPart(u, w)
    ensures LeftRotated(RightRotated(u, p, w), p, w) == LowPart(u, w)
  {
    var l, r := LeftRotated(u, p, w), RightRotated(u, p, w);
    forall q | 0 <= q < w
      ensures RightRotated(l, p, w)[q] == u[q] && LeftRotated(r, p, w)[q] == u[q]
    {
      assert LeftSource(RightSource(q, p, w), p, w) == q;
      assert RightSource(LeftSource(q, p, w), p, w) == q;
    }
  }

  /** Masking with the low-w mask keeps the bits below w. */
  lemma MaskedWord(u: seq<bool>, m: seq<bool>, w: nat)
    requires |u| == 32 && w <= 32 && m == LowMask(w)
    ensures Combined(AndOp, u, m) == LowPart(u, w)
  {
  }

  /** For widths 1 to 31 and positions below the width, rotating back leaves x mod 2^bitWidth. */
  lemma RotateRoundTrip(x: int, p: nat, w: nat)
    requires 1 <= w <= 31 && p < w
    ensures RotateRight(RotateLeft(x, p, w), p, w) == x % Pow2(w)
    ensures RotateLeft(RotateRight(x, p, w), p, w) == x % Pow2(w)
  {
    var u := WordOf(x);
    var low := x % Pow2(w);
    assert IsInt32(low) && WordOf(low) == LowPart(u, w) by {
      WordOfLowBits(x, w);
      Pow2Monotone(w, 31);
      Pow2Values();
    }
    var l, r := RotateLeft(x, p, w), RotateRight(x, p, w);
    RotatedWordsRoundTrip(u, p, w);
    assert RotateRight(l, p, w) == low by {
      WordOfRotateLeft(x, p, w);
      WordOfRotateRight(l, p, w);
      WordDetermines(RotateRight(l, p, w), low);
    }
    assert RotateLeft(r, p, w) == low by {
      WordOfRotateRight(x, p, w);
      WordOfRotateLeft(r, p, w);
      WordDetermines(RotateLeft(r, p, w), low);
    }
  }

  /** The mask the rotations evidently intend: all 32 bits when bitWidth is 32 or more. */
  function WidthMask(bitWidth: int): int {
    if bitWidth >= 32 then -1 else RotationMask(bitWidth)
  }

  function RotateLeftFixed(value: int, positions: int, bitWidth: int := 32): int {
    RotateLeftUnder(value, positions, bitWidth, WidthMask(bitWidth))
  }

  function RotateRightFixed(value: int, positions: int, bitWidth: int := 32): int {
    RotateRightUnder(value, positions, bitWidth, WidthMask(bitWidth))
  }

  lemma WidthMaskWord(w: nat)
    requires w <= 32
    ensures WordOf(WidthMask(w)) == LowMask(w)
  {
    if w == 32 {
      BitsOfComplement(0, 32);
      WordOfZero();
    } else {
      RotationMaskWord(w);
      ShiftCountOf(w);
    }
  }

  /** With the corrected mask, rotating back leaves the low bitWidth bits for every width 1 to 32. */
  lemma RotateFixedRoundTrip(x: int, p: nat, w: nat)
    requires 1 <= w <= 32 && p < w
    ensures RotateRightFixed(RotateLeftFixed(x, p, w), p, w) == ToInt32(x % Pow2(w))
    ensures RotateLeftFixed(RotateRightFixed(x, p, w), p, w) == ToInt32(x % Pow2(w))
  {
    var mask := WidthMask(w);
    WidthMaskWord(w);
    var l := RotateLeftFixed(x, p, w);
    var r := RotateRightFixed(x, p, w);
    WordOfRotateLeftUnder(x, p, w, mask);
    WordOfRotateRightUnder(x, p, w, mask);
    WordOfRotateRightUnder(l, p, w, mask);
    WordOfRotateLeftUnder(r, p, w, mask);
    RotatedWordsRoundTrip(WordOf(x), p, w);
    WordOfLowBits(x, w);
    WordOfToInt32(x % Pow2(w));
    WordDetermines(RotateRightFixed(l, p, w), ToInt32(x % Pow2(w)));
    WordDetermines(RotateLeftFixed(r, p, w), ToInt32(x % Pow2(w)));
  }

  // ---------------------------------------------------------------------
  // Two's complement
  // ---------------------------------------------------------------------

  /** ~value + 1; bitWidth is accepted and not used. */
  function TwosComplement(value: int, bitWidth: int := 32): (r: int)
    ensures -TwoTo31 < r <= TwoTo31
  {
    BitwiseNot(value) + 1
  }

  /** The two's complement is the negation of the 32-bit value, whatever the width. */
  lemma TwosComplementIsNegation(value: int, bitWidth: int)
    ensures TwosComplement(value, bitWidth) == -ToInt32(value)
    ensures IsInt32(value) ==> TwosComplement(value, bitWidth) == -value
    ensures TwosComplement(value, bitWidth) == TwosComplement(value, 32)
  {
    if IsInt32(value) {
      ToInt32OfInt32(value);
    }
  }

  /**
   * Applied twice it gives the 32-bit value back, except for -2^31, whose
   * negation 2^31 is read back as -2^31 by ~.
   */
  lemma TwosComplementTwice(value: int)
    ensures TwosComplement(TwosComplement(value)) == ToInt32(value) <==> ToInt32(value) != -TwoTo31
  {
    var t := ToInt32(value);
    if t == -TwoTo31 {
      assert ToInt32(TwoTo31) == -TwoTo31;
    } else {
      ToInt32OfInt32(-t);
    }
  }

  lemma TwosComplementExamples()
    ensures TwosComplement(5) == -5 && TwosComplement(0) == 0
  {
    ToInt32OfInt32(5);
    ToInt32OfInt32(0);
  }

  // ---------------------------------------------------------------------
  // Single bits
  // ---------------------------------------------------------------------

  /** (value >> position) & 1 */
  function GetBitAt(value: int, position: int): (r: int)
    ensures r == 0 || r == 1
  {
    AndOne(ShiftRight(value, position));
    And(ShiftRight(value, position), 1)
  }

  /** Bit 0 of a word is the parity of the number. */
  lemma LowBit(x: int)
    ensures WordOf(x)[0] <==> x % 2 == 1
  {
    assert Pow2(0) == 1;
  }

  /** getBitAt reads bit position % 32 of the 32-bit value: as a word, and as arithmetic. */
  lemma GetBitAtReadsBit(value: int, position: int)
    ensures GetBitAt(value, position) == if WordOf(value)[ShiftCount(position)] then 1 else 0
    ensures GetBitAt(value, position) == (ToInt32(value) / Pow2(ShiftCount(position))) % 2
  {
    var s := ShiftRight(value, position);
    AndOne(s);
    LowBit(s);
    WordOfShiftRight(value, position);
  }

  lemma GetBitAtExampleLow()
    ensures GetBitAt(5, 0) == 1
  {
    assert ShiftRight(5, 0) == 5 by {
      ToInt32OfInt32(5);
      ShiftCountOf(0);
      assert Pow2(0) == 1;
    }
    assert And(5, 1) == 1 by {
      ToUint32OfUint32(5);
      ToUint32OfUint32(1);
      ToInt32OfInt32(1);
      assert NaturalBitwise(AndOp, 5, 1) == 1;
    }
  }

  lemma GetBitAtExampleClear()
    ensures GetBitAt(5, 1) == 0
  {
    assert ShiftRight(5, 1) == 2 by {
      ToInt32OfInt32(5);
      ShiftCountOf(1);
      assert Pow2(1) == 2;
    }
    assert And(2, 1) == 0 by {
      ToUint32OfUint32(2);
      ToUint32OfUint32(1);
      ToInt32OfInt32(0);
      assert NaturalBitwise(AndOp, 2, 1) == 0;
    }
  }

  /** bit === 1 sets the bit with |, anything else clears it with & ~. */
  function SetBitAt(value: int, position: int, bit: int): (r: int)
    ensures IsInt32(r)
  {
    if bit == 1 then Or(value, ShiftLeft(1, position))
    else And(value, Not(ShiftLeft(1, position)))
  }

  /** 1 << position has bit position % 32 set and no other. */
  lemma WordOfSingleBit(position: int)
    ensures forall i :: 0 <= i < 32 ==> WordOf(ShiftLeft(1, position))[i] == (i == ShiftCount(position))
  {
    WordOfShiftLeft(1, position);
    WordOfBit(1);
  }

  /** setBitAt changes bit position % 32 to the requested bit and leaves the others. */
  lemma WordOfSetBitAt(value: int, position: int, bit: int)
    ensures WordOf(SetBitAt(value, position, bit)) == WordOf(value)[ShiftCount(position) := bit == 1]
  {
    var one := ShiftLeft(1, position);
    WordOfSingleBit(position);
    if bit == 1 {
      WordOfBitwise(OrOp, value, one);
    } else {
      WordOfNot(one);
      WordOfBitwise(AndOp, value, Not(one));
    }
  }

  /** Reading the bit back gives the bit written; every other bit reads as before. */
  lemma GetBitAtOfSetBitAt(value: int, position: int, bit: int)
    ensures GetBitAt(SetBitAt(value, position, bit), position) == if bit == 1 then 1 else 0
    ensures forall q :: 0 <= q < 32 && q != ShiftCount(position) ==>
              GetBitAt(SetBitAt(value, position, bit), q) == GetBitAt(value, q)
  {
    var r := SetBitAt(value, position, bit);
    WordOfSetBitAt(value, position, bit);
    GetBitAtReadsBit(r, position);
    forall q | 0 <= q < 32 && q != ShiftCount(position)
      ensures GetBitAt(r, q) == GetBitAt(value, q)
    {
      GetBitAtReadsBit(r, q);
      GetBitAtReadsBit(value, q);
      ShiftCountOf(q);
    }
  }

  /** Writing back the bit that is already there gives the 32-bit value unchanged. */
  lemma SetBitAtIdempotent(value: int, position: int, bit: int)
    ensures SetBitAt(value, position, GetBitAt(value, position)) == ToInt32(value)
    ensures SetBitAt(SetBitAt(value, position, bit), position, bit) == SetBitAt(value, position, bit)
  {
    var k := ShiftCount(position);
    var u := WordOf(value);
    GetBitAtReadsBit(value, position);
    WordOfSetBitAt(value, position, GetBitAt(value, position));
    WordOfToInt32(value);
    assert u[k := u[k]] == u;
    WordDetermines(SetBitAt(value, position, GetBitAt(value, position)), ToInt32(value));
    var r := SetBitAt(value, position, bit);
    WordOfSetBitAt(value, position, bit);
    WordOfSetBitAt(r, position, bit);
    assert u[k := bit == 1][k := bit == 1] == u[k := bit == 1];
    WordDetermines(SetBitAt(r, position, bit), r);
  }

  /** Changing bit k of a number from ob to nb adds (nb - ob) * 2^k. */
  lemma BitChange(t: int, k: nat, ob: int, nb: int)
    requires k < 32 && (nb == 0 || nb == 1)
    requires ob == if WordOf(t)[k] then 1 else 0
    ensures WordOf(t + (nb - ob) * Pow2(k)) == WordOf(t)[k := nb == 1]
  {
    var p: int := Pow2(k);
    if nb == ob {
      assert (nb - ob) * p == 0;
      assert WordOf(t)[k := nb == 1] == WordOf(t);
    } else if nb == 1 {
      assert (nb - ob) * p == p;
      BitsOfAddedPow2(t, k, 32);
    } else {
      assert (nb - ob) * p == -p;
      BitsOfSubtractedPow2(t, k, 32);
    }
  }

  lemma WordOfBitChanged(value: int, position: int, nb: int, y: int)
    requires nb == 0 || nb == 1
    requires y == ToInt32(value) + (nb - GetBitAt(value, position)) * Pow2(ShiftCount(position))
    ensures WordOf(y) == WordOf(value)[ShiftCount(position) := nb == 1]
  {
    GetBitAtReadsBit(value, position);
    WordOfToInt32(value);
    BitChange(ToInt32(value), ShiftCount(position), GetBitAt(value, position), nb);
  }

  /** The same operation as arithmetic: add or subtract 2^position when the bit changes. */
  lemma SetBitAtArithmetic(value: int, position: int, bit: int)
    ensures SetBitAt(value, position, bit)
         == ToInt32(ToInt32(value) + ((if bit == 1 then 1 else 0) - GetBitAt(value, position)) * Pow2(ShiftCount(position)))
  {
    var k := ShiftCount(position);
    var nb := if bit == 1 then 1 else 0;
    var y := ToInt32(value) + (nb - GetBitAt(value, position)) * Pow2(k);
    var r := SetBitAt(value, position, bit);
    assert r == ToInt32(y) by {
      assert WordOf(r) == WordOf(ToInt32(y)) by {
        WordOfBitChanged(value, position, nb, y);
        WordOfToInt32(y);
        WordOfSetBitAt(value, position, bit);
      }
      assert IsInt32(r);
      WordDetermines(r, ToInt32(y));
    }
  }

  lemma SetBitAtExampleSet()
    ensures SetBitAt(5, 1, 1) == 7
  {
    assert ShiftLeft(1, 1) == 2 by {
      ToInt32OfInt32(1);
      ToInt32OfInt32(2);
      ShiftCountOf(1);
      assert Pow2(1) == 2;
    }
    assert Or(5, 2) == 7 by {
      ToUint32OfUint32(5);
      ToUint32OfUint32(2);
      ToInt32OfInt32(7);
      assert NaturalBitwise(OrOp, 5, 2) == 7;
    }
  }

  // ---------------------------------------------------------------------
  // Counting the set bits
  // ---------------------------------------------------------------------

  /** How many bits of a word are set. */
  function SetBitCount(u: seq<bool>): (c: nat)
    ensures c <= |u|
  {
    if u == [] then 0 else (if u[0] then 1 else 0) + SetBitCount(u[1..])
  }

  /** The population count of a natural number, by halving. */
  function PopCount(x: nat): nat {
    if x == 0 then 0 else x % 2 + PopCount(x / 2)
  }

  /** The set bits of the n-bit word of x are its population count. */
  lemma {:induction false} SetBitCountOfBits(x: nat, n: nat)
    requires x < Pow2(n)
    ensures SetBitCount(Bits(x, n)) == PopCount(x)
  {
    if n > 0 {
      BitsCons(x, n);
      assert Bits(x, n)[1..] == Bits(x / 2, n - 1);
      SetBitCountOfBits(x / 2, n - 1);
    }
  }

  /** A clear bit appended at the top is not counted. */
  lemma {:induction false} SetBitCountOfClearTop(u: seq<bool>)
    ensures SetBitCount(u + [false]) == SetBitCount(u)
  {
    if u != [] {
      assert (u + [false])[1..] == u[1..] + [false];
      SetBitCountOfClearTop(u[1..]);
    }
  }

  /** A word with no bit set counts 0. */
  lemma {:induction false} SetBitCountOfClear(u: seq<bool>)
    requires forall i :: 0 <= i < |u| ==> !u[i]
    ensures SetBitCount(u) == 0
  {
    if u != [] {
      SetBitCountOfClear(u[1..]);
    }
  }

  /** Moving a word down by one bit with a clear fill drops exactly bit 0 from the count. */
  lemma CountAfterShift(u: seq<bool>, next: seq<bool>)
    requires |u| == 32 && next == MovedDown(u, 1, false)
    ensures SetBitCount(u) == (if u[0] then 1 else 0) + SetBitCount(next)
  {
    assert next == u[1..] + [false];
    SetBitCountOfClearTop(u[1..]);
  }

  /** One round of the loop with value >>= 1 on a value whose 32-bit form is not negative. */
  lemma CountStep(v: int)
    requires ToInt32(v) >= 0
    ensures SetBitCount(WordOf(v)) == And(v, 1) + SetBitCount(WordOf(ShiftRight(v, 1)))
    ensures 0 <= ShiftRight(v, 1) < TwoTo31
    ensures 0 < v < TwoTo31 ==> ShiftRight(v, 1) < v
  {
    var next := ShiftRight(v, 1);
    ShiftCountOf(1);
    assert next == ToInt32(v) / 2 by {
      assert Pow2(1) == 2;
    }
    assert SetBitCount(WordOf(v)) == And(v, 1) + SetBitCount(WordOf(next)) by {
      AndOne(v);
      LowBit(v);
      SignBit(v);
      WordOfShiftRight(v, 1);
      CountAfterShift(WordOf(v), WordOf(next));
    }
    if 0 <= v < TwoTo31 {
      ToInt32OfInt32(v);
    }
  }

  /**
   * countSetBits: add value & 1, then value >>= 1, while value is not 0.
   * The loop ends only when the 32-bit value is not negative; then it counts its set bits.
   */
  method CountSetBits(value: int) returns (count: int)
    requires ToInt32(value) >= 0
    ensures count == SetBitCount(WordOf(value))
  {
    count := 0;
    var v := value;
    while v != 0
      invariant ToInt32(v) >= 0
      invariant v == value || (0 <= v < TwoTo31)
      invariant count + SetBitCount(WordOf(v)) == SetBitCount(WordOf(value))
      decreases if 0 <= v < TwoTo31 then v else TwoTo31
    {
      CountStep(v);
      count := count + And(v, 1);
      v := ShiftRight(v, 1);
      ToInt32OfInt32(v);
    }
    WordOfZero();
    SetBitCountOfClear(WordOf(0));
  }

  /** For a non-negative 32-bit value the count is the population count. */
  lemma CountIsPopCount(x: nat)
    requires x < TwoTo31
    ensures SetBitCount(WordOf(x)) == PopCount(x)
  {
    Pow2Values();
    Pow2Monotone(31, 32);
    SetBitCountOfBits(x, 32);
  }

  lemma CountExampleSeven()
    ensures SetBitCount(WordOf(7)) == 3
  {
    CountIsPopCount(7);
  }

  /** The value after k rounds of value >>= 1. */
  function ShiftedRightTimes(v: int, k: nat): int {
    if k == 0 then v else ShiftRight(ShiftedRightTimes(v, k - 1), 1)
  }

  /** value >>= 1 keeps a negative 32-bit value negative. */
  lemma ShiftRightKeepsNegative(v: int)
    requires ToInt32(v) < 0
    ensures ShiftRight(v, 1) < 0
  {
    ShiftCountOf(1);
    DivBounds(ToInt32(v), Pow2(1));
  }

  /** From a negative 32-bit value the loop's value is never 0, however many rounds run. */
  lemma {:induction false} CountSetBitsNeverEndsOnNegative(v: int, k: nat)
    requires ToInt32(v) < 0
    ensures ShiftedRightTimes(v, k) != 0 && ToInt32(ShiftedRightTimes(v, k)) < 0
  {
    if k == 0 {
      assert ToInt32(0) == 0;
    } else {
      CountSetBitsNeverEndsOnNegative(v, k - 1);
      var u := ShiftedRightTimes(v, k - 1);
      ShiftRightKeepsNegative(u);
      ToInt32OfInt32(ShiftRight(u, 1));
    }
  }

  /** One round of the loop with value >>>= 1. */
  lemma UnsignedCountStep(v: int)
    ensures SetBitCount(WordOf(v)) == And(v, 1) + SetBitCount(WordOf(UnsignedShiftRight(v, 1)))
    ensures IsUint32(v) && v > 0 ==> UnsignedShiftRight(v, 1) < v
  {
    var next := UnsignedShiftRight(v, 1);
    ShiftCountOf(1);
    assert next == ToUint32(v) / 2 by {
      assert Pow2(1) == 2;
    }
    assert SetBitCount(WordOf(v)) == And(v, 1) + SetBitCount(WordOf(next)) by {
      AndOne(v);
      LowBit(v);
      WordOfUnsignedShiftRight(v, 1);
      CountAfterShift(WordOf(v), WordOf(next));
    }
    if IsUint32(v) {
      ToUint32OfUint32(v);
    }
  }

  /** The loop with value >>>= 1: it ends for every input and counts all 32 bits. */
  method CountSetBitsFixed(value: int) returns (count: int)
    ensures count == SetBitCount(WordOf(value))
  {
    count := 0;
    var v := value;
    while v != 0
      invariant v == value || IsUint32(v)
      invariant count + SetBitCount(WordOf(v)) == SetBitCount(WordOf(value))
      decreases if IsUint32(v) then v else TwoTo32
    {
      UnsignedCountStep(v);
      count := count + And(v, 1);
      v := UnsignedShiftRight(v, 1);
    }
    WordOfZero();
    SetBitCountOfClear(WordOf(0));
  }
}
