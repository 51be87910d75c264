/** code/machine/mipssim.cc: the 64-bit multiply, and the overflow tests of the add and
    subtract instructions.  `int` values are 32-bit two's complement, `unsigned int`
    values are words; a right shift of an `int` keeps its sign. */
module Arithmetic {
  import opened Words

  /** What is left of a number in 32-bit two's complement. */
  function Wrap(x: int): int32 {
    FromWord(x % WORD)
  }

  function Double(hi: word, lo: word): nat {
    hi * WORD + lo
  }

  function Product(x: word, y: word): nat {
    x * y
  }

  // ----- the multiply loop -----

  /** Adding double words with the carry test the loop uses. */
  lemma AddCarry(hi: word, lo: word, bHi: word, bLo: word)
    requires Double(hi, lo) + Double(bHi, bLo) < WORD * WORD
    ensures var lo' := (lo + bLo) % WORD; var carry := if lo' < bLo then 1 else 0;
      hi + carry + bHi < WORD && Double(hi + carry + bHi, lo') == Double(hi, lo) + Double(bHi, bLo)
  {
  }

  /** Shifting a double word left by way of its top bit. */
  lemma ShiftLeft(bHi: word, bLo: word)
    requires 2 * Double(bHi, bLo) < WORD * WORD
    ensures var top := if bLo >= 0x8000_0000 then 1 else 0;
      bHi * 2 + top < WORD && Double(bHi * 2 + top, bLo * 2 % WORD) == 2 * Double(bHi, bLo)
  {
  }

  /** Peeling the last bit off one factor and doubling the other. */
  lemma Peel(u: nat, b: nat)
    ensures u * b == (u / 2) * (2 * b) + (u % 2) * b
  {
    assert u == 2 * (u / 2) + u % 2;
    assert u * b == (2 * (u / 2)) * b + (u % 2) * b;
  }

  lemma FactorBound(p: nat, u: nat, b: nat, limit: nat)
    requires p + u * b < limit && u >= 1
    ensures p + b < limit
  {
    assert u * b == b + (u - 1) * b;
  }

  /** While a shift is still to come, the shifted factor has room for it. */
  lemma RoomToShift(b: nat, q: nat, b0: word)
    requires b * (2 * q) == b0 * WORD && q >= 1
    ensures (2 * b) * q == b0 * WORD && 2 * b < WORD * WORD
  {
    assert (2 * b) * q == b * (2 * q);
    assert (2 * b) * q == 2 * b + (2 * b) * (q - 1);
  }

  lemma ProductBound(x: nat, y: nat, m: nat, n: nat)
    requires x <= m && y <= n
    ensures x * y <= m * n
  {
    assert m * n == x * y + x * (n - y) + (m - x) * n;
  }

  /** `u` is what is left of the multiplier, of `q` values, once shifted with its sign. */
  predicate Shifted(a: int, u: nat, q: nat) {
    u < q && (a == u || a == u - q)
  }

  lemma ShiftedStep(a: int, u: nat, q: nat)
    requires Shifted(a, u, 2 * q)
    ensures a % 2 == u % 2 && Shifted(a / 2, u / 2, q) && (a == 1 ==> u == 1)
  {
  }

  /** The sum so far and the copies still to add make up the product, and the next copy
      is `b` shifted as far as it has been. */
  ghost predicate Adding(hi: word, lo: word, bHi: word, bLo: word, u: nat, q: nat, b: word, product: nat) {
    && Double(bHi, bLo) * q == b * WORD
    && Double(hi, lo) + u * Double(bHi, bLo) == product < WORD * WORD
  }

  lemma AddStep(hi: word, lo: word, bHi: word, bLo: word, u: nat, q: nat, b: word, product: nat)
    requires Adding(hi, lo, bHi, bLo, u, q, b, product) && u >= 1
    ensures var lo' := (lo + bLo) % WORD; var carry := if lo' < bLo then 1 else 0;
      hi + carry + bHi < WORD && Adding(hi + carry + bHi, lo', bHi, bLo, u - 1, q, b, product)
  {
    hide Double;
    var copy := Double(bHi, bLo);
    FactorBound(Double(hi, lo), u, copy, WORD * WORD);
    AddCarry(hi, lo, bHi, bLo);
    assert u * copy == copy + (u - 1) * copy;
  }

  lemma ShiftStep(hi: word, lo: word, bHi: word, bLo: word, u: nat, q: nat, b: word, product: nat)
    requires Adding(hi, lo, bHi, bLo, u, 2 * q, b, product) && u % 2 == 0 && q >= 1
    ensures var top := if bLo >= 0x8000_0000 then 1 else 0;
      bHi * 2 + top < WORD && Adding(hi, lo, bHi * 2 + top, bLo * 2 % WORD, u / 2, q, b, product)
  {
    hide Double;
    var copy := Double(bHi, bLo);
    RoomToShift(copy, q, b);
    ShiftLeft(bHi, bLo);
    Peel(u, copy);
  }

  lemma Added(hi: word, lo: word, bHi: word, bLo: word, q: nat, b: word, product: nat)
    requires Adding(hi, lo, bHi, bLo, 0, q, b, product)
    ensures Double(hi, lo) == product
  {
  }

  /** Adds up the shifted copies of `b` that the bits of `a0` pick, stopping early at the last. */
  method MultLoop(a0: int32, b: word) returns (hi: word, lo: word)
    ensures Double(hi, lo) == Product(ToWord(a0), b)
  {
    hide Double, Product, Shifted, Adding, Pow2, ToWord;
    ghost var product: nat, u: nat := Product(ToWord(a0), b), ToWord(a0);
    Start(a0, b);
    var a: int32, bLo: word, bHi: word := a0, b, 0;
    hi, lo := 0, 0;
    var i := 0;
    while i < 32
      invariant 0 <= i <= 32 && Shifted(a, u, Pow2(32 - i))
      invariant Adding(hi, lo, bHi, bLo, u, Pow2(32 - i), b, product)
    {
      ghost var q := Pow2(31 - i);
      PowStep(31 - i);
      ShiftedStep(a, u, q);
      ghost var u' := u / 2;
      if a % 2 == 1 {
        AddStep(hi, lo, bHi, bLo, u, 2 * q, b, product);
        u := u - 1;
        lo := (lo + bLo) % WORD;
        var carry := if lo < bLo then 1 else 0;
        hi := hi + carry + bHi;
        // the bits above the last one are all zero
        if a == 1 {
          Added(hi, lo, bHi, bLo, 2 * q, b, product);
          return;
        }
      }
      assert u == 2 * u';
      ShiftStep(hi, lo, bHi, bLo, u, q, b, product);
      bHi := bHi * 2 + if bLo >= 0x8000_0000 then 1 else 0;
      bLo := bLo * 2 % WORD;
      a := a / 2;
      u := u';
      i := i + 1;
    }
    AllShifted(a, u);
    Added(hi, lo, bHi, bLo, 1, b, product);
  }

  lemma PowStep(k: nat)
    ensures Pow2(k + 1) == 2 * Pow2(k)
  {
  }

  lemma Start(a0: int32, b: word)
    ensures Shifted(a0, ToWord(a0), Pow2(32)) && Adding(0, 0, 0, b, ToWord(a0), Pow2(32), b, Product(ToWord(a0), b))
  {
    Pow2Of32();
    ProductBound(ToWord(a0), b, WORD - 1, WORD - 1);
  }

  lemma AllShifted(a: int, u: nat)
    requires Shifted(a, u, Pow2(0))
    ensures u == 0 && Pow2(0) == 1
  {
  }

  // ----- signs -----

  /** The two's complement of a double word. */
  method Negate(hi: word, lo: word) returns (hi': word, lo': word)
    ensures Double(hi', lo') == if Double(hi, lo) == 0 then 0 else WORD * WORD - Double(hi, lo)
  {
    hi' := WORD - 1 - hi;
    lo' := WORD - 1 - lo;
    lo' := (lo' + 1) % WORD;
    if lo' == 0 {
      hi' := (hi' + 1) % WORD;
    }
  }

  /** Leaves in hi:lo the exact product of two 32-bit numbers. */
  method Mult(a: int32, b: int32, signedArith: bool) returns (hi: int32, lo: int32)
    ensures signedArith ==> hi * WORD + ToWord(lo) == a * b
    ensures !signedArith ==> ToWord(hi) * WORD + ToWord(lo) == ToWord(a) * ToWord(b)
  {
    if a == 0 || b == 0 {
      ZeroProduct(a, b);
      return 0, 0;
    }
    var negative, a', b' := false, a, b;
    if signedArith {
      AbsWord(a);
      AbsWord(b);
      if a' < 0 {
        negative := !negative;
        a' := Wrap(-(a' as int));
      }
      if b' < 0 {
        negative := !negative;
        b' := Wrap(-(b' as int));
      }
    }
    hide Double, Wrap, Abs, ToWord, FromWord;
    var hiWord, loWord := MultLoop(a', ToWord(b'));
    if negative {
      hiWord, loWord := Negate(hiWord, loWord);
    }
    hi, lo := FromWord(hiWord), FromWord(loWord);
    if signedArith {
      SignedProduct(a, b, hiWord, loWord);
    }
    WordsBack(hiWord, loWord);
  }

  lemma ZeroProduct(a: int32, b: int32)
    requires a == 0 || b == 0
    ensures a * b == 0 && ToWord(a) * ToWord(b) == 0 && ToWord(0) == 0
  {
  }

  lemma WordsBack(hi: word, lo: word)
    ensures ToWord(FromWord(lo)) == lo && ToWord(FromWord(hi)) == hi && Double(hi, lo) == hi * WORD + lo
  {
  }

  /** Even the least integer, which negates to itself, has its magnitude as a word. */
  lemma AbsWord(a: int32)
    ensures ToWord(if a < 0 then Wrap(-(a as int)) else a) == Abs(a)
  {
  }

  function Abs(x: int): nat {
    if x < 0 then 0 - x else x
  }

  lemma SignedProduct(a: int32, b: int32, hi: word, lo: word)
    requires a != 0 && b != 0
    requires Double(hi, lo) == if (a < 0) != (b < 0) then (if Abs(a) * Abs(b) == 0 then 0 else WORD * WORD - Abs(a) * Abs(b)) else Abs(a) * Abs(b)
    ensures FromWord(hi) * WORD + lo == a * b
  {
    ProductBound(Abs(a), Abs(b), 0x8000_0000, 0x8000_0000);
    ProductBound(1, 1, Abs(a), Abs(b));
    SignOf(a, b);
    SignedValue(hi, lo, if (a < 0) != (b < 0) then 0 - Abs(a) * Abs(b) else Abs(a) * Abs(b));
  }

  lemma SignOf(a: int, b: int)
    ensures a * b == if (a < 0) != (b < 0) then 0 - Abs(a) * Abs(b) else Abs(a) * Abs(b)
  {
  }

  lemma SignedValue(hi: word, lo: word, v: int)
    requires -0x4000_0000_0000_0000 <= v <= 0x4000_0000_0000_0000
    requires Double(hi, lo) == if v < 0 then WORD * WORD + v else v
    ensures FromWord(hi) * WORD + lo == v
  {
  }

  // ----- overflow -----

  /** `(x ^ y) & SIGN_BIT` */
  predicate SignsDiffer(x: int32, y: int32) {
    (x < 0) != (y < 0)
  }

  predicate Fits(x: int) {
    -0x8000_0000 <= x < 0x8000_0000
  }

  const HI_REG: nat := 32
  const LO_REG: nat := 33

  class Cpu {
    const registers: array<int32>

    constructor ()
      ensures fresh(registers) && registers.Length == 40
    {
      registers := new int32[40](_ => 0);
    }

    /** OP_MULT and OP_MULTU */
    method Multiply(rs: nat, rt: nat, signedArith: bool)
      requires registers.Length == 40 && rs < 32 && rt < 32
      modifies registers
      ensures forall r :: 0 <= r < 40 && r != HI_REG && r != LO_REG ==> registers[r] == old(registers[r])
      ensures signedArith ==>
        registers[HI_REG] * WORD + ToWord(registers[LO_REG]) == old(registers[rs]) as int * old(registers[rt])
      ensures !signedArith ==>
        ToWord(registers[HI_REG]) * WORD + ToWord(registers[LO_REG]) == ToWord(old(registers[rs])) * ToWord(old(registers[rt]))
    {
      var hi, lo := Mult(registers[rs], registers[rt], signedArith);
      registers[HI_REG], registers[LO_REG] := hi, lo;
    }

    /** OP_ADD traps exactly when the sum does not fit, and then changes nothing. */
    method Add(rs: nat, rt: nat, rd: nat) returns (overflow: bool)
      requires registers.Length == 40 && rs < 32 && rt < 32 && rd < 32
      modifies registers
      ensures overflow <==> !Fits(old(registers[rs]) as int + old(registers[rt]))
      ensures overflow ==> registers[..] == old(registers[..])
      ensures !overflow ==> registers[..] == old(registers[..])[rd := old(registers[rs]) + old(registers[rt])]
    {
      var sum := Wrap(registers[rs] as int + registers[rt]);
      if !SignsDiffer(registers[rs], registers[rt]) && SignsDiffer(registers[rs], sum) {
        return true;
      }
      registers[rd] := sum;
      overflow := false;
    }

    method AddImmediate(rs: nat, rt: nat, extra: int32) returns (overflow: bool)
      requires registers.Length == 40 && rs < 32 && rt < 32
      modifies registers
      ensures overflow <==> !Fits(old(registers[rs]) + extra)
      ensures overflow ==> registers[..] == old(registers[..])
      ensures !overflow ==> registers[..] == old(registers[..])[rt := old(registers[rs]) + extra]
    {
      var sum := Wrap(registers[rs] + extra);
      if !SignsDiffer(registers[rs], extra) && SignsDiffer(extra, sum) {
        return true;
      }
      registers[rt] := sum;
      overflow := false;
    }

    method Subtract(rs: nat, rt: nat, rd: nat) returns (overflow: bool)
      requires registers.Length == 40 && rs < 32 && rt < 32 && rd < 32
      modifies registers
      ensures overflow <==> !Fits(old(registers[rs]) as int - old(registers[rt]))
      ensures overflow ==> registers[..] == old(registers[..])
      ensures !overflow ==> registers[..] == old(registers[..])[rd := old(registers[rs]) - old(registers[rt])]
    {
      var diff := Wrap(registers[rs] as int - registers[rt]);
      if SignsDiffer(registers[rs], registers[rt]) && SignsDiffer(registers[rs], diff) {
        return true;
      }
      registers[rd] := diff;
      overflow := false;
    }
  }
}
