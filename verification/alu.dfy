/** The ALU: a 32-bit result from an opcode and two operands, with
    two's-complement wrap-around and no overflow trap. */
module Alu {
  import opened Words
  import opened Isa

  /** The opcodes the ALU adds for: the add family, and every opcode with no
      ALU function of its own (loads and stores use the sum as their
      address). */
  predicate Adds(op: Opcode) {
    op.Add? || op.Addu? || op.Addi? || op.Addiu? || op.Lw? || op.Sw? ||
    op.IsControlFlow() || op.Unknown?
  }

  predicate SetsOnLess(op: Opcode) {
    op.Slt? || op.Slti? || op.Sltu? || op.Sltiu?
  }

  /** One ALU operation. Every set-on-less-than variant yields exactly 0 or
      1; the lemmas below state what each opcode computes. */
  function Execute(op: Opcode, a: Word, b: Word): (r: Word)
    ensures SetsOnLess(op) ==> r <= 1
  {
    match op
    case Sub | Subu => SubWrap(a, b)
    case And | Andi => BitAnd(a, b)
    case Or | Ori => BitOr(a, b)
    case Nor => BitNor(a, b)
    case Slt | Slti => if Signed(a) < Signed(b) then 1 else 0
    case Sltu | Sltiu => if a < b then 1 else 0
    case Sll => ShiftLeft(a, ShiftAmount(b))
    case Srl => ShiftRight(a, ShiftAmount(b))
    // add, addu, addi, addiu, and the fallback for every other opcode
    case _ => AddWrap(a, b)
  }

  /** The add family and the fallback compute the 32-bit wrapped sum, so
      `add` and `addu` agree; the sum is the signed sum whenever that fits. */
  lemma Addition(op: Opcode, a: Word, b: Word)
    requires Adds(op)
    ensures (Execute(op, a, b) - (a + b)) % Modulus == 0
    ensures -0x8000_0000 <= Signed(a) + Signed(b) < 0x8000_0000 ==>
              Signed(Execute(op, a, b)) == Signed(a) + Signed(b)
    ensures Execute(op, a, b) == Execute(Addu, a, b)
  {
    AddsIsSum(op, a, b);
    AddsIsSum(Addu, a, b);
  }

  lemma AddsIsSum(op: Opcode, a: Word, b: Word)
    requires Adds(op)
    ensures Execute(op, a, b) == AddWrap(a, b)
  {
  }

  /** `sub` and `subu` compute the 32-bit wrapped difference. */
  lemma Subtraction(op: Opcode, a: Word, b: Word)
    requires op.Sub? || op.Subu?
    ensures (Execute(op, a, b) - (a - b)) % Modulus == 0
    ensures -0x8000_0000 <= Signed(a) - Signed(b) < 0x8000_0000 ==>
              Signed(Execute(op, a, b)) == Signed(a) - Signed(b)
  {
  }

  /** Subtraction undoes addition, whatever wrap-around happened. */
  lemma SubUndoesAdd(a: Word, b: Word)
    ensures Execute(Sub, Execute(Add, a, b), b) == a
  {
  }

  /** `slt`/`slti` compare as signed, `sltu`/`sltiu` as unsigned. */
  lemma SetOnLess(a: Word, b: Word)
    ensures Execute(Slt, a, b) == Execute(Slti, a, b)
    ensures Execute(Slt, a, b) == 1 <==> Signed(a) < Signed(b)
    ensures Execute(Sltu, a, b) == Execute(Sltiu, a, b)
    ensures Execute(Sltu, a, b) == 1 <==> a < b
  {
  }

  /** The signed comparison agrees with the sign of the raw difference,
      whenever that difference does not overflow. */
  lemma SltMatchesDifferenceSign(a: Word, b: Word)
    requires -0x8000_0000 <= Signed(a) - Signed(b) < 0x8000_0000
    ensures Execute(Slt, a, b) == 1 <==> Signed(Execute(Sub, a, b)) < 0
  {
  }

  /** The unsigned comparison is exactly the borrow of the raw difference:
      `a < b` iff `a - b` wraps to a value above `a`. */
  lemma SltuIsBorrow(a: Word, b: Word)
    ensures Execute(Sltu, a, b) == 1 <==> Execute(Subu, a, b) > a
  {
  }

  /** `and`/`andi` compute the bitwise AND of the two 32-bit patterns, so
      they only clear bits. */
  lemma BitwiseAnd(a: Word, b: Word)
    ensures Execute(And, a, b) == Execute(Andi, a, b)
    ensures forall i :: 0 <= i < WordBits ==> (Bit(Execute(And, a, b), i) <==> Bit(a, i) && Bit(b, i))
    ensures Execute(And, a, b) <= a && Execute(And, a, b) <= b
  {
    var and := BitAnd(a, b);
    assert Execute(And, a, b) == and && Execute(Andi, a, b) == and;
    forall i | 0 <= i < WordBits
      ensures Bit(and, i) <==> Bit(a, i) && Bit(b, i)
    {
      BitwiseBit(a, b, i);
    }
  }

  /** `or`/`ori` compute the bitwise OR and `nor` the bitwise NOR of the two
      32-bit patterns; so `or` only sets bits and `nor` is its complement. */
  lemma BitwiseOr(a: Word, b: Word)
    ensures Execute(Or, a, b) == Execute(Ori, a, b)
    ensures forall i :: 0 <= i < WordBits ==> (Bit(Execute(Or, a, b), i) <==> Bit(a, i) || Bit(b, i))
    ensures forall i :: 0 <= i < WordBits ==> (Bit(Execute(Nor, a, b), i) <==> !(Bit(a, i) || Bit(b, i)))
    ensures a <= Execute(Or, a, b) && b <= Execute(Or, a, b)
    ensures Execute(Nor, a, b) + Execute(Or, a, b) == MaxWord
  {
    var or := BitOr(a, b);
    var nor := BitNor(a, b);
    assert Execute(Or, a, b) == or && Execute(Ori, a, b) == or;
    assert Execute(Nor, a, b) == nor;
    assert or == BitNot(nor);
    forall i | 0 <= i < WordBits
      ensures Bit(or, i) <==> Bit(a, i) || Bit(b, i)
      ensures Bit(nor, i) <==> !(Bit(a, i) || Bit(b, i))
    {
      BitwiseBit(a, b, i);
    }
  }

  /** `nor` with `$zero` is bitwise complement. */
  lemma NorZeroIsNot(a: Word)
    ensures Execute(Nor, a, 0) == BitNot(a)
  {
    OrZero(a);
  }

  /** Shifts treat `a` as unsigned and take the amount from the low five bits
      of `b` only: `sll` multiplies by 2^(b mod 32) modulo 2^32, and `srl`
      is the floor quotient by 2^(b mod 32). */
  lemma Shifts(a: Word, b: Word)
    ensures (Execute(Sll, a, b) - a * Pow2(b % 32)) % Modulus == 0
    ensures Execute(Srl, a, b) * Pow2(b % 32) <= a < (Execute(Srl, a, b) + 1) * Pow2(b % 32)
    ensures Execute(Srl, a, b) <= a
    ensures b % 32 == 0 ==> Execute(Sll, a, b) == a && Execute(Srl, a, b) == a
  {
    var k := b % 32;
    assert ShiftAmount(b) == k;
    assert Execute(Sll, a, b) == ShiftLeft(a, k);
    assert Execute(Srl, a, b) == ShiftRight(a, k);
  }

  /** `srl` by `k` undoes `sll` by `k` on values that fit in `32 - k` bits. */
  lemma ShiftRightUndoesShiftLeft(a: Word, k: Word)
    requires k < 32 && a < Pow2(32 - k)
    ensures Execute(Srl, Execute(Sll, a, k), k) == a
  {
    assert ShiftAmount(k) == k;
    var x := ShiftLeft(a, k);
    assert Execute(Sll, a, k) == x;
    ShiftRoundTrip(a, k);
    assert Execute(Srl, x, k) == ShiftRight(x, k);
  }
}
