/** The bit-serial CRC step of the STM32F2/F4 CRC unit, for any register
    width W: seed the register with `initial_crc ^ input_data`, then run W
    rounds of "shift left, XOR the polynomial if the old top bit was set,
    keep the low W bits". */
module CrcEngine {
  import opened Bits

  /** Whether bit `bits - 1` of val is set: `val & (1 << (bits - 1)) != 0`. */
  function Msb(val: nat, bits: nat): bool
    requires bits >= 1
  {
    And(val, Pow2(bits - 1)) != 0
  }

  /** Msb tests exactly the top bit of a `bits`-wide register. */
  lemma MsbIsTopBit(val: nat, bits: nat)
    requires bits >= 1
    ensures Msb(val, bits) <==> Bit(val, bits - 1)
  {
    AndPow2(val, bits - 1);
  }

  /** One round of the loop in `embedded_crc`, as CRC arithmetic: double the
      register, XOR the polynomial when its top bit was set, and keep the
      value modulo 2^width. */
  function Round(crc: nat, poly: nat, width: nat): nat
    requires width >= 1
  {
    (if Bit(crc, width - 1) then Xor(2 * crc, poly) else 2 * crc) % Pow2(width)
  }

  /** n rounds applied to the register value crc. */
  function Rounds(crc: nat, poly: nat, width: nat, n: nat): nat
    requires n <= width
  {
    if n == 0 then crc else Round(Rounds(crc, poly, width, n - 1), poly, width)
  }

  /** The value `embedded_crc(inputData, poly, initialCrc, width)` returns. */
  function Crc(inputData: nat, poly: nat, initialCrc: nat, width: nat): nat
  {
    Rounds(Xor(initialCrc, inputData), poly, width, width)
  }

  /** The loop body as the code writes it, `((crc << 1) ^ poly) & msk` when
      `msb(crc, width)` holds and `(crc << 1) & msk` otherwise, is one Round. */
  lemma CodeRoundIsRound(crc: nat, poly: nat, width: nat)
    requires width >= 1
    ensures (if Msb(crc, width) then And(Xor(crc * 2, poly), Mask(width)) else And(crc * 2, Mask(width)))
         == Round(crc, poly, width)
  {
    MsbIsTopBit(crc, width);
    AndMask(Xor(crc * 2, poly), width);
    AndMask(crc * 2, width);
  }

  /** After at least one round the register fits in width bits, whatever
      the size of the polynomial or the seed. */
  lemma RoundsBound(crc: nat, poly: nat, width: nat, n: nat)
    requires 1 <= n <= width
    ensures Rounds(crc, poly, width, n) < Pow2(width)
  {
  }

  /** For width >= 1 the step result lies in [0, 2^width - 1]. */
  lemma CrcBound(inputData: nat, poly: nat, initialCrc: nat, width: nat)
    requires width >= 1
    ensures Crc(inputData, poly, initialCrc, width) <= Mask(width)
  {
    RoundsBound(Xor(initialCrc, inputData), poly, width, width);
  }

  /** With width 0 no round runs and the seed comes back unmasked. */
  lemma CrcZeroWidth(inputData: nat, poly: nat, initialCrc: nat)
    ensures Crc(inputData, poly, initialCrc, 0) == Xor(initialCrc, inputData)
  {
  }

  /** The input word and the seed enter only through their XOR. */
  lemma CrcDependsOnXor(inputData: nat, poly: nat, initialCrc: nat, width: nat)
    ensures Crc(inputData, poly, initialCrc, width)
         == Crc(0, poly, Xor(initialCrc, inputData), width)
  {
    XorZero(Xor(initialCrc, inputData));
  }

  /** A round only looks at the low width bits of the register. */
  lemma RoundModRegister(crc: nat, poly: nat, width: nat)
    requires width >= 1
    ensures Round(crc % Pow2(width), poly, width) == Round(crc, poly, width)
  {
    var m, p := Pow2(width), Pow2(width - 1);
    var c := crc % m;
    BitMod(crc, width, width - 1);
    // (2 * c) mod m == (2 * crc) mod m, both being 2 * (crc mod p)
    ModDouble(2 * c, p);
    ModDouble(2 * crc, p);
    ModModDouble(crc, p);
    assert (2 * c) / 2 == c && (2 * crc) / 2 == crc;
    assert (2 * c) % m == (2 * crc) % m;
    XorMod(2 * c, poly, width);
    XorMod(2 * crc, poly, width);
  }

  /** A round only looks at the low width bits of the polynomial. */
  lemma RoundModPoly(crc: nat, poly: nat, width: nat)
    requires width >= 1
    ensures Round(crc, poly % Pow2(width), width) == Round(crc, poly, width)
  {
    var m := Pow2(width);
    XorMod(2 * crc, poly, width);
    XorMod(2 * crc, poly % m, width);
    SmallMod(poly % m, m);
  }

  lemma {:induction false} RoundsModulo(crc: nat, poly: nat, width: nat, n: nat)
    requires 1 <= n <= width
    ensures Rounds(crc % Pow2(width), poly % Pow2(width), width, n)
         == Rounds(crc, poly, width, n)
  {
    var m := Pow2(width);
    if n == 1 {
      RoundModRegister(crc, poly % m, width);
      RoundModPoly(crc, poly, width);
    } else {
      RoundsModulo(crc, poly, width, n - 1);
      RoundModPoly(Rounds(crc, poly, width, n - 1), poly, width);
    }
  }

  /** The register, the polynomial and the input word are width-bit
      quantities: bits above width in any of them do not change the step. */
  lemma CrcIgnoresHighBits(inputData: nat, poly: nat, initialCrc: nat, width: nat)
    requires width >= 1
    ensures Crc(inputData % Pow2(width), poly % Pow2(width), initialCrc % Pow2(width), width)
         == Crc(inputData, poly, initialCrc, width)
  {
    var m := Pow2(width);
    XorMod(initialCrc, inputData, width);
    RoundsModulo(Xor(initialCrc, inputData), poly, width, width);
    assert Xor(initialCrc % m, inputData % m) % m == Xor(initialCrc % m, inputData % m) by {
      XorMod(initialCrc % m, inputData % m, width);
      SmallMod(initialCrc % m, m);
      SmallMod(inputData % m, m);
    }
    RoundsModulo(Xor(initialCrc % m, inputData % m), poly, width, width);
  }

  /** One more round on a register whose top bit is clear: a plain shift.
      With RoundsStepSet this lets a concrete run be checked round by round. */
  lemma RoundsStepClear(crc: nat, poly: nat, width: nat, n: nat, prev: nat, next: nat)
    requires 1 <= n <= width && Rounds(crc, poly, width, n - 1) == prev
    requires (prev / Pow2(width - 1)) % 2 == 0 && next == (2 * prev) % Pow2(width)
    ensures Rounds(crc, poly, width, n) == next
  {
    BitAsDiv(prev, width - 1);
  }

  /** One more round on a register whose top bit is set: shift, then XOR
      the polynomial (whose value x is given). */
  lemma RoundsStepSet(crc: nat, poly: nat, width: nat, n: nat, prev: nat, x: nat, next: nat)
    requires 1 <= n <= width && Rounds(crc, poly, width, n - 1) == prev
    requires (prev / Pow2(width - 1)) % 2 == 1 && Xor(2 * prev, poly) == x && next == x % Pow2(width)
    ensures Rounds(crc, poly, width, n) == next
  {
    BitAsDiv(prev, width - 1);
  }

  /** The 8-bit configuration of the CRC application note: input 0xC1,
      polynomial 0xCB, seed 0xFF. */
  lemma AppNoteVector()
    ensures Crc(0xC1, 0xCB, 0xFF, 8) == 0x4C
  {
    assert Pow2(7) == 0x80 && Pow2(8) == 0x100 by {
      assert Pow2(1) == 2;
      assert Pow2(2) == 4;
      assert Pow2(3) == 8;
      assert Pow2(4) == 16;
      assert Pow2(5) == 32;
      assert Pow2(6) == 64;
    }
    // Each XOR is worked out from its high bits down: the seed 0xFF ^ 0xC1,
    // then the polynomial XORs of rounds 3 and 6.
    assert Xor(0x1, 0x1) == 0x0;
    assert Xor(0x3, 0x3) == 0x0;
    assert Xor(0x7, 0x6) == 0x1;
    assert Xor(0xF, 0xC) == 0x3;
    assert Xor(0x1F, 0x18) == 0x7;
    assert Xor(0x3F, 0x30) == 0xF;
    assert Xor(0x7F, 0x60) == 0x1F;
    assert Xor(0xFF, 0xC1) == 0x3E;
    RoundsStepClear(0x3E, 0xCB, 8, 1, 0x3E, 0x7C);
    RoundsStepClear(0x3E, 0xCB, 8, 2, 0x7C, 0xF8);
    assert Xor(0x3, 0x1) == 0x2;
    assert Xor(0x7, 0x3) == 0x4;
    assert Xor(0xF, 0x6) == 0x9;
    assert Xor(0x1F, 0xC) == 0x13;
    assert Xor(0x3E, 0x19) == 0x27;
    assert Xor(0x7C, 0x32) == 0x4E;
    assert Xor(0xF8, 0x65) == 0x9D;
    assert Xor(0x1F0, 0xCB) == 0x13B;
    RoundsStepSet(0x3E, 0xCB, 8, 3, 0xF8, 0x13B, 0x3B);
    RoundsStepClear(0x3E, 0xCB, 8, 4, 0x3B, 0x76);
    RoundsStepClear(0x3E, 0xCB, 8, 5, 0x76, 0xEC);
    assert Xor(0x3, 0x1) == 0x2;
    assert Xor(0x7, 0x3) == 0x4;
    assert Xor(0xE, 0x6) == 0x8;
    assert Xor(0x1D, 0xC) == 0x11;
    assert Xor(0x3B, 0x19) == 0x22;
    assert Xor(0x76, 0x32) == 0x44;
    assert Xor(0xEC, 0x65) == 0x89;
    assert Xor(0x1D8, 0xCB) == 0x113;
    RoundsStepSet(0x3E, 0xCB, 8, 6, 0xEC, 0x113, 0x13);
    RoundsStepClear(0x3E, 0xCB, 8, 7, 0x13, 0x26);
    RoundsStepClear(0x3E, 0xCB, 8, 8, 0x26, 0x4C);
  }

  /** `embedded_crc(input_data, poly, initial_crc, sizeof_input)`: builds the
      mask with a loop, seeds the register, then runs sizeof_input rounds. */
  method EmbeddedCrc(inputData: nat, poly: nat, initialCrc: nat, sizeofInput: nat) returns (crc: nat)
    ensures crc == Crc(inputData, poly, initialCrc, sizeofInput)
    ensures sizeofInput >= 1 ==> crc < Pow2(sizeofInput)
    ensures sizeofInput == 0 ==> crc == Xor(initialCrc, inputData)
  {
    var msk := 0;
    for i := 0 to sizeofInput
      invariant msk == Mask(i)
    {
      ShiftOrOne(msk);
      msk := Or(msk * 2, 1);
    }

    crc := Xor(initialCrc, inputData);

    var bindex := 0;
    while bindex < sizeofInput
      invariant bindex <= sizeofInput
      invariant crc == Rounds(Xor(initialCrc, inputData), poly, sizeofInput, bindex)
    {
      CodeRoundIsRound(crc, poly, sizeofInput);
      if Msb(crc, sizeofInput) {
        crc := And(Xor(crc * 2, poly), msk);
      } else {
        crc := And(crc * 2, msk);
      }
      bindex := bindex + 1;
    }

    if sizeofInput >= 1 {
      CrcBound(inputData, poly, initialCrc, sizeofInput);
    }
  }
}
