/**
 * CSSELR_EL1, the cache size selection register: a 64-bit register with
 * the one-bit InD at bit 0, the three-bit cache LEVEL at bits 1..3 and the
 * one-bit TnD at bit 4.
 */
module CsselrEl1 {
  import opened Bits
  import opened RegisterMacros

  /**
   * The register table: one-bit InD at bit 0 with both encodings named,
   * three-bit LEVEL at bit 1 with the levels 0, 1 and 2, and one-bit TnD at
   * bit 4 with both encodings named.
   */
  const CSSELR_EL1 := RegisterDef("csselr_el1", U64, [
    FieldDef("InD", 0, None, [Symbol("D_OR_UNIFIED", 0x0), Symbol("INSTRUCTION", 0x1)]),
    FieldDef("LEVEL", 1, Some(3), [Symbol("L1", 0x0), Symbol("L2", 0x1), Symbol("L3", 0x2)]),
    FieldDef("TnD", 4, None, [Symbol("D_I_OR_UNIFIED", 0x0), Symbol("ALLOCATION_TAG", 0x1)])
  ])

  const InD := CSSELR_EL1.fields[0]
  const LEVEL := CSSELR_EL1.fields[1]
  const TnD := CSSELR_EL1.fields[2]

  /** `InD::Field`, `LEVEL::Field`, `TnD::Field`, `InD::INSTRUCTION` and `LEVEL::L2`. */
  const InDField := CSSELR_EL1.FieldConst(InD)
  const LevelField := CSSELR_EL1.FieldConst(LEVEL)
  const TnDField := CSSELR_EL1.FieldConst(TnD)
  const Instruction := CSSELR_EL1.Constant(InD, InD.symbols[1])
  const L2 := CSSELR_EL1.Constant(LEVEL, LEVEL.symbols[1])

  /**
   * The table is well formed: InD, LEVEL and TnD follow one another without
   * a gap over bits 0..4, the one-bit fields' constants name both
   * encodings, and the LEVEL constants are 0, 1 and 2.
   */
  lemma Layout()
    ensures CSSELR_EL1.WellFormed()
    ensures Tiles(CSSELR_EL1.fields, 0, 5)
    ensures Covers(InD) && Covers(TnD)
    ensures |LEVEL.symbols| == 3 && forall k :: 0 <= k < |LEVEL.symbols| ==> LEVEL.symbols[k].value == k
  {
  }

  /** InD has mask `1`, LEVEL mask `0b1110` and TnD mask `0b10000`; every one of bits 0..4 is under one of them. */
  lemma Masks()
    ensures ToNat(InDField.Mask()) == 0x1 && ToNat(LevelField.Mask()) == 0xE && ToNat(TnDField.Mask()) == 0x10
    ensures forall i: nat :: i < 5 ==> CoveredByField(CSSELR_EL1, i)
  {
    assert Pow2(0) == 1 && Pow2(1) == 2 && Pow2(3) == 8 && Pow2(4) == 16;
    FieldMaskIs(InDField, U64, 0, None, 0x1);
    FieldMaskIs(LevelField, U64, 1, Some(3), 0xE);
    FieldMaskIs(TnDField, U64, 4, None, 0x10);
    Layout();
    TiledBitsAreCovered(CSSELR_EL1, 0, 5);
  }

  /**
   * `InD::INSTRUCTION | LEVEL::L2` has raw value `0b011` and covers bits
   * 0..3, the mask of a four-bit field at bit 0.
   */
  lemma InstructionL2()
    ensures ToNat(Combine(Instruction, L2).RawValue()) == 0x3
    ensures Combine(Instruction, L2).Mask() == FieldOf(U64, 0, Some(4)).Mask()
  {
    assert 0x3 == Pow2(0) * (1 % Pow2(1)) + Pow2(0 + 1) * (1 % Pow2(3)) by {
      assert Pow2(0) == 1 && Pow2(1) == 2 && Pow2(3) == 8;
    }
    CombineAdjacentIs(Instruction, L2, U64, 0, None, Some(3), 1, 1, 0x3);
  }

  /** Writing any LEVEL value leaves what InD and TnD read unchanged. */
  lemma WriteLevelKeepsOthers(raw: Word, v: nat)
    requires |raw| == 64
    ensures ReadField(InDField, WriteRaw(raw, CSSELR_EL1.FieldWithValue(LEVEL, v))) == ReadField(InDField, raw)
    ensures ReadField(TnDField, WriteRaw(raw, CSSELR_EL1.FieldWithValue(LEVEL, v))) == ReadField(TnDField, raw)
  {
    var fv := CSSELR_EL1.FieldWithValue(LEVEL, v);
    FieldOfDisjoint(U64, 1, Some(3), 0, None);
    FieldOfDisjoint(U64, 1, Some(3), 4, None);
    ReadOtherFieldAfterWrite(raw, fv, InDField);
    ReadOtherFieldAfterWrite(raw, fv, TnDField);
  }
}
