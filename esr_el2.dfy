/**
 * ESR_EL2, the syndrome of an exception taken to EL2: a 32-bit register
 * with the syndrome ISS in bits 0..23, the instruction length IL in bit 25
 * and the exception class EC in bits 26..31. Bit 24 belongs to no field.
 */
module EsrEl2 {
  import opened Bits
  import opened RegisterMacros

  /**
   * The register table: 24-bit ISS at bit 0, one-bit IL at bit 25 with both
   * instruction lengths named, and six-bit EC at bit 26.
   */
  const ESR_EL2 := RegisterDef("esr_el2", U32, [
    FieldDef("ISS", 0, Some(24), []),
    FieldDef("IL", 25, None, [Symbol("_16Bit", 0), Symbol("_32Bit", 1)]),
    FieldDef("EC", 26, Some(6), [])
  ])

  const ISS := ESR_EL2.fields[0]
  const IL := ESR_EL2.fields[1]
  const EC := ESR_EL2.fields[2]

  /** `ISS::Field`, `IL::Field` and `EC::Field`. */
  const IssField := ESR_EL2.FieldConst(ISS)
  const IlField := ESR_EL2.FieldConst(IL)
  const EcField := ESR_EL2.FieldConst(EC)

  /**
   * The table is well formed: the register is 32 bits wide, EC ends exactly
   * at the top, and the IL constants name both one-bit encodings.
   */
  lemma Layout()
    ensures ESR_EL2.WellFormed()
    ensures Size(ESR_EL2.width) == 32 && EC.End() == 32
    ensures Covers(IL)
  {
  }

  /** ISS has mask `0xFFFFFF`. */
  lemma IssMask()
    ensures ToNat(IssField.Mask()) == 0xFF_FFFF
  {
    assert 0xFF_FFFF == Pow2(0) * (Pow2(24) - 1) by {
      Pow2Values();
    }
    FieldMaskIs(IssField, U32, 0, Some(24), 0xFF_FFFF);
  }

  /** IL has mask `1 << 25`. */
  lemma IlMask()
    ensures ToNat(IlField.Mask()) == 0x200_0000
  {
    assert 0x200_0000 == Pow2(25) * (Pow2(1) - 1) by {
      Pow2Values();
    }
    FieldMaskIs(IlField, U32, 25, None, 0x200_0000);
  }

  /** EC has mask `0x3F << 26`. */
  lemma EcMask()
    ensures ToNat(EcField.Mask()) == 0xFC00_0000
  {
    assert 0xFC00_0000 == Pow2(26) * (Pow2(6) - 1) by {
      Pow2Values();
    }
    FieldMaskIs(EcField, U32, 26, Some(6), 0xFC00_0000);
  }

  /** The three fields are pairwise disjoint and no shifted mask loses a bit past bit 31. */
  lemma FieldsApart()
    ensures IssField.Placeable() && IlField.Placeable() && EcField.Placeable()
    ensures FieldsDisjoint(IssField, IlField) && FieldsDisjoint(IssField, EcField)
    ensures FieldsDisjoint(IlField, EcField)
  {
    Layout();
    RegisterFieldsDisjoint(ESR_EL2);
    assert IssField == ESR_EL2.FieldConst(ESR_EL2.fields[0]);
    assert IlField == ESR_EL2.FieldConst(ESR_EL2.fields[1]);
    assert EcField == ESR_EL2.FieldConst(ESR_EL2.fields[2]);
  }

  /** A write through any field, with any value, keeps bit 24. */
  lemma WriteKeepsBit24(fd: FieldDef, v: nat, raw: Word)
    requires fd in ESR_EL2.fields && |raw| == 32
    ensures WriteRaw(raw, ESR_EL2.FieldWithValue(fd, v))[24] == raw[24]
  {
    assert RangeUncovered(ESR_EL2.fields, 24, 25);
    WriteKeepsUncovered(ESR_EL2, fd, v, raw, 24, 25);
  }

  /** A read of EC is below 64 and a read of ISS below 2^24; a read of IL is one of its constants. */
  lemma ReadBounds(raw: Word)
    requires |raw| == 32
    ensures ToNat(ReadField(EcField, raw).value) < 64
    ensures ToNat(ReadField(IssField, raw).value) < 0x100_0000
    ensures exists s :: s in IL.symbols && ReadField(IlField, raw) == ESR_EL2.Constant(IL, s)
  {
    ReadFieldNumber(U32, 26, Some(6), raw);
    ReadFieldNumber(U32, 0, Some(24), raw);
    Pow2Values();
    Layout();
    ReadIsOneConstant(ESR_EL2, IL, raw);
  }
}
