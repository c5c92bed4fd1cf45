/**
 * CTR_EL0, the cache type register: a 64-bit register with the line-size
 * and granule fields IminLine, DminLine, ERG, CWG and TminLine, the L1
 * instruction cache policy L1lp and the one-bit IDC. Bits 4..13 and 29..31
 * belong to no field.
 */
module CtrEl0 {
  import opened Bits
  import opened RegisterMacros

  /**
   * The register table: four-bit IminLine at bit 0, two-bit L1lp at bit 14
   * with the four policies 0 to 3, four-bit DminLine, ERG and CWG at bits
   * 16, 20 and 24, one-bit IDC at bit 28 and six-bit TminLine at bit 32.
   */
  const CTR_EL0 := RegisterDef("ctr_el0", U64, [
    FieldDef("IminLine", 0, Some(4), []),
    FieldDef("L1lp", 14, Some(2), [
      Symbol("VPIPT", 0x0), Symbol("AIVIVT", 0x1), Symbol("VIPT", 0x2), Symbol("PIPT", 0x3)]),
    FieldDef("DminLine", 16, Some(4), []),
    FieldDef("ERG", 20, Some(4), []),
    FieldDef("CWG", 24, Some(4), []),
    FieldDef("IDC", 28, None, []),
    FieldDef("TminLine", 32, Some(6), [])
  ])

  const L1lp := CTR_EL0.fields[1]
  const IDC := CTR_EL0.fields[5]
  const TminLine := CTR_EL0.fields[6]

  /** `L1lp::Field`, `IDC::Field` and `TminLine::Field`. */
  const L1lpField := CTR_EL0.FieldConst(L1lp)
  const IdcField := CTR_EL0.FieldConst(IDC)
  const TminLineField := CTR_EL0.FieldConst(TminLine)

  /**
   * The fields cover bits 0..3, 14..15, 16..19, 20..23, 24..27, 28 and
   * 32..37, and the L1lp constants are 0 to 3.
   */
  lemma Layout()
    ensures |CTR_EL0.fields| == 7
    ensures CTR_EL0.fields[0].offset == 0 && CTR_EL0.fields[0].End() == 4
    ensures CTR_EL0.fields[1].offset == 14 && CTR_EL0.fields[1].End() == 16
    ensures CTR_EL0.fields[2].offset == 16 && CTR_EL0.fields[2].End() == 20
    ensures CTR_EL0.fields[3].offset == 20 && CTR_EL0.fields[3].End() == 24
    ensures CTR_EL0.fields[4].offset == 24 && CTR_EL0.fields[4].End() == 28
    ensures CTR_EL0.fields[5].offset == 28 && CTR_EL0.fields[5].End() == 29
    ensures CTR_EL0.fields[6].offset == 32 && CTR_EL0.fields[6].End() == 38
    ensures |L1lp.symbols| == 4 && forall k :: 0 <= k < |L1lp.symbols| ==> L1lp.symbols[k].value == k
  {
  }

  /**
   * The table is well formed: every field ends inside the register, the
   * fields ascend without overlap, and the L1lp constants fit and differ;
   * they also name every two-bit encoding.
   */
  lemma WellFormed()
    ensures CTR_EL0.WellFormed()
    ensures Covers(L1lp)
  {
    assert InRange(CTR_EL0.fields, 64);
    assert Ascending(CTR_EL0.fields);
    assert SymbolsFit(CTR_EL0.fields);
  }

  /** The seven fields are placeable and pairwise disjoint. */
  lemma FieldsApart()
    ensures forall k :: 0 <= k < |CTR_EL0.fields| ==> CTR_EL0.FieldConst(CTR_EL0.fields[k]).Placeable()
    ensures forall i, j :: 0 <= i < |CTR_EL0.fields| && 0 <= j < |CTR_EL0.fields| && i != j ==>
      FieldsDisjoint(CTR_EL0.FieldConst(CTR_EL0.fields[i]), CTR_EL0.FieldConst(CTR_EL0.fields[j]))
  {
    WellFormed();
    RegisterFieldsDisjoint(CTR_EL0);
  }

  /** IDC, declared without `BITS`, has local mask `1`. */
  lemma IdcMask()
    ensures ToNat(IdcField.localMask) == 0x1 && IdcField.shift == 28
  {
    FieldOfMask(U64, 28, None);
  }

  /** TminLine has local mask `0x3F` at shift 32. */
  lemma TminLineLocalMask()
    ensures ToNat(TminLineField.localMask) == 0x3F && TminLineField.shift == 32
  {
    FieldOfMask(U64, 32, Some(6));
    assert Pow2(6) == 64;
  }

  /** TminLine's `mask()` is `0x3F << 32`. */
  lemma TminLineMask()
    ensures ToNat(TminLineField.Mask()) == 0x3F_0000_0000
  {
    TminLineMaskNumber();
    FieldMaskIs(TminLineField, U64, 32, Some(6), 0x3F_0000_0000);
  }

  lemma TminLineMaskNumber()
    ensures 0x3F_0000_0000 == Pow2(32) * (Pow2(6) - 1)
  {
    Pow2Values();
  }

  /** Whatever the register holds, `read(L1lp::Field)` equals exactly one of VPIPT, AIVIVT, VIPT and PIPT. */
  lemma ReadIsOnePolicy(raw: Word)
    requires |raw| == 64
    ensures exists s :: s in L1lp.symbols && ReadField(L1lpField, raw) == CTR_EL0.Constant(L1lp, s)
    ensures forall i, j ::
      (0 <= i < 4 && 0 <= j < 4 &&
       ReadField(L1lpField, raw) == CTR_EL0.Constant(L1lp, L1lp.symbols[i]) &&
       ReadField(L1lpField, raw) == CTR_EL0.Constant(L1lp, L1lp.symbols[j])) ==> i == j
  {
    WellFormed();
    ReadIsOneConstant(CTR_EL0, L1lp, raw);
  }

  /** A write through any field, with any value, keeps bits 4..13 and 29..31. */
  lemma WriteKeepsUnusedBits(fd: FieldDef, v: nat, raw: Word)
    requires fd in CTR_EL0.fields && |raw| == 64
    ensures forall i :: 4 <= i < 14 ==> WriteRaw(raw, CTR_EL0.FieldWithValue(fd, v))[i] == raw[i]
    ensures forall i :: 29 <= i < 32 ==> WriteRaw(raw, CTR_EL0.FieldWithValue(fd, v))[i] == raw[i]
  {
    assert RangeUncovered(CTR_EL0.fields, 4, 14);
    assert RangeUncovered(CTR_EL0.fields, 29, 32);
    WriteKeepsUncovered(CTR_EL0, fd, v, raw, 4, 14);
    WriteKeepsUncovered(CTR_EL0, fd, v, raw, 29, 32);
  }
}
