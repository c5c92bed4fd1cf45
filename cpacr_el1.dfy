/**
 * CPACR_EL1, the architectural feature access control register: a 64-bit
 * register with the two-bit floating-point trap control FPEN at bit 20 and
 * the one-bit trace trap control TTA at bit 28.
 */
module CpacrEl1 {
  import opened Bits
  import opened RegisterMacros

  /**
   * The register table: two-bit FPEN at bit 20 with the four trap settings
   * 0 to 3, and one-bit TTA at bit 28 with both encodings named.
   */
  const CPACR_EL1 := RegisterDef("cpacr_el1", U64, [
    FieldDef("FPEN", 20, Some(2), [
      Symbol("TRAP_ALL", 0x0), Symbol("TRAP_EL0", 0x1), Symbol("TRAP_EL0_OR_1", 0x2), Symbol("NO_TRAP", 0x3)]),
    FieldDef("TTA", 28, None, [Symbol("NO_TRAP", 0x0), Symbol("TRAP", 0x1)])
  ])

  const FPEN := CPACR_EL1.fields[0]
  const TTA := CPACR_EL1.fields[1]

  /** `FPEN::Field`, `TTA::Field`, `FPEN::NO_TRAP` and `TTA::TRAP`. */
  const FpenField := CPACR_EL1.FieldConst(FPEN)
  const TtaField := CPACR_EL1.FieldConst(TTA)
  const FpenNoTrap := CPACR_EL1.Constant(FPEN, FPEN.symbols[3])
  const TtaTrap := CPACR_EL1.Constant(TTA, TTA.symbols[1])

  /**
   * The table is well formed; the FPEN constants are 0 to 3, and both
   * fields' constants name every encoding of their bits.
   */
  lemma Layout()
    ensures CPACR_EL1.WellFormed()
    ensures |FPEN.symbols| == 4 && forall k :: 0 <= k < |FPEN.symbols| ==> FPEN.symbols[k].value == k
    ensures Covers(FPEN) && Covers(TTA)
  {
  }

  /** FPEN has mask `0b11 << 20`. */
  lemma FpenMask()
    ensures ToNat(FpenField.Mask()) == 0x30_0000
  {
    assert 0x30_0000 == Pow2(20) * (Pow2(2) - 1) by {
      Pow2Values();
    }
    FieldMaskIs(FpenField, U64, 20, Some(2), 0x30_0000);
  }

  /** TTA has mask `1 << 28`. */
  lemma TtaMask()
    ensures ToNat(TtaField.Mask()) == 0x1000_0000
  {
    var m := Pow2(28) * (Pow2(1) - 1);
    FieldMaskIs(TtaField, U64, 28, None, m);
    assert m == 0x1000_0000 by {
      Pow2Values();
    }
  }

  /** FPEN and TTA share no bit. */
  lemma FieldsApart()
    ensures FieldsDisjoint(FpenField, TtaField)
  {
    FieldOfDisjoint(U64, 20, Some(2), 28, None);
  }

  /** `FPEN::NO_TRAP` has raw value `0b11 << 20`. */
  lemma NoTrapRawValue()
    ensures ToNat(FpenNoTrap.RawValue()) == 0x30_0000
  {
    Layout();
    assert ToNat(FpenNoTrap.RawValue()) == Pow2(20) * 3 by {
      ConstantExact(CPACR_EL1, FPEN, FPEN.symbols[3]);
      RawValueNumber(FpenNoTrap, 20, Some(2));
    }
    Pow2Values();
  }

  /** `TTA::TRAP` has raw value `1 << 28`. */
  lemma TrapRawValue()
    ensures ToNat(TtaTrap.RawValue()) == 0x1000_0000
  {
    Layout();
    assert ToNat(TtaTrap.RawValue()) == Pow2(28) * 1 by {
      ConstantExact(CPACR_EL1, TTA, TTA.symbols[1]);
      RawValueNumber(TtaTrap, 28, None);
    }
    Pow2Values();
  }

  /**
   * `write(FPEN::NO_TRAP)` sets bits 20 and 21 and keeps every other bit,
   * so TTA reads as before.
   */
  lemma WriteNoTrap(raw: Word)
    requires |raw| == 64
    ensures WriteRaw(raw, FpenNoTrap)[20] && WriteRaw(raw, FpenNoTrap)[21]
    ensures forall i :: 0 <= i < 64 && i != 20 && i != 21 ==> WriteRaw(raw, FpenNoTrap)[i] == raw[i]
    ensures ReadField(TtaField, WriteRaw(raw, FpenNoTrap)) == ReadField(TtaField, raw)
  {
    var x := WriteRaw(raw, FpenNoTrap);
    assert FpenNoTrap == WithValue(FieldOf(U64, 20, Some(2)), 3);
    assert x[20] && x[21] by {
      WriteFieldSlice(U64, 20, Some(2), raw, 3);
      assert x[20] == x[20..22][0] && x[21] == x[20..22][1];
    }
    assert forall i :: 0 <= i < 64 && i != 20 && i != 21 ==> x[i] == raw[i] by {
      WriteKeepsBelow(U64, 20, Some(2), raw, 3);
      WriteKeepsAbove(U64, 20, Some(2), raw, 3);
      assert forall i :: 0 <= i < 20 ==> x[i] == x[..20][i] && raw[i] == raw[..20][i];
      assert forall i :: 22 <= i < 64 ==> x[i] == x[22..][i - 22] && raw[i] == raw[22..][i - 22];
    }
    FieldsApart();
    ReadOtherFieldAfterWrite(raw, FpenNoTrap, TtaField);
  }
}
