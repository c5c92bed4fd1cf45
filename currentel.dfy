/**
 * CurrentEL, the current exception level: a 64-bit register with one
 * two-bit field EL at bit 2 and the constants EL0 to EL3.
 */
module CurrentEl {
  import opened Bits
  import opened RegisterMacros

  /** The register table: two-bit EL at bit 2 with the levels EL0 to EL3 as 0 to 3. */
  const CurrentEL := RegisterDef("currentEl", U64, [
    FieldDef("EL", 2, Some(2), [Symbol("EL0", 0x0), Symbol("EL1", 0x1), Symbol("EL2", 0x2), Symbol("EL3", 0x3)])
  ])

  const EL := CurrentEL.fields[0]

  /** `EL::Field`, `EL::EL1` and `EL::EL2`. */
  const ElField := CurrentEL.FieldConst(EL)
  const El1 := CurrentEL.Constant(EL, EL.symbols[1])
  const El2 := CurrentEL.Constant(EL, EL.symbols[2])

  /**
   * The table is well formed, and EL's constants are 0 to 3 and name every
   * two-bit encoding.
   */
  lemma Layout()
    ensures CurrentEL.WellFormed()
    ensures |EL.symbols| == 4 && forall k :: 0 <= k < |EL.symbols| ==> EL.symbols[k].value == k
    ensures Covers(EL)
  {
  }

  /** `EL::Field` sits at shift 2 with local mask `0b11`, so `mask()` is `0b1100`. */
  lemma ElMask()
    ensures ElField.shift == 2 && ToNat(ElField.localMask) == 0x3 && ToNat(ElField.Mask()) == 0xC
  {
    assert Pow2(2) == 4;
    FieldOfMask(U64, 2, Some(2));
    FieldMaskIs(ElField, U64, 2, Some(2), 0xC);
  }

  /** Whatever the register holds, `read(EL::Field)` equals exactly one of EL0 to EL3. */
  lemma ReadIsOneLevel(raw: Word)
    requires |raw| == 64
    ensures exists s :: s in EL.symbols && ReadField(ElField, raw) == CurrentEL.Constant(EL, s)
    ensures forall i, j ::
      (0 <= i < 4 && 0 <= j < 4 &&
       ReadField(ElField, raw) == CurrentEL.Constant(EL, EL.symbols[i]) &&
       ReadField(ElField, raw) == CurrentEL.Constant(EL, EL.symbols[j])) ==> i == j
  {
    Layout();
    ReadIsOneConstant(CurrentEL, EL, raw);
  }

  /** `read(EL::Field)` depends on raw bits 2 and 3 only. */
  lemma ReadDependsOnBits2To3(raw1: Word, raw2: Word)
    requires |raw1| == 64 && |raw2| == 64 && raw1[2..4] == raw2[2..4]
    ensures ReadField(ElField, raw1) == ReadField(ElField, raw2)
  {
    ReadFieldBits(U64, 2, Some(2), raw1);
    ReadFieldBits(U64, 2, Some(2), raw2);
  }

  /** With raw contents `0b1011`, `read(EL::Field)` gives `0b10`, which `==` `EL::EL2`. */
  lemma ReadExample(raw: Word)
    requires |raw| == 64 && ToNat(raw) == 0xB
    ensures ToNat(ReadField(ElField, raw).value) == 0x2
    ensures ReadField(ElField, raw) == El2
  {
    var t := ToNat(raw);
    Layout();
    assert ToNat(ReadField(ElField, raw).value) == Extract(t, 2, 2) by {
      ReadFieldNumber(U64, 2, Some(2), raw);
    }
    ExtractOf0xB(t);
    ReadMatchesConstant(CurrentEL, EL, EL.symbols[2], raw);
  }

  lemma ExtractOf0xB(t: nat)
    requires t == 0xB
    ensures Extract(t, 2, 2) == 0x2
  {
  }

  /** `write(EL::EL1)` on raw contents `0b1011` leaves `0b0111`. */
  lemma WriteExample(raw: Word)
    requires |raw| == 64 && ToNat(raw) == 0xB
    ensures ToNat(WriteRaw(raw, El1)) == 0x7
  {
    var t := ToNat(raw);
    assert ToNat(WriteRaw(raw, El1)) == Insert(t, 2, 2, 1) by {
      WriteFieldNumber(U64, 2, Some(2), raw, 1);
    }
    InsertOf0xB(t);
  }

  lemma InsertOf0xB(t: nat)
    requires t == 0xB
    ensures Insert(t, 2, 2, 1) == 0x7
  {
  }

  /**
   * The documented use, `currentel::read(EL::Field) == currentel::EL::EL2`,
   * for any of the four levels: it holds exactly when raw bits 2..3 hold the
   * level's number. The register's contents are left as they are.
   */
  method IsLevel(reg: SystemRegister, s: Symbol) returns (b: bool)
    requires reg.Valid() && reg.width == U64 && s in EL.symbols
    ensures b <==> Extract(ToNat(reg.raw), 2, 2) == s.value
  {
    var current := reg.Read(ElField);
    b := current == CurrentEL.Constant(EL, s);
    Layout();
    ReadMatchesConstant(CurrentEL, EL, s, reg.raw);
  }
}
