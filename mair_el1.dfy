/**
 * MAIR_EL1, the memory attribute indirection register: a 64-bit register
 * made of eight 8-bit attribute fields MAIR0 to MAIR7, one per attribute
 * index, each with the same table of nine attribute encodings.
 */
module MairEl1 {
  import opened Bits
  import opened RegisterMacros

  /**
   * The register table: field MAIRn, for n from 0 to 7, holds eight bits
   * from bit 8n, and every field lists the same nine attribute encodings.
   */
  const MAIR_EL1 := RegisterDef("mair_el1", U64, [
    FieldDef("MAIR0", 0, Some(8), [
      Symbol("NGNRNE", 0x00), Symbol("NGNRE", 0x04), Symbol("GRE", 0x0C),
      Symbol("NC", 0x44), Symbol("NORM", 0xFF), Symbol("NGRE", 0x08),
      Symbol("NOWTIWT", 0x33), Symbol("NOWTNTIWTNT", 0xBB), Symbol("NOWBTIWBT", 0x55)]),
    FieldDef("MAIR1", 8, Some(8), [
      Symbol("NGNRNE", 0x00), Symbol("NGNRE", 0x04), Symbol("GRE", 0x0C),
      Symbol("NC", 0x44), Symbol("NORM", 0xFF), Symbol("NGRE", 0x08),
      Symbol("NOWTIWT", 0x33), Symbol("NOWTNTIWTNT", 0xBB), Symbol("NOWBTIWBT", 0x55)]),
    FieldDef("MAIR2", 16, Some(8), [
      Symbol("NGNRNE", 0x00), Symbol("NGNRE", 0x04), Symbol("GRE", 0x0C),
      Symbol("NC", 0x44), Symbol("NORM", 0xFF), Symbol("NGRE", 0x08),
      Symbol("NOWTIWT", 0x33), Symbol("NOWTNTIWTNT", 0xBB), Symbol("NOWBTIWBT", 0x55)]),
    FieldDef("MAIR3", 24, Some(8), [
      Symbol("NGNRNE", 0x00), Symbol("NGNRE", 0x04), Symbol("GRE", 0x0C),
      Symbol("NC", 0x44), Symbol("NORM", 0xFF), Symbol("NGRE", 0x08),
      Symbol("NOWTIWT", 0x33), Symbol("NOWTNTIWTNT", 0xBB), Symbol("NOWBTIWBT", 0x55)]),
    FieldDef("MAIR4", 32, Some(8), [
      Symbol("NGNRNE", 0x00), Symbol("NGNRE", 0x04), Symbol("GRE", 0x0C),
      Symbol("NC", 0x44), Symbol("NORM", 0xFF), Symbol("NGRE", 0x08),
      Symbol("NOWTIWT", 0x33), Symbol("NOWTNTIWTNT", 0xBB), Symbol("NOWBTIWBT", 0x55)]),
    FieldDef("MAIR5", 40, Some(8), [
      Symbol("NGNRNE", 0x00), Symbol("NGNRE", 0x04), Symbol("GRE", 0x0C),
      Symbol("NC", 0x44), Symbol("NORM", 0xFF), Symbol("NGRE", 0x08),
      Symbol("NOWTIWT", 0x33), Symbol("NOWTNTIWTNT", 0xBB), Symbol("NOWBTIWBT", 0x55)]),
    FieldDef("MAIR6", 48, Some(8), [
      Symbol("NGNRNE", 0x00), Symbol("NGNRE", 0x04), Symbol("GRE", 0x0C),
      Symbol("NC", 0x44), Symbol("NORM", 0xFF), Symbol("NGRE", 0x08),
      Symbol("NOWTIWT", 0x33), Symbol("NOWTNTIWTNT", 0xBB), Symbol("NOWBTIWBT", 0x55)]),
    FieldDef("MAIR7", 56, Some(8), [
      Symbol("NGNRNE", 0x00), Symbol("NGNRE", 0x04), Symbol("GRE", 0x0C),
      Symbol("NC", 0x44), Symbol("NORM", 0xFF), Symbol("NGRE", 0x08),
      Symbol("NOWTIWT", 0x33), Symbol("NOWTNTIWTNT", 0xBB), Symbol("NOWBTIWBT", 0x55)])
  ])

  /** The attribute table every MAIRn field lists. */
  const Attributes := [
    Symbol("NGNRNE", 0x00), Symbol("NGNRE", 0x04), Symbol("GRE", 0x0C),
    Symbol("NC", 0x44), Symbol("NORM", 0xFF), Symbol("NGRE", 0x08),
    Symbol("NOWTIWT", 0x33), Symbol("NOWTNTIWTNT", 0xBB), Symbol("NOWBTIWBT", 0x55)
  ]

  /** `MAIRn::NORM`. */
  function Norm(n: nat): FieldValue
    requires n < 8
  {
    MAIR_EL1.Constant(MAIR_EL1.fields[n], MAIR_EL1.fields[n].symbols[4])
  }

  /** MAIRn sits at bit `8n` and is eight bits wide; MAIR7 ends exactly at bit 64. */
  lemma Layout()
    ensures |MAIR_EL1.fields| == 8
    ensures forall n :: 0 <= n < 8 ==> MAIR_EL1.fields[n].offset == 8 * n && MAIR_EL1.fields[n].bits == Some(8)
    ensures MAIR_EL1.fields[7].End() == 64
  {
  }

  /** All eight fields list the same attribute table. */
  lemma SameTables()
    ensures forall n :: 0 <= n < 8 ==> MAIR_EL1.fields[n].symbols == Attributes
  {
  }

  /**
   * The nine attribute encodings are at most `0xFF`, so none is truncated,
   * and are pairwise distinct; `NORM` is `0xFF`.
   */
  lemma AttributeValues()
    ensures |Attributes| == 9 && Attributes[4].name == "NORM" && Attributes[4].value == 0xFF
    ensures forall s :: s in Attributes ==> s.value <= 0xFF
    ensures forall i, j :: 0 <= i < j < |Attributes| ==> Attributes[i].value != Attributes[j].value
    ensures ValuesFit(Attributes, Some(8)) && DistinctValues(Attributes)
  {
    assert Pow2(8) == 256;
    assert ValuesFit(Attributes, Some(8));
    assert DistinctValues(Attributes);
    ValuesFitAll(Attributes, Some(8));
    DistinctValuesAll(Attributes);
  }

  /** The table is well formed: the fields ascend inside the register and every table fits and is distinct. */
  lemma WellFormed()
    ensures MAIR_EL1.WellFormed()
  {
    assert InRange(MAIR_EL1.fields, 64);
    assert Ascending(MAIR_EL1.fields);
    TablesFit();
  }

  /** Every field's table fits in its eight bits and is distinct. */
  lemma TablesFit()
    ensures SymbolsFit(MAIR_EL1.fields)
  {
    SameTables();
    AttributeValues();
    SymbolsFitAll(MAIR_EL1.fields);
  }

  /** The eight fields are placeable and pairwise disjoint. */
  lemma FieldsApart()
    ensures forall k :: 0 <= k < 8 ==> MAIR_EL1.FieldConst(MAIR_EL1.fields[k]).Placeable()
    ensures forall i, j :: 0 <= i < 8 && 0 <= j < 8 && i != j ==>
      FieldsDisjoint(MAIR_EL1.FieldConst(MAIR_EL1.fields[i]), MAIR_EL1.FieldConst(MAIR_EL1.fields[j]))
  {
    WellFormed();
    Layout();
    RegisterFieldsDisjoint(MAIR_EL1);
  }

  /** The eight fields follow one another over bits 0..63, so every register bit lies under one of their masks. */
  lemma AllBitsCovered()
    ensures Tiles(MAIR_EL1.fields, 0, 64)
    ensures forall i: nat :: i < 64 ==> CoveredByField(MAIR_EL1, i)
  {
    assert Tiles(MAIR_EL1.fields, 0, 64);
    TiledBitsAreCovered(MAIR_EL1, 0, 64);
  }

  /** MAIRn has local mask `0xFF` at shift `8n`. */
  lemma Masks()
    ensures forall n :: 0 <= n < 8 ==>
      ToNat(MAIR_EL1.FieldConst(MAIR_EL1.fields[n]).localMask) == 0xFF &&
      MAIR_EL1.FieldConst(MAIR_EL1.fields[n]).shift == 8 * n
  {
    Layout();
    assert Pow2(8) == 256;
    forall n | 0 <= n < 8
      ensures ToNat(MAIR_EL1.FieldConst(MAIR_EL1.fields[n]).localMask) == 0xFF
    {
      FieldOfMask(U64, 8 * n, Some(8));
    }
  }

  /** `write(MAIRn::NORM)` sets bits `8n .. 8n+7` to `0xFF` and keeps every other bit. */
  lemma WriteNorm(n: nat, raw: Word)
    requires n < 8 && |raw| == 64
    ensures |WriteRaw(raw, Norm(n))| == 64
    ensures WriteRaw(raw, Norm(n))[..8 * n] == raw[..8 * n]
    ensures WriteRaw(raw, Norm(n))[8 * n + 8..] == raw[8 * n + 8..]
    ensures ToNat(WriteRaw(raw, Norm(n))[8 * n..8 * n + 8]) == 0xFF
  {
    assert Norm(n) == WithValue(FieldOf(U64, 8 * n, Some(8)), 0xFF) by {
      NormIsWithValue(n);
    }
    assert 0xFF % Pow2(8) == 0xFF by {
      assert Pow2(8) == 256;
    }
    WriteFieldBits(U64, 8 * n, Some(8), raw, 0xFF);
  }

  /** `MAIRn::NORM` is `with_value(0xFF)` on the field at bit `8n`. */
  lemma NormIsWithValue(n: nat)
    requires n < 8
    ensures Norm(n) == WithValue(FieldOf(U64, 8 * n, Some(8)), 0xFF)
  {
    Layout();
    SameTables();
  }
}
