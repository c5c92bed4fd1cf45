/**
 * CLIDR_EL1, the cache level ID register: a 64-bit register with the
 * three-bit cache types CTYPE1 to CTYPE3 at bits 0, 3 and 6, sharing one
 * table of cache-type constants, and the three-bit levels LOUIS, LOC, LOUU
 * and ICB at bits 21, 24, 27 and 30. Bits 9..20 belong to no field.
 */
module ClidrEl1 {
  import opened Bits
  import opened RegisterMacros

  /**
   * The register table: seven three-bit fields. CTYPE1, CTYPE2 and CTYPE3 at
   * bits 0, 3 and 6 each list the five cache types 0 to 4; LOUIS, LOC, LOUU
   * and ICB at bits 21, 24, 27 and 30 list no constants.
   */
  const CLIDR_EL1 := RegisterDef("clidr_el1", U64, [
    FieldDef("CTYPE1", 0, Some(3), [
      Symbol("NO_CACHE", 0x0), Symbol("ICACHE_ONLY", 0x1), Symbol("DCACHE_ONLY", 0x2),
      Symbol("SEPARATE_D_I_CACHE", 0x3), Symbol("UNIFIED_D_I_CACHE", 0x4)]),
    FieldDef("CTYPE2", 3, Some(3), [
      Symbol("NO_CACHE", 0x0), Symbol("ICACHE_ONLY", 0x1), Symbol("DCACHE_ONLY", 0x2),
      Symbol("SEPARATE_D_I_CACHE", 0x3), Symbol("UNIFIED_D_I_CACHE", 0x4)]),
    FieldDef("CTYPE3", 6, Some(3), [
      Symbol("NO_CACHE", 0x0), Symbol("ICACHE_ONLY", 0x1), Symbol("DCACHE_ONLY", 0x2),
      Symbol("SEPARATE_D_I_CACHE", 0x3), Symbol("UNIFIED_D_I_CACHE", 0x4)]),
    FieldDef("LOUIS", 21, Some(3), []),
    FieldDef("LOC", 24, Some(3), []),
    FieldDef("LOUU", 27, Some(3), []),
    FieldDef("ICB", 30, Some(3), [])
  ])

  const CTYPE1 := CLIDR_EL1.fields[0]
  const CTYPE2 := CLIDR_EL1.fields[1]
  const CTYPE3 := CLIDR_EL1.fields[2]

  /**
   * All seven fields are three bits wide, at the offsets 0, 3, 6, 21, 24,
   * 27 and 30, so ICB spans bits 30..32.
   */
  lemma Layout()
    ensures |CLIDR_EL1.fields| == 7 && forall k :: 0 <= k < 7 ==> CLIDR_EL1.fields[k].bits == Some(3)
    ensures CLIDR_EL1.fields[0].offset == 0 && CLIDR_EL1.fields[1].offset == 3 && CLIDR_EL1.fields[2].offset == 6
    ensures CLIDR_EL1.fields[3].offset == 21 && CLIDR_EL1.fields[4].offset == 24
    ensures CLIDR_EL1.fields[5].offset == 27 && CLIDR_EL1.fields[6].offset == 30
    ensures CLIDR_EL1.fields[6].End() == 33
  {
  }

  /**
   * The table is well formed: every field ends inside the register, the
   * fields ascend without overlap, and every constant fits its field and
   * differs from the others of its field.
   */
  lemma WellFormed()
    ensures CLIDR_EL1.WellFormed()
  {
    assert InRange(CLIDR_EL1.fields, 64);
    assert Ascending(CLIDR_EL1.fields);
    assert SymbolsFit(CLIDR_EL1.fields);
  }

  /** Each field's local mask is `0b111`, at its offset. */
  lemma LocalMasks()
    ensures forall k :: 0 <= k < |CLIDR_EL1.fields| ==>
      ToNat(CLIDR_EL1.FieldConst(CLIDR_EL1.fields[k]).localMask) == 0x7 &&
      CLIDR_EL1.FieldConst(CLIDR_EL1.fields[k]).shift == CLIDR_EL1.fields[k].offset
  {
    Layout();
    assert Pow2(3) == 8;
    forall k | 0 <= k < |CLIDR_EL1.fields|
      ensures ToNat(CLIDR_EL1.FieldConst(CLIDR_EL1.fields[k]).localMask) == 0x7
    {
      FieldOfMask(U64, CLIDR_EL1.fields[k].offset, Some(3));
    }
  }

  /** The seven fields are placeable and pairwise disjoint. */
  lemma FieldsApart()
    ensures forall k :: 0 <= k < |CLIDR_EL1.fields| ==> CLIDR_EL1.FieldConst(CLIDR_EL1.fields[k]).Placeable()
    ensures forall i, j :: 0 <= i < |CLIDR_EL1.fields| && 0 <= j < |CLIDR_EL1.fields| && i != j ==>
      FieldsDisjoint(CLIDR_EL1.FieldConst(CLIDR_EL1.fields[i]), CLIDR_EL1.FieldConst(CLIDR_EL1.fields[j]))
  {
    WellFormed();
    RegisterFieldsDisjoint(CLIDR_EL1);
  }

  /**
   * CTYPE1, CTYPE2 and CTYPE3 carry the same table, whose five constants
   * fit in three bits and are pairwise distinct.
   */
  lemma CacheTypes()
    ensures CTYPE2.symbols == CTYPE1.symbols && CTYPE3.symbols == CTYPE1.symbols
    ensures forall s :: s in CTYPE1.symbols ==> s.value < 8
    ensures forall i, j :: 0 <= i < j < |CTYPE1.symbols| ==> CTYPE1.symbols[i].value != CTYPE1.symbols[j].value
  {
    WellFormed();
    SymbolsFitAll(CLIDR_EL1.fields);
    ValuesFitAll(CTYPE1.symbols, Some(3));
    DistinctValuesAll(CTYPE1.symbols);
    assert Pow2(3) == 8;
  }

  /** A write through any field, with any value, keeps bits 9..20. */
  lemma WriteKeepsBits9To20(fd: FieldDef, v: nat, raw: Word)
    requires fd in CLIDR_EL1.fields && |raw| == 64
    ensures forall i :: 9 <= i < 21 ==> WriteRaw(raw, CLIDR_EL1.FieldWithValue(fd, v))[i] == raw[i]
  {
    assert RangeUncovered(CLIDR_EL1.fields, 9, 21);
    WriteKeepsUncovered(CLIDR_EL1, fd, v, raw, 9, 21);
  }
}
