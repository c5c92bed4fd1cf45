# RusPiRo aarch64 system-register fields, in Dafny

`ruspiro-arch-aarch64` gives each AArch64 system register its own Rust
module. The module is generated by the macro `define_aarch64_register!`:

- For every field declared as `NAME OFFSET(o) [BITS(n)] [ SYMBOL = value, … ]`:
  - a `Field` constant, built by `register_field!`;
  - a `with_value` constructor;
  - one constant per symbolic value.
- `get` and `set`, which access the raw register contents.
- The masked `read` and the read-modify-write `write`, built by
  `impl_system_register_rw!`.

This project models that mechanism and seven register tables that use it:
MAIR_EL1, CLIDR_EL1, CTR_EL0, CSSELR_EL1, CPACR_EL1, CurrentEL and ESR_EL2.

## Modules

- `bits.dfy`, module `Bits`: words of width 32 or 64, as sequences of
  booleans (least significant bit first).
  - `And`, `Or`, `Not`, `Shl` and `Shr` are defined bit by bit.
  - `ToNat` and `FromNat` give the numeric view of a word, and `Pow2` gives
    powers of two.
  - `Extract(t, o, n)` is the number held in bits `o .. o+n-1` of `t`.
  - `Insert(t, o, n, v)` is `t` with those bits replaced by `v % 2^n`.
  - The lemmas relate the bit view to the numeric view: round trips,
    injectivity, shifts, slices and disjoint unions.
- `register_macros.dfy`, module `RegisterMacros`: the macros themselves.
  - `Field` and `FieldValue` stand for `RegisterField<T>` and
    `RegisterFieldValue<T>`. They get only what the macros rely on:
    - `new` masks the value with the local mask;
    - `mask()` and `raw_value()` shift into register position;
    - `|` unites the masks and the raw values;
    - `==` compares the decoded values.
  - `FieldOf` is `register_field!`, and `WithValue` is `with_value` and
    every symbolic constant.
  - `ReadField` and `WriteRaw` are `read` and `write` over raw contents.
  - `RegisterDef`, `FieldDef` and `Symbol` describe a macro invocation.
  - The class `SystemRegister` holds the raw contents as a mutable field.
    Its methods `Get`, `Set`, `Read` and `Write` follow the generated code
    step by step.
- One module per register table, each with the table as a constant and
  lemmas about it:
  - `mair_el1.dfy`
  - `clidr_el1.dfy`
  - `ctr_el0.dfy`
  - `csselr_el1.dfy`
  - `cpacr_el1.dfy`
  - `currentel.dfy`
  - `esr_el2.dfy`

Register contents are words of the declared width, `u32` or `u64`. The
bitwise operators are therefore exact, and no arithmetic wraps.

`with_value` takes a number and reduces it modulo `2^width` before masking,
which is what truncating a `u32`/`u64` argument does.

The documentation of `read` (src/register/macros.rs:49-50) says that reading
bits [4:3] of `0b10110` gives `0b01`. The code gives `0b10`, and so does
the model: `RegisterMacros.DocCommentRead` proves it.

The header of src/register/el0/ctr_el0.rs:8 names TCR_EL1, but the table
it holds is CTR_EL0. The model follows the table.

## Model

| member | source | states |
|---|---|---|
| RegisterMacros.FieldOf | src/register/macros.rs:18-29 | `register_field!`: its partner lemmas `FieldOfMask`, `FieldOfMaskBits` and `FieldMaskNumber` prove local mask 1 without `BITS`, `2^n - 1` with `BITS(n)`, shift `o`, and register-position mask `(2^n - 1) * 2^o` |
| RegisterMacros.Field.Mask | src/register/macros.rs:41 | `mask()`: the local mask shifted to the field's offset; `FieldOfMaskBits` proves it covers exactly bits `o .. o+n-1` of a declared field |
| RegisterMacros.FieldValue.RawValue | src/register/macros.rs:41 | `raw_value()`: the value shifted to the field's offset; `RawValueWithinMask` proves it lies under the mask and `RawValueNumber` that it is the value times `2^o` |
| RegisterMacros.WithValue | src/register/macros.rs:116-124 | `with_value(v)` and every `$enum` constant give a well-formed value of the field; `WithValueNumber` proves it holds `v % 2^n` |
| RegisterMacros.ReadField | src/register/macros.rs:53-56 | `read` gives a value of the field that lies within its local mask; `ReadFieldNumber` proves it is `Extract(raw, o, n)` |
| RegisterMacros.WriteRaw | src/register/macros.rs:40-43 | `write` stores a word of the register's width; `WritePreservesOutside`, `WriteSetsMask` and `WriteFieldNumber` prove it keeps the bits outside the mask, sets those under it, and is `Insert(raw, o, n, v)` as a number |
| RegisterMacros.Combine | src/register/macros.rs:89-91 | `a | b` is a valid value at shift 0 of the same width; `CombineMaskAndRawValue` proves its mask and raw value are the unions of the operands' |
| RegisterMacros.SameValue | src/register/currentel.rs:20 | `==` on field values: equal values compare equal, and values that compare equal hold the same number |
| RegisterMacros.NewValue | src/register/macros.rs:116-124 | the value keeps exactly the input's bits under the local mask and nothing outside it; the result is well formed for its field |
| RegisterMacros.NewValueIdempotent | src/register/macros.rs:116-124 | building a field value from an already built one changes nothing |
| RegisterMacros.NewValueKeepsValid | src/register/macros.rs:116-124 | a value that lies within the local mask is kept as it is |
| RegisterMacros.RawValueWithinMask | src/register/macros.rs:41 | a valid value shifted into position lies under the field's register mask |
| RegisterMacros.FieldOfMask | src/register/macros.rs:18-29 | `OFFSET(o)` gives local mask 1, `OFFSET(o) BITS(n)` gives `2^n - 1`, both at shift `o`; `BITS(1)` and no `BITS` give the same field |
| RegisterMacros.FieldOfMaskBits | src/register/macros.rs:18-29 | a declared field's mask covers bit `i` exactly when `o <= i < o + n` |
| RegisterMacros.FieldOfPlaceable | src/register/macros.rs:18-29 | a declared field's shifted mask loses no bit exactly when the field ends inside the register |
| RegisterMacros.FieldOfDisjoint | src/register/macros.rs:18-29 | two declared fields share no mask bit exactly when their bit ranges do not overlap |
| RegisterMacros.FieldMaskNumber | src/register/macros.rs:18-29 | the register-position mask of a declared field is `(2^n - 1) * 2^o` |
| RegisterMacros.ReadIsShiftThenMask | src/register/macros.rs:45-56 | `read` gives `(raw >> shift) & localMask`, which always lies within the local mask |
| RegisterMacros.ReadDependsOnlyOnMask | src/register/macros.rs:53-56 | two raw contents that agree under the field's mask read the same |
| RegisterMacros.ReadFieldBits | src/register/macros.rs:45-56 | `read` of a declared field is the field's bits of the raw contents, right-aligned and zero above |
| RegisterMacros.ReadFieldNumber | src/register/macros.rs:53-56 | `read` of a declared field is the number `Extract(raw, o, n)`, below `2^n` |
| RegisterMacros.WritePreservesOutside | src/register/macros.rs:36-43 | `write` keeps every raw bit outside the value's mask: `new & !mask == old & !mask` |
| RegisterMacros.WriteSetsMask | src/register/macros.rs:40-43 | under the mask, `write` stores exactly the value's raw value |
| RegisterMacros.ReadAfterWrite | src/register/macros.rs:40-56 | after writing a valid value of a placeable field, reading that field gives the value back |
| RegisterMacros.ReadAfterWriteWithValue | src/register/macros.rs:40-56 | after `write(f.with_value(v))`, `read(f)` gives `v` masked to the field |
| RegisterMacros.WriteOfReadIsIdentity | src/register/macros.rs:40-56 | writing back what `read` returned leaves the raw contents unchanged |
| RegisterMacros.WriteTwice | src/register/macros.rs:40-43 | a second write to the same field overrides the first |
| RegisterMacros.ReadOtherFieldAfterWrite | src/register/macros.rs:40-56 | writing one field leaves what a disjoint field reads unchanged |
| RegisterMacros.WritesCommute | src/register/macros.rs:40-43 | writes to disjoint fields commute |
| RegisterMacros.CombineMaskAndRawValue | src/register/macros.rs:89-91 | `a | b` has the union of both masks and of both raw values, and is itself a valid, placeable value |
| RegisterMacros.CombinedWriteIsSequential | src/register/macros.rs:89-91 | writing `a | b` for disjoint fields is writing `a` and then `b` |
| RegisterMacros.CombinedWriteReadsBoth | src/register/macros.rs:40-56 | after `write(a | b)`, each field reads its own value and every bit outside both masks is kept |
| RegisterMacros.WithValueNumber | src/register/macros.rs:116-118 | `with_value(v)` keeps `v % 2^n`: bits beyond the field's width are dropped |
| RegisterMacros.WithValueExact | src/register/macros.rs:116-124 | a value below `2^n` is kept exactly |
| RegisterMacros.WriteFieldBits | src/register/macros.rs:40-43 | `write(f.with_value(v))` puts `v % 2^n` into the field's bits and keeps the bits below and above |
| RegisterMacros.WithValueLowBits | src/register/macros.rs:116-118 | the low `n` bits of `with_value(v)` hold `v % 2^n` |
| RegisterMacros.WriteFieldNumber | src/register/macros.rs:40-43 | as a number, `write(f.with_value(v))` turns `raw` into `Insert(raw, o, n, v)` |
| RegisterMacros.RawValueNumber | src/register/macros.rs:41 | the raw value of a valid value is its number times `2^o` |
| RegisterMacros.CombineRawNumber | src/register/macros.rs:89-91 | the raw value of `a | b` for disjoint fields is the sum of both raw values |
| RegisterMacros.RegisterDef.FieldConst | src/register/macros.rs:110 | `$field::Field` is well formed, has the register's width and has shift `o` |
| RegisterMacros.RegisterDef.FieldWithValue | src/register/macros.rs:116-118 | `$field::with_value(v)` is a valid value of `$field::Field` |
| RegisterMacros.RegisterDef.Constant | src/register/macros.rs:124 | `$field::$enum` is a valid value of `$field::Field`, built like `with_value` |
| RegisterMacros.InRangeAll | src/register/macros.rs:98 | the recursive range check holds exactly when every field has at least one bit and ends inside the register |
| RegisterMacros.AscendingOrdered | src/register/macros.rs:98 | fields ascending between neighbours ascend between any two |
| RegisterMacros.ValuesFitAll | src/register/macros.rs:99 | the recursive fit check holds exactly when every symbol's value is below `2^n` |
| RegisterMacros.HasValueExists | src/register/macros.rs:99 | the recursive membership check holds exactly when some symbol has the value |
| RegisterMacros.DistinctValuesAll | src/register/macros.rs:99 | the recursive distinctness check holds exactly when no two symbols share a value |
| RegisterMacros.SymbolsFitAll | src/register/macros.rs:98-100 | the table check holds exactly when every field's symbols fit and are distinct |
| RegisterMacros.CoversFromHasValue | src/register/macros.rs:99 | when the symbols name every encoding, every encoding below the bound is the value of some symbol |
| RegisterMacros.RangeUncoveredAll | src/register/macros.rs:98 | the recursive "no field covers these bits" check holds exactly when every field lies outside the range |
| RegisterMacros.TilesCover | src/register/macros.rs:98 | fields that tile a range cover every bit of it |
| RegisterMacros.RegisterFieldsDisjoint | src/register/macros.rs:95-128 | the fields of a well-formed definition are placeable and pairwise disjoint |
| RegisterMacros.ConstantExact | src/register/macros.rs:124 | a symbolic constant of a well-formed definition holds its value untruncated |
| RegisterMacros.ConstantsDistinct | src/register/macros.rs:124 | distinct symbols of one field give constants that `==` tells apart |
| RegisterMacros.ReadIsOneConstant | src/register/macros.rs:53-56 | when a field's symbols name every encoding, `read` of it equals exactly one symbolic constant |
| RegisterMacros.WriteKeepsUncovered | src/register/macros.rs:40-43 | any field write keeps bits that no field covers |
| RegisterMacros.ReadMatchesConstant | src/register/macros.rs:53-56 | `read(F) == F::SYM` holds exactly when the field's bits hold the symbol's value, and `==` agrees with full equality |
| RegisterMacros.FieldMaskIs | src/register/macros.rs:18-29 | `FieldMaskNumber` for a field given by name |
| RegisterMacros.TiledBitsAreCovered | src/register/macros.rs:18-29 | fields tiling a range leave none of its bits outside every mask |
| RegisterMacros.SystemRegister.constructor | src/register/macros.rs:133-148 | a register of the given width with the given contents |
| RegisterMacros.SystemRegister.Get | src/register/macros.rs:133-139 | `get()` returns the current raw contents |
| RegisterMacros.SystemRegister.Set | src/register/macros.rs:144-148 | `set(v)` replaces the raw contents by `v` |
| RegisterMacros.SystemRegister.Read | src/register/macros.rs:53-56 | `read(field)` leaves the contents unchanged and returns `(raw >> shift) & localMask`, a valid value of the field |
| RegisterMacros.SystemRegister.Write | src/register/macros.rs:40-43 | `write(fv)` stores `(raw & !mask) | raw_value`, keeping bits outside the mask and setting those under it |
| RegisterMacros.FooWellFormed | src/register/macros.rs:67-86 | the example register `foo` is well formed, BAR and BAZ are disjoint, and `VAL1` and `VAL2` hold 1 and 2 |
| RegisterMacros.FooExampleReads | src/register/macros.rs:89-91 | after `foo::write(BAR::VAL1 | BAZ::VAL2)`, BAR reads VAL1 and BAZ reads VAL2 |
| RegisterMacros.FooExampleBits | src/register/macros.rs:89-91 | that write sets bits 0..2 to `0b101` and keeps bits 3..31 |
| RegisterMacros.FooExampleIsSequential | src/register/macros.rs:89-91 | that write is BAR's `with_value(1)` followed by BAZ's `with_value(2)` |
| RegisterMacros.FooSequentialBits | src/register/macros.rs:89-91 | those two writes set bits 0..2 to `0b101` and keep bits 3..31 |
| RegisterMacros.AdjacentWrites | src/register/macros.rs:40-43 | writing two adjacent fields stores `v1 % 2^n1 + 2^n1 * (v2 % 2^n2)` across both and keeps the bits above |
| RegisterMacros.DocCommentRead | src/register/macros.rs:45-56 | reading bits [4:3] of `0b10110` gives `0b10`, which is not the `0b01` the documentation says |
| RegisterMacros.CombineAdjacentMask | src/register/macros.rs:89-91 | `|` of values of two adjacent fields has the mask of one field spanning both |
| RegisterMacros.CombineAdjacentRaw | src/register/macros.rs:89-91 | the raw value of that `|` is `2^o * (v1 % 2^n1) + 2^(o+n1) * (v2 % 2^n2)` |
| RegisterMacros.WithValueRawNumber | src/register/macros.rs:116-118 | the raw value of `with_value(v)` is `(v % 2^n) * 2^o` |
| RegisterMacros.CombineAdjacentSum | src/register/macros.rs:89-91 | the raw value of that `|` is the sum of both raw values |
| RegisterMacros.CombineAdjacentIs | src/register/macros.rs:89-91 | `CombineAdjacentRaw` and `CombineAdjacentMask` for values given by name |
| RegisterMacros.CombineExample | src/register/macros.rs:89-91 | `0b11` in two bits at 0 `|` `1` in one bit at 2 is `0b111` in three bits at 0 |
| MairEl1.Norm | src/register/el1/mair_el1.rs:34 | `MAIRn::NORM`, the constant 0xFF of field `n` |
| MairEl1.Layout | src/register/el1/mair_el1.rs:23-184 | MAIRn sits at offset `8n` with eight bits, and MAIR7 ends at bit 64 |
| MairEl1.SameTables | src/register/el1/mair_el1.rs:24-183 | all eight fields carry the same nine-entry attribute table |
| MairEl1.AttributeValues | src/register/el1/mair_el1.rs:25-42 | the nine attribute encodings are at most 0xFF and pairwise distinct, and NORM is 0xFF |
| MairEl1.WellFormed | src/register/el1/mair_el1.rs:23-184 | the MAIR_EL1 table is well formed |
| MairEl1.TablesFit | src/register/el1/mair_el1.rs:24-183 | every field's table fits eight bits and is distinct |
| MairEl1.FieldsApart | src/register/el1/mair_el1.rs:24-183 | the eight fields are placeable and pairwise disjoint |
| MairEl1.AllBitsCovered | src/register/el1/mair_el1.rs:24-183 | the fields tile bits 0..63, so every bit is under some mask |
| MairEl1.Masks | src/register/el1/mair_el1.rs:24-183 | MAIRn has local mask 0xFF at shift `8n` |
| MairEl1.WriteNorm | src/register/el1/mair_el1.rs:34 | writing `MAIRn::NORM` sets bits `8n..8n+7` to 0xFF and keeps all other bits |
| MairEl1.NormIsWithValue | src/register/el1/mair_el1.rs:34 | `MAIRn::NORM` is `with_value(0xFF)` on an eight-bit field at `8n` |
| ClidrEl1.Layout | src/register/el1/clidr_el1.rs:22-70 | seven three-bit fields at 0, 3, 6, 21, 24, 27 and 30; ICB ends at bit 33 |
| ClidrEl1.WellFormed | src/register/el1/clidr_el1.rs:22-70 | the CLIDR_EL1 table is well formed |
| ClidrEl1.LocalMasks | src/register/el1/clidr_el1.rs:24-69 | every field has local mask `0b111` at its offset |
| ClidrEl1.FieldsApart | src/register/el1/clidr_el1.rs:24-69 | the seven fields are placeable and pairwise disjoint |
| ClidrEl1.CacheTypes | src/register/el1/clidr_el1.rs:24-61 | CTYPE1..3 carry one table, whose five values are below 8 and pairwise distinct |
| ClidrEl1.WriteKeepsBits9To20 | src/register/el1/clidr_el1.rs:24-69 | any field write keeps bits 9..20 |
| CtrEl0.Layout | src/register/el0/ctr_el0.rs:27-50 | the seven fields' bit ranges, and L1lp's constants are 0..3 |
| CtrEl0.WellFormed | src/register/el0/ctr_el0.rs:23-51 | the CTR_EL0 table is well formed and L1lp's constants name every encoding |
| CtrEl0.FieldsApart | src/register/el0/ctr_el0.rs:27-50 | the seven fields are placeable and pairwise disjoint |
| CtrEl0.IdcMask | src/register/el0/ctr_el0.rs:49 | IDC, declared without `BITS`, has local mask 1 at shift 28 |
| CtrEl0.TminLineLocalMask | src/register/el0/ctr_el0.rs:50 | TminLine has local mask 0x3F at shift 32 |
| CtrEl0.TminLineMask | src/register/el0/ctr_el0.rs:50 | TminLine's mask is `0x3F << 32` |
| CtrEl0.ReadIsOnePolicy | src/register/el0/ctr_el0.rs:29-38 | `read(L1lp::Field)` equals exactly one of VPIPT, AIVIVT, VIPT and PIPT |
| CtrEl0.WriteKeepsUnusedBits | src/register/el0/ctr_el0.rs:27-50 | any field write keeps bits 4..13 and 29..31 |
| CsselrEl1.Layout | src/register/el1/csselr_el1.rs:22-43 | the table is well formed, tiles bits 0..4, InD's and TnD's constants name both encodings, and LEVEL's are 0, 1, 2 |
| CsselrEl1.Masks | src/register/el1/csselr_el1.rs:24-42 | the masks are 1, `0b1110` and `0b10000`, and every one of bits 0..4 is under one of them |
| CsselrEl1.InstructionL2 | src/register/el1/csselr_el1.rs:28-33 | `InD::INSTRUCTION | LEVEL::L2` has raw value `0b011` and the mask of bits 0..3 |
| CsselrEl1.WriteLevelKeepsOthers | src/register/el1/csselr_el1.rs:24-42 | writing any LEVEL value keeps what InD and TnD read |
| CpacrEl1.Layout | src/register/el1/cpacr_el1.rs:22-36 | the table is well formed, FPEN's constants are 0..3, and both fields' constants name every encoding |
| CpacrEl1.FpenMask | src/register/el1/cpacr_el1.rs:25 | FPEN has mask `0b11 << 20` |
| CpacrEl1.TtaMask | src/register/el1/cpacr_el1.rs:32 | TTA has mask `1 << 28` |
| CpacrEl1.FieldsApart | src/register/el1/cpacr_el1.rs:25-32 | FPEN and TTA share no bit |
| CpacrEl1.NoTrapRawValue | src/register/el1/cpacr_el1.rs:29 | `FPEN::NO_TRAP` has raw value `0b11 << 20` |
| CpacrEl1.TrapRawValue | src/register/el1/cpacr_el1.rs:34 | `TTA::TRAP` has raw value `1 << 28` |
| CpacrEl1.WriteNoTrap | src/register/el1/cpacr_el1.rs:25-35 | writing `FPEN::NO_TRAP` sets bits 20 and 21, keeps every other bit, and keeps what TTA reads |
| CurrentEl.Layout | src/register/currentel.rs:28-37 | the table is well formed, and EL0..EL3 are 0..3, naming every encoding |
| CurrentEl.ElMask | src/register/currentel.rs:31 | EL has shift 2, local mask `0b11` and mask `0b1100` |
| CurrentEl.ReadIsOneLevel | src/register/currentel.rs:31-35 | `read(EL::Field)` equals exactly one of EL0..EL3 |
| CurrentEl.ReadDependsOnBits2To3 | src/register/currentel.rs:31 | raw contents that agree on bits 2..3 read the same EL |
| CurrentEl.ReadExample | src/register/currentel.rs:18-20 | with raw `0b1011`, `read(EL::Field)` is `0b10` and equals `EL::EL2` |
| CurrentEl.WriteExample | src/register/currentel.rs:31-33 | writing `EL::EL1` into raw `0b1011` gives `0b0111` |
| CurrentEl.IsLevel | src/register/currentel.rs:18-20 | `read(EL::Field) == s` is true exactly when bits 2..3 of the register hold `s`'s value |
| EsrEl2.Layout | src/register/el2/esr_el2.rs:21-32 | the table is well formed, the register is 32 bits, EC ends at bit 32, and IL's constants name both encodings |
| EsrEl2.IssMask | src/register/el2/esr_el2.rs:24 | ISS has mask 0xFFFFFF |
| EsrEl2.IlMask | src/register/el2/esr_el2.rs:26 | IL has mask `1 << 25` |
| EsrEl2.EcMask | src/register/el2/esr_el2.rs:31 | EC has mask `0x3F << 26` |
| EsrEl2.FieldsApart | src/register/el2/esr_el2.rs:24-31 | the three fields are placeable and pairwise disjoint |
| EsrEl2.WriteKeepsBit24 | src/register/el2/esr_el2.rs:24-31 | any field write keeps bit 24 |
| EsrEl2.ReadBounds | src/register/el2/esr_el2.rs:24-31 | EC reads below 64, ISS below `2^24`, and IL reads one of its constants |

## Left out

- The `mrs`/`msr` inline assembly in `get` and `set`, and its `volatile`
  flag. `SystemRegister` keeps the contents in a field; instruction
  emission and compiler ordering are not modelled.
- The register's hardware meaning. The hardware may change a register
  between two accesses, and writes to some bits may be ignored. The model
  treats a register as plain storage.
- Concurrency: `write` is a read-modify-write and is not atomic against
  interrupts or other cores. The model is sequential.
- The access notes "read-only" (src/register/el1/clidr_el1.rs:10 and
  src/register/el1/csselr_el1.rs:10). The macro generates `write` for every
  register, so nothing enforces them, and the model does not claim writes
  are blocked.
- src/instructions.rs: single-instruction assembly wrappers for hardware
  events and barriers, with no logic.
- Module wiring: src/lib.rs and the `mod.rs` files, and the doc attributes
  the macro copies.
- The internals of `RegisterField` and `RegisterFieldValue` from the
  `ruspiro_register` crate. That crate is not part of this model. The
  model gives them only the behaviour the macros use.
  - `&` on field values is not modelled.
  - `==` is modelled as a comparison of decoded values.
- The Rust compile-time overflow of `(1 << n) - 1` when `n` equals the
  register width, and shifts by the width or more. No table here declares
  such a field. `FieldOfPlaceable` states when a field's mask fits.
- RegisterMacros.SystemRegister.Write: its postconditions about kept and set
  bits are stated only for masked values. These are the only values `new`
  can build; for any other value only the stored contents are stated.
