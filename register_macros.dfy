/**
 * The register-field mechanism that `define_aarch64_register!` generates for
 * every system register: field constants built by `register_field!`, field
 * values built by `with_value` and by the symbolic constants, the `|`
 * composition of field values, and the masked `read` and read-modify-write
 * `write` of `impl_system_register_rw!` over a register's raw value.
 *
 * `RegisterField` and `RegisterFieldValue` come from the `ruspiro_register`
 * crate; they are given here exactly the behaviour the macros rely on.
 */
module RegisterMacros {
  import opened Bits

  datatype Option<T> = None | Some(value: T)

  /** `RegisterField<T>`: a right-aligned local mask and the offset it sits at. */
  datatype Field = Field(width: Width, localMask: Word, shift: nat)
  {
    predicate WellFormed()
    {
      |localMask| == Size(width)
    }

    /** `mask()`: the local mask shifted into register position. */
    function Mask(): Word
    {
      Shl(localMask, shift)
    }

    /** No set bit of the local mask is shifted past the top of the register. */
    predicate Placeable()
      requires WellFormed()
    {
      forall i :: 0 <= i < |localMask| && localMask[i] ==> i + shift < |localMask|
    }
  }

  /** `RegisterFieldValue<T>`: a field and its right-aligned value. */
  datatype FieldValue = FieldValue(field: Field, value: Word)
  {
    predicate WellFormed()
    {
      field.WellFormed() && |value| == Size(field.width)
    }

    /** `mask()` delegates to the field. */
    function Mask(): Word
    {
      field.Mask()
    }

    /** `raw_value()`: the value shifted into register position. */
    function RawValue(): Word
    {
      Shl(value, field.shift)
    }
  }

  /** `RegisterFieldValue::new(field, value)` keeps only the bits of the local mask. */
  function NewValue(f: Field, v: Word): (fv: FieldValue)
    requires f.WellFormed() && |v| == Size(f.width)
    ensures fv.WellFormed() && fv.field == f
    ensures Within(fv.value, f.localMask)
    ensures forall i :: 0 <= i < |v| && f.localMask[i] ==> fv.value[i] == v[i]
  {
    FieldValue(f, And(v, f.localMask))
  }

  /** The width of a declared field: `BITS(n)`, or one bit without `BITS`. */
  function BitCount(bits: Option<nat>): nat
  {
    if bits.Some? then bits.value else 1
  }

  /**
   * `register_field!`: `OFFSET(o)` gives local mask `1`, `OFFSET(o) BITS(n)`
   * gives `(1 << n) - 1`, both at shift `o`.
   */
  function FieldOf(w: Width, offset: nat, bits: Option<nat>): Field
  {
    Field(w, Low(if bits.Some? then bits.value else 1, Size(w)), offset)
  }

  /** `with_value(v)`, and every symbolic constant `NAME = v` of a field. */
  function WithValue(f: Field, v: nat): (fv: FieldValue)
    requires f.WellFormed()
    ensures fv.WellFormed() && fv.field == f
  {
    NewValue(f, FromNat(v, Size(f.width)))
  }

  /** `read(field)` on raw contents `raw`: `(raw & mask()) >> shift()`, wrapped by `new`. */
  function ReadField(f: Field, raw: Word): (fv: FieldValue)
    requires f.WellFormed() && |raw| == Size(f.width)
    ensures Masked(fv) && fv.field == f
  {
    NewValue(f, Shr(And(raw, f.Mask()), f.shift))
  }

  /** The raw contents `write(fv)` stores: `(raw & !fv.mask()) | fv.raw_value()`. */
  function WriteRaw(raw: Word, fv: FieldValue): (x: Word)
    requires fv.WellFormed() && |raw| == Size(fv.field.width)
    ensures |x| == |raw|
  {
    Or(And(raw, Not(fv.Mask())), fv.RawValue())
  }

  /**
   * `a | b`: a field whose local mask is the union of both register-position
   * masks, at shift 0, holding the union of both raw values.
   */
  function Combine(a: FieldValue, b: FieldValue): (c: FieldValue)
    requires a.WellFormed() && b.WellFormed() && a.field.width == b.field.width
    ensures Masked(c) && c.field.width == a.field.width && c.field.shift == 0
  {
    NewValue(Field(a.field.width, Or(a.Mask(), b.Mask()), 0), Or(a.RawValue(), b.RawValue()))
  }

  /** `==` on field values compares the decoded values only. */
  predicate SameValue(a: FieldValue, b: FieldValue): (r: bool)
    ensures a == b ==> r
    ensures r ==> ToNat(a.value) == ToNat(b.value)
  {
    a.value == b.value
  }

  /** A field value as `new` builds it: no bit outside the local mask. */
  predicate Masked(fv: FieldValue)
  {
    fv.WellFormed() && Within(fv.value, fv.field.localMask)
  }

  // ---------------------------------------------------------------------
  // Field values

  /** `new` is idempotent: masking an already masked value changes nothing. */
  lemma NewValueIdempotent(f: Field, v: Word)
    requires f.WellFormed() && |v| == Size(f.width)
    ensures NewValue(f, NewValue(f, v).value) == NewValue(f, v)
  {
    var a := NewValue(f, v).value;
    assert NewValue(f, a).value == a;
  }

  /** A value that already lies within the local mask is kept as it is. */
  lemma NewValueKeepsValid(fv: FieldValue)
    requires Masked(fv)
    ensures NewValue(fv.field, fv.value) == fv
  {
    assert NewValue(fv.field, fv.value).value == fv.value;
  }

  /** A valid value, shifted into position, lies within the field's mask. */
  lemma RawValueWithinMask(fv: FieldValue)
    requires Masked(fv)
    ensures Within(fv.RawValue(), fv.Mask())
  {
  }

  // ---------------------------------------------------------------------
  // read

  /**
   * `read` right-aligns the field: the value is `(raw >> shift) & localMask`,
   * so it lies within the local mask whatever the raw contents.
   */
  lemma ReadIsShiftThenMask(f: Field, raw: Word)
    requires f.WellFormed() && |raw| == Size(f.width)
    ensures ReadField(f, raw).value == And(Shr(raw, f.shift), f.localMask)
    ensures Masked(ReadField(f, raw))
  {
    var r := ReadField(f, raw).value;
    var e := And(Shr(raw, f.shift), f.localMask);
    assert forall j | 0 <= j < |r| :: r[j] == e[j] by {
      forall j | 0 <= j < |r|
        ensures r[j] == e[j]
      {
        if j + f.shift < |raw| {
          assert f.Mask()[j + f.shift] == f.localMask[j];
        }
      }
    }
  }

  /** `read` depends only on the raw bits under the field's mask. */
  lemma ReadDependsOnlyOnMask(f: Field, raw1: Word, raw2: Word)
    requires f.WellFormed() && |raw1| == |raw2| == Size(f.width)
    requires And(raw1, f.Mask()) == And(raw2, f.Mask())
    ensures ReadField(f, raw1) == ReadField(f, raw2)
  {
  }

  // ---------------------------------------------------------------------
  // write

  /** `write` keeps every raw bit outside the value's mask. */
  lemma WritePreservesOutside(raw: Word, fv: FieldValue)
    requires Masked(fv) && |raw| == Size(fv.field.width)
    ensures And(WriteRaw(raw, fv), Not(fv.Mask())) == And(raw, Not(fv.Mask()))
    ensures forall i :: 0 <= i < |raw| && !fv.Mask()[i] ==> WriteRaw(raw, fv)[i] == raw[i]
  {
    var w := WriteRaw(raw, fv);
    assert forall i | 0 <= i < |raw| && !fv.Mask()[i] :: w[i] == raw[i];
    assert forall i | 0 <= i < |raw| :: And(w, Not(fv.Mask()))[i] == And(raw, Not(fv.Mask()))[i];
  }

  /** Under the mask, `write` stores exactly the raw value of a valid field value. */
  lemma WriteSetsMask(raw: Word, fv: FieldValue)
    requires Masked(fv) && |raw| == Size(fv.field.width)
    ensures And(WriteRaw(raw, fv), fv.Mask()) == fv.RawValue()
  {
    var w := WriteRaw(raw, fv);
    assert forall i | 0 <= i < |raw| :: And(w, fv.Mask())[i] == fv.RawValue()[i];
  }

  /**
   * Round trip: after writing a valid value of a placeable field, reading
   * that field gives the value back.
   */
  lemma ReadAfterWrite(raw: Word, fv: FieldValue)
    requires Masked(fv) && fv.field.Placeable() && |raw| == Size(fv.field.width)
    ensures ReadField(fv.field, WriteRaw(raw, fv)) == fv
  {
    var f := fv.field;
    var w := WriteRaw(raw, fv);
    ReadIsShiftThenMask(f, w);
    var r := ReadField(f, w).value;
    assert forall j | 0 <= j < |r| :: r[j] == fv.value[j] by {
      forall j | 0 <= j < |r|
        ensures r[j] == fv.value[j]
      {
        if f.localMask[j] {
          assert f.Mask()[j + f.shift];
          assert w[j + f.shift] == fv.value[j];
        }
      }
    }
  }

  /** `write(f.with_value(v))` then `read(f)` gives `v` masked to the field. */
  lemma ReadAfterWriteWithValue(raw: Word, f: Field, v: nat)
    requires f.WellFormed() && f.Placeable() && |raw| == Size(f.width)
    ensures ReadField(f, WriteRaw(raw, WithValue(f, v))) == NewValue(f, FromNat(v, Size(f.width)))
  {
    ReadAfterWrite(raw, WithValue(f, v));
  }

  /** Idempotence: writing back what was just read leaves the raw contents as they were. */
  lemma WriteOfReadIsIdentity(f: Field, raw: Word)
    requires f.WellFormed() && |raw| == Size(f.width)
    ensures WriteRaw(raw, ReadField(f, raw)) == raw
  {
    var fv := ReadField(f, raw);
    var w := WriteRaw(raw, fv);
    ReadIsShiftThenMask(f, raw);
    assert forall i | 0 <= i < |raw| :: w[i] == raw[i] by {
      forall i | 0 <= i < |raw|
        ensures w[i] == raw[i]
      {
        if f.Mask()[i] {
          assert fv.RawValue()[i] == fv.value[i - f.shift];
        }
      }
    }
  }

  /** A second write to the same field overrides the first. */
  lemma WriteTwice(raw: Word, a: FieldValue, b: FieldValue)
    requires Masked(a) && Masked(b) && a.field == b.field && |raw| == Size(a.field.width)
    ensures WriteRaw(WriteRaw(raw, a), b) == WriteRaw(raw, b)
  {
    var x := WriteRaw(WriteRaw(raw, a), b);
    var y := WriteRaw(raw, b);
    assert forall i | 0 <= i < |raw| :: x[i] == y[i];
  }

  // ---------------------------------------------------------------------
  // Several fields of one register

  /** The masks of two fields share no bit. */
  predicate FieldsDisjoint(f: Field, g: Field)
    requires f.WellFormed() && g.WellFormed() && f.width == g.width
  {
    Disjoint(f.Mask(), g.Mask())
  }

  /** Writing one field does not change what another, disjoint field reads. */
  lemma ReadOtherFieldAfterWrite(raw: Word, fv: FieldValue, g: Field)
    requires Masked(fv) && g.WellFormed() && g.width == fv.field.width
    requires |raw| == Size(g.width) && FieldsDisjoint(fv.field, g)
    ensures ReadField(g, WriteRaw(raw, fv)) == ReadField(g, raw)
  {
    var w := WriteRaw(raw, fv);
    assert forall i | 0 <= i < |raw| :: And(w, g.Mask())[i] == And(raw, g.Mask())[i];
    ReadDependsOnlyOnMask(g, w, raw);
  }

  /** Writes to disjoint fields commute. */
  lemma WritesCommute(raw: Word, a: FieldValue, b: FieldValue)
    requires Masked(a) && Masked(b) && a.field.width == b.field.width
    requires |raw| == Size(a.field.width) && FieldsDisjoint(a.field, b.field)
    ensures WriteRaw(WriteRaw(raw, a), b) == WriteRaw(WriteRaw(raw, b), a)
  {
    var x := WriteRaw(WriteRaw(raw, a), b);
    var y := WriteRaw(WriteRaw(raw, b), a);
    assert forall i | 0 <= i < |raw| :: x[i] == y[i];
  }

  // ---------------------------------------------------------------------
  // Composite values, `a | b`

  /** The combined value's mask and raw value are the unions of the operands'. */
  lemma CombineMaskAndRawValue(a: FieldValue, b: FieldValue)
    requires Masked(a) && Masked(b) && a.field.width == b.field.width
    ensures Masked(Combine(a, b)) && Combine(a, b).field.Placeable()
    ensures Combine(a, b).Mask() == Or(a.Mask(), b.Mask())
    ensures Combine(a, b).RawValue() == Or(a.RawValue(), b.RawValue())
  {
    var c := Combine(a, b);
    assert forall i | 0 <= i < |c.value| :: c.Mask()[i] == Or(a.Mask(), b.Mask())[i];
    assert forall i | 0 <= i < |c.value| :: c.RawValue()[i] == Or(a.RawValue(), b.RawValue())[i];
  }

  /** Writing `a | b` is writing `a` and then `b`. */
  lemma CombinedWriteIsSequential(raw: Word, a: FieldValue, b: FieldValue)
    requires Masked(a) && Masked(b) && a.field.width == b.field.width
    requires |raw| == Size(a.field.width) && FieldsDisjoint(a.field, b.field)
    ensures WriteRaw(raw, Combine(a, b)) == WriteRaw(WriteRaw(raw, a), b)
  {
    CombineMaskAndRawValue(a, b);
    var x := WriteRaw(raw, Combine(a, b));
    var y := WriteRaw(WriteRaw(raw, a), b);
    assert forall i | 0 <= i < |raw| :: x[i] == y[i];
  }

  /**
   * After `write(a | b)` for values of disjoint placeable fields, reading
   * each field gives its own value back, and every bit outside both masks
   * is preserved.
   */
  lemma CombinedWriteReadsBoth(raw: Word, a: FieldValue, b: FieldValue)
    requires Masked(a) && Masked(b) && a.field.width == b.field.width
    requires a.field.Placeable() && b.field.Placeable()
    requires |raw| == Size(a.field.width) && FieldsDisjoint(a.field, b.field)
    ensures ReadField(a.field, WriteRaw(raw, Combine(a, b))) == a
    ensures ReadField(b.field, WriteRaw(raw, Combine(a, b))) == b
    ensures forall i :: 0 <= i < |raw| && !a.Mask()[i] && !b.Mask()[i] ==>
      WriteRaw(raw, Combine(a, b))[i] == raw[i]
  {
    CombinedWriteIsSequential(raw, a, b);
    var ra := WriteRaw(raw, a);
    ReadAfterWrite(raw, a);
    ReadOtherFieldAfterWrite(ra, b, a.field);
    ReadAfterWrite(ra, b);
    WritePreservesOutside(raw, a);
    WritePreservesOutside(ra, b);
  }

  // ---------------------------------------------------------------------
  // Fields declared by `register_field!`

  /**
   * `register_field!` gives local mask `1` to `OFFSET(o)` and `(1 << n) - 1`
   * to `OFFSET(o) BITS(n)`, at shift `o`; `BITS(1)` and no `BITS` agree.
   */
  lemma FieldOfMask(w: Width, offset: nat, bits: Option<nat>)
    requires BitCount(bits) <= Size(w)
    ensures FieldOf(w, offset, bits).WellFormed() && FieldOf(w, offset, bits).shift == offset
    ensures bits.None? ==> ToNat(FieldOf(w, offset, bits).localMask) == 1
    ensures bits.Some? ==> ToNat(FieldOf(w, offset, bits).localMask) == Pow2(bits.value) - 1
    ensures FieldOf(w, offset, None) == FieldOf(w, offset, Some(1))
  {
    ToNatLow(BitCount(bits), Size(w));
  }

  /** The register bits a declared field covers: `offset .. offset + n - 1`. */
  lemma FieldOfMaskBits(w: Width, offset: nat, bits: Option<nat>)
    ensures forall i :: 0 <= i < Size(w) ==>
      (FieldOf(w, offset, bits).Mask()[i] <==> offset <= i < offset + BitCount(bits))
  {
  }

  /** A declared field of at least one bit is placeable exactly when it ends inside the register. */
  lemma FieldOfPlaceable(w: Width, offset: nat, bits: Option<nat>)
    requires 1 <= BitCount(bits) <= Size(w)
    ensures FieldOf(w, offset, bits).WellFormed()
    ensures FieldOf(w, offset, bits).Placeable() <==> offset + BitCount(bits) <= Size(w)
  {
    var f := FieldOf(w, offset, bits);
    if f.Placeable() {
      assert f.localMask[BitCount(bits) - 1];
    }
  }

  /** Two declared, in-range fields have disjoint masks exactly when their bit ranges do not overlap. */
  lemma FieldOfDisjoint(w: Width, o1: nat, b1: Option<nat>, o2: nat, b2: Option<nat>)
    requires 1 <= BitCount(b1) && o1 + BitCount(b1) <= Size(w)
    requires 1 <= BitCount(b2) && o2 + BitCount(b2) <= Size(w)
    ensures FieldsDisjoint(FieldOf(w, o1, b1), FieldOf(w, o2, b2)) <==>
      (o1 + BitCount(b1) <= o2 || o2 + BitCount(b2) <= o1)
  {
    var f, g := FieldOf(w, o1, b1), FieldOf(w, o2, b2);
    FieldOfMaskBits(w, o1, b1);
    FieldOfMaskBits(w, o2, b2);
    if !(o1 + BitCount(b1) <= o2 || o2 + BitCount(b2) <= o1) {
      var i := if o1 < o2 then o2 else o1;
      assert f.Mask()[i] && g.Mask()[i];
    }
  }

  /**
   * `with_value(v)` and the symbolic constants keep `v % 2^n`: bits of `v`
   * beyond the field's width are dropped.
   */
  lemma WithValueNumber(w: Width, offset: nat, bits: Option<nat>, v: nat)
    requires BitCount(bits) <= Size(w)
    ensures ToNat(WithValue(FieldOf(w, offset, bits), v).value) == v % Pow2(BitCount(bits))
  {
    var n, len := BitCount(bits), Size(w);
    FromNatAndLow(v, n, len);
    ToNatFromNat(v % Pow2(n), len);
    Pow2Mono(n, len);
    ModOfSmaller(v % Pow2(n), Pow2(len));
  }

  /** A value that fits its declared field is kept exactly, and so is its number. */
  lemma WithValueExact(w: Width, offset: nat, bits: Option<nat>, v: nat)
    requires BitCount(bits) <= Size(w) && v < Pow2(BitCount(bits))
    ensures ToNat(WithValue(FieldOf(w, offset, bits), v).value) == v
    ensures WithValue(FieldOf(w, offset, bits), v).value == FromNat(v, Size(w))
  {
    WithValueNumber(w, offset, bits, v);
    ModOfSmaller(v, Pow2(BitCount(bits)));
    var len := Size(w);
    Pow2Mono(BitCount(bits), len);
    ToNatFromNat(v, len);
    ModOfSmaller(v, Pow2(len));
    ToNatInjective(WithValue(FieldOf(w, offset, bits), v).value, FromNat(v, len));
  }

  /** `read` of a declared field gives the field's bits of the raw value, right-aligned. */
  lemma ReadFieldBits(w: Width, offset: nat, bits: Option<nat>, raw: Word)
    requires offset + BitCount(bits) <= Size(w) && |raw| == Size(w)
    ensures ReadField(FieldOf(w, offset, bits), raw).value ==
      raw[offset..offset + BitCount(bits)] + Zeros(Size(w) - BitCount(bits))
    ensures ToNat(ReadField(FieldOf(w, offset, bits), raw).value) ==
      ToNat(raw[offset..offset + BitCount(bits)])
  {
    ReadIsShiftThenMask(FieldOf(w, offset, bits), raw);
    ToNatZeroExtend(raw[offset..offset + BitCount(bits)], Size(w) - BitCount(bits));
  }

  /** `read` of a declared field gives the number in its bits: `(raw >> offset) % 2^n`. */
  lemma ReadFieldNumber(w: Width, offset: nat, bits: Option<nat>, raw: Word)
    requires offset + BitCount(bits) <= Size(w) && |raw| == Size(w)
    ensures ToNat(ReadField(FieldOf(w, offset, bits), raw).value) == Extract(ToNat(raw), offset, BitCount(bits))
    ensures ToNat(ReadField(FieldOf(w, offset, bits), raw).value) < Pow2(BitCount(bits))
  {
    ReadFieldBits(w, offset, bits, raw);
    ToNatSlice(raw, offset, BitCount(bits));
  }

  /**
   * `write(f.with_value(v))` on a declared field stores `v % 2^n` in the
   * field's bits and keeps the bits below and above.
   */
  lemma WriteFieldBits(w: Width, offset: nat, bits: Option<nat>, raw: Word, v: nat)
    requires offset + BitCount(bits) <= Size(w) && |raw| == Size(w)
    ensures |WriteRaw(raw, WithValue(FieldOf(w, offset, bits), v))| == Size(w)
    ensures WriteRaw(raw, WithValue(FieldOf(w, offset, bits), v))[..offset] == raw[..offset]
    ensures WriteRaw(raw, WithValue(FieldOf(w, offset, bits), v))[offset + BitCount(bits)..] ==
      raw[offset + BitCount(bits)..]
    ensures ToNat(WriteRaw(raw, WithValue(FieldOf(w, offset, bits), v))[offset..offset + BitCount(bits)]) ==
      v % Pow2(BitCount(bits))
  {
    WriteKeepsBelow(w, offset, bits, raw, v);
    WriteKeepsAbove(w, offset, bits, raw, v);
    WriteFieldSlice(w, offset, bits, raw, v);
    WithValueLowBits(w, offset, bits, v);
  }

  lemma WriteKeepsBelow(w: Width, offset: nat, bits: Option<nat>, raw: Word, v: nat)
    requires offset + BitCount(bits) <= Size(w) && |raw| == Size(w)
    ensures WriteRaw(raw, WithValue(FieldOf(w, offset, bits), v))[..offset] == raw[..offset]
  {
  }

  lemma WriteKeepsAbove(w: Width, offset: nat, bits: Option<nat>, raw: Word, v: nat)
    requires offset + BitCount(bits) <= Size(w) && |raw| == Size(w)
    ensures WriteRaw(raw, WithValue(FieldOf(w, offset, bits), v))[offset + BitCount(bits)..] ==
      raw[offset + BitCount(bits)..]
  {
  }

  lemma WriteFieldSlice(w: Width, offset: nat, bits: Option<nat>, raw: Word, v: nat)
    requires offset + BitCount(bits) <= Size(w) && |raw| == Size(w)
    ensures WriteRaw(raw, WithValue(FieldOf(w, offset, bits), v))[offset..offset + BitCount(bits)] ==
      WithValue(FieldOf(w, offset, bits), v).value[..BitCount(bits)]
  {
    var n := BitCount(bits);
    var fv := WithValue(FieldOf(w, offset, bits), v);
    var x := WriteRaw(raw, fv);
    FieldOfMaskBits(w, offset, bits);
    forall i | 0 <= i < n
      ensures x[offset..offset + n][i] == fv.value[..n][i]
    {
      assert fv.Mask()[offset + i];
    }
  }

  /** The low `n` bits of `with_value(v)` hold `v % 2^n`. */
  lemma WithValueLowBits(w: Width, offset: nat, bits: Option<nat>, v: nat)
    requires BitCount(bits) <= Size(w)
    ensures ToNat(WithValue(FieldOf(w, offset, bits), v).value[..BitCount(bits)]) == v % Pow2(BitCount(bits))
  {
    var n, len := BitCount(bits), Size(w);
    var val := WithValue(FieldOf(w, offset, bits), v).value;
    assert val == val[..n] + Zeros(len - n);
    ToNatZeroExtend(val[..n], len - n);
    WithValueNumber(w, offset, bits, v);
  }

  /**
   * `write(f.with_value(v))` on a declared field replaces the number in the
   * field's bits by `v % 2^n` and keeps the rest of the raw number.
   */
  lemma WriteFieldNumber(w: Width, offset: nat, bits: Option<nat>, raw: Word, v: nat)
    requires offset + BitCount(bits) <= Size(w) && |raw| == Size(w)
    ensures ToNat(WriteRaw(raw, WithValue(FieldOf(w, offset, bits), v))) ==
      Insert(ToNat(raw), offset, BitCount(bits), v)
  {
    var n := BitCount(bits);
    var x := WriteRaw(raw, WithValue(FieldOf(w, offset, bits), v));
    var before, after := ToNat(raw[offset..offset + n]), ToNat(x[offset..offset + n]);
    assert ToNat(x) == ToNat(raw) - Pow2(offset) * before + Pow2(offset) * after by {
      WriteFieldBits(w, offset, bits, raw, v);
      ToNatReplaceSlice(x, raw, offset, n);
    }
    assert after == v % Pow2(n) by {
      WriteFieldBits(w, offset, bits, raw, v);
    }
    assert before == (ToNat(raw) / Pow2(offset)) % Pow2(n) by {
      ToNatSlice(raw, offset, n);
    }
  }

  /** The raw value of a valid value of a declared field is its number times 2^offset. */
  lemma RawValueNumber(fv: FieldValue, offset: nat, bits: Option<nat>)
    requires Masked(fv) && fv.field == FieldOf(fv.field.width, offset, bits)
    requires offset + BitCount(bits) <= Size(fv.field.width)
    ensures ToNat(fv.RawValue()) == Pow2(offset) * ToNat(fv.value)
  {
    ToNatShl(fv.value, offset, BitCount(bits));
  }

  /** The raw value of `a | b` for disjoint fields is the sum of both raw values. */
  lemma CombineRawNumber(a: FieldValue, b: FieldValue)
    requires Masked(a) && Masked(b) && a.field.width == b.field.width
    requires FieldsDisjoint(a.field, b.field)
    ensures ToNat(Combine(a, b).RawValue()) == ToNat(a.RawValue()) + ToNat(b.RawValue())
  {
    CombineMaskAndRawValue(a, b);
    RawValueWithinMask(a);
    RawValueWithinMask(b);
    assert Disjoint(a.RawValue(), b.RawValue());
    ToNatOrDisjoint(a.RawValue(), b.RawValue());
  }

  // ---------------------------------------------------------------------
  // Register definitions: the input of `define_aarch64_register!`

  /** A symbolic constant `NAME = value` in a field's list. */
  datatype Symbol = Symbol(name: string, value: nat)

  /** A field `NAME OFFSET(o) [BITS(n)] [ symbols ]`. */
  datatype FieldDef = FieldDef(name: string, offset: nat, bits: Option<nat>, symbols: seq<Symbol>)
  {
    /** One past the highest register bit the field covers. */
    function End(): nat
    {
      offset + BitCount(bits)
    }
  }

  /** `name<T> { fields }`: the register's name, its integer width and its fields. */
  datatype RegisterDef = RegisterDef(name: string, width: Width, fields: seq<FieldDef>)
  {
    /** `$field::Field`, built by `register_field!`. */
    function FieldConst(fd: FieldDef): (f: Field)
      ensures f.WellFormed() && f.width == width && f.shift == fd.offset
    {
      FieldOf(width, fd.offset, fd.bits)
    }

    /** `$field::with_value(v)`. */
    function FieldWithValue(fd: FieldDef, v: nat): (fv: FieldValue)
      ensures Masked(fv) && fv.field == FieldConst(fd)
    {
      WithValue(FieldConst(fd), v)
    }

    /** `$field::$enum`: the same constructor as `with_value`, applied to the symbol's value. */
    function Constant(fd: FieldDef, s: Symbol): (fv: FieldValue)
      ensures Masked(fv) && fv.field == FieldConst(fd)
    {
      FieldWithValue(fd, s.value)
    }

    /**
     * Every field is at least one bit wide and ends inside the register, the
     * fields are listed in ascending, non-overlapping order, and every
     * field's symbols fit its width and are pairwise distinct.
     */
    predicate WellFormed()
    {
      InRange(fields, Size(width)) && Ascending(fields) && SymbolsFit(fields)
    }
  }

  predicate InRange(fields: seq<FieldDef>, size: nat)
  {
    |fields| == 0 ||
    (1 <= BitCount(fields[0].bits) && fields[0].End() <= size && InRange(fields[1..], size))
  }

  predicate Ascending(fields: seq<FieldDef>)
  {
    |fields| <= 1 || (fields[0].End() <= fields[1].offset && Ascending(fields[1..]))
  }

  /** Every symbol's value fits in `BitCount(bits)` bits. */
  predicate ValuesFit(symbols: seq<Symbol>, bits: Option<nat>)
  {
    |symbols| == 0 || (symbols[0].value < Pow2(BitCount(bits)) && ValuesFit(symbols[1..], bits))
  }

  predicate HasValue(symbols: seq<Symbol>, v: nat)
  {
    |symbols| > 0 && (symbols[0].value == v || HasValue(symbols[1..], v))
  }

  predicate DistinctValues(symbols: seq<Symbol>)
  {
    |symbols| == 0 || (!HasValue(symbols[1..], symbols[0].value) && DistinctValues(symbols[1..]))
  }

  predicate SymbolsFit(fields: seq<FieldDef>)
  {
    |fields| == 0 ||
    (ValuesFit(fields[0].symbols, fields[0].bits) &&
     DistinctValues(fields[0].symbols) && SymbolsFit(fields[1..]))
  }

  /** Every number from `k` up to `bound - 1` is the value of some symbol. */
  predicate CoversFrom(symbols: seq<Symbol>, k: nat, bound: nat)
    decreases bound - k
  {
    k >= bound || (HasValue(symbols, k) && CoversFrom(symbols, k + 1, bound))
  }

  /** The field's symbols name every encoding of its bits. */
  predicate Covers(fd: FieldDef)
  {
    CoversFrom(fd.symbols, 0, Pow2(BitCount(fd.bits)))
  }

  /** No field covers any of the register bits `lo .. hi - 1`. */
  predicate RangeUncovered(fields: seq<FieldDef>, lo: nat, hi: nat)
  {
    |fields| == 0 ||
    ((fields[0].End() <= lo || hi <= fields[0].offset) && RangeUncovered(fields[1..], lo, hi))
  }

  /** The fields, in order, cover bits `lo .. hi - 1` one after the other without a gap. */
  predicate Tiles(fields: seq<FieldDef>, lo: nat, hi: nat)
  {
    if |fields| == 0 then lo == hi
    else fields[0].offset == lo && Tiles(fields[1..], fields[0].End(), hi)
  }

  lemma {:induction false} InRangeAll(fields: seq<FieldDef>, size: nat)
    ensures InRange(fields, size) <==>
      forall k :: 0 <= k < |fields| ==> 1 <= BitCount(fields[k].bits) && fields[k].End() <= size
  {
    if |fields| > 0 {
      InRangeAll(fields[1..], size);
      assert forall k :: 1 <= k < |fields| ==> fields[k] == fields[1..][k - 1];
    }
  }

  /** Ascending order between neighbours gives it between any two fields. */
  lemma {:induction false} AscendingOrdered(fields: seq<FieldDef>)
    requires Ascending(fields)
    ensures forall i, j :: 0 <= i < j < |fields| ==> fields[i].End() <= fields[j].offset
  {
    if |fields| > 1 {
      var tail := fields[1..];
      AscendingOrdered(tail);
      forall i, j | 0 <= i < j < |fields|
        ensures fields[i].End() <= fields[j].offset
      {
        if i == 0 && j > 1 {
          assert tail[0].End() <= tail[j - 1].offset;
        } else if i > 0 {
          assert tail[i - 1].End() <= tail[j - 1].offset;
        }
      }
    }
  }

  lemma {:induction false} ValuesFitAll(symbols: seq<Symbol>, bits: Option<nat>)
    ensures ValuesFit(symbols, bits) <==> forall s :: s in symbols ==> s.value < Pow2(BitCount(bits))
  {
    if |symbols| > 0 {
      ValuesFitAll(symbols[1..], bits);
      assert symbols == [symbols[0]] + symbols[1..];
    }
  }

  lemma {:induction false} HasValueExists(symbols: seq<Symbol>, v: nat)
    ensures HasValue(symbols, v) <==> exists s :: s in symbols && s.value == v
  {
    if |symbols| > 0 {
      HasValueExists(symbols[1..], v);
      assert symbols == [symbols[0]] + symbols[1..];
    }
  }

  lemma {:induction false} DistinctValuesAll(symbols: seq<Symbol>)
    ensures DistinctValues(symbols) <==>
      forall i, j :: 0 <= i < j < |symbols| ==> symbols[i].value != symbols[j].value
  {
    if |symbols| > 0 {
      var tail := symbols[1..];
      DistinctValuesAll(tail);
      HasValueExists(tail, symbols[0].value);
      if DistinctValues(symbols) {
        forall i, j | 0 <= i < j < |symbols|
          ensures symbols[i].value != symbols[j].value
        {
          if i == 0 {
            assert symbols[j] == tail[j - 1] && symbols[j] in tail;
          } else {
            assert symbols[i] == tail[i - 1] && symbols[j] == tail[j - 1];
          }
        }
      } else if HasValue(tail, symbols[0].value) {
        var s :| s in tail && s.value == symbols[0].value;
        var j :| 0 <= j < |tail| && tail[j] == s;
        assert symbols[j + 1] == s;
      } else {
        var i, j :| 0 <= i < j < |tail| && tail[i].value == tail[j].value;
        assert symbols[i + 1] == tail[i] && symbols[j + 1] == tail[j];
      }
    }
  }

  lemma {:induction false} SymbolsFitAll(fields: seq<FieldDef>)
    ensures SymbolsFit(fields) <==> forall k :: 0 <= k < |fields| ==>
      ValuesFit(fields[k].symbols, fields[k].bits) && DistinctValues(fields[k].symbols)
  {
    if |fields| > 0 {
      SymbolsFitAll(fields[1..]);
      assert forall k :: 1 <= k < |fields| ==> fields[k] == fields[1..][k - 1];
    }
  }

  lemma {:induction false} CoversFromHasValue(symbols: seq<Symbol>, k: nat, bound: nat, v: nat)
    requires CoversFrom(symbols, k, bound) && k <= v < bound
    ensures HasValue(symbols, v)
    decreases bound - k
  {
    if k < v {
      CoversFromHasValue(symbols, k + 1, bound, v);
    }
  }

  lemma {:induction false} RangeUncoveredAll(fields: seq<FieldDef>, lo: nat, hi: nat)
    ensures RangeUncovered(fields, lo, hi) <==>
      forall k :: 0 <= k < |fields| ==> fields[k].End() <= lo || hi <= fields[k].offset
  {
    if |fields| > 0 {
      RangeUncoveredAll(fields[1..], lo, hi);
      assert forall k :: 1 <= k < |fields| ==> fields[k] == fields[1..][k - 1];
    }
  }

  lemma {:induction false} TilesCover(fields: seq<FieldDef>, lo: nat, hi: nat, i: nat)
    requires Tiles(fields, lo, hi) && lo <= i < hi
    ensures exists k :: 0 <= k < |fields| && fields[k].offset <= i < fields[k].End()
  {
    if i >= fields[0].End() {
      TilesCover(fields[1..], fields[0].End(), hi, i);
      var k :| 0 <= k < |fields[1..]| && fields[1..][k].offset <= i < fields[1..][k].End();
      assert fields[k + 1] == fields[1..][k];
    }
  }

  // ---------------------------------------------------------------------
  // Properties every well-formed register definition has

  /**
   * The fields of a well-formed register are placeable and pairwise
   * disjoint, so no shifted mask overflows and no two fields share a bit.
   */
  lemma RegisterFieldsDisjoint(r: RegisterDef)
    requires r.WellFormed()
    ensures forall k :: 0 <= k < |r.fields| ==> r.FieldConst(r.fields[k]).Placeable()
    ensures forall i, j :: 0 <= i < |r.fields| && 0 <= j < |r.fields| && i != j ==>
      FieldsDisjoint(r.FieldConst(r.fields[i]), r.FieldConst(r.fields[j]))
  {
    InRangeAll(r.fields, Size(r.width));
    AscendingOrdered(r.fields);
    forall k | 0 <= k < |r.fields|
      ensures r.FieldConst(r.fields[k]).Placeable()
    {
      FieldOfPlaceable(r.width, r.fields[k].offset, r.fields[k].bits);
    }
    forall i, j | 0 <= i < |r.fields| && 0 <= j < |r.fields| && i != j
      ensures FieldsDisjoint(r.FieldConst(r.fields[i]), r.FieldConst(r.fields[j]))
    {
      var a, b := r.fields[i], r.fields[j];
      FieldOfDisjoint(r.width, a.offset, a.bits, b.offset, b.bits);
    }
  }

  /**
   * A symbolic constant of a well-formed register holds its value
   * unchanged: building it never truncates.
   */
  lemma ConstantExact(r: RegisterDef, fd: FieldDef, s: Symbol)
    requires r.WellFormed() && fd in r.fields && s in fd.symbols
    ensures r.Constant(fd, s).value == FromNat(s.value, Size(r.width))
    ensures ToNat(r.Constant(fd, s).value) == s.value
  {
    InRangeAll(r.fields, Size(r.width));
    SymbolsFitAll(r.fields);
    ValuesFitAll(fd.symbols, fd.bits);
    WithValueExact(r.width, fd.offset, fd.bits, s.value);
  }

  /** Distinct symbols of one field give constants that `==` tells apart. */
  lemma ConstantsDistinct(r: RegisterDef, fd: FieldDef)
    requires r.WellFormed() && fd in r.fields
    ensures forall i, j :: 0 <= i < |fd.symbols| && 0 <= j < |fd.symbols| && i != j ==>
      !SameValue(r.Constant(fd, fd.symbols[i]), r.Constant(fd, fd.symbols[j]))
  {
    SymbolsFitAll(r.fields);
    DistinctValuesAll(fd.symbols);
    forall i, j | 0 <= i < |fd.symbols| && 0 <= j < |fd.symbols| && i != j
      ensures !SameValue(r.Constant(fd, fd.symbols[i]), r.Constant(fd, fd.symbols[j]))
    {
      ConstantExact(r, fd, fd.symbols[i]);
      ConstantExact(r, fd, fd.symbols[j]);
    }
  }

  /**
   * When a field's symbols cover every encoding, whatever the register
   * holds, `read` of that field equals one of its symbolic constants, and
   * only one.
   */
  lemma ReadIsOneConstant(r: RegisterDef, fd: FieldDef, raw: Word)
    requires r.WellFormed() && fd in r.fields && Covers(fd) && |raw| == Size(r.width)
    ensures exists s :: s in fd.symbols && ReadField(r.FieldConst(fd), raw) == r.Constant(fd, s)
    ensures forall i, j ::
      (0 <= i < |fd.symbols| && 0 <= j < |fd.symbols| &&
       ReadField(r.FieldConst(fd), raw) == r.Constant(fd, fd.symbols[i]) &&
       ReadField(r.FieldConst(fd), raw) == r.Constant(fd, fd.symbols[j])) ==> i == j
  {
    ConstantsDistinct(r, fd);
    InRangeAll(r.fields, Size(r.width));
    var fv := ReadField(r.FieldConst(fd), raw);
    var v := ToNat(fv.value);
    ReadFieldNumber(r.width, fd.offset, fd.bits, raw);
    CoversFromHasValue(fd.symbols, 0, Pow2(BitCount(fd.bits)), v);
    HasValueExists(fd.symbols, v);
    var s :| s in fd.symbols && s.value == v;
    ConstantExact(r, fd, s);
    FromNatToNat(fv.value);
  }

  /**
   * Writing any value of any field through `with_value` or a symbolic
   * constant leaves every bit that no field covers as it was.
   */
  lemma WriteKeepsUncovered(r: RegisterDef, fd: FieldDef, v: nat, raw: Word, lo: nat, hi: nat)
    requires fd in r.fields && RangeUncovered(r.fields, lo, hi) && |raw| == Size(r.width)
    ensures forall i :: lo <= i < hi && i < |raw| ==> WriteRaw(raw, r.FieldWithValue(fd, v))[i] == raw[i]
  {
    RangeUncoveredAll(r.fields, lo, hi);
    FieldOfMaskBits(r.width, fd.offset, fd.bits);
    WritePreservesOutside(raw, r.FieldWithValue(fd, v));
  }

  /**
   * Comparing `read(field)` with a symbolic constant, as in
   * `read(EL::Field) == EL::EL2`, tests whether the field's bits of the raw
   * contents hold the constant's number; `==` and full equality agree.
   */
  lemma ReadMatchesConstant(r: RegisterDef, fd: FieldDef, s: Symbol, raw: Word)
    requires r.WellFormed() && fd in r.fields && s in fd.symbols && |raw| == Size(r.width)
    ensures SameValue(ReadField(r.FieldConst(fd), raw), r.Constant(fd, s)) <==>
      Extract(ToNat(raw), fd.offset, BitCount(fd.bits)) == s.value
    ensures ReadField(r.FieldConst(fd), raw) == r.Constant(fd, s) <==>
      SameValue(ReadField(r.FieldConst(fd), raw), r.Constant(fd, s))
  {
    InRangeAll(r.fields, Size(r.width));
    var a, b := ReadField(r.FieldConst(fd), raw).value, r.Constant(fd, s).value;
    assert ToNat(a) == Extract(ToNat(raw), fd.offset, BitCount(fd.bits)) by {
      ReadFieldNumber(r.width, fd.offset, fd.bits, raw);
    }
    assert ToNat(b) == s.value by {
      ConstantExact(r, fd, s);
    }
    ToNatInjective(a, b);
  }

  /** A declared field's register-position mask `mask()` is `((1 << n) - 1) << offset`. */
  lemma FieldMaskNumber(w: Width, offset: nat, bits: Option<nat>)
    requires 1 <= BitCount(bits) && offset + BitCount(bits) <= Size(w)
    ensures ToNat(FieldOf(w, offset, bits).Mask()) == Pow2(offset) * (Pow2(BitCount(bits)) - 1)
  {
    var n := BitCount(bits);
    ToNatLow(n, Size(w));
    ToNatShl(Low(n, Size(w)), offset, n);
  }

  /** `FieldMaskNumber` for a field given by name, with the number computed beforehand. */
  lemma FieldMaskIs(f: Field, w: Width, offset: nat, bits: Option<nat>, m: nat)
    requires f == FieldOf(w, offset, bits)
    requires 1 <= BitCount(bits) && offset + BitCount(bits) <= Size(w)
    requires m == Pow2(offset) * (Pow2(BitCount(bits)) - 1)
    ensures ToNat(f.Mask()) == m
  {
    FieldMaskNumber(w, offset, bits);
  }

  /** Register bit `i` lies under the mask of one of the register's fields. */
  predicate CoveredByField(r: RegisterDef, i: nat)
  {
    i < Size(r.width) && exists k :: 0 <= k < |r.fields| && r.FieldConst(r.fields[k]).Mask()[i]
  }

  /** Fields that tile `lo .. hi - 1` leave none of those bits outside every mask. */
  lemma TiledBitsAreCovered(r: RegisterDef, lo: nat, hi: nat)
    requires Tiles(r.fields, lo, hi) && hi <= Size(r.width)
    ensures forall i: nat :: lo <= i < hi ==> CoveredByField(r, i)
  {
    forall i: nat | lo <= i < hi
      ensures CoveredByField(r, i)
    {
      TilesCover(r.fields, lo, hi, i);
      var k :| 0 <= k < |r.fields| && r.fields[k].offset <= i < r.fields[k].End();
      FieldOfMaskBits(r.width, r.fields[k].offset, r.fields[k].bits);
      assert r.FieldConst(r.fields[k]).Mask()[i];
    }
  }

  // ---------------------------------------------------------------------
  // The generated register module: `get`, `set`, `read` and `write`

  /**
   * One system register. `get` and `set` stand for the `mrs`/`msr`
   * instructions and read or replace the raw contents; `read` and `write`
   * are built on them exactly as `impl_system_register_rw!` builds them.
   */
  class SystemRegister {
    const name: string
    const width: Width
    var raw: Word

    predicate Valid()
      reads this
    {
      |raw| == Size(width)
    }

    constructor (name: string, width: Width, initial: Word)
      requires |initial| == Size(width)
      ensures Valid() && this.name == name && this.width == width && raw == initial
    {
      this.name := name;
      this.width := width;
      raw := initial;
    }

    /** `get()`. */
    method Get() returns (value: Word)
      requires Valid()
      ensures value == raw && |value| == Size(width)
    {
      value := raw;
    }

    /** `set(value)`. */
    method Set(value: Word)
      requires |value| == Size(width)
      modifies this
      ensures Valid() && raw == value
    {
      raw := value;
    }

    /**
     * `read(field)`: the field's bits, right-aligned, within the local mask;
     * the contents are left as they are.
     */
    method Read(field: Field) returns (fv: FieldValue)
      requires Valid() && field.WellFormed() && field.width == width
      ensures fv == ReadField(field, raw)
      ensures Masked(fv) && fv.field == field
      ensures fv.value == And(Shr(raw, field.shift), field.localMask)
    {
      var current := Get();
      fv := NewValue(field, Shr(And(current, field.Mask()), field.shift));
      ReadIsShiftThenMask(field, current);
    }

    /**
     * `write(fv)`: read-modify-write of the contents. Bits outside the
     * value's mask keep their value; under the mask the contents become the
     * value's raw value.
     */
    method Write(fv: FieldValue)
      requires Valid() && fv.WellFormed() && fv.field.width == width
      modifies this
      ensures Valid() && raw == WriteRaw(old(raw), fv)
      ensures Masked(fv) ==> forall i :: 0 <= i < |raw| && !fv.Mask()[i] ==> raw[i] == old(raw)[i]
      ensures Masked(fv) ==> And(raw, fv.Mask()) == fv.RawValue()
    {
      var current := Get();
      Set(Or(And(current, Not(fv.Mask())), fv.RawValue()));
      if Masked(fv) {
        WritePreservesOutside(current, fv);
        WriteSetsMask(current, fv);
      }
    }
  }

  // ---------------------------------------------------------------------
  // The examples in the macros' documentation

  /**
   * The documentation's example register `foo`, 32 bits wide: one-bit BAR at
   * bit 0 with VAL1 = 1 and VAL0 = 0, and two-bit BAZ at bit 1 with VAL1 to
   * VAL3 = 1 to 3.
   */
  const Foo := RegisterDef("foo", U32, [
    FieldDef("BAR", 0, None, [Symbol("VAL1", 0x1), Symbol("VAL0", 0x0)]),
    FieldDef("BAZ", 1, Some(2), [Symbol("VAL1", 0x1), Symbol("VAL2", 0x2), Symbol("VAL3", 0x3)])
  ])

  /** `foo::BAR::VAL1` and `foo::BAZ::VAL2`. */
  const FooBarVal1 := Foo.Constant(Foo.fields[0], Foo.fields[0].symbols[0])
  const FooBazVal2 := Foo.Constant(Foo.fields[1], Foo.fields[1].symbols[1])

  lemma FooWellFormed()
    ensures Foo.WellFormed()
    ensures FieldsDisjoint(FooBarVal1.field, FooBazVal2.field)
    ensures FooBarVal1.value == FromNat(1, 32) && FooBazVal2.value == FromNat(2, 32)
  {
    assert InRange(Foo.fields, 32) && Ascending(Foo.fields) && SymbolsFit(Foo.fields);
    RegisterFieldsDisjoint(Foo);
    assert FooBarVal1.field == Foo.FieldConst(Foo.fields[0]);
    assert FooBazVal2.field == Foo.FieldConst(Foo.fields[1]);
    ConstantExact(Foo, Foo.fields[0], Foo.fields[0].symbols[0]);
    ConstantExact(Foo, Foo.fields[1], Foo.fields[1].symbols[1]);
  }

  /** After `foo::write(foo::BAR::VAL1 | foo::BAZ::VAL2)`, BAR reads VAL1 and BAZ reads VAL2. */
  lemma FooExampleReads(raw: Word)
    requires |raw| == 32
    ensures ReadField(FooBarVal1.field, WriteRaw(raw, Combine(FooBarVal1, FooBazVal2))) == FooBarVal1
    ensures ReadField(FooBazVal2.field, WriteRaw(raw, Combine(FooBarVal1, FooBazVal2))) == FooBazVal2
  {
    FooWellFormed();
    RegisterFieldsDisjoint(Foo);
    assert FooBarVal1.field.Placeable() by {
      assert FooBarVal1.field == Foo.FieldConst(Foo.fields[0]);
    }
    assert FooBazVal2.field.Placeable() by {
      assert FooBazVal2.field == Foo.FieldConst(Foo.fields[1]);
    }
    CombinedWriteReadsBoth(raw, FooBarVal1, FooBazVal2);
  }

  /**
   * `foo::write(foo::BAR::VAL1 | foo::BAZ::VAL2)` sets bits 0..2 to `0b101`
   * and keeps bits 3..31.
   */
  lemma FooExampleBits(raw: Word)
    requires |raw| == 32
    ensures ToNat(WriteRaw(raw, Combine(FooBarVal1, FooBazVal2))[..3]) == 0x5
    ensures WriteRaw(raw, Combine(FooBarVal1, FooBazVal2))[3..] == raw[3..]
  {
    var y := WriteRaw(raw, Combine(FooBarVal1, FooBazVal2));
    var z := WriteRaw(WriteRaw(raw, WithValue(FieldOf(U32, 0, None), 1)), WithValue(FieldOf(U32, 1, Some(2)), 2));
    FooExampleIsSequential(raw);
    FooSequentialBits(raw);
    assert y[..3] == z[0..3];
  }

  lemma FooExampleIsSequential(raw: Word)
    requires |raw| == 32
    ensures WriteRaw(raw, Combine(FooBarVal1, FooBazVal2)) ==
      WriteRaw(WriteRaw(raw, WithValue(FieldOf(U32, 0, None), 1)), WithValue(FieldOf(U32, 1, Some(2)), 2))
  {
    FooWellFormed();
    CombinedWriteIsSequential(raw, FooBarVal1, FooBazVal2);
  }

  lemma FooSequentialBits(raw: Word)
    requires |raw| == 32
    ensures ToNat(WriteRaw(WriteRaw(raw, WithValue(FieldOf(U32, 0, None), 1)),
                           WithValue(FieldOf(U32, 1, Some(2)), 2))[0..3]) == 0x5
    ensures WriteRaw(WriteRaw(raw, WithValue(FieldOf(U32, 0, None), 1)),
                     WithValue(FieldOf(U32, 1, Some(2)), 2))[3..] == raw[3..]
  {
    AdjacentWrites(U32, 0, None, Some(2), raw, 1, 2);
    assert Pow2(BitCount(None)) == 2 && Pow2(BitCount(Some(2))) == 4;
  }

  /**
   * Writing `v1` into an `n1`-bit field at `o` and then `v2` into the
   * `n2`-bit field right above it puts `v1 % 2^n1 + 2^n1 * (v2 % 2^n2)` into
   * bits `o .. o + n1 + n2 - 1` and keeps all bits from `o + n1 + n2` up.
   */
  lemma AdjacentWrites(w: Width, o: nat, b1: Option<nat>, b2: Option<nat>, raw: Word, v1: nat, v2: nat)
    requires o + BitCount(b1) + BitCount(b2) <= Size(w) && |raw| == Size(w)
    ensures ToNat(WriteRaw(WriteRaw(raw, WithValue(FieldOf(w, o, b1), v1)),
                           WithValue(FieldOf(w, o + BitCount(b1), b2), v2))[o..o + BitCount(b1) + BitCount(b2)]) ==
      v1 % Pow2(BitCount(b1)) + Pow2(BitCount(b1)) * (v2 % Pow2(BitCount(b2)))
    ensures WriteRaw(WriteRaw(raw, WithValue(FieldOf(w, o, b1), v1)),
                     WithValue(FieldOf(w, o + BitCount(b1), b2), v2))[o + BitCount(b1) + BitCount(b2)..] ==
      raw[o + BitCount(b1) + BitCount(b2)..]
  {
    var n1, n2 := BitCount(b1), BitCount(b2);
    var x1 := WriteRaw(raw, WithValue(FieldOf(w, o, b1), v1));
    WriteFieldBits(w, o, b1, raw, v1);
    WriteFieldBits(w, o + n1, b2, x1, v2);
    AdjacentSlices(raw, x1, WriteRaw(x1, WithValue(FieldOf(w, o + n1, b2), v2)), o, n1, n2);
  }

  /**
   * The `read` documentation's example: raw contents `0b10110` and the
   * field bits [4:3], that is `OFFSET(3) BITS(2)`. The code reads `0b10`.
   */
  lemma DocCommentRead(raw: Word)
    requires |raw| == 32 && ToNat(raw) == 0x16
    ensures ToNat(ReadField(FieldOf(U32, 3, Some(2)), raw).value) == 0x2
  {
    var t := ToNat(raw);
    assert ToNat(ReadField(FieldOf(U32, 3, Some(2)), raw).value) == Extract(t, 3, 2) by {
      ReadFieldNumber(U32, 3, Some(2), raw);
    }
    ExtractOf0x16(t);
  }

  lemma ExtractOf0x16(t: nat)
    requires t == 0x16
    ensures Extract(t, 3, 2) == 0x2
  {
  }

  /** `|` of values of two adjacent declared fields covers exactly both fields' bits. */
  lemma CombineAdjacentMask(w: Width, o: nat, b1: Option<nat>, b2: Option<nat>, v1: nat, v2: nat)
    ensures Combine(WithValue(FieldOf(w, o, b1), v1), WithValue(FieldOf(w, o + BitCount(b1), b2), v2)).Mask() ==
      FieldOf(w, o, Some(BitCount(b1) + BitCount(b2))).Mask()
  {
    var n1, n2 := BitCount(b1), BitCount(b2);
    var a, b := WithValue(FieldOf(w, o, b1), v1), WithValue(FieldOf(w, o + n1, b2), v2);
    CombineMaskAndRawValue(a, b);
    FieldOfMaskBits(w, o, b1);
    FieldOfMaskBits(w, o + n1, b2);
    FieldOfMaskBits(w, o, Some(n1 + n2));
    assert Combine(a, b).Mask() == FieldOf(w, o, Some(n1 + n2)).Mask();
  }

  /**
   * The raw value of `|` of values of two adjacent declared fields holds
   * both numbers, the upper one above the lower.
   */
  lemma CombineAdjacentRaw(w: Width, o: nat, b1: Option<nat>, b2: Option<nat>, v1: nat, v2: nat)
    requires 1 <= BitCount(b1) && 1 <= BitCount(b2) && o + BitCount(b1) + BitCount(b2) <= Size(w)
    ensures ToNat(Combine(WithValue(FieldOf(w, o, b1), v1), WithValue(FieldOf(w, o + BitCount(b1), b2), v2)).RawValue()) ==
      Pow2(o) * (v1 % Pow2(BitCount(b1))) + Pow2(o + BitCount(b1)) * (v2 % Pow2(BitCount(b2)))
  {
    var n1 := BitCount(b1);
    CombineAdjacentSum(w, o, b1, b2, v1, v2);
    WithValueRawNumber(w, o, b1, v1);
    WithValueRawNumber(w, o + n1, b2, v2);
  }

  /** The raw value of `with_value(v)` on a declared field is `(v % 2^n) << offset`. */
  lemma WithValueRawNumber(w: Width, offset: nat, bits: Option<nat>, v: nat)
    requires offset + BitCount(bits) <= Size(w)
    ensures ToNat(WithValue(FieldOf(w, offset, bits), v).RawValue()) == Pow2(offset) * (v % Pow2(BitCount(bits)))
  {
    RawValueNumber(WithValue(FieldOf(w, offset, bits), v), offset, bits);
    WithValueNumber(w, offset, bits, v);
  }

  lemma CombineAdjacentSum(w: Width, o: nat, b1: Option<nat>, b2: Option<nat>, v1: nat, v2: nat)
    requires 1 <= BitCount(b1) && 1 <= BitCount(b2) && o + BitCount(b1) + BitCount(b2) <= Size(w)
    ensures ToNat(Combine(WithValue(FieldOf(w, o, b1), v1), WithValue(FieldOf(w, o + BitCount(b1), b2), v2)).RawValue()) ==
      ToNat(WithValue(FieldOf(w, o, b1), v1).RawValue()) + ToNat(WithValue(FieldOf(w, o + BitCount(b1), b2), v2).RawValue())
  {
    FieldOfDisjoint(w, o, b1, o + BitCount(b1), b2);
    CombineRawNumber(WithValue(FieldOf(w, o, b1), v1), WithValue(FieldOf(w, o + BitCount(b1), b2), v2));
  }

  /** `CombineAdjacentRaw` and `CombineAdjacentMask` for values given by name, with the number computed beforehand. */
  lemma CombineAdjacentIs(a: FieldValue, b: FieldValue, w: Width, o: nat, b1: Option<nat>, b2: Option<nat>,
                          v1: nat, v2: nat, m: nat)
    requires a == WithValue(FieldOf(w, o, b1), v1) && b == WithValue(FieldOf(w, o + BitCount(b1), b2), v2)
    requires 1 <= BitCount(b1) && 1 <= BitCount(b2) && o + BitCount(b1) + BitCount(b2) <= Size(w)
    requires m == Pow2(o) * (v1 % Pow2(BitCount(b1))) + Pow2(o + BitCount(b1)) * (v2 % Pow2(BitCount(b2)))
    ensures ToNat(Combine(a, b).RawValue()) == m
    ensures Combine(a, b).Mask() == FieldOf(w, o, Some(BitCount(b1) + BitCount(b2))).Mask()
  {
    CombineAdjacentRaw(w, o, b1, b2, v1, v2);
    CombineAdjacentMask(w, o, b1, b2, v1, v2);
  }

  /**
   * `|` of a two-bit value `0b11` at bit 0 and a one-bit value `1` at bit 2
   * is the three-bit value `0b111` at bit 0, in a register of either width.
   */
  lemma CombineExample(w: Width)
    ensures Combine(WithValue(FieldOf(w, 0, Some(2)), 3), WithValue(FieldOf(w, 2, None), 1)).Mask() ==
      FieldOf(w, 0, Some(3)).Mask()
    ensures ToNat(Combine(WithValue(FieldOf(w, 0, Some(2)), 3), WithValue(FieldOf(w, 2, None), 1)).RawValue()) == 7
  {
    var c := Combine(WithValue(FieldOf(w, 0, Some(2)), 3), WithValue(FieldOf(w, 2, None), 1));
    assert c.Mask() == FieldOf(w, 0, Some(3)).Mask() by {
      CombineAdjacentMask(w, 0, Some(2), None, 3, 1);
    }
    assert ToNat(c.RawValue()) == Pow2(0) * (3 % Pow2(2)) + Pow2(0 + 2) * (1 % Pow2(1)) by {
      CombineAdjacentRaw(w, 0, Some(2), None, 3, 1);
    }
    assert Pow2(0) * (3 % Pow2(2)) + Pow2(0 + 2) * (1 % Pow2(1)) == 7 by {
      assert Pow2(0) == 1 && Pow2(2) == 4 && Pow2(1) == 2;
    }
  }
}
