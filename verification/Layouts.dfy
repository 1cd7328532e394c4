/** Sizes, alignments and field offsets of types, with the memo cache that answers repeated questions
    (src/ir/layout.rs). */
module Layouts {
  import opened Bits
  import opened Ir

  datatype Layout = Layout(size: nat, align: nat)

  datatype FieldLayout = FieldLayout(offset: nat, layout: Layout)

  datatype Shape = Scalar | ArrayShape(elem: Layout, stride: nat, len: nat) | StructShape(fields: seq<FieldLayout>,
    packed: bool)

  datatype TypeLayout = TypeLayout(layout: Layout, shape: Shape)

  datatype LayoutError = OpaqueStruct | UnsizedFunction | InvalidLabel

  datatype Result<+T> = Ok(value: T) | Err(error: LayoutError)

  datatype Target = Target(pointerSize: nat, pointerAlign: nat)

  const RV32 := Target(4, 4)
  const RV64 := Target(8, 8)

  predicate IsAlign(a: nat) {
    a == 1 || a == 2 || a == 4 || a == 8
  }

  predicate ValidTarget(t: Target) {
    IsAlign(t.pointerAlign)
  }

  function Max(a: nat, b: nat): nat {
    if a < b then b else a
  }

  /** The next multiple of align. */
  function AlignTo(value: nat, align: nat): (r: nat)
    requires align > 0
    ensures r % align == 0 && value <= r && forall m :: m % align == 0 && value <= m ==> r <= m
  {
    AlignToIsLeast(value, align);
    if value % align == 0 then value else value + (align - value % align)
  }

  lemma AlignToIsLeast(value: nat, align: nat)
    requires align > 0
    ensures var r := if value % align == 0 then value else value + (align - value % align);
      r % align == 0 && forall m :: m % align == 0 && value <= m ==> r <= m
  {
    var q := value / align;
    var r := if value % align == 0 then value else value + (align - value % align);
    assert value == align * q + value % align;
    assert r == align * (if value % align == 0 then q else q + 1);
    MultipleHasNoRest(if value % align == 0 then q else q + 1, align);
    forall m | m % align == 0 && value <= m ensures r <= m {
      var p := m / align;
      assert m == align * p;
      if p < (if value % align == 0 then q else q + 1) {
        NoMultipleBetween(value, align, p);
      } else {
        MultipleMonotone(align, if value % align == 0 then q else q + 1, p);
      }
    }
  }

  lemma MultipleHasNoRest(k: int, m: nat)
    requires m > 0
    ensures (m * k) % m == 0
  {
    DivModUnique(m * k, m, k, 0);
  }

  lemma MultipleMonotone(m: nat, a: int, b: int)
    requires a <= b
    ensures m * a <= m * b
  {
  }

  lemma NoMultipleBetween(value: nat, align: nat, p: int)
    requires align > 0 && p < if value % align == 0 then value / align else value / align + 1
    ensures align * p < value || p > value
  {
    var q := value / align;
    assert value == align * q + value % align;
    if value % align == 0 {
      MultipleMonotone(align, p, q - 1);
    } else {
      MultipleMonotone(align, p, q);
    }
  }

  function LayoutOfInt(bits: nat): Layout {
    var bytes := (Max(bits, 1) + 7) / 8;
    Layout(bytes, if bytes <= 1 then 1 else if bytes == 2 then 2 else if bytes <= 4 then 4 else 8)
  }

  /** The bytes an integer needs and no more; aligned to the power of two that holds them, to 8 at most. */
  predicate IntLaidOut(bits: nat, l: Layout) {
    && 8 * (l.size - 1) < bits <= 8 * l.size && IsAlign(l.align)
    && (if l.size > 8 then l.align == 8 else l.size <= l.align < 2 * l.size)
  }

  // ---------------------------------------------------------------- layouts without a cache

  /** Part way through a struct: where the next field may start, the alignment so far, the fields placed. */
  datatype Placing = Placing(offset: nat, align: nat, fields: seq<FieldLayout>)

  function LayoutOf(t: Target, ty: Type): (r: Result<TypeLayout>)
    requires ValidTarget(t)
    ensures r.Ok? ==> IsAlign(r.value.layout.align)
    decreases ty, FieldCount(ty) + 1
  {
    match ty
    case IntType(bits) => Ok(TypeLayout(LayoutOfInt(bits), Scalar))
    case PtrType => Ok(TypeLayout(Layout(t.pointerSize, t.pointerAlign), Scalar))
    case VoidType => Ok(TypeLayout(Layout(0, 1), Scalar))
    case LabelType => Err(InvalidLabel)
    case FunctionType(_) => Err(UnsizedFunction)
    case ArrayType(elem, length) =>
      var r := LayoutOf(t, elem);
      if r.Err? then Err(r.error) else Ok(ArrayLayout(r.value.layout, length))
    case StructType(body) =>
      if body.Opaque? then Err(OpaqueStruct)
      else
        var r := PlaceFields(t, ty, |body.fields|);
        if r.Err? then Err(r.error) else Ok(StructLayout(r.value, body.packed))
  }

  function FieldCount(ty: Type): nat {
    if ty.StructType? && ty.body.Fields? then |ty.body.fields| else 0
  }

  function Stride(l: Layout): nat
    requires l.align > 0
  {
    AlignTo(l.size, l.align)
  }

  function ArrayLayout(elem: Layout, length: nat): TypeLayout
    requires elem.align > 0
  {
    TypeLayout(Layout(Stride(elem) * length, elem.align), ArrayShape(elem, Stride(elem), length))
  }

  function StructLayout(placed: Placing, packed: bool): TypeLayout
    requires placed.align > 0
  {
    var align := if packed then 1 else placed.align;
    TypeLayout(Layout(AlignTo(placed.offset, align), align), StructShape(placed.fields, packed))
  }

  function PlaceField(placed: Placing, field: Layout, packed: bool): Placing
    requires field.align > 0
  {
    var offset := AlignTo(placed.offset, if packed then 1 else field.align);
    Placing(offset + field.size, if packed then placed.align
      else Max(placed.align, field.align), placed.fields + [FieldLayout(offset, field)])
  }

  /** The first k fields in place. */
  function PlaceFields(t: Target, ty: Type, k: nat): (r: Result<Placing>)
    requires ValidTarget(t) && ty.StructType? && ty.body.Fields? && k <= |ty.body.fields|
    ensures r.Ok? ==> IsAlign(r.value.align) && |r.value.fields| == k
    decreases ty, k
  {
    if k == 0 then Ok(Placing(0, 1, []))
    else
      var r := PlaceFields(t, ty, k - 1);
      if r.Err? then r
      else
        var field := LayoutOf(t, ty.body.fields[k - 1]);
        if field.Err? then Err(field.error)
        else Ok(PlaceField(r.value, field.value.layout, ty.body.packed))
  }

  /** Types with values: no part of them is a function, a label or an opaque struct. */
  predicate Sized(ty: Type)
    decreases ty
  {
    match ty
    case ArrayType(elem, _) => Sized(elem)
    case StructType(body) => body.Fields? && forall k :: 0 <= k < |body.fields| ==> Sized(body.fields[k])
    case FunctionType(_) => false
    case LabelType => false
    case _ => true
  }

  lemma {:induction false} SizedExactly(t: Target, ty: Type)
    requires ValidTarget(t)
    ensures LayoutOf(t, ty).Ok? <==> Sized(ty)
    decreases ty, FieldCount(ty) + 1
  {
    if ty.ArrayType? {
      SizedExactly(t, ty.elem);
    } else if ty.StructType? && ty.body.Fields? {
      FieldsSized(t, ty, |ty.body.fields|);
    }
  }

  lemma {:induction false} FieldsSized(t: Target, ty: Type, n: nat)
    requires ValidTarget(t) && ty.StructType? && ty.body.Fields? && n <= |ty.body.fields|
    ensures PlaceFields(t, ty, n).Ok? <==> forall k :: 0 <= k < n ==> Sized(ty.body.fields[k])
    decreases ty, n
  {
    if n > 0 {
      FieldsSized(t, ty, n - 1);
      SizedExactly(t, ty.body.fields[n - 1]);
      hide LayoutOf, Sized;
    }
  }

  // ---------------------------------------------------------------- the engine

  class TypeLayoutEngine {
    const target: Target
    var cache: map<Type, TypeLayout>

    /** Whatever the cache holds is the answer computed afresh. */
    ghost predicate Valid()
      reads this
    {
      ValidTarget(target) && forall ty :: ty in cache ==> LayoutOf(target, ty) == Ok(cache[ty])
    }

    constructor (target: Target)
      requires ValidTarget(target)
      ensures Valid() && this.target == target && cache == map[]
    {
      this.target := target;
      cache := map[];
    }

    method ClearCache()
      requires Valid()
      modifies this
      ensures Valid() && cache == map[]
    {
      cache := map[];
    }

    /** The cached answer is the uncached one, and asking again is answered from the cache. */
    method Query(ty: Type) returns (r: Result<TypeLayout>)
      requires Valid()
      modifies this
      ensures Valid() && r == LayoutOf(target, ty)
      ensures old(cache).Keys <= cache.Keys && (r.Ok? ==> ty in cache) && (r.Err? ==> ty !in cache)
      ensures r.Ok? <==> Sized(ty)
      ensures ty.IntType? && ty.bits >= 1 ==> r.Ok? && IntLaidOut(ty.bits, r.value.layout)
      ensures ty.PtrType? ==> r.Ok? && r.value.layout == Layout(target.pointerSize, target.pointerAlign)
      ensures ty.VoidType? ==> r.Ok? && r.value.layout == Layout(0, 1)
      decreases ty, FieldCount(ty) + 2
    {
      SizedExactly(target, ty);
      if ty in cache {
        return Ok(cache[ty]);
      }
      r := ComputeLayout(ty);
      if r.Ok? {
        cache := cache[ty := r.value];
      }
    }

    method ComputeLayout(ty: Type) returns (r: Result<TypeLayout>)
      requires Valid()
      modifies this
      ensures Valid() && r == LayoutOf(target, ty) && old(cache).Keys <= cache.Keys
      decreases ty, FieldCount(ty) + 1
    {
      match ty {
        case IntType(bits) => r := Ok(TypeLayout(LayoutOfInt(bits), Scalar));
        case PtrType => r := Ok(TypeLayout(Layout(target.pointerSize, target.pointerAlign), Scalar));
        case VoidType => r := Ok(TypeLayout(Layout(0, 1), Scalar));
        case ArrayType(elem, length) =>
          var e := Query(elem);
          if e.Err? {
            return Err(e.error);
          }
          r := Ok(ArrayLayout(e.value.layout, length));
        case StructType(_) => r := ComputeStructLayout(ty);
        case FunctionType(_) => r := Err(UnsizedFunction);
        case LabelType => r := Err(InvalidLabel);
      }
    }

    method ComputeStructLayout(ty: Type) returns (r: Result<TypeLayout>)
      requires Valid() && ty.StructType?
      modifies this
      ensures Valid() && r == LayoutOf(target, ty) && old(cache).Keys <= cache.Keys
      decreases ty, FieldCount(ty)
    {
      hide PlaceFields, LayoutOf, AlignTo, PlaceField;
      if ty.body.Opaque? {
        assert LayoutOf(target, ty) == Err(OpaqueStruct) by { NoFields(target, ty); }
        return Err(OpaqueStruct);
      }
      PlaceNone(target, ty);
      var fieldTys, packed := ty.body.fields, ty.body.packed;
      var fields: seq<FieldLayout> := [];
      var offset: nat, structAlign: nat := 0, 1;
      for k := 0 to |fieldTys|
        invariant Valid() && old(cache).Keys <= cache.Keys
        invariant PlaceFields(target, ty, k) == Ok(Placing(offset, structAlign, fields))
      {
        var field := Query(fieldTys[k]);
        PlaceNext(target, ty, k);
        if field.Err? {
          FirstError(target, ty, k + 1);
          return Err(field.error);
        }
        var layout := field.value.layout;
        PlacedHere(Placing(offset, structAlign, fields), layout, packed);
        var placeAlign := if packed then 1 else layout.align;
        offset := AlignTo(offset, placeAlign);
        fields := fields + [FieldLayout(offset, layout)];
        offset := offset + layout.size;
        if !packed {
          structAlign := Max(structAlign, layout.align);
        }
      }
      AllPlaced(target, ty);
      var align := if packed then 1 else structAlign;
      var size := AlignTo(offset, align);
      r := Ok(TypeLayout(Layout(size, align), StructShape(fields, packed)));
    }
  }

  /** An error in some field is the error of the whole struct. */
  lemma {:induction false} FirstError(t: Target, ty: Type, k: nat)
    requires ValidTarget(t) && ty.StructType? && ty.body.Fields? && k <= |ty.body.fields| && PlaceFields(t, ty, k).Err?
    ensures LayoutOf(t, ty) == Err(PlaceFields(t, ty, k).error)
    decreases |ty.body.fields| - k
  {
    if k < |ty.body.fields| {
      assert PlaceFields(t, ty, k + 1) == PlaceFields(t, ty, k);
      FirstError(t, ty, k + 1);
    }
  }

  lemma NoFields(t: Target, ty: Type)
    requires ValidTarget(t) && ty.StructType? && ty.body.Opaque?
    ensures LayoutOf(t, ty) == Err(OpaqueStruct)
  {
  }

  lemma PlaceNone(t: Target, ty: Type)
    requires ValidTarget(t) && ty.StructType? && ty.body.Fields?
    ensures PlaceFields(t, ty, 0) == Ok(Placing(0, 1, []))
  {
  }

  lemma PlaceNext(t: Target, ty: Type, k: nat)
    requires ValidTarget(t) && ty.StructType? && ty.body.Fields? && k < |ty.body.fields| && PlaceFields(t, ty, k).Ok?
    ensures var field := LayoutOf(t, ty.body.fields[k]);
      && (field.Err? ==> PlaceFields(t, ty, k + 1) == Err(field.error))
      && (field.Ok? ==>
           PlaceFields(t, ty, k + 1)
           == Ok(PlaceField(PlaceFields(t, ty, k).value, field.value.layout, ty.body.packed)))
  {
    hide PlaceField, LayoutOf;
  }

  lemma PlacedHere(placed: Placing, field: Layout, packed: bool)
    requires field.align > 0
    ensures var offset := AlignTo(placed.offset, if packed then 1 else field.align);
      PlaceField(placed, field, packed)
        == Placing(offset + field.size, if packed then placed.align
          else Max(placed.align, field.align), placed.fields + [FieldLayout(offset, field)])
  {
  }

  lemma AllPlaced(t: Target, ty: Type)
    requires ValidTarget(t) && ty.StructType? && ty.body.Fields? && PlaceFields(t, ty, |ty.body.fields|).Ok?
    ensures LayoutOf(t, ty) == Ok(StructLayout(PlaceFields(t, ty, |ty.body.fields|).value, ty.body.packed))
  {
    hide PlaceFields;
  }
}
