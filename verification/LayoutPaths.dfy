/** Where the parts of a nested type lie: within bounds, in order, apart from each other, aligned. */
module LayoutPaths {
  import opened Bits
  import opened CoreInts
  import opened Ir
  import opened Layouts

  /** The type reached by field and element indices. */
  function SubType(ty: Type, path: seq<nat>): Option<Type>
    decreases |path|
  {
    if path == [] then Some(ty)
    else match ty
      case ArrayType(elem, length) => if path[0] < length then SubType(elem, path[1..]) else None
      case StructType(body) =>
        if body.Fields? && path[0] < |body.fields| then SubType(body.fields[path[0]], path[1..]) else None
      case _ => None
  }

  predicate Concrete(t: Target, ty: Type)
    requires ValidTarget(t)
  {
    LayoutOf(t, ty).Ok?
  }

  function Size(t: Target, ty: Type): nat
    requires ValidTarget(t) && Concrete(t, ty)
  {
    LayoutOf(t, ty).value.layout.size
  }

  function Align(t: Target, ty: Type): (r: nat)
    requires ValidTarget(t) && Concrete(t, ty)
    ensures IsAlign(r)
  {
    LayoutOf(t, ty).value.layout.align
  }

  function ElemStride(t: Target, ty: Type): nat
    requires ValidTarget(t) && Concrete(t, ty) && ty.ArrayType?
  {
    LayoutOf(t, ty).value.shape.stride
  }

  function FieldOffset(t: Target, ty: Type, k: nat): nat
    requires ValidTarget(t) && Concrete(t, ty) && ty.StructType? && k < FieldCount(ty)
  {
    StructShapeOf(t, ty);
    LayoutOf(t, ty).value.shape.fields[k].offset
  }

  lemma StructShapeOf(t: Target, ty: Type)
    requires ValidTarget(t) && Concrete(t, ty) && ty.StructType?
    ensures ty.body.Fields? && PlaceFields(t, ty, |ty.body.fields|).Ok?
    ensures LayoutOf(t, ty).value == StructLayout(PlaceFields(t, ty, |ty.body.fields|).value, ty.body.packed)
    ensures LayoutOf(t, ty).value.shape.StructShape? && |LayoutOf(t, ty).value.shape.fields| == |ty.body.fields|
  {
  }

  lemma ArrayShapeOf(t: Target, ty: Type)
    requires ValidTarget(t) && Concrete(t, ty) && ty.ArrayType?
    ensures Concrete(t, ty.elem) && ElemStride(t, ty) == AlignTo(Size(t, ty.elem), Align(t, ty.elem))
    ensures Size(t, ty) == ElemStride(t, ty) * ty.length && Align(t, ty) == Align(t, ty.elem)
  {
  }

  /** What a layout says of its type's shape is what the offsets below are read from. */
  lemma ShapeKnown(t: Target, ty: Type)
    requires ValidTarget(t) && Concrete(t, ty)
    ensures ty.ArrayType? ==>
      LayoutOf(t, ty).value.shape.ArrayShape? && LayoutOf(t, ty).value.shape.stride == ElemStride(t, ty)
    ensures ty.StructType? ==>
      LayoutOf(t, ty).value.shape.StructShape? && |LayoutOf(t, ty).value.shape.fields| == FieldCount(ty)
    ensures ty.StructType? ==> forall k :: 0 <= k < FieldCount(ty) ==>
      LayoutOf(t, ty).value.shape.fields[k].offset == FieldOffset(t, ty, k)
  {
  }

  // ---------------------------------------------------------------- fields of one struct

  /** Field k of the first n: laid out on its own, before everything after it, and aligned unless packed. */
  ghost predicate Placed(t: Target, ty: Type, n: nat, k: nat)
    requires ValidTarget(t) && ty.StructType? && ty.body.Fields? && k < n <= |ty.body.fields|
    requires PlaceFields(t, ty, n).Ok?
  {
    var p, field := PlaceFields(t, ty, n).value, LayoutOf(t, ty.body.fields[k]);
    && field.Ok? && p.fields[k].layout == field.value.layout
    && p.fields[k].offset + field.value.layout.size <= p.offset
    && (!ty.body.packed ==> p.fields[k].offset % field.value.layout.align == 0 && field.value.layout.align <= p.align)
    && forall j :: k < j < n ==> p.fields[k].offset + field.value.layout.size <= p.fields[j].offset
  }

  lemma {:induction false} FieldsPlaced(t: Target, ty: Type, n: nat)
    requires ValidTarget(t) && ty.StructType? && ty.body.Fields? && n <= |ty.body.fields| && PlaceFields(t, ty, n).Ok?
    ensures forall k: nat :: k < n ==> Placed(t, ty, n, k)
    decreases n
  {
    if n > 0 {
      FieldsPlaced(t, ty, n - 1);
      forall k: nat | k < n ensures Placed(t, ty, n, k) {
        if k < n - 1 {
          assert Placed(t, ty, n - 1, k);
        }
        hide AlignTo, LayoutOf;
      }
    }
  }

  lemma FieldPlaced(t: Target, ty: Type, k: nat)
    requires ValidTarget(t) && Concrete(t, ty) && ty.StructType? && k < FieldCount(ty)
    ensures ty.body.Fields? && Concrete(t, ty.body.fields[k])
    ensures FieldOffset(t, ty, k) + Size(t, ty.body.fields[k]) <= Size(t, ty)
    ensures forall j :: k < j < FieldCount(ty) ==>
      FieldOffset(t, ty, k) + Size(t, ty.body.fields[k]) <= FieldOffset(t, ty, j)
    ensures !ty.body.packed ==>
      FieldOffset(t, ty, k) % Align(t, ty.body.fields[k]) == 0 && Align(t, ty.body.fields[k]) <= Align(t, ty)
  {
    StructShapeOf(t, ty);
    FieldsPlaced(t, ty, |ty.body.fields|);
    assert Placed(t, ty, |ty.body.fields|, k);
    hide LayoutOf, PlaceFields, AlignTo;
  }

  // ---------------------------------------------------------------- elements of one array

  lemma ElementPlaced(t: Target, ty: Type, i: nat)
    requires ValidTarget(t) && Concrete(t, ty) && ty.ArrayType? && i < ty.length
    ensures Concrete(t, ty.elem) && i * ElemStride(t, ty) + Size(t, ty.elem) <= Size(t, ty)
    ensures forall j: nat :: i < j ==> i * ElemStride(t, ty) + Size(t, ty.elem) <= j * ElemStride(t, ty)
    ensures (i * ElemStride(t, ty)) % Align(t, ty.elem) == 0
  {
    ArrayShapeOf(t, ty);
    hide LayoutOf, AlignTo, ElemStride, Size, Align;
    StrideFacts(i, ElemStride(t, ty), Align(t, ty.elem), Size(t, ty.elem), ty.length);
  }

  lemma StrideFacts(i: nat, s: nat, a: nat, size: nat, n: nat)
    requires a > 0 && s % a == 0 && size <= s && i < n
    ensures i * s + size <= s * n && (i * s) % a == 0
    ensures forall j: nat :: i < j ==> i * s + size <= j * s
  {
    LaterStride(i, n, s, size);
    forall j: nat | i < j ensures i * s + size <= j * s {
      LaterStride(i, j, s, size);
    }
    StrideMultiple(i, s, a);
  }

  lemma LaterStride(i: nat, j: nat, s: nat, size: nat)
    requires i < j && size <= s
    ensures i * s + size <= j * s == s * j
  {
    MulMonotone(i + 1, j, s);
    assert (i + 1) * s == i * s + s;
  }

  lemma StrideMultiple(i: nat, s: nat, a: nat)
    requires a > 0 && s % a == 0
    ensures (i * s) % a == 0
  {
    assert s == a * (s / a);
    assert i * s == a * (i * (s / a));
    MultipleHasNoRest(i * (s / a), a);
  }

  // ---------------------------------------------------------------- nested parts

  function PathOffset(t: Target, ty: Type, path: seq<nat>): nat
    requires ValidTarget(t) && Concrete(t, ty) && SubType(ty, path).Some?
    decreases |path|
  {
    if path == [] then 0
    else if ty.ArrayType? then
      ArrayShapeOf(t, ty);
      path[0] * ElemStride(t, ty) + PathOffset(t, ty.elem, path[1..])
    else
      FieldPlaced(t, ty, path[0]);
      FieldOffset(t, ty, path[0]) + PathOffset(t, ty.body.fields[path[0]], path[1..])
  }

  /** The first step of a path: the part it leads into, and where that part starts. */
  lemma PathStep(t: Target, ty: Type, path: seq<nat>) returns (part: Type, start: nat)
    requires ValidTarget(t) && Concrete(t, ty) && SubType(ty, path).Some? && path != []
    ensures Concrete(t, part) && SubType(part, path[1..]) == SubType(ty, path)
    ensures PathOffset(t, ty, path) == start + PathOffset(t, part, path[1..])
    ensures start + Size(t, part) <= Size(t, ty)
    ensures ty.ArrayType? ==> path[0] < ty.length && part == ty.elem && start == path[0] * ElemStride(t, ty)
    ensures !ty.ArrayType? ==>
      ty.StructType? && path[0] < FieldCount(ty) && ty.body.Fields? && part == ty.body.fields[path[0]]
      && start == FieldOffset(t, ty, path[0])
  {
    hide LayoutOf;
    if ty.ArrayType? {
      part, start := ty.elem, path[0] * ElemStride(t, ty);
      ElementPlaced(t, ty, path[0]);
    } else {
      FieldPlaced(t, ty, path[0]);
      part, start := ty.body.fields[path[0]], FieldOffset(t, ty, path[0]);
    }
  }

  /** Every part of a concrete type is concrete and lies within it, at any depth. */
  lemma {:induction false} PartInBounds(t: Target, ty: Type, path: seq<nat>)
    requires ValidTarget(t) && Concrete(t, ty) && SubType(ty, path).Some?
    ensures Concrete(t, SubType(ty, path).value)
    ensures PathOffset(t, ty, path) + Size(t, SubType(ty, path).value) <= Size(t, ty)
    decreases |path|
  {
    hide LayoutOf;
    if path != [] {
      var part, start := PathStep(t, ty, path);
      PartInBounds(t, part, path[1..]);
    }
  }

  /** At the first index where the paths differ, p takes the smaller. */
  predicate Earlier(p: seq<nat>, q: seq<nat>) {
    p != [] && q != [] && (p[0] < q[0] || (p[0] == q[0] && Earlier(p[1..], q[1..])))
  }

  /** Parts come in the order of their paths: an earlier part ends before a later one starts. */
  lemma {:induction false} PartsInOrder(t: Target, ty: Type, p: seq<nat>, q: seq<nat>)
    requires ValidTarget(t) && Concrete(t, ty) && SubType(ty, p).Some? && SubType(ty, q).Some? && Earlier(p, q)
    ensures Concrete(t, SubType(ty, p).value)
    ensures PathOffset(t, ty, p) + Size(t, SubType(ty, p).value) <= PathOffset(t, ty, q)
    decreases |p|
  {
    hide LayoutOf;
    var part, start := PathStep(t, ty, p);
    var part', start' := PathStep(t, ty, q);
    PartInBounds(t, part, p[1..]);
    if p[0] == q[0] {
      PartsInOrder(t, part, p[1..], q[1..]);
    } else if ty.ArrayType? {
      ElementPlaced(t, ty, p[0]);
    } else {
      FieldPlaced(t, ty, p[0]);
    }
  }

  lemma {:induction false} OneIsEarlier(p: seq<nat>, q: seq<nat>)
    requires !(p <= q) && !(q <= p)
    ensures Earlier(p, q) || Earlier(q, p)
    decreases |p|
  {
    if p != [] && q != [] && p[0] == q[0] {
      assert p == [p[0]] + p[1..] && q == [q[0]] + q[1..];
      OneIsEarlier(p[1..], q[1..]);
    }
  }

  /** Two parts neither of which contains the other have no byte in common. */
  lemma PartsDisjoint(t: Target, ty: Type, p: seq<nat>, q: seq<nat>, byte: nat)
    requires ValidTarget(t) && Concrete(t, ty) && SubType(ty, p).Some? && SubType(ty, q).Some? && !(p <= q) && !(q <= p)
    ensures Concrete(t, SubType(ty, p).value) && Concrete(t, SubType(ty, q).value)
    ensures !(PathOffset(t, ty, p) <= byte < PathOffset(t, ty, p) + Size(t, SubType(ty, p).value)
              && PathOffset(t, ty, q) <= byte < PathOffset(t, ty, q) + Size(t, SubType(ty, q).value))
  {
    PartInBounds(t, ty, p);
    PartInBounds(t, ty, q);
    OneIsEarlier(p, q);
    hide LayoutOf;
    if Earlier(p, q) {
      PartsInOrder(t, ty, p, q);
    } else {
      PartsInOrder(t, ty, q, p);
    }
  }

  /** No struct on the way is packed. */
  predicate Unpacked(ty: Type, path: seq<nat>)
    requires SubType(ty, path).Some?
    decreases |path|
  {
    path == [] || (if ty.ArrayType? then Unpacked(ty.elem, path[1..])
      else !ty.body.packed && Unpacked(ty.body.fields[path[0]], path[1..]))
  }

  lemma AlignDivides(a: nat, b: nat)
    requires IsAlign(a) && IsAlign(b) && a <= b
    ensures b % a == 0
  {
  }

  lemma SumOfMultiples(x: nat, y: nat, a: nat)
    requires a > 0 && x % a == 0 && y % a == 0
    ensures (x + y) % a == 0
  {
    assert x == a * (x / a) && y == a * (y / a);
    assert x + y == a * (x / a + y / a);
    MultipleHasNoRest(x / a + y / a, a);
  }

  lemma MultipleOfMultiple(x: nat, a: nat, b: nat)
    requires a > 0 && b > 0 && x % b == 0 && b % a == 0
    ensures x % a == 0
  {
    assert x == b * (x / b) && b == a * (b / a);
    assert x == a * ((b / a) * (x / b));
    MultipleHasNoRest((b / a) * (x / b), a);
  }

  /** From an aligned base, every part reached without passing a packed struct is aligned. */
  lemma {:induction false} PartAligned(t: Target, ty: Type, path: seq<nat>, base: nat)
    requires ValidTarget(t) && Concrete(t, ty) && SubType(ty, path).Some? && Unpacked(ty, path)
    requires base % Align(t, ty) == 0
    ensures Concrete(t, SubType(ty, path).value)
    ensures (base + PathOffset(t, ty, path)) % Align(t, SubType(ty, path).value) == 0
    decreases |path|
  {
    PartInBounds(t, ty, path);
    hide LayoutOf;
    if path != [] {
      var part, start := PathStep(t, ty, path);
      if ty.ArrayType? {
        ArrayAlign(t, ty);
        ElementPlaced(t, ty, path[0]);
      } else {
        FieldPlaced(t, ty, path[0]);
        AlignDivides(Align(t, part), Align(t, ty));
        MultipleOfMultiple(base, Align(t, part), Align(t, ty));
      }
      SumOfMultiples(base, start, Align(t, part));
      PartAligned(t, part, path[1..], base + start);
    }
  }

  /** From a base that is a multiple of 8, every integer of 1, 2, 4 or 8 bytes that is reached without
      passing a packed struct starts at a multiple of its size. */
  lemma IntegersAligned(t: Target, ty: Type, path: seq<nat>, base: nat)
    requires ValidTarget(t) && Concrete(t, ty) && SubType(ty, path).Some? && Unpacked(ty, path) && base % 8 == 0
    ensures SubType(ty, path).value in {IntType(8), IntType(16), IntType(32), IntType(64)} ==>
      (base + PathOffset(t, ty, path)) % (SubType(ty, path).value.bits / 8) == 0
  {
    hide LayoutOf;
    AlignDivides(Align(t, ty), 8);
    MultipleOfMultiple(base, Align(t, ty), 8);
    PartAligned(t, ty, path, base);
    var part := SubType(ty, path).value;
    if part.IntType? && part.bits >= 1 {
      IntAligned(t, part);
    }
  }

  lemma IntAligned(t: Target, ty: Type)
    requires ValidTarget(t) && ty.IntType? && ty.bits >= 1
    ensures Concrete(t, ty) && IntLaidOut(ty.bits, Layout(Size(t, ty), Align(t, ty)))
  {
  }

  /** Where field k may start: at the end of the field before it. */
  function FieldEnd(t: Target, ty: Type, k: nat): nat
    requires ValidTarget(t) && Concrete(t, ty) && ty.StructType? && k <= FieldCount(ty)
  {
    if k == 0 then 0
    else
      FieldPlaced(t, ty, k - 1);
      FieldOffset(t, ty, k - 1) + Size(t, ty.body.fields[k - 1])
  }

  ghost predicate LeastMultiple(r: nat, a: nat, from: nat)
    requires a > 0
  {
    r % a == 0 && from <= r && forall m: nat :: m % a == 0 && from <= m ==> r <= m
  }

  /** Each field starts at the first multiple of its alignment after the field before it, or right there
      when packed. */
  lemma FieldTight(t: Target, ty: Type, k: nat)
    requires ValidTarget(t) && Concrete(t, ty) && ty.StructType? && k < FieldCount(ty)
    ensures Concrete(t, ty.body.fields[k])
    ensures ty.body.packed ==> FieldOffset(t, ty, k) == FieldEnd(t, ty, k)
    ensures !ty.body.packed ==>
      LeastMultiple(FieldOffset(t, ty, k), Align(t, ty.body.fields[k]), FieldEnd(t, ty, k))
  {
    StructShapeOf(t, ty);
    FieldsSnug(t, ty, |ty.body.fields|);
    assert Snug(t, ty, |ty.body.fields|, k);
    hide LayoutOf, PlaceFields, AlignTo;
    FieldPlaced(t, ty, k);
    if k > 0 {
      assert Snug(t, ty, |ty.body.fields|, k - 1);
      FieldPlaced(t, ty, k - 1);
    }
    hide LeastMultiple;
  }

  /** The struct ends at the first multiple of its own alignment after its last field; that alignment is
      the greatest of its fields', or 1. */
  lemma StructTight(t: Target, ty: Type)
    requires ValidTarget(t) && Concrete(t, ty) && ty.StructType?
    ensures ty.body.packed ==> Size(t, ty) == FieldEnd(t, ty, FieldCount(ty)) && Align(t, ty) == 1
    ensures !ty.body.packed ==>
      LeastMultiple(Size(t, ty), Align(t, ty), FieldEnd(t, ty, FieldCount(ty))) && HasAlign(t, ty, Align(t, ty))
  {
    StructShapeOf(t, ty);
    var n := |ty.body.fields|;
    var placed := PlaceFields(t, ty, n).value;
    FieldsSnug(t, ty, n);
    EndOfFields(t, ty);
    if !ty.body.packed && placed.align != 1 {
      var k: nat :| k < n && placed.fields[k].layout.align == placed.align;
      assert Snug(t, ty, n, k);
      assert AlignedBy(t, ty.body.fields[k], placed.align);
    }
    hide LayoutOf, PlaceFields, FieldEnd, Snug;
  }

  predicate AlignedBy(t: Target, ty: Type, a: nat)
    requires ValidTarget(t)
  {
    Concrete(t, ty) && Align(t, ty) == a
  }

  ghost predicate HasAlign(t: Target, ty: Type, a: nat)
    requires ValidTarget(t) && ty.StructType? && ty.body.Fields?
  {
    a == 1 || exists k: nat :: k < |ty.body.fields| && AlignedBy(t, ty.body.fields[k], a)
  }

  lemma EndOfFields(t: Target, ty: Type)
    requires ValidTarget(t) && Concrete(t, ty) && ty.StructType?
    ensures PlaceFields(t, ty, |ty.body.fields|).value.offset == FieldEnd(t, ty, FieldCount(ty))
  {
    StructShapeOf(t, ty);
    var n := |ty.body.fields|;
    FieldsSnug(t, ty, n);
    if n > 0 {
      assert Snug(t, ty, n, n - 1);
      FieldPlaced(t, ty, n - 1);
    }
    hide LayoutOf, PlaceFields, AlignTo, LeastMultiple;
  }

  /** Field k of the first n starts where it should. */
  ghost predicate Snug(t: Target, ty: Type, n: nat, k: nat)
    requires ValidTarget(t) && ty.StructType? && ty.body.Fields? && k < n <= |ty.body.fields|
    requires PlaceFields(t, ty, n).Ok?
  {
    var p, field := PlaceFields(t, ty, n).value.fields, LayoutOf(t, ty.body.fields[k]);
    var from := if k == 0 then 0 else p[k - 1].offset + p[k - 1].layout.size;
    && field.Ok? && p[k].layout == field.value.layout
    && (if ty.body.packed then p[k].offset == from else LeastMultiple(p[k].offset, field.value.layout.align, from))
  }

  lemma {:induction false} FieldsSnug(t: Target, ty: Type, n: nat)
    requires ValidTarget(t) && ty.StructType? && ty.body.Fields? && n <= |ty.body.fields| && PlaceFields(t, ty, n).Ok?
    ensures forall k: nat :: k < n ==> Snug(t, ty, n, k)
    ensures var p := PlaceFields(t, ty, n).value;
      && p.offset == (if n == 0 then 0 else p.fields[n - 1].offset + p.fields[n - 1].layout.size)
      && (p.align == 1 || exists k: nat :: k < n && p.fields[k].layout.align == p.align)
    decreases n
  {
    if n > 0 {
      FieldsSnug(t, ty, n - 1);
      SnugNext(t, ty, n);
      hide LayoutOf, PlaceFields;
      forall k: nat | k < n ensures Snug(t, ty, n, k) {
        if k < n - 1 {
          assert Snug(t, ty, n - 1, k);
        }
      }
    }
  }

  lemma SnugNext(t: Target, ty: Type, n: nat)
    requires ValidTarget(t) && ty.StructType? && ty.body.Fields? && 0 < n <= |ty.body.fields|
    requires PlaceFields(t, ty, n).Ok?
    ensures PlaceFields(t, ty, n - 1).Ok?
    ensures var p, q := PlaceFields(t, ty, n - 1).value, PlaceFields(t, ty, n).value;
      && q.fields[..n - 1] == p.fields && q.offset == q.fields[n - 1].offset + q.fields[n - 1].layout.size
      && (q.align == p.align || q.align == q.fields[n - 1].layout.align)
      && (p.offset == (if n == 1 then 0 else p.fields[n - 2].offset + p.fields[n - 2].layout.size) ==>
            Snug(t, ty, n, n - 1))
  {
    hide LayoutOf;
  }

  lemma ArrayAlign(t: Target, ty: Type)
    requires ValidTarget(t) && Concrete(t, ty) && ty.ArrayType?
    ensures Concrete(t, ty.elem) && Align(t, ty) == Align(t, ty.elem)
  {
    ArrayShapeOf(t, ty);
  }
}
