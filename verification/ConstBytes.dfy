/** Byte images of constants, and reading parts of them back (src/mir/lower.rs:2414-2488). */
module ConstBytes {
  import opened Bits
  import opened CoreInts
  import opened Ir
  import opened Layouts
  import opened LayoutPaths

  datatype Constant =
    | IntC(c: CoreInt, ty: Type)
    | ArrayC(elems: seq<Constant>, ty: Type)
    | StructC(fields: seq<Constant>, ty: Type)
    | StringC(text: seq<nat>, ty: Type)
    | NullC(ty: Type)

  type Bytes = seq<nat>

  /** Constants and their types go together, as the constant builder keeps them. */
  ghost predicate WellFormed(c: Constant)
    decreases c
  {
    match c
    case IntC(n, ty) => n.Valid() && ty == IntType(n.width)
    case ArrayC(elems, ty) =>
      ty.ArrayType? && |elems| == ty.length && forall i :: 0 <= i < |elems| ==>
        elems[i].ty == ty.elem && WellFormed(elems[i])
    case StructC(fields, ty) =>
      ty.StructType? && ty.body.Fields? && |fields| == |ty.body.fields|
      && forall i :: 0 <= i < |fields| ==> fields[i].ty == ty.body.fields[i] && WellFormed(fields[i])
    case StringC(text, ty) => ty.ArrayType? && ty.elem == IntType(8) && |text| <= ty.length && forall i ::
      0 <= i < |text| ==> text[i] < 256
    case NullC(_) => true
  }

  function Zeros(n: nat): (r: Bytes)
    ensures |r| == n && forall i :: 0 <= i < n ==> r[i] == 0
  {
    seq(n, _ => 0)
  }

  /** Cut off or filled with zeros to n bytes. */
  function Resize(s: Bytes, n: nat): (r: Bytes)
    ensures |r| == n
    ensures forall i :: 0 <= i < n && i < |s| ==> r[i] == s[i]
    ensures forall i :: |s| <= i < n ==> r[i] == 0
  {
    if n <= |s| then s[..n] else s + Zeros(n - |s|)
  }

  /** The low n bytes of a two's complement number, least significant first. */
  function LeBytes(v: int, n: nat): (r: Bytes)
    ensures |r| == n
    decreases n
  {
    if n == 0 then [] else [v % 256] + LeBytes(v / 256, n - 1)
  }

  function FromLe(s: Bytes): nat {
    if s == [] then 0 else s[0] + 256 * FromLe(s[1..])
  }

  /** The low k + 8 bits are one byte and the k bits above it. */
  lemma LeDigit(v: int, k: nat)
    ensures Low(k + 8, v) == 256 * Low(k, v / 256) + v % 256
  {
    var p := Pow2(k);
    PowAdd(8, k);
    assert Pow2(8) == 256;
    var q, r := (v / 256) / p, Low(k, v / 256);
    assert v / 256 == q * p + r;
    hide Pow2, Low;
    Regroup(q, p, r, v);
    DivModUnique(v, 256 * p, q, 256 * r + v % 256);
  }

  lemma Regroup(q: int, p: int, r: int, v: int)
    requires v / 256 == q * p + r
    ensures v == q * (256 * p) + (256 * r + v % 256)
  {
    assert 256 * (q * p) == q * (256 * p);
  }

  lemma {:induction false} LeRoundTrip(v: int, n: nat)
    ensures FromLe(LeBytes(v, n)) == Low(8 * n, v)
    decreases n
  {
    if n > 0 {
      LeRoundTrip(v / 256, n - 1);
      assert LeBytes(v, n)[1..] == LeBytes(v / 256, n - 1);
      LeDigit(v, 8 * (n - 1));
    } else {
      assert Pow2(0) == 1;
    }
  }

  lemma {:induction false} LePrefix(v: int, n: nat, m: nat)
    requires m <= n
    ensures LeBytes(v, n)[..m] == LeBytes(v, m)
    decreases m
  {
    if m > 0 {
      LePrefix(v / 256, n - 1, m - 1);
      assert LeBytes(v, n)[..m] == [v % 256] + LeBytes(v / 256, n - 1)[..m - 1];
    }
  }

  // ---------------------------------------------------------------- images

  /** A constant with a well-formed type that has a layout. */
  ghost predicate Ready(t: Target, c: Constant) {
    ValidTarget(t) && WellFormed(c) && Concrete(t, c.ty)
  }

  lemma ElementReady(t: Target, c: Constant, i: nat)
    requires Ready(t, c) && c.ArrayC? && i < |c.elems|
    ensures Ready(t, c.elems[i]) && c.elems[i].ty == c.ty.elem
  {
    ArrayShapeOf(t, c.ty);
  }

  lemma FieldReady(t: Target, c: Constant, i: nat)
    requires Ready(t, c) && c.StructC? && i < |c.fields|
    ensures Ready(t, c.fields[i]) && i < FieldCount(c.ty) && c.fields[i].ty == c.ty.body.fields[i]
  {
    FieldPlaced(t, c.ty, i);
  }

  function Image(t: Target, c: Constant): Bytes
    requires Ready(t, c)
    decreases c, PartCount(c) + 1
  {
    var size := Size(t, c.ty);
    match c
    case IntC(n, _) => Resize(LeBytes(n.AsI64(), 8), size)
    case ArrayC(elems, _) => Resize(ElementBytes(t, c, |elems|), size)
    case StructC(fields, _) => Resize(FieldBytes(t, c, |fields|), size)
    case StringC(text, _) => Resize(text, size)
    case NullC(_) => Zeros(size)
  }

  function PartCount(c: Constant): nat {
    if c.ArrayC? then |c.elems| else if c.StructC? then |c.fields| else 0
  }

  function ElementBytes(t: Target, c: Constant, k: nat): Bytes
    requires Ready(t, c) && c.ArrayC? && k <= |c.elems|
    decreases c, k
  {
    if k == 0 then []
    else
      ElementReady(t, c, k - 1);
      ElementBytes(t, c, k - 1) + Resize(Image(t, c.elems[k - 1]), ElemStride(t, c.ty))
  }

  function FieldBytes(t: Target, c: Constant, k: nat): Bytes
    requires Ready(t, c) && c.StructC? && k <= |c.fields|
    decreases c, k
  {
    if k == 0 then []
    else
      FieldReady(t, c, k - 1);
      Resize(FieldBytes(t, c, k - 1), FieldOffset(t, c.ty, k - 1)) + Image(t, c.fields[k - 1])
  }

  /** The image of a constant is exactly as long as its type is big. */
  lemma ImageSize(t: Target, c: Constant)
    requires Ready(t, c)
    ensures |Image(t, c)| == Size(t, c.ty)
  {
    hide Size, ElementBytes, FieldBytes, LeBytes;
  }

  lemma {:induction false} ElementsAt(t: Target, c: Constant, k: nat)
    requires Ready(t, c) && c.ArrayC? && k <= |c.elems|
    ensures |ElementBytes(t, c, k)| == k * ElemStride(t, c.ty)
    ensures forall i :: 0 <= i < k ==> ElementAt(t, c, k, i)
    decreases k
  {
    if k > 0 {
      ElementsAt(t, c, k - 1);
      ElementReady(t, c, k - 1);
      hide Ready, Image, ElemStride;
      assert k * ElemStride(t, c.ty) == (k - 1) * ElemStride(t, c.ty) + ElemStride(t, c.ty);
      forall i | 0 <= i < k ensures ElementAt(t, c, k, i) {
        ElementStays(t, c, k, i);
      }
    }
  }

  /** Element i's bytes stand at its offset, with zeros up to the next. */
  ghost predicate ElementAt(t: Target, c: Constant, k: nat, i: nat)
    requires Ready(t, c) && c.ArrayC? && i < k <= |c.elems|
  {
    var s := ElemStride(t, c.ty);
    ElementReady(t, c, i);
    && i * s + s <= |ElementBytes(t, c, k)|
    && ElementBytes(t, c, k)[i * s..i * s + s] == Resize(Image(t, c.elems[i]), s)
  }

  lemma AppendKeeps(before: Bytes, last: Bytes, a: nat, b: nat)
    requires a <= b <= |before|
    ensures (before + last)[a..b] == before[a..b]
  {
  }

  lemma AppendLast(before: Bytes, last: Bytes)
    ensures (before + last)[|before|..|before| + |last|] == last
  {
  }

  lemma ElementStep(t: Target, c: Constant, k: nat)
    requires Ready(t, c) && c.ArrayC? && 0 < k <= |c.elems|
    ensures Ready(t, c.elems[k - 1]) && c.ty.ArrayType?
    ensures ElementBytes(t, c, k) == ElementBytes(t, c, k - 1) + Resize(Image(t, c.elems[k - 1]), ElemStride(t, c.ty))
  {
    ElementReady(t, c, k - 1);
    hide WellFormed, Image, ElemStride, Resize;
  }

  lemma ElementStays(t: Target, c: Constant, k: nat, i: nat)
    requires Ready(t, c) && c.ArrayC? && i < k <= |c.elems|
    requires |ElementBytes(t, c, k - 1)| == (k - 1) * ElemStride(t, c.ty)
    requires i < k - 1 ==> ElementAt(t, c, k - 1, i)
    ensures ElementAt(t, c, k, i)
  {
    hide WellFormed, Concrete, Image, ElemStride, ElementBytes, Resize;
    ElementStep(t, c, k);
    var s := ElemStride(t, c.ty);
    ElementReady(t, c, i);
    var before, last := ElementBytes(t, c, k - 1), Resize(Image(t, c.elems[k - 1]), s);
    if i < k - 1 {
      AppendKeeps(before, last, i * s, i * s + s);
    } else {
      AppendLast(before, last);
    }
  }

  /** Field i's bytes stand at its offset. */
  ghost predicate FieldAt(t: Target, c: Constant, k: nat, i: nat)
    requires Ready(t, c) && c.StructC? && i < k <= |c.fields|
  {
    FieldReady(t, c, i);
    var o, n := FieldOffset(t, c.ty, i), Size(t, c.fields[i].ty);
    o + n <= |FieldBytes(t, c, k)| && FieldBytes(t, c, k)[o..o + n] == Image(t, c.fields[i])
  }

  /** Where the image of the first k fields ends. */
  ghost function FieldsEnd(t: Target, c: Constant, k: nat): nat
    requires Ready(t, c) && c.StructC? && k <= |c.fields|
  {
    if k == 0 then 0
    else
      FieldReady(t, c, k - 1);
      FieldOffset(t, c.ty, k - 1) + Size(t, c.fields[k - 1].ty)
  }

  /** Fields never start before the bytes already laid down end. */
  lemma FieldsInOrder(t: Target, c: Constant, k: nat)
    requires Ready(t, c) && c.StructC? && k < |c.fields|
    ensures k < FieldCount(c.ty) && FieldsEnd(t, c, k) <= FieldOffset(t, c.ty, k)
  {
    FieldReady(t, c, k);
    if k > 0 {
      FieldReady(t, c, k - 1);
      FieldPlaced(t, c.ty, k - 1);
    }
    hide FieldOffset, Size, Ready;
  }

  lemma {:induction false} FieldsAt(t: Target, c: Constant, k: nat)
    requires Ready(t, c) && c.StructC? && k <= |c.fields|
    ensures |FieldBytes(t, c, k)| == FieldsEnd(t, c, k)
    ensures forall i :: 0 <= i < k ==> FieldAt(t, c, k, i)
    decreases k
  {
    if k > 0 {
      FieldsAt(t, c, k - 1);
      FieldReady(t, c, k - 1);
      ImageSize(t, c.fields[k - 1]);
      FieldsInOrder(t, c, k - 1);
      hide Ready, Image, FieldOffset, Size;
      forall i | 0 <= i < k ensures FieldAt(t, c, k, i) {
        FieldStays(t, c, k, i);
      }
    }
  }

  lemma FieldStep(t: Target, c: Constant, k: nat)
    requires Ready(t, c) && c.StructC? && 0 < k <= |c.fields|
    ensures Ready(t, c.fields[k - 1]) && k <= FieldCount(c.ty)
    ensures FieldBytes(t, c, k)
      == Resize(FieldBytes(t, c, k - 1), FieldOffset(t, c.ty, k - 1)) + Image(t, c.fields[k - 1])
    ensures FieldsEnd(t, c, k - 1) <= FieldOffset(t, c.ty, k - 1)
    ensures |Image(t, c.fields[k - 1])| == Size(t, c.fields[k - 1].ty)
  {
    FieldReady(t, c, k - 1);
    ImageSize(t, c.fields[k - 1]);
    FieldsInOrder(t, c, k - 1);
    hide WellFormed, Image, FieldOffset, Resize, Size, FieldsEnd;
  }

  lemma FieldStays(t: Target, c: Constant, k: nat, i: nat)
    requires Ready(t, c) && c.StructC? && i < k <= |c.fields| && |FieldBytes(t, c, k - 1)| == FieldsEnd(t, c, k - 1)
    requires i < k - 1 ==> FieldAt(t, c, k - 1, i)
    ensures FieldAt(t, c, k, i)
  {
    hide WellFormed, Image, FieldOffset, Size, FieldBytes, Resize, FieldsEnd;
    FieldStep(t, c, k);
    FieldReady(t, c, i);
    var before, at, last := FieldBytes(t, c, k - 1), FieldOffset(t, c.ty, k - 1), Image(t, c.fields[k - 1]);
    var padded := Resize(before, at);
    if i < k - 1 {
      var o, n := FieldOffset(t, c.ty, i), Size(t, c.fields[i].ty);
      AppendKeeps(padded, last, o, o + n);
      ResizedSlice(before, at, o, o + n);
    } else {
      AppendLast(padded, last);
    }
  }

  // ---------------------------------------------------------------- reading parts back

  /** The constant at a path; a string's parts are its characters and then zeros, null's are null. */
  function SubConst(c: Constant, path: seq<nat>): Option<Constant>
    decreases |path|
  {
    if path == [] then Some(c)
    else match c
      case IntC(_, _) => None
      case ArrayC(elems, _) => if path[0] < |elems| then SubConst(elems[path[0]], path[1..]) else None
      case StructC(fields, _) => if path[0] < |fields| then SubConst(fields[path[0]], path[1..]) else None
      case StringC(text, ty) =>
        if ty.ArrayType? && path[0] < ty.length && |path| == 1
          then Some(IntC(CoreInt(if path[0] < |text| then text[path[0]] else 0, 8), IntType(8))) else None
      case NullC(ty) => if SubType(ty, path).Some? then Some(NullC(SubType(ty, path).value)) else None
  }

  /** Reading the image of a constant at the offset of any path gives the image of the constant there. */
  lemma {:induction false} PartImage(t: Target, c: Constant, path: seq<nat>)
    requires Ready(t, c) && SubConst(c, path).Some?
    ensures var part := SubConst(c, path).value;
      && Ready(t, part) && SubType(c.ty, path) == Some(part.ty)
      && var o := PathOffset(t, c.ty, path);
      o + Size(t, part.ty) <= |Image(t, c)| && Image(t, c)[o..o + Size(t, part.ty)] == Image(t, part)
    decreases |path|
  {
    ImageSize(t, c);
    if path == [] {
      hide Image, Ready, Size;
      assert Image(t, c)[0..|Image(t, c)|] == Image(t, c);
    } else {
      match c {
        case ArrayC(_, _) => ArrayPart(t, c, path);
        case StructC(_, _) => StructPart(t, c, path);
        case StringC(_, _) => StringPart(t, c, path);
        case NullC(_) =>
          PartInBounds(t, c.ty, path);
          hide Size, PathOffset, SubType;
      }
    }
  }

  /** A piece of a piece, seen through a resize that keeps it. */
  lemma PieceOfPiece(all: Bytes, size: nat, at: nat, whole: Bytes, o: nat, n: nat)
    requires at + |whole| <= |all| && at + |whole| <= size && all[at..at + |whole|] == whole && o + n <= |whole|
    ensures Resize(all, size)[at + o..at + o + n] == whole[o..o + n]
  {
    ResizedSlice(all, size, at, at + |whole|);
    var kept := Resize(all, size);
    hide Resize;
    assert kept[at..at + |whole|] == whole;
    forall j: nat | at <= j < at + |whole| ensures kept[j] == whole[j - at] {
      assert kept[at..at + |whole|][j - at] == kept[j];
    }
  }

  lemma ResizedSlice(s: Bytes, n: nat, a: nat, b: nat)
    requires a <= b <= |s| && b <= n
    ensures Resize(s, n)[a..b] == s[a..b]
  {
  }

  lemma ArrayPath(t: Target, c: Constant, path: seq<nat>)
    requires Ready(t, c) && c.ArrayC? && path != [] && SubConst(c, path).Some?
    ensures path[0] < |c.elems| && c.ty.ArrayType? && Ready(t, c.elems[path[0]])
    ensures SubConst(c, path) == SubConst(c.elems[path[0]], path[1..])
    ensures SubType(c.ty, path) == SubType(c.elems[path[0]].ty, path[1..])
    ensures SubType(c.ty, path).Some? ==>
      PathOffset(t, c.ty, path) == path[0] * ElemStride(t, c.ty) + PathOffset(t, c.elems[path[0]].ty, path[1..])
    ensures Image(t, c) == Resize(ElementBytes(t, c, |c.elems|), ElemStride(t, c.ty) * |c.elems|)
    ensures Size(t, c.elems[path[0]].ty) <= ElemStride(t, c.ty)
  {
    ElementReady(t, c, path[0]);
    ArrayShapeOf(t, c.ty);
    hide LayoutOf, AlignTo, ElementBytes, Resize, WellFormed;
  }

  lemma ArrayPart(t: Target, c: Constant, path: seq<nat>)
    requires Ready(t, c) && c.ArrayC? && path != [] && SubConst(c, path).Some? && |Image(t, c)| == Size(t, c.ty)
    ensures var part := SubConst(c, path).value;
      && Ready(t, part) && SubType(c.ty, path) == Some(part.ty)
      && var o := PathOffset(t, c.ty, path);
      o + Size(t, part.ty) <= |Image(t, c)| && Image(t, c)[o..o + Size(t, part.ty)] == Image(t, part)
    decreases |path|, 0
  {
    hide LayoutOf, Image, Size, ElemStride, ElementBytes, PathOffset, SubType, SubConst, Resize, AlignTo, WellFormed;
    ArrayPath(t, c, path);
    var i, rest := path[0], path[1..];
    var elem := c.elems[i];
    PartImage(t, elem, rest);
    ImageSize(t, elem);
    ElementsAt(t, c, |c.elems|);
    assert ElementAt(t, c, |c.elems|, i);
    var s, part := ElemStride(t, c.ty), SubConst(c, path).value;
    var all, o, n := ElementBytes(t, c, |c.elems|), PathOffset(t, elem.ty, rest), Size(t, part.ty);
    ArrayFits(i, |c.elems|, s);
    var slot := Resize(Image(t, elem), s);
    ResizedSlice(Image(t, elem), s, o, o + n);
    PieceOfPiece(all, s * |c.elems|, i * s, slot, o, n);
  }

  lemma ArrayFits(i: nat, n: nat, s: nat)
    requires i < n
    ensures i * s + s <= s * n
  {
    MulMonotone(i + 1, n, s);
  }

  lemma StructPath(t: Target, c: Constant, path: seq<nat>)
    requires Ready(t, c) && c.StructC? && path != [] && SubConst(c, path).Some?
    ensures path[0] < |c.fields| && path[0] < FieldCount(c.ty) && Ready(t, c.fields[path[0]])
    ensures SubConst(c, path) == SubConst(c.fields[path[0]], path[1..])
    ensures SubType(c.ty, path) == SubType(c.fields[path[0]].ty, path[1..])
    ensures SubType(c.ty, path).Some? ==>
      PathOffset(t, c.ty, path) == FieldOffset(t, c.ty, path[0]) + PathOffset(t, c.fields[path[0]].ty, path[1..])
    ensures Image(t, c) == Resize(FieldBytes(t, c, |c.fields|), Size(t, c.ty))
    ensures FieldOffset(t, c.ty, path[0]) + Size(t, c.fields[path[0]].ty) <= Size(t, c.ty)
  {
    FieldReady(t, c, path[0]);
    FieldPlaced(t, c.ty, path[0]);
    hide LayoutOf, FieldBytes, Resize, WellFormed;
  }

  lemma StructPart(t: Target, c: Constant, path: seq<nat>)
    requires Ready(t, c) && c.StructC? && path != [] && SubConst(c, path).Some? && |Image(t, c)| == Size(t, c.ty)
    ensures var part := SubConst(c, path).value;
      && Ready(t, part) && SubType(c.ty, path) == Some(part.ty)
      && var o := PathOffset(t, c.ty, path);
      o + Size(t, part.ty) <= |Image(t, c)| && Image(t, c)[o..o + Size(t, part.ty)] == Image(t, part)
    decreases |path|, 0
  {
    hide LayoutOf, Image, Size, FieldOffset, FieldBytes, PathOffset, SubType, SubConst, Resize, WellFormed;
    StructPath(t, c, path);
    var i, rest := path[0], path[1..];
    var field := c.fields[i];
    PartImage(t, field, rest);
    ImageSize(t, field);
    FieldsAt(t, c, |c.fields|);
    assert FieldAt(t, c, |c.fields|, i);
    PieceOfPiece(FieldBytes(t, c, |c.fields|), Size(t, c.ty), FieldOffset(t, c.ty, i), Image(t, field),
      PathOffset(t, field.ty, rest), Size(t, SubConst(c, path).value.ty));
  }

  lemma StringPart(t: Target, c: Constant, path: seq<nat>)
    requires Ready(t, c) && c.StringC? && path != [] && SubConst(c, path).Some? && |Image(t, c)| == Size(t, c.ty)
    ensures var part := SubConst(c, path).value;
      && Ready(t, part) && SubType(c.ty, path) == Some(part.ty)
      && var o := PathOffset(t, c.ty, path);
      o + Size(t, part.ty) <= |Image(t, c)| && Image(t, c)[o..o + Size(t, part.ty)] == Image(t, part)
  {
    StringPath(t, c, path);
    ByteImage(t, SubConst(c, path).value);
    ByteLayout(t);
    hide Size, PathOffset, SubType, SubConst, Image, WellFormed, LayoutOf, Concrete;
  }

  lemma StringPath(t: Target, c: Constant, path: seq<nat>)
    requires Ready(t, c) && c.StringC? && path != [] && SubConst(c, path).Some? && |Image(t, c)| == Size(t, c.ty)
    ensures var part := SubConst(c, path).value;
      && part.IntC? && part.ty == IntType(8) && Ready(t, part) && SubType(c.ty, path) == Some(part.ty)
      && PathOffset(t, c.ty, path) == path[0]
      && path[0] < |Image(t, c)| && Image(t, c)[path[0]] == part.c.value && Size(t, part.ty) == 1
  {
    assert Pow2(8) == 256;
    ByteLayout(t);
    ArrayShapeOf(t, c.ty);
    var i := path[0];
    assert path[1..] == [];
    hide LayoutOf, AlignTo;
    assert SubType(c.ty, path) == SubType(IntType(8), []);
    assert ElemStride(t, c.ty) == 1;
    assert PathOffset(t, c.ty, path) == i * 1 + PathOffset(t, IntType(8), []);
  }

  lemma ByteLayout(t: Target)
    requires ValidTarget(t)
    ensures LayoutOf(t, IntType(8)) == Ok(TypeLayout(Layout(1, 1), Scalar)) && AlignTo(1, 1) == 1
  {
  }

  lemma ByteImage(t: Target, c: Constant)
    requires Ready(t, c) && c.IntC? && c.ty == IntType(8)
    ensures Image(t, c) == [c.c.value]
  {
    assert Pow2(7) == 128 && Pow2(8) == 256;
    ByteLayout(t);
    LowSmall(8, c.c.value);
    var v := c.c.AsI64();
    assert v % 256 == c.c.value;
    assert LeBytes(v, 8) == [v % 256] + LeBytes(v / 256, 7);
    hide LeBytes;
  }

  /** An integer's bytes are its sign extension; keeping its width gives the integer back. */
  lemma IntRoundTrip(t: Target, c: Constant)
    requires Ready(t, c) && c.IntC?
    ensures c.c.Valid() && FromLe(Image(t, c)) == Low(8 * Size(t, c.ty), c.c.AsI64())
    ensures Low(c.c.width, FromLe(Image(t, c))) == c.c.value
  {
    var w, v := c.c.width, c.c.AsI64();
    var n := (w + 7) / 8;
    assert Size(t, c.ty) == n && n <= 8;
    assert Image(t, c) == LeBytes(v, 8)[..n];
    LePrefix(v, 8, n);
    LeRoundTrip(v, n);
    LowOfLow(w, 8 * n, v);
    hide LayoutOf;
    LowSmall(w, c.c.value);
    if w > 1 {
      LowSigned(w, c.c.value);
    }
  }

  /** Byte-image round trip: the integer found at the offset of any path into a lowered constant is the
      constant's own leaf. */
  lemma LeafRoundTrip(t: Target, c: Constant, path: seq<nat>)
    requires Ready(t, c) && SubConst(c, path).Some? && SubConst(c, path).value.IntC?
    ensures var leaf := SubConst(c, path).value;
      && SubType(c.ty, path) == Some(leaf.ty) && Concrete(t, leaf.ty) && leaf.c.Valid()
      && var o, n := PathOffset(t, c.ty, path), Size(t, leaf.ty);
      && o + n <= |Image(t, c)| == Size(t, c.ty) && FromLe(Image(t, c)[o..o + n]) == Low(8 * n, leaf.c.AsI64())
      && Low(leaf.c.width, FromLe(Image(t, c)[o..o + n])) == leaf.c.value
  {
    hide Image, Size, PathOffset, SubType, SubConst, WellFormed, FromLe;
    ImageSize(t, c);
    PartImage(t, c, path);
    IntRoundTrip(t, SubConst(c, path).value);
  }

  // ---------------------------------------------------------------- padding

  /** Byte b belongs to the integer at that path. */
  ghost predicate CoveredBy(t: Target, c: Constant, path: seq<nat>, b: nat)
    requires Ready(t, c)
  {
    && SubConst(c, path).Some? && SubConst(c, path).value.IntC? && SubType(c.ty, path).Some?
    && Concrete(t, SubConst(c, path).value.ty)
    && PathOffset(t, c.ty, path) <= b < PathOffset(t, c.ty, path) + Size(t, SubConst(c, path).value.ty)
  }

  /** Every byte that is not zero belongs to some integer in the constant: padding, what follows a string
      and everything null is zero. */
  lemma {:induction false} PaddingIsZero(t: Target, c: Constant, b: nat)
    requires Ready(t, c) && b < |Image(t, c)| && Image(t, c)[b] != 0
    ensures exists path :: CoveredBy(t, c, path, b)
    decreases c
  {
    ImageSize(t, c);
    match c {
      case IntC(_, _) => WholeCovered(t, c, b);
      case NullC(_) =>
      case StringC(_, _) => CharCovered(t, c, b);
      case ArrayC(_, _) =>
        var i := ElementNonZero(t, c, b);
        PaddingIsZero(t, c.elems[i], b - i * ElemStride(t, c.ty));
        var path :| CoveredBy(t, c.elems[i], path, b - i * ElemStride(t, c.ty));
        ElementCovered(t, c, b, i, path);
      case StructC(_, _) =>
        var i := FieldNonZero(t, c, b);
        PaddingIsZero(t, c.fields[i], b - FieldOffset(t, c.ty, i));
        var path :| CoveredBy(t, c.fields[i], path, b - FieldOffset(t, c.ty, i));
        FieldCovered(t, c, b, i, path);
    }
  }

  lemma WholeCovered(t: Target, c: Constant, b: nat)
    requires Ready(t, c) && c.IntC? && b < |Image(t, c)| == Size(t, c.ty)
    ensures CoveredBy(t, c, [], b)
  {
    hide LayoutOf;
  }

  lemma CharCovered(t: Target, c: Constant, b: nat)
    requires Ready(t, c) && c.StringC? && b < |Image(t, c)| == Size(t, c.ty) && Image(t, c)[b] != 0
    ensures CoveredBy(t, c, [b], b)
  {
    hide LayoutOf, PathOffset, SubType, Size;
    assert b < |c.text|;
    StringPath(t, c, [b]);
  }

  /** Which element a byte of an array that is not zero belongs to. */
  lemma ElementNonZero(t: Target, c: Constant, b: nat) returns (i: nat)
    requires Ready(t, c) && c.ArrayC? && b < |Image(t, c)| == Size(t, c.ty) && Image(t, c)[b] != 0
    ensures i < |c.elems| && Ready(t, c.elems[i]) && i * ElemStride(t, c.ty) <= b
    ensures var at := b - i * ElemStride(t, c.ty); at < |Image(t, c.elems[i])| && Image(t, c.elems[i])[at] != 0
  {
    hide Ready, Image, ElemStride, ElementBytes, Resize, ElementAt;
    IsArray(t, c);
    var all, s := ElementBytes(t, c, |c.elems|), ElemStride(t, c.ty);
    ElementsAt(t, c, |c.elems|);
    assert b < |all| && all[b] == Image(t, c)[b];
    i := Slot(b, |c.elems|, s);
    ElementReady(t, c, i);
    InSlot(t, c, b, i);
  }

  lemma IsArray(t: Target, c: Constant)
    requires Ready(t, c) && c.ArrayC?
    ensures ValidTarget(t) && Concrete(t, c.ty) && c.ty.ArrayType?
    ensures Image(t, c) == Resize(ElementBytes(t, c, |c.elems|), Size(t, c.ty))
  {
    hide LayoutOf, ElementBytes, Resize;
  }

  lemma InSlot(t: Target, c: Constant, b: nat, i: nat)
    requires Ready(t, c) && c.ArrayC? && i < |c.elems| && Ready(t, c.elems[i])
    requires ValidTarget(t) && Concrete(t, c.ty) && c.ty.ArrayType?
    requires ElementAt(t, c, |c.elems|, i)
    requires i * ElemStride(t, c.ty) <= b < i * ElemStride(t, c.ty) + ElemStride(t, c.ty)
    requires ElementBytes(t, c, |c.elems|)[b] != 0
    ensures var at := b - i * ElemStride(t, c.ty); at < |Image(t, c.elems[i])| && Image(t, c.elems[i])[at] != 0
  {
    hide Ready, Image, ElemStride, ElementBytes;
    var all, s := ElementBytes(t, c, |c.elems|), ElemStride(t, c.ty);
    var low := i * s;
    assert all[low..low + s][b - low] == all[b];
  }

  lemma Slot(b: nat, n: nat, s: nat) returns (i: nat)
    requires b < n * s
    ensures i < n && i * s <= b < i * s + s
  {
    if s == 0 {
      assert false;
    }
    i := b / s;
    assert i * s == s * i;
    if i >= n {
      MulMonotone(n, i, s);
      assert false;
    }
  }

  lemma ElementCovered(t: Target, c: Constant, b: nat, i: nat, path: seq<nat>)
    requires Ready(t, c) && c.ArrayC? && i < |c.elems| && Ready(t, c.elems[i]) && i * ElemStride(t, c.ty) <= b
    requires CoveredBy(t, c.elems[i], path, b - i * ElemStride(t, c.ty))
    ensures CoveredBy(t, c, [i] + path, b)
  {
    hide LayoutOf, Image, Size, ElemStride, ElementBytes, PathOffset, SubType, SubConst, Resize, WellFormed, Concrete;
    AtElement(t, c, i, path);
    ArrayPath(t, c, [i] + path);
  }

  lemma AtElement(t: Target, c: Constant, i: nat, path: seq<nat>)
    requires Ready(t, c) && c.ArrayC? && i < |c.elems|
    ensures ([i] + path)[1..] == path && SubConst(c, [i] + path) == SubConst(c.elems[i], path)
  {
    hide Ready;
  }

  /** Which of the first k fields a byte that is not zero belongs to. */
  lemma {:induction false} FieldWithByte(t: Target, c: Constant, b: nat, k: nat) returns (i: nat)
    requires Ready(t, c) && c.StructC? && k <= |c.fields| && b < |FieldBytes(t, c, k)| && FieldBytes(t, c, k)[b] != 0
    ensures FieldHolds(t, c, b, i)
    decreases k
  {
    hide Image, FieldOffset, Size, WellFormed, Concrete;
    if k == 0 {
      assert false;
    } else {
      FieldStep(t, c, k);
      FieldsAt(t, c, k - 1);
      var at := FieldOffset(t, c.ty, k - 1);
      if b < at {
        assert Resize(FieldBytes(t, c, k - 1), at)[b] != 0;
        i := FieldWithByte(t, c, b, k - 1);
      } else {
        i := k - 1;
      }
    }
  }

  ghost predicate FieldHolds(t: Target, c: Constant, b: nat, i: nat)
    requires Ready(t, c) && c.StructC?
  {
    i < |c.fields| && i < FieldCount(c.ty) && Ready(t, c.fields[i]) && FieldOffset(t, c.ty, i) <= b
    && b - FieldOffset(t, c.ty, i) < |Image(t, c.fields[i])| && Image(t, c.fields[i])[b - FieldOffset(t, c.ty, i)] != 0
  }

  lemma FieldNonZero(t: Target, c: Constant, b: nat) returns (i: nat)
    requires Ready(t, c) && c.StructC? && b < |Image(t, c)| && Image(t, c)[b] != 0
    ensures FieldHolds(t, c, b, i)
  {
    hide FieldHolds, FieldBytes, WellFormed, Concrete, Size;
    i := FieldWithByte(t, c, b, |c.fields|);
  }

  lemma FieldCovered(t: Target, c: Constant, b: nat, i: nat, path: seq<nat>)
    requires Ready(t, c) && c.StructC? && FieldHolds(t, c, b, i)
    requires CoveredBy(t, c.fields[i], path, b - FieldOffset(t, c.ty, i))
    ensures CoveredBy(t, c, [i] + path, b)
  {
    hide LayoutOf, Image, Size, FieldOffset, FieldBytes, PathOffset, SubType, SubConst, Resize, WellFormed, Concrete;
    AtField(t, c, i, path);
    StructPath(t, c, [i] + path);
  }

  lemma AtField(t: Target, c: Constant, i: nat, path: seq<nat>)
    requires Ready(t, c) && c.StructC? && i < |c.fields|
    ensures ([i] + path)[1..] == path && SubConst(c, [i] + path) == SubConst(c.fields[i], path)
  {
    hide Ready;
  }

  // ---------------------------------------------------------------- the lowering

  /** The bytes of a constant, or the error of a type without a layout. The checks on the way, that no
      element exceeds its stride, no field starts too early and no string is too long, never fail. */
  method LowerConstData(engine: TypeLayoutEngine, c: Constant) returns (r: Result<Bytes>)
    requires engine.Valid() && WellFormed(c)
    modifies engine
    ensures engine.Valid()
    ensures r == if Concrete(engine.target, c.ty) then Ok(Image(engine.target, c))
      else Err(LayoutOf(engine.target, c.ty).error)
    decreases c
  {
    hide LayoutOf;
    var layout := engine.Query(c.ty);
    if layout.Err? {
      return Err(layout.error);
    }
    var t := engine.target;
    match c {
      case IntC(n, ty) =>
        r := Ok(LowerInt(t, n, ty));
      case ArrayC(elems, ty) =>
        ArrayShapeOf(t, ty);
        ShapeKnown(t, ty);
        var stride := layout.value.shape.stride;
        var bytes: Bytes := [];
        for k := 0 to |elems|
          invariant engine.Valid() && bytes == ElementBytes(t, c, k)
        {
          ElementReady(t, c, k);
          ImageSize(t, elems[k]);
          var elementBytes := LowerConstData(engine, elems[k]);
          assert |elementBytes.value| <= stride;
          bytes := bytes + Resize(elementBytes.value, stride);
        }
        r := Ok(Resize(bytes, layout.value.layout.size));
      case StructC(fields, ty) =>
        ShapeKnown(t, ty);
        var bytes: Bytes := [];
        for k := 0 to |fields|
          invariant engine.Valid() && bytes == FieldBytes(t, c, k)
        {
          FieldReady(t, c, k);
          FieldsAt(t, c, k);
          FieldsInOrder(t, c, k);
          var offset := layout.value.shape.fields[k].offset;
          assert offset >= |bytes|;
          bytes := Resize(bytes, offset);
          var fieldBytes := LowerConstData(engine, fields[k]);
          bytes := bytes + fieldBytes.value;
        }
        r := Ok(Resize(bytes, layout.value.layout.size));
      case StringC(text, ty) =>
        ByteLayout(t);
        ArrayShapeOf(t, ty);
        assert |text| <= layout.value.layout.size;
        r := Ok(Resize(text, layout.value.layout.size));
      case NullC(_) =>
        r := Ok(Zeros(layout.value.layout.size));
    }
  }

  /** The first bytes of an integer's 64-bit form: its type never needs more than eight. */
  function LowerInt(t: Target, n: CoreInt, ty: Type): (r: Bytes)
    requires ValidTarget(t) && n.Valid() && ty == IntType(n.width) && Concrete(t, ty)
    ensures r == Image(t, IntC(n, ty))
  {
    LeBytes(n.AsI64(), 8)[..Size(t, ty)]
  }

  /** The bytes of a global: its initialiser's, or zeros, exactly as many as its type has. */
  method LowerConstant(engine: TypeLayoutEngine, ty: Type, constant: Option<Constant>) returns (r: Result<Bytes>)
    requires engine.Valid() && (constant.Some? ==> WellFormed(constant.value) && constant.value.ty == ty)
    modifies engine
    ensures engine.Valid() && (r.Ok? <==> Concrete(engine.target, ty))
    ensures r.Ok? ==> |r.value| == Size(engine.target, ty)
    ensures r.Ok? ==> r.value == if constant.Some? then Image(engine.target, constant.value)
      else Zeros(Size(engine.target, ty))
  {
    hide LayoutOf;
    var layout := engine.Query(ty);
    if layout.Err? {
      return Err(layout.error);
    }
    var size := layout.value.layout.size;
    if constant.Some? {
      r := LowerConstData(engine, constant.value);
      ImageSize(engine.target, constant.value);
      assert |r.value| <= size;
      r := Ok(Resize(r.value, size));
      assert r.value == Image(engine.target, constant.value);
    } else {
      r := Ok(Zeros(size));
    }
  }
}
