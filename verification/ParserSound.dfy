/** What the parser reads is what was written: every expression it accepts is grouped as the priorities
    demand, and its tokens are the ones read (src/ast/expr.rs:142-243). The converse of the round trip. */
module ParserSound {
  import opened CoreInts
  import opened ParserSpec

  // ---------------------------------------------------------------- tokens up to closing commas

  /** Without the commas directly in front of a closing parenthesis: `(a, b,)` is `(a, b)`. */
  function Norm(t: seq<Token>): (r: seq<Token>)
    decreases |t|
  {
    if t == [] then []
    else if |t| > 1 && t[0].Comma? && t[1].ClosePar? then Norm(t[1..])
    else [t[0]] + Norm(t[1..])
  }

  lemma {:induction false} NormAppend(a: seq<Token>, b: seq<Token>)
    requires a == [] || b == [] || !a[|a| - 1].Comma? || !b[0].ClosePar?
    ensures Norm(a + b) == Norm(a) + Norm(b)
    decreases |a|
  {
    if a == [] {
      assert a + b == b;
    } else if b == [] {
      assert a + b == a;
    } else {
      assert (a + b)[1..] == a[1..] + b;
      NormAppend(a[1..], b);
      if |a| == 1 {
        assert a[1..] == [];
        assert Norm(a) == [a[0]];
      } else {
        assert (a + b)[1] == a[1];
      }
    }
  }

  lemma NormOne(t: Token)
    ensures Norm([t]) == [t]
  {
    assert [t][1..] == [];
  }

  lemma NormInfix(a: seq<Token>, t: Token, b: seq<Token>)
    requires !t.Comma? && !t.ClosePar?
    ensures Norm(a + [t] + b) == Norm(a) + [t] + Norm(b)
  {
    NormAppend(a, [t]);
    NormAppend(a + [t], b);
    assert Norm([t]) == [t];
  }

  lemma Slices(s: seq<Token>, a: nat, b: nat, c: nat)
    requires a <= b <= c <= |s|
    ensures s[a..c] == s[a..b] + s[b..c]
    ensures b < c ==> s[a..c] == s[a..b] + [s[b]] + s[b + 1..c]
  {
  }

  // ---------------------------------------------------------------- what has been read

  /** The tokens between the positions spell the expression, which is grouped as it should be. */
  ghost predicate Spelled(s: seq<Token>, from: nat, to: nat, k: Kind, min: nat) {
    && from <= to <= |s| && Norm(s[from..to]) == Norm(Print(Expr(k, 0))) && WellGrouped(Expr(k, 0))
    && Priority(Expr(k, 0)) >= min && (to < |s| ==> StopsEdge(s[to], Expr(k, 0)))
  }

  /** The same for a finished expression: what follows does not continue it. */
  ghost predicate Read(s: seq<Token>, from: nat, to: nat, e: Expr, min: nat) {
    Spelled(s, from, to, e.kind, min) && to < |s| && Stops(s[to], min)
  }

  lemma NumberIsNothing(k: Kind, id: nat)
    ensures Print(Expr(k, id)) == Print(Expr(k, 0)) && Priority(Expr(k, id)) == Priority(Expr(k, 0))
    ensures WellGrouped(Expr(k, id)) == WellGrouped(Expr(k, 0))
    ensures forall t :: StopsEdge(t, Expr(k, id)) == StopsEdge(t, Expr(k, 0))
  {
    if k.Tup? || k.Call? {
      SameItems(k, id, 0, if k.Tup? then k.force else false);
    }
  }

  lemma {:induction false} SameItems(k: Kind, id: nat, i: nat, force: bool)
    requires (k.Tup? || k.Call?) && i <= |k.elems|
    ensures PrintItems(Expr(k, id), i, force) == PrintItems(Expr(k, 0), i, force)
    decreases |k.elems| - i
  {
    if i < |k.elems| {
      SameItems(k, id, i + 1, force);
    }
  }

  // ---------------------------------------------------------------- the four parsing functions

  lemma {:induction false} ExprSound(s: seq<Token>, pos: nat, id: nat, min: nat)
    requires ParseExpr(s, pos, id, min).Done? && min <= UNARY_PRIORITY + 1
    ensures var r := ParseExpr(s, pos, id, min); Read(s, pos, r.pos, r.value, min)
    decreases |s| - pos, 4
  {
    hide Print, Priority, WellGrouped, StopsEdge, Stops, ParseTail, ParsePrimary, Norm;
    PrimarySound(s, pos, id, min);
    var p := ParsePrimary(s, pos, id);
    TailSound(s, pos, p.value, p.pos, p.id, min);
  }

  /** What starts an expression holds together more tightly than any operator. */
  lemma {:induction false} PrimarySound(s: seq<Token>, pos: nat, id: nat, min: nat)
    requires ParsePrimary(s, pos, id).Done? && min <= UNARY_PRIORITY + 1
    ensures var p := ParsePrimary(s, pos, id); Spelled(s, pos, p.pos, p.value, min)
    decreases |s| - pos, 2
  {
    var p := ParsePrimary(s, pos, id);
    if ToUnOp(s[pos]).Some? && !s[pos].Ident? {
      ExprSound(s, pos + 1, id, UNARY_PRIORITY + 1);
      UnarySpelled(s, pos, id, min);
    } else if s[pos].OpenPar? {
      ItemsSound(s, pos + 1, id, [], false);
      TupSpelled(s, pos, id, min);
    } else {
      assert s[pos..p.pos] == [s[pos]];
      assert Print(Expr(p.value, 0)) == [s[pos]];
    }
  }

  lemma UnarySpelled(s: seq<Token>, pos: nat, id: nat, min: nat)
    requires pos < |s| && ToUnOp(s[pos]).Some? && !s[pos].Ident? && min <= UNARY_PRIORITY + 1
    requires ParseExpr(s, pos + 1, id, UNARY_PRIORITY + 1).Done?
    requires var x := ParseExpr(s, pos + 1, id, UNARY_PRIORITY + 1); Read(s, pos + 1, x.pos, x.value,
      UNARY_PRIORITY + 1)
    ensures var p := ParsePrimary(s, pos, id); p.Done? && Spelled(s, pos, p.pos, p.value, min)
  {
    hide ParseExpr, Norm;
    var x := ParseExpr(s, pos + 1, id, UNARY_PRIORITY + 1);
    var op := ToUnOp(s[pos]).value;
    NumberIsNothing(x.value.kind, x.value.id);
    assert x.value == Expr(x.value.kind, x.value.id);
    Slices(s, pos, pos, x.pos);
    NormInfix([], s[pos], s[pos + 1..x.pos]);
    NormInfix([], s[pos], Print(x.value));
    assert s[pos..x.pos] == [] + [s[pos]] + s[pos + 1..x.pos];
    assert Print(Expr(Unary(op, x.value), 0)) == [] + [s[pos]] + Print(x.value);
  }

  // ---------------------------------------------------------------- lists

  /** A list from element i on: a comma between elements, none at the end. */
  function ListTokens(elems: seq<Expr>, i: nat): seq<Token>
    requires i <= |elems|
    decreases |elems| - i
  {
    if i == |elems| then [ClosePar]
    else if i + 1 == |elems| then Norm(Print(elems[i])) + [ClosePar]
    else Norm(Print(elems[i])) + [Comma] + ListTokens(elems, i + 1)
  }

  lemma NormComma(a: seq<Token>, b: seq<Token>)
    requires b != [] && !b[0].ClosePar?
    ensures Norm(a + [Comma] + b) == Norm(a) + [Comma] + Norm(b)
  {
    NormAppend(a, [Comma]);
    NormAppend(a + [Comma], b);
    assert Norm([Comma]) == [Comma];
  }

  /** A comma in front of the closing parenthesis goes. */
  lemma NormClosing(a: seq<Token>)
    ensures Norm(a + [Comma] + [ClosePar]) == Norm(a) + [ClosePar]
  {
    NormAppend(a, [Comma, ClosePar]);
    assert a + [Comma] + [ClosePar] == a + [Comma, ClosePar];
    assert [Comma, ClosePar][1..] == [ClosePar];
    assert Norm([ClosePar]) == [ClosePar];
  }

  lemma NormClose(a: seq<Token>)
    requires a == [] || !a[|a| - 1].Comma?
    ensures Norm(a + [ClosePar]) == Norm(a) + [ClosePar]
  {
    NormAppend(a, [ClosePar]);
    assert Norm([ClosePar]) == [ClosePar];
  }

  /** The last token is never dropped. */
  lemma {:induction false} NormLast(t: seq<Token>)
    requires t != []
    ensures Norm(t) != [] && Norm(t)[|Norm(t)| - 1] == t[|t| - 1]
    decreases |t|
  {
    if |t| > 1 {
      NormLast(t[1..]);
    } else {
      assert t[1..] == [];
    }
  }

  lemma {:induction false} PrintEnds(e: Expr)
    ensures !Print(e)[|Print(e)| - 1].Comma?
    decreases e
  {
    match e.kind {
      case Unary(op, x) => PrintEnds(x); EndOf([UnToken(op)], Print(x));
      case Binary(op, l, r) => PrintEnds(r); EndOf(Print(l) + [BinToken(op)], Print(r));
      case Assign(l, r) => PrintEnds(r); EndOf(Print(l) + [Token.Eq], Print(r));
      case AssignWith(op, l, r) => PrintEnds(r); EndOf(Print(l) + [AssignTok(op)], Print(r));
      case Tup(_, force) => ItemsEnd(e, 0, force); EndOf([OpenPar], PrintItems(e, 0, force));
      case Call(f, _) => ItemsEnd(e, 0, false); EndOf(Print(f) + [OpenPar], PrintItems(e, 0, false));
      case Cast(v, ty) => EndOf(Print(v), [As, Ident(ty.name)]);
      case Path(_) =>
      case Lit(_) =>
    }
    hide Print, PrintItems;
  }

  lemma EndOf(a: seq<Token>, b: seq<Token>)
    requires b != []
    ensures (a + b)[|a + b| - 1] == b[|b| - 1]
  {
  }

  lemma {:induction false} ItemsEnd(e: Expr, i: nat, force: bool)
    requires i <= |Items(e)|
    ensures PrintItems(e, i, force)[|PrintItems(e, i, force)| - 1] == ClosePar
    decreases |Items(e)| - i
  {
    hide Print;
    if i < |Items(e)| {
      PrintNext(e, i, force);
      ItemsEnd(e, i + 1, force);
    }
  }

  lemma {:induction false} ListIsPrinted(e: Expr, i: nat, force: bool)
    requires i <= |Items(e)|
    ensures Norm(PrintItems(e, i, force)) == ListTokens(Items(e), i)
    decreases |Items(e)| - i
  {
    hide Print;
    if i == |Items(e)| {
      NormClose([]);
    } else {
      var x := Items(e)[i];
      PrintNext(e, i, force);
      PrintEnds(x);
      if i + 1 < |Items(e)| {
        ListIsPrinted(e, i + 1, force);
        FirstToken(Items(e)[i + 1]);
        PrintNext(e, i + 1, force);
        NormComma(Print(x), PrintItems(e, i + 1, force));
      } else if force && |Items(e)| == 1 {
        NormClosing(Print(x));
      } else {
        NormClose(Print(x));
        assert Print(x) + [] + [ClosePar] == Print(x) + [ClosePar];
      }
    }
  }

  /** What a list that is read gives. */
  ghost predicate ListRead(s: seq<Token>, pos: nat, n: nat, elems: seq<Expr>, force: bool, to: nat) {
    && n <= |elems| && pos < to <= |s| && Norm(s[pos..to]) == ListTokens(elems, n)
    && (forall j :: n <= j < |elems| ==> WellGrouped(elems[j]))
    && (force ==> elems != []) && (|elems| > 1 ==> force)
    && (|elems| == n ==> s[pos].ClosePar?) && (s[pos].ClosePar? ==> |elems| == n && to == pos + 1)
  }

  lemma {:induction false} ItemsSound(s: seq<Token>, pos: nat, id: nat, acc: seq<Expr>, force: bool)
    requires ParseItems(s, pos, id, acc, force).Done? && (force <==> acc != [])
    ensures var r := ParseItems(s, pos, id, acc, force);
      acc <= r.value.0 && ListRead(s, pos, |acc|, r.value.0, r.value.1, r.pos)
    decreases |s| - pos, 5
  {
    hide ParseExpr, Print, WellGrouped, Priority, Stops, StopsEdge, Norm, Spelled;
    if s[pos].ClosePar? {
      NormOne(ClosePar);
      assert s[pos..pos + 1] == [ClosePar];
    } else {
      var e := ParseExpr(s, pos, id, 0);
      ExprSound(s, pos, id, 0);
      if s[e.pos].Comma? {
        ItemsSound(s, e.pos + 1, e.id, acc + [e.value], true);
      }
      ListStep(s, pos, id, acc, force);
    }
  }

  /** One element of a list and what follows it. */
  lemma ListStep(s: seq<Token>, pos: nat, id: nat, acc: seq<Expr>, force: bool)
    requires pos < |s| && !s[pos].ClosePar? && ParseItems(s, pos, id, acc, force).Done? && (force <==> acc != [])
    requires var e := ParseExpr(s, pos, id, 0); e.Done? && Read(s, pos, e.pos, e.value, 0)
    requires var e := ParseExpr(s, pos, id, 0); s[e.pos].Comma? ==>
      var r := ParseItems(s, e.pos + 1, e.id, acc + [e.value], true);
      r.Done? && acc + [e.value] <= r.value.0 && ListRead(s, e.pos + 1, |acc| + 1, r.value.0, r.value.1, r.pos)
    ensures var r := ParseItems(s, pos, id, acc, force);
      acc <= r.value.0 && ListRead(s, pos, |acc|, r.value.0, r.value.1, r.pos)
  {
    hide ParseExpr, Print, WellGrouped, Priority, Stops, StopsEdge, Norm;
    var e := ParseExpr(s, pos, id, 0);
    var r := ParseItems(s, pos, id, acc, force);
    var elems, x := r.value.0, s[pos..e.pos];
    NumberIsNothing(e.value.kind, e.value.id);
    assert e.value == Expr(e.value.kind, e.value.id) == elems[|acc|];
    if s[e.pos].Comma? {
      Slices(s, pos, e.pos, r.pos);
      var rest := s[e.pos + 1..r.pos];
      assert s[pos..r.pos] == x + [Comma] + rest;
      if s[e.pos + 1].ClosePar? {
        assert rest == [ClosePar];
        NormClosing(x);
      } else {
        NormComma(x, rest);
      }
    } else {
      Slices(s, pos, e.pos, r.pos);
      assert s[pos..r.pos] == x + [ClosePar];
      EndsAlike(x, Print(e.value));
      PrintEnds(e.value);
      NormClose(x);
    }
  }

  lemma EndsAlike(a: seq<Token>, b: seq<Token>)
    requires a != [] && b != [] && Norm(a) == Norm(b)
    ensures a[|a| - 1] == b[|b| - 1]
  {
    NormLast(a);
    NormLast(b);
  }

  lemma TupSpelled(s: seq<Token>, pos: nat, id: nat, min: nat)
    requires pos < |s| && s[pos].OpenPar? && min <= UNARY_PRIORITY + 1 && ParseItems(s, pos + 1, id, [], false).Done?
    requires var r := ParseItems(s, pos + 1, id, [], false); ListRead(s, pos + 1, 0, r.value.0, r.value.1, r.pos)
    ensures var p := ParsePrimary(s, pos, id); p.Done? && Spelled(s, pos, p.pos, p.value, min)
  {
    hide ParseItems, Norm, Print, PrintItems, ListTokens;
    var r := ParseItems(s, pos + 1, id, [], false);
    var e := Expr(Tup(r.value.0, r.value.1), 0);
    ListIsPrinted(e, 0, r.value.1);
    NormInfix([], OpenPar, s[pos + 1..r.pos]);
    NormInfix([], OpenPar, PrintItems(e, 0, r.value.1));
    assert s[pos..r.pos] == [] + [OpenPar] + s[pos + 1..r.pos];
    TupPrinted(e);
  }

  lemma TupPrinted(e: Expr)
    requires e.kind.Tup?
    ensures Print(e) == [] + [OpenPar] + PrintItems(e, 0, e.kind.force) && Items(e) == e.kind.elems
  {
    hide PrintItems;
  }

  // ---------------------------------------------------------------- the tail

  lemma {:induction false} TailSound(s: seq<Token>, from: nat, k: Kind, pos: nat, id: nat, min: nat)
    requires ParseTail(s, k, pos, id, min).Done? && min <= UNARY_PRIORITY + 1 && Spelled(s, from, pos, k, min)
    ensures var r := ParseTail(s, k, pos, id, min);
      Spelled(s, from, r.pos, r.value, min) && r.pos < |s| && Stops(s[r.pos], min)
    decreases |s| - pos, 2
  {
    hide Spelled, ParseExpr, ParseItems, Read, ListRead;
    if s[pos].OpenPar? {
      var xs := ParseItems(s, pos + 1, id, [], false);
      ItemsSound(s, pos + 1, id, [], false);
      CallSpelled(s, from, pos, k, min, xs.value.0, xs.value.1, xs.pos, xs.id);
      TailSound(s, from, Call(Expr(k, xs.id), xs.value.0), xs.pos, xs.id + 1, min);
    } else if s[pos].As? && CAST_PRIORITY >= min {
      var ty := ParseTy(s, pos + 1, id);
      CastSpelled(s, from, pos, k, min, ty.value, ty.id);
      TailSound(s, from, Cast(Expr(k, ty.id), ty.value), ty.pos, ty.id + 1, min);
    } else if ToBinOp(s[pos]).Some? && BinPriority(ToBinOp(s[pos]).value) >= min {
      var op := ToBinOp(s[pos]).value;
      var r := ParseExpr(s, pos + 1, id, BinPriority(op) + 1);
      ExprSound(s, pos + 1, id, BinPriority(op) + 1);
      BinSpelled(s, from, pos, k, min, op, r.value, r.pos, r.id);
      TailSound(s, from, Binary(op, Expr(k, r.id), r.value), r.pos, r.id + 1, min);
    } else if s[pos].Eq? && ASSIGN_PRIORITY >= min {
      var r := ParseExpr(s, pos + 1, id, ASSIGN_PRIORITY + 1);
      ExprSound(s, pos + 1, id, ASSIGN_PRIORITY + 1);
      AssignSpelled(s, from, pos, k, min, Assign(Expr(k, r.id), r.value), r.pos);
      TailSound(s, from, Assign(Expr(k, r.id), r.value), r.pos, r.id + 1, min);
    } else if ToAssignOp(s[pos]).Some? && ASSIGN_PRIORITY >= min {
      var r := ParseExpr(s, pos + 1, id, ASSIGN_PRIORITY + 1);
      ExprSound(s, pos + 1, id, ASSIGN_PRIORITY + 1);
      AssignSpelled(s, from, pos, k, min, AssignWith(ToAssignOp(s[pos]).value, Expr(k, r.id), r.value), r.pos);
      TailSound(s, from, AssignWith(ToAssignOp(s[pos]).value, Expr(k, r.id), r.value), r.pos, r.id + 1, min);
    }
  }

  lemma CallSpelled(s: seq<Token>, from: nat, pos: nat, k: Kind, min: nat, elems: seq<Expr>, force: bool, to: nat,
                    idk: nat)
    requires pos < |s| && s[pos].OpenPar? && Spelled(s, from, pos, k, min) && ListRead(s, pos + 1, 0, elems, force, to)
    ensures Spelled(s, from, to, Call(Expr(k, idk), elems), min)
  {
    var e := Expr(Call(Expr(k, idk), elems), 0);
    CallPrinted(k, idk, elems);
    CalleeByEdge(k, idk);
    hide Norm, Print, PrintItems, StopsEdge;
    NumberIsNothing(k, idk);
    ListIsPrinted(e, 0, false);
    Slices(s, from, pos, to);
    NormInfix(s[from..pos], OpenPar, s[pos + 1..to]);
    NormInfix(Print(Expr(k, 0)), OpenPar, PrintItems(e, 0, false));
    NoEdge(e);
  }

  lemma CallPrinted(k: Kind, idk: nat, elems: seq<Expr>)
    ensures var e := Expr(Call(Expr(k, idk), elems), 0);
      Print(e) == Print(Expr(k, 0)) + [OpenPar] + PrintItems(e, 0, false) && Items(e) == elems
  {
    NumberIsNothing(k, idk);
    hide PrintItems;
  }

  lemma CalleeByEdge(k: Kind, idk: nat)
    ensures StopsEdge(OpenPar, Expr(k, 0)) ==> Callee(Expr(k, idk))
  {
  }

  lemma NoEdge(e: Expr)
    requires e.kind.Call? || e.kind.Cast?
    ensures forall t :: StopsEdge(t, e)
  {
  }

  lemma CastSpelled(s: seq<Token>, from: nat, pos: nat, k: Kind, min: nat, ty: Ty, idk: nat)
    requires pos + 2 < |s| && s[pos].As? && s[pos + 1] == Ident(ty.name) && Spelled(s, from, pos, k, min)
    requires CAST_PRIORITY >= min
    ensures Spelled(s, from, pos + 2, Cast(Expr(k, idk), ty), min)
  {
    NumberIsNothing(k, idk);
    var e := Expr(Cast(Expr(k, idk), ty), 0);
    assert Print(e) == Print(Expr(k, 0)) + [As] + [Ident(ty.name)];
    assert s[from..pos + 2] == s[from..pos] + [As] + [Ident(ty.name)];
    NoEdge(e);
    CallTight(k);
    hide Norm, Print;
    NormOne(Ident(ty.name));
    NormInfix(s[from..pos], As, [Ident(ty.name)]);
    NormInfix(Print(Expr(k, 0)), As, [Ident(ty.name)]);
  }

  lemma BinSpelled(s: seq<Token>, from: nat, pos: nat, k: Kind, min: nat, op: BinOp, r: Expr, to: nat, idk: nat)
    requires pos < |s| && ToBinOp(s[pos]) == Some(op) && BinPriority(op) >= min && Spelled(s, from, pos, k, min)
    requires Read(s, pos + 1, to, r, BinPriority(op) + 1)
    ensures Spelled(s, from, to, Binary(op, Expr(k, idk), r), min)
  {
    NumberIsNothing(k, idk);
    NumberIsNothing(r.kind, r.id);
    assert r == Expr(r.kind, r.id);
    var e := Expr(Binary(op, Expr(k, idk), r), 0);
    assert BinToken(op) == s[pos];
    assert Print(e) == Print(Expr(k, 0)) + [s[pos]] + Print(r);
    LeftHolds(k, s[pos], op);
    hide Norm, Print;
    Slices(s, from, pos, to);
    NormInfix(s[from..pos], s[pos], s[pos + 1..to]);
    NormInfix(Print(Expr(k, 0)), s[pos], Print(r));
  }

  /** An operator that does not continue the left operand's last operand binds no tighter than it. */
  lemma LeftHolds(k: Kind, t: Token, op: BinOp)
    requires ToBinOp(t) == Some(op) && StopsEdge(t, Expr(k, 0)) && WellGrouped(Expr(k, 0))
    ensures Priority(Expr(k, 0)) >= BinPriority(op)
  {
    CallTight(k);
  }

  lemma {:induction false} CallTight(k: Kind)
    requires WellGrouped(Expr(k, 0))
    ensures k.Call? ==> Priority(Expr(k, 0)) >= CAST_PRIORITY
    decreases k
  {
    if k.Call? {
      NumberIsNothing(k.callee.kind, k.callee.id);
      assert k.callee == Expr(k.callee.kind, k.callee.id);
      CallTight(k.callee.kind);
    }
  }

  lemma AssignSpelled(s: seq<Token>, from: nat, pos: nat, k: Kind, min: nat, k': Kind, to: nat)
    requires pos < |s| && Spelled(s, from, pos, k, min) && ASSIGN_PRIORITY >= min
    requires (k'.Assign? && s[pos].Eq?) || (k'.AssignWith? && s[pos] == AssignTok(k'.aop))
    requires k'.lhs.kind == k && Read(s, pos + 1, to, k'.rhs, ASSIGN_PRIORITY + 1)
    ensures Spelled(s, from, to, k', min)
  {
    var l, r := k'.lhs, k'.rhs;
    NumberIsNothing(k, l.id);
    NumberIsNothing(r.kind, r.id);
    assert l == Expr(k, l.id) && r == Expr(r.kind, r.id);
    assert Print(Expr(k', 0)) == Print(Expr(k, 0)) + [s[pos]] + Print(r);
    hide Norm, Print;
    Slices(s, from, pos, to);
    NormInfix(s[from..pos], s[pos], s[pos + 1..to]);
    NormInfix(Print(Expr(k, 0)), s[pos], Print(r));
  }
}
