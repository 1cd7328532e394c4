/** The expression parser itself: a token iterator that is cloned before every attempt and updated only
    when the attempt succeeds (src/lexer.rs:176-226, src/ast.rs:41-66, src/ast/expr.rs:122-243). */
module Parser {
  import opened CoreInts
  import opened ParserSpec
  import opened ParserIds
  import ParserSound

  class TokenIter {
    const buffer: seq<Token>
    var pos: nat
    var id: nat

    constructor (buffer: seq<Token>, pos: nat, id: nat)
      ensures this.buffer == buffer && this.pos == pos && this.id == id
    {
      this.buffer, this.pos, this.id := buffer, pos, id;
    }

    method Clone() returns (copy: TokenIter)
      ensures fresh(copy) && copy.buffer == buffer && copy.pos == pos && copy.id == id
    {
      copy := new TokenIter(buffer, pos, id);
    }

    method Update(other: TokenIter)
      modifies this
      ensures pos == old(other.pos) && id == old(other.id)
    {
      pos, id := other.pos, other.id;
    }

    method Advance()
      modifies this
      ensures pos == old(pos) + 1 && id == old(id)
    {
      pos := pos + 1;
    }

    /** The current token, stepping past it; nothing at the end of the input. */
    method Next() returns (t: Option<Token>)
      modifies this
      ensures id == old(id)
      ensures if old(pos) < |buffer| then t == Some(buffer[old(pos)]) && pos == old(pos) + 1
        else t.None? && pos == old(pos)
    {
      if pos >= |buffer| {
        return None;
      }
      t := Some(buffer[pos]);
      pos := pos + 1;
    }

    method Peek() returns (t: Option<Token>)
      ensures t == if pos < |buffer| then Some(buffer[pos]) else None
    {
      t := if pos < |buffer| then Some(buffer[pos]) else None;
    }

    method AssignId() returns (r: nat)
      modifies this
      ensures r == old(id) && id == old(id) + 1 && pos == old(pos)
    {
      r := id;
      id := id + 1;
    }
  }

  /** Success as the specification has it, or failure where it fails. */
  ghost predicate Agrees<T>(r: Option<T>, spec: Parsed<T>, pos: nat, id: nat) {
    if r.Some? then spec == Done(r.value, pos, id) else spec.Fail?
  }

  // ---------------------------------------------------------------- the alternatives, each on its own

  function PathAlone(s: seq<Token>, pos: nat, id: nat): Parsed<Kind> {
    if pos + 1 < |s| && s[pos].Ident? then Done(Path(s[pos].name), pos + 1, id) else Fail
  }

  function UnaryAlone(s: seq<Token>, pos: nat, id: nat): Parsed<Kind> {
    if pos >= |s| || ToUnOp(s[pos]).None? then Fail
    else
      var x := ParseExpr(s, pos + 1, id, UNARY_PRIORITY + 1);
      if x.Fail? then Fail else Done(Unary(ToUnOp(s[pos]).value, x.value), x.pos, x.id)
  }

  function LitAlone(s: seq<Token>, pos: nat, id: nat): Parsed<Kind> {
    if pos < |s| && s[pos].Literal? then Done(Lit(s[pos].lit), pos + 1, id) else Fail
  }

  function TupAlone(s: seq<Token>, pos: nat, id: nat): Parsed<Kind> {
    if pos >= |s| || !s[pos].OpenPar? then Fail
    else
      var xs := ParseItems(s, pos + 1, id, [], false);
      if xs.Fail? then Fail else Done(Tup(xs.value.0, xs.value.1), xs.pos, xs.id)
  }

  /** The first alternative that succeeds is the primary expression. */
  lemma FirstAlternative(s: seq<Token>, pos: nat, id: nat)
    ensures ParsePrimary(s, pos, id)
      == if PathAlone(s, pos, id).Done? then PathAlone(s, pos, id)
         else if UnaryAlone(s, pos, id).Done? then UnaryAlone(s, pos, id)
         else if LitAlone(s, pos, id).Done? then LitAlone(s, pos, id)
         else TupAlone(s, pos, id)
  {
    hide ParseExpr, ParseItems;
  }

  method EatPath(iter: TokenIter) returns (r: Option<Kind>)
    modifies iter
    ensures Agrees(r, PathAlone(iter.buffer, old(iter.pos), old(iter.id)), iter.pos, iter.id)
    ensures r.None? ==> iter.pos == old(iter.pos) && iter.id == old(iter.id)
  {
    var using := iter.Clone();
    var t := using.Next();
    if t.None? || !t.value.Ident? {
      return None;
    }
    var following := using.Peek();
    if following.None? {
      return None;
    }
    iter.Update(using);
    r := Some(Path(t.value.name));
  }

  method EatLit(iter: TokenIter) returns (r: Option<Kind>)
    modifies iter
    ensures Agrees(r, LitAlone(iter.buffer, old(iter.pos), old(iter.id)), iter.pos, iter.id)
    ensures r.None? ==> iter.pos == old(iter.pos) && iter.id == old(iter.id)
  {
    var using := iter.Clone();
    var t := using.Next();
    if t.None? || !t.value.Literal? {
      return None;
    }
    iter.Update(using);
    r := Some(Lit(t.value.lit));
  }

  method EatUnary(iter: TokenIter) returns (r: Option<Kind>)
    modifies iter
    ensures Agrees(r, UnaryAlone(iter.buffer, old(iter.pos), old(iter.id)), iter.pos, iter.id)
    ensures r.None? ==> iter.pos == old(iter.pos) && iter.id == old(iter.id)
    decreases |iter.buffer| - iter.pos, 2
  {
    hide ParseExpr;
    var using := iter.Clone();
    var t := using.Next();
    if t.None? || ToUnOp(t.value).None? {
      return None;
    }
    var x := EatWithConfig(using, UNARY_PRIORITY + 1);
    if x.None? {
      return None;
    }
    iter.Update(using);
    r := Some(Unary(ToUnOp(t.value).value, x.value));
  }

  method EatTup(iter: TokenIter) returns (r: Option<Kind>)
    modifies iter
    ensures Agrees(r, TupAlone(iter.buffer, old(iter.pos), old(iter.id)), iter.pos, iter.id)
    ensures r.None? ==> iter.pos == old(iter.pos) && iter.id == old(iter.id)
    decreases |iter.buffer| - iter.pos, 2
  {
    hide ParseItems;
    var using := iter.Clone();
    var t := using.Peek();
    if t.None? || !t.value.OpenPar? {
      return None;
    }
    using.Advance();
    var xs := EatItems(using);
    if xs.None? {
      return None;
    }
    iter.Update(using);
    r := Some(Tup(xs.value.0, xs.value.1));
  }

  /** The elements of a parenthesised list up to and including the closing parenthesis. */
  method EatItems(iter: TokenIter) returns (r: Option<(seq<Expr>, bool)>)
    modifies iter
    ensures Agrees(r, ParseItems(iter.buffer, old(iter.pos), old(iter.id), [], false), iter.pos, iter.id)
    decreases |iter.buffer| - iter.pos, 6
  {
    hide ParseExpr;
    var exprs: seq<Expr>, force := [], false;
    var t := iter.Peek();
    while t.Some? && !t.value.ClosePar?
      invariant old(iter.pos) <= iter.pos && t == if iter.pos < |iter.buffer| then Some(iter.buffer[iter.pos]) else None
      invariant ParseItems(iter.buffer, old(iter.pos), old(iter.id), [], false)
        == ParseItems(iter.buffer, iter.pos, iter.id, exprs, force)
      decreases |iter.buffer| - iter.pos
    {
      var e := Eat(iter);
      if e.None? {
        return None;
      }
      exprs := exprs + [e.value];
      var next := iter.Peek();
      if next.None? {
        return None;
      }
      if next.value.Comma? {
        force := true;
        iter.Advance();
      } else if next.value.ClosePar? {
        iter.Advance();
        return Some((exprs, force));
      } else {
        return None;
      }
      t := iter.Peek();
    }
    if t.None? {
      return None;
    }
    iter.Advance();
    r := Some((exprs, force));
  }

  /** The kinds tried in order; each failed attempt leaves the iterator as it was. */
  method EatKind(iter: TokenIter) returns (r: Option<Kind>)
    modifies iter
    ensures Agrees(r, ParsePrimary(iter.buffer, old(iter.pos), old(iter.id)), iter.pos, iter.id)
    decreases |iter.buffer| - iter.pos, 3
  {
    hide ParseExpr, ParseItems, ParsePrimary, PathAlone, UnaryAlone, LitAlone, TupAlone;
    FirstAlternative(iter.buffer, iter.pos, iter.id);
    r := EatPath(iter);
    if r.None? {
      r := EatUnary(iter);
    }
    if r.None? {
      r := EatLit(iter);
    }
    if r.None? {
      r := EatTup(iter);
    }
  }

  // ---------------------------------------------------------------- what may follow

  /** A helper's answer: an error of the whole parse, nothing of its kind here, or what it read. */
  datatype Helped<T> = Error | Nothing | Read(value: T)

  method TryEatCall(iter: TokenIter) returns (r: Helped<seq<Expr>>)
    modifies iter
    ensures r.Nothing? <==> old(iter.pos) < |iter.buffer| && !iter.buffer[old(iter.pos)].OpenPar?
    ensures !r.Read? ==> iter.pos == old(iter.pos) && iter.id == old(iter.id)
    ensures old(iter.pos) < |iter.buffer| && iter.buffer[old(iter.pos)].OpenPar? ==>
      var spec := ParseItems(iter.buffer, old(iter.pos) + 1, old(iter.id), [], false);
      if r.Read? then spec.Done? && spec.value.0 == r.value && spec.pos == iter.pos && spec.id == iter.id
        else spec.Fail?
    ensures old(iter.pos) >= |iter.buffer| ==> r.Error?
    decreases |iter.buffer| - iter.pos, 2
  {
    hide ParseItems;
    var using := iter.Clone();
    var t := using.Peek();
    if t.None? {
      return Error;
    }
    if !t.value.OpenPar? {
      return Nothing;
    }
    using.Advance();
    var xs := EatItems(using);
    if xs.None? {
      return Error;
    }
    iter.Update(using);
    r := Read(xs.value.0);
  }

  method EatTy(iter: TokenIter) returns (r: Option<Ty>)
    modifies iter
    ensures Agrees(r, ParseTy(iter.buffer, old(iter.pos), old(iter.id)), iter.pos, iter.id)
    ensures r.None? ==> iter.pos == old(iter.pos) && iter.id == old(iter.id)
  {
    var using := iter.Clone();
    var t := using.Next();
    if t.None? || !t.value.Ident? {
      return None;
    }
    var following := using.Peek();
    if following.None? {
      return None;
    }
    var id := using.AssignId();
    iter.Update(using);
    r := Some(Ty(t.value.name, id));
  }

  method EatCast(iter: TokenIter, min: nat) returns (r: Helped<Ty>)
    requires iter.pos < |iter.buffer|
    modifies iter
    ensures r.Nothing? <==> !(iter.buffer[old(iter.pos)].As? && CAST_PRIORITY >= min)
    ensures !r.Read? ==> iter.pos == old(iter.pos) && iter.id == old(iter.id)
    ensures !r.Nothing? ==> var spec := ParseTy(iter.buffer, old(iter.pos) + 1, old(iter.id));
      if r.Read? then spec == Done(r.value, iter.pos, iter.id) else spec.Fail?
  {
    var using := iter.Clone();
    var t := using.Peek();
    if !t.value.As? || CAST_PRIORITY < min {
      return Nothing;
    }
    using.Advance();
    var ty := EatTy(using);
    if ty.None? {
      return Error;
    }
    iter.Update(using);
    r := Read(ty.value);
  }

  method EatBinary(iter: TokenIter, min: nat) returns (r: Helped<(BinOp, Expr)>)
    requires iter.pos < |iter.buffer|
    modifies iter
    ensures var op := ToBinOp(iter.buffer[old(iter.pos)]);
      && (r.Nothing? <==> !(op.Some? && BinPriority(op.value) >= min))
      && (!r.Nothing? ==> var spec := ParseExpr(iter.buffer, old(iter.pos) + 1, old(iter.id),
           BinPriority(op.value) + 1);
            if r.Read? then r.value.0 == op.value && spec == Done(r.value.1, iter.pos, iter.id) else spec.Fail?)
    ensures !r.Read? ==> iter.pos == old(iter.pos) && iter.id == old(iter.id)
    decreases |iter.buffer| - iter.pos, 2
  {
    hide ParseExpr;
    var using := iter.Clone();
    var t := using.Next();
    var op := ToBinOp(t.value);
    if op.None? || BinPriority(op.value) < min {
      return Nothing;
    }
    var e := EatWithConfig(using, BinPriority(op.value) + 1);
    if e.None? {
      return Error;
    }
    iter.Update(using);
    r := Read((op.value, e.value));
  }

  method EatAssign(iter: TokenIter, min: nat) returns (r: Helped<Expr>)
    requires iter.pos < |iter.buffer|
    modifies iter
    ensures r.Nothing? <==> !(iter.buffer[old(iter.pos)].Eq? && ASSIGN_PRIORITY >= min)
    ensures !r.Nothing? ==> var spec := ParseExpr(iter.buffer, old(iter.pos) + 1, old(iter.id), ASSIGN_PRIORITY + 1);
      if r.Read? then spec == Done(r.value, iter.pos, iter.id) else spec.Fail?
    ensures !r.Read? ==> iter.pos == old(iter.pos) && iter.id == old(iter.id)
    decreases |iter.buffer| - iter.pos, 2
  {
    hide ParseExpr;
    var using := iter.Clone();
    var t := using.Peek();
    if !t.value.Eq? || ASSIGN_PRIORITY < min {
      return Nothing;
    }
    using.Advance();
    var e := EatWithConfig(using, ASSIGN_PRIORITY + 1);
    if e.None? {
      return Error;
    }
    iter.Update(using);
    r := Read(e.value);
  }

  method EatAssignWith(iter: TokenIter, min: nat) returns (r: Helped<(AssignOp, Expr)>)
    requires iter.pos < |iter.buffer|
    modifies iter
    ensures var aop := ToAssignOp(iter.buffer[old(iter.pos)]);
      && (r.Nothing? <==> !(aop.Some? && ASSIGN_PRIORITY >= min))
      && (!r.Nothing? ==> var spec := ParseExpr(iter.buffer, old(iter.pos) + 1, old(iter.id), ASSIGN_PRIORITY + 1);
            if r.Read? then r.value.0 == aop.value && spec == Done(r.value.1, iter.pos, iter.id) else spec.Fail?)
    ensures !r.Read? ==> iter.pos == old(iter.pos) && iter.id == old(iter.id)
    decreases |iter.buffer| - iter.pos, 2
  {
    hide ParseExpr;
    if ASSIGN_PRIORITY < min {
      return Nothing;
    }
    var using := iter.Clone();
    var t := using.Next();
    var aop := ToAssignOp(t.value);
    if aop.None? {
      return Nothing;
    }
    var e := EatWithConfig(using, ASSIGN_PRIORITY + 1);
    if e.None? {
      return Error;
    }
    iter.Update(using);
    r := Read((aop.value, e.value));
  }

  /** One turn of the tail loop: the longer expression, an error, or the end of the expression. */
  method EatTail(iter: TokenIter, kind: Kind, min: nat) returns (r: Helped<Kind>)
    modifies iter
    ensures r.Error? ==> ParseTail(iter.buffer, kind, old(iter.pos), old(iter.id), min).Fail?
    ensures !r.Read? ==> iter.pos == old(iter.pos) && iter.id == old(iter.id)
    ensures r.Nothing? ==> ParseTail(iter.buffer, kind, iter.pos, iter.id, min) == Done(kind, iter.pos, iter.id)
    ensures r.Read? ==> old(iter.pos) < iter.pos <= |iter.buffer|
    ensures r.Read? ==>
      ParseTail(iter.buffer, kind, old(iter.pos), old(iter.id), min)
      == ParseTail(iter.buffer, r.value, iter.pos, iter.id, min)
    decreases |iter.buffer| - iter.pos, 3
  {
    hide ParseExpr, ParseItems, ParseTy, BinPriority, ToBinOp;
    var call := TryEatCall(iter);
    if call.Error? {
      return Error;
    }
    if call.Read? {
      var id := iter.AssignId();
      return Read(Call(Expr(kind, id), call.value));
    }
    var cast := EatCast(iter, min);
    if cast.Error? {
      return Error;
    }
    if cast.Read? {
      var id := iter.AssignId();
      return Read(Cast(Expr(kind, id), cast.value));
    }
    var binary := EatBinary(iter, min);
    if binary.Error? {
      return Error;
    }
    if binary.Read? {
      var id := iter.AssignId();
      return Read(Binary(binary.value.0, Expr(kind, id), binary.value.1));
    }
    var assign := EatAssign(iter, min);
    if assign.Error? {
      return Error;
    }
    if assign.Read? {
      var id := iter.AssignId();
      return Read(Assign(Expr(kind, id), assign.value));
    }
    var assignWith := EatAssignWith(iter, min);
    if assignWith.Error? {
      return Error;
    }
    if assignWith.Read? {
      var id := iter.AssignId();
      return Read(AssignWith(assignWith.value.0, Expr(kind, id), assignWith.value.1));
    }
    r := Nothing;
  }

  /** Precedence climbing: a primary expression and whatever of sufficient priority follows it. */
  method EatWithConfig(iter: TokenIter, min: nat) returns (r: Option<Expr>)
    modifies iter
    ensures Agrees(r, ParseExpr(iter.buffer, old(iter.pos), old(iter.id), min), iter.pos, iter.id)
    decreases |iter.buffer| - iter.pos, 4
  {
    hide ParsePrimary, ParseTail;
    var first := EatKind(iter);
    if first.None? {
      return None;
    }
    var kind := first.value;
    var step := EatTail(iter, kind, min);
    while step.Read?
      invariant old(iter.pos) < iter.pos
      invariant step.Read? ==> iter.pos <= |iter.buffer|
      invariant step.Read? ==>
        ParseBody(iter.buffer, old(iter.pos), old(iter.id), min)
        == ParseTail(iter.buffer, step.value, iter.pos, iter.id, min)
      invariant step.Error? ==> ParseBody(iter.buffer, old(iter.pos), old(iter.id), min).Fail?
      invariant step.Nothing? ==>
        ParseBody(iter.buffer, old(iter.pos), old(iter.id), min) == Done(kind, iter.pos, iter.id)
      decreases step.Read?, |iter.buffer| - iter.pos
    {
      kind := step.value;
      step := EatTail(iter, kind, min);
    }
    if step.Error? {
      return None;
    }
    var id := iter.AssignId();
    r := Some(Expr(kind, id));
  }

  /** Reads an expression: what it answers is grouped as the priorities demand and spelled by the tokens
      read, and the token after it does not continue it. A failed attempt leaves position and numbering as
      they were. */
  method Eat(iter: TokenIter) returns (r: Option<Expr>)
    modifies iter
    ensures Agrees(r, ParseExpr(iter.buffer, old(iter.pos), old(iter.id), 0), iter.pos, iter.id)
    ensures r.Some? ==> ParserSound.Read(iter.buffer, old(iter.pos), iter.pos, r.value, 0)
    ensures r.None? ==> iter.pos == old(iter.pos) && iter.id == old(iter.id)
    decreases |iter.buffer| - iter.pos, 5
  {
    hide ParseExpr, ParserSound.Read;
    if ParseExpr(iter.buffer, iter.pos, iter.id, 0).Done? {
      ParserSound.ExprSound(iter.buffer, iter.pos, iter.id, 0);
    }
    var using := iter.Clone();
    r := EatWithConfig(using, 0);
    if r.Some? {
      iter.Update(using);
    }
  }

  /** Reading back a printed expression: the same tree, every node number its own, and the iterator at
      the token after it. */
  method EatPrinted(iter: TokenIter, ghost e: Expr) returns (r: Expr)
    requires WellGrouped(e) && At(iter.buffer, iter.pos, Print(e)) && iter.pos + |Print(e)| < |iter.buffer|
    requires Stops(iter.buffer[iter.pos + |Print(e)|], 0)
    modifies iter
    ensures Erase(r) == Erase(e) && iter.pos == old(iter.pos) + |Print(e)|
    ensures Exactly(IdsOf(r), old(iter.id), iter.id)
  {
    hide ParseExpr, Erase, IdsOf, Exactly, Print;
    ghost var e', id' := ReadsWhole(iter.buffer, iter.pos, iter.id, 0, e);
    ExprNumbered(iter.buffer, iter.pos, iter.id, 0);
    var read := Eat(iter);
    r := read.value;
  }
}
