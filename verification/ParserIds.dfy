/** Node numbers: every number handed out while parsing belongs to exactly one node of the result,
    although failed attempts are taken back (src/lexer.rs:221-226, src/ast/expr.rs:181-190, 235-242). */
module ParserIds {
  import opened ParserSpec

  /** All node numbers in a tree. */
  function IdsOf(e: Expr): multiset<nat>
    decreases e, 2
  {
    Below(e) + multiset{e.id}
  }

  /** All node numbers below the root. */
  function Below(e: Expr): multiset<nat>
    decreases e, 1
  {
    match e.kind
    case Path(_) => multiset{}
    case Lit(_) => multiset{}
    case Unary(_, x) => IdsOf(x)
    case Binary(_, l, r) => IdsOf(l) + IdsOf(r)
    case Cast(v, ty) => IdsOf(v) + multiset{ty.id}
    case Assign(l, r) => IdsOf(l) + IdsOf(r)
    case AssignWith(_, l, r) => IdsOf(l) + IdsOf(r)
    case Tup(elems, _) => IdsUpTo(e, |elems|)
    case Call(f, elems) => IdsOf(f) + IdsUpTo(e, |elems|)
  }

  function IdsUpTo(e: Expr, i: nat): multiset<nat>
    requires i <= |Items(e)|
    decreases e, 0, i
  {
    if i == 0 then multiset{} else IdsUpTo(e, i - 1) + IdsOf(Items(e)[i - 1])
  }

  /** Each number from lo to hi exactly once, and no other. */
  ghost predicate Exactly(m: multiset<nat>, lo: nat, hi: nat) {
    lo <= hi && forall x: nat :: m[x] == if lo <= x < hi then 1 else 0
  }

  lemma ExactlyJoin(a: multiset<nat>, b: multiset<nat>, lo: nat, mid: nat, hi: nat)
    requires Exactly(a, lo, mid) && Exactly(b, mid, hi)
    ensures Exactly(a + b, lo, hi)
  {
  }

  lemma ExactlyOne(x: nat)
    ensures Exactly(multiset{x}, x, x + 1)
  {
  }

  ghost predicate Numbered(k: Kind, lo: nat, hi: nat) {
    Exactly(Below(Expr(k, 0)), lo, hi)
  }

  lemma BelowIgnoresRoot(k: Kind, id: nat)
    ensures Below(Expr(k, id)) == Below(Expr(k, 0))
  {
    if Expr(k, 0).kind.Tup? || Expr(k, 0).kind.Call? {
      UpToIgnoresRoot(k, id, |k.elems|);
    }
  }

  lemma {:induction false} UpToIgnoresRoot(k: Kind, id: nat, i: nat)
    requires (k.Tup? || k.Call?) && i <= |k.elems|
    ensures IdsUpTo(Expr(k, id), i) == IdsUpTo(Expr(k, 0), i)
    decreases i
  {
    if i > 0 {
      UpToIgnoresRoot(k, id, i - 1);
    }
  }

  /** Wrapping what was read as a node: its number comes next. */
  lemma Wrap(k: Kind, lo: nat, id: nat)
    requires Numbered(k, lo, id)
    ensures Exactly(IdsOf(Expr(k, id)), lo, id + 1)
  {
    BelowIgnoresRoot(k, id);
    ExactlyOne(id);
    hide Below;
    ExactlyJoin(Below(Expr(k, 0)), multiset{id}, lo, id, id + 1);
  }

  /** A left operand numbered after its right one. */
  lemma WrapAfter(k: Kind, rest: multiset<nat>, lo: nat, mid: nat, hi: nat)
    requires Numbered(k, lo, mid) && Exactly(rest, mid, hi)
    ensures Exactly(IdsOf(Expr(k, hi)) + rest, lo, hi + 1)
  {
    BelowIgnoresRoot(k, hi);
    ExactlyOne(hi);
    hide Below;
    ExactlyJoin(Below(Expr(k, 0)), rest, lo, mid, hi);
    ExactlyJoin(Below(Expr(k, 0)) + rest, multiset{hi}, lo, hi, hi + 1);
    assert IdsOf(Expr(k, hi)) + rest == Below(Expr(k, 0)) + rest + multiset{hi};
  }

  /** A list of elements as the tuple parser collects it. */
  ghost function ListIds(xs: seq<Expr>): multiset<nat> {
    IdsUpTo(Expr(Tup(xs, false), 0), |xs|)
  }

  lemma {:induction false} UpToPrefix(e: Expr, f: Expr, i: nat)
    requires i <= |Items(e)| && i <= |Items(f)| && Items(e)[..i] == Items(f)[..i]
    ensures IdsUpTo(e, i) == IdsUpTo(f, i)
    decreases i
  {
    if i > 0 {
      assert Items(e)[..i][i - 1] == Items(f)[..i][i - 1];
      assert Items(e)[..i][..i - 1] == Items(f)[..i][..i - 1];
      assert Items(e)[..i - 1] == Items(e)[..i][..i - 1] && Items(f)[..i - 1] == Items(f)[..i][..i - 1];
      UpToPrefix(e, f, i - 1);
    }
  }

  lemma ListSnoc(xs: seq<Expr>, x: Expr)
    ensures ListIds(xs + [x]) == ListIds(xs) + IdsOf(x)
  {
    var e, f := Expr(Tup(xs + [x], false), 0), Expr(Tup(xs, false), 0);
    assert Items(e)[..|xs|] == xs && Items(f)[..|xs|] == xs;
    UpToPrefix(e, f, |xs|);
    hide IdsOf;
  }

  lemma ListIsTup(xs: seq<Expr>, force: bool)
    ensures Below(Expr(Tup(xs, force), 0)) == ListIds(xs)
    ensures forall f :: Below(Expr(Call(f, xs), 0)) == IdsOf(f) + ListIds(xs)
  {
    var e := Expr(Tup(xs, false), 0);
    UpToPrefix(Expr(Tup(xs, force), 0), e, |xs|);
    forall f ensures Below(Expr(Call(f, xs), 0)) == IdsOf(f) + ListIds(xs) {
      UpToPrefix(Expr(Call(f, xs), 0), e, |xs|);
    }
    hide IdsOf;
  }

  /** The numbers in a parsed expression are exactly those handed out for it: pairwise distinct, none lost. */
  lemma {:induction false} ExprNumbered(s: seq<Token>, pos: nat, id: nat, min: nat)
    ensures var r := ParseExpr(s, pos, id, min); r.Done? ==> Exactly(IdsOf(r.value), id, r.id)
    decreases |s| - pos, 4
  {
    BodyNumbered(s, pos, id, min);
    var b := ParseBody(s, pos, id, min);
    hide ParseBody;
    if b.Done? {
      Wrap(b.value, id, b.id);
    }
  }

  lemma BodyNumbered(s: seq<Token>, pos: nat, id: nat, min: nat)
    ensures var r := ParseBody(s, pos, id, min); r.Done? ==> Numbered(r.value, id, r.id)
    decreases |s| - pos, 3
  {
    PrimaryNumbered(s, pos, id);
    var p := ParsePrimary(s, pos, id);
    hide ParsePrimary, Numbered, ParseTail;
    if p.Done? {
      TailNumbered(s, p.value, p.pos, id, p.id, min);
    }
  }

  lemma PrimaryNumbered(s: seq<Token>, pos: nat, id: nat)
    ensures var r := ParsePrimary(s, pos, id); r.Done? ==> Numbered(r.value, id, r.id)
    decreases |s| - pos, 2
  {
    if pos < |s| && ToUnOp(s[pos]).Some? {
      ExprNumbered(s, pos + 1, id, UNARY_PRIORITY + 1);
    }
    if pos < |s| && s[pos].OpenPar? {
      ItemsNumbered(s, pos + 1, id, id, [], false);
      var xs := ParseItems(s, pos + 1, id, [], false);
      if xs.Done? {
        ListIsTup(xs.value.0, xs.value.1);
      }
    }
    hide ParseExpr, ParseItems, IdsOf;
  }

  lemma ItemsNumbered(s: seq<Token>, pos: nat, lo: nat, id: nat, acc: seq<Expr>, force: bool)
    requires Exactly(ListIds(acc), lo, id)
    ensures var r := ParseItems(s, pos, id, acc, force); r.Done? ==> Exactly(ListIds(r.value.0), lo, r.id)
    decreases |s| - pos, 5
  {
    if pos < |s| && !s[pos].ClosePar? {
      ExprNumbered(s, pos, id, 0);
      var e := ParseExpr(s, pos, id, 0);
      hide ParseExpr, IdsOf, ListIds, Exactly;
      if e.Done? && e.pos < |s| {
        ListSnoc(acc, e.value);
        ExactlyJoin(ListIds(acc), IdsOf(e.value), lo, id, e.id);
        if s[e.pos].Comma? {
          ItemsNumbered(s, e.pos + 1, lo, e.id, acc + [e.value], true);
        }
      }
    }
  }

  lemma TailNumbered(s: seq<Token>, k: Kind, pos: nat, lo: nat, id: nat, min: nat)
    requires Numbered(k, lo, id)
    ensures var r := ParseTail(s, k, pos, id, min); r.Done? ==> Numbered(r.value, lo, r.id)
    decreases |s| - pos, 2
  {
    if pos < |s| {
      if s[pos].OpenPar? {
        CallNumbered(s, k, pos, lo, id, min);
      } else if s[pos].As? && CAST_PRIORITY >= min {
        CastNumbered(s, k, pos, lo, id, min);
      } else {
        InfixNumbered(s, k, pos, lo, id, min);
      }
    }
  }

  lemma CallNumbered(s: seq<Token>, k: Kind, pos: nat, lo: nat, id: nat, min: nat)
    requires Numbered(k, lo, id) && pos < |s| && s[pos].OpenPar?
    ensures var r := ParseTail(s, k, pos, id, min); r.Done? ==> Numbered(r.value, lo, r.id)
    decreases |s| - pos, 1
  {
    assert Exactly(ListIds([]), id, id);
    ItemsNumbered(s, pos + 1, id, id, [], false);
    var xs := ParseItems(s, pos + 1, id, [], false);
    if xs.Done? {
      ListIsTup(xs.value.0, xs.value.1);
      WrapAfter(k, ListIds(xs.value.0), lo, id, xs.id);
      var node := Call(Expr(k, xs.id), xs.value.0);
      assert Below(Expr(node, 0)) == IdsOf(Expr(k, xs.id)) + ListIds(xs.value.0);
      hide ListIds, IdsOf, Below;
      TailNumbered(s, node, xs.pos, lo, xs.id + 1, min);
    }
    hide ParseItems, Numbered;
  }

  lemma CastNumbered(s: seq<Token>, k: Kind, pos: nat, lo: nat, id: nat, min: nat)
    requires Numbered(k, lo, id) && pos < |s| && s[pos].As? && CAST_PRIORITY >= min
    ensures var r := ParseTail(s, k, pos, id, min); r.Done? ==> Numbered(r.value, lo, r.id)
    decreases |s| - pos, 1
  {
    var ty := ParseTy(s, pos + 1, id);
    if ty.Done? {
      ExactlyOne(id);
      WrapAfter(k, multiset{id}, lo, id, id + 1);
      var node := Cast(Expr(k, ty.id), ty.value);
      assert Below(Expr(node, 0)) == IdsOf(Expr(k, ty.id)) + multiset{id};
      hide IdsOf, Below;
      TailNumbered(s, node, ty.pos, lo, ty.id + 1, min);
    }
    hide Numbered;
  }

  lemma InfixNumbered(s: seq<Token>, k: Kind, pos: nat, lo: nat, id: nat, min: nat)
    requires Numbered(k, lo, id) && pos < |s| && !s[pos].OpenPar? && !(s[pos].As? && CAST_PRIORITY >= min)
    ensures var r := ParseTail(s, k, pos, id, min); r.Done? ==> Numbered(r.value, lo, r.id)
    decreases |s| - pos, 1
  {
    var op, aop := ToBinOp(s[pos]), ToAssignOp(s[pos]);
    if op.Some? && BinPriority(op.value) >= min {
      OperandNumbered(s, k, pos, lo, id, min, Binary(op.value, Expr(k, 0), Expr(k, 0)));
    } else if s[pos].Eq? && ASSIGN_PRIORITY >= min {
      OperandNumbered(s, k, pos, lo, id, min, Assign(Expr(k, 0), Expr(k, 0)));
    } else if aop.Some? && ASSIGN_PRIORITY >= min {
      OperandNumbered(s, k, pos, lo, id, min, AssignWith(aop.value, Expr(k, 0), Expr(k, 0)));
    }
    hide Numbered, ParseExpr;
  }

  lemma OperandNumbered(s: seq<Token>, k: Kind, pos: nat, lo: nat, id: nat, min: nat, node: Kind)
    requires Numbered(k, lo, id) && pos < |s| && (node.Binary? || node.Assign? || node.AssignWith?)
    requires s[pos] == InfixToken(node) && InfixPriority(node) >= min
    ensures var r := ParseTail(s, k, pos, id, min); r.Done? ==> Numbered(r.value, lo, r.id)
    decreases |s| - pos, 0
  {
    hide ParseTail, ParseExpr, Rebuilt, InfixToken, InfixPriority, IdsOf, Below, Exactly;
    ExprNumbered(s, pos + 1, id, InfixPriority(node) + 1);
    var r := ParseExpr(s, pos + 1, id, InfixPriority(node) + 1);
    if r.Done? {
      TailInfix(s, k, pos, id, min, node, r.value, r.pos, r.id);
      WrapAfter(k, IdsOf(r.value), lo, id, r.id);
      var built := Rebuilt(node, Expr(k, r.id), r.value);
      RebuiltBelow(node, Expr(k, r.id), r.value);
      TailNumbered(s, built, r.pos, lo, r.id + 1, min);
    } else {
      TailStuck(s, k, pos, id, min, node);
    }
  }

  lemma RebuiltBelow(node: Kind, l: Expr, r: Expr)
    requires node.Binary? || node.Assign? || node.AssignWith?
    ensures Below(Expr(Rebuilt(node, l, r), 0)) == IdsOf(l) + IdsOf(r)
  {
    hide IdsOf;
  }

  lemma TailStuck(s: seq<Token>, k: Kind, pos: nat, id: nat, min: nat, node: Kind)
    requires pos < |s| && (node.Binary? || node.Assign? || node.AssignWith?) && s[pos] == InfixToken(node)
    requires InfixPriority(node) >= min
    requires ParseExpr(s, pos + 1, id, InfixPriority(node) + 1).Fail?
    ensures ParseTail(s, k, pos, id, min).Fail?
  {
    hide ParseExpr, BinPriority;
  }
}
