/** How tightly operators bind (src/ast/expr.rs:29-36, 539-551), said of the tokens alone: the levels are
    listed here once more, and what two operators side by side are read as follows from the list. */
module ParserLevels {
  import opened ParserSpec

  /** The infix operators from the loosest level to the tightest; all of them group to the left. */
  const INFIX: seq<seq<Token>> := [
    [Token.Eq, AssignTok(AddAssign), AssignTok(SubAssign), AssignTok(MulAssign), AssignTok(DivAssign),
     AssignTok(RemAssign), AssignTok(XorAssign), AssignTok(AndAssign), AssignTok(OrAssign), AssignTok(ShlAssign),
     AssignTok(ShrAssign)],
    [OrOrTok],
    [AndAndTok],
    [EqEqTok, NeTok, GtTok, LeTok, GeTok],
    [OrTok],
    [CaretTok],
    [AndTok],
    [ShlTok, ShrTok],
    [PlusTok, MinusTok],
    [StarTok, SlashTok, PercentTok]]

  const PREFIX: seq<Token> := [StarTok, NotTok, MinusTok]

  ghost predicate IsInfix(t: Token, level: nat) {
    level < |INFIX| && t in INFIX[level]
  }

  /** What an infix operator makes of its operands. */
  function Joined(t: Token, l: Expr, r: Expr): Expr {
    match t
    case Eq => Expr(Assign(l, r), 0)
    case AssignTok(op) => Expr(AssignWith(op, l, r), 0)
    case OrOrTok => Expr(Binary(LogicOr, l, r), 0)
    case AndAndTok => Expr(Binary(LogicAnd, l, r), 0)
    case EqEqTok => Expr(Binary(Equal, l, r), 0)
    case NeTok => Expr(Binary(NotEqual, l, r), 0)
    case GtTok => Expr(Binary(Greater, l, r), 0)
    case LeTok => Expr(Binary(LessEq, l, r), 0)
    case GeTok => Expr(Binary(GreaterEq, l, r), 0)
    case OrTok => Expr(Binary(BitOr, l, r), 0)
    case CaretTok => Expr(Binary(BitXor, l, r), 0)
    case AndTok => Expr(Binary(BitAnd, l, r), 0)
    case ShlTok => Expr(Binary(ShiftLeft, l, r), 0)
    case ShrTok => Expr(Binary(ShiftRight, l, r), 0)
    case PlusTok => Expr(Binary(Plus, l, r), 0)
    case MinusTok => Expr(Binary(Minus, l, r), 0)
    case StarTok => Expr(Binary(Times, l, r), 0)
    case SlashTok => Expr(Binary(Divide, l, r), 0)
    case _ => Expr(Binary(Remainder, l, r), 0)
  }

  /** What a prefix operator makes of its operand. */
  function Prefixed(t: Token, x: Expr): Expr {
    match t
    case StarTok => Expr(Unary(Deref, x), 0)
    case NotTok => Expr(Unary(LogicNot, x), 0)
    case _ => Expr(Unary(Neg, x), 0)
  }

  function CastTo(x: Expr, name: nat): Expr {
    Expr(Cast(x, Ty(name, 0)), 0)
  }

  /** A path, a literal, something in parentheses, or a call of one of these. */
  predicate Atom(e: Expr)
    decreases e
  {
    WellGrouped(e) && (e.kind.Path? || e.kind.Lit? || e.kind.Tup? || (e.kind.Call? && Atom(e.kind.callee)))
  }

  /** Wherever the tokens stand in front of the end of an expression, they are read as the tree, node
      numbers apart, and nothing but them is read. */
  ghost predicate ReadAs(tokens: seq<Token>, e: Expr) {
    forall s: seq<Token>, pos: nat, id: nat :: ReadHere(s, pos, id, tokens, e)
  }

  ghost predicate ReadHere(s: seq<Token>, pos: nat, id: nat, tokens: seq<Token>, e: Expr) {
    At(s, pos, tokens) && pos + |tokens| < |s| && Ends(s[pos + |tokens|]) ==>
      var r := ParseExpr(s, pos, id, 0);
      r.Done? && r.pos == pos + |tokens| && Erase(r.value) == Erase(e)
  }

  predicate Ends(t: Token) {
    t.Semi? || t.Comma? || t.ClosePar? || t.CloseCurly?
  }

  lemma PrintedReads(tokens: seq<Token>, e: Expr)
    requires WellGrouped(e) && tokens == Print(e)
    ensures ReadAs(tokens, e)
  {
    hide ParseExpr, Print, WellGrouped, Erase, Priority, At;
    forall s: seq<Token>, pos: nat, id: nat ensures ReadHere(s, pos, id, tokens, e) {
      if At(s, pos, tokens) && pos + |tokens| < |s| && Ends(s[pos + |tokens|]) {
        var e', id' := ReadsWhole(s, pos, id, 0, e);
      }
    }
  }

  /** The parser's priorities agree with the list. */
  function LevelPriority(level: nat): nat {
    if level == 0 then ASSIGN_PRIORITY else 10 * level
  }

  predicate Fits(level: nat, l: Expr, r: Expr) {
    (level > 0 ==> Priority(l) >= LevelPriority(level)) && Priority(r) > LevelPriority(level)
  }

  lemma InfixFacts(t: Token, level: nat, l: Expr, r: Expr)
    requires IsInfix(t, level)
    ensures var e := Joined(t, l, r);
      && Print(e) == Print(l) + [t] + Print(r) && Priority(e) == LevelPriority(level)
      && (WellGrouped(e) <==> WellGrouped(l) && WellGrouped(r) && Fits(level, l, r))
  {
    InfixKinds(t, level, l, r);
    var e := Joined(t, l, r);
    if level > 0 {
      assert Print(e) == Print(l) + [BinToken(e.kind.op)] + Print(r);
    }
    hide Joined;
  }

  lemma InfixKinds(t: Token, level: nat, l: Expr, r: Expr)
    requires IsInfix(t, level)
    ensures var k := Joined(t, l, r).kind;
      && (k.Binary? || k.Assign? || k.AssignWith?) && k.lhs == l && k.rhs == r
      && (level == 0 <==> !k.Binary?) && InfixToken(k) == t && InfixPriority(k) == LevelPriority(level)
  {
    var k := Joined(t, l, r).kind;
    ListedTokens(t, level);
    hide IsInfix;
  }

  lemma ListedTokens(t: Token, level: nat)
    requires IsInfix(t, level)
    ensures match level
      case 0 => t.Eq? || t.AssignTok?
      case 1 => t.OrOrTok?
      case 2 => t.AndAndTok?
      case 3 => t.EqEqTok? || t.NeTok? || t.GtTok? || t.LeTok? || t.GeTok?
      case 4 => t.OrTok?
      case 5 => t.CaretTok?
      case 6 => t.AndTok?
      case 7 => t.ShlTok? || t.ShrTok?
      case 8 => t.PlusTok? || t.MinusTok?
      case _ => level == 9 && (t.StarTok? || t.SlashTok? || t.PercentTok?)
  {
    assert t in INFIX[level];
  }

  lemma AtomFacts(e: Expr)
    requires Atom(e)
    ensures WellGrouped(e) && Priority(e) > UNARY_PRIORITY
    decreases e
  {
    if e.kind.Call? {
      AtomFacts(e.kind.callee);
    }
  }

  /** Two infix operators: the right one takes the operand between them exactly when it stands on a
      tighter level. */
  lemma InfixPairs(t: Token, i: nat, u: Token, j: nat, a: Expr, b: Expr, c: Expr)
    requires IsInfix(t, i) && IsInfix(u, j) && Atom(a) && Atom(b) && Atom(c)
    ensures ReadAs(Print(a) + [t] + Print(b) + [u] + Print(c),
              if i < j then Joined(t, a, Joined(u, b, c)) else Joined(u, Joined(t, a, b), c))
  {
    hide Joined, Print, WellGrouped, Priority, Atom, ReadAs, IsInfix;
    AtomFacts(a);
    AtomFacts(b);
    AtomFacts(c);
    LevelsFit(t, i);
    LevelsFit(u, j);
    var tokens := Print(a) + [t] + Print(b) + [u] + Print(c);
    if i < j {
      InfixFacts(u, j, b, c);
      InfixFacts(t, i, a, Joined(u, b, c));
      assert tokens == Print(a) + [t] + (Print(b) + [u] + Print(c));
      PrintedReads(tokens, Joined(t, a, Joined(u, b, c)));
    } else {
      InfixFacts(t, i, a, b);
      InfixFacts(u, j, Joined(t, a, b), c);
      assert tokens == (Print(a) + [t] + Print(b)) + [u] + Print(c);
      PrintedReads(tokens, Joined(u, Joined(t, a, b), c));
    }
  }

  lemma LevelsFit(t: Token, i: nat)
    requires IsInfix(t, i)
    ensures 0 < LevelPriority(i) < CAST_PRIORITY < UNARY_PRIORITY
  {
  }

  /** A cast takes the operand next to it, whatever infix operator stands on the other side. */
  lemma CastsBindTighter(t: Token, i: nat, a: Expr, b: Expr, name: nat)
    requires IsInfix(t, i) && Atom(a) && Atom(b)
    ensures ReadAs(Print(a) + [t] + Print(b) + [As, Ident(name)], Joined(t, a, CastTo(b, name)))
    ensures ReadAs(Print(a) + [As, Ident(name)] + [t] + Print(b), Joined(t, CastTo(a, name), b))
  {
    hide Joined, Print, WellGrouped, Priority, Atom, ReadAs, IsInfix;
    AtomFacts(a);
    AtomFacts(b);
    LevelsFit(t, i);
    CastFacts(a, name);
    CastFacts(b, name);
    InfixFacts(t, i, a, CastTo(b, name));
    InfixFacts(t, i, CastTo(a, name), b);
    assert Print(a) + [t] + Print(b) + [As, Ident(name)] == Print(a) + [t] + (Print(b) + [As, Ident(name)]);
    PrintedReads(Print(a) + [t] + Print(b) + [As, Ident(name)], Joined(t, a, CastTo(b, name)));
    PrintedReads(Print(a) + [As, Ident(name)] + [t] + Print(b), Joined(t, CastTo(a, name), b));
  }

  lemma CastFacts(x: Expr, name: nat)
    ensures var e := CastTo(x, name);
      && Print(e) == Print(x) + [As, Ident(name)] && Priority(e) == CAST_PRIORITY
      && (WellGrouped(e) <==> WellGrouped(x) && Priority(x) >= CAST_PRIORITY)
  {
  }

  lemma PrefixFacts(t: Token, x: Expr)
    requires t in PREFIX
    ensures var e := Prefixed(t, x);
      && Print(e) == [t] + Print(x) && Priority(e) == UNARY_PRIORITY + 1
      && (WellGrouped(e) <==> WellGrouped(x) && Priority(x) > UNARY_PRIORITY)
  {
  }

  /** A prefix operator takes the operand behind it, whatever infix operator stands on either side. */
  lemma PrefixesBindTighter(t: Token, i: nat, u: Token, a: Expr, b: Expr)
    requires IsInfix(t, i) && u in PREFIX && Atom(a) && Atom(b)
    ensures ReadAs([u] + Print(a) + [t] + Print(b), Joined(t, Prefixed(u, a), b))
    ensures ReadAs(Print(a) + [t] + [u] + Print(b), Joined(t, a, Prefixed(u, b)))
  {
    hide Joined, Prefixed, Print, WellGrouped, Priority, Atom, ReadAs, IsInfix;
    AtomFacts(a);
    AtomFacts(b);
    LevelsFit(t, i);
    PrefixFacts(u, a);
    PrefixFacts(u, b);
    InfixFacts(t, i, Prefixed(u, a), b);
    InfixFacts(t, i, a, Prefixed(u, b));
    PrintedReads([u] + Print(a) + [t] + Print(b), Joined(t, Prefixed(u, a), b));
    assert Print(a) + [t] + [u] + Print(b) == Print(a) + [t] + ([u] + Print(b));
    PrintedReads(Print(a) + [t] + [u] + Print(b), Joined(t, a, Prefixed(u, b)));
  }

  /** A prefix operator takes its operand before a cast does; prefix operators nest and casts chain. */
  lemma PrefixesAndCasts(t: Token, u: Token, a: Expr, name: nat, other: nat)
    requires t in PREFIX && u in PREFIX && Atom(a)
    ensures ReadAs([t] + Print(a) + [As, Ident(name)], CastTo(Prefixed(t, a), name))
    ensures ReadAs([t] + [u] + Print(a), Prefixed(t, Prefixed(u, a)))
    ensures ReadAs(Print(a) + [As, Ident(name)] + [As, Ident(other)], CastTo(CastTo(a, name), other))
  {
    hide Prefixed, CastTo, Print, WellGrouped, Priority, Atom, ReadAs;
    AtomFacts(a);
    PrefixFacts(t, a);
    PrefixFacts(u, a);
    PrefixFacts(t, Prefixed(u, a));
    CastFacts(Prefixed(t, a), name);
    CastFacts(a, name);
    CastFacts(CastTo(a, name), other);
    PrintedReads([t] + Print(a) + [As, Ident(name)], CastTo(Prefixed(t, a), name));
    assert [t] + [u] + Print(a) == [t] + ([u] + Print(a));
    PrintedReads([t] + [u] + Print(a), Prefixed(t, Prefixed(u, a)));
    PrintedReads(Print(a) + [As, Ident(name)] + [As, Ident(other)], CastTo(CastTo(a, name), other));
  }

  // ---------------------------------------------------------------- lists

  /** The elements of a list, each followed by a comma, and the closing parenthesis. */
  function Trailing(elems: seq<Expr>): (r: seq<Token>)
    ensures |r| > 0
  {
    if elems == [] then [ClosePar] else Print(elems[0]) + [Comma] + Trailing(elems[1..])
  }

  lemma {:induction false} ReadsTrailing(s: seq<Token>, pos: nat, id: nat, elems: seq<Expr>, acc: seq<Expr>, seen: bool)
    returns (xs: seq<Expr>, id': nat)
    requires At(s, pos, Trailing(elems)) && forall j :: 0 <= j < |elems| ==> WellGrouped(elems[j])
    ensures ParseItems(s, pos, id, acc, seen)
      == Done((acc + xs, seen || elems != []), pos + |Trailing(elems)|, id')
    ensures SameFrom(xs, elems, 0)
    decreases |elems|
  {
    hide ParseExpr, ParseItems, Print, WellGrouped, Priority, At, Erase, SameFrom;
    if elems == [] {
      AtOne(s, pos, ClosePar);
      xs, id' := [], id;
      ItemsDone(s, pos, id, acc, seen);
      SameNone(elems);
      assert acc + xs == acc;
    } else {
      var x, rest := elems[0], Trailing(elems[1..]);
      AtInfix(s, pos, Print(x), Comma, rest);
      var x', i := ReadsWhole(s, pos, id, 0, x);
      NotClosing(s, pos, x);
      ItemsNext(s, pos, id, acc, seen, x', pos + |Print(x)|, i);
      var ys;
      ys, id' := ReadsTrailing(s, pos + |Print(x)| + 1, i, elems[1..], acc + [x'], true);
      xs := [x'] + ys;
      SameStep(x', ys, elems);
      assert acc + xs == acc + [x'] + ys;
    }
  }

  lemma ItemsDone(s: seq<Token>, pos: nat, id: nat, acc: seq<Expr>, seen: bool)
    requires pos < |s| && s[pos].ClosePar?
    ensures ParseItems(s, pos, id, acc, seen) == Done((acc, seen), pos + 1, id)
  {
    hide ParseExpr;
  }

  lemma SameStep(x: Expr, ys: seq<Expr>, elems: seq<Expr>)
    requires elems != [] && Erase(x) == Erase(elems[0]) && SameFrom(ys, elems[1..], 0)
    ensures SameFrom([x] + ys, elems, 0)
  {
    hide Erase;
    forall j | 0 <= j < |elems| ensures Erase(([x] + ys)[j - 0]) == Erase(elems[j]) {
      if j > 0 {
        assert Erase(ys[j - 1 - 0]) == Erase(elems[1..][j - 1]);
      }
    }
  }

  lemma TailEnds(s: seq<Token>, k: Kind, pos: nat, id: nat)
    requires pos < |s| && Ends(s[pos])
    ensures ParseTail(s, k, pos, id, 0) == Done(k, pos, id)
  {
    hide ParseExpr, ParseItems, ParseTy;
  }

  /** Reading a parenthesised list in front of the end of an expression. */
  lemma ListAlone(s: seq<Token>, pos: nat, id: nat, xs: seq<Expr>, force: bool, to: nat, i: nat)
    requires pos < |s| && s[pos].OpenPar? && ParseItems(s, pos + 1, id, [], false) == Done((xs, force), to, i)
    requires to < |s| && Ends(s[to])
    ensures ParseExpr(s, pos, id, 0) == Done(Expr(Tup(xs, force), i), to, i + 1)
  {
    hide ParseItems, ParseTail;
    TailEnds(s, Tup(xs, force), to, i);
    assert ParsePrimary(s, pos, id) == Done(Tup(xs, force), to, i);
    assert ParseBody(s, pos, id, 0) == Done(Tup(xs, force), to, i);
  }

  lemma ReadsClosed(s: seq<Token>, pos: nat, id: nat, elems: seq<Expr>)
    requires elems != [] && forall j :: 0 <= j < |elems| ==> WellGrouped(elems[j])
    ensures ReadHere(s, pos, id, [OpenPar] + Trailing(elems), Expr(Tup(elems, true), 0))
  {
    hide ParseExpr, ParseItems, Erase, Trailing, WellGrouped, At, SameFrom;
    var to := pos + 1 + |Trailing(elems)|;
    if At(s, pos, [OpenPar] + Trailing(elems)) && to < |s| && Ends(s[to]) {
      AtSplit(s, pos, [OpenPar], Trailing(elems));
      AtOne(s, pos, OpenPar);
      var xs, i := ReadsTrailing(s, pos + 1, id, elems, [], false);
      assert [] + xs == xs;
      ErasedItems(xs, elems);
      EraseHead(Tup(xs, true), i);
      ListAlone(s, pos, id, xs, true, to, i);
    }
  }

  /** A comma may close a list of any length: it makes one element a tuple and changes nothing else. */
  lemma ClosingComma(elems: seq<Expr>)
    requires elems != [] && forall j :: 0 <= j < |elems| ==> WellGrouped(elems[j])
    ensures ReadAs([OpenPar] + Trailing(elems), Expr(Tup(elems, true), 0))
  {
    hide ReadHere, Trailing, WellGrouped;
    forall s: seq<Token>, pos: nat, id: nat
      ensures ReadHere(s, pos, id, [OpenPar] + Trailing(elems), Expr(Tup(elems, true), 0))
    {
      ReadsClosed(s, pos, id, elems);
    }
  }
}
