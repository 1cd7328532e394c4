/** Expressions, their tokens, and what parsing a token list means (src/ast/expr.rs:19-33, 122-243,
    443-513, 751-830, 1108-1129, 1330-1345). */
module ParserSpec {
  import opened CoreInts

  datatype UnOp = Deref | LogicNot | Neg

  datatype BinOp =
    | Plus | Minus | Times | Divide | Remainder | LogicAnd | LogicOr | BitXor | BitAnd | BitOr
    | ShiftLeft | ShiftRight | Equal | LessEq | NotEqual | GreaterEq | Greater

  datatype AssignOp =
    | AddAssign | SubAssign | MulAssign | DivAssign | RemAssign
    | XorAssign | AndAssign | OrAssign | ShlAssign | ShrAssign

  datatype Token =
    | Ident(name: nat) | Literal(lit: nat)
    | PlusTok | MinusTok | StarTok | SlashTok | PercentTok | AndAndTok | OrOrTok | CaretTok | AndTok | OrTok
    | ShlTok | ShrTok | EqEqTok | LeTok | NeTok | GeTok | GtTok | NotTok
    | As | Eq | AssignTok(aop: AssignOp)
    | OpenPar | ClosePar | Comma | Semi | CloseCurly

  datatype Ty = Ty(name: nat, id: nat)

  datatype Expr = Expr(kind: Kind, id: nat)

  datatype Kind =
    | Path(name: nat)
    | Lit(lit: nat)
    | Unary(uop: UnOp, operand: Expr)
    | Binary(op: BinOp, lhs: Expr, rhs: Expr)
    | Cast(value: Expr, ty: Ty)
    | Assign(lhs: Expr, rhs: Expr)
    | AssignWith(aop: AssignOp, lhs: Expr, rhs: Expr)
    | Tup(elems: seq<Expr>, force: bool)
    | Call(callee: Expr, elems: seq<Expr>)

  const ASSIGN_PRIORITY: nat := 1
  const CAST_PRIORITY: nat := 500
  const UNARY_PRIORITY: nat := 1000000

  function BinPriority(op: BinOp): nat {
    match op
    case LogicOr => 10
    case LogicAnd => 20
    case Equal => 30
    case NotEqual => 30
    case Greater => 30
    case LessEq => 30
    case GreaterEq => 30
    case BitOr => 40
    case BitXor => 50
    case BitAnd => 60
    case ShiftLeft => 70
    case ShiftRight => 70
    case Plus => 80
    case Minus => 80
    case Times => 90
    case Divide => 90
    case Remainder => 90
  }

  function ToBinOp(t: Token): Option<BinOp> {
    match t
    case PlusTok => Some(Plus)
    case MinusTok => Some(Minus)
    case StarTok => Some(Times)
    case SlashTok => Some(Divide)
    case PercentTok => Some(Remainder)
    case AndAndTok => Some(LogicAnd)
    case OrOrTok => Some(LogicOr)
    case CaretTok => Some(BitXor)
    case AndTok => Some(BitAnd)
    case OrTok => Some(BitOr)
    case ShlTok => Some(ShiftLeft)
    case ShrTok => Some(ShiftRight)
    case EqEqTok => Some(Equal)
    case LeTok => Some(LessEq)
    case NeTok => Some(NotEqual)
    case GeTok => Some(GreaterEq)
    case GtTok => Some(Greater)
    case _ => None
  }

  function ToUnOp(t: Token): Option<UnOp> {
    match t
    case StarTok => Some(Deref)
    case NotTok => Some(LogicNot)
    case MinusTok => Some(Neg)
    case _ => None
  }

  function ToAssignOp(t: Token): Option<AssignOp> {
    if t.AssignTok? then Some(t.aop) else None
  }

  // ---------------------------------------------------------------- parsing, as a function of the tokens

  /** A parsed value with the position and the next node number after it. */
  datatype Parsed<T> = Done(value: T, pos: nat, id: nat) | Fail

  function ParseTy(s: seq<Token>, pos: nat, id: nat): (r: Parsed<Ty>)
    ensures r.Done? ==> pos < r.pos < |s|
  {
    if pos + 1 < |s| && s[pos].Ident? then Done(Ty(s[pos].name, id), pos + 1, id + 1) else Fail
  }

  /** What can start an expression; a path looks one token further. */
  function ParsePrimary(s: seq<Token>, pos: nat, id: nat): (r: Parsed<Kind>)
    ensures r.Done? ==> pos < r.pos <= |s|
    decreases |s| - pos, 2
  {
    if pos >= |s| then Fail
    else if s[pos].Ident? then (if pos + 1 < |s| then Done(Path(s[pos].name), pos + 1, id) else Fail)
    else if ToUnOp(s[pos]).Some? then
      var x := ParseExpr(s, pos + 1, id, UNARY_PRIORITY + 1);
      if x.Fail? then Fail else Done(Unary(ToUnOp(s[pos]).value, x.value), x.pos, x.id)
    else if s[pos].Literal? then Done(Lit(s[pos].lit), pos + 1, id)
    else if s[pos].OpenPar? then
      var xs := ParseItems(s, pos + 1, id, [], false);
      if xs.Fail? then Fail else Done(Tup(xs.value.0, xs.value.1), xs.pos, xs.id)
    else Fail
  }

  /** The rest of a parenthesised list: the elements, and whether a comma was seen. */
  function ParseItems(s: seq<Token>, pos: nat, id: nat, acc: seq<Expr>, force: bool): (r: Parsed<(seq<Expr>, bool)>)
    ensures r.Done? ==> pos < r.pos <= |s|
    decreases |s| - pos, 5
  {
    if pos >= |s| then Fail
    else if s[pos].ClosePar? then Done((acc, force), pos + 1, id)
    else
      var e := ParseExpr(s, pos, id, 0);
      if e.Fail? || e.pos >= |s| then Fail
      else if s[e.pos].Comma? then ParseItems(s, e.pos + 1, e.id, acc + [e.value], true)
      else if s[e.pos].ClosePar? then Done((acc + [e.value], force), e.pos + 1, e.id)
      else Fail
  }

  /** What may follow an expression: calls, casts, binary operators and assignments of high enough
      priority, as long as there are any. The left operand is numbered after the right one. */
  function ParseTail(s: seq<Token>, k: Kind, pos: nat, id: nat, min: nat): (r: Parsed<Kind>)
    ensures r.Done? ==> pos <= r.pos <= |s|
    decreases |s| - pos, 2
  {
    if pos >= |s| then Fail
    else if s[pos].OpenPar? then
      var xs := ParseItems(s, pos + 1, id, [], false);
      if xs.Fail? then Fail else ParseTail(s, Call(Expr(k, xs.id), xs.value.0), xs.pos, xs.id + 1, min)
    else if s[pos].As? && CAST_PRIORITY >= min then
      var ty := ParseTy(s, pos + 1, id);
      if ty.Fail? then Fail else ParseTail(s, Cast(Expr(k, ty.id), ty.value), ty.pos, ty.id + 1, min)
    else if ToBinOp(s[pos]).Some? && BinPriority(ToBinOp(s[pos]).value) >= min then
      var op := ToBinOp(s[pos]).value;
      var r := ParseExpr(s, pos + 1, id, BinPriority(op) + 1);
      if r.Fail? then Fail else ParseTail(s, Binary(op, Expr(k, r.id), r.value), r.pos, r.id + 1, min)
    else if s[pos].Eq? && ASSIGN_PRIORITY >= min then
      var r := ParseExpr(s, pos + 1, id, ASSIGN_PRIORITY + 1);
      if r.Fail? then Fail else ParseTail(s, Assign(Expr(k, r.id), r.value), r.pos, r.id + 1, min)
    else if ToAssignOp(s[pos]).Some? && ASSIGN_PRIORITY >= min then
      var r := ParseExpr(s, pos + 1, id, ASSIGN_PRIORITY + 1);
      if r.Fail? then Fail else ParseTail(s, AssignWith(ToAssignOp(s[pos]).value, Expr(k, r.id), r.value), r.pos,
        r.id + 1, min)
    else Done(k, pos, id)
  }

  function ParseBody(s: seq<Token>, pos: nat, id: nat, min: nat): (r: Parsed<Kind>)
    ensures r.Done? ==> pos < r.pos <= |s|
    decreases |s| - pos, 3
  {
    var p := ParsePrimary(s, pos, id);
    if p.Fail? then Fail else ParseTail(s, p.value, p.pos, p.id, min)
  }

  function ParseExpr(s: seq<Token>, pos: nat, id: nat, min: nat): (r: Parsed<Expr>)
    ensures r.Done? ==> pos < r.pos <= |s|
    decreases |s| - pos, 4
  {
    var b := ParseBody(s, pos, id, min);
    if b.Fail? then Fail else Done(Expr(b.value, b.id), b.pos, b.id + 1)
  }

  // ---------------------------------------------------------------- printing

  function UnToken(op: UnOp): Token {
    match op
    case Deref => StarTok
    case LogicNot => NotTok
    case Neg => MinusTok
  }

  function BinToken(op: BinOp): (t: Token)
    ensures ToBinOp(t) == Some(op)
  {
    match op
    case Plus => PlusTok
    case Minus => MinusTok
    case Times => StarTok
    case Divide => SlashTok
    case Remainder => PercentTok
    case LogicAnd => AndAndTok
    case LogicOr => OrOrTok
    case BitXor => CaretTok
    case BitAnd => AndTok
    case BitOr => OrTok
    case ShiftLeft => ShlTok
    case ShiftRight => ShrTok
    case Equal => EqEqTok
    case LessEq => LeTok
    case NotEqual => NeTok
    case GreaterEq => GeTok
    case Greater => GtTok
  }

  /** The tokens of an expression, nothing added: grouping is in the tree. */
  function Print(e: Expr): (r: seq<Token>)
    ensures |r| > 0
    decreases e, |Items(e)| + 1
  {
    match e.kind
    case Path(name) => [Ident(name)]
    case Lit(lit) => [Literal(lit)]
    case Unary(op, x) => [UnToken(op)] + Print(x)
    case Binary(op, l, r) => Print(l) + [BinToken(op)] + Print(r)
    case Cast(v, ty) => Print(v) + [As, Ident(ty.name)]
    case Assign(l, r) => Print(l) + [Token.Eq] + Print(r)
    case AssignWith(op, l, r) => Print(l) + [AssignTok(op)] + Print(r)
    case Tup(_, force) => [OpenPar] + PrintItems(e, 0, force)
    case Call(f, _) => Print(f) + [OpenPar] + PrintItems(e, 0, false)
  }

  function Items(e: Expr): seq<Expr> {
    if e.kind.Tup? || e.kind.Call? then e.kind.elems else []
  }

  /** From element i to the closing parenthesis; a comma after every element but the last, and after a
      single one if it is to be a one-element tuple. */
  function PrintItems(e: Expr, i: nat, force: bool): (r: seq<Token>)
    requires i <= |Items(e)|
    ensures |r| > 0
    decreases e, |Items(e)| - i
  {
    var n := |Items(e)|;
    if i == n then [ClosePar]
    else if i + 1 < n || (n == 1 && force) then Print(Items(e)[i]) + [Comma] + PrintItems(e, i + 1, force)
    else Print(Items(e)[i]) + PrintItems(e, i + 1, force)
  }

  /** The same tree without node numbers. */
  function Erase(e: Expr): Expr
    decreases e
  {
    Expr(match e.kind
      case Path(name) => Path(name)
      case Lit(lit) => Lit(lit)
      case Unary(op, x) => Unary(op, Erase(x))
      case Binary(op, l, r) => Binary(op, Erase(l), Erase(r))
      case Cast(v, ty) => Cast(Erase(v), Ty(ty.name, 0))
      case Assign(l, r) => Assign(Erase(l), Erase(r))
      case AssignWith(op, l, r) => AssignWith(op, Erase(l), Erase(r))
      case Tup(elems, force) => Tup(seq(|elems|, i requires 0 <= i < |elems| => Erase(elems[i])), force)
      case Call(f, elems) => Call(Erase(f), seq(|elems|, i requires 0 <= i < |elems| => Erase(elems[i]))), 0)
  }

  // ---------------------------------------------------------------- grouping

  /** How tightly an expression holds together; a call as its callee does. */
  function Priority(e: Expr): nat
    decreases e
  {
    match e.kind
    case Binary(op, _, _) => BinPriority(op)
    case Cast(_, _) => CAST_PRIORITY
    case Assign(_, _) => ASSIGN_PRIORITY
    case AssignWith(_, _, _) => ASSIGN_PRIORITY
    case Call(f, _) => Priority(f)
    case _ => UNARY_PRIORITY + 1
  }

  /** What a parenthesised list turns into a call. A cast is among them: the list after its type calls
      the whole cast. */
  predicate Callee(e: Expr) {
    e.kind.Path? || e.kind.Lit? || e.kind.Tup? || e.kind.Call? || e.kind.Cast?
  }

  /** Children are grouped wherever priority demands it. */
  predicate WellGrouped(e: Expr)
    decreases e
  {
    match e.kind
    case Path(_) => true
    case Lit(_) => true
    case Unary(_, x) => WellGrouped(x) && Priority(x) > UNARY_PRIORITY
    case Binary(op, l, r) => WellGrouped(l) && WellGrouped(r) && Priority(l) >= BinPriority(op)
      && Priority(r) > BinPriority(op)
    case Cast(v, _) => WellGrouped(v) && Priority(v) >= CAST_PRIORITY
    case Assign(l, r) => WellGrouped(l) && WellGrouped(r) && Priority(r) > ASSIGN_PRIORITY
    case AssignWith(_, l, r) => WellGrouped(l) && WellGrouped(r) && Priority(r) > ASSIGN_PRIORITY
    case Tup(elems, force) =>
      (forall i :: 0 <= i < |elems| ==> WellGrouped(elems[i])) && (force ==> elems != []) && (|elems| > 1 ==> force)
    case Call(f, elems) =>
      WellGrouped(f) && Callee(f) && forall i :: 0 <= i < |elems| ==> WellGrouped(elems[i])
  }

  /** The token does not continue an expression that is being read at this priority. */
  predicate Stops(t: Token, min: nat) {
    && !t.OpenPar? && (t.As? ==> CAST_PRIORITY < min)
    && (ToBinOp(t).Some? ==> BinPriority(ToBinOp(t).value) < min)
    && (t.Eq? || t.AssignTok? ==> ASSIGN_PRIORITY < min)
  }

  /** The token does not continue the rightmost operand of the expression. */
  predicate StopsEdge(t: Token, e: Expr) {
    match e.kind
    case Unary(_, _) => Stops(t, UNARY_PRIORITY + 1)
    case Binary(op, _, _) => Stops(t, BinPriority(op) + 1)
    case Assign(_, _) => Stops(t, ASSIGN_PRIORITY + 1)
    case AssignWith(_, _, _) => Stops(t, ASSIGN_PRIORITY + 1)
    case _ => true
  }

  // ---------------------------------------------------------------- round trip

  ghost predicate At(s: seq<Token>, pos: nat, t: seq<Token>) {
    pos + |t| <= |s| && s[pos..pos + |t|] == t
  }

  lemma AtSplit(s: seq<Token>, pos: nat, a: seq<Token>, b: seq<Token>)
    requires At(s, pos, a + b)
    ensures At(s, pos, a) && At(s, pos + |a|, b)
  {
    assert (a + b)[..|a|] == a && (a + b)[|a|..] == b;
    assert s[pos..pos + |a + b|][..|a|] == s[pos..pos + |a|];
    assert s[pos..pos + |a + b|][|a|..] == s[pos + |a|..pos + |a| + |b|];
  }

  lemma AtOne(s: seq<Token>, pos: nat, t: Token)
    requires At(s, pos, [t])
    ensures pos < |s| && s[pos] == t
  {
    assert s[pos..pos + 1][0] == s[pos];
  }

  /** a + [t] + b at a position. */
  lemma AtInfix(s: seq<Token>, pos: nat, a: seq<Token>, t: Token, b: seq<Token>)
    requires At(s, pos, a + [t] + b)
    ensures At(s, pos, a) && pos + |a| < |s| && s[pos + |a|] == t && At(s, pos + |a| + 1, b)
  {
    AtSplit(s, pos, a + [t], b);
    AtSplit(s, pos, a, [t]);
    AtOne(s, pos + |a|, t);
  }

  /** Reading the tokens of a well-grouped expression whose priority suffices brings the parser to
      its tail loop, with that expression read, at the token after it. */
  lemma {:induction false} ReadsSpine(s: seq<Token>, pos: nat, id: nat, min: nat, e: Expr) returns (k: Kind, id': nat)
    requires WellGrouped(e) && Priority(e) >= min && At(s, pos, Print(e)) && pos + |Print(e)| < |s|
    requires StopsEdge(s[pos + |Print(e)|], e)
    ensures Erase(Expr(k, 0)) == Erase(e)
    ensures ParseBody(s, pos, id, min) == ParseTail(s, k, pos + |Print(e)|, id', min)
    decreases e, 0, 1
  {
    match e.kind {
      case Path(name) => AtOne(s, pos, Ident(name)); k, id' := Path(name), id;
      case Lit(lit) => AtOne(s, pos, Literal(lit)); k, id' := Lit(lit), id;
      case Unary(_, _) => k, id' := ReadsUnary(s, pos, id, min, e);
      case Cast(_, _) => k, id' := ReadsCast(s, pos, id, min, e);
      case Tup(_, _) => k, id' := ReadsTup(s, pos, id, min, e);
      case Call(_, _) => k, id' := ReadsCall(s, pos, id, min, e);
      case _ => k, id' := ReadsInfix(s, pos, id, min, e);
    }
  }

  lemma ReadsUnary(s: seq<Token>, pos: nat, id: nat, min: nat, e: Expr) returns (k: Kind, id': nat)
    requires e.kind.Unary? && WellGrouped(e) && At(s, pos, Print(e)) && pos + |Print(e)| < |s|
    requires StopsEdge(s[pos + |Print(e)|], e)
    ensures Erase(Expr(k, 0)) == Erase(e)
    ensures ParseBody(s, pos, id, min) == ParseTail(s, k, pos + |Print(e)|, id', min)
    decreases e, 0, 0
  {
    var op, x := e.kind.uop, e.kind.operand;
    AtSplit(s, pos, [UnToken(op)], Print(x));
    AtOne(s, pos, UnToken(op));
    var x', i := ReadsWhole(s, pos + 1, id, UNARY_PRIORITY + 1, x);
    k, id' := Unary(op, x'), i;
    hide ParseTail, Print, Stops, At;
  }

  /** The tree of an infix node, apart from its operator. */
  function InfixToken(k: Kind): Token
    requires k.Binary? || k.Assign? || k.AssignWith?
  {
    if k.Binary? then BinToken(k.op) else if k.Assign? then Token.Eq else AssignTok(k.aop)
  }

  function InfixPriority(k: Kind): nat
    requires k.Binary? || k.Assign? || k.AssignWith?
  {
    if k.Binary? then BinPriority(k.op) else ASSIGN_PRIORITY
  }

  function Rebuilt(k: Kind, l: Expr, r: Expr): Kind
    requires k.Binary? || k.Assign? || k.AssignWith?
  {
    if k.Binary? then Binary(k.op, l, r) else if k.Assign? then Assign(l, r) else AssignWith(k.aop, l, r)
  }

  /** One turn of the tail loop at an infix operator of sufficient priority. */
  lemma TailInfix(s: seq<Token>, k: Kind, pos: nat, id: nat, min: nat, node: Kind, r: Expr, pos': nat, id': nat)
    requires node.Binary? || node.Assign? || node.AssignWith?
    requires pos < |s| && s[pos] == InfixToken(node) && InfixPriority(node) >= min
    requires ParseExpr(s, pos + 1, id, InfixPriority(node) + 1) == Done(r, pos', id')
    ensures ParseTail(s, k, pos, id, min) == ParseTail(s, Rebuilt(node, Expr(k, id'), r), pos', id' + 1, min)
  {
    hide ParseExpr, BinPriority;
  }

  /** The operator after the left operand does not get caught inside it. */
  lemma LeftStops(l: Expr, node: Kind)
    requires node.Binary? || node.Assign? || node.AssignWith?
    requires Priority(l) >= InfixPriority(node)
    ensures StopsEdge(InfixToken(node), l)
  {
  }

  lemma InfixParts(e: Expr, t: Token)
    requires (e.kind.Binary? || e.kind.Assign? || e.kind.AssignWith?) && WellGrouped(e)
    ensures var node := e.kind;
      && Print(e) == Print(node.lhs) + [InfixToken(node)] + Print(node.rhs)
      && WellGrouped(node.lhs) && WellGrouped(node.rhs) && Priority(e) == InfixPriority(node)
      && Priority(node.lhs) >= InfixPriority(node) && Priority(node.rhs) >= InfixPriority(node) + 1
      && InfixPriority(node) < UNARY_PRIORITY
      && (StopsEdge(t, e) ==> Stops(t, InfixPriority(node) + 1))
  {
    LowestPriority(e.kind.lhs);
    hide Print, Stops, BinToken;
  }

  lemma InfixErased(e: Expr, kl: Kind, r: Expr, id: nat)
    requires e.kind.Binary? || e.kind.Assign? || e.kind.AssignWith?
    requires Erase(Expr(kl, 0)) == Erase(e.kind.lhs) && Erase(r) == Erase(e.kind.rhs)
    ensures Erase(Expr(Rebuilt(e.kind, Expr(kl, id), r), 0)) == Erase(e)
  {
    EraseHead(kl, id);
  }

  lemma ReadsInfix(s: seq<Token>, pos: nat, id: nat, min: nat, e: Expr) returns (k: Kind, id': nat)
    requires e.kind.Binary? || e.kind.Assign? || e.kind.AssignWith?
    requires WellGrouped(e) && Priority(e) >= min && At(s, pos, Print(e)) && pos + |Print(e)| < |s|
    requires StopsEdge(s[pos + |Print(e)|], e)
    ensures Erase(Expr(k, 0)) == Erase(e)
    ensures ParseBody(s, pos, id, min) == ParseTail(s, k, pos + |Print(e)|, id', min)
    decreases e, 0, 0
  {
    hide ParseTail, ParseBody, ParseExpr, Print, WellGrouped, Stops, At, StopsEdge, Erase, Priority, InfixToken,
      InfixPriority, Rebuilt;
    var node := e.kind;
    var l, r := node.lhs, node.rhs;
    InfixParts(e, s[pos + |Print(e)|]);
    AtInfix(s, pos, Print(l), InfixToken(node), Print(r));
    LeftStops(l, node);
    var kl, idl := ReadsSpine(s, pos, id, min, l);
    var at := pos + |Print(l)|;
    var r', idr := ReadsWhole(s, at + 1, idl, InfixPriority(node) + 1, r);
    TailInfix(s, kl, at, idl, min, node, r', at + 1 + |Print(r)|, idr);
    k, id' := Rebuilt(node, Expr(kl, idr), r'), idr + 1;
    InfixErased(e, kl, r', idr);
  }

  lemma EraseHead(k: Kind, id: nat)
    ensures Erase(Expr(k, id)) == Erase(Expr(k, 0))
  {
  }

  lemma LowestPriority(e: Expr)
    ensures Priority(e) >= ASSIGN_PRIORITY
  {
  }

  lemma CastParts(e: Expr)
    requires e.kind.Cast? && WellGrouped(e)
    ensures Print(e) == Print(e.kind.value) + [As] + [Ident(e.kind.ty.name)] && WellGrouped(e.kind.value)
    ensures Priority(e) == CAST_PRIORITY && Priority(e.kind.value) >= CAST_PRIORITY && StopsEdge(As, e.kind.value)
  {
    assert [As, Ident(e.kind.ty.name)] == [As] + [Ident(e.kind.ty.name)];
  }

  /** One turn of the tail loop at a cast. */
  lemma TailCast(s: seq<Token>, k: Kind, pos: nat, id: nat, min: nat)
    requires pos + 2 < |s| && s[pos].As? && s[pos + 1].Ident? && CAST_PRIORITY >= min
    ensures ParseTail(s, k, pos, id, min)
      == ParseTail(s, Cast(Expr(k, id + 1), Ty(s[pos + 1].name, id)), pos + 2, id + 2, min)
  {
  }

  lemma CastErased(e: Expr, kv: Kind, i: nat, j: nat)
    requires e.kind.Cast? && Erase(Expr(kv, 0)) == Erase(e.kind.value)
    ensures Erase(Expr(Cast(Expr(kv, i), Ty(e.kind.ty.name, j)), 0)) == Erase(e)
  {
    EraseHead(kv, i);
  }

  lemma ReadsCast(s: seq<Token>, pos: nat, id: nat, min: nat, e: Expr) returns (k: Kind, id': nat)
    requires e.kind.Cast? && WellGrouped(e) && Priority(e) >= min && At(s, pos, Print(e)) && pos + |Print(e)| < |s|
    ensures Erase(Expr(k, 0)) == Erase(e)
    ensures ParseBody(s, pos, id, min) == ParseTail(s, k, pos + |Print(e)|, id', min)
    decreases e, 0, 0
  {
    hide ParseTail, ParseBody, Print, WellGrouped, At, Stops, StopsEdge, Erase, Priority;
    var v, ty := e.kind.value, e.kind.ty;
    CastParts(e);
    AtInfix(s, pos, Print(v), As, [Ident(ty.name)]);
    var at := pos + |Print(v)|;
    AtOne(s, at + 1, Ident(ty.name));
    var kv, idv := ReadsSpine(s, pos, id, min, v);
    TailCast(s, kv, at, idv, min);
    k, id' := Cast(Expr(kv, idv + 1), Ty(ty.name, idv)), idv + 2;
    CastErased(e, kv, idv + 1, idv);
  }

  lemma ErasedItems(xs: seq<Expr>, elems: seq<Expr>)
    requires SameFrom(xs, elems, 0)
    ensures forall force :: Erase(Expr(Tup(xs, force), 0)) == Erase(Expr(Tup(elems, force), 0))
    ensures forall f, g :: Erase(f) == Erase(g) ==> Erase(Expr(Call(f, xs), 0)) == Erase(Expr(Call(g, elems), 0))
  {
    assert forall j :: 0 <= j < |xs| ==> Erase(xs[j - 0]) == Erase(elems[j]);
    assert seq(|xs|, i requires 0 <= i < |xs| => Erase(xs[i]))
      == seq(|elems|, i requires 0 <= i < |elems| => Erase(elems[i]));
  }

  lemma ReadsTup(s: seq<Token>, pos: nat, id: nat, min: nat, e: Expr) returns (k: Kind, id': nat)
    requires e.kind.Tup? && WellGrouped(e) && At(s, pos, Print(e)) && pos + |Print(e)| < |s|
    ensures Erase(Expr(k, 0)) == Erase(e)
    ensures ParseBody(s, pos, id, min) == ParseTail(s, k, pos + |Print(e)|, id', min)
    decreases e, 0, 0
  {
    hide ParseTail, PrintItems, At, Erase;
    var force := e.kind.force;
    AtSplit(s, pos, [OpenPar], PrintItems(e, 0, force));
    AtOne(s, pos, OpenPar);
    var xs, i := ReadsItems(s, pos + 1, id, e, 0, force, [], false);
    k, id' := Tup(xs, force), i;
    assert [] + xs == xs;
    ErasedItems(xs, e.kind.elems);
    EraseHead(e.kind, e.id);
  }

  lemma CallParts(e: Expr)
    requires e.kind.Call? && WellGrouped(e)
    ensures var f := e.kind.callee;
      && Print(e) == Print(f) + [OpenPar] + PrintItems(e, 0, false) && WellGrouped(f)
      && Priority(e) == Priority(f)
      && StopsEdge(OpenPar, f) && forall j :: 0 <= j < |Items(e)| ==> WellGrouped(Items(e)[j])
  {
    hide PrintItems;
  }

  /** One turn of the tail loop at an argument list. */
  lemma TailCall(s: seq<Token>, k: Kind, pos: nat, id: nat, min: nat, xs: seq<Expr>, force: bool, pos': nat, id': nat)
    requires pos < |s| && s[pos].OpenPar? && ParseItems(s, pos + 1, id, [], false) == Done((xs, force), pos', id')
    ensures ParseTail(s, k, pos, id, min) == ParseTail(s, Call(Expr(k, id'), xs), pos', id' + 1, min)
  {
    hide ParseItems;
  }

  lemma ReadsCall(s: seq<Token>, pos: nat, id: nat, min: nat, e: Expr) returns (k: Kind, id': nat)
    requires e.kind.Call? && WellGrouped(e) && Priority(e) >= min && At(s, pos, Print(e)) && pos + |Print(e)| < |s|
    ensures Erase(Expr(k, 0)) == Erase(e)
    ensures ParseBody(s, pos, id, min) == ParseTail(s, k, pos + |Print(e)|, id', min)
    decreases e, 0, 0
  {
    hide ParseTail, ParseBody, ParseItems, Print, PrintItems, WellGrouped, At, Stops, StopsEdge, Erase, Priority,
      SameFrom, Separated;
    var f := e.kind.callee;
    CallParts(e);
    AtInfix(s, pos, Print(f), OpenPar, PrintItems(e, 0, false));
    var kf, idf := ReadsSpine(s, pos, id, min, f);
    var at := pos + |Print(f)|;
    var xs, i := ReadsItems(s, at + 1, idf, e, 0, false, [], false);
    assert [] + xs == xs;
    ghost var commas := 0 < |Items(e)| && Separated(e, 0, false);
    TailCall(s, kf, at, idf, min, xs, commas, at + 1 + |PrintItems(e, 0, false)|, i);
    k, id' := Call(Expr(kf, i), xs), i + 1;
    EraseHead(kf, i);
    ErasedItems(xs, e.kind.elems);
    EraseHead(e.kind, e.id);
  }

  /** Element i is followed by a comma. */
  predicate Separated(e: Expr, i: nat, force: bool) {
    i + 1 < |Items(e)| || (|Items(e)| == 1 && force)
  }

  lemma PrintNext(e: Expr, i: nat, force: bool)
    requires i < |Items(e)|
    ensures PrintItems(e, i, force)
      == Print(Items(e)[i]) + (if Separated(e, i, force) then [Comma] else []) + PrintItems(e, i + 1, force)
    ensures !Separated(e, i, force) ==> PrintItems(e, i + 1, force) == [ClosePar] && i + 1 == |Items(e)|
  {
    hide Print;
  }

  lemma ItemsNext(s: seq<Token>, pos: nat, id: nat, acc: seq<Expr>, seen: bool, x: Expr, pos': nat, id': nat)
    requires pos < |s| && !s[pos].ClosePar? && ParseExpr(s, pos, id, 0) == Done(x, pos', id') && pos' < |s|
    ensures s[pos'].Comma? ==> ParseItems(s, pos, id, acc, seen) == ParseItems(s, pos' + 1, id', acc + [x], true)
    ensures s[pos'].ClosePar? ==> ParseItems(s, pos, id, acc, seen) == Done((acc + [x], seen), pos' + 1, id')
  {
    hide ParseExpr;
  }

  /** The list is, up to node numbers, the elements from the i-th on. */
  ghost predicate SameFrom(xs: seq<Expr>, elems: seq<Expr>, i: nat) {
    i <= |elems| && |xs| == |elems| - i && forall j :: i <= j < |elems| ==> Erase(xs[j - i]) == Erase(elems[j])
  }

  lemma SameNone(elems: seq<Expr>)
    ensures SameFrom([], elems, |elems|)
  {
  }

  lemma SameCons(x: Expr, xs: seq<Expr>, elems: seq<Expr>, i: nat)
    requires i < |elems| && Erase(x) == Erase(elems[i]) && SameFrom(xs, elems, i + 1)
    ensures SameFrom([x] + xs, elems, i)
  {
    hide Erase;
  }

  lemma CommaStops()
    ensures Stops(Comma, 0) && Stops(ClosePar, 0)
  {
  }

  /** Elements from the i-th on are read back, and the comma flag is what was printed. */
  lemma {:induction false} ReadsItems(s: seq<Token>, pos: nat, id: nat, e: Expr, i: nat, force: bool, acc: seq<Expr>,
                                      seen: bool)
    returns (xs: seq<Expr>, id': nat)
    requires i <= |Items(e)| && (forall j :: 0 <= j < |Items(e)| ==> WellGrouped(Items(e)[j]))
    requires At(s, pos, PrintItems(e, i, force))
    ensures SameFrom(xs, Items(e), i)
    ensures var commas := seen || (i < |Items(e)| && Separated(e, i, force));
      ParseItems(s, pos, id, acc, seen) == Done((acc + xs, commas), pos + |PrintItems(e, i, force)|, id')
    decreases e, 0, 0, |Items(e)| - i, 1
  {
    if i == |Items(e)| {
      hide Print, Erase, WellGrouped, SameFrom;
      assert PrintItems(e, i, force) == [ClosePar];
      AtOne(s, pos, ClosePar);
      SameNone(Items(e));
      xs, id' := [], id;
      assert acc + [] == acc;
    } else {
      hide ParseItems, PrintItems, At, WellGrouped, SameFrom, Separated;
      if Separated(e, i, force) {
        xs, id' := ReadsMore(s, pos, id, e, i, force, acc, seen);
      } else {
        xs, id' := ReadsLast(s, pos, id, e, i, force, acc, seen);
      }
    }
  }

  lemma ReadsMore(s: seq<Token>, pos: nat, id: nat, e: Expr, i: nat, force: bool, acc: seq<Expr>, seen: bool)
    returns (xs: seq<Expr>, id': nat)
    requires i < |Items(e)| && Separated(e, i, force) && (forall j :: 0 <= j < |Items(e)| ==> WellGrouped(Items(e)[j]))
    requires At(s, pos, PrintItems(e, i, force))
    ensures SameFrom(xs, Items(e), i)
    ensures ParseItems(s, pos, id, acc, seen) == Done((acc + xs, true), pos + |PrintItems(e, i, force)|, id')
    decreases e, 0, 0, |Items(e)| - i, 0
  {
    hide ParseExpr, ParseItems, Print, PrintItems, At, Erase, WellGrouped, Stops, SameFrom, Separated;
    var x, rest := Items(e)[i], PrintItems(e, i + 1, force);
    PrintNext(e, i, force);
    CommaStops();
    AtInfix(s, pos, Print(x), Comma, rest);
    var x', j := ReadsWhole(s, pos, id, 0, x);
    NotClosing(s, pos, x);
    ItemsNext(s, pos, id, acc, seen, x', pos + |Print(x)|, j);
    var xs', j' := ReadsItems(s, pos + |Print(x)| + 1, j, e, i + 1, force, acc + [x'], true);
    xs, id' := [x'] + xs', j';
    SameCons(x', xs', Items(e), i);
    assert acc + xs == acc + [x'] + xs';
  }

  lemma ReadsLast(s: seq<Token>, pos: nat, id: nat, e: Expr, i: nat, force: bool, acc: seq<Expr>, seen: bool)
    returns (xs: seq<Expr>, id': nat)
    requires i < |Items(e)| && !Separated(e, i, force) && WellGrouped(Items(e)[i])
    requires At(s, pos, PrintItems(e, i, force))
    ensures SameFrom(xs, Items(e), i)
    ensures ParseItems(s, pos, id, acc, seen) == Done((acc + xs, seen), pos + |PrintItems(e, i, force)|, id')
    decreases e, 0, 0, 0, 0
  {
    hide ParseExpr, ParseItems, Print, PrintItems, At, Erase, WellGrouped, Stops, SameFrom;
    var x, rest := Items(e)[i], PrintItems(e, i + 1, force);
    PrintNext(e, i, force);
    CommaStops();
    assert Print(x) + [] + rest == Print(x) + rest;
    AtSplit(s, pos, Print(x), rest);
    AtOne(s, pos + |Print(x)|, ClosePar);
    var x', j := ReadsWhole(s, pos, id, 0, x);
    NotClosing(s, pos, x);
    ItemsNext(s, pos, id, acc, seen, x', pos + |Print(x)|, j);
    SameNone(Items(e));
    SameCons(x', [], Items(e), i);
    assert [x'] + [] == [x'];
    xs, id' := [x'], j;
  }

  lemma {:induction false} NotClosing(s: seq<Token>, pos: nat, e: Expr)
    requires At(s, pos, Print(e))
    ensures pos < |s| && !s[pos].ClosePar?
    decreases e
  {
    FirstToken(e);
    assert s[pos..pos + |Print(e)|][0] == s[pos];
  }

  lemma {:induction false} FirstToken(e: Expr)
    ensures !Print(e)[0].ClosePar?
    decreases e
  {
    match e.kind {
      case Binary(_, l, _) => FirstToken(l);
      case Cast(v, _) => FirstToken(v);
      case Assign(l, _) => FirstToken(l);
      case AssignWith(_, l, _) => FirstToken(l);
      case Call(f, _) => FirstToken(f);
      case _ =>
    }
  }

  /** Parser round trip: the tokens of a well-grouped expression, followed by a token that does not
      continue it, are read back as that expression, and reading stops at that token. */
  lemma {:induction false} ReadsWhole(s: seq<Token>, pos: nat, id: nat, min: nat, e: Expr) returns (e': Expr, id': nat)
    requires WellGrouped(e) && Priority(e) >= min && min <= UNARY_PRIORITY + 1 && At(s, pos, Print(e))
    requires pos + |Print(e)| < |s| && Stops(s[pos + |Print(e)|], min)
    ensures Erase(e') == Erase(e) && ParseExpr(s, pos, id, min) == Done(e', pos + |Print(e)|, id')
    decreases e, 1, 0
  {
    var k, i := ReadsSpine(s, pos, id, min, e);
    e', id' := Expr(k, i), i + 1;
    EraseHead(k, i);
    hide ParseBody, Print, At;
  }
}
