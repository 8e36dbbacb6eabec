/** Printing of expressions (expr_print) and the expression grammar (kconfig/parser.y). */
module ExprPrint {
  import opened Basics
  import opened Expressions

  datatype Token = TSym(sym: Symbol) | TRel(rel: Relation) | TNot | TAnd | TOr | TOpen | TClose

  /** The expression types expr_compare_type ranks. */
  datatype Kind = KNone | KOr | KAnd | KNot | KEquality | KOrder | KSymbol

  function KindOf(e: Expr): Kind {
    match e
    case Sym(_) => KSymbol
    case Not(_) => KNot
    case Bin(op, _, _) => if op == Conj then KAnd else KOr
    case Cmp(rel, _, _) => if rel == Eq || rel == Ne then KEquality else KOrder
  }

  /** expr_compare_type is positive: `t1` binds tighter than `t2`. The cases fall through downwards. Two order
      comparisons of different direction never meet as parent and child and are not told apart. */
  predicate Tighter(t1: Kind, t2: Kind) {
    t1 != t2 &&
    match t1
    case KOrder => t2 == KEquality || t2 == KNot || t2 == KAnd || t2 == KOr || t2 == KNone
    case KEquality => t2 == KNot || t2 == KAnd || t2 == KOr || t2 == KNone
    case KNot => t2 == KAnd || t2 == KOr || t2 == KNone
    case KAnd => t2 == KOr || t2 == KNone
    case KOr => t2 == KNone
    case KNone => false
    case KSymbol => false
  }

  /** expr_print: the tokens of `e` as an operand of a construct of kind `outer`. */
  function Print(e: Expr, outer: Kind): (ts: seq<Token>)
    ensures |ts| >= 1
    decreases e, 1
  {
    if Tighter(outer, KindOf(e)) then [TOpen] + Body(e) + [TClose] else Body(e)
  }

  function Body(e: Expr): (ts: seq<Token>)
    ensures |ts| >= 1
    decreases e, 0
  {
    match e
    case Sym(s) => [TSym(s)]
    case Not(a) => [TNot] + Print(a, KNot)
    case Cmp(rel, a, b) => [TSym(a), TRel(rel), TSym(b)]
    case Bin(op, l, r) =>
      if op == Conj then Print(l, KAnd) + [TAnd] + Print(r, KAnd)
      else Print(l, KOr) + [TOr] + Print(r, KOr)
  }

  // ---------------------------------------------------------------------------------------------------------------
  // The grammar: || and && associate to the left, && binds tighter than ||, and ! binds tightest

  type Parsed = Option<(Expr, seq<Token>)>

  function ParseUnary(ts: seq<Token>): (r: Parsed)
    ensures r.Some? ==> |r.value.1| < |ts|
    decreases |ts|, 0
  {
    if ts == [] then None
    else match ts[0]
      case TNot =>
        var a := ParseUnary(ts[1..]);
        if a.None? then None else Some((Not(a.value.0), a.value.1))
      case TOpen =>
        var a := ParseOr(ts[1..]);
        if a.None? || a.value.1 == [] || a.value.1[0] != TClose then None else Some((a.value.0, a.value.1[1..]))
      case TSym(s) =>
        if |ts| >= 2 && ts[1].TRel? then
          (if |ts| >= 3 && ts[2].TSym? then Some((Cmp(ts[1].rel, s, ts[2].sym), ts[3..])) else None)
        else Some((Sym(s), ts[1..]))
      case _ => None
  }

  function ParseAnd(ts: seq<Token>): (r: Parsed)
    ensures r.Some? ==> |r.value.1| < |ts|
    decreases |ts|, 1
  {
    var a := ParseUnary(ts);
    if a.None? then None else AndTail(a.value.0, a.value.1)
  }

  function AndTail(acc: Expr, ts: seq<Token>): (r: Parsed)
    ensures r.Some? ==> |r.value.1| <= |ts|
    decreases |ts|, 0
  {
    if ts == [] || ts[0] != TAnd then Some((acc, ts))
    else
      var a := ParseUnary(ts[1..]);
      if a.None? then None else AndTail(Bin(Conj, acc, a.value.0), a.value.1)
  }

  function ParseOr(ts: seq<Token>): (r: Parsed)
    ensures r.Some? ==> |r.value.1| < |ts|
    decreases |ts|, 2
  {
    var a := ParseAnd(ts);
    if a.None? then None else OrTail(a.value.0, a.value.1)
  }

  function OrTail(acc: Expr, ts: seq<Token>): (r: Parsed)
    ensures r.Some? ==> |r.value.1| <= |ts|
    decreases |ts|, 0
  {
    if ts == [] || ts[0] != TOr then Some((acc, ts))
    else
      var a := ParseAnd(ts[1..]);
      if a.None? then None else OrTail(Bin(Disj, acc, a.value.0), a.value.1)
  }

  /** A whole token list as one expression. */
  function Parse(ts: seq<Token>): Option<Expr> {
    var r := ParseOr(ts);
    if r.Some? && r.value.1 == [] then Some(r.value.0) else None
  }

  // ---------------------------------------------------------------------------------------------------------------
  // Re-association

  /** `e` with every chain of one junctor associated to the left. */
  function LeftAssoc(e: Expr): Expr
    decreases e, 1
  {
    match e
    case Not(a) => Not(LeftAssoc(a))
    case Bin(op, l, r) => Extend(op, LeftAssoc(l), r)
    case _ => e
  }

  /** The chain `acc` continued by the operands of `e`. */
  function Extend(op: Junctor, acc: Expr, e: Expr): Expr
    decreases e, 2
  {
    if IsBin(op, e) then Extend(op, Extend(op, acc, e.left), e.right) else Bin(op, acc, LeftAssoc(e))
  }

  lemma {:induction false} ExtendValue(op: Junctor, acc: Expr, e: Expr, env: Env)
    ensures Eval(Extend(op, acc, e), env) == Apply(op, Eval(acc, env), Eval(e, env))
    decreases e, 2
  {
    if IsBin(op, e) {
      ExtendValue(op, acc, e.left, env);
      ExtendValue(op, Extend(op, acc, e.left), e.right, env);
    } else {
      LeftAssocValue(e, env);
    }
  }

  /** Re-association keeps the value. */
  lemma {:induction false} LeftAssocValue(e: Expr, env: Env)
    ensures Eval(LeftAssoc(e), env) == Eval(e, env)
    decreases e, 1
  {
    match e
    case Not(a) => LeftAssocValue(a, env);
    case Bin(op, l, r) =>
      LeftAssocValue(l, env);
      ExtendValue(op, LeftAssoc(l), r, env);
    case _ =>
  }

  function LeftAssocAll(s: seq<Expr>): (r: seq<Expr>)
    ensures |r| == |s| && forall i :: 0 <= i < |s| ==> r[i] == LeftAssoc(s[i])
  {
    seq(|s|, i requires 0 <= i < |s| => LeftAssoc(s[i]))
  }

  lemma LeftAssocConcat(s: seq<Expr>, l: seq<Expr>, r: seq<Expr>)
    ensures LeftAssocAll(l + r) == LeftAssocAll(l) + LeftAssocAll(r)
    ensures s + LeftAssocAll(l) + LeftAssocAll(r) == s + LeftAssocAll(l + r)
  {
    assert LeftAssocAll(l + r) == LeftAssocAll(l) + LeftAssocAll(r);
  }

  lemma {:induction false} ExtendLeaves(op: Junctor, acc: Expr, e: Expr)
    ensures Leaves(op, Extend(op, acc, e)) == Leaves(op, acc) + LeftAssocAll(Leaves(op, e))
    decreases e, 2
  {
    if IsBin(op, e) {
      ExtendLeaves(op, acc, e.left);
      ExtendLeaves(op, Extend(op, acc, e.left), e.right);
      LeftAssocConcat(Leaves(op, acc), Leaves(op, e.left), Leaves(op, e.right));
    } else {
      LeftAssocLeaves(op, e);
    }
  }

  /** Re-association keeps the operands of every chain, in order. */
  lemma {:induction false} LeftAssocLeaves(op: Junctor, e: Expr)
    ensures Leaves(op, LeftAssoc(e)) == LeftAssocAll(Leaves(op, e))
    decreases e, 1
  {
    if e.Bin? {
      if e.op == op {
        LeftAssocLeaves(op, e.left);
        ExtendLeaves(op, LeftAssoc(e.left), e.right);
        LeftAssocConcat([], Leaves(op, e.left), Leaves(op, e.right));
      } else {
        ExtendRoot(e.op, LeftAssoc(e.left), e.right);
      }
    }
  }

  lemma {:induction false} ExtendRoot(op: Junctor, acc: Expr, e: Expr)
    ensures IsBin(op, Extend(op, acc, e))
    decreases e
  {
    if IsBin(op, e) {
      ExtendRoot(op, Extend(op, acc, e.left), e.right);
    }
  }

  // ---------------------------------------------------------------------------------------------------------------
  // Round trip

  predicate Starts(ts: seq<Token>, t: Token) {
    ts != [] && ts[0] == t
  }

  predicate StartsRel(ts: seq<Token>) {
    ts != [] && ts[0].TRel?
  }

  /** An operand printed below ! or && is one unary expression of the grammar, unless it is an && chain below &&. */
  lemma {:induction false} UnaryRoundTrip(e: Expr, outer: Kind, rest: seq<Token>)
    requires !StartsRel(rest)
    requires outer == KNot || outer == KAnd || outer == KOr
    requires e.Bin? ==> Tighter(outer, KindOf(e))
    ensures ParseUnary(Print(e, outer) + rest) == Some((LeftAssoc(e), rest))
    decreases Size(e), 3
  {
    match e
    case Sym(s) =>
      assert ([TSym(s)] + rest)[1..] == rest;
    case Cmp(rel, a, b) =>
      assert ([TSym(a), TRel(rel), TSym(b)] + rest)[3..] == rest;
    case Not(a) =>
      UnaryRoundTrip(a, KNot, rest);
      NegationParses(Print(a, KNot), rest, LeftAssoc(a));
    case Bin(_, _, _) =>
      OrRoundTrip(e, [TClose] + rest);
      ClosedTail(LeftAssoc(e), rest);
      ParenthesesParse(Body(e), rest, LeftAssoc(e));
  }

  lemma NegationParses(ts: seq<Token>, rest: seq<Token>, a: Expr)
    requires ParseUnary(ts + rest) == Some((a, rest))
    ensures ParseUnary([TNot] + ts + rest) == Some((Not(a), rest))
  {
    assert ([TNot] + ts + rest)[1..] == ts + rest;
  }

  lemma ClosedTail(e: Expr, rest: seq<Token>)
    ensures OrTail(e, [TClose] + rest) == Some((e, [TClose] + rest))
  {}

  lemma ParenthesesParse(ts: seq<Token>, rest: seq<Token>, e: Expr)
    requires ParseOr(ts + ([TClose] + rest)) == Some((e, [TClose] + rest))
    ensures ParseUnary([TOpen] + ts + [TClose] + rest) == Some((e, rest))
  {
    var all := [TOpen] + ts + [TClose] + rest;
    assert all[1..] == ts + ([TClose] + rest);
    assert ([TClose] + rest)[1..] == rest;
  }

  /** An expression printed below && continues an && chain by its operands. */
  lemma {:induction false} AndTailRoundTrip(acc: Expr, e: Expr, rest: seq<Token>)
    requires !StartsRel(rest)
    ensures AndTail(acc, [TAnd] + Print(e, KAnd) + rest) == AndTail(Extend(Conj, acc, e), rest)
    decreases Size(e), 4
  {
    var ts := [TAnd] + Print(e, KAnd) + rest;
    if IsBin(Conj, e) {
      var tail := [TAnd] + Print(e.right, KAnd) + rest;
      assert ts == [TAnd] + Print(e.left, KAnd) + tail;
      AndTailRoundTrip(acc, e.left, tail);
      AndTailRoundTrip(Extend(Conj, acc, e.left), e.right, rest);
    } else {
      UnaryRoundTrip(e, KAnd, rest);
      assert ts[1..] == Print(e, KAnd) + rest;
    }
  }

  lemma {:induction false} AndRoundTrip(e: Expr, rest: seq<Token>)
    requires !StartsRel(rest)
    ensures ParseAnd(Print(e, KAnd) + rest) == AndTail(LeftAssoc(e), rest)
    decreases Size(e), 4
  {
    if IsBin(Conj, e) {
      var tail := [TAnd] + Print(e.right, KAnd) + rest;
      assert Print(e, KAnd) + rest == Print(e.left, KAnd) + tail;
      AndRoundTrip(e.left, tail);
      AndTailRoundTrip(LeftAssoc(e.left), e.right, rest);
    } else {
      UnaryRoundTrip(e, KAnd, rest);
    }
  }

  lemma {:induction false} OrTailRoundTrip(acc: Expr, e: Expr, rest: seq<Token>)
    requires !StartsRel(rest) && !Starts(rest, TAnd)
    ensures OrTail(acc, [TOr] + Print(e, KOr) + rest) == OrTail(Extend(Disj, acc, e), rest)
    decreases Size(e), 5
  {
    var ts := [TOr] + Print(e, KOr) + rest;
    if IsBin(Disj, e) {
      var tail := [TOr] + Print(e.right, KOr) + rest;
      assert ts == [TOr] + Print(e.left, KOr) + tail;
      OrTailRoundTrip(acc, e.left, tail);
      OrTailRoundTrip(Extend(Disj, acc, e.left), e.right, rest);
    } else {
      assert Print(e, KOr) == Print(e, KAnd);
      AndRoundTrip(e, rest);
      assert ts[1..] == Print(e, KAnd) + rest;
    }
  }

  /** The tokens of an expression without outer parentheses are read back, up to re-association. */
  lemma {:induction false} OrRoundTrip(e: Expr, rest: seq<Token>)
    requires !StartsRel(rest) && !Starts(rest, TAnd)
    ensures ParseOr(Body(e) + rest) == OrTail(LeftAssoc(e), rest)
    decreases Size(e), if e.Bin? then 2 else 6
  {
    if IsBin(Disj, e) {
      var tail := [TOr] + Print(e.right, KOr) + rest;
      assert Body(e) + rest == Print(e.left, KOr) + tail;
      assert Print(e.left, KOr) == Body(e.left);
      OrRoundTrip(e.left, tail);
      OrTailRoundTrip(LeftAssoc(e.left), e.right, rest);
    } else if IsBin(Conj, e) {
      var tail := [TAnd] + Print(e.right, KAnd) + rest;
      assert Body(e) + rest == Print(e.left, KAnd) + tail;
      AndRoundTrip(e.left, tail);
      AndTailRoundTrip(LeftAssoc(e.left), e.right, rest);
    } else {
      UnaryRoundTrip(e, KAnd, rest);
      assert ParseAnd(Body(e) + rest) == AndTail(LeftAssoc(e), rest) == Some((LeftAssoc(e), rest));
    }
  }

  /** What expr_print prints, the grammar reads back as the same expression up to re-association of && and ||, and so
      with the same value. */
  lemma PrintParse(e: Expr)
    ensures Parse(Print(e, KNone)) == Some(LeftAssoc(e))
    ensures forall env :: Eval(LeftAssoc(e), env) == Eval(e, env)
  {
    OrRoundTrip(e, []);
    assert Print(e, KNone) == Body(e) && Body(e) + [] == Body(e);
    forall env ensures Eval(LeftAssoc(e), env) == Eval(e, env) {
      LeftAssocValue(e, env);
    }
  }

  // ---------------------------------------------------------------------------------------------------------------
  // Parentheses

  function Opens(ts: seq<Token>): nat {
    if ts == [] then 0 else (if ts[0] == TOpen then 1 else 0) + Opens(ts[1..])
  }

  lemma {:induction false} OpensConcat(a: seq<Token>, b: seq<Token>)
    ensures Opens(a + b) == Opens(a) + Opens(b)
  {
    if a == [] {
      assert a + b == b;
    } else {
      assert (a + b)[1..] == a[1..] + b;
      OpensConcat(a[1..], b);
    }
  }

  lemma {:induction false} NoOpens(ts: seq<Token>)
    requires TOpen !in ts
    ensures Opens(ts) == 0
  {
    if ts != [] { NoOpens(ts[1..]); }
  }

  /** The operands that the precedences would not read back in place: an || below an &&, and an && or || below a !. */
  function Misread(e: Expr): nat {
    match e
    case Not(a) => Misread(a) + (if a.Bin? then 1 else 0)
    case Bin(op, l, r) =>
      Misread(l) + Misread(r) +
      (if op == Conj && IsBin(Disj, l) then 1 else 0) + (if op == Conj && IsBin(Disj, r) then 1 else 0)
    case _ => 0
  }

  /** Only those are put in parentheses. */
  lemma {:induction false} ParenthesesNeeded(e: Expr)
    ensures Opens(Print(e, KNone)) == Opens(Body(e)) == Misread(e)
  {
    match e
    case Sym(_) =>
      NoOpens(Body(e));
    case Cmp(_, _, _) =>
      NoOpens(Body(e));
    case Not(a) =>
      ParenthesesNeeded(a);
      OperandOpens(a, KNot);
      OpensConcat([TNot], Print(a, KNot));
    case Bin(op, l, r) =>
      ParenthesesNeeded(l);
      ParenthesesNeeded(r);
      JunctionOpens(op, l, r);
  }

  lemma JunctionOpens(op: Junctor, l: Expr, r: Expr)
    ensures Opens(Body(Bin(op, l, r))) ==
            Opens(Body(l)) + Opens(Body(r)) +
            (if op == Conj && IsBin(Disj, l) then 1 else 0) + (if op == Conj && IsBin(Disj, r) then 1 else 0)
  {
    var kind, token := if op == Conj then KAnd else KOr, if op == Conj then TAnd else TOr;
    OperandOpens(l, kind);
    OperandOpens(r, kind);
    OpensConcat(Print(l, kind) + [token], Print(r, kind));
    OpensConcat(Print(l, kind), [token]);
    NoOpens([token]);
  }

  lemma OperandOpens(e: Expr, outer: Kind)
    requires outer == KNot || outer == KAnd || outer == KOr
    ensures Opens(Print(e, outer)) ==
            Opens(Body(e)) + if (outer == KNot && e.Bin?) || (outer == KAnd && IsBin(Disj, e)) then 1 else 0
  {
    OpensConcat([TOpen] + Body(e), [TClose]);
    OpensConcat([TOpen], Body(e));
  }
}
