/** Normalisation of dependency expressions and what menu_finalize uses it for: expr_transform, rewrite_m,
    expr_trans_bool, expr_trans_compare, expr_depends_symbol and the automatic submenu test. */
module ExprTransform {
  import opened Basics
  import opened Expressions
  import opened ExprEquality
  import opened ExprDups

  predicate IsBoolean(s: Symbol) {
    s.Config? && s.kind == Boolean
  }

  function Negated(rel: Relation): Relation {
    match rel
    case Eq => Ne
    case Ne => Eq
    case Lt => Ge
    case Le => Gt
    case Gt => Le
    case Ge => Lt
  }

  function NegatedConst(s: Symbol): Symbol
    requires IsYMN(s)
  {
    if s == ConstY then ConstN else if s == ConstN then ConstY else ConstM
  }

  /** An equality test of a boolean symbol against y, m or n. */
  predicate IsBooleanTest(e: Expr) {
    IsEquality(e) && IsBoolean(e.lhs) && IsYMN(e.rhs)
  }

  function TransformTest(e: Expr): Expr
    requires e.Cmp?
  {
    if !IsBooleanTest(e) then e
    else if e.rel == Eq then
      (if e.rhs == ConstN then Not(Sym(e.lhs)) else if e.rhs == ConstM then Sym(ConstN) else Sym(e.lhs))
    else
      (if e.rhs == ConstN then Sym(e.lhs) else if e.rhs == ConstM then Sym(ConstY) else Not(Sym(e.lhs)))
  }

  /** Normal form: negation only above a symbol other than y, m and n; no test of a boolean symbol against these. */
  predicate Normal(e: Expr) {
    match e
    case Sym(_) => true
    case Cmp(_, _, _) => !IsBooleanTest(e)
    case Not(a) => a.Sym? && !IsYMN(a.sym)
    case Bin(_, l, r) => Normal(l) && Normal(r)
  }

  function Junctions(e: Expr): nat {
    match e
    case Bin(_, l, r) => 1 + Junctions(l) + Junctions(r)
    case Not(a) => Junctions(a)
    case _ => 0
  }

  /** The number of negations stacked at the root. */
  function Bangs(e: Expr): nat {
    if e.Not? then 1 + Bangs(e.arg) else 0
  }

  /** expr_transform. The number of junctions is invariant; a De Morgan step and a dropped double negation re-transform
      their result with fewer negations at the root. */
  function Transform(e: Expr): (r: Expr)
    ensures Normal(r) && Junctions(r) == Junctions(e)
    decreases Junctions(e), Bangs(e)
  {
    match e
    case Sym(_) => e
    case Cmp(_, _, _) => TransformTest(e)
    case Bin(op, l, r) => Bin(op, Transform(l), Transform(r))
    case Not(a) =>
      var t := Transform(a);
      match t
      case Not(b) => Transform(b)
      case Cmp(rel, x, y) => Cmp(Negated(rel), x, y)
      case Bin(op, x, y) =>
        assert Junctions(Not(x)) == Junctions(x) && Junctions(Not(y)) == Junctions(y);
        Transform(Bin(Dual(op), Not(x), Not(y)))
      case Sym(s) => if IsYMN(s) then Sym(NegatedConst(s)) else Not(t)
  }

  /** expr_transform keeps the tristate value. */
  lemma {:induction false} TransformValue(e: Expr, env: Env)
    ensures Eval(Transform(e), env) == Eval(e, env)
    decreases Junctions(e), Bangs(e)
  {
    match e
    case Sym(_) =>
    case Cmp(_, a, c) =>
      if IsBooleanTest(e) { CompareConstant(a, c, env); }
    case Bin(_, l, r) =>
      TransformValue(l, env);
      TransformValue(r, env);
    case Not(a) =>
      var t := Transform(a);
      TransformValue(a, env);
      match t
      case Not(b) => TransformValue(b, env);
      case Cmp(rel, x, y) =>
      case Bin(op, x, y) =>
        assert Junctions(Not(x)) == Junctions(x) && Junctions(Not(y)) == Junctions(y);
        TransformValue(Bin(Dual(op), Not(x), Not(y)), env);
        assert Eval(Not(x), env) == TriNot(Eval(x, env)) && Eval(Not(y), env) == TriNot(Eval(y, env));
      case Sym(s) =>
  }

  /** The negation of a normal form, in normal form. */
  function Flipped(e: Expr): (r: Expr)
    requires Normal(e)
    ensures Normal(r)
    decreases e
  {
    match e
    case Sym(s) => if IsYMN(s) then Sym(NegatedConst(s)) else Not(e)
    case Not(a) => a
    case Cmp(rel, a, b) => Cmp(Negated(rel), a, b)
    case Bin(op, l, r) => Bin(Dual(op), Flipped(l), Flipped(r))
  }

  lemma {:induction false} FlippedTwice(e: Expr)
    requires Normal(e)
    ensures Flipped(Flipped(e)) == e
  {
    if e.Bin? {
      FlippedTwice(e.left);
      FlippedTwice(e.right);
    }
  }

  /** Transforming a negation flips the normal form. */
  lemma {:induction false} TransformNot(e: Expr)
    ensures Transform(Not(e)) == Flipped(Transform(e))
    decreases Junctions(e)
  {
    var t := Transform(e);
    if t.Bin? {
      TransformFixes(t.left);
      TransformFixes(t.right);
      TransformNot(t.left);
      TransformNot(t.right);
      assert Transform(Bin(Dual(t.op), Not(t.left), Not(t.right))) == Flipped(t);
    }
  }

  /** Normal forms are exactly the fixed points. */
  lemma {:induction false} TransformFixes(e: Expr)
    ensures Transform(e) == e <==> Normal(e)
  {
    if Normal(e) && e.Bin? {
      TransformFixes(e.left);
      TransformFixes(e.right);
    }
  }

  lemma {:induction false} NormalNegations(e: Expr)
    requires Normal(e)
    ensures NegationsAtSymbols(e)
  {
    if e.Bin? {
      NormalNegations(e.left);
      NormalNegations(e.right);
    }
  }

  lemma {:induction false} TransformClean(e: Expr)
    requires Clean(e)
    ensures Clean(Transform(e))
    decreases Junctions(e), Bangs(e)
  {
    match e
    case Sym(_) =>
    case Cmp(_, _, _) =>
    case Bin(_, l, r) =>
      TransformClean(l);
      TransformClean(r);
    case Not(a) =>
      TransformClean(a);
      match Transform(a)
      case Not(b) => TransformClean(b);
      case Cmp(_, _, _) =>
      case Bin(op, x, y) =>
        assert Junctions(Not(x)) == Junctions(x) && Junctions(Not(y)) == Junctions(y);
        assert Clean(Not(x)) && Clean(Not(y));
        TransformClean(Bin(Dual(op), Not(x), Not(y)));
      case Sym(_) =>
  }

  // ---------------------------------------------------------------------------------------------------------------
  // rewrite_m and expr_trans_bool

  /** rewrite_m: 'm' becomes 'm' && MODULES. */
  function RewriteM(e: Expr, modules: Symbol): Expr {
    match e
    case Not(a) => Not(RewriteM(a, modules))
    case Bin(op, l, r) => Bin(op, RewriteM(l, modules), RewriteM(r, modules))
    case Sym(s) => if s == ConstM then Bin(Conj, e, Sym(modules)) else e
    case Cmp(_, _, _) => e
  }

  /** The value of an expression when the symbol 'm' is worth `m`. */
  function EvalWith(e: Expr, m: Tri, env: Env): Tri {
    match e
    case Not(a) => TriNot(EvalWith(a, m, env))
    case Bin(op, l, r) => Apply(op, EvalWith(l, m, env), EvalWith(r, m, env))
    case Sym(s) => if s == ConstM then m else TriOf(s, env)
    case Cmp(_, _, _) => Eval(e, env)
  }

  /** rewrite_m caps the worth of 'm' by MODULES. */
  lemma {:induction false} RewriteMValue(e: Expr, modules: Symbol, env: Env)
    ensures Eval(RewriteM(e, modules), env) == EvalWith(e, TriAnd(Mod, TriOf(modules, env)), env)
    ensures Clean(RewriteM(e, modules)) <==> Clean(e)
  {
    match e
    case Not(a) =>
      RewriteMValue(a, modules, env);
    case Bin(_, l, r) =>
      RewriteMValue(l, modules, env);
      RewriteMValue(r, modules, env);
    case _ =>
  }

  /** expr_trans_bool: `FOO!=n` becomes `FOO` for a tristate FOO. */
  function TransBool(e: Expr): Expr {
    match e
    case Bin(op, l, r) => Bin(op, TransBool(l), TransBool(r))
    case Not(a) => Not(TransBool(a))
    case Cmp(rel, a, c) => if rel == Ne && a.Config? && a.kind == Tristate && c == ConstN then Sym(a) else e
    case Sym(_) => e
  }

  /** With negations at symbols only, expr_trans_bool never raises the value and keeps whether it is n. */
  lemma {:induction false} TransBoolKeepsNo(e: Expr, env: Env)
    requires NegationsAtSymbols(e)
    ensures Eval(TransBool(e), env) == No <==> Eval(e, env) == No
    ensures Rank(Eval(TransBool(e), env)) <= Rank(Eval(e, env))
    ensures NegationsAtSymbols(TransBool(e))
  {
    match e
    case Bin(_, l, r) =>
      TransBoolKeepsNo(l, env);
      TransBoolKeepsNo(r, env);
    case Cmp(_, a, c) =>
      if TransBool(e) != e { CompareConstant(a, c, env); }
    case _ =>
  }

  /** No test `A!=n` of a tristate symbol, at any level. */
  predicate NoTestsForNo(e: Expr) {
    match e
    case Bin(_, l, r) => NoTestsForNo(l) && NoTestsForNo(r)
    case Not(a) => NoTestsForNo(a)
    case Cmp(rel, a, c) => !(rel == Ne && IsKind(a, Tristate) && c == ConstN)
    case Sym(_) => true
  }

  /** expr_trans_bool removes all such tests and does nothing where there is none. */
  lemma {:induction false} TransBoolRemoves(e: Expr)
    ensures NoTestsForNo(TransBool(e)) && (TransBool(e) == e <==> NoTestsForNo(e))
  {
    match e
    case Bin(_, l, r) =>
      TransBoolRemoves(l);
      TransBoolRemoves(r);
    case Not(a) => TransBoolRemoves(a);
    case _ =>
  }

  lemma {:induction false} TransBoolClean(e: Expr)
    requires Clean(e)
    ensures Clean(TransBool(e))
  {
    match e
    case Bin(_, l, r) =>
      TransBoolClean(l);
      TransBoolClean(r);
    case Not(a) =>
      TransBoolClean(a);
    case _ =>
  }

  /** Below a negation it does not: for `!(A!=n)` whether the value is n is kept exactly when A is not m, since the
      expression is n then and `!A` is m. */
  lemma TransBoolBelowNegation(id: nat, env: Env)
    ensures var e := Not(Cmp(Ne, Config(id, Tristate), ConstN));
            && ((Eval(TransBool(e), env) == No <==> Eval(e, env) == No) <==> env.tri(id) != Mod)
            && (env.tri(id) == Mod ==> Eval(e, env) == No && Eval(TransBool(e), env) == Mod)
  {
    CompareConstant(Config(id, Tristate), ConstN, env);
  }

  /** expr_alloc_and, with None for NULL. */
  function AllocAnd(a: Option<Expr>, b: Option<Expr>): Option<Expr> {
    if a.None? then b else if b.None? then a else Some(Bin(Conj, a.value, b.value))
  }

  function RewriteMOpt(e: Option<Expr>, modules: Symbol): Option<Expr> {
    if e.None? then None else Some(RewriteM(e.value, modules))
  }

  ghost predicate CleanOpt(e: Option<Expr>) {
    e.Some? ==> Clean(e.value)
  }

  ghost predicate NegationsOpt(e: Option<Expr>) {
    e.Some? ==> NegationsAtSymbols(e.value)
  }

  /** The condition of a property as menu_finalize propagates it: the parent's dependencies are added and the result
      simplified, and for a symbol that is not tristate reduced by expr_trans_bool. The value is kept as far as the
      symbol's visibility can tell. */
  method FinalizeCondition(
    simplifier: Simplifier, base: Option<Expr>, visible: Option<Expr>, modules: Symbol, kind: SymType)
    returns (dep: Option<Expr>)
    modifies simplifier
    ensures simplifier.transCount == old(simplifier.transCount)
    ensures CleanOpt(base) && CleanOpt(visible) ==> CleanOpt(dep)
    ensures NegationsOpt(base) ==> NegationsOpt(dep)
    ensures CleanOpt(base) && CleanOpt(visible) && NegationsOpt(base) ==>
      forall env :: Promote(kind != Tristate, EvalOr(dep, Yes, env)) ==
                    Promote(kind != Tristate,
                            TriAnd(EvalOr(base, Yes, env), EvalOr(RewriteMOpt(visible, modules), Yes, env)))
  {
    var own := None;
    if visible.Some? {
      own := Some(Transform(RewriteM(visible.value, modules)));
    }
    var both := AllocAnd(base, own);
    ConditionBefore(base, visible, modules, own, both);
    if both.None? {
      return None;
    }
    var e := simplifier.EliminateDups(both.value);
    ghost var e0 := e;
    if kind != Tristate {
      e := TransBool(e);
    }
    dep := Some(e);
    if NegationsAtSymbols(e0) {
      var env0 := Env(_ => false, _ => No, _ => "", _ => None);
      TransBoolKeepsNo(e0, env0);
    }
    if Clean(both.value) { TransBoolClean(e0); }
    if CleanOpt(base) && CleanOpt(visible) && NegationsOpt(base) {
      forall env: Env ensures
        Promote(kind != Tristate, EvalOr(dep, Yes, env)) ==
        Promote(kind != Tristate, TriAnd(EvalOr(base, Yes, env), EvalOr(RewriteMOpt(visible, modules), Yes, env)))
      {
        assert Eval(both.value, env) == Eval(e0, env);
        TransBoolKeepsNo(e0, env);
        ConditionValue(base, visible, modules, env);
      }
    }
  }

  lemma ConditionBefore(
    base: Option<Expr>, visible: Option<Expr>, modules: Symbol, own: Option<Expr>, both: Option<Expr>)
    requires own == if visible.Some? then Some(Transform(RewriteM(visible.value, modules))) else None
    requires both == AllocAnd(base, own)
    ensures CleanOpt(base) && CleanOpt(visible) ==> CleanOpt(both)
    ensures NegationsOpt(base) ==> NegationsOpt(both)
  {
    if visible.Some? {
      var env0 := Env(_ => false, _ => No, _ => "", _ => None);
      RewriteMValue(visible.value, modules, env0);
      if Clean(visible.value) { TransformClean(RewriteM(visible.value, modules)); }
      NormalNegations(own.value);
    }
  }

  lemma ConditionValue(base: Option<Expr>, visible: Option<Expr>, modules: Symbol, env: Env)
    ensures var own := if visible.Some? then Some(Transform(RewriteM(visible.value, modules))) else None;
            EvalOr(AllocAnd(base, own), Yes, env) ==
              TriAnd(EvalOr(base, Yes, env), EvalOr(RewriteMOpt(visible, modules), Yes, env))
  {
    if visible.Some? { TransformValue(RewriteM(visible.value, modules), env); }
  }

  // ---------------------------------------------------------------------------------------------------------------
  // expr_trans_compare

  function ConstOf(t: Tri): Symbol {
    match t
    case No => ConstN
    case Mod => ConstM
    case Yes => ConstY
  }

  /** expr_trans_compare with type E_UNEQUAL (`unequal`) or E_EQUAL. */
  function TransCompare(e: Expr, unequal: bool, t: Tri): Expr {
    match e
    case Bin(op, l, r) =>
      var x, y := TransCompare(l, false, t), TransCompare(r, false, t);
      var both := if t == Yes then Bin(op, x, y) else if t == No then Bin(Dual(op), x, y) else e;
      if unequal then Not(both) else both
    case Not(a) => TransCompare(a, !unequal, t)
    case Cmp(_, _, _) =>
      if t == Mod then Sym(if unequal then ConstY else ConstN)
      else if unequal == (t == No) then e
      else Not(e)
    case Sym(s) => Cmp(if unequal then Ne else Eq, s, ConstOf(t))
  }

  /** Whether `e` holds when every symbol's m is read as y (`up`) or as n. Comparisons keep their value. */
  predicate HoldsRounded(e: Expr, up: bool, env: Env) {
    match e
    case Sym(s) => if up then TriOf(s, env) != No else TriOf(s, env) == Yes
    case Not(a) => !HoldsRounded(a, up, env)
    case Bin(op, l, r) =>
      if op == Conj then HoldsRounded(l, up, env) && HoldsRounded(r, up, env)
      else HoldsRounded(l, up, env) || HoldsRounded(r, up, env)
    case Cmp(_, _, _) => Eval(e, env) == Yes
  }

  /** The symbols whose comparison with y or n tells their value: bool and tristate symbols, y, m and n, and those
      undefined symbols, always worth n, whose name compares as n does. */
  predicate Readable(s: Symbol, t: Tri) {
    IsTri(s) || IsYMN(s) || (s.Literal? && (s.name == TriText(t) <==> t == No))
  }

  predicate ReadableOperands(e: Expr, t: Tri) {
    match e
    case Sym(s) => Readable(s, t)
    case Not(a) => ReadableOperands(a, t)
    case Bin(_, l, r) => ReadableOperands(l, t) && ReadableOperands(r, t)
    case Cmp(_, _, _) => true
  }

  /** The comparison of a symbol with y or n agrees with the symbol's value under an assignment. */
  predicate ReadRightAt(s: Symbol, unequal: bool, t: Tri, env: Env) {
    Eval(TransCompare(Sym(s), unequal, t), env) == OfBool((TriOf(s, env) == t) != unequal)
  }

  /** The condition on operands is exact: a symbol is read right under every assignment if and only if it is
      readable. */
  lemma ReadableExact(s: Symbol, unequal: bool, t: Tri)
    requires t != Mod
    ensures (forall env :: ReadRightAt(s, unequal, t, env)) <==> Readable(s, t)
  {
    if IsTri(s) || IsYMN(s) {
      forall env: Env ensures ReadRightAt(s, unequal, t, env) { CompareConstant(s, ConstOf(t), env); }
    } else if s.Literal? {
      forall env: Env ensures ReadRightAt(s, unequal, t, env) <==> Readable(s, t) { StrCmpZero(s.name, TriText(t)); }
      var env := Env(_ => false, _ => No, _ => "", _ => None);
      assert ReadRightAt(s, unequal, t, env) <==> Readable(s, t);
    } else {
      var text := if t == No then "" else "y";
      var env := Env(_ => false, _ => No, _ => text, _ => None);
      StrCmpZero(text, TriText(t));
      assert !ReadRightAt(s, unequal, t, env);
    }
  }

  /** expr_trans_compare against n and y tests the two-valued reading of the expression, m read as y for n and as n
      for y. */
  lemma {:induction false} TransCompareExact(e: Expr, unequal: bool, t: Tri, env: Env)
    requires t != Mod && ReadableOperands(e, t)
    ensures Eval(TransCompare(e, unequal, t), env) == OfBool(HoldsRounded(e, t == No, env) == (unequal == (t == No)))
  {
    match e
    case Bin(_, l, r) =>
      TransCompareExact(l, false, t, env);
      TransCompareExact(r, false, t, env);
    case Not(a) =>
      TransCompareExact(a, !unequal, t, env);
    case Sym(s) =>
      ReadableExact(s, unequal, t);
      assert ReadRightAt(s, unequal, t, env);
    case Cmp(_, _, _) =>
  }

  /** Every negated subexpression is two-valued. */
  predicate NegationsTwoValued(e: Expr, env: Env) {
    match e
    case Sym(_) => true
    case Not(a) => Eval(a, env) != Mod && NegationsTwoValued(a, env)
    case Bin(_, l, r) => NegationsTwoValued(l, env) && NegationsTwoValued(r, env)
    case Cmp(_, _, _) => true
  }

  /** With negations at symbols, the rounded reading holds exactly when the value is not n, provided no negated symbol
      is m; in general it may only miss cases. */
  lemma {:induction false} RoundedUp(e: Expr, env: Env)
    requires NegationsAtSymbols(e)
    ensures HoldsRounded(e, true, env) ==> Eval(e, env) != No
    ensures NegationsTwoValued(e, env) ==> (HoldsRounded(e, true, env) <==> Eval(e, env) != No)
  {
    if e.Bin? {
      RoundedUp(e.left, env);
      RoundedUp(e.right, env);
    } else if e.Not? {
      RoundedUpNegation(e.arg.sym, env);
    }
  }

  /** For a negated symbol the condition is exact. */
  lemma RoundedUpNegation(s: Symbol, env: Env)
    ensures HoldsRounded(Not(Sym(s)), true, env) <==> Eval(Not(Sym(s)), env) == Yes
    ensures (HoldsRounded(Not(Sym(s)), true, env) <==> Eval(Not(Sym(s)), env) != No) <==> TriOf(s, env) != Mod
  {
    assert HoldsRounded(Sym(s), true, env) <==> TriOf(s, env) != No;
  }

  lemma {:induction false} TransCompareClean(e: Expr, unequal: bool, t: Tri)
    requires Clean(e)
    ensures Clean(TransCompare(e, unequal, t))
  {
    match e
    case Bin(_, l, r) =>
      TransCompareClean(l, false, t);
      TransCompareClean(r, false, t);
    case Not(a) =>
      TransCompareClean(a, !unequal, t);
    case _ =>
  }

  // ---------------------------------------------------------------------------------------------------------------
  // Automatic submenus

  /** expr_depends_symbol. */
  predicate DependsSymbol(e: Expr, s: Symbol) {
    match e
    case Bin(op, l, r) => op == Conj && (DependsSymbol(l, s) || DependsSymbol(r, s))
    case Sym(x) => x == s
    case Cmp(rel, a, c) => a == s && ((rel == Eq && (c == ConstY || c == ConstM)) || (rel == Ne && c == ConstN))
    case Not(_) => false
  }

  /** An absolute dependency on a symbol cannot be met while the symbol is n. */
  lemma {:induction false} DependsSymbolSound(e: Expr, s: Symbol, env: Env)
    requires DependsSymbol(e, s) && IsTri(s) && Eval(e, env) != No
    ensures TriOf(s, env) != No
  {
    match e
    case Bin(_, l, r) =>
      if DependsSymbol(l, s) { DependsSymbolSound(l, s, env); } else { DependsSymbolSound(r, s, env); }
    case Cmp(_, a, c) =>
      CompareConstant(a, c, env);
    case _ =>
  }

  /** The comparison of a condition with n, before simplification. */
  function RawReading(cond: Option<Expr>): Expr {
    Transform(if cond.None? then Not(Sym(ConstN)) else TransCompare(cond.value, true, No))
  }

  /** The two readings of a condition, as not n and as n, are each other's negation. */
  lemma {:induction false} ReadingFlips(e: Expr, unequal: bool)
    ensures Transform(TransCompare(e, unequal, No)) == Flipped(Transform(TransCompare(e, !unequal, No)))
  {
    match e
    case Bin(_, _, _) =>
      TransformNot(TransCompare(e, false, No));
      FlippedTwice(Transform(TransCompare(e, false, No)));
    case Not(a) =>
      ReadingFlips(a, !unequal);
    case Cmp(_, _, _) =>
      TransformNot(e);
      FlippedTwice(Transform(e));
    case Sym(_) =>
  }

  /** A conjunction is read operand by operand. */
  lemma ReadingOfBoth(l: Expr, r: Expr)
    ensures RawReading(Some(Bin(Conj, l, r))) == Bin(Conj, RawReading(Some(l)), RawReading(Some(r)))
  {
    var x, y := TransCompare(l, false, No), TransCompare(r, false, No);
    TransformNot(Bin(Disj, x, y));
    ReadingFlips(l, true);
    ReadingFlips(r, true);
  }

  lemma DedupedLeft(op: Junctor, l: Expr, r: Expr)
    requires Deduped(Bin(op, l, r))
    ensures Deduped(l)
  {
    var e := Bin(op, l, r);
    var s, t := Leaves(op, e), Leaves(op, l);
    forall i | 0 <= i < |t| ensures s[i] == t[i] && Deduped(t[i]) {
      LeafSmaller(op, e, i);
      assert Deduped(s[i]);
    }
    if IsBin(op, l) {
      forall i, j | 0 <= i < |t| && 0 <= j < |t| && i != j ensures !Joinable(op, t[i], t[j]) {
        assert !Joinable(op, s[i], s[j]);
      }
    } else {
      assert t[0] == l;
    }
  }

  /** A condition that extends the base by a conjunct: it is read with nothing to join, and the base without an n. */
  ghost predicate Extends(dep: Expr, base: Option<Expr>) {
    && base.Some? && IsBin(Conj, dep) && dep.left == base.value
    && Deduped(RawReading(Some(dep))) && Sym(ConstN) !in Leaves(Conj, RawReading(base))
  }

  /** A condition without literals in disguise whose operands are readable. */
  ghost predicate Plain(cond: Option<Expr>) {
    cond.Some? ==> Clean(cond.value) && ReadableOperands(cond.value, No)
  }

  /** A prompt condition as the submenu test reads it: whether it is not n. */
  method Reading(simplifier: Simplifier, cond: Option<Expr>) returns (r: Expr)
    modifies simplifier
    ensures simplifier.transCount == old(simplifier.transCount)
    ensures Plain(cond) ==>
      forall env :: Eval(r, env) == OfBool(cond.None? || HoldsRounded(cond.value, true, env))
    ensures Deduped(RawReading(cond)) ==> r == RawReading(cond)
  {
    var e := if cond.None? then Not(Sym(ConstN)) else TransCompare(cond.value, true, No);
    r := simplifier.EliminateDups(Transform(e));
    if Plain(cond) {
      if cond.Some? { TransCompareClean(cond.value, true, No); }
      TransformClean(e);
      forall env ensures Eval(r, env) == OfBool(cond.None? || HoldsRounded(cond.value, true, env)) {
        assert Eval(Transform(e), env) == Eval(r, env);
        TransformValue(e, env);
        if cond.Some? { TransCompareExact(cond.value, true, No, env); }
      }
    }
  }

  /** The superset test by which menu_finalize moves an entry with condition `dep` below a symbol whose prompt has
      condition `base`. When it accepts, the entry cannot be visible while the symbol's prompt is not, unless a negated
      symbol in `dep` is m. */
  method SupersetTest(simplifier: Simplifier, base: Option<Expr>, dep: Expr) returns (superset: bool)
    modifies simplifier
    ensures simplifier.transCount == old(simplifier.transCount)
    ensures superset && Plain(base) && Plain(Some(dep)) ==>
      forall env :: HoldsRounded(dep, true, env) ==> base.None? || HoldsRounded(base.value, true, env)
    ensures superset && Plain(base) && Plain(Some(dep)) ==> NegationsOpt(base) && NegationsAtSymbols(dep) ==>
      forall env :: NegationsTwoValued(dep, env) && Eval(dep, env) != No ==> EvalOr(base, Yes, env) != No
    ensures Deduped(RawReading(base)) && Deduped(RawReading(Some(dep))) ==>
      (superset <==> EliminateEq(RawReading(Some(dep)), RawReading(base)).1 == Sym(ConstY))
    ensures Extends(dep, base) ==> superset
  {
    var b := Reading(simplifier, base);
    var d := Reading(simplifier, Some(dep));
    var left := EliminateEq(d, b).1;
    superset := left == Sym(ConstY);
    if Extends(dep, base) {
      ReadingOfBoth(dep.left, dep.right);
      DedupedLeft(Conj, RawReading(base), RawReading(Some(dep.right)));
      SupersetComplete(RawReading(base), RawReading(Some(dep.right)));
    }
    if superset && Plain(base) && Plain(Some(dep)) {
      forall env | HoldsRounded(dep, true, env) ensures base.None? || HoldsRounded(base.value, true, env) {
        SupersetSound(d, b, env);
        assert Eval(d, env) == Yes;
        assert Eval(b, env) == OfBool(base.None? || HoldsRounded(base.value, true, env));
      }
      if NegationsOpt(base) && NegationsAtSymbols(dep) {
        forall env | NegationsTwoValued(dep, env) && Eval(dep, env) != No ensures EvalOr(base, Yes, env) != No {
          RoundedUp(dep, env);
          if base.Some? { RoundedUp(base.value, env); }
        }
      }
    }
  }

  /** `S || Q`, as the remaining part of a condition. */
  function Either(s: nat, q: nat): Expr {
    Bin(Disj, Sym(Config(s, Tristate)), Sym(Config(q, Tristate)))
  }

  function EitherNotNo(s: nat, q: nat): Expr {
    Bin(Disj, Cmp(Ne, Config(s, Tristate), ConstN), Cmp(Ne, Config(q, Tristate), ConstN))
  }

  lemma EitherValue(s: nat, q: nat, env: Env)
    ensures Eval(Either(s, q), env) == TriOr(env.tri(s), env.tri(q))
  {
    var e := Either(s, q);
    assert Eval(e.left, env) == env.tri(s) && Eval(e.right, env) == env.tri(q);
  }

  lemma EitherReading(s: nat, q: nat)
    ensures RawReading(Some(Either(s, q))) == EitherNotNo(s, q)
  {
    var both := Bin(Conj, Cmp(Eq, Config(s, Tristate), ConstN), Cmp(Eq, Config(q, Tristate), ConstN));
    assert TransCompare(Either(s, q), false, No) == both;
    TransformFixes(both);
    TransformNot(both);
  }

  /** One test beside `S!=n || Q!=n`: there is nothing to join. */
  lemma NothingToJoin(test: Expr, s: nat, q: nat)
    requires test.Cmp? && s != q
    ensures Deduped(test) && Deduped(Bin(Conj, test, EitherNotNo(s, q)))
  {
    var e, d := Bin(Conj, test, EitherNotNo(s, q)), EitherNotNo(s, q);
    assert Leaves(Disj, d) == [d.left, d.right];
    assert !Joinable(Disj, d.left, d.right) && !Joinable(Disj, d.right, d.left);
    assert Deduped(d);
    assert Leaves(Conj, e) == [test, d];
    assert !Joinable(Conj, test, d) && !Joinable(Conj, d, test);
  }

  /** The submenu test accepts `part && (S || Q)` below a symbol with the prompt condition `base`, if `part` and `base`
      are read as the same test. */
  method Accepted(simplifier: Simplifier, base: Expr, part: Expr, test: Expr, s: nat, q: nat) returns (superset: bool)
    requires test.Cmp? && s != q && RawReading(Some(base)) == test && RawReading(Some(part)) == test
    modifies simplifier
    ensures superset
  {
    var dep := Bin(Conj, part, Either(s, q));
    EitherReading(s, q);
    ReadingOfBoth(part, Either(s, q));
    NothingToJoin(test, s, q);
    SupersetComplete(test, EitherNotNo(s, q));
    superset := SupersetTest(simplifier, Some(base), dep);
  }

  /** The exception for negated symbols is real: with A = m, `!A && (S || Q)` is m while the prompt condition `A=n`
      is n, and yet the test passes. */
  method SupersetMissesNegatedMod(simplifier: Simplifier, a: nat, s: nat, q: nat, ghost env: Env)
    returns (superset: bool)
    requires s != q && env.tri(a) == Mod && env.tri(s) != No
    modifies simplifier
    ensures superset
    ensures var symbol := Config(a, Tristate);
            && Eval(Bin(Conj, Not(Sym(symbol)), Either(s, q)), env) == Mod && Eval(Cmp(Eq, symbol, ConstN), env) == No
  {
    var symbol := Config(a, Tristate);
    CompareConstant(symbol, ConstN, env);
    EitherValue(s, q, env);
    assert Eval(Not(Sym(symbol)), env) == Mod && Eval(Either(s, q), env) != No;
    assert TransCompare(Not(Sym(symbol)), true, No) == TransCompare(Sym(symbol), false, No);
    superset := Accepted(simplifier, Cmp(Eq, symbol, ConstN), Not(Sym(symbol)), Cmp(Eq, symbol, ConstN), s, q);
  }

  /** And so is the one for operands: an undefined symbol FOO is n while `FOO!=n` is y, so with the prompt condition
      `FOO` the test accepts `FOO!=n && (S || Q)`, which is y when S is. */
  method SupersetMissesUndefined(simplifier: Simplifier, name: string, s: nat, q: nat, ghost env: Env)
    returns (superset: bool)
    requires s != q && name != "n" && env.tri(s) == Yes
    modifies simplifier
    ensures superset
    ensures var symbol := Literal(name, false, None);
            && Eval(Bin(Conj, Cmp(Ne, symbol, ConstN), Either(s, q)), env) == Yes && Eval(Sym(symbol), env) == No
  {
    var symbol := Literal(name, false, None);
    StrCmpZero(name, "n");
    EitherValue(s, q, env);
    assert Eval(Cmp(Ne, symbol, ConstN), env) == Yes && Eval(Either(s, q), env) == Yes;
    superset := Accepted(simplifier, Sym(symbol), Cmp(Ne, symbol, ConstN), Cmp(Ne, symbol, ConstN), s, q);
  }
}
