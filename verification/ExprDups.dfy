/** Joining redundant operands: expr_join_or, expr_join_and, expr_eliminate_dups1 and expr_eliminate_dups. */
module ExprDups {
  import opened Basics
  import opened Expressions
  import opened ExprEquality

  predicate IsEquality(e: Expr) {
    e.Cmp? && (e.rel == Eq || e.rel == Ne)
  }

  predicate IsTest(e: Expr, rel: Relation, c: Symbol) {
    e.Cmp? && e.rel == rel && e.rhs == c
  }

  /** The symbol the first operand of a join is about. */
  function FirstSubject(e: Expr): Option<Symbol> {
    match e
    case Sym(s) => Some(s)
    case Cmp(_, a, _) => if IsEquality(e) then Some(a) else None
    case Not(a) => if a.Sym? then Some(a.sym) else if IsEquality(a) then Some(a.lhs) else None
    case Bin(_, _, _) => None
  }

  /** The symbol the second operand of a join is about; a negation counts only directly above a symbol. */
  function SecondSubject(e: Expr): Option<Symbol> {
    match e
    case Sym(s) => Some(s)
    case Cmp(_, a, _) => if IsEquality(e) then Some(a) else None
    case Not(a) => if a.Sym? then Some(a.sym) else None
    case Bin(_, _, _) => None
  }

  predicate EitherOrder(e1: Expr, e2: Expr, r1: Relation, c1: Symbol, r2: Relation, c2: Symbol) {
    (IsTest(e1, r1, c1) && IsTest(e2, r2, c2)) || (IsTest(e1, r2, c2) && IsTest(e2, r1, c1))
  }

  predicate WithSymbol(e1: Expr, e2: Expr, rel: Relation, c: Symbol) {
    (e1.Sym? && IsTest(e2, rel, c)) || (e2.Sym? && IsTest(e1, rel, c))
  }

  /** expr_join_or: one expression for `e1 || e2`, if a rule applies. */
  function JoinOr(e1: Expr, e2: Expr): Option<Expr> {
    if ExprEq(e1, e2) then Some(e1) else OrRule(e1, e2)
  }

  /** The rules for two tests of one symbol. */
  function OrRule(e1: Expr, e2: Expr): Option<Expr> {
    var s1, s2 := FirstSubject(e1), SecondSubject(e2);
    if s1.None? || s1 != s2 || !IsTri(s1.value) then None
    else
      var a := s1.value;
      if a.kind == Tristate && EitherOrder(e1, e2, Eq, ConstY, Eq, ConstM) then Some(Cmp(Ne, a, ConstN))
      else if a.kind == Tristate && EitherOrder(e1, e2, Eq, ConstY, Eq, ConstN) then Some(Cmp(Ne, a, ConstM))
      else if a.kind == Tristate && EitherOrder(e1, e2, Eq, ConstM, Eq, ConstN) then Some(Cmp(Ne, a, ConstY))
      else if a.kind == Boolean && ((e1.Not? && e1.arg.Sym? && e2.Sym?) || (e2.Not? && e2.arg.Sym? && e1.Sym?)) then
        Some(Sym(ConstY))
      else None
  }

  /** expr_join_and: one expression for `e1 && e2`, if a rule applies. */
  function JoinAnd(e1: Expr, e2: Expr): Option<Expr> {
    if ExprEq(e1, e2) then Some(e1) else AndRule(e1, e2)
  }

  function AndRule(e1: Expr, e2: Expr): Option<Expr> {
    var s1, s2 := FirstSubject(e1), SecondSubject(e2);
    if s1.None? || s1 != s2 || !IsTri(s1.value) then None
    else
      var a := s1.value;
      if WithSymbol(e1, e2, Eq, ConstY) then Some(Cmp(Eq, a, ConstY))
      else if WithSymbol(e1, e2, Ne, ConstN) then Some(Sym(a))
      else if WithSymbol(e1, e2, Ne, ConstM) then Some(Cmp(Eq, a, ConstY))
      else if a.kind != Tristate || !e1.Cmp? || !e2.Cmp? then None
      else if e1.rel == Eq && e2.rel == Ne && IsConst(e1.rhs) && IsConst(e2.rhs) then
        Some(if e1.rhs != e2.rhs then Cmp(Eq, a, e1.rhs) else Sym(ConstN))
      else if e1.rel == Ne && e2.rel == Eq && IsConst(e1.rhs) && IsConst(e2.rhs) then
        Some(if e1.rhs != e2.rhs then Cmp(Eq, a, e2.rhs) else Sym(ConstN))
      else if EitherOrder(e1, e2, Ne, ConstY, Ne, ConstN) then Some(Cmp(Eq, a, ConstM))
      else if EitherOrder(e1, e2, Ne, ConstY, Ne, ConstM) then Some(Cmp(Eq, a, ConstN))
      else if EitherOrder(e1, e2, Ne, ConstM, Ne, ConstN) then Some(Cmp(Eq, a, ConstY))
      else None
  }

  function Join(op: Junctor, e1: Expr, e2: Expr): Option<Expr> {
    if op == Disj then JoinOr(e1, e2) else JoinAnd(e1, e2)
  }

  // ---------------------------------------------------------------------------------------------------------------
  // Which pairs are joined

  /** Two tests of one tristate symbol. */
  predicate TestsOf(e1: Expr, e2: Expr, r1: Relation, r2: Relation) {
    e1.Cmp? && e2.Cmp? && e1.lhs == e2.lhs && IsKind(e1.lhs, Tristate) && e1.rel == r1 && e2.rel == r2
  }

  /** Two operands, in this order, of which one expression says as much: below ||, `a=b` and `a=c` for two of y, m and
      n, and A and !A for a bool A; below &&, A and a test `A=y`, `A!=n` or `A!=m`, `a='b'` and `a!='c'` for constants,
      and `a!=b` and `a!=c` for two of y, m and n. */
  predicate RedundantInOrder(op: Junctor, e1: Expr, e2: Expr) {
    if op == Disj then
      || (TestsOf(e1, e2, Eq, Eq) && IsYMN(e1.rhs) && IsYMN(e2.rhs) && e1.rhs != e2.rhs)
      || (e1.Sym? && IsKind(e1.sym, Boolean) && e2 == Not(e1))
    else
      || (e1.Sym? && IsTri(e1.sym) &&
          (e2 == Cmp(Eq, e1.sym, ConstY) || e2 == Cmp(Ne, e1.sym, ConstN) || e2 == Cmp(Ne, e1.sym, ConstM)))
      || (TestsOf(e1, e2, Eq, Ne) && IsConst(e1.rhs) && IsConst(e2.rhs))
      || (TestsOf(e1, e2, Ne, Ne) && IsYMN(e1.rhs) && IsYMN(e2.rhs) && e1.rhs != e2.rhs)
  }

  /** Two operands that should not stand beside each other: equal ones, and redundant ones in either order. */
  predicate Joinable(op: Junctor, e1: Expr, e2: Expr) {
    ExprEq(e1, e2) || RedundantInOrder(op, e1, e2) || RedundantInOrder(op, e2, e1)
  }

  /** expr_join_or and expr_join_and join exactly the pairs that should be joined. */
  lemma JoinExact(op: Junctor, e1: Expr, e2: Expr)
    ensures Join(op, e1, e2).Some? <==> Joinable(op, e1, e2)
  {
    if op == Disj { OrRuleExact(e1, e2); } else { AndRuleExact(e1, e2); }
  }

  lemma OrRuleExact(e1: Expr, e2: Expr)
    ensures OrRule(e1, e2).Some? <==> RedundantInOrder(Disj, e1, e2) || RedundantInOrder(Disj, e2, e1)
  {}

  lemma AndRuleExact(e1: Expr, e2: Expr)
    ensures AndRule(e1, e2).Some? <==> RedundantInOrder(Conj, e1, e2) || RedundantInOrder(Conj, e2, e1)
  {}

  // ---------------------------------------------------------------------------------------------------------------
  // When joining preserves the value

  /** A quoted literal that stands for a tristate value in disguise, such as "2" for y. */
  predicate Disguised(c: Symbol) {
    c.Literal? && c.quoted && Denotes(c).Some?
  }

  /** No test for equality or inequality is against a literal in disguise. */
  predicate Clean(e: Expr) {
    match e
    case Sym(_) => true
    case Not(a) => Clean(a)
    case Bin(_, l, r) => Clean(l) && Clean(r)
    case Cmp(_, _, c) => IsEquality(e) ==> !Disguised(c)
  }

  /** Negation only directly above a symbol. */
  predicate NegationsAtSymbols(e: Expr) {
    match e
    case Not(a) => a.Sym?
    case Bin(_, l, r) => NegationsAtSymbols(l) && NegationsAtSymbols(r)
    case _ => true
  }

  lemma JoinOrSound(e1: Expr, e2: Expr, env: Env)
    requires JoinOr(e1, e2).Some?
    ensures Eval(JoinOr(e1, e2).value, env) == TriOr(Eval(e1, env), Eval(e2, env))
  {
    if ExprEq(e1, e2) { ExprEqSound(e1, e2, env); } else { OrRuleSound(e1, e2, env); }
  }

  lemma OrRuleSound(e1: Expr, e2: Expr, env: Env)
    requires OrRule(e1, e2).Some?
    ensures Eval(OrRule(e1, e2).value, env) == TriOr(Eval(e1, env), Eval(e2, env))
  {
    var a := FirstSubject(e1).value;
    CompareConstant(a, ConstY, env);
    CompareConstant(a, ConstM, env);
    CompareConstant(a, ConstN, env);
  }

  /** A test `a='b'` beside a test `a!='c'`, in either order, where the constants b and c differ but denote the same
      value: the guard of the two rules for such pairs lets it through. */
  predicate Misjoined(e1: Expr, e2: Expr) {
    && !ExprEq(e1, e2) && e1.Cmp? && e2.Cmp? && e1.lhs == e2.lhs && IsKind(e1.lhs, Tristate)
    && ((e1.rel == Eq && e2.rel == Ne) || (e1.rel == Ne && e2.rel == Eq))
    && IsConst(e1.rhs) && IsConst(e2.rhs) && SameDenotation(e1.rhs, e2.rhs)
  }

  predicate SameDenotation(b: Symbol, c: Symbol) {
    b != c && Denotes(b).Some? && Denotes(b) == Denotes(c)
  }

  /** The joined expression has the value of the conjunction under an assignment. */
  predicate JoinedRightAt(e1: Expr, e2: Expr, env: Env)
    requires JoinAnd(e1, e2).Some?
  {
    Eval(JoinAnd(e1, e2).value, env) == TriAnd(Eval(e1, env), Eval(e2, env))
  }

  /** expr_join_and keeps the value under every assignment if and only if the pair is not misjoined. */
  lemma JoinAndExact(e1: Expr, e2: Expr)
    requires JoinAnd(e1, e2).Some?
    ensures (forall env :: JoinedRightAt(e1, e2, env)) <==> !Misjoined(e1, e2)
  {
    if !Misjoined(e1, e2) {
      forall env: Env ensures JoinedRightAt(e1, e2, env) { JoinAndSound(e1, e2, env); }
    } else {
      var t := Denotes(e1.rhs).value;
      var env := Env(_ => false, _ => t, _ => "", _ => None);
      MisjoinedWrong(e1, e2, env);
      assert !JoinedRightAt(e1, e2, env);
    }
  }

  lemma JoinAndSound(e1: Expr, e2: Expr, env: Env)
    requires JoinAnd(e1, e2).Some? && !Misjoined(e1, e2)
    ensures Eval(JoinAnd(e1, e2).value, env) == TriAnd(Eval(e1, env), Eval(e2, env))
  {
    if ExprEq(e1, e2) { ExprEqSound(e1, e2, env); } else { AndRuleSound(e1, e2, env); }
  }

  /** A misjoined pair is never true together, but the result is when the symbol has the value of the constants. */
  lemma MisjoinedWrong(e1: Expr, e2: Expr, env: Env)
    requires JoinAnd(e1, e2).Some? && Misjoined(e1, e2) && Denotes(e1.rhs) == Some(TriOf(e1.lhs, env))
    ensures Eval(JoinAnd(e1, e2).value, env) == Yes && TriAnd(Eval(e1, env), Eval(e2, env)) == No
  {
    CompareConstant(e1.lhs, e1.rhs, env);
    CompareConstant(e2.lhs, e2.rhs, env);
  }

  /** Clean pairs are not misjoined. */
  lemma CleanNotMisjoined(e1: Expr, e2: Expr)
    requires Clean(e1) && Clean(e2)
    ensures !Misjoined(e1, e2)
  {}

  lemma AndRuleSound(e1: Expr, e2: Expr, env: Env)
    requires AndRule(e1, e2).Some? && !ExprEq(e1, e2) && !Misjoined(e1, e2)
    ensures Eval(AndRule(e1, e2).value, env) == TriAnd(Eval(e1, env), Eval(e2, env))
  {
    if e1.Cmp? && e2.Cmp? {
      TestsJoined(e1, e2, env);
    } else {
      var a := FirstSubject(e1).value;
      CompareConstant(a, ConstY, env);
      CompareConstant(a, ConstM, env);
      CompareConstant(a, ConstN, env);
    }
  }

  lemma TestsJoined(e1: Expr, e2: Expr, env: Env)
    requires AndRule(e1, e2).Some? && !ExprEq(e1, e2) && !Misjoined(e1, e2) && e1.Cmp? && e2.Cmp?
    ensures Eval(AndRule(e1, e2).value, env) == TriAnd(Eval(e1, env), Eval(e2, env))
  {
    var a := FirstSubject(e1).value;
    CompareConstant(a, e1.rhs, env);
    CompareConstant(a, e2.rhs, env);
    CompareConstant(a, ConstY, env);
    CompareConstant(a, ConstM, env);
    CompareConstant(a, ConstN, env);
  }

  /** A concrete failure: `A="y" && A!="2"` is never true, but is joined to `A="y"`. */
  lemma NumericConstantJoinedWrongly(id: nat)
    ensures var a, two := Config(id, Tristate), Literal("2", true, Some(2));
            JoinAnd(Cmp(Eq, a, ConstY), Cmp(Ne, a, two)) == Some(Cmp(Eq, a, ConstY)) &&
            exists env ::
              Eval(Bin(Conj, Cmp(Eq, a, ConstY), Cmp(Ne, a, two)), env) == No && Eval(Cmp(Eq, a, ConstY), env) == Yes
  {
    var a, two := Config(id, Tristate), Literal("2", true, Some(2));
    var env := Env(_ => false, _ => Yes, _ => "", _ => None);
    CompareConstant(a, ConstY, env);
    CompareConstant(a, two, env);
    assert Eval(Bin(Conj, Cmp(Eq, a, ConstY), Cmp(Ne, a, two)), env) == No;
  }

  /** What a join keeps besides the value. */
  lemma JoinFacts(op: Junctor, e1: Expr, e2: Expr)
    requires Join(op, e1, e2).Some? && !IsBin(op, e1) && !IsBin(op, e2)
    ensures var t := Join(op, e1, e2).value;
            !IsBin(op, t) && Size(t) + 1 <= Size(e1) + Size(e2) &&
            (Clean(e1) && Clean(e2) ==> Clean(t)) &&
            (NegationsAtSymbols(e1) ==> NegationsAtSymbols(t))
    ensures e1 == Unit(op) || e2 == Unit(op) ==> e1 == e2 == Join(op, e1, e2).value
  {}

  lemma JoinSound(op: Junctor, e1: Expr, e2: Expr, env: Env)
    requires Join(op, e1, e2).Some? && Clean(e1) && Clean(e2)
    ensures Apply(op, Eval(Unit(op), env), Eval(Join(op, e1, e2).value, env)) == Apply(op, Eval(e1, env), Eval(e2, env))
  {
    CleanNotMisjoined(e1, e2);
    if op == Disj { JoinOrSound(e1, e2, env); } else { JoinAndSound(e1, e2, env); }
  }

  // ---------------------------------------------------------------------------------------------------------------
  // Operand lists under update

  lemma {:induction false} FoldPick(op: Junctor, s: seq<Expr>, i: nat, env: Env)
    requires i < |s|
    ensures Fold(op, s, env) == Apply(op, Eval(s[i], env), Fold(op, Without(s, i), env))
  {
    assert s == s[..i] + ([s[i]] + s[i + 1..]);
    FoldConcat(op, s[..i], [s[i]] + s[i + 1..], env);
    FoldConcat(op, s[..i], s[i + 1..], env);
    assert ([s[i]] + s[i + 1..])[1..] == s[i + 1..];
    assert Fold(op, [s[i]] + s[i + 1..], env) == Apply(op, Eval(s[i], env), Fold(op, s[i + 1..], env));
    Exchange(op, Eval(Unit(op), env), Fold(op, s[..i], env), Eval(s[i], env), Fold(op, s[i + 1..], env));
  }

  lemma FoldPickTwo(op: Junctor, s: seq<Expr>, i: nat, j: nat, env: Env)
    requires i < |s| && j < |s| && i != j
    ensures var k := if j < i then j else j - 1;
            Fold(op, s, env) ==
            Apply(op, Apply(op, Eval(s[i], env), Eval(s[j], env)), Fold(op, Without(Without(s, i), k), env))
  {
    var k := if j < i then j else j - 1;
    FoldPick(op, s, i, env);
    FoldPick(op, Without(s, i), k, env);
    assert Without(s, i)[k] == s[j];
    Regroup(op, Eval(s[i], env), Eval(s[j], env), Fold(op, Without(Without(s, i), k), env));
  }

  /** Replacing two operands by two others of the same joint value keeps the fold. */
  lemma FoldReplaceTwo(op: Junctor, s: seq<Expr>, i: nat, j: nat, x: Expr, y: Expr, env: Env)
    requires i < |s| && j < |s| && i != j
    requires Apply(op, Eval(x, env), Eval(y, env)) == Apply(op, Eval(s[i], env), Eval(s[j], env))
    ensures Fold(op, s[i := x][j := y], env) == Fold(op, s, env)
  {
    var t := s[i := x][j := y];
    var k := if j < i then j else j - 1;
    FoldPickTwo(op, s, i, j, env);
    FoldPickTwo(op, t, i, j, env);
    WithoutBoth(s, i, j, x, y);
    assert t[i] == x && t[j] == y;
  }

  lemma WithoutBoth(s: seq<Expr>, i: nat, j: nat, x: Expr, y: Expr)
    requires i < |s| && j < |s| && i != j
    ensures var k := if j < i then j else j - 1;
            Without(Without(s[i := x][j := y], i), k) == Without(Without(s, i), k)
  {
    if j < i {
      assert Without(s[i := x][j := y], i) == Without(s, i)[j := y];
    } else {
      assert Without(s[i := x][j := y], i) == Without(s, i)[j - 1 := y];
    }
  }

  lemma Regroup(op: Junctor, a: Tri, b: Tri, c: Tri)
    ensures Apply(op, a, Apply(op, b, c)) == Apply(op, Apply(op, a, b), c)
  {}

  lemma FoldReplaceOne(op: Junctor, s: seq<Expr>, i: nat, x: Expr, env: Env)
    requires i < |s| && Eval(x, env) == Eval(s[i], env)
    ensures Fold(op, s[i := x], env) == Fold(op, s, env)
  {
    FoldPick(op, s, i, env);
    FoldPick(op, s[i := x], i, env);
    assert Without(s[i := x], i) == Without(s, i);
  }

  lemma {:induction false} SizeSumReplace(s: seq<Expr>, i: nat, x: Expr)
    requires i < |s|
    ensures SizeSum(s[i := x]) == SizeSum(s) - Size(s[i]) + Size(x)
    ensures Size(s[i]) <= SizeSum(s)
  {
    if i == 0 {
      assert s[i := x][1..] == s[1..];
    } else {
      assert s[i := x][1..] == s[1..][i - 1 := x];
      SizeSumReplace(s[1..], i - 1, x);
    }
  }

  ghost predicate AllClean(s: seq<Expr>) {
    forall i :: 0 <= i < |s| ==> Clean(s[i])
  }

  ghost predicate AllNegationsAtSymbols(s: seq<Expr>) {
    forall i :: 0 <= i < |s| ==> NegationsAtSymbols(s[i])
  }

  /** An operand that expr_eliminate_yn will work on. */
  ghost predicate Spent(op: Junctor, x: Expr) {
    x == Unit(op) || x == Zero(op) || Reducible(x)
  }

  ghost predicate SomeSpent(op: Junctor, s: seq<Expr>) {
    exists i :: 0 <= i < |s| && Spent(op, s[i])
  }

  /** Properties of a junction that are properties of its operands. */
  lemma {:induction false} OperandShapes(op: Junctor, e: Expr)
    ensures Clean(e) <==> AllClean(Leaves(op, e))
    ensures NegationsAtSymbols(e) <==> AllNegationsAtSymbols(Leaves(op, e))
  {
    if IsBin(op, e) {
      var l, r := Leaves(op, e.left), Leaves(op, e.right);
      OperandShapes(op, e.left);
      OperandShapes(op, e.right);
      assert AllClean(l + r) <==> AllClean(l) && AllClean(r) by {
        assert forall i :: 0 <= i < |r| ==> (l + r)[|l| + i] == r[i];
        assert forall i :: 0 <= i < |l| ==> (l + r)[i] == l[i];
      }
      assert AllNegationsAtSymbols(l + r) <==> AllNegationsAtSymbols(l) && AllNegationsAtSymbols(r) by {
        assert forall i :: 0 <= i < |r| ==> (l + r)[|l| + i] == r[i];
        assert forall i :: 0 <= i < |l| ==> (l + r)[i] == l[i];
      }
    } else {
      assert Leaves(op, e)[0] == e;
    }
  }

  lemma SomeSpentConcat(op: Junctor, l: seq<Expr>, r: seq<Expr>)
    ensures SomeSpent(op, l + r) <==> SomeSpent(op, l) || SomeSpent(op, r)
  {
    if SomeSpent(op, l) {
      var i :| 0 <= i < |l| && Spent(op, l[i]);
      assert Spent(op, (l + r)[i]);
    }
    if SomeSpent(op, r) {
      var i :| 0 <= i < |r| && Spent(op, r[i]);
      assert Spent(op, (l + r)[|l| + i]);
    }
  }

  lemma {:induction false} SpentOperands(op: Junctor, e: Expr)
    ensures if IsBin(op, e) then Reducible(e) <==> SomeSpent(op, Leaves(op, e))
            else Spent(op, e) <==> SomeSpent(op, Leaves(op, e))
  {
    if IsBin(op, e) {
      SpentOperands(op, e.left);
      SpentOperands(op, e.right);
      SomeSpentConcat(op, Leaves(op, e.left), Leaves(op, e.right));
    } else {
      assert Leaves(op, e)[0] == e;
    }
  }

  // ---------------------------------------------------------------------------------------------------------------
  // The passes

  /** No two operands at any level reachable through && and || are equal or redundant. */
  ghost predicate Deduped(e: Expr)
    decreases Size(e)
  {
    e.Bin? ==>
      var s := Leaves(e.op, e);
      (forall i, j :: 0 <= i < |s| && 0 <= j < |s| && i != j ==> !Joinable(e.op, s[i], s[j])) &&
      (forall i :: 0 <= i < |s| ==> (LeafSmaller(e.op, e, i); Deduped(s[i])))
  }

  /** Equal value under every assignment. */
  ghost predicate SameValue(e1: Expr, e2: Expr) {
    forall env :: Eval(e1, env) == Eval(e2, env)
  }

  ghost predicate SameFold(op: Junctor, s: seq<Expr>, t: seq<Expr>) {
    forall env :: Fold(op, s, env) == Fold(op, t, env)
  }

  lemma SameFoldRebuild(op: Junctor, e: Expr, s: seq<Expr>)
    requires |s| == |Leaves(op, e)| && Operands(op, s) && SameFold(op, Leaves(op, e), s)
    ensures SameValue(e, Rebuild(op, e, s))
  {
    forall env ensures Eval(e, env) == Eval(Rebuild(op, e, s), env) {
      RebuildFacts(op, e, s, env);
      RebuildSame(op, e);
      RebuildFacts(op, e, Leaves(op, e), env);
    }
  }

  lemma SameFoldStep(op: Junctor, s: seq<Expr>, i: nat, j: nat)
    requires i < |s| && j < |s| && i != j
    requires Join(op, s[i], s[j]).Some? && Clean(s[i]) && Clean(s[j])
    ensures SameFold(op, s, s[i := Unit(op)][j := Join(op, s[i], s[j]).value])
  {
    forall env ensures Fold(op, s, env) == Fold(op, s[i := Unit(op)][j := Join(op, s[i], s[j]).value], env) {
      JoinSound(op, s[i], s[j], env);
      FoldReplaceTwo(op, s, i, j, Unit(op), Join(op, s[i], s[j]).value, env);
    }
  }

  lemma SameFoldInner(op: Junctor, s: seq<Expr>, i: nat, x: Expr)
    requires i < |s| && SameValue(s[i], x)
    ensures SameFold(op, s, s[i := x])
  {
    forall env ensures Fold(op, s, env) == Fold(op, s[i := x], env) {
      FoldReplaceOne(op, s, i, x, env);
    }
  }

  /** What every step of a pass keeps of the operand list `s0` it started from. */
  ghost predicate PassKeeps(op: Junctor, s0: seq<Expr>, s: seq<Expr>) {
    && |s| == |s0|
    && Operands(op, s)
    && SizeSum(s) <= SizeSum(s0)
    && (AllClean(s0) ==> AllClean(s) && SameFold(op, s0, s))
    && (AllNegationsAtSymbols(s0) ==> AllNegationsAtSymbols(s))
    && (SomeSpent(op, s0) ==> SomeSpent(op, s))
  }

  lemma JoinStepKeeps(op: Junctor, s0: seq<Expr>, s: seq<Expr>, i: nat, j: nat)
    requires PassKeeps(op, s0, s) && i < |s| && j < |s| && i != j && Join(op, s[i], s[j]).Some?
    ensures var t := s[i := Unit(op)][j := Join(op, s[i], s[j]).value];
            PassKeeps(op, s0, t) && SomeSpent(op, t)
  {
    var x := Join(op, s[i], s[j]).value;
    var t := s[i := Unit(op)][j := x];
    JoinFacts(op, s[i], s[j]);
    SizeSumReplace(s, i, Unit(op));
    SizeSumReplace(s[i := Unit(op)], j, x);
    assert t[i] == Unit(op);
    if AllClean(s0) { SameFoldStep(op, s, i, j); }
  }

  lemma InnerStepKeeps(op: Junctor, s0: seq<Expr>, s: seq<Expr>, i: nat, x: Expr)
    requires PassKeeps(op, s0, s) && i < |s| && s[i].Bin? && x.Bin? && x.op == s[i].op && Size(x) <= Size(s[i])
    requires Clean(s[i]) ==> Clean(x) && SameValue(s[i], x)
    requires NegationsAtSymbols(s[i]) ==> NegationsAtSymbols(x)
    requires Reducible(s[i]) ==> Reducible(x)
    ensures PassKeeps(op, s0, s[i := x])
    ensures SomeSpent(op, s) || Reducible(x) ==> SomeSpent(op, s[i := x])
  {
    var t := s[i := x];
    SizeSumReplace(s, i, x);
    if AllClean(s0) { SameFoldInner(op, s, i, x); }
    if SomeSpent(op, s) {
      var k :| 0 <= k < |s| && Spent(op, s[k]);
      assert Spent(op, t[k]);
    }
    if Reducible(x) { assert Spent(op, t[i]); }
  }

  /** The first `i` operands have met all others without effect. */
  ghost predicate MetAll(op: Junctor, s: seq<Expr>, i: nat) {
    forall a :: 0 <= a < i && a < |s| ==> MetSome(op, s, a, |s|)
  }

  /** Operand `a` has met the other ones among the first `j` without effect. */
  ghost predicate MetSome(op: Junctor, s: seq<Expr>, a: nat, j: nat)
    requires a < |s|
  {
    (forall b :: 0 <= b < j && b < |s| && a != b ==> !Joinable(op, s[a], s[b])) &&
    (1 < j || (j == 1 && a != 0) ==> Deduped(s[a]))
  }

  lemma SizeOfLeaves(op: Junctor, e: Expr)
    ensures Size(e) == SizeSum(Leaves(op, e)) + |Leaves(op, e)| - 1
  {
    RebuildSame(op, e);
    RebuildFacts(op, e, Leaves(op, e), Env(_ => false, _ => No, _ => "", _ => None));
  }

  /** What a finished pass says about the rebuilt tree. */
  lemma PassResult(op: Junctor, e: Expr, s: seq<Expr>)
    requires IsBin(op, e) && PassKeeps(op, Leaves(op, e), s)
    ensures var r := Rebuild(op, e, s);
            && Size(r) <= Size(e)
            && (Clean(e) ==> Clean(r) && SameValue(e, r))
            && (NegationsAtSymbols(e) ==> NegationsAtSymbols(r))
            && (Reducible(e) || SomeSpent(op, s) ==> Reducible(r))
            && (s == Leaves(op, e) ==> r == e)
            && (s == Leaves(op, e) && MetAll(op, s, |s|) ==> Deduped(e))
  {
    var r := Rebuild(op, e, s);
    RebuildLeaves(op, e, s);
    SizeOfLeaves(op, e);
    SizeOfLeaves(op, r);
    OperandShapes(op, e);
    OperandShapes(op, r);
    SpentOperands(op, e);
    SpentOperands(op, r);
    RebuildSame(op, e);
    if Clean(e) { SameFoldRebuild(op, e, s); }
    if s == Leaves(op, e) && MetAll(op, s, |s|) {
      forall i, j | 0 <= i < |s| && 0 <= j < |s| && i != j ensures !Joinable(op, s[i], s[j]) {
        assert MetSome(op, s, i, |s|);
      }
      forall i | 0 <= i < |s| ensures Deduped(s[i]) {
        assert MetSome(op, s, i, |s|);
      }
    }
  }

  /** The rewriting passes share one counter, the global trans_count. */
  class Simplifier {
    var transCount: nat

    constructor ()
      ensures transCount == 0
    {
      transCount := 0;
    }

    /** Two different operands meet: first the levels below the first one are passed over, then a join is tried. */
    method Meet(op: Junctor, ghost s0: seq<Expr>, s: seq<Expr>, i: nat, j: nat) returns (t: seq<Expr>)
      requires PassKeeps(op, s0, s) && i < |s| && j < |s| && i != j
      modifies this
      ensures old(transCount) <= transCount && PassKeeps(op, s0, t)
      ensures SomeSpent(op, s) || old(transCount) < transCount ==> SomeSpent(op, t)
      ensures transCount == old(transCount) ==> t == s
      ensures transCount == old(transCount) <==> !Joinable(op, s[i], s[j]) && Deduped(s[i])
      decreases SizeSum(s0), 1
    {
      t := s;
      if t[i].Bin? {
        SizeSumReplace(t, i, t[i]);
        var x := EliminateDups1(t[i].op, t[i]);
        InnerStepKeeps(op, s0, t, i, x);
        t := t[i := x];
      }
      var joined := Join(op, t[i], t[j]);
      JoinExact(op, t[i], t[j]);
      if joined.Some? {
        JoinStepKeeps(op, s0, t, i, j);
        t := t[i := Unit(op)][j := joined.value];
        transCount := transCount + 1;
      }
    }

    /** expr_eliminate_dups1 on a whole tree: every operand at the level of `op` meets every other one. */
    method EliminateDups1(op: Junctor, e: Expr) returns (r: Expr)
      requires IsBin(op, e)
      modifies this
      ensures IsBin(op, r) && Size(r) <= Size(e)
      ensures old(transCount) <= transCount
      ensures Clean(e) ==> Clean(r) && SameValue(e, r)
      ensures NegationsAtSymbols(e) ==> NegationsAtSymbols(r)
      ensures Reducible(e) || old(transCount) < transCount ==> Reducible(r)
      ensures transCount == old(transCount) ==> r == e
      ensures transCount == old(transCount) <==> Deduped(e)
      decreases Size(e), 0
    {
      var s := Leaves(op, e);
      ghost var s0 := s;
      SizeOfLeaves(op, e);
      for i := 0 to |s|
        invariant PassKeeps(op, s0, s) && old(transCount) <= transCount
        invariant old(transCount) < transCount ==> SomeSpent(op, s)
        invariant transCount == old(transCount) ==> s == s0 && MetAll(op, s, i)
        invariant Deduped(e) ==> transCount == old(transCount)
      {
        for j := 0 to |s|
          invariant PassKeeps(op, s0, s) && old(transCount) <= transCount
          invariant old(transCount) < transCount ==> SomeSpent(op, s)
          invariant transCount == old(transCount) ==> s == s0 && MetAll(op, s, i) && MetSome(op, s, i, j)
          invariant Deduped(e) ==> transCount == old(transCount)
        {
          if i != j {
            s := Meet(op, s0, s, i, j);
          }
        }
      }
      r := Rebuild(op, e, s);
      PassResult(op, e, s);
    }

    /** expr_eliminate_dups: passes until one of them joins nothing, clearing y and n operands in between. The value
        is kept, nothing joinable is left at any level, an expression with nothing joinable is left alone, and
        trans_count is as before. */
    method EliminateDups(e: Expr) returns (r: Expr)
      modifies this
      ensures transCount == old(transCount)
      ensures Clean(e) ==> Clean(r) && SameValue(e, r)
      ensures NegationsAtSymbols(e) ==> NegationsAtSymbols(r)
      ensures Deduped(r) && Size(r) <= Size(e) && (Deduped(e) ==> r == e)
    {
      var oldCount := transCount;
      r := e;
      while true
        invariant Size(r) <= Size(e)
        invariant Clean(e) ==> Clean(r) && SameValue(e, r)
        invariant NegationsAtSymbols(e) ==> NegationsAtSymbols(r)
        invariant Deduped(e) ==> r == e
        decreases Size(r)
      {
        transCount := 0;
        if r.Bin? {
          r := EliminateDups1(r.op, r);
        }
        if transCount == 0 {
          break;
        }
        EliminateYNShrinks(r);
        YNKeeps(r);
        r := EliminateYN(r);
      }
      transCount := oldCount;
    }
  }

  lemma {:induction false} YNKeepsShape(e: Expr)
    ensures Clean(e) ==> Clean(EliminateYN(e))
    ensures NegationsAtSymbols(e) ==> NegationsAtSymbols(EliminateYN(e))
  {
    if e.Bin? {
      YNKeepsShape(e.left);
      YNKeepsShape(e.right);
    }
  }

  lemma YNKeeps(e: Expr)
    ensures Clean(e) ==> Clean(EliminateYN(e))
    ensures NegationsAtSymbols(e) ==> NegationsAtSymbols(EliminateYN(e))
    ensures SameValue(e, EliminateYN(e))
  {
    YNKeepsShape(e);
    forall env ensures Eval(e, env) == Eval(EliminateYN(e), env) {
      EliminateYNValue(e, env);
    }
  }
}
