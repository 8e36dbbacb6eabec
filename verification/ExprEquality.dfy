/** Operand elimination and expression equality: expr_eliminate_yn, __expr_eliminate_eq, expr_eliminate_eq and
    expr_eq. */
module ExprEquality {
  import opened Expressions

  /** expr_eliminate_yn: drops neutral operands and collapses on absorbing ones, below && and || only. */
  function EliminateYN(e: Expr): (r: Expr)
    ensures Size(r) <= Size(e)
  {
    if !e.Bin? then e
    else
      var l, r := EliminateYN(e.left), EliminateYN(e.right);
      if l == Zero(e.op) then Zero(e.op)
      else if l == Unit(e.op) then r
      else if r == Zero(e.op) then Zero(e.op)
      else if r == Unit(e.op) then l
      else Bin(e.op, l, r)
  }

  lemma {:induction false} EliminateYNValue(e: Expr, env: Env)
    ensures Eval(EliminateYN(e), env) == Eval(e, env)
  {
    if e.Bin? {
      EliminateYNValue(e.left, env);
      EliminateYNValue(e.right, env);
    }
  }

  /** Some && or || reachable through && and || has an operand y or n. */
  predicate Reducible(e: Expr) {
    e.Bin? && (
      e.left == Unit(e.op) || e.left == Zero(e.op) || e.right == Unit(e.op) || e.right == Zero(e.op) ||
      Reducible(e.left) || Reducible(e.right))
  }

  /** expr_eliminate_yn shrinks an expression exactly when there is something to drop, and leaves nothing to drop. */
  lemma {:induction false} EliminateYNShrinks(e: Expr)
    ensures Reducible(e) ==> Size(EliminateYN(e)) < Size(e)
    ensures !Reducible(e) ==> EliminateYN(e) == e
    ensures !Reducible(EliminateYN(e))
  {
    if e.Bin? {
      EliminateYNShrinks(e.left);
      EliminateYNShrinks(e.right);
    }
  }

  /** The two operands that the elimination treats as spent: y and n. */
  predicate IsYN(e: Expr) {
    e == Sym(ConstY) || e == Sym(ConstN)
  }

  /** __expr_eliminate_eq: every operand of e1 at the level of `op` is compared with every operand of e2, and equal
      pairs are replaced by the neutral operand on both sides. */
  function EqPass(op: Junctor, e1: Expr, e2: Expr): (r: (Expr, Expr))
    ensures Size(r.0) <= Size(e1) && Size(r.1) <= Size(e2)
    ensures IsBin(op, e1) ==> IsBin(op, r.0)
    ensures IsBin(op, e2) ==> IsBin(op, r.1)
    ensures !IsBin(op, e1) ==> r.0 == e1 || r.0 == Unit(op)
    ensures !IsBin(op, e2) ==> r.1 == e2 || r.1 == Unit(op)
    decreases Size(e1) + Size(e2), if IsBin(op, e1) || IsBin(op, e2) then 0 else 3
  {
    if IsBin(op, e1) then
      var (l, m) := EqPass(op, e1.left, e2);
      var (r, n) := EqPass(op, e1.right, m);
      (Bin(op, l, r), n)
    else if IsBin(op, e2) then
      var (m, l) := EqPass(op, e1, e2.left);
      var (n, r) := EqPass(op, m, e2.right);
      (n, Bin(op, l, r))
    else if e1 == e2 && IsYN(e1) then (e1, e2)
    else if !ExprEq(e1, e2) then (e1, e2)
    else (Unit(op), Unit(op))
  }

  /** expr_eliminate_eq. */
  function EliminateEq(e1: Expr, e2: Expr): (r: (Expr, Expr))
    decreases Size(e1) + Size(e2), 1
  {
    var (a, b) := if e1.Bin? then EqPass(e1.op, e1, e2) else (e1, e2);
    var (c, d) := if b.Bin? && !IsBin(b.op, a) then EqPass(b.op, a, b) else (a, b);
    (EliminateYN(c), EliminateYN(d))
  }

  /** expr_eq. */
  predicate ExprEq(e1: Expr, e2: Expr)
    decreases Size(e1) + Size(e2), 2
  {
    match e1
    case Sym(s) => e2.Sym? && e2.sym == s
    case Cmp(rel, a, b) => e2.Cmp? && e2.rel == rel && e2.lhs == a && e2.rhs == b
    case Not(a) => e2.Not? && ExprEq(a, e2.arg)
    case Bin(op, _, _) =>
      IsBin(op, e2) &&
      var (a, b) := EliminateEq(e1, e2);
      a.Sym? && b.Sym? && a.sym == b.sym
  }

  // ---------------------------------------------------------------------------------------------------------------
  // Soundness

  lemma Exchange(op: Junctor, a: Tri, b: Tri, c: Tri, d: Tri)
    ensures Apply(op, Apply(op, a, b), Apply(op, c, d)) == Apply(op, Apply(op, a, c), Apply(op, b, d))
  {}

  lemma Associate(op: Junctor, a: Tri, b: Tri, c: Tri)
    ensures Apply(op, Apply(op, a, b), c) == Apply(op, a, Apply(op, c, b))
  {}

  /** `rest` together with a part of value `c` makes up `whole`. */
  ghost predicate Splits(op: Junctor, whole: Expr, rest: Expr, c: Tri, env: Env) {
    Eval(whole, env) == Apply(op, Eval(rest, env), c)
  }

  lemma SplitsBoth(op: Junctor, l: Expr, r: Expr, l1: Expr, r1: Expr, c: Tri, d: Tri, env: Env)
    requires Splits(op, l, l1, c, env) && Splits(op, r, r1, d, env)
    ensures Splits(op, Bin(op, l, r), Bin(op, l1, r1), Apply(op, c, d), env)
  {
    Exchange(op, Eval(l1, env), c, Eval(r1, env), d);
  }

  lemma SplitsTwice(op: Junctor, e: Expr, e1: Expr, e2: Expr, c: Tri, d: Tri, env: Env)
    requires Splits(op, e, e1, c, env) && Splits(op, e1, e2, d, env)
    ensures Splits(op, e, e2, Apply(op, c, d), env)
  {
    Associate(op, Eval(e2, env), d, c);
  }

  /** What a pass removes from the two sides has one and the same value `c`. */
  lemma {:induction false} EqPassSound(op: Junctor, e1: Expr, e2: Expr, env: Env) returns (c: Tri)
    ensures Splits(op, e1, EqPass(op, e1, e2).0, c, env)
    ensures Splits(op, e2, EqPass(op, e1, e2).1, c, env)
    decreases Size(e1) + Size(e2), if IsBin(op, e1) || IsBin(op, e2) then 0 else 3
  {
    if IsBin(op, e1) {
      var (l, m) := EqPass(op, e1.left, e2);
      var (r, n) := EqPass(op, e1.right, m);
      var c1 := EqPassSound(op, e1.left, e2, env);
      var c2 := EqPassSound(op, e1.right, m, env);
      c := Apply(op, c1, c2);
      SplitsBoth(op, e1.left, e1.right, l, r, c1, c2, env);
      SplitsTwice(op, e2, m, n, c1, c2, env);
    } else if IsBin(op, e2) {
      var (m, l) := EqPass(op, e1, e2.left);
      var (n, r) := EqPass(op, m, e2.right);
      var c1 := EqPassSound(op, e1, e2.left, env);
      var c2 := EqPassSound(op, m, e2.right, env);
      c := Apply(op, c1, c2);
      SplitsBoth(op, e2.left, e2.right, l, r, c1, c2, env);
      SplitsTwice(op, e1, m, n, c1, c2, env);
    } else if !(e1 == e2 && IsYN(e1)) && ExprEq(e1, e2) {
      ExprEqSound(e1, e2, env);
      c := Eval(e1, env);
    } else {
      c := Eval(Unit(op), env);
    }
  }

  /** Expressions that expr_eq calls equal have the same value under every assignment. */
  lemma {:induction false} ExprEqSound(e1: Expr, e2: Expr, env: Env)
    requires ExprEq(e1, e2)
    ensures Eval(e1, env) == Eval(e2, env)
    decreases Size(e1) + Size(e2), 2
  {
    match e1
    case Sym(_) =>
    case Cmp(_, _, _) =>
    case Not(a) =>
      ExprEqSound(a, e2.arg, env);
    case Bin(op, _, _) =>
      var (a, b) := EqPass(op, e1, e2);
      var c := EqPassSound(op, e1, e2, env);
      EliminateYNValue(a, env);
      EliminateYNValue(b, env);
  }

  /** A side that is eliminated down to y bounds the other side. */
  lemma SplitBound(op: Junctor, a: Expr, b: Expr, a1: Expr, b1: Expr, c: Tri, env: Env)
    requires Splits(op, a, a1, c, env) && Splits(op, b, b1, c, env)
    requires EliminateYN(b1) == Sym(ConstY)
    ensures Rank(Eval(a, env)) <= Rank(Eval(b, env))
  {
    EliminateYNValue(b1, env);
  }

  lemma EqPassBound(op: Junctor, a: Expr, b: Expr, env: Env)
    requires EliminateYN(EqPass(op, a, b).1) == Sym(ConstY)
    ensures Rank(Eval(a, env)) <= Rank(Eval(b, env))
  {
    var c := EqPassSound(op, a, b, env);
    SplitBound(op, a, b, EqPass(op, a, b).0, EqPass(op, a, b).1, c, env);
  }

  /** An operand that finds no equal in a junction leaves the junction as it is. */
  lemma {:induction false} EqPassUnmatched(op: Junctor, a: Expr, b: Expr)
    requires !IsBin(op, b) && EqPass(op, a, b).1 == b && b != Unit(op)
    ensures EqPass(op, a, b).0 == a
  {
    if IsBin(op, a) {
      EqPassUnmatched(op, a.left, b);
      EqPassUnmatched(op, a.right, b);
    }
  }

  /** A second expression that is eliminated down to y is so by one pass of one junctor. */
  lemma EliminatedToYes(dep: Expr, base: Expr) returns (op: Junctor)
    requires EliminateEq(dep, base).1 == Sym(ConstY)
    ensures EliminateYN(EqPass(op, dep, base).1) == Sym(ConstY)
  {
    if dep.Bin? {
      op := dep.op;
      var b := EqPass(op, dep, base).1;
      if b.Bin? && b.op != op {
        EqPassUnmatched(op, dep, base);
        op := b.op;
      }
    } else if base.Bin? {
      op := base.op;
    } else {
      op := Conj;
    }
  }

  /** The superset test of menu_finalize is sound: when elimination leaves y of the second expression, the first one
      is never above the second. */
  lemma SupersetSound(dep: Expr, base: Expr, env: Env)
    requires EliminateEq(dep, base).1 == Sym(ConstY)
    ensures Rank(Eval(dep, env)) <= Rank(Eval(base, env))
  {
    var op := EliminatedToYes(dep, base);
    EqPassBound(op, dep, base, env);
  }

  // ---------------------------------------------------------------------------------------------------------------
  // The pass as a double loop over operand lists

  /** One operand against another. */
  function MatchPair(op: Junctor, x: Expr, y: Expr): (Expr, Expr) {
    if ExprEq(x, y) && !(x == y && IsYN(x)) then (Unit(op), Unit(op)) else (x, y)
  }

  /** What becomes of two operands that are compared. */
  type Pairer = (Expr, Expr) -> (Expr, Expr)

  function Pair(op: Junctor): Pairer {
    (x: Expr, y: Expr) => MatchPair(op, x, y)
  }

  /** One operand against a list of operands. */
  function MatchOne(pair: Pairer, x: Expr, ys: seq<Expr>): (r: (Expr, seq<Expr>))
    ensures |r.1| == |ys|
    decreases ys
  {
    if ys == [] then (x, [])
    else
      var (x1, y1) := pair(x, ys[0]);
      var (x2, rest) := MatchOne(pair, x1, ys[1..]);
      (x2, [y1] + rest)
  }

  /** Every operand of a list against another list. */
  function MatchAll(pair: Pairer, xs: seq<Expr>, ys: seq<Expr>): (r: (seq<Expr>, seq<Expr>))
    ensures |r.0| == |xs| && |r.1| == |ys|
  {
    if xs == [] then ([], ys)
    else
      var (x, ys1) := MatchOne(pair, xs[0], ys);
      var (rest, ys2) := MatchAll(pair, xs[1..], ys1);
      ([x] + rest, ys2)
  }

  ghost predicate Operands(op: Junctor, s: seq<Expr>) {
    forall i :: 0 <= i < |s| ==> !IsBin(op, s[i])
  }

  lemma {:induction false} MatchOneConcat(pair: Pairer, x: Expr, ys: seq<Expr>, zs: seq<Expr>)
    ensures var (x1, ys1) := MatchOne(pair, x, ys);
            var (x2, zs1) := MatchOne(pair, x1, zs);
            MatchOne(pair, x, ys + zs) == (x2, ys1 + zs1)
    decreases ys
  {
    if ys == [] {
      assert ys + zs == zs;
      assert [] + MatchOne(pair, x, zs).1 == MatchOne(pair, x, zs).1;
    } else {
      assert (ys + zs)[1..] == ys[1..] + zs;
      var (x1, y1) := pair(x, ys[0]);
      MatchOneConcat(pair, x1, ys[1..], zs);
      var (x2, ys1) := MatchOne(pair, x1, ys[1..]);
      var (x3, zs1) := MatchOne(pair, x2, zs);
      assert [y1] + (ys1 + zs1) == ([y1] + ys1) + zs1;
    }
  }

  ghost predicate KeepsOperands(op: Junctor, pair: Pairer) {
    forall x: Expr, y: Expr :: !IsBin(op, x) && !IsBin(op, y) ==> !IsBin(op, pair(x, y).0) && !IsBin(op, pair(x, y).1)
  }

  lemma {:induction false} MatchOneOperands(op: Junctor, pair: Pairer, x: Expr, ys: seq<Expr>)
    requires !IsBin(op, x) && Operands(op, ys) && KeepsOperands(op, pair)
    ensures !IsBin(op, MatchOne(pair, x, ys).0) && Operands(op, MatchOne(pair, x, ys).1)
    decreases ys
  {
    if ys != [] {
      MatchOneOperands(op, pair, pair(x, ys[0]).0, ys[1..]);
    }
  }

  lemma {:induction false} MatchAllConcat(pair: Pairer, xs: seq<Expr>, ws: seq<Expr>, ys: seq<Expr>)
    ensures var (xs1, ys1) := MatchAll(pair, xs, ys);
            var (ws1, ys2) := MatchAll(pair, ws, ys1);
            MatchAll(pair, xs + ws, ys) == (xs1 + ws1, ys2)
  {
    if xs == [] {
      assert xs + ws == ws;
      assert [] + MatchAll(pair, ws, ys).0 == MatchAll(pair, ws, ys).0;
    } else {
      assert (xs + ws)[1..] == xs[1..] + ws;
      var (x, ys0) := MatchOne(pair, xs[0], ys);
      MatchAllConcat(pair, xs[1..], ws, ys0);
      var (xs1, ys1) := MatchAll(pair, xs[1..], ys0);
      var (ws1, ys2) := MatchAll(pair, ws, ys1);
      assert [x] + (xs1 + ws1) == ([x] + xs1) + ws1;
    }
  }

  lemma {:induction false} MatchAllOperands(op: Junctor, pair: Pairer, xs: seq<Expr>, ys: seq<Expr>)
    requires Operands(op, xs) && Operands(op, ys) && KeepsOperands(op, pair)
    ensures Operands(op, MatchAll(pair, xs, ys).0) && Operands(op, MatchAll(pair, xs, ys).1)
  {
    if xs != [] {
      MatchOneOperands(op, pair, xs[0], ys);
      MatchAllOperands(op, pair, xs[1..], MatchOne(pair, xs[0], ys).1);
    }
  }

  /** An operand that is not a junction against a whole tree. */
  lemma {:induction false} PassIsMatchOne(op: Junctor, x: Expr, e: Expr)
    requires !IsBin(op, x)
    ensures var (x1, ys) := MatchOne(Pair(op), x, Leaves(op, e));
            EqPass(op, x, e) == (x1, Rebuild(op, e, ys))
    decreases e
  {
    if IsBin(op, e) {
      var n := |Leaves(op, e.left)|;
      var (m, l) := EqPass(op, x, e.left);
      PassIsMatchOne(op, x, e.left);
      PassIsMatchOne(op, m, e.right);
      MatchOneConcat(Pair(op), x, Leaves(op, e.left), Leaves(op, e.right));
      var ys1, ys2 := MatchOne(Pair(op), x, Leaves(op, e.left)).1, MatchOne(Pair(op), m, Leaves(op, e.right)).1;
      assert (ys1 + ys2)[..n] == ys1 && (ys1 + ys2)[n..] == ys2;
    } else {
      assert Leaves(op, e)[1..] == [];
    }
  }

  /** The recursion of __expr_eliminate_eq compares the operand lists pair by pair, in order. */
  lemma {:induction false} PassIsMatchAll(op: Junctor, e1: Expr, e2: Expr)
    ensures var (xs, ys) := MatchAll(Pair(op), Leaves(op, e1), Leaves(op, e2));
            EqPass(op, e1, e2) == (Rebuild(op, e1, xs), Rebuild(op, e2, ys))
    decreases e1
  {
    if IsBin(op, e1) {
      var n := |Leaves(op, e1.left)|;
      var (l, m) := EqPass(op, e1.left, e2);
      var (xs1, ys1) := MatchAll(Pair(op), Leaves(op, e1.left), Leaves(op, e2));
      PassIsMatchAll(op, e1.left, e2);
      PairFacts(op);
      MatchAllOperands(op, Pair(op), Leaves(op, e1.left), Leaves(op, e2));
      RebuildLeaves(op, e2, ys1);
      PassIsMatchAll(op, e1.right, m);
      MatchAllConcat(Pair(op), Leaves(op, e1.left), Leaves(op, e1.right), Leaves(op, e2));
      var (xs2, ys2) := MatchAll(Pair(op), Leaves(op, e1.right), ys1);
      assert (xs1 + xs2)[..n] == xs1 && (xs1 + xs2)[n..] == xs2;
      RebuildTwice(op, e2, ys1, ys2);
    } else {
      PassIsMatchOne(op, e1, e2);
      assert Leaves(op, e1)[1..] == [];
      var (x, ys) := MatchOne(Pair(op), e1, Leaves(op, e2));
      assert MatchAll(Pair(op), [], ys) == ([], ys);
      assert [x] + [] == [x];
    }
  }

  lemma {:induction false} RebuildLeaves(op: Junctor, e: Expr, s: seq<Expr>)
    requires |s| == |Leaves(op, e)| && Operands(op, s)
    ensures Leaves(op, Rebuild(op, e, s)) == s
  {
    if IsBin(op, e) {
      var n := |Leaves(op, e.left)|;
      RebuildLeaves(op, e.left, s[..n]);
      RebuildLeaves(op, e.right, s[n..]);
    }
  }

  lemma {:induction false} RebuildTwice(op: Junctor, e: Expr, s: seq<Expr>, t: seq<Expr>)
    requires |s| == |t| == |Leaves(op, e)| && Operands(op, s)
    ensures |Leaves(op, Rebuild(op, e, s))| == |t|
    ensures Rebuild(op, Rebuild(op, e, s), t) == Rebuild(op, e, t)
  {
    RebuildLeaves(op, e, s);
    if IsBin(op, e) {
      var n := |Leaves(op, e.left)|;
      RebuildTwice(op, e.left, s[..n], t[..n]);
      RebuildTwice(op, e.right, s[n..], t[n..]);
      RebuildLeaves(op, e.left, s[..n]);
    }
  }

  // ---------------------------------------------------------------------------------------------------------------
  // Completeness on syntactic copies

  /** What becomes of an operand that meets a copy of itself. */
  function Settle(op: Junctor, x: Expr): Expr {
    if IsYN(x) then x else Unit(op)
  }

  function SettleAll(op: Junctor, s: seq<Expr>): (r: seq<Expr>)
    ensures |r| == |s| && forall i :: 0 <= i < |s| ==> r[i] == Settle(op, s[i])
  {
    seq(|s|, i requires 0 <= i < |s| => Settle(op, s[i]))
  }

  /** A y or n changes no opponent and is not changed by one. */
  ghost predicate LeavesSpent(op: Junctor, pair: Pairer) {
    forall x: Expr, y: Expr :: IsYN(x) || (IsYN(y) && !IsBin(op, x)) ==> pair(x, y) == (x, y)
  }

  /** Each operand of a list is settled by a copy of itself. */
  ghost predicate SettlesCopies(op: Junctor, pair: Pairer, s: seq<Expr>) {
    forall i :: 0 <= i < |s| ==> pair(s[i], s[i]) == (Settle(op, s[i]), Settle(op, s[i]))
  }

  lemma PairFacts(op: Junctor)
    ensures KeepsOperands(op, Pair(op)) && LeavesSpent(op, Pair(op))
  {}

  lemma PairSettles(op: Junctor, s: seq<Expr>)
    requires forall i :: 0 <= i < |s| ==> ExprEq(s[i], s[i])
    ensures SettlesCopies(op, Pair(op), s)
  {}

  ghost predicate AllYN(s: seq<Expr>) {
    forall i :: 0 <= i < |s| ==> IsYN(s[i])
  }

  lemma {:induction false} SpentMatch(op: Junctor, pair: Pairer, x: Expr, ys: seq<Expr>)
    requires IsYN(x) && LeavesSpent(op, pair)
    ensures MatchOne(pair, x, ys) == (x, ys)
  {
    if ys != [] {
      SpentMatch(op, pair, x, ys[1..]);
      assert ys == [ys[0]] + ys[1..];
    }
  }

  /** Spent opponents never change an operand. */
  lemma {:induction false} MatchSpent(op: Junctor, pair: Pairer, x: Expr, ys: seq<Expr>)
    requires !IsBin(op, x) && AllYN(ys) && LeavesSpent(op, pair)
    ensures MatchOne(pair, x, ys) == (x, ys)
  {
    if ys != [] {
      MatchSpent(op, pair, x, ys[1..]);
      assert ys == [ys[0]] + ys[1..];
    }
  }

  lemma MatchFirst(op: Junctor, pair: Pairer, x: Expr, rest: seq<Expr>)
    requires LeavesSpent(op, pair) && pair(x, x) == (Settle(op, x), Settle(op, x))
    ensures MatchOne(pair, x, [x] + rest) == (Settle(op, x), [Settle(op, x)] + rest)
  {
    assert ([x] + rest)[1..] == rest;
    SpentMatch(op, pair, Settle(op, x), rest);
  }

  /** An operand whose earlier opponents are spent meets its own copy and is settled together with it. */
  lemma MatchSelf(op: Junctor, pair: Pairer, done: seq<Expr>, x: Expr, rest: seq<Expr>)
    requires !IsBin(op, x) && AllYN(done) && LeavesSpent(op, pair) && pair(x, x) == (Settle(op, x), Settle(op, x))
    ensures MatchOne(pair, x, done + [x] + rest) == (Settle(op, x), done + [Settle(op, x)] + rest)
  {
    var s := Settle(op, x);
    SeqAssoc(done, [x], rest);
    SeqAssoc(done, [s], rest);
    MatchOneConcat(pair, x, done, [x] + rest);
    MatchSpent(op, pair, x, done);
    MatchFirst(op, pair, x, rest);
  }

  /** Matching a list against a copy of itself settles both. */
  lemma {:induction false} MatchCopy(op: Junctor, pair: Pairer, done: seq<Expr>, xs: seq<Expr>)
    requires Operands(op, xs) && AllYN(done) && LeavesSpent(op, pair) && SettlesCopies(op, pair, xs)
    ensures MatchAll(pair, xs, done + xs) == (SettleAll(op, xs), done + SettleAll(op, xs))
    decreases xs
  {
    if xs == [] {
      assert done + xs == done && done + SettleAll(op, xs) == done;
    } else {
      var x, rest := xs[0], xs[1..];
      var s, t := Settle(op, x), SettleAll(op, rest);
      SplitHead(done, xs);
      MatchSelf(op, pair, done, x, rest);
      MatchCopy(op, pair, done + [s], rest);
      MatchAllStep(pair, xs, done + xs, s, done + [s] + rest, t, done + [s] + t);
      SettleAllStep(op, xs);
      SeqAssoc(done, [s], t);
    }
  }

  lemma SplitHead(done: seq<Expr>, xs: seq<Expr>)
    requires xs != []
    ensures done + xs == done + [xs[0]] + xs[1..]
  {}

  lemma SeqAssoc(a: seq<Expr>, b: seq<Expr>, c: seq<Expr>)
    ensures a + b + c == a + (b + c)
  {}

  lemma SettleAllStep(op: Junctor, xs: seq<Expr>)
    requires xs != []
    ensures SettleAll(op, xs) == [Settle(op, xs[0])] + SettleAll(op, xs[1..])
  {}

  lemma MatchAllStep(
    pair: Pairer, xs: seq<Expr>, ys: seq<Expr>, x: Expr, ys1: seq<Expr>, rest: seq<Expr>, ys2: seq<Expr>)
    requires xs != [] && MatchOne(pair, xs[0], ys) == (x, ys1) && MatchAll(pair, xs[1..], ys1) == (rest, ys2)
    ensures MatchAll(pair, xs, ys) == ([x] + rest, ys2)
  {}

  /** A list of operands, each equal to itself, against itself. */
  lemma MatchItself(op: Junctor, xs: seq<Expr>)
    requires Operands(op, xs) && forall i :: 0 <= i < |xs| ==> ExprEq(xs[i], xs[i])
    ensures MatchAll(Pair(op), xs, xs) == (SettleAll(op, xs), SettleAll(op, xs)) && AllYN(SettleAll(op, xs))
  {
    PairFacts(op);
    PairSettles(op, xs);
    MatchCopy(op, Pair(op), [], xs);
    assert [] + xs == xs && [] + SettleAll(op, xs) == SettleAll(op, xs);
  }

  /** A junction of settled operands collapses to y or n: to the absorbing one exactly when it occurs. */
  lemma {:induction false} SettledCollapses(op: Junctor, e: Expr, s: seq<Expr>)
    requires |s| == |Leaves(op, e)|
    requires forall i :: 0 <= i < |s| ==> IsYN(s[i])
    ensures EliminateYN(Rebuild(op, e, s)) == if Zero(op) in s then Zero(op) else Unit(op)
  {
    if IsBin(op, e) {
      var n := |Leaves(op, e.left)|;
      SettledCollapses(op, e.left, s[..n]);
      SettledCollapses(op, e.right, s[n..]);
      assert s == s[..n] + s[n..];
    }
  }

  /** expr_eq is reflexive. */
  lemma {:induction false} ExprEqReflexive(e: Expr)
    ensures ExprEq(e, e)
    decreases Size(e)
  {
    match e
    case Sym(_) =>
    case Cmp(_, _, _) =>
    case Not(a) =>
      ExprEqReflexive(a);
    case Bin(op, _, _) =>
      var xs := Leaves(op, e);
      forall i | 0 <= i < |xs| ensures ExprEq(xs[i], xs[i]) {
        LeafSmaller(op, e, i);
        ExprEqReflexive(xs[i]);
      }
      MatchItself(op, xs);
      PassIsMatchAll(op, e, e);
      SettledCollapses(op, e, SettleAll(op, xs));
  }

  lemma {:induction false} LeafSmaller(op: Junctor, e: Expr, i: nat)
    requires IsBin(op, e) && i < |Leaves(op, e)|
    ensures Size(Leaves(op, e)[i]) < Size(e)
  {
    var n := |Leaves(op, e.left)|;
    if i < n {
      if IsBin(op, e.left) { LeafSmaller(op, e.left, i); }
    } else {
      if IsBin(op, e.right) { LeafSmaller(op, e.right, i - n); }
    }
  }

  /** The superset test accepts every dependency that extends the base by a conjunct, as menu_finalize builds them,
      unless the base contains the operand n. */
  lemma SupersetComplete(base: Expr, extra: Expr)
    requires Sym(ConstN) !in Leaves(Conj, base)
    ensures EliminateEq(Bin(Conj, base, extra), base).1 == Sym(ConstY)
  {
    var dep := Bin(Conj, base, extra);
    var xs, zs := Leaves(Conj, base), Leaves(Conj, extra);
    forall i | 0 <= i < |xs| ensures ExprEq(xs[i], xs[i]) {
      ExprEqReflexive(xs[i]);
    }
    MatchItself(Conj, xs);
    PairFacts(Conj);
    MatchAllConcat(Pair(Conj), xs, zs, xs);
    AllSpentMatch(Conj, Pair(Conj), zs, SettleAll(Conj, xs));
    PassIsMatchAll(Conj, dep, base);
    SettledCollapses(Conj, base, SettleAll(Conj, xs));
  }

  lemma {:induction false} AllSpentMatch(op: Junctor, pair: Pairer, xs: seq<Expr>, ys: seq<Expr>)
    requires Operands(op, xs) && AllYN(ys) && LeavesSpent(op, pair)
    ensures MatchAll(pair, xs, ys).1 == ys
  {
    if xs != [] {
      MatchSpent(op, pair, xs[0], ys);
      AllSpentMatch(op, pair, xs[1..], ys);
    }
  }

  /** The comment on expr_eq promises equality as soon as every operand of one side equals some operand of the other;
      the code pairs operands off one to one and says no here. */
  lemma RepeatedOperandsNotEqual(a: Symbol, b: Symbol)
    requires a != b
    requires a != ConstY && a != ConstN && b != ConstY && b != ConstN
    ensures var e1 := Bin(Conj, Bin(Conj, Sym(a), Sym(a)), Sym(b));
            var e2 := Bin(Conj, Bin(Conj, Sym(a), Sym(b)), Sym(b));
            !ExprEq(e1, e2) && forall env :: Eval(e1, env) == Eval(e2, env)
  {
    var y := Sym(ConstY);
    var e1 := Bin(Conj, Bin(Conj, Sym(a), Sym(a)), Sym(b));
    var e2 := Bin(Conj, Bin(Conj, Sym(a), Sym(b)), Sym(b));
    SymbolPass(a, Bin(Conj, Sym(a), Sym(b)));
    SymbolPass(a, Bin(Conj, y, Sym(b)));
    SymbolPass(b, Bin(Conj, y, Sym(b)));
    assert EqPass(Conj, Sym(a), e2) == (y, Bin(Conj, Bin(Conj, y, Sym(b)), Sym(b)));
    var f2 := Bin(Conj, Bin(Conj, y, Sym(b)), Sym(b));
    assert EqPass(Conj, Sym(a), f2) == (Sym(a), f2);
    assert EqPass(Conj, e1.left, e2) == (Bin(Conj, y, Sym(a)), f2);
    assert EqPass(Conj, Sym(b), f2) == (y, Bin(Conj, Bin(Conj, y, y), Sym(b)));
    assert EqPass(Conj, e1, e2) == (Bin(Conj, Bin(Conj, y, Sym(a)), y), Bin(Conj, Bin(Conj, y, y), Sym(b)));
    assert EliminateYN(Bin(Conj, y, Sym(a))) == Sym(a) && EliminateYN(Bin(Conj, y, y)) == y;
    assert EliminateYN(Bin(Conj, Bin(Conj, y, Sym(a)), y)) == Sym(a);
    assert EliminateYN(Bin(Conj, Bin(Conj, y, y), Sym(b))) == Sym(b);
  }

  /** A plain symbol against a conjunction of two plain symbols. */
  lemma SymbolPass(s: Symbol, e: Expr)
    requires s != ConstY && s != ConstN
    requires IsBin(Conj, e) && e.left.Sym? && e.right.Sym?
    ensures EqPass(Conj, Sym(s), e) ==
            if e.left == Sym(s) then (Sym(ConstY), Bin(Conj, Sym(ConstY), e.right))
            else if e.right == Sym(s) then (Sym(ConstY), Bin(Conj, e.left, Sym(ConstY)))
            else (Sym(s), e)
  {
    assert ExprEq(Sym(s), e.left) <==> e.left == Sym(s);
    assert ExprEq(Sym(s), e.right) <==> e.right == Sym(s);
    assert ExprEq(Sym(ConstY), e.right) <==> e.right == Sym(ConstY);
  }
}
