/** Symbol values: sym_calc_visibility, sym_calc_value, sym_clear_all_valid, sym_tristate_within_range and
    sym_set_tristate_value (kconfig/symbol.c), for bool and tristate symbols without choices and with MODULES fixed. */
module SymbolValues {
  import opened Basics
  import opened Expressions
  import opened SymbolDeps

  type Values = map<Symbol, Tri>

  /** The symbols, the user values, the value of MODULES, and the strings of the symbols of other types. */
  datatype Setup = Setup(table: Table, user: Values, modules: Tri, strings: Env)

  function ValueOf(v: Values, s: Symbol): Tri {
    if s in v then v[s] else No
  }

  /** The assignment that gives the bool and tristate symbols the values `v`. */
  function EnvOf(v: Values, strings: Env): Env {
    Env((id: nat) => ValueOf(v, Config(id, Boolean)) == Yes, (id: nat) => ValueOf(v, Config(id, Tristate)),
        strings.text, strings.num)
  }

  /** sym_get_type: without modules, tristate symbols act as booleans. */
  predicate ActsBoolean(s: Symbol, modules: Tri) {
    s.Config? && (s.kind == Boolean || (s.kind == Tristate && modules == No))
  }

  // ---------------------------------------------------------------------------------------------------------------
  // The defining equations

  function PromptMax(ps: seq<Property>, env: Env): Tri {
    if ps == [] then No
    else
      var rest := PromptMax(ps[..|ps| - 1], env);
      var p := ps[|ps| - 1];
      if p.kind == PPrompt then TriOr(rest, EvalOr(p.visible, Yes, env)) else rest
  }

  /** The first default whose condition is not n, capped by its condition. */
  function DefaultOf(ps: seq<Property>, env: Env): Tri {
    if ps == [] then No
    else if ps[0].kind == PDefault && EvalOr(ps[0].visible, Yes, env) != No then
      TriAnd(EvalOr(ps[0].value, Yes, env), EvalOr(ps[0].visible, Yes, env))
    else DefaultOf(ps[1..], env)
  }

  /** What sym_calc_visibility and sym_calc_value store in a symbol. */
  datatype Info = Info(curr: Tri, visible: Tri, dirDep: Tri, revDep: Tri, implied: Tri)

  function ImpliedOf(s: Symbol, d: Definition, dirDep: Tri, modules: Tri, env: Env): Tri {
    if dirDep != No then Promote(ActsBoolean(s, modules), EvalOr(d.implied, No, env)) else No
  }

  /** The value of a visible symbol with user value `user`. */
  function FromUser(s: Symbol, modules: Tri, user: Tri, visible: Tri, revDep: Tri, implied: Tri): Tri {
    Finish(s, modules, TriAnd(user, visible), revDep, implied)
  }

  function Finish(s: Symbol, modules: Tri, t: Tri, revDep: Tri, implied: Tri): Tri {
    var r := TriOr(t, revDep);
    if r == Mod && (ActsBoolean(s, modules) || implied == Yes) then Yes else r
  }

  /** The right-hand sides of a symbol's equations, from the values of all symbols. */
  function Equations(c: Setup, v: Values, s: Symbol): Info
    requires s in c.table
  {
    var env, d := EnvOf(v, c.strings), c.table[s];
    var visible := Promote(ActsBoolean(s, c.modules), PromptMax(d.props, env));
    var dirDep := Promote(ActsBoolean(s, c.modules), EvalOr(d.dirDep, Yes, env));
    var revDep := Promote(ActsBoolean(s, c.modules), EvalOr(d.revDep, No, env));
    var implied := ImpliedOf(s, d, dirDep, c.modules, env);
    var curr :=
      if visible != No && s in c.user then FromUser(s, c.modules, c.user[s], visible, revDep, implied)
      else Finish(s, c.modules, TriOr(DefaultOf(d.props, env), implied), revDep, implied);
    Info(curr, visible, dirDep, revDep, implied)
  }

  ghost predicate Solution(c: Setup, v: Values) {
    v.Keys == c.table.Keys && forall s {:trigger Equations(c, v, s)} :: s in c.table ==> v[s] == Equations(c, v, s).curr
  }

  /** All fields of all symbols in a solution. */
  ghost predicate Solved(c: Setup, v: Values, fields: map<Symbol, Info>) {
    Solution(c, v) && fields.Keys == c.table.Keys &&
    (forall s {:trigger Equations(c, v, s)} :: s in c.table ==> fields[s] == Equations(c, v, s)) &&
    forall s {:trigger fields[s]} :: s in c.table ==> v[s] == fields[s].curr
  }

  ghost function FieldsOf(c: Setup, v: Values): (fields: map<Symbol, Info>)
    requires Solution(c, v)
    ensures Solved(c, v, fields)
  {
    map s | s in c.table :: Equations(c, v, s)
  }

  ghost predicate TristateOnly(t: Table) {
    forall s :: s in t ==> IsTri(s)
  }

  /** In a solution boolean symbols are never m, no symbol is m without modules, and every symbol is at least what
      selects it. */
  lemma SolutionFacts(c: Setup, v: Values, s: Symbol)
    requires Solution(c, v) && s in c.table
    ensures ActsBoolean(s, c.modules) ==> v[s] != Mod
    ensures Rank(v[s]) >= Rank(EvalOr(c.table[s].revDep, No, EnvOf(v, c.strings)))
    ensures Equations(c, v, s).implied == Yes ==> v[s] != Mod
  {
    assert v[s] == Equations(c, v, s).curr;
  }

  // ---------------------------------------------------------------------------------------------------------------
  // Existence and uniqueness

  ghost predicate Agree(v: Values, w: Values, s: set<Symbol>) {
    forall x :: x in s ==> ValueOf(v, x) == ValueOf(w, x)
  }

  lemma {:induction false} EvalAgree(e: Expr, v: Values, w: Values, strings: Env)
    requires Agree(v, w, Symbols(e))
    ensures Eval(e, EnvOf(v, strings)) == Eval(e, EnvOf(w, strings))
  {
    match e
    case Sym(s) => assert s in Symbols(e);
    case Not(a) => EvalAgree(a, v, w, strings);
    case Bin(_, l, r) =>
      EvalAgree(l, v, w, strings);
      EvalAgree(r, v, w, strings);
    case Cmp(_, a, b) =>
      assert a in Symbols(e) && b in Symbols(e);
      assert TriOf(a, EnvOf(v, strings)) == TriOf(a, EnvOf(w, strings));
      assert TriOf(b, EnvOf(v, strings)) == TriOf(b, EnvOf(w, strings));
  }

  lemma EvalOrAgree(e: Option<Expr>, absent: Tri, v: Values, w: Values, strings: Env)
    requires Agree(v, w, SymbolsOpt(e))
    ensures EvalOr(e, absent, EnvOf(v, strings)) == EvalOr(e, absent, EnvOf(w, strings))
  {
    if e.Some? { EvalAgree(e.value, v, w, strings); }
  }

  lemma {:induction false} PropsAgree(ps: seq<Property>, v: Values, w: Values, strings: Env)
    requires Agree(v, w, PropsSymbols(ps))
    ensures PromptMax(ps, EnvOf(v, strings)) == PromptMax(ps, EnvOf(w, strings))
    ensures DefaultOf(ps, EnvOf(v, strings)) == DefaultOf(ps, EnvOf(w, strings))
  {
    if ps != [] {
      var n := |ps| - 1;
      PropsSymbolsAt(ps, n);
      assert ps[..n + 1] == ps;
      var p := ps[n];
      if p.kind == PPrompt { EvalOrAgree(p.visible, Yes, v, w, strings); }
      PropsAgree(ps[..n], v, w, strings);
      PropsAgree(ps[1..], v, w, strings);
      if ps[0].kind == PDefault {
        EvalOrAgree(ps[0].visible, Yes, v, w, strings);
        EvalOrAgree(ps[0].value, Yes, v, w, strings);
      }
    }
  }

  /** A symbol's equations look only at the symbols it depends on, and at its own user value. */
  lemma EquationsAgree(c: Setup, c': Setup, v: Values, w: Values, s: Symbol)
    requires s in c.table && c'.table == c.table && c'.modules == c.modules && c'.strings == c.strings
    requires Agree(v, w, Deps(c.table, s))
    ensures Equations(c', w, s) == Equations(c, v, s).(curr := Equations(c', w, s).curr)
    ensures (s in c.user <==> s in c'.user) && (s in c.user ==> c.user[s] == c'.user[s]) ==>
      Equations(c', w, s) == Equations(c, v, s)
  {
    var d := c.table[s];
    PropsAgree(d.props, v, w, c.strings);
    EvalOrAgree(d.dirDep, Yes, v, w, c.strings);
    EvalOrAgree(d.revDep, No, v, w, c.strings);
    EvalOrAgree(d.implied, No, v, w, c.strings);
  }

  /** The values of the first `k` symbols of a listing with dependencies first. */
  ghost function Solve(c: Setup, order: seq<Symbol>, k: nat): (v: Values)
    requires k <= |order|
  {
    if k == 0 then map[]
    else
      var v, s := Solve(c, order, k - 1), order[k - 1];
      if s in c.table then v[s := Equations(c, v, s).curr] else v
  }

  lemma {:induction false} SolveKeys(c: Setup, order: seq<Symbol>, k: nat)
    requires k <= |order|
    ensures forall s :: s in Solve(c, order, k) <==> s in c.table && s in order[..k]
  {
    if k > 0 {
      SolveKeys(c, order, k - 1);
      assert order[..k] == order[..k - 1] + [order[k - 1]];
    }
  }

  lemma {:induction false} SolveStable(c: Setup, order: seq<Symbol>, j: nat, k: nat)
    requires j <= k <= |order| && Distinct(order)
    ensures forall s :: s in order[..j] ==> ValueOf(Solve(c, order, j), s) == ValueOf(Solve(c, order, k), s)
  {
    if j < k {
      SolveStable(c, order, j, k - 1);
    }
  }

  lemma SolveAgree(c: Setup, order: seq<Symbol>, k: nat)
    requires Topological(c.table, order) && k < |order|
    ensures Agree(Solve(c, order, k), Solve(c, order, |order|), Deps(c.table, order[k]))
  {
    SolveStable(c, order, k, |order|);
  }

  lemma SolveAt(c: Setup, order: seq<Symbol>, k: nat)
    requires Distinct(order) && k < |order| && order[k] in c.table
    ensures ValueOf(Solve(c, order, |order|), order[k]) == Equations(c, Solve(c, order, k), order[k]).curr
  {
    SolveStable(c, order, k + 1, |order|);
    assert order[..k + 1][k] == order[k];
    var v, s := Solve(c, order, k), order[k];
    assert Solve(c, order, k + 1) == v[s := Equations(c, v, s).curr];
  }

  lemma SolveSolves(c: Setup, order: seq<Symbol>)
    requires Topological(c.table, order)
    ensures Solution(c, Solve(c, order, |order|))
  {
    var v := Solve(c, order, |order|);
    SolveKeys(c, order, |order|);
    assert order[..|order|] == order;
    forall s | s in c.table ensures v[s] == Equations(c, v, s).curr {
      var k := IndexOf(order, s);
      SolveAt(c, order, k);
      SolveAgree(c, order, k);
      EquationsAgree(c, c, Solve(c, order, k), v, s);
    }
  }

  /** Two solutions agree on everything before the first symbol whose user value differs. */
  lemma {:induction false} SolutionsAgree(c: Setup, c': Setup, order: seq<Symbol>, v: Values, w: Values, k: nat)
    requires Topological(c.table, order) && k <= |order|
    requires c'.table == c.table && c'.modules == c.modules && c'.strings == c.strings
    requires forall s :: s in order[..k] ==>
      (s in c.user <==> s in c'.user) && (s in c.user ==> c.user[s] == c'.user[s])
    requires Solution(c, v) && Solution(c', w)
    ensures forall s :: s in order[..k] ==> ValueOf(v, s) == ValueOf(w, s)
  {
    if k > 0 {
      assert order[..k] == order[..k - 1] + [order[k - 1]];
      SolutionsAgree(c, c', order, v, w, k - 1);
      var s := order[k - 1];
      if s in c.table {
        EquationsAgree(c, c', v, w, s);
      }
    }
  }

  /** On an acyclic table the equations have exactly one solution. */
  lemma SolutionUnique(c: Setup, order: seq<Symbol>, v: Values, w: Values)
    requires Topological(c.table, order) && Solution(c, v) && Solution(c, w)
    ensures v == w
  {
    assert order[..|order|] == order;
    SolutionsAgree(c, c, order, v, w, |order|);
    forall s | s in c.table ensures v[s] == w[s] {
      assert ValueOf(v, s) == ValueOf(w, s);
    }
  }

  // ---------------------------------------------------------------------------------------------------------------
  // The memoising evaluator

  /** A measure under which dependencies are smaller. */
  ghost predicate Ranked(t: Table, rank: map<Symbol, nat>) {
    rank.Keys == t.Keys && forall s, x {:trigger x in Deps(t, s)} :: s in t && x in Deps(t, s) && x in t ==>
      rank[x] < rank[s]
  }

  ghost function RankOf(t: Table, order: seq<Symbol>): (rank: map<Symbol, nat>)
    requires Topological(t, order)
    ensures Ranked(t, rank) && forall s :: s in t ==> rank[s] == IndexOf(order, s)
  {
    var rank := map s | s in t :: IndexOf(order, s);
    RankDescends(t, order);
    rank
  }

  lemma RankDescends(t: Table, order: seq<Symbol>)
    requires Topological(t, order)
    ensures forall s, x :: s in t && x in Deps(t, s) && x in t ==> IndexOf(order, x) < IndexOf(order, s)
  {
    forall s, x | s in t && x in Deps(t, s) && x in t ensures IndexOf(order, x) < IndexOf(order, s) {
      var i, j := IndexOf(order, s), IndexOf(order, x);
      assert x in order[..i];
      assert j < i;
    }
  }

  lemma DefaultSkip(ps: seq<Property>, i: nat, env: Env)
    requires i < |ps| && DefaultOf(ps, env) == DefaultOf(ps[i..], env)
    requires ps[i].kind != PDefault || EvalOr(ps[i].visible, Yes, env) == No
    ensures DefaultOf(ps, env) == DefaultOf(ps[i + 1..], env)
  {
    assert ps[i..][1..] == ps[i + 1..];
  }

  lemma PromptStep(ps: seq<Property>, i: nat, env: Env)
    requires i < |ps|
    ensures PromptMax(ps[..i + 1], env) ==
            if ps[i].kind != PPrompt then PromptMax(ps[..i], env)
            else TriOr(PromptMax(ps[..i], env), EvalOr(ps[i].visible, Yes, env))
  {
    assert ps[..i + 1][..i] == ps[..i];
  }

  lemma PropDeps(t: Table, s: Symbol, i: nat)
    requires s in t && i < |t[s].props|
    ensures PropSymbols(t[s].props[i]) <= Deps(t, s)
  {
    PropsSymbolsAt(t[s].props, i);
  }

  /** In the assignment of a solution a symbol has its value. */
  lemma SolutionTri(c: Setup, v: Values, s: Symbol)
    requires Solution(c, v) && s in c.table && IsTri(s)
    ensures TriOf(s, EnvOf(v, c.strings)) == v[s]
  {
    SolutionFacts(c, v, s);
  }

  lemma CompareAgree(a: Symbol, b: Symbol, v: Values, strings: Env)
    ensures var env := EnvOf(v, strings);
            var here := EnvOf(map[a := TriOf(a, env)][b := TriOf(b, env)], strings);
            Compare(a, b, here) == Compare(a, b, env)
  {
    var env := EnvOf(v, strings);
    var here := EnvOf(map[a := TriOf(a, env)][b := TriOf(b, env)], strings);
    assert TriOf(a, here) == TriOf(a, env) && TriOf(b, here) == TriOf(b, env);
  }

  lemma FirstSolution(c: Setup, order: seq<Symbol>) returns (v: Values, fields: map<Symbol, Info>)
    requires Topological(c.table, order)
    ensures Solved(c, v, fields)
  {
    SolveSolves(c, order);
    v := Solve(c, order, |order|);
    fields := FieldsOf(c, v);
  }

  /** Valid symbols are only added, and those with the given fields. */
  ghost predicate Grows(
    valid: set<Symbol>, info: map<Symbol, Info>, valid': set<Symbol>, info': map<Symbol, Info>,
    fields: map<Symbol, Info>)
  {
    && valid <= valid' && info'.Keys == info.Keys
    && (forall s :: s in info && s in valid ==> info'[s] == info[s])
    && (forall s :: s in info && s in valid' && s !in valid ==> s in fields && info'[s] == fields[s])
  }

  /** A symbol marked valid before its fields were known gets them at the end. */
  lemma GrowsBy(
    valid: set<Symbol>, info: map<Symbol, Info>, valid': set<Symbol>, info': map<Symbol, Info>,
    fields: map<Symbol, Info>, s: Symbol)
    requires Grows(valid + {s}, info, valid', info', fields) && s !in valid && s in fields && s in info
    ensures Grows(valid, info, valid', info'[s := fields[s]], fields)
  {}

  class Solver {
    const table: Table
    const modules: Tri
    const modulesSym: Symbol
    const strings: Env
    ghost const rank: map<Symbol, nat>

    /** User values (SYMBOL_DEF_USER), the SYMBOL_VALID flags, and the computed fields. */
    var user: Values
    var valid: set<Symbol>
    var info: map<Symbol, Info>

    /** The solution of the equations for the current user values, and all fields in it. */
    ghost var sol: Values
    ghost var fields: map<Symbol, Info>

    constructor (table: Table, modules: Tri, modulesSym: Symbol, strings: Env, user: Values, ghost order: seq<Symbol>)
      requires Topological(table, order) && TristateOnly(table)
      ensures this.table == table && this.modules == modules && this.modulesSym == modulesSym
      ensures this.strings == strings && this.user == user
      ensures rank == RankOf(table, order) && Consistent() && valid == {}
    {
      this.table, this.modules, this.modulesSym, this.strings, this.user := table, modules, modulesSym, strings, user;
      rank := RankOf(table, order);
      valid := {};
      info := map s | s in table :: Info(No, No, No, No, No);
      ghost var c := Setup(table, user, modules, strings);
      ghost var v, f := FirstSolution(c, order);
      sol, fields := v, f;
    }

    ghost function Conf(): Setup
      reads `user
    {
      Setup(table, user, modules, strings)
    }

    /** What no evaluation touches. */
    ghost predicate Fixed()
      reads `user, `sol, `fields
    {
      Ranked(table, rank) && TristateOnly(table) && Solved(Conf(), sol, fields)
    }

    /** Every valid symbol has its fields right. */
    ghost predicate Consistent()
      reads this
    {
      Fixed() && info.Keys == table.Keys && forall s :: s in table && s in valid ==> info[s] == fields[s]
    }

    /** The valid symbols of lower rank than `s` have their fields right. */
    ghost predicate Ready(s: Symbol)
      reads this
    {
      s in table && Fixed() && info.Keys == table.Keys &&
      forall x :: x in table && x in valid && rank[x] < rank[s] ==> info[x] == fields[x]
    }

    /** An evaluation only adds valid symbols, and these with the right fields. */
    twostate predicate Grown()
      reads this
    {
      fields == old(fields) && Grows(old(valid), old(info), valid, info, fields)
    }

    /** expr_calc_value on an expression of the symbol `s`, which is being computed. */
    method CalcExpr(e: Expr, ghost s: Symbol) returns (t: Tri)
      requires Ready(s) && Symbols(e) <= Deps(table, s)
      modifies `valid, `info
      ensures Grown()
      ensures t == Eval(e, EnvOf(sol, strings))
      decreases rank[s], 1, e
    {
      match e
      case Sym(x) =>
        t := CalcSymbol(x, s);
      case Not(a) =>
        t := CalcExpr(a, s);
        t := TriNot(t);
      case Bin(op, l, r) =>
        t := CalcExpr(l, s);
        var u := CalcExpr(r, s);
        t := Apply(op, t, u);
      case Cmp(rel, a, b) =>
        var ta := CalcSymbol(a, s);
        var tb := CalcSymbol(b, s);
        var env := EnvOf(map[a := ta][b := tb], strings);
        CompareAgree(a, b, sol, strings);
        t := OfBool(Holds(rel, Compare(a, b, env)));
    }

    /** A symbol of the table stands for its value, any other symbol for what it stands for anyway. */
    lemma ValueMet(x: Symbol)
      requires Fixed()
      ensures TriOf(x, EnvOf(sol, strings)) == if x in table then fields[x].curr else TriOf(x, EnvOf(map[], strings))
    {
      if x in table { SolutionTri(Conf(), sol, x); }
    }

    lemma FieldsAre(s: Symbol)
      requires Fixed() && s in table
      ensures fields[s] == Equations(Conf(), sol, s)
    {}

    /** The symbols that a symbol being computed depends on can be asked for. */
    lemma ReadyBelow(s: Symbol, x: Symbol)
      requires Ready(s) && x in Deps(table, s) && x in table
      ensures rank[x] < rank[s] && Ready(x) && (x in valid ==> info[x] == fields[x])
    {}

    /** The value of a symbol met in an expression. */
    method CalcSymbol(x: Symbol, ghost s: Symbol) returns (t: Tri)
      requires Ready(s) && x in Deps(table, s)
      modifies `valid, `info
      ensures Grown()
      ensures t == TriOf(x, EnvOf(sol, strings))
      decreases rank[s], 0
    {
      ValueMet(x);
      if x in table {
        ReadyBelow(s, x);
        CalcValue(x);
        t := info[x].curr;
      } else {
        t := TriOf(x, EnvOf(map[], strings));
      }
    }

    method CalcOpt(e: Option<Expr>, absent: Tri, ghost s: Symbol) returns (t: Tri)
      requires Ready(s) && SymbolsOpt(e) <= Deps(table, s)
      modifies `valid, `info
      ensures Grown()
      ensures t == EvalOr(e, absent, EnvOf(sol, strings))
      decreases rank[s], 2
    {
      if e.None? {
        t := absent;
      } else {
        t := CalcExpr(e.value, s);
      }
    }

    /** The prompt loop of sym_calc_visibility. */
    method CalcPrompts(s: Symbol) returns (t: Tri)
      requires Ready(s)
      modifies `valid, `info
      ensures Grown()
      ensures t == PromptMax(table[s].props, EnvOf(sol, strings))
      decreases rank[s], 3
    {
      var ps := table[s].props;
      t := No;
      for i := 0 to |ps|
        invariant Grown()
        invariant t == PromptMax(ps[..i], EnvOf(sol, strings))
      {
        PromptStep(ps, i, EnvOf(sol, strings));
        if ps[i].kind == PPrompt {
          PropDeps(table, s, i);
          var u := CalcOpt(ps[i].visible, Yes, s);
          t := TriOr(t, u);
        }
      }
      assert ps[..|ps|] == ps;
    }

    /** sym_get_default_prop and the value of the default it finds. */
    method CalcDefault(s: Symbol) returns (t: Tri)
      requires Ready(s)
      modifies `valid, `info
      ensures Grown()
      ensures t == DefaultOf(table[s].props, EnvOf(sol, strings))
      decreases rank[s], 3
    {
      var ps := table[s].props;
      var i := 0;
      while i < |ps|
        invariant 0 <= i <= |ps|
        invariant Grown()
        invariant DefaultOf(ps, EnvOf(sol, strings)) == DefaultOf(ps[i..], EnvOf(sol, strings))
      {
        if ps[i].kind == PDefault {
          PropDeps(table, s, i);
          var u := CalcOpt(ps[i].visible, Yes, s);
          if u != No {
            t := CalcOpt(ps[i].value, Yes, s);
            t := TriAnd(t, u);
            return;
          }
        }
        DefaultSkip(ps, i, EnvOf(sol, strings));
        i := i + 1;
      }
      t := No;
    }

    /** sym_calc_visibility: the condition fields of a symbol that is being computed. */
    method CalcVisibility(s: Symbol) returns (r: Info)
      requires Ready(s)
      modifies `valid, `info
      ensures Grown()
      ensures r == fields[s].(curr := r.curr)
      decreases rank[s], 4
    {
      var d := table[s];
      var visible := CalcPrompts(s);
      var dirDep := CalcOpt(d.dirDep, Yes, s);
      dirDep := Promote(ActsBoolean(s, modules), dirDep);
      var revDep := CalcOpt(d.revDep, No, s);
      var implied := No;
      if d.implied.Some? && dirDep != No {
        implied := CalcOpt(d.implied, No, s);
      }
      var b := ActsBoolean(s, modules);
      r := Info(No, Promote(b, visible), dirDep, Promote(b, revDep), Promote(b, implied));
      FieldsAre(s);
    }

    /** sym_calc_value. The VALID flag is set before the value is known; whatever is evaluated meanwhile is lower in the
        order of dependencies and never asks for it. */
    method CalcValue(s: Symbol)
      requires Ready(s) && (s in valid ==> info[s] == fields[s])
      modifies `valid, `info
      ensures Grown()
      ensures s in valid && s in info && s in fields && info[s] == fields[s]
      decreases rank[s], 6
    {
      if s in valid {
        return;
      }
      valid := valid + {s};
      var r := CalcInfo(s);
      GrowsBy(old(valid), old(info), valid, info, fields, s);
      info := info[s := r];
    }

    method CalcInfo(s: Symbol) returns (r: Info)
      requires Ready(s)
      modifies `valid, `info
      ensures Grown()
      ensures r == fields[s]
      decreases rank[s], 5
    {
      r := CalcVisibility(s);
      var t := CalcNewValue(s, r);
      r := r.(curr := t);
    }

    /** The value of a symbol whose condition fields are known. */
    method CalcNewValue(s: Symbol, r: Info) returns (t: Tri)
      requires Ready(s) && r == fields[s].(curr := r.curr)
      modifies `valid, `info
      ensures Grown()
      ensures t == fields[s].curr
      decreases rank[s], 4
    {
      FieldsAre(s);
      if r.visible != No && s in user {
        t := TriAnd(user[s], r.visible);
      } else {
        t := CalcDefault(s);
        if r.implied != No {
          t := TriOr(t, r.implied);
        }
      }
      t := Finish(s, modules, t, r.revDep, r.implied);
    }

    /** A symbol's value is asked for, in whatever state the flags are: the answer is the value in the one solution. */
    method Value(s: Symbol) returns (t: Tri)
      requires Consistent() && s in table
      modifies `valid, `info
      ensures Grown() && Consistent() && s in valid
      ensures t == sol[s] && Solution(Conf(), sol)
    {
      CalcValue(s);
      t := info[s].curr;
    }

    /** sym_clear_all_valid: afterwards nothing but MODULES and what it needs is valid, and that anew. */
    method ClearAllValid()
      requires Fixed() && info.Keys == table.Keys
      modifies `valid, `info
      ensures Consistent() && (modulesSym in table ==> modulesSym in valid)
      ensures modulesSym !in table ==> valid == {}
    {
      valid := {};
      if modulesSym in table {
        CalcValue(modulesSym);
      }
    }

    /** sym_set_tristate_value on a symbol whose value is valid. A change that is accepted takes effect: in the solution
        for the new user value the symbol has exactly the value asked for. */
    method SetTristateValue(s: Symbol, val: Tri, ghost order: seq<Symbol>) returns (ok: bool)
      requires Consistent() && s in table && s in valid && Topological(table, order)
      modifies this
      ensures ok <==> val == old(sol)[s] || WithinRange(s, modules, old(info)[s], val)
      ensures user == if ok then old(user)[s := val] else old(user)
      ensures !ok ==> Consistent() && valid == old(valid) && info == old(info) && sol == old(sol)
      ensures ok && val != old(sol)[s] ==> Consistent() && sol[s] == val
      ensures ok && val == old(sol)[s] ==> valid == old(valid) && info == old(info)
      ensures ok && val == old(sol)[s] ==> (Solution(Conf(), old(sol)) <==> StaysAt(old(info)[s], val))
    {
      var oldVal := info[s].curr;
      if oldVal != val {
        if !WithinRange(s, modules, info[s], val) {
          return false;
        }
        ghost var w, f := NewFields(s, val, order);
        StoreNew(s, val, w, f);
      } else {
        StoreSame(s, val);
      }
      ok := true;
    }

    lemma NewFields(s: Symbol, val: Tri, order: seq<Symbol>) returns (w: Values, f: map<Symbol, Info>)
      requires Fixed() && s in table && Topological(table, order) && WithinRange(s, modules, fields[s], val)
      ensures Solved(Setup(table, user[s := val], modules, strings), w, f) && w[s] == val
    {
      assert fields[s] == Equations(Conf(), sol, s);
      w, f := NewSolution(Conf(), order, sol, s, val);
    }

    method StoreNew(s: Symbol, val: Tri, ghost w: Values, ghost f: map<Symbol, Info>)
      requires Consistent() && Solved(Setup(table, user[s := val], modules, strings), w, f)
      modifies this
      ensures Consistent() && user == old(user)[s := val] && sol == w
    {
      user := user[s := val];
      sol, fields := w, f;
      ClearAllValid();
    }

    method StoreSame(s: Symbol, val: Tri)
      requires Consistent() && s in table && s in valid && val == sol[s]
      modifies `user
      ensures user == old(user)[s := val]
      ensures Solution(Conf(), sol) <==> StaysAt(info[s], val)
    {
      assert fields[s] == Equations(Conf(), sol, s);
      UserChange(Conf(), sol, s, val);
      StaysExact(Conf(), sol, s);
      user := user[s := val];
    }
  }

  /** sym_tristate_within_range. */
  predicate WithinRange(s: Symbol, modules: Tri, i: Info, val: Tri) {
    && i.visible != No
    && !(ActsBoolean(s, modules) && val == Mod)
    && Rank(i.visible) > Rank(i.revDep)
    && !(i.implied == Yes && val == Mod)
    && Rank(i.revDep) <= Rank(val) <= Rank(i.visible)
  }

  /** A symbol that already has the value `val` still has it when `val` becomes its user value: the prompt is invisible
      or admits the value, or the symbol is selected to it, or it is implied as y. */
  predicate StaysAt(i: Info, val: Tri) {
    i.visible == No || Rank(val) <= Rank(i.visible) || val == i.revDep || (i.implied == Yes && val == Yes)
  }

  /** That is exactly when the symbol's own equation still gives its value. */
  lemma StaysExact(c: Setup, v: Values, s: Symbol)
    requires Solution(c, v) && s in c.table
    ensures var i := Equations(c, v, s);
            i.visible == No || FromUser(s, c.modules, v[s], i.visible, i.revDep, i.implied) == v[s] <==>
            StaysAt(i, v[s])
  {
    assert v[s] == Equations(c, v, s).curr;
  }

  /** Storing a user value keeps a solution exactly when the symbol's own equation still gives its value. */
  lemma UserChange(c: Setup, v: Values, s: Symbol, val: Tri)
    requires Solution(c, v) && s in c.table
    ensures var i, c' := Equations(c, v, s), c.(user := c.user[s := val]);
            Solution(c', v) <==> i.visible == No || FromUser(s, c.modules, val, i.visible, i.revDep, i.implied) == v[s]
  {
    var c' := c.(user := c.user[s := val]);
    forall x | x in c.table && x != s ensures Equations(c', v, x) == Equations(c, v, x) {
      EquationsAgree(c, c', v, v, x);
    }
    EquationsAgree(c, c', v, v, s);
    assert v[s] == Equations(c, v, s).curr;
  }

  /** The conditions of a symbol cannot depend on its own user value, so a value in range is what it gets. */
  lemma SetTakesEffect(c: Setup, order: seq<Symbol>, v: Values, w: Values, s: Symbol, val: Tri)
    requires Topological(c.table, order) && s in c.table && Solution(c, v) && Solution(c.(user := c.user[s := val]), w)
    requires WithinRange(s, c.modules, Equations(c, v, s), val)
    ensures w[s] == val
  {
    NewValue(c, order, v, w, s, val);
  }

  /** The new value of a visible symbol, from its present fields. */
  lemma NewValue(c: Setup, order: seq<Symbol>, v: Values, w: Values, s: Symbol, val: Tri)
    requires Topological(c.table, order) && s in c.table && Solution(c, v) && Solution(c.(user := c.user[s := val]), w)
    ensures var i := Equations(c, v, s);
            i.visible != No ==> w[s] == FromUser(s, c.modules, val, i.visible, i.revDep, i.implied)
  {
    var c' := c.(user := c.user[s := val]);
    var k := IndexOf(order, s);
    SolutionsAgree(c, c', order, v, w, k);
    EquationsAgree(c, c', v, w, s);
    assert w[s] == Equations(c', w, s).curr;
  }

  /** The range is exact: for a visible symbol that is not selected as high as it is visible, a value up to the
      visibility is in range if and only if the symbol gets it when the user asks for it. */
  lemma RangeExact(c: Setup, order: seq<Symbol>, v: Values, w: Values, s: Symbol, val: Tri)
    requires Topological(c.table, order) && s in c.table && Solution(c, v) && Solution(c.(user := c.user[s := val]), w)
    ensures var i := Equations(c, v, s);
            WithinRange(s, c.modules, i, val) <==>
            i.visible != No && Rank(i.revDep) < Rank(i.visible) && Rank(val) <= Rank(i.visible) && w[s] == val
  {
    NewValue(c, order, v, w, s, val);
  }

  lemma NewSolution(c: Setup, order: seq<Symbol>, v: Values, s: Symbol, val: Tri)
    returns (w: Values, fields: map<Symbol, Info>)
    requires Topological(c.table, order) && s in c.table && Solution(c, v)
    ensures Solved(c.(user := c.user[s := val]), w, fields)
    ensures WithinRange(s, c.modules, Equations(c, v, s), val) ==> w[s] == val
  {
    var c' := c.(user := c.user[s := val]);
    w := Solve(c', order, |order|);
    SolveSolves(c', order);
    fields := FieldsOf(c', w);
    if WithinRange(s, c.modules, Equations(c, v, s), val) { SetTakesEffect(c, order, v, w, s, val); }
  }

  /** Storing the present value again need not be harmless: a prompt that is visible only as m and a default of y give
      y, but with user value y they give m. */
  lemma SameValueMayNotStay(id: nat, strings: Env)
    ensures var s := Config(id, Tristate);
            var d := Definition(None, None, None,
              [Property(PPrompt, Some(Sym(ConstM)), None), Property(PDefault, None, Some(Sym(ConstY)))]);
            var c := Setup(map[s := d], map[], Yes, strings);
            Solution(c, map[s := Yes]) && Solution(c.(user := map[s := Yes]), map[s := Mod])
  {
    var s := Config(id, Tristate);
    var props := [Property(PPrompt, Some(Sym(ConstM)), None), Property(PDefault, None, Some(Sym(ConstY)))];
    var c := Setup(map[s := Definition(None, None, None, props)], map[], Yes, strings);
    forall v: Values
      ensures Equations(c, v, s).curr == Yes && Equations(c.(user := map[s := Yes]), v, s).curr == Mod
    {
      var env := EnvOf(v, strings);
      PromptStep(props, 0, env);
      PromptStep(props, 1, env);
      assert props[..2] == props && props[..0] == [];
      assert props[1..][0] == props[1];
      assert DefaultOf(props[1..], env) == Yes;
      assert DefaultOf(props, env) == Yes && PromptMax(props, env) == Mod;
    }
  }
}
