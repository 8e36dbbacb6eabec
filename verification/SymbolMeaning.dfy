/** What value a symbol has in a solution, in terms of its prompts, defaults, selections and implications
    (kconfig/symbol.c). */
module SymbolMeaning {
  import opened Basics
  import opened Expressions
  import opened SymbolDeps
  import opened SymbolValues

  /** The value of a property's condition. */
  function Cond(p: Property, env: Env): Tri {
    EvalOr(p.visible, Yes, env)
  }

  /** `t` is the largest condition of a prompt, or n if there is none. */
  ghost predicate LargestPrompt(ps: seq<Property>, env: Env, t: Tri) {
    && (forall i :: 0 <= i < |ps| && ps[i].kind == PPrompt ==> Rank(Cond(ps[i], env)) <= Rank(t))
    && (t != No ==> exists i :: 0 <= i < |ps| && ps[i].kind == PPrompt && Cond(ps[i], env) == t)
  }

  /** `j` is the first default whose condition is not n. */
  ghost predicate FirstDefault(ps: seq<Property>, env: Env, j: nat) {
    && j < |ps| && ps[j].kind == PDefault && Cond(ps[j], env) != No
    && forall i :: 0 <= i < j && ps[i].kind == PDefault ==> Cond(ps[i], env) == No
  }

  ghost predicate NoDefault(ps: seq<Property>, env: Env) {
    forall i :: 0 <= i < |ps| && ps[i].kind == PDefault ==> Cond(ps[i], env) == No
  }

  lemma {:induction false} PromptMaxIs(ps: seq<Property>, env: Env, t: Tri)
    requires LargestPrompt(ps, env, t)
    ensures PromptMax(ps, env) == t
  {
    PromptBounds(ps, env);
    if PromptMax(ps, env) != No {
      var i :| 0 <= i < |ps| && ps[i].kind == PPrompt && Cond(ps[i], env) == PromptMax(ps, env);
    }
  }

  lemma {:induction false} PromptBounds(ps: seq<Property>, env: Env)
    ensures LargestPrompt(ps, env, PromptMax(ps, env))
  {
    if ps != [] {
      var n := |ps| - 1;
      PromptBounds(ps[..n], env);
      var rest, t := PromptMax(ps[..n], env), PromptMax(ps, env);
      forall i | 0 <= i < |ps| && ps[i].kind == PPrompt ensures Rank(Cond(ps[i], env)) <= Rank(t) {
        if i < n { assert ps[i] == ps[..n][i]; }
      }
      if t != No {
        if ps[n].kind == PPrompt && Cond(ps[n], env) == t {
        } else {
          var i :| 0 <= i < n && ps[..n][i].kind == PPrompt && Cond(ps[..n][i], env) == rest;
          assert ps[i].kind == PPrompt && Cond(ps[i], env) == t;
        }
      }
    }
  }

  lemma {:induction false} DefaultIs(ps: seq<Property>, env: Env, j: nat)
    requires FirstDefault(ps, env, j)
    ensures DefaultOf(ps, env) == TriAnd(EvalOr(ps[j].value, Yes, env), Cond(ps[j], env))
    decreases j
  {
    if j > 0 {
      assert forall i :: 0 <= i < |ps| - 1 ==> ps[1..][i] == ps[i + 1];
      DefaultIs(ps[1..], env, j - 1);
    }
  }

  lemma {:induction false} DefaultIsNo(ps: seq<Property>, env: Env)
    requires NoDefault(ps, env)
    ensures DefaultOf(ps, env) == No
  {
    if ps != [] {
      assert forall i :: 0 <= i < |ps| - 1 ==> ps[1..][i] == ps[i + 1];
      DefaultIsNo(ps[1..], env);
    }
  }

  /** Bool symbols, and without modules tristate symbols too, take y where others take m. */
  function TwoValued(s: Symbol, modules: Tri): bool
    requires IsTri(s)
  {
    s.kind == Boolean || modules == No
  }

  /** What a symbol is selected to at least. */
  function Selected(c: Setup, s: Symbol, env: Env): Tri
    requires s in c.table && IsTri(s)
  {
    Promote(TwoValued(s, c.modules), EvalOr(c.table[s].revDep, No, env))
  }

  /** What a symbol is implied as: an implication counts only while the symbol's dependencies are not n. */
  function Implied(c: Setup, s: Symbol, env: Env): Tri
    requires s in c.table && IsTri(s)
  {
    if EvalOr(c.table[s].dirDep, Yes, env) == No then No
    else Promote(TwoValued(s, c.modules), EvalOr(c.table[s].implied, No, env))
  }

  /** The user's choice is not asked for: no prompt is visible or there is no user value. */
  ghost predicate Unasked(c: Setup, s: Symbol, env: Env)
    requires s in c.table
  {
    LargestPrompt(c.table[s].props, env, No) || s !in c.user
  }

  /** A visible symbol with a user value has that value, at most as large as its visibility and at least what it is
      selected to; m counts as y if the symbol is two-valued or implied as y. */
  lemma UserDecides(c: Setup, v: Values, s: Symbol, visible: Tri)
    requires Solution(c, v) && s in c.table && IsTri(s) && s in c.user && visible != No
    requires LargestPrompt(c.table[s].props, EnvOf(v, c.strings), visible)
    ensures var env, two := EnvOf(v, c.strings), TwoValued(s, c.modules);
            v[s] == Promote(two || Implied(c, s, env) == Yes,
                            TriOr(TriAnd(c.user[s], Promote(two, visible)), Selected(c, s, env)))
  {
    PromptMaxIs(c.table[s].props, EnvOf(v, c.strings), visible);
    assert v[s] == Equations(c, v, s).curr;
  }

  /** Otherwise the first default whose condition is not n decides, capped by its condition, together with what the
      symbol is implied as and selected to. */
  lemma DefaultDecides(c: Setup, v: Values, s: Symbol, j: nat)
    requires Solution(c, v) && s in c.table && IsTri(s) && Unasked(c, s, EnvOf(v, c.strings))
    requires FirstDefault(c.table[s].props, EnvOf(v, c.strings), j)
    ensures var env, p := EnvOf(v, c.strings), c.table[s].props[j];
            var default := TriAnd(EvalOr(p.value, Yes, env), Cond(p, env));
            v[s] == Promote(TwoValued(s, c.modules) || Implied(c, s, env) == Yes,
                            TriOr(TriOr(default, Implied(c, s, env)), Selected(c, s, env)))
  {
    UnaskedValue(c, v, s);
    DefaultIs(c.table[s].props, EnvOf(v, c.strings), j);
  }

  /** Without such a default only implications and selections count. */
  lemma NoDefaultDecides(c: Setup, v: Values, s: Symbol)
    requires Solution(c, v) && s in c.table && IsTri(s) && Unasked(c, s, EnvOf(v, c.strings))
    requires NoDefault(c.table[s].props, EnvOf(v, c.strings))
    ensures var env := EnvOf(v, c.strings);
            v[s] == Promote(TwoValued(s, c.modules) || Implied(c, s, env) == Yes,
                            TriOr(Implied(c, s, env), Selected(c, s, env)))
  {
    UnaskedValue(c, v, s);
    DefaultIsNo(c.table[s].props, EnvOf(v, c.strings));
  }

  lemma UnaskedValue(c: Setup, v: Values, s: Symbol)
    requires Solution(c, v) && s in c.table && IsTri(s) && Unasked(c, s, EnvOf(v, c.strings))
    ensures var env := EnvOf(v, c.strings);
            v[s] == Promote(TwoValued(s, c.modules) || Implied(c, s, env) == Yes,
                            TriOr(TriOr(DefaultOf(c.table[s].props, env), Implied(c, s, env)), Selected(c, s, env)))
  {
    var env, ps := EnvOf(v, c.strings), c.table[s].props;
    if LargestPrompt(ps, env, No) { PromptMaxIs(ps, env, No); }
    assert v[s] == Equations(c, v, s).curr;
  }

  /** The plain case: not asked, neither selected nor implied. The value is the first default's, capped by its
      condition. */
  lemma PlainDefault(c: Setup, v: Values, s: Symbol, j: nat)
    requires Solution(c, v) && s in c.table && IsTri(s) && Unasked(c, s, EnvOf(v, c.strings))
    requires FirstDefault(c.table[s].props, EnvOf(v, c.strings), j)
    requires var env, d := EnvOf(v, c.strings), c.table[s];
             && EvalOr(d.revDep, No, env) == No
             && (EvalOr(d.implied, No, env) == No || EvalOr(d.dirDep, Yes, env) == No)
    ensures var env, p := EnvOf(v, c.strings), c.table[s].props[j];
            v[s] == Promote(TwoValued(s, c.modules), TriAnd(EvalOr(p.value, Yes, env), Cond(p, env)))
  {
    DefaultDecides(c, v, s, j);
  }

  /** The fields that sym_calc_visibility stores. */
  lemma FieldsMean(c: Setup, v: Values, s: Symbol, visible: Tri)
    requires s in c.table && IsTri(s) && LargestPrompt(c.table[s].props, EnvOf(v, c.strings), visible)
    ensures var i, env := Equations(c, v, s), EnvOf(v, c.strings);
            i.visible == Promote(TwoValued(s, c.modules), visible) && i.revDep == Selected(c, s, env) &&
            i.implied == Implied(c, s, env)
  {
    PromptMaxIs(c.table[s].props, EnvOf(v, c.strings), visible);
  }
}
