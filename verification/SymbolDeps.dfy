/** The recursive dependency check: sym_check_expr_deps, sym_check_sym_deps, sym_check_deps (kconfig/symbol.c) and the
    loop of conf_parse over all symbols. Choice symbols are not part of this model. */
module SymbolDeps {
  import opened Basics
  import opened Expressions

  datatype PropKind = PPrompt | PDefault | PSelect | PImply | PRange

  /** A property: its condition and, for a default, its value. */
  datatype Property = Property(kind: PropKind, visible: Option<Expr>, value: Option<Expr>)

  datatype Definition = Definition(
    dirDep: Option<Expr>, revDep: Option<Expr>, implied: Option<Expr>, props: seq<Property>)

  /** The defined symbols. All other symbols have no expressions. */
  type Table = map<Symbol, Definition>

  function SymbolsOpt(e: Option<Expr>): set<Symbol> {
    if e.None? then {} else Symbols(e.value)
  }

  predicate Skipped(p: Property) {
    p.kind == PSelect || p.kind == PImply
  }

  function PropSymbols(p: Property): set<Symbol> {
    if Skipped(p) then {}
    else SymbolsOpt(p.visible) + (if p.kind == PDefault then SymbolsOpt(p.value) else {})
  }

  function PropsSymbols(ps: seq<Property>): set<Symbol> {
    if ps == [] then {} else PropSymbols(ps[0]) + PropsSymbols(ps[1..])
  }

  /** The symbols that the value of `s` depends on directly. */
  function Deps(t: Table, s: Symbol): set<Symbol> {
    if s !in t then {}
    else
      var d := t[s];
      SymbolsOpt(d.dirDep) + SymbolsOpt(d.revDep) + SymbolsOpt(d.implied) + PropsSymbols(d.props)
  }

  /** `e` is one of the expressions that decide about a symbol: its dependencies, what selects and implies it, the
      conditions of its properties other than the selects and implies it makes, and the values of its defaults. */
  ghost predicate Decides(d: Definition, e: Expr) {
    || d.dirDep == Some(e) || d.revDep == Some(e) || d.implied == Some(e)
    || exists i :: 0 <= i < |d.props| && DecidesProperty(d.props[i], e)
  }

  ghost predicate DecidesProperty(p: Property, e: Expr) {
    && p.kind != PSelect && p.kind != PImply
    && (p.visible == Some(e) || (p.kind == PDefault && p.value == Some(e)))
  }

  /** The edges of the graph are exactly the symbols in those expressions. */
  lemma DepsExact(t: Table, s: Symbol, x: Symbol)
    ensures x in Deps(t, s) <==> s in t && exists e :: Decides(t[s], e) && x in Symbols(e)
  {
    if s in t {
      PropsExact(t[s].props, x);
      if x in Deps(t, s) {
        var d := t[s];
        if x in SymbolsOpt(d.dirDep) {
          assert Decides(d, d.dirDep.value);
        } else if x in SymbolsOpt(d.revDep) {
          assert Decides(d, d.revDep.value);
        } else if x in SymbolsOpt(d.implied) {
          assert Decides(d, d.implied.value);
        } else {
          var i :| 0 <= i < |d.props| && x in PropSymbols(d.props[i]);
          var e := PropertyMentions(d.props[i], x);
          assert Decides(d, e);
        }
      }
      forall e | Decides(t[s], e) && x in Symbols(e) ensures x in Deps(t, s) {
        if i :| 0 <= i < |t[s].props| && DecidesProperty(t[s].props[i], e) {
          assert x in PropSymbols(t[s].props[i]);
        }
      }
    }
  }

  lemma PropertyMentions(p: Property, x: Symbol) returns (e: Expr)
    requires x in PropSymbols(p)
    ensures DecidesProperty(p, e) && x in Symbols(e)
  {
    e := if x in SymbolsOpt(p.visible) then p.visible.value else p.value.value;
  }

  lemma {:induction false} PropsExact(ps: seq<Property>, x: Symbol)
    ensures x in PropsSymbols(ps) <==> exists i :: 0 <= i < |ps| && x in PropSymbols(ps[i])
  {
    if ps != [] {
      PropsExact(ps[1..], x);
      assert forall i :: 0 <= i < |ps| - 1 ==> ps[1..][i] == ps[i + 1];
      if i :| 0 < i < |ps| && x in PropSymbols(ps[i]) {
        assert x in PropSymbols(ps[1..][i - 1]);
      }
    }
  }

  ghost predicate IsPath(t: Table, p: seq<Symbol>) {
    forall i :: 0 <= i < |p| - 1 ==> p[i + 1] in Deps(t, p[i])
  }

  ghost predicate IsCycle(t: Table, p: seq<Symbol>) {
    |p| >= 2 && IsPath(t, p) && p[0] == p[|p| - 1]
  }

  ghost predicate Cyclic(t: Table) {
    exists p :: IsCycle(t, p)
  }

  /** Every symbol of `order` depends only on symbols before it. */
  ghost predicate Ordered(t: Table, order: seq<Symbol>) {
    forall k :: 0 <= k < |order| ==> forall d :: d in Deps(t, order[k]) ==> d in order[..k]
  }

  /** A listing of all defined symbols, each once, in which dependencies come first. */
  ghost predicate Topological(t: Table, order: seq<Symbol>) {
    Ordered(t, order) && Distinct(order) && forall s :: s in t ==> s in order
  }

  ghost function IndexOf(s: seq<Symbol>, x: Symbol): (i: nat)
    requires x in s
    ensures i < |s| && s[i] == x && x !in s[..i]
  {
    if s[0] == x then 0
    else
      var j := IndexOf(s[1..], x);
      assert s[..j + 1] == [s[0]] + s[1..][..j];
      j + 1
  }

  lemma {:induction false} PathDescends(t: Table, order: seq<Symbol>, p: seq<Symbol>, k: nat)
    requires Topological(t, order) && IsPath(t, p) && k < |p| && p[0] in order
    ensures p[k] in order && IndexOf(order, p[k]) <= IndexOf(order, p[0]) - k
  {
    if k > 0 {
      PathDescends(t, order, p, k - 1);
      var i := IndexOf(order, p[k - 1]);
      assert p[k - 1 + 1] in Deps(t, order[i]);
      var j := IndexOf(order, p[k]);
      assert p[k] in order[..i];
      assert j < i;
    }
  }

  /** A listing with dependencies first rules out cycles. */
  lemma TopologicalAcyclic(t: Table, order: seq<Symbol>)
    requires Topological(t, order)
    ensures !Cyclic(t)
  {
    forall p | IsCycle(t, p) ensures false {
      assert p[0 + 1] in Deps(t, p[0]);
      assert p[0] in t;
      PathDescends(t, order, p, |p| - 1);
    }
  }

  lemma StackTop(stack: seq<Symbol>)
    requires stack != [] && Distinct(stack)
    ensures forall s :: s in stack[..|stack| - 1] <==> s in stack && s != stack[|stack| - 1]
  {
    var n := |stack| - 1;
    assert stack == stack[..n] + [stack[n]];
  }

  lemma OrderedAppend(t: Table, order: seq<Symbol>, s: Symbol)
    requires Ordered(t, order) && forall d :: d in Deps(t, s) ==> d in order
    ensures Ordered(t, order + [s])
  {
    var longer := order + [s];
    forall k, d | 0 <= k < |longer| && d in Deps(t, longer[k]) ensures d in longer[..k] {
      if k < |order| {
        assert longer[k] == order[k] && longer[..k] == order[..k];
      } else {
        assert longer[..k] == order;
      }
    }
  }

  class Checker {
    const table: Table
    ghost const universe: set<Symbol>

    /** The symbols with SYMBOL_CHECK set, those with SYMBOL_CHECKED set, and the dependency stack. */
    var check: set<Symbol>
    var checked: set<Symbol>
    var stack: seq<Symbol>

    /** The symbols completely checked, in that order, until the first error. */
    ghost var done: seq<Symbol>
    ghost var failed: bool

    constructor (table: Table, all: seq<Symbol>)
      ensures this.table == table && Valid() && !failed
      ensures stack == [] && check == {} && forall s :: s in all ==> s in universe
    {
      this.table := table;
      universe := table.Keys + (set s | s in all) + (set s, d | s in table.Keys && d in Deps(table, s) :: d);
      check, checked, stack, done, failed := {}, {}, [], [], false;
    }

    ghost predicate Valid()
      reads this
    {
      && (forall s, d :: s in table && d in Deps(table, s) ==> d in universe)
      && (forall s :: s in table ==> s in universe)
      && check <= checked <= universe
      && (forall s :: s in check <==> s in stack)
      && Distinct(stack)
      && IsPath(table, stack)
      && (failed ==> Cyclic(table))
      && (!failed ==> Ordered(table, done) && Distinct(done) && forall s :: s in done <==> s in checked && s !in check)
    }

    /** What a call leaves behind, whatever it returns. */
    twostate predicate Kept()
      reads this
    {
      && Valid()
      && check == old(check) && stack == old(stack)
      && old(checked) <= checked
      && (old(failed) ==> failed)
      && (!failed ==> old(done) <= done)
    }

    /** sym_check_expr_deps. */
    method CheckExprDeps(e: Expr) returns (r: Option<Symbol>)
      requires Valid() && stack != [] && Symbols(e) <= Deps(table, stack[|stack| - 1])
      modifies this
      ensures Kept()
      ensures r.Some? ==> failed
      ensures r.None? && !old(failed) ==> !failed && forall s :: s in Symbols(e) ==> s in done
      decreases universe - checked, 1, e
    {
      match e
      case Bin(_, left, right) =>
        r := CheckExprDeps(left);
        if r.None? {
          r := CheckExprDeps(right);
        }
      case Not(arg) =>
        r := CheckExprDeps(arg);
      case Cmp(_, lhs, rhs) =>
        r := CheckDeps(lhs);
        if r.None? {
          r := CheckDeps(rhs);
        }
      case Sym(s) =>
        r := CheckDeps(s);
    }

    method CheckOptDeps(e: Option<Expr>) returns (r: Option<Symbol>)
      requires Valid() && stack != [] && SymbolsOpt(e) <= Deps(table, stack[|stack| - 1])
      modifies this
      ensures Kept()
      ensures r.Some? ==> failed
      ensures r.None? && !old(failed) ==> !failed && forall s :: s in SymbolsOpt(e) ==> s in done
      decreases universe - checked, 2
    {
      r := None;
      if e.Some? {
        r := CheckExprDeps(e.value);
      }
    }

    method CheckPropDeps(p: Property) returns (r: Option<Symbol>)
      requires Valid() && stack != [] && PropSymbols(p) <= Deps(table, stack[|stack| - 1])
      modifies this
      ensures Kept()
      ensures r.Some? ==> failed
      ensures r.None? && !old(failed) ==> !failed && forall s :: s in PropSymbols(p) ==> s in done
      decreases universe - checked, 3
    {
      r := None;
      if !Skipped(p) {
        r := CheckOptDeps(p.visible);
        if r.None? && p.kind == PDefault {
          r := CheckOptDeps(p.value);
        }
      }
    }

    /** The property loop of sym_check_sym_deps. */
    method CheckPropsDeps(props: seq<Property>) returns (r: Option<Symbol>)
      requires Valid() && stack != [] && PropsSymbols(props) <= Deps(table, stack[|stack| - 1])
      modifies this
      ensures Kept()
      ensures r.Some? ==> failed
      ensures r.None? && !old(failed) ==> !failed && forall s :: s in PropsSymbols(props) ==> s in done
      decreases universe - checked, 4
    {
      r := None;
      var i := 0;
      while i < |props|
        invariant 0 <= i <= |props|
        invariant Kept() && r.None?
        invariant !old(failed) ==> !failed && forall s :: s in PropsSymbols(props[..i]) ==> s in done
      {
        PropsSymbolsAt(props, i);
        r := CheckPropDeps(props[i]);
        if r.Some? {
          return;
        }
        i := i + 1;
      }
      assert props[..i] == props;
    }

    /** sym_check_sym_deps for a defined symbol on top of the stack. */
    method CheckSymDeps(sym: Symbol) returns (r: Option<Symbol>)
      requires Valid() && sym in check && stack != [] && stack[|stack| - 1] == sym
      modifies this
      ensures Kept()
      ensures r.Some? ==> failed
      ensures r.None? && !old(failed) ==> !failed && forall s :: s in Deps(table, sym) ==> s in done
      decreases universe - checked, 5
    {
      if sym !in table {
        return None;
      }
      var d := table[sym];
      r := CheckOptDeps(d.dirDep);
      if r.Some? { return; }
      r := CheckOptDeps(d.revDep);
      if r.Some? { return; }
      r := CheckOptDeps(d.implied);
      if r.Some? { return; }
      r := CheckPropsDeps(d.props);
    }

    /** sym_check_deps: a symbol still being checked closes a cycle, a checked one is fine, and any other is checked
        with both marks set, of which SYMBOL_CHECKED stays even when an error is found below. */
    method CheckDeps(sym: Symbol) returns (r: Option<Symbol>)
      requires Valid() && sym in universe
      requires stack != [] ==> sym in Deps(table, stack[|stack| - 1])
      modifies this
      ensures Kept()
      ensures r.Some? ==> failed
      ensures r.None? && !old(failed) ==> !failed && sym in done
      decreases universe - checked, 0
    {
      if sym in check {
        CycleFound(table, stack, sym);
        failed := true;
        return Some(sym);
      }
      if sym in checked {
        return None;
      }
      Enter(sym);
      r := CheckSymDeps(sym);
      Leave(sym);
    }

    /** Sets both marks and pushes the symbol. */
    method Enter(sym: Symbol)
      requires Valid() && sym in universe && sym !in checked
      requires stack != [] ==> sym in Deps(table, stack[|stack| - 1])
      modifies this
      ensures Valid() && failed == old(failed) && done == old(done)
      ensures check == old(check) + {sym} && checked == old(checked) + {sym} && stack == old(stack) + [sym]
    {
      check, checked, stack := check + {sym}, checked + {sym}, stack + [sym];
    }

    /** Clears SYMBOL_CHECK and pops the symbol. */
    method Leave(sym: Symbol)
      requires Valid() && stack != [] && stack[|stack| - 1] == sym
      requires !failed ==> forall s :: s in Deps(table, sym) ==> s in done
      modifies this
      ensures Valid() && failed == old(failed) && checked == old(checked)
      ensures check == old(check) - {sym} && stack == old(stack)[..|old(stack)| - 1]
      ensures !failed ==> done == old(done) + [sym]
    {
      StackTop(stack);
      check, stack := check - {sym}, stack[..|stack| - 1];
      if !failed {
        assert sym !in done;
        OrderedAppend(table, done, sym);
        done := done + [sym];
      }
    }

    /** The loop of conf_parse over all symbols. The configuration is accepted exactly when no symbol depends on
        itself, and then the symbols can be listed with dependencies first. */
    method CheckAll(all: seq<Symbol>) returns (errors: nat)
      requires Valid() && !failed && stack == [] && forall s :: s in all ==> s in universe
      requires forall s :: s in table ==> s in all
      modifies this
      ensures errors == 0 <==> !Cyclic(table)
      ensures errors == 0 ==> Topological(table, done)
    {
      errors := 0;
      for i := 0 to |all|
        invariant Valid() && stack == []
        invariant errors == 0 <==> !failed
        invariant !failed ==> forall s :: s in all[..i] ==> s in done
      {
        var r := CheckDeps(all[i]);
        if r.Some? {
          errors := errors + 1;
        }
      }
      assert all[..|all|] == all;
      if errors == 0 {
        TopologicalAcyclic(table, done);
      }
    }
  }

  lemma {:induction false} PropsSymbolsAt(props: seq<Property>, i: nat)
    requires i < |props|
    ensures PropsSymbols(props[..i + 1]) == PropsSymbols(props[..i]) + PropSymbols(props[i])
    ensures PropSymbols(props[i]) <= PropsSymbols(props)
  {
    if i == 0 {
      assert props[..1][1..] == [] && props[..1][0] == props[0];
    } else {
      assert props[..i + 1][1..] == props[1..][..i] && props[..i][1..] == props[1..][..i - 1];
      PropsSymbolsAt(props[1..], i - 1);
    }
  }

  /** The part of the stack from a symbol still being checked, closed by that symbol, is a cycle. */
  lemma CycleFound(t: Table, stack: seq<Symbol>, sym: Symbol)
    requires IsPath(t, stack) && sym in stack && sym in Deps(t, stack[|stack| - 1])
    ensures Cyclic(t)
  {
    var i := IndexOf(stack, sym);
    var p := stack[i..] + [sym];
    forall k | 0 <= k < |p| - 1 ensures p[k + 1] in Deps(t, p[k]) {
      if k < |p| - 2 { assert stack[i + k + 1] in Deps(t, stack[i + k]); }
    }
    assert IsCycle(t, p);
  }
}
