/** Three-valued dependency expressions: their values, symbols and syntax (kconfig/expr.h, kconfig/expr.c). */
module Expressions {

  import opened Basics

  /** The tristate values, ordered no < mod < yes. */
  datatype Tri = No | Mod | Yes

  function Rank(t: Tri): nat {
    match t
    case No => 0
    case Mod => 1
    case Yes => 2
  }

  function TriAnd(a: Tri, b: Tri): Tri {
    if Rank(a) < Rank(b) then a else b
  }

  function TriOr(a: Tri, b: Tri): Tri {
    if Rank(a) > Rank(b) then a else b
  }

  function TriNot(a: Tri): Tri {
    match a
    case No => Yes
    case Mod => Mod
    case Yes => No
  }

  /** The two junctors, E_AND and E_OR. */
  datatype Junctor = Conj | Disj

  function Apply(op: Junctor, a: Tri, b: Tri): Tri {
    if op == Conj then TriAnd(a, b) else TriOr(a, b)
  }

  function Dual(op: Junctor): Junctor {
    if op == Conj then Disj else Conj
  }

  datatype SymType = Boolean | Tristate | Int | Hex | Str

  /** A symbol. Two symbols are the same object exactly when they are equal.
      `ConstY`, `ConstM` and `ConstN` are symbol_yes, symbol_mod and symbol_no. A `Literal` is a symbol without a
      definition (type S_UNKNOWN): its string value is its name, and `num` is what strtoll makes of that name. */
  datatype Symbol =
    | ConstY
    | ConstM
    | ConstN
    | Literal(name: string, quoted: bool, num: Option<int>)
    | Config(id: nat, kind: SymType)

  predicate IsConst(s: Symbol) {
    match s
    case Literal(_, quoted, _) => quoted
    case Config(_, _) => false
    case _ => true
  }

  /** True for the symbols whose `type` field is S_BOOLEAN or S_TRISTATE. */
  predicate IsTri(s: Symbol) {
    s.Config? && (s.kind == Boolean || s.kind == Tristate)
  }

  predicate IsYMN(s: Symbol) {
    s == ConstY || s == ConstM || s == ConstN
  }

  datatype Relation = Eq | Ne | Lt | Le | Gt | Ge

  datatype Expr =
    | Sym(sym: Symbol)
    | Not(arg: Expr)
    | Bin(op: Junctor, left: Expr, right: Expr)
    | Cmp(rel: Relation, lhs: Symbol, rhs: Symbol)

  /** The neutral operand of a junctor: y for &&, n for ||. */
  function Unit(op: Junctor): Expr {
    if op == Conj then Sym(ConstY) else Sym(ConstN)
  }

  /** The absorbing operand of a junctor: n for &&, y for ||. */
  function Zero(op: Junctor): Expr {
    Unit(Dual(op))
  }

  predicate IsBin(op: Junctor, e: Expr) {
    e.Bin? && e.op == op
  }

  function Size(e: Expr): (n: nat)
    ensures n >= 1
  {
    match e
    case Not(a) => 1 + Size(a)
    case Bin(_, l, r) => 1 + Size(l) + Size(r)
    case _ => 1
  }

  /** The symbols an expression mentions (expr_contains_symbol). */
  function Symbols(e: Expr): set<Symbol> {
    match e
    case Sym(s) => {s}
    case Not(a) => Symbols(a)
    case Bin(_, l, r) => Symbols(l) + Symbols(r)
    case Cmp(_, l, r) => {l, r}
  }

  /** An assignment. Boolean symbols are two-valued by construction; symbols of the remaining types have a string
      value and the number it denotes, if any. */
  datatype Env = Env(flag: nat -> bool, tri: nat -> Tri, text: nat -> string, num: nat -> Option<int>)

  function TriOf(s: Symbol, env: Env): Tri {
    match s
    case ConstY => Yes
    case ConstM => Mod
    case ConstN => No
    case Literal(_, _, _) => No
    case Config(id, kind) =>
      match kind
      case Boolean => if env.flag(id) then Yes else No
      case Tristate => env.tri(id)
      case _ => No
  }

  function TriText(t: Tri): string {
    match t
    case No => "n"
    case Mod => "m"
    case Yes => "y"
  }

  function TextOf(s: Symbol, env: Env): string {
    match s
    case ConstY => "y"
    case ConstM => "m"
    case ConstN => "n"
    case Literal(name, _, _) => name
    case Config(id, _) => if IsTri(s) then TriText(TriOf(s, env)) else env.text(id)
  }

  /** The number a symbol denotes in a comparison (expr_parse_string). */
  function NumOf(s: Symbol, env: Env): Option<int> {
    match s
    case Literal(_, _, num) => num
    case Config(id, _) => if IsTri(s) then Some(Rank(TriOf(s, env))) else env.num(id)
    case _ => None
  }

  /** The C library's strcmp, up to the magnitude of the result. */
  function StrCmp(a: string, b: string): int {
    if a == [] && b == [] then 0
    else if a == [] then -1
    else if b == [] then 1
    else if a[0] < b[0] then -1
    else if a[0] > b[0] then 1
    else StrCmp(a[1..], b[1..])
  }

  predicate IsKind(s: Symbol, kind: SymType) {
    s.Config? && s.kind == kind
  }

  /** A long long read as unsigned. */
  function Unsigned(x: int): int {
    x % 0x1_0000_0000_0000_0000
  }

  /** The `res` of expr_calc_value, up to its magnitude: numeric when both sides denote numbers and not both are
      strings, unsigned if a hex symbol takes part, and textual otherwise. */
  function Compare(a: Symbol, b: Symbol, env: Env): int {
    var x, y := NumOf(a, env), NumOf(b, env);
    if x.None? || y.None? || (IsKind(a, Str) && IsKind(b, Str)) then StrCmp(TextOf(a, env), TextOf(b, env))
    else if IsKind(a, Hex) || IsKind(b, Hex) then Unsigned(x.value) - Unsigned(y.value)
    else x.value - y.value
  }

  predicate Holds(rel: Relation, res: int) {
    match rel
    case Eq => res == 0
    case Ne => res != 0
    case Lt => res < 0
    case Le => res <= 0
    case Gt => res > 0
    case Ge => res >= 0
  }

  function OfBool(b: bool): Tri {
    if b then Yes else No
  }

  /** expr_calc_value. */
  function Eval(e: Expr, env: Env): Tri {
    match e
    case Sym(s) => TriOf(s, env)
    case Not(a) => TriNot(Eval(a, env))
    case Bin(op, l, r) => Apply(op, Eval(l, env), Eval(r, env))
    case Cmp(rel, a, b) => OfBool(Holds(rel, Compare(a, b, env)))
  }

  /** The value of a condition that may be missing. */
  function EvalOr(e: Option<Expr>, absent: Tri, env: Env): Tri {
    if e.None? then absent else Eval(e.value, env)
  }

  /** The value as a symbol sees it that cannot be m. */
  function Promote(boolean: bool, t: Tri): Tri {
    if t == Mod && boolean then Yes else t
  }

  /** strcmp is zero exactly on equal strings. */
  lemma {:induction false} StrCmpZero(a: string, b: string)
    ensures StrCmp(a, b) == 0 <==> a == b
  {
    if a != [] && b != [] {
      StrCmpZero(a[1..], b[1..]);
      assert a == [a[0]] + a[1..] && b == [b[0]] + b[1..];
    }
  }

  /** The tristate value a symbol stands for when a bool or tristate symbol is compared with it for equality. */
  function Denotes(c: Symbol): Option<Tri> {
    match c
    case ConstY => Some(Yes)
    case ConstM => Some(Mod)
    case ConstN => Some(No)
    case Literal(name, _, num) =>
      if num.Some? then
        (if num.value == 0 then Some(No)
         else if num.value == 1 then Some(Mod)
         else if num.value == 2 then Some(Yes)
         else None)
      else
        (if name == "y" then Some(Yes) else if name == "m" then Some(Mod) else if name == "n" then Some(No) else None)
    case Config(_, _) => None
  }

  /** Comparing a bool or tristate symbol with a symbol defined nowhere, or one of y, m and n with another, is a test
      for one tristate value, or never true. */
  lemma CompareConstant(a: Symbol, c: Symbol, env: Env)
    requires (IsTri(a) && !c.Config?) || (IsYMN(a) && IsYMN(c))
    ensures Compare(a, c, env) == 0 <==> Denotes(c) == Some(TriOf(a, env))
  {
    StrCmpZero(TextOf(a, env), TextOf(c, env));
    assert "y"[0] == 'y' && "m"[0] == 'm' && "n"[0] == 'n';
  }

  /** Two numbers stand in a relation. */
  predicate Related(rel: Relation, x: int, y: int) {
    match rel
    case Eq => x == y
    case Ne => x != y
    case Lt => x < y
    case Le => x <= y
    case Gt => x > y
    case Ge => x >= y
  }

  /** Symbols that denote numbers compare as numbers: bool and tristate symbols by n < m < y as 0, 1, 2, int symbols and
      numeric literals by their value, and hex symbols too as long as no number is negative or beyond 64 bits. */
  lemma NumbersCompare(rel: Relation, a: Symbol, b: Symbol, env: Env)
    requires NumOf(a, env).Some? && NumOf(b, env).Some? && !(IsKind(a, Str) && IsKind(b, Str))
    requires (IsKind(a, Hex) || IsKind(b, Hex)) ==>
      0 <= NumOf(a, env).value < 0x1_0000_0000_0000_0000 && 0 <= NumOf(b, env).value < 0x1_0000_0000_0000_0000
    ensures Eval(Cmp(rel, a, b), env) == OfBool(Related(rel, NumOf(a, env).value, NumOf(b, env).value))
    ensures IsTri(a) ==> NumOf(a, env).value == Rank(TriOf(a, env))
  {}

  /** The place of a tristate value in the order of its text: m, n, y. */
  function TextRank(t: Tri): nat {
    match t
    case Mod => 0
    case No => 1
    case Yes => 2
  }

  /** Against y, m and n the order is that of the letters, so that `A<n` holds for A = m and not for A = n. */
  lemma LettersCompare(rel: Relation, a: Symbol, c: Symbol, env: Env)
    requires (IsTri(a) || IsYMN(a)) && IsYMN(c)
    ensures Eval(Cmp(rel, a, c), env) == OfBool(Related(rel, TextRank(TriOf(a, env)), TextRank(TriOf(c, env))))
  {
    var x, y := TextOf(a, env), TextOf(c, env);
    assert x[1..] == "" && y[1..] == "";
    assert StrCmp(x[1..], y[1..]) == 0;
  }

  // ---------------------------------------------------------------------------------------------------------------
  // Operands at one level

  /** The operands of `e` at the level of `op`, left to right: every maximal subtree whose root is not `op`. */
  function Leaves(op: Junctor, e: Expr): (s: seq<Expr>)
    ensures |s| >= 1
    ensures forall i :: 0 <= i < |s| ==> !IsBin(op, s[i])
    ensures IsBin(op, e) ==> |s| >= 2
    ensures !IsBin(op, e) ==> s == [e]
  {
    if IsBin(op, e) then Leaves(op, e.left) + Leaves(op, e.right) else [e]
  }

  /** `e` with its operands at the level of `op` replaced, in order. */
  function Rebuild(op: Junctor, e: Expr, s: seq<Expr>): (r: Expr)
    requires |s| == |Leaves(op, e)|
    ensures IsBin(op, e) ==> IsBin(op, r)
    ensures !IsBin(op, e) ==> r == s[0]
  {
    if IsBin(op, e) then
      var n := |Leaves(op, e.left)|;
      Bin(op, Rebuild(op, e.left, s[..n]), Rebuild(op, e.right, s[n..]))
    else s[0]
  }

  function Fold(op: Junctor, s: seq<Expr>, env: Env): Tri {
    if s == [] then Eval(Unit(op), env) else Apply(op, Eval(s[0], env), Fold(op, s[1..], env))
  }

  function Without(s: seq<Expr>, i: nat): seq<Expr>
    requires i < |s|
  {
    s[..i] + s[i + 1..]
  }

  function SizeSum(s: seq<Expr>): nat {
    if s == [] then 0 else Size(s[0]) + SizeSum(s[1..])
  }

  lemma {:induction false} FoldConcat(op: Junctor, s: seq<Expr>, t: seq<Expr>, env: Env)
    ensures Fold(op, s + t, env) == Apply(op, Fold(op, s, env), Fold(op, t, env))
  {
    if s == [] {
      assert s + t == t;
    } else {
      assert (s + t)[1..] == s[1..] + t;
      FoldConcat(op, s[1..], t, env);
    }
  }

  lemma {:induction false} SizeSumConcat(s: seq<Expr>, t: seq<Expr>)
    ensures SizeSum(s + t) == SizeSum(s) + SizeSum(t)
  {
    if s == [] {
      assert s + t == t;
    } else {
      assert (s + t)[1..] == s[1..] + t;
      SizeSumConcat(s[1..], t);
    }
  }

  /** Rebuilding: the new operands are found again, the value is their fold and the size is their size plus the
      junctors, whose number is the number of operands less one. */
  lemma {:induction false} RebuildFacts(op: Junctor, e: Expr, s: seq<Expr>, env: Env)
    requires |s| == |Leaves(op, e)|
    requires forall i :: 0 <= i < |s| ==> !IsBin(op, s[i])
    ensures Leaves(op, Rebuild(op, e, s)) == s
    ensures Eval(Rebuild(op, e, s), env) == Fold(op, s, env)
    ensures Size(Rebuild(op, e, s)) == SizeSum(s) + |s| - 1
  {
    if IsBin(op, e) {
      var n := |Leaves(op, e.left)|;
      RebuildFacts(op, e.left, s[..n], env);
      RebuildFacts(op, e.right, s[n..], env);
      assert s == s[..n] + s[n..];
      FoldConcat(op, s[..n], s[n..], env);
      SizeSumConcat(s[..n], s[n..]);
    } else {
      assert s == [s[0]];
      assert s[1..] == [];
      assert Fold(op, s[1..], env) == Eval(Unit(op), env);
      assert SizeSum(s[1..]) == 0;
    }
  }

  lemma {:induction false} RebuildSame(op: Junctor, e: Expr)
    ensures Rebuild(op, e, Leaves(op, e)) == e
  {
    if IsBin(op, e) {
      var s, n := Leaves(op, e), |Leaves(op, e.left)|;
      assert s[..n] == Leaves(op, e.left) && s[n..] == Leaves(op, e.right);
      RebuildSame(op, e.left);
      RebuildSame(op, e.right);
    }
  }
}
