/** What expr_eq decides on expressions without y and n: two junctions are equal exactly when their operands can be
    paired off one to one, and equality is an equivalence. */
module ExprPairing {
  import opened Expressions
  import opened ExprEquality

  /** No operand y or n at any level, nor below a negation. */
  predicate NoYN(e: Expr) {
    match e
    case Sym(s) => s != ConstY && s != ConstN
    case Not(a) => NoYN(a)
    case Bin(_, l, r) => NoYN(l) && NoYN(r)
    case Cmp(_, _, _) => true
  }

  type Rel = (Expr, Expr) -> bool
  type Domain = Expr -> bool

  /** Each operand of one list is related to the one at the same place in the other. */
  ghost predicate Aligned(eq: Rel, xs: seq<Expr>, ps: seq<Expr>) {
    |xs| == |ps| && forall i :: 0 <= i < |xs| ==> eq(xs[i], ps[i])
  }

  /** The operands `xs` and `ys` can be paired off one to one: rearranged, the second list is aligned with the first. */
  ghost predicate Paired(eq: Rel, xs: seq<Expr>, ys: seq<Expr>) {
    exists ps :: Rearranged(ps, ys) && Aligned(eq, xs, ps)
  }

  ghost predicate Rearranged(xs: seq<Expr>, ys: seq<Expr>) {
    multiset(xs) == multiset(ys)
  }

  ghost predicate Symmetric(eq: Rel, dom: Domain) {
    forall x: Expr, y: Expr :: dom(x) && dom(y) && eq(x, y) ==> eq(y, x)
  }

  ghost predicate Transitive(eq: Rel, dom: Domain) {
    forall x: Expr, y: Expr, z: Expr :: dom(x) && dom(y) && dom(z) && eq(x, y) && eq(y, z) ==> eq(x, z)
  }

  ghost predicate Within(dom: Domain, xs: seq<Expr>) {
    forall i :: 0 <= i < |xs| ==> dom(xs[i])
  }

  // ---------------------------------------------------------------------------------------------------------------
  // Pairings under an equivalence

  lemma WithoutBag(xs: seq<Expr>, j: nat)
    requires j < |xs|
    ensures multiset(Without(xs, j)) == multiset(xs) - multiset{xs[j]}
  {
    assert xs == xs[..j] + ([xs[j]] + xs[j + 1..]);
  }

  lemma FirstBag(xs: seq<Expr>)
    requires xs != []
    ensures multiset(xs) == multiset{xs[0]} + multiset(xs[1..])
  {
    assert xs == [xs[0]] + xs[1..];
  }

  lemma IndexIn(ys: seq<Expr>, y: Expr) returns (j: nat)
    requires y in multiset(ys)
    ensures j < |ys| && ys[j] == y
  {
    j :| 0 <= j < |ys| && ys[j] == y;
  }

  lemma RearrangedWithin(dom: Domain, xs: seq<Expr>, ys: seq<Expr>)
    requires Rearranged(xs, ys) && Within(dom, ys)
    ensures Within(dom, xs) && |xs| == |ys|
  {
    assert |xs| == |multiset(xs)| && |ys| == |multiset(ys)|;
    forall i | 0 <= i < |xs| ensures dom(xs[i]) {
      assert xs[i] in multiset(xs);
      var j := IndexIn(ys, xs[i]);
    }
  }

  lemma AlignedWithout(eq: Rel, xs: seq<Expr>, ps: seq<Expr>, k: nat)
    requires Aligned(eq, xs, ps) && k < |xs|
    ensures Aligned(eq, Without(xs, k), Without(ps, k))
  {}

  /** When a list is rearranged, one aligned with it can be rearranged likewise. */
  lemma {:induction false} Realigned(eq: Rel, xs: seq<Expr>, ps: seq<Expr>, ys: seq<Expr>) returns (qs: seq<Expr>)
    requires Aligned(eq, xs, ps) && Rearranged(xs, ys)
    ensures Aligned(eq, ys, qs) && Rearranged(qs, ps)
    decreases ys
  {
    if ys == [] {
      assert |multiset(xs)| == |xs|;
      qs := [];
    } else {
      FirstBag(ys);
      var k := IndexIn(xs, ys[0]);
      AlignedWithout(eq, xs, ps, k);
      RearrangedRest(xs, k, ys);
      var rest := Realigned(eq, Without(xs, k), Without(ps, k), ys[1..]);
      qs := [ps[k]] + rest;
      RearrangedAll(ps, k, rest);
      AlignedFirst(eq, ys, qs);
    }
  }

  lemma RearrangedRest(xs: seq<Expr>, k: nat, ys: seq<Expr>)
    requires k < |xs| && ys != [] && xs[k] == ys[0] && Rearranged(xs, ys)
    ensures Rearranged(Without(xs, k), ys[1..])
  {
    WithoutBag(xs, k);
    FirstBag(ys);
  }

  lemma RearrangedAll(ps: seq<Expr>, k: nat, rest: seq<Expr>)
    requires k < |ps| && Rearranged(rest, Without(ps, k))
    ensures Rearranged([ps[k]] + rest, ps)
  {
    WithoutBag(ps, k);
  }

  lemma AlignedFirst(eq: Rel, xs: seq<Expr>, ps: seq<Expr>)
    requires xs != [] && ps != [] && eq(xs[0], ps[0]) && Aligned(eq, xs[1..], ps[1..])
    ensures Aligned(eq, xs, ps)
  {
    forall i | 0 < i < |xs| ensures eq(xs[i], ps[i]) {
      assert xs[i] == xs[1..][i - 1] && ps[i] == ps[1..][i - 1];
    }
  }

  /** A pairing can be read from the other side. */
  lemma PairedBack(eq: Rel, dom: Domain, xs: seq<Expr>, ys: seq<Expr>)
    requires Paired(eq, xs, ys) && Symmetric(eq, dom) && Within(dom, xs) && Within(dom, ys)
    ensures Paired(eq, ys, xs)
  {
    var ps :| Rearranged(ps, ys) && Aligned(eq, xs, ps);
    RearrangedWithin(dom, ps, ys);
    assert Aligned(eq, ps, xs);
    var qs := Realigned(eq, ps, xs, ys);
  }

  /** Pairings compose. */
  lemma PairedThrough(eq: Rel, dom: Domain, xs: seq<Expr>, ys: seq<Expr>, zs: seq<Expr>)
    requires Paired(eq, xs, ys) && Paired(eq, ys, zs) && Transitive(eq, dom)
    requires Within(dom, xs) && Within(dom, ys) && Within(dom, zs)
    ensures Paired(eq, xs, zs)
  {
    var ps :| Rearranged(ps, ys) && Aligned(eq, xs, ps);
    var qs :| Rearranged(qs, zs) && Aligned(eq, ys, qs);
    var rs := Realigned(eq, ys, qs, ps);
    RearrangedWithin(dom, ps, ys);
    RearrangedWithin(dom, rs, zs);
    forall i | 0 <= i < |xs| ensures eq(xs[i], rs[i]) {
      assert eq(xs[i], ps[i]) && eq(ps[i], rs[i]);
    }
    assert Aligned(eq, xs, rs);
  }

  /** It does not matter which related partner the first operand takes: the rest can still be paired off. */
  lemma AnyPartner(eq: Rel, dom: Domain, xs: seq<Expr>, ps: seq<Expr>, y: Expr) returns (rest: seq<Expr>)
    requires xs != [] && Aligned(eq, xs, ps) && y in multiset(ps) && eq(xs[0], y)
    requires Symmetric(eq, dom) && Transitive(eq, dom) && Within(dom, xs) && Within(dom, ps)
    ensures Aligned(eq, xs[1..], rest) && multiset(rest) == multiset(ps) - multiset{y}
  {
    var j := IndexIn(ps, y);
    FirstBag(ps);
    if j == 0 {
      rest := ps[1..];
    } else {
      rest := ps[1..][j - 1 := ps[0]];
      assert eq(xs[j], y) && eq(y, xs[0]) && eq(xs[j], xs[0]) && eq(xs[j], ps[0]);
      assert ps[1..][j - 1] == y;
      forall i | 0 <= i < |rest| ensures eq(xs[1..][i], rest[i]) {
        assert xs[1..][i] == xs[i + 1];
        if i != j - 1 { assert rest[i] == ps[i + 1]; }
      }
    }
  }

  // ---------------------------------------------------------------------------------------------------------------
  // The pass finds a pairing if there is one

  /** Comparing two operands replaces them by `u` if they are related; `u` itself is left alone. */
  ghost predicate Follows(pair: Pairer, eq: Rel, u: Expr, dom: Domain) {
    && !dom(u)
    && (forall x: Expr, y: Expr :: dom(x) && dom(y) ==> pair(x, y) == if eq(x, y) then (u, u) else (x, y))
    && (forall y: Expr :: pair(u, y) == (u, y))
    && (forall x: Expr :: dom(x) ==> pair(x, u) == (x, u))
  }

  /** The operands not replaced yet. */
  ghost function Live(u: Expr, s: seq<Expr>): multiset<Expr> {
    multiset(s)[u := 0]
  }

  ghost predicate LiveWithin(u: Expr, dom: Domain, s: seq<Expr>) {
    forall i :: 0 <= i < |s| ==> s[i] == u || dom(s[i])
  }

  lemma {:induction false} SpentKeeps(pair: Pairer, u: Expr, ys: seq<Expr>)
    requires forall y: Expr :: pair(u, y) == (u, y)
    ensures MatchOne(pair, u, ys) == (u, ys)
  {
    if ys != [] {
      SpentKeeps(pair, u, ys[1..]);
      assert ys == [ys[0]] + ys[1..];
    }
  }

  /** The place of the first operand not replaced yet that is related to `x`, or the end. */
  ghost function FirstRelated(eq: Rel, u: Expr, x: Expr, ys: seq<Expr>): (j: nat)
    ensures j <= |ys| && forall i :: 0 <= i < j ==> ys[i] == u || !eq(x, ys[i])
    ensures j < |ys| ==> ys[j] != u && eq(x, ys[j])
  {
    if ys == [] || (ys[0] != u && eq(x, ys[0])) then 0 else 1 + FirstRelated(eq, u, x, ys[1..])
  }

  /** One operand against a list: the first related one and it are replaced. */
  lemma {:induction false} MatchOneAt(pair: Pairer, eq: Rel, u: Expr, dom: Domain, x: Expr, ys: seq<Expr>)
    requires Follows(pair, eq, u, dom) && dom(x) && LiveWithin(u, dom, ys)
    ensures var j := FirstRelated(eq, u, x, ys);
            MatchOne(pair, x, ys) == if j == |ys| then (x, ys) else (u, ys[j := u])
    decreases ys
  {
    if ys != [] {
      var first, rest := ys[0], ys[1..];
      assert ys == [first] + rest;
      if first != u && eq(x, first) {
        assert pair(x, first) == (u, u);
        SpentKeeps(pair, u, rest);
        MatchOneStep(pair, x, first, rest);
        assert ys[0 := u] == [u] + rest;
      } else {
        assert pair(x, first) == (x, first);
        MatchOneAt(pair, eq, u, dom, x, rest);
        MatchOneStep(pair, x, first, rest);
        var j := FirstRelated(eq, u, x, rest);
        assert j < |rest| ==> ys[j + 1 := u] == [first] + rest[j := u];
      }
    }
  }

  lemma MatchOneStep(pair: Pairer, x: Expr, first: Expr, rest: seq<Expr>)
    ensures var (x1, y1) := pair(x, first);
            var (x2, rest1) := MatchOne(pair, x1, rest);
            MatchOne(pair, x, [first] + rest) == (x2, [y1] + rest1)
  {
    assert ([first] + rest)[1..] == rest;
  }

  lemma LiveReplaced(u: Expr, ys: seq<Expr>, j: nat)
    requires j < |ys| && ys[j] != u
    ensures Live(u, ys[j := u]) == Live(u, ys) - multiset{ys[j]} && ys[j] in Live(u, ys)
  {
    assert multiset(ys[j := u]) == multiset(ys) - multiset{ys[j]} + multiset{u};
  }

  /** An operand takes a related one away, or there is none and nothing changes. */
  ghost predicate Taken(eq: Rel, u: Expr, x: Expr, ys: seq<Expr>, x1: Expr, ys1: seq<Expr>, y: Expr) {
    if x1 == u then y in Live(u, ys) && eq(x, y) && Live(u, ys1) == Live(u, ys) - multiset{y}
    else x1 == x && ys1 == ys && forall z :: z in ys && z != u ==> !eq(x, z)
  }

  lemma MatchOneTakes(pair: Pairer, eq: Rel, u: Expr, dom: Domain, x: Expr, ys: seq<Expr>) returns (y: Expr)
    requires Follows(pair, eq, u, dom) && dom(x) && LiveWithin(u, dom, ys)
    ensures Taken(eq, u, x, ys, MatchOne(pair, x, ys).0, MatchOne(pair, x, ys).1, y)
    ensures LiveWithin(u, dom, MatchOne(pair, x, ys).1)
  {
    MatchOneAt(pair, eq, u, dom, x, ys);
    var j := FirstRelated(eq, u, x, ys);
    y := x;
    if j < |ys| {
      y := ys[j];
      LiveReplaced(u, ys, j);
    }
  }

  ghost predicate AllSpent(u: Expr, s: seq<Expr>) {
    forall i :: 0 <= i < |s| ==> s[i] == u
  }

  lemma NothingLive(u: Expr, s: seq<Expr>)
    ensures Live(u, s) == multiset{} <==> AllSpent(u, s)
  {
    if !AllSpent(u, s) {
      var i :| 0 <= i < |s| && s[i] != u;
      assert s[i] in Live(u, s);
    }
  }

  /** When the double loop replaces everything on both sides, it has paired them off. */
  lemma {:induction false} MatchAllFinds(pair: Pairer, eq: Rel, u: Expr, dom: Domain, xs: seq<Expr>, ys: seq<Expr>)
    returns (ps: seq<Expr>)
    requires Follows(pair, eq, u, dom) && Within(dom, xs) && LiveWithin(u, dom, ys)
    requires AllSpent(u, MatchAll(pair, xs, ys).0) && AllSpent(u, MatchAll(pair, xs, ys).1)
    ensures multiset(ps) == Live(u, ys) && Aligned(eq, xs, ps)
    decreases xs
  {
    if xs == [] {
      NothingLive(u, ys);
      ps := [];
    } else {
      var (x1, ys0) := MatchOne(pair, xs[0], ys);
      var y := MatchOneTakes(pair, eq, u, dom, xs[0], ys);
      SpentFirst(u, x1, MatchAll(pair, xs[1..], ys0).0);
      var rest := MatchAllFinds(pair, eq, u, dom, xs[1..], ys0);
      ps := [y] + rest;
      AlignedFirst(eq, xs, ps);
    }
  }

  /** When the two sides can be paired off, the double loop replaces everything. */
  lemma {:induction false} MatchAllSucceeds(
    pair: Pairer, eq: Rel, u: Expr, dom: Domain, xs: seq<Expr>, ys: seq<Expr>, ps: seq<Expr>)
    requires Follows(pair, eq, u, dom) && Symmetric(eq, dom) && Transitive(eq, dom)
    requires Within(dom, xs) && Within(dom, ps) && LiveWithin(u, dom, ys)
    requires multiset(ps) == Live(u, ys) && Aligned(eq, xs, ps)
    ensures AllSpent(u, MatchAll(pair, xs, ys).0) && AllSpent(u, MatchAll(pair, xs, ys).1)
    decreases xs
  {
    if xs == [] {
      NothingLive(u, ys);
    } else {
      var (x1, ys0) := MatchOne(pair, xs[0], ys);
      var y := MatchOneTakes(pair, eq, u, dom, xs[0], ys);
      PartnerThere(eq, u, xs, ys, ps);
      var rest := AnyPartner(eq, dom, xs, ps, y);
      BagWithin(dom, ps, rest, y);
      MatchAllSucceeds(pair, eq, u, dom, xs[1..], ys0, rest);
      SpentFirst(u, x1, MatchAll(pair, xs[1..], ys0).0);
    }
  }

  lemma PartnerThere(eq: Rel, u: Expr, xs: seq<Expr>, ys: seq<Expr>, ps: seq<Expr>)
    requires xs != [] && multiset(ps) == Live(u, ys) && Aligned(eq, xs, ps)
    ensures ps[0] in ys && ps[0] != u && eq(xs[0], ps[0])
  {
    assert ps[0] in multiset(ps);
  }

  lemma BagWithin(dom: Domain, ps: seq<Expr>, rest: seq<Expr>, y: Expr)
    requires Within(dom, ps) && multiset(rest) == multiset(ps) - multiset{y}
    ensures Within(dom, rest)
  {
    forall i | 0 <= i < |rest| ensures dom(rest[i]) {
      assert rest[i] in multiset(rest);
      var j := IndexIn(ps, rest[i]);
    }
  }

  lemma SpentFirst(u: Expr, x: Expr, rest: seq<Expr>)
    ensures AllSpent(u, [x] + rest) <==> x == u && AllSpent(u, rest)
  {
    var s := [x] + rest;
    assert s[0] == x && forall i :: 0 <= i < |rest| ==> s[i + 1] == rest[i];
  }

  /** What the double loop leaves on the two sides is not related. */
  ghost predicate Unrelated(eq: Rel, u: Expr, xs: seq<Expr>, ys: seq<Expr>) {
    forall x, y :: x in xs && y in ys && x != u && y != u ==> !eq(x, y)
  }

  lemma {:induction false} MatchAllLeaves(pair: Pairer, eq: Rel, u: Expr, dom: Domain, xs: seq<Expr>, ys: seq<Expr>)
    requires Follows(pair, eq, u, dom) && Within(dom, xs) && LiveWithin(u, dom, ys)
    ensures var (xs1, ys1) := MatchAll(pair, xs, ys);
            && Unrelated(eq, u, xs1, ys1) && Live(u, ys1) <= Live(u, ys)
            && LiveWithin(u, dom, xs1) && LiveWithin(u, dom, ys1)
    decreases xs
  {
    if xs != [] {
      var (x1, ys0) := MatchOne(pair, xs[0], ys);
      var y := MatchOneTakes(pair, eq, u, dom, xs[0], ys);
      MatchAllLeaves(pair, eq, u, dom, xs[1..], ys0);
      var (rest, ys1) := MatchAll(pair, xs[1..], ys0);
      LiveWithinCons(u, dom, x1, rest);
      UnrelatedCons(eq, u, x1, rest, ys0, ys1);
    }
  }

  lemma LiveWithinCons(u: Expr, dom: Domain, first: Expr, rest: seq<Expr>)
    requires (first == u || dom(first)) && LiveWithin(u, dom, rest)
    ensures LiveWithin(u, dom, [first] + rest)
  {}

  lemma UnrelatedCons(eq: Rel, u: Expr, x: Expr, rest: seq<Expr>, ys0: seq<Expr>, ys1: seq<Expr>)
    requires Unrelated(eq, u, rest, ys1) && Live(u, ys1) <= Live(u, ys0)
    requires x != u ==> forall z :: z in ys0 && z != u ==> !eq(x, z)
    ensures Unrelated(eq, u, [x] + rest, ys1)
  {
    forall y | y in ys1 && y != u ensures y in ys0 {
      assert y in Live(u, ys1) && y in Live(u, ys0);
    }
  }

  // ---------------------------------------------------------------------------------------------------------------
  // expr_eq

  lemma {:induction false} NoYNIrreducible(e: Expr)
    requires NoYN(e)
    ensures !Reducible(e)
  {
    if e.Bin? {
      NoYNIrreducible(e.left);
      NoYNIrreducible(e.right);
    }
  }

  /** Either all operands were replaced and the junction collapses to its neutral operand, or what is left has no y or n
      and is a symbol only if that symbol is the one operand left. */
  ghost predicate Collapsed(op: Junctor, s: seq<Expr>, r: Expr) {
    if AllSpent(Unit(op), s) then r == Unit(op) else NoYN(r) && (r.Sym? ==> r in s)
  }

  lemma {:induction false} Collapses(op: Junctor, e: Expr, s: seq<Expr>)
    requires |s| == |Leaves(op, e)| && forall i :: 0 <= i < |s| ==> s[i] == Unit(op) || NoYN(s[i])
    ensures Collapsed(op, s, EliminateYN(Rebuild(op, e, s)))
  {
    if IsBin(op, e) {
      var n := |Leaves(op, e.left)|;
      Collapses(op, e.left, s[..n]);
      Collapses(op, e.right, s[n..]);
      CollapsedBoth(op, s[..n], s[n..], Rebuild(op, e.left, s[..n]), Rebuild(op, e.right, s[n..]));
      assert s == s[..n] + s[n..];
    } else {
      assert Rebuild(op, e, s) == s[0];
      if s[0] != Unit(op) {
        NoYNIrreducible(s[0]);
        EliminateYNShrinks(s[0]);
      }
    }
  }

  lemma SpentConcat(u: Expr, s: seq<Expr>, t: seq<Expr>)
    ensures AllSpent(u, s + t) <==> AllSpent(u, s) && AllSpent(u, t)
  {
    var all := s + t;
    assert forall i :: 0 <= i < |s| ==> all[i] == s[i];
    assert forall i :: 0 <= i < |t| ==> all[|s| + i] == t[i];
  }

  lemma CollapsedBoth(op: Junctor, s: seq<Expr>, t: seq<Expr>, a: Expr, b: Expr)
    requires Collapsed(op, s, EliminateYN(a)) && Collapsed(op, t, EliminateYN(b))
    ensures Collapsed(op, s + t, EliminateYN(Bin(op, a, b)))
  {
    SpentConcat(Unit(op), s, t);
  }

  /** Two collapsed sides are the same symbol only if nothing is left on either. */
  lemma SameSymbol(op: Junctor, xs: seq<Expr>, ys: seq<Expr>, a: Expr, b: Expr)
    requires Collapsed(op, xs, a) && Collapsed(op, ys, b) && Unrelated(Same(), Unit(op), xs, ys)
    ensures a.Sym? && a == b <==> AllSpent(Unit(op), xs) && AllSpent(Unit(op), ys)
  {
    assert a.Sym? ==> Same()(a, a);
  }

  /** expr_eq, and the expressions without y and n below a size. */
  function Same(): Rel {
    (x: Expr, y: Expr) => ExprEq(x, y)
  }

  function Below(k: nat): Domain {
    (x: Expr) => NoYN(x) && Size(x) < k
  }

  lemma PairFollows(op: Junctor, k: nat)
    ensures Follows(Pair(op), Same(), Unit(op), Below(k))
  {}

  lemma {:induction false} LeavesNoYN(op: Junctor, e: Expr)
    requires NoYN(e)
    ensures forall i :: 0 <= i < |Leaves(op, e)| ==> NoYN(Leaves(op, e)[i])
  {
    if IsBin(op, e) {
      LeavesNoYN(op, e.left);
      LeavesNoYN(op, e.right);
    }
  }

  lemma LeavesBelow(op: Junctor, e: Expr, k: nat)
    requires NoYN(e) && IsBin(op, e) && Size(e) <= k
    ensures Within(Below(k), Leaves(op, e))
  {
    LeavesNoYN(op, e);
    var s := Leaves(op, e);
    forall i | 0 <= i < |s| ensures Below(k)(s[i]) { LeafSmaller(op, e, i); }
  }

  lemma AllLive(u: Expr, dom: Domain, ys: seq<Expr>)
    requires Within(dom, ys) && !dom(u)
    ensures Live(u, ys) == multiset(ys) && LiveWithin(u, dom, ys)
  {
    assert u !in ys;
  }

  lemma EqualByPass(op: Junctor, e1: Expr, e2: Expr)
    requires IsBin(op, e1) && IsBin(op, e2)
    ensures var (a, b) := EqPass(op, e1, e2);
            ExprEq(e1, e2) <==> EliminateYN(a).Sym? && EliminateYN(a) == EliminateYN(b)
  {}

  /** Two junctions are equal exactly when the pass replaces all their operands. */
  lemma EqualWhenSpent(op: Junctor, e1: Expr, e2: Expr, k: nat)
    requires IsBin(op, e1) && IsBin(op, e2) && NoYN(e1) && NoYN(e2) && Size(e1) <= k && Size(e2) <= k
    ensures var (xs, ys) := MatchAll(Pair(op), Leaves(op, e1), Leaves(op, e2));
            ExprEq(e1, e2) <==> AllSpent(Unit(op), xs) && AllSpent(Unit(op), ys)
  {
    var u, dom := Unit(op), Below(k);
    LeavesBelow(op, e1, k);
    LeavesBelow(op, e2, k);
    PairFollows(op, k);
    AllLive(u, dom, Leaves(op, e2));
    MatchAllLeaves(Pair(op), Same(), u, dom, Leaves(op, e1), Leaves(op, e2));
    var (xs, ys) := MatchAll(Pair(op), Leaves(op, e1), Leaves(op, e2));
    Collapses(op, e1, xs);
    Collapses(op, e2, ys);
    SameSymbol(op, xs, ys, EliminateYN(Rebuild(op, e1, xs)), EliminateYN(Rebuild(op, e2, ys)));
    PassIsMatchAll(op, e1, e2);
    EqualByPass(op, e1, e2);
  }

  /** With equality an equivalence on smaller expressions, it is the existence of a pairing. */
  lemma PairingBelow(op: Junctor, e1: Expr, e2: Expr, k: nat)
    requires IsBin(op, e1) && IsBin(op, e2) && NoYN(e1) && NoYN(e2) && Size(e1) <= k && Size(e2) <= k
    requires Symmetric(Same(), Below(k)) && Transitive(Same(), Below(k))
    ensures ExprEq(e1, e2) <==> Paired(Same(), Leaves(op, e1), Leaves(op, e2))
  {
    var u, dom, pair := Unit(op), Below(k), Pair(op);
    var xs, ys := Leaves(op, e1), Leaves(op, e2);
    EqualWhenSpent(op, e1, e2, k);
    LeavesBelow(op, e1, k);
    LeavesBelow(op, e2, k);
    PairFollows(op, k);
    AllLive(u, dom, ys);
    if ExprEq(e1, e2) {
      var ps := MatchAllFinds(pair, Same(), u, dom, xs, ys);
      assert Rearranged(ps, ys);
    }
    if Paired(Same(), xs, ys) {
      var ps :| Rearranged(ps, ys) && Aligned(Same(), xs, ps);
      RearrangedWithin(dom, ps, ys);
      MatchAllSucceeds(pair, Same(), u, dom, xs, ys, ps);
    }
  }

  lemma {:induction false} Equivalence(k: nat)
    ensures Symmetric(Same(), Below(k)) && Transitive(Same(), Below(k))
  {
    if k > 0 {
      Equivalence(k - 1);
      forall x: Expr, y: Expr | Below(k)(x) && Below(k)(y) && Same()(x, y) ensures Same()(y, x) {
        SymmetricStep(x, y, k - 1);
      }
      forall x: Expr, y: Expr, z: Expr | Below(k)(x) && Below(k)(y) && Below(k)(z) && Same()(x, y) && Same()(y, z)
        ensures Same()(x, z)
      {
        TransitiveStep(x, y, z, k - 1);
      }
    }
  }

  lemma SymmetricStep(x: Expr, y: Expr, k: nat)
    requires NoYN(x) && NoYN(y) && Size(x) <= k && Size(y) <= k && ExprEq(x, y)
    requires Symmetric(Same(), Below(k)) && Transitive(Same(), Below(k))
    ensures ExprEq(y, x)
  {
    if x.Bin? {
      var op := x.op;
      PairingBelow(op, x, y, k);
      LeavesBelow(op, x, k);
      LeavesBelow(op, y, k);
      PairedBack(Same(), Below(k), Leaves(op, x), Leaves(op, y));
      PairingBelow(op, y, x, k);
    } else if x.Not? {
      assert Below(k)(x.arg) && Below(k)(y.arg) && Same()(x.arg, y.arg);
      assert Same()(y.arg, x.arg);
    }
  }

  lemma TransitiveStep(x: Expr, y: Expr, z: Expr, k: nat)
    requires NoYN(x) && NoYN(y) && NoYN(z) && Size(x) <= k && Size(y) <= k && Size(z) <= k
    requires ExprEq(x, y) && ExprEq(y, z) && Symmetric(Same(), Below(k)) && Transitive(Same(), Below(k))
    ensures ExprEq(x, z)
  {
    if x.Bin? {
      var op := x.op;
      PairingBelow(op, x, y, k);
      PairingBelow(op, y, z, k);
      LeavesBelow(op, x, k);
      LeavesBelow(op, y, k);
      LeavesBelow(op, z, k);
      PairedThrough(Same(), Below(k), Leaves(op, x), Leaves(op, y), Leaves(op, z));
      PairingBelow(op, x, z, k);
    } else if x.Not? {
      assert Below(k)(x.arg) && Below(k)(y.arg) && Below(k)(z.arg) && Same()(x.arg, y.arg) && Same()(y.arg, z.arg);
      assert Same()(x.arg, z.arg);
    }
  }

  lemma ExprEqSymmetric(e1: Expr, e2: Expr)
    requires NoYN(e1) && NoYN(e2)
    ensures ExprEq(e1, e2) <==> ExprEq(e2, e1)
  {
    var k := Size(e1) + Size(e2);
    Equivalence(k);
    if ExprEq(e1, e2) { SymmetricStep(e1, e2, k); }
    if ExprEq(e2, e1) { SymmetricStep(e2, e1, k); }
  }

  lemma ExprEqTransitive(e1: Expr, e2: Expr, e3: Expr)
    requires NoYN(e1) && NoYN(e2) && NoYN(e3) && ExprEq(e1, e2) && ExprEq(e2, e3)
    ensures ExprEq(e1, e3)
  {
    var k := Size(e1) + Size(e2) + Size(e3);
    Equivalence(k);
    TransitiveStep(e1, e2, e3, k);
  }

  /** Two && or two || expressions without y and n are equal if and only if their operands can be paired off one to
      one. */
  lemma ExprEqPairing(op: Junctor, e1: Expr, e2: Expr)
    requires IsBin(op, e1) && IsBin(op, e2) && NoYN(e1) && NoYN(e2)
    ensures ExprEq(e1, e2) <==> Paired(Same(), Leaves(op, e1), Leaves(op, e2))
  {
    var k := Size(e1) + Size(e2);
    Equivalence(k);
    PairingBelow(op, e1, e2, k);
  }

  /** Without the restriction neither holds: for `(n || B) && (n || C)`, `B && (n || C)` and `B && C` the first two are
      equal, although B has no partner, and so are the last two, but not the first and the last. */
  lemma NotTransitive(b: Symbol, c: Symbol)
    requires b != c && b != ConstY && b != ConstN && c != ConstY && c != ConstN
    ensures var nb, nc := Bin(Disj, Sym(ConstN), Sym(b)), Bin(Disj, Sym(ConstN), Sym(c));
            var x, y, z := Bin(Conj, nb, nc), Bin(Conj, Sym(b), nc), Bin(Conj, Sym(b), Sym(c));
            ExprEq(x, y) && ExprEq(y, z) && !ExprEq(x, z)
  {
    var yes, n := Sym(ConstY), Sym(ConstN);
    var nb, nc := Bin(Disj, n, Sym(b)), Bin(Disj, n, Sym(c));
    var x, y, z := Bin(Conj, nb, nc), Bin(Conj, Sym(b), nc), Bin(Conj, Sym(b), Sym(c));
    assert EliminateYN(nb) == Sym(b) && EliminateYN(nc) == Sym(c);
    FirstExample(b, c);
    Example(Sym(b), nc, Sym(b), Sym(c), Bin(Conj, yes, nc), Bin(Conj, yes, Sym(c)));
    Example(nb, nc, Sym(b), Sym(c), x, z);
  }

  lemma FirstExample(b: Symbol, c: Symbol)
    requires b != c && b != ConstY && b != ConstN && c != ConstY && c != ConstN
    ensures var nb, nc := Bin(Disj, Sym(ConstN), Sym(b)), Bin(Disj, Sym(ConstN), Sym(c));
            ExprEq(Bin(Conj, nb, nc), Bin(Conj, Sym(b), nc))
  {
    var yes, nb, nc := Sym(ConstY), Bin(Disj, Sym(ConstN), Sym(b)), Bin(Disj, Sym(ConstN), Sym(c));
    ExprEqReflexive(nc);
    DifferentOperands(b, c);
    assert EliminateYN(nb) == Sym(b);
    Example(nb, nc, Sym(b), nc, Bin(Conj, nb, yes), Bin(Conj, Sym(b), yes));
  }

  /** The pass over two conjunctions of two operands. */
  lemma Example(p: Expr, q: Expr, v: Expr, w: Expr, a: Expr, b: Expr)
    requires !IsBin(Conj, p) && !IsBin(Conj, q) && !IsBin(Conj, v) && !IsBin(Conj, w)
    requires var (p1, v1) := MatchPair(Conj, p, v);
             var (p2, w1) := MatchPair(Conj, p1, w);
             var (q1, v2) := MatchPair(Conj, q, v1);
             var (q2, w2) := MatchPair(Conj, q1, w1);
             a == Bin(Conj, p2, q2) && b == Bin(Conj, v2, w2)
    ensures ExprEq(Bin(Conj, p, q), Bin(Conj, v, w)) <==> EliminateYN(a).Sym? && EliminateYN(a) == EliminateYN(b)
  {
    var (p1, v1) := MatchPair(Conj, p, v);
    var (p2, w1) := MatchPair(Conj, p1, w);
    PassTwo(p, v, w);
    PassTwo(q, v1, w1);
    assert EqPass(Conj, Bin(Conj, p, q), Bin(Conj, v, w)) == (a, b);
    EqualByPass(Conj, Bin(Conj, p, q), Bin(Conj, v, w));
  }

  /** One operand against a conjunction of two. */
  lemma PassTwo(x: Expr, p: Expr, q: Expr)
    requires !IsBin(Conj, x) && !IsBin(Conj, p) && !IsBin(Conj, q)
    ensures var (x1, p1) := MatchPair(Conj, x, p);
            var (x2, q1) := MatchPair(Conj, x1, q);
            EqPass(Conj, x, Bin(Conj, p, q)) == (x2, Bin(Conj, p1, q1))
  {}

  lemma DifferentOperands(b: Symbol, c: Symbol)
    requires b != c && b != ConstY && b != ConstN && c != ConstY && c != ConstN
    ensures !ExprEq(Bin(Disj, Sym(ConstN), Sym(b)), Bin(Disj, Sym(ConstN), Sym(c)))
  {
    var n := Sym(ConstN);
    var nb, nc := Bin(Disj, n, Sym(b)), Bin(Disj, n, Sym(c));
    assert !ExprEq(n, Sym(c)) && !ExprEq(Sym(b), n) && !ExprEq(Sym(b), Sym(c));
    assert EqPass(Disj, n, nc) == (n, nc);
    assert EqPass(Disj, Sym(b), nc) == (Sym(b), nc);
    assert EqPass(Disj, nb, nc) == (nb, nc);
    assert EliminateYN(nb) == Sym(b) && EliminateYN(nc) == Sym(c);
  }
}
