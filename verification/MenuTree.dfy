/** Menu trees and what menu_finalize makes of them (kconfig/menu.c): entries first take later siblings below them, and
    then entries without a prompt text give up their children. */
module MenuTree {
  import opened Basics

  /** A list of sibling entries, each with the list of its children. */
  datatype Forest = Nil | Node(id: int, kids: Forest, rest: Forest)

  /** Depth-first order, which is the order of the entries in the Kconfig files. */
  function Preorder(f: Forest): seq<int> {
    match f
    case Nil => []
    case Node(i, k, r) => [i] + Preorder(k) + Preorder(r)
  }

  function Append(a: Forest, b: Forest): Forest {
    match a
    case Nil => b
    case Node(i, k, r) => Node(i, k, Append(r, b))
  }

  function Size(f: Forest): nat {
    if f.Nil? then 0 else 1 + Size(f.kids) + Size(f.rest)
  }

  lemma {:induction false} SizeAppend(a: Forest, b: Forest)
    ensures Size(Append(a, b)) == Size(a) + Size(b)
  {
    if a.Node? { SizeAppend(a.rest, b); }
  }

  lemma {:induction false} PreorderAppend(a: Forest, b: Forest)
    ensures Preorder(Append(a, b)) == Preorder(a) + Preorder(b)
  {
    if a.Node? { PreorderAppend(a.rest, b); }
  }

  lemma {:induction false} AppendAppend(a: Forest, b: Forest, c: Forest)
    ensures Append(Append(a, b), c) == Append(a, Append(b, c))
  {
    if a.Node? { AppendAppend(a.rest, b, c); }
  }

  lemma {:induction false} AppendNil(a: Forest)
    ensures Append(a, Nil) == a
  {
    if a.Node? { AppendNil(a.rest); }
  }

  lemma Regrouped(a: seq<int>, b: seq<int>, c: seq<int>)
    ensures a + b + c == a + (b + c)
  {}

  lemma DistinctParts(a: seq<int>, b: seq<int>)
    requires Distinct(a + b)
    ensures Distinct(a) && Distinct(b) && forall x :: x in a ==> x !in b
  {
    var s := a + b;
    assert forall i :: 0 <= i < |a| ==> a[i] == s[i];
    assert forall i :: 0 <= i < |b| ==> b[i] == s[|a| + i];
    forall x | x in a ensures x !in b {
      var i :| 0 <= i < |a| && a[i] == x;
      assert s[i] == x;
    }
  }

  /** The parts of a distinct preorder. */
  lemma DistinctNode(f: Forest)
    requires f.Node? && Distinct(Preorder(f))
    ensures Distinct(Preorder(f.kids)) && Distinct(Preorder(f.rest))
    ensures f.id !in Preorder(f.kids) && f.id !in Preorder(f.rest)
    ensures forall x :: x in Preorder(f.kids) ==> x !in Preorder(f.rest)
  {
    DistinctParts([f.id] + Preorder(f.kids), Preorder(f.rest));
    DistinctParts([f.id], Preorder(f.kids));
    assert f.id in [f.id] + Preorder(f.kids);
  }

  /** A suffix of a list of siblings. */
  ghost predicate Suffix(a: Forest, b: Forest) {
    a == b || (b.Node? && Suffix(a, b.rest))
  }

  lemma {:induction false} SuffixTrans(a: Forest, b: Forest, c: Forest)
    requires Suffix(a, b) && Suffix(b, c)
    ensures Suffix(a, c)
  {
    if b != c { SuffixTrans(a, b, c.rest); }
  }

  /** What decides about the tree: which entries are symbols, which have a prompt text, and for a symbol and a later
      entry whether the dependency tests put the entry below the symbol. Each pair is tested at most once. */
  datatype Rules = Rules(symbol: seq<bool>, titled: seq<bool>, accepts: (int, int) -> bool)

  predicate IsSymbol(u: Rules, i: int) {
    0 <= i < |u.symbol| && u.symbol[i]
  }

  predicate Titled(u: Rules, i: int) {
    0 <= i < |u.titled| && u.titled[i]
  }

  // ---------------------------------------------------------------------------------------------------------------
  // Gathering: a symbol without children takes the later siblings that depend on it

  /** The children of `i` and its remaining siblings, given the children `k` and the siblings `r` it had. */
  function Gathered(u: Rules, i: int, k: Forest, r: Forest): (g: (Forest, Forest))
    ensures Size(g.1) <= Size(r)
    decreases Size(k) + Size(r), 1
  {
    if k.Node? then (GatheredList(u, k), r) else if IsSymbol(u, i) then GatheredBelow(u, i, r) else (Nil, r)
  }

  /** Every entry of a list in turn. */
  function GatheredList(u: Rules, f: Forest): Forest
    decreases Size(f), 0
  {
    if f.Nil? then Nil
    else
      var (kids, rest) := Gathered(u, f.id, f.kids, f.rest);
      Node(f.id, kids, GatheredList(u, rest))
  }

  /** What the symbol `i` takes of its later siblings, each gathered before the next is considered, and what it leaves.
      */
  function GatheredBelow(u: Rules, i: int, r: Forest): (g: (Forest, Forest))
    ensures Size(g.1) <= Size(r)
    decreases Size(r), 0
  {
    if r.Nil? || !u.accepts(i, r.id) then (Nil, r)
    else
      var (kids, rest) := Gathered(u, r.id, r.kids, r.rest);
      var (more, left) := GatheredBelow(u, i, rest);
      (Node(r.id, kids, more), left)
  }

  /** Gathering keeps depth-first order, and leaves a suffix of the siblings as it is. */
  lemma {:induction false} GatheredOrder(u: Rules, i: int, k: Forest, r: Forest)
    ensures var (kids, rest) := Gathered(u, i, k, r);
            Preorder(kids) + Preorder(rest) == Preorder(k) + Preorder(r) && Suffix(rest, r) && (k.Node? ==> rest == r)
    decreases Size(k) + Size(r), 1
  {
    if k.Node? {
      ListOrder(u, k);
    } else if IsSymbol(u, i) {
      BelowOrder(u, i, r);
    }
  }

  lemma {:induction false} ListOrder(u: Rules, f: Forest)
    ensures Preorder(GatheredList(u, f)) == Preorder(f)
    decreases Size(f), 0
  {
    if f.Node? {
      GatheredOrder(u, f.id, f.kids, f.rest);
      var (kids, rest) := Gathered(u, f.id, f.kids, f.rest);
      ListOrder(u, rest);
      Regrouped([f.id], Preorder(kids), Preorder(rest));
      Regrouped([f.id], Preorder(f.kids), Preorder(f.rest));
    }
  }

  lemma {:induction false} BelowOrder(u: Rules, i: int, r: Forest)
    ensures var (more, left) := GatheredBelow(u, i, r);
            Preorder(more) + Preorder(left) == Preorder(r) && Suffix(left, r)
    decreases Size(r), 0
  {
    if r.Node? && u.accepts(i, r.id) {
      GatheredOrder(u, r.id, r.kids, r.rest);
      var (kids, rest) := Gathered(u, r.id, r.kids, r.rest);
      BelowOrder(u, i, rest);
      var (more, left) := GatheredBelow(u, i, rest);
      FourParts([r.id], Preorder(kids), Preorder(more), Preorder(left), Preorder(rest));
      Regrouped([r.id], Preorder(r.kids), Preorder(r.rest));
      SuffixTrans(left, rest, r.rest);
    }
  }

  lemma FourParts(a: seq<int>, b: seq<int>, c: seq<int>, d: seq<int>, rest: seq<int>)
    requires c + d == rest
    ensures a + b + c + d == a + (b + rest)
  {}

  ghost function HeadOf(f: Forest, after: Option<int>): Option<int> {
    if f.Node? then Some(f.id) else after
  }

  /** All siblings of `f` pass the test of `i`. */
  ghost predicate AllAccepted(u: Rules, i: int, f: Forest) {
    f.Node? ==> u.accepts(i, f.id) && AllAccepted(u, i, f.rest)
  }

  /** The entries of `f` that have children are those of `had`. */
  ghost predicate Knows(had: set<int>, f: Forest) {
    f.Node? ==> (f.id in had <==> f.kids.Node?) && Knows(had, f.kids) && Knows(had, f.rest)
  }

  /** A gathered list that is followed by the entry `after`: an entry that had children keeps them, gathered; a symbol
      that had none has taken entries that pass its test, and the entry after what it took does not pass; no other entry
      has taken any. */
  ghost predicate Maximal(u: Rules, had: set<int>, f: Forest, after: Option<int>) {
    f.Node? ==>
      var following := HeadOf(f.rest, after);
      && Maximal(u, had, f.rest, after)
      && (f.id in had ==> Maximal(u, had, f.kids, None))
      && (f.id !in had && IsSymbol(u, f.id) ==>
            && AllAccepted(u, f.id, f.kids) && Maximal(u, had, f.kids, following)
            && (following.Some? ==> !u.accepts(f.id, following.value)))
      && (f.id !in had && !IsSymbol(u, f.id) ==> f.kids.Nil?)
  }

  /** Gathering takes exactly the maximal runs of entries that pass the tests. */
  lemma {:induction false} GatheredMaximal(u: Rules, had: set<int>, f: Forest)
    requires Knows(had, f)
    ensures Maximal(u, had, GatheredList(u, f), None)
    decreases Size(f), 0
  {
    if f.Node? {
      NodeMaximal(u, had, f);
      var (kids, rest) := Gathered(u, f.id, f.kids, f.rest);
      GatheredOrder(u, f.id, f.kids, f.rest);
      SuffixKnows(had, rest, f.rest);
      GatheredMaximal(u, had, rest);
      assert HeadOf(GatheredList(u, rest), None) == HeadOf(rest, None);
    }
  }

  lemma {:induction false} NodeMaximal(u: Rules, had: set<int>, f: Forest)
    requires f.Node? && Knows(had, f)
    ensures var (kids, rest) := Gathered(u, f.id, f.kids, f.rest);
            && (f.id in had ==> Maximal(u, had, kids, None))
            && (f.id !in had && IsSymbol(u, f.id) ==>
                  && AllAccepted(u, f.id, kids) && Maximal(u, had, kids, HeadOf(rest, None))
                  && (rest.Node? ==> !u.accepts(f.id, rest.id)))
            && (f.id !in had && !IsSymbol(u, f.id) ==> kids.Nil?)
    decreases Size(f.kids) + Size(f.rest), 1
  {
    if f.kids.Node? {
      GatheredMaximal(u, had, f.kids);
    } else if IsSymbol(u, f.id) {
      BelowMaximal(u, had, f.id, f.rest);
    }
  }

  lemma {:induction false} BelowMaximal(u: Rules, had: set<int>, i: int, r: Forest)
    requires Knows(had, r)
    ensures var (more, left) := GatheredBelow(u, i, r);
            && AllAccepted(u, i, more) && Maximal(u, had, more, HeadOf(left, None))
            && (left.Node? ==> !u.accepts(i, left.id)) && HeadOf(more, HeadOf(left, None)) == HeadOf(r, None)
    decreases Size(r), 0
  {
    if r.Node? && u.accepts(i, r.id) {
      NodeMaximal(u, had, r);
      GatheredOrder(u, r.id, r.kids, r.rest);
      var (kids, rest) := Gathered(u, r.id, r.kids, r.rest);
      SuffixKnows(had, rest, r.rest);
      BelowMaximal(u, had, i, rest);
    }
  }

  lemma {:induction false} SuffixKnows(had: set<int>, a: Forest, b: Forest)
    requires Suffix(a, b) && Knows(had, b)
    ensures Knows(had, a)
  {
    if a != b { SuffixKnows(had, a, b.rest); }
  }

  // ---------------------------------------------------------------------------------------------------------------
  // Dissolving: an entry without a prompt text gives its children to its parent, right behind itself

  function Dissolved(u: Rules, f: Forest): Forest {
    match f
    case Nil => Nil
    case Node(i, k, r) =>
      if Titled(u, i) then Node(i, Dissolved(u, k), Dissolved(u, r))
      else Node(i, Nil, Append(Dissolved(u, k), Dissolved(u, r)))
  }

  /** The siblings of `f` are left as they are, and dissolved below. */
  function DissolvedBelow(u: Rules, f: Forest): Forest {
    match f
    case Nil => Nil
    case Node(i, k, r) => Node(i, Dissolved(u, k), DissolvedBelow(u, r))
  }

  /** One pass along a list of siblings, as the last loop of menu_finalize makes it. */
  function Flattening(u: Rules, f: Forest): Forest
    decreases Size(f)
  {
    match f
    case Nil => Nil
    case Node(i, k, r) =>
      if Titled(u, i) then Node(i, k, Flattening(u, r))
      else
        SizeAppend(k, r);
        Node(i, Nil, Flattening(u, Append(k, r)))
  }

  /** Only entries with a prompt text have children, at any level. */
  ghost predicate Flat(u: Rules, f: Forest) {
    f.Node? ==> (f.kids.Nil? || Titled(u, f.id)) && Flat(u, f.kids) && Flat(u, f.rest)
  }

  lemma {:induction false} FlatAppend(u: Rules, a: Forest, b: Forest)
    requires Flat(u, a) && Flat(u, b)
    ensures Flat(u, Append(a, b))
  {
    if a.Node? { FlatAppend(u, a.rest, b); }
  }

  lemma {:induction false} DissolvedFlat(u: Rules, f: Forest)
    ensures Flat(u, Dissolved(u, f)) && Preorder(Dissolved(u, f)) == Preorder(f)
  {
    if f.Node? {
      DissolvedFlat(u, f.kids);
      DissolvedFlat(u, f.rest);
      FlatAppend(u, Dissolved(u, f.kids), Dissolved(u, f.rest));
      PreorderAppend(Dissolved(u, f.kids), Dissolved(u, f.rest));
      Regrouped([f.id], Preorder(f.kids), Preorder(f.rest));
    }
  }

  lemma {:induction false} BelowFlat(u: Rules, f: Forest)
    ensures Preorder(DissolvedBelow(u, f)) == Preorder(f)
  {
    if f.Node? {
      DissolvedFlat(u, f.kids);
      BelowFlat(u, f.rest);
    }
  }

  lemma {:induction false} FlatteningOrder(u: Rules, f: Forest)
    ensures Preorder(Flattening(u, f)) == Preorder(f)
    decreases Size(f)
  {
    if f.Node? {
      SizeAppend(f.kids, f.rest);
      if Titled(u, f.id) {
        FlatteningOrder(u, f.rest);
      } else {
        FlatteningOrder(u, Append(f.kids, f.rest));
        PreorderAppend(f.kids, f.rest);
        Regrouped([f.id], Preorder(f.kids), Preorder(f.rest));
        Regrouped([f.id], [], Preorder(f.kids) + Preorder(f.rest));
      }
    }
  }

  /** The pass does nothing to siblings that are flat already. */
  lemma {:induction false} FlatteningFlat(u: Rules, a: Forest, b: Forest)
    requires Flat(u, a)
    ensures Flattening(u, Append(a, b)) == Append(a, Flattening(u, b))
  {
    if a.Node? { FlatteningFlat(u, a.rest, b); }
  }

  /** The pass dissolves what is dissolved below. */
  lemma {:induction false} FlatteningDissolves(u: Rules, f: Forest)
    ensures Flattening(u, DissolvedBelow(u, f)) == Dissolved(u, f)
  {
    if f.Node? {
      FlatteningDissolves(u, f.rest);
      if !Titled(u, f.id) {
        DissolvedFlat(u, f.kids);
        FlatteningFlat(u, Dissolved(u, f.kids), DissolvedBelow(u, f.rest));
      }
    }
  }

  /** `x` is one of the siblings of `f`, with the children `k`. */
  ghost predicate HasSibling(f: Forest, x: int, k: Forest) {
    f.Node? && ((f.id == x && f.kids == k) || HasSibling(f.rest, x, k))
  }

  lemma {:induction false} SiblingAppend(a: Forest, b: Forest, x: int, k: Forest)
    ensures HasSibling(Append(a, b), x, k) <==> HasSibling(a, x, k) || HasSibling(b, x, k)
  {
    if a.Node? { SiblingAppend(a.rest, b, x, k); }
  }

  /** In a pass every sibling with a prompt text stays one with exactly the children it had; every other one stays one
      and has none. */
  lemma {:induction false} FlatteningKeeps(u: Rules, f: Forest, x: int, k: Forest)
    ensures HasSibling(f, x, k) ==> HasSibling(Flattening(u, f), x, if Titled(u, x) then k else Nil)
    ensures HasSibling(Flattening(u, f), x, k) && !Titled(u, x) ==> k.Nil?
    decreases Size(f)
  {
    if f.Node? {
      SizeAppend(f.kids, f.rest);
      if Titled(u, f.id) {
        FlatteningKeeps(u, f.rest, x, k);
      } else {
        FlatteningKeeps(u, Append(f.kids, f.rest), x, k);
        SiblingAppend(f.kids, f.rest, x, k);
      }
    }
  }

  // ---------------------------------------------------------------------------------------------------------------
  // Where the entries end up

  /** The parent of `x` in a list of siblings below `par`. */
  function ParentOf(f: Forest, par: int, x: int): int
    requires x in Preorder(f)
  {
    if x == f.id then par
    else if x in Preorder(f.kids) then ParentOf(f.kids, f.id, x)
    else ParentOf(f.rest, par, x)
  }

  /** The nearest ancestor of `x` that has a prompt text, or else `par`. */
  function NearestTitled(u: Rules, f: Forest, par: int, x: int): int
    requires x in Preorder(f)
  {
    if x == f.id then par
    else if x in Preorder(f.kids) then NearestTitled(u, f.kids, if Titled(u, f.id) then f.id else par, x)
    else NearestTitled(u, f.rest, par, x)
  }

  lemma {:induction false} ParentAppend(a: Forest, b: Forest, par: int, x: int)
    requires x in Preorder(a) || x in Preorder(b)
    ensures x in Preorder(Append(a, b))
    ensures ParentOf(Append(a, b), par, x) == if x in Preorder(a) then ParentOf(a, par, x) else ParentOf(b, par, x)
  {
    PreorderAppend(a, b);
    if a.Node? && x != a.id && x !in Preorder(a.kids) {
      ParentAppend(a.rest, b, par, x);
    }
  }

  /** After dissolving, the parent of every entry is its nearest ancestor with a prompt text. */
  lemma {:induction false} DissolvedParent(u: Rules, f: Forest, par: int, x: int)
    requires x in Preorder(f)
    ensures x in Preorder(Dissolved(u, f)) && ParentOf(Dissolved(u, f), par, x) == NearestTitled(u, f, par, x)
  {
    DissolvedFlat(u, f);
    DissolvedFlat(u, f.kids);
    DissolvedFlat(u, f.rest);
    if x != f.id {
      if x in Preorder(f.kids) {
        DissolvedParent(u, f.kids, if Titled(u, f.id) then f.id else par, x);
      } else {
        DissolvedParent(u, f.rest, par, x);
      }
      if !Titled(u, f.id) { ParentAppend(Dissolved(u, f.kids), Dissolved(u, f.rest), par, x); }
    }
  }

  /** The children of `x`. */
  function KidsOf(f: Forest, x: int): Forest
    requires x in Preorder(f)
  {
    if x == f.id then f.kids else if x in Preorder(f.kids) then KidsOf(f.kids, x) else KidsOf(f.rest, x)
  }

  /** An entry that has children keeps them when an entry before it is gathered: it is among the taken ones with its
      children gathered, or is left as it is. */
  lemma {:induction false} NodeKids(u: Rules, f: Forest, x: int)
    requires f.Node? && Distinct(Preorder(f)) && x in Preorder(f) && KidsOf(f, x).Node?
    ensures var (kids, rest) := Gathered(u, f.id, f.kids, f.rest);
            if x == f.id then kids == GatheredList(u, f.kids)
            else if x in Preorder(kids) then KidsOf(kids, x) == GatheredList(u, KidsOf(f, x))
            else x in Preorder(rest) && KidsOf(rest, x) == KidsOf(f, x)
    decreases Size(f.kids) + Size(f.rest), 1
  {
    DistinctNode(f);
    if x != f.id {
      if f.kids.Node? {
        ListOrder(u, f.kids);
        if x in Preorder(f.kids) { ListKids(u, f.kids, x); }
      } else if IsSymbol(u, f.id) {
        BelowKids(u, f.id, f.rest, x);
      }
    }
  }

  lemma {:induction false} BelowKids(u: Rules, i: int, r: Forest, x: int)
    requires Distinct(Preorder(r)) && x in Preorder(r) && KidsOf(r, x).Node?
    ensures var (more, left) := GatheredBelow(u, i, r);
            if x in Preorder(more) then KidsOf(more, x) == GatheredList(u, KidsOf(r, x))
            else x in Preorder(left) && KidsOf(left, x) == KidsOf(r, x)
    decreases Size(r), 0
  {
    if u.accepts(i, r.id) {
      var (kids, rest) := Gathered(u, r.id, r.kids, r.rest);
      NodeKids(u, r, x);
      GatheredParts(u, r);
      if x != r.id && x !in Preorder(kids) { BelowKids(u, i, rest, x); }
    }
  }

  /** What is gathered below an entry and what is left are distinct parts. */
  lemma GatheredParts(u: Rules, f: Forest)
    requires f.Node? && Distinct(Preorder(f))
    ensures var (kids, rest) := Gathered(u, f.id, f.kids, f.rest);
            && Distinct(Preorder(rest)) && f.id !in Preorder(kids) && f.id !in Preorder(rest)
            && forall x :: x in Preorder(kids) ==> x !in Preorder(rest)
  {
    GatheredOrder(u, f.id, f.kids, f.rest);
    var (kids, rest) := Gathered(u, f.id, f.kids, f.rest);
    Regrouped([f.id], Preorder(kids), Preorder(rest));
    Regrouped([f.id], Preorder(f.kids), Preorder(f.rest));
    assert Preorder(Node(f.id, kids, rest)) == Preorder(f);
    DistinctNode(Node(f.id, kids, rest));
  }

  lemma {:induction false} ListKids(u: Rules, f: Forest, x: int)
    requires Distinct(Preorder(f)) && x in Preorder(f) && KidsOf(f, x).Node?
    ensures x in Preorder(GatheredList(u, f)) && KidsOf(GatheredList(u, f), x) == GatheredList(u, KidsOf(f, x))
    decreases Size(f), 0
  {
    ListOrder(u, f);
    NodeKids(u, f, x);
    GatheredParts(u, f);
    var (kids, rest) := Gathered(u, f.id, f.kids, f.rest);
    if x != f.id && x !in Preorder(kids) { ListKids(u, rest, x); }
  }

  lemma {:induction false} KidsAppend(a: Forest, b: Forest, x: int)
    requires x in Preorder(a) || x in Preorder(b)
    ensures x in Preorder(Append(a, b))
    ensures KidsOf(Append(a, b), x) == if x in Preorder(a) then KidsOf(a, x) else KidsOf(b, x)
  {
    PreorderAppend(a, b);
    if a.Node? && x != a.id && x !in Preorder(a.kids) { KidsAppend(a.rest, b, x); }
  }

  /** Dissolving leaves the children of an entry with a prompt text below it. */
  lemma {:induction false} DissolvedKids(u: Rules, f: Forest, x: int)
    requires x in Preorder(f) && Titled(u, x)
    ensures x in Preorder(Dissolved(u, f)) && KidsOf(Dissolved(u, f), x) == Dissolved(u, KidsOf(f, x))
  {
    DissolvedFlat(u, f);
    DissolvedFlat(u, f.kids);
    DissolvedFlat(u, f.rest);
    if x != f.id {
      if x in Preorder(f.kids) { DissolvedKids(u, f.kids, x); } else { DissolvedKids(u, f.rest, x); }
      if !Titled(u, f.id) { KidsAppend(Dissolved(u, f.kids), Dissolved(u, f.rest), x); }
    }
  }

  /** An entry with a prompt text and with children has, when all is done, exactly the same entries below it. */
  lemma SubmenuKept(u: Rules, f: Forest, x: int)
    requires Distinct(Preorder(f)) && x in Preorder(f) && KidsOf(f, x).Node? && Titled(u, x)
    ensures var g := Dissolved(u, GatheredList(u, f));
            x in Preorder(g) && Preorder(KidsOf(g, x)) == Preorder(KidsOf(f, x))
  {
    ListKids(u, f, x);
    DissolvedKids(u, GatheredList(u, f), x);
    DissolvedFlat(u, GatheredList(u, KidsOf(f, x)));
    ListOrder(u, KidsOf(f, x));
  }
}
