/** The menu tree as first-child, next-sibling and parent links, the relinking done by menu_finalize (kconfig/menu.c)
    and the stackless walk of conf_write (kconfig/confdata.c). */
module Menu {
  import opened Basics
  import opened MenuTree

  const NULL: int := -1

  /** The links of all menu entries; an entry is an index. */
  datatype Links = Links(next: seq<int>, list: seq<int>, parent: seq<int>)

  ghost predicate Shaped(h: Links) {
    |h.next| == |h.list| == |h.parent|
  }

  /** The links from `head` on hold the siblings of `f`, below `par`, up to the entry `end`. */
  ghost predicate Holds(h: Links, f: Forest, head: int, par: int, end: int) {
    match f
    case Nil => head == end
    case Node(i, k, r) =>
      && head == i && Shaped(h) && 0 <= i < |h.next| && h.parent[i] == par
      && Holds(h, k, h.list[i], i, NULL) && Holds(h, r, h.next[i], par, end)
  }

  /** The last sibling. */
  function Last(f: Forest): int
    requires f.Node?
  {
    if f.rest.Nil? then f.id else Last(f.rest)
  }

  /** Links that differ only at the entries `s`. */
  ghost predicate Outside(h: Links, g: Links, s: seq<int>) {
    && Shaped(h) && Shaped(g) && |g.next| == |h.next|
    && forall j :: 0 <= j < |h.next| && j !in s ==>
      g.next[j] == h.next[j] && g.list[j] == h.list[j] && g.parent[j] == h.parent[j]
  }

  /** Siblings whose entries did not change are still held. */
  lemma {:induction false} Framed(h: Links, g: Links, s: seq<int>, f: Forest, head: int, par: int, end: int)
    requires Holds(h, f, head, par, end) && Outside(h, g, s) && forall x :: x in Preorder(f) ==> x !in s
    ensures Holds(g, f, head, par, end)
  {
    if f.Node? {
      assert f.id in Preorder(f);
      assert forall x :: x in Preorder(f.kids) || x in Preorder(f.rest) ==> x in Preorder(f);
      Framed(h, g, s, f.kids, h.list[f.id], f.id, NULL);
      Framed(h, g, s, f.rest, h.next[f.id], par, end);
    }
  }

  lemma {:induction false} HoldsAppend(h: Links, a: Forest, b: Forest, head: int, par: int, mid: int, end: int)
    requires Holds(h, a, head, par, mid) && Holds(h, b, mid, par, end)
    ensures Holds(h, Append(a, b), head, par, end)
  {
    if a.Node? { HoldsAppend(h, a.rest, b, h.next[a.id], par, mid, end); }
  }

  lemma Emptiness(h: Links, f: Forest, head: int, par: int)
    requires Holds(h, f, head, par, NULL)
    ensures f.Nil? <==> head == NULL
  {}

  /** The links determine the forest. */
  lemma {:induction false} HoldsUnique(h: Links, f: Forest, g: Forest, head: int, par: int)
    requires Holds(h, f, head, par, NULL) && Holds(h, g, head, par, NULL)
    ensures f == g
  {
    if f.Node? {
      HoldsUnique(h, f.kids, g.kids, h.list[f.id], f.id);
      HoldsUnique(h, f.rest, g.rest, h.next[f.id], par);
    }
  }

  lemma {:induction false} LastIn(f: Forest)
    requires f.Node?
    ensures Last(f) in Preorder(f)
  {
    if f.rest.Node? { LastIn(f.rest); }
  }

  /** Changing the link of the last sibling moves the end of the list. */
  lemma {:induction false} EndMoved(h: Links, f: Forest, head: int, par: int, end: int, other: int)
    requires f.Node? && Holds(h, f, head, par, end) && Distinct(Preorder(f))
    ensures 0 <= Last(f) < |h.next| && h.next[Last(f)] == end
    ensures Holds(h.(next := h.next[Last(f) := other]), f, head, par, other)
  {
    DistinctNode(f);
    LastIn(f);
    if f.rest.Node? {
      LastIn(f.rest);
      EndMoved(h, f.rest, h.next[f.id], par, end, other);
    }
    var g := h.(next := h.next[Last(f) := other]);
    Framed(h, g, [Last(f)], f.kids, h.list[f.id], f.id, NULL);
  }

  lemma {:induction false} AppendOne(a: Forest, i: int, k: Forest, r: Forest)
    ensures Preorder(Append(a, Node(i, k, Nil))) + Preorder(r) == Preorder(a) + Preorder(Node(i, k, r))
    ensures Append(a, Node(i, k, Nil)).Node? && Last(Append(a, Node(i, k, Nil))) == i
  {
    PreorderAppend(a, Node(i, k, Nil));
    AppendLast(a, i, k);
  }

  lemma {:induction false} AppendLast(a: Forest, i: int, k: Forest)
    ensures Append(a, Node(i, k, Nil)).Node? && Last(Append(a, Node(i, k, Nil))) == i
  {
    if a.Node? { AppendLast(a.rest, i, k); }
  }

  lemma {:induction false} AppendAssoc(a: Forest, b: Forest)
    requires b.Node?
    ensures Append(Append(a, Node(b.id, b.kids, Nil)), b.rest) == Append(a, b)
  {
    if a.Node? { AppendAssoc(a.rest, b); }
  }

  /** Giving the first sibling of `cur` another parent. */
  lemma MovedUnder(h: Links, done: Forest, cur: Forest, first: int, par: int, p: int)
    requires cur.Node? && Holds(h, done, first, p, cur.id) && Holds(h, cur, cur.id, par, NULL)
    requires Distinct(Preorder(cur)) && forall x :: x in Preorder(done) ==> x !in Preorder(cur)
    ensures var g := h.(parent := h.parent[cur.id := p]);
            && Holds(g, done, first, p, cur.id)
            && Holds(g, Node(cur.id, cur.kids, Nil), cur.id, p, g.next[cur.id])
            && Holds(g, cur.rest, g.next[cur.id], par, NULL)
  {
    var g := h.(parent := h.parent[cur.id := p]);
    DistinctNode(cur);
    assert cur.id in Preorder(cur);
    Framed(h, g, [cur.id], done, first, p, cur.id);
    Framed(h, g, [cur.id], cur.kids, h.list[cur.id], cur.id, NULL);
    Framed(h, g, [cur.id], cur.rest, h.next[cur.id], par, NULL);
  }

  /** The siblings `done` and then `cur`, below `par`, hold what `k` held. */
  ghost predicate Halves(h: Links, k: Forest, done: Forest, cur: Forest, head: int, par: int, m: int) {
    && Shaped(h) && Holds(h, done, head, par, m) && Holds(h, cur, m, par, NULL)
    && Preorder(done) + Preorder(cur) == Preorder(k)
  }

  ghost function First(f: Forest): Forest
    requires f.Node?
  {
    Node(f.id, f.kids, Nil)
  }

  /** Passing over one sibling. */
  lemma Pass(h: Links, k: Forest, done: Forest, cur: Forest, head: int, par: int, m: int)
    requires m != NULL && Halves(h, k, done, cur, head, par, m)
    ensures cur.Node? && 0 <= m < |h.next| && Halves(h, k, Append(done, First(cur)), cur.rest, head, par, h.next[m])
    ensures |Preorder(cur.rest)| < |Preorder(cur)|
  {
    Emptiness(h, cur, m, par);
    HoldsAppend(h, done, First(cur), head, par, m, h.next[m]);
    AppendOne(done, cur.id, cur.kids, cur.rest);
  }

  /** At the end of the siblings. */
  lemma AllPassed(h: Links, k: Forest, done: Forest, cur: Forest, head: int, par: int)
    requires Halves(h, k, done, cur, head, par, NULL)
    ensures Holds(h, done, head, par, NULL) && Preorder(done) == Preorder(k)
  {
    Emptiness(h, cur, NULL, par);
    assert Preorder(done) + [] == Preorder(done);
  }

  lemma SmallerPart(k: Forest, done: Forest, cur: Forest)
    requires Preorder(done) + Preorder(cur) == Preorder(k)
    ensures |Preorder(cur)| <= |Preorder(k)|
  {}

  /** A change in the second half keeps both. */
  lemma SecondChanged(
    h: Links, g: Links, k: Forest, done: Forest, cur: Forest, now: Forest, head: int, par: int, m: int)
    requires Distinct(Preorder(k)) && Halves(h, k, done, cur, head, par, m)
    requires Outside(h, g, Preorder(cur)) && Holds(g, now, m, par, NULL) && Preorder(now) == Preorder(cur)
    ensures Halves(g, k, done, now, head, par, m) && Outside(h, g, Preorder(k))
  {
    DistinctParts(Preorder(done), Preorder(cur));
    Framed(h, g, Preorder(cur), done, head, par, m);
    assert forall x :: x in Preorder(cur) ==> x in Preorder(k);
  }

  lemma OutsideTrans(h: Links, g: Links, f: Links, s: seq<int>)
    requires Outside(h, g, s) && Outside(g, f, s)
    ensures Outside(h, f, s)
  {}

  lemma OutsideWider(h: Links, g: Links, s: seq<int>, t: seq<int>)
    requires Outside(h, g, s) && forall x :: x in s ==> x in t
    ensures Outside(h, g, t)
  {}

  /** The children of an entry, already below its parent, are put between it and its next sibling. */
  function Spliced(h: Links, m: int, last: int): Links
    requires Shaped(h) && 0 <= m < |h.next| && 0 <= last < |h.next|
  {
    var joined := h.next[last := h.next[m]];
    Links(joined[m := h.list[m]], h.list[m := NULL], h.parent)
  }

  function Flattened(cur: Forest): Forest
    requires cur.Node?
  {
    Node(cur.id, Nil, Append(cur.kids, cur.rest))
  }

  lemma FlattenedOrder(cur: Forest)
    requires cur.Node?
    ensures Preorder(Flattened(cur)) == Preorder(cur)
  {
    PreorderAppend(cur.kids, cur.rest);
  }

  /** Only the children of the first sibling of `cur` changed: they are below `par` now. */
  lemma KidsMoved(h: Links, g: Links, cur: Forest, par: int)
    requires cur.Node? && Holds(h, cur, cur.id, par, NULL)
    requires Distinct(Preorder(cur)) && Outside(h, g, Preorder(cur.kids))
    ensures 0 <= cur.id < |h.next| && g.parent[cur.id] == par
    ensures g.next[cur.id] == h.next[cur.id] && g.list[cur.id] == h.list[cur.id]
    ensures Holds(g, cur.rest, g.next[cur.id], par, NULL) && Outside(h, g, Preorder(cur))
  {
    DistinctNode(cur);
    Framed(h, g, Preorder(cur.kids), cur.rest, h.next[cur.id], par, NULL);
    OutsideWider(h, g, Preorder(cur.kids), Preorder(cur));
  }

  lemma SplicedHolds(h: Links, cur: Forest, par: int)
    requires Shaped(h) && cur.Node? && cur.kids.Node? && Distinct(Preorder(cur))
    requires 0 <= cur.id < |h.next| && h.parent[cur.id] == par
    requires Holds(h, cur.kids, h.list[cur.id], par, NULL) && Holds(h, cur.rest, h.next[cur.id], par, NULL)
    ensures 0 <= Last(cur.kids) < |h.next| && Outside(h, Spliced(h, cur.id, Last(cur.kids)), Preorder(cur))
    ensures Holds(Spliced(h, cur.id, Last(cur.kids)), Flattened(cur), cur.id, par, NULL)
  {
    var m, last := cur.id, Last(cur.kids);
    DistinctNode(cur);
    LastIn(cur.kids);
    EndMoved(h, cur.kids, h.list[m], par, NULL, h.next[m]);
    var joined := h.(next := h.next[last := h.next[m]]);
    Framed(h, joined, [last], cur.rest, h.next[m], par, NULL);
    HoldsAppend(joined, cur.kids, cur.rest, h.list[m], par, h.next[m], NULL);
    PreorderAppend(cur.kids, cur.rest);
    Framed(joined, Spliced(h, m, last), [m], Append(cur.kids, cur.rest), h.list[m], par, NULL);
  }

  /** The siblings `done`, already below `i`, and then `cur`, below `par`, hold what `r` held. */
  ghost predicate Taken(h: Links, r: Forest, done: Forest, cur: Forest, head: int, i: int, par: int, m: int) {
    && Shaped(h) && Holds(h, done, head, i, m) && Holds(h, cur, m, par, NULL)
    && Preorder(done) + Preorder(cur) == Preorder(r)
  }

  /** The siblings of `i` up to `last` become its children. */
  function Adopted(h: Links, i: int, last: int): Links
    requires Shaped(h) && 0 <= i < |h.next| && 0 <= last < |h.next|
  {
    h.(list := h.list[i := h.next[i]], next := h.next[i := h.next[last]][last := NULL])
  }

  lemma AdoptedHolds(h: Links, r: Forest, done: Forest, cur: Forest, i: int, par: int, m: int)
    requires Shaped(h) && 0 <= i < |h.next| && Taken(h, r, done, cur, h.next[i], i, par, m)
    requires done.Node? && Distinct(Preorder(r)) && i !in Preorder(r)
    ensures 0 <= Last(done) < |h.next|
    ensures var g := Adopted(h, i, Last(done));
            && Holds(g, done, g.list[i], i, NULL) && Holds(g, cur, g.next[i], par, NULL)
            && g.parent == h.parent && Outside(h, g, [i] + Preorder(r))
  {
    DistinctParts(Preorder(done), Preorder(cur));
    LastIn(done);
    EndMoved(h, done, h.next[i], i, m, NULL);
    var last := Last(done);
    var ended := h.(next := h.next[last := NULL]);
    var g := Adopted(h, i, last);
    Framed(ended, g, [i], done, h.next[i], i, NULL);
    Framed(h, g, [i, last], cur, m, par, NULL);
  }

  lemma OrderOf(i: int, kids: Forest, rest: Forest, r: Forest)
    requires Preorder(kids) + Preorder(rest) == Preorder(r)
    ensures Preorder(Node(i, kids, rest)) == Preorder(Node(i, Nil, r)) == [i] + Preorder(r)
  {
    Regrouped([i], Preorder(kids), Preorder(rest));
    Regrouped([i], [], Preorder(r));
    assert [] + Preorder(r) == Preorder(r);
  }

  /** Only what is below `i` changed. */
  lemma KidsChanged(h: Links, g: Links, i: int, k: Forest, kids: Forest, r: Forest, par: int)
    requires Holds(h, Node(i, k, r), i, par, NULL) && Distinct(Preorder(Node(i, k, r))) && Outside(h, g, Preorder(k))
    requires Holds(g, kids, g.list[i], i, NULL) && Preorder(kids) == Preorder(k)
    ensures Holds(g, Node(i, kids, r), i, par, NULL) && Preorder(Node(i, kids, r)) == Preorder(Node(i, k, r))
    ensures Outside(h, g, Preorder(Node(i, k, r)))
  {
    KidsMoved(h, g, Node(i, k, r), par);
  }

  // ---------------------------------------------------------------------------------------------------------------
  // The walk

  /** Coming to an entry, and leaving an entry whose children were walked. */
  datatype Event = Enter(id: int) | Leave(id: int)

  /** The nested order of a walk. */
  function Walked(f: Forest): seq<Event> {
    match f
    case Nil => []
    case Node(i, k, r) => [Enter(i)] + (if k.Nil? then [] else Walked(k) + [Leave(i)]) + Walked(r)
  }

  function Entered(es: seq<Event>): seq<int> {
    if es == [] then [] else (if es[0].Enter? then [es[0].id] else []) + Entered(es[1..])
  }

  lemma {:induction false} EnteredConcat(a: seq<Event>, b: seq<Event>)
    ensures Entered(a + b) == Entered(a) + Entered(b)
  {
    if a == [] {
      assert a + b == b;
    } else {
      assert (a + b)[1..] == a[1..] + b && (a + b)[0] == a[0];
      EnteredConcat(a[1..], b);
      Regrouped(if a[0].Enter? then [a[0].id] else [], Entered(a[1..]), Entered(b));
    }
  }

  /** A walk enters each entry once, in depth-first order. */
  lemma {:induction false} WalkedPreorder(f: Forest)
    ensures Entered(Walked(f)) == Preorder(f)
  {
    if f.Node? {
      var below := if f.kids.Nil? then [] else Walked(f.kids) + [Leave(f.id)];
      WalkedPreorder(f.kids);
      WalkedPreorder(f.rest);
      EnteredConcat([Enter(f.id)] + below, Walked(f.rest));
      EnteredConcat([Enter(f.id)], below);
      EnteredConcat(Walked(f.kids), [Leave(f.id)]);
    }
  }

  /** An entry whose children are being walked, with its later siblings. */
  datatype Frame = Frame(id: int, rest: Forest)

  /** The entries being walked, innermost first, from `par` up to the root. */
  ghost predicate Above(h: Links, root: int, par: int, stack: seq<Frame>)
    decreases stack
  {
    if stack == [] then par == root
    else
      && stack[0].id == par && par != root && Shaped(h) && 0 <= par < |h.next| && root !in Preorder(stack[0].rest)
      && Holds(h, stack[0].rest, h.next[par], h.parent[par], NULL) && Above(h, root, h.parent[par], stack[1..])
  }

  /** What is left of a walk when the innermost children are done. */
  ghost function Remaining(stack: seq<Frame>): seq<Event> {
    if stack == [] then [] else [Leave(stack[0].id)] + Walked(stack[0].rest) + Remaining(stack[1..])
  }

  ghost function StackWeight(stack: seq<Frame>): nat {
    if stack == [] then 0 else |Preorder(stack[0].rest)| + StackWeight(stack[1..])
  }

  /** Where a walk is: at the first of the siblings `cur`, below `par`. */
  datatype Place = Place(cur: Forest, par: int, stack: seq<Frame>)

  ghost function Weight(p: Place): nat {
    |Preorder(p.cur)| + StackWeight(p.stack)
  }

  /** What is left of a walk. */
  ghost function Due(p: Place): seq<Event> {
    Walked(p.cur) + Remaining(p.stack)
  }

  ghost function Down(p: Place): Place
    requires p.cur.Node?
  {
    Place(p.cur.kids, p.cur.id, [Frame(p.cur.id, p.cur.rest)] + p.stack)
  }

  lemma DueDown(p: Place)
    requires p.cur.Node? && p.cur.kids.Node?
    ensures Due(p) == [Enter(p.cur.id)] + Due(Down(p)) && Weight(Down(p)) < Weight(p)
  {
    var deeper := Down(p).stack;
    assert deeper[1..] == p.stack;
    assert Remaining(deeper) == [Leave(p.cur.id)] + Walked(p.cur.rest) + Remaining(p.stack);
  }

  lemma DueNext(p: Place)
    requires p.cur.Node? && p.cur.kids.Nil?
    ensures Due(p) == [Enter(p.cur.id)] + Due(p.(cur := p.cur.rest)) && Weight(p.(cur := p.cur.rest)) < Weight(p)
    ensures p.cur.rest.Nil? ==> Due(p) == [Enter(p.cur.id)] + Remaining(p.stack) && StackWeight(p.stack) < Weight(p)
  {
    assert Walked(p.cur) == [Enter(p.cur.id)] + Walked(p.cur.rest);
  }

  /** Leaving the innermost entry being walked. */
  lemma Popped(events: seq<Event>, stack: seq<Frame>, par: int)
    requires stack != []
    ensures var q := Place(stack[0].rest, par, stack[1..]);
            events + Remaining(stack) == events + [Leave(stack[0].id)] + Due(q) && Weight(q) == StackWeight(stack)
    ensures stack[0].rest.Nil? ==>
              events + Remaining(stack) == events + [Leave(stack[0].id)] + Remaining(stack[1..]) &&
              StackWeight(stack[1..]) == StackWeight(stack)
  {
    var q := Place(stack[0].rest, par, stack[1..]);
    assert Remaining(stack) == [Leave(stack[0].id)] + Due(q);
    Regroup(events, [Leave(stack[0].id)], Due(q));
    if stack[0].rest.Nil? { assert Due(q) == Remaining(stack[1..]); }
  }

  lemma Regroup(a: seq<Event>, b: seq<Event>, c: seq<Event>)
    ensures a + (b + c) == a + b + c
  {}

  class Menus {
    var next: seq<int>
    var list: seq<int>
    var parent: seq<int>
    const rules: Rules

    constructor (h: Links, rules: Rules)
      ensures View() == h && this.rules == rules
    {
      next, list, parent, this.rules := h.next, h.list, h.parent, rules;
    }

    ghost function View(): Links
      reads this
    {
      Links(next, list, parent)
    }

    ghost predicate Ok()
      reads this
    {
      Shaped(View()) && |rules.symbol| == |rules.titled| == |next|
    }

    /** `k` is held as the children of `i`, and `i` is not below itself. */
    ghost predicate Below(i: int, k: Forest)
      reads this
    {
      Ok() && 0 <= i < |list| && Holds(View(), k, list[i], i, NULL) && Distinct(Preorder(k)) && i !in Preorder(k)
    }

    /** The walk is at the entry `m`, the first of the siblings `cur` below `par`. */
    ghost predicate At(root: int, m: int, p: Place)
      reads this
    {
      && Ok() && p.cur.Node? && root !in Preorder(p.cur)
      && Holds(View(), p.cur, m, p.par, NULL) && Above(View(), root, p.par, p.stack)
    }

    ghost predicate IsRoot(root: int)
      reads this
    {
      Ok() && 0 <= root < |next| && next[root] == NULL && parent[root] == NULL
    }

    /** From the last child of an entry up to the next entry to visit, or to the end. */
    method Climb(root: int, from: int, ghost stack: seq<Frame>) returns (m: int, events: seq<Event>, ghost q: Place)
      requires IsRoot(root) && Above(View(), root, from, stack)
      ensures m == NULL ==> events == Remaining(stack)
      ensures m != NULL ==> At(root, m, q) && events + Due(q) == Remaining(stack) && Weight(q) <= StackWeight(stack)
    {
      m, events, q := from, [], Place(Nil, from, stack);
      ghost var above := stack;
      while m != NULL
        invariant m != NULL ==> Above(View(), root, m, above)
        invariant m == NULL ==> above == []
        invariant events + Remaining(above) == Remaining(stack)
        invariant StackWeight(above) <= StackWeight(stack)
        decreases m != NULL, |above|
      {
        if m != root {
          Popped(events, above, parent[m]);
          events := events + [Leave(m)];
          Emptiness(View(), above[0].rest, next[m], parent[m]);
        }
        if next[m] != NULL {
          q := Place(above[0].rest, parent[m], above[1..]);
          m := next[m];
          return;
        }
        if m != root {
          above := above[1..];
        }
        m := parent[m];
      }
    }

    /** From one entry to the next. */
    method Advance(root: int, m: int, ghost p: Place) returns (n: int, events: seq<Event>, ghost q: Place)
      requires IsRoot(root) && At(root, m, p)
      ensures n == NULL ==> [Enter(m)] + events == Due(p)
      ensures n != NULL ==> At(root, n, q) && [Enter(m)] + events + Due(q) == Due(p) && Weight(q) < Weight(p)
    {
      n, events := NULL, [];
      Emptiness(View(), p.cur.kids, list[m], m);
      Emptiness(View(), p.cur.rest, next[m], p.par);
      if list[m] != NULL {
        DueDown(p);
        n, q := list[m], Down(p);
        assert q.stack[1..] == p.stack;
      } else {
        DueNext(p);
        if next[m] != NULL {
          n, q := next[m], p.(cur := p.cur.rest);
        } else {
          n, events, q := Climb(root, parent[m], p.stack);
        }
      }
    }

    /** The loop of conf_write: it comes to an end, and visits the children of the root in nested order. */
    method Walk(root: int, ghost k: Forest) returns (trace: seq<Event>)
      requires IsRoot(root) && Below(root, k)
      ensures trace == Walked(k)
    {
      var m := list[root];
      trace := [];
      ghost var p := Place(k, root, []);
      while m != NULL
        invariant m == NULL ==> trace == Walked(k)
        invariant m != NULL ==> At(root, m, p) && trace + Due(p) == Walked(k)
        decreases m != NULL, Weight(p)
      {
        var n, events;
        ghost var q;
        n, events, q := Advance(root, m, p);
        Regroup(trace, [Enter(m)] + events, if n == NULL then [] else Due(q));
        trace := trace + ([Enter(m)] + events);
        m, p := n, q;
      }
    }

    // -------------------------------------------------------------------------------------------------------------
    // menu_finalize

    /** The loop that moves the siblings `f` below another parent; it ends at the last of them. */
    method Reparent(first: int, ghost f: Forest, ghost par: int, p: int) returns (last: int)
      requires Ok() && f.Node? && Holds(View(), f, first, par, NULL) && Distinct(Preorder(f))
      modifies `parent
      ensures Ok() && last == Last(f) && Holds(View(), f, first, p, NULL)
      ensures Outside(old(View()), View(), Preorder(f))
    {
      last := first;
      ghost var done, cur := Nil, f;
      while true
        invariant Ok() && cur.Node? && Last(cur) == Last(f) && f == Append(done, cur)
        invariant Holds(View(), done, first, p, last) && Holds(View(), cur, last, par, NULL)
        invariant Outside(old(View()), View(), Preorder(f))
        decreases cur
      {
        ghost var before := View();
        PreorderAppend(done, cur);
        DistinctParts(Preorder(done), Preorder(cur));
        DistinctNode(cur);
        parent := parent[last := p];
        MovedUnder(before, done, cur, first, par, p);
        Emptiness(View(), cur.rest, next[last], par);
        ghost var one := Node(cur.id, cur.kids, Nil);
        HoldsAppend(View(), done, one, first, p, last, next[last]);
        if next[last] == NULL {
          break;
        }
        AppendAssoc(done, cur);
        done, cur := Append(done, one), cur.rest;
        last := next[last];
      }
    }

    /** Moving the children of an entry behind it, below its parent. */
    method FlattenOne(i: int, m: int, ghost cur: Forest) returns (ghost flat: Forest)
      requires Ok() && cur.Node? && cur.kids.Node? && Holds(View(), cur, m, i, NULL) && Distinct(Preorder(cur))
      modifies `next, `list, `parent
      ensures Ok() && flat == Flattened(cur) && Holds(View(), flat, m, i, NULL)
      ensures Outside(old(View()), View(), Preorder(cur)) && Preorder(flat) == Preorder(cur)
    {
      DistinctNode(cur);
      flat := Flattened(cur);
      FlattenedOrder(cur);
      var last := Reparent(list[m], cur.kids, m, i);
      ghost var moved := View();
      KidsMoved(old(View()), moved, cur, i);
      SplicedHolds(moved, cur, i);
      next := next[last := next[m]];
      next := next[m := list[m]];
      list := list[m := NULL];
      assert View() == Spliced(moved, m, last);
      OutsideTrans(old(View()), moved, View(), Preorder(cur));
    }

    /** A round of the last loop of menu_finalize. */
    method FlattenAt(i: int, m: int, ghost k: Forest, ghost done: Forest, ghost cur: Forest) returns (ghost now: Forest)
      requires Ok() && 0 <= i < |list| && i !in Preorder(k) && Distinct(Preorder(k))
      requires m != NULL && Halves(View(), k, done, cur, list[i], i, m)
      modifies `next, `list, `parent
      ensures Ok() && list[i] == old(list[i]) && Halves(View(), k, done, now, list[i], i, m)
      ensures Outside(old(View()), View(), Preorder(k))
      ensures now.Node? && Flattening(rules, cur) == Node(now.id, now.kids, Flattening(rules, now.rest))
      ensures |Preorder(now)| == |Preorder(cur)|
    {
      now := cur;
      Pass(View(), k, done, cur, list[i], i, m);
      Emptiness(View(), cur.kids, list[m], m);
      if list[m] != NULL && !rules.titled[m] {
        DistinctParts(Preorder(done), Preorder(cur));
        now := FlattenOne(i, m, cur);
        SecondChanged(old(View()), View(), k, done, cur, now, old(list[i]), i, m);
      }
    }

    /** The last loop of menu_finalize: every child of `i` without a prompt text gives its children to `i`, and every
        other one keeps exactly those it has. */
    method FlattenChildren(i: int, ghost k: Forest) returns (ghost flat: Forest)
      requires Below(i, k)
      modifies `next, `list, `parent
      ensures Below(i, flat) && Preorder(flat) == Preorder(k) && flat == Flattening(rules, k)
      ensures forall x, kids :: HasSibling(k, x, kids) && Titled(rules, x) ==> HasSibling(flat, x, kids)
      ensures forall x, kids :: HasSibling(flat, x, kids) && !Titled(rules, x) ==> kids.Nil?
      ensures Outside(old(View()), View(), Preorder(k))
    {
      var m := list[i];
      ghost var done, cur := Nil, k;
      while m != NULL
        invariant Ok() && Halves(View(), k, done, cur, list[i], i, m)
        invariant Append(done, Flattening(rules, cur)) == Flattening(rules, k)
        invariant Outside(old(View()), View(), Preorder(k))
        decreases |Preorder(cur)|
      {
        ghost var before := View();
        cur := FlattenAt(i, m, k, done, cur);
        OutsideTrans(old(View()), before, View(), Preorder(k));
        Pass(View(), k, done, cur, list[i], i, m);
        AppendAssoc(done, Node(cur.id, cur.kids, Flattening(rules, cur.rest)));
        done, cur, m := Append(done, First(cur)), cur.rest, next[m];
      }
      AllPassed(View(), k, done, cur, list[i], i);
      Emptiness(View(), cur, m, i);
      AppendNil(done);
      flat := done;
      forall x, kids ensures HasSibling(k, x, kids) && Titled(rules, x) ==> HasSibling(flat, x, kids)
      {
        FlatteningKeeps(rules, k, x, kids);
      }
      forall x, kids ensures HasSibling(flat, x, kids) && !Titled(rules, x) ==> kids.Nil?
      {
        FlatteningKeeps(rules, k, x, kids);
      }
    }

    method FinalizeAt(i: int, m: int, ghost k: Forest, ghost done: Forest, ghost cur: Forest)
      returns (ghost now: Forest)
      requires Ok() && 0 <= i < |list| && i !in Preorder(k) && Distinct(Preorder(k))
      requires m != NULL && Halves(View(), k, done, cur, list[i], i, m)
      modifies `next, `list, `parent
      ensures Ok() && list[i] == old(list[i]) && Halves(View(), k, done, now, list[i], i, m)
      ensures Outside(old(View()), View(), Preorder(k))
      ensures cur.Node? && now == Done(cur) && |Preorder(now)| == |Preorder(cur)|
      decreases |Preorder(k)|, 2
    {
      Pass(View(), k, done, cur, list[i], i, m);
      DistinctParts(Preorder(done), Preorder(cur));
      SmallerPart(k, done, cur);
      ghost var mk, mr := Finalize(m, cur.kids, cur.rest, i);
      now := Node(m, mk, mr);
      SecondChanged(old(View()), View(), k, done, cur, now, old(list[i]), i, m);
    }

    /** The first entry of a list finalized. */
    ghost function Done(f: Forest): Forest
      requires f.Node?
    {
      var (kids, rest) := Gathered(rules, f.id, f.kids, f.rest);
      Node(f.id, Dissolved(rules, kids), rest)
    }

    /** All entries of a list finalized. */
    ghost function AllDone(f: Forest): Forest {
      DissolvedBelow(rules, GatheredList(rules, f))
    }

    /** menu_finalize of every child of `i` in turn; a child may take later ones below it. */
    method FinalizeChildren(i: int, ghost k: Forest) returns (ghost kids: Forest)
      requires Below(i, k)
      modifies `next, `list, `parent
      ensures Below(i, kids) && Preorder(kids) == Preorder(k) && kids == AllDone(k)
      ensures Outside(old(View()), View(), Preorder(k))
      decreases |Preorder(k)|, 3
    {
      var m := list[i];
      ghost var done, cur := Nil, k;
      while m != NULL
        invariant Ok() && list[i] == old(list[i]) && Halves(View(), k, done, cur, list[i], i, m)
        invariant Append(done, AllDone(cur)) == AllDone(k)
        invariant Outside(old(View()), View(), Preorder(k))
        decreases |Preorder(cur)|
      {
        ghost var before, was := View(), cur;
        cur := FinalizeAt(i, m, k, done, cur);
        OutsideTrans(old(View()), before, View(), Preorder(k));
        Pass(View(), k, done, cur, list[i], i, m);
        AppendAssoc(done, AllDone(was));
        done, cur, m := Append(done, First(cur)), cur.rest, next[m];
      }
      AllPassed(View(), k, done, cur, list[i], i);
      Emptiness(View(), cur, m, i);
      AppendNil(done);
      kids := done;
    }

    /** A round of the loop over the entries after a symbol: the entry `m` is finalized and moved below `i`. */
    method AdoptOne(i: int, m: int, ghost cur: Forest, ghost par: int) returns (ghost mk: Forest, ghost mr: Forest)
      requires Ok() && m != NULL && Holds(View(), cur, m, par, NULL) && Distinct(Preorder(cur))
      modifies `next, `list, `parent
      ensures Ok() && 0 <= m < |next| && Preorder(Node(m, mk, mr)) == Preorder(cur)
      ensures Holds(View(), Node(m, mk, Nil), m, i, next[m]) && Holds(View(), mr, next[m], par, NULL)
      ensures Outside(old(View()), View(), Preorder(cur))
      ensures cur.Node? && Node(m, mk, mr) == Done(cur)
      decreases |Preorder(cur)|, 2
    {
      mk, mr := Finalize(m, cur.kids, cur.rest, par);
      ghost var h, now := View(), Node(m, mk, mr);
      MovedUnder(h, Nil, now, m, par, i);
      parent := parent[m := i];
    }

    method AdoptAt(i: int, m: int, ghost r: Forest, ghost done: Forest, ghost cur: Forest, ghost par: int)
      returns (ghost mk: Forest, ghost mr: Forest)
      requires Ok() && 0 <= i < |next| && i !in Preorder(r) && Distinct(Preorder(r))
      requires m != NULL && Taken(View(), r, done, cur, next[i], i, par, m)
      modifies `next, `list, `parent
      ensures Ok() && 0 <= m < |next| && next[i] == old(next[i])
      ensures Taken(View(), r, Append(done, Node(m, mk, Nil)), mr, next[i], i, par, next[m])
      ensures Outside(old(View()), View(), Preorder(r))
      ensures cur.Node? && Node(m, mk, mr) == Done(cur) && |Preorder(mr)| < |Preorder(cur)|
      decreases |Preorder(r)|, 3
    {
      DistinctParts(Preorder(done), Preorder(cur));
      SmallerPart(r, done, cur);
      mk, mr := AdoptOne(i, m, cur, par);
      OutsideWider(old(View()), View(), Preorder(cur), Preorder(r));
      Framed(old(View()), View(), Preorder(cur), done, next[i], i, m);
      HoldsAppend(View(), done, Node(m, mk, Nil), next[i], i, m, next[m]);
      AppendOne(done, m, mk, mr);
    }

    /** What is taken so far and what will be taken of `cur` is what is taken of `r`. */
    ghost predicate OnTheWay(i: int, r: Forest, done: Forest, cur: Forest) {
      var (now, left) := GatheredBelow(rules, i, cur);
      var (all, rest) := GatheredBelow(rules, i, r);
      left == rest && Append(done, DissolvedBelow(rules, now)) == DissolvedBelow(rules, all)
    }

    lemma OnTheWayStep(i: int, r: Forest, done: Forest, cur: Forest, mk: Forest, mr: Forest)
      requires cur.Node? && OnTheWay(i, r, done, cur) && rules.accepts(i, cur.id) && Node(cur.id, mk, mr) == Done(cur)
      ensures OnTheWay(i, r, Append(done, Node(cur.id, mk, Nil)), mr)
    {
      AppendAssoc(done, DissolvedBelow(rules, GatheredBelow(rules, i, cur).0));
    }

    /** Automatic submenu creation: the loop ends at the first entry that fails the dependency tests. */
    method Adopt(i: int, ghost r: Forest, ghost par: int) returns (ghost k: Forest, ghost rest: Forest)
      requires Ok() && 0 <= i < |next| && list[i] == NULL && Holds(View(), r, next[i], par, NULL)
      requires Distinct(Preorder(r)) && i !in Preorder(r)
      modifies `next, `list, `parent
      ensures Ok() && parent[i] == old(parent[i])
      ensures Holds(View(), k, list[i], i, NULL) && Holds(View(), rest, next[i], par, NULL)
      ensures Preorder(k) + Preorder(rest) == Preorder(r)
      ensures var (taken, left) := GatheredBelow(rules, i, r); k == DissolvedBelow(rules, taken) && rest == left
      ensures Outside(old(View()), View(), [i] + Preorder(r))
      decreases |Preorder(r)|, 4
    {
      var m, last := next[i], NULL;
      ghost var done, cur := Nil, r;
      while m != NULL
        invariant Ok() && next[i] == old(next[i]) && Taken(View(), r, done, cur, next[i], i, par, m)
        invariant OnTheWay(i, r, done, cur)
        invariant (last == NULL <==> done.Nil?) && (done.Node? ==> last == Last(done))
        invariant Outside(old(View()), View(), Preorder(r))
        decreases |Preorder(cur)|
      {
        if !rules.accepts(i, m) {
          break;
        }
        ghost var before := View();
        ghost var mk, mr := AdoptAt(i, m, r, done, cur, par);
        OutsideTrans(old(View()), before, View(), Preorder(r));
        OnTheWayStep(i, r, done, cur, mk, mr);
        AppendOne(done, m, mk, mr);
        last := m;
        done, cur, m := Append(done, Node(m, mk, Nil)), mr, next[m];
      }
      Emptiness(View(), cur, m, par);
      AppendNil(done);
      k, rest := done, cur;
      OutsideWider(old(View()), View(), Preorder(r), [i] + Preorder(r));
      if last != NULL {
        ghost var before := View();
        AdoptedHolds(before, r, done, cur, i, par, m);
        list := list[i := next[i]];
        next := next[i := next[last]];
        next := next[last := NULL];
        assert View() == Adopted(before, i, last);
        OutsideTrans(old(View()), before, View(), [i] + Preorder(r));
      }
    }

    /** The part of menu_finalize before the flattening. */
    method Gather(i: int, ghost k: Forest, ghost r: Forest, ghost par: int)
      returns (ghost kids: Forest, ghost rest: Forest)
      requires Ok() && Holds(View(), Node(i, k, r), i, par, NULL) && Distinct(Preorder(Node(i, k, r)))
      modifies `next, `list, `parent
      ensures Ok() && Holds(View(), Node(i, kids, rest), i, par, NULL)
      ensures Preorder(Node(i, kids, rest)) == Preorder(Node(i, k, r))
      ensures Outside(old(View()), View(), Preorder(Node(i, k, r)))
      ensures var (gathered, left) := Gathered(rules, i, k, r); kids == DissolvedBelow(rules, gathered) && rest == left
      decreases |Preorder(Node(i, k, r))|, 0
    {
      kids, rest := k, r;
      DistinctNode(Node(i, k, r));
      Emptiness(View(), k, list[i], i);
      if list[i] != NULL {
        kids := FinalizeChildren(i, k);
        KidsChanged(old(View()), View(), i, k, kids, r, par);
      } else if rules.symbol[i] {
        kids, rest := Adopt(i, r, par);
        OrderOf(i, kids, rest, r);
      }
    }

    /** menu_finalize, as far as it relinks: whatever the dependency tests give, `i` gets the gathered tree below it,
        with every entry below its nearest ancestor with a prompt text, in depth-first order, and the later siblings
        that `i` does not take are left alone. */
    method Finalize(i: int, ghost k: Forest, ghost r: Forest, ghost par: int)
      returns (ghost kids: Forest, ghost rest: Forest)
      requires Ok() && Holds(View(), Node(i, k, r), i, par, NULL) && Distinct(Preorder(Node(i, k, r)))
      modifies `next, `list, `parent
      ensures Ok() && Holds(View(), Node(i, kids, rest), i, par, NULL)
      ensures Preorder(Node(i, kids, rest)) == Preorder(Node(i, k, r))
      ensures Outside(old(View()), View(), Preorder(Node(i, k, r)))
      ensures var (gathered, left) := Gathered(rules, i, k, r); kids == Dissolved(rules, gathered) && rest == left
      decreases |Preorder(Node(i, k, r))|, 1
    {
      kids, rest := Gather(i, k, r, par);
      ghost var h, was := View(), kids;
      DistinctNode(Node(i, kids, rest));
      kids := FlattenChildren(i, kids);
      FlatteningDissolves(rules, Gathered(rules, i, k, r).0);
      KidsChanged(h, View(), i, was, kids, rest, par);
      OutsideTrans(old(View()), h, View(), Preorder(Node(i, k, r)));
    }

    /** menu_finalize of the root, of which the children are `k`: in the links, the parent of every entry is its nearest
        ancestor with a prompt text in the gathered tree, or the root. */
    method FinalizeRoot(root: int, ghost k: Forest) returns (ghost kids: Forest)
      requires IsRoot(root) && Below(root, k)
      modifies `next, `list, `parent
      ensures IsRoot(root) && Below(root, kids) && kids == Dissolved(rules, GatheredList(rules, k))
      ensures Preorder(kids) == Preorder(GatheredList(rules, k)) == Preorder(k)
      ensures forall x :: x in Preorder(k) ==>
        0 <= x < |parent| && parent[x] == NearestTitled(rules, GatheredList(rules, k), root, x)
    {
      RootOrder(root, k);
      assert Gathered(rules, root, k, Nil).0 == GatheredList(rules, k);
      ghost var rest;
      kids, rest := Finalize(root, k, Nil, NULL);
      DissolvedFlat(rules, GatheredList(rules, k));
      ListOrder(rules, k);
      DistinctNode(Node(root, kids, rest));
      forall x | x in Preorder(k)
        ensures 0 <= x < |parent| && parent[x] == NearestTitled(rules, GatheredList(rules, k), root, x)
      {
        DissolvedParent(rules, GatheredList(rules, k), root, x);
        ParentHeld(View(), kids, list[root], root, NULL, x);
      }
    }

    /** Finalizing from the root and walking: every entry is visited exactly once, in the order of the files. */
    method FinalizeAndWalk(root: int, ghost k: Forest) returns (trace: seq<Event>)
      requires IsRoot(root) && Below(root, k)
      modifies `next, `list, `parent
      ensures Entered(trace) == Preorder(k) && Distinct(Entered(trace))
      ensures trace == Walked(Dissolved(rules, GatheredList(rules, k)))
    {
      ghost var kids := FinalizeRoot(root, k);
      trace := Walk(root, kids);
      WalkedPreorder(kids);
    }
  }

  lemma RootOrder(root: int, k: Forest)
    requires Distinct(Preorder(k)) && root !in Preorder(k)
    ensures Distinct(Preorder(Node(root, k, Nil)))
  {
    assert Preorder(Node(root, k, Nil)) == [root] + Preorder(k) + [] == [root] + Preorder(k);
    DistinctCons(root, Preorder(k));
  }

  lemma DistinctCons(x: int, s: seq<int>)
    requires Distinct(s) && x !in s
    ensures Distinct([x] + s)
  {
    var t := [x] + s;
    forall i, j | 0 <= i < j < |t| ensures t[i] != t[j] {
      assert t[j] == s[j - 1];
      if i > 0 { assert t[i] == s[i - 1]; }
    }
  }

  /** The parent links are those of the tree. */
  lemma {:induction false} ParentHeld(h: Links, f: Forest, head: int, par: int, end: int, x: int)
    requires Holds(h, f, head, par, end) && x in Preorder(f)
    ensures 0 <= x < |h.next| && Shaped(h) && h.parent[x] == ParentOf(f, par, x)
  {
    if x != f.id {
      if x in Preorder(f.kids) {
        ParentHeld(h, f.kids, h.list[f.id], f.id, NULL, x);
      } else {
        ParentHeld(h, f.rest, h.next[f.id], par, end, x);
      }
    }
  }
}
