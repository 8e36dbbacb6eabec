/** String values in configuration files: sym_escape_string_value (kconfig/symbol.c) and the string branch of
    conf_set_sym_val (kconfig/confdata.c), over buffers that end with a NUL. */
module ConfString {
  const NUL: char := '\0'
  const QUOTE: char := '\"'
  const BACKSLASH: char := '\\'

  predicate Special(c: char) {
    c == QUOTE || c == BACKSLASH
  }

  /** The escaped form: a backslash before every quote and backslash. */
  function Escaped(s: string): string {
    if s == [] then [] else (if Special(s[0]) then [BACKSLASH, s[0]] else [s[0]]) + Escaped(s[1..])
  }

  function Quoted(s: string): string {
    [QUOTE] + Escaped(s) + [QUOTE]
  }

  function Specials(s: string): nat {
    if s == [] then 0 else (if Special(s[0]) then 1 else 0) + Specials(s[1..])
  }

  /** What the reader makes of the text after the opening quote: the value up to the first quote that no backslash
      precedes, or nothing if there is none. */
  datatype Parsed = NotQuoted | Unterminated | Value(text: string)

  function Unescape(t: string): Parsed {
    if t == [] then Unterminated
    else if t[0] == QUOTE then Value([])
    else if t[0] == BACKSLASH then if |t| == 1 then Unterminated else Prefixed([t[1]], Unescape(t[2..]))
    else Prefixed([t[0]], Unescape(t[1..]))
  }

  function Prefixed(s: string, p: Parsed): Parsed {
    if p.Value? then Value(s + p.text) else p
  }

  /** The string branch of conf_set_sym_val on a whole value. */
  function ParseValue(t: string): Parsed {
    if t == [] || t[0] != QUOTE then NotQuoted else Unescape(t[1..])
  }

  // ---------------------------------------------------------------------------------------------------------------
  // Escaping

  lemma {:induction false} EscapedConcat(a: string, b: string)
    ensures Escaped(a + b) == Escaped(a) + Escaped(b) && Specials(a + b) == Specials(a) + Specials(b)
  {
    if a == [] {
      assert a + b == b;
    } else {
      assert (a + b)[1..] == a[1..] + b;
      EscapedConcat(a[1..], b);
    }
  }

  /** The escaped form is longer by the number of characters escaped. */
  lemma {:induction false} EscapedLength(s: string)
    ensures |Escaped(s)| == |s| + Specials(s)
  {
    if s != [] { EscapedLength(s[1..]); }
  }

  /** strcspn(s + p, "\"\\"). */
  function Span(s: string, p: nat): (l: nat)
    requires p <= |s|
    ensures p + l <= |s| && (p + l < |s| ==> Special(s[p + l]))
    ensures Escaped(s[p..p + l]) == s[p..p + l] && Specials(s[p..p + l]) == 0
    decreases |s| - p
  {
    if p == |s| || Special(s[p]) then 0
    else
      var l := Span(s, p + 1);
      assert s[p..p + 1 + l][1..] == s[p + 1..p + 1 + l];
      1 + l
  }

  lemma SpanStep(s: string, p: nat)
    requires p <= |s|
    ensures var q := p + Span(s, p);
            && Escaped(s[..q]) == Escaped(s[..p]) + s[p..q] && Specials(s[..q]) == Specials(s[..p])
            && (q < |s| ==> Escaped(s[..q + 1]) == Escaped(s[..q]) + [BACKSLASH, s[q]])
            && (q < |s| ==> Specials(s[..q + 1]) == Specials(s[..q]) + 1)
  {
    var q := p + Span(s, p);
    assert s[..q] == s[..p] + s[p..q];
    EscapedConcat(s[..p], s[p..q]);
    if q < |s| {
      assert s[..q + 1] == s[..q] + [s[q]];
      EscapedConcat(s[..q], [s[q]]);
    }
  }

  lemma EscapedPrefixFits(s: string, p: nat)
    requires p <= |s|
    ensures |Escaped(s[..p])| <= |Escaped(s)|
  {
    assert s == s[..p] + s[p..];
    EscapedConcat(s[..p], s[p..]);
  }

  /** The first pass: the size of the buffer. */
  method BufferSize(s: string) returns (reslen: nat)
    ensures reslen == |Quoted(s)| + 1
  {
    reslen := |s| + 2 + 1;
    var p := 0;
    while true
      invariant p <= |s| && reslen == |s| + 3 + Specials(s[..p])
      decreases |s| - p
    {
      SpanStep(s, p);
      p := p + Span(s, p);
      if p == |s| {
        break;
      }
      reslen := reslen + 1;
      p := p + 1;
    }
    assert s[..p] == s;
    EscapedLength(s);
  }

  /** strncat(buf, t, |t|) for a string of length `n` in `buf`. */
  method Cat(buf: array<char>, n: nat, t: string) returns (m: nat)
    requires n + |t| < buf.Length && buf[n] == NUL
    modifies buf
    ensures m == n + |t| && buf[..m] == old(buf[..n]) + t && buf[m] == NUL
  {
    m := n + |t|;
    for i := 0 to |t|
      invariant forall k :: 0 <= k < n ==> buf[k] == old(buf[k])
      invariant forall k :: 0 <= k < i ==> buf[n + k] == t[k]
    {
      buf[n + i] := t[i];
    }
    buf[m] := NUL;
    assert forall k :: n <= k < m ==> buf[k] == t[k - n];
  }

  /** One round of the second pass: the ordinary characters from `p` on, and the special one after them. */
  method CatSpan(buf: array<char>, n: nat, s: string, p: nat) returns (m: nat, q: nat)
    requires p <= |s| && n < buf.Length && buf[n] == NUL && buf[..n] == [QUOTE] + Escaped(s[..p])
    requires buf.Length == |Escaped(s)| + 3
    modifies buf
    ensures p <= q <= |s| && m < buf.Length - 1 && buf[m] == NUL && buf[..m] == [QUOTE] + Escaped(s[..q])
    ensures q == p + Span(s, p)
  {
    ghost var before := buf[..n];
    SpanStep(s, p);
    q := p + Span(s, p);
    EscapedPrefixFits(s, q);
    m := Cat(buf, n, s[p..q]);
    Grow(before, Escaped(s[..p]), s[p..q]);
  }

  lemma Grow(before: string, done: string, more: string)
    requires before == [QUOTE] + done
    ensures before + more == [QUOTE] + (done + more)
  {}

  method CatSpecial(buf: array<char>, n: nat, s: string, p: nat) returns (m: nat)
    requires p < |s| && n < buf.Length && buf[n] == NUL && buf[..n] == [QUOTE] + Escaped(s[..p]) && Special(s[p])
    requires buf.Length == |Escaped(s)| + 3
    modifies buf
    ensures m < buf.Length && buf[m] == NUL && buf[..m] == [QUOTE] + Escaped(s[..p + 1])
  {
    SpanStep(s, p);
    EscapedPrefixFits(s, p + 1);
    m := Cat(buf, n, [BACKSLASH]);
    m := Cat(buf, m, [s[p]]);
  }

  /** The loop of the second pass. */
  method CatEscaped(buf: array<char>, s: string) returns (n: nat)
    requires buf.Length == |Escaped(s)| + 3 && buf[0] == QUOTE && buf[1] == NUL
    modifies buf
    ensures n == buf.Length - 2 && buf[n] == NUL && buf[..n] == [QUOTE] + Escaped(s)
  {
    n := 1;
    var p: nat := 0;
    while true
      invariant p <= |s| && n < buf.Length && buf[n] == NUL && buf[..n] == [QUOTE] + Escaped(s[..p])
      decreases |s| - p
    {
      n, p := CatSpan(buf, n, s, p);
      if p == |s| {
        break;
      }
      n := CatSpecial(buf, n, s, p);
      p := p + 1;
    }
    assert s[..p] == s;
  }

  /** sym_escape_string_value: the second pass fills the buffer of the first exactly. */
  method EscapeStringValue(s: string) returns (res: string)
    ensures res == Quoted(s) + [NUL]
  {
    var reslen := BufferSize(s);
    var buf := new char[reslen];
    buf[0] := NUL;
    var n: nat := Cat(buf, 0, [QUOTE]);
    assert buf[..1][0] == QUOTE;
    n := CatEscaped(buf, s);
    n := Cat(buf, n, [QUOTE]);
    res := buf[..];
    assert buf[..] == buf[..n] + [buf[n]];
  }

  // ---------------------------------------------------------------------------------------------------------------
  // Reading back

  /** Reading what was escaped gives the original, whatever follows the closing quote. */
  lemma {:induction false} UnescapeEscaped(s: string, after: string)
    ensures Unescape(Escaped(s) + [QUOTE] + after) == Value(s)
  {
    if s != [] {
      var rest := Escaped(s[1..]) + [QUOTE] + after;
      UnescapeEscaped(s[1..], after);
      UnescapeCons(s[0], rest);
      assert s == [s[0]] + s[1..];
      EscapedFirst(s, [QUOTE] + after);
      assert Escaped(s) + [QUOTE] + after == Escaped(s) + ([QUOTE] + after);
      assert rest == Escaped(s[1..]) + ([QUOTE] + after);
    }
  }

  lemma EscapedFirst(s: string, after: string)
    requires s != []
    ensures Escaped(s) + after == (if Special(s[0]) then [BACKSLASH, s[0]] else [s[0]]) + (Escaped(s[1..]) + after)
  {}

  lemma UnescapeCons(c: char, rest: string)
    ensures Unescape((if Special(c) then [BACKSLASH, c] else [c]) + rest) == Prefixed([c], Unescape(rest))
  {
    var t := (if Special(c) then [BACKSLASH, c] else [c]) + rest;
    if Special(c) { assert t[2..] == rest; } else { assert t[1..] == rest; }
  }

  /** The reader inverts the writer. */
  lemma RoundTrip(s: string, after: string)
    ensures ParseValue(Quoted(s) + after) == Value(s)
  {
    UnescapeEscaped(s, after);
    assert (Quoted(s) + after)[1..] == Escaped(s) + [QUOTE] + after;
  }

  /** A text as the reader takes it apart: ordinary characters, and characters behind a backslash. */
  datatype Piece = Ordinary(c: char) | Slashed(c: char)

  function Spelled(ps: seq<Piece>): string {
    if ps == [] then [] else (if ps[0].Slashed? then [BACKSLASH, ps[0].c] else [ps[0].c]) + Spelled(ps[1..])
  }

  function Characters(ps: seq<Piece>): string {
    seq(|ps|, i requires 0 <= i < |ps| => ps[i].c)
  }

  ghost predicate WellSpelled(ps: seq<Piece>) {
    forall i :: 0 <= i < |ps| && ps[i].Ordinary? ==> !Special(ps[i].c)
  }

  /** Any text read piece by piece: a backslash is dropped and the character behind it kept, whatever it is. */
  lemma {:induction false} UnescapePieces(ps: seq<Piece>, rest: string)
    requires WellSpelled(ps)
    ensures Unescape(Spelled(ps) + rest) == Prefixed(Characters(ps), Unescape(rest))
  {
    if ps == [] {
      assert Spelled(ps) + rest == rest && Characters(ps) == [];
      PrefixedTwice([], [], Unescape(rest));
      if Unescape(rest).Value? { assert [] + Unescape(rest).text == Unescape(rest).text; }
    } else {
      var first := if ps[0].Slashed? then [BACKSLASH, ps[0].c] else [ps[0].c];
      var tail := Spelled(ps[1..]) + rest;
      UnescapePieces(ps[1..], rest);
      assert Spelled(ps) + rest == first + tail;
      assert (first + tail)[|first|..] == tail;
      assert Characters(ps) == [ps[0].c] + Characters(ps[1..]);
      PrefixedTwice([ps[0].c], Characters(ps[1..]), Unescape(rest));
    }
  }

  /** A value is read exactly when the text is well spelled up to a quote, and it is the characters spelled. */
  lemma ReadExactly(t: string, s: string)
    ensures Unescape(t) == Value(s) <==>
            exists ps, after :: WellSpelled(ps) && t == Spelled(ps) + ([QUOTE] + after) && Characters(ps) == s
  {
    if Unescape(t) == Value(s) {
      var ps, after := TakeApart(t);
    }
    forall ps, after | WellSpelled(ps) && t == Spelled(ps) + ([QUOTE] + after) && Characters(ps) == s
      ensures Unescape(t) == Value(s)
    {
      UnescapePieces(ps, [QUOTE] + after);
      assert s + [] == s;
    }
  }

  lemma {:induction false} TakeApart(t: string) returns (ps: seq<Piece>, after: string)
    requires Unescape(t).Value?
    ensures WellSpelled(ps) && t == Spelled(ps) + ([QUOTE] + after) && Characters(ps) == Unescape(t).text
  {
    if t[0] == QUOTE {
      ps, after := [], t[1..];
    } else {
      var piece := if t[0] == BACKSLASH then Slashed(t[1]) else Ordinary(t[0]);
      var rest;
      rest, after := TakeApart(if t[0] == BACKSLASH then t[2..] else t[1..]);
      ps := [piece] + rest;
      SpelledCons(piece, rest, [QUOTE] + after);
      var first := if piece.Slashed? then [BACKSLASH, piece.c] else [piece.c];
      assert t == first + (Spelled(rest) + ([QUOTE] + after));
    }
  }

  lemma SpelledCons(piece: Piece, rest: seq<Piece>, after: string)
    ensures var first := if piece.Slashed? then [BACKSLASH, piece.c] else [piece.c];
            Spelled([piece] + rest) + after == first + (Spelled(rest) + after)
    ensures Characters([piece] + rest) == [piece.c] + Characters(rest)
  {
    assert ([piece] + rest)[1..] == rest;
  }

  // ---------------------------------------------------------------------------------------------------------------
  // Reading in place

  ghost predicate Plain(t: string) {
    forall k :: 0 <= k < |t| ==> !Special(t[k])
  }

  /** Ordinary characters stand for themselves. */
  lemma {:induction false} UnescapePlain(t: string, j: nat)
    requires j <= |t| && Plain(t[..j])
    ensures Unescape(t) == Prefixed(t[..j], Unescape(t[j..]))
  {
    if j == 0 {
      assert t[j..] == t;
    } else {
      assert t[..j][0] == t[0] && t[1..][..j - 1] == t[..j][1..] && t[1..][j - 1..] == t[j..];
      UnescapePlain(t[1..], j - 1);
      assert [t[0]] + t[..j][1..] == t[..j];
      PrefixedTwice([t[0]], t[..j][1..], Unescape(t[j..]));
    }
  }

  lemma PrefixedTwice(a: string, b: string, p: Parsed)
    ensures Prefixed(a, Prefixed(b, p)) == Prefixed(a + b, p)
  {
    if p.Value? { assert a + (b + p.text) == a + b + p.text; }
  }

  /** The first special character decides. */
  lemma UnescapeAt(t: string, j: nat)
    requires j <= |t| && Plain(t[..j])
    ensures j == |t| || (t[j] == BACKSLASH && j + 1 == |t|) ==> Unescape(t) == Unterminated
    ensures j < |t| && t[j] == QUOTE ==> Unescape(t) == Value(t[..j])
    ensures j + 1 < |t| && t[j] == BACKSLASH ==> Unescape(t) == Prefixed(t[..j] + [t[j + 1]], Unescape(t[j + 2..]))
  {
    UnescapePlain(t, j);
    if j < |t| && t[j] == QUOTE { assert t[..j] + [] == t[..j]; }
    if j + 1 < |t| && t[j] == BACKSLASH {
      assert t[j..][2..] == t[j + 2..];
      PrefixedTwice(t[..j], [t[j + 1]], Unescape(t[j + 2..]));
    }
  }

  /** strpbrk from `i` on in a text that ends at `n`: the place of the first special character, or -1. */
  method FirstSpecial(buf: array<char>, i: nat, ghost n: nat) returns (j: int)
    requires i <= n < buf.Length && buf[n] == NUL && forall k :: i <= k < n ==> buf[k] != NUL
    ensures j == -1 ==> Plain(buf[i..n])
    ensures j != -1 ==> i <= j < n && Special(buf[j]) && Plain(buf[i..j])
  {
    j := i;
    while buf[j] != NUL && !Special(buf[j])
      invariant i <= j <= n && Plain(buf[i..j])
      decreases n - j
    {
      j := j + 1;
    }
    if buf[j] == NUL {
      j := -1;
    }
  }

  /** memmove(buf + j, buf + j + 1, strlen(buf + j)). */
  method Drop(buf: array<char>, j: nat, ghost n: nat)
    requires j < n < buf.Length && buf[n] == NUL && forall k :: j <= k < n ==> buf[k] != NUL
    modifies buf
    ensures forall k :: 0 <= k < buf.Length && (k < j || k >= n) ==> buf[k] == old(buf[k])
    ensures forall k :: j <= k < n ==> buf[k] == old(buf[k + 1])
  {
    var k := j;
    while buf[k] != NUL
      invariant j <= k <= n
      invariant forall l :: 0 <= l < buf.Length && (l < j || l >= k) ==> buf[l] == old(buf[l])
      invariant forall l :: j <= l < k ==> buf[l] == old(buf[l + 1])
      decreases n - k
    {
      buf[k] := buf[k + 1];
      k := k + 1;
    }
  }

  /** The reader is at `i` in a text that ends at `n`, with what it read before it. After a final backslash it stands
      behind the text, with nothing left. */
  ghost predicate Reading(buf: seq<char>, whole: string, i: nat, n: nat) {
    && 1 <= i <= n < |buf| && buf[n] == NUL && (forall k :: i <= k < n ==> buf[k] != NUL)
    && Unescape(whole) == Prefixed(buf[1..i], Unescape(buf[i..n]))
    && (Unescape(whole).Value? ==> forall k :: 1 <= k < i ==> buf[k] != NUL)
  }

  lemma ShiftedPrefix(o: seq<char>, b: seq<char>, i: nat, j: nat)
    requires 1 <= i <= j < |o| == |b| && forall k :: 0 <= k < j ==> b[k] == o[k]
    ensures b[1..j + 1] == o[1..i] + (o[i..j] + [b[j]])
  {}

  /** Dropping a backslash and stepping over the character behind it. */
  lemma DropReads(o: seq<char>, b: seq<char>, whole: string, i: nat, j: nat, n: nat)
    requires Reading(o, whole, i, n) && i <= j < n && Plain(o[i..j]) && o[j] == BACKSLASH && |b| == |o|
    requires forall k :: 0 <= k < |b| && (k < j || k >= n) ==> b[k] == o[k]
    requires forall k :: j <= k < n ==> b[k] == o[k + 1]
    ensures Reading(b, whole, j + 1, if j + 1 == n then n else n - 1)
  {
    var t := o[i..n];
    assert t[..j - i] == o[i..j] && t[j - i] == BACKSLASH;
    UnescapeAt(t, j - i);
    if j + 1 < n {
      assert t[j - i + 2..] == o[j + 2..n] == b[j + 1..n - 1];
      assert t[j - i + 1] == o[j + 1] == b[j];
      ShiftedPrefix(o, b, i, j);
      PrefixedTwice(o[1..i], o[i..j] + [b[j]], Unescape(b[j + 1..n - 1]));
    }
  }

  /** The closing quote. */
  lemma QuoteReads(o: seq<char>, whole: string, i: nat, j: nat, n: nat)
    requires Reading(o, whole, i, n) && i <= j < n && Plain(o[i..j]) && o[j] == QUOTE
    ensures Unescape(whole) == Value(o[1..j]) && forall k :: 1 <= k < j ==> o[k] != NUL
  {
    var t := o[i..n];
    assert t[..j - i] == o[i..j] && t[j - i] == QUOTE;
    UnescapeAt(t, j - i);
    assert o[1..j] == o[1..i] + o[i..j];
  }

  lemma EndReads(o: seq<char>, whole: string, i: nat, n: nat)
    requires Reading(o, whole, i, n) && Plain(o[i..n])
    ensures Unescape(whole) == Unterminated
  {
    var t := o[i..n];
    assert t[..n - i] == t;
    UnescapeAt(t, n - i);
  }

  /** xstrdup of the text from `i` on. */
  method CopyOf(buf: array<char>, i: nat, ghost n: nat) returns (s: string)
    requires i <= n < buf.Length && buf[n] == NUL && forall k :: i <= k < n ==> buf[k] != NUL
    ensures s == buf[i..n]
  {
    var j := i;
    while buf[j] != NUL
      invariant i <= j <= n
      decreases n - j
    {
      j := j + 1;
    }
    s := buf[i..j];
  }

  /** The string branch of conf_set_sym_val, on a buffer that holds a text of `n` characters. */
  method SetStringValue(buf: array<char>, ghost n: nat) returns (r: Parsed)
    requires n < buf.Length && buf[n] == NUL && forall k :: 0 <= k < n ==> buf[k] != NUL
    modifies buf
    ensures r == ParseValue(old(buf[..n]))
  {
    if buf[0] != QUOTE {
      return NotQuoted;
    }
    ghost var whole, end: nat := buf[1..n], n;
    assert buf[..n][1..] == whole && buf[..n][0] == QUOTE;
    var i := 1;
    assert buf[1..1] == [];
    while true
      invariant Reading(buf[..], whole, i, end)
      decreases end - i
    {
      var j := FirstSpecial(buf, i, end);
      if j == -1 {
        EndReads(buf[..], whole, i, end);
        return Unterminated;
      }
      ghost var before := buf[..];
      if buf[j] == QUOTE {
        QuoteReads(before, whole, i, j, end);
        buf[j] := NUL;
        assert forall k :: 1 <= k < j ==> buf[k] == before[1..j][k - 1];
        var text := CopyOf(buf, 1, j);
        return Value(text);
      }
      Drop(buf, j, end);
      DropReads(before, buf[..], whole, i, j, end);
      i := j + 1;
      end := if i == end then end else end - 1;
    }
  }

  /** Writing a value and reading it back from a buffer of its own. */
  method WriteThenRead(s: string) returns (r: Parsed)
    requires NUL !in s
    ensures r == Value(s)
  {
    var res := EscapeStringValue(s);
    var buf := new char[|res|](i requires 0 <= i < |res| => res[i]);
    EscapedHasNoNul(s);
    assert buf[..|Quoted(s)|] == Quoted(s);
    r := SetStringValue(buf, |Quoted(s)|);
    RoundTrip(s, []);
    assert Quoted(s) + [] == Quoted(s);
  }

  lemma {:induction false} EscapedHasNoNul(s: string)
    requires NUL !in s
    ensures NUL !in Escaped(s)
  {
    if s != [] { EscapedHasNoNul(s[1..]); }
  }
}
