/** Sizzle's `:nth-child(an+b)` filter, with its per-pass cache of element positions. */
module NthChild {
  import opened Basics

  class Child {
    const isElement: bool
    var nodeIndex: nat    // 0 while unset

    constructor (isElement: bool)
      ensures this.isElement == isElement && nodeIndex == 0
    {
      this.isElement, this.nodeIndex := isElement, 0;
    }
  }

  class Parent {
    const kids: seq<Child>
    var sizcache: int

    constructor (kids: seq<Child>)
      ensures this.kids == kids && sizcache == -1
    {
      this.kids, this.sizcache := kids, -1;
    }
  }

  /** How many elements there are among these siblings. */
  ghost function Elements(kids: seq<Child>): nat {
    if kids == [] then 0
    else Elements(kids[..|kids| - 1]) + if kids[|kids| - 1].isElement then 1 else 0
  }

  /** The elements among the first n siblings, by their places. */
  ghost function ElementsUpTo(kids: seq<Child>, n: nat): set<nat>
    requires n <= |kids|
  {
    set j: nat | j < n && kids[j].isElement
  }

  /** The 1-based position of kids[i] among its element siblings: how many there are up to it. */
  ghost function Position(kids: seq<Child>, i: nat): nat
    requires i < |kids|
  {
    |set j: nat | j <= i && kids[j].isElement|
  }

  lemma {:induction false} ElementsCount(kids: seq<Child>, n: nat)
    requires n <= |kids|
    ensures Elements(kids[..n]) == |ElementsUpTo(kids, n)|
  {
    if n == 0 {
      assert ElementsUpTo(kids, 0) == {};
    } else {
      ElementsCount(kids, n - 1);
      assert kids[..n][..n - 1] == kids[..n - 1];
      assert ElementsUpTo(kids, n) ==
        ElementsUpTo(kids, n - 1) + if kids[n - 1].isElement then {n - 1} else {};
    }
  }

  lemma PositionIs(kids: seq<Child>, i: nat)
    requires i < |kids|
    ensures Position(kids, i) == Elements(kids[..i + 1])
    ensures kids[i].isElement ==> Position(kids, i) > 0
  {
    ElementsCount(kids, i + 1);
    assert (set j: nat | j <= i && kids[j].isElement) == ElementsUpTo(kids, i + 1);
    assert kids[..i + 1][..i] == kids[..i];
  }

  ghost predicate Indexed(kids: seq<Child>)
    reads kids
  {
    forall i :: 0 <= i < |kids| && kids[i].isElement ==> kids[i].nodeIndex == Position(kids, i)
  }

  /** Section 6.6.5.2 of Selectors Level 3: the position is an+b for some non-negative n. */
  ghost predicate Selected(a: int, b: int, pos: int) {
    exists n: nat :: a * n + b == pos
  }

  // JavaScript's remainder takes the sign of the dividend, its quotient is not rounded.

  function Truncated(x: int, y: int): int
    requires y != 0
  {
    var q := (if x < 0 then -x else x) / (if y < 0 then -y else y);
    if (x < 0) == (y < 0) then q else -q
  }

  function Remainder(x: int, y: int): int
    requires y != 0
  {
    x - y * Truncated(x, y)
  }

  function Passes(a: int, b: int, index: int): bool {
    var d := index - b;
    if a == 0 then d == 0
    else Remainder(d, a) == 0 && (d as real) / (a as real) >= 0.0
  }

  lemma QuotientSign(d: int, a: int, n: int)
    requires a != 0 && d == a * n
    ensures (d as real) / (a as real) == n as real
  {
    var x, y := a as real, n as real;
    assert d as real == x * y;
    assert (x * y) / x == y;
  }

  lemma ExactQuotient(d: int, a: int, n: int)
    requires a != 0 && d == a * n
    ensures Truncated(d, a) == n
  {
    var p, q := if d < 0 then -d else d, if a < 0 then -a else a;
    var m := if n < 0 then -n else n;
    assert p == q * m by {
      if a < 0 {
        assert (-a) * n == -(a * n);
      }
    }
    assert p / q == m by {
      DivExact(q, m);
    }
    if n > 0 {
      assert (d < 0) == (a < 0) by { SignOfProduct(a, n); }
    } else if n < 0 {
      assert (d < 0) != (a < 0) by { SignOfProduct(a, n); }
    } else {
      assert d == 0;
    }
  }

  lemma DivExact(q: int, m: int)
    requires q > 0
    ensures (q * m) / q == m
  {
    var r, rest := (q * m) / q, (q * m) % q;
    assert q * m == q * r + rest && 0 <= rest < q;
    assert q * (m - r) == rest;
    Multiple(q, m - r);
  }

  lemma Multiple(q: int, k: int)
    requires q > 0
    ensures k > 0 ==> q * k >= q
    ensures k < 0 ==> q * k <= -q
  {
  }

  lemma SignOfProduct(a: int, n: int)
    ensures a > 0 && n > 0 ==> a * n > 0
    ensures a > 0 && n < 0 ==> a * n < 0
    ensures a < 0 && n > 0 ==> a * n < 0
    ensures a < 0 && n < 0 ==> a * n > 0
  {
  }

  /** The arithmetic test is the definition, for all a and b, zero and negative included. */
  lemma PassesIff(a: int, b: int, pos: int)
    ensures Passes(a, b, pos) <==> Selected(a, b, pos)
  {
    var d := pos - b;
    if Selected(a, b, pos) {
      var n: nat :| a * n + b == pos;
      if a != 0 {
        ExactQuotient(d, a, n);
        QuotientSign(d, a, n);
      }
    }
    if Passes(a, b, pos) {
      if a == 0 {
        assert a * 0 + b == pos;
      } else {
        var n := Truncated(d, a);
        QuotientSign(d, a, n);
        assert a * n + b == pos;
      }
    }
  }

  method IndexChildren(kids: seq<Child>)
    requires Distinct(kids)
    modifies kids`nodeIndex
    ensures Indexed(kids)
  {
    var x := 0;
    for i := 0 to |kids|
      invariant x == Elements(kids[..i])
      invariant forall j :: 0 <= j < i && kids[j].isElement ==> kids[j].nodeIndex == Position(kids, j)
    {
      assert kids[..i + 1][..i] == kids[..i];
      PositionIs(kids, i);
      if kids[i].isElement {
        x := x + 1;
        kids[i].nodeIndex := x;
      }
    }
    assert kids[..|kids|] == kids;
  }

  function KidsOf(p: Parent?): seq<Child> {
    if p == null then [] else p.kids
  }

  function Self(p: Parent?): set<Parent> {
    if p == null then {} else {p}
  }

  /** c is the element kids[i] of p; without a parent i means nothing. */
  ghost predicate ChildAt(p: Parent?, c: Child, i: nat) {
    c.isElement && (p != null ==> Distinct(p.kids) && i < |p.kids| && p.kids[i] == c)
  }

  ghost predicate CacheRight(p: Parent?, stamp: int)
    reads p, KidsOf(p)
  {
    p != null && p.sizcache == stamp ==> Indexed(p.kids)
  }

  /**
   The right answer. An element without a parent has no position: it is kept by n+0, and otherwise
   judged by the `index` that an earlier pass may have left on it; an unset index is selected by nothing.
   */
  ghost predicate Answer(p: Parent?, c: Child, i: nat, a: int, b: int, index: nat)
    requires ChildAt(p, c, i)
  {
    if p != null then Selected(a, b, Position(p.kids, i))
    else (a == 1 && b == 0) || (index != 0 && Selected(a, b, index))
  }

  /** The `nth` case for one element; the cache is right whenever it carries this pass's stamp. */
  method Nth(p: Parent?, c: Child, ghost i: nat, a: int, b: int, stamp: int) returns (r: bool)
    requires ChildAt(p, c, i) && CacheRight(p, stamp)
    modifies Self(p)`sizcache, KidsOf(p)`nodeIndex
    ensures r <==> Answer(p, c, i, a, b, old(c.nodeIndex))
    ensures CacheRight(p, stamp)
    ensures p != null ==> p.sizcache == if a == 1 && b == 0 then old(p.sizcache) else stamp
  {
    if a == 1 && b == 0 {
      if p != null {
        assert a * Position(p.kids, i) + b == Position(p.kids, i);
      }
      return true;
    }
    if p != null && (p.sizcache != stamp || c.nodeIndex == 0) {
      IndexChildren(p.kids);
      p.sizcache := stamp;
    }
    if p != null {
      PositionIs(p.kids, i);
    }
    PassesIff(a, b, c.nodeIndex);
    return c.nodeIndex != 0 && Passes(a, b, c.nodeIndex);
  }

  datatype Candidate = Candidate(p: Parent?, c: Child, i: nat)

  ghost predicate Apart(a: seq<Child>, b: seq<Child>) {
    forall x :: x in a ==> x !in b
  }

  ghost predicate IsCandidate(x: Candidate) {
    ChildAt(x.p, x.c, x.i)
  }

  /** Different parents have different children, and an element without a parent is a child of none. */
  ghost predicate Candidates(cs: seq<Candidate>) {
    && (forall x :: x in cs ==> IsCandidate(x))
    && (forall x, y :: x in cs && y in cs && x.p != y.p ==> Apart(KidsOf(x.p), KidsOf(y.p)))
    && (forall x, y :: x in cs && y in cs && x.p == null ==> x.c !in KidsOf(y.p))
  }

  ghost function Parents(cs: seq<Candidate>): set<Parent> {
    set x | x in cs && x.p != null :: x.p
  }

  ghost function Kids(cs: seq<Candidate>): set<Child> {
    set x, y | x in cs && y in KidsOf(x.p) :: y
  }

  ghost predicate Right(x: Candidate, a: int, b: int, index: nat, kept: bool) {
    IsCandidate(x) && (kept <==> Answer(x.p, x.c, x.i, a, b, index))
  }

  /** One element of a pass: other parents' caches are not disturbed. */
  method NthOf(cs: seq<Candidate>, x: Candidate, a: int, b: int, stamp: int) returns (r: bool)
    requires Candidates(cs) && x in cs
    requires forall y :: y in cs ==> CacheRight(y.p, stamp)
    modifies Parents(cs)`sizcache, Kids(cs)`nodeIndex
    ensures forall y :: y in cs ==> CacheRight(y.p, stamp)
    ensures Right(x, a, b, old(x.c.nodeIndex), r)
    ensures forall y :: y in cs && y.p == null ==> y.c.nodeIndex == old(y.c.nodeIndex)
  {
    assert IsCandidate(x);
    assert x.p != null ==> x.p in Parents(cs);
    assert forall y :: y in KidsOf(x.p) ==> y in Kids(cs);
    label before:
    r := Nth(x.p, x.c, x.i, a, b, stamp);
    forall y | y in cs
      ensures CacheRight(y.p, stamp)
    {
      if y.p != x.p && y.p != null {
        assert Apart(KidsOf(y.p), KidsOf(x.p));
        assert old@before(CacheRight(y.p, stamp));
        forall i | 0 <= i < |y.p.kids|
          ensures y.p.kids[i].nodeIndex == old@before(y.p.kids[i].nodeIndex)
        {
          assert y.p.kids[i] in KidsOf(y.p);
        }
      }
    }
  }

  /**
   One pass of the filter over a set of elements with a stamp no parent carries yet: an element is
   kept iff its position is selected, whichever elements before it filled the cache.
   */
  method FilterNth(cs: seq<Candidate>, a: int, b: int, stamp: int) returns (kept: seq<bool>)
    requires Candidates(cs)
    requires forall x :: x in cs && x.p != null ==> x.p.sizcache != stamp
    modifies Parents(cs)`sizcache, Kids(cs)`nodeIndex
    ensures |kept| == |cs|
    ensures forall k :: 0 <= k < |cs| ==> Right(cs[k], a, b, old(cs[k].c.nodeIndex), kept[k])
  {
    kept := [];
    ghost var was := seq(|cs|, k requires 0 <= k < |cs| reads set x | x in cs :: x.c => cs[k].c.nodeIndex);
    ghost var want := seq(|cs|, k requires 0 <= k < |cs| && IsCandidate(cs[k]) =>
      Answer(cs[k].p, cs[k].c, cs[k].i, a, b, was[k]));
    for k := 0 to |cs|
      invariant kept == want[..k]
      invariant forall x :: x in cs ==> CacheRight(x.p, stamp)
      invariant forall j :: 0 <= j < |cs| && cs[j].p == null ==> cs[j].c.nodeIndex == was[j]
    {
      var r := NthOf(cs, cs[k], a, b, stamp);
      kept := kept + [r];
      TakeNext(want, k);
    }
  }
}
