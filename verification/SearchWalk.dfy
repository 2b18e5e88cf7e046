/**
 The walk of the search page that finds the box with an entry's children, moving one element
 variable along child, sibling and parent links without a stack.
 */
module SearchWalk {
  import opened Basics

  /** A node of the page: a DIV or something else, its class, and its child nodes in order. */
  datatype Node = Node(isDiv: bool, className: string, kids: seq<Node>)

  /** Where a node is: the child indices on the way down from the starting element. */
  type Path = seq<nat>

  ghost predicate Exists(root: Node, p: Path)
    decreases |p|
  {
    p == [] || (p[0] < |root.kids| && Exists(root.kids[p[0]], p[1..]))
  }

  function At(root: Node, p: Path): Node
    requires Exists(root, p)
    decreases |p|
  {
    if p == [] then root else At(root.kids[p[0]], p[1..])
  }

  predicate Wanted(n: Node) {
    n.isDiv && n.className == "SRChildren"
  }

  // The links that the walk follows.

  function Parent(p: Path): Path
    requires p != []
  {
    p[..|p| - 1]
  }

  function Index(p: Path): nat
    requires p != []
  {
    p[|p| - 1]
  }

  lemma {:induction false} AtParent(root: Node, p: Path)
    requires p != []
    ensures Exists(root, p) <==> Exists(root, Parent(p)) && Index(p) < |At(root, Parent(p)).kids|
    ensures Exists(root, p) ==> At(root, p) == At(root, Parent(p)).kids[Index(p)]
    decreases |p|
  {
    if |p| == 1 || p[0] >= |root.kids| {
    } else {
      AtParent(root.kids[p[0]], p[1..]);
      assert Parent(p)[1..] == Parent(p[1..]);
    }
  }

  /** The element after p in its parent, if there is one. */
  predicate HasNextSibling(root: Node, p: Path)
    requires p != [] && Exists(root, p)
  {
    AtParent(root, p);
    Index(p) + 1 < |At(root, Parent(p)).kids|
  }

  function NextSibling(p: Path): Path
    requires p != []
  {
    Parent(p) + [Index(p) + 1]
  }

  // ---------- Specification: recursive preorder, descending only through DIVs ----------

  /** The nodes in kids[i..] and below, in document order, not looking inside non-DIVs. */
  ghost function Walk(kids: seq<Node>, at: Path, i: nat): seq<Path>
    requires i <= |kids|
    decreases kids, |kids| - i
  {
    if i == |kids| then []
    else
      [at + [i]]
      + (if kids[i].isDiv then Walk(kids[i].kids, at + [i], 0) else [])
      + Walk(kids, at, i + 1)
  }

  /** Everything the walk may visit. */
  ghost function Visits(root: Node): seq<Path> {
    Walk(root.kids, [], 0)
  }

  /** What is left to visit once the part below p is done. */
  ghost function Rest(root: Node, p: Path): seq<Path>
    requires Exists(root, p)
    decreases |p|
  {
    if p == [] then []
    else
      AtParent(root, p);
      Walk(At(root, Parent(p)).kids, Parent(p), Index(p) + 1) + Rest(root, Parent(p))
  }

  /** What is left to visit, starting with p itself. */
  ghost function Todo(root: Node, p: Path): seq<Path>
    requires p != [] && Exists(root, p)
  {
    AtParent(root, p);
    Walk(At(root, Parent(p)).kids, Parent(p), Index(p)) + Rest(root, Parent(p))
  }

  ghost predicate AllExist(root: Node, ps: seq<Path>) {
    forall i :: 0 <= i < |ps| ==> Exists(root, ps[i])
  }

  datatype Found = Nothing | Element(at: Path)

  /** The first wanted node in a list of nodes. */
  ghost function FirstWanted(root: Node, ps: seq<Path>): Found
    requires AllExist(root, ps)
  {
    if ps == [] then Nothing
    else if Wanted(At(root, ps[0])) then Element(ps[0])
    else FirstWanted(root, ps[1..])
  }

  // ---------- One move of the element variable ----------

  lemma RestIs(root: Node, p: Path)
    requires p != [] && Exists(root, p)
    ensures Exists(root, Parent(p)) && Index(p) < |At(root, Parent(p)).kids|
    ensures Rest(root, p) == Walk(At(root, Parent(p)).kids, Parent(p), Index(p) + 1) + Rest(root, Parent(p))
  {
    AtParent(root, p);
  }

  lemma TodoOfFirstChild(root: Node, p: Path)
    requires Exists(root, p) && At(root, p).kids != []
    ensures Exists(root, p + [0])
    ensures Todo(root, p + [0]) == Walk(At(root, p).kids, p, 0) + Rest(root, p)
  {
    AtParent(root, p + [0]);
    assert Parent(p + [0]) == p;
  }

  /** A node, then what is inside it, then what is left after it. */
  lemma JoinDown(p: Path, inside: seq<Path>, later: seq<Path>, up: seq<Path>)
    ensures ([p] + (inside + later)) + up == [p] + (inside + (later + up))
  {
    Associative([p], inside + later, up);
    Associative(inside, later, up);
  }

  lemma TodoDown(root: Node, p: Path)
    requires p != [] && Exists(root, p)
    requires At(root, p).isDiv && At(root, p).kids != []
    ensures Exists(root, p + [0])
    ensures Todo(root, p) == [p] + Todo(root, p + [0])
  {
    TodoOfFirstChild(root, p);
    TodoIs(root, p);
    RestIs(root, p);
    LinkBack(root, p);
    var kids, at, i := At(root, Parent(p)).kids, Parent(p), Index(p);
    WalkHead(kids, at, i);
    JoinDown(p, Walk(kids[i].kids, p, 0), Walk(kids, at, i + 1), Rest(root, at));
  }

  lemma LinkBack(root: Node, p: Path)
    requires p != [] && Exists(root, p)
    ensures Exists(root, Parent(p)) && Index(p) < |At(root, Parent(p)).kids|
    ensures Parent(p) + [Index(p)] == p && At(root, Parent(p)).kids[Index(p)] == At(root, p)
  {
    AtParent(root, p);
  }

  lemma WalkHead(kids: seq<Node>, at: Path, i: nat)
    requires i < |kids|
    ensures Walk(kids, at, i) ==
            [at + [i]] + ((if kids[i].isDiv then Walk(kids[i].kids, at + [i], 0) else []) + Walk(kids, at, i + 1))
  {
  }

  lemma TodoLeaf(root: Node, p: Path)
    requires p != [] && Exists(root, p)
    requires !At(root, p).isDiv || At(root, p).kids == []
    ensures Todo(root, p) == [p] + Rest(root, p)
  {
    TodoIs(root, p);
    RestIs(root, p);
    LinkBack(root, p);
    var kids, at, i := At(root, Parent(p)).kids, Parent(p), Index(p);
    WalkLeaf(kids, at, i);
    Associative([p], Walk(kids, at, i + 1), Rest(root, at));
  }

  lemma WalkLeaf(kids: seq<Node>, at: Path, i: nat)
    requires i < |kids| && (!kids[i].isDiv || kids[i].kids == [])
    ensures Walk(kids, at, i) == [at + [i]] + Walk(kids, at, i + 1)
  {
  }

  lemma TodoIs(root: Node, p: Path)
    requires p != [] && Exists(root, p)
    ensures Exists(root, Parent(p)) && Index(p) < |At(root, Parent(p)).kids|
    ensures Todo(root, p) == Walk(At(root, Parent(p)).kids, Parent(p), Index(p)) + Rest(root, Parent(p))
  {
    AtParent(root, p);
  }

  lemma TodoHead(root: Node, p: Path)
    requires p != [] && Exists(root, p)
    ensures Todo(root, p) != [] && Todo(root, p)[0] == p
  {
    AtParent(root, p);
    assert Parent(p) + [Index(p)] == p;
  }

  lemma RestSibling(root: Node, p: Path)
    requires p != [] && Exists(root, p) && HasNextSibling(root, p)
    ensures Exists(root, NextSibling(p))
    ensures Rest(root, p) == Todo(root, NextSibling(p))
  {
    AtParent(root, p);
    AtParent(root, NextSibling(p));
    assert Parent(NextSibling(p)) == Parent(p);
  }

  lemma RestUp(root: Node, p: Path)
    requires p != [] && Exists(root, p) && !HasNextSibling(root, p)
    ensures Exists(root, Parent(p))
    ensures Rest(root, p) == Rest(root, Parent(p))
  {
    AtParent(root, p);
  }

  lemma {:induction false} WalkExists(root: Node, at: Path, i: nat)
    requires Exists(root, at) && i <= |At(root, at).kids|
    ensures AllExist(root, Walk(At(root, at).kids, at, i))
    decreases At(root, at), |At(root, at).kids| - i
  {
    var kids := At(root, at).kids;
    if i == |kids| {
    } else {
      AtParent(root, at + [i]);
      assert Parent(at + [i]) == at;
      if kids[i].isDiv {
        WalkExists(root, at + [i], 0);
      }
      WalkExists(root, at, i + 1);
    }
  }

  /** Up to the nearest ancestor with a next sibling, and on to that sibling; [] if there is none. */
  method Climb(root: Node, from: Path) returns (element: Path)
    requires from != [] && Exists(root, from) && !HasNextSibling(root, from)
    ensures Exists(root, element)
    ensures Rest(root, from) == if element == [] then [] else Todo(root, element)
  {
    RestUp(root, from);
    element := Parent(from);
    while element != [] && !HasNextSibling(root, element)
      invariant Exists(root, element)
      invariant Rest(root, element) == Rest(root, from)
      decreases |element|
    {
      RestUp(root, element);
      element := Parent(element);
    }
    if element != [] {
      RestSibling(root, element);
      element := NextSibling(element);
    }
  }

  /**
   The search script's `FindChildElement`: the element variable visits exactly the nodes of the
   recursive preorder, in that order, until it meets a wanted one or runs out. The nodes still ahead
   are the termination measure.
   */
  method FindChildElement(root: Node) returns (r: Found)
    ensures AllExist(root, Visits(root))
    ensures r == FirstWanted(root, Visits(root))
  {
    WalkExists(root, [], 0);
    if root.kids == [] {
      return Nothing;
    }
    var element: Path := [0];
    ghost var todo := Visits(root);
    while element != []
      invariant Exists(root, element)
      invariant element != [] ==> todo == Todo(root, element)
      invariant element == [] ==> todo == []
      invariant AllExist(root, todo)
      invariant FirstWanted(root, todo) == FirstWanted(root, Visits(root))
      decreases |todo|
    {
      TodoHead(root, element);
      if Wanted(At(root, element)) {
        return Element(element);
      }
      if At(root, element).isDiv && At(root, element).kids != [] {
        TodoDown(root, element);
        element := element + [0];
      } else if HasNextSibling(root, element) {
        TodoLeaf(root, element);
        RestSibling(root, element);
        element := NextSibling(element);
      } else {
        TodoLeaf(root, element);
        element := Climb(root, element);
      }
      todo := todo[1..];
    }
    return Nothing;
  }

  // ---------- What the preorder contains, and in which order ----------

  /** Reached by descending only through DIVs. */
  predicate Below(kids: seq<Node>, p: Path)
    decreases |p|
  {
    p != [] && p[0] < |kids| && (|p| == 1 || (kids[p[0]].isDiv && Below(kids[p[0]].kids, p[1..])))
  }

  /** Document order: an element before what is inside it, and an earlier sibling before a later one. */
  predicate Precedes(p: Path, q: Path)
    decreases |p|
  {
    q != [] && (p == [] || p[0] < q[0] || (p[0] == q[0] && Precedes(p[1..], q[1..])))
  }

  ghost predicate InWalk(kids: seq<Node>, at: Path, i: nat, q: Path) {
    |at| < |q| && q[..|at|] == at && i <= q[|at|] && Below(kids, q[|at|..])
  }

  /** Below a node, and then later, is after the node. */
  lemma InWalkHead(kids: seq<Node>, at: Path, i: nat, q: Path)
    requires i < |kids| && InWalk(kids, at, i, q) && !InWalk(kids, at, i + 1, q)
    ensures q == at + [i] || (kids[i].isDiv && InWalk(kids[i].kids, at + [i], 0, q))
  {
    assert q[..|at| + 1] == at + [i];
    assert q[|at|..][1..] == q[|at| + 1..];
    assert |q| == |at| + 1 ==> q == at + [i];
  }

  lemma InWalkInside(kids: seq<Node>, at: Path, i: nat, q: Path)
    requires i < |kids| && kids[i].isDiv && InWalk(kids[i].kids, at + [i], 0, q)
    ensures InWalk(kids, at, i, q)
  {
    assert q[|at|] == (at + [i])[|at|] == i;
    assert q[..|at|] == (at + [i])[..|at|] == at;
    assert q[|at|..][1..] == q[|at| + 1..];
  }

  lemma InWalkSplit(kids: seq<Node>, at: Path, i: nat, q: Path)
    requires i < |kids|
    ensures InWalk(kids, at, i, q) <==>
            q == at + [i] || (kids[i].isDiv && InWalk(kids[i].kids, at + [i], 0, q)) || InWalk(kids, at, i + 1, q)
  {
    if InWalk(kids, at, i, q) && !InWalk(kids, at, i + 1, q) {
      InWalkHead(kids, at, i, q);
    }
    if kids[i].isDiv && InWalk(kids[i].kids, at + [i], 0, q) {
      InWalkInside(kids, at, i, q);
    }
    if q == at + [i] {
      assert q[..|at|] == at && q[|at|..] == [i];
    }
  }

  lemma {:induction false} WalkHolds(kids: seq<Node>, at: Path, i: nat, q: Path)
    requires i <= |kids|
    ensures q in Walk(kids, at, i) <==> InWalk(kids, at, i, q)
    decreases kids, |kids| - i
  {
    if i == |kids| {
    } else {
      WalkHolds(kids, at, i + 1, q);
      WalkHolds(kids[i].kids, at + [i], 0, q);
      InWalkSplit(kids, at, i, q);
    }
  }

  lemma {:induction false} PrecedesPrefix(at: Path, p: Path, q: Path)
    requires Precedes(p, q)
    ensures Precedes(at + p, at + q)
  {
    if at == [] {
      assert at + p == p && at + q == q;
    } else {
      PrecedesPrefix(at[1..], p, q);
      assert (at + p)[1..] == at[1..] + p && (at + q)[1..] == at[1..] + q;
    }
  }

  ghost predicate InOrder(ps: seq<Path>) {
    forall a, b :: 0 <= a < b < |ps| ==> Precedes(ps[a], ps[b])
  }

  lemma InOrderConcat(ps: seq<Path>, qs: seq<Path>)
    requires InOrder(ps) && InOrder(qs)
    requires forall p, q :: p in ps && q in qs ==> Precedes(p, q)
    ensures InOrder(ps + qs)
  {
    var s := ps + qs;
    forall a, b | 0 <= a < b < |s|
      ensures Precedes(s[a], s[b])
    {
      if a < |ps| <= b {
        assert s[a] in ps && s[b] in qs;
      }
    }
  }

  /** A node precedes what is inside it. */
  lemma PrecedesInside(kids: seq<Node>, first: Path, q: Path)
    requires q in Walk(kids, first, 0)
    ensures Precedes(first, q)
  {
    WalkHolds(kids, first, 0, q);
    PrecedesPrefix(first, [], q[|first|..]);
    assert first + [] == first && first + q[|first|..] == q;
  }

  /** A node and what is inside it precede its later siblings and what is inside them. */
  lemma PrecedesLater(kids: seq<Node>, at: Path, i: nat, p: Path, q: Path)
    requires i < |kids| && q in Walk(kids, at, i + 1)
    requires p == at + [i] || p in Walk(kids[i].kids, at + [i], 0)
    ensures Precedes(p, q)
  {
    WalkHolds(kids, at, i + 1, q);
    WalkHolds(kids[i].kids, at + [i], 0, p);
    assert p[|at|] == (at + [i])[|at|] && p[..|at|] == (at + [i])[..|at|] == at;
    PrecedesPrefix(at, p[|at|..], q[|at|..]);
    assert at + p[|at|..] == p && at + q[|at|..] == q;
  }

  lemma {:induction false} WalkInOrder(kids: seq<Node>, at: Path, i: nat)
    requires i <= |kids|
    ensures InOrder(Walk(kids, at, i))
    decreases kids, |kids| - i
  {
    if i == |kids| {
    } else {
      var first := at + [i];
      var inside := if kids[i].isDiv then Walk(kids[i].kids, first, 0) else [];
      var later := Walk(kids, at, i + 1);
      WalkInOrder(kids[i].kids, first, 0);
      WalkInOrder(kids, at, i + 1);
      forall p, q | p in [first] && q in inside
        ensures Precedes(p, q)
      {
        PrecedesInside(kids[i].kids, first, q);
      }
      InOrderConcat([first], inside);
      forall p, q | p in [first] + inside && q in later
        ensures Precedes(p, q)
      {
        PrecedesLater(kids, at, i, p, q);
      }
      InOrderConcat([first] + inside, later);
    }
  }

  lemma {:induction false} FirstWantedMeans(root: Node, ps: seq<Path>)
    requires AllExist(root, ps) && InOrder(ps)
    ensures match FirstWanted(root, ps)
      case Nothing => forall p :: p in ps ==> !Wanted(At(root, p))
      case Element(p) => p in ps && Wanted(At(root, p))
                         && forall q :: q in ps && Wanted(At(root, q)) ==> q == p || Precedes(p, q)
  {
    if ps == [] || Wanted(At(root, ps[0])) {
    } else {
      FirstWantedMeans(root, ps[1..]);
    }
  }

  // ---------- The same without recursion ----------

  /** The path leads to a node below root, and every node strictly between is a DIV. */
  ghost predicate ThroughDivs(root: Node, p: Path) {
    && p != [] && Exists(root, p)
    && forall k :: 0 < k < |p| ==> Exists(root, p[..k]) && At(root, p[..k]).isDiv
  }

  /** A prefix of the path, taken from the first node on. */
  lemma AtStep(root: Node, p: Path, k: nat)
    requires 1 <= k <= |p| && p[0] < |root.kids|
    ensures var kid := root.kids[p[0]];
      && (Exists(root, p[..k]) <==> Exists(kid, p[1..][..k - 1]))
      && (Exists(root, p[..k]) ==> At(root, p[..k]) == At(kid, p[1..][..k - 1]))
  {
    assert p[..k][1..] == p[1..][..k - 1];
  }

  /** The first step leads to the first node; the rest lead through DIVs from there, if it is one itself. */
  lemma ThroughFirst(root: Node, p: Path)
    requires |p| > 1 && p[0] < |root.kids|
    ensures ThroughDivs(root, p) <==> root.kids[p[0]].isDiv && ThroughDivs(root.kids[p[0]], p[1..])
  {
    var kid, rest := root.kids[p[0]], p[1..];
    AtStep(root, p, 1);
    AtStep(root, p, |p|);
    assert p[..|p|] == p && rest[..|rest|] == rest && rest[..0] == [];
    if ThroughDivs(root, p) {
      forall k | 0 < k < |rest|
        ensures Exists(kid, rest[..k]) && At(kid, rest[..k]).isDiv
      {
        AtStep(root, p, k + 1);
      }
    }
    if kid.isDiv && ThroughDivs(kid, rest) {
      forall k | 0 < k < |p|
        ensures Exists(root, p[..k]) && At(root, p[..k]).isDiv
      {
        AtStep(root, p, k);
      }
    }
  }

  lemma {:induction false} BelowIff(root: Node, p: Path)
    ensures Below(root.kids, p) <==> ThroughDivs(root, p)
    decreases |p|
  {
    if p == [] || p[0] >= |root.kids| {
    } else if |p| == 1 {
      AtStep(root, p, 1);
      assert p[..1] == p && p[1..][..0] == [];
    } else {
      BelowIff(root.kids[p[0]], p[1..]);
      ThroughFirst(root, p);
    }
  }

  /** p leads to an ancestor of q, or branches off before it at some level. */
  ghost predicate InFront(p: Path, q: Path) {
    || (|p| < |q| && p == q[..|p|])
    || exists k: nat :: Branches(p, q, k)
  }

  ghost predicate Branches(p: Path, q: Path, k: nat) {
    k < |p| && k < |q| && p[..k] == q[..k] && p[k] < q[k]
  }

  lemma FirstDiffers(p: Path, q: Path, k: nat)
    requires 0 < k && k <= |p| && k <= |q| && p[0] != q[0]
    ensures p[..k] != q[..k]
  {
    assert p[..k][0] == p[0] && q[..k][0] == q[0];
  }

  /** Equal first steps do not matter. */
  lemma PrefixStep(p: Path, q: Path, k: nat)
    requires k < |p| && k < |q| && p[0] == q[0]
    ensures p[..k + 1] == q[..k + 1] <==> p[1..][..k] == q[1..][..k]
  {
    assert p[..k + 1] == [p[0]] + p[1..][..k] && q[..k + 1] == [q[0]] + q[1..][..k];
    assert p[..k + 1][1..] == p[1..][..k] && q[..k + 1][1..] == q[1..][..k];
  }

  lemma BranchesStep(p: Path, q: Path, k: nat)
    requires p != [] && q != [] && p[0] == q[0]
    ensures Branches(p, q, k + 1) <==> Branches(p[1..], q[1..], k)
  {
    if k + 1 < |p| && k + 1 < |q| {
      PrefixStep(p, q, k);
    }
  }

  lemma FrontStep(p: Path, q: Path)
    requires p != [] && q != [] && p[0] == q[0]
    ensures InFront(p, q) <==> InFront(p[1..], q[1..])
  {
    if |p| <= |q| {
      PrefixStep(p, q, |p| - 1);
      assert p[..|p|] == p && p[1..][..|p| - 1] == p[1..];
    }
    if k: nat :| Branches(p, q, k) {
      BranchesStep(p, q, k - 1);
    }
    if k: nat :| Branches(p[1..], q[1..], k) {
      BranchesStep(p, q, k);
    }
  }

  lemma FrontUnlike(p: Path, q: Path)
    requires p != [] && q != [] && p[0] != q[0]
    ensures InFront(p, q) <==> p[0] < q[0]
  {
    if p[0] < q[0] {
      assert Branches(p, q, 0);
    }
    if |p| < |q| {
      FirstDiffers(p, q, |p|);
      assert p[..|p|] == p;
    }
    if k: nat :| Branches(p, q, k) {
      if k > 0 {
        FirstDiffers(p, q, k);
      }
    }
  }

  lemma {:induction false} PrecedesIff(p: Path, q: Path)
    ensures Precedes(p, q) <==> InFront(p, q)
    decreases |p|
  {
    if q == [] || p == [] {
    } else if p[0] == q[0] {
      PrecedesIff(p[1..], q[1..]);
      FrontStep(p, q);
    } else {
      FrontUnlike(p, q);
    }
  }

  /**
   The answer: the first DIV of class SRChildren, in document order, among the nodes reached by
   descending only through DIVs, or nothing if there is none.
   */
  ghost predicate FirstBox(root: Node, r: Found) {
    match r
    case Nothing =>
      forall p :: ThroughDivs(root, p) ==> !(At(root, p).isDiv && At(root, p).className == "SRChildren")
    case Element(p) =>
      && ThroughDivs(root, p) && At(root, p).isDiv && At(root, p).className == "SRChildren"
      && forall q :: ThroughDivs(root, q) && At(root, q).isDiv && At(root, q).className == "SRChildren" ==>
           q == p || InFront(p, q)
  }

  /** What `FindChildElement` returns is that answer. */
  lemma FindsFirstInDocumentOrder(root: Node)
    ensures AllExist(root, Visits(root))
    ensures FirstBox(root, FirstWanted(root, Visits(root)))
  {
    WalkExists(root, [], 0);
    WalkInOrder(root.kids, [], 0);
    FirstWantedMeans(root, Visits(root));
    forall p: Path
      ensures p in Visits(root) <==> ThroughDivs(root, p)
    {
      WalkHolds(root.kids, [], 0, p);
      assert |p| > 0 ==> p[0..] == p;
      BelowIff(root, p);
    }
    forall p, q
      ensures Precedes(p, q) <==> InFront(p, q)
    {
      PrecedesIff(p, q);
    }
  }
}
