/**
 Sizzle's walk from each element of a set to its nearest ancestor of a given name, which stamps the
 nodes it passes so that later walks of the same set can stop early.
 */
module AncestorWalk {

  const ELEMENT := 1
  const UNSTAMPED := -1

  class Node {
    const parent: Node?
    const nodeType: int
    const nodeName: string
    ghost const depth: nat
    var sizcache: int
    var sizset: nat

    constructor (parent: Node?, nodeType: int, nodeName: string)
      requires Rooted(parent)
      ensures this.parent == parent && this.nodeType == nodeType && this.nodeName == nodeName
      ensures Rooted(this) && sizcache == UNSTAMPED
    {
      this.parent, this.nodeType, this.nodeName := parent, nodeType, nodeName;
      this.depth := if parent == null then 0 else parent.depth + 1;
      this.sizcache, this.sizset := UNSTAMPED, 0;
    }
  }

  /** The chain of parents ends. */
  ghost predicate Rooted(n: Node?)
    decreases if n == null then 0 else n.depth + 1
  {
    n == null || ((n.parent == null || n.parent.depth < n.depth) && Rooted(n.parent))
  }

  /** A set of nodes closed under parents. */
  ghost predicate Document(doc: set<Node>) {
    forall n :: n in doc ==> Rooted(n) && (n.parent == null || n.parent in doc)
  }

  /** The k-th node on the way up, n itself for k = 0; null when the way ends before. */
  ghost function Above(n: Node?, k: nat): Node? {
    if n == null || k == 0 then n else Above(n.parent, k - 1)
  }

  ghost predicate NameAt(n: Node?, k: nat, name: string) {
    Above(n, k) != null && Above(n, k).nodeName == name
  }

  /** r is the first node above start with this name; null if no node above it has the name. */
  ghost predicate NearestAbove(start: Node, name: string, r: Node?) {
    if r == null then forall k: nat :: k >= 1 ==> !NameAt(start, k, name)
    else exists k: nat :: k >= 1 && Above(start, k) == r && NameAt(start, k, name)
                          && forall j: nat :: 1 <= j < k ==> !NameAt(start, j, name)
  }

  /** The uncached walk: the nearest node at n or above it with this name; null stands for false. */
  ghost function Nearest(n: Node?, name: string): Node?
    requires Rooted(n)
    decreases if n == null then 0 else n.depth + 1
  {
    if n == null || n.nodeName == name then n else Nearest(n.parent, name)
  }

  lemma {:induction false} NoneAbove(n: Node?, name: string, k: nat)
    requires Rooted(n) && Nearest(n, name) == null
    ensures !NameAt(n, k, name)
    decreases k
  {
    if n == null || k == 0 {
    } else {
      NoneAbove(n.parent, name, k - 1);
    }
  }

  lemma {:induction false} FoundAbove(n: Node?, name: string) returns (k: nat)
    requires Rooted(n) && Nearest(n, name) != null
    ensures Above(n, k) == Nearest(n, name) && NameAt(n, k, name)
    ensures forall j: nat :: j < k ==> !NameAt(n, j, name)
    decreases n.depth
  {
    if n.nodeName == name {
      k := 0;
    } else {
      var up := FoundAbove(n.parent, name);
      k := up + 1;
      forall j: nat | j < k
        ensures !NameAt(n, j, name)
      {
        assert j > 0 ==> Above(n, j) == Above(n.parent, j - 1);
        assert j > 0 ==> !NameAt(n.parent, j - 1, name);
      }
    }
  }

  /** The uncached walk from the parent finds the nearest node above. */
  lemma NearestIsAbove(start: Node, name: string)
    requires Rooted(start)
    ensures NearestAbove(start, name, Nearest(start.parent, name))
  {
    if Nearest(start.parent, name) == null {
      forall k: nat | k >= 1
        ensures !NameAt(start, k, name)
      {
        NoneAbove(start.parent, name, k - 1);
      }
    } else {
      var k := FoundAbove(start.parent, name);
      assert Above(start, k + 1) == Above(start.parent, k);
      forall j: nat | 1 <= j < k + 1
        ensures !NameAt(start, j, name)
      {
        assert Above(start, j) == Above(start.parent, j - 1);
        assert !NameAt(start.parent, j - 1, name);
      }
      assert NameAt(start, k + 1, name);
    }
  }

  /** What a slot must hold in the end: an empty slot stays empty. */
  ghost predicate Answers(start: Node?, name: string, r: Node?) {
    if start == null then r == null else NearestAbove(start, name, r)
  }

  // ---------- What one walk stamps ----------

  ghost function Stamps(doc: set<Node>): map<Node, int>
    reads doc
  {
    map n | n in doc :: n.sizcache
  }

  ghost function Sets(doc: set<Node>): map<Node, nat>
    reads doc
  {
    map n | n in doc :: n.sizset
  }

  /** n is one of the first k nodes above start. */
  ghost predicate OnWay(start: Node, k: nat, n: Node) {
    exists j: nat :: 1 <= j <= k && Above(start, j) == n
  }

  /** The first k nodes above start are there, unstamped, and without the name. */
  ghost predicate Clear(start: Node, name: string, was: map<Node, int>, stamp: int, k: nat) {
    k > 0 ==>
      && Clear(start, name, was, stamp, k - 1)
      && Above(start, k) != null && Above(start, k) in was && was[Above(start, k)] != stamp
      && !NameAt(start, k, name)
  }

  /** A walk of k nodes ends at an unstamped node of the name, below a stamped node, or at the top. */
  ghost predicate Walked(start: Node, name: string, was: map<Node, int>, stamp: int, k: nat) {
    if k > 0 && NameAt(start, k, name) then
      Clear(start, name, was, stamp, k - 1) && Above(start, k) in was && was[Above(start, k)] != stamp
    else
      && Clear(start, name, was, stamp, k)
      && (Above(start, k + 1) == null || (Above(start, k + 1) in was && was[Above(start, k + 1)] == stamp))
  }

  /** A node that the walk stamps: an element it passes, outside XML. */
  ghost predicate GetsStamp(start: Node, k: nat, isXml: bool, n: Node) {
    OnWay(start, k, n) && n.nodeType == ELEMENT && !isXml
  }

  /** Of the nodes passed the elements get this value, outside XML; the others keep theirs. */
  ghost predicate Marked<T(!new)>(was: map<Node, T>, now: map<Node, T>, value: T, start: Node, k: nat, isXml: bool) {
    was.Keys == now.Keys && forall n :: n in now ==> now[n] == if GetsStamp(start, k, isXml, n) then value else was[n]
  }

  /** What one walk does to the stamps and to the slots they lead to. */
  ghost predicate StampsRight(start: Node, name: string, isXml: bool, stamp: int, w: nat,
      was: map<Node, int>, now: map<Node, int>, wasSet: map<Node, nat>, nowSet: map<Node, nat>)
  {
    exists k: nat ::
      Walked(start, name, was, stamp, k) && Marked(was, now, stamp, start, k, isXml)
      && Marked(wasSet, nowSet, w, start, k, isXml)
  }

  lemma {:induction false} AboveNext(n: Node?, k: nat)
    ensures Above(n, k) != null ==> Above(n, k + 1) == Above(n, k).parent
    decreases k
  {
    if n == null || k == 0 {
      assert n != null ==> Above(n, 1) == Above(n.parent, 0);
    } else {
      AboveNext(n.parent, k - 1);
    }
  }

  /** The marks after k nodes, one node after the other. */
  ghost function MarksAfter<T>(was: map<Node, T>, value: T, start: Node, k: nat, isXml: bool): map<Node, T> {
    if k == 0 then was
    else
      var now, t := MarksAfter(was, value, start, k - 1, isXml), Above(start, k);
      if t != null && t.nodeType == ELEMENT && !isXml then now[t := value] else now
  }

  ghost predicate AllIn<T>(start: Node, k: nat, was: map<Node, T>) {
    forall j: nat :: 1 <= j <= k ==> Above(start, j) != null && Above(start, j) in was
  }

  lemma {:induction false} MarksAfterIs<T(!new)>(was: map<Node, T>, value: T, start: Node, k: nat, isXml: bool)
    requires AllIn(start, k, was)
    ensures Marked(was, MarksAfter(was, value, start, k, isXml), value, start, k, isXml)
  {
    if k == 0 {
    } else {
      MarksAfterIs(was, value, start, k - 1, isXml);
      forall n | n in was
        ensures OnWay(start, k, n) <==> OnWay(start, k - 1, n) || n == Above(start, k)
      {
        if n == Above(start, k) {
          assert OnWay(start, k, n);
        }
      }
    }
  }

  /** Nodes lie strictly deeper the lower they are. */
  lemma {:induction false} DeeperBelow(start: Node?, j: nat, k: nat)
    requires Rooted(start) && j < k && Above(start, k) != null
    ensures Above(start, j) != null && Above(start, k).depth < Above(start, j).depth
    decreases k
  {
    if j == 0 {
      if k > 1 {
        DeeperBelow(start.parent, 0, k - 1);
      }
      assert Above(start, k) == Above(start.parent, k - 1);
    } else {
      DeeperBelow(start.parent, j - 1, k - 1);
    }
  }

  /** The walk has not yet been at the node that comes next. */
  lemma NotOnWay(start: Node, k: nat)
    requires Rooted(start) && Above(start, k + 1) != null
    ensures !OnWay(start, k, Above(start, k + 1))
  {
    forall j: nat | 1 <= j <= k
      ensures Above(start, j) != Above(start, k + 1)
    {
      DeeperBelow(start, j, k + 1);
    }
  }

  lemma {:induction false} ClearIn(start: Node, name: string, was: map<Node, int>, stamp: int, k: nat)
    requires Clear(start, name, was, stamp, k)
    ensures AllIn(start, k, was)
  {
    if k == 0 {
    } else {
      ClearIn(start, name, was, stamp, k - 1);
    }
  }

  /** Over clear nodes the answer stays the same. */
  lemma {:induction false} ClearAnswer(start: Node, name: string, was: map<Node, int>, stamp: int, k: nat, j: nat)
    requires Rooted(start) && Clear(start, name, was, stamp, k) && 1 <= j <= k + 1
    ensures Rooted(Above(start, j)) && Nearest(Above(start, j), name) == Nearest(start.parent, name)
  {
    if k == 0 {
      assert Above(start, 1) == Above(start.parent, 0);
    } else {
      ClearAnswer(start, name, was, stamp, k - 1, if j <= k then j else k);
      AboveNext(start, k);
    }
  }

  /** Every stamped node points to a finished slot that holds the answer for the node itself. */
  ghost predicate MarksRight(doc: set<Node>, stamp: int, name: string, slots: seq<Node?>, done: nat)
    requires Document(doc) && done <= |slots|
    reads doc
  {
    forall n :: n in doc && n.sizcache == stamp ==> n.sizset < done && slots[n.sizset] == Nearest(n, name)
  }

  /**
   Function P with direction parentNode. With a stamp that no node carries yet, every non-empty slot
   ends up with the nearest node of that name above the one it held, or null if there is none,
   whatever the slots share and whether or not stamping is on.
   */
  method WalkToParents(name: string, stamp: int, slots: array<Node?>, isXml: bool, ghost doc: set<Node>)
    requires Document(doc)
    requires forall w :: 0 <= w < slots.Length && slots[w] != null ==> slots[w] in doc
    requires forall n :: n in doc ==> n.sizcache != stamp
    modifies slots, doc`sizcache, doc`sizset
    ensures forall w :: 0 <= w < slots.Length ==> Answers(old(slots[w]), name, slots[w])
  {
    for w := 0 to slots.Length
      invariant forall k :: 0 <= k < w ==> Answers(old(slots[k]), name, slots[k])
      invariant forall k :: w <= k < slots.Length ==> slots[k] == old(slots[k])
      invariant MarksRight(doc, stamp, name, slots[..], w)
    {
      if slots[w] != null {
        var x := WalkFrom(name, stamp, slots, w, isXml, doc);
        slots[w] := x;
      }
    }
  }

  /** The marks that a walk of k nodes leaves behind lead to slots with the right answers. */
  lemma MarksMeet(doc: set<Node>, start: Node, name: string, stamp: int, slots: seq<Node?>, w: nat, isXml: bool,
      was: map<Node, int>, wasSet: map<Node, nat>, now: map<Node, int>, nowSet: map<Node, nat>, k: nat, n: Node)
    requires Document(doc) && start in doc && w < |slots| && n in now && now.Keys == doc == nowSet.Keys
    requires Walked(start, name, was, stamp, k)
    requires Marked(was, now, stamp, start, k, isXml) && Marked(wasSet, nowSet, w, start, k, isXml)
    requires forall m :: m in was && was[m] == stamp ==> wasSet[m] < w && slots[wasSet[m]] == Nearest(m, name)
    ensures now[n] == stamp ==> nowSet[n] < w + 1
    ensures now[n] == stamp ==> slots[w := Nearest(start.parent, name)][nowSet[n]] == Nearest(n, name)
  {
    if GetsStamp(start, k, isXml, n) {
      var j: nat :| 1 <= j <= k && Above(start, j) == n;
      ClearAnswer(start, name, was, stamp, if k > 0 && NameAt(start, k, name) then k - 1 else k, j);
    }
  }

  lemma MarksEnd(doc: set<Node>, start: Node, name: string, stamp: int, slots: seq<Node?>, w: nat, isXml: bool,
      was: map<Node, int>, wasSet: map<Node, nat>, k: nat)
    requires Document(doc) && start in doc && w < |slots| && was.Keys == doc == wasSet.Keys
    requires Walked(start, name, was, stamp, k)
    requires Stamps(doc) == MarksAfter(was, stamp, start, k, isXml)
    requires Sets(doc) == MarksAfter(wasSet, w, start, k, isXml)
    requires forall m :: m in was && was[m] == stamp ==> wasSet[m] < w && slots[wasSet[m]] == Nearest(m, name)
    ensures MarksRight(doc, stamp, name, slots[w := Nearest(start.parent, name)], w + 1)
    ensures StampsRight(start, name, isXml, stamp, w, was, Stamps(doc), wasSet, Sets(doc))
  {
    WalkedIn(start, name, was, stamp, k);
    MarksAfterIs(was, stamp, start, k, isXml);
    MarksAfterIs(wasSet, w, start, k, isXml);
    forall n | n in doc && n.sizcache == stamp
      ensures n.sizset < w + 1 && slots[w := Nearest(start.parent, name)][n.sizset] == Nearest(n, name)
    {
      assert Stamps(doc)[n] == n.sizcache && Sets(doc)[n] == n.sizset;
      MarksMeet(doc, start, name, stamp, slots, w, isXml, was, wasSet, Stamps(doc), Sets(doc), k, n);
    }
  }

  lemma WalkedIn(start: Node, name: string, was: map<Node, int>, stamp: int, k: nat)
    requires Walked(start, name, was, stamp, k)
    ensures AllIn(start, k, was)
  {
    ClearIn(start, name, was, stamp, if k > 0 && NameAt(start, k, name) then k - 1 else k);
  }

  /** What the walk meets next it has not marked yet. */
  lemma MeetsOld(start: Node, name: string, stamp: int, w: nat, isXml: bool,
      was: map<Node, int>, wasSet: map<Node, nat>, k: nat)
    requires Rooted(start) && Clear(start, name, was, stamp, k) && was.Keys == wasSet.Keys
    requires Above(start, k + 1) != null && Above(start, k + 1) in was
    ensures var t := Above(start, k + 1);
      && t in MarksAfter(was, stamp, start, k, isXml) && MarksAfter(was, stamp, start, k, isXml)[t] == was[t]
      && t in MarksAfter(wasSet, w, start, k, isXml) && MarksAfter(wasSet, w, start, k, isXml)[t] == wasSet[t]
  {
    ClearIn(start, name, was, stamp, k);
    MarksAfterIs(was, stamp, start, k, isXml);
    MarksAfterIs(wasSet, w, start, k, isXml);
    NotOnWay(start, k);
  }

  /** Writes the stamp of the walk on the next node. */
  method StampNode(t: Node, stamp: int, w: nat, isXml: bool, ghost doc: set<Node>, ghost start: Node, ghost k: nat,
      ghost was: map<Node, int>, ghost wasSet: map<Node, nat>)
    requires t in doc && t == Above(start, k + 1)
    requires Stamps(doc) == MarksAfter(was, stamp, start, k, isXml)
    requires Sets(doc) == MarksAfter(wasSet, w, start, k, isXml)
    modifies t`sizcache, t`sizset
    ensures Stamps(doc) == MarksAfter(was, stamp, start, k + 1, isXml)
    ensures Sets(doc) == MarksAfter(wasSet, w, start, k + 1, isXml)
  {
    if t.nodeType == ELEMENT && !isXml {
      t.sizcache := stamp;
      t.sizset := w;
    }
  }

  /** The loop of one walk, which passes k nodes. */
  method Climb(start: Node, name: string, stamp: int, slots: array<Node?>, w: nat, isXml: bool, ghost doc: set<Node>)
    returns (x: Node?, ghost k: nat)
    requires Document(doc) && start in doc && w < slots.Length && MarksRight(doc, stamp, name, slots[..], w)
    modifies doc`sizcache, doc`sizset
    ensures x == Nearest(start.parent, name) && Walked(start, name, old(Stamps(doc)), stamp, k)
    ensures Stamps(doc) == MarksAfter(old(Stamps(doc)), stamp, start, k, isXml)
    ensures Sets(doc) == MarksAfter(old(Sets(doc)), w, start, k, isXml)
  {
    ghost var was, wasSet, answer := Stamps(doc), Sets(doc), Nearest(start.parent, name);
    var t := start.parent;
    x, k := null, 0;
    AboveNext(start, 0);
    while t != null
      invariant t != null ==> t in doc
      invariant t == Above(start, k + 1) && Nearest(t, name) == answer && x == null
      invariant Clear(start, name, was, stamp, k)
      invariant Stamps(doc) == MarksAfter(was, stamp, start, k, isXml)
      invariant Sets(doc) == MarksAfter(wasSet, w, start, k, isXml)
      decreases if t == null then 0 else t.depth + 1
    {
      MeetsOld(start, name, stamp, w, isXml, was, wasSet, k);
      assert t.sizcache == Stamps(doc)[t] == was[t] && t.sizset == Sets(doc)[t] == wasSet[t];
      if t.sizcache == stamp {
        x := slots[t.sizset];
        break;
      }
      StampNode(t, stamp, w, isXml, doc, start, k, was, wasSet);
      AboveNext(start, k + 1);
      k := k + 1;
      if t.nodeName == name {
        x := t;
        break;
      }
      t := t.parent;
    }
  }

  /** One walk: reads finished slots through the stamps, leaves its own stamps behind. */
  method WalkFrom(name: string, stamp: int, slots: array<Node?>, w: nat, isXml: bool, ghost doc: set<Node>)
    returns (x: Node?)
    requires Document(doc) && w < slots.Length && slots[w] != null && slots[w] in doc
    requires MarksRight(doc, stamp, name, slots[..], w)
    modifies doc`sizcache, doc`sizset
    ensures NearestAbove(slots[w], name, x)
    ensures MarksRight(doc, stamp, name, slots[..][w := x], w + 1)
    ensures StampsRight(slots[w], name, isXml, stamp, w, old(Stamps(doc)), Stamps(doc), old(Sets(doc)), Sets(doc))
  {
    ghost var was, wasSet := Stamps(doc), Sets(doc);
    assert forall m :: m in was && was[m] == stamp ==> wasSet[m] < w && slots[..][wasSet[m]] == Nearest(m, name);
    ghost var k;
    x, k := Climb(slots[w], name, stamp, slots, w, isXml, doc);
    MarksEnd(doc, slots[w], name, stamp, slots[..], w, isXml, was, wasSet, k);
    NearestIsAbove(slots[w], name);
  }
}
