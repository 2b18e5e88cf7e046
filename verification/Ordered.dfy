/** The order in which a `std::map` with unsigned keys is walked: keys ascending, each once. */
module Ordered {

  predicate Rising(s: seq<nat>) {
    forall i, j :: 0 <= i < j < |s| ==> s[i] < s[j]
  }

  lemma RisingPush(s: seq<nat>, x: nat)
    requires Rising(s) && forall v :: v in s ==> v < x
    ensures Rising(s + [x])
  {
    assert forall i :: 0 <= i < |s| ==> s[i] in s;
  }

  predicate IsLeast(s: set<nat>, m: nat) {
    m in s && forall x :: x in s ==> m <= x
  }

  lemma LeastGrows(s: set<nat>, a: nat, m: nat)
    requires a in s && IsLeast(s - {a}, m)
    ensures IsLeast(s, if a < m then a else m)
  {
    forall x | x in s
      ensures (if a < m then a else m) <= x
    {
      assert x != a ==> x in s - {a};
    }
  }

  lemma {:induction false} LeastOf(s: set<nat>) returns (m: nat)
    requires s != {}
    ensures IsLeast(s, m)
  {
    var a :| a in s;
    if s - {a} == {} {
      assert s == {a};
      m := a;
    } else {
      var b := LeastOf(s - {a});
      LeastGrows(s, a, b);
      m := if a < b then a else b;
    }
  }

  lemma LeastExists(s: set<nat>)
    requires s != {}
    ensures exists m :: IsLeast(s, m)
  {
    var m := LeastOf(s);
  }

  function Least(s: set<nat>): (m: nat)
    requires s != {}
    ensures IsLeast(s, m)
  {
    LeastExists(s);
    var m :| IsLeast(s, m);
    m
  }

  /** The keys of a set in iteration order. */
  function Ascending(s: set<nat>): (r: seq<nat>)
    ensures Rising(r)
    ensures forall x :: x in r <==> x in s
  {
    if s == {} then [] else
      var m := Least(s);
      [m] + Ascending(s - {m})
  }

  /** Iteration order is determined by the key set alone. */
  lemma {:induction false} AscendingUnique(r: seq<nat>, s: set<nat>)
    requires Rising(r)
    requires forall x :: x in r <==> x in s
    ensures r == Ascending(s)
  {
    if r == [] {
      assert forall x :: x !in s;
    } else {
      assert r[0] in s;
      var m := Least(s);
      assert m in r;
      assert r[0] == m;
      var tail := r[1..];
      assert r == [m] + tail;
      assert forall x :: x in tail <==> x in s - {m} by {
        forall x ensures x in tail <==> x in s - {m} {
          if x in tail {
            var i :| 0 <= i < |tail| && tail[i] == x;
            assert r[i + 1] == x && r[0] < r[i + 1];
          }
        }
      }
      AscendingUnique(tail, s - {m});
    }
  }

  lemma RisingFresh(s: seq<nat>, i: nat)
    requires Rising(s) && i < |s|
    ensures s[i] !in s[..i]
    ensures s[..i + 1] == s[..i] + [s[i]]
  {
  }

  /** The keys of a map, as a loop over a `std::map` meets them. */
  method KeysInOrder(s: set<nat>) returns (r: seq<nat>)
    ensures Rising(r)
    ensures forall x :: x in r <==> x in s
  {
    r := Ascending(s);
  }
}
