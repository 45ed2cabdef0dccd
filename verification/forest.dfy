/** Walks on an acyclic graph. */
module Forest {

  ghost predicate IsWalk(edge: (nat, nat) -> bool, w: seq<nat>) {
    forall i | 0 <= i < |w| - 1 :: edge(w[i], w[i + 1])
  }

  /** Never straight back to where it came from. */
  predicate NeverBack(w: seq<nat>) {
    forall i | 0 <= i < |w| - 2 :: w[i] != w[i + 2]
  }

  predicate IsSimple(w: seq<nat>) {
    forall i, j | 0 <= i < j < |w| :: w[i] != w[j]
  }

  ghost predicate IsCycle(edge: (nat, nat) -> bool, w: seq<nat>) {
    |w| >= 3 && IsSimple(w) && IsWalk(edge, w) && edge(w[|w| - 1], w[0])
  }

  /** No loops at a vertex and no cycles. */
  ghost predicate IsForest(edge: (nat, nat) -> bool) {
    && (forall v :: !edge(v, v))
    && (forall w :: !IsCycle(edge, w))
  }

  /** Whenever every vertex but 0 has one lower neighbour, and there are no other edges, it is a
      forest: routers that each connect to one that was there before. */
  lemma {:induction false} TreesAreForests(parent: nat -> nat, edge: (nat, nat) -> bool)
    requires forall v: nat | v > 0 :: parent(v) < v
    requires forall a: nat, b: nat :: edge(a, b) <==> IsLink(parent, a, b)
    ensures IsForest(edge)
  {
    forall w ensures !IsCycle(edge, w) {
      if IsCycle(edge, w) {
        var top, before, after := Summit(edge, w);
        assert false;
      }
    }
  }

  /** The highest vertex of a cycle and its two neighbours. */
  lemma Summit(edge: (nat, nat) -> bool, w: seq<nat>) returns (top: nat, before: nat, after: nat)
    requires IsCycle(edge, w)
    ensures edge(before, top) && edge(top, after) && before < top && after < top && before != after
  {
    var n := |w|;
    var m := Highest(w);
    top, before, after := w[m], if m == 0 then w[n - 1] else w[m - 1], if m == n - 1 then w[0] else w[m + 1];
  }

  predicate IsLink(parent: nat -> nat, a: nat, b: nat) {
    (a > 0 && parent(a) == b) || (b > 0 && parent(b) == a)
  }

  lemma Highest(w: seq<nat>) returns (m: nat)
    requires w != []
    ensures m < |w| && forall i | 0 <= i < |w| :: w[i] <= w[m]
  {
    m := 0;
    for k := 1 to |w|
      invariant m < k && forall i | 0 <= i < k :: w[i] <= w[m]
    {
      if w[k] > w[m] {
        m := k;
      }
    }
  }

  /** In a forest, a walk that never turns straight back never meets a vertex twice. */
  lemma {:induction false} WalkIsSimple(edge: (nat, nat) -> bool, w: seq<nat>)
    requires IsForest(edge) && IsWalk(edge, w) && NeverBack(w)
    ensures IsSimple(w)
  {
    if |w| >= 2 {
      var n := |w| - 1;
      var front, back := w[..n], w[1..];
      assert forall i | 0 <= i < |back| :: back[i] == w[i + 1];
      WalkIsSimple(edge, front);
      WalkIsSimple(edge, back);
      assert edge(w[n - 1], w[n]);
      if w[0] == w[n] {
        assert n != 1;
        assert n != 2;
        assert IsCycle(edge, front);
        assert false;
      }
      forall i, j | 0 <= i < j < |w|
        ensures w[i] != w[j]
      {
        if j < n {
          assert front[i] != front[j];
        } else if i > 0 {
          assert back[i - 1] != back[j - 1];
        }
      }
    }
  }

  /** A simple walk among n vertices has at most n of them. */
  lemma {:induction false} SimpleIsShort(w: seq<nat>, n: nat)
    requires IsSimple(w) && forall i | 0 <= i < |w| :: w[i] < n
    ensures |w| <= n
  {
    if w != [] {
      assert w[0] < n;
      if i :| 0 <= i < |w| && w[i] == n - 1 {
        SimpleIsShort(w[..i] + w[i + 1..], n - 1);
      } else {
        SimpleIsShort(w, n - 1);
      }
    }
  }
}
