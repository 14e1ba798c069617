/** What both graph walks of the tooling are held against: the nodes some path reaches. */
module Reachability {

  ghost predicate IsPath<N(!new)>(roots: set<N>, succ: N -> set<N>, p: seq<N>) {
    && p != [] && p[0] in roots
    && forall i :: 0 < i < |p| ==> p[i] in succ(p[i - 1])
  }

  ghost predicate Reachable<N(!new)>(roots: set<N>, succ: N -> set<N>, n: N) {
    exists p :: IsPath(roots, succ, p) && p[|p| - 1] == n
  }

  ghost predicate Closed<N(!new)>(succ: N -> set<N>, s: set<N>) {
    forall n :: n in s ==> succ(n) <= s
  }

  lemma RootReachable<N(!new)>(roots: set<N>, succ: N -> set<N>, n: N)
    requires n in roots
    ensures Reachable(roots, succ, n)
  {
    assert IsPath(roots, succ, [n]) && [n][|[n]| - 1] == n;
  }

  lemma SuccessorReachable<N(!new)>(roots: set<N>, succ: N -> set<N>, n: N, m: N)
    requires Reachable(roots, succ, n) && m in succ(n)
    ensures Reachable(roots, succ, m)
  {
    var p :| IsPath(roots, succ, p) && p[|p| - 1] == n;
    var q := p + [m];
    assert IsPath(roots, succ, q) && q[|q| - 1] == m;
  }

  lemma {:induction false} PathStaysInside<N(!new)>(roots: set<N>, succ: N -> set<N>, s: set<N>, p: seq<N>)
    requires roots <= s && Closed(succ, s) && IsPath(roots, succ, p)
    ensures p[|p| - 1] in s
  {
    if |p| > 1 {
      var q := p[..|p| - 1];
      assert IsPath(roots, succ, q);
      PathStaysInside(roots, succ, s, q);
    }
  }

  /**
   * A set that holds the roots, is closed, and holds nothing unreachable is the
   * reachable set, and it is contained in every other closed set of the roots.
   */
  lemma ClosedAndReachableIsLeast<N(!new)>(roots: set<N>, succ: N -> set<N>, s: set<N>)
    requires roots <= s && Closed(succ, s) && forall n :: n in s ==> Reachable(roots, succ, n)
    ensures forall n :: n in s <==> Reachable(roots, succ, n)
    ensures forall t: set<N> :: roots <= t && Closed(succ, t) ==> s <= t
  {
    forall n | Reachable(roots, succ, n) ensures n in s {
      var p :| IsPath(roots, succ, p) && p[|p| - 1] == n;
      PathStaysInside(roots, succ, s, p);
    }
    forall t: set<N>, n | roots <= t && Closed(succ, t) && n in s ensures n in t {
      var p :| IsPath(roots, succ, p) && p[|p| - 1] == n;
      PathStaysInside(roots, succ, t, p);
    }
  }

  /** The nodes on a list. */
  function Elements<T(==)>(s: seq<T>): set<T> { set x | x in s }

  /** What a walk has found at any point: nothing outside the reachable set, and no edge lost. */
  ghost predicate Progress<N(!new)>(roots: set<N>, succ: N -> set<N>, seen: set<N>, pending: seq<N>) {
    && (forall n :: n in roots ==> n in seen || n in pending)
    && (forall n, m :: n in seen && m in succ(n) ==> m in seen || m in pending)
    && (forall n :: n in seen ==> Reachable(roots, succ, n))
    && (forall n :: n in pending ==> Reachable(roots, succ, n))
  }

  lemma PendingIsReachable<N(!new)>(roots: set<N>, succ: N -> set<N>, seen: set<N>, pending: seq<N>, n: N)
    requires Progress(roots, succ, seen, pending) && n in pending
    ensures Reachable(roots, succ, n)
  {
  }

  /** Taking any node off the pending list and putting its successors on it keeps the progress made. */
  lemma VisitKeepsProgress<N(!new)>(roots: set<N>, succ: N -> set<N>, seen: set<N>, pending: seq<N>,
                                    n: N, rest: seq<N>, added: seq<N>)
    requires Progress(roots, succ, seen, pending)
    requires n in pending && forall m :: m in pending <==> m == n || m in rest
    requires n in seen ==> added == []
    requires n !in seen ==> forall m :: m in added <==> m in succ(n)
    ensures Progress(roots, succ, seen + {n}, rest + added)
  {
    forall m | m in added ensures Reachable(roots, succ, m) { SuccessorReachable(roots, succ, n, m); }
  }

  lemma StartProgress<N(!new)>(roots: set<N>, succ: N -> set<N>, pending: seq<N>)
    requires forall n :: n in pending <==> n in roots
    ensures Progress(roots, succ, {}, pending)
  {
    forall n | n in roots ensures Reachable(roots, succ, n) { RootReachable(roots, succ, n); }
  }

  /** With nothing pending the walk has found exactly the reachable set, whatever order it took. */
  lemma DoneIsReachable<N(!new)>(roots: set<N>, succ: N -> set<N>, seen: set<N>)
    requires Progress(roots, succ, seen, [])
    ensures forall n :: n in seen <==> Reachable(roots, succ, n)
    ensures forall t: set<N> :: roots <= t && Closed(succ, t) ==> seen <= t
  {
    ClosedAndReachableIsLeast(roots, succ, seen);
  }

  /** Two finished walks of one graph, in any two orders, have seen the same nodes. */
  lemma OrderDoesNotMatter<N(!new)>(roots: set<N>, succ: N -> set<N>, seen1: set<N>, seen2: set<N>)
    requires Progress(roots, succ, seen1, []) && Progress(roots, succ, seen2, [])
    ensures seen1 == seen2
  {
    DoneIsReachable(roots, succ, seen1);
    DoneIsReachable(roots, succ, seen2);
  }
}
