/**
  What the perfect-matching search guarantees: every stored selection has
  half as many sources as there are paths, no two of them share a path, it
  is stored sorted and, with an even number of paths, it covers every path
  exactly once; every perfect matching of the setup is stored; and no
  selection is stored twice.
*/
module MatchingProofs {
  import opened Sources
  import opened Matchings

  /** What holds at every call of the search: the remaining graph has no
      repetitions, the current selection is vertex-disjoint, and no remaining
      source shares a path with a selected one. */
  ghost predicate SearchInv(setup: Setup, g: seq<nat>, chosen: seq<nat>)
  {
    && ValidIn(setup, g) && ValidIn(setup, chosen)
    && Distinct(g)
    && VertexDisjoint(setup, chosen)
    && (forall i, j :: i in g && j in chosen ==> !Clashes(setup[i], setup[j]))
  }

  /** A set of sources of the setup that reaches every path of the setup,
      no two of them sharing a path: each path is reached exactly once. */
  ghost predicate IsPerfectMatching(setup: Setup, M: set<nat>)
  {
    && (forall i :: i in M ==> i < |setup|)
    && (forall a, b :: a in M && b in M && a != b ==> !Clashes(setup[a], setup[b]))
    && (forall v :: v in Vertices(setup, AllSources(setup)) ==> exists i :: i in M && Touches(setup[i], v))
  }

  lemma {:induction false} DistinctConcat<T>(a: seq<T>, b: seq<T>)
    requires Distinct(a) && Distinct(b)
    requires forall x, y :: x in a && y in b ==> x != y
    ensures Distinct(a + b)
  {
    var c := a + b;
    forall i, j | 0 <= i < j < |c| ensures c[i] != c[j] {
      if j < |a| {
        assert c[i] == a[i] && c[j] == a[j];
      } else if i < |a| {
        assert c[i] == a[i] && c[j] == b[j - |a|];
        assert a[i] in a && b[j - |a|] in b;
      } else {
        assert c[i] == b[i - |a|] && c[j] == b[j - |a|];
      }
    }
  }

  /** A selection stored by the branches on `conn` comes from one of them. */
  lemma {:induction false} BranchOf(setup: Setup, g: seq<nat>, conn: seq<nat>, chosen: seq<nat>, k: int, x: seq<nat>)
    returns (j: nat)
    requires ValidIn(setup, g) && (forall e :: e in conn ==> e in g)
    requires x in Branches(setup, g, conn, chosen, k)
    ensures j < |conn| && conn[j] in g
    ensures x in Enumerate(setup, Reduce(setup, g, conn[j]), chosen + [conn[j]], k - 1)
    decreases |conn|
  {
    assert conn[0] in conn;
    if x in Enumerate(setup, Reduce(setup, g, conn[0]), chosen + [conn[0]], k - 1) {
      j := 0;
    } else {
      var j' := BranchOf(setup, g, conn[1..], chosen, k, x);
      j := j' + 1;
      assert conn[1..][j'] == conn[j];
    }
  }

  /** A selection stored by one of the branches on `conn` is stored by them. */
  lemma {:induction false} BranchIn(setup: Setup, g: seq<nat>, conn: seq<nat>, chosen: seq<nat>, k: int, j: nat, x: seq<nat>)
    requires ValidIn(setup, g) && (forall e :: e in conn ==> e in g)
    requires j < |conn| && conn[j] in g
    requires x in Enumerate(setup, Reduce(setup, g, conn[j]), chosen + [conn[j]], k - 1)
    ensures x in Branches(setup, g, conn, chosen, k)
    decreases |conn|
  {
    assert conn[0] in conn;
    if j > 0 {
      assert forall e :: e in conn[1..] ==> e in conn;
      assert x in Branches(setup, g, conn[1..], chosen, k) by {
        assert conn[1..][j - 1] == conn[j];
        BranchIn(setup, g, conn[1..], chosen, k, j - 1, x);
      }
    }
    assert Branches(setup, g, conn, chosen, k)
        == Enumerate(setup, Reduce(setup, g, conn[0]), chosen + [conn[0]], k - 1)
           + Branches(setup, g, conn[1..], chosen, k);
  }

  /** Choosing source `e` of the remaining graph keeps the search invariant. */
  lemma {:induction false} StepInv(setup: Setup, g: seq<nat>, chosen: seq<nat>, e: nat)
    requires SearchInv(setup, g, chosen) && e in g
    ensures e < |setup| && e !in chosen
    ensures SearchInv(setup, Reduce(setup, g, e), chosen + [e])
  {
    var s := setup[e];
    assert Clashes(s, s);
    ReduceMembers(setup, g, e);
    var c := chosen + [e];
    assert Elems(c) == Elems(chosen) + {e};
    forall i, j | 0 <= i < j < |c| ensures c[i] != c[j] {
      if j < |chosen| {
        assert c[i] == chosen[i] && c[j] == chosen[j];
      } else {
        assert c[i] in chosen;
      }
    }
    forall a, b | a in c && b in c && a != b ensures !Clashes(setup[a], setup[b]) {
      if a == e {
        assert b in chosen;
      } else if b == e {
        assert a in chosen;
        assert !Clashes(setup[b], setup[a]);
      }
    }
  }

  /** Soundness of the search: a stored selection holds the current one plus
      exactly `k` sources of the remaining graph, is sorted, and no two of
      its sources share a path. */
  lemma {:induction false} EnumerateSound(setup: Setup, g: seq<nat>, chosen: seq<nat>, k: int, x: seq<nat>)
    requires SearchInv(setup, g, chosen)
    requires x in Enumerate(setup, g, chosen, k)
    ensures |x| == |chosen| + k
    ensures Elems(chosen) <= Elems(x) <= Elems(chosen) + Elems(g)
    ensures ValidIn(setup, x) && VertexDisjoint(setup, x) && Sorted(x)
    decreases |g|, 1
  {
    if |g| > 0 {
      var conn := Incident(setup, g, MinDegreeVertex(setup, g));
      EnumerateUnfold(setup, g, chosen, k);
      var j := BranchOf(setup, g, conn, chosen, k, x);
      BranchSound(setup, g, chosen, k, conn[j], x);
    } else {
      assert k == 0 && x == Sort(chosen);
      StoredSelection(setup, chosen);
    }
  }

  /** Soundness of the branch that chooses source `e` of the remaining graph. */
  lemma {:induction false} BranchSound(setup: Setup, g: seq<nat>, chosen: seq<nat>, k: int, e: nat, x: seq<nat>)
    requires SearchInv(setup, g, chosen) && e in g
    requires x in Enumerate(setup, Reduce(setup, g, e), chosen + [e], k - 1)
    ensures |x| == |chosen| + k
    ensures Elems(chosen) <= Elems(x) <= Elems(chosen) + Elems(g)
    ensures ValidIn(setup, x) && VertexDisjoint(setup, x) && Sorted(x)
    decreases |g|, 0
  {
    StepInv(setup, g, chosen, e);
    ReduceMembers(setup, g, e);
    EnumerateSound(setup, Reduce(setup, g, e), chosen + [e], k - 1, x);
    assert Elems(chosen + [e]) == Elems(chosen) + {e};
  }

  /** The stored form of a vertex-disjoint selection has its length and its
      sources, is sorted and is vertex-disjoint. */
  lemma {:induction false} StoredSelection(setup: Setup, chosen: seq<nat>)
    requires ValidIn(setup, chosen) && VertexDisjoint(setup, chosen)
    ensures |Sort(chosen)| == |chosen| && Elems(Sort(chosen)) == Elems(chosen)
    ensures ValidIn(setup, Sort(chosen)) && VertexDisjoint(setup, Sort(chosen)) && Sorted(Sort(chosen))
  {
    var x := Sort(chosen);
    SortSorted(chosen);
    assert |x| == |multiset(x)| == |multiset(chosen)| == |chosen|;
    assert forall a :: a in x ==> a in Elems(x);
    assert forall a :: a in Elems(chosen) ==> a in chosen;
    forall m | 0 <= m < |x| ensures x[m] < |setup| {
      assert x[m] in Elems(chosen);
    }
  }

  /** The search stores no selection twice. */
  lemma {:induction false} EnumerateDistinct(setup: Setup, g: seq<nat>, chosen: seq<nat>, k: int)
    requires SearchInv(setup, g, chosen)
    ensures Distinct(Enumerate(setup, g, chosen, k))
    decreases |g|, 1
  {
    if |g| > 0 {
      var v := MinDegreeVertex(setup, g);
      EnumerateUnfold(setup, g, chosen, k);
      IncidentMembers(setup, g, v);
      BranchesDistinct(setup, g, Incident(setup, g, v), chosen, k, v);
    }
  }

  /** A selection stored by the first branch on `conn` is not stored by the
      later ones: it holds `conn[0]`, which they all discard, since every
      source in `conn` touches the vertex `v`. */
  lemma {:induction false} FirstBranchApart(setup: Setup, g: seq<nat>, conn: seq<nat>, chosen: seq<nat>, k: int, v: nat,
                         x: seq<nat>, y: seq<nat>)
    requires SearchInv(setup, g, chosen)
    requires Distinct(conn) && conn != []
    requires forall e :: e in conn ==> e in g && Touches(setup[e], v)
    requires conn[0] in g
    requires x in Enumerate(setup, Reduce(setup, g, conn[0]), chosen + [conn[0]], k - 1)
    requires y in Branches(setup, g, conn[1..], chosen, k)
    ensures x != y
  {
    var e := conn[0];
    BranchHolds(setup, g, chosen, k, e, x);
    var j := BranchOf(setup, g, conn[1..], chosen, k, y);
    var f := conn[1..][j];
    assert f == conn[j + 1] && f != e;
    assert f in conn && e in conn;
    assert Clashes(setup[e], setup[f]);
    BranchLacks(setup, g, chosen, k, f, e, y);
  }

  /** A selection stored by the branch that chooses `e` holds `e`. */
  lemma {:induction false} BranchHolds(setup: Setup, g: seq<nat>, chosen: seq<nat>, k: int, e: nat, x: seq<nat>)
    requires SearchInv(setup, g, chosen) && e in g
    requires x in Enumerate(setup, Reduce(setup, g, e), chosen + [e], k - 1)
    ensures e in x
  {
    StepInv(setup, g, chosen, e);
    EnumerateSound(setup, Reduce(setup, g, e), chosen + [e], k - 1, x);
    assert e in Elems(chosen + [e]);
  }

  /** A selection stored by the branch that chooses `f` lacks every source
      of the remaining graph that shares a path with `f`. */
  lemma {:induction false} BranchLacks(setup: Setup, g: seq<nat>, chosen: seq<nat>, k: int, f: nat, e: nat, y: seq<nat>)
    requires SearchInv(setup, g, chosen) && f in g && e in g && e != f
    requires Clashes(setup[e], setup[f])
    requires y in Enumerate(setup, Reduce(setup, g, f), chosen + [f], k - 1)
    ensures e !in y
  {
    StepInv(setup, g, chosen, e);
    StepInv(setup, g, chosen, f);
    EnumerateSound(setup, Reduce(setup, g, f), chosen + [f], k - 1, y);
    ReduceMembers(setup, g, f);
    assert e !in Elems(chosen + [f]) + Elems(Reduce(setup, g, f));
  }

  /** Branches on different sources that all touch one vertex `v` store
      different selections. */
  lemma {:induction false} BranchesDistinct(setup: Setup, g: seq<nat>, conn: seq<nat>, chosen: seq<nat>, k: int, v: nat)
    requires SearchInv(setup, g, chosen)
    requires Distinct(conn)
    requires forall e :: e in conn ==> e in g && Touches(setup[e], v)
    ensures Distinct(Branches(setup, g, conn, chosen, k))
    decreases |g|, 0, |conn|
  {
    if conn != [] {
      var e := conn[0];
      assert e in conn;
      StepInv(setup, g, chosen, e);
      var head := Enumerate(setup, Reduce(setup, g, e), chosen + [e], k - 1);
      var tail := Branches(setup, g, conn[1..], chosen, k);
      EnumerateDistinct(setup, Reduce(setup, g, e), chosen + [e], k - 1);
      DistinctTail(conn);
      BranchesDistinct(setup, g, conn[1..], chosen, k, v);
      forall x, y | x in head && y in tail ensures x != y {
        FirstBranchApart(setup, g, conn, chosen, k, v, x, y);
      }
      DistinctConcat(head, tail);
    }
  }

  /** Once `e` of the perfect matching `M` of `g` is chosen, the rest of `M`
      is a perfect matching of the reduced graph. */
  lemma {:induction false} ReducedMatching(setup: Setup, g: seq<nat>, e: nat, M: set<nat>)
    requires ValidIn(setup, g) && M <= Elems(g) && e in M
    requires forall a, b :: a in M && b in M && a != b ==> !Clashes(setup[a], setup[b])
    requires forall v :: v in Vertices(setup, g) ==> exists i :: i in M && Touches(setup[i], v)
    ensures M - {e} <= Elems(Reduce(setup, g, e))
    ensures forall w :: w in Vertices(setup, Reduce(setup, g, e)) ==> exists i :: i in M - {e} && Touches(setup[i], w)
  {
    var g' := Reduce(setup, g, e);
    ReduceMembers(setup, g, e);
    forall i | i in M - {e} ensures i in g' {
      assert !Clashes(setup[i], setup[e]);
    }
    VerticesTouched(setup, g);
    VerticesTouched(setup, g');
    forall w | w in Vertices(setup, g') ensures exists i :: i in M - {e} && Touches(setup[i], w) {
      var f :| f in g' && Touches(setup[f], w);
      assert !Clashes(setup[f], setup[e]);
      assert !Touches(setup[e], w);
      assert w in Vertices(setup, g);
      var i :| i in M && Touches(setup[i], w);
      assert i != e;
    }
  }

  /** Completeness of the search: every set `M` of `k` sources of the
      remaining graph that reaches each of its paths exactly once is stored,
      together with the current selection. */
  lemma {:induction false} EnumerateComplete(setup: Setup, g: seq<nat>, chosen: seq<nat>, k: int, M: set<nat>)
    returns (x: seq<nat>)
    requires SearchInv(setup, g, chosen)
    requires M <= Elems(g) && |M| == k
    requires forall a, b :: a in M && b in M && a != b ==> !Clashes(setup[a], setup[b])
    requires forall v :: v in Vertices(setup, g) ==> exists i :: i in M && Touches(setup[i], v)
    ensures x in Enumerate(setup, g, chosen, k) && Elems(x) == Elems(chosen) + M
    decreases |g|, 1
  {
    if |g| == 0 {
      assert M == {};
      SortSorted(chosen);
      x := Sort(chosen);
    } else {
      var v := MinDegreeVertex(setup, g);
      MinDegreeVertexIsMinimal(setup, g);
      VerticesTouched(setup, g);
      var e :| e in M && Touches(setup[e], v);
      var conn := Incident(setup, g, v);
      IncidentMembers(setup, g, v);
      EnumerateUnfold(setup, g, chosen, k);
      assert e in conn;
      var j :| 0 <= j < |conn| && conn[j] == e;
      x := BranchComplete(setup, g, chosen, k, M, e);
      BranchIn(setup, g, conn, chosen, k, j, x);
    }
  }

  /** The branch that chooses source `e` of the perfect matching `M` stores
      the current selection together with `M`. */
  lemma {:induction false} BranchComplete(setup: Setup, g: seq<nat>, chosen: seq<nat>, k: int, M: set<nat>, e: nat)
    returns (x: seq<nat>)
    requires SearchInv(setup, g, chosen)
    requires M <= Elems(g) && |M| == k && e in M
    requires forall a, b :: a in M && b in M && a != b ==> !Clashes(setup[a], setup[b])
    requires forall v :: v in Vertices(setup, g) ==> exists i :: i in M && Touches(setup[i], v)
    ensures e in g
    ensures x in Enumerate(setup, Reduce(setup, g, e), chosen + [e], k - 1)
    ensures Elems(x) == Elems(chosen) + M
    decreases |g|, 0
  {
    assert e in Elems(g);
    StepInv(setup, g, chosen, e);
    ReducedMatching(setup, g, e, M);
    x := EnumerateComplete(setup, Reduce(setup, g, e), chosen + [e], k - 1, M - {e});
    assert Elems(chosen + [e]) == Elems(chosen) + {e};
  }

  /** The search starts from the whole setup and an empty selection. */
  lemma {:induction false} InitialSearchInv(setup: Setup)
    ensures SearchInv(setup, AllSources(setup), [])
  {
  }

  /** Each stored matching of the setup has half as many sources as there are
      paths (rounded down), is sorted, and no two of its sources share a path.
      Without self-loops it reaches 2 * (PathCount / 2) paths of the setup: all
      of them when their number is even, all but one when it is odd; with an
      even number it is a perfect matching. */
  lemma {:induction false} PerfectMatchingsSound(setup: Setup, x: seq<nat>)
    requires x in PerfectMatchings(setup)
    ensures |x| == PathCount(setup) / 2
    ensures ValidIn(setup, x) && VertexDisjoint(setup, x) && Sorted(x)
    ensures NoSelfLoops(setup) ==>
              Vertices(setup, x) <= Vertices(setup, AllSources(setup))
              && |Vertices(setup, x)| == 2 * (PathCount(setup) / 2)
    ensures NoSelfLoops(setup) && PathCount(setup) % 2 == 0 ==> IsPerfectMatching(setup, Elems(x))
  {
    var all := AllSources(setup);
    InitialSearchInv(setup);
    EnumerateSound(setup, all, [], PathCount(setup) / 2, x);
    if NoSelfLoops(setup) {
      DisjointVertexCount(setup, x);
      VerticesTouched(setup, x);
      VerticesTouched(setup, all);
      assert Vertices(setup, x) <= Vertices(setup, all) by {
        forall w | w in Vertices(setup, x) ensures w in Vertices(setup, all) {
          var i :| i in x && Touches(setup[i], w);
          assert i in all;
        }
      }
      if PathCount(setup) % 2 == 0 {
        SubsetOfSameSize(Vertices(setup, x), Vertices(setup, all));
      }
    }
  }

  /** A perfect matching of a setup without self-loops has half as many
      sources as the setup has paths. */
  lemma {:induction false} PerfectMatchingSize(setup: Setup, M: set<nat>)
    requires NoSelfLoops(setup) && IsPerfectMatching(setup, M)
    ensures |M| == PathCount(setup) / 2 && PathCount(setup) % 2 == 0
  {
    var all := AllSources(setup);
    var s := SeqOf(M);
    forall m | 0 <= m < |s| ensures s[m] < |setup| {
      assert s[m] in Elems(s);
      assert s[m] in M;
    }
    assert ValidIn(setup, s);
    assert forall i :: i in s <==> i in M by {
      forall i ensures i in s <==> i in M {
        assert i in s <==> i in Elems(s);
      }
    }
    assert VertexDisjoint(setup, s);
    DisjointVertexCount(setup, s);
    VerticesTouched(setup, s);
    VerticesTouched(setup, all);
    assert Vertices(setup, s) == Vertices(setup, all) by {
      forall w | w in Vertices(setup, s) ensures w in Vertices(setup, all) {
        var i :| i in s && Touches(setup[i], w);
        assert i in all;
      }
      forall w | w in Vertices(setup, all) ensures w in Vertices(setup, s) {
        var i :| i in M && Touches(setup[i], w);
        assert i in s;
      }
    }
  }

  /** Every perfect matching of the setup is stored, as the sorted list of its sources. */
  lemma {:induction false} PerfectMatchingsComplete(setup: Setup, M: set<nat>)
    requires NoSelfLoops(setup) && IsPerfectMatching(setup, M)
    ensures exists x :: x in PerfectMatchings(setup) && Elems(x) == M && Sorted(x)
  {
    var all := AllSources(setup);
    PerfectMatchingSize(setup, M);
    InitialSearchInv(setup);
    assert M <= Elems(all);
    var none: seq<nat> := [];
    assert PerfectMatchings(setup) == Enumerate(setup, all, none, PathCount(setup) / 2);
    var x := EnumerateComplete(setup, all, none, PathCount(setup) / 2, M);
    EnumerateSound(setup, all, none, PathCount(setup) / 2, x);
    assert Elems(x) == M;
  }

  /** No perfect matching is stored twice. */
  lemma {:induction false} PerfectMatchingsDistinct(setup: Setup)
    ensures Distinct(PerfectMatchings(setup))
  {
    InitialSearchInv(setup);
    EnumerateDistinct(setup, AllSources(setup), [], PathCount(setup) / 2);
  }
}
