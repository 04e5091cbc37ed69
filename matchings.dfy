/**
  The perfect-matching search of the state builder.

  The search is a backtracking over the remaining graph: it branches on the
  sources that touch a vertex of least degree, and in each branch discards
  every source that shares a path with the chosen one. A selection is stored
  when no source is left and the counter of sources still to choose is 0.
  `Enumerate` is the list of stored selections as a function;
  `FindPerfectMatchings` is the search itself, appending to a store.
*/
module Matchings {
  import opened Sources

  /** How often `v` occurs among the endpoints `ends`: the count a Counter over them gives. */
  function Degree(ends: seq<nat>, v: nat): nat
  {
    multiset(ends)[v]
  }

  /** Scans `rest` from left to right and keeps the first vertex seen of smallest degree. */
  function ScanMin(ends: seq<nat>, best: nat, rest: seq<nat>): nat
    decreases |rest|
  {
    if rest == [] then best
    else if Degree(ends, rest[0]) < Degree(ends, best) then ScanMin(ends, rest[0], rest[1..])
    else ScanMin(ends, best, rest[1..])
  }

  /** The scan keeps a vertex whose degree is no larger than that of the
      starting vertex or of any vertex it passes. */
  lemma {:induction false} ScanMinIsMinimal(ends: seq<nat>, best: nat, rest: seq<nat>)
    ensures ScanMin(ends, best, rest) == best || ScanMin(ends, best, rest) in rest
    ensures Degree(ends, ScanMin(ends, best, rest)) <= Degree(ends, best)
    ensures forall w :: w in rest ==> Degree(ends, ScanMin(ends, best, rest)) <= Degree(ends, w)
    decreases |rest|
  {
    if rest != [] {
      assert forall w :: w in rest <==> w == rest[0] || w in rest[1..];
      if Degree(ends, rest[0]) < Degree(ends, best) {
        ScanMinIsMinimal(ends, rest[0], rest[1..]);
      } else {
        ScanMinIsMinimal(ends, best, rest[1..]);
      }
    }
  }

  /** Ties keep the earlier vertex: when no vertex of `rest` has smaller
      degree than `best`, the scan returns `best`. */
  lemma {:induction false} ScanMinFirst(ends: seq<nat>, best: nat, rest: seq<nat>)
    requires forall w :: w in rest ==> Degree(ends, best) <= Degree(ends, w)
    ensures ScanMin(ends, best, rest) == best
    decreases |rest|
  {
    if rest != [] {
      assert rest[0] in rest;
      assert forall w :: w in rest[1..] ==> w in rest;
      ScanMinFirst(ends, best, rest[1..]);
    }
  }

  /** The scan returns the first vertex of `[best] + rest` of least degree:
      every vertex before its first occurrence has a larger degree. */
  lemma {:induction false} ScanMinFirstLeast(ends: seq<nat>, best: nat, rest: seq<nat>)
    ensures exists p :: 0 <= p < |rest| + 1 && ([best] + rest)[p] == ScanMin(ends, best, rest)
              && forall q :: 0 <= q < p ==> Degree(ends, ([best] + rest)[q]) > Degree(ends, ScanMin(ends, best, rest))
    decreases |rest|
  {
    var s := [best] + rest;
    var r := ScanMin(ends, best, rest);
    if rest == [] {
      assert s[0] == r;
    } else {
      var tail := rest[1..];
      if Degree(ends, rest[0]) < Degree(ends, best) {
        ScanMinFirstLeast(ends, rest[0], tail);
        ScanMinIsMinimal(ends, rest[0], tail);
        assert [rest[0]] + tail == rest;
        var p' :| 0 <= p' < |tail| + 1 && rest[p'] == r
                  && forall q :: 0 <= q < p' ==> Degree(ends, rest[q]) > Degree(ends, r);
        assert s[p' + 1] == r;
        assert forall q :: 1 <= q < p' + 1 ==> s[q] == rest[q - 1];
      } else {
        ScanMinFirstLeast(ends, best, tail);
        var t := [best] + tail;
        var p' :| 0 <= p' < |tail| + 1 && t[p'] == r
                  && forall q :: 0 <= q < p' ==> Degree(ends, t[q]) > Degree(ends, r);
        if p' == 0 {
          assert s[0] == r;
        } else {
          assert t[0] == best && s[1] == rest[0];
          assert s[p' + 1] == t[p'];
          assert forall q :: 2 <= q < p' + 1 ==> s[q] == t[q - 1];
        }
      }
    }
  }

  /** The vertex the search branches on: of all vertices in order of first
      appearance among the endpoints, the first one of least degree. */
  function MinDegreeVertex(setup: Setup, g: seq<nat>): nat
    requires ValidIn(setup, g) && |g| > 0
  {
    var ends := Ends(setup, g);
    ScanMin(ends, ends[0], ends[1..])
  }

  /** The vertex the search branches on is a vertex of the graph, and no
      vertex of the graph has smaller degree. */
  lemma {:induction false} MinDegreeVertexIsMinimal(setup: Setup, g: seq<nat>)
    requires ValidIn(setup, g) && |g| > 0
    ensures MinDegreeVertex(setup, g) in Vertices(setup, g)
    ensures forall w :: w in Vertices(setup, g) ==>
              Degree(Ends(setup, g), MinDegreeVertex(setup, g)) <= Degree(Ends(setup, g), w)
    ensures exists p :: 0 <= p < |Ends(setup, g)| && Ends(setup, g)[p] == MinDegreeVertex(setup, g)
              && forall q :: 0 <= q < p ==>
                   Degree(Ends(setup, g), Ends(setup, g)[q]) > Degree(Ends(setup, g), MinDegreeVertex(setup, g))
  {
    var ends := Ends(setup, g);
    ScanMinIsMinimal(ends, ends[0], ends[1..]);
    ScanMinFirstLeast(ends, ends[0], ends[1..]);
    assert [ends[0]] + ends[1..] == ends;
    assert forall w :: w in ends <==> w == ends[0] || w in ends[1..];
  }

  /** The sources of `g` that touch `v`, in order. */
  function Incident(setup: Setup, g: seq<nat>, v: nat): (r: seq<nat>)
    requires ValidIn(setup, g)
    ensures ValidIn(setup, r)
    ensures forall i :: i in r ==> i in g
  {
    if g == [] then []
    else if Touches(setup[g[0]], v) then [g[0]] + Incident(setup, g[1..], v)
    else Incident(setup, g[1..], v)
  }

  /** The branch sources are exactly the sources of `g` that touch `v`, in
      the order of `g`, each once. */
  lemma {:induction false} IncidentMembers(setup: Setup, g: seq<nat>, v: nat)
    requires ValidIn(setup, g)
    ensures forall i :: i in Incident(setup, g, v) <==> i in g && Touches(setup[i], v)
    ensures Subsequence(Incident(setup, g, v), g)
    ensures Distinct(g) ==> Distinct(Incident(setup, g, v))
  {
    if g != [] {
      IncidentMembers(setup, g[1..], v);
      var r := Incident(setup, g, v);
      if Touches(setup[g[0]], v) {
        assert r[0] == g[0] && r[1..] == Incident(setup, g[1..], v);
      }
      assert forall i :: i in g <==> i == g[0] || i in g[1..];
      if Distinct(g) {
        assert g[0] !in g[1..];
        DistinctTail(g);
        var r := Incident(setup, g[1..], v);
        if Touches(setup[g[0]], v) {
          forall i, j | 0 <= i < j < |r| + 1 ensures ([g[0]] + r)[i] != ([g[0]] + r)[j] {
            assert ([g[0]] + r)[j] == r[j - 1];
            if i > 0 { assert ([g[0]] + r)[i] == r[i - 1]; } else { assert r[j - 1] in r; }
          }
        }
      }
    }
  }

  /** The graph left once source `e` is chosen: the sources of `g`, in order,
      that share no path with `e`. */
  function Reduce(setup: Setup, g: seq<nat>, e: nat): (r: seq<nat>)
    requires ValidIn(setup, g) && e < |setup|
    ensures ValidIn(setup, r)
    ensures e in g ==> |r| < |g|
    ensures |r| <= |g|
  {
    if g == [] then []
    else if !Clashes(setup[g[0]], setup[e]) then [g[0]] + Reduce(setup, g[1..], e)
    else Reduce(setup, g[1..], e)
  }

  /** The reduced graph holds exactly the sources of `g` that share no path
      with `e`, in the order of `g`, each once. */
  lemma {:induction false} ReduceMembers(setup: Setup, g: seq<nat>, e: nat)
    requires ValidIn(setup, g) && e < |setup|
    ensures forall i :: i in Reduce(setup, g, e) <==> i in g && !Clashes(setup[i], setup[e])
    ensures Subsequence(Reduce(setup, g, e), g)
    ensures Distinct(g) ==> Distinct(Reduce(setup, g, e))
  {
    if g != [] {
      ReduceMembers(setup, g[1..], e);
      var r := Reduce(setup, g, e);
      if !Clashes(setup[g[0]], setup[e]) {
        assert r[0] == g[0] && r[1..] == Reduce(setup, g[1..], e);
      }
      assert forall i :: i in g <==> i == g[0] || i in g[1..];
      if Distinct(g) {
        assert g[0] !in g[1..];
        DistinctTail(g);
        var r := Reduce(setup, g[1..], e);
        if !Clashes(setup[g[0]], setup[e]) {
          forall i, j | 0 <= i < j < |r| + 1 ensures ([g[0]] + r)[i] != ([g[0]] + r)[j] {
            assert ([g[0]] + r)[j] == r[j - 1];
            if i > 0 { assert ([g[0]] + r)[i] == r[i - 1]; } else { assert r[j - 1] in r; }
          }
        }
      }
    }
  }

  predicate Sorted(s: seq<nat>)
  {
    forall i, j :: 0 <= i < j < |s| ==> s[i] <= s[j]
  }

  /** Puts `x` in front of the first element of `s` that is not smaller. */
  function Insert(x: nat, s: seq<nat>): seq<nat>
  {
    if s == [] then [x]
    else if x <= s[0] then [x] + s
    else [s[0]] + Insert(x, s[1..])
  }

  /** A selection of sources as the search stores it: sorted. */
  function Sort(s: seq<nat>): seq<nat>
  {
    if s == [] then []
    else Insert(s[0], Sort(s[1..]))
  }

  /** Inserting adds `x` and loses nothing. */
  lemma {:induction false} InsertPermutes(x: nat, s: seq<nat>)
    ensures multiset(Insert(x, s)) == multiset(s) + multiset{x}
  {
    if s != [] {
      assert s == [s[0]] + s[1..];
      if x > s[0] {
        InsertPermutes(x, s[1..]);
      }
    }
  }

  /** Sorting is a permutation. */
  lemma {:induction false} SortPermutes(s: seq<nat>)
    ensures multiset(Sort(s)) == multiset(s)
  {
    if s != [] {
      assert s == [s[0]] + s[1..];
      SortPermutes(s[1..]);
      InsertPermutes(s[0], Sort(s[1..]));
    }
  }

  /** Every element of `Insert(x, s)` is `x` or an element of `s`. */
  lemma {:induction false} InsertElems(x: nat, s: seq<nat>, y: nat)
    requires y in Insert(x, s)
    ensures y == x || y in s
  {
    InsertPermutes(x, s);
    assert y in multiset(Insert(x, s));
  }

  lemma {:induction false} InsertSorted(x: nat, s: seq<nat>)
    requires Sorted(s)
    ensures Sorted(Insert(x, s))
  {
    if s != [] && x > s[0] {
      var t := Insert(x, s[1..]);
      var r := [s[0]] + t;
      InsertSorted(x, s[1..]);
      forall j | 0 < j < |r| ensures r[0] <= r[j] {
        assert r[j] == t[j - 1];
        InsertElems(x, s[1..], r[j]);
      }
      assert forall i, j :: 0 < i < j < |r| ==> r[i] == t[i - 1] && r[j] == t[j - 1];
    }
  }

  lemma {:induction false} InsertDistinct(x: nat, s: seq<nat>)
    requires Distinct(s) && x !in s
    ensures Distinct(Insert(x, s))
  {
    if s != [] && x > s[0] {
      var t := Insert(x, s[1..]);
      var r := [s[0]] + t;
      InsertDistinct(x, s[1..]);
      forall j | 0 < j < |r| ensures r[0] != r[j] {
        assert r[j] == t[j - 1];
        InsertElems(x, s[1..], r[j]);
      }
      assert forall i, j :: 0 < i < j < |r| ==> r[i] == t[i - 1] && r[j] == t[j - 1];
    }
  }

  /** The stored form is sorted, and without repetitions when the selection has none. */
  lemma {:induction false} SortSorted(s: seq<nat>)
    ensures multiset(Sort(s)) == multiset(s)
    ensures Sorted(Sort(s))
    ensures Distinct(s) ==> Distinct(Sort(s))
    ensures Elems(Sort(s)) == Elems(s)
  {
    SortPermutes(s);
    forall y ensures y in Sort(s) <==> y in s {
      assert y in Sort(s) <==> y in multiset(Sort(s));
      assert y in s <==> y in multiset(s);
    }
    if s != [] {
      SortSorted(s[1..]);
      InsertSorted(s[0], Sort(s[1..]));
      if Distinct(s) {
        assert s[0] !in s[1..];
        assert s[0] !in multiset(Sort(s[1..]));
        InsertDistinct(s[0], Sort(s[1..]));
      }
    }
  }

  /** The selections the search stores, starting from remaining graph `g`,
      current selection `match` and `k` sources still to choose. */
  function Enumerate(setup: Setup, g: seq<nat>, chosen: seq<nat>, k: int): seq<seq<nat>>
    requires ValidIn(setup, g)
    decreases |g|, 1
  {
    if |g| > 0 then
      Branches(setup, g, Incident(setup, g, MinDegreeVertex(setup, g)), chosen, k)
    else if k == 0 then
      [Sort(chosen)]
    else
      []
  }

  /** The selections stored by the branches on the sources `conn`, in order. */
  function Branches(setup: Setup, g: seq<nat>, conn: seq<nat>, chosen: seq<nat>, k: int): seq<seq<nat>>
    requires ValidIn(setup, g)
    requires forall e :: e in conn ==> e in g
    decreases |g|, 0, |conn|
  {
    if conn == [] then []
    else
      assert conn[0] in conn;
      Enumerate(setup, Reduce(setup, g, conn[0]), chosen + [conn[0]], k - 1)
      + Branches(setup, g, conn[1..], chosen, k)
  }

  /** Branching on `conn[i..]` is branching on `conn[i]` and then on `conn[i + 1..]`. */
  lemma {:induction false} BranchesStep(setup: Setup, g: seq<nat>, conn: seq<nat>, i: nat, chosen: seq<nat>, k: int)
    requires ValidIn(setup, g) && i < |conn|
    requires forall e :: e in conn ==> e in g
    ensures conn[i] in g
    ensures Branches(setup, g, conn[i..], chosen, k)
         == Enumerate(setup, Reduce(setup, g, conn[i]), chosen + [conn[i]], k - 1)
            + Branches(setup, g, conn[i + 1..], chosen, k)
  {
    assert conn[i] in conn;
    assert conn[i..][0] == conn[i] && conn[i..][1..] == conn[i + 1..];
  }

  /** A non-empty graph is searched by branching on the sources that touch
      its vertex of least degree. */
  lemma {:induction false} EnumerateUnfold(setup: Setup, g: seq<nat>, chosen: seq<nat>, k: int)
    requires ValidIn(setup, g) && |g| > 0
    ensures Enumerate(setup, g, chosen, k)
         == Branches(setup, g, Incident(setup, g, MinDegreeVertex(setup, g)), chosen, k)
  {
  }

  /** The counter the search starts from when none is given: half the number
      of distinct paths of the graph, rounded down. */
  function InitialEdgesLeft(setup: Setup, g: seq<nat>, edgesLeft: Option<int>): int
    requires ValidIn(setup, g)
  {
    match edgesLeft
    case None => |Vertices(setup, g)| / 2
    case Some(k) => k
  }

  /** Every stored selection of the whole setup. */
  function PerfectMatchings(setup: Setup): seq<seq<nat>>
  {
    Enumerate(setup, AllSources(setup), [], PathCount(setup) / 2)
  }

  /** The list the search appends its results to. */
  class MatchingStore {
    var matchings: seq<seq<nat>>

    constructor ()
      ensures matchings == []
    {
      matchings := [];
    }

    method Append(m: seq<nat>)
      modifies this
      ensures matchings == old(matchings) + [m]
    {
      matchings := matchings + [m];
    }
  }

  /** The backtracking search. Appends to `store` exactly the selections
      `Enumerate` lists, in that order, and changes nothing else. */
  method FindPerfectMatchings(setup: Setup, graph: seq<nat>, store: MatchingStore,
                              chosen: seq<nat>, edgesLeft: Option<int>)
    requires ValidIn(setup, graph)
    modifies store
    ensures store.matchings
         == old(store.matchings) + Enumerate(setup, graph, chosen, InitialEdgesLeft(setup, graph, edgesLeft))
    decreases |graph|, 1
  {
    var left := InitialEdgesLeft(setup, graph, edgesLeft);
    if |graph| > 0 {
      var v := MinDegreeVertex(setup, graph);
      var connected := Incident(setup, graph, v);
      EnumerateUnfold(setup, graph, chosen, left);
      SearchBranches(setup, graph, connected, store, chosen, left);
    } else if left == 0 {
      store.Append(Sort(chosen));
    }
  }

  /** The loop over the sources touching the branch vertex: for each in turn,
      search the graph left once it is chosen. */
  method SearchBranches(setup: Setup, graph: seq<nat>, connected: seq<nat>, store: MatchingStore,
                        chosen: seq<nat>, left: int)
    requires ValidIn(setup, graph)
    requires forall e :: e in connected ==> e in graph
    modifies store
    ensures store.matchings == old(store.matchings) + Branches(setup, graph, connected, chosen, left)
    decreases |graph|, 0
  {
    ghost var total := old(store.matchings) + Branches(setup, graph, connected, chosen, left);
    for i := 0 to |connected|
      invariant store.matchings + Branches(setup, graph, connected[i..], chosen, left) == total
    {
      var edge := connected[i];
      ghost var before := store.matchings;
      BranchesStep(setup, graph, connected, i, chosen, left);
      FindPerfectMatchings(setup, Reduce(setup, graph, edge), store, chosen + [edge], Some(left - 1));
      AppendThenRest(before, Branches(setup, graph, connected[i..], chosen, left),
                     Enumerate(setup, Reduce(setup, graph, edge), chosen + [edge], left - 1),
                     Branches(setup, graph, connected[i + 1..], chosen, left), total);
    }
  }

  /** Appending the first of the pending selections keeps "stored, then pending" unchanged. */
  lemma {:induction false} AppendThenRest(stored: seq<seq<nat>>, pending: seq<seq<nat>>, first: seq<seq<nat>>,
                       rest: seq<seq<nat>>, total: seq<seq<nat>>)
    requires stored + pending == total && pending == first + rest
    ensures (stored + first) + rest == total
  {
  }
}
