/**
  Photon-pair sources and the graph they span over the paths.

  A setup is a list of sources; each source is an edge between two paths.
  Graphs and matchings are lists of sources named by their position in the
  setup, so that two identical sources standing side by side stay two
  different edges.
*/
module Sources {

  datatype Option<T> = None | Some(value: T)

  /** A source emits a photon in mode `mode1` into path `path1` and one in
      mode `mode2` into path `path2`, with relative amplitude `amplitude`. */
  datatype Source = Source(path1: nat, path2: nat, mode1: int, mode2: int, amplitude: int)

  type Setup = seq<Source>

  /** The set of elements of a sequence. */
  function Elems<T>(s: seq<T>): set<T>
  {
    set x | x in s
  }

  predicate Distinct<T(==)>(s: seq<T>)
  {
    forall i, j :: 0 <= i < j < |s| ==> s[i] != s[j]
  }

  /** Dropping the first element keeps a sequence free of repetitions. */
  lemma {:induction false} DistinctTail<T>(s: seq<T>)
    requires Distinct(s) && s != []
    ensures Distinct(s[1..])
  {
    forall i, j | 0 <= i < j < |s| - 1 ensures s[1..][i] != s[1..][j] {
      assert s[1..][i] == s[i + 1] && s[1..][j] == s[j + 1];
    }
  }

  /** `r` is what is left of `s` after deleting some of its elements: its
      elements occur in `s` in the same order. */
  predicate Subsequence(r: seq<nat>, s: seq<nat>)
    decreases |s|
  {
    r == [] || (s != [] && ((r[0] == s[0] && Subsequence(r[1..], s[1..])) || Subsequence(r, s[1..])))
  }

  /** Every position in `g` names a source of the setup. */
  predicate ValidIn(setup: Setup, g: seq<nat>)
  {
    forall k :: 0 <= k < |g| ==> g[k] < |setup|
  }

  /** The whole setup as a graph: every source, in order. */
  function AllSources(setup: Setup): (g: seq<nat>)
    ensures |g| == |setup| && ValidIn(setup, g) && Distinct(g)
    ensures forall i: nat :: i in g <==> i < |setup|
  {
    var g: seq<nat> := seq(|setup|, i requires 0 <= i < |setup| => i);
    assert forall i: nat :: i < |setup| ==> g[i] == i && i in g;
    g
  }

  predicate Touches(s: Source, v: nat)
  {
    s.path1 == v || s.path2 == v
  }

  /** `s` shares a path with `t`: one of s's paths is one of t's. */
  predicate Clashes(s: Source, t: Source)
  {
    Touches(t, s.path1) || Touches(t, s.path2)
  }

  /** No two different sources of `m` share a path. */
  predicate VertexDisjoint(setup: Setup, m: seq<nat>)
    requires ValidIn(setup, m)
  {
    && Distinct(m)
    && forall a, b :: a in m && b in m && a != b ==> !Clashes(setup[a], setup[b])
  }

  predicate NoSelfLoops(setup: Setup)
  {
    forall s :: s in setup ==> s.path1 != s.path2
  }

  /** The endpoints of the sources of `g`, flattened in order: path1, path2, path1, ... */
  function Ends(setup: Setup, g: seq<nat>): (r: seq<nat>)
    requires ValidIn(setup, g)
    ensures |r| == 2 * |g|
  {
    if g == [] then []
    else [setup[g[0]].path1, setup[g[0]].path2] + Ends(setup, g[1..])
  }

  /** The distinct paths that the sources of `g` reach. */
  function Vertices(setup: Setup, g: seq<nat>): set<nat>
    requires ValidIn(setup, g)
  {
    Elems(Ends(setup, g))
  }

  /** The number of distinct paths of the setup. */
  function PathCount(setup: Setup): nat
  {
    |Vertices(setup, AllSources(setup))|
  }

  /** What the state builder assumes of its input without checking it: the
      paths are exactly 0 .. PathCount - 1, no source sends both photons into
      one path, the number of paths is even, and every mode label is a single
      digit (so that a ket is one character per path). */
  predicate WellFormed(setup: Setup)
  {
    && NoSelfLoops(setup)
    && (forall s :: s in setup ==> s.path1 < PathCount(setup) && s.path2 < PathCount(setup))
    && PathCount(setup) % 2 == 0
    && (forall s :: s in setup ==> 0 <= s.mode1 <= 9 && 0 <= s.mode2 <= 9)
  }

  /** A path is a vertex of `g` exactly when some source of `g` touches it. */
  lemma {:induction false} VerticesTouched(setup: Setup, g: seq<nat>)
    requires ValidIn(setup, g)
    ensures forall v :: v in Vertices(setup, g) <==> exists i :: i in g && Touches(setup[i], v)
  {
    if g != [] {
      VerticesTouched(setup, g[1..]);
      var s := setup[g[0]];
      assert Ends(setup, g) == [s.path1, s.path2] + Ends(setup, g[1..]);
      assert Vertices(setup, g) == {s.path1, s.path2} + Vertices(setup, g[1..]);
      forall v | exists i :: i in g && Touches(setup[i], v)
        ensures v in Vertices(setup, g)
      {
        var i :| i in g && Touches(setup[i], v);
        if i != g[0] {
          assert i in g[1..];
        }
      }
      forall v | v in Vertices(setup, g)
        ensures exists i :: i in g && Touches(setup[i], v)
      {
        if v !in {s.path1, s.path2} {
          var i :| i in g[1..] && Touches(setup[i], v);
          assert i in g;
        } else {
          assert g[0] in g && Touches(setup[g[0]], v);
        }
      }
    }
  }

  /** Vertex-disjoint sources without self-loops reach twice as many paths as there are sources. */
  lemma {:induction false} DisjointVertexCount(setup: Setup, m: seq<nat>)
    requires ValidIn(setup, m) && VertexDisjoint(setup, m) && NoSelfLoops(setup)
    ensures |Vertices(setup, m)| == 2 * |m|
  {
    if m != [] {
      var s := setup[m[0]];
      var rest := m[1..];
      assert VertexDisjoint(setup, rest) by {
        forall i, j | 0 <= i < j < |rest| ensures rest[i] != rest[j] {
          assert rest[i] == m[i + 1] && rest[j] == m[j + 1];
        }
      }
      DisjointVertexCount(setup, rest);
      FirstApart(setup, m);
      assert s in setup;
      assert Ends(setup, m) == [s.path1, s.path2] + Ends(setup, rest);
      assert Vertices(setup, m) == {s.path1, s.path2} + Vertices(setup, rest);
      assert |{s.path1, s.path2}| == 2;
    }
  }

  /** The paths of the first of vertex-disjoint sources are reached by none of the others. */
  lemma {:induction false} FirstApart(setup: Setup, m: seq<nat>)
    requires ValidIn(setup, m) && VertexDisjoint(setup, m) && m != []
    ensures setup[m[0]].path1 !in Vertices(setup, m[1..])
    ensures setup[m[0]].path2 !in Vertices(setup, m[1..])
  {
    var s := setup[m[0]];
    var rest := m[1..];
    VerticesTouched(setup, rest);
    forall i | i in rest ensures !Touches(setup[i], s.path1) && !Touches(setup[i], s.path2) {
      var k :| 0 <= k < |rest| && rest[k] == i;
      assert m[k + 1] == i && m[0] != i;
      assert !Clashes(setup[i], setup[m[0]]);
    }
  }

  /** A set of sources written out as a list without repetitions. */
  lemma {:induction false} SeqOf(M: set<nat>) returns (s: seq<nat>)
    ensures Elems(s) == M && Distinct(s) && |s| == |M|
    decreases |M|
  {
    if M == {} {
      s := [];
    } else {
      var x :| x in M;
      var rest := SeqOf(M - {x});
      s := [x] + rest;
      assert x !in rest by {
        assert x !in Elems(rest);
      }
      assert Elems(s) == M by {
        forall y ensures y in Elems(s) <==> y in M {
          assert y in s <==> y == x || y in rest;
          assert y in rest <==> y in Elems(rest);
        }
      }
      forall i, j | 0 <= i < j < |s| ensures s[i] != s[j] {
        assert s[j] == rest[j - 1];
        if i > 0 {
          assert s[i] == rest[i - 1];
        } else {
          assert rest[j - 1] in rest;
        }
      }
    }
  }

  /** A subset as large as its superset is the superset. */
  lemma {:induction false} SubsetOfSameSize<T>(a: set<T>, b: set<T>)
    requires a <= b && |a| == |b|
    ensures a == b
  {
    var d := b - a;
    assert b == a + d;
    assert a !! d;
    assert |b| == |a| + |d|;
    assert d == {};
  }
}
