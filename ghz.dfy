/**
  The base setup of the d-dimensional GHZ example: six sources over four
  paths, two for each of the modes 0, 1 and 2. Its three perfect matchings
  give the kets 0000, 1111 and 2222 with amplitude 1 each, and no ancilla
  photons.

  Each concrete fact is proved in a lemma of its own about a parameter
  equal to the constant, and the lemmas are composed through their
  contracts.
*/
module Ghz {
  import opened Sources
  import opened Matchings
  import opened Assembly
  import opened Normalizer
  import opened Ancilla
  import opened StateBuilder

  /** The sources, in the order the example adds them. */
  const GHZ: Setup :=
    [ Source(0, 1, 0, 0, 1), Source(2, 3, 0, 0, 1),
      Source(0, 2, 1, 1, 1), Source(1, 3, 1, 1, 1),
      Source(0, 3, 2, 2, 1), Source(1, 2, 2, 2, 1) ]

  const ALL: seq<nat> := [0, 1, 2, 3, 4, 5]
  const ENDS: seq<nat> := [0, 1, 2, 3, 0, 2, 1, 3, 0, 3, 1, 2]
  const MATCHINGS: seq<seq<nat>> := [[0, 1], [2, 3], [4, 5]]

  const K0: Ket := [0, 0, 0, 0]
  const K1: Ket := [1, 1, 1, 1]
  const K2: Ket := [2, 2, 2, 2]
  const STATE: seq<Entry> := [Entry(K0, 1), Entry(K1, 1), Entry(K2, 1)]

  // The setup.

  lemma GhzEnds(s: Setup, g: seq<nat>)
    requires s == GHZ && g == ALL
    ensures AllSources(s) == g && ValidIn(s, g)
    ensures Ends(s, g) == ENDS
  {
    assert Ends(s, g[5..]) == [1, 2];
    assert Ends(s, g[4..]) == [0, 3, 1, 2];
    assert Ends(s, g[3..]) == [1, 3, 0, 3, 1, 2];
    assert Ends(s, g[2..]) == [0, 2, 1, 3, 0, 3, 1, 2];
    assert Ends(s, g[1..]) == [2, 3, 0, 2, 1, 3, 0, 3, 1, 2];
  }

  lemma GhzPaths(e: seq<nat>)
    requires e == ENDS
    ensures Elems(e) == {0, 1, 2, 3} && |Elems(e)| == 4
  {
    assert Elems(e) == {0, 1, 2, 3};
  }

  lemma GhzShape(s: Setup)
    requires s == GHZ
    ensures NoSelfLoops(s)
    ensures forall x :: x in s ==> x.path1 < 4 && x.path2 < 4 && 0 <= x.mode1 <= 9 && 0 <= x.mode2 <= 9
  {
  }

  /** The setup has four paths and meets what the state builder assumes. */
  lemma GhzWellFormed(s: Setup)
    requires s == GHZ
    ensures PathCount(s) == 4
    ensures WellFormed(s)
  {
    GhzEnds(s, ALL);
    GhzPaths(Ends(s, ALL));
    GhzShape(s);
  }

  // The search.

  lemma GhzDegrees(e: seq<nat>)
    requires e == ENDS
    ensures e != [] && e[0] == 0
    ensures forall w :: w in e[1..] ==> Degree(e, 0) <= Degree(e, w)
  {
    GhzDegree(e);
    GhzPaths(e);
    forall w | w in e[1..] ensures Degree(e, 0) <= Degree(e, w) {
      assert w in Elems(e) by {
        assert forall x :: x in e[1..] ==> x in e;
      }
    }
  }

  /** Each of the four paths is the end of three sources. */
  lemma GhzDegree(e: seq<nat>)
    requires e == ENDS
    ensures Degree(e, 0) == 3 && Degree(e, 1) == 3 && Degree(e, 2) == 3 && Degree(e, 3) == 3
  {
    DegreeOf(e, 0);
    DegreeOf(e, 1);
    DegreeOf(e, 2);
    DegreeOf(e, 3);
  }

  lemma DegreeOf(e: seq<nat>, v: nat)
    requires e == ENDS && v <= 3
    ensures Degree(e, v) == 3
  {
  }


  lemma GhzEndsDegrees(s: Setup, g: seq<nat>)
    requires s == GHZ && g == ALL
    ensures ValidIn(s, g) && |g| > 0
    ensures Ends(s, g) != [] && Ends(s, g)[0] == 0
    ensures forall w :: w in Ends(s, g)[1..] ==> Degree(Ends(s, g), 0) <= Degree(Ends(s, g), w)
  {
    GhzEnds(s, g);
    GhzDegrees(Ends(s, g));
  }

  /** Every path has degree 3, so the search branches on path 0, the first. */
  lemma GhzBranchVertex(s: Setup, g: seq<nat>)
    requires s == GHZ && g == ALL
    ensures MinDegreeVertex(s, g) == 0
  {
    GhzEndsDegrees(s, g);
    var e := Ends(s, g);
    ScanMinFirst(e, 0, e[1..]);
  }

  lemma GhzIncident(s: Setup, g: seq<nat>)
    requires s == GHZ && g == ALL
    ensures Incident(s, g, 0) == [0, 2, 4]
  {
    assert Incident(s, g[5..], 0) == [];
    assert Incident(s, g[4..], 0) == [4];
    assert Incident(s, g[3..], 0) == [4];
    assert Incident(s, g[2..], 0) == [2, 4];
    assert Incident(s, g[1..], 0) == [2, 4];
  }

  /** Choosing a source of one mode leaves the other source of that mode. */
  lemma GhzReduce0(s: Setup, g: seq<nat>)
    requires s == GHZ && g == ALL
    ensures Reduce(s, g, 0) == [1]
  {
    assert Reduce(s, g[4..], 0) == [];
    assert Reduce(s, g[2..], 0) == [];
  }

  lemma GhzReduce2(s: Setup, g: seq<nat>)
    requires s == GHZ && g == ALL
    ensures Reduce(s, g, 2) == [3]
  {
    assert Reduce(s, g[4..], 2) == [];
    assert Reduce(s, g[3..], 2) == [3];
  }

  lemma GhzReduce4(s: Setup, g: seq<nat>)
    requires s == GHZ && g == ALL
    ensures Reduce(s, g, 4) == [5]
  {
    assert Reduce(s, g[5..], 4) == [5];
    assert Reduce(s, g[3..], 4) == [5];
  }

  /** A graph of one source, with one source still to choose, completes the
      selection with that source. */
  lemma LastSource(setup: Setup, c: nat, e: nat)
    requires e < |setup| && setup[e].path1 != setup[e].path2 && c < e
    ensures Enumerate(setup, [e], [c], 1) == [[c, e]]
  {
    var ends := [setup[e].path1, setup[e].path2];
    assert Ends(setup, [e]) == ends;
    assert Degree(ends, setup[e].path2) == 1 && Degree(ends, setup[e].path1) == 1;
    ScanMinFirst(ends, ends[0], ends[1..]);
    assert MinDegreeVertex(setup, [e]) == setup[e].path1;
    assert Incident(setup, [e], setup[e].path1) == [e];
    EnumerateUnfold(setup, [e], [c], 1);
    BranchesStep(setup, [e], [e], 0, [c], 1);
    assert [e][0..] == [e];
    assert Reduce(setup, [e], e) == [];
    assert [e][1..] == [];
    assert [c] + [e] == [c, e];
    assert Sort([c, e]) == [c, e] by {
      assert [c, e][1..] == [e];
      assert Sort([e]) == [e];
    }
  }

  /** A branch left with one source that completes it stores that pair. */
  lemma OneBranch(s: Setup, g: seq<nat>, e: nat, r: nat)
    requires ValidIn(s, g) && e < r < |s| && s[r].path1 != s[r].path2
    requires Reduce(s, g, e) == [r]
    ensures Enumerate(s, Reduce(s, g, e), [] + [e], 1) == [[e, r]]
  {
    assert [] + [e] == [e];
    LastSource(s, e, r);
  }

  /** A first branch left with one source that completes it stores that pair
      before the branches on the rest. */
  lemma ConsBranch(s: Setup, g: seq<nat>, conn: seq<nat>, r: nat)
    requires ValidIn(s, g) && conn != [] && (forall e :: e in conn ==> e in g)
    requires conn[0] < r < |s| && s[r].path1 != s[r].path2
    requires Reduce(s, g, conn[0]) == [r]
    ensures Branches(s, g, conn, [], 2) == [[conn[0], r]] + Branches(s, g, conn[1..], [], 2)
  {
    BranchesStep(s, g, conn, 0, [], 2);
    assert conn[0..] == conn;
    OneBranch(s, g, conn[0], r);
  }

  /** Three branches, each left with one source that completes it. */
  lemma ThreeBranches(s: Setup, g: seq<nat>, a: nat, b: nat, c: nat, ra: nat, rb: nat, rc: nat)
    requires ValidIn(s, g) && a in g && b in g && c in g
    requires a < ra < |s| && b < rb < |s| && c < rc < |s|
    requires s[ra].path1 != s[ra].path2 && s[rb].path1 != s[rb].path2 && s[rc].path1 != s[rc].path2
    requires Reduce(s, g, a) == [ra] && Reduce(s, g, b) == [rb] && Reduce(s, g, c) == [rc]
    ensures Branches(s, g, [a, b, c], [], 2) == [[a, ra], [b, rb], [c, rc]]
  {
    ConsBranch(s, g, [c], rc);
    ConsBranch(s, g, [b, c], rb);
    ConsBranch(s, g, [a, b, c], ra);
    assert [a, b, c][1..] == [b, c] && [b, c][1..] == [c] && [c][1..] == [];
  }

  /** The search finds, in this order, the matchings of mode 0, of mode 1
      and of mode 2. */
  lemma GhzMatchings(s: Setup)
    requires s == GHZ
    ensures PerfectMatchings(s) == MATCHINGS
  {
    GhzWellFormed(s);
    GhzEnds(s, ALL);
    GhzBranchVertex(s, ALL);
    GhzIncident(s, ALL);
    EnumerateUnfold(s, ALL, [], 2);
    GhzReduce0(s, ALL);
    GhzReduce2(s, ALL);
    GhzReduce4(s, ALL);
    ThreeBranches(s, ALL, 0, 2, 4, 1, 3, 5);
  }

  // The state.

  /** A matching of two sources that send mode `m` into all four paths
      between them gives the ket `m m m m`. */
  lemma PairKet(s: Setup, a: nat, b: nat, m: int)
    requires a < |s| && b < |s|
    requires s[a].path1 < 4 && s[a].path2 < 4 && s[b].path1 < 4 && s[b].path2 < 4
    requires {s[a].path1, s[a].path2, s[b].path1, s[b].path2} == {0, 1, 2, 3}
    requires s[a].mode1 == m && s[a].mode2 == m && s[b].mode1 == m && s[b].mode2 == m
    ensures ValidIn(s, [a, b]) && PathsBelow(s, [a, b], 4)
    ensures KetOf(s, [a, b], 4) == [m, m, m, m]
  {
    assert [a, b][..1] == [a] && [a][..0] == [];
    var k0 := KetOf(s, [], 4);
    assert k0 == seq(4, _ => 0);
    var k1 := KetOf(s, [a], 4);
    assert k1 == k0[s[a].path1 := m][s[a].path2 := m];
    var k := KetOf(s, [a, b], 4);
    assert k == k1[s[b].path1 := m][s[b].path2 := m];
    forall i | 0 <= i < 4 ensures k[i] == m {
      assert i in {s[a].path1, s[a].path2, s[b].path1, s[b].path2};
    }
  }

  lemma GhzKets(s: Setup)
    requires s == GHZ
    ensures AllBelow(s, MATCHINGS, 4)
    ensures KetOf(s, [0, 1], 4) == K0 && KetOf(s, [2, 3], 4) == K1 && KetOf(s, [4, 5], 4) == K2
    ensures Product(s, [0, 1]) == 1 && Product(s, [2, 3]) == 1 && Product(s, [4, 5]) == 1
  {
    PairKet(s, 0, 1, 0);
    PairKet(s, 2, 3, 1);
    PairKet(s, 4, 5, 2);
    assert [0, 1][..1] == [0] && [2, 3][..1] == [2] && [4, 5][..1] == [4];
    assert [0][..0] == [] && [2][..0] == [] && [4][..0] == [];
  }

  /** Three matchings with three different kets and amplitude 1 each give a
      dictionary of those kets, in the order of the matchings, with 1 each. */
  lemma AccumulateThree(s: Setup, pms: seq<seq<nat>>, n: nat, k0: Ket, k1: Ket, k2: Ket)
    requires |pms| == 3 && AllBelow(s, pms, n)
    requires KetOf(s, pms[0], n) == k0 && KetOf(s, pms[1], n) == k1 && KetOf(s, pms[2], n) == k2
    requires Product(s, pms[0]) == 1 && Product(s, pms[1]) == 1 && Product(s, pms[2]) == 1
    requires k0 != k1 && k0 != k2 && k1 != k2
    ensures Accumulate(s, pms, n) == [Entry(k0, 1), Entry(k1, 1), Entry(k2, 1)]
  {
    var p1, p2 := pms[..1], pms[..2];
    assert p1[..0] == [] && p1[0] == pms[0];
    assert p2[..1] == p1 && p2[1] == pms[1];
    assert pms[..2] == p2 && pms[2] == pms[|pms| - 1];
    var d1 := [Entry(k0, 1)];
    var d2 := [Entry(k0, 1), Entry(k1, 1)];
    assert Accumulate(s, p1, n) == d1 by {
      assert Accumulate(s, p1[..0], n) == [];
    }
    assert Accumulate(s, p2, n) == d2 by {
      assert Get(d1, k1) == 0;
      assert Put(d1, k1, 1) == [Entry(k0, 1)] + Put([], k1, 1);
    }
    var t := [Entry(k1, 1)];
    assert d2[1..] == t && t[1..] == [];
    assert Get(t, k2) == 0;
    assert Get(d2, k2) == 0;
    assert Put(t, k2, 1) == [Entry(k1, 1), Entry(k2, 1)];
    assert Put(d2, k2, 1) == [Entry(k0, 1)] + Put(t, k2, 1);
  }

  /** The kets 0000, 1111 and 2222, each with amplitude 1. */
  lemma GhzState(s: Setup)
    requires s == GHZ
    ensures WellFormed(s) && PathCount(s) == 4
    ensures State(s) == STATE
  {
    GhzWellFormed(s);
    GhzMatchings(s);
    GhzKets(s);
    AccumulateThree(s, MATCHINGS, 4, K0, K1, K2);
    GhzStateOrdered(STATE);
    DropZerosNoZeros(STATE);
    SortByKeyIncreasing(STATE);
    assert Accumulate(s, PerfectMatchings(s), PathCount(s)) == STATE;
    assert DropZeros(Accumulate(s, PerfectMatchings(s), PathCount(s))) == STATE;
  }

  lemma GhzStateOrdered(d: seq<Entry>)
    requires d == STATE
    ensures NoZeros(d) && KeysIncreasing(d)
    ensures SumSquares(d) == 3
  {
    assert LexLess(K0, K1) && LexLess(K1, K2) && LexLess(K0, K2);
    SumSquaresOfOnes(d);
  }

  /** A state whose amplitudes are all 1 has as sum of squares its length. */
  lemma {:induction false} SumSquaresOfOnes(d: seq<Entry>)
    requires forall i :: 0 <= i < |d| ==> d[i].amplitude == 1
    ensures SumSquares(d) == |d|
    decreases |d|
  {
    if d != [] {
      assert forall i :: 0 <= i < |d[1..]| ==> d[1..][i] == d[i + 1];
      SumSquaresOfOnes(d[1..]);
    }
  }

  /** The kets differ in their last label, so no photon is an ancilla. */
  lemma GhzNoAncilla(keys: seq<Ket>)
    requires keys == [K0, K1, K2]
    ensures !SharesSuffix(keys, 1)
  {
    SharesSuffixMeans(keys, 1);
    assert Suffix(keys[0], 1) == [0] && Suffix(keys[1], 1) == [1];
    assert keys[0] in keys && keys[1] in keys;
  }

  /** Normalising a state whose amplitudes are all 1 divides each by the norm. */
  lemma NormalizedOnes(d: seq<Entry>, norm: real)
    requires NoZeros(d) && d != [] && norm >= 0.0 && norm * norm == SumSquares(d) as real
    requires forall i :: 0 <= i < |d| ==> d[i].amplitude == 1
    ensures |Normalize(d, norm)| == |d| && norm > 0.0
    ensures forall i :: 0 <= i < |d| ==>
              Normalize(d, norm)[i].ket == d[i].ket
              && Normalize(d, norm)[i].amplitude == 1.0 / norm && Normalize(d, norm)[i].amplitude > 0.0
    ensures SumSquaresReal(Normalize(d, norm)) == 1.0
  {
    NormalizeSpec(d, norm);
  }

  /** An ancilla count that the kets 0000, 1111, 2222 bound as the count
      does is 0. */
  lemma GhzAncillaCount(keys: seq<Ket>, ancillas: nat)
    requires keys == [K0, K1, K2]
    requires forall j :: 1 <= j <= ancillas ==> SharesSuffix(keys, j)
    ensures ancillas == 0
  {
    GhzNoAncilla(keys);
  }

  /** Building the state of a setup whose state before normalisation is
      0000, 1111 and 2222 with amplitude 1 each: the normalised amplitudes
      are equal and positive, their squares add up to 1, and no photon is an
      ancilla. */
  method BuildThreeKets(setup: Setup, norm: real) returns (state: seq<ScaledEntry>, ancillas: nat)
    requires WellFormed(setup) && State(setup) == STATE && norm >= 0.0 && norm * norm == 3.0
    ensures ancillas == 0
    ensures |state| == 3 && state[0].ket == K0 && state[1].ket == K1 && state[2].ket == K2
    ensures forall i :: 0 <= i < 3 ==> state[i].amplitude == 1.0 / norm > 0.0
    ensures SumSquaresReal(state) == 1.0
  {
    GhzStateOrdered(State(setup));
    state, ancillas := BuildState(setup, norm);
    NormalizedOnes(State(setup), norm);
    assert KetList(State(setup)) == [K0, K1, K2];
    GhzAncillaCount(KetList(State(setup)), ancillas);
  }

  /** Building the state of the GHZ setup gives 0000, 1111 and 2222 with
      equal positive amplitudes and no ancilla photons. */
  method GhzBuildState(setup: Setup, norm: real) returns (state: seq<ScaledEntry>, ancillas: nat)
    requires setup == GHZ && norm >= 0.0 && norm * norm == 3.0
    ensures ancillas == 0
    ensures |state| == 3 && state[0].ket == K0 && state[1].ket == K1 && state[2].ket == K2
    ensures forall i :: 0 <= i < 3 ==> state[i].amplitude == 1.0 / norm > 0.0
    ensures SumSquaresReal(state) == 1.0
  {
    GhzState(setup);
    state, ancillas := BuildThreeKets(setup, norm);
  }
}
