/**
  The state of a setup: every perfect matching is assembled into a ket
  with the product of its amplitudes, equal kets interfere, kets whose
  amplitudes cancel are dropped, the rest are sorted by ket and divided by
  the norm, and the trailing paths that all kets agree on are counted as
  ancilla photons.
*/
module StateBuilder {
  import opened Sources
  import opened Matchings
  import opened MatchingProofs
  import opened Assembly
  import opened Normalizer
  import opened Ancilla

  /** Every stored perfect matching names sources whose paths are positions
      of a ket over all paths of a well-formed setup. */
  lemma {:induction false} MatchingsBelow(setup: Setup)
    requires WellFormed(setup)
    ensures AllBelow(setup, PerfectMatchings(setup), PathCount(setup))
  {
    var pms := PerfectMatchings(setup);
    var n := PathCount(setup);
    forall k | 0 <= k < |pms| ensures ValidIn(setup, pms[k]) && PathsBelow(setup, pms[k], n) {
      PerfectMatchingsSound(setup, pms[k]);
      forall j | 0 <= j < |pms[k]| ensures setup[pms[k][j]].path1 < n && setup[pms[k][j]].path2 < n {
        assert setup[pms[k][j]] in setup;
      }
    }
  }

  /** The state before normalisation: the interference sums of the kets of
      all perfect matchings, without the kets whose sum is 0, in ascending
      order of ket. */
  function State(setup: Setup): (r: seq<Entry>)
    requires WellFormed(setup)
    ensures NoZeros(r)
  {
    MatchingsBelow(setup);
    var kept := DropZeros(Accumulate(setup, PerfectMatchings(setup), PathCount(setup)));
    DropZerosSpec(Accumulate(setup, PerfectMatchings(setup), PathCount(setup)));
    SortKeepsNoZeros(kept);
    SortByKey(kept)
  }

  /** The kets of a state, in its order. */
  function KetList(d: seq<Entry>): (r: seq<Ket>)
    ensures |r| == |d| && forall i :: 0 <= i < |d| ==> r[i] == d[i].ket
  {
    seq(|d|, i requires 0 <= i < |d| => d[i].ket)
  }

  /** The state lists its kets in strictly ascending order, records for every
      ket exactly its interference sum over the perfect matchings (a ket it
      does not list has sum 0), holds no zero amplitude, and lists only kets
      of perfect matchings. */
  lemma {:induction false} StateSpec(setup: Setup)
    requires WellFormed(setup)
    ensures AllBelow(setup, PerfectMatchings(setup), PathCount(setup))
    ensures KeysIncreasing(State(setup)) && DistinctKeys(State(setup)) && NoZeros(State(setup))
    ensures forall k :: Get(State(setup), k) == Contribution(setup, PerfectMatchings(setup), PathCount(setup), k)
    ensures forall e :: e in State(setup) ==> e.ket in KetsOf(setup, PerfectMatchings(setup), PathCount(setup))
  {
    MatchingsBelow(setup);
    var pms := PerfectMatchings(setup);
    var n := PathCount(setup);
    var acc := Accumulate(setup, pms, n);
    var kept := DropZeros(acc);
    var sorted := SortByKey(kept);
    assert sorted == State(setup);
    AccumulateSums(setup, pms, n);
    DropZerosSpec(acc);
    SortByKeySpec(kept);
    KeysIncreasingDistinct(sorted);
    GetPermutation(kept, sorted);
    forall e | e in sorted ensures e in kept {
      assert e in multiset(sorted);
    }
    forall i | 0 <= i < |sorted| ensures sorted[i].amplitude != 0 {
      assert sorted[i] in sorted;
    }
    forall e | e in sorted ensures e.ket in KetsOf(setup, pms, n) {
      assert e.ket in Keys(acc);
    }
  }

  /** Every ket of the state has one label per path. */
  lemma {:induction false} StateKetLengths(setup: Setup)
    requires WellFormed(setup)
    ensures forall i :: 0 <= i < |State(setup)| ==> |State(setup)[i].ket| == PathCount(setup)
  {
    StateSpec(setup);
    var pms := PerfectMatchings(setup);
    var n := PathCount(setup);
    forall i | 0 <= i < |State(setup)| ensures |State(setup)[i].ket| == n {
      assert State(setup)[i] in State(setup);
      var k :| 0 <= k < |pms| && KetOf(setup, pms[k], n) == State(setup)[i].ket;
      MatchingKetFull(setup, pms[k]);
    }
  }

  /** The paths `0 .. n - 1`. */
  function PathRange(n: nat): set<nat>
  {
    if n == 0 then {} else PathRange(n - 1) + {n - 1}
  }

  /** `PathRange(n)` holds exactly the `n` numbers below `n`. */
  lemma {:induction false} PathRangeSpec(n: nat)
    ensures forall p: nat :: p in PathRange(n) <==> p < n
    ensures |PathRange(n)| == n
  {
    if n > 0 {
      PathRangeSpec(n - 1);
      assert n - 1 !in PathRange(n - 1);
    }
  }

  /** In a well-formed setup the paths are exactly `0 .. PathCount - 1`. */
  lemma {:induction false} PathsAreRange(setup: Setup)
    requires WellFormed(setup)
    ensures Vertices(setup, AllSources(setup)) == PathRange(PathCount(setup))
  {
    var all := AllSources(setup);
    var n := PathCount(setup);
    VerticesTouched(setup, all);
    forall v | v in Vertices(setup, all) ensures v < n {
      var i :| i in all && Touches(setup[i], v);
      assert setup[i] in setup;
    }
    PathRangeSpec(n);
    SubsetOfSameSize(Vertices(setup, all), PathRange(n));
  }

  /** A stored perfect matching of a well-formed setup reaches every path. */
  lemma {:induction false} MatchingCoversPaths(setup: Setup, x: seq<nat>)
    requires WellFormed(setup) && x in PerfectMatchings(setup)
    ensures ValidIn(setup, x) && VertexDisjoint(setup, x)
    ensures Vertices(setup, x) == PathRange(PathCount(setup))
  {
    PerfectMatchingsSound(setup, x);
    PathsAreRange(setup);
    SubsetOfSameSize(Vertices(setup, x), Vertices(setup, AllSources(setup)));
  }

  /** The ket of a stored perfect matching of a well-formed setup has one
      label per path, gives each path the mode that the source reaching it
      sends there, and so leaves no path at the initial 0 that the join could
      not turn into a character: every label is a single digit. */
  lemma {:induction false} MatchingKetFull(setup: Setup, x: seq<nat>)
    requires WellFormed(setup) && x in PerfectMatchings(setup)
    ensures ValidIn(setup, x) && PathsBelow(setup, x, PathCount(setup))
    ensures |KetOf(setup, x, PathCount(setup))| == PathCount(setup)
    ensures forall k :: 0 <= k < |x| ==>
              KetOf(setup, x, PathCount(setup))[setup[x[k]].path1] == setup[x[k]].mode1
              && KetOf(setup, x, PathCount(setup))[setup[x[k]].path2] == setup[x[k]].mode2
    ensures forall p :: 0 <= p < PathCount(setup) ==> 0 <= KetOf(setup, x, PathCount(setup))[p] <= 9
  {
    var n := PathCount(setup);
    MatchingsBelow(setup);
    var j :| 0 <= j < |PerfectMatchings(setup)| && PerfectMatchings(setup)[j] == x;
    MatchingCoversPaths(setup, x);
    PathRangeSpec(n);
    KetOfPlacesModes(setup, x, n);
    var ket := KetOf(setup, x, n);
    forall p | 0 <= p < n ensures 0 <= ket[p] <= 9 {
      DigitAt(setup, x, n, p);
    }
  }

  /** The label at a path that a source of the matching reaches is one of
      that source's modes. */
  lemma {:induction false} DigitAt(setup: Setup, x: seq<nat>, n: nat, p: nat)
    requires WellFormed(setup) && ValidIn(setup, x) && PathsBelow(setup, x, n) && VertexDisjoint(setup, x)
    requires p in Vertices(setup, x)
    ensures |KetOf(setup, x, n)| == n && p < n
    ensures 0 <= KetOf(setup, x, n)[p] <= 9
  {
    KetOfPlacesModes(setup, x, n);
    VerticesTouched(setup, x);
    var i :| i in x && Touches(setup[i], p);
    var k :| 0 <= k < |x| && x[k] == i;
    assert setup[i] in setup;
  }

  /** Builds the state of a setup: searches its perfect matchings, sums the
      amplitudes of equal kets, drops the kets that cancel, sorts by ket,
      divides by the norm and counts the ancilla photons.

      The norm is the square root of the sum of the squared amplitudes; the
      caller supplies it. The state is `Normalize(State(setup), norm)`, and
      `ancillas` is the largest suffix length below the number of paths
      shared by all of its kets. */
  method BuildState(setup: Setup, norm: real) returns (state: seq<ScaledEntry>, ancillas: nat)
    requires WellFormed(setup)
    requires norm >= 0.0 && norm * norm == SumSquares(State(setup)) as real
    ensures state == Normalize(State(setup), norm)
    ensures ancillas == 0 || ancillas < PathCount(setup)
    ensures forall j :: 1 <= j <= ancillas ==> SharesSuffix(KetList(State(setup)), j)
    ensures forall j :: ancillas < j < PathCount(setup) ==> !SharesSuffix(KetList(State(setup)), j)
  {
    var store := new MatchingStore();
    FindPerfectMatchings(setup, AllSources(setup), store, [], None);
    var perfectMatchings := store.matchings;
    assert perfectMatchings == PerfectMatchings(setup);
    var pathCount := PathCount(setup);
    MatchingsBelow(setup);

    var dict := Interfere(setup, perfectMatchings, pathCount);
    dict := DropZeros(dict);
    dict := SortByKey(dict);
    assert dict == State(setup);
    state := Normalize(dict, norm);
    NormalizeSpec(dict, norm);
    var keys := seq(|state|, i requires 0 <= i < |state| => state[i].ket);
    assert keys == KetList(State(setup));
    ancillas := CountAncillas(keys, pathCount);
  }

  /** The loop over the stored matchings: each one's ket and amplitude are
      assembled and added to what the dictionary holds for that ket. */
  method Interfere(setup: Setup, perfectMatchings: seq<seq<nat>>, pathCount: nat) returns (dict: seq<Entry>)
    requires AllBelow(setup, perfectMatchings, pathCount)
    ensures dict == Accumulate(setup, perfectMatchings, pathCount)
  {
    dict := [];
    for i := 0 to |perfectMatchings|
      invariant AllBelow(setup, perfectMatchings[..i], pathCount)
      invariant dict == Accumulate(setup, perfectMatchings[..i], pathCount)
    {
      var ket, amplitude := AssembleKet(setup, perfectMatchings[i], pathCount);
      PrefixStep(setup, perfectMatchings, i, pathCount);
      dict := Put(dict, ket, Get(dict, ket) + amplitude);
    }
    assert perfectMatchings[..|perfectMatchings|] == perfectMatchings;
  }

  /** Adding matching `i` to the dictionary built from the ones before it
      gives the dictionary built from the first `i + 1`. */
  lemma {:induction false} PrefixStep(setup: Setup, pms: seq<seq<nat>>, i: nat, n: nat)
    requires AllBelow(setup, pms, n) && i < |pms|
    ensures AllBelow(setup, pms[..i], n) && AllBelow(setup, pms[..i + 1], n)
    ensures Accumulate(setup, pms[..i + 1], n)
         == Put(Accumulate(setup, pms[..i], n),
                KetOf(setup, pms[i], n),
                Get(Accumulate(setup, pms[..i], n), KetOf(setup, pms[i], n)) + Product(setup, pms[i]))
  {
    assert pms[..i + 1][..i] == pms[..i];
    assert pms[..i + 1][i] == pms[i];
  }
}
